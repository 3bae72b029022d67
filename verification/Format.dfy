/** Human-readable byte counts. */
module Format {
  import opened Wire

  const UNIT := 1024
  const LETTERS := "KMGTPE"

  function Power(k: nat): nat {
    if k == 0 then 1 else UNIT * Power(k - 1)
  }

  /** `b` divided by 1024, rounding down, `k` times over. */
  function Shrunk(b: nat, k: nat): nat {
    if k == 0 then b else Shrunk(b, k - 1) / UNIT
  }

  lemma MulGrows(p: nat, x: nat, y: nat)
    requires x <= y
    ensures p * x <= p * y
  {
  }

  lemma {:induction false} ShrunkIsQuotient(b: nat, k: nat)
    ensures Power(k) * Shrunk(b, k) <= b < Power(k) * (Shrunk(b, k) + 1)
  {
    if k > 0 {
      ShrunkIsQuotient(b, k - 1);
      var p, q := Power(k - 1), Shrunk(b, k - 1);
      var r := q / UNIT;
      MulGrows(p, UNIT * r, q);
      MulGrows(p, q + 1, UNIT * (r + 1));
      Reassociate(p, r);
      Reassociate(p, r + 1);
    }
  }

  lemma Reassociate(p: nat, r: nat)
    ensures (UNIT * p) * r == p * (UNIT * r)
  {
  }

  lemma PowersBelow64Bits()
    ensures Power(0) == 1 && Power(1) == 0x400 && Power(2) == 0x10_0000 && Power(3) == 0x4000_0000
    ensures Power(4) == 0x100_0000_0000 && Power(5) == 0x4_0000_0000_0000 && Power(6) == 0x1000_0000_0000_0000
  {
    assert Power(3) == UNIT * Power(2);
    assert Power(6) == UNIT * Power(5) && Power(5) == UNIT * Power(4) && Power(4) == UNIT * Power(3);
  }

  /** The pieces of the printed text: a plain count, or `b / div` with a unit letter. */
  datatype Size = Plain(count: u64) | Scaled(div: nat, letter: char)

  /** Kilobytes from 1024 bytes on, megabytes from 1024 of those on, and so forth. */
  function UnitLetter(b: u64): char {
    if b < 0x10_0000 then 'K'
    else if b < 0x4000_0000 then 'M'
    else if b < 0x100_0000_0000 then 'G'
    else if b < 0x4_0000_0000_0000 then 'T'
    else if b < 0x1000_0000_0000_0000 then 'P'
    else 'E'
  }

  /** formatBytes up to rendering the quotient: the divisor never leaves 64 bits, is the largest power
      of 1024 not above `b`, and always has a letter. */
  method FormatBytes(b: u64) returns (s: Size)
    ensures b < UNIT ==> s == Plain(b)
    ensures b >= UNIT ==> exists exp: nat ::
      && exp <= 5 && s == Scaled(Power(exp + 1), LETTERS[exp])
      && s.div <= b < UNIT * s.div
    ensures b >= UNIT ==> s.Scaled? && s.letter == UnitLetter(b)
  {
    if b < UNIT { return Plain(b); }
    PowersBelow64Bits();
    var div: u64, exp := UNIT, 0;
    var n: u64 := b / UNIT;
    assert Shrunk(b, 1) == Shrunk(b, 0) / UNIT;
    while n >= UNIT
      invariant 0 <= exp <= 5 && div == Power(exp + 1) && 1 <= n == Shrunk(b, exp + 1)
      decreases n
    {
      ShrunkIsQuotient(b, exp + 1);
      MulGrows(div, UNIT, n);
      div := div * UNIT;
      exp := exp + 1;
      n := n / UNIT;
    }
    ShrunkIsQuotient(b, exp + 1);
    MulGrows(div, 1, n);
    MulGrows(div, n + 1, UNIT);
    s := Scaled(div, LETTERS[exp]);
  }
}
