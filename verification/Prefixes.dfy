/** Address prefixes: clearing and comparing the leading bits of an IPv4 address. */
module Prefixes {
  import opened Wire

  /** `v` without its `n` low bits. */
  function Top(v: nat, n: nat): nat {
    if n == 0 then v else Top(v / 2, n - 1)
  }

  /** `v` with its `n` low bits set to 0. */
  function ClearLow(v: nat, n: nat): (r: nat)
    ensures r <= v
  {
    if n == 0 then v else 2 * ClearLow(v / 2, n - 1)
  }

  /** The address word `w` with everything after its first `plen` network-order bits cleared. */
  function Mask(w: u32, plen: u32): u32
    requires plen <= 32
  {
    BeWord32(LeBytes32(ClearLow(BeWord32(LeBytes32(w)), 32 - plen)))
  }

  lemma {:induction false} ClearLowSharesTop(u: nat, v: nat, n: nat)
    ensures Top(ClearLow(v, n), n) == Top(v, n)
    ensures ClearLow(u, n) == ClearLow(v, n) <==> Top(u, n) == Top(v, n)
  {
    if n > 0 {
      assert 2 * ClearLow(v / 2, n - 1) / 2 == ClearLow(v / 2, n - 1);
      ClearLowSharesTop(u / 2, v / 2, n - 1);
    }
  }

  lemma SwapTwice(w: u32)
    ensures BeWord32(LeBytes32(BeWord32(LeBytes32(w)))) == w
  {
    var b := LeBytes32(w);
    WordBytesInverse(w, b);
    var r := [b[3], b[2], b[1], b[0]];
    assert BeWord32(b) == LeWord32(r);
    WordBytesInverse(0, r);
  }

  /** Two words have the same mask exactly when their first `plen` network-order bits agree. */
  lemma MaskKeepsTop(u: u32, w: u32, plen: u32)
    requires plen <= 32
    ensures Mask(u, plen) == Mask(w, plen) <==>
      Top(BeWord32(LeBytes32(u)), 32 - plen) == Top(BeWord32(LeBytes32(w)), 32 - plen)
  {
    var a, b: u32 := ClearLow(BeWord32(LeBytes32(u)), 32 - plen), ClearLow(BeWord32(LeBytes32(w)), 32 - plen);
    ClearLowSharesTop(BeWord32(LeBytes32(u)), BeWord32(LeBytes32(w)), 32 - plen);
    SwapIsInjective(a, b);
  }

  lemma SwapIsInjective(a: u32, b: u32)
    ensures BeWord32(LeBytes32(a)) == BeWord32(LeBytes32(b)) <==> a == b
  {
    SwapTwice(a);
    SwapTwice(b);
  }

  // ----- prefixes as octets and bits ---------------------------------------------

  const POWERS: seq<nat> := [1, 2, 4, 8, 16, 32, 64, 128]

  /** The first `n` bits of two addresses agree, the first octet's most significant bit being the first: their
      first n / 8 octets are the same, and so are the n % 8 high bits of the next. */
  predicate SameLeadingBits(a: Ip4, b: Ip4, n: nat)
    requires n <= 32
  {
    && a[..n / 8] == b[..n / 8]
    && (n % 8 != 0 ==> a[n / 8] / POWERS[8 - n % 8] == b[n / 8] / POWERS[8 - n % 8])
  }

  /** No bit is set after the first `n`. */
  predicate NoBitsAfter(a: Ip4, n: nat)
    requires n <= 32
  {
    && (n % 8 != 0 ==> a[n / 8] % POWERS[8 - n % 8] == 0)
    && forall i :: (n + 7) / 8 <= i < 4 ==> a[i] == 0
  }

  /** The number that the first `n` octets make. */
  function Octets(a: Ip4, n: nat): nat
    requires n <= 4
  {
    if n == 0 then 0 else 0x100 * Octets(a, n - 1) + a[n - 1]
  }

  lemma {:induction false} SameOctets(a: Ip4, b: Ip4, n: nat)
    requires n <= 4
    ensures Octets(a, n) == Octets(b, n) <==> a[..n] == b[..n]
  {
    if n > 0 {
      SameOctets(a, b, n - 1);
      assert a[..n] == a[..n - 1] + [a[n - 1]] && b[..n] == b[..n - 1] + [b[n - 1]];
    }
  }

  function Pow2(n: nat): nat {
    if n == 0 then 1 else 2 * Pow2(n - 1)
  }

  /** Within one octet, dropping and clearing low bits are division by a power of two. */
  lemma {:induction false} OctetBits(x: u8, n: nat)
    requires n < 8
    ensures Top(x, n) == x / POWERS[n]
    ensures ClearLow(x, n) == x <==> x % POWERS[n] == 0
    decreases n
  {
    if n > 0 {
      OctetBits(x / 2, n - 1);
      var h := x / 2;
      assert ClearLow(x, n) == 2 * ClearLow(h, n - 1);
      if n == 1 {
      } else if n == 2 {
      } else if n == 3 {
      } else if n == 4 {
      } else if n == 5 {
      } else if n == 6 {
      }
    }
  }

  lemma QuotientOf(v: nat, p: nat, q: nat, r: nat)
    requires r < p && v == p * q + r
    ensures v / p == q && v % p == r
  {
    var d := v / p - q;
    assert p * (v / p) + v % p == v;
    assert p * d == r - v % p;
    if d != 0 { AtLeastFactor(p, d); }
  }

  lemma AtLeastFactor(p: int, d: int)
    requires p >= 0 && d != 0
    ensures p * d >= p || p * d <= -p
  {
    if d > 0 { assert p * (d - 1) >= 0; } else { assert p * (-d - 1) >= 0; }
  }

  /** Dropping low bits of `x` from a number whose last `c` bits are `x`. */
  lemma {:induction false} TopSplits(c: nat, v: nat, x: nat, w: nat, y: nat, n: nat)
    requires n <= c && x < Pow2(c) && y < Pow2(c)
    ensures Top(Pow2(c) * v + x, n) == Top(Pow2(c) * w + y, n) <==> v == w && Top(x, n) == Top(y, n)
    decreases n
  {
    if n == 0 {
      if Pow2(c) * v + x == Pow2(c) * w + y {
        QuotientOf(Pow2(c) * v + x, Pow2(c), v, x);
        QuotientOf(Pow2(c) * w + y, Pow2(c), w, y);
      }
    } else {
      HalfOf(c, v, x);
      HalfOf(c, w, y);
      TopSplits(c - 1, v, x / 2, w, y / 2, n - 1);
    }
  }

  lemma HalfOf(c: nat, v: nat, x: nat)
    requires c > 0
    ensures (Pow2(c) * v + x) / 2 == Pow2(c - 1) * v + x / 2
  {
    var t := Pow2(c - 1) * v;
    assert Pow2(c) * v == 2 * t;
  }

  lemma EightBits()
    ensures Pow2(8) == 0x100
  {
    assert Pow2(8) == 4 * Pow2(6) && Pow2(6) == 4 * Pow2(4) && Pow2(4) == 4 * Pow2(2) && Pow2(2) == 4;
  }

  lemma {:induction false} TopDropsOctet(v: nat, x: u8, n: nat)
    requires n >= 8
    ensures Top(0x100 * v + x, n) == Top(v, n - 8)
  {
    var z: int := 0x100 * v + x;
    assert Top(z, n) == Top(z / 2, n - 1) == Top(z / 2 / 2, n - 2) == Top(z / 2 / 2 / 2, n - 3);
    var z3 := z / 2 / 2 / 2;
    assert z3 == z / 8;
    assert Top(z3, n - 3) == Top(z3 / 2, n - 4) == Top(z3 / 2 / 2, n - 5) == Top(z3 / 2 / 2 / 2, n - 6);
    var z6 := z3 / 2 / 2 / 2;
    assert Top(z6, n - 6) == Top(z6 / 2, n - 7) == Top(z6 / 2 / 2, n - 8);
    assert z6 / 2 / 2 == v;
  }

  /** Dropping less than one octet. */
  lemma TopInOctet(a: Ip4, b: Ip4, n: nat, d: nat)
    requires 0 < n <= 4 && d < 8
    ensures Top(Octets(a, n), d) == Top(Octets(b, n), d) <==>
      a[..n - 1] == b[..n - 1] && a[n - 1] / POWERS[d] == b[n - 1] / POWERS[d]
  {
    EightBits();
    TopSplits(8, Octets(a, n - 1), a[n - 1], Octets(b, n - 1), b[n - 1], d);
    SameOctets(a, b, n - 1);
    OctetBits(a[n - 1], d);
    OctetBits(b[n - 1], d);
  }

  lemma {:induction false} TopIsLeadingBits(a: Ip4, b: Ip4, n: nat, d: nat)
    requires n <= 4 && d <= 8 * n
    ensures Top(Octets(a, n), d) == Top(Octets(b, n), d) <==> SameLeadingBits(a, b, 8 * n - d)
    decreases n
  {
    if d >= 8 {
      TopDropsOctet(Octets(a, n - 1), a[n - 1], d);
      TopDropsOctet(Octets(b, n - 1), b[n - 1], d);
      TopIsLeadingBits(a, b, n - 1, d - 8);
    } else if d == 0 {
      SameOctets(a, b, n);
    } else {
      assert (8 * n - d) / 8 == n - 1 && (8 * n - d) % 8 == 8 - d;
      TopInOctet(a, b, n, d);
    }
  }

  lemma BigEndianIsOctets(a: Ip4)
    ensures BeWord32(a) == Octets(a, 4)
  {
    assert Octets(a, 4) == 0x100 * Octets(a, 3) + a[3] && Octets(a, 3) == 0x100 * Octets(a, 2) + a[2];
    assert Octets(a, 2) == 0x100 * Octets(a, 1) + a[1] && Octets(a, 1) == 0x100 * Octets(a, 0) + a[0];
  }

  // ----- what it means to have no host bits ----------------------------------------

  lemma ClearThree(z: nat, n: nat)
    requires n >= 3
    ensures ClearLow(z, n) == 8 * ClearLow(z / 8, n - 3)
  {
    assert ClearLow(z, n) == 2 * ClearLow(z / 2, n - 1);
    assert ClearLow(z / 2, n - 1) == 2 * ClearLow(z / 2 / 2, n - 2);
    assert ClearLow(z / 2 / 2, n - 2) == 2 * ClearLow(z / 2 / 2 / 2, n - 3);
    assert z / 2 / 2 / 2 == z / 8;
  }

  lemma ClearLowDropsOctet(v: nat, x: u8, n: nat)
    requires n >= 8
    ensures ClearLow(0x100 * v + x, n) == 0x100 * ClearLow(v, n - 8)
  {
    var z: int := 0x100 * v + x;
    ClearThree(z, n);
    ClearThree(z / 8, n - 3);
    assert ClearLow(z / 64, n - 6) == 2 * ClearLow(z / 64 / 2, n - 7);
    assert ClearLow(z / 64 / 2, n - 7) == 2 * ClearLow(z / 64 / 2 / 2, n - 8);
    assert z / 8 / 8 == z / 64 && z / 64 / 2 / 2 == v;
  }

  /** `h` ends in `n` zero bits. */
  predicate EndsInZeros(h: nat, n: nat) {
    n == 0 || (h % 2 == 0 && EndsInZeros(h / 2, n - 1))
  }

  lemma {:induction false} ClearLowSplits(h: nat, x: nat, n: nat)
    requires EndsInZeros(h, n)
    ensures ClearLow(h + x, n) == h + ClearLow(x, n)
    decreases n
  {
    if n > 0 {
      ClearLowSplits(h / 2, x / 2, n - 1);
      assert (h + x) / 2 == h / 2 + x / 2;
    }
  }

  lemma {:induction false} FewerZeros(h: nat, n: nat, m: nat)
    requires EndsInZeros(h, n) && m <= n
    ensures EndsInZeros(h, m)
    decreases m
  {
    if m > 0 { FewerZeros(h / 2, n - 1, m - 1); }
  }

  lemma OneMoreZero(h: nat, n: nat)
    requires EndsInZeros(h, n)
    ensures EndsInZeros(2 * h, n + 1)
  {
    assert 2 * h / 2 == h;
  }

  lemma OctetZeros(v: nat)
    ensures EndsInZeros(0x100 * v, 8)
  {
    OneMoreZero(v, 0);
    OneMoreZero(2 * v, 1);
    OneMoreZero(4 * v, 2);
    OneMoreZero(8 * v, 3);
    OneMoreZero(0x10 * v, 4);
    OneMoreZero(0x20 * v, 5);
    OneMoreZero(0x40 * v, 6);
    OneMoreZero(0x80 * v, 7);
  }

  /** Clearing less than one octet. */
  lemma ClearLowInOctet(a: Ip4, n: nat, d: nat)
    requires 0 < n <= 4 && d < 8
    ensures ClearLow(Octets(a, n), d) == Octets(a, n) <==> a[n - 1] % POWERS[d] == 0
  {
    OctetZeros(Octets(a, n - 1));
    FewerZeros(0x100 * Octets(a, n - 1), 8, d);
    ClearLowSplits(0x100 * Octets(a, n - 1), a[n - 1], d);
    OctetBits(a[n - 1], d);
  }

  lemma {:induction false} ClearLowIsNoBits(a: Ip4, n: nat, d: nat)
    requires n <= 4 && d <= 8 * n && forall i :: n <= i < 4 ==> a[i] == 0
    ensures ClearLow(Octets(a, n), d) == Octets(a, n) <==> NoBitsAfter(a, 8 * n - d)
    decreases n
  {
    if d >= 8 {
      ClearLowDropsOctet(Octets(a, n - 1), a[n - 1], d);
      if a[n - 1] == 0 { ClearLowIsNoBits(a, n - 1, d - 8); }
    } else if d > 0 {
      assert (8 * n - d) / 8 == n - 1 && (8 * n - d) % 8 == 8 - d && (8 * n - d + 7) / 8 == n;
      ClearLowInOctet(a, n, d);
    }
  }

  lemma MaskKeepsWord(w: u32, plen: u32)
    requires plen <= 32
    ensures Mask(w, plen) == w <==> ClearLow(BeWord32(LeBytes32(w)), 32 - plen) == BeWord32(LeBytes32(w))
  {
    var v: u32 := BeWord32(LeBytes32(w));
    var c: u32 := ClearLow(v, 32 - plen);
    SwapTwice(w);
    SwapIsInjective(c, v);
  }
}
