/** The Internet checksum of the smoke test (section 1 of RFC 1071). */
module Checksum {
  import opened Wire

  function Padded(b: seq<u8>): (p: seq<u8>)
    ensures |p| % 2 == 0
  {
    if |b| % 2 == 1 then b + [0] else b
  }

  function Word(b: seq<u8>, i: nat): u16
    requires i + 1 < |b|
  {
    BeWord16(b[i..i + 2])
  }

  /** The plain sum of the big-endian 16-bit words. */
  function WordSum(b: seq<u8>): nat
    requires |b| % 2 == 0
  {
    if b == [] then 0 else WordSum(b[..|b| - 2]) + Word(b, |b| - 2)
  }

  /** The one's-complement sum in closed form: the representative of `sum` modulo 65535 that is
      non-zero for every non-zero sum. */
  function OnesSum(sum: nat): u16 {
    if sum == 0 then 0 else 1 + (sum - 1) % 0xFFFF
  }

  function Checksum(b: seq<u8>): u16 {
    0xFFFF - OnesSum(WordSum(Padded(b)))
  }

  /** (res & 0xFFFF) + (res >> 16). */
  function Fold(x: nat): nat {
    x % 0x1_0000 + x / 0x1_0000
  }

  /** One fold after each addition is enough: it keeps the accumulator within 16 bits. */
  lemma FoldIsOnesSum(sum: nat, w: u16)
    ensures Fold(OnesSum(sum) as nat + w) == OnesSum(sum + w)
  {
    var x := OnesSum(sum) as nat + w;
    if sum > 0 {
      assert (sum + w - 1) % 0xFFFF == (x - 1) % 0xFFFF;
    }
  }

  // ----- what the sum is --------------------------------------------------------------------

  /** The sum is that of its parts, and of one word it is that word, high byte first. */
  lemma {:induction false} WordSumAdds(a: seq<u8>, b: seq<u8>)
    requires |a| % 2 == 0 && |b| % 2 == 0
    ensures |a + b| % 2 == 0 && WordSum(a + b) == WordSum(a) + WordSum(b)
    decreases |b|
  {
    if b == [] {
      assert a + b == a;
    } else {
      var n := |b| - 2;
      assert (a + b)[..|a| + n] == a + b[..n] && (a + b)[|a| + n..] == b[n..];
      WordSumAdds(a, b[..n]);
    }
  }

  lemma WordSumOfWord(x: u8, y: u8)
    ensures WordSum([x, y]) == 0x100 * x as int + y
  {
    assert [x, y][..0] == [] && [x, y][0..2] == [x, y];
  }

  predicate AllZero(b: seq<u8>) {
    forall i :: 0 <= i < |b| ==> b[i] == 0
  }

  lemma AllZeroSplits(b: seq<u8>, n: nat)
    requires |b| == n + 2
    ensures AllZero(b) <==> AllZero(b[..n]) && b[n] == 0 && b[n + 1] == 0
  {
    assert forall i :: 0 <= i < n ==> b[..n][i] == b[i];
  }

  lemma {:induction false} ZeroSum(b: seq<u8>)
    requires |b| % 2 == 0
    ensures WordSum(b) == 0 <==> AllZero(b)
    decreases |b|
  {
    if b != [] {
      var n := |b| - 2;
      ZeroSum(b[..n]);
      AllZeroSplits(b, n);
      var hi: int, lo: int := b[n], b[n + 1];
      assert Word(b, n) == 0x100 * hi + lo;
    }
  }

  /** The two differ by a multiple of 0xFFFF. */
  ghost predicate Congruent(a: nat, b: nat) {
    exists q :: OffBy(a, b, q)
  }

  predicate OffBy(a: nat, b: nat, q: int) {
    b == a + 0xFFFF * q
  }

  lemma OnesSumIsCongruent(sum: nat)
    ensures Congruent(OnesSum(sum), sum)
    ensures OnesSum(sum) == 0 <==> sum == 0
  {
    var q := if sum == 0 then 0 else (sum - 1) / 0xFFFF;
    assert OffBy(OnesSum(sum), sum, q);
  }

  lemma PaddingIsZero(data: seq<u8>)
    ensures AllZero(Padded(data)) <==> AllZero(data)
  {
    assert forall i :: 0 <= i < |data| ==> Padded(data)[i] == data[i];
  }

  /** What the checksum is: the complement of the sum modulo 0xFFFF ... */
  lemma ChecksumIsCongruent(data: seq<u8>)
    ensures Congruent(0xFFFF - Checksum(data), WordSum(Padded(data)))
  {
    OnesSumIsCongruent(WordSum(Padded(data)));
  }

  /** ... and 0xFFFF for zero bytes alone. */
  lemma ChecksumOfZeros(data: seq<u8>)
    ensures Checksum(data) == 0xFFFF <==> AllZero(data)
  {
    OnesSumIsCongruent(WordSum(Padded(data)));
    ZeroSum(Padded(data));
    PaddingIsZero(data);
  }

  /** One turn of the loop. */
  lemma FoldNextWord(b: seq<u8>, i: nat)
    requires i % 2 == 0 && i + 2 <= |b|
    ensures Fold(OnesSum(WordSum(b[..i])) as nat + (0x100 * (b[i] as int) + b[i + 1])) == OnesSum(WordSum(b[..i + 2]))
  {
    var w: u16 := 0x100 * b[i] as int + b[i + 1];
    assert b[..i + 2][..i] == b[..i] && b[..i + 2][i..i + 2] == [b[i], b[i + 1]];
    assert Word(b[..i + 2], i) == w;
    FoldIsOnesSum(WordSum(b[..i]), w);
  }

  /** _csum. */
  method Csum(data: seq<u8>) returns (r: u16)
    ensures r == Checksum(data)
    ensures Congruent(0xFFFF - r, WordSum(if |data| % 2 == 0 then data else data + [0]))
    ensures r == 0xFFFF <==> AllZero(data)
  {
    var b := data;
    if |b| % 2 == 1 {
      b := b + [0];
    }
    r := SumWords(b);
    assert b == Padded(data);
    ChecksumIsCongruent(data);
    ChecksumOfZeros(data);
  }

  /** The loop of _csum. */
  method SumWords(b: seq<u8>) returns (r: u16)
    requires |b| % 2 == 0
    ensures r == 0xFFFF - OnesSum(WordSum(b))
  {
    var res: u16 := 0;
    var i := 0;
    while i < |b|
      invariant 0 <= i <= |b| && i % 2 == 0
      invariant res == OnesSum(WordSum(b[..i]))
    {
      var w := 0x100 * (b[i] as int) + b[i + 1];
      FoldNextWord(b, i);
      res := Fold(res as nat + w);
      i := i + 2;
    }
    assert b[..i] == b;
    r := 0xFFFF - res;
  }

  /** `b` with the 16-bit field at `i` set to `c` in network order. */
  function WithField(b: seq<u8>, i: nat, c: u16): seq<u8>
    requires i + 1 < |b|
  {
    b[i := c / 0x100][i + 1 := c % 0x100]
  }

  lemma {:induction false} FieldAddsToSum(b: seq<u8>, i: nat, c: u16)
    requires |b| % 2 == 0 && i % 2 == 0 && i + 1 < |b| && b[i] == b[i + 1] == 0
    ensures WordSum(WithField(b, i, c)) == WordSum(b) + c
    decreases |b|
  {
    var n := |b| - 2;
    if i == n {
      assert WithField(b, i, c)[..n] == b[..n];
    } else {
      assert WithField(b, i, c)[..n] == WithField(b[..n], i, c);
      assert WithField(b, i, c)[n..n + 2] == b[n..n + 2];
      FieldAddsToSum(b[..n], i, c);
    }
  }

  lemma ComplementCompletes(sum: nat)
    ensures OnesSum(sum + (0xFFFF - OnesSum(sum))) == 0xFFFF
  {
  }

  /** Self-verification: writing the checksum of data with a zero, 16-bit aligned field into that
      field makes the checksum of the whole 0; for data of any length, odd ones included. */
  lemma ChecksumVerifies(b: seq<u8>, i: nat)
    requires i % 2 == 0 && i + 1 < |b| && b[i] == b[i + 1] == 0
    ensures Checksum(WithField(b, i, Checksum(b))) == 0
  {
    var c := Checksum(b);
    assert Padded(WithField(b, i, c)) == WithField(Padded(b), i, c);
    FieldAddsToSum(Padded(b), i, c);
    ComplementCompletes(WordSum(Padded(b)));
  }

  /** The pseudo-header and segment that _tcp_csum sums. */
  function PseudoSegment(src: Ip4, dst: Ip4, tcp: seq<u8>): seq<u8>
    requires |tcp| < 0x1_0000
  {
    src + dst + [0, 6, |tcp| / 0x100, |tcp| % 0x100] + tcp
  }

  /** The words of the pseudo-header: addresses, protocol number 6 and segment length (section 3.1 of
      RFC 9293), and then those of the segment. */
  lemma PseudoSum(src: Ip4, dst: Ip4, tcp: seq<u8>)
    requires |tcp| < 0x1_0000
    ensures |Padded(PseudoSegment(src, dst, tcp))| % 2 == 0
    ensures WordSum(Padded(PseudoSegment(src, dst, tcp))) ==
      WordSum(src) + WordSum(dst) + 6 + |tcp| + WordSum(if |tcp| % 2 == 0 then tcp else tcp + [0])
  {
    var tail := if |tcp| % 2 == 0 then tcp else tcp + [0];
    assert Padded(PseudoSegment(src, dst, tcp)) == src + dst + [0, 6] + [|tcp| / 0x100, |tcp| % 0x100] + tail;
    WordSumAdds(src, dst);
    WordSumAdds(src + dst, [0, 6]);
    WordSumAdds(src + dst + [0, 6], [|tcp| / 0x100, |tcp| % 0x100]);
    WordSumAdds(src + dst + [0, 6] + [|tcp| / 0x100, |tcp| % 0x100], tail);
    WordSumOfWord(0, 6);
    WordSumOfWord(|tcp| / 0x100, |tcp| % 0x100);
  }

  /** A TCP segment filled in with _tcp_csum's result passes the receiver's check. */
  lemma TcpChecksumVerifies(src: Ip4, dst: Ip4, tcp: seq<u8>)
    requires 18 <= |tcp| < 0x1_0000 && tcp[16] == tcp[17] == 0
    ensures var c := Checksum(PseudoSegment(src, dst, tcp));
      Checksum(PseudoSegment(src, dst, WithField(tcp, 16, c))) == 0
  {
    var p := PseudoSegment(src, dst, tcp);
    var c := Checksum(p);
    ChecksumVerifies(p, 28);
    assert PseudoSegment(src, dst, WithField(tcp, 16, c)) == WithField(p, 28, c);
  }
}
