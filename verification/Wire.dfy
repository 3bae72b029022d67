/** Fixed-width integers, byte orders, and the layouts of the map keys. */
module Wire {

  type u8 = x: int | 0 <= x < 0x100
  type u16 = x: int | 0 <= x < 0x1_0000
  type u32 = x: int | 0 <= x < 0x1_0000_0000
  type u64 = x: int | 0 <= x < 0x1_0000_0000_0000_0000

  /** A four-byte IPv4 address as Go's net.IP holds it: network order, first octet first. */
  type Ip4 = b: seq<u8> | |b| == 4 witness [0, 0, 0, 0]

  function LeBytes16(w: u16): seq<u8> {
    [w % 0x100, w / 0x100]
  }

  function LeWord16(b: seq<u8>): u16
    requires |b| == 2
  {
    var b0: int, b1: int := b[0], b[1];
    b0 + 0x100 * b1
  }

  function BeWord16(b: seq<u8>): u16
    requires |b| == 2
  {
    var b0: int, b1: int := b[0], b[1];
    0x100 * b0 + b1
  }

  function LeBytes32(w: u32): Ip4 {
    [w % 0x100, w / 0x100 % 0x100, w / 0x100 / 0x100 % 0x100, w / 0x100 / 0x100 / 0x100]
  }

  function LeWord32(b: Ip4): u32 {
    var b0: int, b1: int, b2: int, b3: int := b[0], b[1], b[2], b[3];
    b0 + 0x100 * b1 + 0x1_0000 * b2 + 0x100_0000 * b3
  }

  /** The number a four-byte address denotes when its first octet is the most significant. */
  function BeWord32(b: Ip4): u32 {
    var b0: int, b1: int, b2: int, b3: int := b[0], b[1], b[2], b[3];
    0x100_0000 * b0 + 0x1_0000 * b1 + 0x100 * b2 + b3
  }

  /** portToWire: the little-endian word whose bytes are the port in network order. */
  function PortToWire(p: u16): u16 {
    LeWord16([p / 0x100, p % 0x100])
  }

  /** wireToPort: rebuilds the two wire bytes and reads them big-endian. */
  function WireToPort(w: u16): u16 {
    BeWord16([w % 0x100, w / 0x100])
  }

  /** The two port conversions undo each other in both directions, and only 0 ("any") encodes 0. */
  lemma PortConversionsInverse(x: u16)
    ensures WireToPort(PortToWire(x)) == x && PortToWire(WireToPort(x)) == x
    ensures PortToWire(x) == 0 <==> x == 0
    ensures LeBytes16(PortToWire(x)) == [x / 0x100, x % 0x100]
  {
  }

  lemma Digit(x: nat, d: u8)
    ensures (d + 0x100 * x) / 0x100 == x && (d + 0x100 * x) % 0x100 == d
  {
  }

  /** A word and its four little-endian bytes determine each other. */
  lemma WordBytesInverse(w: u32, b: Ip4)
    ensures LeWord32(LeBytes32(w)) == w
    ensures LeBytes32(LeWord32(b)) == b
  {
    var b1: int, b2: int, b3: int := b[1], b[2], b[3];
    Digit(b1 + 0x100 * (b2 + 0x100 * b3), b[0]);
    Digit(b2 + 0x100 * b3, b[1]);
    Digit(b3, b[2]);
    assert LeWord32(b) == b[0] + 0x100 * (b1 + 0x100 * (b2 + 0x100 * b3));
  }
}
