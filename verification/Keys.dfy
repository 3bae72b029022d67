/** The map keys the daemon builds, and their bytes. */
module Keys {
  import opened Wire
  import opened Policy

  /** newLpmKey over a parsed network: its address bytes and prefix length. */
  function NewLpmKey(ip: Ip4, ones: u32): LpmKey {
    LpmKey(ones, LeWord32(ip))
  }

  /** A port rule as the operator names it. */
  datatype PortId = PortId(dst: Ip4, protocol: u8, dport: u16, sport: u16)

  function NewPortKey(id: PortId): PortKey {
    PortKey(id.protocol, PortToWire(id.dport), PortToWire(id.sport), LeWord32(id.dst))
  }

  /** What List reads back out of a stored key. */
  function PortIdOf(k: PortKey): PortId {
    PortId(LeBytes32(k.dst), k.protocol, WireToPort(k.dport), WireToPort(k.sport))
  }

  lemma PortKeyInverse(id: PortId, k: PortKey)
    ensures PortIdOf(NewPortKey(id)) == id
    ensures NewPortKey(PortIdOf(k)) == k
  {
    PortConversionsInverse(id.dport);
    PortConversionsInverse(id.sport);
    PortConversionsInverse(k.dport);
    PortConversionsInverse(k.sport);
    WordBytesInverse(k.dst, id.dst);
  }

  /** struct port_rule_key in memory: natural alignment pads after the protocol and before dst. */
  function PortKeyBytes(k: PortKey): (b: seq<u8>)
    ensures |b| == 12
  {
    [k.protocol, 0] + LeBytes16(k.dport) + LeBytes16(k.sport) + [0, 0] + LeBytes32(k.dst)
  }

  function LpmKeyBytes(k: LpmKey): (b: seq<u8>)
    ensures |b| == 8
  {
    LeBytes32(k.prefixlen) + LeBytes32(k.data)
  }

  /** The hash compares bytes, so equal bytes must mean equal keys. */
  lemma KeyBytesInjective(a: PortKey, b: PortKey)
    requires PortKeyBytes(a) == PortKeyBytes(b)
    ensures a == b
  {
    var x, y := PortKeyBytes(a), PortKeyBytes(b);
    assert x[0] == a.protocol && y[0] == b.protocol;
    assert x[2..4] == LeBytes16(a.dport) && y[2..4] == LeBytes16(b.dport);
    assert x[4..6] == LeBytes16(a.sport) && y[4..6] == LeBytes16(b.sport);
    assert x[8..12] == LeBytes32(a.dst) && y[8..12] == LeBytes32(b.dst);
    WordBytesInverse(a.dst, [0, 0, 0, 0]);
    WordBytesInverse(b.dst, [0, 0, 0, 0]);
    assert LeWord16(LeBytes16(a.dport)) == a.dport && LeWord16(LeBytes16(b.dport)) == b.dport;
    assert LeWord16(LeBytes16(a.sport)) == a.sport && LeWord16(LeBytes16(b.sport)) == b.sport;
  }

  /** The trie key's data bytes are the address bytes themselves, in network order. */
  lemma LpmKeyHoldsWireBytes(ip: Ip4, ones: u32)
    ensures LpmKeyBytes(NewLpmKey(ip, ones))[4..] == ip
  {
    WordBytesInverse(0, ip);
  }
}
