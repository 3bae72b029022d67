/** Header parsing over a moving cursor, and the frames it inverts. */
module Parser {
  import opened Wire
  import opened Policy
  import opened Keys

  const ETH_SIZE := 14
  const IP_SIZE := 20
  const TCP_SIZE := 20
  const UDP_SIZE := 8
  const ETH_P_IP_WIRE: u16 := 8  // bpf_htons(0x0800)

  // ----- what a frame says -----------------------------------------------------------

  function Ihl(f: seq<u8>): nat
    requires |f| >= ETH_SIZE + IP_SIZE
  {
    f[ETH_SIZE] % 16
  }

  /** Ethernet and IPv4 headers fit, and the header length field is at least 5 words. */
  predicate HeadersFit(f: seq<u8>) {
    && |f| >= ETH_SIZE + IP_SIZE && f[12..14] == [8, 0]
    && Ihl(f) >= 5 && ETH_SIZE + 4 * Ihl(f) <= |f|
  }

  function Word16(f: seq<u8>, i: nat): u16
    requires i + 2 <= |f|
  {
    LeWord16(f[i..i + 2])
  }

  function Word32(f: seq<u8>, i: nat): u32
    requires i + 4 <= |f|
  {
    LeWord32(f[i..i + 4])
  }

  function FlagsOf(b: u8): TcpFlags {
    TcpFlags(b % 2 == 1, b / 2 % 2 == 1, b / 4 % 2 == 1, b / 16 % 2 == 1)
  }

  /** The packet view, by fixed offsets; ports and flags stay 0 unless the transport header fits. */
  function Parse(f: seq<u8>): Option<PacketInfo> {
    if !HeadersFit(f) then None
    else
      var l4 := ETH_SIZE + 4 * Ihl(f);
      var bare := PacketInfo(Word32(f, 26), Word32(f, 30), f[23], 0, 0, NO_FLAGS);
      if f[23] == PROTO_TCP && l4 + TCP_SIZE <= |f| then
        Some(bare.(sport := Word16(f, l4), dport := Word16(f, l4 + 2), flags := FlagsOf(f[l4 + 13])))
      else if f[23] == PROTO_UDP && l4 + UDP_SIZE <= |f| then
        Some(bare.(sport := Word16(f, l4), dport := Word16(f, l4 + 2)))
      else Some(bare)
  }

  // ----- the parsers -------------------------------------------------------------------

  class HdrCursor {
    var pos: nat

    constructor ()
      ensures pos == 0
    {
      pos := 0;
    }
  }

  /** Moves the cursor over a header of `size` bytes; every header parser starts with this check. */
  method Take(nh: HdrCursor, data: seq<u8>, size: nat) returns (ok: bool, hdr: nat)
    modifies nh
    ensures hdr == old(nh.pos)
    ensures ok <==> hdr + size <= |data|
    ensures nh.pos == if ok then hdr + size else hdr
  {
    hdr := nh.pos;
    ok := hdr + size <= |data|;
    if ok { nh.pos := hdr + size; }
  }

  /** parse_ethhdr: the EtherType word, or -1 with the cursor unmoved. */
  method ParseEthhdr(nh: HdrCursor, data: seq<u8>) returns (proto: int, eth: nat)
    modifies nh
    ensures eth == old(nh.pos)
    ensures eth + ETH_SIZE > |data| ==> proto == -1 && nh.pos == eth
    ensures eth + ETH_SIZE <= |data| ==> proto == Word16(data, eth + 12) && nh.pos == eth + ETH_SIZE
  {
    var ok;
    ok, eth := Take(nh, data, ETH_SIZE);
    if !ok { return -1, eth; }
    proto := Word16(data, eth + 12);
  }

  /** parse_iphdr: the protocol, or -1 with the cursor unmoved. */
  method ParseIphdr(nh: HdrCursor, data: seq<u8>) returns (proto: int, ip: nat)
    modifies nh
    ensures ip == old(nh.pos)
    ensures proto >= 0 <==> ip + IP_SIZE <= |data| && data[ip] % 16 >= 5 && ip + 4 * (data[ip] % 16) <= |data|
    ensures proto >= 0 ==> proto == data[ip + 9] && nh.pos == ip + 4 * (data[ip] % 16)
    ensures proto < 0 ==> proto == -1 && nh.pos == ip
  {
    ip := nh.pos;
    if ip + IP_SIZE > |data| { return -1, ip; }
    var hdrsize: int := data[ip] % 16 * 4;
    if hdrsize < IP_SIZE { return -1, ip; }
    if ip + hdrsize > |data| { return -1, ip; }
    nh.pos := ip + hdrsize;
    proto := data[ip + 9];
  }

  /** parse_packet: succeeds exactly when the headers fit, and then returns what the frame says. */
  method ParsePacket(nh: HdrCursor, data: seq<u8>) returns (ok: bool, info: PacketInfo)
    requires nh.pos == 0
    modifies nh
    ensures nh.pos <= |data|
    ensures ok <==> HeadersFit(data)
    ensures ok ==> Parse(data) == Some(info)
  {
    ok, info := false, PacketInfo(0, 0, 0, 0, 0, NO_FLAGS);
    var ethType, eth := ParseEthhdr(nh, data);
    if ethType < 0 { return; }
    if ethType != ETH_P_IP_WIRE { return; }
    assert data[12..14] == [8, 0];

    var protocol, ip := ParseIphdr(nh, data);
    if protocol < 0 { return; }
    info := info.(saddr := Word32(data, ip + 12), daddr := Word32(data, ip + 16), protocol := protocol);

    if protocol == PROTO_TCP {
      var fits, tcp := Take(nh, data, TCP_SIZE);
      if fits {
        info := info.(dport := Word16(data, tcp + 2), sport := Word16(data, tcp), flags := FlagsOf(data[tcp + 13]));
      }
    } else if protocol == PROTO_UDP {
      var fits, udp := Take(nh, data, UDP_SIZE);
      if fits {
        info := info.(dport := Word16(data, udp + 2), sport := Word16(data, udp));
      }
    }
    ok := true;
  }

  // ----- the packet view by the bytes of the frame -----------------------------------------

  /** The transport header that the ports and flags are taken from: a TCP header of 20 bytes, a UDP header of 8,
      and none where it is cut short or of another protocol. */
  predicate HasPorts(f: seq<u8>, l4: nat)
    requires |f| >= 34
  {
    (f[23] == 6 && |f| >= l4 + 20) || (f[23] == 17 && |f| >= l4 + 8)
  }

  predicate HasFlags(f: seq<u8>, l4: nat)
    requires |f| >= 34
  {
    f[23] == 6 && |f| >= l4 + 20
  }

  lemma Word16Bytes(f: seq<u8>, i: nat)
    requires i + 2 <= |f|
    ensures LeBytes16(Word16(f, i)) == f[i..i + 2]
  {
    var b := f[i..i + 2];
    Digit(b[1], b[0]);
  }

  lemma Word32Bytes(f: seq<u8>, i: nat)
    requires i + 4 <= |f|
    ensures LeBytes32(Word32(f, i)) == f[i..i + 4]
  {
    WordBytesInverse(0, f[i..i + 4]);
  }

  /** Which byte sequences are IPv4 frames. */
  lemma ParsesIffFits(f: seq<u8>)
    ensures Parse(f).Some? <==>
      |f| >= 34 && f[12] == 8 && f[13] == 0 && f[14] % 16 >= 5 && |f| >= 14 + 4 * (f[14] % 16)
  {
    if |f| >= 34 { assert f[12..14] == [f[12], f[13]]; }
  }

  /** Every field has the bytes that RFC 791, RFC 9293 and RFC 768 put at its place. */
  lemma FieldsAreBytes(f: seq<u8>, p: PacketInfo)
    requires Parse(f) == Some(p)
    ensures LeBytes32(p.saddr) == f[26..30] && LeBytes32(p.daddr) == f[30..34] && p.protocol == f[23]
    ensures var l4 := 14 + 4 * (f[14] % 16);
      if HasPorts(f, l4) then LeBytes16(p.sport) == f[l4..l4 + 2] && LeBytes16(p.dport) == f[l4 + 2..l4 + 4]
      else p.sport == 0 && p.dport == 0
    ensures var l4 := 14 + 4 * (f[14] % 16);
      && (p.flags.fin <==> HasFlags(f, l4) && f[l4 + 13] % 2 == 1)
      && (p.flags.syn <==> HasFlags(f, l4) && f[l4 + 13] / 2 % 2 == 1)
      && (p.flags.rst <==> HasFlags(f, l4) && f[l4 + 13] / 4 % 2 == 1)
      && (p.flags.ack <==> HasFlags(f, l4) && f[l4 + 13] / 16 % 2 == 1)
  {
    var l4 := 14 + 4 * (f[14] % 16);
    Word32Bytes(f, 26);
    Word32Bytes(f, 30);
    if HasPorts(f, l4) {
      Word16Bytes(f, l4);
      Word16Bytes(f, l4 + 2);
    }
  }

  // ----- frames ---------------------------------------------------------------------------

  function Bit(b: bool): u8 {
    if b then 1 else 0
  }

  /** The TCP flag byte (section 3.1 of RFC 9293); `other` holds PSH, URG, ECE and CWR. */
  function FlagByte(f: TcpFlags, psh: bool, other: u8): u8
    requires other < 8
  {
    Bit(f.fin) + 2 * Bit(f.syn) + 4 * Bit(f.rst) + 8 * Bit(psh) + 16 * Bit(f.ack) + 32 * other
  }

  function BeBytes16(p: u16): seq<u8> {
    [p / 0x100, p % 0x100]
  }

  /** Everything a sender chooses. `macs`, `ipMid`, `options`, `tcpMid`, `tcpEnd`, `udpEnd` and
      `payload` are arbitrary bytes in the places the parser must skip. */
  datatype Sender = Sender(
    macs: seq<u8>, version: u8, ipMid: seq<u8>, ipCheck: seq<u8>, src: Ip4, dst: Ip4, options: seq<u8>,
    protocol: u8, sport: u16, dport: u16,
    tcpMid: seq<u8>, flags: TcpFlags, psh: bool, other: u8, tcpEnd: seq<u8>, udpEnd: seq<u8>, payload: seq<u8>)
  {
    ghost predicate Valid() {
      && |macs| == 12 && version < 16 && |ipMid| == 8 && |ipCheck| == 2
      && |options| % 4 == 0 && |options| <= 40
      && |tcpMid| == 9 && other < 8 && |tcpEnd| == 6 && |udpEnd| == 4
    }

    function Ip(): seq<u8>
      requires |options| <= 40 && version < 16
    {
      [16 * version + 5 + |options| / 4] + ipMid + [protocol] + ipCheck + src + dst + options
    }

    function Ports(): seq<u8> {
      BeBytes16(sport) + BeBytes16(dport)
    }

    function L4(): seq<u8>
      requires other < 8
    {
      if protocol == PROTO_TCP then Ports() + tcpMid + [FlagByte(flags, psh, other)] + tcpEnd
      else if protocol == PROTO_UDP then Ports() + udpEnd
      else []
    }

    function Frame(): seq<u8>
      requires other < 8 && |options| <= 40 && version < 16
    {
      (macs + [8, 0]) + Ip() + (L4() + payload)
    }
  }

  lemma FlagsSurvive(f: TcpFlags, psh: bool, other: u8)
    requires other < 8
    ensures FlagsOf(FlagByte(f, psh, other)) == f
  {
    var fin: int, syn: int, rst: int, push: int, ack: int := Bit(f.fin), Bit(f.syn), Bit(f.rst), Bit(psh), Bit(f.ack);
    var b: int := FlagByte(f, psh, other);
    assert b / 2 == syn + 2 * (rst + 2 * (push + 2 * (ack + 2 * other)));
    assert b / 4 == rst + 2 * (push + 2 * (ack + 2 * other));
    assert b / 16 == ack + 2 * other;
  }

  lemma IpLayout(s: Sender)
    requires s.Valid()
    ensures var ip := s.Ip();
      && |ip| == IP_SIZE + |s.options| && ip[0] % 16 == 5 + |s.options| / 4
      && ip[9] == s.protocol && ip[12..16] == s.src && ip[16..20] == s.dst
  {
  }

  /** Where the headers lie in a frame made of three parts. */
  lemma HeaderOffsets(eth: seq<u8>, ip: seq<u8>, rest: seq<u8>)
    requires |eth| == ETH_SIZE && eth[12] == 8 && eth[13] == 0
    requires |ip| >= IP_SIZE && ip[0] % 16 * 4 == |ip|
    ensures var f := eth + ip + rest;
      && HeadersFit(f) && ETH_SIZE + 4 * Ihl(f) == ETH_SIZE + |ip|
      && f[26..30] == ip[12..16] && f[30..34] == ip[16..20] && f[23] == ip[9]
      && f[ETH_SIZE + |ip|..] == rest
  {
    var f := eth + ip + rest;
    assert f[14] == ip[0];
    assert f[12..14] == [8, 0];
  }

  /** A frame falls apart into its headers at the offsets the parser computes. */
  lemma FrameLayout(s: Sender)
    requires s.Valid()
    ensures var f, l4 := s.Frame(), ETH_SIZE + IP_SIZE + |s.options|;
      && HeadersFit(f) && ETH_SIZE + 4 * Ihl(f) == l4 <= |f|
      && f[26..30] == s.src && f[30..34] == s.dst && f[23] == s.protocol
      && f[l4..] == s.L4() + s.payload
  {
    IpLayout(s);
    HeaderOffsets(s.macs + [8, 0], s.Ip(), s.L4() + s.payload);
  }

  lemma L4Layout(s: Sender, f: seq<u8>, at: nat)
    requires s.Valid() && at <= |f| && f[at..] == s.L4() + s.payload
    requires s.protocol == PROTO_TCP || s.protocol == PROTO_UDP
    ensures at + 4 <= |f| && Word16(f, at) == PortToWire(s.sport) && Word16(f, at + 2) == PortToWire(s.dport)
    ensures s.protocol == PROTO_TCP ==> at + TCP_SIZE <= |f| && FlagsOf(f[at + 13]) == s.flags
    ensures s.protocol == PROTO_UDP ==> at + UDP_SIZE <= |f|
  {
    var l4 := s.L4();
    var g := f[at..];
    assert l4[..2] == BeBytes16(s.sport) && l4[2..4] == BeBytes16(s.dport);
    assert g[..2] == l4[..2] && g[2..4] == l4[2..4];
    assert f[at..at + 2] == g[..2] && f[at + 2..at + 4] == g[2..4];
    if s.protocol == PROTO_TCP {
      assert f[at + 13] == g[13] == l4[13];
      FlagsSurvive(s.flags, s.psh, s.other);
    }
  }

  /** Round trip: for every header length 5..15 and whatever fills the other fields, parsing a built
      frame recovers what the sender chose, with the ports in wire order. */
  lemma ParseInvertsFrame(s: Sender)
    requires s.Valid()
    ensures Parse(s.Frame()) == Some(
      if s.protocol == PROTO_TCP then
        PacketInfo(LeWord32(s.src), LeWord32(s.dst), s.protocol, PortToWire(s.dport), PortToWire(s.sport), s.flags)
      else if s.protocol == PROTO_UDP then
        PacketInfo(LeWord32(s.src), LeWord32(s.dst), s.protocol, PortToWire(s.dport), PortToWire(s.sport), NO_FLAGS)
      else PacketInfo(LeWord32(s.src), LeWord32(s.dst), s.protocol, 0, 0, NO_FLAGS))
  {
    FrameLayout(s);
    if s.protocol == PROTO_TCP || s.protocol == PROTO_UDP {
      L4Layout(s, s.Frame(), ETH_SIZE + IP_SIZE + |s.options|);
    }
  }

  /** The exact probe key of a parsed TCP or UDP frame has the very bytes of the key the daemon stores
      for that destination, protocol and ports; wildcard keys likewise with a port of 0. */
  lemma ProbeMeetsStoredKey(s: Sender, dport: u16, sport: u16)
    requires s.Valid() && (s.protocol == PROTO_TCP || s.protocol == PROTO_UDP)
    requires (dport == s.dport || dport == 0) && (sport == s.sport || sport == 0)
    ensures Parse(s.Frame()).Some?
    ensures var p := Parse(s.Frame()).value;
      PortKeyBytes(PortKey(p.protocol, if dport == 0 then 0 else p.dport, if sport == 0 then 0 else p.sport, p.daddr))
        == PortKeyBytes(NewPortKey(PortId(s.dst, s.protocol, dport, sport)))
  {
    ParseInvertsFrame(s);
    PortConversionsInverse(dport);
    PortConversionsInverse(sport);
  }
}
