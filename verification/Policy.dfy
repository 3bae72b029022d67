/** The two rule tables, the datapath's lookups in them, and what those lookups mean. */
module Policy {
  import opened Wire
  import opened Prefixes

  datatype Option<+T> = None | Some(value: T)

  const ACTION_PASS: u32 := 0
  const ACTION_DROP: u32 := 1
  const DEFAULT_ALLOW: u32 := 0
  const DEFAULT_DENY: u32 := 1
  const PROTO_TCP: u8 := 6
  const PROTO_UDP: u8 := 17

  datatype Verdict = Drop | Pass

  datatype Rule = Rule(action: u32, priority: u32)

  /** Key of blocked_ips: `data` is the little-endian word over the address bytes. */
  datatype LpmKey = LpmKey(prefixlen: u32, data: u32)

  /** Key of port_policy: ports and destination are words over the wire bytes; port 0 is "any". */
  datatype PortKey = PortKey(protocol: u8, dport: u16, sport: u16, dst: u32)

  datatype TcpFlags = TcpFlags(fin: bool, syn: bool, rst: bool, ack: bool)

  const NO_FLAGS := TcpFlags(false, false, false, false)

  datatype PacketInfo =
    PacketInfo(saddr: u32, daddr: u32, protocol: u8, dport: u16, sport: u16, flags: TcpFlags)

  type IpTable = map<LpmKey, Rule>
  type PortTable = map<PortKey, Rule>

  // ----- longest-prefix match -------------------------------------------------

  predicate Normal(k: LpmKey) {
    k.prefixlen <= 32 && Mask(k.data, k.prefixlen) == k.data
  }

  /** Every stored prefix is free of host bits. */
  ghost predicate Masked(t: IpTable) {
    forall k {:trigger Normal(k)} :: k in t ==> Normal(k)
  }

  predicate Covers(k: LpmKey, w: u32) {
    k.prefixlen <= 32 && Mask(w, k.prefixlen) == k.data
  }

  /** The longest stored prefix of at most `n` bits that covers `w`. */
  function LpmFrom(t: IpTable, w: u32, n: u32): Option<LpmKey>
    requires n <= 32
    decreases n
  {
    if LpmKey(n, Mask(w, n)) in t then Some(LpmKey(n, Mask(w, n)))
    else if n == 0 then None
    else LpmFrom(t, w, n - 1)
  }

  function LpmLookup(t: IpTable, w: u32): Option<Rule> {
    match LpmFrom(t, w, 32)
    case None => None
    case Some(k) => if k in t then Some(t[k]) else None
  }

  ghost predicate IsLongest(t: IpTable, w: u32, k: LpmKey) {
    && k in t && Covers(k, w)
    && forall q :: q in t && Covers(q, w) && q != k ==> q.prefixlen < k.prefixlen
  }

  ghost predicate Uncovered(t: IpTable, w: u32) {
    forall q :: q in t ==> !Covers(q, w)
  }

  lemma {:induction false} LpmFromIsLongest(t: IpTable, w: u32, n: u32)
    requires n <= 32
    requires forall q :: q in t && Covers(q, w) ==> q.prefixlen <= n
    ensures LpmFrom(t, w, n).None? <==> Uncovered(t, w)
    ensures LpmFrom(t, w, n).Some? ==> IsLongest(t, w, LpmFrom(t, w, n).value)
    decreases n
  {
    var k := LpmKey(n, Mask(w, n));
    if k in t {
      assert Covers(k, w);
    } else if n > 0 {
      LpmFromIsLongest(t, w, n - 1);
    }
  }

  /** The lookup finds the one longest covering prefix, and misses exactly when nothing covers. */
  lemma LpmLookupIsLongest(t: IpTable, w: u32)
    ensures LpmLookup(t, w).None? <==> Uncovered(t, w)
    ensures forall k :: IsLongest(t, w, k) ==> LpmLookup(t, w) == Some(t[k])
    ensures LpmLookup(t, w).Some? ==> exists k :: IsLongest(t, w, k)
  {
    LpmFromIsLongest(t, w, 32);
  }

  /** Unblocking one prefix never uncovers an address that another stored prefix covers. */
  lemma RemovalKeepsOtherCovers(t: IpTable, k: LpmKey, w: u32)
    ensures LpmLookup(t - {k}, w).Some? <==> exists q :: q in t && q != k && Covers(q, w)
  {
    LpmLookupIsLongest(t - {k}, w);
    assert forall q :: q in t - {k} <==> q in t && q != k;
  }

  /** The address starts with the prefix. */
  predicate SharesPrefix(k: LpmKey, ip: Ip4) {
    k.prefixlen <= 32 && SameLeadingBits(ip, LeBytes32(k.data), k.prefixlen)
  }

  /** For a prefix without host bits, covering is agreement on the first `prefixlen` wire bits. */
  lemma CoversIsSharedPrefix(k: LpmKey, w: u32)
    requires Normal(k)
    ensures Covers(k, w) <==> SharesPrefix(k, LeBytes32(w))
  {
    MaskKeepsTop(w, k.data, k.prefixlen);
    BigEndianIsOctets(LeBytes32(w));
    BigEndianIsOctets(LeBytes32(k.data));
    TopIsLeadingBits(LeBytes32(w), LeBytes32(k.data), 4, 32 - k.prefixlen);
  }

  /** A key is Normal exactly when its address has no bit set after its prefix. */
  lemma NormalHasNoHostBits(k: LpmKey)
    ensures Normal(k) <==> k.prefixlen <= 32 && NoBitsAfter(LeBytes32(k.data), k.prefixlen)
  {
    if k.prefixlen <= 32 {
      MaskKeepsWord(k.data, k.prefixlen);
      BigEndianIsOctets(LeBytes32(k.data));
      ClearLowIsNoBits(LeBytes32(k.data), 4, 32 - k.prefixlen);
    }
  }

  // ----- the datapath's table lookups ------------------------------------------

  /** ip_block_action: the source's longest match, else the destination's. */
  function IpLookup(t: IpTable, p: PacketInfo): Option<Rule> {
    var bySource := LpmLookup(t, p.saddr);
    if bySource.Some? then bySource else LpmLookup(t, p.daddr)
  }

  function Probe(t: PortTable, p: PacketInfo, dport: u16, sport: u16): Option<Rule> {
    var k := PortKey(p.protocol, dport, sport, p.daddr);
    if k in t then Some(t[k]) else None
  }

  /** One TRY_LOOKUP: the candidate replaces the best only with a strictly higher priority. */
  function Better(best: Option<Rule>, candidate: Option<Rule>): Option<Rule> {
    if candidate.Some? && (best.None? || candidate.value.priority > best.value.priority)
    then candidate else best
  }

  function BestOf(exact: Option<Rule>, dportOnly: Option<Rule>, sportOnly: Option<Rule>, neither: Option<Rule>)
    : Option<Rule>
  {
    Better(Better(Better(exact, dportOnly), sportOnly), neither)
  }

  /** port_rule_action: the best of the four wildcard probes. */
  function PortLookup(t: PortTable, p: PacketInfo): Option<Rule> {
    BestOf(Probe(t, p, p.dport, p.sport), Probe(t, p, p.dport, 0), Probe(t, p, 0, p.sport), Probe(t, p, 0, 0))
  }

  // ----- what the port lookup means: a scan over all rules ---------------------

  predicate Matches(k: PortKey, p: PacketInfo) {
    && k.protocol == p.protocol && k.dst == p.daddr
    && (k.dport == 0 || k.dport == p.dport)
    && (k.sport == 0 || k.sport == p.sport)
  }

  function Specificity(k: PortKey): nat {
    (if k.dport != 0 then 2 else 0) + (if k.sport != 0 then 1 else 0)
  }

  predicate Outranks(t: PortTable, a: PortKey, b: PortKey)
    requires a in t && b in t
  {
    || t[a].priority > t[b].priority
    || (t[a].priority == t[b].priority && Specificity(a) > Specificity(b))
  }

  /** `k` is the strict (priority, specificity) maximum among all stored rules that match. */
  ghost predicate IsWinner(t: PortTable, p: PacketInfo, k: PortKey) {
    && k in t && Matches(k, p)
    && forall q :: q in t && Matches(q, p) && q != k ==> Outranks(t, k, q)
  }

  ghost predicate Unmatched(t: PortTable, p: PacketInfo) {
    forall q :: q in t ==> !Matches(q, p)
  }

  lemma MatchingKeysAreProbed(p: PacketInfo, k: PortKey)
    ensures Matches(k, p) <==>
      || k == PortKey(p.protocol, p.dport, p.sport, p.daddr)
      || k == PortKey(p.protocol, p.dport, 0, p.daddr)
      || k == PortKey(p.protocol, 0, p.sport, p.daddr)
      || k == PortKey(p.protocol, 0, 0, p.daddr)
  {
  }

  /** Four probes do the work of a scan of the whole table, also when a packet port is 0
      and probe keys coincide. */
  lemma PortLookupIsWinner(t: PortTable, p: PacketInfo)
    ensures PortLookup(t, p).None? <==> Unmatched(t, p)
    ensures forall k :: IsWinner(t, p, k) ==> PortLookup(t, p) == Some(t[k])
    ensures PortLookup(t, p).Some? ==> exists k :: IsWinner(t, p, k)
  {
    var k1 := PortKey(p.protocol, p.dport, p.sport, p.daddr);
    var k2 := PortKey(p.protocol, p.dport, 0, p.daddr);
    var k3 := PortKey(p.protocol, 0, p.sport, p.daddr);
    var k4 := PortKey(p.protocol, 0, 0, p.daddr);
    forall q | q in t && Matches(q, p)
      ensures q == k1 || q == k2 || q == k3 || q == k4
    {
      MatchingKeysAreProbed(p, q);
    }
    assert Matches(k1, p) && Matches(k2, p) && Matches(k3, p) && Matches(k4, p);
    if PortLookup(t, p).Some? {
      var winner := WinningKey(t, p);
      assert IsWinner(t, p, winner);
    }
  }

  /** The probe whose rule the lookup keeps. */
  function WinningKey(t: PortTable, p: PacketInfo): (k: PortKey)
    requires PortLookup(t, p).Some?
    ensures Matches(k, p) && k in t && PortLookup(t, p) == Some(t[k])
  {
    var k1 := PortKey(p.protocol, p.dport, p.sport, p.daddr);
    var k2 := PortKey(p.protocol, p.dport, 0, p.daddr);
    var k3 := PortKey(p.protocol, 0, p.sport, p.daddr);
    var k4 := PortKey(p.protocol, 0, 0, p.daddr);
    var best := PortLookup(t, p);
    var priority := best.value.priority;
    if k1 in t && t[k1].priority == priority then k1
    else if k2 in t && t[k2].priority == priority then k2
    else if k3 in t && t[k3].priority == priority then k3
    else k4
  }

  /** A literal scan: one pass over the table in the given order, keeping the best match so far. */
  function Scan(t: PortTable, p: PacketInfo, order: seq<PortKey>): (best: Option<PortKey>)
    requires forall k :: k in order ==> k in t
    ensures best.Some? ==> best.value in order
  {
    if order == [] then None
    else
      var n := |order| - 1;
      var best := Scan(t, p, order[..n]);
      if Matches(order[n], p) && (best.None? || Outranks(t, order[n], best.value)) then Some(order[n]) else best
  }

  lemma {:induction false} ScanFindsMaximum(t: PortTable, p: PacketInfo, order: seq<PortKey>)
    requires forall k :: k in order ==> k in t
    ensures Scan(t, p, order).None? <==> forall k :: k in order ==> !Matches(k, p)
    ensures Scan(t, p, order).Some? ==>
      && Matches(Scan(t, p, order).value, p)
      && forall k :: k in order && Matches(k, p) && k != Scan(t, p, order).value ==>
           Outranks(t, Scan(t, p, order).value, k)
  {
    if order != [] {
      var n := |order| - 1;
      assert order == order[..n] + [order[n]];
      ScanFindsMaximum(t, p, order[..n]);
    }
  }

  /** Whatever order the rules are scanned in, the full scan and the four probes agree. */
  lemma PortLookupIsScan(t: PortTable, p: PacketInfo, order: seq<PortKey>)
    requires forall k :: k in order <==> k in t
    ensures PortLookup(t, p) == match Scan(t, p, order) case None => None case Some(k) => Some(t[k])
  {
    ScanFindsMaximum(t, p, order);
    PortLookupIsWinner(t, p);
    match Scan(t, p, order)
    case None =>
    case Some(k) => assert IsWinner(t, p, k);
  }

  /** Protocol 0 is not "any": a rule stored for it is considered for packets of protocol 0 alone. For them it
      wins whenever it names the destination and ports and outprioritises the others; for all others it might
      as well not be there. */
  lemma ProtocolZeroIsNotAny(t: PortTable, k: PortKey, r: Rule, p: PacketInfo)
    requires k.protocol == 0
    ensures p.protocol != 0 ==> PortLookup(t[k := r], p) == PortLookup(t, p)
    ensures p.protocol == 0 && Matches(k, p) && Outprioritises(t, k, r, p) ==> PortLookup(t[k := r], p) == Some(r)
  {
    if p.protocol == 0 && Matches(k, p) && Outprioritises(t, k, r, p) {
      PortLookupIsWinner(t[k := r], p);
      assert IsWinner(t[k := r], p, k);
    }
  }

  /** Every other rule that matches has a lower priority. */
  ghost predicate Outprioritises(t: PortTable, k: PortKey, r: Rule, p: PacketInfo) {
    forall q :: q in t && q != k && Matches(q, p) ==> t[q].priority < r.priority
  }

  // ----- combining the two tables ----------------------------------------------

  /** decide, for at least one match: `verdict` across the at most two matched rules. */
  function Decide(ip: Option<Rule>, port: Option<Rule>, policy: u32): Verdict {
    if ip.Some? && port.Some? then
      if ip.value.priority != port.value.priority then
        var winner := if ip.value.priority > port.value.priority then ip.value else port.value;
        if winner.action == ACTION_DROP then Drop else Pass
      else if ip.value.action == ACTION_DROP || port.value.action == ACTION_DROP then Drop
      else Pass
    else if ip.Some? then (if ip.value.action == ACTION_DROP then Drop else Pass)
    else if port.Some? then (if port.value.action == ACTION_DROP then Drop else Pass)
    else if policy == DEFAULT_DENY then Drop else Pass
  }

  /** Some matched rule says DROP and no matched rule has a higher priority. */
  ghost predicate TopPriorityDrops(matched: set<Rule>) {
    exists d :: d in matched && d.action == ACTION_DROP && forall r :: r in matched ==> r.priority <= d.priority
  }

  ghost function Candidates(ip: Option<Rule>, port: Option<Rule>): set<Rule> {
    (if ip.Some? then {ip.value} else {}) + (if port.Some? then {port.value} else {})
  }

  lemma DecideIsTopPriority(ip: Option<Rule>, port: Option<Rule>, policy: u32)
    ensures ip.Some? || port.Some? ==>
      (Decide(ip, port, policy) == Drop <==> TopPriorityDrops(Candidates(ip, port)))
    ensures ip.None? && port.None? ==> (Decide(ip, port, policy) == Drop <==> policy == DEFAULT_DENY)
  {
    var matched := Candidates(ip, port);
    if ip.Some? { assert ip.value in matched; }
    if port.Some? { assert port.value in matched; }
  }
}
