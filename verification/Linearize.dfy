/** A packet's nine map reads are separate steps; here they may be spread over a run. */
module Linearize {
  import opened Wire
  import opened Policy
  import opened Datapath

  /** When each read happens, as a number of events of the run already applied: the flag word,
      the source and destination matches, the four port probes in program order, the default policy
      and the flow table. */
  datatype Reads = Reads(flags: nat, src: nat, dst: nat, exact: nat, dportOnly: nat, sportOnly: nat, neither: nat,
                         policy: nat, ct: nat)

  predicate InOrder(m: nat, r: Reads, n: nat) {
    && m <= r.flags <= r.src <= r.dst <= r.exact <= r.dportOnly <= r.sportOnly <= r.neither
    && r.neither <= r.policy <= r.ct <= n
  }

  function At(log: Log, i: nat): State
    requires i <= |log|
  {
    Replay(log[..i])
  }

  /** ip_block_action with its two lookups made at different times. */
  function SeenIp(log: Log, r: Reads, p: PacketInfo): Option<Rule>
    requires InOrder(0, r, |log|)
  {
    if !Present(At(log, r.flags).flags, IP_PRESENT) then None
    else TornIp(At(log, r.src).ips, At(log, r.dst).ips, p)
  }

  function TornIp(t: IpTable, u: IpTable, p: PacketInfo): Option<Rule> {
    var bySource := LpmLookup(t, p.saddr);
    if bySource.Some? then bySource else LpmLookup(u, p.daddr)
  }

  /** port_rule_action with its four probes made at different times. */
  function SeenPort(log: Log, r: Reads, p: PacketInfo): Option<Rule>
    requires InOrder(0, r, |log|)
  {
    if !Present(At(log, r.flags).flags, PORT_PRESENT) then None
    else
      TornPort(At(log, r.exact).ports, At(log, r.dportOnly).ports, At(log, r.sportOnly).ports,
               At(log, r.neither).ports, p)
  }

  function TornPort(a: PortTable, b: PortTable, c: PortTable, d: PortTable, p: PacketInfo): Option<Rule> {
    BestOf(Probe(a, p, p.dport, p.sport), Probe(b, p, p.dport, 0), Probe(c, p, 0, p.sport), Probe(d, p, 0, 0))
  }

  predicate RuleEvent(e: Event) {
    e.PutIp? || e.DelIp? || e.PutPort? || e.DelPort?
  }

  /** A change of a rule that this packet's lookups could return. */
  predicate Concerns(e: Event, p: PacketInfo) {
    match e
    case PutIp(k, _) => Covers(k, p.saddr) || Covers(k, p.daddr)
    case DelIp(k) => Covers(k, p.saddr) || Covers(k, p.daddr)
    case PutPort(k, _) => Matches(k, p)
    case DelPort(k) => Matches(k, p)
    case _ => false
  }

  // ----- the part of the tables that a packet can see -------------------------------------------

  function IpFor(t: IpTable, p: PacketInfo): IpTable {
    map k | k in t && (Covers(k, p.saddr) || Covers(k, p.daddr)) :: t[k]
  }

  function PortsFor(t: PortTable, p: PacketInfo): PortTable {
    map k | k in t && Matches(k, p) :: t[k]
  }

  lemma IpForLooksSame(t: IpTable, p: PacketInfo)
    ensures LpmLookup(IpFor(t, p), p.saddr) == LpmLookup(t, p.saddr)
    ensures LpmLookup(IpFor(t, p), p.daddr) == LpmLookup(t, p.daddr)
  {
    SameCoversSameMatch(IpFor(t, p), t, p.saddr);
    SameCoversSameMatch(IpFor(t, p), t, p.daddr);
  }

  lemma SameCoversSameMatch(t: IpTable, u: IpTable, w: u32)
    requires forall k :: Covers(k, w) ==> (k in t <==> k in u) && (k in t ==> t[k] == u[k])
    ensures LpmLookup(t, w) == LpmLookup(u, w)
  {
    LpmLookupIsLongest(t, w);
    LpmLookupIsLongest(u, w);
    if LpmLookup(t, w).Some? {
      var k :| IsLongest(t, w, k);
      assert IsLongest(u, w, k);
    }
  }

  lemma PortsForLooksSame(t: PortTable, p: PacketInfo)
    ensures Probe(PortsFor(t, p), p, p.dport, p.sport) == Probe(t, p, p.dport, p.sport)
    ensures Probe(PortsFor(t, p), p, p.dport, 0) == Probe(t, p, p.dport, 0)
    ensures Probe(PortsFor(t, p), p, 0, p.sport) == Probe(t, p, 0, p.sport)
    ensures Probe(PortsFor(t, p), p, 0, 0) == Probe(t, p, 0, 0)
  {
  }

  function IpsAt(log: Log, i: nat, p: PacketInfo): IpTable
    requires i <= |log|
  {
    IpFor(At(log, i).ips, p)
  }

  function PortsAt(log: Log, i: nat, p: PacketInfo): PortTable
    requires i <= |log|
  {
    PortsFor(At(log, i).ports, p)
  }

  /** A packet's lookups see nothing but its part of the tables. */
  lemma SeesOwnPart(log: Log, r: Reads, p: PacketInfo)
    requires InOrder(0, r, |log|)
    ensures TornIp(IpsAt(log, r.src, p), IpsAt(log, r.dst, p), p) ==
      TornIp(At(log, r.src).ips, At(log, r.dst).ips, p)
    ensures
      TornPort(PortsAt(log, r.exact, p), PortsAt(log, r.dportOnly, p), PortsAt(log, r.sportOnly, p),
               PortsAt(log, r.neither, p), p) ==
      TornPort(At(log, r.exact).ports, At(log, r.dportOnly).ports, At(log, r.sportOnly).ports,
               At(log, r.neither).ports, p)
  {
    IpForLooksSame(At(log, r.src).ips, p);
    IpForLooksSame(At(log, r.dst).ips, p);
    PortsForLooksSame(At(log, r.exact).ports, p);
    PortsForLooksSame(At(log, r.dportOnly).ports, p);
    PortsForLooksSame(At(log, r.sportOnly).ports, p);
    PortsForLooksSame(At(log, r.neither).ports, p);
  }

  // ----- one change in between --------------------------------------------------------------------

  /** The tables differ at most in what they store for `k`. */
  ghost predicate DifferAt<K(!new), V>(t: map<K, V>, u: map<K, V>, k: K) {
    forall q :: q != k ==> (q in t <==> q in u) && (q in t ==> t[q] == u[q])
  }

  /** A single Put or Delete can change an address's match only to or from the rule it touches. */
  lemma MatchAfterChange(t: IpTable, u: IpTable, k: LpmKey, w: u32)
    requires DifferAt(t, u, k)
    ensures
      || LpmLookup(u, w) == LpmLookup(t, w)
      || (k in u && Covers(k, w) && LpmLookup(u, w) == Some(u[k]))
      || (k !in u && k in t && LpmLookup(t, w) == Some(t[k]))
  {
    LpmLookupIsLongest(t, w);
    LpmLookupIsLongest(u, w);
    if LpmLookup(u, w).Some? {
      var best :| IsLongest(u, w, best);
      if best != k && LpmLookup(t, w).Some? {
        var was :| IsLongest(t, w, was);
        assert was == k || was == best;
      }
    } else if LpmLookup(t, w).Some? {
      var was :| IsLongest(t, w, was);
      assert was == k;
    }
  }

  /** One change between the source and the destination lookup is seen fully or not at all, also
      when the changed prefix covers both addresses. */
  lemma TornIpIsAtomic(t: IpTable, u: IpTable, k: LpmKey, p: PacketInfo)
    requires DifferAt(t, u, k)
    ensures TornIp(t, u, p) == IpLookup(t, p) || TornIp(t, u, p) == IpLookup(u, p)
  {
    MatchAfterChange(t, u, k, p.saddr);
    MatchAfterChange(t, u, k, p.daddr);
  }

  /** Probe results `t1..t4` before and `u1..u4` after a change that turns one stored rule into
      another: wherever the reads switch over, the best is that of before or of after. */
  lemma SwitchedBest(t1: Option<Rule>, t2: Option<Rule>, t3: Option<Rule>, t4: Option<Rule>,
                     u1: Option<Rule>, u2: Option<Rule>, u3: Option<Rule>, u4: Option<Rule>,
                     was: Option<Rule>, now: Option<Rule>)
    requires t1 == u1 || (t1 == was && u1 == now)
    requires t2 == u2 || (t2 == was && u2 == now)
    requires t3 == u3 || (t3 == was && u3 == now)
    requires t4 == u4 || (t4 == was && u4 == now)
    ensures BestOf(t1, u2, u3, u4) in {BestOf(t1, t2, t3, t4), BestOf(u1, u2, u3, u4)}
    ensures BestOf(t1, t2, u3, u4) in {BestOf(t1, t2, t3, t4), BestOf(u1, u2, u3, u4)}
    ensures BestOf(t1, t2, t3, u4) in {BestOf(t1, t2, t3, t4), BestOf(u1, u2, u3, u4)}
  {
  }

  function Stored(t: PortTable, k: PortKey): Option<Rule> {
    if k in t then Some(t[k]) else None
  }

  /** One change between any two probes is seen fully or not at all, also when a packet port is 0
      and the changed key is probed both before and after the change. */
  lemma TornPortIsAtomic(t: PortTable, u: PortTable, k: PortKey, p: PacketInfo)
    requires DifferAt(t, u, k)
    ensures TornPort(t, u, u, u, p) in {PortLookup(t, p), PortLookup(u, p)}
    ensures TornPort(t, t, u, u, p) in {PortLookup(t, p), PortLookup(u, p)}
    ensures TornPort(t, t, t, u, p) in {PortLookup(t, p), PortLookup(u, p)}
  {
    SwitchedBest(
      Probe(t, p, p.dport, p.sport), Probe(t, p, p.dport, 0), Probe(t, p, 0, p.sport), Probe(t, p, 0, 0),
      Probe(u, p, p.dport, p.sport), Probe(u, p, p.dport, 0), Probe(u, p, 0, p.sport), Probe(u, p, 0, 0),
      Stored(t, k), Stored(u, k));
  }

  lemma UnconcernedStep(s: State, e: Event, p: PacketInfo)
    requires !Concerns(e, p)
    ensures IpFor(Apply(s, e).ips, p) == IpFor(s.ips, p) && PortsFor(Apply(s, e).ports, p) == PortsFor(s.ports, p)
  {
  }

  lemma AtNext(log: Log, i: nat)
    requires i < |log|
    ensures At(log, i + 1) == Apply(At(log, i), log[i])
  {
    assert log[..i + 1] == log[..i] + [log[i]];
    ReplayAppend(log[..i], log[i]);
  }

  lemma {:induction false} StableBetween(log: Log, m: nat, n: nat, p: PacketInfo)
    requires m <= n <= |log|
    requires forall i :: m <= i < n ==> !Concerns(log[i], p)
    ensures IpsAt(log, n, p) == IpsAt(log, m, p) && PortsAt(log, n, p) == PortsAt(log, m, p)
    decreases n
  {
    if m < n {
      StableBetween(log, m, n - 1, p);
      AtNext(log, n - 1);
      UnconcernedStep(At(log, n - 1), log[n - 1], p);
    }
  }

  /** The only change of the window that concerns the packet, or the window's end when there is none. */
  ghost predicate OnlyChange(log: Log, m: nat, j: nat, p: PacketInfo) {
    && m <= j <= |log|
    && forall i :: m <= i < |log| && i != j ==> !Concerns(log[i], p)
  }

  /** Every state of the window has the tables from before or from after the change. */
  lemma TablesInWindow(log: Log, m: nat, j: nat, i: nat, p: PacketInfo)
    requires OnlyChange(log, m, j, p) && m <= i <= |log|
    ensures i <= j ==> IpsAt(log, i, p) == IpsAt(log, m, p) && PortsAt(log, i, p) == PortsAt(log, m, p)
    ensures j < i ==> IpsAt(log, i, p) == IpsAt(log, |log|, p) && PortsAt(log, i, p) == PortsAt(log, |log|, p)
  {
    if i <= j {
      StableBetween(log, m, i, p);
    } else {
      StableBetween(log, i, |log|, p);
    }
  }

  lemma EventTouchesOneIp(s: State, e: Event, p: PacketInfo) returns (ip: LpmKey)
    ensures DifferAt(IpFor(s.ips, p), IpFor(Apply(s, e).ips, p), ip)
    ensures e.PutIp? || e.DelIp? || IpFor(s.ips, p) == IpFor(Apply(s, e).ips, p)
  {
    ip := if e.PutIp? || e.DelIp? then e.prefix else LpmKey(0, 0);
  }

  lemma EventTouchesOnePort(s: State, e: Event, p: PacketInfo) returns (port: PortKey)
    ensures DifferAt(PortsFor(s.ports, p), PortsFor(Apply(s, e).ports, p), port)
    ensures e.PutPort? || e.DelPort? || PortsFor(s.ports, p) == PortsFor(Apply(s, e).ports, p)
  {
    port := if e.PutPort? || e.DelPort? then e.key else PortKey(0, 0, 0, 0);
  }

  /** One event changes the packet's part of one table, at one key. */
  ghost predicate OneKey(log: Log, i: nat, j: nat, p: PacketInfo, ip: LpmKey, port: PortKey)
    requires i <= |log| && j <= |log|
  {
    && DifferAt(IpsAt(log, i, p), IpsAt(log, j, p), ip)
    && DifferAt(PortsAt(log, i, p), PortsAt(log, j, p), port)
    && (IpsAt(log, i, p) == IpsAt(log, j, p) || PortsAt(log, i, p) == PortsAt(log, j, p))
  }

  lemma EventIsOneKey(log: Log, j: nat, p: PacketInfo) returns (ip: LpmKey, port: PortKey)
    requires j < |log|
    ensures OneKey(log, j, j + 1, p, ip, port)
  {
    AtNext(log, j);
    ip := EventTouchesOneIp(At(log, j), log[j], p);
    port := EventTouchesOnePort(At(log, j), log[j], p);
  }

  /** The window's one change does too. */
  lemma ChangeIsOneKey(log: Log, m: nat, j: nat, p: PacketInfo) returns (ip: LpmKey, port: PortKey)
    requires OnlyChange(log, m, j, p)
    ensures OneKey(log, m, |log|, p, ip, port)
  {
    StableBetween(log, m, j, p);
    if j == |log| {
      ip, port := LpmKey(0, 0), PortKey(0, 0, 0, 0);
    } else {
      StableBetween(log, j + 1, |log|, p);
      ip, port := EventIsOneKey(log, j, p);
    }
  }

  lemma OwnPartDecides(log: Log, i: nat, p: PacketInfo)
    requires i <= |log|
    ensures IpLookup(IpsAt(log, i, p), p) == IpLookup(At(log, i).ips, p)
    ensures PortLookup(PortsAt(log, i, p), p) == PortLookup(At(log, i).ports, p)
  {
    IpForLooksSame(At(log, i).ips, p);
    PortsForLooksSame(At(log, i).ports, p);
  }

  /** A clear flag bit stands for an empty table, whose lookup misses. */
  lemma ClearFlagMisses(s: State, p: PacketInfo)
    requires PresenceSafe(s)
    ensures !Present(s.flags, IP_PRESENT) ==> IpLookup(IpFor(s.ips, p), p).None?
    ensures !Present(s.flags, PORT_PRESENT) ==> PortLookup(PortsFor(s.ports, p), p).None?
  {
    EmptyTablesMiss(p);
    if s.ips == map[] { assert IpFor(s.ips, p) == map[]; }
    if s.ports == map[] { assert PortsFor(s.ports, p) == map[]; }
  }

  lemma SeenIpIsAtomic(log: Log, m: nat, j: nat, r: Reads, p: PacketInfo, k: LpmKey)
    requires AllSafe(log) && InOrder(m, r, |log|) && OnlyChange(log, m, j, p)
    requires DifferAt(IpsAt(log, m, p), IpsAt(log, |log|, p), k)
    ensures SeenIp(log, r, p) in {IpLookup(IpsAt(log, m, p), p), IpLookup(IpsAt(log, |log|, p), p)}
  {
    TablesInWindow(log, m, j, r.flags, p);
    TablesInWindow(log, m, j, r.src, p);
    TablesInWindow(log, m, j, r.dst, p);
    SeesOwnPart(log, r, p);
    ClearFlagMisses(At(log, r.flags), p);
    TornIpIsAtomic(IpsAt(log, m, p), IpsAt(log, |log|, p), k, p);
  }

  lemma SeenPortIsAtomic(log: Log, m: nat, j: nat, r: Reads, p: PacketInfo, k: PortKey)
    requires AllSafe(log) && InOrder(m, r, |log|) && OnlyChange(log, m, j, p)
    requires DifferAt(PortsAt(log, m, p), PortsAt(log, |log|, p), k)
    ensures SeenPort(log, r, p) in {PortLookup(PortsAt(log, m, p), p), PortLookup(PortsAt(log, |log|, p), p)}
  {
    TablesInWindow(log, m, j, r.flags, p);
    TablesInWindow(log, m, j, r.exact, p);
    TablesInWindow(log, m, j, r.dportOnly, p);
    TablesInWindow(log, m, j, r.sportOnly, p);
    TablesInWindow(log, m, j, r.neither, p);
    SeesOwnPart(log, r, p);
    ClearFlagMisses(At(log, r.flags), p);
    TornPortIsAtomic(PortsAt(log, m, p), PortsAt(log, |log|, p), k, p);
  }

  /** Linearizability. While at most one rule changes that the packet could match (other rules, flags,
      other packets and flow deletions may change at will), the pair of rules it collects with its
      separate reads is the pair an atomic packet collects before or after that change. */
  lemma LookupsLinearize(log: Log, m: nat, r: Reads, p: PacketInfo)
    requires AllSafe(log) && InOrder(m, r, |log|)
    requires forall i, j :: m <= i < j < |log| && Concerns(log[i], p) ==> !Concerns(log[j], p)
    ensures
      || (SeenIp(log, r, p), SeenPort(log, r, p)) == (MatchedIp(At(log, m), p), MatchedPort(At(log, m), p))
      || (SeenIp(log, r, p), SeenPort(log, r, p)) == (MatchedIp(Replay(log), p), MatchedPort(Replay(log), p))
  {
    var j := |log|;
    if i :| m <= i < |log| && Concerns(log[i], p) { j := i; }
    var ip, port := ChangeIsOneKey(log, m, j, p);
    SeenIpIsAtomic(log, m, j, r, p, ip);
    SeenPortIsAtomic(log, m, j, r, p, port);
    OwnPartDecides(log, m, p);
    OwnPartDecides(log, |log|, p);
    assert log[..|log|] == log;
    SafeFlagsInvisible(At(log, m), p);
    SafeFlagsInvisible(Replay(log), p);
  }

  // ----- many removals: a clear command ----------------------------------------------------------

  ghost predicate Within(u: IpTable, t: IpTable) {
    forall k :: k in u ==> k in t && u[k] == t[k]
  }

  /** Any number of removals between the source and the destination lookup look like one moment. */
  lemma ShrinkingIpIsAtomic(t: IpTable, u: IpTable, p: PacketInfo)
    requires Within(u, t)
    ensures TornIp(t, u, p) in {IpLookup(t, p), IpLookup(u, p)}
  {
    LpmLookupIsLongest(t, p.saddr);
    LpmLookupIsLongest(u, p.saddr);
  }

  lemma RemovalOnlyShrinks(s: State, e: Event)
    requires !e.PutIp?
    ensures Within(Apply(s, e).ips, s.ips)
  {
  }

  lemma {:induction false} IpsShrink(log: Log, a: nat, b: nat)
    requires a <= b <= |log| && forall i :: a <= i < b ==> !log[i].PutIp?
    ensures Within(At(log, b).ips, At(log, a).ips)
    decreases b
  {
    if a < b {
      IpsShrink(log, a, b - 1);
      AtNext(log, b - 1);
      RemovalOnlyShrinks(At(log, b - 1), log[b - 1]);
    }
  }

  /** So while IP rules are only removed, however many, the IP rule a packet collects is that of an atomic
      packet at some moment of its reads. */
  lemma ClearKeepsIpAtomic(log: Log, m: nat, r: Reads, p: PacketInfo) returns (i: nat)
    requires AllSafe(log) && InOrder(m, r, |log|)
    requires forall i :: m <= i < |log| ==> !log[i].PutIp?
    ensures m <= i <= |log| && SeenIp(log, r, p) == MatchedIp(At(log, i), p)
  {
    if !Present(At(log, r.flags).flags, IP_PRESENT) { return r.flags; }
    IpsShrink(log, r.src, r.dst);
    ShrinkingIpIsAtomic(At(log, r.src).ips, At(log, r.dst).ips, p);
    SafeFlagsInvisible(At(log, r.src), p);
    SafeFlagsInvisible(At(log, r.dst), p);
    i := if SeenIp(log, r, p) == IpLookup(At(log, r.src).ips, p) then r.src else r.dst;
  }
}
