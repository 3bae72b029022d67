/** The daemon's managers and its request handler, run against maps that packets and the reaper
    keep changing between any two of their steps. */
module Managers {
  import opened Wire
  import opened Policy
  import opened Datapath
  import opened Linearize
  import opened Kernel
  import opened Keys
  import opened Reaping

  // ----- presence.go -------------------------------------------------------------------------

  method SetPresenceBit(maps: Maps, bit: PresenceBit) returns (ok: bool)
    requires maps.Valid()
    modifies maps
    ensures maps.Valid() && old(maps.log) <= maps.log
    ensures maps.Cfg() ==
      old(maps.Cfg()).(flags := if ok then WithBit(old(maps.flags), bit, true) else old(maps.flags))
    ensures RuleEvents(maps.log) == RuleEvents(old(maps.log))
    ensures maps.faults >= old(maps.faults) && (!ok ==> maps.faults > old(maps.faults))
  {
    var flags;
    ok, flags := maps.LookupFlags();
    if !ok { return; }
    NowSafe(maps);
    ok := maps.StoreFlags(WithBit(flags, bit, true));
  }

  /** Sound only while the table behind `bit` is empty. */
  method ClearPresenceBit(maps: Maps, bit: PresenceBit) returns (ok: bool)
    requires maps.Valid()
    requires (bit == IP_PRESENT && maps.ips == map[]) || (bit == PORT_PRESENT && maps.ports == map[])
    modifies maps
    ensures maps.Valid() && old(maps.log) <= maps.log
    ensures maps.Cfg() ==
      old(maps.Cfg()).(flags := if ok then WithBit(old(maps.flags), bit, false) else old(maps.flags))
    ensures RuleEvents(maps.log) == RuleEvents(old(maps.log))
    ensures maps.faults >= old(maps.faults) && (!ok ==> maps.faults > old(maps.faults))
  {
    var flags;
    ok, flags := maps.LookupFlags();
    if !ok { return; }
    NowSafe(maps);
    ok := maps.StoreFlags(WithBit(flags, bit, false));
  }

  lemma NowSafe(maps: Maps)
    requires maps.Valid()
    ensures PresenceSafe(maps.View())
  {
    assert maps.log[..|maps.log|] == maps.log;
  }

  lemma RemovalShrinks<K, V>(m: map<K, V>, k: K)
    requires k in m
    ensures |m - {k}| == |m| - 1 && (m - {k}).Keys == m.Keys - {k} && (m - {k}).Items <= m.Items
  {
    assert (m - {k}).Keys == m.Keys - {k};
    assert |(m - {k}).Keys| == |m.Keys| - 1;
  }

  // ----- blocklist.go ------------------------------------------------------------------------

  /** An address block as it is listed. */
  datatype Cidr = Cidr(ip: Ip4, ones: u32)

  function NetworkKey(net: Cidr): LpmKey {
    NewLpmKey(net.ip, net.ones)
  }

  /** What rules.ParseIPOrCIDR makes of a request's text: host bits are already masked out. */
  type Network = net: Cidr | Normal(NetworkKey(net)) witness Cidr([0, 0, 0, 0], 0)

  /** One listed IP rule. */
  datatype BlockedRule = BlockedRule(cidr: Cidr, action: string, priority: u32)

  function ActionName(action: u32): string {
    if action == ACTION_PASS then "pass" else "drop"
  }

  function BlockedRuleOf(k: LpmKey, r: Rule): BlockedRule {
    BlockedRule(Cidr(LeBytes32(k.data), k.prefixlen), ActionName(r.action), r.priority)
  }

  /** A map iteration that has yielded `order` so far. */
  ghost predicate Scanned<K(!new)>(order: seq<K>, visited: set<K>, keys: set<K>) {
    && |order| == |visited| <= |keys| && visited <= keys
    && forall k :: k in visited <==> k in order
  }

  lemma ScansOneMore<K(!new)>(order: seq<K>, visited: set<K>, keys: set<K>, k: K)
    requires Scanned(order, visited, keys) && k in keys && k !in visited
    ensures Scanned(order + [k], visited + {k}, keys) && |visited| < |keys|
  {
    SubsetIsSmaller(visited + {k}, keys);
  }

  lemma {:induction false} SubsetIsSmaller<K>(s: set<K>, t: set<K>)
    requires s <= t
    ensures |s| <= |t|
    ensures |s| == |t| ==> s == t
    decreases |s|
  {
    if k :| k in s {
      SubsetIsSmaller(s - {k}, t - {k});
      assert s - {k} + {k} == s && t - {k} + {k} == t;
    }
  }

  ghost predicate ListsIps(rules: seq<BlockedRule>, order: seq<LpmKey>, table: IpTable) {
    && |rules| == |order|
    && forall i :: 0 <= i < |order| ==> order[i] in table && rules[i] == BlockedRuleOf(order[i], table[order[i]])
  }

  lemma IpLineAdded(rules: seq<BlockedRule>, order: seq<LpmKey>, table: IpTable, k: LpmKey)
    requires ListsIps(rules, order, table) && k in table
    ensures ListsIps(rules + [BlockedRuleOf(k, table[k])], order + [k], table)
  {
  }

  /** One line for each stored rule, and nothing else. */
  ghost predicate IsIpListing(rules: seq<BlockedRule>, table: IpTable) {
    && |rules| == |table|
    && (forall k :: k in table ==> BlockedRuleOf(k, table[k]) in rules)
    && (forall r :: r in rules ==> exists k :: k in table && r == BlockedRuleOf(k, table[k]))
  }

  lemma IpTableListed(rules: seq<BlockedRule>, order: seq<LpmKey>, visited: set<LpmKey>, table: IpTable)
    requires ListsIps(rules, order, table) && Scanned(order, visited, table.Keys) && table.Keys <= visited
    ensures IsIpListing(rules, table)
  {
    assert visited == table.Keys;
    forall k | k in table ensures BlockedRuleOf(k, table[k]) in rules {
      var i :| 0 <= i < |order| && order[i] == k;
      assert rules[i] == BlockedRuleOf(k, table[k]);
    }
    forall r | r in rules ensures exists k :: k in table && r == BlockedRuleOf(k, table[k]) {
      var i :| 0 <= i < |rules| && rules[i] == r;
      assert order[i] in table;
    }
  }

  /** A listed IP rule shows the network, action and priority of the request that made it. */
  lemma ListedNetworkShowsRequest(net: Network, r: Rule)
    ensures BlockedRuleOf(NetworkKey(net), r) == BlockedRule(net, ActionName(r.action), r.priority)
  {
    WordBytesInverse(0, net.ip);
  }

  class MapManager {
    const maps: Maps

    constructor (maps: Maps)
      ensures this.maps == maps
    {
      this.maps := maps;
    }

    method SyncPresence() returns (ok: bool)
      requires maps.Valid()
      modifies maps
      ensures maps.Valid() && old(maps.log) <= maps.log
      ensures maps.Cfg() == old(maps.Cfg()).(flags := maps.flags)
      ensures RuleEvents(maps.log) == RuleEvents(old(maps.log))
      ensures Present(maps.flags, PORT_PRESENT) == Present(old(maps.flags), PORT_PRESENT)
      ensures ok ==> (Present(maps.flags, IP_PRESENT) <==> maps.ips != map[])
      ensures maps.faults >= old(maps.faults) && (!ok ==> maps.faults > old(maps.faults))
    {
      var has;
      ok, has := maps.NextIp({});
      if !ok { return; }
      if has.Some? {
        ok := SetPresenceBit(maps, IP_PRESENT);
      } else {
        ok := ClearPresenceBit(maps, IP_PRESENT);
      }
    }

    /** The rule goes in by exactly one Put, or the command fails and no rule changes. */
    method BlockIPWithActionPriority(cidr: Option<Network>, action: u32, priority: u32) returns (ok: bool)
      requires maps.Valid()
      modifies maps
      ensures maps.Valid() && old(maps.log) <= maps.log
      ensures maps.ports == old(maps.ports) && maps.policy == old(maps.policy)
      ensures Present(maps.flags, PORT_PRESENT) == Present(old(maps.flags), PORT_PRESENT)
      ensures ok ==> cidr.Some? && Present(maps.flags, IP_PRESENT)
      ensures ok ==> maps.ips == old(maps.ips)[NetworkKey(cidr.value) := Rule(action, priority)]
      ensures ok ==>
        RuleEvents(maps.log) == RuleEvents(old(maps.log)) + [PutIp(NetworkKey(cidr.value), Rule(action, priority))]
      ensures !ok ==> maps.ips == old(maps.ips) && RuleEvents(maps.log) == RuleEvents(old(maps.log))
      ensures maps.faults >= old(maps.faults)
      ensures !ok ==>
        || maps.faults > old(maps.faults) || cidr.None?
        || (NetworkKey(cidr.value) !in old(maps.ips) && |old(maps.ips)| >= MAX_RULES)
    {
      if cidr.None? { return false; }
      var key := NetworkKey(cidr.value);
      ok := SetPresenceBit(maps, IP_PRESENT);
      if !ok { return; }
      ok := maps.StoreIp(key, Rule(action, priority));
    }

    /** Takes effect by at most one Delete; a failed flag update is reported although the rule is gone. */
    method UnblockIP(cidr: Option<Network>) returns (ok: bool, ghost deleted: bool)
      requires maps.Valid()
      modifies maps
      ensures maps.Valid() && old(maps.log) <= maps.log
      ensures maps.ports == old(maps.ports) && maps.policy == old(maps.policy)
      ensures Present(maps.flags, PORT_PRESENT) == Present(old(maps.flags), PORT_PRESENT)
      ensures deleted ==> cidr.Some? && NetworkKey(cidr.value) in old(maps.ips)
      ensures deleted ==> maps.ips == old(maps.ips) - {NetworkKey(cidr.value)}
      ensures deleted ==> RuleEvents(maps.log) == RuleEvents(old(maps.log)) + [DelIp(NetworkKey(cidr.value))]
      ensures !deleted ==> !ok && maps.ips == old(maps.ips) && RuleEvents(maps.log) == RuleEvents(old(maps.log))
      ensures ok ==> (Present(maps.flags, IP_PRESENT) <==> maps.ips != map[])
      ensures maps.faults >= old(maps.faults)
      ensures !ok ==> maps.faults > old(maps.faults) || cidr.None? || NetworkKey(cidr.value) !in old(maps.ips)
    {
      deleted := false;
      if cidr.None? { return false, false; }
      ok := maps.DeleteIp(NetworkKey(cidr.value));
      if !ok { return; }
      deleted := true;
      ok := SyncPresence();
    }

    /** `address` is what ipBytesOf reads: a bare address, a network's own address, or an error. It is
        blocked exactly when it starts with the bits of some stored prefix. */
    method IsBlocked(address: Option<Ip4>) returns (ok: bool, blocked: bool)
      requires maps.Valid()
      modifies maps`faults
      ensures maps.Valid() && maps.faults >= old(maps.faults)
      ensures ok ==> address.Some?
      ensures ok ==> (blocked <==> exists k :: k in maps.ips && SharesPrefix(k, address.value))
      ensures !ok ==> !blocked && (address.None? || maps.faults > old(maps.faults))
    {
      if address.None? { return false, false; }
      blocked := false;
      ok := maps.Call();
      if !ok { return; }
      var w := NewLpmKey(address.value, 32).data;
      blocked := LpmLookup(maps.ips, w).Some?;
      LpmLookupIsLongest(maps.ips, w);
      WordBytesInverse(0, address.value);
      forall k | k in maps.ips ensures Covers(k, w) <==> SharesPrefix(k, address.value) {
        CoversIsSharedPrefix(k, w);
      }
    }

    /** One line for each stored rule, and nothing else. */
    method ListBlockedRules() returns (ok: bool, rules: seq<BlockedRule>)
      requires maps.Valid()
      modifies maps
      ensures maps.Valid() && old(maps.log) <= maps.log
      ensures maps.Cfg() == old(maps.Cfg()) && RuleEvents(maps.log) == RuleEvents(old(maps.log))
      ensures ok ==> IsIpListing(rules, maps.ips)
      ensures maps.faults >= old(maps.faults) && (!ok ==> maps.faults > old(maps.faults))
    {
      var visited: set<LpmKey> := {};
      ghost var order: seq<LpmKey>, table := [], maps.ips;
      rules := [];
      while true
        invariant maps.Valid() && old(maps.log) <= maps.log
        invariant maps.Cfg() == old(maps.Cfg()) && RuleEvents(maps.log) == RuleEvents(old(maps.log))
        invariant maps.faults >= old(maps.faults)
        invariant Scanned(order, visited, table.Keys) && ListsIps(rules, order, table)
        decreases |table| - |visited|
      {
        var key;
        ok, key := maps.NextIp(visited);
        if !ok { return; }
        if key.None? { break; }
        IpLineAdded(rules, order, table, key.value);
        ScansOneMore(order, visited, table.Keys, key.value);
        visited := visited + {key.value};
        order := order + [key.value];
        rules := rules + [BlockedRuleOf(key.value, maps.ips[key.value])];
      }
      IpTableListed(rules, order, visited, table);
    }

    method Clear() returns (ok: bool)
      requires maps.Valid()
      modifies maps
      ensures maps.Valid() && old(maps.log) <= maps.log
      ensures maps.ports == old(maps.ports) && maps.policy == old(maps.policy)
      ensures Present(maps.flags, PORT_PRESENT) == Present(old(maps.flags), PORT_PRESENT)
      ensures ok ==> maps.ips == map[] && !Present(maps.flags, IP_PRESENT)
      ensures maps.ips.Items <= old(maps.ips).Items
      ensures Removals(RuleEvents(old(maps.log)), RuleEvents(maps.log))
      ensures maps.faults >= old(maps.faults) && (!ok ==> maps.faults > old(maps.faults))
    {
      var visited: set<LpmKey> := {};
      while true
        invariant maps.Valid() && old(maps.log) <= maps.log
        invariant maps.Cfg() == old(maps.Cfg()).(ips := maps.ips)
        invariant Removals(RuleEvents(old(maps.log)), RuleEvents(maps.log))
        invariant maps.faults >= old(maps.faults)
        invariant maps.ips.Keys !! visited && maps.ips.Items <= old(maps.ips).Items
        decreases |maps.ips|
      {
        var key;
        ok, key := maps.NextIp(visited);
        if !ok { return; }
        if key.None? { break; }
        visited := visited + {key.value};
        RemovalShrinks(maps.ips, key.value);
        RemovalAdded(RuleEvents(old(maps.log)), RuleEvents(maps.log), DelIp(key.value));
        ok := maps.DeleteIp(key.value);
        if !ok { return; }
      }
      assert maps.ips.Keys == {};
      ok := SyncPresence();
    }
  }

  // ----- portpolicy.go -----------------------------------------------------------------------

  /** protoToCode; the text is taken as already trimmed and lower-cased. */
  function ProtoToCode(proto: string): Option<u8> {
    if proto == "" then Some(0)
    else if proto == "tcp" then Some(PROTO_TCP)
    else if proto == "udp" then Some(PROTO_UDP)
    else None
  }

  function CodeToProto(code: u8): string {
    if code == PROTO_TCP then "tcp" else if code == PROTO_UDP then "udp" else ""
  }

  /** The key of a port request, or None where its protocol or destination does not parse. */
  function RequestedKey(dst: Option<Ip4>, protocol: string, dport: u16, sport: u16): Option<PortKey> {
    if ProtoToCode(protocol).None? || dst.None? then None
    else Some(NewPortKey(PortId(dst.value, ProtoToCode(protocol).value, dport, sport)))
  }

  datatype PortRule = PortRule(protocol: string, port: u16, sport: u16, dst: Ip4, action: string, priority: u32)

  function PortRuleOf(id: PortId, r: Rule): PortRule {
    PortRule(CodeToProto(id.protocol), id.dport, id.sport, id.dst, ActionName(r.action), r.priority)
  }

  /** A listed rule shows the request that made it: the names and numbers survive the way through the key. */
  lemma ListedRuleShowsRequest(dst: Ip4, proto: string, dport: u16, sport: u16, r: Rule)
    requires ProtoToCode(proto).Some?
    ensures PortRuleOf(PortIdOf(RequestedKey(Some(dst), proto, dport, sport).value), r) ==
      PortRule(proto, dport, sport, dst, ActionName(r.action), r.priority)
    ensures r.action in {ACTION_PASS, ACTION_DROP} ==> ParseAction(ActionName(r.action)) == Some(r.action)
  {
    var id := PortId(dst, ProtoToCode(proto).value, dport, sport);
    PortKeyInverse(id, NewPortKey(id));
  }

  /** The rules the operator asked for, whichever came last for each (dst, protocol, dport, sport). */
  ghost function LastWrites(rules: Log): map<PortId, Rule> {
    if rules == [] then map[]
    else
      var before, e := LastWrites(rules[..|rules| - 1]), rules[|rules| - 1];
      match e
      case PutPort(k, r) => before[PortIdOf(k) := r]
      case DelPort(k) => before - {PortIdOf(k)}
      case _ => before
  }

  /** After every run the port table holds exactly the last-written rules, under their wire keys. */
  lemma {:induction false} TableIsLastWrites(log: Log)
    ensures forall id :: id in LastWrites(RuleEvents(log)) <==> NewPortKey(id) in Replay(log).ports
    ensures forall id :: id in LastWrites(RuleEvents(log)) ==>
      LastWrites(RuleEvents(log))[id] == Replay(log).ports[NewPortKey(id)]
    decreases |log|
  {
    if log != [] {
      var n := |log| - 1;
      var e, before := log[n], RuleEvents(log[..n]);
      TableIsLastWrites(log[..n]);
      if RuleEvent(e) {
        assert (before + [e])[..|before|] == before;
      }
      if e.PutPort? || e.DelPort? {
        PortKeyInverse(PortIdOf(e.key), e.key);
        forall id ensures NewPortKey(id) == e.key <==> id == PortIdOf(e.key) {
          PortKeyInverse(id, e.key);
        }
      }
    }
  }

  /** Distinct rules have distinct keys, so the two maps are equally large. */
  lemma {:induction false} SameSize(wanted: map<PortId, Rule>, table: PortTable)
    requires forall id :: id in wanted <==> NewPortKey(id) in table
    ensures |wanted| == |table|
    decreases |wanted|
  {
    if id :| id in wanted {
      var k := NewPortKey(id);
      forall other ensures NewPortKey(other) == k <==> other == id {
        PortKeyInverse(other, k);
        PortKeyInverse(id, k);
      }
      RemovalShrinks(wanted, id);
      RemovalShrinks(table, k);
      SameSize(wanted - {id}, table - {k});
    } else {
      forall k ensures k !in table {
        PortKeyInverse(PortIdOf(k), k);
      }
    }
  }

  ghost predicate ListsPorts(rules: seq<PortRule>, order: seq<PortKey>, table: PortTable) {
    && |rules| == |order|
    && forall i :: 0 <= i < |order| ==> order[i] in table && rules[i] == PortRuleOf(PortIdOf(order[i]), table[order[i]])
  }

  lemma PortLineAdded(rules: seq<PortRule>, order: seq<PortKey>, table: PortTable, k: PortKey)
    requires ListsPorts(rules, order, table) && k in table
    ensures ListsPorts(rules + [PortRuleOf(PortIdOf(k), table[k])], order + [k], table)
  {
  }

  /** Listing the table key by key lists the last-written rules. */
  lemma ListingIsLastWrites(log: Log, order: seq<PortKey>, rules: seq<PortRule>)
    requires Scanned(order, Replay(log).ports.Keys, Replay(log).ports.Keys)
    requires ListsPorts(rules, order, Replay(log).ports)
    ensures IsListing(rules, LastWrites(RuleEvents(log)))
  {
    var wanted, table := LastWrites(RuleEvents(log)), Replay(log).ports;
    TableIsLastWrites(log);
    SameSize(wanted, table);
    ListsAllWanted(wanted, table, order, rules);
    ListsOnlyWanted(wanted, table, order, rules);
  }

  ghost predicate SameRules(wanted: map<PortId, Rule>, table: PortTable) {
    && (forall id :: id in wanted <==> NewPortKey(id) in table)
    && (forall id :: id in wanted ==> wanted[id] == table[NewPortKey(id)])
  }

  lemma ListsAllWanted(wanted: map<PortId, Rule>, table: PortTable, order: seq<PortKey>, rules: seq<PortRule>)
    requires SameRules(wanted, table) && ListsPorts(rules, order, table) && forall k :: k in table ==> k in order
    ensures forall id :: id in wanted ==> PortRuleOf(id, wanted[id]) in rules
  {
    forall id | id in wanted ensures PortRuleOf(id, wanted[id]) in rules {
      PortKeyInverse(id, NewPortKey(id));
      var i :| 0 <= i < |order| && order[i] == NewPortKey(id);
      assert rules[i] == PortRuleOf(id, wanted[id]);
    }
  }

  lemma ListsOnlyWanted(wanted: map<PortId, Rule>, table: PortTable, order: seq<PortKey>, rules: seq<PortRule>)
    requires SameRules(wanted, table) && ListsPorts(rules, order, table)
    ensures forall r :: r in rules ==> exists id :: id in wanted && r == PortRuleOf(id, wanted[id])
  {
    forall r | r in rules ensures exists id :: id in wanted && r == PortRuleOf(id, wanted[id]) {
      var i :| 0 <= i < |rules| && rules[i] == r;
      var id := PortIdOf(order[i]);
      PortKeyInverse(id, order[i]);
      assert r == PortRuleOf(id, wanted[id]);
    }
  }

  /** One line for each wanted rule, and nothing else. */
  ghost predicate IsListing(rules: seq<PortRule>, wanted: map<PortId, Rule>) {
    && |rules| == |wanted|
    && (forall id :: id in wanted ==> PortRuleOf(id, wanted[id]) in rules)
    && (forall r :: r in rules ==> exists id :: id in wanted && r == PortRuleOf(id, wanted[id]))
  }

  class PortPolicyManager {
    const maps: Maps

    constructor (maps: Maps)
      ensures this.maps == maps
    {
      this.maps := maps;
    }

    method SyncPresence() returns (ok: bool)
      requires maps.Valid()
      modifies maps
      ensures maps.Valid() && old(maps.log) <= maps.log
      ensures maps.Cfg() == old(maps.Cfg()).(flags := maps.flags)
      ensures RuleEvents(maps.log) == RuleEvents(old(maps.log))
      ensures Present(maps.flags, IP_PRESENT) == Present(old(maps.flags), IP_PRESENT)
      ensures ok ==> (Present(maps.flags, PORT_PRESENT) <==> maps.ports != map[])
      ensures maps.faults >= old(maps.faults) && (!ok ==> maps.faults > old(maps.faults))
    {
      var has;
      ok, has := maps.NextPort({});
      if !ok { return; }
      if has.Some? {
        ok := SetPresenceBit(maps, PORT_PRESENT);
      } else {
        ok := ClearPresenceBit(maps, PORT_PRESENT);
      }
    }

    /** The rule goes in by exactly one Put, or the command fails and no rule changes. */
    method BlockWithActionPriority(dst: Option<Ip4>, protocol: string, dport: u16, sport: u16,
                                   action: u32, priority: u32)
      returns (ok: bool)
      requires maps.Valid()
      modifies maps
      ensures maps.Valid() && old(maps.log) <= maps.log
      ensures maps.ips == old(maps.ips) && maps.policy == old(maps.policy)
      ensures Present(maps.flags, IP_PRESENT) == Present(old(maps.flags), IP_PRESENT)
      ensures ok ==> RequestedKey(dst, protocol, dport, sport).Some? && Present(maps.flags, PORT_PRESENT)
      ensures var key, rule := RequestedKey(dst, protocol, dport, sport), Rule(action, priority);
        ok ==>
          && maps.ports == old(maps.ports)[key.value := rule]
          && RuleEvents(maps.log) == RuleEvents(old(maps.log)) + [PutPort(key.value, rule)]
      ensures !ok ==> maps.ports == old(maps.ports) && RuleEvents(maps.log) == RuleEvents(old(maps.log))
      ensures maps.faults >= old(maps.faults)
      ensures var key := RequestedKey(dst, protocol, dport, sport);
        !ok ==>
          || maps.faults > old(maps.faults) || key.None?
          || (key.value !in old(maps.ports) && |old(maps.ports)| >= MAX_RULES)
    {
      var key := RequestedKey(dst, protocol, dport, sport);
      if key.None? { return false; }
      ok := SetPresenceBit(maps, PORT_PRESENT);
      if !ok { return; }
      ok := maps.StorePort(key.value, Rule(action, priority));
    }

    method UnblockWithAction(dst: Option<Ip4>, protocol: string, dport: u16, sport: u16)
      returns (ok: bool, ghost deleted: bool)
      requires maps.Valid()
      modifies maps
      ensures maps.Valid() && old(maps.log) <= maps.log
      ensures maps.ips == old(maps.ips) && maps.policy == old(maps.policy)
      ensures Present(maps.flags, IP_PRESENT) == Present(old(maps.flags), IP_PRESENT)
      ensures deleted ==> RequestedKey(dst, protocol, dport, sport).Some?
      ensures var key := RequestedKey(dst, protocol, dport, sport);
        deleted ==>
          && key.value in old(maps.ports) && maps.ports == old(maps.ports) - {key.value}
          && RuleEvents(maps.log) == RuleEvents(old(maps.log)) + [DelPort(key.value)]
      ensures !deleted ==> !ok && maps.ports == old(maps.ports) && RuleEvents(maps.log) == RuleEvents(old(maps.log))
      ensures ok ==> (Present(maps.flags, PORT_PRESENT) <==> maps.ports != map[])
      ensures maps.faults >= old(maps.faults)
      ensures var key := RequestedKey(dst, protocol, dport, sport);
        !ok ==> maps.faults > old(maps.faults) || key.None? || key.value !in old(maps.ports)
    {
      deleted := false;
      var key := RequestedKey(dst, protocol, dport, sport);
      if key.None? { return false, false; }
      ok := maps.DeletePort(key.value);
      if !ok { return; }
      deleted := true;
      ok := SyncPresence();
    }

    /** List: one line per last-written rule, and nothing else. */
    method List() returns (ok: bool, rules: seq<PortRule>)
      requires maps.Valid()
      modifies maps
      ensures maps.Valid() && old(maps.log) <= maps.log
      ensures maps.Cfg() == old(maps.Cfg()) && RuleEvents(maps.log) == RuleEvents(old(maps.log))
      ensures ok ==> IsListing(rules, LastWrites(RuleEvents(maps.log)))
      ensures maps.faults >= old(maps.faults) && (!ok ==> maps.faults > old(maps.faults))
    {
      var visited: set<PortKey> := {};
      ghost var order: seq<PortKey>, table := [], maps.ports;
      rules := [];
      while true
        invariant maps.Valid() && old(maps.log) <= maps.log
        invariant maps.Cfg() == old(maps.Cfg()) && RuleEvents(maps.log) == RuleEvents(old(maps.log))
        invariant maps.faults >= old(maps.faults)
        invariant Scanned(order, visited, table.Keys) && ListsPorts(rules, order, table)
        decreases |table| - |visited|
      {
        var key;
        ok, key := maps.NextPort(visited);
        if !ok { return; }
        if key.None? { break; }
        PortLineAdded(rules, order, table, key.value);
        ScansOneMore(order, visited, table.Keys, key.value);
        visited := visited + {key.value};
        order := order + [key.value];
        rules := rules + [PortRuleOf(PortIdOf(key.value), maps.ports[key.value])];
      }
      assert visited == table.Keys;
      ListingIsLastWrites(maps.log, order, rules);
    }

    method Clear() returns (ok: bool)
      requires maps.Valid()
      modifies maps
      ensures maps.Valid() && old(maps.log) <= maps.log
      ensures maps.ips == old(maps.ips) && maps.policy == old(maps.policy)
      ensures Present(maps.flags, IP_PRESENT) == Present(old(maps.flags), IP_PRESENT)
      ensures ok ==> maps.ports == map[] && !Present(maps.flags, PORT_PRESENT)
      ensures maps.ports.Items <= old(maps.ports).Items
      ensures Removals(RuleEvents(old(maps.log)), RuleEvents(maps.log))
      ensures maps.faults >= old(maps.faults) && (!ok ==> maps.faults > old(maps.faults))
    {
      var visited: set<PortKey> := {};
      while true
        invariant maps.Valid() && old(maps.log) <= maps.log
        invariant maps.Cfg() == old(maps.Cfg()).(ports := maps.ports)
        invariant Removals(RuleEvents(old(maps.log)), RuleEvents(maps.log))
        invariant maps.faults >= old(maps.faults)
        invariant maps.ports.Keys !! visited && maps.ports.Items <= old(maps.ports).Items
        decreases |maps.ports|
      {
        var key;
        ok, key := maps.NextPort(visited);
        if !ok { return; }
        if key.None? { break; }
        visited := visited + {key.value};
        RemovalShrinks(maps.ports, key.value);
        RemovalAdded(RuleEvents(old(maps.log)), RuleEvents(maps.log), DelPort(key.value));
        ok := maps.DeletePort(key.value);
        if !ok { return; }
      }
      assert maps.ports.Keys == {};
      ok := SyncPresence();
    }
  }

  // ----- conntrack.go ------------------------------------------------------------------------

  class ConntrackManager {
    const maps: Maps

    constructor (maps: Maps)
      ensures this.maps == maps
    {
      this.maps := maps;
    }

    /** A snapshot: at its end every tracked flow has been collected, and of the flows that nobody
        else touched, exactly those that were tracked. */
    method Keys() returns (ok: bool, keys: seq<Flow>)
      requires maps.Valid()
      modifies maps
      ensures maps.Valid() && Undisturbed(Control, old(maps.View()), old(maps.log), maps.View(), maps.log)
      ensures ok ==> forall k :: k in maps.ct ==> k in keys
      ensures forall k :: Quiet(Control, maps.log, |old(maps.log)|, k) && k in keys ==> k in old(maps.ct)
      ensures Distinct(keys) && maps.faults >= old(maps.faults)
      ensures !ok ==> maps.faults > old(maps.faults) || !AllQuiet(Control, maps.log, |old(maps.log)|)
    {
      ghost var s, before := maps.View(), maps.log;
      var visited: set<Flow> := {};
      keys := [];
      while true
        invariant maps.Valid() && Undisturbed(Control, s, before, maps.View(), maps.log)
        invariant Distinct(keys) && maps.faults >= old(maps.faults)
        invariant forall k :: k in visited <==> k in keys
        invariant forall k :: Quiet(Control, maps.log, |before|, k) && k in keys ==> k in s.ct
        decreases MAX_FLOWS - |visited|
      {
        var key, value;
        ghost var t, mid := maps.View(), maps.log;
        ok, key, value := maps.NextFlow(Control, visited);
        StillUndisturbed(Control, s, before, t, mid, maps.View(), maps.log);
        QuietSplits(Control, mid, maps.log, |before|);
        if !ok {
          if maps.faults == old(maps.faults) { FullScanIsDisturbed(Control, maps.log, |before|, s.ct, visited); }
          return;
        }
        if key.None? { return; }
        visited := visited + {key.value};
        keys := keys + [key.value];
      }
    }

    /** Deletes the given flows in order, up to the first failure. */
    method DeleteAll(me: Actor, keys: seq<Flow>) returns (ok: bool, deleted: nat)
      requires maps.Valid()
      modifies maps
      ensures maps.Valid() && (ok <==> deleted == |keys|) && maps.faults >= old(maps.faults)
      ensures !ok ==> maps.faults > old(maps.faults) || (deleted < |keys| && keys[deleted] !in maps.ct)
      ensures Deleted(me, old(maps.View()), old(maps.log), maps.View(), maps.log, keys, deleted)
    {
      ghost var s, before := maps.View(), maps.log;
      deleted := 0;
      while deleted < |keys|
        invariant maps.Valid() && Deleted(me, s, before, maps.View(), maps.log, keys, deleted)
        invariant maps.faults >= old(maps.faults)
      {
        ghost var t, mid := maps.View(), maps.log;
        ok := maps.DeleteFlow(me, keys[deleted]);
        DeletedNext(me, s, before, t, mid, maps.View(), maps.log, keys, deleted, ok);
        if !ok { return; }
        deleted := deleted + 1;
      }
      ok := true;
    }

    /** Success removes every flow that nobody else touched meanwhile. And whatever packets arrive:
        without rules no new flow can appear, so success then means an empty table. */
    method Clear() returns (ok: bool)
      requires maps.Valid()
      modifies maps
      ensures maps.Valid() && old(maps.log) <= maps.log
      ensures maps.Cfg() == old(maps.Cfg()) && RuleEvents(maps.log) == RuleEvents(old(maps.log))
      ensures ok && maps.ips == map[] && maps.ports == map[] ==> maps.ct == map[]
      ensures ok ==> forall k :: Quiet(Control, maps.log, |old(maps.log)|, k) ==> k !in maps.ct
      ensures maps.faults >= old(maps.faults)
      ensures !ok ==> maps.faults > old(maps.faults) || !AllQuiet(Control, maps.log, |old(maps.log)|)
    {
      var keys, deleted;
      ghost var s, before := maps.View(), maps.log;
      ok, keys := Keys();
      if !ok { return; }
      ghost var t, mid := maps.View(), maps.log;
      ok, deleted := DeleteAll(Control, keys);
      QuietSplits(Control, mid, maps.log, |before|);
      if !ok && maps.faults == old(maps.faults) {
        LateDeletion(Control, s, before, t, mid, maps.View(), maps.log, keys, deleted);
      }
      assert ok ==> keys[..deleted] == keys;
    }

    /** The scan of Reap: collects, among the flows that nobody else touches, exactly the stale ones. */
    method CollectStale(now: u64, idle: int) returns (ok: bool, stale: seq<Flow>)
      requires maps.Valid() && idle < 0x8000_0000_0000_0000
      modifies maps
      ensures maps.Valid() && Undisturbed(Reaper, old(maps.View()), old(maps.log), maps.View(), maps.log)
      ensures ok ==> forall k :: Quiet(Reaper, maps.log, |old(maps.log)|, k) ==>
        (k in stale <==> k in old(maps.ct) && Stale(old(maps.ct)[k], now, idle))
      ensures forall k :: k in stale ==> WasStale(maps.log, |old(maps.log)|, k, now, idle)
      ensures forall k :: k in stale && Quiet(Reaper, maps.log, |old(maps.log)|, k) ==> k in old(maps.ct)
      ensures Distinct(stale) && maps.faults >= old(maps.faults)
      ensures !ok ==> maps.faults > old(maps.faults) || !AllQuiet(Reaper, maps.log, |old(maps.log)|)
    {
      var reapAll := idle <= 0;
      var cutoff: u64 := 0;
      if !reapAll {
        if idle < now {
          cutoff := now - idle;
        }
      }
      ghost var s, before := maps.View(), maps.log;
      var visited: set<Flow> := {};
      stale := [];
      while true
        invariant maps.Valid() && Undisturbed(Reaper, s, before, maps.View(), maps.log)
        invariant StaleScan(maps.log, |before|, s.ct, visited, stale, now, idle)
        invariant Distinct(stale) && maps.faults >= old(maps.faults)
        decreases MAX_FLOWS - |visited|
      {
        var key, value;
        ghost var t, mid := maps.View(), maps.log;
        ok, key, value := maps.NextFlow(Reaper, visited);
        StillUndisturbed(Reaper, s, before, t, mid, maps.View(), maps.log);
        ScanStays(mid, maps.log, |before|, s.ct, visited, stale, now, idle);
        if !ok {
          if maps.faults == old(maps.faults) { FullScanIsDisturbed(Reaper, maps.log, |before|, s.ct, visited); }
          return;
        }
        if key.None? { return; }
        ScanAdvances(maps.log, |before|, s.ct, visited, stale, now, idle, key.value, value);
        visited := visited + {key.value};
        if reapAll || value.lastSeen <= cutoff {
          stale := stale + [key.value];
        }
      }
    }

    /** Reap with the clock read as `now`. For every flow that nobody else touches meanwhile: success
        removes it exactly if it has been idle long enough, failure removes it only then. Of the others, only
        flows that were stale at some moment of the call are removed. The count is the number of deletions
        made, also when a Delete fails midway; without faults that happens only when others touch flows. */
    method Reap(now: u64, idle: int) returns (ok: bool, reaped: nat)
      requires maps.Valid() && idle < 0x8000_0000_0000_0000
      modifies maps
      ensures maps.Valid() && old(maps.log) <= maps.log
      ensures Reaped(maps.log) == Reaped(old(maps.log)) + reaped
      ensures ok ==> forall k :: Quiet(Reaper, maps.log, |old(maps.log)|, k) ==>
        (k in maps.ct <==> k in old(maps.ct) && !MustGo(old(maps.ct)[k], now, idle))
      ensures forall k :: Quiet(Reaper, maps.log, |old(maps.log)|, k) && k in maps.ct ==>
        k in old(maps.ct) && maps.ct[k] == old(maps.ct)[k]
      ensures forall k :: Quiet(Reaper, maps.log, |old(maps.log)|, k) && k in old(maps.ct) ==>
        k in maps.ct || MustGo(old(maps.ct)[k], now, idle)
      ensures ok && AllQuiet(Reaper, maps.log, |old(maps.log)|) ==> maps.ct == Sweep(old(maps.ct), now, idle)
      ensures forall i :: |old(maps.log)| <= i < |maps.log| && !Interferes(Reaper, maps.log[i]) ==>
        maps.log[i].DelCt? && WasStale(maps.log, |old(maps.log)|, maps.log[i].flow, now, idle)
      ensures maps.faults >= old(maps.faults)
      ensures !ok ==> maps.faults > old(maps.faults) || !AllQuiet(Reaper, maps.log, |old(maps.log)|)
    {
      var stale;
      ghost var s, before := maps.View(), maps.log;
      ok, stale := CollectStale(now, idle);
      if !ok { return false, 0; }
      ghost var t, mid := maps.View(), maps.log;
      ok, reaped := DeleteAll(Reaper, stale);
      StaleLater(mid, maps.log, |before|, now, idle);
      SweptFlows(s, before, t, mid, maps.View(), maps.log, stale, reaped, now, idle);
      if !ok && maps.faults == old(maps.faults) {
        LateDeletion(Reaper, s, before, t, mid, maps.View(), maps.log, stale, reaped);
      }
    }
  }

  ghost predicate Distinct<T>(keys: seq<T>) {
    forall i, j :: 0 <= i < j < |keys| ==> keys[i] != keys[j]
  }

  /** A scan of undisturbed flows never runs out of room. */
  lemma FullScanIsDisturbed(me: Actor, log: Log, n: nat, was: CtTable, visited: set<Flow>)
    requires QuietKept(me, log, n, was, Replay(log).ct)
    requires forall k :: k in visited && Quiet(me, log, n, k) ==> k in was
    requires !(Replay(log).ct.Keys <= visited) && |visited| >= MAX_FLOWS
    ensures !AllQuiet(me, log, n)
  {
    if AllQuiet(me, log, n) {
      var ct := Replay(log).ct;
      assert forall k :: k in visited ==> Entry(ct, k) == Entry(was, k);
      SubsetIsSmaller(visited, ct.Keys);
      FlowTableIsBounded(log);
    }
  }

  /** A listed flow that nobody else touched is still there when its turn comes. */
  lemma LateDeletion(me: Actor, s: State, before: Log, t: State, mid: Log, u: State, log: Log,
                     keys: seq<Flow>, n: nat)
    requires Undisturbed(me, s, before, t, mid) && Deleted(me, t, mid, u, log, keys, n)
    requires n < |keys| && Distinct(keys)
    requires forall k :: k in keys && Quiet(me, mid, |before|, k) ==> k in s.ct
    ensures Quiet(me, log, |before|, keys[n]) ==> keys[n] in u.ct
    ensures keys[n] !in u.ct ==> !AllQuiet(me, log, |before|)
  {
    var k := keys[n];
    QuietSplits(me, mid, log, |before|);
    if Quiet(me, log, |before|, k) {
      assert Entry(t.ct, k) == Entry(s.ct, k);
      assert Entry(u.ct, k) == Entry(t.ct, k);
    }
  }

  /** What deleting the stale flows leaves of the flows that nobody else touched. */
  lemma SweptFlows(s: State, before: Log, t: State, mid: Log, u: State, log: Log, stale: seq<Flow>, n: nat,
                   now: u64, idle: int)
    requires idle < 0x8000_0000_0000_0000
    requires Undisturbed(Reaper, s, before, t, mid) && Deleted(Reaper, t, mid, u, log, stale, n)
    requires forall k :: Quiet(Reaper, mid, |before|, k) ==>
      (k in stale <==> k in s.ct && Stale(s.ct[k], now, idle))
    ensures n == |stale| ==> forall k :: Quiet(Reaper, log, |before|, k) ==>
      (k in u.ct <==> k in s.ct && !MustGo(s.ct[k], now, idle))
    ensures forall k :: Quiet(Reaper, log, |before|, k) && k in u.ct ==> k in s.ct && u.ct[k] == s.ct[k]
    ensures forall k :: Quiet(Reaper, log, |before|, k) && k in s.ct ==> k in u.ct || MustGo(s.ct[k], now, idle)
    ensures n == |stale| && AllQuiet(Reaper, log, |before|) ==> u.ct == Sweep(s.ct, now, idle)
  {
    QuietSplits(Reaper, mid, log, |before|);
    assert forall k :: k in stale[..n] ==> k in stale;
    assert n == |stale| ==> stale[..n] == stale;
    forall k | Quiet(Reaper, log, |before|, k)
      ensures Entry(u.ct, k) == if k in stale[..n] then None else Entry(s.ct, k)
      ensures k in s.ct ==> (Stale(s.ct[k], now, idle) <==> MustGo(s.ct[k], now, idle))
    {
      if k in s.ct { StaleMeaning(s.ct[k], now, idle); }
    }
    if n == |stale| && AllQuiet(Reaper, log, |before|) {
      SameEntries(u.ct, Sweep(s.ct, now, idle));
    }
  }

  /** A scan that has visited these flows has collected, of those nobody else touched, exactly the stale. */
  ghost predicate StaleScan(log: Log, n: nat, was: CtTable, visited: set<Flow>, stale: seq<Flow>, now: u64, idle: int)
    requires idle < 0x8000_0000_0000_0000
  {
    && (forall k :: k in stale ==> k in visited)
    && (forall k :: k in visited && Quiet(Reaper, log, n, k) ==> k in was && (k in stale <==> Stale(was[k], now, idle)))
    && (forall k :: k in stale ==> WasStale(log, n, k, now, idle))
  }

  lemma ScanStays(mid: Log, log: Log, n: nat, was: CtTable, visited: set<Flow>, stale: seq<Flow>, now: u64, idle: int)
    requires idle < 0x8000_0000_0000_0000 && mid <= log && n <= |mid|
    requires StaleScan(mid, n, was, visited, stale, now, idle)
    ensures StaleScan(log, n, was, visited, stale, now, idle)
  {
    QuietSplits(Reaper, mid, log, n);
    StaleLater(mid, log, n, now, idle);
  }

  lemma ScanAdvances(log: Log, n: nat, was: CtTable, visited: set<Flow>, stale: seq<Flow>, now: u64, idle: int,
                     key: Flow, value: CtEntry)
    requires idle < 0x8000_0000_0000_0000 && n <= |log| && key !in visited
    requires StaleScan(log, n, was, visited, stale, now, idle)
    requires QuietKept(Reaper, log, n, was, Replay(log).ct) && Entry(Replay(log).ct, key) == Some(value)
    ensures StaleScan(log, n, was, visited + {key}, if Stale(value, now, idle) then stale + [key] else stale, now, idle)
  {
    if Stale(value, now, idle) { StaleNow(log, n, key, now, idle); }
    assert Quiet(Reaper, log, n, key) ==> Entry(was, key) == Some(value);
  }

  /** At some point of the run from `n` on, `k` had an entry that a Reap with this clock collects. */
  ghost predicate WasStale(log: Log, n: nat, k: Flow, now: u64, idle: int)
    requires idle < 0x8000_0000_0000_0000
  {
    exists i :: n <= i <= |log| && StaleAt(log, i, k, now, idle)
  }

  ghost predicate StaleAt(log: Log, i: nat, k: Flow, now: u64, idle: int)
    requires i <= |log| && idle < 0x8000_0000_0000_0000
  {
    k in Replay(log[..i]).ct && Stale(Replay(log[..i]).ct[k], now, idle)
  }

  lemma StaleNow(log: Log, n: nat, k: Flow, now: u64, idle: int)
    requires n <= |log| && idle < 0x8000_0000_0000_0000
    requires k in Replay(log).ct && Stale(Replay(log).ct[k], now, idle)
    ensures WasStale(log, n, k, now, idle)
  {
    assert log[..|log|] == log;
    assert StaleAt(log, |log|, k, now, idle);
  }

  lemma StaleLater(mid: Log, log: Log, n: nat, now: u64, idle: int)
    requires mid <= log && idle < 0x8000_0000_0000_0000
    ensures forall k :: WasStale(mid, n, k, now, idle) ==> WasStale(log, n, k, now, idle)
  {
    forall k | WasStale(mid, n, k, now, idle) ensures WasStale(log, n, k, now, idle) {
      var i :| n <= i <= |mid| && StaleAt(mid, i, k, now, idle);
      assert mid[..i] == log[..i];
      assert StaleAt(log, i, k, now, idle);
    }
  }

  lemma SameEntries(a: CtTable, b: CtTable)
    requires forall k :: Entry(a, k) == Entry(b, k)
    ensures a == b
  {
    forall k ensures k in a <==> k in b
      ensures k in a ==> a[k] == b[k] {
      assert Entry(a, k) == Entry(b, k);
    }
  }

  // ----- facade.go, server.go ----------------------------------------------------------------

  function ParseAction(s: string): Option<u32> {
    if s == "" || s == "drop" then Some(ACTION_DROP) else if s == "pass" then Some(ACTION_PASS) else None
  }

  function ParseDefaultPolicy(s: string): Option<u32> {
    if s == "" || s == "allow" then Some(DEFAULT_ALLOW) else if s == "deny" then Some(DEFAULT_DENY) else None
  }

  /** A request's value as text, and as the two address parsers read it. */
  datatype Value = Value(text: string, network: Option<Network>, host: Option<Ip4>)

  datatype Request = Request(command: string, value: Value, protocol: string, port: u16, sport: u16,
                             action: string, priority: u32)

  /** The parts of a reply the model keeps. */
  datatype Response = Response(ok: bool, blocked: seq<BlockedRule>, portRules: seq<PortRule>)

  predicate IsPortRequest(req: Request) {
    req.protocol != "" || req.port != 0 || req.sport != 0
  }

  /** The rule a block request asks for; without an action its priority is ignored. */
  function RequestedRule(req: Request): Option<Rule> {
    if req.action == "" then Some(Rule(ACTION_DROP, 0))
    else match ParseAction(req.action)
      case None => None
      case Some(a) => Some(Rule(a, req.priority))
  }

  /** The one rule change a successful block request makes. */
  function BlockEvent(req: Request): Option<Event> {
    match RequestedRule(req)
    case None => None
    case Some(rule) =>
      if IsPortRequest(req) then
        match RequestedKey(req.value.host, req.protocol, req.port, req.sport)
        case None => None
        case Some(key) => Some(PutPort(key, rule))
      else if req.value.network.None? then None
      else Some(PutIp(NetworkKey(req.value.network.value), rule))
  }

  /** The one rule change a successful unblock request makes. */
  function UnblockEvent(req: Request): Option<Event> {
    if IsPortRequest(req) then
      match RequestedKey(req.value.host, req.protocol, req.port, req.sport)
      case None => None
      case Some(key) => Some(DelPort(key))
    else if req.value.network.None? then None
    else Some(DelIp(NetworkKey(req.value.network.value)))
  }

  // ----- what a request does to the tables, by its own fields -----------------------------------

  /** A request that names a protocol or a port is about port rules, any other about IP rules. */
  predicate NamesPorts(req: Request) {
    !(req.protocol == "" && req.port == 0 && req.sport == 0)
  }

  /** The stored rule is the one asked for: without an action a DROP of priority 0. */
  predicate IsRequestedRule(req: Request, r: Rule) {
    match req.action
    case "" => r.action == 1 && r.priority == 0
    case "drop" => r.action == 1 && r.priority == req.priority
    case "pass" => r.action == 0 && r.priority == req.priority
    case _ => false
  }

  /** The port table's key for this request: protocol number, ports and address in wire order. */
  predicate IsRequestedPortKey(req: Request, k: PortKey) {
    && (req.protocol, k.protocol) in {("", 0), ("tcp", 6), ("udp", 17)}
    && LeBytes16(k.dport) == [req.port / 0x100, req.port % 0x100]
    && LeBytes16(k.sport) == [req.sport / 0x100, req.sport % 0x100]
    && Some(LeBytes32(k.dst)) == req.value.host
  }

  predicate IsRequestedPrefix(req: Request, k: LpmKey) {
    req.value.network.Some? && k.prefixlen == req.value.network.value.ones &&
    LeBytes32(k.data) == req.value.network.value.ip
  }

  /** The request's texts are ones the daemon accepts. */
  predicate Parses(req: Request) {
    && req.action in {"", "drop", "pass"}
    && if NamesPorts(req) then req.protocol in {"", "tcp", "udp"} && req.value.host.Some? else req.value.network.Some?
  }

  /** There is no room for the rule: its table is full and does not hold it yet. */
  ghost predicate NoRoom(req: Request, ips: IpTable, ports: PortTable) {
    Absent(req, ips, ports) && (if NamesPorts(req) then |ports| else |ips|) >= 65535
  }

  /** No stored rule has the requested key. */
  ghost predicate Absent(req: Request, ips: IpTable, ports: PortTable) {
    if NamesPorts(req) then forall k :: k in ports ==> !IsRequestedPortKey(req, k)
    else forall k :: k in ips ==> !IsRequestedPrefix(req, k)
  }

  /** A block request put its rule into its table, and the other table is as it was. */
  ghost predicate Blocked(req: Request, ips: IpTable, ports: PortTable, ips': IpTable, ports': PortTable) {
    if NamesPorts(req) then
      && ips' == ips
      && exists k :: k in ports' && IsRequestedPortKey(req, k) && IsRequestedRule(req, ports'[k]) &&
           ports' == ports[k := ports'[k]]
    else
      && ports' == ports
      && exists k :: k in ips' && IsRequestedPrefix(req, k) && IsRequestedRule(req, ips'[k]) &&
           ips' == ips[k := ips'[k]]
  }

  /** An unblock request took its rule out of its table, and the other table is as it was. */
  ghost predicate Unblocked(req: Request, ips: IpTable, ports: PortTable, ips': IpTable, ports': PortTable) {
    if NamesPorts(req) then
      ips' == ips && exists k :: k in ports && IsRequestedPortKey(req, k) && ports' == ports - {k}
    else
      ports' == ports && exists k :: k in ips && IsRequestedPrefix(req, k) && ips' == ips - {k}
  }

  lemma RequestedKeyFits(req: Request, k: PortKey)
    requires RequestedKey(req.value.host, req.protocol, req.port, req.sport) == Some(k)
    ensures IsRequestedPortKey(req, k)
  {
    PortConversionsInverse(req.port);
    PortConversionsInverse(req.sport);
    WordBytesInverse(0, req.value.host.value);
  }

  lemma NetworkKeyFits(req: Request)
    requires req.value.network.Some?
    ensures IsRequestedPrefix(req, NetworkKey(req.value.network.value))
  {
    WordBytesInverse(0, req.value.network.value.ip);
  }

  /** The request determines its key. */
  lemma RequestedKeyIsOnly(req: Request, k: PortKey)
    requires RequestedKey(req.value.host, req.protocol, req.port, req.sport).Some? && IsRequestedPortKey(req, k)
    ensures RequestedKey(req.value.host, req.protocol, req.port, req.sport) == Some(k)
  {
    PortConversionsInverse(req.port);
    PortConversionsInverse(req.sport);
    WordBytesInverse(k.dst, req.value.host.value);
    SameWord16(k.dport, PortToWire(req.port));
    SameWord16(k.sport, PortToWire(req.sport));
  }

  lemma SameWord16(a: u16, b: u16)
    requires LeBytes16(a) == LeBytes16(b)
    ensures a == b
  {
    assert LeBytes16(a)[0] == LeBytes16(b)[0] && LeBytes16(a)[1] == LeBytes16(b)[1];
  }

  lemma NetworkKeyIsOnly(req: Request, k: LpmKey)
    requires IsRequestedPrefix(req, k)
    ensures k == NetworkKey(req.value.network.value)
  {
    WordBytesInverse(k.data, req.value.network.value.ip);
  }

  /** A missing key means that no stored key is the requested one. */
  lemma MissingIsAbsent(req: Request, ips: IpTable, ports: PortTable)
    requires Parses(req)
    requires if NamesPorts(req) then RequestedKey(req.value.host, req.protocol, req.port, req.sport).value !in ports
      else NetworkKey(req.value.network.value) !in ips
    ensures Absent(req, ips, ports)
  {
    if NamesPorts(req) {
      forall k | k in ports ensures !IsRequestedPortKey(req, k) {
        if IsRequestedPortKey(req, k) { RequestedKeyIsOnly(req, k); }
      }
    } else {
      forall k | k in ips ensures !IsRequestedPrefix(req, k) {
        if IsRequestedPrefix(req, k) { NetworkKeyIsOnly(req, k); }
      }
    }
  }

  /** Without a fault, a request is refused only if it does not parse, there is no room for its rule or no such
      rule, or a flow that a clear meant to delete was touched by others. */
  ghost predicate Refusable(req: Request, s: State, log: Log, n: nat) {
    match req.command
    case "block" => !Parses(req) || NoRoom(req, s.ips, s.ports)
    case "unblock" => !Parses(req.(action := "")) || Absent(req, s.ips, s.ports)
    case "default" => req.value.text !in {"", "allow", "deny"}
    case "setdefault" => req.value.text !in {"", "allow", "deny"}
    case "clear" => !AllQuiet(Control, log, n)
    case "list" => false
    case "listports" => false
    case _ => true
  }

  lemma SameAbsence(req: Request, ips: IpTable, ports: PortTable)
    requires Absent(req.(action := ""), ips, ports)
    ensures Absent(req, ips, ports)
  {
    assert forall k :: IsRequestedPortKey(req, k) == IsRequestedPortKey(req.(action := ""), k);
    assert forall k :: IsRequestedPrefix(req, k) == IsRequestedPrefix(req.(action := ""), k);
  }

  class Server {
    const maps: Maps
    const mgr: MapManager
    const ports: PortPolicyManager
    const ctMgr: ConntrackManager

    constructor (maps: Maps)
      ensures this.maps == maps && Wired()
    {
      this.maps := maps;
      mgr := new MapManager(maps);
      ports := new PortPolicyManager(maps);
      ctMgr := new ConntrackManager(maps);
    }

    predicate Wired() {
      mgr.maps == maps && ports.maps == maps && ctMgr.maps == maps
    }

    /** CmdBlock. */
    method HandleBlock(req: Request) returns (ok: bool)
      requires Wired() && maps.Valid()
      modifies maps
      ensures maps.Valid() && old(maps.log) <= maps.log && maps.policy == old(maps.policy)
      ensures ok ==>
        BlockEvent(req).Some? && RuleEvents(maps.log) == RuleEvents(old(maps.log)) + [BlockEvent(req).value]
      ensures ok ==> Blocked(req, old(maps.ips), old(maps.ports), maps.ips, maps.ports)
      ensures !ok ==> maps.ips == old(maps.ips) && maps.ports == old(maps.ports)
      ensures !ok ==> RuleEvents(maps.log) == RuleEvents(old(maps.log))
      ensures maps.faults >= old(maps.faults)
      ensures !ok ==> maps.faults > old(maps.faults) || !Parses(req) || NoRoom(req, old(maps.ips), old(maps.ports))
    {
      ghost var ips, ports := maps.ips, maps.ports;
      ok := StoreRequested(req);
      if !ok && maps.faults == old(maps.faults) && Parses(req) {
        MissingIsAbsent(req, ips, ports);
      }
      if ok {
        if IsPortRequest(req) {
          RequestedKeyFits(req, BlockEvent(req).value.key);
        } else {
          NetworkKeyFits(req);
        }
      }
    }

    /** The branches of CmdBlock. */
    method StoreRequested(req: Request) returns (ok: bool)
      requires Wired() && maps.Valid()
      modifies maps
      ensures maps.Valid() && old(maps.log) <= maps.log && maps.policy == old(maps.policy)
      ensures ok ==>
        BlockEvent(req).Some? && RuleEvents(maps.log) == RuleEvents(old(maps.log)) + [BlockEvent(req).value]
      ensures ok && IsPortRequest(req) ==>
        && maps.ips == old(maps.ips)
        && maps.ports == old(maps.ports)[BlockEvent(req).value.key := BlockEvent(req).value.rule]
      ensures ok && !IsPortRequest(req) ==>
        && maps.ports == old(maps.ports)
        && maps.ips == old(maps.ips)[BlockEvent(req).value.prefix := BlockEvent(req).value.rule]
      ensures !ok ==> maps.ips == old(maps.ips) && maps.ports == old(maps.ports)
      ensures !ok ==> RuleEvents(maps.log) == RuleEvents(old(maps.log))
      ensures maps.faults >= old(maps.faults)
      ensures var key := RequestedKey(req.value.host, req.protocol, req.port, req.sport);
        !ok && IsPortRequest(req) ==>
          || maps.faults > old(maps.faults) || ParseAction(req.action).None? || key.None?
          || (key.value !in old(maps.ports) && |old(maps.ports)| >= MAX_RULES)
      ensures var net := req.value.network;
        !ok && !IsPortRequest(req) ==>
          || maps.faults > old(maps.faults) || ParseAction(req.action).None? || net.None?
          || (NetworkKey(net.value) !in old(maps.ips) && |old(maps.ips)| >= MAX_RULES)
    {
      if IsPortRequest(req) {
        if req.action != "" {
          var action := ParseAction(req.action);
          if action.None? { return false; }
          ok := ports.BlockWithActionPriority(
            req.value.host, req.protocol, req.port, req.sport, action.value, req.priority);
        } else {
          ok := ports.BlockWithActionPriority(req.value.host, req.protocol, req.port, req.sport, ACTION_DROP, 0);
        }
        return;
      }
      if req.action != "" {
        var action := ParseAction(req.action);
        if action.None? { return false; }
        ok := mgr.BlockIPWithActionPriority(req.value.network, action.value, req.priority);
      } else {
        ok := mgr.BlockIPWithActionPriority(req.value.network, ACTION_DROP, 0);
      }
    }

    /** CmdClear: an OK reply means no rules, no flags and no flows, whatever traffic there was; and rules
        are only ever removed on the way. */
    method HandleClear() returns (ok: bool)
      requires Wired() && maps.Valid()
      modifies maps
      ensures maps.Valid() && old(maps.log) <= maps.log && maps.policy == old(maps.policy)
      ensures ok ==> maps.ips == map[] && maps.ports == map[] && maps.ct == map[]
      ensures ok ==> !Present(maps.flags, IP_PRESENT) && !Present(maps.flags, PORT_PRESENT)
      ensures maps.ips.Items <= old(maps.ips).Items && maps.ports.Items <= old(maps.ports).Items
      ensures OnlyRemovals(maps.log, |old(maps.log)|)
      ensures maps.faults >= old(maps.faults)
      ensures !ok ==> maps.faults > old(maps.faults) || !AllQuiet(Control, maps.log, |old(maps.log)|)
    {
      ok := ClearStages();
      assert maps.log[..|old(maps.log)|] == old(maps.log);
      RemovalsInRun(maps.log, |old(maps.log)|);
    }

    method ClearStages() returns (ok: bool)
      requires Wired() && maps.Valid()
      modifies maps
      ensures maps.Valid() && old(maps.log) <= maps.log && maps.policy == old(maps.policy)
      ensures ok ==> maps.ips == map[] && maps.ports == map[] && maps.ct == map[]
      ensures ok ==> !Present(maps.flags, IP_PRESENT) && !Present(maps.flags, PORT_PRESENT)
      ensures maps.ips.Items <= old(maps.ips).Items && maps.ports.Items <= old(maps.ports).Items
      ensures Removals(RuleEvents(old(maps.log)), RuleEvents(maps.log))
      ensures maps.faults >= old(maps.faults)
      ensures !ok ==> maps.faults > old(maps.faults) || !AllQuiet(Control, maps.log, |old(maps.log)|)
    {
      ok := mgr.Clear();
      if !ok { return; }
      ok := ports.Clear();
      if !ok { return; }
      ghost var mid := maps.log;
      ok := ctMgr.Clear();
      QuietSplits(Control, mid, maps.log, |old(maps.log)|);
    }

    /** CmdUnblock. */
    method HandleUnblock(req: Request) returns (ok: bool)
      requires Wired() && maps.Valid()
      modifies maps
      ensures maps.Valid() && old(maps.log) <= maps.log && maps.policy == old(maps.policy)
      ensures ok ==>
        UnblockEvent(req).Some? && RuleEvents(maps.log) == RuleEvents(old(maps.log)) + [UnblockEvent(req).value]
      ensures ok ==> Unblocked(req, old(maps.ips), old(maps.ports), maps.ips, maps.ports)
      ensures ok ==>
        if NamesPorts(req) then Present(maps.flags, PORT_PRESENT) <==> maps.ports != map[]
        else Present(maps.flags, IP_PRESENT) <==> maps.ips != map[]
      ensures RuleEvents(maps.log) == RuleEvents(old(maps.log)) ||
        exists e :: RuleEvents(maps.log) == RuleEvents(old(maps.log)) + [e]
      ensures maps.faults >= old(maps.faults)
      ensures !ok ==>
        maps.faults > old(maps.faults) || !Parses(req.(action := "")) || Absent(req, old(maps.ips), old(maps.ports))
    {
      ghost var deleted, ips, table := false, maps.ips, maps.ports;
      if IsPortRequest(req) {
        ok, deleted := ports.UnblockWithAction(req.value.host, req.protocol, req.port, req.sport);
        if ok { RequestedKeyFits(req, UnblockEvent(req).value.key); }
      } else {
        ok, deleted := mgr.UnblockIP(req.value.network);
        if ok { NetworkKeyFits(req); }
      }
      if !ok && maps.faults == old(maps.faults) && Parses(req.(action := "")) {
        MissingIsAbsent(req.(action := ""), ips, table);
        SameAbsence(req, ips, table);
      }
    }

    /** CmdSetDefault. */
    method HandleDefault(req: Request) returns (ok: bool)
      requires Wired() && maps.Valid()
      modifies maps
      ensures maps.Valid() && old(maps.log) <= maps.log
      ensures maps.Cfg() == old(maps.Cfg()).(policy := maps.policy)
      ensures RuleEvents(maps.log) == RuleEvents(old(maps.log))
      ensures ok ==>
        (req.value.text, maps.policy) in {("", DEFAULT_ALLOW), ("allow", DEFAULT_ALLOW), ("deny", DEFAULT_DENY)}
      ensures !ok ==> maps.policy == old(maps.policy)
      ensures maps.faults >= old(maps.faults)
      ensures !ok ==> maps.faults > old(maps.faults) || req.value.text !in {"", "allow", "deny"}
    {
      var policy := ParseDefaultPolicy(req.value.text);
      if policy.None? { return false; }
      ok := maps.StorePolicy(policy.value);
    }

    /** handle. mu is held throughout, so only packets and the reaper interfere. Every command except
        clear changes at most one rule. */
    method Handle(req: Request) returns (r: Response)
      requires Wired() && maps.Valid()
      modifies maps
      ensures maps.Valid() && old(maps.log) <= maps.log
      ensures req.command != "clear" ==>
        || RuleEvents(maps.log) == RuleEvents(old(maps.log))
        || exists e :: RuleEvents(maps.log) == RuleEvents(old(maps.log)) + [e]
      ensures r.ok && req.command == "block" ==>
        && Blocked(req, old(maps.ips), old(maps.ports), maps.ips, maps.ports)
        && BlockEvent(req).Some? && RuleEvents(maps.log) == RuleEvents(old(maps.log)) + [BlockEvent(req).value]
      ensures !r.ok && req.command == "block" ==>
        maps.ips == old(maps.ips) && maps.ports == old(maps.ports) && RuleEvents(maps.log) == RuleEvents(old(maps.log))
      ensures r.ok && req.command == "unblock" ==>
        && Unblocked(req, old(maps.ips), old(maps.ports), maps.ips, maps.ports)
        && UnblockEvent(req).Some? && RuleEvents(maps.log) == RuleEvents(old(maps.log)) + [UnblockEvent(req).value]
      ensures r.ok && req.command == "unblock" ==>
        if NamesPorts(req) then Present(maps.flags, PORT_PRESENT) <==> maps.ports != map[]
        else Present(maps.flags, IP_PRESENT) <==> maps.ips != map[]
      ensures r.ok && req.command in {"default", "setdefault"} ==>
        (req.value.text, maps.policy) in {("", DEFAULT_ALLOW), ("allow", DEFAULT_ALLOW), ("deny", DEFAULT_DENY)}
      ensures !(r.ok && req.command in {"default", "setdefault"}) ==> maps.policy == old(maps.policy)
      ensures r.ok && req.command == "clear" ==>
        && maps.ips == map[] && maps.ports == map[] && maps.ct == map[] && maps.flags == NONE_PRESENT
      ensures req.command == "clear" ==>
        && maps.ips.Items <= old(maps.ips).Items && maps.ports.Items <= old(maps.ports).Items
        && OnlyRemovals(maps.log, |old(maps.log)|)
      ensures r.ok && req.command == "list" ==> IsIpListing(r.blocked, maps.ips)
      ensures r.ok && req.command == "listports" ==> IsListing(r.portRules, LastWrites(RuleEvents(maps.log)))
      ensures req.command !in {"block", "unblock", "default", "setdefault", "clear"} ==> maps.Cfg() == old(maps.Cfg())
      ensures !r.ok && maps.faults == old(maps.faults) ==> Refusable(req, old(maps.View()), maps.log, |old(maps.log)|)
    {
      var ok, blocked, portRules := false, [], [];
      if req.command == "block" {
        ok := HandleBlock(req);
      } else if req.command == "unblock" {
        ok := HandleUnblock(req);
      } else if req.command == "default" || req.command == "setdefault" {
        ok := HandleDefault(req);
      } else if req.command == "clear" {
        ok := HandleClear();
      } else if req.command == "list" {
        ok, blocked := mgr.ListBlockedRules();
      } else if req.command == "listports" {
        ok, portRules := ports.List();
      } else if req.command in {"status", "stats", "conntrack"} {
        ok := *;
      }
      r := Response(ok, blocked, portRules);
    }
  }
}
