/** Ageing of flow entries: the cutoff arithmetic of Reap and the ticker that calls it. */
module Reaping {
  import opened Wire
  import opened Policy
  import opened Datapath

  const SECOND := 1_000_000_000

  // ----- one sweep -------------------------------------------------------------------------

  /** The unsigned cutoff: 0 instead of wrapping below zero. */
  function Cutoff(now: u64, idle: u64): u64 {
    if idle < now then now - idle else 0
  }

  /** The entry is collected by a Reap that read the clock as `now`. */
  predicate Stale(e: CtEntry, now: u64, idle: int)
    requires idle < 0x1_0000_0000_0000_0000
  {
    idle <= 0 || e.lastSeen <= Cutoff(now, idle)
  }

  /** A non-positive idle time means every entry, and otherwise those that have not been refreshed for it. Only
      where the clock has not reached `idle` yet is it exactly the entries stamped 0. */
  predicate MustGo(e: CtEntry, now: u64, idle: int) {
    || idle <= 0
    || (idle <= now && now as int - e.lastSeen as int >= idle)
    || (now < idle && e.lastSeen == 0)
  }

  /** The unsigned cutoff collects just those; it never collects an entry stamped after the clock was read. */
  lemma StaleMeaning(e: CtEntry, now: u64, idle: int)
    requires idle < 0x1_0000_0000_0000_0000
    ensures Stale(e, now, idle) <==> MustGo(e, now, idle)
    ensures 0 < idle && 0 < now <= e.lastSeen ==> !Stale(e, now, idle)
    ensures 0 < idle && 0 < e.lastSeen && now as int - e.lastSeen as int < idle ==> !Stale(e, now, idle)
  {
  }

  /** What an undisturbed Reap leaves. */
  function Sweep(ct: CtTable, now: u64, idle: int): CtTable
    requires idle < 0x1_0000_0000_0000_0000
  {
    map k | k in ct && !Stale(ct[k], now, idle) :: ct[k]
  }

  // ----- the ticker ------------------------------------------------------------------------

  type Timeout = t: int | 0 < t < 0x8000_0000_0000_0000 witness 1

  /** Half the timeout, but at least a second. */
  function Interval(timeout: Timeout): nat {
    if timeout / 2 < SECOND then SECOND else timeout / 2
  }

  /** An event of the firewall, or a whole successful Reap, with its time. */
  datatype Tick = Step(event: Event, at: u64) | Reap(at: u64)

  function After(s0: State, run: seq<Tick>, timeout: Timeout): State {
    if run == [] then s0
    else
      var s := After(s0, run[..|run| - 1], timeout);
      match run[|run| - 1]
      case Step(e, _) => Apply(s, e)
      case Reap(now) => s.(ct := Sweep(s.ct, now, timeout))
  }

  function LastReap(start: nat, run: seq<Tick>): nat {
    if run == [] then start
    else if run[|run| - 1].Reap? then run[|run| - 1].at
    else LastReap(start, run[..|run| - 1])
  }

  function Clock(start: nat, run: seq<Tick>): nat {
    if run == [] then start else run[|run| - 1].at
  }

  /** Time does not run backwards, packets are stamped with their time, and the reaper runs exactly
      one interval after its start and then one interval after each previous run. */
  ghost predicate OnSchedule(start: nat, run: seq<Tick>, timeout: Timeout) {
    run != [] ==>
      var front, last := run[..|run| - 1], run[|run| - 1];
      && OnSchedule(start, front, timeout)
      && Clock(start, front) <= last.at <= LastReap(start, front) + Interval(timeout)
      && (last.Reap? ==> last.at == LastReap(start, front) + Interval(timeout))
      && (last.Step? && last.event.Packet? ==> last.event.now == last.at)
  }

  /** At time `t` of a scheduled run that began without flows, flow `k` was refreshed `age` ago. */
  ghost predicate AgedBy(s0: State, start: nat, run: seq<Tick>, timeout: Timeout, t: nat, k: Flow, age: int) {
    && s0.ct == map[] && OnSchedule(start, run, timeout)
    && Clock(start, run) <= t <= LastReap(start, run) + Interval(timeout)
    && k in After(s0, run, timeout).ct
    && age == t - After(s0, run, timeout).ct[k].lastSeen
  }

  lemma {:induction false} EntriesAreRecent(s0: State, start: nat, run: seq<Tick>, timeout: Timeout)
    requires s0.ct == map[] && OnSchedule(start, run, timeout)
    ensures LastReap(start, run) <= Clock(start, run)
    ensures forall k :: k in After(s0, run, timeout).ct ==>
      && After(s0, run, timeout).ct[k].lastSeen <= Clock(start, run)
      && LastReap(start, run) < After(s0, run, timeout).ct[k].lastSeen + timeout
    decreases |run|
  {
    if run != [] {
      var front, last := run[..|run| - 1], run[|run| - 1];
      var s := After(s0, front, timeout);
      EntriesAreRecent(s0, start, front, timeout);
      match last
      case Step(e, at) =>
        forall k | k in Apply(s, e).ct
          ensures (k in s.ct && Apply(s, e).ct[k] == s.ct[k]) || Apply(s, e).ct[k].lastSeen == at
        {
        }
      case Reap(now) =>
        forall k | k in Sweep(s.ct, now, timeout) ensures now < s.ct[k].lastSeen + timeout {
          StaleMeaning(s.ct[k], now, timeout);
        }
    }
  }

  /** Timed eviction: at every moment of every scheduled run, every tracked flow was refreshed less
      than the timeout plus one interval ago. */
  lemma EvictionBound(s0: State, start: nat, run: seq<Tick>, timeout: Timeout, t: nat, k: Flow, age: int)
    requires AgedBy(s0, start, run, timeout, t, k, age)
    ensures 0 <= age < timeout + (if timeout < 2_000_000_000 then 1_000_000_000 else timeout / 2)
  {
    EntriesAreRecent(s0, start, run, timeout);
  }

  /** No premature eviction: in every scheduled run, a flow seen at a time other than 0 is still tracked,
      with an entry no older, at every moment less than the timeout later, unless a command deleted it;
      and every sweep until then leaves its entry as it is. */
  lemma {:induction false} YoungFlowsSurvive(s0: State, start: nat, run: seq<Tick>, timeout: Timeout, m: nat, k: Flow)
    requires s0.ct == map[] && OnSchedule(start, run, timeout) && m <= |run|
    requires k in After(s0, run[..m], timeout).ct
    requires 0 < After(s0, run[..m], timeout).ct[k].lastSeen
    requires Clock(start, run) < After(s0, run[..m], timeout).ct[k].lastSeen + timeout
    requires forall i :: m <= i < |run| && run[i].Step? && run[i].event.DelCt? ==> run[i].event.flow != k
    ensures k in After(s0, run, timeout).ct
    ensures After(s0, run[..m], timeout).ct[k].lastSeen <= After(s0, run, timeout).ct[k].lastSeen
    ensures m < |run| && run[|run| - 1].Reap? ==>
      Entry(After(s0, run, timeout).ct, k) == Entry(After(s0, run[..|run| - 1], timeout).ct, k)
    decreases |run|
  {
    if m == |run| {
      assert run[..m] == run;
    } else {
      var front, last := run[..|run| - 1], run[|run| - 1];
      assert front[..m] == run[..m];
      YoungFlowsSurvive(s0, start, front, timeout, m, k);
      EntriesAreRecent(s0, start, front, timeout);
      var e := After(s0, front, timeout).ct[k];
      match last
      case Step(event, at) => KeptUnlessDeleted(After(s0, front, timeout), event, k);
      case Reap(now) => StaleMeaning(e, now, timeout);
    }
  }

  lemma KeptUnlessDeleted(s: State, e: Event, k: Flow)
    requires k in s.ct && (e.DelCt? ==> e.flow != k)
    ensures k in Apply(s, e).ct
    ensures Apply(s, e).ct[k] == s.ct[k] || (e.Packet? && Apply(s, e).ct[k].lastSeen == e.now)
  {
  }

  // ----- the bound is the best possible -------------------------------------------------------

  const WITNESS := PacketInfo(1, 2, PROTO_TCP, 3, 4, TcpFlags(false, true, false, false))
  const WITNESS_RULES := map[PortKey(PROTO_TCP, 3, 4, 2) := Rule(ACTION_PASS, 0)]
  const WITNESS_STATE := BOOT.(ports := WITNESS_RULES, flags := PresenceWord(false, true), policy := DEFAULT_DENY)

  lemma WitnessIsTracked(at: u64)
    ensures Apply(WITNESS_STATE, Packet(Some(WITNESS), 60, at)).ct == map[FlowOf(WITNESS) := CtEntry(at, New)]
  {
    var s := WITNESS_STATE;
    assert MatchedPort(s, WITNESS) == Some(Rule(ACTION_PASS, 0));
    assert MatchedIp(s, WITNESS) == None;
  }

  lemma Extend(s0: State, start: nat, run: seq<Tick>, timeout: Timeout, tick: Tick)
    requires OnSchedule(start, run, timeout)
    requires Clock(start, run) <= tick.at <= LastReap(start, run) + Interval(timeout)
    requires tick.Reap? ==> tick.at == LastReap(start, run) + Interval(timeout)
    requires tick.Step? && tick.event.Packet? ==> tick.event.now == tick.at
    ensures OnSchedule(start, run + [tick], timeout)
    ensures Clock(start, run + [tick]) == tick.at
    ensures LastReap(start, run + [tick]) == if tick.Reap? then tick.at else LastReap(start, run)
    ensures After(s0, run + [tick], timeout) ==
      if tick.Step? then Apply(After(s0, run, timeout), tick.event)
      else var s := After(s0, run, timeout); s.(ct := Sweep(s.ct, tick.at, timeout))
  {
    assert (run + [tick])[..|run|] == run;
  }

  lemma EmptySweep(now: u64, timeout: Timeout)
    ensures Sweep(map[], now, timeout) == map[]
  {
  }

  /** A sweep one nanosecond early keeps the witness. */
  lemma SweepKeeps(k: Flow, e: CtEntry, now: u64, timeout: Timeout)
    requires 0 < e.lastSeen && now < e.lastSeen + timeout
    ensures Sweep(map[k := e], now, timeout) == map[k := e]
  {
    StaleMeaning(e, now, timeout);
  }

  /** A packet that arrives just too late for the third sweep to evict it ages to the full bound. */
  lemma BoundIsReached(timeout: Timeout) returns (run: seq<Tick>, t: nat)
    ensures AgedBy(WITNESS_STATE, 0, run, timeout, t, FlowOf(WITNESS), timeout + Interval(timeout) - 1)
  {
    var i := Interval(timeout);
    var seen := 3 * i - timeout + 1;
    var packet := Step(Packet(Some(WITNESS), 60, seen), seen);
    var k, e := FlowOf(WITNESS), CtEntry(seen, New);
    var s := WITNESS_STATE;
    run := [Reap(i)];
    assert [] + [Reap(i)] == run;
    EmptySweep(i, timeout);
    Extend(s, 0, [], timeout, Reap(i));
    assert After(s, run, timeout) == s;
    WitnessIsTracked(seen);
    if seen <= 2 * i {
      Extend(s, 0, run, timeout, packet);
      run := run + [packet];
      SweepKeeps(k, e, 2 * i, timeout);
      Extend(s, 0, run, timeout, Reap(2 * i));
      run := run + [Reap(2 * i)];
    } else {
      EmptySweep(2 * i, timeout);
      Extend(s, 0, run, timeout, Reap(2 * i));
      run := run + [Reap(2 * i)];
      assert After(s, run, timeout) == s;
      Extend(s, 0, run, timeout, packet);
      run := run + [packet];
    }
    assert After(s, run, timeout).ct == map[k := e];
    SweepKeeps(k, e, 3 * i, timeout);
    Extend(s, 0, run, timeout, Reap(3 * i));
    run := run + [Reap(3 * i)];
    t := 4 * i;
  }

  /** The promised "within 1.5 times the timeout" holds in all runs exactly for timeouts of at least
      two seconds less one nanosecond; below that the one-second floor of the interval breaks it. */
  lemma OneAndAHalfTimeouts(timeout: Timeout)
    ensures (forall s0, start, run, t, k, age :: AgedBy(s0, start, run, timeout, t, k, age) ==> 2 * age < 3 * timeout)
      <==> timeout > 2 * SECOND - 2
  {
    if timeout > 2 * SECOND - 2 {
      forall s0, start, run, t, k, age | AgedBy(s0, start, run, timeout, t, k, age) ensures 2 * age < 3 * timeout {
        EvictionBound(s0, start, run, timeout, t, k, age);
      }
    } else {
      var run, t := BoundIsReached(timeout);
    }
  }
}
