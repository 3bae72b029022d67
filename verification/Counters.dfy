/** The three global counters under any number of CPUs, one atomic add at a time. */
module Counters {
  import opened Wire
  import opened Policy
  import opened Datapath

  const WRAP := 0x1_0000_0000_0000_0000

  datatype Unit = Packets | Bytes

  function Amount(t: Tally, u: Unit): u64 {
    match u case Packets => t.packets case Bytes => t.bytes
  }

  /** 64-bit addition of a 32-bit amount. */
  function Wrapped(a: u64, x: u32): u64 {
    if a as int + x < WRAP then a as int + x else a as int + x - WRAP
  }

  /** __sync_fetch_and_add on one half of a slot. */
  function Add(t: Tally, u: Unit, x: u32): Tally {
    match u
    case Packets => t.(packets := Wrapped(t.packets, x))
    case Bytes => t.(bytes := Wrapped(t.bytes, x))
  }

  /** Where a CPU stands in the four adds it makes for a decided packet. */
  datatype Cpu =
    | Idle
    | Decided(verdict: Verdict, len: u32)
    | TotalPacketAdded(verdict: Verdict, len: u32)
    | TotalAdded(verdict: Verdict, len: u32)
    | VerdictPacketAdded(verdict: Verdict, len: u32)

  datatype World = World(stats: Stats, cpus: seq<Cpu>)

  function AddTotal(s: Stats, u: Unit, x: u32): Stats {
    s.(total := Add(s.total, u, x))
  }

  function AddVerdict(s: Stats, v: Verdict, u: Unit, x: u32): Stats {
    match v
    case Drop => s.(drop := Add(s.drop, u, x))
    case Pass => s.(pass := Add(s.pass, u, x))
  }

  /** CPU `c` takes a packet, or makes its next add. */
  predicate CpuStep(w: World, w': World, c: nat) {
    && c < |w.cpus| && |w'.cpus| == |w.cpus| && w'.cpus == w.cpus[c := w'.cpus[c]]
    && var next := w'.cpus[c];
       match w.cpus[c]
       case Idle => next.Decided? && w'.stats == w.stats
       case Decided(v, len) => next == TotalPacketAdded(v, len) && w'.stats == AddTotal(w.stats, Packets, 1)
       case TotalPacketAdded(v, len) => next == TotalAdded(v, len) && w'.stats == AddTotal(w.stats, Bytes, len)
       case TotalAdded(v, len) => next == VerdictPacketAdded(v, len) && w'.stats == AddVerdict(w.stats, v, Packets, 1)
       case VerdictPacketAdded(v, len) => next == Idle && w'.stats == AddVerdict(w.stats, v, Bytes, len)
  }

  ghost predicate Next(w: World, w': World) {
    exists c: nat :: CpuStep(w, w', c)
  }

  ghost predicate IsRun(ws: seq<World>) {
    && ws != [] && ws[0].stats == BOOT.stats && (forall c :: 0 <= c < |ws[0].cpus| ==> ws[0].cpus[c] == Idle)
    && forall i, j {:trigger Next(ws[i], ws[j])} :: 0 <= i < j < |ws| && j == i + 1 ==> Next(ws[i], ws[j])
  }

  // ----- conservation --------------------------------------------------------------------------

  /** What this CPU has added to the total but not yet to its verdict's counter. */
  function Owes(c: Cpu, u: Unit): nat {
    match u
    case Packets => if c.TotalPacketAdded? || c.TotalAdded? then 1 else 0
    case Bytes => if c.TotalAdded? || c.VerdictPacketAdded? then c.len else 0
  }

  function InFlight(cpus: seq<Cpu>, u: Unit): nat {
    if cpus == [] then 0 else InFlight(cpus[..|cpus| - 1], u) + Owes(cpus[|cpus| - 1], u)
  }

  lemma {:induction false} InFlightUpdate(cpus: seq<Cpu>, c: nat, x: Cpu, u: Unit)
    requires c < |cpus|
    ensures InFlight(cpus[c := x], u) == InFlight(cpus, u) - Owes(cpus[c], u) + Owes(x, u)
    decreases |cpus|
  {
    var n := |cpus| - 1;
    if c < n {
      assert cpus[c := x][..n] == cpus[..n][c := x];
      InFlightUpdate(cpus[..n], c, x, u);
    } else {
      assert cpus[c := x][..n] == cpus[..n];
    }
  }

  lemma {:induction false} OwedIsPending(cpus: seq<Cpu>, c: nat, u: Unit)
    requires c < |cpus|
    ensures Owes(cpus[c], u) <= InFlight(cpus, u)
    decreases |cpus|
  {
    if c < |cpus| - 1 { OwedIsPending(cpus[..|cpus| - 1], c, u); }
  }

  lemma {:induction false} AllIdle(cpus: seq<Cpu>, u: Unit)
    requires forall c :: 0 <= c < |cpus| ==> cpus[c] == Idle
    ensures InFlight(cpus, u) == 0
    decreases |cpus|
  {
    if cpus != [] { AllIdle(cpus[..|cpus| - 1], u); }
  }

  ghost predicate Balanced(w: World, u: Unit) {
    Amount(w.stats.total, u) == (Amount(w.stats.drop, u) + Amount(w.stats.pass, u) + InFlight(w.cpus, u)) % WRAP
  }

  lemma TotalAdds(total: u64, sum: nat, x: u32)
    requires total == sum % WRAP
    ensures Wrapped(total, x) == (sum + x) % WRAP
  {
  }

  lemma VerdictAdds(slot: u64, x: u32, rest: nat)
    ensures (Wrapped(slot, x) + rest) % WRAP == (slot + x + rest) % WRAP
  {
  }

  lemma TotalStepBalances(w: World, w': World, c: nat, u: Unit)
    requires CpuStep(w, w', c) && Balanced(w, u)
    requires w.cpus[c].Idle? || w.cpus[c].Decided? || w.cpus[c].TotalPacketAdded?
    ensures Balanced(w', u)
  {
    InFlightUpdate(w.cpus, c, w'.cpus[c], u);
    if !w.cpus[c].Idle? {
      var x := if u == Packets then 1 else w.cpus[c].len;
      var sum := Amount(w.stats.drop, u) as nat + Amount(w.stats.pass, u) + InFlight(w.cpus, u);
      TotalAdds(Amount(w.stats.total, u), sum, x);
    }
  }

  lemma VerdictStepBalances(w: World, w': World, c: nat, u: Unit)
    requires CpuStep(w, w', c) && Balanced(w, u)
    requires w.cpus[c].TotalAdded? || w.cpus[c].VerdictPacketAdded?
    ensures Balanced(w', u)
  {
    InFlightUpdate(w.cpus, c, w'.cpus[c], u);
    OwedIsPending(w.cpus, c, u);
    var x := Owes(w.cpus[c], u);
    var rest := InFlight(w.cpus, u) - x;
    if w.cpus[c].verdict == Drop {
      VerdictAdds(Amount(w.stats.drop, u), x, Amount(w.stats.pass, u) + rest);
    } else {
      VerdictAdds(Amount(w.stats.pass, u), x, Amount(w.stats.drop, u) + rest);
    }
  }

  /** At every point of every interleaving: total = drop + pass + in flight, modulo 2^64. */
  lemma {:induction false} CountersBalance(ws: seq<World>, i: nat, u: Unit)
    requires IsRun(ws) && i < |ws|
    ensures Balanced(ws[i], u)
    decreases i
  {
    if i == 0 {
      AllIdle(ws[0].cpus, u);
    } else {
      CountersBalance(ws, i - 1, u);
      assert Next(ws[i - 1], ws[i]);
      var c: nat :| CpuStep(ws[i - 1], ws[i], c);
      if ws[i - 1].cpus[c].TotalAdded? || ws[i - 1].cpus[c].VerdictPacketAdded? {
        VerdictStepBalances(ws[i - 1], ws[i], c, u);
      } else {
        TotalStepBalances(ws[i - 1], ws[i], c, u);
      }
    }
  }

  /** The four adds a CPU makes for one packet, taken together, are the one count of Datapath. */
  lemma FourAddsCountVerdict(s: Stats, v: Verdict, len: u32)
    ensures AddVerdict(AddVerdict(AddTotal(AddTotal(s, Packets, 1), Bytes, len), v, Packets, 1), v, Bytes, len)
      == CountVerdict(s, v, len)
  {
  }

  /** So a packet that a CPU handles without another CPU in between counts like an atomic packet. */
  lemma LonePacketCounts(ws: seq<World>, c: nat)
    requires |ws| == 5 && c < |ws[0].cpus| && ws[0].cpus[c].Decided?
    requires CpuStep(ws[0], ws[1], c) && CpuStep(ws[1], ws[2], c)
    requires CpuStep(ws[2], ws[3], c) && CpuStep(ws[3], ws[4], c)
    ensures ws[4].cpus[c] == Idle
    ensures ws[4].stats == CountVerdict(ws[0].stats, ws[0].cpus[c].verdict, ws[0].cpus[c].len)
  {
    FourAddsCountVerdict(ws[0].stats, ws[0].cpus[c].verdict, ws[0].cpus[c].len);
  }

  // ----- a snapshot read slot by slot -----------------------------------------------------------

  predicate Grows(s: Stats, s': Stats, u: Unit) {
    && Amount(s.total, u) <= Amount(s'.total, u)
    && Amount(s.drop, u) <= Amount(s'.drop, u)
    && Amount(s.pass, u) <= Amount(s'.pass, u)
  }

  /** No add of the run wraps around. */
  ghost predicate NoWrap(ws: seq<World>, u: Unit) {
    forall i, j :: 0 <= i < j < |ws| && j == i + 1 ==> Grows(ws[i].stats, ws[j].stats, u)
  }

  lemma {:induction false} GrowsOver(ws: seq<World>, i: nat, j: nat, u: Unit)
    requires NoWrap(ws, u) && i <= j < |ws|
    ensures Grows(ws[i].stats, ws[j].stats, u)
    decreases j
  {
    if i < j { GrowsOver(ws, i, j - 1, u); }
  }

  ghost predicate Exact(w: World, u: Unit) {
    Amount(w.stats.total, u) == Amount(w.stats.drop, u) + Amount(w.stats.pass, u) + InFlight(w.cpus, u)
  }

  lemma StepIsExact(w: World, w': World, c: nat, u: Unit)
    requires CpuStep(w, w', c) && Exact(w, u) && Grows(w.stats, w'.stats, u)
    ensures Exact(w', u)
  {
    InFlightUpdate(w.cpus, c, w'.cpus[c], u);
  }

  lemma {:induction false} ExactBalance(ws: seq<World>, i: nat, u: Unit)
    requires IsRun(ws) && NoWrap(ws, u) && i < |ws|
    ensures Exact(ws[i], u)
    decreases i
  {
    if i == 0 {
      AllIdle(ws[0].cpus, u);
    } else {
      ExactBalance(ws, i - 1, u);
      assert Next(ws[i - 1], ws[i]);
      var c: nat :| CpuStep(ws[i - 1], ws[i], c);
      StepIsExact(ws[i - 1], ws[i], c, u);
    }
  }

  /** Total read first, then drop, then pass: the total is accounted for up to the packets in flight
      at the first read, and drop + pass never exceeds the true total at the last read. */
  lemma SnapshotIsConsistent(ws: seq<World>, i: nat, j: nat, k: nat, u: Unit)
    requires IsRun(ws) && NoWrap(ws, u) && i <= j <= k < |ws|
    ensures Amount(ws[i].stats.total, u) <=
      Amount(ws[j].stats.drop, u) + Amount(ws[k].stats.pass, u) + InFlight(ws[i].cpus, u)
    ensures Amount(ws[j].stats.drop, u) + Amount(ws[k].stats.pass, u) <= Amount(ws[k].stats.total, u)
  {
    ExactBalance(ws, i, u);
    ExactBalance(ws, k, u);
    GrowsOver(ws, i, j, u);
    GrowsOver(ws, j, k, u);
    GrowsOver(ws, i, k, u);
  }

  // ----- reading live counters ------------------------------------------------------------------

  function Slot(s: Stats, i: nat): Tally {
    if i == 0 then s.total else if i == 1 then s.drop else s.pass
  }

  /** What one lookup in the counters map may return. */
  datatype Lookup = Found(tally: Tally) | Missing | Failed

  function TallyOf(l: Lookup): Tally {
    if l.Found? then l.tally else Tally(0, 0)
  }

  /** The counters map while CPUs keep adding to it; `worlds` is the run so far. */
  class CounterMap {
    var world: World
    ghost var worlds: seq<World>

    constructor (cpus: nat)
      ensures Valid() && |worlds| == 1 && |world.cpus| == cpus
    {
      world := World(BOOT.stats, seq(cpus, _ => Idle));
      worlds := [World(BOOT.stats, seq(cpus, _ => Idle))];
    }

    ghost predicate Valid()
      reads this
    {
      IsRun(worlds) && worlds[|worlds| - 1] == world
    }

    /** Any number of steps of any CPUs. */
    method RunCpus()
      requires Valid()
      modifies this
      ensures Valid() && old(worlds) <= worlds
    {
      var steps: nat := *;
      while steps > 0
        invariant Valid() && old(worlds) <= worlds
      {
        var next: World, c: nat := *, *;
        if CpuStep(world, next, c) {
          assert Next(world, next);
          world, worlds := next, worlds + [next];
        }
        steps := steps - 1;
      }
    }

    /** One lookup: the slot as it is at that moment, or a failure. */
    method Lookup(i: nat) returns (l: Lookup)
      requires Valid()
      modifies this
      ensures Valid() && old(worlds) <= worlds
      ensures l.Found? ==> l.tally == Slot(world.stats, i)
    {
      RunCpus();
      l := *;
      if l.Found? { l := Found(Slot(world.stats, i)); }
    }
  }

  predicate Ascending(at: seq<nat>) {
    |at| >= 2 ==> Ascending(at[..|at| - 1]) && at[|at| - 2] <= at[|at| - 1]
  }

  /** Each lookup so far read its own slot, one after the other, in the run `ws`. */
  ghost predicate ReadInOrder(ws: seq<World>, first: nat, lookups: seq<Lookup>, at: seq<nat>) {
    && |at| == |lookups|
    && (forall i :: 0 <= i < |at| ==> first <= at[i] < |ws|)
    && Ascending(at)
    && forall i :: 0 <= i < |at| ==> lookups[i].Found? ==> lookups[i].tally == Slot(ws[at[i]].stats, i)
  }

  lemma ReadNext(ws: seq<World>, ws': seq<World>, first: nat, lookups: seq<Lookup>, at: seq<nat>, l: Lookup)
    requires ReadInOrder(ws, first, lookups, at) && ws <= ws' && first < |ws'|
    requires l.Found? ==> l.tally == Slot(ws'[|ws'| - 1].stats, |lookups|)
    ensures ReadInOrder(ws', first, lookups + [l], at + [|ws'| - 1])
  {
    assert (at + [|ws'| - 1])[..|at|] == at;
  }

  /** The fields filled by the lookups so far. */
  function StatsOf(lookups: seq<Lookup>): Stats {
    Stats(if |lookups| > 0 then TallyOf(lookups[0]) else Tally(0, 0),
          if |lookups| > 1 then TallyOf(lookups[1]) else Tally(0, 0),
          if |lookups| > 2 then TallyOf(lookups[2]) else Tally(0, 0))
  }

  /** Each field is what its own counter was when it was read, or zero where the slot was missing. */
  ghost predicate FieldsFilled(s: Stats, ws: seq<World>, lookups: seq<Lookup>, at: seq<nat>) {
    && |lookups| == |at| == 3 && at[0] < |ws| && at[1] < |ws| && at[2] < |ws|
    && s.total == (if lookups[0].Missing? then Tally(0, 0) else ws[at[0]].stats.total)
    && s.drop == (if lookups[1].Missing? then Tally(0, 0) else ws[at[1]].stats.drop)
    && s.pass == (if lookups[2].Missing? then Tally(0, 0) else ws[at[2]].stats.pass)
  }

  lemma LookupsFill(ws: seq<World>, first: nat, lookups: seq<Lookup>, at: seq<nat>)
    requires ReadInOrder(ws, first, lookups, at) && |lookups| == 3 && Failed !in lookups
    ensures FieldsFilled(StatsOf(lookups), ws, lookups, at)
  {
    assert lookups[0] in lookups && lookups[1] in lookups && lookups[2] in lookups;
  }

  lemma NextField(lookups: seq<Lookup>, l: Lookup)
    requires |lookups| < 3
    ensures var s := StatsOf(lookups);
      StatsOf(lookups + [l]) ==
        if |lookups| == 0 then s.(total := TallyOf(l))
        else if |lookups| == 1 then s.(drop := TallyOf(l))
        else s.(pass := TallyOf(l))
  {
  }

  /** The total is accounted for up to the packets in flight when it was read, and drop and pass do not
      exceed the true total at the end. */
  ghost predicate Consistent(s: Stats, first: World, last: World, u: Unit) {
    && Amount(s.total, u) <= Amount(s.drop, u) + Amount(s.pass, u) + InFlight(first.cpus, u)
    && Amount(s.drop, u) + Amount(s.pass, u) <= Amount(last.stats.total, u)
  }

  lemma CompleteSnapshot(ws: seq<World>, first: nat, lookups: seq<Lookup>, at: seq<nat>)
    requires IsRun(ws) && ReadInOrder(ws, first, lookups, at) && |lookups| == 3
    requires Failed !in lookups && Missing !in lookups
    ensures forall u :: NoWrap(ws, u) ==> Consistent(StatsOf(lookups), ws[at[0]], ws[at[2]], u)
  {
    assert lookups[0].Found? && lookups[1].Found? && lookups[2].Found?;
    assert Ascending(at[..2]) && at[..2][0] <= at[..2][1];
    forall u | NoWrap(ws, u) ensures Consistent(StatsOf(lookups), ws[at[0]], ws[at[2]], u) {
      SnapshotIsConsistent(ws, at[0], at[1], at[2], u);
    }
  }

  /** GetCounters on live counters: the outcomes of its three lookups land in their own fields; a missing
      slot reads as zero and any other failure fails the whole snapshot. A snapshot that missed no slot
      is consistent. */
  method GetCounters(counters: CounterMap)
    returns (ok: bool, stats: Stats, ghost lookups: seq<Lookup>, ghost at: seq<nat>)
    requires counters.Valid()
    modifies counters
    ensures counters.Valid() && old(counters.worlds) <= counters.worlds
    ensures ReadInOrder(counters.worlds, |old(counters.worlds)| - 1, lookups, at)
    ensures ok <==> Failed !in lookups
    ensures ok ==> |lookups| == 3
    ensures !ok ==> stats == BOOT.stats
    ensures ok ==> FieldsFilled(stats, counters.worlds, lookups, at)
    ensures ok && Missing !in lookups ==> forall u :: NoWrap(counters.worlds, u) ==>
      Consistent(stats, counters.worlds[at[0]], counters.worlds[at[2]], u)
  {
    ghost var first := |counters.worlds| - 1;
    stats := BOOT.stats;
    lookups, at := [], [];
    for i := 0 to 3
      invariant counters.Valid() && old(counters.worlds) <= counters.worlds && |lookups| == i
      invariant ReadInOrder(counters.worlds, first, lookups, at)
      invariant Failed !in lookups && stats == StatsOf(lookups)
    {
      var l;
      l, lookups, at := ReadSlot(counters, i, first, lookups, at);
      match l
      case Missing =>
      case Failed =>
        return false, BOOT.stats, lookups, at;
      case Found(val) =>
        if i == 0 {
          stats := stats.(total := val);
        } else if i == 1 {
          stats := stats.(drop := val);
        } else {
          stats := stats.(pass := val);
        }
    }
    ok := true;
    LookupsFill(counters.worlds, first, lookups, at);
    if Missing !in lookups { CompleteSnapshot(counters.worlds, first, lookups, at); }
  }

  /** The lookup of one turn of the loop, and what the reads so far have become with it. */
  method ReadSlot(counters: CounterMap, i: nat, ghost first: nat, ghost lookups: seq<Lookup>, ghost at: seq<nat>)
    returns (l: Lookup, ghost lookups': seq<Lookup>, ghost at': seq<nat>)
    requires counters.Valid() && |lookups| == i < 3 && first < |counters.worlds|
    requires ReadInOrder(counters.worlds, first, lookups, at)
    modifies counters
    ensures counters.Valid() && old(counters.worlds) <= counters.worlds
    ensures lookups' == lookups + [l] && ReadInOrder(counters.worlds, first, lookups', at')
    ensures Failed in lookups' <==> Failed in lookups || l.Failed?
    ensures StatsOf(lookups') ==
      if i == 0 then StatsOf(lookups).(total := TallyOf(l))
      else if i == 1 then StatsOf(lookups).(drop := TallyOf(l))
      else StatsOf(lookups).(pass := TallyOf(l))
  {
    ghost var ws := counters.worlds;
    l := counters.Lookup(i);
    ReadNext(ws, counters.worlds, first, lookups, at, l);
    NextField(lookups, l);
    lookups', at' := lookups + [l], at + [|counters.worlds| - 1];
  }
}
