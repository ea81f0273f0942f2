/**
  Concurrent syncs of one folder. Daemon, command line and TUI each reserve a generation,
  fetch, and apply; the steps of any number of them interleave with changes on the server.
*/
module SyncProtocol {
  import opened Common
  import opened SnapshotGate

  // A sync in flight. What it fetched is known by the version the server was at.
  datatype Worker = Reserved(generation: int) | Fetched(generation: int, version: nat)

  datatype Application = Application(generation: int, version: nat)

  // `counters` is the folder's row, None while there is none; `applied` the snapshots
  // applied so far, in order.
  datatype State = State(
    server: nat, counters: Option<Counters>, workers: map<nat, Worker>, applied: seq<Application>)

  datatype Step =
    | Change                // the server's mailbox changes
    | Reserve(worker: nat)
    | Fetch(worker: nat)
    | Apply(worker: nat)
    | Crash(worker: nat)
    | List                  // reconcile_folders with the folder listed
    | Remove                // reconcile_folders with the folder missing

  const INIT := State(0, None, map[], [])

  function Next(s: State, step: Step): State {
    match step
    case Change => s.(server := s.server + 1)
    case Reserve(w) =>
      if w in s.workers then s
      else
        var c := SnapshotGate.Reserve(s.counters);
        s.(counters := Some(c), workers := s.workers[w := Reserved(c.latest)])
    case Fetch(w) =>
      if w in s.workers && s.workers[w].Reserved?
      then s.(workers := s.workers[w := Fetched(s.workers[w].generation, s.server)])
      else s
    case Apply(w) =>
      if w in s.workers && s.workers[w].Fetched? then
        var Fetched(generation, version) := s.workers[w];
        var left := s.(workers := s.workers - {w});
        if Gate(s.counters, generation) == Accept then
          left.(counters := Some(Counters(generation, s.counters.value.latest)),
                applied := s.applied + [Application(generation, version)])
        else left
      else s
    case Crash(w) => s.(workers := s.workers - {w})
    case List => if s.counters.None? then s.(counters := Some(Counters(0, 0))) else s
    case Remove => s.(counters := None)
  }

  function Run(s: State, steps: seq<Step>): State
    decreases |steps|
  {
    if steps == [] then s else Run(Next(s, steps[0]), steps[1..])
  }

  /** No applied snapshot is older than one applied before it. */
  predicate NeverBackwards(applied: seq<Application>) {
    forall i, j | 0 <= i < j < |applied| :: applied[i].version <= applied[j].version
  }

  /** No generation is applied twice, or after a later one. */
  predicate InOrder(applied: seq<Application>) {
    forall i, j | 0 <= i < j < |applied| :: applied[i].generation < applied[j].generation
  }

  function LastVersion(s: State): nat {
    if s.applied == [] then 0 else s.applied[|s.applied| - 1].version
  }

  /** What a sync that may still apply brings is no older than what was applied last. A sync
      of generation 1 may have outlived the folder's row it reserved on. */
  predicate Fresh(s: State) {
    && NeverBackwards(s.applied) && LastVersion(s) <= s.server
    && (forall w | w in s.workers ::
          && 1 <= s.workers[w].generation
          && (s.workers[w].Fetched? ==> s.workers[w].version <= s.server))
    && (s.counters.None? ==> Harmless(s))
    && (s.counters.Some? ==>
          var c := s.counters.value;
          && 0 <= c.applied <= c.latest
          && forall w | w in s.workers ::
               && (s.workers[w].generation <= c.latest || s.workers[w].generation == 1)
               && (s.workers[w].Fetched? && s.workers[w].generation > c.applied ==>
                     LastVersion(s) <= s.workers[w].version))
  }

  /** Every sync in flight is of the first generation, and has fetched nothing older than what
      was applied last. */
  predicate Harmless(s: State) {
    forall w | w in s.workers ::
      && s.workers[w].generation <= 1
      && (s.workers[w].Fetched? ==> LastVersion(s) <= s.workers[w].version)
  }

  /** While the folder's row stays, the last generation applied is the row's. */
  predicate Ordered(s: State) {
    && InOrder(s.applied)
    && (s.counters.None? ==> s.applied == [])
    && (s.counters.Some? && s.applied != [] ==>
          s.applied[|s.applied| - 1].generation == s.counters.value.applied)
  }

  /** The folder is removed only under syncs that cannot apply anything old afterwards. */
  predicate Quiet(s: State, step: Step) {
    step.Remove? ==> Harmless(s)
  }

  lemma NextIsFresh(s: State, step: Step)
    requires Fresh(s) && Quiet(s, step)
    ensures Fresh(Next(s, step))
  {
  }

  lemma NextIsOrdered(s: State, step: Step)
    requires Ordered(s) && !step.Remove?
    ensures Ordered(Next(s, step))
  {
  }

  predicate QuietRun(s: State, steps: seq<Step>)
    decreases |steps|
  {
    steps != [] ==> Quiet(s, steps[0]) && QuietRun(Next(s, steps[0]), steps[1..])
  }

  /** Over every interleaving in which the folder is removed only under harmless syncs, applied
      snapshots never go back to an older state of the server. */
  lemma {:induction false} QuietRunsNeverGoBackwards(s: State, steps: seq<Step>)
    requires Fresh(s) && QuietRun(s, steps)
    ensures Fresh(Run(s, steps)) && NeverBackwards(Run(s, steps).applied)
    decreases |steps|
  {
    if steps != [] {
      NextIsFresh(s, steps[0]);
      QuietRunsNeverGoBackwards(Next(s, steps[0]), steps[1..]);
    }
  }

  /** Once a later generation is reserved, an earlier one is never applied again while the
      folder stays, whatever else happens. */
  lemma {:induction false} SupersededNeverApplies(s: State, steps: seq<Step>, i: nat)
    requires s.counters.Some? && Remove !in steps && |s.applied| <= i < |Run(s, steps).applied|
    ensures s.applied <= Run(s, steps).applied
    ensures s.counters.value.latest <= Run(s, steps).applied[i].generation
    decreases |steps|
  {
    if steps != [] {
      var t := Next(s, steps[0]);
      assert steps[0] in steps;
      AppliedOnlyGrows(t, steps[1..]);
      if |t.applied| <= i {
        SupersededNeverApplies(t, steps[1..], i);
      }
    }
  }

  lemma {:induction false} AppliedOnlyGrows(s: State, steps: seq<Step>)
    ensures s.applied <= Run(s, steps).applied
    decreases |steps|
  {
    if steps != [] {
      AppliedOnlyGrows(Next(s, steps[0]), steps[1..]);
    }
  }

  /** When the folder is never removed each generation is applied at most once, and in order. */
  lemma {:induction false} KeptFolderAppliesInOrder(s: State, steps: seq<Step>)
    requires Fresh(s) && Ordered(s) && Remove !in steps
    ensures NeverBackwards(Run(s, steps).applied) && InOrder(Run(s, steps).applied)
    decreases |steps|
  {
    if steps != [] {
      NextIsFresh(s, steps[0]);
      NextIsOrdered(s, steps[0]);
      KeptFolderAppliesInOrder(Next(s, steps[0]), steps[1..]);
    }
  }

  lemma InitIsFresh()
    ensures Fresh(INIT) && Ordered(INIT)
  {
  }

  // ---- which removals are safe ----

  /** An id that no sync in flight has. */
  lemma {:induction false} FreeWorker(workers: map<nat, Worker>) returns (x: nat)
    ensures x !in workers
  {
    x := AboveAll(workers.Keys);
    assert x !in workers.Keys;
  }

  lemma {:induction false} AboveAll(ids: set<nat>) returns (x: nat)
    ensures forall i | i in ids :: i < x
  {
    if ids == {} {
      x := 0;
    } else {
      var i :| i in ids;
      var y := AboveAll(ids - {i});
      x := if i < y then y else i + 1;
      assert forall j | j in ids :: j == i || j in ids - {i};
    }
  }

  /** n reservations, each of them given up. */
  function Reservations(x: nat, n: nat): seq<Step> {
    if n == 0 then [] else [Reserve(x), Crash(x)] + Reservations(x, n - 1)
  }

  lemma {:induction false} ReservationsCount(s: State, x: nat, n: nat)
    requires s.counters.Some? && x !in s.workers
    ensures var c := s.counters.value;
      Run(s, Reservations(x, n)) == s.(counters := Some(Counters(c.applied, c.latest + n)))
    ensures Remove !in Reservations(x, n)
    decreases n
  {
    if n > 0 {
      var c := s.counters.value;
      var t := s.(counters := Some(Counters(c.applied, c.latest + 1)));
      var steps := Reservations(x, n);
      assert steps[1..] == [Crash(x)] + Reservations(x, n - 1) && steps[1..][1..] == Reservations(x, n - 1);
      assert Next(Next(s, Reserve(x)), Crash(x)).workers == s.workers;
      assert Next(Next(s, Reserve(x)), Crash(x)) == t;
      ReservationsCount(t, x, n - 1);
    }
  }

  lemma {:induction false} RunTwo(s: State, a: Step, b: Step)
    ensures Run(s, [a, b]) == Next(Next(s, a), b)
  {
    hide Next;
    assert [a, b][1..] == [b] && [b][1..] == [];
    assert Run(s, [a, b]) == Run(Next(s, a), [b]) == Run(Next(Next(s, a), b), []);
  }

  /** A sync of the first generation with an old snapshot applies it to the folder's new row. */
  lemma OldFirstApplies(s: State, w: nat, x: nat)
    requires s.applied != [] && w in s.workers && x !in s.workers
    requires s.workers[w].Fetched? && s.workers[w].generation == 1 && s.workers[w].version < LastVersion(s)
    ensures !NeverBackwards(Run(Next(s, Remove), [Reserve(x), Apply(w)]).applied)
  {
    var u := Next(s, Remove);
    var v := Next(Next(u, Reserve(x)), Apply(w));
    RunTwo(u, Reserve(x), Apply(w));
    assert v.applied == s.applied + [Application(1, s.workers[w].version)];
    assert v.applied[|s.applied| - 1].version > v.applied[|s.applied|].version;
  }

  /** A sync that has fetched sees the server change and the change applied under generation 1. */
  function Overtake(x: nat): seq<Step> {
    [Change, Reserve(x), Fetch(x), Apply(x)]
  }

  lemma {:induction false} OvertakeRuns(s: State, x: nat)
    requires s.counters.None? && x !in s.workers
    ensures Run(s, Overtake(x)) == State(
        s.server + 1, Some(Counters(1, 1)), s.workers, s.applied + [Application(1, s.server + 1)])
  {
    var s1 := Next(s, Change);
    var s2 := Next(s1, Reserve(x));
    var s3 := Next(s2, Fetch(x));
    var s4 := Next(s3, Apply(x));
    RunTwo(s, Change, Reserve(x));
    RunTwo(s2, Fetch(x), Apply(x));
    RunSplits(s, [Change, Reserve(x)], [Fetch(x), Apply(x)]);
    assert Overtake(x) == [Change, Reserve(x)] + [Fetch(x), Apply(x)];
    assert s4.workers == s.workers;
  }

  /** A sync of a later generation waits until the new row has reserved as many. */
  lemma {:induction false} OldLaterApplies(s: State, w: nat, x: nat)
    requires s.counters.None? && w in s.workers && x !in s.workers
    requires s.workers[w].Fetched? && s.workers[w].generation > 1 && s.workers[w].version <= s.server
    ensures var steps := Overtake(x) + (Reservations(x, s.workers[w].generation - 1) + [Apply(w)]);
      Remove !in steps && !NeverBackwards(Run(s, steps).applied)
  {
    var n := s.workers[w].generation - 1;
    var s1 := Run(s, Overtake(x));
    OvertakeRuns(s, x);
    var s2 := Run(s1, Reservations(x, n));
    ReservationsCount(s1, x, n);
    var s3 := Next(s2, Apply(w));
    assert Run(s2, [Apply(w)]) == s3;
    RunSplits(s, Overtake(x), Reservations(x, n) + [Apply(w)]);
    RunSplits(s1, Reservations(x, n), [Apply(w)]);
    var k := |s.applied|;
    assert s3.applied[k] == Application(1, s.server + 1);
    assert s3.applied[k + 1] == Application(n + 1, s.workers[w].version);
  }

  /** Any sync in flight that is not harmless finds a way back, without a further removal. */
  lemma HarmfulGoesBackwards(s: State) returns (steps: seq<Step>)
    requires Fresh(s) && !Harmless(s)
    ensures Remove !in steps && !NeverBackwards(Run(Next(s, Remove), steps).applied)
  {
    var w :| w in s.workers && !(s.workers[w].generation <= 1
      && (s.workers[w].Fetched? ==> LastVersion(s) <= s.workers[w].version));
    var x := FreeWorker(s.workers);
    var u := Next(s, Remove);
    if s.workers[w].generation <= 1 {
      steps := [Reserve(x), Apply(w)];
      OldFirstApplies(s, w, x);
    } else if s.workers[w].Fetched? {
      steps := Overtake(x) + (Reservations(x, s.workers[w].generation - 1) + [Apply(w)]);
      OldLaterApplies(u, w, x);
    } else {
      var rest := Overtake(x) + (Reservations(x, s.workers[w].generation - 1) + [Apply(w)]);
      steps := [Fetch(w)] + rest;
      OldLaterApplies(Next(u, Fetch(w)), w, x);
      assert steps[1..] == rest;
    }
  }

  /** Removing the folder can never lead back to an older state of the server, exactly when
      every sync in flight is harmless. */
  lemma RemovalIsSafeIff(s: State)
    requires Fresh(s)
    ensures Harmless(s)
      <==> forall steps | Remove !in steps :: NeverBackwards(Run(Next(s, Remove), steps).applied)
  {
    if Harmless(s) {
      forall steps | Remove !in steps ensures NeverBackwards(Run(Next(s, Remove), steps).applied) {
        NextIsFresh(s, Remove);
        WithoutRemovalIsQuiet(Next(s, Remove), steps);
        QuietRunsNeverGoBackwards(Next(s, Remove), steps);
      }
    } else {
      var steps := HarmfulGoesBackwards(s);
    }
  }

  lemma {:induction false} WithoutRemovalIsQuiet(s: State, steps: seq<Step>)
    requires Remove !in steps
    ensures QuietRun(s, steps)
    decreases |steps|
  {
    if steps != [] {
      assert steps[0] in steps;
      WithoutRemovalIsQuiet(Next(s, steps[0]), steps[1..]);
    }
  }

  const BEFORE := [Reserve(0), Reserve(1), Fetch(1), Change]
  const NEWER := [Remove, Reserve(2), Fetch(2), Apply(2)]
  const OLDER := [Reserve(3), Apply(1)]

  function InFlight(applied: seq<Application>, latest: int): State {
    State(1, Some(Counters(|applied|, latest)), map[0 := Reserved(1), 1 := Fetched(2, 0)], applied)
  }

  lemma BeforeRemoval()
    ensures Run(INIT, BEFORE) == InFlight([], 2)
  {
  }

  lemma RemoveAndApplyNewer()
    ensures Run(InFlight([], 2), NEWER) == InFlight([Application(1, 1)], 1)
  {
    var s := InFlight([], 2);
    var u := State(1, Some(Counters(0, 1)), s.workers[2 := Fetched(1, 1)], []);
    assert Run(s, NEWER) == Next(u, Apply(2));
    assert u.workers - {2} == s.workers;
  }

  lemma ThenApplyOlder()
    ensures Run(InFlight([Application(1, 1)], 1), OLDER).applied == [Application(1, 1), Application(2, 0)]
  {
  }

  /** Removal under a sync in flight does lose freshness: the counters restart, and the
      old sync's generation becomes the latest a second time. */
  lemma RemovalUnderSyncGoesBackwards()
    ensures !NeverBackwards(Run(INIT, BEFORE + (NEWER + OLDER)).applied)
  {
    RunSplits(INIT, BEFORE, NEWER + OLDER);
    BeforeRemoval();
    RunSplits(InFlight([], 2), NEWER, OLDER);
    RemoveAndApplyNewer();
    ThenApplyOlder();
    var applied := Run(INIT, BEFORE + (NEWER + OLDER)).applied;
    assert applied == [Application(1, 1), Application(2, 0)];
    assert applied[0].version > applied[1].version;
  }

  lemma {:induction false} RunSplits(s: State, a: seq<Step>, b: seq<Step>)
    ensures Run(s, a + b) == Run(Run(s, a), b)
    decreases |a|
  {
    if a == [] {
      assert a + b == b;
    } else {
      assert (a + b)[1..] == a[1..] + b;
      RunSplits(Next(s, a[0]), a[1..], b);
    }
  }
}
