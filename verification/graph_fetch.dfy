/** A Graph fetch that may fail at any statement, and what running it again achieves. */
module GraphFetch {
  import opened Common
  import opened SnapshotRows
  import opened GraphDelta
  import opened GraphRows

  // ---- compacting keeps the meaning ----

  /** The columns that come from the server. */
  predicate SameFromServer(a: Option<Row>, b: Option<Row>) {
    && a.Some? == b.Some?
    && (a.Some? ==>
          && a.value.headers == b.value.headers && a.value.fetchedAt == b.value.fetchedAt
          && a.value.providerId == b.value.providerId)
  }

  ghost predicate SameTables(a: Messages, b: Messages) {
    forall k: Key :: SameFromServer(Get(a, k), Get(b, k))
  }

  predicate AllIds(events: seq<Event>, known: set<string>) {
    forall e | e in events :: e.id in known
  }

  predicate SpeaksOf(op: Op, events: seq<Event>, bodies: bool, removed: seq<string>) {
    match op
    case Upsert(e, _) => Mentions(events, e.id)
    case SetBody(id, _) => bodies && Mentions(events, id)
    case Delete(ids) => forall id | id in ids :: id in removed
  }

  lemma {:induction false} UpsertsAre(live: seq<Event>, bodies: bool, path: string -> string, now: int)
    ensures forall op | op in Upserts(live, bodies, path, now) :: !op.Delete? && SpeaksOf(op, live, bodies, [])
  {
    if live != [] {
      var init, last := live[..|live| - 1], live[|live| - 1];
      UpsertsAre(init, bodies, path, now);
      assert live == init + [last];
      assert last in live;
    }
  }

  lemma {:induction false} DeletesAre(removed: seq<string>)
    ensures forall op | op in Deletes(removed) ::
      op.Delete? && 0 < |op.ids| <= 998 && forall id | id in op.ids :: id in removed
    decreases |removed|
  {
    if |removed| > CHUNK {
      DeletesAre(removed[CHUNK..]);
      assert removed == removed[..CHUNK] + removed[CHUNK..];
    }
  }

  /** A fetch's statements speak of the ids the server reported, and delete the removed ones only. */
  lemma {:induction false} FetchOpsAre(events: seq<Event>, bodies: bool, path: string -> string, now: int)
    ensures forall op | op in FetchOps(events, bodies, path, now) ::
      SpeaksOf(op, events, bodies, RemovedIds(Compacted(events)))
    ensures forall id | id in RemovedIds(Compacted(events)) :: Mentions(events, id)
  {
    var c := Compacted(events);
    CompactedKeepsLast(events);
    LiveIs(c);
    RemovedIdsAre(c);
    UpsertsAre(Live(c), bodies, path, now);
    DeletesAre(RemovedIds(c));
  }

  lemma FetchIsKnown(events: seq<Event>, bodies: bool, path: string -> string, now: int, known: set<string>)
    requires AllIds(events, known)
    ensures AllKnown(FetchOps(events, bodies, path, now), known)
  {
    hide FetchOps;
    FetchOpsAre(events, bodies, path, now);
  }

  lemma ReplayIsKnown(events: seq<Event>, now: int, known: set<string>)
    requires AllIds(events, known)
    ensures AllKnown(ReplayOps(events, now), known)
  {
  }

  /** Two runs that agree on every known id agree on the table. */
  lemma {:induction false} AgreeEverywhere(m: Messages, a: seq<Op>, b: seq<Op>, known: set<string>,
      uidOf: string -> int)
    requires Tidy(m, known, uidOf) && NoCollision(known, uidOf) && AllKnown(a, known) && AllKnown(b, known)
    requires forall id | id in known ::
      var was := Get(m, At(id, uidOf)); SameFromServer(Evolve(was, a, id), Evolve(was, b, id))
    ensures SameTables(Run(m, a, uidOf), Run(m, b, uidOf))
  {
    hide Run, Evolve, Tidy, NoCollision, AllKnown, Get;
    RunIsPointwise(m, a, known, uidOf);
    RunIsPointwise(m, b, known, uidOf);
    forall k: Key ensures SameFromServer(Get(Run(m, a, uidOf), k), Get(Run(m, b, uidOf), k)) {
      if IsPlaceOf(k, known, uidOf) {
        var id :| id in known && k == At(id, uidOf);
        assert SameFromServer(Evolve(Get(m, At(id, uidOf)), a, id), Evolve(Get(m, At(id, uidOf)), b, id));
      }
    }
  }

  /** Upserting the live messages and then deleting the removed ids is as good as replaying every event. */
  lemma {:induction false} FetchMeansReplay(m: Messages, events: seq<Event>, bodies: bool, path: string -> string,
      now: int, known: set<string>, uidOf: string -> int)
    requires Tidy(m, known, uidOf) && NoCollision(known, uidOf) && AllIds(events, known)
    ensures SameTables(Run(m, FetchOps(events, bodies, path, now), uidOf), Run(m, ReplayOps(events, now), uidOf))
  {
    hide Run, Evolve, Tidy, NoCollision, AllKnown, FetchOps, ReplayOps, LastEvent;
    var fetch, replay := FetchOps(events, bodies, path, now), ReplayOps(events, now);
    FetchIsKnown(events, bodies, path, now, known);
    ReplayIsKnown(events, now, known);
    forall id | id in known
      ensures var was := Get(m, At(id, uidOf)); SameFromServer(Evolve(was, fetch, id), Evolve(was, replay, id))
    {
      var was := Get(m, At(id, uidOf));
      FetchEvolves(was, events, bodies, path, now, id);
      ReplayEvolves(was, events, now, id);
      LastEventIs(events, id);
    }
    AgreeEverywhere(m, fetch, replay, known, uidOf);
  }

  // ---- running it again ----

  predicate Touches(op: Op, id: string) {
    match op
    case Upsert(e, _) => e.id == id
    case SetBody(i, _) => i == id
    case Delete(ids) => id in ids
  }

  lemma {:induction false} UntouchedStays(was: Option<Row>, ops: seq<Op>, id: string)
    requires forall op | op in ops :: !Touches(op, id)
    ensures Evolve(was, ops, id) == was
  {
    if ops != [] {
      assert ops[|ops| - 1] in ops;
      UntouchedStays(was, ops[..|ops| - 1], id);
    }
  }

  /** What was done to a row before its message is upserted does not show afterwards. */
  lemma {:induction false} SettledForgets(was: Option<Row>, ops: seq<Op>, e: Event, bodies: bool,
      path: string -> string, now: int)
    requires forall op | op in ops :: (op.Delete? ==> e.id !in op.ids) && (op.SetBody? ==> bodies)
    ensures Settled(Evolve(was, ops, e.id), e, bodies, path, now) == Settled(was, e, bodies, path, now)
  {
    if ops != [] {
      assert ops[|ops| - 1] in ops;
      SettledForgets(was, ops[..|ops| - 1], e, bodies, path, now);
    }
  }

  lemma {:induction false} PartTouches(events: seq<Event>, bodies: bool, path: string -> string, now: int, steps: nat,
      id: string)
    requires steps <= |FetchOps(events, bodies, path, now)|
    ensures forall op | op in FetchOps(events, bodies, path, now)[..steps] ::
      && (!Mentions(events, id) ==> !Touches(op, id))
      && (op.Delete? && id !in RemovedIds(Compacted(events)) ==> id !in op.ids) && (op.SetBody? ==> bodies)
  {
    hide FetchOps, RemovedIds, Compacted, Mentions;
    var ops := FetchOps(events, bodies, path, now);
    FetchOpsAre(events, bodies, path, now);
    assert forall op | op in ops[..steps] :: op in ops && SpeaksOf(op, events, bodies, RemovedIds(Compacted(events)));
  }

  /**
    A fetch that stopped after any number of statements, then a whole fetch from the same
    delta link: the table is as if the whole fetch alone had run. The server may report
    more the second time.
  */
  lemma {:induction false} RetryReachesOneRun(m: Messages, first: seq<Event>, second: seq<Event>, steps: nat,
      bodies1: bool, bodies2: bool, path1: string -> string, path2: string -> string, now1: int, now2: int,
      known: set<string>, uidOf: string -> int)
    requires Tidy(m, known, uidOf) && NoCollision(known, uidOf)
    requires AllIds(first, known) && AllIds(second, known)
    requires forall id | Mentions(first, id) :: Mentions(second, id)
    requires steps <= |FetchOps(first, bodies1, path1, now1)|
    ensures var part, whole := FetchOps(first, bodies1, path1, now1)[..steps], FetchOps(second, bodies2, path2, now2);
      SameTables(Run(Run(m, part, uidOf), whole, uidOf), Run(m, whole, uidOf))
  {
    hide Run, Evolve, Tidy, NoCollision, FetchOps, LastEvent, AllIds, Mentions, Settled;
    var part, whole := FetchOps(first, bodies1, path1, now1)[..steps], FetchOps(second, bodies2, path2, now2);
    FetchIsKnown(first, bodies1, path1, now1, known);
    FetchIsKnown(second, bodies2, path2, now2, known);
    forall id | id in known
      ensures var was := Get(m, At(id, uidOf)); SameFromServer(Evolve(was, part + whole, id), Evolve(was, whole, id))
    {
      var was := Get(m, At(id, uidOf));
      EvolveAppend(was, part, whole, id);
      var x := Evolve(was, part, id);
      FetchEvolves(was, second, bodies2, path2, now2, id);
      FetchEvolves(x, second, bodies2, path2, now2, id);
      LastEventIs(second, id);
      if Mentions(second, id) {
        SettledFromServer(x, was, LastEvent(second, id).value, bodies2, path2, now2);
      } else {
        PartTouches(first, bodies1, path1, now1, steps, id);
        UntouchedStays(was, part, id);
      }
    }
    RunAppend(m, part, whole, uidOf);
    AgreeEverywhere(m, part + whole, whole, known, uidOf);
  }

  lemma SettledFromServer(x: Option<Row>, y: Option<Row>, e: Event, bodies: bool, path: string -> string, now: int)
    ensures SameFromServer(Some(Settled(x, e, bodies, path, now)), Some(Settled(y, e, bodies, path, now)))
  {
  }

  /** A path is recorded for a live message right behind its upsert. */
  predicate BodiesFollow(ops: seq<Op>, live: seq<Event>, path: string -> string) {
    forall i | 0 <= i < |ops| && ops[i].SetBody? ::
      && ops[i].path == path(ops[i].id) && Mentions(live, ops[i].id)
      && i > 0 && ops[i - 1].Upsert? && ops[i - 1].event.id == ops[i].id
  }

  lemma {:induction false} UpsertsFollow(live: seq<Event>, bodies: bool, path: string -> string, now: int)
    ensures BodiesFollow(Upserts(live, bodies, path, now), live, path)
  {
    if live != [] {
      UpsertsFollow(live[..|live| - 1], bodies, path, now);
      assert live == live[..|live| - 1] + [live[|live| - 1]];
    }
  }

  lemma {:induction false} PartFollows(events: seq<Event>, bodies: bool, path: string -> string, now: int, steps: nat)
    requires steps <= |FetchOps(events, bodies, path, now)|
    ensures BodiesFollow(FetchOps(events, bodies, path, now)[..steps], Live(Compacted(events)), path)
  {
    hide Upserts, Deletes, Live, RemovedIds, Compacted, Mentions;
    UpsertsFollow(Live(Compacted(events)), bodies, path, now);
    var upserts, deletes := Upserts(Live(Compacted(events)), bodies, path, now), Deletes(RemovedIds(Compacted(events)));
    DeletesAre(RemovedIds(Compacted(events)));
    var ops := upserts + deletes;
    forall i | |upserts| <= i < |ops| ensures ops[i].Delete? {
      assert ops[i] in deletes;
    }
  }

  /** A row with the event merged in, and perhaps with a body recorded before. */
  function Shown(was: Option<Row>, body: bool, e: Event, path: string -> string, now: int): Row {
    var row := Merged(was, e, now);
    if body then row.(maildirPath := Some(path(e.id)), headersOnly := 0) else row
  }

  lemma WithoutBody(was: Option<Row>, e: Event, path: string -> string, now: int)
    ensures Shown(was, false, e, path, now) == Merged(was, e, now)
  {
  }

  lemma BodyShowsNext(x: Option<Row>, was: Option<Row>, body: bool, op: Op, path: string -> string, e: Event,
      now: int)
    requires Merged(x, e, now) == Shown(was, body, e, path, now)
    requires op.Delete? ==> e.id !in op.ids
    requires op.SetBody? && op.id == e.id ==> op.path == path(e.id) && x.Some?
    ensures Merged(Evolved(x, op, e.id), e, now)
         == Shown(was, body || op == SetBody(e.id, path(e.id)), e, path, now)
  {
  }

  lemma {:induction false} UpsertedStays(was: Option<Row>, ops: seq<Op>, id: string)
    requires forall op | op in ops :: op.Delete? ==> id !in op.ids
    requires exists op | op in ops :: op.Upsert? && op.event.id == id
    ensures Evolve(was, ops, id).Some?
  {
    var init, last := ops[..|ops| - 1], ops[|ops| - 1];
    assert ops == init + [last];
    if !(last.Upsert? && last.event.id == id) {
      UpsertedStays(was, init, id);
    }
  }

  /** What a run that deletes nothing of an id does to its row: the server columns are written over,
      a path is kept, and else all stays. */
  lemma {:induction false} BodyShows(was: Option<Row>, ops: seq<Op>, live: seq<Event>, path: string -> string,
      e: Event, now: int)
    requires BodiesFollow(ops, live, path) && forall op | op in ops :: op.Delete? ==> e.id !in op.ids
    ensures Merged(Evolve(was, ops, e.id), e, now) == Shown(was, SetBody(e.id, path(e.id)) in ops, e, path, now)
  {
    hide Merged, Shown, Evolved;
    WithoutBody(was, e, path, now);
    if ops != [] {
      var init, last := ops[..|ops| - 1], ops[|ops| - 1];
      assert ops == init + [last];
      assert BodiesFollow(init, live, path) by {
        assert forall i | 0 <= i < |init| :: init[i] == ops[i];
      }
      BodyShows(was, init, live, path, e, now);
      if last.SetBody? && last.id == e.id {
        assert init[|init| - 1] in init;
        UpsertedStays(was, init, e.id);
      }
      BodyShowsNext(Evolve(was, init, e.id), was, SetBody(e.id, path(e.id)) in init, last, path, e, now);
    }
  }

  lemma SettledWithout(was: Option<Row>, e: Event, path: string -> string, now: int)
    ensures Settled(was, e, false, path, now) == Merged(was, e, now)
  {
  }

  /** The row has this body, and its headers came with it. */
  predicate HasBody(row: Option<Row>, path: string) {
    row.Some? && row.value.maildirPath == Some(path) && row.value.headersOnly == 0
  }

  lemma ShownHasBody(was: Option<Row>, e: Event, path: string -> string, now: int)
    ensures Shown(was, true, e, path, now) == Merged(was, e, now) <==> HasBody(was, path(e.id))
  {
  }

  /** The first run recorded a downloaded body that the second one does not download again. */
  predicate OnlyFirstHasBody(part: seq<Op>, id: string, path: string -> string, bodies2: bool) {
    !bodies2 && SetBody(id, path(id)) in part
  }

  /**
    When the server reports the same events again, nothing at all tells the two apart, bodies and
    thread columns included, exactly when a body that only the first run downloaded was known before.
  */
  lemma {:induction false} SameEventsReachOneRunIff(m: Messages, events: seq<Event>, steps: nat, bodies1: bool,
      bodies2: bool, path1: string -> string, path2: string -> string, now1: int, now2: int, known: set<string>,
      uidOf: string -> int, id: string)
    requires Tidy(m, known, uidOf) && NoCollision(known, uidOf) && AllIds(events, known) && id in known
    requires steps <= |FetchOps(events, bodies1, path1, now1)|
    ensures var part, whole := FetchOps(events, bodies1, path1, now1)[..steps], FetchOps(events, bodies2, path2, now2);
      Get(Run(Run(m, part, uidOf), whole, uidOf), At(id, uidOf)) == Get(Run(m, whole, uidOf), At(id, uidOf))
      <==> (OnlyFirstHasBody(part, id, path1, bodies2) ==> HasBody(Get(m, At(id, uidOf)), path1(id)))
  {
    hide Run, Evolve, Tidy, NoCollision, FetchOps, LastEvent, AllIds, Mentions, Settled, Compacted, RemovedIds,
      HasBody, Merged, Shown;
    var part, whole := FetchOps(events, bodies1, path1, now1)[..steps], FetchOps(events, bodies2, path2, now2);
    FetchIsKnown(events, bodies1, path1, now1, known);
    FetchIsKnown(events, bodies2, path2, now2, known);
    var was := Get(m, At(id, uidOf));
    RunAppend(m, part, whole, uidOf);
    RunIsPointwise(m, part + whole, known, uidOf);
    RunIsPointwise(m, whole, known, uidOf);
    EvolveAppend(was, part, whole, id);
    var x := Evolve(was, part, id);
    FetchEvolves(was, events, bodies2, path2, now2, id);
    FetchEvolves(x, events, bodies2, path2, now2, id);
    LastEventIs(events, id);
    PartTouches(events, bodies1, path1, now1, steps, id);
    PartitionFollowsLastEvent(events, id);
    PartFollows(events, bodies1, path1, now1, steps);
    if !Mentions(events, id) {
      UntouchedStays(was, part, id);
    } else if !LastEvent(events, id).value.removed {
      var e := LastEvent(events, id).value;
      if bodies2 {
        SettledForgets(was, part, e, bodies2, path2, now2);
      } else {
        BodyShows(was, part, Live(Compacted(events)), path1, e, now2);
        ShownHasBody(was, e, path1, now2);
        WithoutBody(was, e, path1, now2);
        SettledWithout(x, e, path2, now2);
        SettledWithout(was, e, path2, now2);
      }
    }
  }

  // ---- where compaction and replay part ----

  /** A row with nothing but what the server sent. */
  predicate Bare(row: Row) {
    row.maildirPath.None? && row.headersOnly >= 1 && row.thread == ThreadColumns(None, None, None)
  }

  /** A row that was there and is there in the end is bare, if an event removes its id in between. */
  predicate LosesNothing(was: Option<Row>, events: seq<Event>, id: string) {
    var last := LastEvent(events, id);
    was.Some? && id in RemovedIds(events) && last.Some? && !last.value.removed ==> Bare(was.value)
  }

  lemma MergedIff(was: Row, e: Event, now: int)
    ensures Merged(Some(was), e, now) == Merged(None, e, now) <==> Bare(was)
  {
  }

  /** Exactly then the fetch leaves the row that a replay leaves, in every column. */
  lemma {:induction false} RowIsReplayedIff(was: Option<Row>, events: seq<Event>, path: string -> string, now: int,
      id: string)
    ensures Evolve(was, FetchOps(events, false, path, now), id) == Evolve(was, ReplayOps(events, now), id)
      <==> LosesNothing(was, events, id)
  {
    hide Evolve, FetchOps, ReplayOps, LastEvent, RemovedIds, Merged, Bare;
    FetchEvolves(was, events, false, path, now, id);
    ReplayEvolves(was, events, now, id);
    if was.Some? && LastEvent(events, id).Some? {
      MergedIff(was.value, LastEvent(events, id).value, now);
    }
  }

  /** In a tidy table without collisions: the tables are equal exactly when no row loses anything. */
  lemma {:induction false} FetchIsReplayIff(m: Messages, events: seq<Event>, path: string -> string, now: int,
      known: set<string>, uidOf: string -> int)
    requires Tidy(m, known, uidOf) && NoCollision(known, uidOf) && AllIds(events, known)
    ensures Run(m, FetchOps(events, false, path, now), uidOf) == Run(m, ReplayOps(events, now), uidOf)
      <==> forall id | id in known :: LosesNothing(Get(m, At(id, uidOf)), events, id)
  {
    hide Run, Evolve, Tidy, NoCollision, AllKnown, FetchOps, ReplayOps, LosesNothing, Get;
    var fetch, replay := FetchOps(events, false, path, now), ReplayOps(events, now);
    FetchIsKnown(events, false, path, now, known);
    ReplayIsKnown(events, now, known);
    RunIsPointwise(m, fetch, known, uidOf);
    RunIsPointwise(m, replay, known, uidOf);
    SameRowsSameTables(Run(m, fetch, uidOf), Run(m, replay, uidOf));
    forall id | id in known
      ensures Get(Run(m, fetch, uidOf), At(id, uidOf)) == Get(Run(m, replay, uidOf), At(id, uidOf))
        <==> LosesNothing(Get(m, At(id, uidOf)), events, id)
    {
      RowIsReplayedIff(Get(m, At(id, uidOf)), events, path, now, id);
    }
    if forall id | id in known :: LosesNothing(Get(m, At(id, uidOf)), events, id) {
      forall k: Key ensures Get(Run(m, fetch, uidOf), k) == Get(Run(m, replay, uidOf), k) {
        if IsPlaceOf(k, known, uidOf) {
          var id :| id in known && k == At(id, uidOf);
          assert LosesNothing(Get(m, At(id, uidOf)), events, id);
        }
      }
    }
  }

  lemma {:induction false} SameRowsSameTables(a: Messages, b: Messages)
    ensures a == b <==> forall k: Key :: Get(a, k) == Get(b, k)
  {
    if forall k: Key :: Get(a, k) == Get(b, k) {
      forall k ensures k in a <==> k in b {
        assert Get(a, k) == Get(b, k);
      }
      forall k | k in a ensures a[k] == b[k] {
        assert Get(a, k) == Get(b, k);
      }
    }
  }

  /** A downloaded body outlives a removal that a later event takes back; in a replay it would be lost. */
  lemma {:induction false} CompactionKeepsBody(was: Row, events: seq<Event>, path: string -> string, now: int,
      id: string)
    requires LastEvent(events, id).Some? && !LastEvent(events, id).value.removed
    ensures var row := Evolve(Some(was), FetchOps(events, false, path, now), id);
      row.Some? && row.value.maildirPath == was.maildirPath && row.value.thread == was.thread
  {
    FetchEvolves(Some(was), events, false, path, now, id);
  }

  lemma {:induction false} ReplayLosesBody(was: Row, e: Event, now: int)
    requires !e.removed && was.maildirPath.Some?
    ensures var events := [e.(removed := true), e];
      var row := Evolve(Some(was), ReplayOps(events, now), e.id);
      row.Some? && row.value.maildirPath.None?
  {
    var events := [e.(removed := true), e];
    var a, b := Delete([e.id]), Upsert(e, now);
    assert ReplayOps(events, now) == [a] + [b];
    EvolveAppend(Some(was), [a], [b], e.id);
    OneOp(Some(was), a, e.id);
    OneOp(None, b, e.id);
  }
}
