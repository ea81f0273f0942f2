/** A failed Graph fetch run again, with ids that may share a hash. */
module GraphRetry {
  import opened Common
  import opened SnapshotRows
  import opened GraphDelta
  import opened GraphRows
  import opened GraphFetch
  import opened GraphCollisions

  predicate UpsertsKey(ops: seq<Op>, k: Key, uidOf: string -> int) {
    exists op | op in ops :: op.Upsert? && At(op.event.id, uidOf) == k
  }

  predicate DeletesOthers(ops: seq<Op>) {
    forall u, d | u in ops && d in ops && u.Upsert? && d.Delete? :: u.event.id !in d.ids
  }

  /** The row belongs to an id upserted at its key. */
  predicate UpsertedBy(row: Option<Row>, ops: seq<Op>, k: Key, uidOf: string -> int) {
    row.Some? && exists op | op in ops ::
      op.Upsert? && At(op.event.id, uidOf) == k && row.value.providerId == Some(op.event.id)
  }

  predicate DeletedBy(row: Option<Row>, ops: seq<Op>, k: Key) {
    exists op | op in ops :: op.Delete? && Owns(row, k, op.ids)
  }

  lemma {:induction false} PartAt(row: Option<Row>, ops: seq<Op>, k: Key, uidOf: string -> int)
    requires DeletesOthers(ops)
    ensures var r := EvolveAt(row, ops, k, uidOf);
      if UpsertsKey(ops, k, uidOf) then UpsertedBy(r, ops, k, uidOf)
      else if DeletedBy(row, ops, k) then r.None? else SameFromServer(r, row)
  {
    if ops != [] {
      var init, last := ops[..|ops| - 1], ops[|ops| - 1];
      assert ops == init + [last];
      PartAt(row, init, k, uidOf);
      assert DeletedBy(row, ops, k) <==> DeletedBy(row, init, k) || (last.Delete? && Owns(row, k, last.ids));
      assert UpsertsKey(ops, k, uidOf)
        <==> UpsertsKey(init, k, uidOf) || (last.Upsert? && At(last.event.id, uidOf) == k);
    }
  }

  lemma FetchDeletesOthers(events: seq<Event>, bodies: bool, path: string -> string, now: int, steps: nat)
    requires steps <= |FetchOps(events, bodies, path, now)|
    ensures DeletesOthers(FetchOps(events, bodies, path, now)[..steps])
  {
    hide Upserts, Deletes, Live, RemovedIds, Compacted;
    var live, removed := Live(Compacted(events)), RemovedIds(Compacted(events));
    var ops := FetchOps(events, bodies, path, now);
    UpsertsAre(live, bodies, path, now);
    UpsertsAreLive(live, bodies, path, now);
    DeletesAre(removed);
    forall u, d | u in ops[..steps] && d in ops[..steps] && u.Upsert? && d.Delete? ensures u.event.id !in d.ids {
      assert u in ops && d in ops && ops == Upserts(live, bodies, path, now) + Deletes(removed);
      assert u in Upserts(live, bodies, path, now) && d in Deletes(removed);
      LiveIsNotRemoved(events, u.event);
    }
  }

  lemma {:induction false} LiveIsNotRemoved(events: seq<Event>, e: Event)
    requires e in Live(Compacted(events))
    ensures e.id !in RemovedIds(Compacted(events))
  {
    CompactedKeepsLast(events);
    LiveIs(Compacted(events));
    PartitionFollowsLastEvent(events, e.id);
  }

  lemma {:induction false} UpsertsAreLive(live: seq<Event>, bodies: bool, path: string -> string, now: int)
    ensures forall op | op in Upserts(live, bodies, path, now) && op.Upsert? :: op.event in live
  {
    if live != [] {
      UpsertsAreLive(live[..|live| - 1], bodies, path, now);
      assert live == live[..|live| - 1] + [live[|live| - 1]];
    }
  }

  predicate CoversIds(second: seq<Event>, first: seq<Event>) {
    forall e | e in first :: Mentions(second, e.id)
  }

  /** Where the failed fetch wrote or deleted, the whole one has a live id, or removes what was there. */
  predicate Recovers(m: Messages, part: seq<Op>, second: seq<Event>, k: Key, uidOf: string -> int) {
    (UpsertsKey(part, k, uidOf) || DeletedBy(Get(m, k), part, k)) && !LiveAt(second, k, uidOf) ==>
      Get(m, k).None? || Owns(Get(m, k), k, RemovedIds(Compacted(second)))
  }

  /** A reported id of this hash is removed in the end, unless some id of the hash is live. */
  lemma {:induction false} RemovedUnlessLive(events: seq<Event>, id: string, uidOf: string -> int)
    requires Mentions(events, id) && !LiveAt(events, At(id, uidOf), uidOf)
    ensures id in RemovedIds(Compacted(events))
  {
    LastEventIs(events, id);
    PartitionFollowsLastEvent(events, id);
  }

  lemma {:induction false} KeyRecoversIff(m: Messages, part: seq<Op>, first: seq<Event>, second: seq<Event>,
      bodies: bool, path: string -> string, now: int, k: Key, uidOf: string -> int)
    requires DeletesOthers(part) && CoversIds(second, first)
    requires forall op | op in part :: SpeaksOf(op, first, true, RemovedIds(Compacted(first)))
    ensures var whole := FetchOps(second, bodies, path, now);
      SameFromServer(Get(Run(Run(m, part, uidOf), whole, uidOf), k), Get(Run(m, whole, uidOf), k))
      <==> Recovers(m, part, second, k, uidOf)
  {
    hide EvolveAt, Live, RemovedIds, Compacted, LastEvent, LastUpsertAt, LiveAt, Run, FetchOps, DeletesOthers;
    var whole, row := FetchOps(second, bodies, path, now), Get(m, k);
    var x := EvolveAt(row, part, k, uidOf);
    RunIsKeywise(m, part, k, uidOf);
    RunIsKeywise(Run(m, part, uidOf), whole, k, uidOf);
    RunIsKeywise(m, whole, k, uidOf);
    FetchAt(x, second, bodies, path, now, k, uidOf);
    FetchAt(row, second, bodies, path, now, k, uidOf);
    LiveAtIsKept(second, k, uidOf);
    PartAt(row, part, k, uidOf);
    if !LiveAt(second, k, uidOf) {
      if UpsertsKey(part, k, uidOf) {
        var op :| op in part && op.Upsert? && At(op.event.id, uidOf) == k
          && x.value.providerId == Some(op.event.id);
        assert SpeaksOf(op, first, true, RemovedIds(Compacted(first)));
        RemovedUnlessLive(second, op.event.id, uidOf);
      }
    }
  }

  /**
    On any table, whatever ids share a hash: a fetch that stopped after any number of statements,
    and then a whole fetch, leave the rows and server columns of the whole fetch alone, exactly
    when every place recovers. The second fetch reports at least the ids of the first.
  */
  lemma {:induction false} RetryReachesOneRunIff(m: Messages, first: seq<Event>, second: seq<Event>, steps: nat,
      bodies1: bool, bodies2: bool, path1: string -> string, path2: string -> string, now1: int, now2: int,
      uidOf: string -> int)
    requires CoversIds(second, first)
    requires steps <= |FetchOps(first, bodies1, path1, now1)|
    ensures var part, whole := FetchOps(first, bodies1, path1, now1)[..steps], FetchOps(second, bodies2, path2, now2);
      SameTables(Run(Run(m, part, uidOf), whole, uidOf), Run(m, whole, uidOf))
      <==> forall k | k in Places(m, first, uidOf) :: Recovers(m, part, second, k, uidOf)
  {
    hide Run, FetchOps, SameFromServer, DeletesOthers, CoversIds, Places, Recovers;
    var part, whole := FetchOps(first, bodies1, path1, now1)[..steps], FetchOps(second, bodies2, path2, now2);
    FetchDeletesOthers(first, bodies1, path1, now1, steps);
    PartSpeaksOf(first, bodies1, path1, now1, steps);
    forall k: Key ensures
      SameFromServer(Get(Run(Run(m, part, uidOf), whole, uidOf), k), Get(Run(m, whole, uidOf), k))
      <==> Recovers(m, part, second, k, uidOf)
    {
      KeyRecoversIff(m, part, first, second, bodies2, path2, now2, k, uidOf);
    }
    UpsertsArePlaced(first, bodies1, path1, now1);
    forall k: Key | k !in Places(m, first, uidOf) ensures Recovers(m, part, second, k, uidOf) {
      ElsewhereRecovers(m, part, first, second, k, uidOf);
    }
  }

  lemma {:induction false} ElsewhereRecovers(m: Messages, part: seq<Op>, first: seq<Event>, second: seq<Event>,
      k: Key, uidOf: string -> int)
    requires k !in Places(m, first, uidOf)
    requires forall op | op in part && op.Upsert? :: op.event in first && !op.event.removed
    ensures Recovers(m, part, second, k, uidOf)
  {
  }

  lemma UpsertsArePlaced(events: seq<Event>, bodies: bool, path: string -> string, now: int)
    ensures forall op | op in FetchOps(events, bodies, path, now) && op.Upsert? ::
      op.event in events && !op.event.removed
  {
    hide Upserts, Deletes, Live, RemovedIds, Compacted;
    var live, removed := Live(Compacted(events)), RemovedIds(Compacted(events));
    UpsertsAreLive(live, bodies, path, now);
    DeletesAre(removed);
    LiveIs(Compacted(events));
    CompactedKeepsLast(events);
    forall op | op in FetchOps(events, bodies, path, now) && op.Upsert?
      ensures op.event in events && !op.event.removed
    {
      assert op in Upserts(live, bodies, path, now) || op in Deletes(removed);
      LastEventIs(events, op.event.id);
    }
  }

  lemma {:induction false} PartSpeaksOf(events: seq<Event>, bodies: bool, path: string -> string, now: int, steps: nat)
    requires steps <= |FetchOps(events, bodies, path, now)|
    ensures forall op | op in FetchOps(events, bodies, path, now)[..steps] ::
      SpeaksOf(op, events, true, RemovedIds(Compacted(events)))
  {
    hide FetchOps, RemovedIds, Compacted;
    var ops := FetchOps(events, bodies, path, now);
    FetchOpsAre(events, bodies, path, now);
    assert forall op | op in ops[..steps] :: op in ops && SpeaksOf(op, events, bodies, RemovedIds(Compacted(events)));
  }
}
