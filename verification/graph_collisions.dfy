/** When a fetch means a replay, with ids that may share a hash. */
module GraphCollisions {
  import opened Common
  import opened SnapshotRows
  import opened GraphDelta
  import opened GraphRows
  import opened GraphFetch
  import opened GraphHash

  // ---- one key at a time ----

  /** The row's provider id is one of these. */
  predicate Owns(row: Option<Row>, k: Key, ids: seq<string>) {
    k.folder == INBOX && row.Some? && row.value.providerId.Some? && row.value.providerId.value in ids
  }

  /** What one statement does to the row at a key. */
  function EvolvedAt(row: Option<Row>, op: Op, k: Key, uidOf: string -> int): Option<Row> {
    match op
    case Upsert(e, now) => if At(e.id, uidOf) == k then Some(Merged(row, e, now)) else row
    case SetBody(id, path) =>
      if At(id, uidOf) == k && row.Some? then Some(row.value.(maildirPath := Some(path), headersOnly := 0)) else row
    case Delete(ids) => if Owns(row, k, ids) then None else row
  }

  function EvolveAt(row: Option<Row>, ops: seq<Op>, k: Key, uidOf: string -> int): Option<Row> {
    if ops == [] then row else EvolvedAt(EvolveAt(row, ops[..|ops| - 1], k, uidOf), ops[|ops| - 1], k, uidOf)
  }

  /** Whatever the hash, a run treats every key on its own. */
  lemma {:induction false} RunIsKeywise(m: Messages, ops: seq<Op>, k: Key, uidOf: string -> int)
    ensures Get(Run(m, ops, uidOf), k) == EvolveAt(Get(m, k), ops, k, uidOf)
  {
    if ops != [] {
      RunIsKeywise(m, ops[..|ops| - 1], k, uidOf);
    }
  }

  lemma {:induction false} EvolveAtAppend(row: Option<Row>, a: seq<Op>, b: seq<Op>, k: Key, uidOf: string -> int)
    ensures EvolveAt(row, a + b, k, uidOf) == EvolveAt(EvolveAt(row, a, k, uidOf), b, k, uidOf)
    decreases |b|
  {
    if b == [] {
      assert a + b == a;
    } else {
      EvolveAtAppend(row, a, b[..|b| - 1], k, uidOf);
      assert (a + b)[..|a + b| - 1] == a + b[..|b| - 1];
    }
  }

  lemma {:induction false} OneOpAt(row: Option<Row>, op: Op, k: Key, uidOf: string -> int)
    ensures EvolveAt(row, [op], k, uidOf) == EvolvedAt(row, op, k, uidOf)
  {
    assert [op][..0] == [];
  }

  /** The last event that writes the row at a key. */
  function LastUpsertAt(events: seq<Event>, k: Key, uidOf: string -> int): Option<Event> {
    if events == [] then None
    else
      var last := events[|events| - 1];
      if !last.removed && At(last.id, uidOf) == k then Some(last)
      else LastUpsertAt(events[..|events| - 1], k, uidOf)
  }

  lemma {:induction false} LastUpsertIs(events: seq<Event>, k: Key, uidOf: string -> int)
    ensures var u := LastUpsertAt(events, k, uidOf);
      && (u.Some? ==> u.value in events && !u.value.removed && At(u.value.id, uidOf) == k)
      && (u.None? ==> forall e | e in events :: e.removed || At(e.id, uidOf) != k)
  {
    if events != [] {
      LastUpsertIs(events[..|events| - 1], k, uidOf);
      assert events == events[..|events| - 1] + [events[|events| - 1]];
    }
  }

  // ---- the fetch ----

  lemma {:induction false} DeletesAt(row: Option<Row>, removed: seq<string>, k: Key, uidOf: string -> int)
    ensures EvolveAt(row, Deletes(removed), k, uidOf) == if Owns(row, k, removed) then None else row
    decreases |removed|
  {
    if |removed| > CHUNK {
      var first, rest := removed[..CHUNK], removed[CHUNK..];
      assert removed == first + rest;
      EvolveAtAppend(row, [Delete(first)], Deletes(rest), k, uidOf);
      OneOpAt(row, Delete(first), k, uidOf);
      DeletesAt(EvolveAt(row, [Delete(first)], k, uidOf), rest, k, uidOf);
    } else if removed != [] {
      OneOpAt(row, Delete(removed), k, uidOf);
    }
  }

  lemma {:induction false} NoUpserts(row: Option<Row>, bodies: bool, path: string -> string, now: int, k: Key,
      uidOf: string -> int)
    ensures EvolveAt(row, Upserts([], bodies, path, now), k, uidOf) == row
  {
  }

  lemma {:induction false} UpsertsAt(row: Option<Row>, live: seq<Event>, bodies: bool, path: string -> string,
      now: int, k: Key, uidOf: string -> int)
    requires forall e | e in live :: !e.removed
    ensures var u, r := LastUpsertAt(live, k, uidOf), EvolveAt(row, Upserts(live, bodies, path, now), k, uidOf);
      r == if u.None? then row else Some(Settled(row, u.value, bodies, path, now))
  {
    hide EvolveAt, UpsertOps, Upserts, Settled;
    NoUpserts(row, bodies, path, now, k, uidOf);
    if live != [] {
      var init, last := live[..|live| - 1], live[|live| - 1];
      assert live == init + [last];
      UpsertsAt(row, init, bodies, path, now, k, uidOf);
      var head, tail := Upserts(init, bodies, path, now), UpsertOps(last, bodies, path, now);
      UpsertsSnoc(init, last, bodies, path, now);
      EvolveAtAppend(row, head, tail, k, uidOf);
      TailAt(EvolveAt(row, head, k, uidOf), last, bodies, path, now, k, uidOf);
      if LastUpsertAt(init, k, uidOf).Some? {
        SettledTwice(row, LastUpsertAt(init, k, uidOf).value, last, bodies, path, now);
      }
    }
  }

  lemma SettledTwice(row: Option<Row>, a: Event, b: Event, bodies: bool, path: string -> string, now: int)
    ensures Settled(Some(Settled(row, a, bodies, path, now)), b, bodies, path, now)
         == Settled(row, b, bodies, path, now)
  {
  }

  function UpsertOps(e: Event, bodies: bool, path: string -> string, now: int): seq<Op> {
    [Upsert(e, now)] + if bodies then [SetBody(e.id, path(e.id))] else []
  }

  lemma {:induction false} UpsertsSnoc(live: seq<Event>, e: Event, bodies: bool, path: string -> string, now: int)
    ensures Upserts(live + [e], bodies, path, now) == Upserts(live, bodies, path, now) + UpsertOps(e, bodies, path, now)
  {
    assert (live + [e])[..|live|] == live;
    Associate(Upserts(live, bodies, path, now), [Upsert(e, now)], if bodies then [SetBody(e.id, path(e.id))] else []);
  }

  lemma {:induction false} TailAt(row: Option<Row>, e: Event, bodies: bool, path: string -> string, now: int, k: Key,
      uidOf: string -> int)
    ensures var r := EvolveAt(row, UpsertOps(e, bodies, path, now), k, uidOf);
      r == if At(e.id, uidOf) == k then Some(Settled(row, e, bodies, path, now)) else row
  {
    OneOpAt(row, Upsert(e, now), k, uidOf);
    if bodies {
      EvolveAtAppend(row, [Upsert(e, now)], [SetBody(e.id, path(e.id))], k, uidOf);
      OneOpAt(EvolvedAt(row, Upsert(e, now), k, uidOf), SetBody(e.id, path(e.id)), k, uidOf);
    } else {
      assert [Upsert(e, now)] + [] == [Upsert(e, now)];
    }
  }

  lemma {:induction false} FetchAt(row: Option<Row>, events: seq<Event>, bodies: bool, path: string -> string,
      now: int, k: Key,
      uidOf: string -> int)
    ensures var c, removed := LastUpsertAt(Live(Compacted(events)), k, uidOf), RemovedIds(Compacted(events));
      var r := EvolveAt(row, FetchOps(events, bodies, path, now), k, uidOf);
      r == if c.Some? then Some(Settled(row, c.value, bodies, path, now))
           else if Owns(row, k, removed) then None else row
  {
    hide EvolveAt, Upserts, Deletes, Live, RemovedIds, Compacted, LastUpsertAt;
    var live, removed := Live(Compacted(events)), RemovedIds(Compacted(events));
    LiveIs(Compacted(events));
    EvolveAtAppend(row, Upserts(live, bodies, path, now), Deletes(removed), k, uidOf);
    UpsertsAt(row, live, bodies, path, now, k, uidOf);
    DeletesAt(EvolveAt(row, Upserts(live, bodies, path, now), k, uidOf), removed, k, uidOf);
    LastUpsertIs(live, k, uidOf);
    var c := LastUpsertAt(live, k, uidOf);
    if c.Some? {
      CompactedKeepsLast(events);
      PartitionFollowsLastEvent(events, c.value.id);
    }
  }

  // ---- the replay ----

  /** Whom a replay leaves the row at a key to, unless it deletes the row. */
  function OwnerAt(row: Option<Row>, events: seq<Event>, k: Key, uidOf: string -> int): Option<string> {
    var u := LastUpsertAt(events, k, uidOf);
    if u.Some? then Some(u.value.id)
    else if k.folder == INBOX && row.Some? then row.value.providerId else None
  }

  /** Some event removes the id that the row at the key belongs to by then. */
  predicate Wiped(row: Option<Row>, events: seq<Event>, k: Key, uidOf: string -> int) {
    events != [] &&
    var init, last := events[..|events| - 1], events[|events| - 1];
    Wiped(row, init, k, uidOf) || (last.removed && OwnerAt(row, init, k, uidOf) == Some(last.id))
  }

  lemma {:induction false} ReplayAt(row: Option<Row>, events: seq<Event>, now: int, k: Key, uidOf: string -> int)
    ensures var u, r := LastUpsertAt(events, k, uidOf), EvolveAt(row, ReplayOps(events, now), k, uidOf);
      var wiped := Wiped(row, events, k, uidOf);
      if u.None? then r == (if wiped then None else row) && (wiped <==> Owns(row, k, RemovedIds(events)))
      else if LastEvent(events, u.value.id) == u then r == Some(Merged(if wiped then None else row, u.value, now))
      else r == None && wiped
  {
    if events != [] {
      var init, last := events[..|events| - 1], events[|events| - 1];
      assert ReplayOps(events, now)[..|events| - 1] == ReplayOps(init, now);
      ReplayAt(row, init, now, k, uidOf);
      LastUpsertIs(init, k, uidOf);
    }
  }

  // ---- where they agree ----

  /** Some id of this hash is live in the end. */
  predicate LiveAt(events: seq<Event>, k: Key, uidOf: string -> int) {
    exists e | e in events :: At(e.id, uidOf) == k && !e.removed && LastEvent(events, e.id) == Some(e)
  }

  lemma {:induction false} LiveAtIsKept(events: seq<Event>, k: Key, uidOf: string -> int)
    ensures LiveAt(events, k, uidOf) <==> LastUpsertAt(Live(Compacted(events)), k, uidOf).Some?
  {
    var live := Live(Compacted(events));
    CompactedKeepsLast(events);
    LiveIs(Compacted(events));
    LastUpsertIs(live, k, uidOf);
    var c := LastUpsertAt(live, k, uidOf);
    if c.Some? {
      LastEventIs(events, c.value.id);
      assert c.value in events;
    }
    if LiveAt(events, k, uidOf) {
      var e :| e in events && At(e.id, uidOf) == k && !e.removed && LastEvent(events, e.id) == Some(e);
      assert e in live;
    }
  }

  lemma {:induction false} LastUpsertFirst(e: Event, events: seq<Event>, k: Key, uidOf: string -> int)
    ensures var u := LastUpsertAt(events, k, uidOf);
      LastUpsertAt([e] + events, k, uidOf)
      == if u.Some? then u else if !e.removed && At(e.id, uidOf) == k then Some(e) else None
  {
    if events == [] {
      assert [e] + events == [e] && [e][..0] == [];
    } else {
      assert ([e] + events)[..|events|] == [e] + events[..|events| - 1];
      LastUpsertFirst(e, events[..|events| - 1], k, uidOf);
    }
  }

  lemma {:induction false} LiveFirst(e: Event, events: seq<Event>)
    ensures Live([e] + events) == (if e.removed then [] else [e]) + Live(events)
  {
    if events == [] {
      assert [e] + events == [e] && [e][..0] == [];
    } else {
      assert ([e] + events)[..|events|] == [e] + events[..|events| - 1];
      LiveFirst(e, events[..|events| - 1]);
    }
  }

  /** When the last upsert of a hash is the last event of its id, compaction leaves it the last. */
  lemma {:induction false} LastUpsertIsKept(events: seq<Event>, k: Key, uidOf: string -> int)
    requires var u := LastUpsertAt(events, k, uidOf); u.Some? && LastEvent(events, u.value.id) == u
    ensures LastUpsertAt(Live(Compacted(events)), k, uidOf) == LastUpsertAt(events, k, uidOf)
  {
    hide Live, LastUpsertAt, LastEvent;
    NothingUpserts(k, uidOf);
    if events != [] {
      var e, rest := events[0], events[1..];
      var u := LastUpsertAt(events, k, uidOf).value;
      assert events == [e] + rest;
      LastUpsertFirst(e, rest, k, uidOf);
      LastEventFirst(e, rest, u.id);
      LastEventIs(rest, u.id);
      LastUpsertIs(rest, k, uidOf);
      LiveFirst(e, Compacted(rest));
      LastUpsertFirst(e, Live(Compacted(rest)), k, uidOf);
      assert [] + Live(Compacted(rest)) == Live(Compacted(rest));
      if LastUpsertAt(rest, k, uidOf).Some? {
        assert Mentions(rest, u.id);
        LastUpsertIsKept(rest, k, uidOf);
      } else {
        LiveAtIsKept(rest, k, uidOf);
        assert !Mentions(rest, u.id);
      }
    }
  }

  lemma {:induction false} NothingUpserts(k: Key, uidOf: string -> int)
    ensures LastUpsertAt([], k, uidOf) == None
  {
  }

  /**
    With an upsert of the hash: its last one is the last event of its own id, or no id of the hash
    is live and the row that was there is removed or was not there. Without one: the row that was
    there is removed in the end if any event removes it.
  */
  predicate Settles(m: Messages, events: seq<Event>, k: Key, uidOf: string -> int) {
    var row, u, removed := Get(m, k), LastUpsertAt(events, k, uidOf), RemovedIds(Compacted(events));
    if u.None? then Owns(row, k, RemovedIds(events)) ==> Owns(row, k, removed)
    else if LiveAt(events, k, uidOf) then LastEvent(events, u.value.id) == u
    else row.None? || Owns(row, k, removed)
  }

  /** A row that a live message takes over is bare, if it is removed before. */
  predicate LosesNothingAt(row: Option<Row>, events: seq<Event>, k: Key, uidOf: string -> int) {
    LiveAt(events, k, uidOf) && row.Some? && Wiped(row, events, k, uidOf) ==> Bare(row.value)
  }

  /** Where a row stands or an event puts one. */
  function Places(m: Messages, events: seq<Event>, uidOf: string -> int): set<Key> {
    m.Keys + set e | e in events && !e.removed :: At(e.id, uidOf)
  }

  lemma {:induction false} KeyAgreesIff(m: Messages, events: seq<Event>, bodies: bool, path: string -> string,
      now: int, k: Key, uidOf: string -> int)
    ensures var a := Get(Run(m, FetchOps(events, bodies, path, now), uidOf), k);
      var b := Get(Run(m, ReplayOps(events, now), uidOf), k);
      && (SameFromServer(a, b) <==> Settles(m, events, k, uidOf))
      && (!bodies ==> (a == b <==> Settles(m, events, k, uidOf) && LosesNothingAt(Get(m, k), events, k, uidOf)))
  {
    hide EvolveAt, LastUpsertAt, Live, RemovedIds, Compacted, LastEvent, LiveAt, Run, FetchOps, ReplayOps, Wiped,
      Bare, Merged;
    var row, u := Get(m, k), LastUpsertAt(events, k, uidOf);
    RunIsKeywise(m, FetchOps(events, bodies, path, now), k, uidOf);
    RunIsKeywise(m, ReplayOps(events, now), k, uidOf);
    FetchAt(row, events, bodies, path, now, k, uidOf);
    ReplayAt(row, events, now, k, uidOf);
    LiveAtIsKept(events, k, uidOf);
    LastUpsertIs(events, k, uidOf);
    CompactedRemovesLess(events);
    if u.None? {
      NothingLive(events, k, uidOf);
    } else {
      MergedHolds(row, u.value, now);
      MergedHolds(None, u.value, now);
      SettledHolds(row, u.value, bodies, path, now);
      if row.Some? {
        MergedIff(row.value, u.value, now);
      }
      if LastEvent(events, u.value.id) == u {
        LastUpsertIsKept(events, k, uidOf);
        assert u.value in events;
      }
    }
  }

  lemma MergedHolds(row: Option<Row>, e: Event, now: int)
    ensures var r := Merged(row, e, now);
      r.headers == e.headers && r.fetchedAt == now && r.providerId == Some(e.id)
  {
  }

  lemma SettledHolds(row: Option<Row>, e: Event, bodies: bool, path: string -> string, now: int)
    ensures SameFromServer(Some(Settled(row, e, bodies, path, now)), Some(Merged(row, e, now)))
    ensures !bodies ==> Settled(row, e, bodies, path, now) == Merged(row, e, now)
  {
  }

  lemma {:induction false} CompactedRemovesLess(events: seq<Event>)
    ensures forall id | id in RemovedIds(Compacted(events)) :: id in RemovedIds(events)
  {
    CompactedKeepsLast(events);
    RemovedIdsAre(Compacted(events));
    RemovedIdsAre(events);
    forall e | e in Compacted(events) ensures e in events {
      LastEventIs(events, e.id);
    }
  }

  lemma {:induction false} NothingLive(events: seq<Event>, k: Key, uidOf: string -> int)
    requires LastUpsertAt(events, k, uidOf) == None
    ensures !LiveAt(events, k, uidOf)
  {
    LastUpsertIs(events, k, uidOf);
  }

  lemma {:induction false} ElsewhereAllAgrees(m: Messages, events: seq<Event>, k: Key, uidOf: string -> int)
    requires k !in Places(m, events, uidOf)
    ensures Settles(m, events, k, uidOf) && LosesNothingAt(Get(m, k), events, k, uidOf)
  {
    hide LastEvent, RemovedIds, Compacted;
    LastUpsertIs(events, k, uidOf);
  }

  /**
    On any table, whatever ids share a hash: the fetch leaves the same rows with the same server
    columns as replaying every event, exactly when every place settles.
  */
  lemma {:induction false} FetchMeansReplayIff(m: Messages, events: seq<Event>, bodies: bool, path: string -> string,
      now: int, uidOf: string -> int)
    ensures SameTables(Run(m, FetchOps(events, bodies, path, now), uidOf), Run(m, ReplayOps(events, now), uidOf))
      <==> forall k | k in Places(m, events, uidOf) :: Settles(m, events, k, uidOf)
  {
    hide Run, FetchOps, ReplayOps, Settles, Places, SameFromServer;
    var a, b := Run(m, FetchOps(events, bodies, path, now), uidOf), Run(m, ReplayOps(events, now), uidOf);
    forall k: Key ensures SameFromServer(Get(a, k), Get(b, k)) <==> Settles(m, events, k, uidOf) {
      KeyAgreesIff(m, events, bodies, path, now, k, uidOf);
    }
    forall k: Key | k !in Places(m, events, uidOf) ensures Settles(m, events, k, uidOf) {
      ElsewhereAllAgrees(m, events, k, uidOf);
    }
  }

  /** The tables are equal in every column exactly when every place also loses nothing. */
  lemma {:induction false} FetchEqualsReplayIff(m: Messages, events: seq<Event>, path: string -> string, now: int,
      uidOf: string -> int)
    ensures Run(m, FetchOps(events, false, path, now), uidOf) == Run(m, ReplayOps(events, now), uidOf)
      <==> forall k | k in Places(m, events, uidOf) ::
             Settles(m, events, k, uidOf) && LosesNothingAt(Get(m, k), events, k, uidOf)
  {
    hide Run, FetchOps, ReplayOps, Settles, Places, LosesNothingAt, Get;
    var a, b := Run(m, FetchOps(events, false, path, now), uidOf), Run(m, ReplayOps(events, now), uidOf);
    SameRowsSameTables(a, b);
    forall k: Key ensures Get(a, k) == Get(b, k)
      <==> Settles(m, events, k, uidOf) && LosesNothingAt(Get(m, k), events, k, uidOf)
    {
      KeyAgreesIff(m, events, false, path, now, k, uidOf);
    }
    forall k: Key | k !in Places(m, events, uidOf)
      ensures Settles(m, events, k, uidOf) && LosesNothingAt(Get(m, k), events, k, uidOf)
    {
      ElsewhereAllAgrees(m, events, k, uidOf);
    }
  }

  /** A row that stands away from its id's hash stays beside the new one, where a replay deletes it. */
  lemma {:induction false} MisplacedRowStays(m: Messages, k: Key, e: Event, path: string -> string, now: int,
      uidOf: string -> int)
    requires k in m && k.folder == INBOX && m[k].providerId == Some(e.id) && k != At(e.id, uidOf) && !e.removed
    ensures var events := [e.(removed := true), e];
      && k in Run(m, FetchOps(events, false, path, now), uidOf)
      && k !in Run(m, ReplayOps(events, now), uidOf)
      && At(e.id, uidOf) in Run(m, FetchOps(events, false, path, now), uidOf)
  {
    hide Run, FetchOps, ReplayOps, EvolveAt, Compacted, Live, RemovedIds, LastUpsertAt;
    var events, home := [e.(removed := true), e], At(e.id, uidOf);
    TakenBack(e, uidOf);
    RunIsKeywise(m, FetchOps(events, false, path, now), k, uidOf);
    RunIsKeywise(m, FetchOps(events, false, path, now), home, uidOf);
    RunIsKeywise(m, ReplayOps(events, now), k, uidOf);
    FetchAt(Get(m, k), events, false, path, now, k, uidOf);
    FetchAt(Get(m, home), events, false, path, now, home, uidOf);
    ReplayAt(Get(m, k), events, now, k, uidOf);
  }

  lemma TakenBack(e: Event, uidOf: string -> int)
    requires !e.removed
    ensures var events, home := [e.(removed := true), e], At(e.id, uidOf);
      && Live(Compacted(events)) == [e] && RemovedIds(Compacted(events)) == [] && RemovedIds(events) == [e.id]
      && LastUpsertAt([e], home, uidOf) == Some(e)
      && forall k | k != home :: LastUpsertAt([e], k, uidOf).None? && LastUpsertAt(events, k, uidOf).None?
  {
    var x := e.(removed := true);
    var events := [x, e];
    assert events[1..] == [e] && [e][1..] == [] && events[..1] == [x] && [x][..0] == [] && [e][..0] == [];
    assert e in [e] && Mentions([e], x.id);
    assert Compacted([e]) == [e] + Compacted([]);
    assert Live([e]) == Live([]) + [e] && RemovedIds([x]) == RemovedIds([]) + [x.id];
    assert RemovedIds([e]) == RemovedIds([]) && RemovedIds(events) == RemovedIds([x]);
    forall k ensures LastUpsertAt([x], k, uidOf).None? && (k != At(e.id, uidOf) ==> LastUpsertAt([e], k, uidOf).None?) {
    }
  }

  predicate LastUpsertIsLast(events: seq<Event>, k: Key, uidOf: string -> int) {
    var u := LastUpsertAt(events, k, uidOf);
    u.Some? && LastEvent(events, u.value.id) == u
  }

  /** In a tidy table the condition is one on the events alone: the last upsert of every hash
      with a live id is the last event of its own id. */
  lemma {:induction false} TidyFetchMeansReplayIff(m: Messages, events: seq<Event>, bodies: bool,
      path: string -> string, now: int, known: set<string>, uidOf: string -> int)
    requires Tidy(m, known, uidOf) && AllIds(events, known)
    ensures SameTables(Run(m, FetchOps(events, bodies, path, now), uidOf), Run(m, ReplayOps(events, now), uidOf))
      <==> forall e | e in events && LiveAt(events, At(e.id, uidOf), uidOf) ::
             LastUpsertIsLast(events, At(e.id, uidOf), uidOf)
  {
    hide Run, FetchOps, ReplayOps, Settles, LastUpsertIsLast, LastUpsertAt, LastEvent, Tidy;
    FetchMeansReplayIff(m, events, bodies, path, now, uidOf);
    forall k: Key ensures Settles(m, events, k, uidOf)
      <==> (LiveAt(events, k, uidOf) ==> LastUpsertIsLast(events, k, uidOf))
    {
      TidySettlesIff(m, events, k, known, uidOf);
    }
    forall e | e in events && LiveAt(events, At(e.id, uidOf), uidOf)
      ensures At(e.id, uidOf) in Places(m, events, uidOf)
    {
      var live :| live in events && At(live.id, uidOf) == At(e.id, uidOf) && !live.removed
        && LastEvent(events, live.id) == Some(live);
    }
  }

  lemma {:induction false} TidySettlesIff(m: Messages, events: seq<Event>, k: Key, known: set<string>,
      uidOf: string -> int)
    requires Tidy(m, known, uidOf) && AllIds(events, known)
    ensures Settles(m, events, k, uidOf) <==> (LiveAt(events, k, uidOf) ==> LastUpsertIsLast(events, k, uidOf))
  {
    hide RemovedIds, Compacted, LastUpsertAt, LastEvent;
    var u := LastUpsertAt(events, k, uidOf);
    LastUpsertIs(events, k, uidOf);
    if u.None? {
      NothingLive(events, k, uidOf);
      if Owns(Get(m, k), k, RemovedIds(events)) {
        RemovalIsLast(events, m[k].providerId.value, k, known, uidOf);
      }
    } else if !LiveAt(events, k, uidOf) {
      LastEventIs(events, u.value.id);
      PartitionFollowsLastEvent(events, u.value.id);
    }
  }

  /** Without an upsert of its hash, a removed id is removed in the end. */
  lemma {:induction false} RemovalIsLast(events: seq<Event>, id: string, k: Key, known: set<string>,
      uidOf: string -> int)
    requires LastUpsertAt(events, k, uidOf) == None && id in RemovedIds(events)
    requires AllIds(events, known) && (id in known ==> k == At(id, uidOf))
    ensures id in RemovedIds(Compacted(events))
  {
    RemovedIdsAre(events);
    LastUpsertIs(events, k, uidOf);
    LastEventIs(events, id);
    PartitionFollowsLastEvent(events, id);
  }

  // ---- two Graph ids of one hash ----

  /** The fetch keeps a row that a replay would have removed. */
  lemma CollisionBreaksReplay(one: Event, other: Event, path: string -> string, now: int)
    requires one.id == ONE_ID && other.id == OTHER_ID && !one.removed && !other.removed
    ensures var events := [other, one, one.(removed := true)];
      var fetched := Run(map[], FetchOps(events, false, path, now), GraphIdToUid);
      var replayed := Run(map[], ReplayOps(events, now), GraphIdToUid);
      At(ONE_ID, GraphIdToUid) in fetched && At(ONE_ID, GraphIdToUid) !in replayed
  {
    hide Hash, Run, FetchOps, ReplayOps, EvolveAt;
    var events := [other, one, one.(removed := true)];
    var k := At(ONE_ID, GraphIdToUid);
    IdsCollide();
    CollidingEvents(other, one, k, GraphIdToUid);
    RunIsKeywise(map[], FetchOps(events, false, path, now), k, GraphIdToUid);
    RunIsKeywise(map[], ReplayOps(events, now), k, GraphIdToUid);
    FetchAt(None, events, false, path, now, k, GraphIdToUid);
    ReplayAt(None, events, now, k, GraphIdToUid);
    LiveAtIsKept(events, k, GraphIdToUid);
  }

  lemma {:induction false} CollidingEvents(a: Event, b: Event, k: Key, uidOf: string -> int)
    requires a.id != b.id && !a.removed && !b.removed && At(a.id, uidOf) == At(b.id, uidOf) == k
    ensures var events := [a, b, b.(removed := true)];
      && LiveAt(events, k, uidOf) && LastUpsertAt(events, k, uidOf) == Some(b)
      && LastEvent(events, b.id) == Some(b.(removed := true))
  {
    var events := [a, b, b.(removed := true)];
    assert events[..2] == [a, b] && [a, b][..1] == [a] && [a][..0] == [];
    assert LastEvent([a], a.id) == Some(a) && LastEvent([a, b], a.id) == LastEvent([a], a.id);
    assert LastUpsertAt([a, b], k, uidOf) == Some(b);
    assert a in events;
  }
}
