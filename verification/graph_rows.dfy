/** The statements a Graph fetch issues, and what a run of them does to each message's row. */
module GraphRows {
  import opened Common
  import opened SnapshotRows
  import opened GraphDelta

  const INBOX := "Inbox"
  const CHUNK: nat := 998

  // One statement on the message table.
  datatype Op =
    | Upsert(event: Event, now: int)
    | SetBody(id: string, path: string)
    | Delete(ids: seq<string>)

  /** Where the row of a Graph id stands: its id hashed. */
  function At(id: string, uidOf: string -> int): Key {
    Key(INBOX, uidOf(id), 0)
  }

  function Merged(was: Option<Row>, e: Event, now: int): Row {
    match was
    case None => Row(e.headers, None, 1, now, Some(e.id), ThreadColumns(None, None, None))
    case Some(row) =>
      Row(e.headers, row.maildirPath, if row.headersOnly < 1 then row.headersOnly else 1, now, Some(e.id), row.thread)
  }

  function Get(m: Messages, k: Key): Option<Row> {
    if k in m then Some(m[k]) else None
  }

  function Apply(m: Messages, op: Op, uidOf: string -> int): Messages {
    match op
    case Upsert(e, now) => var k := At(e.id, uidOf); m[k := Merged(Get(m, k), e, now)]
    case SetBody(id, path) =>
      var k := At(id, uidOf);
      if k in m then m[k := m[k].(maildirPath := Some(path), headersOnly := 0)] else m
    case Delete(ids) =>
      map k | k in m && !(k.folder == INBOX && m[k].providerId.Some? && m[k].providerId.value in ids) :: m[k]
  }

  function Run(m: Messages, ops: seq<Op>, uidOf: string -> int): Messages {
    if ops == [] then m else Apply(Run(m, ops[..|ops| - 1], uidOf), ops[|ops| - 1], uidOf)
  }

  lemma {:induction false} RunAppend(m: Messages, a: seq<Op>, b: seq<Op>, uidOf: string -> int)
    ensures Run(m, a + b, uidOf) == Run(Run(m, a, uidOf), b, uidOf)
    decreases |b|
  {
    if b == [] {
      assert a + b == a;
    } else {
      RunAppend(m, a, b[..|b| - 1], uidOf);
      assert (a + b)[..|a + b| - 1] == a + b[..|b| - 1];
    }
  }

  // ---- one message at a time ----

  /** What one statement does to the row of an id. */
  function Evolved(was: Option<Row>, op: Op, id: string): Option<Row> {
    match op
    case Upsert(e, now) => if e.id == id then Some(Merged(was, e, now)) else was
    case SetBody(i, path) =>
      if i == id && was.Some? then Some(was.value.(maildirPath := Some(path), headersOnly := 0)) else was
    case Delete(ids) => if id in ids then None else was
  }

  function Evolve(was: Option<Row>, ops: seq<Op>, id: string): Option<Row> {
    if ops == [] then was else Evolved(Evolve(was, ops[..|ops| - 1], id), ops[|ops| - 1], id)
  }

  lemma {:induction false} EvolveAppend(was: Option<Row>, a: seq<Op>, b: seq<Op>, id: string)
    ensures Evolve(was, a + b, id) == Evolve(Evolve(was, a, id), b, id)
    decreases |b|
  {
    if b == [] {
      assert a + b == a;
    } else {
      EvolveAppend(was, a, b[..|b| - 1], id);
      assert (a + b)[..|a + b| - 1] == a + b[..|b| - 1];
    }
  }

  predicate Knows(op: Op, known: set<string>) {
    match op
    case Upsert(e, _) => e.id in known
    case SetBody(id, _) => id in known
    case Delete(ids) => forall id | id in ids :: id in known
  }

  predicate AllKnown(ops: seq<Op>, known: set<string>) {
    forall op | op in ops :: Knows(op, known)
  }

  /** The hash tells the ids apart. */
  predicate NoCollision(known: set<string>, uidOf: string -> int) {
    forall a, b | a in known && b in known && uidOf(a) == uidOf(b) :: a == b
  }

  /** Each known id owns the row at its hash, and no other. */
  predicate Tidy(m: Messages, known: set<string>, uidOf: string -> int) {
    && (forall k | k in m && k.folder == INBOX && m[k].providerId.Some? && m[k].providerId.value in known ::
      k == At(m[k].providerId.value, uidOf))
    && (forall id | id in known && At(id, uidOf) in m :: m[At(id, uidOf)].providerId == Some(id))
  }

  predicate IsPlaceOf(k: Key, known: set<string>, uidOf: string -> int) {
    exists id | id in known :: k == At(id, uidOf)
  }

  lemma {:induction false} ApplyIsPointwise(m: Messages, op: Op, known: set<string>, uidOf: string -> int)
    requires Tidy(m, known, uidOf) && NoCollision(known, uidOf) && Knows(op, known)
    ensures Tidy(Apply(m, op, uidOf), known, uidOf)
    ensures forall id | id in known ::
      Get(Apply(m, op, uidOf), At(id, uidOf)) == Evolved(Get(m, At(id, uidOf)), op, id)
    ensures forall k | !IsPlaceOf(k, known, uidOf) :: Get(Apply(m, op, uidOf), k) == Get(m, k)
  {
  }

  /** A run treats every message on its own, and leaves all other rows alone. */
  lemma {:induction false} RunIsPointwise(m: Messages, ops: seq<Op>, known: set<string>, uidOf: string -> int)
    requires Tidy(m, known, uidOf) && NoCollision(known, uidOf) && AllKnown(ops, known)
    ensures Tidy(Run(m, ops, uidOf), known, uidOf)
    ensures forall id | id in known ::
      Get(Run(m, ops, uidOf), At(id, uidOf)) == Evolve(Get(m, At(id, uidOf)), ops, id)
    ensures forall k | !IsPlaceOf(k, known, uidOf) :: Get(Run(m, ops, uidOf), k) == Get(m, k)
  {
    if ops != [] {
      RunIsPointwise(m, ops[..|ops| - 1], known, uidOf);
      ApplyIsPointwise(Run(m, ops[..|ops| - 1], uidOf), ops[|ops| - 1], known, uidOf);
    }
  }

  // ---- the statements of a fetch ----

  function Upserts(live: seq<Event>, bodies: bool, path: string -> string, now: int): seq<Op> {
    if live == [] then []
    else
      var e := live[|live| - 1];
      Upserts(live[..|live| - 1], bodies, path, now)
      + [Upsert(e, now)] + (if bodies then [SetBody(e.id, path(e.id))] else [])
  }

  /** The removed ids, as many to a statement as it can bind. */
  function Deletes(removed: seq<string>): seq<Op>
    decreases |removed|
  {
    if removed == [] then []
    else if |removed| <= CHUNK then [Delete(removed)]
    else [Delete(removed[..CHUNK])] + Deletes(removed[CHUNK..])
  }

  function FetchOps(events: seq<Event>, bodies: bool, path: string -> string, now: int): seq<Op> {
    var c := Compacted(events);
    Upserts(Live(c), bodies, path, now) + Deletes(RemovedIds(c))
  }

  /** Every event on its own, in the order in which the server reported them. */
  function ReplayOps(events: seq<Event>, now: int): seq<Op> {
    seq(|events|, i requires 0 <= i < |events| =>
      if events[i].removed then Delete([events[i].id]) else Upsert(events[i], now))
  }

  lemma {:induction false} DeletesEvolve(was: Option<Row>, removed: seq<string>, id: string)
    ensures Evolve(was, Deletes(removed), id) == if id in removed then None else was
    decreases |removed|
  {
    if |removed| > CHUNK {
      var first, rest := removed[..CHUNK], removed[CHUNK..];
      assert removed == first + rest;
      EvolveAppend(was, [Delete(first)], Deletes(rest), id);
      DeletesEvolve(Evolve(was, [Delete(first)], id), rest, id);
      OneOp(was, Delete(first), id);
    } else if removed != [] {
      OneOp(was, Delete(removed), id);
    }
  }

  lemma {:induction false} OneOp(was: Option<Row>, op: Op, id: string)
    ensures Evolve(was, [op], id) == Evolved(was, op, id)
  {
    assert [op][..0] == [];
  }

  /** The row of a live message after its statements. */
  function Settled(was: Option<Row>, e: Event, bodies: bool, path: string -> string, now: int): Row {
    var row := Merged(was, e, now);
    if bodies then row.(maildirPath := Some(path(e.id)), headersOnly := 0) else row
  }

  lemma {:induction false} UpsertsEvolve(was: Option<Row>, live: seq<Event>, bodies: bool, path: string -> string,
      now: int, id: string)
    requires DistinctIds(live)
    ensures var r := Evolve(was, Upserts(live, bodies, path, now), id);
      && (!Mentions(live, id) ==> r == was)
      && (forall e | e in live && e.id == id :: r == Some(Settled(was, e, bodies, path, now)))
  {
    if live != [] {
      var init, last := live[..|live| - 1], live[|live| - 1];
      assert live == init + [last];
      UpsertsEvolve(was, init, bodies, path, now, id);
      var head := Upserts(init, bodies, path, now);
      var tail := [Upsert(last, now)] + (if bodies then [SetBody(last.id, path(last.id))] else []);
      Associate(head, [Upsert(last, now)], if bodies then [SetBody(last.id, path(last.id))] else []);
      EvolveAppend(was, head, tail, id);
      TailEvolves(Evolve(was, head, id), last, bodies, path, now, id);
      assert last.id == id ==> !Mentions(init, id);
    }
  }

  lemma TailEvolves(was: Option<Row>, e: Event, bodies: bool, path: string -> string, now: int, id: string)
    ensures Evolve(was, [Upsert(e, now)] + (if bodies then [SetBody(e.id, path(e.id))] else []), id)
      == if e.id == id then Some(Settled(was, e, bodies, path, now)) else was
  {
    OneOp(was, Upsert(e, now), id);
    if bodies {
      EvolveAppend(was, [Upsert(e, now)], [SetBody(e.id, path(e.id))], id);
      OneOp(Evolve(was, [Upsert(e, now)], id), SetBody(e.id, path(e.id)), id);
    } else {
      assert [Upsert(e, now)] + [] == [Upsert(e, now)];
    }
  }

  /** What a fetch makes of the row of an id. */
  function Fetched(was: Option<Row>, events: seq<Event>, bodies: bool, path: string -> string, now: int, id: string):
    Option<Row>
  {
    match LastEvent(events, id)
    case None => was
    case Some(e) => if e.removed then None else Some(Settled(was, e, bodies, path, now))
  }

  lemma {:induction false} FetchEvolves(was: Option<Row>, events: seq<Event>, bodies: bool, path: string -> string,
      now: int, id: string)
    ensures Evolve(was, FetchOps(events, bodies, path, now), id) == Fetched(was, events, bodies, path, now, id)
  {
    hide Evolve, Upserts, Deletes, Live, RemovedIds, Compacted, LastEvent;
    var c := Compacted(events);
    var live, removed := Live(c), RemovedIds(c);
    PartitionFollowsLastEvent(events, id);
    LastEventIs(events, id);
    LiveIsDistinct(events);
    EvolveAppend(was, Upserts(live, bodies, path, now), Deletes(removed), id);
    UpsertsEvolve(was, live, bodies, path, now, id);
    DeletesEvolve(Evolve(was, Upserts(live, bodies, path, now), id), removed, id);
  }

  lemma {:induction false} LiveIsDistinct(events: seq<Event>)
    ensures DistinctIds(Live(Compacted(events)))
  {
    CompactedKeepsLast(events);
    LiveKeepsDistinct(Compacted(events));
  }

  lemma {:induction false} LiveKeepsDistinct(events: seq<Event>)
    requires DistinctIds(events)
    ensures DistinctIds(Live(events))
  {
    if events != [] {
      var init := events[..|events| - 1];
      LiveKeepsDistinct(init);
      LiveIs(init);
    }
  }

  /** What a replay makes of the row of an id: the last event merged into the old row, or into
      nothing once an event removes the id. */
  lemma {:induction false} ReplayEvolves(was: Option<Row>, events: seq<Event>, now: int, id: string)
    ensures var r := Evolve(was, ReplayOps(events, now), id);
      match LastEvent(events, id)
      case None => r == was && id !in RemovedIds(events)
      case Some(e) =>
        if e.removed then r.None? && id in RemovedIds(events)
        else r == Some(Merged(if id in RemovedIds(events) then None else was, e, now))
  {
    if events != [] {
      var init := events[..|events| - 1];
      ReplayEvolves(was, init, now, id);
      assert ReplayOps(events, now)[..|events| - 1] == ReplayOps(init, now);
    }
  }
}
