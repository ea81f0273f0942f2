/** The Graph fetch command, statement by statement, against a store that may fail. */
module GraphStore {
  import opened Common
  import opened SnapshotRows
  import opened GraphDelta
  import opened GraphRows

  class Store {
    var messages: Messages
    var deltaLink: Option<string>
    var lastSync: Option<int>
    // How many more statements succeed.
    var budget: nat
    const uidOf: string -> int

    constructor (uidOf: string -> int, budget: nat)
      ensures this.uidOf == uidOf && this.budget == budget
      ensures messages == map[] && deltaLink.None? && lastSync.None?
    {
      this.uidOf := uidOf;
      this.budget := budget;
      messages := map[];
      deltaLink, lastSync := None, None;
    }

    /** One statement on the message table. */
    method Execute(op: Op) returns (ok: bool)
      modifies this
      ensures ok == (old(budget) > 0) && deltaLink == old(deltaLink) && lastSync == old(lastSync)
      ensures messages == if ok then Apply(old(messages), op, uidOf) else old(messages)
      ensures budget == if ok then old(budget) - 1 else 0
    {
      if budget == 0 {
        return false;
      }
      budget := budget - 1;
      ok := true;
      match op
      case Upsert(e, now) =>
        var k := At(e.id, uidOf);
        messages := messages[k := Merged(Get(messages, k), e, now)];
      case SetBody(id, path) =>
        var k := At(id, uidOf);
        if k in messages {
          messages := messages[k := messages[k].(maildirPath := Some(path), headersOnly := 0)];
        }
      case Delete(ids) =>
        messages := map k | k in messages
          && !(k.folder == INBOX && messages[k].providerId.Some? && messages[k].providerId.value in ids) :: messages[k];
    }

    /** The live messages and then the removed ids; stops at the first statement that fails. */
    method Process(live: seq<Event>, removed: seq<string>, bodies: bool, path: string -> string, now: int)
      returns (indexed: Option<nat>)
      modifies this
      ensures deltaLink == old(deltaLink) && lastSync == old(lastSync)
      ensures var ops := Upserts(live, bodies, path, now) + Deletes(removed);
        var steps := if old(budget) < |ops| then old(budget) else |ops|;
        && messages == Run(old(messages), ops[..steps], uidOf) && budget == old(budget) - steps
        && indexed == if old(budget) < |ops| then None else Some(|live|)
    {
      hide Run, Apply, Upserts, Deletes;
      ghost var ops := Upserts(live, bodies, path, now) + Deletes(removed);
      ghost var done: seq<Op> := [];
      NothingRun(messages, bodies, path, now);
      for i := 0 to |live|
        invariant done == Upserts(live[..i], bodies, path, now) && |done| <= old(budget)
        invariant budget == old(budget) - |done| && messages == Run(old(messages), done, uidOf)
        invariant deltaLink == old(deltaLink) && lastSync == old(lastSync)
      {
        var m := live[i];
        UpsertsNext(live, i, bodies, path, now);
        UpsertsPrefix(live, i + 1, bodies, path, now);
        PrefixOf(done, ops);
        var ok := Execute(Upsert(m, now));
        if !ok {
          return None;
        }
        RunNext(old(messages), done, Upsert(m, now), uidOf);
        done := done + [Upsert(m, now)];
        if bodies {
          PrefixOf(done, ops);
          ok := Execute(SetBody(m.id, path(m.id)));
          if !ok {
            return None;
          }
          RunNext(old(messages), done, SetBody(m.id, path(m.id)), uidOf);
          done := done + [SetBody(m.id, path(m.id))];
        }
      }
      assert live[..|live|] == live;
      var rest := removed;
      while rest != []
        invariant done + Deletes(rest) == ops && |done| <= old(budget)
        invariant budget == old(budget) - |done| && messages == Run(old(messages), done, uidOf)
        invariant deltaLink == old(deltaLink) && lastSync == old(lastSync)
        decreases |rest|
      {
        var ids := if |rest| <= CHUNK then rest else rest[..CHUNK];
        DeletesFirst(rest, ids);
        PrefixOf(done, ops);
        var ok := Execute(Delete(ids));
        if !ok {
          assert |ops| > |done|;
          return None;
        }
        RunNext(old(messages), done, Delete(ids), uidOf);
        Associate(done, [Delete(ids)], Deletes(rest[|ids|..]));
        done := done + [Delete(ids)];
        rest := rest[|ids|..];
      }
      NoDeletes();
      assert done + [] == done && ops[..|ops|] == ops;
      return Some(|live|);
    }

    method PersistDeltaLink(link: string, now: int, processing: Option<nat>) returns (r: Option<nat>)
      modifies this
      ensures messages == old(messages)
      ensures deltaLink == if processing.Some? && old(budget) > 0 then Some(link) else old(deltaLink)
      ensures lastSync == if processing.Some? && old(budget) > 1 then Some(now) else old(lastSync)
      ensures r == if old(budget) > 1 then processing else None
    {
      if processing.None? || budget == 0 {
        return None;
      }
      budget := budget - 1;
      deltaLink := Some(link);
      if budget == 0 {
        return None;
      }
      budget := budget - 1;
      lastSync := Some(now);
      return processing;
    }

    /** The link moves on exactly when every statement on the messages has been executed. */
    method Fetch(events: seq<Event>, link: string, bodies: bool, path: string -> string, now: int, syncedAt: int)
      returns (indexed: Option<nat>)
      modifies this
      ensures var ops := FetchOps(events, bodies, path, now);
        var steps := if old(budget) < |ops| then old(budget) else |ops|;
        && messages == Run(old(messages), ops[..steps], uidOf)
        && deltaLink == (if old(budget) > |ops| then Some(link) else old(deltaLink))
        && lastSync == (if old(budget) > |ops| + 1 then Some(syncedAt) else old(lastSync))
        && indexed == if old(budget) > |ops| + 1 then Some(|Live(Compacted(events))|) else None
    {
      hide Run, Upserts, Deletes;
      var live, removed := PartitionGraphDelta(events);
      var processing := Process(live, removed, bodies, path, now);
      indexed := PersistDeltaLink(link, syncedAt, processing);
    }
  }

  lemma {:induction false} NothingRun(m: Messages, bodies: bool, path: string -> string, now: int)
    ensures forall u: string -> int :: Run(m, [], u) == m
    ensures Upserts([], bodies, path, now) == []
  {
  }

  lemma NoDeletes()
    ensures Deletes([]) == []
  {
  }

  lemma {:induction false} RunNext(m: Messages, done: seq<Op>, op: Op, uidOf: string -> int)
    ensures Run(m, done + [op], uidOf) == Apply(Run(m, done, uidOf), op, uidOf)
  {
    assert (done + [op])[..|done|] == done;
  }

  lemma PrefixOf(done: seq<Op>, ops: seq<Op>)
    requires done <= ops
    ensures ops[..|done|] == done
  {
  }

  lemma {:induction false} UpsertsNext(live: seq<Event>, i: nat, bodies: bool, path: string -> string, now: int)
    requires i < |live|
    ensures Upserts(live[..i + 1], bodies, path, now)
      == Upserts(live[..i], bodies, path, now) + [Upsert(live[i], now)]
         + (if bodies then [SetBody(live[i].id, path(live[i].id))] else [])
  {
    assert live[..i + 1][..i] == live[..i];
  }

  lemma {:induction false} UpsertsPrefix(live: seq<Event>, i: nat, bodies: bool, path: string -> string, now: int)
    requires i <= |live|
    ensures Upserts(live[..i], bodies, path, now) <= Upserts(live, bodies, path, now)
    decreases |live| - i
  {
    if i == |live| {
      assert live[..i] == live;
    } else {
      UpsertsPrefix(live, i + 1, bodies, path, now);
      UpsertsNext(live, i, bodies, path, now);
    }
  }

  lemma {:induction false} DeletesFirst(rest: seq<string>, ids: seq<string>)
    requires rest != [] && ids == if |rest| <= CHUNK then rest else rest[..CHUNK]
    ensures Deletes(rest) == [Delete(ids)] + Deletes(rest[|ids|..])
  {
    assert |rest| <= CHUNK ==> rest[|ids|..] == [];
  }
}
