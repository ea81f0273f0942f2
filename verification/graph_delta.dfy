/** Compacting a Microsoft Graph delta to the last event of every message id. */
module GraphDelta {
  import opened Common
  import opened SnapshotRows

  datatype Event = Event(id: string, removed: bool, headers: Headers)

  predicate Mentions(events: seq<Event>, id: string) {
    exists e | e in events :: e.id == id
  }

  /** The last event of the id. */
  function LastEvent(events: seq<Event>, id: string): Option<Event> {
    if events == [] then None
    else
      var last := events[|events| - 1];
      if last.id == id then Some(last) else LastEvent(events[..|events| - 1], id)
  }

  /** The events that no later event of their id follows. */
  function Compacted(events: seq<Event>): seq<Event> {
    if events == [] then []
    else
      var rest := Compacted(events[1..]);
      if Mentions(events[1..], events[0].id) then rest else [events[0]] + rest
  }

  function Live(events: seq<Event>): seq<Event> {
    if events == [] then []
    else
      var last := events[|events| - 1];
      var before := Live(events[..|events| - 1]);
      if last.removed then before else before + [last]
  }

  function RemovedIds(events: seq<Event>): seq<string> {
    if events == [] then []
    else
      var last := events[|events| - 1];
      var before := RemovedIds(events[..|events| - 1]);
      if last.removed then before + [last.id] else before
  }

  function Reversed<T>(s: seq<T>): seq<T> {
    if s == [] then [] else Reversed(s[1..]) + [s[0]]
  }

  method PartitionGraphDelta(messages: seq<Event>) returns (live: seq<Event>, removed: seq<string>)
    ensures live == Live(Compacted(messages)) && removed == RemovedIds(Compacted(messages))
  {
    var seen: set<string> := {};
    var backwards: seq<Event> := [];
    for i := |messages| downto 0
      invariant forall id :: id in seen <==> Mentions(messages[i..], id)
      invariant Reversed(backwards) == Compacted(messages[i..])
    {
      var message := messages[i];
      MentionsFirst(messages, i);
      ReversedAppend(backwards, message);
      if message.id !in seen {
        seen := seen + {message.id};
        backwards := backwards + [message];
      }
    }
    assert messages[0..] == messages;
    var finalMessages := Reversed(backwards);
    live, removed := [], [];
    for i := 0 to |finalMessages|
      invariant live == Live(finalMessages[..i]) && removed == RemovedIds(finalMessages[..i])
    {
      var message := finalMessages[i];
      assert finalMessages[..i + 1][..i] == finalMessages[..i];
      if message.removed {
        removed := removed + [message.id];
      } else {
        live := live + [message];
      }
    }
    assert finalMessages[..|finalMessages|] == finalMessages;
  }

  lemma MentionsFirst(messages: seq<Event>, i: nat)
    requires i < |messages|
    ensures messages[i..] == [messages[i]] + messages[i + 1..] && messages[i..][1..] == messages[i + 1..]
    ensures forall id :: Mentions(messages[i..], id) <==> id == messages[i].id || Mentions(messages[i + 1..], id)
  {
    assert messages[i..] == [messages[i]] + messages[i + 1..];
    assert forall e :: e in messages[i..] <==> e == messages[i] || e in messages[i + 1..];
  }

  lemma {:induction false} ReversedAppend<T>(s: seq<T>, x: T)
    ensures Reversed(s + [x]) == [x] + Reversed(s)
  {
    if s == [] {
      assert (s + [x])[1..] == [];
    } else {
      assert (s + [x])[1..] == s[1..] + [x];
      ReversedAppend(s[1..], x);
    }
  }

  // ---- what compaction keeps ----

  lemma {:induction false} LastEventIs(events: seq<Event>, id: string)
    ensures var r := LastEvent(events, id);
      && (r.Some? <==> Mentions(events, id))
      && (r.Some? ==> r.value in events && r.value.id == id)
  {
    if events != [] {
      LastEventIs(events[..|events| - 1], id);
      assert events == events[..|events| - 1] + [events[|events| - 1]];
    }
  }

  lemma {:induction false} LastEventFirst(e: Event, events: seq<Event>, id: string)
    ensures LastEvent([e] + events, id)
      == if Mentions(events, id) then LastEvent(events, id) else if e.id == id then Some(e) else None
  {
    if events != [] {
      var init, last := events[..|events| - 1], events[|events| - 1];
      assert ([e] + events)[..|events|] == [e] + init;
      assert events == init + [last];
      LastEventFirst(e, init, id);
    }
  }

  predicate DistinctIds(events: seq<Event>) {
    forall i, j | 0 <= i < j < |events| :: events[i].id != events[j].id
  }

  /** Every id keeps its last event and no other. */
  lemma {:induction false} CompactedKeepsLast(events: seq<Event>)
    ensures DistinctIds(Compacted(events))
    ensures forall id :: Mentions(Compacted(events), id) <==> Mentions(events, id)
    ensures forall e :: e in Compacted(events) <==> LastEvent(events, e.id) == Some(e)
  {
    if events != [] {
      var e, rest := events[0], events[1..];
      CompactedKeepsLast(rest);
      assert events == [e] + rest;
      forall id ensures Mentions(Compacted(events), id) <==> Mentions(events, id) {
        assert Mentions(events, id) <==> e.id == id || Mentions(rest, id);
      }
      forall x: Event ensures x in Compacted(events) <==> LastEvent(events, x.id) == Some(x) {
        LastEventFirst(e, rest, x.id);
        LastEventIs(rest, x.id);
      }
    }
  }

  lemma {:induction false} LiveIs(events: seq<Event>)
    ensures forall e :: e in Live(events) <==> e in events && !e.removed
  {
    if events != [] {
      LiveIs(events[..|events| - 1]);
      assert events == events[..|events| - 1] + [events[|events| - 1]];
    }
  }

  lemma {:induction false} RemovedIdsAre(events: seq<Event>)
    ensures forall id :: id in RemovedIds(events) <==> exists e | e in events :: e.removed && e.id == id
  {
    if events != [] {
      RemovedIdsAre(events[..|events| - 1]);
      assert events == events[..|events| - 1] + [events[|events| - 1]];
    }
  }

  /** An id is live or removed as its last event says, never both. */
  lemma {:induction false} PartitionFollowsLastEvent(events: seq<Event>, id: string)
    ensures var live, removed := Live(Compacted(events)), RemovedIds(Compacted(events));
      match LastEvent(events, id)
      case None => !Mentions(live, id) && id !in removed
      case Some(e) =>
        && (e.removed ==> !Mentions(live, id) && id in removed)
        && (!e.removed ==> e in live && id !in removed && forall x | x in live && x.id == id :: x == e)
  {
    LastEventIs(events, id);
    CompactedKeepsLast(events);
    LiveIs(Compacted(events));
    RemovedIdsAre(Compacted(events));
  }
}
