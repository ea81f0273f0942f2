/** What every sequence of ingest calls keeps, and which calls keep the root cache right. */
module ThreadRuns {
  import opened Common
  import opened Forest
  import opened ThreadTable

  lemma {:induction false} IngestedExtends(t: Table, call: Call)
    requires Valid(t)
    ensures Valid(Ingested(t, call)) && Extends(Parents(t), Parents(Ingested(t, call)))
    ensures Ingested(t, call).Keys
         == t.Keys + {call.messageId} + set a | a in Chain(call.refs, call.inReplyTo)
  {
    LinkedGrows(t, call);
    RelabelledKeepsLinks(Linked(t, call), call.messageId);
  }

  /** The table after a sequence of calls on the empty table. */
  ghost function Run(calls: seq<Call>): (t: Table)
    ensures Valid(t)
  {
    if calls == [] then map[]
    else
      var t := Run(calls[..|calls| - 1]);
      IngestedExtends(t, calls[|calls| - 1]);
      Ingested(t, calls[|calls| - 1])
  }

  /** After any run there is no cycle, no dangling parent, and above every container
      exactly one parentless container. */
  lemma {:induction false} RunIsForest(calls: seq<Call>)
    ensures var p := Parents(Run(calls));
      && (forall a, n: nat | n > 0 :: Up(p, a, n) != Some(a))
      && (forall a | a in p && p[a].Some? :: p[a].value in p)
      && (forall a | a in p :: exists r :: Reaches(p, a, r) && IsRoot(p, r)
                                       && forall s | Reaches(p, a, s) && IsRoot(p, s) :: s == r)
  {
    var p := Parents(Run(calls));
    ForestIsAcyclicAndClosed(p);
    forall a | a in p
      ensures exists r :: Reaches(p, a, r) && IsRoot(p, r)
                       && forall s | Reaches(p, a, s) && IsRoot(p, s) :: s == r
    {
      assert Grounded(p, a);
      RootIsUnique(p, a, RootOf(p, a));
      forall s | Reaches(p, a, s) && IsRoot(p, s) ensures s == RootOf(p, a) {
        RootIsUnique(p, a, s);
      }
    }
  }

  lemma {:induction false} SameTreeStays(p: Links, p': Links, a: Id, b: Id)
    requires Extends(p, p') && IsForest(p) && IsForest(p') && a in p && b in p
    requires RootOf(p, a) == RootOf(p, b)
    ensures RootOf(p', a) == RootOf(p', b)
  {
    RootsMoveTogether(p, p', a);
    RootsMoveTogether(p, p', b);
  }

  lemma {:induction false} ExtendsTransitive(p0: Links, p1: Links, p2: Links)
    requires Extends(p0, p1) && Extends(p1, p2)
    ensures Extends(p0, p2)
  {
  }

  lemma {:induction false} NextCallKeepsParents(calls: seq<Call>, call: Call)
    ensures Extends(Parents(Run(calls)), Parents(Run(calls + [call])))
  {
    assert (calls + [call])[..|calls|] == calls;
    IngestedExtends(Run(calls), call);
  }

  /** No later call changes a parent once set. */
  lemma {:induction false} LaterCallsKeepParents(calls: seq<Call>, more: seq<Call>)
    ensures Extends(Parents(Run(calls)), Parents(Run(calls + more)))
    decreases |more|
  {
    if more == [] {
      assert calls + more == calls;
    } else {
      var fewer := calls + more[..|more| - 1];
      LaterCallsKeepParents(calls, more[..|more| - 1]);
      NextCallKeepsParents(fewer, more[|more| - 1]);
      AppendLast(calls, more);
      ExtendsTransitive(Parents(Run(calls)), Parents(Run(fewer)), Parents(Run(calls + more)));
    }
  }

  /** No later call splits a thread. */
  lemma {:induction false} LaterCallsKeepThreads(calls: seq<Call>, more: seq<Call>, a: Id, b: Id)
    requires a in Run(calls) && b in Run(calls)
    requires RootOf(Parents(Run(calls)), a) == RootOf(Parents(Run(calls)), b)
    ensures a in Run(calls + more) && b in Run(calls + more)
    ensures RootOf(Parents(Run(calls + more)), a) == RootOf(Parents(Run(calls + more)), b)
  {
    LaterCallsKeepParents(calls, more);
    SameTreeStays(Parents(Run(calls)), Parents(Run(calls + more)), a, b);
  }

  // ---- a message without a parent ----

  /** Linking the chain gives parents to chain entries only. */
  lemma {:induction false} LinkPairsTouchesChain(t: Table, chain: seq<Id>, n: nat)
    requires Valid(t) && n <= |chain| && (forall a | a in chain :: a in t)
    ensures forall c | NewlyLinked(t, LinkPairs(t, chain, n), c) :: c in chain[..n]
  {
    if n > 1 {
      var t1, c, q := LinkPairs(t, chain, n - 1), chain[n - 1], chain[n - 2];
      LinkPairsTouchesChain(t, chain, n - 1);
      LinkPairsGrows(t, chain, n - 1);
      LinkRowGrows(t1, c, q);
      assert q in chain;
      assert chain[..n] == chain[..n - 1] + [c];
    }
  }

  lemma {:induction false} LinkedEarlier(t: Table, chain: seq<Id>, n: nat) returns (j: nat)
    requires Valid(t) && 1 < n <= |chain| && (forall a | a in chain :: a in t)
    requires t[chain[n - 1]].parent.None?
    requires chain[n - 1] in LinkPairs(t, chain, n - 1)
    requires LinkPairs(t, chain, n - 1)[chain[n - 1]].parent.Some?
    ensures j < n - 1 && chain[j] == chain[n - 1]
  {
    LinkPairsTouchesChain(t, chain, n - 1);
    assert NewlyLinked(t, LinkPairs(t, chain, n - 1), chain[n - 1]);
    j :| 0 <= j < n - 1 && chain[j] == chain[n - 1];
  }

  /** When no entry but the first had a parent, linking gathers the chain in one tree. */
  lemma {:induction false} ChainGathers(t: Table, chain: seq<Id>, n: nat, i: nat)
    requires Valid(t) && i < n <= |chain| && (forall a | a in chain :: a in t)
    requires forall j | 1 <= j < |chain| :: t[chain[j]].parent.None?
    ensures Valid(LinkPairs(t, chain, n)) && chain[i] in LinkPairs(t, chain, n)
    ensures chain[n - 1] in LinkPairs(t, chain, n)
    ensures RootOf(Parents(LinkPairs(t, chain, n)), chain[i])
         == RootOf(Parents(LinkPairs(t, chain, n)), chain[n - 1])
  {
    hide LinkRow, Extends, KeepsRows, IsForest;
    LinkPairsGrows(t, chain, n);
    if n > 1 {
      var t1, c, q := LinkPairs(t, chain, n - 1), chain[n - 1], chain[n - 2];
      LinkPairsGrows(t, chain, n - 1);
      LinkRowGrows(t1, c, q);
      var p1, p2 := Parents(t1), Parents(LinkPairs(t, chain, n));
      if i < n - 1 {
        ChainGathers(t, chain, n - 1, i);
        SameTreeStays(p1, p2, chain[i], q);
      }
      if IsRoot(p1, c) {
        LinkJoins(p1, c, q);
      } else {
        var j := LinkedEarlier(t, chain, n);
        ChainGathers(t, chain, n - 1, j);
        SameTreeStays(p1, p2, c, q);
      }
    }
  }

  /** The tree the chain is gathered in is not the tree of a root outside the chain. */
  lemma {:induction false} ChainAvoids(t: Table, chain: seq<Id>, n: nat, id: Id)
    requires Valid(t) && 1 <= n <= |chain| && (forall a | a in chain :: a in t) && id !in chain
    requires forall j | 1 <= j < |chain| :: t[chain[j]].parent.None?
    requires RootOf(Parents(t), chain[0]) != id
    ensures Valid(LinkPairs(t, chain, n)) && chain[n - 1] in LinkPairs(t, chain, n)
    ensures RootOf(Parents(LinkPairs(t, chain, n)), chain[n - 1]) != id
  {
    hide LinkRow, Extends, KeepsRows, IsForest;
    LinkPairsGrows(t, chain, n);
    if n > 1 {
      var t1, c, q := LinkPairs(t, chain, n - 1), chain[n - 1], chain[n - 2];
      LinkPairsGrows(t, chain, n - 1);
      LinkRowGrows(t1, c, q);
      ChainAvoids(t, chain, n - 1, id);
      if IsRoot(Parents(t1), c) {
        LinkAvoids(Parents(t1), c, q, id);
      } else {
        var j := LinkedEarlier(t, chain, n);
        ChainGathers(t, chain, n - 1, j);
        assert Link(Parents(t1), c, q) == Parents(t1);
      }
    }
  }

  /** Linking c below q gives it q's root. */
  lemma {:induction false} LinkAvoids(p: Links, c: Id, q: Id, id: Id)
    requires IsForest(p) && q in p && IsRoot(p, c) && RootOf(p, q) != id
    ensures IsForest(Link(p, c, q)) && RootOf(Link(p, c, q), c) != id
  {
    hide IsForest;
    var p', r := Link(p, c, q), RootOf(p, q);
    LinkKeepsForest(p, c, q);
    LinkJoins(p, c, q);
    assert Grounded(p, q) by {
      ForestGrounds(p, q);
    }
    RootIsUnique(p, q, r);
    if !Reaches(p, q, c) {
      RootsMoveTogether(p, p', q);
      assert IsRoot(p', r);
      RootOfRoot(p', r);
    }
  }

  lemma {:induction false} ForestGrounds(p: Links, a: Id)
    requires IsForest(p) && a in p
    ensures Grounded(p, a)
  {
  }

  /** A message without a parent keeps the cache right when its chain does not name it, no
      chain entry but the first has a parent, and the first is not in the message's tree. */
  lemma {:induction false} ParentlessMessageIsRepairable(t: Table, call: Call)
    requires Valid(t) && Cached(t)
    requires call.messageId in t ==> t[call.messageId].parent.None?
    requires var chain := Chain(call.refs, call.inReplyTo);
      && call.messageId !in chain
      && (forall i | 1 <= i < |chain| && chain[i] in t :: t[chain[i]].parent.None?)
      && (chain != [] && chain[0] in t ==> t[chain[0]].root != call.messageId)
    ensures Valid(Linked(t, call)) && call.messageId in Linked(t, call)
    ensures Repairable(t, Linked(t, call), call.messageId)
  {
    hide Linked, AddRows, Chain, IsForest, Extends, KeepsRows, Repairable;
    var id, chain := call.messageId, Chain(call.refs, call.inReplyTo);
    var t2, t' := AddRows(t, call), Linked(t, call);
    LinkedGrows(t, call);
    AddedRowsHaveNoParent(t, call);
    if id in t {
      RootOfRoot(Parents(t), id);
    }
    if chain == [] {
      LoneMessageIsRepairable(t, t2, call);
    } else {
      if chain[0] in t {
        AddedRowsKeepRoot(t, t2, chain[0]);
      } else {
        RootOfRoot(Parents(t2), chain[0]);
      }
      GatheredChainIsRepairable(t, t2, call);
    }
  }

  lemma {:induction false} AddedRowsKeepRoot(t: Table, t2: Table, a: Id)
    requires Valid(t) && Grows(t, t2) && a in t && forall c :: !NewlyLinked(t, t2, c)
    ensures RootOf(Parents(t2), a) == RootOf(Parents(t), a)
  {
    var r := RootOf(Parents(t), a);
    assert Grounded(Parents(t), a);
    RootIsUnique(Parents(t), a, r);
    RootsMoveTogether(Parents(t), Parents(t2), a);
    assert !NewlyLinked(t, t2, r);
    RootOfRoot(Parents(t2), r);
  }

  lemma {:induction false} LinkedRootMoved(t: Table, id: Id)
    requires Valid(t) && id in t && t[id].parent.Some?
    ensures RootOf(Parents(t), id) != id
  {
    assert Grounded(Parents(t), id);
    RootIsUnique(Parents(t), id, RootOf(Parents(t), id));
  }

  /** A container that is new, or has no parent and itself as cached root. */
  predicate OwnRoot(t: Table, id: Id) {
    id in t ==> t[id].parent.None? && t[id].root == id
  }

  lemma {:induction false} LoneMessageIsRepairable(t: Table, t2: Table, call: Call)
    requires Valid(t) && t2 == AddRows(t, call) && OwnRoot(t, call.messageId)
    requires Grows(t, t2) && call.messageId in t2
    requires forall c :: !NewlyLinked(t, t2, c)
    requires Chain(call.refs, call.inReplyTo) == []
    ensures Valid(Linked(t, call)) && call.messageId in Linked(t, call)
    ensures Repairable(t, Linked(t, call), call.messageId)
  {
    var t' := Linked(t, call);
    LinkedGrows(t, call);
    assert t' == Group(t2, call);
    forall c | NewlyLinked(t, t', c)
      ensures c == call.messageId && t'[call.messageId].root != RootOf(Parents(t'), call.messageId)
    {
      assert !NewlyLinked(t, t2, c);
      LinkedRootMoved(t', call.messageId);
    }
  }

  lemma {:induction false} PlaceholderRows(t: Table, ids: seq<Id>)
    requires Valid(t)
    ensures forall a | a in t :: a in AddPlaceholders(t, ids) && AddPlaceholders(t, ids)[a] == t[a]
    ensures forall a | a in AddPlaceholders(t, ids) && a !in t :: AddPlaceholders(t, ids)[a].parent.None?
  {
    if ids != [] {
      PlaceholderRows(t, ids[..|ids| - 1]);
    }
  }

  lemma {:induction false} AddedRowsHaveNoParent(t: Table, call: Call)
    requires Valid(t)
    ensures var t2 := AddRows(t, call);
      && Valid(t2) && Grows(t, t2) && call.messageId in t2
      && (forall a | a in Chain(call.refs, call.inReplyTo) :: a in t2)
      && (forall c :: !NewlyLinked(t, t2, c))
      && (forall a | a in t2 && (a in t ==> t[a].parent.None?) :: t2[a].parent.None?)
  {
    hide Extends, KeepsRows, IsForest, Chain, AddMain, AddPlaceholders, Norm;
    var id, chain := call.messageId, Chain(call.refs, call.inReplyTo);
    var t1 := AddMain(t, id, Norm(call.subject));
    AddMainGrows(t, id, Norm(call.subject));
    AddRowsGrows(t, call);
    MainRow(t, id, Norm(call.subject));
    PlaceholderRows(t1, chain);
  }

  lemma {:induction false} MainRow(t: Table, id: Id, subject: Option<string>)
    ensures var t1 := AddMain(t, id, subject);
      && (forall a | a in t :: a in t1 && t1[a].parent == t[a].parent)
      && (forall a | a in t1 && a !in t :: t1[a].parent.None?)
  {
  }

  /** The chain linked: one tree holding every row that was linked, and not the message. */
  lemma {:induction false} GatheredChain(t: Table, chain: seq<Id>, id: Id)
    requires Valid(t) && chain != [] && (forall a | a in chain :: a in t)
    requires forall i | 1 <= i < |chain| :: t[chain[i]].parent.None?
    requires id in t && t[id].parent.None? && id !in chain && RootOf(Parents(t), chain[0]) != id
    ensures var t' := LinkPairs(t, chain, |chain|); var p', last := Parents(t'), chain[|chain| - 1];
      && Valid(t') && last in t'
      && IsRoot(p', id) && !Reaches(p', last, id)
      && forall c | NewlyLinked(t, t', c) :: RootOf(p', c) == RootOf(p', last)
  {
    var t', last := LinkPairs(t, chain, |chain|), chain[|chain| - 1];
    var p' := Parents(t');
    LinkPairsGrows(t, chain, |chain|);
    LinkPairsTouchesChain(t, chain, |chain|);
    assert IsRoot(p', id) by { assert !NewlyLinked(t, t', id); }
    ChainAvoids(t, chain, |chain|, id);
    ForestGrounds(p', last);
    RootIsUnique(p', last, id);
    forall c | NewlyLinked(t, t', c) ensures RootOf(p', c) == RootOf(p', last) {
      var i :| 0 <= i < |chain| && chain[i] == c;
      ChainGathers(t, chain, |chain|, i);
    }
  }

  /** The message linked below its chain: everything newly linked is in its tree. */
  lemma {:induction false} JoinedIsRepairable(t: Table, t2: Table, t3: Table, id: Id, last: Id)
    requires OwnRoot(t, id) && forall c :: !NewlyLinked(t, t2, c)
    requires Grows(t, t2) && Grows(t2, t3) && id in t2 && last in t3
    requires IsRoot(Parents(t3), id) && !Reaches(Parents(t3), last, id)
    requires forall c | NewlyLinked(t2, t3, c) :: RootOf(Parents(t3), c) == RootOf(Parents(t3), last)
    ensures var t4 := LinkRow(t3, id, last);
      Valid(t4) && id in t4 && t4[id].parent.Some? && Repairable(t, t4, id)
  {
    var t4 := LinkRow(t3, id, last);
    LinkRowGrows(t3, id, last);
    var p3, p4 := Parents(t3), Parents(t4);
    LinkJoins(p3, id, last);
    LinkedRootMoved(t4, id);
    forall c | NewlyLinked(t, t4, c) ensures RootOf(p4, c) == RootOf(p4, id) {
      if c != id {
        assert !NewlyLinked(t, t2, c) && NewlyLinked(t2, t3, c);
        SameTreeStays(p3, p4, c, last);
      }
    }
  }

  lemma {:induction false} GatheredChainIsRepairable(t: Table, t2: Table, call: Call)
    requires Valid(t) && t2 == AddRows(t, call) && OwnRoot(t, call.messageId)
    requires Grows(t, t2) && call.messageId in t2 && t2[call.messageId].parent.None?
    requires forall c :: !NewlyLinked(t, t2, c)
    requires var chain := Chain(call.refs, call.inReplyTo);
      && chain != [] && call.messageId !in chain
      && (forall a | a in chain :: a in t2)
      && (forall i | 1 <= i < |chain| :: t2[chain[i]].parent.None?)
      && RootOf(Parents(t2), chain[0]) != call.messageId
    ensures Valid(Linked(t, call)) && call.messageId in Linked(t, call)
    ensures Repairable(t, Linked(t, call), call.messageId)
  {
    hide Extends, KeepsRows, IsForest, AddRows, Chain;
    var id, chain := call.messageId, Chain(call.refs, call.inReplyTo);
    GatheredChain(t2, chain, id);
    LinkPairsGrows(t2, chain, |chain|);
    JoinedIsRepairable(t, t2, LinkPairs(t2, chain, |chain|), id, chain[|chain| - 1]);
    assert Linked(t, call) == LinkChain(t2, id, chain);
  }

  const M := Id("m")
  const Q := Id("q")
  const X := Id("x")

  function ReplyTable(): Table {
    map[M := Container(Some(Q), Q, None, true, 0), Q := Container(None, Q, None, false, 1)]
  }

  function SecondArrival(): Call {
    Call(M, None, [Q, X], None, None, false)
  }

  lemma ReplyTableIsCached()
    ensures Valid(ReplyTable()) && Cached(ReplyTable())
  {
    var p := Parents(ReplyTable());
    assert Up(p, Q, 0) == Some(Q) && Up(p, M, 1) == Up(p, Q, 0);
    assert EndsAt(p, Q, 0) && EndsAt(p, M, 1);
    RootIsUnique(p, Q, Q);
    RootIsUnique(p, M, Q);
  }

  lemma SecondArrivalLinks()
    ensures Linked(ReplyTable(), SecondArrival()) == ReplyTable()[X := Container(Some(Q), X, None, false, 2)]
  {
    var t, call := ReplyTable(), SecondArrival();
    var chain := [Q, X];
    assert Chain(call.refs, call.inReplyTo) == chain;
    var t1 := AddMain(t, M, None);
    assert t1 == t;
    assert chain[..1] == [Q] && [Q][..0] == [];
    assert AddPlaceholders(t, [Q]) == AddPlaceholder(AddPlaceholders(t, []), Q) == t;
    var t2 := AddRows(t, call);
    assert t2 == AddPlaceholder(t, X) == t[X := Container(None, X, None, false, 2)];
    var p2 := Parents(t2);
    assert forall n: nat :: Up(p2, Q, n) != Some(X);
    assert LinkPairs(t2, chain, 2) == LinkRow(t2, X, Q);
  }

  lemma StaleAfterSecondArrival()
    ensures var t' := ReplyTable()[X := Container(Some(Q), X, None, false, 2)];
      && NewlyLinked(ReplyTable(), t', X) && M in t' && t'[M].root == Q
      && Grounded(Parents(t'), M) && RootOf(Parents(t'), M) == Q
  {
    var t' := ReplyTable()[X := Container(Some(Q), X, None, false, 2)];
    var p' := Parents(t');
    assert Up(p', Q, 0) == Some(Q) && Up(p', M, 1) == Up(p', Q, 0);
    assert EndsAt(p', M, 1);
    RootIsUnique(p', M, Q);
  }

  function FirstArrival(): Call {
    Call(M, Some(Q), [], None, None, false)
  }

  function FirstLinked(): Table {
    map[M := Container(Some(Q), M, None, true, 0), Q := Container(None, Q, None, false, 1)]
  }

  lemma FirstArrivalLinks()
    ensures Linked(map[], FirstArrival()) == FirstLinked()
  {
    var t, call := map[], FirstArrival();
    var chain := [Q];
    assert Chain(call.refs, call.inReplyTo) == chain;
    var t1 := AddMain(t, M, None);
    assert t1 == map[M := Container(None, M, None, true, 0)];
    assert chain[..0] == [] && AddPlaceholders(t1, chain) == AddPlaceholder(AddPlaceholders(t1, []), Q);
    var t2 := AddRows(t, call);
    assert t2 == t1[Q := Container(None, Q, None, false, 1)];
    var p2 := Parents(t2);
    assert forall n: nat :: Up(p2, Q, n) != Some(M);
    assert LinkPairs(t2, chain, 1) == t2;
    assert LinkChain(t2, M, chain) == LinkRow(t2, M, Q);
  }

  lemma SameLinks()
    ensures Parents(FirstLinked()) == Parents(ReplyTable())
  {
  }

  lemma FirstTreeRelabelled()
    requires Valid(FirstLinked()) && RootOf(Parents(FirstLinked()), M) == Q
    requires RootOf(Parents(FirstLinked()), Q) == Q
    ensures RelabelTree(FirstLinked(), Q) == ReplyTable()
  {
    hide Below, Parents, IsForest;
    BelowRootIsTree(FirstLinked(), M);
    assert Below(FirstLinked(), {Q}) == {M, Q};
  }

  lemma NothingLeftToRelabel()
    ensures SetRoots(ReplyTable(), Below(ReplyTable(), CachedAs(ReplyTable(), M)), Q) == ReplyTable()
  {
    assert CachedAs(ReplyTable(), M) == {};
    assert Below(ReplyTable(), {}) == {};
  }

  lemma NothingIsValid()
    ensures Valid(map[])
  {
  }

  lemma FirstArrivalRelabels()
    ensures Ingested(map[], FirstArrival()) == ReplyTable()
  {
    hide Linked, Parents, IsForest, RelabelTree, Below, SetRoots, CachedAs, ReplyTable, Grounded;
    FirstArrivalLinks();
    NothingIsValid();
    LinkedGrows(map[], FirstArrival());
    SameLinks();
    RootOfReply();
    FirstTreeRelabelled();
    NothingLeftToRelabel();
  }

  lemma RootOfReply()
    ensures var p := Parents(ReplyTable());
      Grounded(p, M) && RootOf(p, M) == Q && Grounded(p, Q) && RootOf(p, Q) == Q
  {
    var p := Parents(ReplyTable());
    assert Up(p, Q, 0) == Some(Q) && Up(p, M, 1) == Up(p, Q, 0);
    assert EndsAt(p, Q, 0) && EndsAt(p, M, 1);
    RootIsUnique(p, Q, Q);
    RootIsUnique(p, M, Q);
  }

  /** The cache does go wrong: a reply arrives, and arrives again with one more reference; the
      new placeholder keeps itself as cached root. */
  lemma SomeRunLeavesStaleRoot()
    ensures exists calls :: !Cached(Run(calls))
  {
    hide Linked, Ingested, Cached, Parents, IsForest, ReplyTable, Grounded;
    var one, calls := [FirstArrival()], [FirstArrival(), SecondArrival()];
    assert one[..0] == [] && calls[..1] == one;
    assert Run(one) == Ingested(Run([]), FirstArrival());
    FirstArrivalRelabels();
    assert Run(calls) == Ingested(ReplyTable(), SecondArrival());
    ReplyTableIsCached();
    SecondArrivalLinks();
    StaleAfterSecondArrival();
    CacheIsRightIff(ReplyTable(), SecondArrival());
    assert !Cached(Run(calls));
  }
}
