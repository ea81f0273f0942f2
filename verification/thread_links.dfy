/** Which parents one call gives, and what it does to the other columns: from its arguments alone. */
module ThreadLinks {
  import opened Common
  import opened Forest
  import opened Subjects
  import opened ThreadTable
  import opened ThreadRuns

  /**
    The call asks for c below q: c is the reference behind q, or the In-Reply-To behind the last
    reference, or the message behind both. A container named twice counts where it is named first.
  */
  predicate Follows(call: Call, q: Id, c: Id) {
    var refs, irt := call.refs, call.inReplyTo;
    || (exists i | 0 < i < |refs| :: refs[i] == c && refs[i - 1] == q && c !in refs[..i])
    || (c !in refs && irt == Some(c) && refs != [] && q == refs[|refs| - 1])
    || (c !in refs && irt != Some(c) && c == call.messageId
        && if irt.Some? && irt.value !in refs then q == irt.value else refs != [] && q == refs[|refs| - 1])
  }

  /** The containers a call names. */
  predicate Names(call: Call, c: Id) {
    c == call.messageId || c in call.refs || call.inReplyTo == Some(c)
  }

  predicate Free(t: Table, c: Id) {
    c in t ==> t[c].parent.None?
  }

  // ---- one link ----

  lemma {:induction false} ReachesStays(p: Links, p': Links, a: Id, b: Id)
    requires Extends(p, p') && Reaches(p, a, b)
    ensures Reaches(p', a, b)
  {
    var n: nat :| Up(p, a, n) == Some(b);
    ExtendsKeepsClimb(p, p', a, n);
  }

  /** What a link left shows for good: the child is below the parent, or above it. */
  lemma {:induction false} LinkShows(t1: Table, t': Table, c: Id, q: Id)
    requires Valid(t1) && Valid(t') && c in t1 && q in t1 && t1[c].parent.None?
    requires Grows(LinkRow(t1, c, q), t')
    ensures c in t' && (t'[c].parent == Some(q) <==> !Reaches(Parents(t'), q, c))
  {
    var p', p2 := Parents(t'), Parents(LinkRow(t1, c, q));
    LinkRowGrows(t1, c, q);
    if Reaches(Parents(t1), q, c) {
      ReachesStays(Parents(t1), p', q, c);
    }
    if t'[c].parent == Some(q) && Reaches(p', q, c) {
      var n: nat :| Up(p', q, n) == Some(c);
      assert Up(p', c, n + 1) == Some(c);
      ForestIsAcyclicAndClosed(p');
    }
  }

  lemma {:induction false} PairShows(t: Table, t': Table, chain: seq<Id>, n: nat)
    requires Valid(t) && 1 < n <= |chain| && (forall a | a in chain :: a in t)
    requires chain[n - 1] !in chain[..n - 1] && t[chain[n - 1]].parent.None?
    requires Valid(t') && Grows(LinkPairs(t, chain, n), t')
    ensures var c, q := chain[n - 1], chain[n - 2];
      c in t' && (t'[c].parent == Some(q) <==> !Reaches(Parents(t'), q, c))
  {
    var t1, c, q := LinkPairs(t, chain, n - 1), chain[n - 1], chain[n - 2];
    LinkPairsGrows(t, chain, n - 1);
    LinkPairsTouchesChain(t, chain, n - 1);
    assert q in chain && c in chain;
    assert !NewlyLinked(t, t1, c);
    LinkShows(t1, t', c, q);
  }

  lemma {:induction false} MorePairsGrow(t: Table, chain: seq<Id>, n: nat, m: nat)
    requires Valid(t) && n <= m <= |chain| && (forall a | a in chain :: a in t)
    ensures Valid(LinkPairs(t, chain, n)) && Grows(LinkPairs(t, chain, n), LinkPairs(t, chain, m))
  {
    hide IsForest, Extends, KeepsRows, LinkRow, Parents;
    LinkPairsGrows(t, chain, n);
    GrowsItself(LinkPairs(t, chain, n));
    if n < m {
      MorePairsGrow(t, chain, n, m - 1);
      LinkPairsGrows(t, chain, m - 1);
      if m > 1 {
        LinkRowGrows(LinkPairs(t, chain, m - 1), chain[m - 1], chain[m - 2]);
        GrowsTransitive(LinkPairs(t, chain, n), LinkPairs(t, chain, m - 1), LinkPairs(t, chain, m));
      }
    }
  }

  // ---- the whole call ----

  /** Where the call's chain has c behind q. */
  lemma FollowsInChain(call: Call, q: Id, c: Id) returns (n: nat)
    requires Follows(call, q, c)
    ensures var chain := Chain(call.refs, call.inReplyTo);
      if c == call.messageId && c !in chain then n == |chain| > 0 && chain[n - 1] == q
      else 1 < n <= |chain| && chain[n - 1] == c && chain[n - 2] == q && c !in chain[..n - 1]
  {
    var refs, irt := call.refs, call.inReplyTo;
    var chain := Chain(refs, irt);
    if c in refs {
      var i :| 0 < i < |refs| && refs[i] == c && refs[i - 1] == q && c !in refs[..i];
      assert chain[..i] == refs[..i];
      n := i + 1;
    } else if irt == Some(c) {
      assert chain[..|refs|] == refs;
      n := |chain|;
    } else {
      n := |chain|;
    }
  }

  /** A container without a parent gets the one the call asks for, unless that is below it: with the
      links of the chain made, and in every later table. */
  lemma {:induction false} AskedForShows(t: Table, call: Call, t': Table, q: Id, c: Id)
    requires Valid(t) && Follows(call, q, c) && Free(t, c)
    requires Valid(t') && Grows(LinkChain(AddRows(t, call), call.messageId, Chain(call.refs, call.inReplyTo)), t')
    ensures c in t' && (t'[c].parent == Some(q) <==> !Reaches(Parents(t'), q, c))
  {
    hide AddRows, Chain, IsForest, Extends, KeepsRows, LinkRow, Reaches, Follows;
    var id, chain := call.messageId, Chain(call.refs, call.inReplyTo);
    var t2 := AddRows(t, call);
    var n := FollowsInChain(call, q, c);
    AddedRowsHaveNoParent(t, call);
    ChainFromRows(t2, id, chain);
    var t1, t3 := LinkPairs(t2, chain, |chain|), LinkChain(t2, id, chain);
    LinkPairsGrows(t2, chain, |chain|);
    GrowsTransitive(t1, t3, t');
    if c == id && c !in chain {
      LinkPairsTouchesChain(t2, chain, |chain|);
      assert !NewlyLinked(t2, t1, c);
      assert q in chain;
      LinkShows(t1, t', c, q);
    } else {
      MorePairsGrow(t2, chain, n, |chain|);
      GrowsTransitive(LinkPairs(t2, chain, n), t1, t');
      assert c in chain;
      PairShows(t2, t', chain, n);
    }
  }

  lemma {:induction false} ChainFromRows(t: Table, id: Id, chain: seq<Id>)
    requires Valid(t) && id in t && forall a | a in chain :: a in t
    ensures var t1 := LinkPairs(t, chain, |chain|);
      && Valid(t1) && Grows(t1, LinkChain(t, id, chain))
      && (chain != [] ==> LinkRow(t1, id, chain[|chain| - 1]) == LinkChain(t, id, chain))
  {
    hide IsForest, Extends, KeepsRows, LinkRow, LinkPairs, Parents;
    var t1 := LinkPairs(t, chain, |chain|);
    LinkPairsGrows(t, chain, |chain|);
    GrowsItself(t1);
    if chain == [] {
      NoPairs(t, chain);
    } else {
      LinkRowGrows(t1, id, chain[|chain| - 1]);
    }
  }

  /** So it is after the whole call. */
  lemma {:induction false} ParentIsAskedFor(t: Table, call: Call, q: Id, c: Id)
    requires Valid(t) && Follows(call, q, c) && Free(t, c)
    ensures var t' := Ingested(t, call);
      c in t' && (t'[c].parent == Some(q) <==> !Reaches(Parents(t'), q, c))
  {
    hide Linked, AddRows, Chain, IsForest, Extends, KeepsRows, LinkRow, Relabelled, Reaches, Follows, Group, LinkChain;
    var id, t' := call.messageId, Linked(t, call);
    var t3 := LinkChain(AddRows(t, call), id, Chain(call.refs, call.inReplyTo));
    LinkedGrows(t, call);
    RelabelledKeepsLinks(t', id);
    AddedRowsHaveNoParent(t, call);
    LinkChainGrows(AddRows(t, call), id, Chain(call.refs, call.inReplyTo));
    GroupGrows(t3, call);
    LinkedIsGrouped(t, call);
    AskedForShows(t, call, t', q, c);
    assert Parents(Ingested(t, call))[c] == Parents(t')[c];
  }

  lemma {:induction false} NoPairs(t: Table, chain: seq<Id>)
    requires chain == []
    ensures LinkPairs(t, chain, 0) == t
  {
  }

  // ---- a chain of containers without parents ----

  /** The chain and the message behind it. */
  function Line(call: Call): seq<Id> {
    Chain(call.refs, call.inReplyTo) + [call.messageId]
  }

  /** Where the line starts. */
  function First(call: Call): Id {
    if call.refs != [] then call.refs[0]
    else if call.inReplyTo.Some? then call.inReplyTo.value else call.messageId
  }

  /**
    The call names no container twice, none but the first has a parent, and the first is not in the
    tree of another one: nothing keeps the call from making all its links.
  */
  ghost predicate Unhindered(t: Table, call: Call)
    requires Valid(t)
  {
    && (forall i, j | 0 <= i < j < |call.refs| :: call.refs[i] != call.refs[j])
    && call.messageId !in call.refs && call.inReplyTo != Some(call.messageId)
    && (forall c | Names(call, c) && c != First(call) :: Free(t, c))
    && (First(call) in t ==>
          var r := RootOf(Parents(t), First(call));
          Names(call, r) ==> r == First(call))
  }

  lemma LineIs(call: Call)
    ensures forall c :: c in Line(call) <==> Names(call, c)
    ensures Line(call)[0] == First(call)
    ensures (forall i, j | 0 <= i < j < |call.refs| :: call.refs[i] != call.refs[j])
      && call.messageId !in call.refs && call.inReplyTo != Some(call.messageId)
      ==> forall i, j | 0 <= i < j < |Line(call)| :: Line(call)[i] != Line(call)[j]
  {
    var chain := Chain(call.refs, call.inReplyTo);
    assert forall c :: c in chain <==> c in call.refs || call.inReplyTo == Some(c);
  }

  lemma {:induction false} PairsLinkNext(t: Table, chain: seq<Id>, n: nat)
    requires Valid(t) && n <= |chain| && (forall a | a in chain :: a in t)
    ensures var t1 := LinkPairs(t, chain, n);
      forall c | NewlyLinked(t, t1, c) :: exists i | 0 < i < n :: chain[i] == c && t1[c].parent == Some(chain[i - 1])
  {
    if n > 1 {
      var t0, t1 := LinkPairs(t, chain, n - 1), LinkPairs(t, chain, n);
      PairsLinkNext(t, chain, n - 1);
      LinkPairsGrows(t, chain, n - 1);
      assert chain[n - 2] in chain;
      LinkRowGrows(t0, chain[n - 1], chain[n - 2]);
      forall c | NewlyLinked(t, t1, c)
        ensures exists i | 0 < i < n :: chain[i] == c && t1[c].parent == Some(chain[i - 1])
      {
        if NewlyLinked(t, t0, c) {
          var i :| 0 < i < n - 1 && chain[i] == c && t0[c].parent == Some(chain[i - 1]);
          assert t1[c].parent == t0[c].parent;
        } else {
          assert c == chain[n - 1] && t1[c].parent == Some(chain[n - 2]);
        }
      }
    }
  }

  lemma {:induction false} ChainLinksNext(t: Table, call: Call)
    requires Valid(t) && call.messageId in t && forall a | a in Chain(call.refs, call.inReplyTo) :: a in t
    ensures var line := Line(call);
      var t3 := LinkChain(t, call.messageId, Chain(call.refs, call.inReplyTo));
      forall c | NewlyLinked(t, t3, c) :: exists i | 0 < i < |line| :: line[i] == c && t3[c].parent == Some(line[i - 1])
  {
    hide Chain, IsForest, KeepsRows, LinkPairs;
    var chain, line := Chain(call.refs, call.inReplyTo), Line(call);
    var t1, t3 := LinkPairs(t, chain, |chain|), LinkChain(t, call.messageId, chain);
    PairsLinkNext(t, chain, |chain|);
    LinkPairsGrows(t, chain, |chain|);
    if chain != [] {
      LinkRowGrows(t1, call.messageId, chain[|chain| - 1]);
    }
    forall c | NewlyLinked(t, t3, c)
      ensures exists i | 0 < i < |line| :: line[i] == c && t3[c].parent == Some(line[i - 1])
    {
      if NewlyLinked(t, t1, c) {
        var i :| 0 < i < |chain| && chain[i] == c && t1[c].parent == Some(chain[i - 1]);
        assert line[i] == c && line[i - 1] == chain[i - 1] && t3[c].parent == t1[c].parent;
      } else {
        assert line[|chain|] == c && t3[c].parent == Some(line[|chain| - 1]);
      }
    }
  }

  lemma {:induction false} LineShows(t: Table, call: Call, i: nat)
    requires Valid(t) && call.messageId in t && forall a | a in Chain(call.refs, call.inReplyTo) :: a in t
    requires 0 < i < |Line(call)| && t[Line(call)[i]].parent.None? && Line(call)[i] !in Line(call)[..i]
    ensures var t3 := LinkChain(t, call.messageId, Chain(call.refs, call.inReplyTo));
      var c, q := Line(call)[i], Line(call)[i - 1];
      c in t3 && (t3[c].parent == Some(q) <==> !Reaches(Parents(t3), q, c))
  {
    hide LinkRow, IsForest, Extends, KeepsRows, Reaches, Chain;
    var id, chain := call.messageId, Chain(call.refs, call.inReplyTo);
    var t1, t3 := LinkPairs(t, chain, |chain|), LinkChain(t, id, chain);
    var c := Line(call)[i];
    assert chain[|chain| - 1] in chain;
    LinkPairsGrows(t, chain, |chain|);
    LinkRowGrows(t1, id, chain[|chain| - 1]);
    LinkChainGrows(t, id, chain);
    assert Line(call)[..|chain|] == chain;
    if i == |chain| {
      LinkPairsTouchesChain(t, chain, |chain|);
      assert chain[..|chain|] == chain;
      assert !NewlyLinked(t, t1, c);
      GrowsItself(t3);
      LinkShows(t1, t3, c, chain[i - 1]);
    } else {
      MorePairsGrow(t, chain, i + 1, |chain|);
      GrowsTransitive(LinkPairs(t, chain, i + 1), t1, t3);
      assert Line(call)[..i] == chain[..i];
      PairShows(t, t3, chain, i + 1);
    }
  }

  lemma {:induction false} GrowsItself(t: Table)
    requires Valid(t)
    ensures Grows(t, t)
  {
  }

  /** The root the line starts under stays a root, and everything in the line comes below it. */
  lemma {:induction false} LineIsLinked(t: Table, call: Call, r: Id, i: nat)
    requires Valid(t) && call.messageId in t && (forall a | a in Chain(call.refs, call.inReplyTo) :: a in t)
    requires forall j, k | 0 <= j < k < |Line(call)| :: Line(call)[j] != Line(call)[k]
    requires forall j | 0 < j < |Line(call)| :: t[Line(call)[j]].parent.None?
    requires r == RootOf(Parents(t), Line(call)[0]) && r !in Line(call)[1..] && i < |Line(call)|
    ensures var t3 := LinkChain(t, call.messageId, Chain(call.refs, call.inReplyTo));
      && Valid(t3) && Line(call)[i] in t3 && RootOf(Parents(t3), Line(call)[i]) == r
      && (i > 0 ==> t3[Line(call)[i]].parent == Some(Line(call)[i - 1]))
  {
    hide LinkChain, Chain, Line, IsForest, Extends, KeepsRows, Parents;
    var id, line := call.messageId, Line(call);
    var t3 := LinkChain(t, id, Chain(call.refs, call.inReplyTo));
    LinkChainGrows(t, id, Chain(call.refs, call.inReplyTo));
    LineInTable(t, call);
    var p, p3 := Parents(t), Parents(t3);
    if i == 0 {
      FirstRootStays(t, t3, call, r);
    } else {
      var c, q := line[i], line[i - 1];
      LineIsLinked(t, call, r, i - 1);
      LineShows(t, call, i);
      OnlyNext(t, call, i);
      ForestGrounds(p3, q);
      assert c in line[1..] by {
        assert line[1..][i - 1] == c;
      }
      if t3[c].parent.None? {
        RootBelow(t3, q, c);
      }
      OneLinkUp(t3, c, q);
    }
  }

  lemma {:induction false} OnlyNext(t: Table, call: Call, i: nat)
    requires Valid(t) && call.messageId in t && (forall a | a in Chain(call.refs, call.inReplyTo) :: a in t)
    requires forall j, k | 0 <= j < k < |Line(call)| :: Line(call)[j] != Line(call)[k]
    requires 0 < i < |Line(call)| && t[Line(call)[i]].parent.None?
    ensures var t3 := LinkChain(t, call.messageId, Chain(call.refs, call.inReplyTo));
      Line(call)[i] in t3 && t3[Line(call)[i]].parent in {None, Some(Line(call)[i - 1])}
  {
    hide LinkChain, Chain, Line;
    var t3, c := LinkChain(t, call.messageId, Chain(call.refs, call.inReplyTo)), Line(call)[i];
    LinkChainGrows(t, call.messageId, Chain(call.refs, call.inReplyTo));
    ChainLinksNext(t, call);
    LineInTable(t, call);
    if NewlyLinked(t, t3, c) {
      var j :| 0 < j < |Line(call)| && Line(call)[j] == c && t3[c].parent == Some(Line(call)[j - 1]);
    }
  }

  lemma LineInTable(t: Table, call: Call)
    requires call.messageId in t && forall a | a in Chain(call.refs, call.inReplyTo) :: a in t
    ensures forall a | a in Line(call) :: a in t
    ensures Line(call) != []
  {
  }

  lemma {:induction false} FirstRootStays(t: Table, t3: Table, call: Call, r: Id)
    requires t3 == LinkChain(t, call.messageId, Chain(call.refs, call.inReplyTo)) && Valid(t) && Grows(t, t3)
    requires call.messageId in t && (forall a | a in Chain(call.refs, call.inReplyTo) :: a in t)
    requires Line(call) != []
    requires Line(call)[0] in t && r == RootOf(Parents(t), Line(call)[0]) && r !in Line(call)[1..]
    ensures Line(call)[0] in t3 && RootOf(Parents(t3), Line(call)[0]) == r
  {
    hide LinkChain, Chain, Line;
    var a := Line(call)[0];
    ChainLinksNext(t, call);
    assert Grounded(Parents(t), a);
    RootIsUnique(Parents(t), a, r);
    forall j | 0 < j < |Line(call)| ensures Line(call)[j] in Line(call)[1..] {
      assert Line(call)[1..][j - 1] == Line(call)[j];
    }
    RootsMoveTogether(Parents(t), Parents(t3), a);
    RootOfRoot(Parents(t3), r);
  }

  lemma {:induction false} RootBelow(t: Table, q: Id, c: Id)
    requires Valid(t) && q in t && c in t && t[c].parent.None? && Reaches(Parents(t), q, c)
    requires Grounded(Parents(t), q)
    ensures RootOf(Parents(t), q) == c
  {
    RootIsUnique(Parents(t), q, c);
  }

  lemma {:induction false} OneLinkUp(t: Table, c: Id, q: Id)
    requires Valid(t) && c in t && q in t && t[c].parent == Some(q)
    ensures Grounded(Parents(t), c) && Grounded(Parents(t), q) && RootOf(Parents(t), c) == RootOf(Parents(t), q)
  {
    var p := Parents(t);
    ForestGrounds(p, c);
    ForestGrounds(p, q);
    assert Up(p, q, 0) == Some(q) && Up(p, c, 1) == Up(p, q, 0);
    RootAbove(p, c, 1);
  }

  /** Nothing hindering it, the call makes every link it asks for, and no other. */
  lemma {:induction false} ParentsFollow(t: Table, call: Call, q: Id, c: Id)
    requires Valid(t) && Unhindered(t, call) && Follows(call, q, c)
    ensures c in Ingested(t, call) && Ingested(t, call)[c].parent == Some(q)
  {
    hide Linked, AddRows, Chain, Extends, KeepsRows, Relabelled, Line, LinkChain, Group;
    var id, chain, line := call.messageId, Chain(call.refs, call.inReplyTo), Line(call);
    var t2 := AddRows(t, call);
    AddedRowsHaveNoParent(t, call);
    LineIs(call);
    LineInTable(t2, call);
    UnhinderedRows(t, call);
    var r := RootOf(Parents(t2), line[0]);
    var n := FollowsInLine(call, q, c);
    LineIsLinked(t2, call, r, n);
    LinkedGrows(t, call);
    RelabelledKeepsLinks(Linked(t, call), id);
    var t3 := LinkChain(t2, id, chain);
    LinkChainGrows(t2, id, chain);
    GroupGrows(t3, call);
    LinkedIsGrouped(t, call);
    assert Extends(Parents(t3), Parents(Ingested(t, call)));
    ExtendedParent(t3, Ingested(t, call), c);
  }

  lemma LinkedIsGrouped(t: Table, call: Call)
    ensures Linked(t, call)
         == Group(LinkChain(AddRows(t, call), call.messageId, Chain(call.refs, call.inReplyTo)), call)
  {
  }

  lemma {:induction false} ExtendedParent(t: Table, t': Table, c: Id)
    requires Extends(Parents(t), Parents(t')) && c in t && t[c].parent.Some?
    ensures c in t' && t'[c].parent == t[c].parent
  {
    assert Parents(t)[c] == t[c].parent;
    assert c in Parents(t') && Parents(t')[c] == t'[c].parent;
  }

  lemma FollowsInLine(call: Call, q: Id, c: Id) returns (n: nat)
    requires Follows(call, q, c)
    ensures 0 < n < |Line(call)| && Line(call)[n] == c && Line(call)[n - 1] == q
  {
    n := FollowsInChain(call, q, c);
    if c in Chain(call.refs, call.inReplyTo) || c != call.messageId {
      n := n - 1;
    }
  }

  lemma {:induction false} UnhinderedRows(t: Table, call: Call)
    requires Valid(t) && Unhindered(t, call) && Valid(AddRows(t, call))
    requires forall a | a in Line(call) :: a in AddRows(t, call)
    ensures var t2, line := AddRows(t, call), Line(call);
      && (forall j | 0 < j < |line| :: t2[line[j]].parent.None?)
      && line[0] in t2 && RootOf(Parents(t2), line[0]) !in line[1..]
  {
    hide AddRows, Line, IsForest;
    var t2, line := AddRows(t, call), Line(call);
    LineIs(call);
    AddedRowsHaveNoParent(t, call);
    forall j | 0 < j < |line| ensures t2[line[j]].parent.None? {
      assert line[j] in line && line[j] != line[0];
      assert Free(t, line[j]);
    }
    var a := line[0];
    if a in t {
      AddedRowsKeepRoot(t, t2, a);
    } else {
      RootOfRoot(Parents(t2), a);
    }
    assert forall x | x in line[1..] :: x in line && x != a;
  }

  /** A call gives parents to the containers it names and to no other. */
  lemma {:induction false} OthersKeepParent(t: Table, call: Call, a: Id)
    requires Valid(t) && a in t && !Names(call, a)
    ensures a in Ingested(t, call) && Ingested(t, call)[a].parent == t[a].parent
  {
    hide Linked, AddRows, Chain, Relabelled, Line, LinkChain, IsForest, LinkRow;
    var id, t2, t' := call.messageId, AddRows(t, call), Linked(t, call);
    var t3 := LinkChain(t2, id, Chain(call.refs, call.inReplyTo));
    AddedRowsHaveNoParent(t, call);
    LinkChainGrows(t2, id, Chain(call.refs, call.inReplyTo));
    LinkedGrows(t, call);
    RelabelledKeepsLinks(t', id);
    ChainLinksNext(t2, call);
    LineIs(call);
    LinkedIsGrouped(t, call);
    if call.older.Some? && call.older.value in t3 {
      LinkRowGrows(t3, id, call.older.value);
    }
    assert !NewlyLinked(t, t2, a) && (NewlyLinked(t2, t3, a) ==> a in Line(call));
    assert Parents(t')[a] == t'[a].parent && Parents(t3)[a] == t3[a].parent;
  }

  // ---- step 5: a message that names nobody ----

  /** A message without references joins the older root of its subject when one of the two reads as
      a reply, unless it is above that one; else it keeps the parent it had. */
  lemma {:induction false} LoneMessageJoinsIff(t: Table, call: Call)
    requires Valid(t) && call.refs == [] && call.inReplyTo.None?
    requires call.older.Some? ==> call.older.value in t
    ensures var t', id := Ingested(t, call), call.messageId;
      && id in t'
      && (!Free(t, id) ==> t'[id].parent == t[id].parent)
      && (Free(t, id) ==>
            && t'[id].parent in {None, call.older}
            && (t'[id].parent.Some? <==>
                  && call.subject.Some? && call.older.Some?
                  && (ReadsAsReply(call.subject.value) || call.olderIsReply)
                  && !Reaches(Parents(t'), call.older.value, id)))
  {
    hide AddRows, Relabelled, IsForest, Extends, KeepsRows, LinkRow;
    var id, t2, t' := call.messageId, AddRows(t, call), Linked(t, call);
    AddedRowsHaveNoParent(t, call);
    LinkedGrows(t, call);
    RelabelledKeepsLinks(t', id);
    assert t' == Group(t2, call);
    assert !NewlyLinked(t, t2, id);
    assert Parents(Ingested(t, call)) == Parents(t');
    assert Parents(t')[id] == Parents(Ingested(t, call))[id];
    if !Free(t, id) {
      ExtendedParent(t, Ingested(t, call), id);
    } else if call.older.Some? && t' == LinkRow(t2, id, call.older.value) {
      LinkRowGrows(t2, id, call.older.value);
      GrowsItself(t');
      LinkShows(t2, t', id, call.older.value);
      LinkRowParent(t2, id, call.older.value);
    }
  }

  lemma LinkRowParent(t: Table, c: Id, q: Id)
    requires c in t && t[c].parent.None?
    ensures LinkRow(t, c, q)[c].parent in {None, Some(q)}
  {
  }

  // ---- the other columns ----

  /** Rows are numbered as they come. */
  predicate Numbered(t: Table) {
    && (forall a | a in t :: t[a].rowid < |t|)
    && (forall a, b | a in t && b in t && t[a].rowid == t[b].rowid :: a == b)
  }

  lemma {:induction false} PlaceholderColumns(t: Table, ids: seq<Id>)
    ensures var t' := AddPlaceholders(t, ids);
      && (forall a | a in t' :: if a in t then t'[a] == t[a]
                                else t'[a].subject.None? && !t'[a].hasMessage && t'[a].rowid >= |t|)
      && t.Keys <= t'.Keys && |t| <= |t'| && (Numbered(t) ==> Numbered(t'))
  {
    if ids != [] {
      var t1, c := AddPlaceholders(t, ids[..|ids| - 1]), ids[|ids| - 1];
      PlaceholderColumns(t, ids[..|ids| - 1]);
      if c !in t1 {
        AddedToEnd(t1, c, Container(None, c, None, false, |t1|));
      }
    }
  }

  lemma {:induction false} AddedToEnd(t: Table, c: Id, row: Container)
    requires c !in t && row.rowid == |t|
    ensures |t[c := row]| == |t| + 1 && (Numbered(t) ==> Numbered(t[c := row]))
  {
    assert t[c := row].Keys == t.Keys + {c};
  }

  lemma {:induction false} SameColumns(t: Table, t': Table)
    requires t.Keys == t'.Keys
    requires forall a | a in t :: t'[a] == t[a].(parent := t'[a].parent, root := t'[a].root)
    ensures |t| == |t'| && (Numbered(t) ==> Numbered(t'))
  {
  }

  lemma {:induction false} LinkRowColumns(t: Table, c: Id, q: Id)
    ensures var t' := LinkRow(t, c, q);
      t'.Keys == t.Keys && forall a | a in t :: t'[a] == t[a].(parent := t'[a].parent)
  {
  }

  lemma {:induction false} LinkPairsColumns(t: Table, chain: seq<Id>, n: nat)
    requires n <= |chain|
    ensures var t' := LinkPairs(t, chain, n);
      t'.Keys == t.Keys && forall a | a in t :: t'[a] == t[a].(parent := t'[a].parent)
  {
    hide LinkRow;
    if n > 1 {
      LinkPairsColumns(t, chain, n - 1);
      LinkRowColumns(LinkPairs(t, chain, n - 1), chain[n - 1], chain[n - 2]);
    }
  }

  lemma {:induction false} LinkedColumns(t: Table, call: Call)
    ensures var t2, t' := AddRows(t, call), Linked(t, call);
      t'.Keys == t2.Keys && forall a | a in t2 :: t'[a] == t2[a].(parent := t'[a].parent)
  {
    hide LinkRow, AddRows, Chain, LinkPairs;
    var id, t2, chain := call.messageId, AddRows(t, call), Chain(call.refs, call.inReplyTo);
    var t1, t3 := LinkPairs(t2, chain, |chain|), LinkChain(t2, call.messageId, chain);
    LinkPairsColumns(t2, chain, |chain|);
    if chain != [] {
      LinkRowColumns(t1, id, chain[|chain| - 1]);
    }
    if call.older.Some? {
      LinkRowColumns(t3, id, call.older.value);
    }
  }

  /** The columns of a row that the call's arguments and the row before it give. */
  predicate Columns(t: Table, call: Call, a: Id, row: Container) {
    if a == call.messageId then
      && row.hasMessage
      && (call.subject.Some? ==> row.subject == Some(Normal(call.subject.value)))
      && (call.subject.None? ==> row.subject == if a in t then t[a].subject else None)
      && row.rowid == if a in t then t[a].rowid else |t|
    else if a in t then
      row.hasMessage == t[a].hasMessage && row.subject == t[a].subject && row.rowid == t[a].rowid
    else
      !row.hasMessage && row.subject.None? && row.rowid >= |t| + if call.messageId in t then 0 else 1
  }

  lemma {:induction false} RowColumns(t: Table, call: Call, a: Id)
    requires a in AddRows(t, call)
    ensures Numbered(t) ==> Numbered(AddRows(t, call))
    ensures Columns(t, call, a, AddRows(t, call)[a])
  {
    hide AddPlaceholders, Chain, Normal, Numbered;
    var id, norm := call.messageId, Norm(call.subject);
    var t1 := AddMain(t, id, norm);
    PlaceholderColumns(t1, Chain(call.refs, call.inReplyTo));
    if id in t {
      assert t1.Keys == t.Keys;
      SameColumnsButSubject(t, t1);
    } else {
      AddedToEnd(t, id, Container(None, id, norm, true, |t|));
    }
  }

  lemma {:induction false} SameColumnsButSubject(t: Table, t': Table)
    requires t.Keys == t'.Keys && forall a | a in t :: t'[a].rowid == t[a].rowid
    ensures |t| == |t'| && (Numbered(t) ==> Numbered(t'))
  {
  }

  /**
    The message's row has a message and, if it came with a subject, that subject's normal form.
    Other rows keep theirs, new ones have none. New rows are numbered behind the old ones, the
    message's before its references'.
  */
  lemma {:induction false} CallColumns(t: Table, call: Call, a: Id)
    requires Valid(t) && a in Ingested(t, call)
    ensures Numbered(t) ==> Numbered(Ingested(t, call))
    ensures Columns(t, call, a, Ingested(t, call)[a])
  {
    hide Linked, Relabelled, IsForest, AddRows, Chain, Normal, Numbered, Parents, Extends, KeepsRows;
    LinkedGrows(t, call);
    LinkedColumns(t, call);
    RelabelledKeepsLinks(Linked(t, call), call.messageId);
    SameColumns(AddRows(t, call), Linked(t, call));
    SameColumns(Linked(t, call), Ingested(t, call));
    RowColumns(t, call, a);
  }
}
