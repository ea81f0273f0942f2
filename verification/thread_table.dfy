/**
  What one call of Threader::ingest does to the thread_containers table, and
  what any number of calls keep.
*/
module ThreadTable {
  import opened Common
  import opened Forest
  import opened Subjects

  // `root` is the denormalised root_id; rows are never deleted, so the table's
  // size numbers the next row.
  datatype Container = Container(
    parent: Option<Id>, root: Id, subject: Option<string>, hasMessage: bool, rowid: nat)

  type Table = map<Id, Container>

  /** The arguments of one call, with what its subject query finds in step 5: the
      oldest other root of the same subject and whether that one reads as a reply. */
  datatype Call = Call(
    messageId: Id, inReplyTo: Option<Id>, refs: seq<Id>, subject: Option<string>,
    older: Option<Id>, olderIsReply: bool)

  function Parents(t: Table): Links {
    map a | a in t :: t[a].parent
  }

  ghost predicate Valid(t: Table) {
    IsForest(Parents(t))
  }

  ghost predicate Cached(t: Table)
    requires IsForest(Parents(t))
  {
    forall a | a in t :: t[a].root == RootOf(Parents(t), a)
  }

  // ---- steps 2 to 5: rows and links ----

  function AddMain(t: Table, id: Id, subject: Option<string>): Table {
    if id in t then
      t[id := t[id].(subject := if subject.Some? then subject else t[id].subject, hasMessage := true)]
    else
      t[id := Container(None, id, subject, true, |t|)]
  }

  function AddPlaceholder(t: Table, id: Id): Table {
    if id in t then t else t[id := Container(None, id, None, false, |t|)]
  }

  function AddPlaceholders(t: Table, ids: seq<Id>): Table {
    if ids == [] then t else AddPlaceholder(AddPlaceholders(t, ids[..|ids| - 1]), ids[|ids| - 1])
  }

  /** References in order, then In-Reply-To unless it is one of them. */
  function Chain(refs: seq<Id>, inReplyTo: Option<Id>): seq<Id> {
    if inReplyTo.Some? && inReplyTo.value !in refs then refs + [inReplyTo.value] else refs
  }

  ghost function LinkRow(t: Table, c: Id, q: Id): Table {
    if IsRoot(Parents(t), c) && !Reaches(Parents(t), q, c)
    then t[c := t[c].(parent := Some(q))]
    else t
  }

  /** The first n entries of the chain linked, each below the one before it. */
  ghost function LinkPairs(t: Table, chain: seq<Id>, n: nat): Table
    requires n <= |chain|
  {
    if n <= 1 then t else LinkRow(LinkPairs(t, chain, n - 1), chain[n - 1], chain[n - 2])
  }

  function SameSubjectRoots(t: Table, subject: string, id: Id): set<Id> {
    set a | a in t && t[a].subject == Some(subject) && a != id && t[a].parent.None?
  }

  ghost predicate IsOldest(t: Table, among: set<Id>, a: Id) {
    a in among && a in t && forall b | b in among && b in t :: t[a].rowid <= t[b].rowid
  }

  ghost function Group(t: Table, call: Call): Table {
    if IsRoot(Parents(t), call.messageId) && call.subject.Some?
       && call.older.Some? && call.older.value in t
       && (ReadsAsReply(call.subject.value) || call.olderIsReply)
    then LinkRow(t, call.messageId, call.older.value)
    else t
  }

  function Norm(subject: Option<string>): Option<string> {
    if subject.Some? then Some(Normal(subject.value)) else None
  }

  ghost function LinkChain(t: Table, id: Id, chain: seq<Id>): Table {
    if chain == [] then t else LinkRow(LinkPairs(t, chain, |chain|), id, chain[|chain| - 1])
  }

  function AddRows(t: Table, call: Call): Table {
    AddPlaceholders(AddMain(t, call.messageId, Norm(call.subject)), Chain(call.refs, call.inReplyTo))
  }

  /** The table when the call has made its links and the caches are still to be repaired. */
  ghost function Linked(t: Table, call: Call): Table {
    Group(LinkChain(AddRows(t, call), call.messageId, Chain(call.refs, call.inReplyTo)), call)
  }

  /** Rows keep their number and cached root; a new row's cached root is itself. */
  ghost predicate KeepsRows(t: Table, t': Table) {
    && t.Keys <= t'.Keys
    && (forall a | a in t :: t'[a].rowid == t[a].rowid && t'[a].root == t[a].root)
    && (forall a | a in t' && a !in t :: t'[a].root == a)
  }

  ghost predicate Grows(t: Table, t': Table) {
    Valid(t') && Extends(Parents(t), Parents(t')) && KeepsRows(t, t')
  }

  lemma {:induction false} PlantGrows(t: Table, id: Id, row: Container)
    requires Valid(t)
    requires row.parent == (if id in t then t[id].parent else None)
    requires row.root == (if id in t then t[id].root else id)
    requires row.rowid == (if id in t then t[id].rowid else |t|)
    ensures Grows(t, t[id := row])
  {
    assert Parents(t[id := row]) == Plant(Parents(t), id);
    PlantKeepsForest(Parents(t), id);
  }

  lemma {:induction false} AddPlaceholderGrows(t: Table, id: Id)
    requires Valid(t)
    ensures Grows(t, AddPlaceholder(t, id)) && AddPlaceholder(t, id).Keys == t.Keys + {id}
  {
    if id !in t {
      PlantGrows(t, id, Container(None, id, None, false, |t|));
    }
  }

  lemma {:induction false} AddPlaceholdersGrows(t: Table, ids: seq<Id>)
    requires Valid(t)
    ensures Grows(t, AddPlaceholders(t, ids))
  {
    if ids != [] {
      var t1 := AddPlaceholders(t, ids[..|ids| - 1]);
      AddPlaceholdersGrows(t, ids[..|ids| - 1]);
      AddPlaceholderGrows(t1, ids[|ids| - 1]);
      GrowsTransitive(t, t1, AddPlaceholders(t, ids));
    }
  }

  lemma {:induction false} AddPlaceholdersKeys(t: Table, ids: seq<Id>)
    ensures AddPlaceholders(t, ids).Keys == t.Keys + set a | a in ids
  {
    if ids != [] {
      var rest := ids[..|ids| - 1];
      AddPlaceholdersKeys(t, rest);
      assert ids == rest + [ids[|ids| - 1]];
    }
  }

  lemma {:induction false} LinkRowGrows(t: Table, c: Id, q: Id)
    requires Valid(t) && q in t
    ensures Grows(t, LinkRow(t, c, q)) && LinkRow(t, c, q).Keys == t.Keys
    ensures Parents(LinkRow(t, c, q)) == Link(Parents(t), c, q)
  {
    LinkKeepsForest(Parents(t), c, q);
    if IsRoot(Parents(t), c) && !Reaches(Parents(t), q, c) {
      var row := t[c].(parent := Some(q));
      assert Parents(t[c := row]) == Parents(t)[c := Some(q)];
    }
  }

  lemma {:induction false} GrowsTransitive(t0: Table, t1: Table, t2: Table)
    requires Grows(t0, t1) && Grows(t1, t2)
    ensures Grows(t0, t2)
  {
    assert forall a | a in t0 && t0[a].parent.Some? :: Parents(t1)[a] == Parents(t0)[a];
  }

  lemma {:induction false} LinkPairsGrows(t: Table, chain: seq<Id>, n: nat)
    requires Valid(t) && n <= |chain| && forall a | a in chain :: a in t
    ensures Grows(t, LinkPairs(t, chain, n)) && LinkPairs(t, chain, n).Keys == t.Keys
  {
    if n > 1 {
      LinkPairsGrows(t, chain, n - 1);
      LinkRowGrows(LinkPairs(t, chain, n - 1), chain[n - 1], chain[n - 2]);
    }
  }

  lemma {:induction false} LinkChainGrows(t: Table, id: Id, chain: seq<Id>)
    requires Valid(t) && forall a | a in chain :: a in t
    ensures Grows(t, LinkChain(t, id, chain)) && LinkChain(t, id, chain).Keys == t.Keys
  {
    if chain != [] {
      LinkPairsGrows(t, chain, |chain|);
      LinkRowGrows(LinkPairs(t, chain, |chain|), id, chain[|chain| - 1]);
    }
  }

  lemma {:induction false} GroupGrows(t: Table, call: Call)
    requires Valid(t)
    ensures Grows(t, Group(t, call)) && Group(t, call).Keys == t.Keys
  {
    if call.older.Some? && call.older.value in t {
      LinkRowGrows(t, call.messageId, call.older.value);
    }
  }

  /** Self-references and contradictory chains included, the links stay a forest and
      no parent once set changes; the rows added are the message's and the chain's. */
  lemma {:induction false} LinkedGrows(t: Table, call: Call)
    requires Valid(t)
    ensures Grows(t, Linked(t, call))
    ensures Linked(t, call).Keys
         == t.Keys + {call.messageId} + set a | a in Chain(call.refs, call.inReplyTo)
  {
    hide Extends, KeepsRows, IsForest, Parents, AddRows, LinkChain, Group;
    var chain := Chain(call.refs, call.inReplyTo);
    var t2 := AddRows(t, call);
    AddRowsGrows(t, call);
    var t3 := LinkChain(t2, call.messageId, chain);
    LinkChainGrows(t2, call.messageId, chain);
    GrowsTransitive(t, t2, t3);
    GroupGrows(t3, call);
    GrowsTransitive(t, t3, Linked(t, call));
  }

  lemma {:induction false} AddMainGrows(t: Table, id: Id, subject: Option<string>)
    requires Valid(t)
    ensures Grows(t, AddMain(t, id, subject)) && AddMain(t, id, subject).Keys == t.Keys + {id}
  {
    hide Extends, KeepsRows, IsForest, Parents;
    PlantGrows(t, id, AddMain(t, id, subject)[id]);
  }

  lemma {:induction false} AddRowsGrows(t: Table, call: Call)
    requires Valid(t)
    ensures Grows(t, AddRows(t, call))
    ensures AddRows(t, call).Keys
         == t.Keys + {call.messageId} + set a | a in Chain(call.refs, call.inReplyTo)
  {
    hide Extends, KeepsRows, IsForest, Parents, AddMain, AddPlaceholders, Chain;
    var chain := Chain(call.refs, call.inReplyTo);
    var t1 := AddMain(t, call.messageId, Norm(call.subject));
    AddMainGrows(t, call.messageId, Norm(call.subject));
    AddPlaceholdersGrows(t1, chain);
    AddPlaceholdersKeys(t1, chain);
    GrowsTransitive(t, t1, AddRows(t, call));
  }

  // ---- steps 6 and 7: the cached roots ----

  /** The rows a recursive descent from `seeds` visits. */
  ghost function Below(t: Table, seeds: set<Id>): set<Id> {
    set a | a in t && exists s | s in seeds :: Reaches(Parents(t), a, s)
  }

  function SetRoots(t: Table, ids: set<Id>, root: Id): Table {
    map a | a in t :: if a in ids then t[a].(root := root) else t[a]
  }

  function CachedAs(t: Table, root: Id): set<Id> {
    set a | a in t && t[a].root == root
  }

  /** The first recursive update: everything below the new root. */
  ghost function RelabelTree(t: Table, root: Id): Table {
    SetRoots(t, Below(t, {root}), root)
  }

  ghost function Relabelled(t: Table, id: Id): Table
    requires IsForest(Parents(t)) && id in t
  {
    var root := RootOf(Parents(t), id);
    var was := t[id].root;
    if was == root then t
    else
      var t1 := RelabelTree(t, root);
      SetRoots(t1, Below(t1, CachedAs(t1, was)), root)
  }

  ghost function Ingested(t: Table, call: Call): Table
    requires Valid(t)
  {
    LinkedGrows(t, call);
    Relabelled(Linked(t, call), call.messageId)
  }

  lemma {:induction false} SetRootsKeepsLinks(t: Table, ids: set<Id>, root: Id)
    ensures Parents(SetRoots(t, ids, root)) == Parents(t) && SetRoots(t, ids, root).Keys == t.Keys
  {
  }

  lemma {:induction false} RelabelledKeepsLinks(t: Table, id: Id)
    requires IsForest(Parents(t)) && id in t
    ensures Parents(Relabelled(t, id)) == Parents(t) && Relabelled(t, id).Keys == t.Keys
    ensures forall a | a in t :: Relabelled(t, id)[a] == t[a].(root := Relabelled(t, id)[a].root)
  {
    var root := RootOf(Parents(t), id);
    var t1 := RelabelTree(t, root);
    SetRootsKeepsLinks(t, Below(t, {root}), root);
    SetRootsKeepsLinks(t1, Below(t1, CachedAs(t1, t[id].root)), root);
  }

  /** The descent from a parentless row visits exactly that row's tree. */
  lemma {:induction false} BelowRootIsTree(t: Table, id: Id)
    requires IsForest(Parents(t)) && id in t
    ensures var p := Parents(t);
      Below(t, {RootOf(p, id)}) == set a | a in t && RootOf(p, a) == RootOf(p, id)
  {
    var p := Parents(t);
    var root := RootOf(p, id);
    RootIsUnique(p, id, root);
    forall a | a in t ensures Reaches(p, a, root) <==> RootOf(p, a) == root {
      assert Grounded(p, a);
      RootIsUnique(p, a, root);
    }
    assert forall a | a in t :: (exists s | s in {root} :: Reaches(p, a, s)) <==> Reaches(p, a, root);
  }

  ghost predicate NewlyLinked(t: Table, t': Table, c: Id) {
    c in t' && t'[c].parent.Some? && (c in t ==> t[c].parent.None?)
  }

  /** Every row linked by this call is in the message's tree, and if any was linked the
      message's cached root is not its root any more. */
  ghost predicate Repairable(t: Table, linked: Table, id: Id)
    requires IsForest(Parents(linked)) && id in linked
  {
    var p := Parents(linked);
    && (forall c | NewlyLinked(t, linked, c) :: RootOf(p, c) == RootOf(p, id))
    && ((exists c :: NewlyLinked(t, linked, c)) ==> linked[id].root != RootOf(p, id))
  }

  /** A row's cached root names the old root of its tree, and moves where that root moves. */
  lemma {:induction false} CachedRootMoves(t: Table, t': Table, a: Id)
    requires Valid(t) && Cached(t) && Grows(t, t') && a in t'
    ensures t'[a].root in t' && RootOf(Parents(t'), a) == RootOf(Parents(t'), t'[a].root)
    ensures t'[a].root == RootOf(Parents(t'), a) <==> !NewlyLinked(t, t', t'[a].root)
    ensures t'[t'[a].root].root == t'[a].root
  {
    var p, p' := Parents(t), Parents(t');
    var r := t'[a].root;
    if a in t {
      assert Grounded(p, a) && Grounded(p', a);
      RootsMoveTogether(p, p', a);
      RootIsUnique(p, a, r);
      RootOfRoot(p, r);
    }
    assert Grounded(p', a) && Grounded(p', r);
    RootIsUnique(p', a, RootOf(p', a));
    if t'[r].parent.None? {
      RootOfRoot(p', r);
    }
  }

  /** What the first update leaves as the cached root of a. */
  lemma {:induction false} RelabelTreeRow(t: Table, id: Id, a: Id)
    requires Valid(t) && id in t && a in t
    ensures var p := Parents(t); var root := RootOf(p, id);
      RelabelTree(t, root)[a].root == if RootOf(p, a) == root then root else t[a].root
  {
    BelowRootIsTree(t, id);
  }

  /** Whom the second update starts from. */
  lemma {:induction false} StaleRows(t: Table, id: Id, was: Id)
    requires Valid(t) && id in t && was != RootOf(Parents(t), id)
    ensures var root := RootOf(Parents(t), id);
      forall s :: s in CachedAs(RelabelTree(t, root), was) <==>
        s in t && t[s].root == was && RootOf(Parents(t), s) != root
  {
    hide RelabelTree;
    var root := RootOf(Parents(t), id);
    SetRootsKeepsLinks(t, Below(t, {root}), root);
    assert RelabelTree(t, root).Keys == t.Keys by { TreeKeys(t, root); }
    forall s | s in t
      ensures RelabelTree(t, root)[s].root == was <==> t[s].root == was && RootOf(Parents(t), s) != root
    {
      RelabelTreeRow(t, id, s);
    }
  }

  lemma {:induction false} TreeKeys(t: Table, root: Id)
    ensures RelabelTree(t, root).Keys == t.Keys && Parents(RelabelTree(t, root)) == Parents(t)
  {
    SetRootsKeepsLinks(t, Below(t, {root}), root);
  }

  /**
    What the two updates do to the cached roots of any forest, stale ones included: nothing when the
    message's own was right; else the message's whole tree gets its root, and so does everything below
    a row of another tree that cached the root the message had.
  */
  lemma {:induction false} RelabelledRow(t: Table, id: Id, a: Id)
    requires Valid(t) && id in t && a in t
    ensures a in Relabelled(t, id)
    ensures var p := Parents(t);
      var root, was := RootOf(p, id), t[id].root;
      Relabelled(t, id)[a].root
      == if was != root && (RootOf(p, a) == root
             || exists s | s in t :: t[s].root == was && RootOf(p, s) != root && Reaches(p, a, s))
         then root else t[a].root
  {
    hide RelabelTree, CachedAs, Reaches;
    var p := Parents(t);
    var root, was := RootOf(p, id), t[id].root;
    RelabelledKeepsLinks(t, id);
    TreeKeys(t, root);
    if was != root {
      StaleRows(t, id, was);
      RelabelTreeRow(t, id, a);
    }
  }

  /** After the first update no row caches the old root, so the second changes nothing. */
  lemma {:induction false} SecondUpdateIsIdle(t: Table, t': Table, id: Id)
    requires Valid(t) && Cached(t) && Grows(t, t') && id in t'
    requires t'[id].root != RootOf(Parents(t'), id)
    ensures Relabelled(t', id) == RelabelTree(t', RootOf(Parents(t'), id))
  {
    var root, was := RootOf(Parents(t'), id), t'[id].root;
    var t1 := RelabelTree(t', root);
    forall a | a in t1 ensures t1[a].root != was {
      RelabelTreeRow(t', id, a);
      CachedRootMoves(t, t', a);
      CachedRootMoves(t, t', id);
    }
    assert CachedAs(t1, was) == {};
    assert Below(t1, {}) == {};
    assert SetRoots(t1, {}, root) == t1;
  }

  /** A row's cache is right afterwards iff its old root was not linked, or moved into
      the message's tree while the message's own root changed. */
  lemma {:induction false} RowIsRightIff(t: Table, t': Table, id: Id, a: Id)
    requires Valid(t) && Cached(t) && Grows(t, t') && id in t' && a in t'
    ensures a in Relabelled(t', id)
    ensures var p := Parents(t'); var root := RootOf(p, id);
      Relabelled(t', id)[a].root == RootOf(p, a)
      <==> !NewlyLinked(t, t', t'[a].root) || (t'[id].root != root && RootOf(p, a) == root)
  {
    RelabelledKeepsLinks(t', id);
    CachedRootMoves(t, t', a);
    if t'[id].root != RootOf(Parents(t'), id) {
      SecondUpdateIsIdle(t, t', id);
      RelabelTreeRow(t', id, a);
    }
  }

  lemma {:induction false} RepairedCacheIsRight(t: Table, t': Table, id: Id)
    requires Valid(t) && Cached(t) && Grows(t, t') && id in t' && Repairable(t, t', id)
    ensures Valid(Relabelled(t', id)) && Cached(Relabelled(t', id))
  {
    var p' := Parents(t');
    RelabelledKeepsLinks(t', id);
    forall a | a in Relabelled(t', id) ensures Relabelled(t', id)[a].root == RootOf(p', a) {
      RowIsRightIff(t, t', id, a);
      CachedRootMoves(t, t', a);
    }
  }

  lemma {:induction false} RightCacheWasRepaired(t: Table, t': Table, id: Id, c: Id)
    requires Valid(t) && Cached(t) && Grows(t, t') && id in t' && NewlyLinked(t, t', c)
    requires Valid(Relabelled(t', id)) && Cached(Relabelled(t', id))
    ensures RootOf(Parents(t'), c) == RootOf(Parents(t'), id) && t'[id].root != RootOf(Parents(t'), id)
  {
    RelabelledKeepsLinks(t', id);
    if c in t {
      RootOfRoot(Parents(t), c);
    }
    RowIsRightIff(t, t', id, c);
  }

  /** The caches are right after the call exactly when its links were repairable. */
  lemma {:induction false} CacheIsRightIff(t: Table, call: Call)
    requires Valid(t) && Cached(t)
    ensures Valid(Ingested(t, call)) && Valid(Linked(t, call)) && call.messageId in Linked(t, call)
    ensures Cached(Ingested(t, call)) <==> Repairable(t, Linked(t, call), call.messageId)
  {
    hide Linked, Relabelled, Cached, IsForest, Extends, KeepsRows, Parents;
    var id := call.messageId;
    var t' := Linked(t, call);
    LinkedGrows(t, call);
    RelabelledKeepsLinks(t', id);
    if Repairable(t, t', id) {
      RepairedCacheIsRight(t, t', id);
    }
    if Cached(Ingested(t, call)) {
      forall c | NewlyLinked(t, t', c)
        ensures RootOf(Parents(t'), c) == RootOf(Parents(t'), id) && t'[id].root != RootOf(Parents(t'), id)
      {
        RightCacheWasRepaired(t, t', id, c);
      }
    }
  }
}
