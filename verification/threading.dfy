/** The threader: ingest over the container and message tables, and Store::set_threading. */
module Threading {
  import opened Common
  import opened Text
  import opened Forest
  import opened ThreadTable
  import opened ThreadRuns
  import opened ThreadLinks
  import opened Subjects

  datatype RowKey = RowKey(folder: string, uid: int, uidvalidity: int)

  // The columns of `messages` that threading reads or writes.
  datatype MessageRow = MessageRow(
    messageId: Option<Id>, subject: Option<string>,
    inReplyTo: Option<Id>, refs: Option<string>, threadId: Option<Id>)

  type Messages = map<RowKey, MessageRow>

  datatype Error = ThreadRoot(start: Id)

  /** s is what the left join of container a with the messages may report as subject. */
  ghost predicate JoinsTo(m: Messages, a: Id, s: Option<string>) {
    || (exists k | k in m :: m[k].messageId == Some(a) && m[k].subject == s)
    || (s.None? && forall k | k in m :: m[k].messageId != Some(a))
  }

  /** The call's `older` and `olderIsReply` are what the subject query finds in step 5. */
  ghost predicate Observed(t: Table, m: Messages, call: Call) {
    var linked := LinkChain(AddRows(t, call), call.messageId, Chain(call.refs, call.inReplyTo));
    IsRoot(Parents(linked), call.messageId) && call.subject.Some? ==>
      var among := SameSubjectRoots(linked, Normal(call.subject.value), call.messageId);
      && (call.older.None? ==> among == {})
      && (call.older.Some? ==>
            && IsOldest(linked, among, call.older.value)
            && exists s :: JoinsTo(m, call.older.value, s)
                        && call.olderIsReply == (s.Some? && ReadsAsReply(s.value)))
  }

  /** Step 8: rows whose container caches this root get it as thread id. */
  function Rethread(m: Messages, t: Table, root: Id): Messages {
    map k | k in m ::
      if m[k].messageId.Some? && m[k].messageId.value in t && t[m[k].messageId.value].root == root
      then m[k].(threadId := Some(root))
      else m[k]
  }

  /** Every threaded row with a message id carries the root of that id's tree. */
  ghost predicate ThreadIdsRight(t: Table, m: Messages)
    requires Valid(t)
  {
    forall k | k in m && m[k].messageId.Some? && m[k].threadId.Some? ::
      && m[k].messageId.value in t
      && m[k].threadId.value == RootOf(Parents(t), m[k].messageId.value)
  }

  function JoinRefs(refs: seq<Id>): string {
    if refs == [] then ""
    else if |refs| == 1 then refs[0].text
    else refs[0].text + "\n" + JoinRefs(refs[1..])
  }

  /** A message without an id is threaded under a synthetic one. */
  function MessageIdOr(messageId: Option<Id>, key: RowKey): Id {
    if messageId.Some? then messageId.value
    else Id(key.folder + "/" + Decimal(key.uid) + "/" + Decimal(key.uidvalidity))
  }

  function Texts(ids: seq<Id>): seq<string> {
    seq(|ids|, i requires 0 <= i < |ids| => ids[i].text)
  }

  /** References joined by line ends come apart again. */
  lemma {:induction false} RefsComeApart(refs: seq<Id>)
    requires refs != [] && forall a | a in refs :: IsLine(a.text)
    ensures Lines(JoinRefs(refs)) == Texts(refs)
  {
    if |refs| == 1 {
      LinesOfLine(refs[0].text);
    } else {
      RefsComeApart(refs[1..]);
      LinesCons(refs[0].text, JoinRefs(refs[1..]));
      assert Texts(refs) == [refs[0].text] + Texts(refs[1..]);
    }
  }

  /** Rows without a message id are threaded under different ids. */
  lemma SyntheticIdsDiffer(a: RowKey, b: RowKey)
    requires MessageIdOr(None, a) == MessageIdOr(None, b)
    ensures a == b
  {
    var x, y := Decimal(a.uid) + "/" + Decimal(a.uidvalidity), Decimal(b.uid) + "/" + Decimal(b.uidvalidity);
    assert MessageIdOr(None, a).text == a.folder + "/" + Decimal(a.uid) + "/" + Decimal(a.uidvalidity);
    DecimalHasNoSlash(a.uid);
    DecimalHasNoSlash(b.uid);
    DecimalHasNoSlash(a.uidvalidity);
    DecimalHasNoSlash(b.uidvalidity);
    LastSlash(a.folder + "/" + Decimal(a.uid), Decimal(a.uidvalidity),
              b.folder + "/" + Decimal(b.uid), Decimal(b.uidvalidity));
    LastSlash(a.folder, Decimal(a.uid), b.folder, Decimal(b.uid));
    DecimalIsInjective(a.uid, b.uid);
    DecimalIsInjective(a.uidvalidity, b.uidvalidity);
  }

  lemma {:induction false} LastSlash(a: string, x: string, b: string, y: string)
    requires '/' !in x && '/' !in y && a + "/" + x == b + "/" + y
    ensures a == b && x == y
  {
    var s := a + "/" + x;
    assert s[|a|] == '/' && s[|b|] == '/';
    assert forall i | |a| < i < |s| :: s[i] == x[i - |a| - 1] && s[i] in x;
    assert forall i | |b| < i < |s| :: s[i] == y[i - |b| - 1] && s[i] in y;
    assert |a| == |b|;
    assert s[..|a|] == a && s[..|b|] == b && s[|a| + 1..] == x && s[|b| + 1..] == y;
  }

  lemma {:induction false} DecimalHasNoSlash(n: int)
    ensures '/' !in Decimal(n) && Decimal(n) != "" && (n >= 0 ==> Decimal(n)[0] != '-')
    decreases n < 0, if n < 0 then -n else n
  {
    if n < 0 {
      DecimalHasNoSlash(-n);
    } else if n >= 10 {
      DecimalHasNoSlash(n / 10);
    }
  }

  lemma {:induction false} DecimalIsInjective(a: int, b: int)
    ensures Decimal(a) == Decimal(b) <==> a == b
    decreases a < 0 || b < 0, if a < 0 then -a else a
  {
    DecimalHasNoSlash(a);
    DecimalHasNoSlash(b);
    if a < 0 && b < 0 {
      assert Decimal(a)[1..] == Decimal(-a) && Decimal(b)[1..] == Decimal(-b);
      DecimalIsInjective(-a, -b);
    } else if a >= 10 && b >= 10 {
      DecimalIsInjective(a / 10, b / 10);
      assert Decimal(a)[..|Decimal(a)| - 1] == Decimal(a / 10) && Decimal(b)[..|Decimal(b)| - 1] == Decimal(b / 10);
      assert Decimal(a)[|Decimal(a)| - 1] == Digit(a % 10) && Decimal(b)[|Decimal(b)| - 1] == Digit(b % 10);
    } else if a >= 10 {
      DecimalHasNoSlash(a / 10);
    } else if b >= 10 {
      DecimalHasNoSlash(b / 10);
    }
  }

  function Completed(m: Messages, key: RowKey, inReplyTo: Option<Id>, refs: seq<Id>, root: Id): Messages {
    if key !in m then m
    else
      var joined := if refs == [] then None else Some(JoinRefs(refs));
      m[key := m[key].(inReplyTo := inReplyTo, refs := joined, threadId := Some(root))]
  }

  lemma {:induction false} RethreadedIdsAreRight(t: Table, m: Messages, call: Call)
    requires Valid(t) && Cached(t) && ThreadIdsRight(t, m)
    requires Valid(Linked(t, call)) && call.messageId in Linked(t, call)
    requires Repairable(t, Linked(t, call), call.messageId)
    ensures var t' := Ingested(t, call);
      && Valid(t') && call.messageId in t' && Cached(t')
      && ThreadIdsRight(t', Rethread(m, t', RootOf(Parents(t'), call.messageId)))
  {
    hide Linked, Relabelled, IsForest, Extends, KeepsRows, Repairable;
    var t', id := Ingested(t, call), call.messageId;
    CacheIsRightIff(t, call);
    LinkedGrows(t, call);
    RelabelledKeepsLinks(Linked(t, call), id);
    var p, p' := Parents(t), Parents(t');
    var root := RootOf(p', id);
    var m' := Rethread(m, t', root);
    forall k | k in m' && m'[k].messageId.Some? && m'[k].threadId.Some?
      ensures m'[k].messageId.value in t' && m'[k].threadId.value == RootOf(p', m'[k].messageId.value)
    {
      var a := m[k].messageId.value;
      if !(a in t' && t'[a].root == root) {
        assert m'[k] == m[k];
        RootStays(t, call, a);
      }
    }
  }

  /** When the cached roots stay right so do the thread ids, the completed row's included
      if its own message id, should it have one, is the one threaded. */
  lemma {:induction false} ThreadIdsStayRight(t: Table, m: Messages, call: Call, key: RowKey)
    requires key in m ==> m[key].messageId.None? || m[key].messageId == Some(call.messageId)
    requires Valid(t) && Cached(t) && ThreadIdsRight(t, m)
    requires Valid(Linked(t, call)) && call.messageId in Linked(t, call)
    requires Repairable(t, Linked(t, call), call.messageId)
    ensures var t' := Ingested(t, call);
      && Valid(t') && call.messageId in t' && Cached(t')
      && var root := RootOf(Parents(t'), call.messageId);
         ThreadIdsRight(t', Completed(Rethread(m, t', root), key, call.inReplyTo, call.refs, root))
  {
    hide Ingested, Linked, Cached, Repairable, IsForest, Parents;
    RethreadedIdsAreRight(t, m, call);
  }

  /** A row outside the message's tree has the root it had. */
  lemma {:induction false} RootStays(t: Table, call: Call, a: Id)
    requires Valid(t) && Valid(Linked(t, call)) && call.messageId in Linked(t, call)
    requires Repairable(t, Linked(t, call), call.messageId) && a in t
    ensures a in Linked(t, call)
    ensures var p' := Parents(Linked(t, call));
      RootOf(p', a) != RootOf(p', call.messageId) ==> RootOf(p', a) == RootOf(Parents(t), a)
  {
    var t' := Linked(t, call);
    LinkedGrows(t, call);
    var r := RootOf(Parents(t), a);
    assert Grounded(Parents(t), a);
    RootIsUnique(Parents(t), a, r);
    RootsMoveTogether(Parents(t), Parents(t'), a);
    if t'[r].parent.None? {
      RootOfRoot(Parents(t'), r);
    } else {
      assert NewlyLinked(t, t', r);
    }
  }

  // ---- lemmas for the two recursive queries ----

  /** Once a climb revisits a container it only revisits. */
  lemma {:induction false} Lasso(p: Links, a: Id, k: nat, n: nat, m: nat) returns (j: nat)
    requires k < n && Up(p, a, k) == Up(p, a, n) && Up(p, a, n).Some?
    ensures j < n && Up(p, a, j) == Up(p, a, m)
    decreases m
  {
    if m < n {
      j := m;
    } else {
      UpStep(p, a, n, m - n);
      UpStep(p, a, k, m - n);
      j := Lasso(p, a, k, n, k + m - n);
    }
  }

  lemma {:induction false} PastTheRoot(p: Links, a: Id, n: nat, m: nat)
    requires n <= m && Up(p, a, n).None?
    ensures Up(p, a, m).None?
    decreases n
  {
    if n > 0 && a in p && p[a].Some? {
      PastTheRoot(p, p[a].value, n - 1, m - 1);
    }
  }

  /** A finite forest has a height: no climb is longer. */
  lemma {:induction false} Height(p: Links, among: set<Id>) returns (h: nat)
    requires IsForest(p) && among <= p.Keys
    ensures forall a | a in among :: Up(p, a, h).None?
    decreases among
  {
    h := 0;
    if among != {} {
      var a :| a in among;
      var g := Height(p, among - {a});
      assert Grounded(p, a);
      var n: nat :| EndsAt(p, a, n);
      UpStep(p, a, n, 1);
      h := if g < n + 1 then n + 1 else g;
      forall b | b in among ensures Up(p, b, h).None? {
        PastTheRoot(p, b, if b == a then n + 1 else g, h);
      }
    }
  }

  /** The rows exactly n links below a seed, and those fewer than n links below. */
  ghost function Level(t: Table, seeds: set<Id>, n: nat): set<Id> {
    set a | a in t && Up(Parents(t), a, n).Some? && Up(Parents(t), a, n).value in seeds
  }

  ghost function Levels(t: Table, seeds: set<Id>, n: nat): set<Id> {
    if n == 0 then {} else Levels(t, seeds, n - 1) + Level(t, seeds, n - 1)
  }

  lemma {:induction false} NextLevel(t: Table, seeds: set<Id>, n: nat)
    ensures Level(t, seeds, n + 1)
         == set a | a in t && t[a].parent.Some? && t[a].parent.value in Level(t, seeds, n)
  {
    var p := Parents(t);
    forall a | a in t && t[a].parent.Some?
      ensures a in Level(t, seeds, n + 1) <==> t[a].parent.value in Level(t, seeds, n)
    {
      assert Up(p, a, n + 1) == Up(p, t[a].parent.value, n);
    }
  }

  lemma {:induction false} LevelsEnd(t: Table, seeds: set<Id>, h: nat, n: nat)
    requires forall a | a in t :: Up(Parents(t), a, h).None?
    ensures h <= n ==> Level(t, seeds, n) == {}
  {
    if h <= n {
      forall a | a in t ensures Up(Parents(t), a, n).None? {
        PastTheRoot(Parents(t), a, h, n);
      }
    }
  }

  lemma {:induction false} InLevels(t: Table, seeds: set<Id>, n: nat, a: Id)
    ensures a in Levels(t, seeds, n) <==> exists k: nat | k < n :: a in Level(t, seeds, k)
  {
    if n > 0 {
      InLevels(t, seeds, n - 1, a);
    }
  }

  /** Below an empty level there is nothing. */
  lemma {:induction false} EmptyLevel(t: Table, seeds: set<Id>, n: nat, m: nat)
    requires Level(t, seeds, n) == {} && n <= m
    ensures Level(t, seeds, m) == {}
  {
    if n < m {
      EmptyLevel(t, seeds, n, m - 1);
      NextLevel(t, seeds, m - 1);
    }
  }

  lemma {:induction false} LevelsAreBelow(t: Table, seeds: set<Id>, n: nat)
    requires Level(t, seeds, n) == {}
    ensures Levels(t, seeds, n) == Below(t, seeds)
  {
    var p := Parents(t);
    forall a ensures a in Levels(t, seeds, n) <==> a in Below(t, seeds) {
      InLevels(t, seeds, n, a);
      if k: nat :| k < n && a in Level(t, seeds, k) {
        assert Reaches(p, a, Up(p, a, k).value);
      }
      if s :| s in seeds && a in t && Reaches(p, a, s) {
        var m: nat :| Up(p, a, m) == Some(s);
        assert a in Level(t, seeds, m);
        if n <= m {
          EmptyLevel(t, seeds, n, m);
        }
      }
    }
  }

  lemma {:induction false} ChainIsAsked(t: Table, call: Call)
    requires Valid(t)
    ensures var t3 := LinkChain(AddRows(t, call), call.messageId, Chain(call.refs, call.inReplyTo));
      forall q, c | Follows(call, q, c) && Free(t, c) ::
        c in t3 && (t3[c].parent == Some(q) <==> !Reaches(Parents(t3), q, c))
  {
    hide LinkChain, AddRows, Chain, Follows, Reaches, IsForest, Extends, KeepsRows;
    var t3 := LinkChain(AddRows(t, call), call.messageId, Chain(call.refs, call.inReplyTo));
    AddedRowsHaveNoParent(t, call);
    LinkChainGrows(AddRows(t, call), call.messageId, Chain(call.refs, call.inReplyTo));
    GrowsItself(t3);
    forall q, c | Follows(call, q, c) && Free(t, c)
      ensures c in t3 && (t3[c].parent == Some(q) <==> !Reaches(Parents(t3), q, c))
    {
      AskedForShows(t, call, t3, q, c);
    }
  }

  class Threader {
    var containers: Table
    var messages: Messages
    const batchSize: nat

    constructor (batchSize: nat)
      ensures this.batchSize == batchSize && containers == map[] && messages == map[]
    {
      this.batchSize := batchSize;
      containers, messages := map[], map[];
    }

    /** The ids the upward recursive query collects; UNION drops a row seen before. */
    method Ancestors(start: Id) returns (ids: set<Id>)
      ensures forall b :: b in ids <==> Reaches(Parents(containers), start, b)
    {
      ghost var p := Parents(containers);
      ghost var n: nat := 0;
      ids := {};
      var row := if start in containers then Some(start) else None;
      while row.Some? && row.value !in ids
        invariant row == Up(p, start, n) && (row.Some? ==> row.value in containers)
        invariant ids <= containers.Keys
        invariant forall b :: b in ids <==> exists k: nat | k < n :: Up(p, start, k) == Some(b)
        decreases containers.Keys - ids
      {
        UpStep(p, start, n, 1);
        ids := ids + {row.value};
        var parent := containers[row.value].parent;
        row := if parent.Some? && parent.value in containers then parent else None;
        n := n + 1;
      }
      forall b | Reaches(p, start, b) ensures b in ids {
        var m: nat :| Up(p, start, m) == Some(b);
        if row.Some? {
          var k: nat :| k < n && Up(p, start, k) == row;
          var _ := Lasso(p, start, k, n, m);
        } else if m >= n {
          PastTheRoot(p, start, n, m);
        }
      }
    }

    method WouldCreateCycle(node: Id, proposedParent: Id) returns (hit: bool)
      ensures hit == Reaches(Parents(containers), proposedParent, node)
    {
      var ids := Ancestors(proposedParent);
      hit := node in ids;
    }

    /** Succeeds exactly when some parentless container is above start, and returns one. */
    method FindRoot(start: Id) returns (r: Result<Id, Error>)
      ensures var p := Parents(containers);
        && (r.Ok? ==> Reaches(p, start, r.value) && IsRoot(p, r.value))
        && (r.Err? ==> r.error == ThreadRoot(start) && !Grounded(p, start))
    {
      var ids := Ancestors(start);
      var roots := set a | a in ids && a in containers && containers[a].parent.None?;
      if roots == {} {
        assert forall a | a in ids && a in containers && containers[a].parent.None? :: a in roots;
        assert forall n: nat | EndsAt(Parents(containers), start, n) ::
            Reaches(Parents(containers), start, Up(Parents(containers), start, n).value);
        return Err(ThreadRoot(start));
      }
      var root :| root in roots;
      return Ok(root);
    }

    /** The ids the downward recursive query collects level by level. UNION ALL keeps
        repeats, so that it ends is the forest's doing. */
    method Subtree(seeds: set<Id>) returns (ids: set<Id>)
      requires Valid(containers)
      ensures ids == Below(containers, seeds)
    {
      ghost var h := Height(Parents(containers), containers.Keys);
      ghost var n: nat := 0;
      var level := set a | a in seeds && a in containers;
      ids := {};
      while level != {}
        invariant level == Level(containers, seeds, n) && ids == Levels(containers, seeds, n)
        decreases h - n
      {
        LevelsEnd(containers, seeds, h, n);
        NextLevel(containers, seeds, n);
        ids := ids + level;
        level := set a | a in containers && containers[a].parent.Some? && containers[a].parent.value in level;
        n := n + 1;
      }
      LevelsAreBelow(containers, seeds, n);
    }

    /** Placeholders go in batch by batch; the batch size does not matter. */
    method InsertPlaceholders(chain: seq<Id>)
      modifies this`containers
      ensures containers == AddPlaceholders(old(containers), chain)
    {
      var size := if batchSize == 0 then 1 else batchSize;
      var done := 0;
      while done < |chain|
        invariant 0 <= done <= |chain|
        invariant containers == AddPlaceholders(old(containers), chain[..done])
      {
        var end := if done + size <= |chain| then done + size else |chain|;
        for i := done to end
          invariant containers == AddPlaceholders(old(containers), chain[..i])
        {
          assert chain[..i + 1][..i] == chain[..i];
          containers := AddPlaceholder(containers, chain[i]);
        }
        done := end;
      }
      assert chain[..done] == chain;
    }

    method SetParentIfFree(child: Id, parent: Id)
      modifies this`containers
      ensures containers == LinkRow(old(containers), child, parent)
    {
      if child in containers && containers[child].parent.None? {
        var cycle := WouldCreateCycle(child, parent);
        if !cycle {
          containers := containers[child := containers[child].(parent := Some(parent))];
        }
      }
    }

    method LinkWindows(chain: seq<Id>)
      modifies this`containers
      ensures containers == LinkPairs(old(containers), chain, |chain|)
    {
      var i := 1;
      while i < |chain|
        invariant 1 <= i
        invariant |chain| >= 1 ==> i <= |chain| && containers == LinkPairs(old(containers), chain, i)
        invariant |chain| == 0 ==> containers == old(containers)
      {
        SetParentIfFree(chain[i], chain[i - 1]);
        i := i + 1;
      }
    }

    /** The first of the other roots of this subject, in order of insertion. */
    method OldestOther(subject: string, id: Id) returns (other: Option<Id>)
      ensures other.None? ==> SameSubjectRoots(containers, subject, id) == {}
      ensures other.Some? ==> IsOldest(containers, SameSubjectRoots(containers, subject, id), other.value)
    {
      var todo := SameSubjectRoots(containers, subject, id);
      other := None;
      while todo != {}
        invariant todo <= SameSubjectRoots(containers, subject, id)
        invariant other.None? ==> todo == SameSubjectRoots(containers, subject, id)
        invariant other.Some? ==> IsOldest(containers, SameSubjectRoots(containers, subject, id) - todo, other.value)
      {
        var a :| a in todo;
        if other.None? || containers[a].rowid < containers[other.value].rowid {
          other := Some(a);
        }
        todo := todo - {a};
      }
    }

    method JoinedSubject(a: Id) returns (s: Option<string>)
      ensures JoinsTo(messages, a, s)
    {
      var rows := set k | k in messages && messages[k].messageId == Some(a);
      if rows == {} {
        forall k | k in messages ensures messages[k].messageId != Some(a) {
          assert k !in rows;
        }
        return None;
      }
      var k :| k in rows;
      return messages[k].subject;
    }

    /** Steps 2 to 4: the message's row, its chain's rows, and their links. */
    method LinkReferences(messageId: Id, inReplyTo: Option<Id>, refs: seq<Id>, subject: Option<string>)
      modifies this`containers
      ensures var call := Call(messageId, inReplyTo, refs, subject, None, false);
        containers == LinkChain(AddRows(old(containers), call), messageId, Chain(refs, inReplyTo))
      // Each container without a parent has got the one the arguments ask for, unless that is below it.
      ensures var call := Call(messageId, inReplyTo, refs, subject, None, false);
        Valid(old(containers)) ==>
          forall q, c | Follows(call, q, c) && Free(old(containers), c) ::
            c in containers && (containers[c].parent == Some(q) <==> !Reaches(Parents(containers), q, c))
    {
      hide AddMain, AddPlaceholders, Normal;
      var norm := None;
      if subject.Some? {
        var s := NormalizeSubject(subject.value);
        norm := Some(s);
      }
      containers := AddMain(containers, messageId, norm);
      var chain := refs;
      if inReplyTo.Some? && inReplyTo.value !in chain {
        chain := chain + [inReplyTo.value];
      }
      InsertPlaceholders(chain);
      LinkWindows(chain);
      if chain != [] {
        SetParentIfFree(messageId, chain[|chain| - 1]);
      }
      if Valid(old(containers)) {
        ChainIsAsked(old(containers), Call(messageId, inReplyTo, refs, subject, None, false));
      }
    }

    /** Step 5 on its own. */
    method GroupBySubject(id: Id, subject: Option<string>) returns (older: Option<Id>, olderIsReply: bool)
      modifies this`containers
      ensures IsRoot(Parents(old(containers)), id) && subject.Some? ==>
        var among := SameSubjectRoots(old(containers), Normal(subject.value), id);
        && (older.None? ==> among == {})
        && (older.Some? ==>
              && IsOldest(old(containers), among, older.value)
              && exists s :: JoinsTo(messages, older.value, s)
                          && olderIsReply == (s.Some? && ReadsAsReply(s.value)))
      // The older one is the first of the other parentless rows of the subject.
      ensures id in old(containers) && old(containers)[id].parent.None? && subject.Some? ==>
        forall a | a in old(containers) && a != id && old(containers)[a].parent.None?
                   && old(containers)[a].subject == Some(Normal(subject.value)) ::
          older.Some? && older.value in old(containers)
          && old(containers)[older.value].rowid <= old(containers)[a].rowid
      ensures older.Some? ==>
        && older.value in old(containers) && older.value != id && old(containers)[older.value].parent.None?
        && subject.Some? && old(containers)[older.value].subject == Some(Normal(subject.value))
      // It reads as a reply if a message with its id does.
      ensures older.Some? && olderIsReply ==>
        exists k | k in messages :: messages[k].messageId == older && messages[k].subject.Some?
                                 && ReadsAsReply(messages[k].subject.value)
      ensures older.Some? && !olderIsReply && (exists k | k in messages :: messages[k].messageId == older) ==>
        exists k | k in messages :: messages[k].messageId == older
          && (messages[k].subject.Some? ==> !ReadsAsReply(messages[k].subject.value))
      ensures containers == Group(old(containers), Call(id, None, [], subject, older, olderIsReply))
    {
      older, olderIsReply := None, false;
      if id in containers && containers[id].parent.None? && subject.Some? {
        var norm := NormalizeSubject(subject.value);
        var thisIsReply := IsReplyOrFwd(subject.value);
        older := OldestOther(norm, id);
        assert forall a | a in containers && a != id && containers[a].parent.None?
            && containers[a].subject == Some(norm) :: a in SameSubjectRoots(containers, norm, id);
        if older.Some? {
          var s := JoinedSubject(older.value);
          if s.Some? {
            olderIsReply := IsReplyOrFwd(s.value);
          }
          if thisIsReply || olderIsReply {
            SetParentIfFree(id, older.value);
          }
        }
      }
    }

    /** Steps 6 and 7. */
    method RepairRoots(id: Id) returns (r: Result<Id, Error>)
      requires Valid(containers) && id in containers
      modifies this`containers
      ensures containers == Relabelled(old(containers), id)
      ensures r == Ok(RootOf(Parents(old(containers)), id))
    {
      r := FindRoot(id);
      assert Grounded(Parents(containers), id);
      RootIsUnique(Parents(containers), id, r.value);
      var was := containers[id].root;
      if was != r.value {
        var ids := Subtree({r.value});
        SetRootsKeepsLinks(containers, ids, r.value);
        containers := SetRoots(containers, ids, r.value);
        ids := Subtree(CachedAs(containers, was));
        containers := SetRoots(containers, ids, r.value);
      }
    }

    /** One call of ingest. Its links and cached roots are those of `Ingested`, for a
        `call` whose subject fields are what the tables showed. */
    method Ingest(messageId: Id, inReplyTo: Option<Id>, refs: seq<Id>, subject: Option<string>)
      returns (r: Result<Id, Error>, ghost call: Call)
      requires Valid(containers)
      modifies this`containers, this`messages
      ensures call == Call(messageId, inReplyTo, refs, subject, call.older, call.olderIsReply)
      ensures Observed(old(containers), old(messages), call)
      ensures Valid(containers) && containers == Ingested(old(containers), call)
      ensures messageId in containers && r == Ok(RootOf(Parents(containers), messageId))
      ensures forall q, c | Follows(call, q, c) && Free(old(containers), c) ::
        c in containers && (containers[c].parent == Some(q) <==> !Reaches(Parents(containers), q, c))
      ensures messages == Rethread(old(messages), containers, r.value)
      // Every message whose row caches the root is in the thread now, and nothing else has changed.
      ensures messages.Keys == old(messages).Keys
      ensures forall k | k in messages ::
        var was := old(messages)[k];
        var inThread := was.messageId.Some? && was.messageId.value in containers
                        && containers[was.messageId.value].root == r.value;
        messages[k] == if inThread then was.(threadId := Some(r.value)) else was
    {
      LinkReferences(messageId, inReplyTo, refs, subject);
      ghost var linked := containers;
      var older, olderIsReply := GroupBySubject(messageId, subject);
      call := Call(messageId, inReplyTo, refs, subject, older, olderIsReply);
      assert containers == Linked(old(containers), call);
      LinkedGrows(old(containers), call);
      RelabelledKeepsLinks(containers, messageId);
      r := RepairRoots(messageId);
      forall q, c | Follows(call, q, c) && Free(old(containers), c)
        ensures c in containers && (containers[c].parent == Some(q) <==> !Reaches(Parents(containers), q, c))
      {
        ParentIsAskedFor(old(containers), call, q, c);
      }
      messages := Rethread(messages, containers, r.value);
    }

    /** Store::set_threading: ingest the message of one row, then complete the row. */
    method SetThreading(
        key: RowKey, messageId: Option<Id>, inReplyTo: Option<Id>, refs: seq<Id>)
      returns (r: Result<Id, Error>, ghost call: Call)
      requires Valid(containers)
      modifies this`containers, this`messages
      ensures call.messageId == MessageIdOr(messageId, key)
      ensures call.inReplyTo == inReplyTo && call.refs == refs
      ensures call.subject == if key in old(messages) then old(messages)[key].subject else None
      ensures Observed(old(containers), old(messages), call)
      ensures Valid(containers) && containers == Ingested(old(containers), call)
      ensures call.messageId in containers && r == Ok(RootOf(Parents(containers), call.messageId))
      ensures messages == Completed(Rethread(old(messages), containers, r.value), key, inReplyTo, refs, r.value)
      ensures key in messages ==>
        && messages[key].inReplyTo == inReplyTo && messages[key].threadId == Some(r.value)
        && messages[key].refs == (if refs == [] then None else Some(JoinRefs(refs)))
        && messages[key].messageId == old(messages)[key].messageId
        && messages[key].subject == old(messages)[key].subject
      ensures messages.Keys == old(messages).Keys
      ensures forall k | k in messages && k != key ::
        var was := old(messages)[k];
        var inThread := was.messageId.Some? && was.messageId.value in containers
                        && containers[was.messageId.value].root == r.value;
        messages[k] == if inThread then was.(threadId := Some(r.value)) else was
    {
      var subject := if key in messages then messages[key].subject else None;
      r, call := Ingest(MessageIdOr(messageId, key), inReplyTo, refs, subject);
      messages := Completed(messages, key, inReplyTo, refs, r.value);
    }
  }
}
