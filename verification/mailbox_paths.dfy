/** The folder names of JMAP mailboxes: paths through the parent links, and their resolution. */
module MailboxPaths {
  import opened Common
  import opened Text
  import opened Forest
  import opened MailboxNames

  datatype Mailbox = Mailbox(id: string, name: string, parentId: Option<string>, role: Option<string>)

  datatype Error = Hierarchy | NoMailbox

  type Table = map<string, Mailbox>

  /** Mailboxes by id; a later one replaces an earlier one of the same id. */
  function ById(mailboxes: seq<Mailbox>): Table {
    if mailboxes == [] then map[]
    else ById(mailboxes[..|mailboxes| - 1])[mailboxes[|mailboxes| - 1].id := mailboxes[|mailboxes| - 1]]
  }

  predicate Keyed(t: Table) {
    forall id | id in t :: t[id].id == id
  }

  predicate UniqueIds(mailboxes: seq<Mailbox>) {
    forall i, j | 0 <= i < j < |mailboxes| :: mailboxes[i].id != mailboxes[j].id
  }

  function IdsOf(mailboxes: seq<Mailbox>): set<string> {
    if mailboxes == [] then {} else IdsOf(mailboxes[..|mailboxes| - 1]) + {mailboxes[|mailboxes| - 1].id}
  }

  lemma {:induction false} ByIdHolds(mailboxes: seq<Mailbox>)
    ensures Keyed(ById(mailboxes)) && ById(mailboxes).Keys == IdsOf(mailboxes)
  {
    if mailboxes != [] {
      ByIdHolds(mailboxes[..|mailboxes| - 1]);
    }
  }

  lemma {:induction false} ByIdFinds(mailboxes: seq<Mailbox>, i: nat)
    requires i < |mailboxes|
    ensures mailboxes[i].id in ById(mailboxes)
    ensures UniqueIds(mailboxes) ==> ById(mailboxes)[mailboxes[i].id] == mailboxes[i]
  {
    var fewer := mailboxes[..|mailboxes| - 1];
    if i < |fewer| {
      assert fewer[i] == mailboxes[i];
      ByIdFinds(fewer, i);
    }
  }

  // ---- the hierarchy ----

  function ParentOf(m: Mailbox): Option<Id> {
    if m.parentId.Some? then Some(Id(m.parentId.value)) else None
  }

  function Parents(t: Table): Links {
    map id | id in t :: Id(id) := ParentOf(t[id])
  }

  /** The names from n links above the mailbox down to it. */
  ghost function NamesFrom(t: Table, id: string, n: nat): (names: seq<string>)
    requires Up(Parents(t), Id(id), n).Some?
    ensures |names| == n + 1
    decreases n
  {
    if n == 0 then [t[id].name] else NamesFrom(t, t[id].parentId.value, n - 1) + [t[id].name]
  }

  /** The names from the mailbox's root down to it. */
  ghost function Names(t: Table, id: string): (names: seq<string>)
    requires Grounded(Parents(t), Id(id))
    ensures names != []
  {
    var n: nat :| EndsAt(Parents(t), Id(id), n);
    NamesFrom(t, id, n)
  }

  ghost function PathOf(t: Table, id: string): string
    requires Grounded(Parents(t), Id(id))
  {
    JoinPath(Names(t, id))
  }

  /** A mailbox has a path iff it is a root or its parent is known and has one. */
  lemma {:induction false} GroundedStep(t: Table, id: string)
    requires id in t
    ensures var p := t[id].parentId;
      && (Grounded(Parents(t), Id(id)) <==> p.None? || Grounded(Parents(t), Id(p.value)))
      && (Grounded(Parents(t), Id(id)) ==>
            Names(t, id) == (if p.None? then [] else Names(t, p.value)) + [t[id].name])
  {
    var links, p := Parents(t), t[id].parentId;
    assert Id(id) in links && links[Id(id)] == ParentOf(t[id]);
    if p.None? {
      assert EndsAt(links, Id(id), 0);
    } else if Grounded(links, Id(p.value)) {
      var n: nat :| EndsAt(links, Id(p.value), n);
      assert Up(links, Id(id), n + 1) == Up(links, Id(p.value), n);
      assert EndsAt(links, Id(id), n + 1);
    }
    if Grounded(links, Id(id)) {
      var n: nat :| EndsAt(links, Id(id), n);
      if p.Some? {
        assert n > 0 && EndsAt(links, Id(p.value), n - 1);
        NamesAre(t, p.value, n - 1);
      }
      NamesAre(t, id, n);
    }
  }

  lemma {:induction false} NamesAre(t: Table, id: string, n: nat)
    requires EndsAt(Parents(t), Id(id), n)
    ensures Names(t, id) == NamesFrom(t, id, n)
  {
    forall m: nat | EndsAt(Parents(t), Id(id), m) ensures m == n {
      ClimbIsUnique(Parents(t), Id(id), m, n);
    }
  }

  lemma {:induction false} PathStep(t: Table, id: string)
    requires id in t && Grounded(Parents(t), Id(id))
    ensures var p := t[id].parentId;
      && (p.Some? ==> Grounded(Parents(t), Id(p.value)))
      && PathOf(t, id) == (if p.None? then "" else PathOf(t, p.value) + "/") + EscapeSegment(t[id].name)
  {
    GroundedStep(t, id);
    var p, name := t[id].parentId, t[id].name;
    if p.None? {
      assert [] + [name] == [name] && "" + EscapeSegment(name) == EscapeSegment(name);
    } else {
      var above := Names(t, p.value);
      assert (above + [name])[..|above|] == above;
    }
  }

  // ---- the memoised recursion ----

  /** The memo holds the right path of every mailbox it holds. */
  ghost predicate Right(t: Table, paths: map<string, string>) {
    forall id | id in paths :: id in t && Grounded(Parents(t), Id(id)) && paths[id] == PathOf(t, id)
  }

  /** Everything being visited is strictly below the mailbox. */
  ghost predicate AllBelow(t: Table, visiting: set<string>, id: string) {
    forall v | v in visiting :: exists n: nat :: n > 0 && Up(Parents(t), Id(v), n) == Some(Id(id))
  }

  lemma {:induction false} VisitedTwiceIsCycle(t: Table, id: string)
    requires exists n: nat :: n > 0 && Up(Parents(t), Id(id), n) == Some(Id(id))
    ensures !Grounded(Parents(t), Id(id))
  {
    var p, a := Parents(t), Id(id);
    var n: nat :| n > 0 && Up(p, a, n) == Some(a);
    forall d: nat | EndsAt(p, a, d) ensures false {
      UpStep(p, a, n, d);
      assert EndsAt(p, a, n + d);
      ClimbIsUnique(p, a, d, n + d);
    }
  }

  lemma {:induction false} ParentIsAbove(t: Table, visiting: set<string>, id: string)
    requires id in t && t[id].parentId.Some? && t[id].parentId.value in t
    requires AllBelow(t, visiting, id)
    ensures AllBelow(t, visiting + {id}, t[id].parentId.value)
  {
    var p, q := Parents(t), t[id].parentId.value;
    assert Up(p, Id(id), 1) == Up(p, Id(q), 0) == Some(Id(q));
    forall v | v in visiting ensures exists n: nat :: n > 0 && Up(p, Id(v), n) == Some(Id(q)) {
      var n: nat :| n > 0 && Up(p, Id(v), n) == Some(Id(id));
      UpStep(p, Id(v), n, 1);
    }
  }

  /** The path of one mailbox. `visiting` is the mailboxes on the way here, from which
      only a parent cycle leads back. */
  method PathFor(mailbox: Mailbox, t: Table, paths: map<string, string>, visiting: set<string>)
    returns (r: Result<string, Error>, paths': map<string, string>)
    requires Keyed(t) && mailbox.id in t && visiting <= t.Keys
    ensures mailbox == t[mailbox.id] && Right(t, paths) && AllBelow(t, visiting, mailbox.id) ==>
      && Right(t, paths')
      && if Grounded(Parents(t), Id(mailbox.id)) then r == Ok(PathOf(t, mailbox.id)) else r == Err(Hierarchy)
    ensures r.Ok? ==> paths'.Keys >= paths.Keys + {mailbox.id}
    decreases t.Keys - visiting
  {
    paths' := paths;
    if mailbox.id in paths {
      return Ok(paths[mailbox.id]), paths';
    }
    if mailbox.id in visiting {
      if mailbox == t[mailbox.id] && AllBelow(t, visiting, mailbox.id) {
        VisitedTwiceIsCycle(t, mailbox.id);
      }
      return Err(Hierarchy), paths';
    }
    if mailbox == t[mailbox.id] {
      GroundedStep(t, mailbox.id);
      if Grounded(Parents(t), Id(mailbox.id)) {
        PathStep(t, mailbox.id);
      }
    }
    var path := "";
    if mailbox.parentId.Some? {
      if mailbox.parentId.value !in t {
        return Err(Hierarchy), paths';
      }
      if mailbox == t[mailbox.id] && AllBelow(t, visiting, mailbox.id) {
        ParentIsAbove(t, visiting, mailbox.id);
      }
      r, paths' := PathFor(t[mailbox.parentId.value], t, paths, visiting + {mailbox.id});
      if r.Err? {
        return;
      }
      path := r.value + "/";
    }
    path := path + EscapeSegment(mailbox.name);
    paths' := paths'[mailbox.id := path];
    r := Ok(path);
  }

  lemma {:induction false} RightAreKnown(t: Table, paths: map<string, string>)
    requires Right(t, paths)
    ensures paths.Keys <= t.Keys
  {
  }

  lemma {:induction false} AllPathsFound(t: Table, paths: map<string, string>)
    requires Right(t, paths) && paths.Keys == t.Keys
    ensures IsForest(Parents(t))
  {
    hide Grounded, PathOf;
    forall a | a in Parents(t) ensures Grounded(Parents(t), a) {
      assert a.text in paths && a == Id(a.text);
    }
  }

  lemma {:induction false} UngroundedMailbox(t: Table, id: string)
    requires id in t && !Grounded(Parents(t), Id(id))
    ensures !IsForest(Parents(t))
  {
    assert Id(id) in Parents(t);
  }

  /** Every mailbox's path, when every parent is known and no parents form a cycle, and
      only then. */
  method ComputePaths(mailboxes: seq<Mailbox>) returns (r: Result<map<string, string>, Error>)
    ensures UniqueIds(mailboxes) ==>
      var t := ById(mailboxes);
      && (r.Ok? <==> IsForest(Parents(t)))
      && (r.Ok? ==> Right(t, r.value) && r.value.Keys == t.Keys)
  {
    var t := ById(mailboxes);
    ByIdHolds(mailboxes);
    hide Right, IsForest, Grounded, ById, Parents;
    var paths: map<string, string> := map[];
    NothingIsRight(t);
    for i := 0 to |mailboxes|
      invariant UniqueIds(mailboxes) ==> Right(t, paths)
      invariant IdsOf(mailboxes[..i]) <= paths.Keys
    {
      var path;
      ByIdFinds(mailboxes, i);
      assert mailboxes[..i + 1][..i] == mailboxes[..i];
      path, paths := PathFor(mailboxes[i], t, paths, {});
      if path.Err? {
        if UniqueIds(mailboxes) {
          UngroundedMailbox(t, mailboxes[i].id);
        }
        return Err(path.error);
      }
    }
    assert mailboxes[..|mailboxes|] == mailboxes;
    if UniqueIds(mailboxes) {
      RightAreKnown(t, paths);
      AllPathsFound(t, paths);
    }
    r := Ok(paths);
  }

  lemma {:induction false} NothingIsRight(t: Table)
    ensures Right(t, map[])
  {
  }

  // ---- paths name mailboxes ----

  /** When no name above it or its own is empty, a mailbox's path splits into the names
      from its root down to it. */
  lemma {:induction false} PathSplitsIntoNames(t: Table, id: string)
    requires Grounded(Parents(t), Id(id))
    ensures SplitPath(PathOf(t, id)).Ok? <==> NoneEmpty(Names(t, id))
    ensures NoneEmpty(Names(t, id)) ==> SplitPath(PathOf(t, id)) == Ok(Names(t, id))
  {
    SplitUndoesJoin(Names(t, id));
  }

  /** Mailboxes with different names above them never share a path. */
  lemma {:induction false} PathsTellNamesApart(t: Table, a: string, b: string)
    requires Grounded(Parents(t), Id(a)) && Grounded(Parents(t), Id(b))
    ensures PathOf(t, a) == PathOf(t, b) <==> Names(t, a) == Names(t, b)
  {
    if PathOf(t, a) == PathOf(t, b) {
      JoinTellsApart(Names(t, a), Names(t, b));
    }
  }

  // ---- resolution ----

  function PathMatches(mailboxes: seq<Mailbox>, paths: map<string, string>, folder: string): seq<Mailbox> {
    if mailboxes == [] then []
    else
      var m := mailboxes[|mailboxes| - 1];
      PathMatches(mailboxes[..|mailboxes| - 1], paths, folder)
      + if m.id in paths && Lower(paths[m.id]) == Lower(folder) then [m] else []
  }

  function TrimBackslashes(s: string): string {
    if s != "" && s[0] == '\\' then TrimBackslashes(s[1..]) else s
  }

  function RoleMatches(mailboxes: seq<Mailbox>, role: string): seq<Mailbox> {
    if mailboxes == [] then []
    else
      var m := mailboxes[|mailboxes| - 1];
      RoleMatches(mailboxes[..|mailboxes| - 1], role)
      + if m.role.Some? && Lower(m.role.value) == Lower(role) then [m] else []
  }

  /** The one mailbox with this path in any case, or else the one with this role. */
  function ResolveIn(mailboxes: seq<Mailbox>, paths: map<string, string>, folder: string): Result<Mailbox, Error> {
    var byPath, byRole := PathMatches(mailboxes, paths, folder), RoleMatches(mailboxes, TrimBackslashes(folder));
    if |byPath| == 1 then Ok(byPath[0])
    else if |byPath| > 1 then Err(Hierarchy)
    else if |byRole| == 1 then Ok(byRole[0])
    else Err(if byRole == [] then NoMailbox else Hierarchy)
  }

  method ResolveMailbox(mailboxes: seq<Mailbox>, folder: string)
    returns (r: Result<Mailbox, Error>, ghost paths: map<string, string>)
    ensures UniqueIds(mailboxes) ==>
      var t := ById(mailboxes);
      if IsForest(Parents(t))
      then Right(t, paths) && paths.Keys == t.Keys && r == ResolveIn(mailboxes, paths, folder)
      else r.Err?
  {
    hide Right, IsForest, ById, Parents;
    var found := ComputePaths(mailboxes);
    if found.Err? {
      return Err(found.error), map[];
    }
    paths := found.value;
    var byPath := PathMatches(mailboxes, found.value, folder);
    if |byPath| == 1 {
      return Ok(byPath[0]), paths;
    }
    if |byPath| > 1 {
      return Err(Hierarchy), paths;
    }
    var byRole := RoleMatches(mailboxes, TrimBackslashes(folder));
    r := if |byRole| == 1 then Ok(byRole[0]) else Err(if |byRole| == 0 then NoMailbox else Hierarchy);
  }

  predicate SamePath(paths: map<string, string>, m: Mailbox, folder: string) {
    m.id in paths && Lower(paths[m.id]) == Lower(folder)
  }

  /** A mailbox resolves from its own path exactly when no other path differs from it in
      case alone; otherwise the path is refused as ambiguous. */
  lemma {:induction false} OwnPathResolvesIff(mailboxes: seq<Mailbox>, paths: map<string, string>, i: nat)
    requires UniqueIds(mailboxes) && i < |mailboxes| && mailboxes[i].id in paths
    ensures var folder := paths[mailboxes[i].id];
      ResolveIn(mailboxes, paths, folder)
      == if forall j | 0 <= j < |mailboxes| && j != i :: !SamePath(paths, mailboxes[j], folder)
         then Ok(mailboxes[i]) else Err(Hierarchy)
  {
    var folder := paths[mailboxes[i].id];
    MatchesAre(mailboxes, paths, folder, i);
    HasMatch(mailboxes, paths, folder);
    assert SamePath(paths, mailboxes[i], folder);
    if |PathMatches(mailboxes, paths, folder)| == 1 {
      MatchIsMatch(mailboxes, paths, folder, mailboxes[i]);
    }
  }

  lemma {:induction false} MatchIsMatch(mailboxes: seq<Mailbox>, paths: map<string, string>, folder: string, m: Mailbox)
    requires m in mailboxes && SamePath(paths, m, folder)
    ensures m in PathMatches(mailboxes, paths, folder)
  {
    var fewer, last := mailboxes[..|mailboxes| - 1], mailboxes[|mailboxes| - 1];
    assert mailboxes == fewer + [last];
    if m != last {
      MatchIsMatch(fewer, paths, folder, m);
    }
  }

  lemma {:induction false} MatchesAre(mailboxes: seq<Mailbox>, paths: map<string, string>, folder: string, i: nat)
    requires UniqueIds(mailboxes) && i < |mailboxes| && SamePath(paths, mailboxes[i], folder)
    ensures PathMatches(mailboxes, paths, folder) == [mailboxes[i]]
       <==> forall j | 0 <= j < |mailboxes| && j != i :: !SamePath(paths, mailboxes[j], folder)
  {
    var n := |mailboxes| - 1;
    var fewer := mailboxes[..n];
    assert forall j | 0 <= j < n :: fewer[j] == mailboxes[j];
    if i < n {
      MatchesAre(fewer, paths, folder, i);
      HasMatch(fewer, paths, folder);
      assert SamePath(paths, fewer[i], folder);
    } else {
      HasMatch(fewer, paths, folder);
    }
  }

  lemma {:induction false} HasMatch(mailboxes: seq<Mailbox>, paths: map<string, string>, folder: string)
    ensures PathMatches(mailboxes, paths, folder) != []
       <==> exists j :: 0 <= j < |mailboxes| && SamePath(paths, mailboxes[j], folder)
  {
    if mailboxes != [] {
      var fewer := mailboxes[..|mailboxes| - 1];
      HasMatch(fewer, paths, folder);
      assert forall j | 0 <= j < |fewer| :: fewer[j] == mailboxes[j];
    }
  }

  predicate HasRole(m: Mailbox, role: string) {
    m.role.Some? && Lower(m.role.value) == Lower(role)
  }

  lemma {:induction false} RolesAppend(a: seq<Mailbox>, b: seq<Mailbox>, role: string)
    ensures RoleMatches(a + b, role) == RoleMatches(a, role) + RoleMatches(b, role)
    decreases |b|
  {
    if b == [] {
      assert a + b == a;
    } else {
      assert (a + b)[..|a + b| - 1] == a + b[..|b| - 1];
      RolesAppend(a, b[..|b| - 1], role);
    }
  }

  lemma {:induction false} PathsAppend(a: seq<Mailbox>, b: seq<Mailbox>, paths: map<string, string>, folder: string)
    ensures PathMatches(a + b, paths, folder) == PathMatches(a, paths, folder) + PathMatches(b, paths, folder)
    decreases |b|
  {
    if b == [] {
      assert a + b == a;
    } else {
      assert (a + b)[..|a + b| - 1] == a + b[..|b| - 1];
      PathsAppend(a, b[..|b| - 1], paths, folder);
    }
  }

  lemma {:induction false} NoRole(mailboxes: seq<Mailbox>, role: string)
    requires forall m | m in mailboxes :: !HasRole(m, role)
    ensures RoleMatches(mailboxes, role) == []
  {
    if mailboxes != [] {
      assert mailboxes[|mailboxes| - 1] in mailboxes;
      NoRole(mailboxes[..|mailboxes| - 1], role);
    }
  }

  lemma {:induction false} NoPath(mailboxes: seq<Mailbox>, paths: map<string, string>, folder: string)
    requires forall m | m in mailboxes :: !SamePath(paths, m, folder)
    ensures PathMatches(mailboxes, paths, folder) == []
  {
    if mailboxes != [] {
      assert mailboxes[|mailboxes| - 1] in mailboxes;
      NoPath(mailboxes[..|mailboxes| - 1], paths, folder);
    }
  }

  lemma {:induction false} OneMailbox(m: Mailbox, paths: map<string, string>, folder: string, role: string)
    ensures PathMatches([m], paths, folder) == if SamePath(paths, m, folder) then [m] else []
    ensures RoleMatches([m], role) == if HasRole(m, role) then [m] else []
  {
    hide Lower;
    var none := [m][..0];
    assert PathMatches(none, paths, folder) == [] && RoleMatches(none, role) == [];
    assert PathMatches([m], paths, folder) == PathMatches(none, paths, folder)
      + if SamePath(paths, m, folder) then [m] else [];
    assert RoleMatches([m], role) == RoleMatches(none, role) + if HasRole(m, role) then [m] else [];
  }

  /** The one mailbox with this path, whatever the roles are; two with this path are ambiguous. */
  lemma {:induction false} PathComesFirst(a: seq<Mailbox>, m: Mailbox, b: seq<Mailbox>, paths: map<string, string>,
      folder: string)
    requires SamePath(paths, m, folder) && forall x | x in a :: !SamePath(paths, x, folder)
    ensures ResolveIn(a + [m] + b, paths, folder)
      == if forall x | x in b :: !SamePath(paths, x, folder) then Ok(m) else Err(Hierarchy)
  {
    hide PathMatches, RoleMatches, SamePath;
    PathsAppend(a + [m], b, paths, folder);
    PathsAppend(a, [m], paths, folder);
    NoPath(a, paths, folder);
    OneMailbox(m, paths, folder, "");
    if forall x | x in b :: !SamePath(paths, x, folder) {
      NoPath(b, paths, folder);
    } else {
      HasMatch(b, paths, folder);
      var x :| x in b && SamePath(paths, x, folder);
      var j :| 0 <= j < |b| && b[j] == x;
      assert SamePath(paths, b[j], folder);
    }
  }

  /** Backslashes in front of a role do not count. */
  lemma {:induction false} BackslashesGo(slashes: string, role: string)
    requires (forall c | c in slashes :: c == '\\') && (role != "" ==> role[0] != '\\')
    ensures TrimBackslashes(slashes + role) == role
  {
    if slashes == "" {
      assert slashes + role == role;
    } else {
      assert slashes[0] in slashes && (slashes + role)[1..] == slashes[1..] + role;
      assert forall c | c in slashes[1..] :: c in slashes;
      BackslashesGo(slashes[1..], role);
    }
  }

  /** A folder that is no path resolves by role, in any case and with any number of backslashes in
      front: to the one mailbox with that role, not at all without one, ambiguous with two. */
  lemma {:induction false} RoleComesNext(a: seq<Mailbox>, m: Mailbox, b: seq<Mailbox>, paths: map<string, string>,
      slashes: string, role: string)
    requires (forall c | c in slashes :: c == '\\') && (role != "" ==> role[0] != '\\')
    requires forall x | x in a + [m] + b :: !SamePath(paths, x, slashes + role)
    requires forall x | x in a :: !HasRole(x, role)
    ensures ResolveIn(a + [m] + b, paths, slashes + role)
      == if HasRole(m, role) then (if forall x | x in b :: !HasRole(x, role) then Ok(m) else Err(Hierarchy))
         else ResolveIn(a + b, paths, slashes + role)
    ensures ResolveIn(a, paths, slashes + role) == Err(NoMailbox)
  {
    hide PathMatches, RoleMatches, SamePath, HasRole, TrimBackslashes;
    var folder := slashes + role;
    BackslashesGo(slashes, role);
    NoPath(a + [m] + b, paths, folder);
    NoPath(a + b, paths, folder);
    NoPath(a, paths, folder);
    NoRole(a, role);
    RolesAppend(a + [m], b, role);
    RolesAppend(a, [m], role);
    RolesAppend(a, b, role);
    OneMailbox(m, paths, folder, role);
    if forall x | x in b :: !HasRole(x, role) {
      NoRole(b, role);
    } else {
      SomeRole(b, role);
    }
  }

  lemma {:induction false} SomeRole(mailboxes: seq<Mailbox>, role: string)
    requires exists m | m in mailboxes :: HasRole(m, role)
    ensures RoleMatches(mailboxes, role) != []
  {
    var fewer, last := mailboxes[..|mailboxes| - 1], mailboxes[|mailboxes| - 1];
    assert mailboxes == fewer + [last];
    if !HasRole(last, role) {
      SomeRole(fewer, role);
    }
  }
}
