/** Store::reserve_snapshot_generation, Store::apply_snapshot and Store::rekey_opaque_message. */
module SnapshotStore {
  import opened Common
  import opened SnapshotGate
  import opened SnapshotRows
  import opened SnapshotTheorems

  datatype Folder = Folder(uidvalidity: Option<int>, counters: Counters, lastSync: Option<int>)

  datatype Transport = Imap(uidvalidity: int) | Opaque

  datatype Input = Input(
    folder: string, generation: int, complete: bool, transport: Transport, rows: seq<SnapshotHeader>)

  datatype Output = Output(applied: bool, newRows: seq<SnapshotHeader>)

  datatype Flaw = MissingProviderId | DuplicateProviderId | DuplicateUid

  // UniqueKey is the database error of a broken (folder, uid, uidvalidity) key.
  datatype Error = InvalidSnapshot(flaw: Flaw) | UnreservedGeneration | UniqueKey

  function Uidvalidity(t: Transport): int {
    match t
    case Imap(uidvalidity) => uidvalidity
    case Opaque => 0
  }

  /** What is wrong with row i in the light of the rows before it. */
  function FlawAt(rows: seq<SnapshotHeader>, i: nat): Option<Flaw>
    requires i < |rows|
  {
    if rows[i].providerId.None? then Some(MissingProviderId)
    else if rows[i].providerId.value in RowIds(rows[..i]) then Some(DuplicateProviderId)
    else if rows[i].uid in RowUids(rows[..i]) then Some(DuplicateUid)
    else None
  }

  /** The flaw of the first flawed row. */
  function FirstFlaw(rows: seq<SnapshotHeader>): Option<Flaw> {
    if rows == [] then None
    else
      var fewer := FirstFlaw(rows[..|rows| - 1]);
      if fewer.Some? then fewer else FlawAt(rows, |rows| - 1)
  }

  lemma {:induction false} NoFlawIffDistinct(rows: seq<SnapshotHeader>)
    ensures FirstFlaw(rows).None? <==> Distinct(rows)
  {
    if rows != [] {
      var fewer, n := rows[..|rows| - 1], |rows| - 1;
      NoFlawIffDistinct(fewer);
      assert forall i | 0 <= i < n :: fewer[i] == rows[i];
      if FlawAt(rows, n).None? {
        forall i | 0 <= i < n && rows[i].providerId.Some?
          ensures rows[i].providerId != rows[n].providerId && rows[i].uid != rows[n].uid
        {
          assert fewer[i].providerId.value in RowIds(fewer) && fewer[i].uid in RowUids(fewer);
        }
      }
    }
  }

  lemma {:induction false} FlawInPrefix(rows: seq<SnapshotHeader>, i: nat)
    requires i < |rows| && FirstFlaw(rows[..i]).None? && FlawAt(rows, i).Some?
    ensures FirstFlaw(rows) == FlawAt(rows, i)
  {
    if i < |rows| - 1 {
      var fewer := rows[..|rows| - 1];
      assert fewer[..i] == rows[..i];
      FlawInPrefix(fewer, i);
    } else {
      assert rows[..i] == rows[..|rows| - 1];
    }
  }

  /** The first flawed row decides: without provider id, or else with one seen before, or else with
      a uid seen before. */
  lemma {:induction false} FirstFlawIs(rows: seq<SnapshotHeader>, i: nat)
    requires i < |rows| && Distinct(rows[..i]) && !Distinct(rows[..i + 1])
    ensures FirstFlaw(rows) == Some(
      if rows[i].providerId.None? then MissingProviderId
      else if exists j | 0 <= j < i :: rows[j].providerId == rows[i].providerId then DuplicateProviderId
      else DuplicateUid)
  {
    NoFlawIffDistinct(rows[..i]);
    NoFlawIffDistinct(rows[..i + 1]);
    assert rows[..i + 1][..i] == rows[..i];
    assert FirstFlaw(rows[..i + 1]) == FlawAt(rows[..i + 1], i);
    assert FlawAt(rows, i) == FlawAt(rows[..i + 1], i);
    assert forall j | 0 <= j < i :: rows[..i][j] == rows[j];
    FlawInPrefix(rows, i);
  }

  ghost predicate Counted(counts: map<string, nat>, rows: seq<SnapshotHeader>) {
    forall id :: (if id in counts then counts[id] else 0) == Occurrences(rows, id)
  }

  method ValidateOpaque(rows: seq<SnapshotHeader>) returns (flaw: Option<Flaw>, counts: map<string, nat>)
    ensures flaw == FirstFlaw(rows)
    ensures flaw.None? ==> Counted(counts, rows)
  {
    var providerIds: set<string>, uids: set<int> := {}, {};
    counts := map[];
    for i := 0 to |rows|
      invariant FirstFlaw(rows[..i]).None?
      invariant providerIds == RowIds(rows[..i]) && uids == RowUids(rows[..i])
      invariant Counted(counts, rows[..i])
    {
      var row := rows[i];
      assert rows[..i + 1][..i] == rows[..i];
      if row.providerId.None? || row.providerId.value in providerIds || row.uid in uids {
        FlawInPrefix(rows, i);
        return FlawAt(rows, i), counts;
      }
      providerIds, uids := providerIds + {row.providerId.value}, uids + {row.uid};
      AddsIds(rows, i);
      var id := row.headers.messageId;
      if id.Some? {
        counts := counts[id.value := (if id.value in counts then counts[id.value] else 0) + 1];
      }
    }
    assert rows[..|rows|] == rows;
    return None, counts;
  }

  lemma AddsIds(rows: seq<SnapshotHeader>, i: nat)
    requires i < |rows| && rows[i].providerId.Some?
    ensures RowIds(rows[..i + 1]) == RowIds(rows[..i]) + {rows[i].providerId.value}
    ensures RowUids(rows[..i + 1]) == RowUids(rows[..i]) + {rows[i].uid}
  {
    var more, fewer := rows[..i + 1], rows[..i];
    assert more[i] == rows[i] && forall j | 0 <= j < i :: more[j] == fewer[j];
    assert rows[i].providerId.value in RowIds(more) && rows[i].uid in RowUids(more);
    forall id | id in RowIds(fewer) ensures id in RowIds(more) {
      var j :| 0 <= j < |fewer| && fewer[j].providerId == Some(id);
      assert more[j].providerId == Some(id);
    }
    forall u | u in RowUids(fewer) ensures u in RowUids(more) {
      var j :| 0 <= j < |fewer| && fewer[j].uid == u;
      assert more[j].uid == u;
    }
  }

  /** ORDER BY maildir_path IS NOT NULL DESC, headers_only, fetched_at_unix DESC, uid DESC LIMIT 1. */
  method PickRichest(m: Messages, keys: set<Key>) returns (keeper: Option<Key>)
    requires keys <= m.Keys
    ensures if keys == {} then keeper.None? else keeper.Some? && IsRichest(m, keys, keeper.value)
  {
    keeper := None;
    var todo := keys;
    while todo != {}
      invariant todo <= keys
      invariant if todo == keys then keeper.None? else keeper.Some? && IsRichest(m, keys - todo, keeper.value)
    {
      var k :| k in todo;
      if keeper.None? || Richer(m[k], k.uid, m[keeper.value], keeper.value.uid) {
        keeper := Some(k);
      }
      todo := todo - {k};
    }
    assert keys - todo == keys;
  }

  /** Keep the richest row of a provider id, at its home key. */
  method Collapse(m: Messages, folder: string, id: string, home: Key) returns (r: Result<Messages, Error>)
    requires home.folder == folder
    ensures var mine := Owned(m, folder, id);
      if mine == {} then r == Ok(m)
      else if home in m - mine then r == Err(UniqueKey)
      else r.Ok? && exists k | k in mine :: IsRichest(m, mine, k) && r.value == (m - mine)[home := m[k]]
  {
    var mine := Owned(m, folder, id);
    var keeper := PickRichest(m, mine);
    if keeper.None? {
      return Ok(m);
    }
    var k := keeper.value;
    var kept := m - (mine - {k});
    if k == home {
      assert kept == (m - mine)[home := m[k]];
      return Ok(kept);
    }
    if home in kept {
      return Err(UniqueKey);
    }
    assert kept - {k} == m - mine;
    return Ok((kept - {k})[home := kept[k]]);
  }

  /** One row's turn of the reconciliation. */
  method ReconcileRow(m: Messages, folder: string, rows: seq<SnapshotHeader>, index: nat, counts: map<string, nat>)
    returns (r: Result<Messages, Error>, reconciled: bool)
    requires index < |rows| && rows[index].providerId.Some?
    requires Counted(counts, rows)
    ensures r.Ok? ==> Turned(m, r.value, folder, rows, index)
    ensures r.Err? ==> r.error == UniqueKey
    ensures r.Err? <==> Blocked(m, folder, rows, index)
    ensures reconciled <==> |Candidates(m, folder, rows, index)| == 1
  {
    var row := rows[index];
    var id, home, messageId := row.providerId.value, Home(folder, row), row.headers.messageId;
    var identity := {row.uid, LowUid(row.uid), XorUid(row.uid, index)};
    var candidates;
    if messageId.Some? && messageId.value in counts && counts[messageId.value] == 1 {
      candidates := set k | k in m && k.folder == folder && m[k].providerId.None?
                            && (m[k].headers.messageId == messageId || k.uid in identity);
    } else {
      candidates := set k | k in m && k.folder == folder && m[k].providerId.None? && k.uid in identity;
    }
    assert candidates == Candidates(m, folder, rows, index);
    reconciled := |candidates| == 1;
    if !reconciled {
      r := Collapse(m, folder, id, home);
      return;
    }
    var c :| c in candidates;
    OnlyMember(candidates, c);
    var mine := Owned(m, folder, id);
    var kept := m - mine;
    if home != c && home in kept {
      return Err(UniqueKey), true;
    }
    var moved := (kept - {c})[home := m[c].(providerId := Some(id))];
    assert Owned(moved, folder, id) == {home};
    r := Collapse(moved, folder, id, home);
    assert (moved - {home})[home := moved[home]] == moved;
  }

  method MaxUid(m: Messages, folder: string, uidvalidity: int) returns (max: int)
    ensures forall uid :: uid > max <==> IsNewUid(m, folder, uidvalidity, uid)
  {
    var uids := Uids(m, folder, uidvalidity);
    if uids == {} {
      return 0;
    }
    max :| max in uids;
    var todo := uids - {max};
    while todo != {}
      invariant todo <= uids && max in uids && forall u :: u in uids && u !in todo ==> u <= max
    {
      var u :| u in todo;
      if u > max {
        max := u;
      }
      todo := todo - {u};
    }
  }

  method Upsert(m: Messages, folder: string, rows: seq<SnapshotHeader>) returns (r: Messages)
    ensures r == UpsertRows(m, folder, rows)
  {
    r := m;
    for i := 0 to |rows|
      invariant r == UpsertRows(m, folder, rows[..i])
    {
      assert rows[..i + 1][..i] == rows[..i];
      r := UpsertRow(r, folder, rows[i]);
    }
    assert rows[..|rows|] == rows;
  }

  method PruneIds(m: Messages, folder: string, gone: set<string>) returns (r: Messages)
    ensures r == DropIds(m, folder, gone)
  {
    r := m;
    var todo := gone;
    while todo != {}
      invariant todo <= gone && r == DropIds(m, folder, gone - todo)
    {
      var id :| id in todo;
      r := map k | k in r && !(k.folder == folder && r[k].providerId == Some(id)) :: r[k];
      todo := todo - {id};
    }
    assert gone - todo == gone;
  }

  method ImapRows(m: Messages, folder: string, stored: Option<int>, uidvalidity: int,
                  rows: seq<SnapshotHeader>, complete: bool) returns (r: Messages)
    ensures r == ApplyImap(m, folder, stored, uidvalidity, rows, complete)
  {
    r := m;
    if stored.Some? && stored.value != uidvalidity {
      r := DropFolder(r, folder);
    }
    r := Upsert(r, folder, rows);
    if complete {
      ghost var m1 := r;
      var gone := Uids(r, folder, uidvalidity) - RowUids(rows);
      var todo := gone;
      while todo != {}
        invariant todo <= gone && r == DropUids(m1, folder, uidvalidity, gone - todo)
      {
        var uid :| uid in todo;
        r := r - {Key(folder, uid, uidvalidity)};
        todo := todo - {uid};
      }
      assert gone - todo == gone;
    }
  }

  method RowsAbove(ghost m: Messages, folder: string, uidvalidity: int, rows: seq<SnapshotHeader>, max: int)
    returns (newRows: seq<SnapshotHeader>)
    requires forall uid :: uid > max <==> IsNewUid(m, folder, uidvalidity, uid)
    ensures newRows == NewImap(m, folder, uidvalidity, rows)
  {
    newRows := [];
    for i := 0 to |rows|
      invariant newRows == NewImap(m, folder, uidvalidity, rows[..i])
    {
      assert rows[..i + 1][..i] == rows[..i];
      if rows[i].uid > max {
        newRows := newRows + [rows[i]];
      }
    }
    assert rows[..|rows|] == rows;
  }

  method RowsNotIn(known: set<string>, reconciled: set<string>, rows: seq<SnapshotHeader>)
    returns (newRows: seq<SnapshotHeader>)
    ensures newRows == NewOpaque(known, reconciled, rows)
  {
    newRows := [];
    for i := 0 to |rows|
      invariant newRows == NewOpaque(known, reconciled, rows[..i])
    {
      assert rows[..i + 1][..i] == rows[..i];
      var id := rows[i].providerId;
      if id.Some? && id.value !in known && id.value !in reconciled {
        newRows := newRows + [rows[i]];
      }
    }
    assert rows[..|rows|] == rows;
  }

  class Store {
    var folders: map<string, Folder>
    var messages: Messages

    constructor ()
      ensures folders == map[] && messages == map[]
    {
      folders, messages := map[], map[];
    }

    function CountersOf(folder: string): Option<Counters>
      reads this
    {
      if folder in folders then Some(folders[folder].counters) else None
    }

    method ReserveSnapshotGeneration(folder: string) returns (generation: int)
      modifies this`folders
      ensures CountersOf(folder) == Some(Reserve(old(CountersOf(folder))))
      ensures generation == CountersOf(folder).value.latest
      ensures generation == if folder in old(folders) then old(folders)[folder].counters.latest + 1 else 1
      ensures folders[folder].counters.applied
        == if folder in old(folders) then old(folders)[folder].counters.applied else 0
      ensures forall f | f != folder ::
        (f in folders <==> f in old(folders)) && (f in folders ==> folders[f] == old(folders[f]))
      ensures folder in old(folders) ==> folders[folder] == old(folders[folder]).(counters := folders[folder].counters)
    {
      var counters := Reserve(CountersOf(folder));
      if folder in folders {
        folders := folders[folder := folders[folder].(counters := counters)];
      } else {
        folders := folders[folder := Folder(None, counters, None)];
      }
      generation := counters.latest;
    }

    /** Reconcile every row in turn; `trace` is the table before and after each turn. */
    method ReconcileRows(folder: string, rows: seq<SnapshotHeader>, counts: map<string, nat>)
      returns (r: Result<Messages, Error>, reconciled: set<string>, ghost trace: seq<Messages>)
      requires AllIdentified(rows)
      requires Counted(counts, rows)
      ensures Turns(trace, folder, rows) && trace[0] == messages
      ensures r.Ok? ==> Reconciliation(trace, folder, rows) && r.value == trace[|rows|]
      ensures r.Ok? ==> reconciled == ReconciledIds(trace, folder, rows)
      ensures r.Err? ==> r.error == UniqueKey && |trace| <= |rows|
      ensures r.Err? ==> Blocked(trace[|trace| - 1], folder, rows, |trace| - 1)
    {
      var m := messages;
      trace, reconciled := [m], {};
      for i := 0 to |rows|
        invariant |trace| == i + 1 && trace[i] == m && trace[0] == messages
        invariant Turns(trace, folder, rows)
        invariant reconciled == set j | 0 <= j < i && |Candidates(trace[j], folder, rows, j)| == 1
                                      :: rows[j].providerId.value
      {
        var turn, found := ReconcileRow(m, folder, rows, i, counts);
        if turn.Err? {
          return turn, {}, trace;
        }
        m := turn.value;
        ghost var was := trace;
        trace := trace + [m];
        assert forall j | 0 <= j <= i :: trace[j] == was[j];
        if found {
          reconciled := reconciled + {rows[i].providerId.value};
        }
      }
      r := Ok(m);
    }

    method RekeyOpaqueMessage(folder: string, providerId: string, uid: int, uidvalidity: int)
      returns (r: Result<(), Error>)
      modifies this`messages
      ensures var m, mine := old(messages), Owned(old(messages), folder, providerId);
        var home := Key(folder, uid, uidvalidity);
        if mine == {} then r == Ok(()) && messages == m
        else if home in m - mine then r == Err(UniqueKey) && messages == m
        else r == Ok(()) && exists k | k in mine :: IsRichest(m, mine, k) && messages == (m - mine)[home := m[k]]
    {
      var collapsed := Collapse(messages, folder, providerId, Key(folder, uid, uidvalidity));
      if collapsed.Err? {
        return Err(collapsed.error);
      }
      messages := collapsed.value;
      return Ok(());
    }

    /** Apply a fetched snapshot in one transaction. `trace` witnesses the turns of an
        opaque reconciliation. */
    method ApplySnapshot(input: Input, now: int)
      returns (r: Result<Output, Error>, ghost trace: seq<Messages>)
      modifies this`folders, this`messages
      // Which of the outcomes it is.
      ensures var flaw := if input.transport.Opaque? then FirstFlaw(input.rows) else None;
        if flaw.Some? then r == Err(InvalidSnapshot(flaw.value))
        else match Gate(old(CountersOf(input.folder)), input.generation)
          case Unreserved => r == Err(UnreservedGeneration)
          case Refuse => r == Ok(Output(false, []))
          case Accept => if r.Ok? then r.value.applied else r.error == UniqueKey && input.transport.Opaque?
      // Nothing is changed unless the snapshot is applied.
      ensures !(r.Ok? && r.value.applied) ==> folders == old(folders) && messages == old(messages)
      ensures r.Ok? && r.value.applied ==>
        && input.folder in old(folders)
        && folders == old(folders)[input.folder := Folder(
             Some(Uidvalidity(input.transport)),
             Counters(input.generation, old(folders)[input.folder].counters.latest), Some(now))]
      ensures r.Ok? && r.value.applied && input.transport.Imap? ==>
        var v := input.transport.uidvalidity;
        var stored := old(folders)[input.folder].uidvalidity;
        && messages == ApplyImap(old(messages), input.folder, stored, v, input.rows, input.complete)
        && r.value.newRows == NewImap(old(messages), input.folder, v, input.rows)
      ensures r.Ok? && r.value.applied && input.transport.Opaque? ==>
        && Distinct(input.rows) && Reconciliation(trace, input.folder, input.rows) && trace[0] == old(messages)
        && messages == FinishOpaque(trace[0], trace[|input.rows|], input.folder, input.rows, input.complete)
        && r.value.newRows == NewOpaque(ProviderIds(old(messages), input.folder),
                                        ReconciledIds(trace, input.folder, input.rows), input.rows)
      ensures r == Err(UniqueKey) ==>
        && Turns(trace, input.folder, input.rows) && trace[0] == old(messages) && |trace| <= |input.rows|
        && Blocked(trace[|trace| - 1], input.folder, input.rows, |trace| - 1)
    {
      trace := [];
      var counts := map[];
      if input.transport.Opaque? {
        var flaw;
        flaw, counts := ValidateOpaque(input.rows);
        if flaw.Some? {
          return Err(InvalidSnapshot(flaw.value)), trace;
        }
        NoFlawIffDistinct(input.rows);
      }
      match Gate(CountersOf(input.folder), input.generation) {
        case Unreserved => return Err(UnreservedGeneration), trace;
        case Refuse => return Ok(Output(false, [])), trace;
        case Accept =>
      }
      var folder, v := input.folder, Uidvalidity(input.transport);
      var stored := folders[folder];
      var m, newRows;
      match input.transport {
        case Imap(_) =>
          var oldMax := MaxUid(messages, folder, v);
          m := ImapRows(messages, folder, stored.uidvalidity, v, input.rows, input.complete);
          newRows := RowsAbove(messages, folder, v, input.rows, oldMax);
        case Opaque =>
          var known := ProviderIds(messages, folder);
          var turns, reconciled;
          turns, reconciled, trace := ReconcileRows(folder, input.rows, counts);
          if turns.Err? {
            return Err(turns.error), trace;
          }
          m := Upsert(turns.value, folder, input.rows);
          if input.complete {
            m := PruneIds(m, folder, known - RowIds(input.rows));
          }
          newRows := RowsNotIn(known, reconciled, input.rows);
      }
      folders := folders[folder := Folder(Some(v), Counters(input.generation, stored.counters.latest), Some(now))];
      messages := m;
      r := Ok(Output(true, newRows));
    }
  }
}
