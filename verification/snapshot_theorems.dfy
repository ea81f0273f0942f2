/** What one applied snapshot leaves in the message table. */
module SnapshotTheorems {
  import opened Common
  import opened SnapshotRows

  // ---- reconciliation, turn by turn ----

  /** A row another provider id or another folder owns. */
  ghost predicate IsForeign(m: Messages, folder: string, id: string, k: Key) {
    k in m && (k.folder != folder || (m[k].providerId.Some? && m[k].providerId.value != id))
  }

  lemma {:induction false} TurnKeepsForeign(m: Messages, m': Messages, folder: string, rows: seq<SnapshotHeader>,
      i: nat, k: Key)
    requires i < |rows| && rows[i].providerId.Some? && Turned(m, m', folder, rows, i)
    ensures var id := rows[i].providerId.value;
      && (IsForeign(m, folder, id, k) <==> IsForeign(m', folder, id, k))
      && (IsForeign(m, folder, id, k) ==> m'[k] == m[k])
  {
  }

  lemma {:induction false} TurnSettles(m: Messages, m': Messages, folder: string, rows: seq<SnapshotHeader>, i: nat)
    requires i < |rows| && rows[i].providerId.Some? && Turned(m, m', folder, rows, i)
    ensures Owned(m', folder, rows[i].providerId.value) <= {Home(folder, rows[i])}
  {
  }

  /** Rows without provider id are only ever claimed, never made or changed. */
  lemma {:induction false} UnclaimedRowsAreOld(trace: seq<Messages>, folder: string, rows: seq<SnapshotHeader>,
      i: nat, k: Key)
    requires Reconciliation(trace, folder, rows) && i <= |rows|
    requires k in trace[i] && trace[i][k].providerId.None?
    ensures k in trace[0] && trace[0][k] == trace[i][k]
  {
    if i > 0 {
      assert Turned(trace[i - 1], trace[i], folder, rows, i - 1);
      UnclaimedRowsAreOld(trace, folder, rows, i - 1, k);
    }
  }

  /** The rows of an id change in that id's turn only. */
  lemma {:induction false} OwnedOutsideTurn(trace: seq<Messages>, folder: string, rows: seq<SnapshotHeader>, i: nat,
      j: nat, id: string)
    requires Reconciliation(trace, folder, rows) && i <= j <= |rows|
    requires forall n | i <= n < j :: rows[n].providerId != Some(id)
    ensures Owned(trace[j], folder, id) == Owned(trace[i], folder, id)
    ensures forall k | k in Owned(trace[i], folder, id) :: trace[j][k] == trace[i][k]
    decreases j
  {
    if i < j {
      OwnedOutsideTurn(trace, folder, rows, i, j - 1, id);
      forall k {
        TurnKeepsForeign(trace[j - 1], trace[j], folder, rows, j - 1, k);
      }
    }
  }

  /** What a provider id owns when every turn is over: its home row at most, as its own
      turn left it. */
  lemma {:induction false} OwnedAfterTurns(trace: seq<Messages>, folder: string, rows: seq<SnapshotHeader>, i: nat)
    requires Reconciliation(trace, folder, rows) && Distinct(rows) && i < |rows|
    ensures var id, home := rows[i].providerId.value, Home(folder, rows[i]);
      && Owned(trace[|rows|], folder, id) == Owned(trace[i + 1], folder, id) <= {home}
      && (home in Owned(trace[i + 1], folder, id) ==> trace[|rows|][home] == trace[i + 1][home])
      && Owned(trace[i], folder, id) == Owned(trace[0], folder, id)
      && forall k | k in Owned(trace[0], folder, id) :: trace[i][k] == trace[0][k]
  {
    var id := rows[i].providerId.value;
    OwnedOutsideTurn(trace, folder, rows, 0, i, id);
    OwnedOutsideTurn(trace, folder, rows, i + 1, |rows|, id);
    assert Turned(trace[i], trace[i + 1], folder, rows, i);
    TurnSettles(trace[i], trace[i + 1], folder, rows, i);
  }

  // ---- upserts ----

  lemma {:induction false} UpsertKeepsOthers(m: Messages, folder: string, rows: seq<SnapshotHeader>, k: Key)
    requires forall i | 0 <= i < |rows| :: k != Home(folder, rows[i])
    ensures k in UpsertRows(m, folder, rows) <==> k in m
    ensures k in m ==> UpsertRows(m, folder, rows)[k] == m[k]
  {
    if rows != [] {
      var fewer := rows[..|rows| - 1];
      assert forall i | 0 <= i < |fewer| :: fewer[i] == rows[i];
      UpsertKeepsOthers(m, folder, fewer, k);
    }
  }

  /** Every row of the snapshot is in the table, with its headers if no later row has its key. */
  lemma {:induction false} UpsertStores(m: Messages, folder: string, rows: seq<SnapshotHeader>, i: nat)
    requires i < |rows|
    ensures Home(folder, rows[i]) in UpsertRows(m, folder, rows)
    ensures var home := Home(folder, rows[i]);
      (forall j | 0 <= j < |rows| && j != i :: Home(folder, rows[j]) != home) ==>
        UpsertRows(m, folder, rows)[home] == UpsertRow(m, folder, rows[i])[home]
  {
    var fewer, last := rows[..|rows| - 1], rows[|rows| - 1];
    if i < |rows| - 1 {
      UpsertStores(m, folder, fewer, i);
      assert fewer[i] == rows[i];
    } else if forall j | 0 <= j < |rows| && j != i :: Home(folder, rows[j]) != Home(folder, rows[i]) {
      UpsertKeepsOthers(m, folder, fewer, Home(folder, last));
    }
  }

  lemma HomesAreDistinct(folder: string, rows: seq<SnapshotHeader>, i: nat)
    requires Distinct(rows) && i < |rows|
    ensures forall j | 0 <= j < |rows| && j != i :: Home(folder, rows[j]) != Home(folder, rows[i])
  {
  }

  /** A row not at a home key is one the reconciled table had. */
  lemma {:induction false} HomeOrKept(m: Messages, folder: string, rows: seq<SnapshotHeader>, k: Key)
    requires k in UpsertRows(m, folder, rows)
    ensures (exists i :: 0 <= i < |rows| && k == Home(folder, rows[i]))
         || (k in m && UpsertRows(m, folder, rows)[k] == m[k])
  {
    if forall i | 0 <= i < |rows| :: k != Home(folder, rows[i]) {
      UpsertKeepsOthers(m, folder, rows, k);
    }
  }

  // ---- opaque snapshots ----

  /** After an opaque apply each provider id of the snapshot owns exactly one row, at its
      canonical key and with its new headers. */
  lemma {:induction false} OneRowPerProviderId(trace: seq<Messages>, folder: string, rows: seq<SnapshotHeader>,
      complete: bool, i: nat)
    requires Reconciliation(trace, folder, rows) && Distinct(rows) && i < |rows|
    ensures var final, home := FinishOpaque(trace[0], trace[|rows|], folder, rows, complete), Home(folder, rows[i]);
      && Owned(final, folder, rows[i].providerId.value) == {home}
      && home in final
      && final[home].headers == rows[i].headers && final[home].fetchedAt == rows[i].fetchedAt
      && final[home] == UpsertRow(trace[|rows|], folder, rows[i])[home]
  {
    var m, id, home := trace[|rows|], rows[i].providerId.value, Home(folder, rows[i]);
    var m1 := UpsertRows(m, folder, rows);
    HomesAreDistinct(folder, rows, i);
    UpsertStores(m, folder, rows, i);
    forall k | k in Owned(m1, folder, id) ensures k == home {
      HomeOrKept(m, folder, rows, k);
      if j :| 0 <= j < |rows| && k == Home(folder, rows[j]) {
        HomesAreDistinct(folder, rows, j);
        UpsertStores(m, folder, rows, j);
        assert rows[j].providerId == rows[i].providerId;
      } else {
        assert k in Owned(m, folder, id);
        OwnedAfterTurns(trace, folder, rows, i);
      }
    }
    assert id in RowIds(rows);
    assert Owned(m1, folder, id) == {home};
  }

  /** After a complete opaque apply the folder's provider ids are the snapshot's. */
  lemma {:induction false} CompleteMeansExactIds(trace: seq<Messages>, folder: string, rows: seq<SnapshotHeader>)
    requires Reconciliation(trace, folder, rows) && Distinct(rows)
    ensures ProviderIds(FinishOpaque(trace[0], trace[|rows|], folder, rows, true), folder) == RowIds(rows)
  {
    var m := trace[|rows|];
    var m1, final := UpsertRows(m, folder, rows), FinishOpaque(trace[0], m, folder, rows, true);
    forall id | id in RowIds(rows) ensures id in ProviderIds(final, folder) {
      var i :| 0 <= i < |rows| && rows[i].providerId == Some(id);
      OneRowPerProviderId(trace, folder, rows, true, i);
      assert Home(folder, rows[i]) in Owned(final, folder, id);
    }
    forall k | k in final && k.folder == folder && final[k].providerId.Some?
      ensures final[k].providerId.value in RowIds(rows)
    {
      var id := final[k].providerId.value;
      if id !in RowIds(rows) {
        KeptIdIsOld(trace, folder, rows, k, id);
      }
    }
  }

  lemma {:induction false} KeptIdIsOld(trace: seq<Messages>, folder: string, rows: seq<SnapshotHeader>, k: Key,
      id: string)
    requires Reconciliation(trace, folder, rows) && Distinct(rows)
    requires id !in RowIds(rows) && k in Owned(UpsertRows(trace[|rows|], folder, rows), folder, id)
    ensures id in ProviderIds(trace[0], folder)
  {
    var m := trace[|rows|];
    HomeOrKept(m, folder, rows, k);
    if j :| 0 <= j < |rows| && k == Home(folder, rows[j]) {
      assert rows[j].providerId.value in RowIds(rows);
      HomesAreDistinct(folder, rows, j);
      UpsertStores(m, folder, rows, j);
    } else {
      OwnedOutsideTurn(trace, folder, rows, 0, |rows|, id);
      assert k in Owned(trace[0], folder, id);
    }
  }

  /** Without a unique legacy candidate the id's row keeps the body of the richest row the
      id had, so a body is kept if any of them had one. */
  lemma {:induction false} RichestBodySurvives(trace: seq<Messages>, folder: string, rows: seq<SnapshotHeader>,
      complete: bool, i: nat)
    requires Reconciliation(trace, folder, rows) && Distinct(rows) && i < |rows|
    requires |Candidates(trace[i], folder, rows, i)| != 1
    requires Owned(trace[0], folder, rows[i].providerId.value) != {}
    ensures var mine := Owned(trace[0], folder, rows[i].providerId.value);
      var final, home := FinishOpaque(trace[0], trace[|rows|], folder, rows, complete), Home(folder, rows[i]);
      && home in final
      && (exists k | k in mine :: IsRichest(trace[0], mine, k) && final[home].maildirPath == trace[0][k].maildirPath)
      && ((exists k | k in mine :: trace[0][k].maildirPath.Some?) ==> final[home].maildirPath.Some?)
  {
    var id, home := rows[i].providerId.value, Home(folder, rows[i]);
    var mine := Owned(trace[0], folder, id);
    OwnedAfterTurns(trace, folder, rows, i);
    OneRowPerProviderId(trace, folder, rows, complete, i);
    assert Turned(trace[i], trace[i + 1], folder, rows, i);
    var k :| k in mine && IsRichest(trace[i], mine, k) && trace[i + 1] == (trace[i] - mine)[home := trace[i][k]];
    assert IsRichest(trace[0], mine, k);
    assert home in Owned(trace[i + 1], folder, id);
  }

  /** With a unique legacy candidate the id's row keeps the candidate's body; the
      candidate is a row the table had before the apply. */
  lemma {:induction false} CandidateBodySurvives(trace: seq<Messages>, folder: string, rows: seq<SnapshotHeader>,
      complete: bool, i: nat)
    requires Reconciliation(trace, folder, rows) && Distinct(rows) && i < |rows|
    requires |Candidates(trace[i], folder, rows, i)| == 1
    ensures var final, home := FinishOpaque(trace[0], trace[|rows|], folder, rows, complete), Home(folder, rows[i]);
      && home in final
      && forall c | c in Candidates(trace[i], folder, rows, i) ::
           c in trace[0] && final[home].maildirPath == trace[0][c].maildirPath
  {
    var id, home := rows[i].providerId.value, Home(folder, rows[i]);
    var legacy := Candidates(trace[i], folder, rows, i);
    OwnedAfterTurns(trace, folder, rows, i);
    OneRowPerProviderId(trace, folder, rows, complete, i);
    assert Turned(trace[i], trace[i + 1], folder, rows, i);
    var c :| c in legacy && trace[i + 1] == (trace[i] - Owned(trace[i], folder,
        id) - {c})[home := trace[i][c].(providerId := Some(id))];
    assert home in Owned(trace[i + 1], folder, id);
    UnclaimedRowsAreOld(trace, folder, rows, i, c);
    OnlyMember(legacy, c);
  }

  lemma OnlyMember<T>(s: set<T>, x: T)
    requires |s| == 1 && x in s
    ensures s == {x}
  {
    assert |s - {x}| == 0;
  }

  // ---- IMAP snapshots ----

  predicate AllAt(rows: seq<SnapshotHeader>, uidvalidity: int) {
    forall i | 0 <= i < |rows| :: rows[i].uidvalidity == uidvalidity
  }

  lemma {:induction false} UidsAfterUpserts(m: Messages, folder: string, rows: seq<SnapshotHeader>, uidvalidity: int)
    requires AllAt(rows, uidvalidity)
    ensures Uids(UpsertRows(m, folder, rows), folder, uidvalidity) == Uids(m, folder, uidvalidity) + RowUids(rows)
    ensures forall k | k in UpsertRows(m, folder, rows) && k.folder == folder && k.uidvalidity != uidvalidity :: k in m
  {
    var m1 := UpsertRows(m, folder, rows);
    forall k | k in m1 && k.folder == folder
      ensures k in m || (k.uidvalidity == uidvalidity && k.uid in RowUids(rows))
    {
      HomeOrKept(m, folder, rows, k);
    }
    forall k | k in m && k.folder == folder ensures k in m1 {
      if i :| 0 <= i < |rows| && k == Home(folder, rows[i]) {
        UpsertStores(m, folder, rows, i);
      } else {
        UpsertKeepsOthers(m, folder, rows, k);
      }
    }
    forall u | u in RowUids(rows) ensures u in Uids(m1, folder, uidvalidity) {
      var i :| 0 <= i < |rows| && rows[i].uid == u;
      UpsertStores(m, folder, rows, i);
      assert Home(folder, rows[i]) in m1;
    }
    forall u | u in Uids(m, folder, uidvalidity) ensures u in Uids(m1, folder, uidvalidity) {
      assert Key(folder, u, uidvalidity) in m1;
    }
  }

  /** After a complete IMAP apply the uids at its uidvalidity are the snapshot's, and after
      a change of uidvalidity nothing else is left of the folder. */
  lemma {:induction false} ImapUidsAreExact(m: Messages, folder: string, stored: Option<int>, uidvalidity: int,
      rows: seq<SnapshotHeader>)
    requires AllAt(rows, uidvalidity)
    ensures var final := ApplyImap(m, folder, stored, uidvalidity, rows, true);
      && Uids(final, folder, uidvalidity) == RowUids(rows)
      && (stored.Some? && stored.value != uidvalidity ==>
            forall k | k in final && k.folder == folder :: k.uidvalidity == uidvalidity)
  {
    var m0 := if stored.Some? && stored.value != uidvalidity then DropFolder(m, folder) else m;
    var m1 := UpsertRows(m0, folder, rows);
    var gone := Uids(m1, folder, uidvalidity) - RowUids(rows);
    UidsAfterUpserts(m0, folder, rows, uidvalidity);
    var final := DropUids(m1, folder, uidvalidity, gone);
    forall u | u in RowUids(rows) ensures u in Uids(final, folder, uidvalidity) {
      assert u in Uids(m1, folder, uidvalidity);
      assert Key(folder, u, uidvalidity) in final;
    }
  }

  lemma {:induction false} NewImapRows(m: Messages, folder: string, uidvalidity: int, rows: seq<SnapshotHeader>,
      row: SnapshotHeader)
    ensures row in NewImap(m, folder, uidvalidity, rows) <==> row in rows && IsNewUid(m, folder, uidvalidity, row.uid)
  {
    if rows != [] {
      NewImapRows(m, folder, uidvalidity, rows[..|rows| - 1], row);
      assert rows == rows[..|rows| - 1] + [rows[|rows| - 1]];
    }
  }

  /** A row reported as new was not stored. */
  lemma {:induction false} NewImapRowWasAbsent(m: Messages, folder: string, uidvalidity: int,
      rows: seq<SnapshotHeader>, row: SnapshotHeader)
    requires AllAt(rows, uidvalidity) && row in NewImap(m, folder, uidvalidity, rows)
    ensures row in rows && Home(folder, row) !in m
  {
    assert row in rows ==> Home(folder, row).uidvalidity == uidvalidity;
    assert Key(folder, row.uid, uidvalidity) in m ==> row.uid in Uids(m, folder, uidvalidity);
    NewImapRows(m, folder, uidvalidity, rows, row);
  }

  /** The same rows applied again report nothing new. */
  lemma {:induction false} ReappliedImapIsNotNew(m: Messages, folder: string, stored: Option<int>, uidvalidity: int,
      rows: seq<SnapshotHeader>, complete: bool)
    requires AllAt(rows, uidvalidity)
    ensures NewImap(ApplyImap(m, folder, stored, uidvalidity, rows, complete), folder, uidvalidity, rows) == []
  {
    var m0 := if stored.Some? && stored.value != uidvalidity then DropFolder(m, folder) else m;
    var final := ApplyImap(m, folder, stored, uidvalidity, rows, complete);
    UidsAfterUpserts(m0, folder, rows, uidvalidity);
    forall u | u in RowUids(rows) ensures u in Uids(final, folder, uidvalidity) {
      assert u in Uids(UpsertRows(m0, folder, rows), folder, uidvalidity);
      assert Key(folder, u, uidvalidity) in final;
    }
    var reported := NewImap(final, folder, uidvalidity, rows);
    forall row | row in rows ensures !IsNewUid(final, folder, uidvalidity, row.uid) {
      assert row.uid in RowUids(rows);
      assert row.uid in Uids(final, folder, uidvalidity);
    }
    if reported != [] {
      NewImapRows(final, folder, uidvalidity, rows, reported[0]);
    }
  }

  /** A row is reported as new exactly when its id was neither known nor reconciled. */
  lemma {:induction false} NewOpaqueRows(known: set<string>, reconciled: set<string>, rows: seq<SnapshotHeader>,
      row: SnapshotHeader)
    ensures row in NewOpaque(known, reconciled, rows)
       <==> row in rows && row.providerId.Some? && row.providerId.value !in known + reconciled
  {
    if rows != [] {
      NewOpaqueRows(known, reconciled, rows[..|rows| - 1], row);
      assert rows == rows[..|rows| - 1] + [rows[|rows| - 1]];
    }
  }
}
