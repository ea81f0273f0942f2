/** What an applied snapshot leaves in each row, column by column. */
module SnapshotColumns {
  import opened Common
  import opened SnapshotRows
  import opened SnapshotTheorems

  function RowAt(m: Messages, k: Key): Option<Row> {
    if k in m then Some(m[k]) else None
  }

  /** The body and the thread columns the row had; none when there was no row. */
  predicate KeepsBody(was: Option<Row>, now: Row) {
    match was
    case Some(row) => now.maildirPath == row.maildirPath && now.thread == row.thread
    case None => now.maildirPath.None? && now.thread == ThreadColumns(None, None, None)
  }

  /** Whether only the headers are there: as before, but at most 1. */
  predicate KeepsHeadersOnly(was: Option<Row>, now: Row) {
    now.headersOnly == if was.Some? && was.value.headersOnly <= 1 then was.value.headersOnly else 1
  }

  /** The row of a message that the snapshot names. */
  predicate Refreshed(was: Option<Row>, row: SnapshotHeader, now: Row) {
    && now.headers == row.headers && now.fetchedAt == row.fetchedAt
    && KeepsBody(was, now) && KeepsHeadersOnly(was, now)
  }

  /** No other row of the snapshot has the key of row i. */
  predicate OwnKey(folder: string, rows: seq<SnapshotHeader>, i: nat)
    requires i < |rows|
  {
    forall j | 0 <= j < |rows| && j != i :: Home(folder, rows[j]) != Home(folder, rows[i])
  }

  lemma {:induction false} UpsertsKeepBody(m: Messages, folder: string, rows: seq<SnapshotHeader>, k: Key)
    requires k in UpsertRows(m, folder, rows)
    ensures var now := UpsertRows(m, folder, rows)[k];
      && KeepsBody(RowAt(m, k), now)
      && (KeepsHeadersOnly(RowAt(m, k), now) || RowAt(m, k) == Some(now))
  {
    if rows != [] {
      var fewer := rows[..|rows| - 1];
      if k in UpsertRows(m, folder, fewer) {
        UpsertsKeepBody(m, folder, fewer, k);
      } else if k in m {
        UpsertsKeepRows(m, folder, fewer, k);
      }
    }
  }

  lemma {:induction false} UpsertsKeepRows(m: Messages, folder: string, rows: seq<SnapshotHeader>, k: Key)
    requires k in m
    ensures k in UpsertRows(m, folder, rows)
  {
    if rows != [] {
      UpsertsKeepRows(m, folder, rows[..|rows| - 1], k);
    }
  }

  /** The last row of the snapshot at a key refreshes what stood there before all of them. */
  lemma {:induction false} UpsertsRefresh(m: Messages, folder: string, rows: seq<SnapshotHeader>, i: nat)
    requires i < |rows| && forall j | i < j < |rows| :: Home(folder, rows[j]) != Home(folder, rows[i])
    ensures var home, m1 := Home(folder, rows[i]), UpsertRows(m, folder, rows);
      && home in m1 && Refreshed(RowAt(m, home), rows[i], m1[home])
      && (rows[i].providerId.Some? ==> m1[home].providerId == rows[i].providerId)
      && (rows[i].providerId.None? && OwnKey(folder, rows, i) ==>
            m1[home].providerId == if home in m then m[home].providerId else None)
  {
    var fewer, home := rows[..|rows| - 1], Home(folder, rows[i]);
    if i < |rows| - 1 {
      assert forall j | 0 <= j < |fewer| :: fewer[j] == rows[j];
      assert OwnKey(folder, rows, i) ==> OwnKey(folder, fewer, i);
      UpsertsRefresh(m, folder, fewer, i);
    } else {
      assert forall j | 0 <= j < |fewer| :: fewer[j] == rows[j];
      if home in UpsertRows(m, folder, fewer) {
        UpsertsKeepBody(m, folder, fewer, home);
      } else if home in m {
        UpsertsKeepRows(m, folder, fewer, home);
      }
      if OwnKey(folder, rows, i) {
        UpsertKeepsOthers(m, folder, fewer, home);
      }
    }
  }

  predicate IsHome(folder: string, rows: seq<SnapshotHeader>, k: Key) {
    exists i | 0 <= i < |rows| :: k == Home(folder, rows[i])
  }

  /**
    After an IMAP apply a message the snapshot names has its headers, and keeps the body and the
    thread columns its row had; if the folder's uidvalidity changed, no old row of the folder is
    left to have any.
  */
  lemma {:induction false} ImapRowIsRefreshed(m: Messages, folder: string, stored: Option<int>, uidvalidity: int,
      rows: seq<SnapshotHeader>, complete: bool, i: nat)
    requires AllAt(rows, uidvalidity) && i < |rows|
    requires forall j | i < j < |rows| :: rows[j].uid != rows[i].uid
    ensures var k := Key(folder, rows[i].uid, uidvalidity);
      var final := ApplyImap(m, folder, stored, uidvalidity, rows, complete);
      var was := if stored in {None, Some(uidvalidity)} then RowAt(m, k) else None;
      && k in final && Refreshed(was, rows[i], final[k])
      && (rows[i].providerId.Some? ==> final[k].providerId == rows[i].providerId)
      && (rows[i].providerId.None? && OwnKey(folder, rows, i) ==>
            final[k].providerId == if was.Some? then was.value.providerId else None)
  {
    var m0 := if stored.Some? && stored.value != uidvalidity then DropFolder(m, folder) else m;
    var k := Key(folder, rows[i].uid, uidvalidity);
    assert k == Home(folder, rows[i]);
    UpsertsRefresh(m0, folder, rows, i);
    assert rows[i].uid in RowUids(rows);
  }

  /**
    Every other row is left as it was or deleted: rows of other folders stay; rows of the folder go
    with a change of uidvalidity, and at the snapshot's uidvalidity when the snapshot is complete.
  */
  lemma {:induction false} ImapRowIsLeft(m: Messages, folder: string, stored: Option<int>, uidvalidity: int,
      rows: seq<SnapshotHeader>, complete: bool, k: Key)
    requires AllAt(rows, uidvalidity)
    requires forall i | 0 <= i < |rows| :: k != Key(folder, rows[i].uid, uidvalidity)
    ensures var final := ApplyImap(m, folder, stored, uidvalidity, rows, complete);
      var stays := k.folder != folder
        || (stored in {None, Some(uidvalidity)} && !(complete && k.uidvalidity == uidvalidity));
      RowAt(final, k) == if stays then RowAt(m, k) else None
  {
    var m0 := if stored.Some? && stored.value != uidvalidity then DropFolder(m, folder) else m;
    var m1 := UpsertRows(m0, folder, rows);
    forall i | 0 <= i < |rows| ensures k != Home(folder, rows[i]) {
    }
    UpsertKeepsOthers(m0, folder, rows, k);
    if complete && k in m1 && k.folder == folder && k.uidvalidity == uidvalidity {
      assert k.uid in Uids(m1, folder, uidvalidity);
      assert k.uid !in RowUids(rows) by {
        forall i | 0 <= i < |rows| ensures rows[i].uid != k.uid {
          assert k != Key(folder, rows[i].uid, uidvalidity);
        }
      }
    }
  }

  /** After an opaque apply the row at a snapshot row's key is what reconciliation left there,
      refreshed. */
  lemma {:induction false} OpaqueRowIsRefreshed(trace: seq<Messages>, folder: string, rows: seq<SnapshotHeader>,
      complete: bool, i: nat)
    requires Reconciliation(trace, folder, rows) && Distinct(rows) && i < |rows|
    ensures var final, home := FinishOpaque(trace[0], trace[|rows|], folder, rows, complete), Home(folder, rows[i]);
      && home in final && Refreshed(RowAt(trace[|rows|], home), rows[i], final[home])
      && final[home].providerId == rows[i].providerId
  {
    HomesAreDistinct(folder, rows, i);
    UpsertsRefresh(trace[|rows|], folder, rows, i);
    assert rows[i].providerId.value in RowIds(rows);
  }

  /** Every other row is left as reconciliation left it, unless it belongs to an id that the folder
      had before and a complete snapshot does not name. */
  lemma {:induction false} OpaqueRowIsLeft(before: Messages, m: Messages, folder: string, rows: seq<SnapshotHeader>,
      complete: bool, k: Key)
    requires !IsHome(folder, rows, k)
    ensures var final := FinishOpaque(before, m, folder, rows, complete);
      var goes := complete && k in m && k.folder == folder && m[k].providerId.Some?
        && (exists j | j in before :: j.folder == folder && before[j].providerId == m[k].providerId)
        && (forall i | 0 <= i < |rows| :: rows[i].providerId != m[k].providerId);
      RowAt(final, k) == if goes then None else RowAt(m, k)
  {
    UpsertKeepsOthers(m, folder, rows, k);
  }

  /** Without a unique legacy candidate the id's row has all the columns of the richest row the id
      had that no snapshot writes. */
  lemma {:induction false} RichestRowSurvives(trace: seq<Messages>, folder: string, rows: seq<SnapshotHeader>,
      complete: bool, i: nat)
    requires Reconciliation(trace, folder, rows) && Distinct(rows) && i < |rows|
    requires |Candidates(trace[i], folder, rows, i)| != 1
    requires Owned(trace[0], folder, rows[i].providerId.value) != {}
    ensures var mine := Owned(trace[0], folder, rows[i].providerId.value);
      var final, home := FinishOpaque(trace[0], trace[|rows|], folder, rows, complete), Home(folder, rows[i]);
      home in final
      && exists k | k in mine :: IsRichest(trace[0], mine, k) && Refreshed(Some(trace[0][k]), rows[i], final[home])
  {
    var id, home := rows[i].providerId.value, Home(folder, rows[i]);
    var mine := Owned(trace[0], folder, id);
    OwnedAfterTurns(trace, folder, rows, i);
    OpaqueRowIsRefreshed(trace, folder, rows, complete, i);
    assert Turned(trace[i], trace[i + 1], folder, rows, i);
    var k :| k in mine && IsRichest(trace[i], mine, k) && trace[i + 1] == (trace[i] - mine)[home := trace[i][k]];
    assert IsRichest(trace[0], mine, k);
    assert home in Owned(trace[i + 1], folder, id);
  }

  /** With a unique legacy candidate it has the candidate's. */
  lemma {:induction false} CandidateRowSurvives(trace: seq<Messages>, folder: string, rows: seq<SnapshotHeader>,
      complete: bool, i: nat)
    requires Reconciliation(trace, folder, rows) && Distinct(rows) && i < |rows|
    requires |Candidates(trace[i], folder, rows, i)| == 1
    ensures var final, home := FinishOpaque(trace[0], trace[|rows|], folder, rows, complete), Home(folder, rows[i]);
      && home in final
      && forall c | c in Candidates(trace[i], folder, rows, i) ::
           c in trace[0] && Refreshed(Some(trace[0][c]), rows[i], final[home])
  {
    var id, home := rows[i].providerId.value, Home(folder, rows[i]);
    var legacy := Candidates(trace[i], folder, rows, i);
    OwnedAfterTurns(trace, folder, rows, i);
    OpaqueRowIsRefreshed(trace, folder, rows, complete, i);
    assert Turned(trace[i], trace[i + 1], folder, rows, i);
    var c :| c in legacy
      && trace[i + 1] == (trace[i] - Owned(trace[i], folder, id) - {c})[home := trace[i][c].(providerId := Some(id))];
    assert home in Owned(trace[i + 1], folder, id);
    UnclaimedRowsAreOld(trace, folder, rows, i, c);
    OnlyMember(legacy, c);
  }

  /** Rows of other folders are left alone. */
  lemma {:induction false} OtherFoldersStay(trace: seq<Messages>, folder: string, rows: seq<SnapshotHeader>, n: nat,
      complete: bool, k: Key)
    requires Reconciliation(trace, folder, rows) && n <= |rows| && k.folder != folder
    ensures RowAt(trace[n], k) == RowAt(trace[0], k)
    ensures RowAt(FinishOpaque(trace[0], trace[n], folder, rows, complete), k) == RowAt(trace[0], k)
  {
    if n > 0 {
      OtherFoldersStay(trace, folder, rows, n - 1, complete, k);
      assert Turned(trace[n - 1], trace[n], folder, rows, n - 1);
    }
    UpsertKeepsOthers(trace[n], folder, rows, k);
  }
}
