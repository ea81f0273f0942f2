/**
  The rows of the message table under a provider snapshot: what the statements of
  Store::apply_snapshot do to them, and what the whole sequence achieves.
*/
module SnapshotRows {
  import opened Common

  datatype Key = Key(folder: string, uid: int, uidvalidity: int)

  datatype Headers = Headers(
    messageId: Option<string>, subject: Option<string>, fromAddr: Option<string>,
    toAddrs: Option<string>, dateUnix: Option<int>, flags: string)

  // in_reply_to, refs and thread_id, which no snapshot statement writes.
  datatype ThreadColumns = ThreadColumns(
    inReplyTo: Option<string>, refs: Option<string>, threadId: Option<string>)

  datatype Row = Row(
    headers: Headers, maildirPath: Option<string>, headersOnly: int, fetchedAt: int,
    providerId: Option<string>, thread: ThreadColumns)

  // (folder, uid, uidvalidity) is unique.
  type Messages = map<Key, Row>

  datatype SnapshotHeader = SnapshotHeader(
    uid: int, uidvalidity: int, headers: Headers, fetchedAt: int, providerId: Option<string>)

  function Home(folder: string, row: SnapshotHeader): Key {
    Key(folder, row.uid, row.uidvalidity)
  }

  /** The keys of the folder's rows with this provider id. */
  function Owned(m: Messages, folder: string, id: string): set<Key> {
    set k | k in m && k.folder == folder && m[k].providerId == Some(id)
  }

  // ---- legacy identities ----

  const TWO32: int := 0x1_0000_0000
  const TWO64: int := TWO32 * TWO32

  function Xor(a: nat, b: nat): nat
    decreases a + b
  {
    if a == 0 && b == 0 then 0
    else (if a % 2 != b % 2 then 1 else 0) + 2 * Xor(a / 2, b / 2)
  }

  /** The low half of the 64-bit uid. */
  function LowUid(uid: int): int {
    uid % TWO32
  }

  /** The 64-bit uid with the row's position xored in. */
  function XorUid(uid: int, index: nat): int {
    var bits := Xor(uid % TWO64, index);
    if bits < TWO64 / 2 then bits else bits - TWO64
  }

  function Occurrences(rows: seq<SnapshotHeader>, id: string): nat {
    if rows == [] then 0
    else
      var one := if rows[|rows| - 1].headers.messageId == Some(id) then 1 else 0;
      Occurrences(rows[..|rows| - 1], id) + one
  }

  /** The legacy rows, without provider id, that row `index` of the snapshot may stand for. */
  function Candidates(m: Messages, folder: string, rows: seq<SnapshotHeader>, index: nat): set<Key>
    requires index < |rows|
  {
    var row := rows[index];
    var id := row.headers.messageId;
    var byId := id.Some? && Occurrences(rows, id.value) == 1;
    set k | k in m && k.folder == folder && m[k].providerId.None?
            && (k.uid in {row.uid, LowUid(row.uid), XorUid(row.uid, index)}
                || (byId && m[k].headers.messageId == id))
  }

  // ---- choosing among the rows of one provider id ----

  predicate Richer(a: Row, aUid: int, b: Row, bUid: int) {
    if a.maildirPath.Some? != b.maildirPath.Some? then a.maildirPath.Some?
    else if a.headersOnly != b.headersOnly then a.headersOnly < b.headersOnly
    else if a.fetchedAt != b.fetchedAt then a.fetchedAt > b.fetchedAt
    else aUid > bUid
  }

  ghost predicate IsRichest(m: Messages, keys: set<Key>, k: Key)
    requires keys <= m.Keys
  {
    k in keys && forall j | j in keys :: !Richer(m[j], j.uid, m[k], k.uid)
  }

  /** The row of the provider id in the snapshot settled at its home key: taken from the
      one legacy candidate, or else from the richest row the id had. */
  ghost predicate Turned(m: Messages, m': Messages, folder: string, rows: seq<SnapshotHeader>, index: nat)
    requires index < |rows| && rows[index].providerId.Some?
  {
    var id, home := rows[index].providerId.value, Home(folder, rows[index]);
    var mine, legacy := Owned(m, folder, id), Candidates(m, folder, rows, index);
    if |legacy| == 1 then
      exists c | c in legacy ::
        (home == c || home !in m - mine) && m' == (m - mine - {c})[home := m[c].(providerId := Some(id))]
    else if mine == {} then m' == m
    else
      exists k | k in mine :: IsRichest(m, mine, k) && home !in m - mine && m' == (m - mine)[home := m[k]]
  }

  predicate AllIdentified(rows: seq<SnapshotHeader>) {
    forall i | 0 <= i < |rows| :: rows[i].providerId.Some?
  }

  /** Provider ids and uids each name one row of the snapshot. */
  predicate Distinct(rows: seq<SnapshotHeader>) {
    && AllIdentified(rows)
    && forall i, j | 0 <= i < j < |rows| ::
         rows[i].providerId != rows[j].providerId && rows[i].uid != rows[j].uid
  }

  /** Another row sits where the id's row has to go: the update breaks the unique key. */
  ghost predicate Blocked(m: Messages, folder: string, rows: seq<SnapshotHeader>, index: nat)
    requires index < |rows| && rows[index].providerId.Some?
  {
    var id, home := rows[index].providerId.value, Home(folder, rows[index]);
    var mine, legacy := Owned(m, folder, id), Candidates(m, folder, rows, index);
    home in m - mine && (if |legacy| == 1 then home !in legacy else mine != {})
  }

  /** The tables before and after each of the first turns. */
  ghost predicate Turns(trace: seq<Messages>, folder: string, rows: seq<SnapshotHeader>) {
    && AllIdentified(rows) && 0 < |trace| <= |rows| + 1
    && forall i: nat | i + 1 < |trace| :: Turned(trace[i], trace[i + 1], folder, rows, i)
  }

  ghost predicate Reconciliation(trace: seq<Messages>, folder: string, rows: seq<SnapshotHeader>) {
    Turns(trace, folder, rows) && |trace| == |rows| + 1
  }

  // ---- refreshing and pruning ----

  function UpsertRow(m: Messages, folder: string, row: SnapshotHeader): Messages {
    var home := Home(folder, row);
    if home in m then
      var was := m[home];
      m[home := was.(headers := row.headers,
                     headersOnly := if was.headersOnly < 1 then was.headersOnly else 1,
                     fetchedAt := row.fetchedAt,
                     providerId := if row.providerId.Some? then row.providerId else was.providerId)]
    else
      m[home := Row(row.headers, None, 1, row.fetchedAt, row.providerId, ThreadColumns(None, None, None))]
  }

  function UpsertRows(m: Messages, folder: string, rows: seq<SnapshotHeader>): Messages {
    if rows == [] then m
    else UpsertRow(UpsertRows(m, folder, rows[..|rows| - 1]), folder, rows[|rows| - 1])
  }

  function ProviderIds(m: Messages, folder: string): set<string> {
    set k | k in m && k.folder == folder && m[k].providerId.Some? :: m[k].providerId.value
  }

  function RowIds(rows: seq<SnapshotHeader>): set<string> {
    set i | 0 <= i < |rows| && rows[i].providerId.Some? :: rows[i].providerId.value
  }

  function DropIds(m: Messages, folder: string, ids: set<string>): Messages {
    map k | k in m && !(k.folder == folder && m[k].providerId.Some? && m[k].providerId.value in ids) :: m[k]
  }

  function Uids(m: Messages, folder: string, uidvalidity: int): set<int> {
    set k | k in m && k.folder == folder && k.uidvalidity == uidvalidity :: k.uid
  }

  function RowUids(rows: seq<SnapshotHeader>): set<int> {
    set i | 0 <= i < |rows| :: rows[i].uid
  }

  function DropUids(m: Messages, folder: string, uidvalidity: int, uids: set<int>): Messages {
    map k | k in m && !(k.folder == folder && k.uidvalidity == uidvalidity && k.uid in uids) :: m[k]
  }

  function DropFolder(m: Messages, folder: string): Messages {
    map k | k in m && k.folder != folder :: m[k]
  }

  /** Opaque rows after reconciliation: refreshed, and pruned of the ids that are gone. */
  function FinishOpaque(before: Messages, m: Messages, folder: string, rows: seq<SnapshotHeader>, complete: bool):
    Messages
  {
    var m1 := UpsertRows(m, folder, rows);
    if complete then DropIds(m1, folder, ProviderIds(before, folder) - RowIds(rows)) else m1
  }

  /** IMAP rows: wiped when another uidvalidity was stored, refreshed, pruned. */
  function ApplyImap(m: Messages, folder: string, stored: Option<int>, uidvalidity: int,
                     rows: seq<SnapshotHeader>, complete: bool): Messages {
    var m0 := if stored.Some? && stored.value != uidvalidity then DropFolder(m, folder) else m;
    var m1 := UpsertRows(m0, folder, rows);
    if complete then DropUids(m1, folder, uidvalidity, Uids(m1, folder, uidvalidity) - RowUids(rows)) else m1
  }

  // ---- what is reported as new ----

  /** Above the largest stored uid; above 0 when none is stored. */
  ghost predicate IsNewUid(m: Messages, folder: string, uidvalidity: int, uid: int) {
    var uids := Uids(m, folder, uidvalidity);
    if uids == {} then uid > 0 else forall u | u in uids :: u < uid
  }

  ghost function NewImap(m: Messages, folder: string, uidvalidity: int,
      rows: seq<SnapshotHeader>): seq<SnapshotHeader> {
    if rows == [] then []
    else
      var row := rows[|rows| - 1];
      NewImap(m, folder, uidvalidity, rows[..|rows| - 1])
      + if IsNewUid(m, folder, uidvalidity, row.uid) then [row] else []
  }

  function NewOpaque(known: set<string>, reconciled: set<string>, rows: seq<SnapshotHeader>): seq<SnapshotHeader> {
    if rows == [] then []
    else
      var row := rows[|rows| - 1];
      NewOpaque(known, reconciled, rows[..|rows| - 1])
      + if row.providerId.Some? && row.providerId.value !in known + reconciled then [row] else []
  }

  /** The provider ids whose turn found exactly one legacy candidate. */
  ghost function ReconciledIds(trace: seq<Messages>, folder: string, rows: seq<SnapshotHeader>): set<string>
    requires |trace| > |rows|
  {
    set i | 0 <= i < |rows| && rows[i].providerId.Some? && |Candidates(trace[i], folder, rows, i)| == 1
      :: rows[i].providerId.value
  }
}
