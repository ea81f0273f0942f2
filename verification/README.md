# inbx in Dafny

A model of the parts of the inbx mail client that keep state or transform data, and proofs of what they promise. `dafny verify dfyconfig.toml` checks everything.

A method follows the program's loops and updates and is proved against a specification function; lemmas prove what that function means. Text and bytes are both `string`. A byte is the character with its value; ManageSieve responses are decoded from UTF-8, everywhere else one byte is one character.

- **Threading** (`forest`, `thread_table`, `thread_runs`, `thread_links`, `threading`, `subjects`): a table of containers with guarded parent links and a cached root per container. The links stay a forest over every run. The cached roots do not always stay right; the exact condition and a counterexample are proved.
- **Snapshots** (`snapshot_*`, `sync_protocol`): the transaction that reconciles, refreshes and prunes a folder's rows, and the generation protocol that concurrent syncs run around it.
- **JMAP** (`sse*`, `mailbox_*`, `query_paging`): the incremental event-stream parser against a one-pass parse, mailbox paths, and a paging loop that faces an arbitrary server.
- **mbox** (`mbox`, `mbox_status`, `mbox_headers`, `mbox_export`): quoting, splitting and status headers, end to end from export to import.
- **Calendar** (`calendar`): the forward and backward algorithms and the JMAP year formula against a calendar that counts days.
- **Graph delta** (`graph_*`): compacting a delta against replaying it, and fetches that fail at any statement.
- **Algorithms** (`levenshtein`, `zbase32`, `pgp_*`, `searching`, `sieve*`, `utf8`): edit distance against all edit scripts, the z-base-32 bit buffer against a decoder, PGP/MIME signing against extraction, ManageSieve responses against the grammar of what was written.

`common` and `text` hold options, results and string operations.

Findings where the code and its description differ:

- The comment on `levenshtein` says the distance is capped at 2; it is not (`Levenshtein.NothingInCommon`, and `Distance("aaa", "bbb") == 3` in `DistanceIsNotCapped`), and the uncapped distance is what is proved.
- `root_id` is not always the root after a call of `ingest`: `ThreadRuns.SomeRunLeavesStaleRoot`, with the exact condition in `ThreadTable.CacheIsRightIff`.
- Freshness can be lost when a folder is removed and reappears while a sync of it is in flight: `SyncProtocol.RemovalUnderSyncGoesBackwards`, with the exact condition in `SyncProtocol.RemovalIsSafeIff`.
- A Graph delta applied after compaction keeps a downloaded body that a replay would lose: `GraphFetch.ReplayLosesBody`, with the exact condition in `GraphFetch.RowIsReplayedIff` for a row and `GraphCollisions.FetchEqualsReplayIff` for any table. Two ids with one hash can leave a row a replay would remove, and so can a row that stands away from its id's hash: `GraphCollisions.CollisionBreaksReplay` and `MisplacedRowStays`, with the exact condition in `GraphCollisions.FetchMeansReplayIff`.
- Whether a record close to the event-stream limit is refused depends on how the bytes were cut: `SseLimit.LongestDependsOnCut`, with the exact condition in `SseLimit.SomeCutRefusesIff`.
- A sender with a line break can put text of the separator into an exported message: `MboxExport.BrokenSenderStrays`, with the exact condition in `MboxExport.ExportRoundTripIff`.
- The ManageSieve limits count a literal's bytes as sent, and what is held is its decoded text, up to three times as long: `SieveFraming.LiteralOutgrowsLimit`, with the bound in `Sieve.KeptStaysWithin`.
- A ManageSieve status word is recognised in any case, but only upper-case `OK` counts as success: `SieveFraming.OkInOtherCaseFails`.
- `extract_pgp_mime_parts` indexes out of range when the line of the first delimiter has no end before the line end in front of the second, as with a first part of one empty line: `PgpCrash.EmptyPartCrashes`, with the exact condition in `PgpCrash.CrashesIff`. The model gives the outcome `Crashed`.
- `parse_jmap_date` indexes out of its month table exactly when the month exceeds 13: `Calendar.JmapDateToUnix`.

Hypotheses that the rows below use by name or in short:

- `Valid`, `Cached`, `ThreadIdsRight`: the containers were a forest, the cached roots and the thread ids were right before the call; the row to be completed has no message id yet or the call's.
- `UniqueIds`: no two mailboxes share an id.
- `Tidy` and `NoCollision`: each known Graph id owns the row at its hash, stands nowhere else and owns no other; the hash tells the ids apart. `CoversIds`: a fetch repeated from the same delta link reports at least the ids it reported before.
- `PlainHead`: the outer headers hold neither `boundary="` nor the delimiter.
- `Affordable` and `IsStatus`: what was written is within the limits of the reader and ends with a tagged status.
- `AllAt`: the rows of an IMAP snapshot carry its uidvalidity.

## Model

| member | source | states |
|---|---|---|
| `ThreadRuns.RunIsForest` | crates/inbx-store/src/threading.rs:39-241 | from the empty table, after any sequence of calls with any arguments, no container is above itself, every parent is in the table, and above every container there is exactly one parentless one |
| `ThreadRuns.LaterCallsKeepParents` | crates/inbx-store/src/threading.rs:84-121 | no later call changes or drops a parent once it is set |
| `ThreadRuns.LaterCallsKeepThreads` | crates/inbx-store/src/threading.rs:84-121 | two containers that share a root share one after any further calls |
| `ThreadTable.LinkedGrows` | crates/inbx-store/src/threading.rs:49-174 | one call adds exactly the rows of the message and its chain, keeps every parent already set and every cached root, and leaves a forest, self-references and contradictory chains included |
| `Forest.LinkKeepsForest` | crates/inbx-store/src/threading.rs:93-102 | a link guarded by "no parent yet" and "no cycle" keeps a forest a forest and every parent set |
| `Forest.RootIsUnique` | crates/inbx-store/src/threading.rs:243-260 | the root of a container is the one parentless container above it |
| `ThreadTable.CacheIsRightIff` | crates/inbx-store/src/threading.rs:176-226 | when every cached root was right before a call, they are all right after it if and only if everything the call linked is in the message's tree and, when it linked anything, the message's cached root differed from its root |
| `ThreadTable.BelowRootIsTree` | crates/inbx-store/src/threading.rs:190-208 | the descent from the root visits exactly that root's tree, so the first update relabels the whole tree |
| `ThreadTable.SecondUpdateIsIdle` | crates/inbx-store/src/threading.rs:209-225 | with right caches before and repairable links the second update changes nothing |
| `ThreadTable.RelabelledRow` | crates/inbx-store/src/threading.rs:186-226 | on any forest, stale caches included: unless the message's cached root was right, its whole tree gets its root, and so does everything below a row of another tree that cached the root the message had; all other cached roots stay |
| `ThreadRuns.ParentlessMessageIsRepairable` | crates/inbx-store/src/threading.rs:49-121 | with right caches, a message without a parent, new or already in the table, leaves repairable links when its chain does not name it, no chain entry but the first has a parent, and the first is not in the message's tree |
| `ThreadRuns.SomeRunLeavesStaleRoot` | crates/inbx-store/src/threading.rs:179-226 | from the empty table some run of calls ends with a wrong cached root: correctness without the condition is false |
| `Threading.ThreadIdsStayRight` | crates/inbx-store/src/threading.rs:228-240 | under the same condition every stored row with a message id and a thread id carries its true root as thread id afterwards, the completed row included |
| `Threading.LevelsAreBelow` | crates/inbx-store/src/threading.rs:193-205 | reading the descent level by level collects the rows below the seeds; UNION ALL ends because the rows form a forest |
| `Threading.Threader.WouldCreateCycle` | crates/inbx-store/src/threading.rs:262-280 | answers whether the node is reached by climbing from the proposed parent, on any table, cyclic ones included |
| `Threading.Threader.FindRoot` | crates/inbx-store/src/threading.rs:243-260 | fails exactly when no parentless container is above the start, and otherwise returns one that is |
| `Threading.Threader.Subtree` | crates/inbx-store/src/threading.rs:193-205 | on a forest collects exactly the containers from which a seed is reached |
| `Threading.Threader.InsertPlaceholders` | crates/inbx-store/src/threading.rs:62-80 | inserting in batches of any size adds one placeholder per new chain id, in order |
| `Threading.Threader.LinkReferences` | crates/inbx-store/src/threading.rs:49-121 | the rows of the message and its chain are added, and every container without a parent gets the one the arguments ask for, unless that is below it; the table is the specified one |
| `Threading.Threader.GroupBySubject` | crates/inbx-store/src/threading.rs:123-174 | the older container is the first of the other parentless rows of the same normalised subject; it reads as a reply if a message with its id does; the message is joined to it only when one side reads as a reply and no cycle arises |
| `Threading.Threader.RepairRoots` | crates/inbx-store/src/threading.rs:176-226 | returns the true root and leaves the table as specified |
| `Threading.Threader.Ingest` | crates/inbx-store/src/threading.rs:39-241 | the containers, the returned root and the relabelled messages are those of the specified call; the containers are a forest; parents are those the arguments ask for; every message whose row caches the root gets it as thread id, and nothing else of the messages changes |
| `Threading.Threader.SetThreading` | crates/inbx-store/src/lib.rs:705-753 | threads the row's message under its own or a synthesised id, then gives that row its In-Reply-To, its joined references and its thread id, and completes no other |
| `ThreadLinks.ParentIsAskedFor` | crates/inbx-store/src/threading.rs:62-121 | on any forest: a container without a parent gets the one the arguments ask for, which is the reference before it, for an In-Reply-To that is no reference the last reference, and for the message that In-Reply-To or else the last reference; unless that parent is below it afterwards |
| `ThreadLinks.ParentsFollow` | crates/inbx-store/src/threading.rs:62-121 | with distinct ids, none of which but the first has a parent or holds the first in its tree, the call makes all these links |
| `ThreadLinks.OthersKeepParent` | crates/inbx-store/src/threading.rs:84-174 | a container the call does not name keeps its parent |
| `ThreadLinks.LoneMessageJoinsIff` | crates/inbx-store/src/threading.rs:123-174 | a message without references joins the older root of its subject exactly when one of the two reads as a reply and the root is not below it |
| `ThreadLinks.CallColumns` | crates/inbx-store/src/threading.rs:49-80 | the message's row has a message and its subject's normal form, or keeps the subject it had; other rows keep both, placeholders have neither; new rows are numbered behind old ones |
| `Threading.SyntheticIdsDiffer` | crates/inbx-store/src/lib.rs:725-727 | rows without a message id are threaded under different ids |
| `Threading.RefsComeApart` | crates/inbx-store/src/lib.rs:733-738 | the stored references split into the ones joined |
| `Subjects.NormalizeSubject` | crates/inbx-store/src/threading.rs:290-331 | the loop computes the normal form |
| `Subjects.IsReplyOrFwd` | crates/inbx-store/src/threading.rs:333-352 | answers whether a reply prefix follows the leading tags |
| `Subjects.NormalIsFinal` | crates/inbx-store/src/threading.rs:283-331 | a normal form is its own normal form and never reads as a reply |
| `Subjects.PrefixIsNeutral` | crates/inbx-store/src/threading.rs:306-324 | a reply or forward prefix in any case makes the subject read as a reply and does not change its normal form |
| `Subjects.TagIsNeutral` | crates/inbx-store/src/threading.rs:295-304 | a leading bracketed tag changes neither the normal form nor whether the subject reads as a reply |
| `Subjects.NumberedReplyIsNeutral` | crates/inbx-store/src/threading.rs:315-321 | so does Re[...]: in any case, up to the first closing bracket and colon |
| `Subjects.PlainIsLowered` | crates/inbx-store/src/threading.rs:290-352 | a subject without tag and prefix has its lower case as normal form, without the white space around it, and does not read as a reply |
| `SnapshotStore.Store.ReserveSnapshotGeneration` | crates/inbx-store/src/lib.rs:168-182 | hands out the successor of the latest reserved generation, creating the folder row at 1, and changes nothing else |
| `SnapshotGate.GateIs` | crates/inbx-store/src/lib.rs:216-252 | a snapshot applies exactly under the latest reserved generation, once; it is refused when a later one was reserved or it was applied; else its generation was never handed out |
| `SnapshotStore.NoFlawIffDistinct` | crates/inbx-store/src/lib.rs:188-214 | an opaque snapshot passes validation exactly when every row has a provider id and provider ids and uids are distinct |
| `SnapshotStore.FirstFlawIs` | crates/inbx-store/src/lib.rs:191-214 | of the first flawed row, a missing provider id is reported before a repeated one, and that before a repeated uid |
| `SnapshotStore.ValidateOpaque` | crates/inbx-store/src/lib.rs:188-214 | reports the flaw of the first flawed row, and otherwise the number of rows per message id |
| `SnapshotStore.ReconcileRow` | crates/inbx-store/src/lib.rs:295-353 | settles the row at its home key from the one legacy candidate or the richest row, or fails, exactly when the unique key is taken; says whether there was one candidate |
| `SnapshotStore.Store.ApplySnapshot` | crates/inbx-store/src/lib.rs:184-412 | which of applied, refused, unreserved, invalid or key conflict comes out; that tables are untouched unless applied; and the new folder row, reported rows and message table, which SnapshotColumns describes column by column |
| `SnapshotStore.Store.RekeyOpaqueMessage` | crates/inbx-store/src/lib.rs:620-667 | the richest row of the provider id moves to the new key and its other rows go; a taken key changes nothing |
| `SnapshotTheorems.OneRowPerProviderId` | crates/inbx-store/src/lib.rs:294-360 | after an applied opaque snapshot each of its provider ids owns exactly one row, at its home key, with the snapshot's headers |
| `SnapshotTheorems.CompleteMeansExactIds` | crates/inbx-store/src/lib.rs:361-389 | after a complete opaque snapshot the folder's provider ids are exactly the snapshot's |
| `SnapshotTheorems.RichestBodySurvives` | crates/inbx-store/src/lib.rs:341-352 | without a unique candidate the final row has the body of the richest old row of the id, so a body is kept if any had one |
| `SnapshotTheorems.CandidateBodySurvives` | crates/inbx-store/src/lib.rs:328-338 | with a unique candidate the final row has the candidate's body |
| `SnapshotTheorems.NewOpaqueRows` | crates/inbx-store/src/lib.rs:391-401 | an opaque row is reported as new exactly when its id was neither known nor reconciled from a legacy row |
| `SnapshotTheorems.ImapUidsAreExact` | crates/inbx-store/src/lib.rs:276-375 | after a complete IMAP snapshot the uids at its uidvalidity are the snapshot's, and nothing else is left when another uidvalidity was stored |
| `SnapshotTheorems.NewImapRowWasAbsent` | crates/inbx-store/src/lib.rs:267-273 | an IMAP row reported as new was not stored before |
| `SnapshotTheorems.ReappliedImapIsNotNew` | crates/inbx-store/src/lib.rs:391-401 | the same IMAP rows applied again report nothing new |
| `SnapshotColumns.ImapRowIsRefreshed` | crates/inbx-store/src/lib.rs:276-360 | after an IMAP apply a message the snapshot names has its headers and fetch time, and the body, thread columns, provider id and lesser headers-only mark of the row it had; a new row, or any after a change of uidvalidity, has no body and no thread |
| `SnapshotColumns.ImapRowIsLeft` | crates/inbx-store/src/lib.rs:276-375 | every other row is as before or deleted: rows of other folders stay, rows of the folder go with a change of uidvalidity, and at the snapshot's uidvalidity when it is complete |
| `SnapshotColumns.OpaqueRowIsRefreshed` | crates/inbx-store/src/lib.rs:355-360 | after an opaque apply the row at a snapshot row's key is the one reconciliation left there, refreshed the same way |
| `SnapshotColumns.OpaqueRowIsLeft` | crates/inbx-store/src/lib.rs:376-389 | every other row is left as reconciliation left it, unless the snapshot is complete and the row's id was in the folder before and is not in the snapshot |
| `SnapshotColumns.RichestRowSurvives` | crates/inbx-store/src/lib.rs:341-360 | without a unique candidate the final row keeps body, thread columns and headers-only mark of the richest old row |
| `SnapshotColumns.CandidateRowSurvives` | crates/inbx-store/src/lib.rs:328-360 | with a unique candidate it keeps the candidate's |
| `SnapshotColumns.OtherFoldersStay` | crates/inbx-store/src/lib.rs:294-389 | rows of other folders are left alone by an opaque apply |
| `SnapshotChoice.CandidatesAre` | crates/inbx-store/src/lib.rs:297-327 | a row without provider id is a candidate when its uid is the row's, its low half or its xor with the position, or its message id is the row's and no other row of the snapshot has that |
| `SnapshotChoice.XorBits` | crates/inbx-store/src/lib.rs:299-299 | a bit of the xor is set exactly when the bits of the two numbers differ |
| `SnapshotChoice.XorUidIs` | crates/inbx-store/src/lib.rs:299-299 | the xored uid is the 64-bit number that is the xor in two's complement |
| `SnapshotChoice.RichestIs` | crates/inbx-store/src/lib.rs:341-344 | richest means a body first, then the lesser headers-only mark, then the later fetch, then the greater uid |
| `SnapshotChoice.BlockedIff` | crates/inbx-store/src/lib.rs:328-353 | a turn breaks the unique key exactly when it has no other outcome |
| `SnapshotChoice.NewImapIs` | crates/inbx-store/src/lib.rs:267-273 | an IMAP row is reported exactly when its uid is above every uid stored at the uidvalidity, or above 0 when none is; in order |
| `SnapshotChoice.ReportedIff` | crates/inbx-store/src/lib.rs:391-401 | an opaque row is reported exactly when no row of the folder had its id and its turn did not find just one candidate |
| `SyncProtocol.QuietRunsNeverGoBackwards` | crates/inbx-sync/src/lib.rs:519-530 | from any fresh state, the empty one included, over every interleaving of reserving, fetching, applying, server changes, crashes, folder listings and harmless removals of the folder, applied snapshots never go back to an older state of the server |
| `SyncProtocol.RemovalIsSafeIff` | crates/inbx-store/src/lib.rs:421-467 | removing the folder can never lead back to an older state if and only if every sync in flight is of the first generation and has fetched nothing older than the last snapshot applied |
| `SyncProtocol.KeptFolderAppliesInOrder` | crates/inbx-sync/src/lib.rs:519-530 | when the folder is never removed each generation is applied at most once and in increasing order |
| `SyncProtocol.SupersededNeverApplies` | crates/inbx-store/src/lib.rs:168-170 | once a later generation is reserved an earlier one is never applied again while the folder stays, whatever else happens |
| `SyncProtocol.RemovalUnderSyncGoesBackwards` | crates/inbx-store/src/lib.rs:421-467 | a run from the empty state in which a folder removed under a sync in flight lets an older snapshot replace a newer one |
| `Sse.EventStream.Collect` | crates/inbx-net/src/jmap.rs:33-78 | the payloads collected depend on the bytes alone: unless the size limit is hit they are those of a one-pass parse of the whole stream, however it was cut; the limit is hit exactly when the specified reader refuses these chunks, and never on a stream that is within it or whose records are all five bytes below it |
| `SseLimit.SomeCutRefusesIff` | crates/inbx-net/src/jmap.rs:60-72 | some way of cutting a stream hits the limit if and only if some record of it passes the limit with its first terminator counted, and with the LF of a CRLF before it if that was cut off |
| `SseLimit.LongestDependsOnCut` | crates/inbx-net/src/jmap.rs:60-72 | a record of exactly the limit is delivered in one piece and refused when it is cut before its last LF |
| `Sse.ShortRecordsAreCalm` | crates/inbx-net/src/jmap.rs:60-72 | when every record of the uncut stream is five bytes below the limit, every stretch of that length has the start of a blank line in it, wherever it begins |
| `Sse.EventStream.NextEvent` | crates/inbx-net/src/jmap.rs:33-78 | takes the first payload off the stream and nothing else; end of stream and failure are reported only when nothing is left, oversize only when a record in front runs past the limit, and no payload is lost |
| `Sse.TakeRecord` | crates/inbx-net/src/jmap.rs:36-42 | dropping a record with its delimiter from the buffer takes one payload off the stream, also when a CRLF is cut behind its CR and leaves an LF |
| `Sse.SkipEnding` | crates/inbx-net/src/jmap.rs:40-45 | a line terminator in front of a stream changes no payload |
| `Sse.FindBlankLine` | crates/inbx-net/src/jmap.rs:82-94 | finds the first blank line from three bytes before the start |
| `Sse.DataOf` | crates/inbx-net/src/jmap.rs:43-54 | collects the data lines of a record, which SseRecords.RecordIsRead describes |
| `SseRecords.RecordIsRead` | crates/inbx-net/src/jmap.rs:33-58 | a record of any data fields and other fields, with any of the three line endings and in front of any stream, is read as the texts of its data fields without their leading white space, from the first that is not empty, joined by LF; not at all if all are empty |
| `SseRecords.LinesAreRead` | crates/inbx-net/src/jmap.rs:33-58 | lines that start with no white space, the first not empty, sent as data lines come back joined by LF |
| `SseEvents.EventRoundTripIff` | crates/inbx-net/src/jmap.rs:36-57 | an event sent as one data line, with any of the three line endings and in front of any stream, is read back as sent if and only if its text is not empty, starts with no white space and holds no CR or LF |
| `SseEvents.ParseSplits` | crates/inbx-net/src/jmap.rs:33-58 | what stands behind a blank line is read as a stream of its own |
| `MailboxPaths.ComputePaths` | crates/inbx-net/src/jmap.rs:1431-1476 | with unique ids the memoised recursion ends, and succeeds exactly when every parent is listed and no parents form a cycle; then every mailbox has its path |
| `MailboxPaths.PathFor` | crates/inbx-net/src/jmap.rs:1436-1469 | one mailbox's path, computed through the memo, is right or the hierarchy is reported broken, and the memo stays right |
| `MailboxPaths.PathSplitsIntoNames` | crates/inbx-net/src/jmap.rs:1636-1696 | a path splits into the names from the root down to the mailbox exactly when none of them is empty |
| `MailboxPaths.PathsTellNamesApart` | crates/inbx-net/src/jmap.rs:1431-1476 | two mailboxes share a path if and only if they share their names from the root down, empty names included |
| `MailboxPaths.ResolveMailbox` | crates/inbx-net/src/jmap.rs:1478-1517 | resolves by path in any case, then by role, and fails when the hierarchy is broken |
| `MailboxPaths.OwnPathResolvesIff` | crates/inbx-net/src/jmap.rs:1478-1517 | a mailbox resolves from its own path exactly when no other path differs from it in case alone |
| `MailboxPaths.PathComesFirst` | crates/inbx-net/src/jmap.rs:1478-1498 | a folder resolves to the one mailbox with that path in any case, whatever the roles; a second such mailbox is an error |
| `MailboxPaths.RoleComesNext` | crates/inbx-net/src/jmap.rs:1499-1517 | a folder that is no path resolves, its leading backslashes dropped, to the one mailbox with that role in any case; none and a second one are errors |
| `MailboxNames.SplitMailboxPath` | crates/inbx-net/src/jmap.rs:1643-1696 | the loop computes the split with its errors |
| `MailboxNames.SplitUndoesJoin` | crates/inbx-net/src/jmap.rs:1636-1696 | splitting undoes escaping and joining when no name is empty, and fails otherwise |
| `MailboxNames.JoinUndoesSplit` | crates/inbx-net/src/jmap.rs:1636-1696 | joining the names of any path that splits gives the path back |
| `MailboxNames.JoinTellsApart` | crates/inbx-net/src/jmap.rs:1636-1638 | different lists of names never make the same path |
| `QueryPaging.QueryAllEmailIds` | crates/inbx-net/src/jmap.rs:859-898 | ends against any server; success means distinct ids, as many as advertised, collected from one query state; against an honest server the list comes back whole |
| `QueryPaging.HonestPageIsAccepted` | crates/inbx-net/src/jmap.rs:1534-1568 | a page of an unchanged list is accepted |
| `QueryPaging.AcceptedIff` | crates/inbx-net/src/jmap.rs:1534-1556 | a page is accepted exactly when it is at the position asked for, repeats the state and total of the pages before, and brings ids that are distinct, new and within the total |
| `QueryPaging.WalkIs` | crates/inbx-net/src/jmap.rs:859-898 | the ids collected are those of the pages, each the server's answer at the position where the one before it ended, all of one state and total |
| `QueryPaging.NextPositionIff` | crates/inbx-net/src/jmap.rs:1558-1568 | the walk goes on where the ids end, stops when all are there, and fails when a page was empty or the position has more than 32 bits |
| `QueryPaging.GetEmailHeaders` | crates/inbx-net/src/jmap.rs:900-926 | the ids are asked for in order, in batches of the server's limit but for the last; it succeeds exactly when every batch is answered with one header per id, and the headers are then a permutation of the ids |
| `Mbox.StripUndoesQuote` | apps/inbx/src/mbox.rs:92-157 | stripping undoes From-quoting on every text, and no line of quoted text starts like a separator |
| `Mbox.ApplyFromQuoting` | apps/inbx/src/mbox.rs:92-117 | the loop quotes line by line |
| `Mbox.StripFromQuoting` | apps/inbx/src/mbox.rs:120-157 | the byte loop strips line by line |
| `Mbox.SplitMbox` | apps/inbx/src/mbox.rs:58-90 | the byte loop splits at separator lines and strips each message |
| `Mbox.SplitsAtSeparator` | apps/inbx/src/mbox.rs:58-90 | lines without a separator in front of one are a message of their own, also in front of the first separator; no lines are none |
| `Mbox.SplitsAtEnd` | apps/inbx/src/mbox.rs:58-90 | behind the last separator the message ends with the file, with a line end or without |
| `Mbox.PlainIsStripped` | apps/inbx/src/mbox.rs:120-157 | text without quoted separators is stripped of nothing |
| `MboxExport.ExportRoundTripIff` | apps/inbx/src/main.rs:1745-1778 | splitting an export gives one message per export, each the message with its status headers and one more LF, if and only if every line of the separators starts with "From " |
| `MboxExport.BrokenSenderStrays` | apps/inbx/src/main.rs:1765-1773 | a sender with a line break is such that it does not hold |
| `MboxExport.ExportKeepsFlags` | apps/inbx/src/mbox.rs:159-303 | under that condition the flags read from the i-th message are the supported ones it was exported with |
| `MboxExport.Export` | apps/inbx/src/main.rs:1744-1778 | writes the messages that pass the date filter and have a body, up to the limit |
| `MboxExport.ChosenIs` | apps/inbx/src/main.rs:1745-1764 | without a limit exactly the messages with a body that are no older than the date are exported, in order, one without a date counting as from the epoch |
| `MboxExport.LimitCutsOff` | apps/inbx/src/main.rs:1752-1757 | a limit keeps the first of these |
| `MboxExport.SeparatorDateIs` | apps/inbx/src/mbox.rs:10-24 | the date of a separator is that of the calendar: weekday, month, day padded with a blank, time and year |
| `MboxStatus.FlagsRoundTrip` | apps/inbx/src/mbox.rs:159-303 | whatever status headers a message had, the flags read after injection are exactly the supported flags injected |
| `MboxStatus.InjectStatusHeaders` | apps/inbx/src/mbox.rs:253-303 | replaces the status headers of the header section by the block at its end; MboxHeaders.InjectionKeepsMessage says what stays |
| `MboxHeaders.InjectionKeepsMessage` | apps/inbx/src/mbox.rs:253-303 | header lines that are no status headers and the body are kept as they are; the new status headers stand in front of the first blank line |
| `MboxHeaders.InjectionWithoutBody` | apps/inbx/src/mbox.rs:253-303 | without a blank line the status headers come last |
| `MboxHeaders.OthersAre` | apps/inbx/src/mbox.rs:272-282 | a header line is kept exactly when it is no status header, wherever it stands |
| `MboxHeaders.StatusBlockIs` | apps/inbx/src/mbox.rs:183-224 | the block is a Status line and, unless it is empty, an X-Status line |
| `MboxHeaders.LettersAre` | apps/inbx/src/mbox.rs:183-224 | R stands for seen and is followed by O; F, A, D and T for flagged, answered, deleted and draft |
| `MboxHeaders.FlagListIs` | apps/inbx/src/mbox.rs:159-181 | a flag string made of the five flags contains exactly those asked for |
| `MboxStatus.FlagsFromStatusHeaders` | apps/inbx/src/mbox.rs:159-181 | the five flags of the status letters |
| `MboxStatus.HeaderValue` | apps/inbx/src/mbox.rs:229-251 | the value of the first header of that name in any case |
| `MboxHeaders.HeaderInIs` | apps/inbx/src/mbox.rs:229-251 | the value is that of the first line with the name, trimmed; nothing behind a blank line counts |
| `MboxHeaders.HeaderNameIs` | apps/inbx/src/mbox.rs:236-246 | the name stands in front of the first colon, in any case and with any white space around it |
| `Calendar.ForwardCountsDays` | apps/inbx/src/main.rs:2447-2457 | the forward algorithm counts days as a calendar that only adds up year and month lengths does |
| `Calendar.BackwardFindsDate` | apps/inbx/src/main.rs:4210-4226 | the backward algorithm finds the valid date with that day number |
| `Calendar.BackwardInvertsForward` | apps/inbx/src/main.rs:4210-4226 | every valid date from 1970 on is the one found for its timestamp |
| `Calendar.ForwardInvertsBackwardIff` | apps/inbx/src/mbox.rs:31-50 | the forward count of the decomposed timestamp is the timestamp if and only if the year fits 32 bits |
| `Calendar.CivilRoundTrip` | apps/inbx/src/mbox.rs:31-50 | every valid date and time from 1970 on whose year fits 32 bits is decomposed to itself |
| `Calendar.CastKeepsDate` | apps/inbx/src/mbox.rs:31-50 | the cast to 32 bits replaces the year by its low bits and nothing else |
| `Calendar.JmapDateToUnix` | crates/inbx-net/src/jmap.rs:1571-1596 | on every valid date the year formula and the month loop give the timestamp of civil_to_unix; on any other they count days from the month; the loop indexes past its table exactly when the month exceeds 13 |
| `GraphDelta.PartitionGraphDelta` | apps/inbx/src/main.rs:2261-2282 | the loops compute the live messages and removed ids of the compacted events |
| `GraphDelta.CompactedKeepsLast` | apps/inbx/src/main.rs:2264-2270 | compaction keeps the last event of every id and no other |
| `GraphDelta.PartitionFollowsLastEvent` | apps/inbx/src/main.rs:2272-2281 | an id is live or removed as its last event says, never both |
| `GraphRows.RunIsPointwise` | crates/inbx-store/src/lib.rs:562-600 | when the hash tells the ids apart, a run of statements treats every message on its own and leaves all other rows alone |
| `GraphCollisions.FetchMeansReplayIff` | apps/inbx/src/main.rs:2346-2400 | on any table, whatever ids share a hash: upserting the live messages and deleting the removed ids leaves the same rows with the same server columns as replaying every event in order, if and only if every place settles: the last upsert of a hash is the last event of its id or, when no id of the hash is live, no other row stays; and a row elsewhere that any event removes is removed in the end |
| `GraphCollisions.FetchEqualsReplayIff` | apps/inbx/src/main.rs:2346-2400 | without bodies downloaded the two tables are equal in every column if and only if, besides, a row that is removed and then taken over by a live message had no body and no thread columns |
| `GraphCollisions.MisplacedRowStays` | crates/inbx-store/src/lib.rs:617-620 | a row that an older release left away from its id's hash stays beside the new one when a removal is taken back, where a replay would delete it |
| `GraphCollisions.TidyFetchMeansReplayIff` | apps/inbx/src/main.rs:2346-2400 | in a tidy table that is so if and only if, for every hash with a live id, the last upsert of the hash is the last event of its own id |
| `GraphFetch.FetchMeansReplay` | apps/inbx/src/main.rs:2346-2400 | in particular when no two ids share a hash |
| `GraphRetry.RetryReachesOneRunIff` | apps/inbx/src/main.rs:2346-2404 | on any table, whatever ids share a hash: after a fetch that failed at any statement, a whole fetch of the same or more ids leaves the rows and server columns of that fetch alone, if and only if every place the first one wrote or deleted has a live id in the end, or no other row would have stayed there |
| `GraphFetch.RetryReachesOneRun` | apps/inbx/src/main.rs:2346-2404 | in particular when no two ids share a hash |
| `GraphFetch.SameEventsReachOneRunIff` | apps/inbx/src/main.rs:2346-2404 | when the same events are reported again the rows are equal in every column if and only if a body that only the failed fetch downloaded was there before |
| `GraphFetch.CompactionKeepsBody` | crates/inbx-store/src/lib.rs:568-581 | a body downloaded earlier outlives a removal that a later event takes back |
| `GraphFetch.ReplayLosesBody` | crates/inbx-store/src/lib.rs:997-1020 | a replay would lose that body |
| `GraphFetch.RowIsReplayedIff` | crates/inbx-store/src/lib.rs:562-600 | without bodies downloaded a row comes out of fetch and replay equal in every column if and only if, when an event removes its id and the last one does not, it was not there or had no body and no thread columns |
| `GraphFetch.FetchIsReplayIff` | apps/inbx/src/main.rs:2346-2400 | in a tidy table without collisions the two tables are equal if and only if that holds of every id |
| `GraphHash.IdsCollide` | crates/inbx-net/src/graph.rs:386-395 | two different ids have one hash |
| `GraphCollisions.CollisionBreaksReplay` | apps/inbx/src/main.rs:2370-2371 | with these two ids the fetch keeps a row a replay would have removed |
| `GraphStore.Store.Process` | apps/inbx/src/main.rs:2347-2402 | stops at the first failing statement, having executed exactly the statements before it |
| `GraphStore.Store.Fetch` | apps/inbx/src/main.rs:2284-2297 | the delta link moves on exactly when every statement on the messages was executed |
| `Levenshtein.EditDistance` | crates/inbx-render/src/phishing.rs:19-41 | the two-row loop computes the distance |
| `Levenshtein.DistanceIsMinimum` | crates/inbx-render/src/phishing.rs:19-41 | the distance is the length of a shortest script of single-character inserts, deletes and substitutions |
| `Levenshtein.DistanceIsSymmetric` | crates/inbx-render/src/phishing.rs:19-41 | the distance is symmetric |
| `Levenshtein.TriangleInequality` | crates/inbx-render/src/phishing.rs:19-41 | the distance obeys the triangle inequality |
| `Levenshtein.ZeroMeansEqual` | crates/inbx-render/src/phishing.rs:19-41 | the distance is 0 exactly between equal strings |
| `Levenshtein.NothingInCommon` | crates/inbx-render/src/phishing.rs:18-41 | there is no cap: strings without a common character are as far apart as the longer one is long |
| `ZBase32.ZBase32Encode` | crates/inbx-pgp/src/wkd.rs:35-54 | ceil(8n/5) symbols that are the big-endian five-bit groups of the input, the last filled with zeros, though the buffer overflows; decoding them gives the input |
| `ZBase32.DecodeUndoesEncode` | crates/inbx-pgp/src/wkd.rs:35-54 | the groups cut into eights are the bytes, for every byte string |
| `PgpMime.NormalizeCrlf` | crates/inbx-pgp/src/mime.rs:146-166 | the index loop joins the lines with CRLF |
| `PgpMime.NormalizedKeepsLines` | crates/inbx-pgp/src/mime.rs:145-166 | normalising keeps the lines and leaves no bare CR or LF |
| `PgpMime.NormalizedTwice` | crates/inbx-pgp/src/mime.rs:145-166 | normalising twice is normalising once |
| `PgpMime.NormalIffOnlyCrlf` | crates/inbx-pgp/src/mime.rs:145-166 | exactly the texts without a bare CR or LF are left alone |
| `PgpMail.SignPgpMime` | crates/inbx-pgp/src/mime.rs:33-71 | what is signed is the normalised text; the mail has the specified form; and when its headers cannot be taken for the boundary's declaration or a delimiter, extraction returns the signed text and the trimmed signature if and only if neither hides a delimiter |
| `PgpHeaders.HeaderLinesAre` | crates/inbx-pgp/src/mime.rs:178-206 | the outer headers are one line each for date, sender, every recipient, every copy and subject, and then message id, In-Reply-To, references and Autocrypt where there are any |
| `PgpHeaders.ReferencesJoin` | crates/inbx-pgp/src/mime.rs:199-201 | the references stand on their line in order, joined by blanks |
| `PgpHeaders.EnvelopeIs` | crates/inbx-pgp/src/mime.rs:46-69 | the text of the signed mail |
| `PgpHeaders.BoundariesDiffer` | crates/inbx-pgp/src/mime.rs:169-176 | mails signed at different nanoseconds of a second have different boundaries |
| `PgpRoundTrip.ReadsBackIff` | crates/inbx-render/src/lib.rs:364-442 | the same, for every mail with a boundary as the program makes them |
| `PgpMail.ExtractPgpMimeParts` | crates/inbx-render/src/lib.rs:364-442 | the loop and the slices compute the specified extraction, out-of-range slice included |
| `PgpExtract.PartsAreRead` | crates/inbx-render/src/lib.rs:364-442 | for any text and line endings: the signed text runs from behind the first delimiter's line to the line end in front of the second; the signature is what follows the headers behind that, up to the closing delimiter or the end, without white space at its end |
| `PgpCrash.CrashesIff` | crates/inbx-render/src/lib.rs:388-413 | the extraction indexes out of range if and only if a boundary is declared, its delimiter occurs twice, a line end follows the first, and from there to the second, without a line end right in front of that, there is none of the kind looked for |
| `PgpCrash.EmptyPartCrashes` | crates/inbx-render/src/lib.rs:388-413 | a first part of one empty line is such an input |
| `Sieve.SieveReader.ReadResponseLine` | crates/inbx-net/src/sieve.rs:185-204 | reads one line within the limit in bytes, consuming it and no more, and decodes it |
| `Sieve.SieveReader.ReadResponseUntilDone` | crates/inbx-net/src/sieve.rs:219-274 | reads the specified response, which SieveFraming describes line by line; what is held when it returns, with failure or success, is within the record limit and at most three times the aggregate limit |
| `Sieve.KeptStaysWithin` | crates/inbx-net/src/sieve.rs:219-274 | on every input the records held when the reader stops are within the record limit and take at most three times the bytes of the aggregate limit |
| `Sieve.SieveReader.ReadAnnounced` | crates/inbx-net/src/sieve.rs:244-268 | takes no literal before both limits allow it; decoded it is at most three times as long |
| `SieveFraming.ReadsBack` | crates/inbx-net/src/sieve.rs:219-274 | any response of plain lines and literals within the limits is read back as its records, decoded, whatever bytes the literals hold and whatever its status; it counts as success exactly when the status starts with OK in upper case |
| `SieveFraming.WasWritten` | crates/inbx-net/src/sieve.rs:219-274 | nothing but such a response is answered with success or a server error |
| `SieveFraming.RepliesStayWithin` | crates/inbx-net/src/sieve.rs:219-274 | on every input the records handed out are within the record limit and at most three times the aggregate limit, and within that when the literals were UTF-8 |
| `SieveFraming.LiteralOutgrowsLimit` | crates/inbx-net/src/sieve.rs:43-46 | with the program's limits some answer of 16 MiB is held in 48 MiB, where the aggregate limit is 32 MiB |
| `Utf8.DecodedIsAtMostTriple` | crates/inbx-net/src/sieve.rs:256-258 | decoding takes every byte to at most one character and at most three bytes |
| `Utf8.DecodeUndoesEncode` | crates/inbx-net/src/sieve.rs:256-258 | text written as UTF-8 is read back, so a script comes back as it was put |
| `Utf8.BrokenCharIsReplaced` | crates/inbx-net/src/sieve.rs:256-258 | a character that breaks off becomes one replacement character, however many of its bytes are there |
| `Utf8.WrongSecondIsReplaced` | crates/inbx-net/src/sieve.rs:256-258 | an overlong form, a surrogate and a number past the last code point are replaced from their first byte on |
| `Utf8.StrayByteIsReplaced` | crates/inbx-net/src/sieve.rs:256-258 | a byte that begins no character becomes one replacement character |
| `SieveFraming.OkInOtherCaseFails` | crates/inbx-net/src/sieve.rs:230-236 | a status that spells OK in another case ends the response but counts as a failure |
| `SieveFraming.RefusalEnds` | crates/inbx-net/src/sieve.rs:230-236 | behind any records a line that starts with NO or BYE in any case, or with OK not in capitals, ends the response with the server's error, and nothing behind it is taken |
| `SieveFraming.OkEnds` | crates/inbx-net/src/sieve.rs:230-236 | one that starts with OK in capitals ends it with success and the records |
| `SieveFraming.OtherLinesAreRecords` | crates/inbx-net/src/sieve.rs:237-272 | one that starts with none of the three is a record, and the reading goes on |
| `SieveFraming.RecordStops` | crates/inbx-net/src/sieve.rs:237-245 | a record too many is reported before a line that passes the aggregate limit |
| `SieveFraming.LineStops` | crates/inbx-net/src/sieve.rs:185-204 | a stream that ends within a line, and a line that is too long, are reported as such |
| `SieveFraming.LiteralStops` | crates/inbx-net/src/sieve.rs:246-257 | a literal too long, one that passes the aggregate limit and one cut off are reported as such, and nothing of the first two is taken |
| `SieveFraming.DelimiterStops` | crates/inbx-net/src/sieve.rs:259-269 | so is anything but a line end behind a literal |
| `SieveLiterals.AnnouncementIsRead` | crates/inbx-net/src/sieve.rs:300-311 | a length announced at the end of any line, with or without plus, is read |
| `SieveLiterals.OnlyAnnouncementsAreRead` | crates/inbx-net/src/sieve.rs:300-311 | nothing is read as a length but braces at the end of the line around digits of a 64-bit number, with plus signs on either side |

## Left out

- Sockets, TLS, HTTP, OAuth, the keyring, the async runtime, the TUI, command-line parsing, notifications: no logic of their own.
- SQLite: tables are maps keyed by the unique columns, transactions are all or nothing, `ingest` is atomic. Full-text rows, triggers and migrations are not part of this model.
- Lossy UTF-8 decoding outside ManageSieve: a byte is one character. Trimming of strings knows all Unicode white space, trimming of byte slices the ASCII ones.
- Third-party parsers and cryptography: signing is a function parameter, hashes of provider ids are function parameters.
- Clocks: the time is a parameter.
- Threading.Threader.Ingest: rows get the table's size as row number, which orders them as SQLite's rowid does while rows are never deleted.
- Threading.Threader.GroupBySubject: when several messages share a message id, which one's subject the join sees is left open.
- ThreadRuns.ParentlessMessageIsRepairable: one way only; the condition is what a caller can check before the call, the exact condition on the links made is ThreadTable.CacheIsRightIff.
- Sse.EventStream.Collect: nothing is promised about payloads behind an oversized record, except that none is lost from the stream.
- MailboxPaths.PathFor: with duplicate ids nothing is promised but that it ends; the program keeps the last mailbox of an id.
- QueryPaging.GetEmailHeaders: properties of a header other than its id are carried along unread.
- QueryPaging.QueryAllEmailIds: the listing of an honest server is assumed to fit a 32-bit position, as in the program.
- Calendar.JmapDateToUnix: cutting the digits out of the text is left out.
- Calendar.CastKeepsDate: the last year before the 32-bit limit wraps in January and February as in a release build, where a debug build stops.
- MboxStatus.InjectStatusHeaders: the branch for an empty status block is left out, since there is always a Status line.
- MboxExport.Export: reading message files is a field of the stored message; an unreadable file is a message without body.
- GraphStore.Store.Fetch: the header of a Graph message is one value; formatting of addresses and dates is left out, and so is what `index_message` writes to the search index and the threading columns.
- GraphStore.Store.Process: fetching and writing a body can fail like the statement that records its path; such a failure is the failure of that statement.
- PgpRoundTrip.ReadsBackIff: for headers that hold neither the declaration nor the delimiter; with such headers the outcome depends on their text.
- PgpMail.ExtractPgpMimeParts: the list of parts that the program collects and never uses.
- Sieve.SieveReader.ReadResponseUntilDone: sums are unbounded; the program's check for overflow reports the same error as its check of the limit, which is below the overflow.
- GraphFetch.RowIsReplayedIff: for fetches that download no bodies; a replay of events has none to compare with.
- GraphRetry.RetryReachesOneRunIff: for a second fetch that reports at least the ids of the first, as a delta from the same link does; it compares the server columns.
- Levenshtein: the 64-bit width of the distances.
- Easy members: outbox backoff, autoconfiguration, templates, `escape_like`, XML entities, CalDAV differences, flag-name tables.
- `parse_quoted`, encryption and Autocrypt headers, URL derivation of WKD, JMAP mutations and expunging.
