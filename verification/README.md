# A verified model of the mail server's core

This project models the parts of the mail server whose correctness is hardest to
see by reading the code, and proves what they promise.

- **The shared mailbox store.** Several daemons keep one maildir. Each works on a
  snapshot of the uid table and publishes it by a locked read, merge and write.
  The merge runs on two open-addressed hash tables. The project models the hash
  tables, the merge (as a function and as the loops that compute it), the scan,
  store, expunge and registration that feed it, and every run of any number of
  daemons over one file. It also models the text of the two sidecar files.
- **The IMAP engine.** The linear-time substring search; SEARCH programs, the
  classifiers that decide what to load, and the scan cut into slices; the command
  reader that wraps literals into quoted strings and the tokenizer that undoes it;
  the FETCH generator under back-pressure.
- **MIME.** The part walk and the resolution of a part number.
- **DKIM.** The streaming body canonicalizer, header canonicalization, and the
  bytes that signer and verifier each hash.
- **SPF.** The mutually recursive evaluator over an arbitrary zone, with its
  shared lookup budget, and what a record says, read from its printed text.
- **JSON and message intake.** The JMAP JSON reader against the grammar of RFC 8259,
  the resumable scan for the end of DATA, and dot stuffing.

`dafny verify dfyconfig.toml` checks the whole project.

## Layout

| file | what it models |
|---|---|
| `Common.dfy` | text at an offset, decimal numbers, 32-bit counters |
| `HashTables.dfy` | `BaseHash` and `UidSet` |
| `Uidlist.dfy`, `UidlistMerge.dfy`, `UidlistStore.dfy` | the merge as a function, its theorems, its loops |
| `Mailbox.dfy`, `MailboxStore.dfy`, `Daemons.dfy` | one session, its loops, runs of many sessions |
| `UidlistFile.dfy`, `HeaderFile.dfy`, `DaemonFiles.dfy` | the two sidecar files, and the texts that runs write |
| `Kmp.dfy`, `Search.dfy`, `SearchPump.dfy` | SEARCH |
| `Tokenizer.dfy`, `CommandReader.dfy` | commands and literals |
| `FetchPump.dfy`, `FetchConn.dfy`, `FetchParts.dfy` | FETCH as a step system, its connection object, and the literals of MIME parts |
| `Mime.dfy` | MIME parts |
| `DkimBody.dfy`, `DkimHeader.dfy`, `DkimTags.dfy`, `DkimSelect.dfy`, `DkimSign.dfy` | DKIM |
| `Spf.dfy`, `SpfText.dfy` | SPF, and what printed records say |
| `DataScan.dfy` | the end of DATA, dot stuffing |
| `JsonText.dfy`, `Json.dfy`, `JsonReader.dfy` | the JSON reader as functions and as the cursor over the text |
| `JsonGrammar.dfy` | the grammar of RFC 8259, and that exactly its texts are accepted |

## Where the code does less than it seems to

Each claim names theorems: an input for which the code falls short, or exactly when it
does, and in most cases both.

- Two daemons that list the same new files in different orders can change a uid
  that was already published (`Daemons.StaleScansRenumber`). A save keeps the uid
  of every surviving row exactly when the rows it overrides agree with the file
  (`UidlistMerge.DiskUidsStableIff`).
- A new file that one scan lists twice, as when it moves from new/ to cur/ between
  the two listings, is tombstoned by that scan and not published
  (`Daemons.ListedTwiceIsUnpublished`). A scan and its save publish a listed name
  exactly when it was in the table or is listed once (`Daemons.ScanHealsTable`).
- A merge can publish a uid that is not below uidnext
  (`UidlistMerge.ExhaustedCounterExample`). It publishes distinct uids below
  uidnext exactly when the 32-bit counter does not run out
  (`UidlistMerge.MergeIsSound`).
- A FETCH of large literals to a slow reader can send the bytes of a literal
  without its announcement: `stream_lit` goes on after `gen_flush` has closed the
  connection, and the poll loop still drains a closed connection
  (`FetchPump.MisframedReply`). `FetchPump.TurnIff` gives the exact condition of
  one pass and `FetchPump.RunIff` that of a run; `FetchPump.SmallReplyIsSafe` is a
  condition on the reply.
- A signed message with a repeated header may fail to verify
  (`DkimSign.RepeatedHeaderExample`). Signer and verifier hash the same bytes
  exactly when the repeated headers read the same top-down and bottom-up
  (`DkimSign.InputsAgreeIff`).
- The number the MIME walk reports for a part can resolve to another part
  (`Mime.EmptyPartExample`; `Mime.EmptyPartMisleads` for every multipart header). It
  resolves to that part exactly when no empty part stands before it or before one of
  its ancestors (`Mime.ReportedPartResolvesIff`).
- An empty search string answered from the header cache matches messages that
  lack the field (`Search.EmptyNeedleDiffers`); a header key answers like the file
  exactly under `NeedleOk` (`Search.HeaderAgrees`). A parenthesised search group
  never matches, whatever it holds (`Search.GroupNeverMatches`).
- A BODY or TEXT search reads a file only up to the remaining budget. The comment at
  src/imapd_imap.c:2326-2332 says that this can at worst turn a match into a miss.
  It can also turn a miss into a match, under NOT (`SearchPump.CutNegationGains`)
  or where the cut moves the end of the header (`SearchPump.CutBodyGains`). Programs
  whose content keys all stand under an even number of NOTs only lose matches
  exactly when each header value and the body of the bytes read are found in those of
  the file (`SearchPump.CutOnlyLosesIff`); programs whose content keys all stand
  under an odd number only gain them under the same condition
  (`SearchPump.CutOnlyGainsIff`); and all programs answer alike exactly when the
  whole file was read (`SearchPump.CutIsInvisibleIff`).
- A literal is dispatched with all its bytes, but the tokenizer reads the command as a
  C string: it gives the literal back exactly when that holds no NUL, and calls the
  command malformed otherwise (`Tokenizer.LiteralRoundTrip`,
  `CommandReader.LiteralSurvives`).
- A command line beyond the limit is refused or not depending on where the stream
  is cut (`CommandReader.OverlongLineDependsOnCut`). A chunking is invisible
  exactly when no cut falls into a line that is already too long and ends later
  (`CommandReader.CutAnywhere`, `CommandReader.ChunkingIsInvisible`).
- An SPF term that begins with a or mx is read as that mechanism of the domain itself,
  unless it is all or a colon follows, so the prefix length of `a/24` is ignored
  (`SpfText.OwnHostsIff`).
- A command line is dropped without an answer exactly when it ends in "+}" and holds no
  opening brace (`CommandReader.PlusLineIsDropped`).
- A uidlist row whose base has a space is not read back
  (`UidlistFile.SpacedBaseExample`); a table is read back exactly when every base is
  one word and every Message-ID one line (`UidlistFile.LoadSavedIff`). A header
  cache row with long numbers is not read back (`HeaderFile.CutGuardExample`); a row
  is exactly when its uid is not 0 and its guard columns fit a 48-byte buffer
  (`HeaderFile.RowRoundTripIff`).

## Model

| member | source | states |
|---|---|---|
| Probing.ProbeStep | src/imap_maildir.c:1082-1101 | a probe step past another key keeps the probe's history and brings every free slot strictly closer, so the loop ends |
| Probing.FreeSlotProvesAbsence | src/imap_maildir.c:1094-1101 | a probe that reaches a free slot without meeting the key proves the key is nowhere in the table |
| Probing.InsertKeepsPlacement | src/imap_maildir.c:1082-1092 | writing an absent key into the slot its probe stopped at leaves every key reachable from its home and no key twice |
| Probing.FreeSlotExists | src/imap_maildir.c:1071-1080 | a table with fewer keys than slots has a free slot |
| BaseHashes.BaseHash.constructor | src/imap_maildir.c:1071-1080 | an empty map over more than n slots, a power of two of them |
| BaseHashes.BaseHash.Probe | src/imap_maildir.c:1082-1101 | terminates at the key's slot or at a free slot that proves its absence |
| BaseHashes.BaseHash.Put | src/imap_maildir.c:1082-1092 | the map with the binding added or replaced, nothing else changed |
| BaseHashes.BaseHash.Get | src/imap_maildir.c:1094-1101 | the last value put, or absence, exactly |
| UidSets.UidSet.constructor | src/imap_maildir.c:1234-1242 | an empty set over more than n slots |
| UidSets.UidSet.Probe | src/imap_maildir.c:1244-1254 | terminates at the uid's slot or at a free slot that proves its absence |
| UidSets.UidSet.Add | src/imap_maildir.c:1244-1254 | true exactly on first insertion, the set grows by exactly that uid, and 0 is never stored |
| Uidlist.UidOfMeaning | src/imap_maildir.c:1488-1495 | the uid reported for a base is the one its row holds, 0 exactly when there is no row |
| Uidlist.SelectBases | src/imap_maildir.c:1316-1378 | the selection has exactly one row for each named, numbered, undeleted base of the sources |
| Uidlist.SelectFromSource | src/imap_maildir.c:1316-1378 | every selected row is an eligible source row |
| Uidlist.SelectedRowWins | src/imap_maildir.c:1344-1378 | every selected row has a strictly higher modseq than earlier rows of its base and at least that of later ones |
| Uidlist.WinnerIsSelected | src/imap_maildir.c:1344-1378 | and every such row is selected |
| Uidlist.ResolveUids | src/imap_maildir.c:1380-1390 | with room, the uids after resolution are the old ones and a run of minted ones from the counter, none twice |
| Uidlist.ResolveRows | src/imap_maildir.c:1380-1390 | with room, the first row of each uid is untouched; the others keep base and Message-ID and get a fresh uid |
| Uidlist.ResolveSound | src/imap_maildir.c:1380-1390 | both together, with the final counter above every uid |
| Uidlist.LargestUidStays | src/imap_maildir.c:1380-1390 | a uid of 2^32 - 1 survives in some row |
| Uidlist.OverflowMintsLargest | src/imap_maildir.c:1380-1390 | once the counter runs out, 2^32 - 1 is published |
| Uidlist.ResolveSoundIff | src/imap_maildir.c:1380-1390 | resolved uids are distinct and below the counter if and only if the counter has room |
| Uidlist.RoomForFewRows | src/imap_maildir.c:1380-1390 | uids far enough below 2^32 always leave room |
| Uidlist.MintsCounter | src/imap_maildir.c:1384-1390 | a minted uid is the counter, or 1 at the end of the 32-bit range, never 0 |
| Uidlist.ResolveGivesNoZero | src/imap_maildir.c:1380-1390 | with or without room, no row gets the uid 0 |
| UidlistMerge.MergeIsSound | src/imap_maildir.c:1298-1405 | for every snapshot, file and tombstones: the published table is sound if and only if the counter has room; generation and, with room, uidnext never go back |
| UidlistMerge.ResolveKeepsNames | src/imap_maildir.c:1380-1390 | resolution never renames, drops or reorders a row |
| UidlistMerge.MergePublishesUnion | src/imap_maildir.c:1316-1378 | within one generation, exactly the bases of file and snapshot minus the saver's tombstones |
| UidlistMerge.MergePublishesNewest | src/imap_maildir.c:1316-1337 | for named, numbered rows: a save by a newer generation publishes exactly the bases of the snapshot, one by an older generation exactly those of the file, a first save those of the snapshot, each minus the tombstones and under the newer generation |
| UidlistMerge.MergePublishesNumbered | src/imap_maildir.c:1344-1390 | whatever the inputs, no published row is nameless, tombstoned or under the uid 0 |
| UidlistMerge.MergePicksHigherModseq | src/imap_maildir.c:1344-1378 | of a base on both sides, memory only on strictly higher modseq, otherwise disk |
| UidlistMerge.DiskUidsStableIff | src/imap_maildir.c:1344-1390 | every surviving disk row keeps its uid if and only if the overriding memory rows agree on the uid |
| UidlistMerge.DiskUidStable | src/imap_maildir.c:1344-1390 | the same row by row, without asking that memory bases be distinct |
| UidlistMerge.DisagreeingOverrideChangesUid | src/imap_maildir.c:1344-1390 | an override with another uid does change the published uid |
| UidlistMerge.OnlyNewRowsReminted | src/imap_maildir.c:1380-1390 | a re-minted row is in memory only, keeps base and Message-ID, and gets a uid of at least both uidnext values |
| UidlistMerge.NewRowIsPublished | src/imap_maildir.c:1344-1390 | a row in memory alone is published under its base and Message-ID; it keeps uid and modseq, uids in memory being distinct, if and only if no undeleted disk row has its uid |
| UidlistMerge.UnstableUidExample | src/imap_maildir.c:1344-1390 | a concrete save that changes a published uid |
| UidlistMerge.ExhaustedCounterExample | src/imap_maildir.c:1380-1390 | a snapshot with the largest uid publishes a table that is not sound |
| UidlistStore.RowBuffer.Append | src/imap_maildir.c:1358-1377 | the row array grows by exactly that row, reallocation included |
| UidlistStore.RowBuffer.Overwrite | src/imap_maildir.c:1349-1357 | exactly one row is replaced in place |
| UidlistStore.TombTable | src/imap_maildir.c:1331-1339 | the table holds exactly the tombstoned bases |
| UidlistStore.AbsorbRow | src/imap_maildir.c:1344-1378 | one turn of the selection loop is one step of the selection, with the index kept |
| UidlistStore.SelectRows | src/imap_maildir.c:1344-1378 | the loop over arrays and hash tables computes the selection |
| UidlistStore.RaiseNext | src/imap_maildir.c:1382-1383 | the counter raised above every uid |
| UidlistStore.ResolveRow | src/imap_maildir.c:1384-1390 | one row of the second uid loop |
| UidlistStore.ResolveInPlace | src/imap_maildir.c:1384-1390 | the in-place loop with its uid set computes the resolution |
| UidlistStore.MergeTables | src/imap_maildir.c:1298-1405 | the whole imperative merge equals the merge function |
| UidlistStore.ProbeUid | src/imap_maildir.c:1488-1495 | the reported uid is the one the written rows hold |
| Mailbox.LookupMeaning | src/imap_maildir.c:1624-1637 | the table lookup of the scan finds a row of the base exactly when there is one |
| Mailbox.AssignRows | src/imap_maildir.c:1586-1700 | for every listing, repeated names included: new rows get distinct uids at or above the loaded counter; known rows are a prefix of the result; bases are exactly known plus listed |
| Mailbox.AssignMsgs | src/imap_maildir.c:1586-1700 | one view entry per listed file, under the uid of its row |
| Mailbox.PruneRows | src/imap_maildir.c:1786-1815 | the swap-remove loop keeps exactly the live rows and tombstones exactly the others |
| Mailbox.SwapRemove | src/imap_maildir.c:1797-1812 | overwriting by the last row and shrinking drops exactly that row |
| Mailbox.LiveIffListed | src/imap_maildir.c:1786-1815 | after the assignment a row is live if and only if its file is listed and no row of its name has a larger uid |
| Mailbox.TwiceIffTwoRows | src/imap_maildir.c:1586-1700 | a new name gets several rows if and only if it is listed more than once |
| Mailbox.ScanEstablishes | src/imap_maildir.c:1715-1859 | a scan leaves exactly the listed names, known ones under their old uid, new ones at or above the counter; its tombstones are exactly the vanished names and the new names listed more than once |
| Mailbox.ScanIsTopped | src/imap_maildir.c:1715-1859 | the modseq a scan leaves is the largest of its view |
| Mailbox.StoredSession | src/imap_maildir.c:1906-1948 | STORE gives the first message of the uid, its row and the session the next modseq, and changes nothing else; a message without a row is given one |
| Mailbox.StoreTops | src/imap_maildir.c:1906-1982 | after STORE that message has a modseq above every other of the view, and STORE and EXPUNGE keep the session's modseq at or above all |
| Mailbox.SecondStoreIsHigher | src/imap_maildir.c:1906-1948 | a second STORE, to whatever message, gets a strictly higher modseq than the first |
| Mailbox.ExpungedView | src/imap_maildir.c:1967-1977 | EXPUNGE takes the first message of the uid out of the view, order kept; with distinct uids, no message of that uid is left and every other one is |
| Mailbox.ExpungedRows | src/imap_maildir.c:1952-1982 | the rows are the old ones without the first row of that uid, whose base is tombstoned; with distinct uids, exactly the rows of other uids stay |
| MailboxStore.IndexRows | src/imap_maildir.c:1739-1747 | the index built over the loaded table |
| MailboxStore.AssignFiles | src/imap_maildir.c:1586-1700 | the directory loop computes the assignment |
| MailboxStore.IndexSeen | src/imap_maildir.c:1788-1796 | the table of seen names |
| MailboxStore.PruneVanished | src/imap_maildir.c:1786-1815 | the prune loop computes the prune |
| MailboxStore.Mbox.Register | src/imap_maildir.c:2014-2032 | the loaded table with one more row, for a base that has none |
| MailboxStore.RegisterMessage | src/imap_maildir.c:1991-2048 | a base with a row reports its uid and writes nothing; any other gets a row, and the uid reported is the one in the written table |
| MailboxStore.Mbox.FindView | src/imap_maildir.c:1906-1915 | index of the message with that uid |
| MailboxStore.Mbox.FindRow | src/imap_maildir.c:1952-1964 | index of the row with that uid |
| MailboxStore.Mbox.StoreFlags | src/imap_maildir.c:1906-1948 | message and row get the next modseq, the rest is unchanged; success exactly when the uid is in the view |
| MailboxStore.Mbox.Remove | src/imap_maildir.c:1952-1982 | message and row are dropped and the base tombstoned; success exactly when the uid is in the view |
| MailboxStore.Mbox.SaveLocked | src/imap_maildir.c:1423-1504 | the table written is the merge, the uid reported the one it holds |
| Daemons.StepIsSafe | src/imap_maildir.c:1298-1504 | every step of any session keeps the published table sound and never rewinds it |
| Daemons.RunIsSafe | src/imap_maildir.c:1298-1504 | in every run, at every two points: soundness, and uidnext and uidvalidity never decrease |
| Daemons.SparedRowStays | src/imap_maildir.c:1316-1378 | a step by a session that did not delete a base keeps it published |
| Daemons.RegistrationSurvives | src/imap_maildir.c:1316-1378 | a published registration stays published over a run until a session that deleted it, or one of a newer generation, saves |
| Daemons.SparedUidStays | src/imap_maildir.c:1344-1390 | and keeps its uid where the save agrees |
| Daemons.UidStaysOverRun | src/imap_maildir.c:1344-1390 | the same over whole runs |
| Daemons.ReportIsPublished | src/imap_maildir.c:1488-1495 | the reported uid is the published one, 0 exactly when the base is absent |
| Daemons.RegistrationIsPublished | src/imap_maildir.c:1991-2036 | a saved registration is published, whatever other daemons saved in between, if and only if the file is not of a newer generation or has the base anyway |
| Daemons.RegisteredRow | src/imap_maildir.c:1991-2048 | what is published of it has its Message-ID and a uid of at least the loaded uidnext, and is exactly the registered row if and only if no row of the file has that uid by now |
| Daemons.ScanHealsTable | src/imap_maildir.c:1715-1859 | a scan and its save leave exactly the listed files, known ones under their uids, save for new files listed more than once |
| Daemons.FirstSavePublishesSnapshot | src/imap_maildir.c:1298-1405 | the first save of a clean snapshot publishes it unchanged |
| Daemons.NewerSavePublishesSnapshot | src/imap_maildir.c:1316-1337 | a clean snapshot of a newer generation than the file is published row for row |
| Daemons.OlderSaveKeepsFile | src/imap_maildir.c:1316-1337 | a save by an older generation leaves the published rows as they are |
| Daemons.ScanNumbersInOrder | src/imap_maildir.c:1586-1700 | any number of new files of a new mailbox, each listed once, get the uids 1, 2, 3, ... in listing order |
| Daemons.StaleScansRenumber | src/imap_maildir.c:1298-1504 | a concrete run of two daemons that changes a published uid |
| Daemons.ListedTwiceIsUnpublished | src/imap_maildir.c:1715-1859 | a new file listed twice in one scan is in no table that session saves |
| Daemons.TombstonedIsUnpublished | src/imap_maildir.c:1316-1378 | whatever the file holds, a save publishes no row the session deleted |
| Daemons.TombsStay | src/imap_maildir.c:1906-1982 | storing and expunging never forget a deletion |
| Daemons.ExpungedIsGone | src/imap_maildir.c:1952-1982 | exactly the message at the first place of that uid leaves the view, and no save of that session publishes its row again |
| Daemons.StoredModseqIsPublished | src/imap_maildir.c:1906-1948 | after a STORE a save publishes the row with the higher modseq under its uid; a row that is not in the file is published as it is if and only if no undeleted row of the file has its uid, otherwise under a new uid of at least both counters |
| UidlistFile.ScanDigits | src/imap_maildir.c:1125-1142 | the number reader reads a printed number and stops after it |
| UidlistFile.RowLoads | src/imap_maildir.c:1134-1185 | a written row is read back, Message-ID and modseq included |
| UidlistFile.LoadSaved | src/imap_maildir.c:1111-1190 | loading the text of a table of writable rows gives the table |
| UidlistFile.LoadedRowsAreWritable | src/imap_maildir.c:1134-1185 | whatever the file holds, every row a load returns is writable |
| UidlistFile.SignedScan | src/imap_maildir.c:1125-1142 | what sscanf reads of blanks, a sign and digits: the number modulo 2^64, the largest one beyond |
| UidlistFile.NoScan | src/imap_maildir.c:1125-1142 | and nothing where no digit follows |
| UidlistFile.OldRowLoads | src/imap_maildir.c:1134-1185 | a line of uid and base alone, as older files have it, is a row of modseq 1 |
| UidlistFile.BadTailLoads | src/imap_maildir.c:1158-1171 | and so is one with something else than a number behind the base |
| UidlistFile.StopsAtLine | src/imap_maildir.c:1134-1185 | the load stops at a uid that is 0 or no 32-bit number and at an empty base |
| UidlistFile.StopsAtNumber | src/imap_maildir.c:1134-1150 | and at a number with no space behind it |
| UidlistFile.HeadReads | src/imap_maildir.c:1122-1133 | a generation beyond 32 bits is read as 0, such a counter as 1 |
| UidlistFile.HeadKeeps | src/imap_maildir.c:1122-1133 | a head without two numbers leaves both as they were |
| UidlistFile.LoadSavedIff | src/imap_maildir.c:1470-1481 | load after save is the identity if and only if every row is writable |
| UidlistFile.SpacedBaseExample | src/imap_maildir.c:1470-1481 | a base with a space is not read back |
| UidlistFile.LoadLoop | src/imap_maildir.c:1134-1187 | the loader's loop computes the rows |
| DaemonFiles.PublishedTextLoads | src/imap_maildir.c:1423-1504 | in every run over one-word bases and one-line Message-IDs, loading the text of any published table gives that table |
| HeaderFile.UnescapeEscape | src/imap_maildir.c:385-399 | unescaping undoes escaping for every value |
| HeaderFile.EscapedIsOneColumn | src/imap_maildir.c:385-399 | an escaped value holds neither separator |
| HeaderFile.UnescapeInPlace | src/imap_maildir.c:435-453 | the in-place loop computes the unescaped value; the writer never overtakes the reader |
| HeaderFile.ColumnsOfJoined | src/imap_maildir.c:537-556 | splitting joined columns gives the columns |
| HeaderFile.GuardCut | src/imap_maildir.c:424-426 | a guard text that is too long loses the end of its last column and nothing else |
| HeaderFile.CutReads | src/imap_maildir.c:567-580 | a time cut short is read as another time |
| HeaderFile.RowRoundTripIff | src/imap_maildir.c:402-432 | a written row is read back if and only if its uid is nonzero and the guard columns fit the buffer |
| HeaderFile.SignedColumn | src/imap_maildir.c:567-580 | what sscanf reads of a signed column, clamped to 64 bits |
| HeaderFile.NoSignedColumn | src/imap_maildir.c:567-580 | and nothing where no digit follows |
| HeaderFile.OtherLines | src/imap_maildir.c:502-590 | an empty line is skipped, any other line that is no row ends the load |
| HeaderFile.HeadMissing | src/imap_maildir.c:494-505 | a file without a line end holds nothing, one whose head is no 32-bit number is of generation 0 |
| HeaderFile.CutGuardExample | src/imap_maildir.c:424-426 | a file with a long size and modification time, a guard text one character too long: the row is not read back |
| HeaderFile.SavedFileLoadsIff | src/imap_maildir.c:482-640 | load after save is the identity if and only if every row fits |
| HeaderFile.Hydrate | src/imap_maildir.c:1764-1780 | messages of one uid that have no block get the rows of that uid, one each in order, and no other changes; whatever the order of the rows, none gets a row of another uid |
| HeaderFile.DistinctDue | src/imap_maildir.c:1764-1780 | where uids are distinct, that is the first row of the uid, and none if and only if there is no such row |
| Kmp.FallBack | src/imapd_imap.c:168-199 | falling back to the longest border loses no longer match |
| Kmp.FallTo | src/imapd_imap.c:183-193 | the fall-back loop ends at the longest match that can go on |
| Kmp.BuildFail | src/imapd_imap.c:179-188 | every table entry is the longest proper border |
| Kmp.Search | src/imapd_imap.c:189-198 | the leftmost occurrence, or proof that there is none |
| Kmp.CiStrstr | src/imapd_imap.c:168-199 | absence if and only if no case-insensitive occurrence exists, otherwise the leftmost one, for every input |
| Search.EvaluateHeader | src/imapd_imap.c:1003-1031 | a header key answered from index, cache or bytes, through the substring search |
| Search.Evaluate | src/imapd_imap.c:980-1069 | the recursive matcher on its substring search computes the evaluation |
| Search.ClassifiersAgree | src/imapd_imap.c:846-931 | how the four classifiers exclude and imply each other, on every program |
| Search.ModeIsEnough | src/imapd_imap.c:2299-2305 | the file is read exactly for BODY or TEXT, the cache alone serves exactly the cacheable programs, and no content key is left without data |
| Search.CachedKeyIff | src/imapd_imap.c:1013-1026 | a cached field answers like the file if and only if the needle is nonempty or the file has the field |
| Search.WordsAreHeaders | src/imapd_imap.c:998-1031 | FROM, TO, CC, BCC and SUBJECT mean the header of that name |
| Search.CachedHeaders | src/imapd_imap.c:1013-1026 | the cache answers for From, To, Cc, Bcc, Subject and Date, in any case, and for no other header |
| Search.HeaderAgrees | src/imapd_imap.c:1003-1031 | one header key, in any mode that serves it, answers like the file if and only if its needle is nonempty or the answer is no stored "" for a missing field |
| Search.AgreesWhenServed | src/imapd_imap.c:980-1069 | so does every program a mode serves, under that condition on each of its keys |
| Search.ChosenModeAgrees | src/imapd_imap.c:2299-2364 | for every program whose header keys meet that condition, evaluation in the chosen mode is the meaning on the whole message |
| Search.NonemptyIsOk | src/imapd_imap.c:1003-1031 | programs with nonempty needles meet it on every message |
| Search.EmptyNeedleDiffers | src/imapd_imap.c:1013-1026 | with an empty needle the cached answer and the meaning differ |
| Search.ProgramIsConjunction | src/imapd_imap.c:807-841 | the chain built for several keys matches if and only if every key does |
| Search.GroupNeverMatches | src/imapd_imap.c:535-567 | a parenthesised group matches nothing |
| SearchPump.SearchGen.EnsureHeaders | src/imap_maildir.c:306-351 | the cache ensured or the budget too small; the budget never wraps, and reading starts only while it can pay the allowance |
| SearchPump.SearchGen.Load | src/imapd_imap.c:2318-2370 | the content handed to the matcher depends on the budget only where whole files are read: then it is the file cut at the budget, and the budget falls by what was read |
| SearchPump.SearchGen.Visit | src/imapd_imap.c:2318-2435 | one message: its number is added exactly when it matches what it was handed |
| SearchPump.SearchGen.Slice | src/imapd_imap.c:2312-2437 | a slice adds exactly the matching messages it passes, passes at least one or ends, goes on with whole files until the budget is spent, and extracts at most the budget and one header block |
| SearchPump.HitsJoin | src/imapd_imap.c:2312-2437 | replies of adjacent slices join to the reply of both, budgets included |
| SearchPump.RunSearch | src/imapd_imap.c:2312-2451 | however the scan is sliced, the reply lists exactly the messages that match what they are handed, in order, in at most one slice per message and one more; of whole files exactly the first `CutAt` bytes are searched |
| SearchPump.ReadableIsHonest | src/imapd_imap.c:2318-2370 | what the matcher is handed tells the truth about the file, from the entry alone: a whole file is readable and fits the budget; a header block looks up like the file, or at its cap the whole file is read; the cache counts, or is fresh, or is extracted from such a block |
| SearchPump.HitsAreAnswers | src/imapd_imap.c:2299-2451 | that list is the messages the program is true of, when index and cache are about the files and what the mode reads of each message is there (`Readable`) |
| SearchPump.CutRestarts | src/imapd_imap.c:2312-2345 | a slice that begins where one ended cuts every file as the whole scan does |
| SearchPump.CutOnlyLosesIff | src/imapd_imap.c:2325-2336 | on a message and a cut, all file-reading programs with no negated content key only lose matches if and only if every header value and the body of the bytes read are found in those of the file |
| SearchPump.CutOnlyGainsIff | src/imapd_imap.c:2325-2336 | under exactly that condition all file-reading programs with only negated content keys only gain matches |
| SearchPump.CutIsInvisibleIff | src/imapd_imap.c:2325-2336 | all file-reading programs answer on the bytes read as on the file if and only if the whole file was read |
| SearchPump.CutOnlyLoses | src/imapd_imap.c:2325-2336 | a match on the cut file is one on the whole file, for every program with no negated content key, where what is found in the bytes read is found in the file |
| SearchPump.CutOnlyGains | src/imapd_imap.c:2325-2336 | and the other way round where every content key is negated |
| SearchPump.PlainCutKeeps | src/imapd_imap.c:934-944 | a cut that leaves the header end in place and at most shortens header values meets that condition |
| SearchPump.CutHitsAreTrue | src/imapd_imap.c:2325-2336 | so every message that such a scan of whole files reports is one the program is true of |
| SearchPump.CutNegationGains | src/imapd_imap.c:2325-2336 | a scan with NOT that reports a message its whole file does not match |
| SearchPump.CutBodyGains | src/imapd_imap.c:934-944 | a BODY search that matches in the first bytes and not in the whole file |
| SearchPump.ExtractHolds | src/imap_maildir.c:241-262 | an extraction makes the cache hold the file's values |
| Tokenizer.QuoteLength | src/imapd_imap.c:3601-3614 | wrapping at most doubles the length |
| Tokenizer.NextAstringLoop | src/imapd_imap.c:390-438 | the cursor loop computes the token |
| Tokenizer.UnquoteQuote | src/imapd_imap.c:400-425 | on any text, unquoting gives back the wrapped bytes, quotes and backslashes included |
| Tokenizer.UnquoteOpen | src/imapd_imap.c:400-425 | a quoted text that ends before its closing quote has no token |
| Tokenizer.CutNulQuote | src/imapd_imap.c:3596-3617 | wrapping keeps NUL bytes where they are: the C string of the wrapped bytes is the wrapped C string |
| Tokenizer.LiteralRoundTrip | src/imapd_imap.c:390-438 | in the C string of a command, a wrapped literal without NUL is tokenized back to exactly its bytes, anywhere in the command; one with a NUL is malformed |
| Tokenizer.AtomRoundTrip | src/imapd_imap.c:426-438 | an unquoted word behind any spaces is tokenized to exactly its bytes, up to the next special byte or the end |
| Tokenizer.NoToken | src/imapd_imap.c:390-438 | any other special byte there is malformed, and the end of the command has no token |
| CommandReader.AdvanceFits | src/imapd_imap.c:3580-3720 | every turn keeps the budget, and a literal once admitted is never refused midway |
| CommandReader.RunFits | src/imapd_imap.c:3580-3720 | in every run no assembled or dispatched command exceeds 2 * max_msg + 1024 bytes |
| CommandReader.CutAnywhere | src/imapd_imap.c:3580-3720 | for every reader within the budget: feeding a stream in two parts gives the same commands, state and refusals if and only if the cut is not in a line already too long whose end is in the second part |
| CommandReader.ChunkingIsInvisible | src/imapd_imap.c:3580-3720 | every chunking ends like the whole stream if and only if no cut splits such a line |
| CommandReader.OverlongLineDependsOnCut | src/imapd_imap.c:3624-3634 | the line limit is the exception: refused without its line end, accepted with it |
| CommandReader.ShortLinesNeverSplit | src/imapd_imap.c:3624-3634 | a stream none of whose prefixes ends in an overlong line is split by no chunking |
| CommandReader.MarkerIsRead | src/imapd_imap.c:3652-3700 | a printed marker is recognized, stripped, and its number read back, in both forms |
| CommandReader.MarkerOpens | src/imapd_imap.c:3635-3716 | the marker line opens a literal of exactly the announced length |
| CommandReader.MarkerDecides | src/imapd_imap.c:3652-3716 | a marker of 0 bytes, of more than 2^31 - 1 or of more than max_msg closes the connection, one beyond the budget refuses the command, every other one opens its literal |
| CommandReader.MarkerIff | src/imapd_imap.c:369-387 | a line that ends in a number in braces is a marker if and only if the number is neither 0 nor above 2^31 - 1 |
| CommandReader.NoMarker | src/imapd_imap.c:369-387 | a line with something else before a closing brace, or without one, is no marker |
| CommandReader.PlusLineIsDropped | src/imapd_imap.c:3652-3680 | a line is dropped, neither dispatched nor refused, if and only if it ends in "+}" and holds no opening brace |
| CommandReader.LiteralIsWrapped | src/imapd_imap.c:3595-3623 | the bytes of an admitted literal end up quoted in the command |
| CommandReader.LiteralSurvives | src/imapd_imap.c:3580-3720 | from the marker line to the dispatched command, in both forms, under every chunking that splits no overlong line: one command is dispatched, and, no NUL standing before it, the token at the place of the marker is exactly the literal, or malformed if and only if the literal holds a NUL |
| CommandReader.LiteralSurvivesAnyChunking | src/imapd_imap.c:3580-3720 | and under every chunking when the two lines are within the line limit |
| CommandReader.Conn.TakeLiteral | src/imapd_imap.c:3596-3617 | exactly the taken bytes move, escaped, from input to command |
| CommandReader.Conn.HandleLine | src/imapd_imap.c:3635-3716 | a complete line: marker, dispatch or refusal |
| CommandReader.Conn.Turn | src/imapd_imap.c:3589-3720 | one turn of the loop |
| CommandReader.Conn.Process | src/imapd_imap.c:3580-3720 | the loop runs to the end of the input |
| FetchPump.RegionIsWindow | src/imapd_imap.c:2951-3056 | the region of a literal stays inside the message and holds exactly the requested window of the section |
| FetchParts.PartIsFetched | src/imapd_imap.c:2999-3055 | for every part path that resolves, the literal of BODY[path], BODY[path.TEXT] or BODY[path.MIME] is the requested window of that part |
| FetchParts.HeaderAndTextArePart | src/imapd_imap.c:3023-3036 | header and text of a part, fetched one after the other, are the part |
| FetchParts.ReportedPartIsFetched | src/imap_maildir.c:2827-3089 | the number the walk reports for a part fetches that part, where no empty part stands before it on the way |
| FetchPump.AnnouncedLength | src/imapd_imap.c:3291-3296 | a reader of the announced number finds exactly the literal in that many bytes, whatever follows |
| FetchPump.HeadIsRead | src/imapd_imap.c:3405-3412 | a reader of a response finds the number of its message |
| FetchPump.FlushStream | src/imapd_imap.c:302-338 | a flush loses bytes only by closing a dead connection |
| FetchPump.FlushTextStream | src/imapd_imap.c:3382-3398 | text is queued whole and in order or the connection is closed |
| FetchPump.StreamKeeps | src/imapd_imap.c:3334-3380 | streaming a literal keeps sent, queued and owed bytes equal to the reply, unless the buffer is overfull |
| FetchPump.TurnKeeps | src/imapd_imap.c:3400-3447 | so does every pass of the pump |
| FetchPump.TurnIff | src/imapd_imap.c:3334-3447 | after a pass the stream is a prefix of the reply if and only if the buffer was not overfull or the unannounced bytes read like the announcement |
| FetchPump.RunIff | src/imapd_imap.c:3400-3453 | over a run on a live socket the stream is a prefix of the reply if and only if no pass misframed it |
| FetchPump.RunKeeps | src/imapd_imap.c:3400-3453 | the invariant over every run of passes, completion and drains |
| FetchPump.StreamIsPrefix | src/imapd_imap.c:3219-3453 | whatever way the socket drains, the stream is a prefix of the sequential rendering, and all of it once the generator is gone without a close, unless a pass finds the buffer overfull |
| FetchPump.PassProgress | src/imapd_imap.c:3400-3447 | every pass makes progress or closes the connection |
| FetchPump.SmallReplyIsSafe | src/imapd_imap.c:3334-3453 | a reply that fits the buffer is never misframed, and only a failing socket cuts it short |
| FetchPump.MisframedReply | src/imapd_imap.c:3334-3380 | a concrete run in which the socket takes literal bytes without their announcement, so that what it got is no prefix of the reply |
| FetchConn.Connection.ConnFlush | src/imapd_imap.c:302-338 | the send loop, for every way the socket answers |
| FetchConn.Connection.GenFlush | src/imapd_imap.c:3382-3398 | the text moves to the output, or stays and the connection closes |
| FetchConn.Connection.FillOutput | src/imapd_imap.c:3340-3370 | the chunk loop moves exactly as many bytes as fit |
| FetchConn.Connection.StreamLiteral | src/imapd_imap.c:3334-3380 | stream_lit on the connection's fields |
| FetchConn.Connection.EmitItem | src/imapd_imap.c:3219-3329 | emit_item on the generator's fields |
| FetchConn.Connection.Step | src/imapd_imap.c:3405-3446 | one pass of the loop |
| FetchConn.Connection.TaggedReply | src/imapd_imap.c:3448-3452 | the tagged reply, and the generator is gone |
| FetchConn.Connection.Pump | src/imapd_imap.c:3400-3453 | the pump terminates; what it does is a run of the step system, and it stops only when done, closed or half full |
| Mime.PartsInOrder | src/imap_maildir.c:2792-2823 | parts lie inside the body, in order and apart |
| Mime.PartsOfBody | src/imap_maildir.c:2792-2823 | of a printed multipart body the parts are exactly the spans of its texts, nothing of the preamble and nothing behind the closing delimiter, with CRLF or LF |
| Mime.PrintedPartResolves | src/imap_maildir.c:2792-2848 | the number k of a printed multipart message resolves to exactly the k-th text and its header end, a number beyond the last to nothing |
| Mime.ResolveInside | src/imap_maildir.c:2827-2848 | a resolved part lies inside the part it was resolved from |
| Mime.WalkLeads | src/imap_maildir.c:2971-3089 | every reported part lies in its subtree's range and resolves when empty siblings are counted |
| Mime.WalkSolid | src/imap_maildir.c:3052-3087 | its number counts no empty sibling if and only if none stands on the way |
| Mime.ReportedPartResolvesIff | src/imap_maildir.c:2827-3089 | a reported number resolves to the reported start, end and header end if and only if no empty part stands before it on the way |
| Mime.EmptyPartMisleads | src/imap_maildir.c:2827-3089 | the same behind every header that declares the boundary |
| Mime.EmptyPartExample | src/imap_maildir.c:2827-3089 | a multipart message with an empty first part: the second part is reported under a number that resolves to the empty one |
| Mime.ReportNests | src/imap_maildir.c:2971-3089 | every part lies in its ancestors' bodies; parts not nested are disjoint and in order |
| Mime.FindDelimiter | src/imap_maildir.c:2801-2806 | the delimiter loop finds the first delimiter |
| Mime.ScanPart | src/imap_maildir.c:2800-2822 | the step the delimiter loops share |
| Mime.KthPart | src/imap_maildir.c:2792-2823 | exactly the k-th part of the list, absence otherwise |
| Mime.MimePart | src/imap_maildir.c:2827-2848 | the path loop computes the resolution |
| Mime.WalkChildren | src/imap_maildir.c:3052-3087 | the children's loop reports exactly the nonempty children, in order |
| Mime.WalkParts | src/imap_maildir.c:2971-3089 | the recursive walk terminates and reports exactly the walk |
| DkimBody.WrittenIsCanon | src/dkim.c:183-188 | the pending-space loop writes the canonical line |
| DkimBody.StagedIsCanon | src/dkim.c:156-209 | deferring line ends loses nothing: staged bytes and one CRLF are the canonical lines |
| DkimBody.WriteLine | src/dkim.c:177-189 | the byte loop stays inside the reserved space and writes exactly that line |
| DkimBody.BodyHash.Reserve | src/dkim.c:134-143 | space for the request, with no byte of the stream lost by flush or growth |
| DkimBody.BodyHash.StageLineEnd | src/dkim.c:146-153 | exactly one line end is added to the stream |
| DkimBody.BodyHash.StageLineEnds | src/dkim.c:146-153 | exactly n line ends are added |
| DkimBody.BodyHash.StageLine | src/dkim.c:175-189 | exactly the written line is added |
| DkimBody.BodyHash.Finish | src/dkim.c:196-200 | everything staged has been hashed |
| DkimBody.HashLine | src/dkim.c:169-192 | one line: owed line ends and the line, or one more owed line end |
| DkimBody.HashBody | src/dkim.c:111-209 | for every body the hashed chunks together are the canonical body, wherever the flushes fell |
| DkimBody.LinesOfTerminated | src/dkim.c:156-209 | splitting terminated lines gives the lines |
| DkimBody.CanonIsFixed | src/dkim.c:156-209 | the canonical form is a fixed point |
| DkimBody.CanonOfWords | src/dkim.c:169-192 | the canonical form of a line is its words with one space between, and one in front where white space stands in front |
| DkimBody.CanonDropsTail | src/dkim.c:156-209 | empty lines at the end of a body go, those before its last other line stay, and a body without any line is one CRLF |
| DkimBody.CanonUnterminated | src/dkim.c:156-209 | a last line without its line end is canonicalized as with it |
| DkimHeader.RelaxValue | src/dkim.c:78-101 | the two-flag loop computes the relaxed value |
| DkimHeader.RelaxHeader | src/dkim.c:72-105 | relaxed_header computes the relaxed header |
| DkimHeader.ValueEndsClean | src/dkim.c:95-101 | a relaxed value has no line break and no white space at its end |
| DkimHeader.RelaxedOfWords | src/dkim.c:78-101 | the relaxed value is the words with one space between, however they are spaced and folded |
| DkimHeader.HeaderIsFound | src/dkim.c:240-263 | a written header, folded or not, is read as one field: its name and its whole extent |
| DkimHeader.HeadersAreRead | src/dkim.c:293-315 | written headers are read as exactly their fields, in order |
| DkimHeader.BlankIsFound | src/dkim.c:264-274 | the empty line behind written headers ends their block |
| DkimHeader.WrittenMessage | src/dkim.c:264-315 | the header block of a written message is its headers, and its fields are theirs |
| DkimHeader.ScanFieldEnd | src/dkim.c:247-257 | the end of a folded field |
| DkimHeader.ScanField | src/dkim.c:258-263 | one header field |
| DkimHeader.ScanBlank | src/dkim.c:264-274 | the blank line that ends the header block |
| DkimHeader.ShiftFields | src/dkim.c:293-315 | a text put in front shifts the fields behind it and changes nothing else |
| DkimTags.TagGetRender | src/dkim.c:474-488 | the tag reader finds the first tag of a name in a rendered list |
| DkimTags.TagIsRead | src/dkim.c:474-488 | whatever the list, a tag found at no earlier tag start has everything up to the next ; as its value |
| DkimTags.NoTagIsRead | src/dkim.c:474-488 | a text that stands at no tag start is no tag |
| DkimTags.EmptyTag | src/dkim.c:573-583 | removing one b= value |
| DkimTags.EmptyBLoop | src/dkim.c:568-584 | the in-place loop computes the emptied header |
| DkimTags.EmptyBRender | src/dkim.c:562-590 | on a rendered signature exactly the value of b= goes |
| DkimTags.TagIsEmptied | src/dkim.c:568-584 | a b= tag behind any fold loses its value and nothing else, not the white space before the next ; |
| DkimTags.OtherIsKept | src/dkim.c:568-584 | any other tag stays as it is |
| DkimSelect.BindLoop | src/dkim.c:631-655 | the loop with consumed marks computes the binding |
| DkimSelect.BindMirrors | src/dkim.c:631-655 | every listed name is bound, to the mirror image of its place among headers of its name |
| DkimSelect.MirrorUnique | src/dkim.c:631-655 | the mirror image is unique |
| DkimSelect.DistinctMirrors | src/dkim.c:631-655 | with distinct names every entry is its own |
| DkimSelect.BoundFormsIff | src/dkim.c:631-655 | the bound forms are the listed ones if and only if equal names read the same both ways |
| DkimSign.SplitJoin | src/dkim.c:345-366 | splitting the joined h= list gives the names |
| DkimSign.SignedHeaders | src/dkim.c:229-315 | a header is signed if and only if its name is one of the eleven signable ones |
| DkimSign.FwsIsRemoved | src/dkim.c:535-551 | what is decoded of a b= value is its pieces, however it is folded |
| DkimSign.FieldsBehindLine | src/dkim.c:293-315 | fields of the signed message are the signature's and then those of the message |
| DkimSign.ParseSignedMessage | src/dkim.c:490-556 | parsing the signed message recovers the names and the extent of the signature |
| DkimSign.CanonRawOfLine | src/dkim.c:562-590 | the on-wire signature with b= emptied canonicalizes to what the signer hashed |
| DkimSign.VerifierListIff | src/dkim.c:592-660 | the verifier's header list equals the signer's if and only if equal names read the same both ways |
| DkimSign.VerifierInputOfSigned | src/dkim.c:592-679 | the bytes the verifier rebuilds for a signed message |
| DkimSign.InputsAgreeIff | src/dkim.c:345-448 | for every message that does not start with white space and has a signable header: verifier and signer hash the same bytes if and only if equally named signed headers read the same both ways |
| DkimSign.RepeatedHeaderExample | src/dkim.c:592-679 | with two different To headers the verifier hashes other bytes than the signer, whatever the parameters |
| DkimSign.DistinctNamesVerify | src/dkim.c:592-679 | in particular for pairwise distinct names |
| Spf.MaskedEqual | src/auth_results.c:383-424 | masked bytes are equal if and only if the kept bits are |
| Spf.CidrMatch | src/auth_results.c:383-424 | true if and only if the first prefix bits agree |
| Spf.BytePrefix | src/auth_results.c:383-424 | a prefix of whole bytes matches if and only if those bytes are equal |
| Spf.ByteNetwork | src/auth_results.c:383-424 | a network of whole bytes holds exactly the addresses of its family that begin with them |
| Spf.RecordQueries | src/auth_results.c:445-558 | a record sends no more queries than lookups it counts within the budget |
| Spf.DomainQueries | src/auth_results.c:570-591 | a domain at most one more |
| Spf.TermQueries | src/auth_results.c:445-526 | and so does each term |
| Spf.AtMostElevenQueries | src/auth_results.c:426-597 | on every zone, cyclic ones included, a check ends with at most eleven DNS queries |
| Spf.FreeRecordAgrees | src/auth_results.c:445-558 | where the counter-free evaluator stays within the budget, the counter changes nothing |
| Spf.FreeTermAgrees | src/auth_results.c:445-526 | the same for a term |
| Spf.FreeDomainAgrees | src/auth_results.c:570-591 | the same for domains |
| Spf.BudgetedDomainAgrees | src/auth_results.c:570-591 | and a check within the budget is what the counter-free evaluator answers |
| Spf.BudgetIsInvisible | src/auth_results.c:426-597 | the check stays within the budget if and only if the counter-free evaluator does, and then both agree |
| Spf.SelfRedirectNeverEnds | src/auth_results.c:527-540 | without the budget a self-redirect has no answer at any depth |
| Spf.HostLoop | src/auth_results.c:497-526 | true if and only if the address is among the host's |
| Spf.MatchNetwork | src/auth_results.c:383-424 | an ip4 or ip6 term matches exactly the addresses of its network |
| Spf.QueryHost | src/auth_results.c:496-526 | one query when budget and name allow it, and its match |
| Spf.EvalRecordLoop | src/auth_results.c:445-558 | the token loop with the in-out counter computes the evaluation |
| Spf.EvalTermCall | src/auth_results.c:472-526 | one term, whether it ends the record, and what it counts |
| Spf.EvalDomainCall | src/auth_results.c:570-591 | and so does its partner for domains |
| SpfText.TermIsRead | src/auth_results.c:457-526 | a printed term is read back as the verdict of its qualifier and its mechanism, keywords in any case, arguments up to their buffers, unknown words as none |
| SpfText.TokensAreRead | src/auth_results.c:447-456 | words behind spaces are read back, each of them |
| SpfText.OwnHostsIff | src/auth_results.c:481-526 | a word asks for the hosts of the domain itself if and only if it begins with a or mx, is not all, and has no colon behind that |
| SpfText.MechDecides | src/auth_results.c:472-526 | whether a term decides, on what verdict, and what it counts and sends: of include and redirect from the target's verdict |
| SpfText.RecordSays | src/auth_results.c:445-558 | a printed record says the verdict of its first deciding term (- Fail, ~ SoftFail, ? Neutral, + or none Pass), and Neutral where none decides |
| SpfText.EveryRecord | src/auth_results.c:445-526 | every list of words is the printing of some terms, so every record is covered |
| SpfText.DomainSays | src/auth_results.c:545-591 | a check evaluates the first record that begins with v=spf1, from its text |
| SpfText.AnyDomainSays | src/auth_results.c:570-591 | whatever the text of that record, it is the printing of terms, and the check gives the verdict of those |
| SpfText.NoRecordSays | src/auth_results.c:545-591 | a domain without such a record, or no domain, has no record |
| SpfText.DenyAll | src/auth_results.c:457-463 | "v=spf1 -all" refuses every address |
| DataScan.DataScanLoop | src/imapd_ingest.c:187-242 | the byte loop computes the verdict |
| DataScan.ResumeAgrees | src/imapd_ingest.c:187-242 | a scan from the resume point of any growing buffer is the scan from the start |
| DataScan.DataPhase.Receive | src/imapd_ingest.c:573-605 | after any sequence of chunks the verdict is that of a scan from offset zero |
| DataScan.VerdictIsStable | src/imapd_ingest.c:187-242 | the message found does not depend on how the stream was cut, but for the LF after a bare CR |
| DataScan.StuffedIsFound | src/imapd_ingest.c:187-242 | a stuffed message of complete short lines is found whole: its end is the first line that is a single dot |
| DataScan.DataSurvives | src/mail.c:288-349 | what a sender stuffs and ends with a dot line is found at that line and unstuffs to the message |
| DataScan.UnstuffStuff | src/mail.c:288-349 | unstuffing undoes stuffing, for every message |
| DataScan.UnstuffInPlace | src/mail.c:288-349 | the in-place loop computes the unstuffed message; the writer never overtakes the reader |
| DataScan.LongLineIsRefused | src/imapd_ingest.c:187-242 | a line longer than the limit is refused, finished or not |
| DataScan.RefusedForLength | src/imapd_ingest.c:187-242 | nothing else is: a refused message is too long or has such a line |
| DataScan.PendingIsWithin | src/imapd_ingest.c:187-242 | what is neither refused nor complete is within both limits |
| JsonText.SequenceIsScalar | src/jmap_json.c:137-157 | every accepted byte sequence encodes a scalar value |
| JsonText.EncodingIsSequence | src/jmap_json.c:113-157 | and every encoding of one is accepted |
| JsonText.AcceptedStringIsValid | src/jmap_json.c:178-269 | every accepted literal is valid NUL-free UTF-8, no longer than its text, with the cursor just past the closing quote |
| JsonText.ValidHasNoNul | src/jmap_json.c:235-242 | such a string holds no NUL byte |
| JsonText.PieceOfSpell | src/jmap_json.c:196-262 | every spelling of a character decodes to its encoding, surrogate pairs included |
| JsonText.SpellIsSkipped | src/jmap_json.c:184-190 | the first pass skips every spelling |
| JsonText.SpelledLiteralParses | src/jmap_json.c:178-269 | however a text's characters are written, the literal decodes to its UTF-8 |
| JsonText.QuotedParses | src/jmap_json.c:178-269 | the printing of a valid string is read back |
| Json.ParsedIsProper | src/jmap_json.c:339-420 | accepted values hold valid strings, 64-bit integers and number literals only, and stay within the depth limit |
| Json.IntParses | src/jmap_json.c:273-324 | every 64-bit integer's printing is read back |
| Json.NumberParses | src/jmap_json.c:273-324 | every number literal is read as its value: a 64-bit integer, or the literal itself |
| Json.NumberIsLiteral | src/jmap_json.c:273-324 | and every accepted number is such a literal and has its value |
| Json.RealParses | src/jmap_json.c:273-324 | every number literal that is no 64-bit integer is read back as it is |
| Json.PrintedParses | src/jmap_json.c:339-420 | a value's printing, wherever it stands and with any white space between its tokens, is read back |
| Json.PrintParse | src/jmap_json.c:426-454 | parsing any printing of any value within the depth limit gives that value, whatever white space stands around it and between its tokens |
| Json.ParsePrintParse | src/jmap_json.c:339-454 | every accepted text has a value that its printings are read back as |
| JsonGrammar.StringIff | src/jmap_json.c:178-269 | a string literal is read as s if and only if it spells s, by characters, short escapes and \u escapes of either case |
| JsonGrammar.AcceptedIff | src/jmap_json.c:339-454 | a text is accepted with a value if and only if it is a text of that value by RFC 8259 and the value is within the limits of depth, strings and numbers |
| JsonGrammar.RefusedIff | src/jmap_json.c:339-454 | so exactly the other texts are refused |
| JsonReader.Reader.FindClosing | src/jmap_json.c:184-190 | the first pass finds the closing quote |
| JsonReader.Reader.DecodeInto | src/jmap_json.c:191-266 | the second pass never writes past the reserved buffer and computes the decoded string |
| JsonReader.Reader.PString | src/jmap_json.c:178-269 | both passes together |
| JsonReader.Reader.PNumber | src/jmap_json.c:273-324 | numbers, with the integer and length rules |
| JsonReader.Reader.PLiteral | src/jmap_json.c:326-337 | true, false and null |
| JsonReader.Reader.PMembers | src/jmap_json.c:348-377 | members appended in order up to the closing brace |
| JsonReader.Reader.PItems | src/jmap_json.c:378-398 | elements appended in order up to the closing bracket |
| JsonReader.Reader.PValue | src/jmap_json.c:339-420 | the recursive descent terminates and computes the value and the cursor |
| JsonReader.ParseText | src/jmap_json.c:426-454 | the whole document, trailing text refused |

## Left out

- Sockets, poll, TLS, the file system, locks, clocks, randomness and allocation
  failure: only their effect on state is kept (bytes taken by the socket, the lock
  held, a file readable or not). A socket that has failed takes no further byte.
- The lockless fallback save (src/imap_maildir.c:1454-1466), which overwrites
  without a merge.
- Sorting: the view is taken to be in ascending uid order where the code has just
  called qsort; SORT itself is not modelled.
- Arithmetic widths: uids and the uid counter are 32-bit, JSON integers and file
  times 64-bit. Modification sequences are unbounded in the merge and 64-bit in
  the file. `hash & (capacity - 1)` is a remainder by a power of two.
- UidlistStore.MergeTables: asks that the row count fit the 32-bit index the hash
  table stores, as the code silently does.
- Bytes are characters; a NUL ends a text wherever the code uses C strings, and
  the sidecar files are taken up to their first NUL.
- MailboxStore.PruneVanished, HeaderFile.Hydrate: take the view in ascending uid
  order, as qsort leaves it.
- Daemons.RunIsSafe: a save step is taken only while the 32-bit uid counter has
  room; `UidlistMerge.MergeIsSound` says what happens otherwise. Registering a base
  that has a row changes nothing (`MailboxStore.RegisterMessage`) and is no step.
- Search.ChosenModeAgrees: assumes that cache and Message-ID index hold the file's
  values. The code truncates cached values at 1000 bytes and Message-IDs at 1023.
  `mail_header_get` is an arbitrary lookup that ignores the case of names.
- Search keys on flags, numbers, sizes, dates and sequence sets are arbitrary tests
  of a message's metadata; the text syntax of search programs is not modelled.
- FetchPump.RegionIsWindow: the literal of HEADER.FIELDS is built in memory and is
  no section of the message; its content is an arbitrary text here.
- FETCH items other than literals are arbitrary texts; unreadable files, names
  longer than the formatting buffer and the \Seen side effect are not modelled.
- Mime.WalkParts: a callback that stops the walk early is not modelled, nor are the
  descriptive fields of a part. Content-Type parsing is an arbitrary function of
  the header bytes.
- The command reader's authentication continuations, STARTTLS and the wait for a
  running FETCH or SEARCH.
- DkimSign.InputsAgreeIff: SHA-256, RSA and base64 are not modelled; domain,
  selector and hash are texts without separators, the signature any clean text the
  decoder accepts, and the fixed-size buffers of the verifier are taken as large
  enough. The body hash is not compared by the verifier.
- Spf.EvalDomainCall: the DNS zone is an arbitrary function; the text form of
  addresses and prefixes is parsed outside the model.
- Json.PrintParse: a number that is no 64-bit integer is its literal text; its value
  as a double is not modelled.
- POP3, SMTP, JMAP methods, the admin interface, configuration and HTTP.
