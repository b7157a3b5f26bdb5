# A verified model of the document store

The repository is a small distributed document store: a name server that knows which file lives
where and who may use it, storage servers that hold the files and let several users edit
different sentences of one file at a time, and a message format between them. This project
models its five connected pieces in Dafny and proves what they promise.

## How the model is built

Each piece has two layers. A layer of functions on values says what an operation does to the
whole state, and carries the theorems. Classes and loops over arrays, in the form of the C code,
are proved to compute exactly those functions: every handler's postcondition gives its status and
its whole new state. What those functions mean is stated apart from them: `Layout.dfy` gives the
printed text character by character, `StoreLaws.dfy` and `NameLaws.dfy` each request's answer and
effect with the numbers written out, and the other files what whole runs keep.

| piece | values and theorems | in the source's form |
|---|---|---|
| text engine (`file_ops.c`) | `Text.dfy`, `Printer.dfy`, `Insertion.dfy`, `Layout.dfy` | `FileContent.dfy` |
| write protocol and merge (`ss.c`) | `Merge.dfy`, `Session.dfy`, `StoreSteps.dfy`, `Protocol.dfy`, `Concurrent.dfy`, `Failures.dfy`, `StoreLaws.dfy` | `StorageServer.dfy` |
| cache (`cache.c`) | `CacheModel.dfy` | `LruCache.dfy` |
| index (`trie.c`) | `TrieModel.dfy`, `TrieListing.dfy` | `Trie.dfy` |
| name server (`nm.c`) | `Metadata.dfy`, `NameSteps.dfy`, `NameRules.dfy`, `NameRuns.dfy`, `NameLaws.dfy`, `NameHistory.dfy` | `NameServer.dfy` |
| messages (`common.c`) | `Wire.dfy` | `Wire.dfy` |

**Text.** A file is a sequence of characters, its tokens are words, runs of spaces, newlines and
the delimiters `.`, `!` and `?`, and a sentence ends with its first delimiter. "Up to spaces"
below means: comparing the tokens that are not runs of spaces.

**Handlers are atomic.** A request is one step on the whole state. The clock, the answers of
storage servers, and the existence of a folder are parameters of a request.

## Where the stronger statement fails

The code does not always do what one would hope. Each case is stated exactly, by an equivalence,
and most are also shown on a concrete input.

- *Relocation.* The merge finds a locked sentence by the change in the sentence count
  (ss.c:181-182), so it takes the sentence that as many are behind as were behind the locked one
  (`Concurrent.CommitRefines`). When only commits changed the file since the LOCK, that is right
  if and only if none of them added sentences at or behind the locked one
  (`Concurrent.LagExactly`, `Merge.CommitLands`, `Failures.RelocationFails`); otherwise a later
  sentence is overwritten (`Concurrent.CommitReplaces`). Committing in increasing sentence order is
  always safe (`Merge.IncreasingOrder`). A REVERT or UNDO between LOCK and UNLOCK moves the target
  as well, by the difference of the two sentence counts (`Protocol.LockedEditShifts`,
  `Failures.RevertMisplaces`).
- *Two users on one sentence.* Locks are kept by index and do not move with the sentences
  (ss.c:728-775). No two users have sessions with one index (`Protocol.MutualExclusion`), but LOCK
  does not see where an open session's sentence is now: it is refused if and only if another user
  has a session opened with the same index, or all sessions are taken
  (`Concurrent.LockLooksAtIndex`). A sentence that a commit has moved can be locked again, and then
  the later commit discards the earlier (`Failures.LockedTwice`). As long as that and the previous
  point do not happen, every locked sentence stays as it was until its own commit
  (`Concurrent.StepApart`, `Concurrent.CommitReplaces`).
- *Appending.* LOCK grants the index one past the last sentence of a closed file
  (ss.c:1191-1209, `Protocol.AppendLockAllowed`), but what is written there never reaches a
  non-empty file (`Protocol.AppendedEditIsDropped`).
- *Open text.* What a session leaves behind the last delimiter of a non-final sentence is dropped
  by the merge (ss.c:209-210): nothing is lost if and only if the sentence ends the file, or no
  WRITE of the session puts open content behind its final delimiter (`Session.NothingLost`,
  `Failures.OpenTextIsLost`). `Session.ClosedAfter` is the check before one WRITE.
- *Spaces.* Reading a file and writing it back adds a space behind every delimiter that no blank
  follows, and nothing else (`Layout.PrintIsSpread`); it leaves the text alone if and only if there
  is no such delimiter (`Layout.SpreadSame`). A WRITE whose content has a delimiter also leaves a
  space behind its sentence, for an empty one that follows (`Layout.WriteIsExact`).
- *Late session on an empty file.* A session opened while the file was empty commits if the file is
  still empty, and is dropped with success if it has text by then (`StoreLaws.EmptyFileEdited`).
- *Lone empty sentence.* Appending to it keeps the content if and only if that is empty or has a
  delimiter; otherwise all of it is lost (`Insertion.AppendToEmpty`,
  `Insertion.AppendToEmptyLoses`).
- *Full queues.* A file's commit queue is never given back (ss.c:83-89). UNLOCK succeeds if and
  only if the file has a queue or one of the 100 is free (`Protocol.UnlockOutcome`); once all are
  taken, every edit of another file is thrown away (`Protocol.QueuesFullForever`).
- *Full cache.* The probe loops end if and only if a slot is free or the key is present
  (`CacheModel.ProbeEnds`, `CacheModel.FullCacheHangs`). With all 100 slots taken, looking up an
  absent key does not return. The cache operations therefore require that probing ends. The
  eviction branch (cache.c:124) is unreachable.
- *Holes in the table.* Removal leaves no tombstone, so stale duplicates remain. Hits on keys
  whose last change was a put are right all the same (`CacheModel.HitsAreSound`); they hit if and
  only if no hole comes before their nearest entry (`CacheModel.HitExactly`). A removed key
  misses in all later runs without a put of it if and only if the removal took its only entry, or
  there was none (`CacheModel.RemovedStaysGone`, `CacheModel.RemovedExactly`, with
  `CacheModel.SourceHashIsRich`; `CacheModel.RemovedKeyCanHit` is a run where it hits). A put adds
  a second entry exactly when a hole hides the first (`CacheModel.PutCopies`).
- *Registration.* It updates the index and not the cache (nm.c:1460-1461). The lookups right
  after it answer the old server for exactly the listed files that the cache hits with another
  server (`NameRules.RegistrationAnswers`, `NameRuns.StaleAfterReregistration`). A stale entry
  behind a hole does no harm until the hole is filled; the agreement of cache and index, which
  keeps all later lookups right, survives if and only if no listed file has any such entry
  (`NameRules.RegistrationAgrees`).
- *Foreign names.* A name with a character outside 7-bit ASCII is refused by the index after
  nodes were made for its start; exactly when stray nodes remain is `TrieModel.InsertTight`
  (`TrieModel.StrayNode`). CREATE ignores the refusal (nm.c:1012) and answers success: the file is
  in the index if and only if its name is 7-bit (`NameRules.CreateRegisters`), and otherwise every
  request about it, its owner's included, is refused forever, though CREATE is not
  (`NameRuns.ForeignRefused`).
- *Access requests.* Clients ask for reading (1) or for reading and writing (3)
  (client.c:1166-1169); an approval gives just that if and only if the access list has an entry or room (`NameRuns.ApproveGives`), and
  drops it silently when the list is full. The bare write value (2), which no client command
  sends, gives nothing (`NameRuns.ApprovalSatisfies`) and takes a reader's access away
  (`NameRuns.ApprovedWriteLosesRead`).
- *Target path.* Its copy limit (common.c:116) is half its array, so longer paths do not survive
  the wire (`Wire.RoundTrip`).

Two comments disagree with the code, which the model follows: ss.c:99 speaks of lock times, but a
commit goes to the end of its queue (`StorageServers.StorageServer.EnqueueCommit`); and
common.c:84 places the data at field 11, while the code has it at 14.

## Model

| member | source | states |
|---|---|---|
| Text.Span | file_ops.c:223-242 | a run is the longest prefix of one character class |
| Text.TokenRun | file_ops.c:207-321 | what the first token takes of the text: characters of one class; of spaces the whole run, of which 127 are kept; of a word all or 127; a newline or delimiter alone |
| Text.HeadLength | file_ops.c:274-307 | a sentence ends with the first delimiter and not before |
| Text.GroupIsDocument | file_ops.c:274-342 | grouping scanner tokens without adjacent space tokens yields non-empty sentences with a delimiter at the end only, all closed but possibly the last |
| Text.ParseIsDocument | file_ops.c:185-346 | so does every parsed file |
| Text.GroupFlatten | file_ops.c:274-342 | grouping inverts flattening on such documents |
| Text.GroupAt | file_ops.c:274-307 | the k-th sentence read off the token stream, without parsing the ones before |
| Text.LosslessParse | file_ops.c:185-346 | with space runs that fit a token, the parsed tokens spell the file exactly, and only the last sentence may lack its delimiter |
| Text.InkOfTokens | file_ops.c:207-332 | on any text, tokenizing loses nothing but spaces |
| Printer.ReadExact | file_ops.c:356-417 | reading back tokens that cannot run together yields exactly them |
| Printer.PrintKeepsSolid | file_ops.c:356-417 | printing any sentences and reading them back keeps every token but spaces, in order |
| Printer.ParsePrint | file_ops.c:356-417 | parsing a printed document gives the document back with the printer's spaces explicit, sentence by sentence |
| Printer.NormIdempotent | file_ops.c:356-417 | normalising twice is normalising once |
| Printer.NormalForm | file_ops.c:185-417 | print after parse is idempotent on every text, keeps the sentence count and changes nothing but spaces; which spaces is Layout.PrintIsSpread |
| Insertion.WordPosCounts | file_ops.c:533-554 | exactly w - 1 counted tokens come before word position w |
| Insertion.LastDelimiterUnique | file_ops.c:569-574 | the split point of the inserted parts is the last delimiter among them |
| Insertion.InsertFails | file_ops.c:479-531 | an insertion fails exactly when the sentence or the word index is out of range |
| Insertion.InsertIsSplice | file_ops.c:477-684 | the flattened tokens gain exactly the content's tokens, after exactly word_idx - 1 counted tokens of the addressed sentence; earlier sentences stay and later ones move intact by the reported number of new ones; in all cases but an append to a lone empty sentence of content without a delimiter |
| Insertion.SpliceExactly | file_ops.c:477-684 | that exception is exact: the insertion is a splice if and only if it is not such an append |
| Insertion.AppendToEmpty | file_ops.c:511-512 | appending to a lone empty sentence keeps the content if and only if it is empty or has a delimiter, and otherwise loses all of it |
| Insertion.AppendToEmptyLoses | file_ops.c:511-512 | a content that is lost |
| Insertion.WordPos | file_ops.c:526-554 | a valid word position falls inside the sentence |
| Insertion.SolidWordPos | file_ops.c:533-554 | a word position means the same place with and without spaces |
| Insertion.WriteRefinesSplice | ss.c:840-931 | parse, insert, print and parse again amounts, up to spaces, to splicing the content's tokens at the addressed word of the addressed sentence, or of the one past the last |
| FileContents.SplitByDelimiters | file_ops.c:47-183 | returns the token stream of the content: the same tokens parse_file finds in it |
| FileContents.CollectSpaces | file_ops.c:70-84 | a run of spaces, cut to what a token holds |
| FileContents.GetFileStats | file_ops.c:686-732 | counts the characters, and the maximal runs of word characters |
| FileContents.StatsCountWords | file_ops.c:686-732 | with words that fit a token, that count is the number of word tokens parse_file makes: the scanners agree |
| FileContents.FileContent.constructor | file_ops.c:5-11 | an empty sentence array |
| FileContents.FileContent.ParseFile | file_ops.c:185-346 | the sentence array becomes Parse of the text |
| FileContents.FileContent.AddToken | file_ops.c:275-285 | a token is appended to the current sentence and nothing else changes |
| FileContents.FileContent.EndSentence | file_ops.c:287-307 | the delimiter closes the sentence and an empty one follows |
| FileContents.FileContent.TrimLast | file_ops.c:334-342 | the sentence after the last delimiter is counted exactly when it is not empty |
| FileContents.FileContent.WriteFileContent | file_ops.c:356-417 | writes Print of the sentence array |
| FileContents.FileContent.InsertWordInSentence | file_ops.c:477-684 | fails, or leaves the sentence array that the insertion function gives, and reports the new sentences |
| FileContents.FileContent.AppendSlot | file_ops.c:489-513 | an empty slot behind the counted ones; counted unless the file was one empty sentence |
| FileContents.FileContent.MakeRoom | file_ops.c:590-608 | later sentences move down unchanged and the slots in between are empty |
| FileContents.FileContent.PlaceParts | file_ops.c:610-680 | the parts up to the last delimiter stay in the sentence, the others go to the next |
| FileContents.FileContent.InsertParts | file_ops.c:566-684 | the array after all parts are placed |
| Merge.Replace | ss.c:263-294 | one sentence replaced, the ones before and after as they were |
| Merge.AdjustedExact | ss.c:181-182 | the shift formula finds the locked sentence if and only if no committed edit at a larger index added sentences; otherwise it is too large |
| Merge.CommitLands | ss.c:148-294 | where a commit lands in a version changed by earlier commits alone: the target is always in range, and it is the locked sentence exactly when no earlier commit at a larger index added sentences |
| Merge.ReplacementsAre | ss.c:205-213 | the substitution holds every edit under its index, and nothing else |
| Merge.QueueIsSubstitution | ss.c:131-333 | a queue of sessions on one version, at distinct sentences and in a feasible order, is one simultaneous substitution |
| Merge.IncreasingOrder | ss.c:176-182 | increasing sentence order is feasible whatever the edits add |
| Merge.CommitsCommute | ss.c:176-294 | sessions that add no sentences give the same file in every commit order, with every edit in it |
| Session.SentenceCount | file_ops.c:289-346 | the sentence count read off the text: one per delimiter, one more for text after the last |
| Session.CreatedIsSentences | file_ops.c:566-584 | an insertion reports as many new sentences as the content has, if it has a delimiter, and none otherwise |
| Session.WriteKeepsCount | ss.c:840-931 | no accepted WRITE, wherever it goes, loses a sentence; one to an earlier sentence leaves the end of the file alone |
| Session.RegionExpansion | ss.c:205-213 | the merge's count of new sentences is the number of delimiters the writes added |
| Session.SliceOfTemp | ss.c:268-280 | what the merge takes out of the copy: the edited tokens up to the last delimiter, or all of them at the end of the file |
| Session.SessionRefinesSplices | ss.c:840-931 | lock, any number of WRITEs and commit: the file is the locked version with every accepted write spliced into the locked sentence |
| Session.NothingLost | ss.c:205-210 | over a whole session, nothing is lost or duplicated if and only if the locked sentence ends the file, or no WRITE puts open content behind its final delimiter |
| Session.StaysClosed | ss.c:840-931 | a closed sentence is left closed by a session if and only if no WRITE puts open content behind its final delimiter; once open it stays open |
| Session.ClosedAfter | ss.c:840-931 | the check before each WRITE, as an equivalence |
| Session.PieceCount | ss.c:205-213 | the number of sentences that the merge copies: one per delimiter of the edited region, and one for an open end of the file |
| Session.SliceSentences | ss.c:268-280 | they are, sentence by sentence and up to spaces, those of the edited region |
| Session.CommitPieces | ss.c:181-294 | a commit, sentence by sentence: the one at the adjusted index is replaced by those of the edited region, and no other changes |
| Session.TrackAccepts | ss.c:840-931 | a WRITE is accepted if and only if its word position is one of the edited sentence, by the reference |
| Session.EmptyFileSession | ss.c:219-248 | on an empty or missing file the result is exactly what was written |
| Session.SessionEdit | ss.c:205-280 | a session's edit meets the queue theorems' conditions, with the spliced sentence as its replacement |
| StoreSteps.GrownLocks | ss.c:728-760 | lock arrays only grow, new locks are free, old ones stay |
| StoreSteps.FindSession | ss.c:335-347 | the first session with the key, or none |
| Protocol.LockEffect | ss.c:933-955 | locking adds exactly the requested holder, or changes no holder |
| Protocol.UnlockEffect | ss.c:957-976 | unlocking takes away exactly the caller's own hold |
| Protocol.StepKeepsInv | ss.c:1164-1290 | a session (file, user, index) exists exactly when that lock is held by that user; every request keeps it |
| Protocol.RunKeepsInv | ss.c:1164-1290 | over whole runs |
| Protocol.MutualExclusion | ss.c:933-976 | in every reachable state no two users have sessions opened with the same sentence index, and whoever has a session holds the lock |
| Protocol.StepKeepsCheckpoints | file_ops.c:809-839 | no request changes an existing checkpoint |
| Protocol.CheckpointsLast | file_ops.c:809-839 | a checkpoint never changes once made |
| Protocol.RevertRestores | file_ops.c:898-932 | REVERT any time later restores the checkpoint's bytes |
| Protocol.UndoOnce | ss.c:1277-1290 | UNDO restores the backed-up bytes, and a second UNDO is refused |
| Protocol.UndoRestores | ss.c:141-146 | UNDO right after a commit or a REVERT of an existing file restores the prior bytes, once |
| Protocol.CommitMerges | ss.c:451-495 | with a queue, a commit merges the session's copy into the file as it then is and keeps the bytes before; without one it fails and drops copy and session |
| Protocol.CommitFrame | ss.c:451-495 | it leaves other files, sessions and copies alone |
| Protocol.LockOpens | ss.c:1221-1233 | a successful LOCK opens a session on a copy of the file as it is |
| Protocol.SessionIsolated | ss.c:335-393 | a session and its copy are changed by its own requests only |
| Protocol.SessionOverRun | ss.c:840-931 | over any interleaving the copy holds exactly this session's writes |
| Protocol.LockedEditCommits | ss.c:1164-1260 | from LOCK to UNLOCK in any interleaving: with a queue the commit merges the locked version edited by this session's writes and no other, into this file only; without one the file stays |
| Protocol.LockedEditLands | ss.c:1164-1260 | if nobody changed the file meanwhile, a successful UNLOCK leaves the locked version with the writes spliced in, and a failed one the version |
| Protocol.LockedEditShifts | ss.c:181-203 | merged into any other text, such as one that REVERT or UNDO put there, or none, the edit lands at its index moved by the difference of the sentence counts, or nowhere |
| Protocol.UnlockOutcome | ss.c:451-495 | UNLOCK succeeds if and only if the file has a queue or one is free; otherwise it answers a server error, no file changes and the edit is gone |
| Protocol.QueuesLast | ss.c:72-97 | a file's queue is never given back, and once 100 are taken no file gets another |
| Protocol.QueuesFullForever | ss.c:83-87 | so from then on every edit of any other file is thrown away |
| Protocol.LockGranted | ss.c:1182-1233 | LOCK succeeds if and only if its index check passes, nobody else holds the sentence and the session array has room; what the check admits is StoreLaws.LockAnswers |
| Protocol.AppendLockAllowed | ss.c:1191-1209 | the index one past a non-empty file passes the check exactly when the text ends with a delimiter or a newline |
| Protocol.AppendedEditIsDropped | ss.c:187-203 | what is written there never reaches the file, in any interleaving, although UNLOCK answers as for any edit |
| Protocol.UnlocksAreQueue | ss.c:451-495 | unlocking several sessions runs their edits through the merge in turn, or leaves the file alone when no queue is free |
| Protocol.ConcurrentCommits | ss.c:131-333 | the same for UNLOCKs in a row by sessions on one version, exactly and not up to spaces: they leave that version with each locked sentence replaced |
| Protocol.CopyKeepsSentences | ss.c:205-213 | in every interleaving a session's copy has at least as many sentences as the file had at its LOCK, so the merge copies at least one |
| Concurrent.CommitRefines | ss.c:148-294 | what one commit makes of the list of sentences: the one that as many are behind as were behind the locked one at its LOCK is replaced, the empty file is filled, and an index past the end is skipped |
| Concurrent.StepRefines | ss.c:1164-1290 | one request against a reference machine on lists of sentences, without copies or merges; it reads off the store whether a LOCK is granted and a queue is free, and whether a session's text goes on after its last delimiter |
| Concurrent.RunRefines | ss.c:1164-1290 | over whole runs, each session on the version it was opened on |
| Concurrent.ConcurrentEditing | ss.c:131-333 | any number of users, any interleaving, as long as UNDO, REVERT and DELETE do not replace the file: its sentences are, up to spaces, those of the reference machine, and its open sessions are the machine's |
| Concurrent.WriteAccepted | ss.c:840-931 | the answer to every WRITE below the end of the file is the reference's |
| Concurrent.LagExactly | ss.c:176-182 | in every run a session's target is the place of its sentence if and only if no commit since its LOCK added sentences at or behind that place |
| Concurrent.StepApart | ss.c:131-333 | what keeps every locked sentence in the file unchanged, with one session each: LOCK takes no sentence that is being edited, and no commit has missed its place |
| Concurrent.CommitReplaces | ss.c:181-294 | after such a run a commit replaces one sentence by what its own WRITEs made of the locked one; the locked one itself if the target is its place, and otherwise that stays and a later one is overwritten |
| Concurrent.LockLooksAtIndex | ss.c:1191-1209 | LOCK is refused if and only if another user's session was opened with the same index, or all sessions are taken; where sentences are now plays no part |
| Failures.RelocationFails | ss.c:181-182 | a run of LOCKs, WRITEs and UNLOCKs, all answered success, after which the wrong sentence is overwritten |
| Failures.LockedTwice | ss.c:933-976 | a run, all answered success, in which two users edit one sentence and the first commit is overwritten |
| Failures.RevertMisplaces | ss.c:181-182 | a REVERT between LOCK and UNLOCK, with the same effect |
| Failures.OpenTextIsLost | ss.c:209-210 | a word written behind a closing delimiter that is lost |
| Layout.PrintJoin | file_ops.c:361-387 | inside a sentence the printer puts a space between two words and nowhere else, by their characters |
| Layout.PrintSentences | file_ops.c:391-411 | between two sentences it puts a space unless one side is a space, tab, carriage return or newline there; before an empty sentence unless the text before ends in one |
| Layout.PrintParse | file_ops.c:185-417 | of any text: reading it and writing it back gives its tokens in one run with a space behind every delimiter that no blank follows |
| Layout.PrintIsSpread | file_ops.c:185-417 | if words and runs of spaces fit a token, that is the text itself with just those spaces added, character by character |
| Layout.SpreadSame | file_ops.c:391-411 | so a text is written back unchanged if and only if every delimiter in it is followed by a blank or ends it |
| Layout.WriteIsExact | file_ops.c:477-684 | the exact text after a WRITE: the characters of the file and of the content in order, and a space in just the places named |
| Layout.CommitIsExact | ss.c:181-303 | the exact text after a commit: the file before the target sentence, what the copy has in place of the locked one, and the file behind it, with a space behind every delimiter that no blank follows |
| Layout.PositionIs | file_ops.c:533-554 | word position w is the front for 1, the end one past the last counted token, and else right behind the counted token w - 1, where the counted tokens are those that do not begin with a blank character |
| StoreLaws.LockAnswers | ss.c:1170-1236 | the answer of LOCK for every file and index: 400 unless the sentence is there, or the index is one past a text that ends in a delimiter or newline, or 0 in an empty or missing file; then 423 if another user has it; then 500 without room |
| StoreLaws.LockChanges | ss.c:933-976 | on success LOCK opens the session on a copy of the text, and in no case does it change files, other sessions or other copies |
| StoreLaws.LockRoom | ss.c:728-758 | LOCK makes room for the locks up to its index, and no more |
| StoreLaws.WriteAnswers | ss.c:840-931 | WRITE needs an open session, a sentence of its copy or the next, and a word position there; it changes that copy alone |
| StoreLaws.UnlockAnswers | ss.c:1245-1260 | UNLOCK closes the session and drops its copy, and answers success exactly when it commits; without a session it changes nothing |
| StoreLaws.UnlockChanges | ss.c:1245-1260 | a commit changes the text of its file alone and keeps the text before for UNDO |
| StoreLaws.CancelAnswers | ss.c:1262-1267 | CANCEL drops the session and its copy and changes no file |
| StoreLaws.CreateAnswers | ss.c:779-797 | CREATE succeeds exactly for a name without a file, which then has an empty one |
| StoreLaws.DeleteAnswers | ss.c:799-813 | DELETE succeeds exactly for a file that is there; it is gone then, UNDO of it is refused, and nothing else changes |
| StoreLaws.DeleteThenCreate | ss.c:779-813 | a deleted file can be created again, and is empty then |
| StoreLaws.CheckpointAnswers | file_ops.c:809-839 | CHECKPOINT keeps the text under a tag that is not taken |
| StoreLaws.RevertAnswers | file_ops.c:898-932 | REVERT brings the text under the tag back, even of a deleted file, and keeps the text before for UNDO |
| StoreLaws.UndoAnswers | file_ops.c:760-790 | UNDO brings the kept text back and forgets it |
| StoreLaws.FilesAfter | ss.c:779-813 | which files are there after any request: those before but a deleted one, and one made by CREATE, REVERT or a first commit |
| StoreLaws.FilesStay | ss.c:799-813 | in whole runs a file leaves the store by DELETE alone |
| StoreLaws.TextStays | ss.c:1164-1290 | the text of a file changes by requests for it alone |
| StoreLaws.EmptyFileEdited | ss.c:187-248 | from LOCK on an empty or missing file to UNLOCK in any interleaving: a file still empty becomes what was written, a file with text stays as it is |
| StoreLaws.FirstEdit | ss.c:1164-1260 | CREATE, LOCK of sentence 0, WRITEs and UNLOCK all succeed and leave what was written |
| StorageServers.MergeSentences | ss.c:215-294 | the three copy loops give Merged of the two sentence arrays |
| StorageServers.CopySentences | ss.c:263-285 | one copy loop appends a slice of the sentences |
| StorageServers.MergeTexts | ss.c:154-297 | parse both files, check the index, merge and print: ApplyCommit |
| StorageServers.StorageServer.constructor | ss.c:578-617 | an empty server |
| StorageServers.StorageServer.InitFileLocks | ss.c:728-760 | the array form of InitLocks |
| StorageServers.StorageServer.LockSentenceSs | ss.c:933-955 | refines LockSentence, whole new state |
| StorageServers.StorageServer.UnlockSentenceSs | ss.c:957-976 | refines UnlockSentence |
| StorageServers.StorageServer.FindWriteSession | ss.c:338-347 | finds the first session with the key |
| StorageServers.StorageServer.CompactSessions | ss.c:383-387 | the array without that session, the others in order |
| StorageServers.StorageServer.RemoveWriteSession | ss.c:371-393 | session and copy are gone, nothing else changed |
| StorageServers.StorageServer.StartWriteSession | ss.c:396-449 | refines StartSession |
| StorageServers.StorageServer.EnqueueCommit | ss.c:100-128 | the entry goes to the end of its file's queue |
| StorageServers.StorageServer.ProcessOne | ss.c:148-326 | refines ProcessEntry |
| StorageServers.StorageServer.CreateUndoBackup | file_ops.c:734-758 | refines Backup |
| StorageServers.StorageServer.ProcessCommitQueue | ss.c:131-333 | refines ProcessQueue: all entries in order, queue empty afterwards |
| StorageServers.StorageServer.CommitWriteSession | ss.c:451-495 | refines CommitSession |
| StorageServers.StorageServer.LockRequest | ss.c:1164-1236 | refines the LOCK step: status and whole new state |
| StorageServers.StorageServer.WriteRequest | ss.c:840-931 | refines the WRITE step |
| StorageServers.StorageServer.UnlockRequest | ss.c:1245-1260 | refines the UNLOCK step |
| StorageServers.StorageServer.CancelRequest | ss.c:1262-1267 | refines the CANCEL step |
| StorageServers.StorageServer.UndoRequest | ss.c:1277-1290 | refines the UNDO step |
| StorageServers.StorageServer.CreateRequest | ss.c:779-797 | refines the CREATE step |
| StorageServers.StorageServer.DeleteRequest | ss.c:799-813 | refines the DELETE step |
| StorageServers.StorageServer.CheckpointRequest | file_ops.c:809-839 | refines the CHECKPOINT step |
| StorageServers.StorageServer.RevertRequest | file_ops.c:898-932 | refines the REVERT step |
| CacheModel.Probe | cache.c:71-83 | where the probe loop stops: at the first empty or matching slot, having passed only occupied foreign ones |
| CacheModel.OperationsKeepOk | cache.c:64-163 | list and table hold the same entries, each once, after every operation |
| CacheModel.FreeSlot | cache.c:124 | the size is below the capacity exactly when a slot is free, and never above it |
| CacheModel.ProbeEnds | cache.c:71-117 | the probe loops end if and only if a slot is free or the key is in the table |
| CacheModel.HitIsNearest | cache.c:71-83 | a hit returns the entry nearest to the key's home slot |
| CacheModel.PutIsNearest | cache.c:95-121 | after a put the nearest entry of its key is the one put, and other keys' are as before |
| CacheModel.RemoveKeepsNearest | cache.c:148-160 | a removal keeps the nearest entries of other keys |
| CacheModel.HitsAreSound | cache.c:64-182 | in every run whose probing ends, a hit on a key whose last change was a put returns exactly that put's value |
| CacheModel.HitExactly | cache.c:71-83 | a get hits if and only if the key is in the table and every slot before its nearest entry is occupied |
| CacheModel.PutCopies | cache.c:95-139 | a put adds an entry of its key if and only if a get would miss |
| CacheModel.RemoveCopies | cache.c:148-160 | a removal takes one entry of its key if a get would hit, and none otherwise |
| CacheModel.RunGone | cache.c:64-182 | a key without an entry gets none in any run that does not put it |
| CacheModel.RemovedStaysGone | cache.c:142-163 | for any hash: a removed key misses in every later run without a put of it, if its removal took the only entry or there was none |
| CacheModel.RemovedExactly | cache.c:142-163 | and only if, for any hash that gives every slot more keys than the table has slots |
| CacheModel.SourceHashIsRich | cache.c:3-10 | the hash of the source is such a hash for the 100 slots of the name server's cache |
| CacheModel.RemovedKeyCanHit | cache.c:142-163 | a concrete run after which a removed key still hits |
| CacheModel.ClearForgets | cache.c:165-182 | clearing leaves no key, and the table as large as it was |
| CacheModel.FullCacheHangs | cache.c:71-83 | a full table in which probing for an absent key never ends |
| CacheModel.ApplyRecent | cache.c:53-56 | every operation keeps the list in order of last touch |
| CacheModel.RunRecent | cache.c:41-182 | in every run the list is in order of last touch |
| LruCaches.RemoveNode | cache.c:41-44 | the list without that node is linked in both directions |
| LruCaches.AddToHead | cache.c:46-51 | the list with the node behind the head is linked in both directions |
| LruCaches.LruCache.constructor | cache.c:23-39 | an empty cache, for any hash function |
| LruCaches.LruCache.ViewOk | cache.c:64-163 | the pointer structure satisfies the value-level invariant; the size is the list's length |
| LruCaches.LruCache.MoveToHead | cache.c:53-56 | the node's slot comes first in the order, nothing else changes |
| LruCaches.LruCache.Find | cache.c:71-83 | the probe loop ends at the target slot |
| LruCaches.LruCache.Get | cache.c:64-87 | refines Get: result and whole new state |
| LruCaches.LruCache.Search | cache.c:95-108 | the first loop of a put ends at the target slot |
| LruCaches.LruCache.FindEmpty | cache.c:113-117 | the second loop ends at the same slot when that is empty |
| LruCaches.LruCache.Put | cache.c:89-140 | refines Put; the eviction branch is proved dead |
| LruCaches.LruCache.Remove | cache.c:142-163 | refines Remove |
| LruCaches.LruCache.Clear | cache.c:165-182 | the empty cache |
| TrieModel.InsertClosed | trie.c:49-62 | insertion keeps the nodes closed under prefix |
| TrieModel.InsertTight | trie.c:49-62 | insertion keeps the nodes exactly the prefixes of the names if and only if the name is 7-bit, or its nodes up to the first foreign character exist already |
| TrieModel.StrayNode | trie.c:49-62 | a refused name that leaves a node without a name below it |
| TrieModel.PruneFrame | trie.c:102-142 | pruning removes only nodes on the deleted path, and only the deleted name |
| TrieModel.PruneExact | trie.c:102-142 | it cuts off exactly the dead nodes below its start, and reports exactly whether the start is dead |
| TrieModel.DeleteExact | trie.c:144-149 | deletion removes the name, and prunes all and only the dead nodes |
| TrieModel.DeleteTight | trie.c:144-149 | deletion keeps the nodes exactly the prefixes of the names |
| TrieModel.RunRefinesMap | trie.c:44-175 | any run stores what a plain map stores, and with 7-bit names the nodes stay the prefix closure |
| TrieModel.RunFromEmpty | trie.c:13-18 | from the empty trie |
| TrieListing.UnderHolds | trie.c:177-191 | the listing below a node holds exactly the names with its prefix |
| TrieListing.UnderSorted | trie.c:186-190 | in strictly increasing order |
| TrieListing.ListingExact | trie.c:177-201 | the whole listing: every name once, in lexicographic order |
| TrieListing.SortedUnique | trie.c:177-201 | there is only one such sequence |
| Tries.Trie.constructor | trie.c:13-18 | the empty trie |
| Tries.Trie.Insert | trie.c:44-74 | refines Insert, node set and metadata; refused exactly when the name is not 7-bit |
| Tries.Trie.Search | trie.c:76-100 | the map's lookup |
| Tries.Trie.Update | trie.c:151-175 | refines Update; fails exactly on absent names |
| Tries.Trie.HasNoChild | trie.c:116-118 | the child loop decides whether the node is a leaf |
| Tries.Trie.DeleteHelper | trie.c:102-142 | refines Prune, result and whole new state |
| Tries.Trie.Delete | trie.c:144-149 | refines Delete |
| Tries.Trie.CollectFiles | trie.c:177-191 | fills the buffer with the node's listing, cut at the maximum |
| Tries.Trie.GetAllFiles | trie.c:193-201 | the buffer holds the first min(n, max) entries of the listing |
| NameSteps.FindEntry | nm.c:209-221 | the first entry of the user, or none |
| NameSteps.FoundEnds | nm.c:164-181 | after a lookup the key's probing still ends |
| NameRules.GrantIs | nm.c:432-446 | a grant changes the target's access only, and silently nothing when the list is full |
| NameRules.RevokeIs | nm.c:1186-1195 | a revocation leaves the target no entry and the others theirs |
| NameRules.FindReturnsIndex | nm.c:164-181 | for every file in the index the lookup returns the index's storage server, hit or miss |
| NameRules.FindKeeps | nm.c:164-181 | a lookup keeps invariants and agreement |
| NameRules.StoreKeeps | nm.c:1177-1198 | storing in both keeps invariants and agreement |
| NameRules.CreateKeeps | nm.c:998-1013 | so does creation, over whatever stale entry the cache held |
| NameRules.DropKeeps | nm.c:1096-1098 | so does deletion, for the files that stay |
| NameRules.DropUncovers | nm.c:1096-1098 | of the deleted name the cache keeps an entry if and only if the removal did not take the only one; without one, a lookup of the name finds nothing |
| NameRules.CreateRegisters | nm.c:1012-1015 | CREATE answers success and caches the file for any name, and has put it in the index if and only if the name is 7-bit |
| NameRules.RegisteredFiles | nm.c:1446-1481 | registration sets the server of every listed name and keeps owners and access lists of known files |
| NameRules.RegistrationAgrees | nm.c:1453-1477 | registration keeps the agreement of cache and index, the condition that lasts over later requests, if and only if for every listed file the cache's nearest entry is absent or names the same server |
| NameRules.RegistrationAnswers | nm.c:1453-1477 | which lookups a registration leaves right: of a listed file if and only if the cache misses it or names the new server, of any other as before |
| NameRules.StepKeeps | nm.c:1581-1689 | every request keeps the invariants, and every request but a registration the agreement |
| NameRuns.RunInv | nm.c:1581-1689 | the invariants hold in every reachable state |
| NameRuns.ForeignRefused | nm.c:1012-1015 | in every reachable state a name outside 7-bit ASCII is not in the index, and every request about it but CREATE is refused |
| NameRuns.RunNoDuplicates | nm.c:329-349 | access lists and pending requests are duplicate-free and bounded in every reachable state |
| NameRuns.RunAgrees | nm.c:1671-1677 | cache and index agree in every state of a run whose registrations fit |
| NameRuns.LookupIsIndex | nm.c:164-181 | so every lookup of a file in the index returns the index's storage server |
| NameRuns.LookupAfterRegistration | nm.c:1453-1477 | the same in every reachable state in agreement |
| NameRuns.MisfitBreaks | nm.c:1453-1477 | the condition is exact: a registration in a reachable state keeps the agreement if and only if it fits |
| NameRuns.StaleAfterReregistration | nm.c:1453-1461 | a concrete run after which the lookup answers the old server |
| NameRuns.AddAccessGives | nm.c:1141-1182 | what ADDACCESS changes in everybody's access to every file |
| NameRuns.RemAccessTakes | nm.c:1184-1199 | what REMACCESS changes in everybody's access to every file |
| NameRuns.ApproveAccess | nm.c:432-449 | the requester's access after an approval |
| NameRuns.ApproveGives | nm.c:432-449 | an approval gives reading for a request to read, and both for one to read and write, if and only if the list has an entry or room; the owner has both anyway |
| NameRuns.ApprovalSatisfies | nm.c:432-449 | an approval gives all that was asked for if and only if the requester owns the file, or has a place in the list and did not ask for the bare write value |
| NameRuns.ReadWriteCheckIsOwnership | nm.c:212-216 | the access check for read-write passes for the owner alone, so such requests are filed even by users who can read and write |
| NameRuns.ApprovedWriteLosesRead | nm.c:436 | approving the bare write value takes a reader's access away |
| NameRuns.StepEntry | nm.c:1581-1689 | an access entry comes from this request's grant by the owner, or was there and is not revoked |
| NameRuns.EntryTraced | nm.c:308-508 | every entry traces to a grant in the run |
| NameRuns.RightsTraceToOwner | nm.c:198-225 | in every reachable state a non-owner's access traces to an ADDACCESS or approval by the present owner, not followed by REMACCESS or deletion |
| NameLaws.RightsAre | nm.c:198-225 | the access check on the list: reading for the owner and entries 1 and 3, writing for the owner and entries 3, anything else for the owner alone |
| NameLaws.CreateAnswers | nm.c:946-1023 | the answer of CREATE, and the turn it takes whatever the storage server answers |
| NameLaws.CreatedBelongs | nm.c:998-1013 | a created file is in the index exactly if its name is 7-bit, belongs to the sender, is on the server whose turn it was, and nobody else may read or write it; other files stay as they were |
| NameLaws.DeleteAnswers | nm.c:1025-1106 | DELETE is accepted from the owner alone, with its server known, no lock reported and the storage server agreeing; then exactly that file is gone |
| NameLaws.AddAccessAnswers | nm.c:1122-1182 | ADDACCESS is accepted from the owner alone, for another registered user; what it makes of every entry |
| NameLaws.RemAccessAnswers | nm.c:1184-1207 | REMACCESS is accepted from the owner alone, and takes exactly the entry of its target |
| NameLaws.RequestAnswers | nm.c:308-361 | REQUESTACCESS files the request at the end of the list unless it is needless or the list is full, and changes nothing else |
| NameLaws.DenyAnswers | nm.c:467-508 | DENYREQUEST is accepted from the owner of the file alone, and takes exactly that request off the list |
| NameLaws.ApproveAnswers | nm.c:405-465 | APPROVEREQUEST is accepted from the owner of the file alone, takes exactly that request off the list, and what it makes of every entry |
| NameLaws.TouchAnswers | nm.c:1631-1684 | READ and STREAM are accepted only with the right to read, WRITE and UNDO only with the right to write; they note the access and change nothing else of any file |
| NameLaws.LookupAnswers | nm.c:1209-1226 | so are EXEC and the checkpoint requests, which change no file |
| NameLaws.MoveAnswers | nm.c:510-593 | MOVE is accepted only with the right to write, and changes the folder alone |
| NameLaws.RefreshAnswers | nm.c:763-773 | a refresh stores the reported numbers and leaves the rest of the record alone |
| NameLaws.UserAnswers | nm.c:128-141 | a new user is registered while there are fewer than 1000 |
| NameLaws.ServerAnswers | nm.c:1393-1482 | a registration makes its server active unless it would be the 51st, and leaves the others as they are |
| NameLaws.RegistrationIndexes | nm.c:1446-1481 | what a registration makes of every record: known listed files move to the server, new ones belong to the system and to nobody else |
| NameHistory.IndexAfter | nm.c:1581-1689 | which files are in the index after any request and whose they are: a file leaves by an accepted DELETE of its owner, comes by CREATE or registration, and keeps its owner otherwise |
| NameHistory.FileLeaves | nm.c:1031-1042 | in every run a file leaves the index only by a DELETE of its owner of that moment |
| NameHistory.OwnerTraced | nm.c:1004 | in every reachable state the owner of a file is the sender of the CREATE that made it, or the system if a registration did, with no deletion since |
| NameHistory.PendingAfter | nm.c:343-361 | a request for access is pending exactly if it was and is not decided by the owner, or is filed now |
| NameHistory.PendingTraced | nm.c:308-508 | in every reachable state a pending request was filed by its user, who had no such right then, and was not decided since |
| NameHistory.TurnsCounted | nm.c:183-196 | CREATEs get the storage servers in turn: in every reachable state the next is the one at the number of such CREATEs so far, modulo the number of servers |
| NameHistory.FindMirrors | nm.c:164-181 | after a lookup of a file in the index the cache hits with the record of the index |
| NameHistory.StepMirrors | nm.c:998-1013 | every request but a registration keeps the cache a mirror of the index, whole records and not the server alone |
| NameHistory.StoredFirst | cache.c:89-139 | storing and creating leave the file in front of the recency list |
| NameHistory.RunMirrors | nm.c:998-1013 | so it is in every state of a run whose registrations list no files |
| NameHistory.RunSize | common.h:31 | in every reachable state the cache has 100 slots |
| NameServers.NameServer.constructor | nm.c:65-99 | the initial state |
| NameServers.NameServer.FindSsForFile | nm.c:164-181 | refines FindSs on the real trie and cache |
| NameServers.NameServer.NextSs | nm.c:183-196 | the round-robin choice, or -1 without servers |
| NameServers.NameServer.MayAccess | nm.c:198-225 | refines CheckAccess |
| NameServers.NameServer.UserExists | nm.c:1108-1120 | membership among the registered users |
| NameServers.NameServer.IsPending | nm.c:329-341 | whether the same request is pending |
| NameServers.CloseGap | nm.c:452-455 | the shift loop removes exactly that request |
| NameServers.RevokeInAcl | nm.c:1186-1195 | the shift loop removes exactly that entry |
| NameServers.GrantInAcl | nm.c:1161-1175 | the grant on the list |
| NameServers.NameServer.HandleCreate | nm.c:946-1023 | refines the CREATE step: status and whole new state |
| NameServers.NameServer.HandleDelete | nm.c:1025-1106 | refines the DELETE step |
| NameServers.NameServer.HandleAddAccess | nm.c:1122-1182 | refines the ADDACCESS step |
| NameServers.NameServer.HandleRemAccess | nm.c:1184-1207 | refines the REMACCESS step |
| NameServers.NameServer.HandleRequestAccess | nm.c:308-361 | refines the REQUESTACCESS step |
| NameServers.NameServer.HandleApprove | nm.c:405-465 | refines the APPROVEREQUEST step |
| NameServers.NameServer.HandleDeny | nm.c:467-508 | refines the DENYREQUEST step |
| NameServers.NameServer.HandleMove | nm.c:510-593 | refines the MOVE step |
| NameServers.NameServer.HandleTouch | nm.c:1631-1684 | refines the READ, WRITE, STREAM and UNDO step |
| NameServers.NameServer.HandleLookup | nm.c:1209-1226 | refines the lookup of EXEC and the checkpoint requests |
| NameServers.NameServer.HandleInfo | nm.c:827-841 | refines the lookup of INFO, which checks no access |
| NameServers.NameServer.RefreshFile | nm.c:763-773 | refines the refresh of one listed file |
| NameServers.NameServer.HandleUser | nm.c:128-141 | the registered users afterwards |
| NameServers.NameServer.HandleRegistration | nm.c:1393-1482 | refines the registration of a storage server |
| Wire.NumberRoundTrip | common.c:57-73 | reading a printed number gives it back, for every integer |
| Wire.TokensOfJoin | common.c:80-90 | reading joined fields gives them back up to the first that holds a separator, which is cut there |
| Wire.OneField | common.c:93-145 | one turn of the switch on the message so far |
| Wire.Deserialize | common.c:75-151 | the loop computes Decode: copy limits, defaults for empty fields, the last field unsplit |
| Wire.FromOwnTexts | common.c:115-118 | the copy limits cut nothing but a target path of 256 characters or more |
| Wire.RoundTrip | common.c:39-151 | a message that fits its structure survives the wire if and only if no string before the data holds a separator and the target path is at most 255 long |
| Wire.FrameIs | common.c:50-70 | the frame written out: which field stands where |
| Wire.DecodeFits | common.c:21-29 | whatever arrives, every string stays within its array; an empty frame is the default message |
| Wire.AtoiReads | common.c:102-103 | a number is read over white space and a plus sign in front, and anything but a digit behind |
| Wire.FrameFits | common.c:207-209 | its frame is not empty and below the receiver's limit |
| Wire.Receive | common.c:198-227 | a frame of an unacceptable length is refused, any other decoded |

## Left out

- FileContents.SplitByDelimiters: requires the words of the content to be shorter than the word buffer; longer ones overrun it in the source, which does not check (file_ops.c:155).
- FileContents.FileContent.InsertWordInSentence: requires the same of its content.
- StorageServers.StorageServer.WriteRequest: requires the same of its content. The theorems about WRITE on values hold for every content, but chop longer words where the source overruns, so they speak about the source for contents that fit.
- Wire.NumberRoundTrip: integers are unbounded; `atoi` on numbers outside 32 bits is undefined and not modelled.
- NameRules.StepKeeps: requires that the cache's probing ends for the file of a successful request, as the source hangs otherwise.
- StorageServers.StorageServer.ProcessOne: the write past the merged array, possible when a session's copy lost two or more sentences, is not modelled; `Protocol.CopyKeepsSentences` shows that no copy made by WRITEs does.
- Files and messages hold no NUL character; C strings would end there.
- Undo copies, checkpoints and session copies are maps of their own, not files named after the original; checkpoint tags and user names cannot collide in them.
- The storage server's arrays of files with locks and of commit queues are maps from names; their linear searches and the overflow of the lock table are not modelled. The limits of 1000 sessions and 100 queues are.
- Failures of opening a file for writing, of memory allocation and of sockets; truncation of paths, and buffer sizes of names.
- Threads inside a handler: locks are taken for granted, so races on pointers into the session and lock arrays, and between CHECK_LOCKS and DELETE, are not covered.
- READ, STREAM, EXEC and the listings' text layout, logging, time formatting, heartbeats, directory scanning and the client program.
- Folders: the folder trie, moving and listing by folder on the storage server; MOVE sees a folder's existence as a parameter.
- File statistics in metadata are whatever the storage server reports; VIEW with details is one refresh step for each listed file.
- The connected-client list and login sessions; only the set of registered users is modelled.
- NameServers.NameServer.HandleTouch: does not model the address in the reply; when no listed server has the number, the source answers with the status of the connection's previous reply, the model with success.
- NameServers.NameServer.HandleUser: models the set of registered users; the refusal of a second login is part of the sessions left out below.
- NameServers.NameServer.HandleRegistration: does not model addresses, ports, sockets and the per-server list of file names.
- Concurrent.ConcurrentEditing: UNDO, REVERT and DELETE of the file end its runs; what a commit does after them is `Protocol.LockedEditShifts`. The reference takes from the store whether a session's text goes on after its last delimiter, which spaces decide.
- Layout.WriteIsExact: is about texts whose words and runs of spaces fit a token, as the source assumes of what it is sent; for any text there is `Layout.PrintParse`.
- Layout.CommitIsExact: is about words that fit a token, likewise.
- CHECK_LOCKS, by which a deletion asks the storage server for locks, is the lock reply of a DELETE at the name server.
- The wrap-around of the round-robin counter.
- The concrete hash in the cache's class: its methods and the cache theorems hold for every function from keys to slots; `CacheModel.SourceHashIsRich` is about the source's.
- The bounded copy of the printer in `file_content_to_string`.
