# Memory OS: a model and its proofs

This project models seven parts of Memory OS in which state is kept or data is transformed, and
proves what they keep over every input or every run. `dafny verify dfyconfig.toml` checks all of it.

| files | what they model |
|---|---|
| `SessionGrouping`, `Transcript`, `ChatMigration`, `ChatMigrationProofs`, `ChatRemigration`, `ChatDowngrade`, `ChatTables`, `ChatLoss`, `ChatPlaces`, `ChatRestored`, `ChatRestoring`, `ChatOrder`, `ChatEffects`, `ChatExamples` | Migration 0028: a flat list of exchanges becomes sessions and turns, and comes back |
| `ContextView`, `ContextViewProvider`, `ContextEffects`, `ContextClient` | The editor panel: a settle timer, any number of outstanding loads, and the polling client under them |
| `Encodings`, `EncodingVectors`, `Aead`, `Cipher`, `EncryptedStore`, `EncryptedMemory`, `EncryptedRuns`, `EncryptExisting`, `StoreEffects`, `EncryptedExamples`, `KeyVault` | Envelope encryption in place, beside a search index derived from the plaintext, on chunks that new versions of a memory adopt |
| `JobRows`, `JobProtocol`, `JobRuns`, `JobDrain`, `JobBudget`, `JobOutcomes`, `JobEffects`, `JobQueue`, `Rechunk` | The job queue: claims, leases, fencing, retries, the sweep, and the dedupe index |
| `UserIsolation`, `RowDeletion`, `StatementEffects`, `UserScoping` | Row-level security per user over foreign keys and unique indexes, deletion with its cascades, and the migration that introduces the policies |
| `ContextPacking` | Passages packed under a token budget |
| `HtmlEscape` | The panel's five sequential replaces |

Code that changes fields or tables is a class or a method with loops, proved against a function; the
properties are lemmas about that function. The modules named `..Effects` say what each operation does to
its rows or fields, in terms of these alone, and what that comes to over runs. What is drawn at random (UUIDs, nonces, data keys, row
ids) is a parameter, and so are the clock, the server's replies, the tokenizer and `to_tsvector`.

How the parts are modelled:

- **Timestamps** of 0028 are whole microseconds, as Postgres stores them. `gen_random_uuid` is any
  choice of distinct ids.
- **The panel** is a state machine whose handlers run to completion, as on one event loop. A `load`
  has two awaits. The clock moves only by `Tick`.
- **AES-GCM** is ideal authenticated encryption (sections 7.1 and 7.2 of NIST SP 800-38D): opening
  succeeds exactly for what was sealed with the same key, nonce and associated data.
  `Aead.IdealExists` exhibits an instance, so the ideal asks for nothing contradictory. UTF-8 and
  base64 (section 4 of RFC 4648) are concrete, decoded as Python decodes them. The one assumption
  about data is that no text is written that itself begins with `enc:v1:`.
- **The queue** is one user's `jobs` table. A claim is two steps, the locked SELECT and the
  committed UPDATE, so claims of different workers interleave; every other call is one step.
- **Encrypted chunks** stand for their texts wherever they are. An adoption moves rows between
  memories without looking at their contents, so an envelope may be in a memory it was not sealed for.
- **Row-level security** is a policy on what statements read and write, over rows under their
  primary keys. Conditions and values of a statement are arbitrary functions of what it can see. A row
  has any number of foreign keys, each with its ON DELETE, and these act below the policies.

Where the code and its documentation disagree, the model follows the code:

- The downgrade of 0028 says it is lossy "in one specific way", a boundary drawn by hand inside the
  window, and that everything else round-trips. The exact condition under which a second upgrade gives
  the tables back up to ids is `ChatRestoring.SecondUpgradeRestoresIff`; without questions that tie in
  time it is an order to be checked turn by turn (`ChatOrder.UntiedRestoresIff`), with ties that order
  is enough and not necessary (`ChatExamples.TiedComesBack`). The application writes tables that
  do not meet it. Answers that are recorded when their streams end may follow both questions: the
  second question then gets the first one's answer, and the last answer is dropped
  (`ChatExamples.DeferredAnswersAreMisplaced`; how many answers survive is `ChatDowngrade.AnswersKept`).
  A session resumed after thirty minutes of silence becomes two (`ChatExamples.ResumedSessionSplits`).
  An upgraded row loses the model, verdict and citations of a blank answer
  (`ChatMigrationProofs.RoundTripIsExactIff`, `ChatExamples.BlankAnswerIsLost`). And the downgrade can
  fail outright, because 0028 asks less of an answer than 0027 did
  (`ChatDowngrade.DowngradeChecksIff`, `ChatExamples.AnsweredStatementBlocksDowngrade`).
- Permanent deletion is said to make every copy of a memory's ciphertext undecryptable, and only that.
  When a cosmetic edit makes a new version adopt chunks that were already encrypted, their envelopes
  stay bound to the old version's id. They can no longer be read, though nothing was deleted
  (`EncryptedRuns.AdoptedChunksReadIff`, `EncryptedRuns.RunsReadFaithfully`,
  `EncryptedExamples.AdoptedChunkStopsThePass`), and shredding the new version leaves them readable
  through the old version's key (`EncryptedRuns.ShreddingTheAdopterIff`).
- `encrypt-existing` is described as a walk over every memory that a second run finishes. A memory
  whose key was shredded without purging its rows ends every run at that memory, and so does an adopted
  envelope whose vector has to be rebuilt (`EncryptExisting.PassFinishesIff`,
  `EncryptedExamples.ShreddedMemoryStopsThePass`, `EncryptedExamples.AdoptedChunkStopsThePass`). The
  chunks of a memory whose content is NULL stay in plaintext (`EncryptExisting.PassLeavesInPlaintext`,
  `EncryptedExamples.NullContentKeepsItsChunkPlain`).
- `encrypt_memory` returns False "when there was nothing to do". It returns True for an already
  finished memory exactly when a chunk's own text has the lexeme `enc`
  (`EncryptedMemory.EncryptingAgainIsIdle`, `EncryptedExamples.FinishedMemoryReportsAChange`).
- `rechunk`'s `stale_version` "narrows" the search. It does for every version but the current one; the
  current one selects memories that are not stale at all, unless each has a chunk of another version too
  (`Rechunk.StaleVersionNarrowsIff`, `Rechunk.CurrentVersionIsSelected`).
- The attempt budget is kept by the worker, not by the queue: a job is claimed more often than it may
  be exactly when its holder reschedules it with no attempt left and it is claimed again
  (`JobBudget.OverdrawnIff`, `JobBudget.BudgetCanBeOverdrawn`).
- The uniques that 0032 leaves without `user_id` are said to be unable to collide across users. They
  can, if a child row names another user's parent, which no policy forbids
  (`UserIsolation.HiddenChildBlocksIff`, `UserIsolation.ForeignParentIsAccepted`). Such a child is also
  deleted with that parent, by a user whom the policies let see no row of its owner
  (`RowDeletion.OthersAreUntouchedIff`, `RowDeletion.ForeignChildGoesWithItsParent`).

Where the documentation promises less than a reader may expect: `inFlight` keeps a response for a file
already left off the panel, as its comment says (`ContextView.StepKeepsInv`). It holds a path, not a
request, so it does not keep an older response for the file in focus from replacing a newer one
(`ContextView.LateAnswerWinsIff`, `ContextView.OlderAnswerCanReplaceNewer`,
`ContextView.OlderAnswerWinsPastAnotherLoad`), and what it drops of that file is asked for again
(`ContextView.DroppedIsAskedAgain`).

## Model

| member | source | states |
|---|---|---|
| SessionGrouping.NumberInOnePass | migrations/versions/0028_chat_sessions.py:116-141 | One running total computes the gaps-and-islands window query for every row |
| SessionGrouping.SessionsAreComponents | migrations/versions/0028_chat_sessions.py:116-141 | Two rows share a session number if and only if a chain of rows with hops shorter than thirty minutes joins them |
| SessionGrouping.SessionsAreContiguous | migrations/versions/0028_chat_sessions.py:116-141 | A row between two rows of one session is in that session |
| SessionGrouping.EveryNumberIsUsed | migrations/versions/0028_chat_sessions.py:112-139 | Sessions are numbered 1 to n without a hole; each number has the row that opens it |
| SessionGrouping.SessionHasExtent | migrations/versions/0028_chat_sessions.py:144-156 | Every session has a first and a last activity, each attained by one of its rows, the first not after the last |
| SessionGrouping.ExtentDecidesMembership | migrations/versions/0028_chat_sessions.py:144-156 | A row belongs to a session exactly when its time lies between the session's first and last activity |
| SessionGrouping.SessionsAreSeparated | migrations/versions/0028_chat_sessions.py:129-153 | Each session starts at least thirty minutes after the last activity of the one before |
| ChatMigrationProofs.OrdinalsAreExact | migrations/versions/0028_chat_sessions.py:226-228 | Ordinals in a session are exactly 0 to count - 1: unique, in range, every one taken |
| ChatMigrationProofs.AnswerFollowsQuestion | migrations/versions/0028_chat_sessions.py:183-238 | Each exchange becomes a user turn and, if its answer has text, an assistant turn of the same session at the next ordinal, with every field where it belongs |
| ChatMigrationProofs.UpgradeMeetsConstraints | migrations/versions/0028_chat_sessions.py:240-299 | From a table that meets 0027's CHECKs, the loaded tables meet every key, foreign key, UNIQUE and CHECK of 0028, and `message_count` is the number of turns |
| ChatMigrationProofs.JoinIsNextTurn | migrations/versions/0028_chat_sessions.py:351-356 | The LEFT JOIN of the downgrade finds the turn right after a question if that is its answer, and nothing otherwise |
| ChatMigrationProofs.PairRejoins | migrations/versions/0028_chat_sessions.py:339-357 | An exchange's one or two turns come back as that exchange, normalised, under its question's turn id |
| ChatMigrationProofs.RoundTripInOrder | migrations/versions/0028_chat_sessions.py:186-357 | Downgrading an upgraded transcript returns its rows in order, ids apart, normalised where the answer is null or blank, all under distinct ids |
| ChatMigrationProofs.RoundTrip | migrations/versions/0028_chat_sessions.py:186-357 | Downgrade after upgrade is the original table as a multiset of rows without ids, normalised, whatever ids were drawn |
| ChatMigrationProofs.RoundTripIsExactIff | migrations/versions/0028_chat_sessions.py:304-357 | The round trip is exact if and only if no row has a blank answer, or leftovers beside a null one |
| ChatMigrationProofs.DowngradeMeetsConstraints | migrations/versions/0028_chat_sessions.py:366-388 | Downgrading an upgraded table always satisfies the CHECKs and the key that the downgrade adds again |
| Transcript.BtrimTrims | migrations/versions/0028_chat_sessions.py:217-217 | `btrim` takes away all the spaces at both ends, and nothing else |
| Transcript.BlankIff | migrations/versions/0028_chat_sessions.py:217-217 | A text counts as blank if and only if it has no character but the space |
| ChatEffects.EveryExchangeIsLoaded | migrations/versions/0028_chat_sessions.py:183-238 | Every exchange is loaded as its question, field by field, followed at the next ordinal by its answer with model, verdict and citations if that has any character but spaces, and by no answer otherwise |
| ChatEffects.EveryTurnIsOfAnExchange | migrations/versions/0028_chat_sessions.py:183-238 | Every turn is the question or the answer of some exchange, with that exchange's fields and time |
| ChatEffects.NoExchangeIsLoadedTwice | migrations/versions/0028_chat_sessions.py:183-238 | There are as many questions as exchanges |
| ChatEffects.LoadedInOrder | migrations/versions/0028_chat_sessions.py:186-228 | Exchanges are loaded by time, and by id where times are equal |
| ChatEffects.SessionsAreCutAtSilences | migrations/versions/0028_chat_sessions.py:116-141 | Two turns are in one session if and only if no thirty minutes without an exchange lie between their times |
| ChatEffects.OrdinalsCount | migrations/versions/0028_chat_sessions.py:226-228 | A turn's ordinal is how many turns of its session come before it |
| ChatEffects.SessionsRecordTheirTurns | migrations/versions/0028_chat_sessions.py:144-249 | Each session row has the least and the greatest time of its turns, and their number |
| ChatEffects.DowngradeReturnsIff | migrations/versions/0028_chat_sessions.py:339-357 | An exchange is returned exactly if it is a question of the table with the fields of the answer at the next ordinal of its session, or with none if no answer is there |
| ChatEffects.AsManyRows | migrations/versions/0028_chat_sessions.py:339-357 | As many exchanges are returned as there are questions |
| ChatRemigration.RemigrationKeepsSessions | migrations/versions/0028_chat_sessions.py:116-249 | Upgrade, downgrade, upgrade rebuilds as many sessions with the same start, last activity and message count, for any ids and any order of equal timestamps |
| ChatRemigration.RemigrationKeepsTurns | migrations/versions/0028_chat_sessions.py:186-238 | If no two rows share a timestamp, it also rebuilds every turn in the same session at the same ordinal |
| ChatDowngrade.DowngradedRows | migrations/versions/0028_chat_sessions.py:339-357 | On any 0028 tables, a row is in the downgraded table exactly when it is a question with its answer, or a question that no turn answers |
| ChatDowngrade.DowngradedIdsDiffer | migrations/versions/0028_chat_sessions.py:366-366 | The downgraded rows keep distinct ids, each the id of a turn, so the primary key can be added |
| ChatDowngrade.DowngradeChecksIff | migrations/versions/0028_chat_sessions.py:366-388 | On any 0028 tables the old CHECKs can be added again if and only if no statement is followed by an answer and every such answer has its verdict |
| ChatDowngrade.AnswersKept | migrations/versions/0028_chat_sessions.py:351-357 | The answers that come back are exactly as many as the turns right after a question of their session |
| ChatDowngrade.NoAnswerIsLostIff | migrations/versions/0028_chat_sessions.py:351-357 | Every answer comes back if and only if every assistant turn stands right after a question of its session |
| ChatRestoring.SecondUpgradeRestoresIff | migrations/versions/0028_chat_sessions.py:304-357 | On any 0028 tables and for any ids drawn, downgrade and upgrade give every turn and session back up to ids, and no others, if and only if answers follow their questions with the same time, ordinals have no hole, counting the questions by time and id puts each and its answer where the like stand, sessions follow the clock, and each session's row agrees with its turns |
| ChatOrder.UntiedRestoresIff | migrations/versions/0028_chat_sessions.py:304-357 | If no two questions of a session share a microsecond, the tables come back up to ids if and only if, beside the other conditions, questions are numbered in the order they were asked |
| ChatOrder.OrderIsEnough | migrations/versions/0028_chat_sessions.py:304-357 | Numbered by time and id, tables have nothing to lose, with ties or without |
| ChatRestored.RestoredHadNothingToLose | migrations/versions/0028_chat_sessions.py:304-357 | One half of that, for any correspondence of sessions under which the tables came back up to ids |
| ChatExamples.DeferredAnswersAreTables | src/memoryos/application/chat.py:944-967 | Two questions followed by their two answers, at ordinals 0 to 3, meet every key and CHECK of 0028 |
| ChatExamples.DeferredAnswersAreMisplaced | migrations/versions/0028_chat_sessions.py:304-357 | The downgrade gives that table's first answer to its second question, leaves the first question without one and drops the second answer |
| ChatExamples.ResumedSessionSplits | migrations/versions/0028_chat_sessions.py:305-313 | A session resumed after forty minutes is one session going in and two coming back, which the docstring does not say |
| ChatExamples.TiedComesBack | migrations/versions/0028_chat_sessions.py:304-357 | Two questions alike in one microsecond, numbered against their ids: they change places and the tables come back |
| ChatExamples.AnsweredStatementBlocksDowngrade | migrations/versions/0028_chat_sessions.py:378-382 | 0028 allows a statement with an answer after it, and the downgraded table then breaks 0027's CHECK |
| ChatExamples.BlankAnswerIsLost | migrations/versions/0028_chat_sessions.py:200-218 | 0027 allows an answer of one space; downgrading the upgraded table does not give its row back |
| ChatTables.SplitRows | migrations/versions/0028_chat_sessions.py:189-218 | The row-by-row loop produces the UNION ALL of the two halves in numbering order |
| ChatTables.NumberTurns | migrations/versions/0028_chat_sessions.py:226-228 | One counter a session computes `row_number()` partitioned by session |
| ChatTables.InsertSessions | migrations/versions/0028_chat_sessions.py:158-181 | One row a session, with its first and last activity and a count of zero |
| ChatTables.SetMessageCounts | migrations/versions/0028_chat_sessions.py:240-249 | The UPDATE sets each count to the number of turns of that session and changes nothing else |
| ChatTables.Rejoin | migrations/versions/0028_chat_sessions.py:336-360 | The INSERT, question by question, leaves the specified table |
| ChatTables.Database.Upgrade | migrations/versions/0028_chat_sessions.py:55-301 | The statements leave exactly the specified turns and sessions in place of the exchanges, in a valid revision 28; every exchange is there with all its fields, its answer included if that has a character other than a space |
| ChatTables.Database.Downgrade | migrations/versions/0028_chat_sessions.py:304-388 | Succeeds if and only if the answers are verdicts; then a row is in the table exactly if it is a question with the answer next to it, or with none, and otherwise nothing changes |
| ContextView.StepKeepsInv | clients/vscode/src/extension.ts:84-214 | Every event keeps: nothing held or pending is for another file, whatever is held is what `inFlight` expects, one timer at most, a focused file is attended to, the screen shows the current fields |
| ContextView.Reachable | clients/vscode/src/extension.ts:84-214 | That invariant holds in every state of every run, for any interleaving of focus changes and answers |
| ContextView.SettlesOnTheFocus | clients/vscode/src/extension.ts:158-202 | When nothing is pending or outstanding and a file is in focus, the panel holds that file's result |
| ContextView.FocusIsSince | clients/vscode/src/extension.ts:158-166 | The focus has not changed since the moment it is recorded to have changed |
| ContextView.LoadWaitsForTheFocus | clients/vscode/src/extension.ts:168-174 | A load for a file starts only after the focus stayed on that file for the whole 350 ms |
| ContextView.EachStepPaysOne | clients/vscode/src/extension.ts:168-202 | Of the steps still owed, a timer firing or an answer pays off exactly one, and every other event but a focus change none |
| ContextView.SettlesInTime | clients/vscode/src/extension.ts:158-202 | Between focus changes the panel settles after exactly the steps owed at the last one, however the answers interleave |
| ContextView.SomethingCanHappen | clients/vscode/src/extension.ts:168-202 | While anything is owed, an answer, or the timer once it is due, can come next |
| ContextView.OlderAnswerCanReplaceNewer | clients/vscode/src/extension.ts:186-202 | A run in which a file is left and reopened, and the older load's result replaces the newer one's |
| ContextView.LateAnswerWinsIff | clients/vscode/src/extension.ts:192-197 | While a newer result is held, an older load's answer displaces it if and only if it is for the file in focus, whatever `inFlight` is meant to prevent |
| ContextView.OlderAnswerWinsPastAnotherLoad | clients/vscode/src/extension.ts:180-202 | A run in which the older answer wins although a load of another file was started in between |
| ContextView.DroppedIsAskedAgain | clients/vscode/src/extension.ts:192-197 | An answer for the file in focus that `inFlight` drops finds no result held, and a load of that file is still to start |
| ContextEffects.AcceptedIsShown | clients/vscode/src/extension.ts:186-202 | After an answer for the file that is in focus and expected, the panel lists exactly its items, in order, each for that file, and holds the result its context arrived with |
| ContextEffects.OthersAreDropped | clients/vscode/src/extension.ts:192-195 | Any other answer changes nothing but that its load is done |
| ContextEffects.ListedSince | clients/vscode/src/extension.ts:149-202 | Over any run, until the next accepted answer or change of focus, the panel lists those items in their order without exactly the ones a verdict returned on, and holds that result |
| ContextEffects.VerdictRemovesItsRow | clients/vscode/src/extension.ts:149-156 | A verdict takes exactly the rows with its id out of the list, whatever is listed, and keeps the order of the others |
| ContextEffects.ReadyIsWhatArrived | clients/vscode/src/extension.ts:186-191 | What a load carries between its awaits is what arrived for it |
| ContextEffects.FocusIsTheLast | clients/vscode/src/extension.ts:158-163 | The focus is the file that was opened last |
| ContextEffects.FocusEmptiesThePanel | clients/vscode/src/extension.ts:158-174 | A change of focus empties the panel, cancels the timer and sets one for 350 ms later if a file is opened |
| ContextEffects.TimeoutAsks | clients/vscode/src/extension.ts:174-186 | A timeout starts a new load of its file, which is then the one expected |
| ContextEffects.UrlIsTheLast | clients/vscode/src/extension.ts:109-115 | The address in use is the one set last |
| ContextEffects.ScreenShowsWhatIsHeld | clients/vscode/src/extension.ts:128-139 | From its resolution on, the view shows the focus, result, items and address that are held |
| ContextViewProvider.Provider.FocusOn | clients/vscode/src/extension.ts:158-175 | Assigning field by field, one focus change is the protocol's focus step |
| ContextViewProvider.Provider.StartLoad | clients/vscode/src/extension.ts:177-186 | The timeout's callback, up to the first await, is the protocol's timer step |
| ContextViewProvider.Provider.TakeContext | clients/vscode/src/extension.ts:186-191 | The first answer of a load is the protocol's context step |
| ContextViewProvider.Provider.FinishLoad | clients/vscode/src/extension.ts:191-202 | The second answer is dropped or shown as the protocol's surfaced step says |
| ContextViewProvider.Provider.FinishRate | clients/vscode/src/extension.ts:149-156 | A verdict removes exactly the items with that id and redraws, and keeps the invariant |
| ContextViewProvider.Provider.Reload | clients/vscode/src/extension.ts:109-115 | New settings are shown at once and nothing else changes |
| ContextViewProvider.Provider.ResolveWebviewView | clients/vscode/src/extension.ts:128-139 | A view that appears shows the current fields |
| ContextClient.Client.Send | clients/vscode/src/client.ts:246-291 | Outcome, pause, duration and the new failure count of one request, for every kind of reply |
| ContextClient.Client.FetchContext | clients/vscode/src/client.ts:145-194 | The polling loop is the first decisive reply within four, with exactly its waits, requests and failure count |
| ContextClient.FetchIsBounded | clients/vscode/src/client.ts:73-86 | From any failure count: at most four requests, 4100 ms of waiting, 20100 ms in all |
| ContextClient.BoundIsReached | clients/vscode/src/client.ts:73-86 | The bound is the least one: some replies reach it exactly |
| ContextClient.ReplyIs | clients/vscode/src/client.ts:246-291 | A reply is ready if its headers and body arrive within four seconds, the status is a success other than 204 and the body says so; it says to come back likewise or as a 204; anything else is an error, counted exactly when no success arrived in time |
| ContextClient.FetchIs | clients/vscode/src/client.ts:145-194 | A fetch ends with the first reply that does not say to come back, or after four, having waited for earlier failures once and 700 ms between requests |
| ContextClient.ReadyIff | clients/vscode/src/client.ts:149-184 | Ready if and only if, within four, the first reply that is an error or ready is a ready one |
| ContextClient.FailuresNeverLockOut | clients/vscode/src/client.ts:95-103 | However many failures went before, one ready reply makes the fetch ready after at most two seconds and resets the count |
| Encodings.Utf8RoundTrip | src/memoryos/crypto.py:160-177 | Decoding encoded text returns it |
| Encodings.Utf8IsCanonical | src/memoryos/crypto.py:175-177 | Bytes that decode at all are the encoding of what they decode to |
| Encodings.Utf8IsInjective | src/memoryos/crypto.py:189-195 | Different memory ids give different associated data |
| Encodings.Base64RoundTrip | src/memoryos/crypto.py:162-173 | Base64 of any bytes decodes to those bytes |
| EncodingVectors.EncodesByAlphabet | src/memoryos/crypto.py:162-162 | The k-th symbol of an encoding is the character of RFC 4648's alphabet at the value of the k-th six bits, and padding fills the last group |
| EncodingVectors.DecodesIff | src/memoryos/crypto.py:173-173 | Characters of the alphabet with any padding decode if and only if the last group is whole, and then to the bits of their positions |
| EncodingVectors.JunkIsSkipped | src/memoryos/crypto.py:173-173 | An ASCII character outside the alphabet may stand anywhere and changes nothing |
| EncodingVectors.PaddingEndsAGroup | src/memoryos/crypto.py:173-173 | Padding is skipped while a group has fewer than two symbols or goes on, and ends the text when it completes one |
| EncodingVectors.Base64Vectors | src/memoryos/crypto.py:162-173 | The vectors of section 10 of RFC 4648 for up to two bytes, both ways |
| EncodingVectors.Base64ThreeBytes | src/memoryos/crypto.py:162-173 | The vector for three bytes, both ways |
| EncodingVectors.Base64FourBytes | src/memoryos/crypto.py:162-173 | The vector for four bytes, both ways |
| EncodingVectors.Base64FiveBytes | src/memoryos/crypto.py:162-173 | The vector for five bytes, both ways |
| EncodingVectors.Base64SixBytes | src/memoryos/crypto.py:162-173 | The vector for six bytes, both ways |
| EncodingVectors.OctetsByTable | src/memoryos/crypto.py:160-160 | Each character has the octets of the table in section 3 of RFC 3629 |
| EncodingVectors.Utf8IsInOrder | src/memoryos/crypto.py:160-160 | A text's encoding is that of its parts in order |
| EncodingVectors.Utf8DecodesIff | src/memoryos/crypto.py:175-177 | Bytes decode if and only if some text encodes to them |
| EncodingVectors.Utf8Vectors | src/memoryos/crypto.py:160-177 | Vectors of section 7 of RFC 3629 |
| Aead.OpensExactly | src/memoryos/crypto.py:129-182 | Opening succeeds with the key, nonce and associated data of the sealing, and with no others |
| Aead.IdealExists | src/memoryos/crypto.py:129-182 | Some AEAD satisfies the ideal, so the assumptions are consistent |
| Cipher.UnwrapWrap | src/memoryos/crypto.py:129-147 | A wrapped data key opens under its master key for its memory, and under no other for no other |
| Cipher.DecryptEncrypt | src/memoryos/crypto.py:149-182 | An envelope decrypts to its text with its key in its memory, and fails to authenticate for any other pair |
| Cipher.OnlySealedTextDecrypts | src/memoryos/crypto.py:164-182 | Whatever decrypts was sealed as that text with that key for that memory: no altered envelope is believed |
| Cipher.EnvelopesDiffer | src/memoryos/crypto.py:149-162 | Equal envelopes hold the same text under the same key for the same memory |
| Cipher.EnvelopeLayout | src/memoryos/crypto.py:149-162 | An envelope is `enc:v1:` and the base64 of twelve bytes of nonce before what opens, under the memory's id, to the text in UTF-8 |
| Cipher.UnwrapsIff | src/memoryos/crypto.py:129-147 | A wrapped key unwraps to a key if and only if it is some nonce before that key sealed under the master for the memory |
| Cipher.DecryptsIff | src/memoryos/crypto.py:164-182 | A value without the prefix reads as itself and one with it as the text it opens to; it fails to authenticate exactly when its bytes do not open |
| EncryptedMemory.CellReads | src/memoryos/application/encryption.py:186-197 | A stored cell reads back as its text, unless it is an envelope and the key was destroyed |
| EncryptedMemory.ChunkReads | src/memoryos/application/encryption.py:186-197 | A stored chunk reads as its text when it is plaintext or its memory's key opens it, as shredded when the key was destroyed, and not at all otherwise |
| EncryptedMemory.EncryptMemoryKeeps | src/memoryos/application/encryption.py:119-183 | Encrypting aborts if and only if the memory has content and its key was destroyed or some envelope needs a new vector and its key does not open it; otherwise every cell ends encrypted, still stands for its text, beside the vector of that text, and chunks in the memory they were sealed for stay so |
| EncryptedMemory.EncryptingAgainIsIdle | src/memoryos/application/encryption.py:150-183 | A second encryption changes nothing, and claims a change exactly when a chunk's own text has the lexeme `enc` |
| EncryptedMemory.RewrappingKeeps | src/memoryos/application/encryption.py:200-229 | Re-wrapping a row keeps its data key, every cell, and a destroyed row as it is; the old master key opens it no longer |
| EncryptedMemory.DestroyingKeeps | src/memoryos/application/encryption.py:85-107 | Destroying a key leaves the row's CHECK standing and no data key to be had from it |
| EncryptedMemory.ReindexingKeeps | migrations/versions/0034_search_vector.py:72-87 | After the new column's backfill, plaintext has its own vector and ciphertext is marked for repair |
| EncryptedRuns.StepKeepsInv | src/memoryos/application/normalize.py:163-260 | Plaintext writes through the trigger, dropped and adopted chunks, encryption, rotation, shredding, purging and reindexing all keep every cell standing for its text |
| EncryptedRuns.RunsReadFaithfully | src/memoryos/application/encryption.py:119-197 | In every reachable state, encryption stopped anywhere included, every content reads back as written unless shredded, every vector is that of its text or marked for repair, and an unshredded memory reads back whole if and only if its chunks are in the memory their envelopes were sealed for |
| EncryptedRuns.CarefulRunsReadFaithfully | src/memoryos/application/normalize.py:163-226 | Over any run in which no adoption takes an envelope along, every memory reads back in every state |
| EncryptedRuns.AdoptedChunksReadIff | src/memoryos/application/normalize.py:214-226 | Adopted chunks read as their texts in the new version if and only if none of them was encrypted, whatever keys the two versions have |
| EncryptedRuns.ShreddingTheAdopterIff | README.md:3982-3988 | After the new version is shredded an adopted envelope still opens through the old version's row, if and only if that one was not shredded |
| EncryptedRuns.RotationPreservesReads | src/memoryos/application/encryption.py:200-229 | Rotation always succeeds, changes no content byte, keeps every read, leaves destroyed rows destroyed and retires the old master key |
| EncryptedRuns.ShreddingIsForever | README.md:3988-3996 | After a key is destroyed, no later run of any steps, a fresh key for the same id included, lets any envelope ever written for that memory be read through any row of the key table |
| EncryptExisting.PassFinishesIff | src/memoryos/cli.py:7256-7302 | A pass from any store a run can reach finishes if and only if no listed memory with content was shredded or holds an envelope that needs a new vector and that its key does not open; otherwise it ends at the first such with the exception that names the cause, the memories before it are encrypted and nothing after it is touched |
| EncryptExisting.SecondPassIsIdle | README.md:4063-4067 | After a finished pass, another over the same memories changes nothing and finishes |
| EncryptExisting.PassLeavesInPlaintext | src/memoryos/application/encryption.py:133-141 | The plaintext left by a pass is exactly that of memories it did not reach and of memories whose content is NULL |
| EncryptExisting.OneTransactionCounts | src/memoryos/application/encryption.py:119-183 | One transaction takes exactly its memory's cells out of the plaintext, or changes nothing |
| EncryptExisting.EncryptingCountsDown | src/memoryos/application/encryption.py:119-183 | The number of plaintext cells never grows and shrinks exactly when the memory had any to give and does not make the call raise |
| StoreEffects.ReadsIff | src/memoryos/application/encryption.py:186-197 | A stored text reads as itself without the prefix, and with it as what the key in its memory's row opens it to; as shredded exactly when that row is empty |
| StoreEffects.ContentReadsAsLastGiven | src/memoryos/application/encryption.py:119-197 | Over any run, content reads back as the text its memory was given last, until it is purged, unless it is an envelope of a shredded memory |
| StoreEffects.ChunkReadsAsLastGiven | src/memoryos/application/encryption.py:119-197 | So does every chunk that was given a text and left in place, if no adoption took an envelope along, beside its text's vector or one marked for repair |
| StoreEffects.EncryptTakesEffect | src/memoryos/application/encryption.py:119-183 | Encrypting a memory that is not refused seals everything that was not, keeps the envelopes that were and an existing key row, gives every chunk the vector of its text and touches no other memory; otherwise it changes nothing |
| StoreEffects.AttemptReports | src/memoryos/application/encryption.py:119-183 | It raises for a destroyed key or an envelope it cannot repair, naming which, and otherwise reports a change exactly when something was not sealed, or had no vector, or one with the lexeme `enc` |
| StoreEffects.PassCounts | src/memoryos/cli.py:7281-7300 | A pass ends before the first refused memory with its reason; up to there it counts as changed exactly the ids whose memory had work, and repeated ones whose texts have the lexeme `enc`, and the others as left alone |
| StoreEffects.PutTakesEffect | src/memoryos/application/normalize.py:243-290 | A memory's text and chunks are replaced, each chunk beside its vector, and its key row stays |
| StoreEffects.PutContentTakesEffect | src/memoryos/application/normalize.py:227-241 | The content is replaced and nothing else |
| StoreEffects.PutChunkTakesEffect | migrations/versions/0034_search_vector.py:47-69 | One chunk is replaced, with the vector of its text, and nothing else |
| StoreEffects.DropTakesEffect | src/memoryos/application/normalize.py:266-279 | A memory's chunks go, and nothing else |
| StoreEffects.AdoptTakesEffect | src/memoryos/application/normalize.py:163-226 | The chunks change their memory as they are and the new one gets the text, exactly when there are some to move and it had none |
| StoreEffects.DestroyTakesEffect | src/memoryos/application/encryption.py:85-107 | The key goes and the time is stamped; a row without a key keeps its stamp |
| StoreEffects.ReindexTakesEffect | migrations/versions/0034_search_vector.py:72-87 | Every plaintext chunk gets the vector of its text and every envelope none |
| EncryptedExamples.ShreddedMemoryStopsThePass | src/memoryos/cli.py:7281-7300 | A run from the empty store, a write, an encryption and a shredding, after which every pass that lists the memory ends with its key destroyed |
| EncryptedExamples.AdoptedChunkStopsThePass | src/memoryos/application/normalize.py:163-226 | A run from the empty store, a write, an encryption, a second version and an adoption, after which no memory is shredded, the chunk is unreadable and every pass over the second version ends as undecryptable |
| EncryptedExamples.NullContentKeepsItsChunkPlain | src/memoryos/application/encryption.py:133-141 | A stored memory with NULL content whose plaintext chunk a finished pass leaves as it was |
| EncryptedExamples.FinishedMemoryReportsAChange | src/memoryos/application/encryption.py:232-242 | A finished memory with a word `enc` in a chunk for which encryption reports a change and makes none |
| EncryptedExamples.RotationSucceedsIff | src/memoryos/application/encryption.py:200-229 | Supporting fact: with keys wrapped under any masters, a rotation goes through if and only if every live key was wrapped under the one it rotates from |
| KeyVault.Vault.WriteChunk | migrations/versions/0034_search_vector.py:47-69 | A write through the trigger stores the text with its own vector, and is a step of the store |
| KeyVault.Vault.AdoptChunks | src/memoryos/application/normalize.py:199-226 | Moves the chunk rows and sets the content, or leaves everything when there is nothing to move or the unique refuses; a step of the store |
| KeyVault.Vault.DestroyKey | src/memoryos/application/encryption.py:85-107 | Blanks the key and stamps the time; True if and only if there was a key to destroy |
| KeyVault.Vault.EnsureKey | src/memoryos/application/encryption.py:52-74 | The existing key, a new one for a memory without a row, or the error for a destroyed or unopenable one |
| KeyVault.Vault.EncryptRow | src/memoryos/application/encryption.py:146-180 | One chunk is encrypted, repaired, left or refused as the specification of a chunk says |
| KeyVault.Vault.EncryptRows | src/memoryos/application/encryption.py:146-180 | The loop over chunks encrypts, repairs or leaves each one, reports a change if and only if one was not done, and fails on the first that does not decrypt |
| KeyVault.Vault.EncryptFound | src/memoryos/application/encryption.py:119-183 | The whole of `encrypt_memory` on a memory it found, exceptions included |
| KeyVault.Vault.EncryptOneMemory | src/memoryos/application/encryption.py:119-183 | One transaction: the specified new store, or no change when it raises |
| KeyVault.Vault.EncryptEverything | src/memoryos/cli.py:7281-7300 | The loop over ids is the specified pass, with its counts and the exception that ended it |
| KeyVault.Vault.RotateMasterKey | src/memoryos/application/encryption.py:200-229 | Re-wraps every live key and skips the destroyed ones; the two counts add up to the rows |
| JobRows.EnqueueIsRefusedIff | src/memoryos/adapters/db/job_queue.py:100-126 | ON CONFLICT refuses an insert exactly when it would put two jobs of one type and key in flight |
| JobRows.ChangesAreNotRefused | migrations/versions/0003_jobs.py:89-97 | A change of existing rows that keeps type and key and revives no settled job cannot violate the dedupe index |
| JobProtocol.StepKeepsInv | src/memoryos/adapters/db/job_queue.py:100-309 | Every event of queue and workers keeps the CHECKs, the budget, locks exactly on running rows, accurate copies in workers' hands, and the dedupe index |
| JobProtocol.AttemptsAreClaims | README.md:349-351 | In every reachable state `attempts` equals the number of claims and is at most `max_attempts`, however workers died; a running job has an owner and a lease |
| JobProtocol.OnlyTheLastClaimantIsHeard | src/memoryos/adapters/db/job_queue.py:86-97 | A call on a job is accepted only from the worker that claimed it last; from anyone else it changes nothing |
| JobRuns.ConcurrentClaimsDiffer | README.md:347-348 | Claims in flight at the same moment have locked different jobs, all still pending |
| JobRuns.ClaimedOnceAtATime | src/memoryos/adapters/db/job_queue.py:137-196 | Between two claims of one job, whoever made them, it was rescheduled or reclaimed |
| JobRuns.RefusedUntilItClaimsAgain | README.md:352-353 | Once another worker has claimed a job, every call by the first is refused and changes nothing until it claims the job itself again |
| JobRuns.AcceptedCallsAreCurrent | src/memoryos/application/worker.py:271-299 | An accepted call is for the very attempt the worker was given, never for a later one |
| JobRuns.StepPays | src/memoryos/application/worker.py:284-299 | Every step that moves a job lowers its potential, and no step raises it, changes its budget or its key |
| JobRuns.JobsSettle | src/memoryos/adapters/db/job_queue.py:249-303 | From its enqueue a job moves at most 2 * max_attempts times in any run, and is settled when it has moved that often |
| JobDrain.BoundIsReached | src/memoryos/application/worker.py:284-299 | The bound is the least one: for any budget, a job that fails every time moves exactly 2 * max_attempts times |
| JobDrain.JobsDrainThoughWorkersDie | src/memoryos/adapters/db/job_queue.py:249-303 | From every state that keeps the invariant, claims, deaths, passing time and sweeps alone can settle every job, with no handler ever returning |
| JobDrain.EveryJobCanSettle | src/memoryos/adapters/db/job_queue.py:249-303 | In every state of every run, all the jobs that are there can still be settled that way |
| JobDrain.RoundsSettle | src/memoryos/adapters/db/job_queue.py:137-303 | In any run, whatever else happens, a job is settled after 2 * max_attempts rounds in each of which every job in flight was claimed or swept |
| JobRuns.SettledStays | migrations/versions/0003_jobs.py:68-70 | A settled job keeps its status for ever |
| JobDrain.SelectAnswers | src/memoryos/adapters/db/job_queue.py:158-176 | Whatever is ready and unlocked, some row may be the claim's answer, or there is none to claim |
| JobDrain.SweepAnswers | src/memoryos/adapters/db/job_queue.py:261-268 | Whatever has expired, some choice of at most `limit` longest expired rows exists, and takes something if anything expired |
| JobBudget.BudgetHolds | src/memoryos/adapters/db/job_queue.py:219-233 | Over any run of the queue's own calls, a job that was never rescheduled with its attempts exhausted is within its budget |
| JobBudget.OverdrawnIff | src/memoryos/adapters/db/job_queue.py:137-233 | Over any run of those calls, a job is claimed more often than max_attempts if and only if its holder rescheduled it when exhausted and it was claimed after that |
| JobBudget.BudgetCanBeOverdrawn | src/memoryos/adapters/db/job_queue.py:219-233 | A run of four calls that makes a second attempt of a job allowed one |
| JobRuns.OneInFlightPerKey | migrations/versions/0003_jobs.py:89-97 | In every reachable state two jobs in flight with the same type and key are the same job |
| JobOutcomes.NoFourthOutcome | src/memoryos/application/worker.py:5-7 | A running job succeeds, is dead-lettered, goes back or runs on under its holder exactly as the holder's call or the sweep decides, and in no other way |
| JobOutcomes.RunsOnlyWhenClaimed | src/memoryos/adapters/db/job_queue.py:158-196 | A job starts to run exactly by a committed claim, from pending and never before its run_after, with the claimant's lease and one more attempt |
| JobOutcomes.LeaseKeepsTheJob | src/memoryos/adapters/db/job_queue.py:249-268 | Until its lease runs out a job stays with its holder, whatever other workers, the sweeper and the clock do, unless the holder lets go |
| JobEffects.SelectsIff | src/memoryos/adapters/db/job_queue.py:158-176 | The locked SELECT finds a row that is pending, due, wanted and unlocked, and that no other such row exceeds in priority or, with the same priority, precedes in run_after; or there is no such row |
| JobEffects.ClaimTakesTheFirst | src/memoryos/adapters/db/job_queue.py:137-196 | Over any run, a claim that commits takes the row that came first in that order when it was selected, unchanged since, and runs it under its worker's name and lease with one more attempt |
| JobEffects.EndingTakesEffect | src/memoryos/adapters/db/job_queue.py:207-247 | A call that ends a job sets exactly the columns of its outcome if its worker runs the job, and changes no row otherwise |
| JobEffects.BeatTakesEffect | src/memoryos/adapters/db/job_queue.py:198-205 | A heartbeat sets the lease of a job its worker runs, and nothing else; any other worker learns that it lost the job |
| JobEffects.SweepsTheLongestLapsed | src/memoryos/adapters/db/job_queue.py:261-268 | A sweep reads at most `limit` running rows whose lease has passed, and leaves one out only if it is full of rows that lapsed no later |
| JobEffects.SweepTakesEffect | src/memoryos/adapters/db/job_queue.py:269-303 | Those rows go back, or fail when no attempt is left, with the error they had or `lease expired`; every other row stays as it was |
| JobEffects.EnqueuedIff | src/memoryos/adapters/db/job_queue.py:100-126 | An enqueue is refused exactly when a pending or running job has its type and its key; otherwise the row goes in with its columns and the defaults |
| JobEffects.EnqueueTakesEffect | src/memoryos/adapters/db/job_queue.py:100-135 | The same at any point of any run |
| JobEffects.OthersLeaveTheTable | src/memoryos/adapters/db/job_queue.py:137-176 | No other event changes a row; a claim that finds nothing means that every row it could take is locked |
| JobQueue.PostgresJobQueue.Enqueue | src/memoryos/adapters/db/job_queue.py:100-135 | Inserts the row with its defaults, or returns None and changes nothing exactly when a job of that type and key is pending or running |
| JobQueue.PostgresJobQueue.SelectCandidate | src/memoryos/adapters/db/job_queue.py:158-176 | One pass finds a ready, unlocked, wanted row such that every other has a smaller priority, or the same and no earlier run_after; or that there is none |
| JobQueue.PostgresJobQueue.Claim | src/memoryos/adapters/db/job_queue.py:137-196 | Takes such a row to running under the worker's lease with one more attempt, and changes no other; None exactly when there is none |
| JobQueue.PostgresJobQueue.FencedUpdate | src/memoryos/adapters/db/job_queue.py:198-247 | True, and exactly the columns of the call set, if the worker holds the job; False and no change otherwise |
| JobQueue.PostgresJobQueue.RetryOrDeadLetter | src/memoryos/application/worker.py:284-299 | Dead-letters on an exhausted copy, reschedules otherwise, and only for the holder |
| JobQueue.PostgresJobQueue.ReadExpired | src/memoryos/adapters/db/job_queue.py:261-268 | Reads at most `limit` expired rows, all of them if fewer, and never one that expired later than one left out |
| JobQueue.PostgresJobQueue.ReclaimExpired | src/memoryos/adapters/db/job_queue.py:249-303 | At most `limit` of the longest lapsed rows return to pending, or fail when exhausted, column by column; every other row stays; the count is theirs |
| Rechunk.FindStale | src/memoryos/application/rechunk.py:29-64 | Lists an id if and only if a current, undeleted memory of the source has a chunk of a version that counts as stale |
| Rechunk.ListedInOrder | src/memoryos/application/rechunk.py:47-64 | Ids are listed row by row, each exactly if its row is stale |
| Rechunk.StaleVersionNarrowsIff | src/memoryos/application/rechunk.py:29-64 | Naming a version selects only stale memories if and only if it is not the current one, or every memory of the source with a chunk of the current version has a chunk row of another version |
| Rechunk.CurrentVersionIsSelected | src/memoryos/application/rechunk.py:36-45 | A table in which naming the current version selects a memory that has nothing else |
| Rechunk.RechunkLeavesOneEach | src/memoryos/application/rechunk.py:67-90 | Exactly one job in flight for every listed memory, however often it is listed; rows are only added, each a fresh normalization of a listed memory; memories not listed, or in flight before, keep exactly the jobs they had |
| Rechunk.EnqueueRechunk | src/memoryos/application/rechunk.py:67-90 | The loop leaves the specified table and returns how many listed memories had no job in flight before |
| UserIsolation.OthersRowsAreUntouched | migrations/versions/0032_user_scoping.py:342-354 | No read, insert or update, by any user or none, honest or not, changes a row of another user; a delete is the exception that RowDeletion.OthersAreUntouchedIff decides |
| UserIsolation.NobodyHasNothing | src/memoryos/adapters/db/scoping.py:10-15 | With no user set, reads are empty, inserts are refused and nothing changes |
| UserIsolation.StepIsLocal | migrations/versions/0032_user_scoping.py:342-354 | What a statement reports and leaves, refusals by indexes and foreign keys and cascades included, depends only on its user's own rows |
| UserIsolation.StepKeepsSound | migrations/versions/0032_user_scoping.py:142-155 | Statements that write under their own ids and below their own rows keep every row below rows of its owner, through any number of foreign keys |
| UserIsolation.NonInterference | migrations/versions/0032_user_scoping.py:142-194 | What a user is told over a whole run, and the rows the user ends with, are those of the run without anybody else's statements, deletions with their cascades and attempts by nobody included |
| UserIsolation.HiddenChildBlocksIff | migrations/versions/0032_user_scoping.py:142-151 | Another user's accepted insert makes an insert fail if and only if the two share an entry of an index left alone |
| UserIsolation.LeftEntryNamesARow | migrations/versions/0032_user_scoping.py:142-151 | Rows that share such an entry name one and the same row through the same foreign key |
| UserIsolation.ForeignParentIsAccepted | migrations/versions/0032_user_scoping.py:142-151 | The policies accept such a child row: a concrete one that blocks its parent's owner |
| RowDeletion.DeletedIff | migrations/versions/0001_initial_schema.py:211-218 | A delete is refused exactly when a row that stays refuses it; otherwise a row goes, whoever owns it, if and only if a chain of cascading foreign keys leads from it to a deleted row, and one that stays changes if and only if a key naming a falling row is set to NULL |
| RowDeletion.OthersAreUntouchedIff | migrations/versions/0032_user_scoping.py:342-354 | Another user's rows survive a delete as they were if and only if it is refused or none of them hangs below a deleted row or loses a key |
| RowDeletion.ForeignChildGoesWithItsParent | migrations/versions/0001_initial_schema.py:211-218 | A chunk that one user hung below another's memory goes when that other user deletes the memory |
| RowDeletion.StepKeepsWhole | migrations/versions/0011_entities_and_mentions.py:118-135 | Whatever statement runs, whoever runs it, every foreign key names a row |
| RowDeletion.DeletingUndoesInserting | migrations/versions/0032_user_scoping.py:342-354 | An accepted insert is seen by its user at once, and deleting the row restores the database |
| StatementEffects.SelectFinds | migrations/versions/0032_user_scoping.py:342-354 | A SELECT finds exactly the user's own rows that meet its condition, as they are |
| StatementEffects.InsertTakesEffect | migrations/versions/0032_user_scoping.py:342-354 | An INSERT for the user, under a new id, past every unique index and below existing rows adds exactly its row; otherwise it is refused for the first reason that holds and changes nothing |
| StatementEffects.UpdateTakesEffect | migrations/versions/0032_user_scoping.py:342-354 | An UPDATE gives the user's own rows that meet its condition exactly the table, keys and cells assigned, leaves every other row, and answers how many they are; it is refused exactly when it would give a row away, break a unique index or leave a key without its row |
| StatementEffects.DeleteTakesEffect | migrations/versions/0032_user_scoping.py:342-354 | A DELETE removes the user's own rows that meet its condition and all below them, frees the others exactly of the keys to be nulled, and answers how many met it; or it is refused |
| StatementEffects.ClashIff | migrations/versions/0032_user_scoping.py:161-194 | Two rows may not stand together exactly when some index has one entry for both: a rebuilt one under the same owner, or one that was left alone |
| UserScoping.Tables.Populated | migrations/versions/0032_user_scoping.py:303-310 | Lists exactly the scoped tables that hold rows |
| UserScoping.Tables.AddColumns | migrations/versions/0032_user_scoping.py:319-328 | Table by table, each row is given to the owner before its table's column is NOT NULL |
| UserScoping.Tables.Upgrade | migrations/versions/0032_user_scoping.py:299-354 | Fails if and only if there are rows but no account, naming the populated tables and changing nothing; otherwise every row is as it was under the first account, and each of the fourteen tables is NOT NULL and secured |
| UserScoping.AllTables | migrations/versions/0032_user_scoping.py:46-61 | The scoped tables are exactly those fourteen |
| UserScoping.RebuiltIndexesFit | migrations/versions/0032_user_scoping.py:334-340 | Supporting fact: over the backfilled rows the rebuilt uniques hold exactly when the old ones did; the first account sees everything and nobody else anything |
| UserScoping.StepKeepsUnique | migrations/versions/0032_user_scoping.py:161-194 | Whatever statement runs, the rebuilt uniques and those left alone stand |
| UserScoping.DowngradeFitsIff | migrations/versions/0032_user_scoping.py:382-411 | Supporting fact: the old uniques can be added again if and only if no two users hold rows with the same old key |
| UserScoping.UpgradeThenDowngrade | migrations/versions/0032_user_scoping.py:319-372 | Supporting fact: dropping the column again returns the rows that were there |
| ContextPacking.Best | src/memoryos/application/context.py:160-160 | The first chunk that no other chunk outscores |
| ContextPacking.StripStrips | src/memoryos/application/context.py:161-161 | Nothing but white space is stripped, and none is left at either end |
| ContextPacking.PassageText | src/memoryos/application/context.py:151-161 | A passage is the text of the hit's first best chunk without its first `prefix_chars` characters and without the white space at its ends |
| ContextPacking.AssembleContext | src/memoryos/application/context.py:95-148 | The loop packs the specified passages, dropped hits and tokens; a budget that is not positive is an error |
| ContextPacking.AssembledContext.Find | src/memoryos/application/context.py:80-84 | The search finds the k-th passage for 1 to n, and nothing exactly when the number is no valid index |
| ContextPacking.GreedyIffOptimal | src/memoryos/application/context.py:103-108 | A choice of hits is the assembled one if and only if it fits and, against every other choice that fits, has the hit at the first rank where they differ |
| ContextPacking.PackingAPrefix | src/memoryos/application/context.py:117-134 | Assembling the first hits gives a prefix of the passages and of the dropped hits |
| ContextPacking.PackingAccounts | src/memoryos/application/context.py:58-148 | Passages and dropped hits interleave to the hits; tokens used are the passages' sum, within budget; the valid indices are 1 to n; each text is non-empty and its hit's best |
| ContextPacking.NothingDroppedWouldFit | src/memoryos/application/context.py:124-129 | No dropped hit with text fits in what is left of the budget |
| HtmlEscape.EscapeIsOnePass | clients/vscode/src/panel.ts:18-25 | Five sequential global replaces equal one pass that maps each character on its own |
| HtmlEscape.EscapedCharacter | clients/vscode/src/panel.ts:18-25 | Exactly the five characters are replaced, each by its reference |
| HtmlEscape.EscapedIsInert | clients/vscode/src/panel.ts:11-14 | The output has no `<`, `>`, `"` or `'`, and every `&` starts one of the five references |
| HtmlEscape.DecodeEscape | clients/vscode/src/panel.ts:18-25 | Decoding the five references (section 13.1.4 of the HTML Standard) returns the escaped text |

## Left out

- Retrieval, ranking, surfacing, replay, graph sync, entity merges, facets and verification: other subsystems. Of normalization only the writing, dropping and adoption of chunk rows is modelled, not parsing, chunking or hashes: an adoption may join any two memories.
- Session titles of 0028, index creation, role grants, table ownership, DDL locking and planner behaviour: they decide no row.
- 0028's downgrade on a question with several answers at the next ordinal: the UNIQUE constraint rules it out, and the model starts from tables that meet it.
- The webview's HTML apart from `escapeHtml`, the output channel, and `emitFocus`, which the panel does not wait for.
- The answers of `fetchSurfaced` and `rate`: any items and any moment of return are allowed, so failures of those requests need no model.
- ContextViewProvider.Provider.Reload: also replaces `client` and `emitEvents`, so a load that is outstanding may ask the new server for surfaced items after the old one's context; the model keeps `webUrl` alone of the settings.
- ContextClient.Client.FetchContext: one caller at a time, because concurrent sends share the failure counter and have no bound of their own.
- The internals of AES-GCM, UUIDs and `to_tsvector`; `load_master_key` and the environment it reads.
- EncryptExisting.PassFinishesIff: the data keys a pass draws are new and differ from each other, as the keys of a run do.
- EncryptedRuns.ShreddingIsForever: backups of the key table itself are not part of the store; the property is about copies of ciphertext.
- The trigger's branch for a NULL chunk: `memory_chunks.content` is NOT NULL.
- The `algorithm` and `created_at` columns of `memory_keys`, and the purge of files and graph nodes.
- Job payloads, tracebacks, `created_at` and `updated_at`: no transition reads them. Deletion of jobs by replay.
- JobProtocol.StepKeepsInv: the sweep is one step, although it is two statements of one transaction, because the rows it locked cannot change between them; the queue is one user's, because 0032's policies hide the others'.
- The values of the retry delay: a reschedule may name any time, jitter included.
- Cancelled jobs: nothing in the queue cancels one, but every lemma about settled jobs covers the status.
- Rechunk.FindStale: lists ids in table order, not by external key, because nothing depends on the order.
- Rechunk.EnqueueRechunk: no other enqueue runs between its transactions; across them, what the index keeps is `JobRuns.OneInFlightPerKey`.
- The shared `seq` of `ingestion_events`, TRUNCATE, and the deletion of a whole account through `user_id`.
- UserIsolation.NonInterference: holds for statements that write under ids drawn by their own user and below rows of their own user; the lemma beside it says what happens otherwise.
- UserIsolation.StepIsLocal: an UPDATE is checked against the indexes when it is complete, whereas Postgres checks row by row and may also refuse a swap of two keys.
- Scores as floating point: they are compared as reals, so NaN is not modelled.
- `render` and `label` of passages: string formatting.
