# FlagFusion matchmaking server: a Dafny model

This project models the matchmaking and score-exchange core of the FlagFusion
game server (`server_main.py`). The server keeps three pieces of state:

- the FIFO waiting queue of player IDs (`player_queue`);
- the `Datastorage` table. It has one row per player, keyed by `playerID`,
  holding the score, the matched opponent and the finished flag;
- the current round's list of flag names (`final_flags`).

Its request handlers act on this state:

- join (`Matchmaking.put`): a new player either waits or is paired with the
  head of the queue;
- status (`Matchmaking.post`);
- leave (`Matchmaking.patch`);
- score report (`CommunicationAPI.patch`);
- mark finished (`CommunicationAPI.post`);
- flag list read (`CommunicationAPI.get`).

Helpers: ID generation (`getID`), the duplicate check (`detect_duplicates`),
the flag list builder (`create_flag_list`) and the name parsing of
`read_countrynames`.

Layout:

- `wrappers.dfy`: `Option`. It models request arguments that may be absent
  and the nullable `matchedPlayer` column.
- `names.dfy` (module `CountryNames`): Python's `str.split(';')` and
  `str.strip()`, with the round-trip lemmas between splitting and joining.
- `flags.dfy` (module `FlagList`): `detect_duplicates` as a loop, proved
  equal to "some value is repeated". `create_flag_list` as a loop followed
  by its recursive retry. A list it returns has 20 names from the file.
  With fewer than 20 distinct names it always raises.
- `matchmaking.dfy` (module `Matchmaking`): the state as a value, the
  invariant `Inv`, one transition function per handler, and lemmas.
- `service.dfy` (module `Service`): class `Server`. Its fields are the queue,
  the table (a map) and the flag list, and its handlers update them in place.
  Each handler is proved to match its transition function and to keep `Inv`.

## When `create_flag_list` raises

`create_flag_list` calls itself again whenever its list repeats a name
(line 174). The nested call's list is thrown away, but an exception it
raises still propagates. When the duplicates keep coming, the recursion
reaches the interpreter's recursion limit and raises `RecursionError`. The
model passes in the positions `random.choice` picks, one draw of 20 per
nested call the recursion limit admits (`draws`). A call with no draw left
raises. `FlagList.Outcome` states the result as a function of the draws.
A returned list is always the outermost level's list
(`OutcomeIsFirstLevel`), so a returned list can repeat names
(`DuplicatesSurvive`). The call raises iff every level draws a list that
repeats a name (`RaisedIffAllRepeat`).

`put` enqueues the new ID (line 49) before it calls `create_flag_list`
(line 52). So when that call raises, the request fails with HTTP 500 and
leaves an ID queued that has no record. The next join gets that same ID
from both `getID` calls (lines 61 and 64) and pops it as its own opponent.
The result is a player paired with itself, answered with "started"
(`FailedJoinThenJoinSelfPairs`).

The invariant `Inv` holds in every run, including these:

- the record keys are exactly 1..n, where n is the number of records, so
  `getID` (n + 1) never collides with an existing record;
- the queue never holds more than one ID;
- a queued ID either has a record with no opponent, or is n + 1, the ID
  left behind by a failed join;
- pairing is mutual (a self-paired player is its own opponent);
- the flag list is empty (before the first join) or has 20 names.

In runs where every `create_flag_list` call returns, the stronger property
`Clean` also holds (`JoinKeepsClean`, `OtherRequestsKeepClean`): every
queued ID has a record, so the head looked up at line 68 always exists,
and nobody is paired with itself.

## Modelling conventions

- HTTP status codes are the `Code()` of each reply datatype. An exception
  escaping a handler is Flask's 500.
- An absent request argument is `None`. Python's truthiness test fails for
  `None` and for 0.
- A score report that finds no opponent returns Python's `None`. It is
  modelled as the result `None`.
- `random.choice` is modelled by the index it picks, given as a parameter.
- The content of `countrynames.txt` is a parameter.
- The table lives in the database file and survives a restart; the queue
  and the flag list do not (`Server.Restart`, `RestartKeepsInv`).

Behaviour of the code a reader may not expect:

- join takes no player ID; the ID is generated;
- the paired reply carries only the new player's ID, not its opponent's;
- status reports whether the queue is empty, not whether this player has an
  opponent (`StatusAfterLeave` exhibits a player who left the queue without
  an opponent and is told matchmaking has started);
- a score of 0 is never written;
- a flag list that is returned may repeat names. The retry at line 174
  discards the new list and returns the first one as soon as the retry
  returns (`DuplicatesSurvive`). With fewer than 20 distinct names the retry
  never ends normally (`FewNamesForceDuplicates`, `FewNamesRaise`);
- there is no re-join of an existing ID, since IDs are generated.

## Model

| member | source | states |
|---|---|---|
| CountryNames.IsSpace | server_main.py:159 | the whitespace set of Python's `str.strip()` (`str.isspace`); used by `TrimStart`, `TrimEnd` and `Strip`, whose contracts say what is removed |
| CountryNames.Split | server_main.py:158 | `split(';')` yields one more piece than there are separators (never an empty list), and no piece contains a separator |
| CountryNames.JoinSplit | server_main.py:158 | joining the pieces of a split with `;` gives back the content |
| CountryNames.SplitJoin | server_main.py:158 | splitting separator-free pieces joined with `;` gives back the pieces |
| CountryNames.TrimStart | server_main.py:159 | the result is a suffix of the input, everything removed is whitespace, and it does not start with whitespace |
| CountryNames.TrimEnd | server_main.py:159 | the result is a prefix of the input, everything removed is whitespace, and it does not end with whitespace |
| CountryNames.Strip | server_main.py:159 | the result is the substring at `StripStart`; everything before and after it is whitespace; it neither starts nor ends with whitespace |
| CountryNames.StripIdempotent | server_main.py:159 | stripping twice is stripping once |
| CountryNames.StripPadded | server_main.py:159 | the input is the stripped result with only whitespace before and after it |
| CountryNames.ParseNames | server_main.py:158-159 | one name per `;`-piece (so at least one name); no name contains `;` or has surrounding whitespace |
| CountryNames.ParseNamesArePieces | server_main.py:158-159 | each name is the `;`-piece at the same position with only whitespace removed around it; with the stripped ends this fixes every name |
| CountryNames.ParseJoinedNames | server_main.py:158-159 | canonical content (stripped names joined by `;`) parses back into exactly those names |
| FlagList.Count | server_main.py:139 | `list.count(v)` is the number of entries equal to `v`, i.e. the multiplicity of `v` in the list's multiset; see also `CountPositive` and `CountAtLeastTwo` |
| FlagList.CountPositive | server_main.py:139 | `list.count(v) > 0` iff `v` is in the list |
| FlagList.CountAtLeastTwo | server_main.py:139 | `list.count(v) > 1` iff `v` occurs at two different positions |
| FlagList.DetectDuplicates | server_main.py:131-143 | the result is true iff some value occurs at two different positions of the list |
| FlagList.ValidDrawsTail | server_main.py:174 | the nested call receives valid draws: the remaining levels pick 20 positions each, all within the name list |
| FlagList.Picked | server_main.py:170-172 | the 20 appended names are, position by position, the names at the indices `random.choice` picked |
| FlagList.Outcome | server_main.py:162-175 | the outcome of `create_flag_list` for given draws; stated by `OutcomeIsFirstLevel`, `RaisedIffAllRepeat`, `DuplicatesSurvive` and `FewNamesRaise` |
| FlagList.OutcomeIsFirstLevel | server_main.py:173-175 | a returned list is the outermost level's list, never the retry's, and it is a flag list of the names |
| FlagList.RaisedIffAllRepeat | server_main.py:173-175 | the call raises iff every level the recursion limit admits draws a list with a repeated name |
| FlagList.DuplicatesSurvive | server_main.py:173-175 | when the outer list repeats a name and the retry's list does not, the outer list, with its repetition, is returned |
| FlagList.FewNamesRaise | server_main.py:162-175 | with fewer than 20 distinct names the call raises whatever positions are drawn |
| FlagList.OutcomeFacts | server_main.py:162-175 | a returned list is a flag list of the names, and with fewer than 20 distinct names the call raises |
| FlagList.CreateFlagList | server_main.py:162-175 | the loop and the retry produce exactly `Outcome` of the parsed names and the draws: the outermost list unless it repeats a name and the retry raises; hence a returned list has 20 entries from the file, and with fewer than 20 distinct names the call raises |
| FlagList.FewNamesForceDuplicates | server_main.py:170-174 | with fewer than 20 distinct names, every list of 20 draws repeats a name, so the check at line 173 fires at every level |
| Matchmaking.InitialInv | server_main.py:33-34 | a first start (empty queue, no rows, no flags) satisfies the invariant and is clean |
| Matchmaking.RestartKeepsInv | server_main.py:14-34 | the persisted rows of any reachable state, with the in-memory queue and flags reset to empty, satisfy the invariant again (and stay clean if they were) |
| Matchmaking.NextID | server_main.py:114-120 | under the invariant `getID` is positive, larger than every key, and not an existing key |
| Matchmaking.JoinNext | server_main.py:42-75 | the join transition; its outcomes are stated by `JoinWhenQueueEmpty`, `JoinWhenFlagListRaises`, `JoinWhenPlayerWaits` and `JoinPreservesInv` |
| Matchmaking.JoinWhenQueueEmpty | server_main.py:47-59 | when the flag list is drawn: exactly one record is added, under ID count + 1, with score 0, no opponent and not finished; the queue becomes that ID; the flags are replaced; the reply is (false, ID) |
| Matchmaking.JoinWhenFlagListRaises | server_main.py:47-54 | when `create_flag_list` raises: the reply is 500; ID count + 1 stays queued with no record, so its status is "not registered"; the table and the flags are unchanged |
| Matchmaking.JoinWhenPlayerWaits | server_main.py:60-75 | exactly the head leaves the queue; the new record (count + 1) names the head; the flags stay; the reply is (true, new ID). The new ID differs from the head iff the head has a record. If it does, the head's record names the new ID and no other record changes. Otherwise the only new record is a self-paired player |
| Matchmaking.FailedJoinThenJoinSelfPairs | server_main.py:47-75 | a join whose flag list raised, followed by another join, leaves one new record, paired with itself, and the reply (true, that ID) |
| Matchmaking.JoinPreservesInv | server_main.py:42-75 | join keeps the invariant on every path, the failing one included |
| Matchmaking.JoinKeepsClean | server_main.py:42-75 | when the flag list does not raise, join keeps every queued ID registered and pairs nobody with itself |
| Matchmaking.StatusOf | server_main.py:88-95 | the status transition; its outcomes are stated by `StatusMeaning` |
| Matchmaking.StatusMeaning | server_main.py:88-95 | 401 exactly for a missing or unknown ID; otherwise `started_matchmaking` equals "queue is empty" |
| Matchmaking.RemoveFirst | server_main.py:108 | `deque.remove` shortens the queue by one; `RemoveFirstKeepsOrder` and `RemoveFirstMultiset` state which element goes |
| Matchmaking.RemoveFirstMultiset | server_main.py:108 | `deque.remove` takes exactly one copy of the ID out of the queue and keeps every other ID |
| Matchmaking.RemoveFirstKeepsOrder | server_main.py:108 | `deque.remove` keeps everything before and after the first occurrence, in order |
| Matchmaking.LeaveNext | server_main.py:107-112 | the leave transition; its outcomes are stated by `LeaveEffect` |
| Matchmaking.LeaveEffect | server_main.py:107-112 | a queued ID loses its first occurrence with the rest kept in order (200); an absent or missing ID leaves the queue unchanged (400); records and flags never change |
| Matchmaking.LeavePreservesInv | server_main.py:107-112 | leave keeps the invariant |
| Matchmaking.ReportScoreNext | server_main.py:193-206 | the score report transition; its outcomes are stated by `ReportScoreEffect` |
| Matchmaking.ReportScoreEffect | server_main.py:193-206 | only the caller's score changes, and only to a present nonzero score; the key set, queue and flags stay; a result comes back iff the caller is known and has an opponent. It holds the opponent's score and finished flag, read after the write |
| Matchmaking.ReportScorePreservesInv | server_main.py:193-206 | a score report keeps the invariant |
| Matchmaking.FinishNext | server_main.py:218-227 | the finish transition; its outcomes are stated by `FinishEffect` |
| Matchmaking.FinishEffect | server_main.py:218-227 | a present known ID gets `gameFinished` true whatever was sent, nothing else changes (200); an unknown ID gives 500 and a missing or 0 ID gives 400, both with no change |
| Matchmaking.FinishPreservesInv | server_main.py:218-227 | marking finished keeps the invariant |
| Matchmaking.OtherRequestsKeepClean | server_main.py:97-227 | leave, score reports and finishing keep every queued ID registered and pair nobody with itself |
| Matchmaking.FinishVisibleToOpponent | server_main.py:201-221 | after a player marks itself finished, its opponent's score report returns `gameFinished` true with that player's score |
| Matchmaking.TwoPlayerScenario | server_main.py:47-92 | from a fresh server: A gets (false, 1), B gets (true, 2), they point at each other, A's status is "started", and A's score report returns B's score 0, not finished |
| Matchmaking.StatusAfterLeave | server_main.py:88-109 | a player who joined and then left the queue has no opponent, yet is told matchmaking has started |
| Matchmaking.LeaveThenJoin | server_main.py:47-109 | after the only waiting player leaves, the next joiner waits (false) and is not paired with the one who left |
| Service.Server.constructor | server_main.py:30-34 | a first start on an empty database: empty queue, empty table and empty flag list, satisfying the invariant |
| Service.Server.Restart | server_main.py:14-34 | a start on rows persisted in the database file: the table is those rows, while the queue and the flag list are empty |
| Service.Server.Join | server_main.py:42-75 | the fields change as `JoinNext` says for `Outcome` of the file's names and the draws, and the invariant is kept. After a successful join on an empty queue the flags are 20 names of the country file. With fewer than 20 distinct names a join on an empty queue answers 500 |
| Service.Server.Status | server_main.py:77-95 | the reply is `StatusOf` of the current state, with 200 iff the ID is present and known; nothing changes |
| Service.Server.Leave | server_main.py:97-112 | the fields change as `LeaveNext` says and the invariant is kept |
| Service.Server.FinalFlags | server_main.py:177-183 | the flag list returned is empty or has exactly 20 names |
| Service.Server.ReportScore | server_main.py:185-206 | the fields and the result are as `ReportScoreNext` says, and the invariant is kept |
| Service.Server.MarkFinished | server_main.py:208-227 | the fields and the reply are as `FinishNext` says, and the invariant is kept |

## Left out

- The Flask, flask_restful and reqparse layers: routing, argument parsing and type coercion. The score report's `id` argument is parsed as a float (line 128); it is modelled as an integer, so a fractional ID is not modelled.
- The SQLAlchemy session, its queries and commits. The table is an in-memory map that a restart may start from. The commits carry no logic in a sequential model, and the model has no commit failures.
- Concurrency and the thread safety of `queue.Queue`: the model is sequential, with one request at a time.
- `random.choice`: the picked indices are a parameter. Their uniform distribution is not modelled.
- FlagList.CreateFlagList: how many nested calls the recursion limit admits depends on the interpreter's stack at line 52, so it is the number of draws passed in. A `RecursionError` raised inside a helper call at the deepest level is modelled as the nested call raising.
- Integer width: player IDs and scores are unbounded integers. The `Datastorage` columns are SQLite 64-bit INTEGERs, and binding a Python int outside that range raises `OverflowError`, which Flask answers with 500. This concerns the values parsed as `int`: the status ID (query at line 88), the mark-finished ID (query at line 219) and the reported score (written at line 197, committed at line 199). For mark finished the model already answers 500 (`PlayerNotFound`) for such an ID. The status request differs: the model answers 401, the source 500. So does a score report with such a score: the model writes the score and returns the opponent view, while the source answers 500. The score report's ID is parsed as a float (line 128) and bound as a REAL, so an ID that large just finds no row, and source and model agree (`None`).
- Reading `countrynames.txt` (lines 155-157): the file content is a parameter. A missing file raises in the source; this error is not modelled.
- `BackupFunctionAPI` (filesystem globbing and zipping), `UpdateAPI` (a constant version number), `ping_server` and the `print` call: I/O or trivial.
