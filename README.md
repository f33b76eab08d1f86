# Quiz round coordinator — a Dafny model

This project models the live quiz of the repository: a Node.js socket.io
server (`backend/server.js`) that holds one open question at a time, decides
the first player whose answer matches, keeps a score per display name and
resets on a moderator's request; and the decision logic of its browser client
(`frontend/script.js`): form checks, the moderator flag, the leaderboard and
the question clock.

Modules, one concept each:

- `Wrappers` (wrappers.dfy): `Option` (JavaScript's `undefined` from `Map.get`) and `Result`.
- `Text` (text.dfy): `trim`, `toLowerCase`, `includes` and the answer normalisation `toLowerCase().trim()`.
- `Ledger` (ledger.dfy): the score `Map` `estadisticas`, as points by name plus the insertion order that `Object.fromEntries` exposes.
- `Round` (round.dfy): the server's five globals as a value and one function per socket handler returning the new globals and the emitted events in order; a `Request`/`Run` fold over a sequence of handler calls; the properties of the arbiter, of each handler and of runs.
- `Server` (server.dfy): class `Coordinator` with the five globals as fields; each handler is a method that updates them step by step as the handler does and is proved equal to the `Round` function.
- `ClientLogic` (client_logic.dfy): the client's pure checks, the leaderboard pipeline and the `m:ss` clock.
- `Client` (client.dfy): class `Page` with the client's globals and the answer box's `disabled` flags, one method per handler that assigns them.

Node's event loop runs each socket handler to completion before the next, so
one step per handler call is the whole concurrency story: `Round.Run` is the
server's behaviour on any order of arrivals.

Behaviour of the code that is easy to miss, which the model follows:

- The server does not validate or authorise a publish: any session, even an unregistered one, may publish, and a blank answer opens a round that nobody can win (`Round.BlankAnswerRoundCannotBeWon`). So "an open round has a non-empty answer" is not an invariant. The converse half does hold: every handler that closes the round also clears question and answer, so a closed round holds neither (`Round.ClosedIsClear`, part of `Round.Valid`).
- A session registered under the empty name is treated as unregistered by submit, disconnect and reset, because the code tests the looked-up name for truthiness; disconnecting it emits nothing and leaves it mapped.
- Disconnect of an unregistered session emits nothing.
- Reset is accepted for any registered name that contains "docente" after lower-casing; the client shows the moderator panel only for a name that is exactly "docente" in any letter case (`ClientLogic.ServerCheckIsWider`).
- The server keeps the ledger in insertion order, not sorted; only the client sorts.
- Reset empties the ledger but keeps the sessions, so registered players are then without an entry; their next win takes the `|| 0` branch and creates the entry at 1 point, appended to the order (`Round.WinChangesOneScore`).

## Model

| member | source | states |
|---|---|---|
| Text.Trim | backend/server.js:79 | `trim`, specified from both directions by `Text.TrimShape` and `Text.TrimIs` |
| Text.Lower | backend/server.js:79 | `toLowerCase` keeps the length; `Text.LowerIdempotent`, `Text.LowerKeepsSpace` and `Text.LowerTrimCommute` state its properties |
| Text.Normalize | backend/server.js:79 | `toLowerCase().trim()`, whose properties `Text.NormalizeIdempotent` and `Text.NormalizeIgnoresCaseAndPadding` state |
| Text.Contains | backend/server.js:172 | `includes`, tied to an occurrence at some position by `Text.ContainsIff` |
| Text.Utf16Length | frontend/script.js:107 | `length` counts UTF-16 code units; `Text.Utf16LengthConcat` and `Text.Utf16LengthBounds` state its properties |
| Text.Utf16LengthConcat | frontend/script.js:145 | the length of a concatenation is the sum of the lengths |
| Text.Utf16LengthBounds | frontend/script.js:150 | each code point is one or two code units: the length equals the code-point count iff no code point is above U+FFFF, and twice it iff all are |
| Text.TrimStartShape | backend/server.js:79 | `trimStart` keeps a suffix, removes only white space, and the result does not start with white space |
| Text.TrimEndShape | backend/server.js:79 | `trimEnd` keeps a prefix, removes only white space, and the result does not end with white space |
| Text.TrimShape | backend/server.js:117 | `trim` returns a slice of its input, white space on both sides of it, no white space at its ends |
| Text.TrimStartIs | frontend/script.js:99 | a prefix of white space followed by a non-white character is exactly what `trimStart` removes |
| Text.TrimEndIs | frontend/script.js:99 | a suffix of white space preceded by a non-white character is exactly what `trimEnd` removes |
| Text.TrimIs | frontend/script.js:137-138 | any slice surrounded by white space and bounded by non-white characters is the trimmed string |
| Text.AllSpaceSplit | frontend/script.js:171 | a string that is white space before and after a split point is all white space |
| Text.TrimOfSpace | frontend/script.js:171-173 | a string of white space trims to the empty string, which the forms then refuse |
| Text.TrimIdempotent | frontend/script.js:99 | trimming twice is trimming once |
| Text.TrimIgnoresPadding | backend/server.js:117-119 | surrounding white space never changes the trimmed string |
| Text.LowerIdempotent | backend/server.js:79 | lower-casing twice is lower-casing once |
| Text.LowerKeepsSpace | backend/server.js:117 | lower-casing maps white space to white space, and each character is white space after lower-casing exactly when it was before |
| Text.LowerTrimCommute | backend/server.js:79 | lower-casing then trimming equals trimming then lower-casing |
| Text.NormalizeIdempotent | backend/server.js:79 | the stored answer normalises to itself, so submitting it verbatim matches |
| Text.NormalizeIgnoresCaseAndPadding | backend/server.js:116-119 | any text equal to `s` up to letter case, with any white space around it, has the normal form of `s` |
| Text.ContainsIff | backend/server.js:172 | `includes` holds exactly when the needle occurs at some position of the string |
| Ledger.PointsOf | backend/server.js:124 | `get(name)`, or 0 when the name has no entry; `Round.WinChangesOneScore` states the score it yields after a win |
| Ledger.Set | backend/server.js:55 | `set` gives the name the new points, leaves every other name's entry as it was, keeps the insertion order (appending a new name) and keeps names unique |
| Ledger.Snapshot | backend/server.js:46 | `Object.fromEntries(estadisticas)`, whose content `Ledger.SnapshotFaithful` states |
| Ledger.SnapshotFaithful | backend/server.js:46 | the snapshot sent to clients lists every ledger name exactly once, with its points |
| Round.OnConnect | backend/server.js:46 | the connection handler sends the new socket the ledger snapshot; `Server.Coordinator.Connect` and `Ledger.SnapshotFaithful` state it |
| Round.OnRegister | backend/server.js:49-71 | the 'usuario:conectado' handler, specified by `Round.RegisterKeepsScores` |
| Round.OnPublish | backend/server.js:74-91 | the 'pregunta:nueva' handler, specified by `Round.PublishOverwrites`, `Round.PublishThenSubmit` and `Round.BlankAnswerRoundCannotBeWon` |
| Round.OnSubmit | backend/server.js:94-151 | the 'respuesta:enviada' handler, specified by `Round.SubmitRejections`, `Round.MatchRule`, `Round.WinChangesOneScore` and `Round.IncorrectChangesNothing` |
| Round.OnDisconnect | backend/server.js:154-166 | the 'disconnect' handler, specified by `Round.DisconnectForgetsSession` |
| Round.OnReset | backend/server.js:169-187 | the 'juego:reiniciar' handler, specified by `Round.ResetAuthorisation` |
| Round.Health | backend/server.js:191-198 | the `/health` report, stated by `Server.Coordinator.HealthCheck` |
| Round.Step | backend/server.js:42-187 | one handler call, dispatched on the request; `Round.StepPreservesValid`, `Round.StepKeepsScores` and `Round.StepWithoutPublish` state its properties |
| Round.Run | backend/server.js:42-187 | handler calls one after another, as Node's event loop runs them; `Round.RunPreservesValid`, `Round.AtMostOneWinner` and `Round.ScoresNeverDecrease` state its properties |
| Round.SubmitRejections | backend/server.js:97-114 | unregistered, then closed round, then blank stored answer: each rejection is a unicast of its own error and changes no state |
| Round.MatchRule | backend/server.js:117-135 | a submission announces a winner iff the session is registered, the round open, the answer stored and the normalised text equals it; the winner is the submitter |
| Round.WinChangesOneScore | backend/server.js:119-142 | a win closes the round, clears question and answer, gives the winner old points (0 if absent) plus 1, leaves all other scores and the sessions, appends a name that had no entry to the ledger order and otherwise keeps the order; broadcasts 'ronda:terminada' with the answer and new score, then the ledger |
| Round.IncorrectChangesNothing | backend/server.js:144-150 | a wrong answer leaves the whole state unchanged and only unicasts 'respuesta:incorrecta' with the raw text |
| Round.SubmitSeesNormalForm | backend/server.js:117-119 | two submissions with the same normal form have the same effect on the game and announce the same winners |
| Round.PublishThenSubmit | backend/server.js:79-81 | after publishing a non-blank answer, a registered player's text matches iff it normalises like the published answer |
| Round.PaddedVariantWins | backend/server.js:79 | after publishing, the answer typed in any letter case with any white space around it wins (" PARIS " against "paris") |
| Round.BlankAnswerRoundCannotBeWon | backend/server.js:79-81 | a publish whose answer trims to empty opens the round, and every registered submission then gets 'error:sin_pregunta' |
| Round.PublishOverwrites | backend/server.js:74-88 | publish opens the round, replaces question and answer, ignores who sends it, and broadcasts only the question |
| Round.RegisterKeepsScores | backend/server.js:49-70 | register binds the session, seeds 0 only for a new name (appended to the ledger order, which is otherwise kept), changes no existing score, broadcasts the session count and replays the open question to the newcomer only when one is stored and the round open |
| Round.DisconnectForgetsSession | backend/server.js:154-166 | disconnect removes only a registered session and tells everyone; round and ledger never change |
| Round.ResetAuthorisation | backend/server.js:169-187 | a registered name containing "docente" empties ledger, question and answer and closes the round; any other reset changes nothing and emits nothing |
| Round.MayResetIff | backend/server.js:172 | the reset check holds iff "docente" occurs somewhere in the lower-cased name |
| Round.InitialValid | backend/server.js:33-37 | the process starts with a well-formed ledger and a closed round without question or answer |
| Round.StepPreservesValid | backend/server.js:42-187 | every handler keeps the ledger's names unique with the order list holding exactly its keys, and leaves a closed round without question and answer |
| Round.AnswerHiddenUntilWon | backend/server.js:84-88 | no event but a winning submission's 'ronda:terminada' carries the answer, and that one carries the stored answer |
| Round.StepKeepsScores | backend/server.js:54-56 | no handler lowers a score or drops a name, except a reset that empties the ledger |
| Round.StepWithoutPublish | backend/server.js:105-121 | a handler other than publish announces at most one winner, none when the round is closed, and closes the round when it announces one |
| Round.AtMostOneWinner | backend/server.js:119-121 | over any run without a publish, at most one winner is announced (none if the round starts closed) and a closed round stays closed |
| Round.ScoresNeverDecrease | backend/server.js:124-125 | over any run without a reset, every name keeps its ledger entry and its points never go down |
| Round.RunPreservesValid | backend/server.js:42-187 | every run of handlers keeps the ledger well formed and a closed round clear of question and answer |
| Server.Coordinator.constructor | backend/server.js:33-37 | the process starts with no answer, a closed round, no question, no sessions and an empty ledger |
| Server.Coordinator.NameOf | backend/server.js:95-97 | the looked-up name is non-empty exactly when the session counts as registered |
| Server.Coordinator.Connect | backend/server.js:46 | a new socket is sent the current ledger and nothing changes |
| Server.Coordinator.Register | backend/server.js:49-71 | the fields and events after 'usuario:conectado' are those of `Round.OnRegister` |
| Server.Coordinator.Publish | backend/server.js:74-91 | the fields and events after 'pregunta:nueva' are those of `Round.OnPublish` |
| Server.Coordinator.Submit | backend/server.js:94-151 | the fields and events after 'respuesta:enviada' are those of `Round.OnSubmit` |
| Server.Coordinator.AwardRound | backend/server.js:119-142 | the winning branch: the fields and events after a matching submission are those of `Round.OnSubmit`, and the invariant is kept |
| Server.Coordinator.Disconnect | backend/server.js:154-166 | the fields and events after 'disconnect' are those of `Round.OnDisconnect` |
| Server.Coordinator.Reset | backend/server.js:169-187 | the fields and events after 'juego:reiniciar' are those of `Round.OnReset` |
| Server.Coordinator.HealthCheck | backend/server.js:191-198 | `/health` reports the session count, the round flag and whether a question is stored, and changes nothing |
| ClientLogic.ValidateName | frontend/script.js:99-112 | registration succeeds iff the trimmed name is non-empty and at most 20 UTF-16 code units long, stores the trimmed name, and an empty name is reported first |
| ClientLogic.EmojiNameTooLong | frontend/script.js:107 | a name of eleven emoji is 22 code units and is refused as too long |
| ClientLogic.AcceptedNameIsStable | frontend/script.js:99-112 | an accepted name is accepted again unchanged |
| ClientLogic.ModeratorMayReset | frontend/script.js:113 | a client moderator ("docente" in any case) also passes the server's reset check |
| ClientLogic.IsModeratorName | frontend/script.js:113 | the exact-match moderator flag; `ClientLogic.ModeratorMayReset` and `ClientLogic.ServerCheckIsWider` relate it to the server's check |
| ClientLogic.ServerCheckIsWider | frontend/script.js:113 | "Docente2" passes the server's reset check but is not a client moderator |
| ClientLogic.ValidateQuestion | frontend/script.js:137-159 | the form emits iff both trimmed fields are non-empty, the question has at most 200 and the answer at most 50 UTF-16 code units, checked in that order; the payload is the trimmed pair |
| ClientLogic.AcceptedAnswerIsNotBlank | frontend/script.js:138-140 | an answer the form accepts never normalises to empty, so its round can be won |
| ClientLogic.CheckAnswer | frontend/script.js:171-189 | sending is refused for an empty trimmed answer first, then for no active question; otherwise the trimmed answer is sent |
| ClientLogic.Visible | frontend/script.js:249 | the board keeps exactly the entries whose lower-cased name is not "docente" |
| ClientLogic.VisibleOne | frontend/script.js:249 | one entry is kept exactly when its lower-cased name is not "docente" |
| ClientLogic.VisibleConcat | frontend/script.js:249 | the filter keeps the received order: filtering a concatenation concatenates the filtered parts |
| ClientLogic.VisibleWithPoints | frontend/script.js:249-250 | dropping the moderator and then picking one score gives the received entries with that score, filtered, in order |
| ClientLogic.SortByPoints | frontend/script.js:250 | the sort is a permutation in non-increasing order of points that keeps input order among equal points |
| ClientLogic.InsertDescending | frontend/script.js:250 | inserting into a descending list keeps it descending |
| ClientLogic.InsertMultiset | frontend/script.js:250 | inserting adds exactly the inserted entry |
| ClientLogic.InsertWithPoints | frontend/script.js:250 | the inserted entry goes before every entry with the same points |
| ClientLogic.Leaderboard | frontend/script.js:247-264 | `actualizarEstadisticas`'s rows, specified by `ClientLogic.LeaderboardSpec` |
| ClientLogic.LeaderboardSpec | frontend/script.js:247-264 | the board lists the non-moderator entries ranked index + 1 in non-increasing points; the rows with `v` points are the received entries with `v` points, moderator dropped, in the order received |
| ClientLogic.NatToStringRoundTrip | frontend/script.js:215 | printing a number in decimal gives digits whose value is the number |
| ClientLogic.ClockSplits | frontend/script.js:211-213 | for a non-negative elapsed time, minutes times 60 plus seconds in 0..59 is the elapsed whole seconds |
| ClientLogic.Clock | frontend/script.js:211-213 | the whole seconds split into minutes and seconds, stated by `ClientLogic.ClockSplits` |
| ClientLogic.JsRem | frontend/script.js:213 | `%` with the sign of the dividend: below the divisor in magnitude, and the dividend is the divisor times the quotient rounded toward zero plus the remainder |
| ClientLogic.PadStart2 | frontend/script.js:215 | `padStart(2, '0')`, stated by `ClientLogic.PadStart2Shape` |
| ClientLogic.PadStart2Shape | frontend/script.js:215 | padding gives at least two characters, the input as a suffix, zeros before it |
| ClientLogic.IntToString | frontend/script.js:215 | `toString()` of an integer, read back by `ClientLogic.NatToStringRoundTrip` and shown with its sign by `ClientLogic.NegativeElapsedShowsMinus` |
| ClientLogic.FormatClock | frontend/script.js:211-215 | the `m:ss` text, specified by `ClientLogic.FormatClockShape` and `ClientLogic.NegativeElapsedShowsMinus` |
| ClientLogic.ClockText | frontend/script.js:215 | for seconds in 0..59 the text `m:ss` has a colon three from the end, digits elsewhere, and digits that read back to `m` and `s` |
| ClientLogic.FormatClockShape | frontend/script.js:211-215 | for a non-negative elapsed time the clock reads minutes, a colon and exactly two second digits that read back to the elapsed seconds |
| ClientLogic.NegativeElapsedShowsMinus | frontend/script.js:211-215 | an elapsed time of -5000 ms is shown as "-1:-5" |
| ClientLogic.TimerText | frontend/script.js:209 | nothing is shown while the start time is null or 0 |
| Client.Page.constructor | frontend/script.js:11-14 | the page starts with no name, no moderator flag, no active question and no start time |
| Client.Page.Register | frontend/script.js:98-116 | a refused name changes nothing; an accepted one stores the trimmed name, sets the moderator flag by exact match and is emitted |
| Client.Page.SendAnswer | frontend/script.js:170-189 | a refused answer changes nothing; an accepted one disables box and button and is emitted trimmed |
| Client.Page.PressEnter | frontend/script.js:85-89 | Enter sends only while the send button is enabled |
| Client.Page.OnQuestionPublished | frontend/script.js:308-327 | a published question becomes active with its timestamp and re-enables answering for non-moderators only |
| Client.Page.OnAnswerIncorrect | frontend/script.js:341-351 | a wrong-answer reply re-enables box and button and empties the box |
| Client.Page.Timer | frontend/script.js:208-215 | the clock shows the formatted elapsed time since the stored start, and nothing exactly when the start time is null or 0 |
| Client.OneSendPerVerdict | frontend/script.js:85-89 | an accepted send is followed by an Enter that sends nothing; after 'respuesta:incorrecta' the controls are enabled, the box is empty and the next send is refused as empty |

## Left out

- Express, CORS, the socket.io server and HTTP setup, `server.listen`, the `/` route and every `console.log` (backend/server.js:1-30, 190-216 apart from `/health`): transport and logging, not game logic. Delivery of events is abstracted to the `Broadcast`/`Unicast` list each handler returns.
- Timestamps: the `Date.now()` fields of 'pregunta:publicada', 'ronda:terminada' and 'juego:reiniciado', and `/health`'s `status` and `toISOString` values are dropped; the client's 'pregunta:publicada' handler takes the timestamp as a parameter.
- The text messages sent with 'error:usuario', 'respuesta:tardia', 'error:sin_pregunta', 'respuesta:incorrecta' and 'juego:reiniciado' are constants and are not modelled; each rejection is its own event.
- Non-string payloads: the handlers assume `nombre`, `data.pregunta`, `data.respuesta` and the submission are strings; a non-string `respuesta` would throw in `toLowerCase`, which is not modelled.
- Text.LowerChar: maps only the ASCII letters A-Z; JavaScript's `toLowerCase` also maps other scripts and can change a string's length (U+0130), which is not modelled.
- Ledger.Snapshot: a JavaScript object lists integer-like keys (a name such as "12") first in numeric order; the model always uses insertion order.
- Everything DOM in frontend/script.js: element lookups, `innerHTML`/`textContent` rendering, toasts, `setInterval`/`setTimeout`, `confirm` before a reset, focus handling, connection status display, the 'usuario:nuevo' and 'usuario:desconectado' counters, and the result panel.
- The initial `disabled` state of the answer box and button comes from the HTML page, which is not part of this model; `Client.Page.constructor` takes it as a parameter.
- frontend/script.js beyond line 356 (the client handlers for 'ronda:terminada', 'estadisticas:actualizadas', 'juego:reiniciado' and the like) is not part of this model.
