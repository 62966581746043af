# ReadLine editor core, modelled in Dafny

`js/readline.js` is a browser line editor: it turns keyboard events into
editing commands on a one-line text buffer with a cursor, keeps a kill buffer
and a history ring, and talks to the embedding page through four callbacks
(completion, enter, change, keydown). Completion and line submission are
asynchronous. The editor suspends its command queue, hands the line to the
embedder, and replays the keys typed in the meantime once the embedder calls
back.

The project has six modules:

- `Wrappers` holds `Option`.
- `StrUtil` holds `ReadLine.StrUtil.insert` and `remove` as functions on `string`.
- `HistoryRing` holds the history as a value (`Ring`) with its operations and lemmas. It also holds a class `History` whose methods update its fields in place and are proved to follow `Ring`.
- `Keys` holds the closed set of commands and the `document.onkeydown` / `document.onkeypress` translation tables.
- `EditorSpec` holds the closure's state as a value (`State`, with `Machine` adding the command queue). It has one function per `cmd*` function with a body (`cmdRefresh` is `Refresh` itself, and the three empty stubs `cmdReverseSearch`, `cmdBackwardWord` and `cmdForwardWord` are cases of `Step` that change nothing), `Step` (`call`), `Enqueue` (`queue`), `Drain` (`resume`), the two embedder replies, and the lemmas about them.
- `ReadLine` holds the class `Editor`. Its fields are the closure's variables, and its methods change them step by step. Each command and queue method is proved to move the object exactly as the `EditorSpec` function named in its `ensures` says. The methods that leave the queue alone state `Snapshot() == EditorSpec.X(old(Snapshot())) && cmdQueue == old(cmdQueue)`: every `Cmd*` method, `Refresh`, `UpdateCursor`, `Call` (following `Step`) and `ApplyCompletion` (following `CompletionApplied`). The methods where the queue takes part state `Model() == EditorSpec.X(old(Model()))`: `Queue` (following `Enqueue`), `Resume` (following `Drain`), `CompletionReply`, `EnterReply`, and `HandleKeyDown` and `HandleKeyPress` (following `OnKeyDown` and `OnKeyPress`). The setters (`Activate`, `Deactivate`, `OnCompletion`, `OnEnter`, `OnChange`, `OnKeydown`), `GetLine`, `Suspend` and `AddText` state their change directly. `Resume` is the source's recursive drain, written as a loop.

Each callback is modelled by whether it is installed, plus an append-only log, `notices`, of every call the editor makes into it and the arguments passed. An asynchronous callback call bumps a counter of outstanding requests. The embedder's answer is a separate operation (`CompletionReply`, `EnterReply`) that needs such a request to be outstanding.

Three behaviours of the code are easy to miss, and the model keeps them as written:

- **`remove` empties short texts.** `StrUtil.remove` returns `""` on any text of at most one unit, even for an empty range (js/readline.js:412-414). So `remove("x", 0, 0)` is `""`, not `"x"` (`RemoveEmptyRangeOnSingleUnit`).
- **Draining does not pause at a second suspension.** `resume()` keeps shifting and calling queued commands even after one of them has suspended the queue again, and when the queue runs dry it clears `suspended` (js/readline.js:147-155), while that second request is still outstanding. Keys typed after that point then run at once instead of waiting for the second callback. `DrainDoesNotWaitForSecondRequest` shows it for a queued Tab followed by End: End runs, and the queue ends unsuspended while the completion is still awaited.
- **Swallowed keys.** The first `switch` swallows key codes 10 and 19, which its `// Pause` and `// Caps Lock` comments name (js/readline.js:298-299). Code 20, the `CAPS_LOCK` entry of the `SPECIAL` table (js/readline.js:7), is not swallowed and passes through to the browser (`CapsLockPasses`).

## Model

| member | source | states |
|---|---|---|
| StrUtil.Remove | js/readline.js:411-423 | on texts of two or more units the result is the text with `[from, to)` cut out; on texts of at most one unit it is empty; its length is `|text| - (to - from)` in the first case |
| StrUtil.Insert | js/readline.js:424-434 | `ins` is spliced in at `idx`, or appended when `idx` is at or past the end; the length is the sum of the lengths |
| StrUtil.InsertEmpty | js/readline.js:424-434 | inserting the empty string is the identity at every index |
| StrUtil.RemoveEmptyRange | js/readline.js:411-423 | removing an empty range is the identity on texts of two or more units, and gives "" on shorter ones |
| StrUtil.RemoveEmptyRangeOnSingleUnit | js/readline.js:412-414 | `remove("x", 0, 0)` is "", so the empty splice round trip fails on a one-unit text |
| StrUtil.InsertRemoveRoundTrip | js/readline.js:411-434 | inserting a removed non-empty range back where it was restores the text |
| StrUtil.InsertRemoveRoundTripEmptyRange | js/readline.js:411-434 | the same round trip for an empty range, on texts of two or more units |
| HistoryRing.Ring.Update | js/readline.js:443-445 | only the slot under the cursor changes, and it becomes the given text |
| HistoryRing.Ring.Accept | js/readline.js:446-454 | at the tail slot the text replaces it, otherwise it is appended; a fresh empty slot follows and the cursor lands on it, with nothing newer |
| HistoryRing.Ring.Prev | js/readline.js:461-464 | the cursor moves one older, entries unchanged, and a newer entry then exists |
| HistoryRing.Ring.Next | js/readline.js:465-468 | the cursor moves one newer, entries unchanged, and an older entry then exists |
| HistoryRing.Ring.HasNext | js/readline.js:455-457 | a newer slot exists: the cursor is before the last slot |
| HistoryRing.Ring.HasPrev | js/readline.js:458-460 | an older slot exists: the cursor is past the first slot |
| HistoryRing.NavigationGuards | js/readline.js:455-460 | on a valid ring, `hasNext` fails exactly on the newest slot and `hasPrev` exactly on the oldest, and one of the two holds exactly when there are two or more slots |
| HistoryRing.FreshRing | js/readline.js:439-440 | the initial ring `EMPTY` (`['']`, cursor 0) is valid, shows the empty entry, and allows neither step |
| HistoryRing.NextUndoesPrev | js/readline.js:461-468 | `next` after `prev` restores the ring exactly |
| HistoryRing.AcceptKeepsCommitted | js/readline.js:446-454 | accepting keeps every committed entry, in order, and the accepted text sits just before the new empty slot |
| HistoryRing.AcceptTwiceThenPrevTwice | js/readline.js:439-468 | from a fresh ring, accepting "a" then "b" gives entries a, b, ""; going back twice yields "b" then "a", and then there is nothing older |
| HistoryRing.History.constructor | js/readline.js:439-440 | a new history holds one empty slot with the cursor on it |
| HistoryRing.History.Update | js/readline.js:443-445 | the fields change as `Ring.Update` says |
| HistoryRing.History.Accept | js/readline.js:446-454 | the fields change as `Ring.Accept` says |
| HistoryRing.History.HasNext | js/readline.js:455-457 | true exactly when the cursor is before the last slot |
| HistoryRing.History.HasPrev | js/readline.js:458-460 | true exactly when the cursor is past the first slot |
| HistoryRing.History.Prev | js/readline.js:461-464 | the fields change as `Ring.Prev` says, and the entry now under the cursor is returned |
| HistoryRing.History.Next | js/readline.js:465-468 | the fields change as `Ring.Next` says, and the entry now under the cursor is returned |
| HistoryRing.AcceptAcceptPrevPrev | js/readline.js:439-468 | the same two-accept scenario run on the mutable history object |
| Keys.KeyDown | js/readline.js:258-376 | inactive: pass through. The fixed keys map to their command whatever the modifiers; the six swallowed codes are caught without a command; exactly Control uses the Control table and exactly Alt the Alt table; every other key passes through |
| Keys.KeyPressed | js/readline.js:391-402 | a keypress queues the insertion of its character exactly when the editor is active |
| Keys.FixedKeysIgnoreModifiers | js/readline.js:265-296 | for the ten fixed keys, Control, Shift and Alt change nothing and a command always runs |
| Keys.AsyncCommandsHaveOneKey | js/readline.js:269-274 | a keydown requests completion if and only if it is Tab on an active editor, and submits if and only if it is Enter |
| Keys.SwallowedExactly | js/readline.js:297-304 | an active keydown is swallowed without a command if and only if its code is 10, 19, 27, 33, 34 or 45 |
| Keys.CapsLockPasses | js/readline.js:297-310 | code 20 is not caught: it passes through whatever the modifiers |
| Keys.EmacsBindings | js/readline.js:313-372 | samples: Ctrl-A/E/K/Y run home/end/kill/yank and Alt-B runs backward-word, while Ctrl-Shift-A and Ctrl-Alt-B pass through (the general modifier gate, for every code, is the last-but-one `ensures` of `Keys.KeyDown`) |
| EditorSpec.Refresh | js/readline.js:239-249 | only the completion flag and the log change: an active completion session ends (the completion handler is told, if installed), then the change handler gets the line |
| EditorSpec.UpdateCursor | js/readline.js:228-231 | the line becomes the old text with the given cursor and any completion session ends; the log gains `CompletionEnded` when a session was active and a completion handler is installed, then the new line for the change handler when one is installed; history and kill buffer are untouched |
| EditorSpec.CmdBackspace | js/readline.js:101-108 | at the start nothing happens; otherwise the unit left of the cursor is removed, the cursor steps back, and the line is refreshed |
| EditorSpec.CmdComplete | js/readline.js:110-124 | without a completion handler nothing happens; otherwise the queue suspends and one completion request carrying the current line is logged |
| EditorSpec.Submitted | js/readline.js:130-133 | the line is accepted into the history, text and cursor are cleared, and nothing is logged |
| EditorSpec.AwaitEnter | js/readline.js:137-145 | the queue suspends and one enter request with the submitted text and the cleared line is logged; nothing else changes |
| EditorSpec.CmdDone | js/readline.js:126-140 | on an empty line nothing happens; otherwise the line is submitted and, only if an enter handler exists, awaited; no refresh happens |
| EditorSpec.CmdEnd | js/readline.js:157-159 | the cursor goes to the end of the unchanged text, then a refresh |
| EditorSpec.CmdHome | js/readline.js:161-163 | the cursor goes to 0, then a refresh |
| EditorSpec.CmdLeft | js/readline.js:165-170 | a no-op at the start, otherwise one step left and a refresh |
| EditorSpec.CmdRight | js/readline.js:172-177 | a no-op at the end, otherwise one step right and a refresh |
| EditorSpec.GetHistory | js/readline.js:251-255 | the live text is saved into the current slot, the history moves one step, its entry becomes the text with the cursor at its end, then a refresh |
| EditorSpec.CmdHistoryPrev | js/readline.js:179-184 | a no-op with nothing older, otherwise one step back through the history |
| EditorSpec.CmdHistoryNext | js/readline.js:186-191 | a no-op with nothing newer, otherwise one step forward |
| EditorSpec.CmdDeleteChar | js/readline.js:193-199 | a no-op at the end, otherwise the unit under the cursor is removed, the cursor stays, and the line is refreshed |
| EditorSpec.CmdKillToEOF | js/readline.js:201-205 | the text after the cursor moves into the kill buffer, so text plus kill buffer is the old text, and the cursor ends at the new end |
| EditorSpec.CmdYank | js/readline.js:207-210 | the kill buffer is inserted at the cursor and stepped over, and it keeps its contents |
| EditorSpec.CmdKeyPress | js/readline.js:397-401 | the `cmdKeyPress` closure: through `addText` (js/readline.js:233-237) the character is inserted at the cursor, the cursor steps over it, the line is refreshed, then the keydown handler (if any) gets the character event |
| EditorSpec.Step | js/readline.js:95-99 | every command keeps the line valid, never changes activation or handlers, only appends to the log, never unsuspends, and only `Complete` and `Done` can suspend |
| EditorSpec.RunAll | js/readline.js:147-155 | the reference order for draining: commands run one after another; a suspended state stays suspended |
| EditorSpec.Enqueue | js/readline.js:87-93 | while suspended the command is only appended to the queue; otherwise it runs at once and the queue stays empty |
| EditorSpec.Drain | js/readline.js:147-155 | the queue is emptied and `suspended` cleared; the log only grows and outstanding-request counts never drop |
| EditorSpec.CompletionApplied | js/readline.js:115-121 | a null or empty completion changes nothing; a non-empty one is spliced in at the cursor and stepped over; in both cases a completion session begins |
| EditorSpec.CompletionReply | js/readline.js:114-123 | the completion callback leaves the queue empty and unsuspended; what it computes is stated by `CompletionReplyRunsInOrder` |
| EditorSpec.CompletionReplyRunsInOrder | js/readline.js:114-123 | for every queue: the completion is applied first, then the commands queued meanwhile run in arrival order on the result, and the queue ends unsuspended |
| EditorSpec.EnterReply | js/readline.js:137-139 | the enter callback leaves the queue empty and unsuspended; what it computes is stated by `EnterReplyRunsInOrder` |
| EditorSpec.EnterReplyRunsInOrder | js/readline.js:137-155 | for every queue: the commands queued meanwhile run in arrival order, and the queue ends unsuspended |
| EditorSpec.NotifyKeydown | js/readline.js:377-387 | the keydown handler, if installed, gets the key code as a non-character event; nothing else changes |
| EditorSpec.OnKeyDown | js/readline.js:258-390 | a passed-through key changes nothing; a swallowed key only notifies; a bound key is queued and then notified |
| EditorSpec.OnKeyPress | js/readline.js:391-402 | while active, the character's insertion is queued; when inactive nothing changes |
| EditorSpec.RunAllAppend | js/readline.js:147-155 | running `a + b` is running `a`, then `b` |
| EditorSpec.DrainRunsInOrder | js/readline.js:147-155 | draining runs the queued commands in FIFO order, exactly as `RunAll`, then unsuspends |
| EditorSpec.EnqueueAllWhileSuspended | js/readline.js:87-93 | while suspended, any sequence of keys is queued in arrival order and nothing runs |
| EditorSpec.EnqueueAllWhileIdle | js/readline.js:87-93 | while idle, synchronous commands run at once in arrival order and the queue stays empty |
| EditorSpec.SubmitThenTypeAhead | js/readline.js:126-155 | Enter with a handler suspends; keys typed before the enter callback wait in order; the callback then replays them on the cleared line |
| EditorSpec.CompletionWithTypeAhead | js/readline.js:87-155 | Left and Right typed during a completion round trip wait in order; an empty reply then runs them on the unchanged line, starting in the new completion session (the first refresh ends it) |
| EditorSpec.DrainDoesNotWaitForSecondRequest | js/readline.js:142-155 | a queued Tab followed by End: End runs and the queue ends unsuspended while the second completion request is still outstanding |
| EditorSpec.CompletionThenTypeAhead | js/readline.js:87-155 | from the key events: Tab suspends, a character typed meanwhile waits without changing the line, and the reply inserts the completion and then the character at the old cursor |
| EditorSpec.TypeThenBackspace | js/readline.js:101-108 | typing a character and then Backspace restores text and cursor |
| EditorSpec.KillThenYank | js/readline.js:201-210 | kill then yank restores the text, leaves the cursor at the end and the killed suffix in the buffer |
| EditorSpec.YankTwice | js/readline.js:207-210 | yanking twice inserts the kill buffer twice at the cursor and steps over both copies |
| EditorSpec.HistoryUpThenDown | js/readline.js:179-191 | up then down brings back the edited text, saved into its history slot |
| EditorSpec.CompletionEndsOnce | js/readline.js:239-245 | the first refresh after a completion ends the session and tells the handler; a second refresh does not tell it again |
| EditorSpec.EmptyCompletionInsertsNothing | js/readline.js:115-121 | a null or empty completion reply only starts the session, decrements the outstanding count and unsuspends |
| EditorSpec.CompletionInserted | js/readline.js:115-121 | a non-empty completion reply is spliced in at the cursor and stepped over, and the session begins |
| EditorSpec.TypingInserts | js/readline.js:233-237 | typing a word inserts it at the cursor |
| EditorSpec.TypingAdvances | js/readline.js:233-237 | typing a word moves the cursor past it |
| EditorSpec.TypingScenario | js/readline.js:101-108 | typing "abc" on an empty line, then Left, Left, Backspace, leaves "bc" with the cursor at 0 |
| ReadLine.Editor.constructor | js/readline.js:22-41 | a new editor is inactive, empty, unsuspended, with no handlers and a fresh empty history |
| ReadLine.Editor.Activate | js/readline.js:45-47 | only the active flag changes, to true |
| ReadLine.Editor.Deactivate | js/readline.js:48-50 | only the active flag changes, to false |
| ReadLine.Editor.OnKeydown | js/readline.js:51-53 | only whether a keydown handler is installed changes |
| ReadLine.Editor.OnChange | js/readline.js:54-56 | only whether a change handler is installed changes |
| ReadLine.Editor.OnEnter | js/readline.js:57-59 | only whether an enter handler is installed changes |
| ReadLine.Editor.OnCompletion | js/readline.js:60-62 | only whether a completion handler is installed changes |
| ReadLine.Editor.GetLine | js/readline.js:63-68 | returns the current text and cursor |
| ReadLine.Editor.Refresh | js/readline.js:239-249 | the object changes as `EditorSpec.Refresh` says |
| ReadLine.Editor.UpdateCursor | js/readline.js:228-231 | the cursor is set, then a refresh |
| ReadLine.Editor.CmdBackspace | js/readline.js:101-108 | the object changes as `EditorSpec.CmdBackspace` says |
| ReadLine.Editor.CmdComplete | js/readline.js:110-124 | the object changes as `EditorSpec.CmdComplete` says |
| ReadLine.Editor.Suspend | js/readline.js:142-145 | only `suspended` changes, to true |
| ReadLine.Editor.CmdDone | js/readline.js:126-140 | the object and its history change as `EditorSpec.CmdDone` says |
| ReadLine.Editor.CmdEnd | js/readline.js:157-159 | the object changes as `EditorSpec.CmdEnd` says |
| ReadLine.Editor.CmdHome | js/readline.js:161-163 | the object changes as `EditorSpec.CmdHome` says |
| ReadLine.Editor.CmdLeft | js/readline.js:165-170 | the object changes as `EditorSpec.CmdLeft` says |
| ReadLine.Editor.CmdRight | js/readline.js:172-177 | the object changes as `EditorSpec.CmdRight` says |
| ReadLine.Editor.GetHistory | js/readline.js:251-255 | the object and its history change as `EditorSpec.GetHistory` says |
| ReadLine.Editor.CmdHistoryPrev | js/readline.js:179-184 | the object and its history change as `EditorSpec.CmdHistoryPrev` says |
| ReadLine.Editor.CmdHistoryNext | js/readline.js:186-191 | the object and its history change as `EditorSpec.CmdHistoryNext` says |
| ReadLine.Editor.CmdDeleteChar | js/readline.js:193-199 | the object changes as `EditorSpec.CmdDeleteChar` says |
| ReadLine.Editor.CmdKillToEOF | js/readline.js:201-205 | the object changes as `EditorSpec.CmdKillToEOF` says |
| ReadLine.Editor.CmdYank | js/readline.js:207-210 | the object changes as `EditorSpec.CmdYank` says |
| ReadLine.Editor.AddText | js/readline.js:233-237 | the character is inserted at the cursor, the cursor steps over it, then a refresh |
| ReadLine.Editor.CmdKeyPress | js/readline.js:397-402 | the object changes as `EditorSpec.CmdKeyPress` says |
| ReadLine.Editor.Call | js/readline.js:95-99 | the object changes as `EditorSpec.Step` says for the command, and the queue is untouched |
| ReadLine.Editor.Queue | js/readline.js:87-93 | the object and its queue change as `EditorSpec.Enqueue` says |
| ReadLine.Editor.Resume | js/readline.js:147-155 | the loop leaves the object and its queue as `EditorSpec.Drain` says |
| ReadLine.Editor.ApplyCompletion | js/readline.js:115-121 | the object changes as `EditorSpec.CompletionApplied` says |
| ReadLine.Editor.CompletionReply | js/readline.js:114-123 | the object and its queue change as `EditorSpec.CompletionReply` says |
| ReadLine.Editor.EnterReply | js/readline.js:137-139 | the object and its queue change as `EditorSpec.EnterReply` says |
| ReadLine.Editor.HandleKeyDown | js/readline.js:258-390 | the object changes as `EditorSpec.OnKeyDown` says, and the event counts as handled exactly when it is not passed through |
| ReadLine.Editor.HandleKeyPress | js/readline.js:391-405 | the object changes as `EditorSpec.OnKeyPress` says, and the event counts as handled exactly when the editor is active |

## Left out

- DOM wiring: installing `document.onkeydown` / `onkeypress`, `window.event`, `e.preventDefault()`, and the `true`/`false` return values. These are reduced to the `handled` result of `HandleKeyDown` and `HandleKeyPress`.
- `getKeyInfo` and the `SPECIAL` name table: the keydown payload is reduced to the key code and the `isChar` flag. The shift/control/alt fields and the name are not modelled, and neither is the `control: e.controlKey` field, which is always undefined in a browser.
- `console.log` and `_lastCmd`: diagnostics only.
- The `config` object (`window`, `document`, an injected `history`): the editor always owns a fresh `History`.
- What the embedder's callbacks do: they are foreign code. The model records each call in `notices` and takes the asynchronous replies as separate operations.
- Replies given synchronously, from inside a callback's own invocation: they are modelled as arriving after the event that triggered them. With a synchronous reply inside a key event, the keydown notice can then come before the reply's effects where the source logs it after.
- Callbacks that never call back: the queue simply stays suspended, and no liveness property is stated.
- Handler values: a handler is either installed or not. Setting one to a falsy value is modelled as not installed.
- `cmdReverseSearch`, `cmdBackwardWord`, `cmdForwardWord`: empty in the source, modelled as commands that change nothing.
- Characters are modelled as `char` code units, with no surrogate pairs or other Unicode handling. A keypress inserts exactly one unit, as `String.fromCharCode` does.
- Numbers: cursor and lengths are unbounded naturals; JavaScript's floating-point numbers do not matter at line lengths.
- StrUtil.Insert: takes `idx` as a natural number, so negative indices are not modelled (the source would give `insert("abc", -1, "X") == "Xc"`, since `substr(0, -1)` is empty and `substr(-1)` is the last unit). The editor only ever passes `_cursor`, which is never negative.
- StrUtil.Remove: requires `from <= to <= |text|`, so reversed or out-of-range indices, which `substr` would silently clamp, are not modelled. The editor never calls it that way.
