# Live editor document state machine

This project models the document core of a small real-time collaborative text
editor. The editor keeps three things:

- the current text;
- an undo history, most recent entry last;
- a redo stack, next entry first.

It changes them through four kinds of transition: a local edit, undo, redo and a
remote overwrite. Two pure rules sit on top of them:

- **Echo suppression.** An inbound message is applied only if it is an update
  whose content differs from the current text.
- **Display clipping.** Text longer than 10000 characters is shown as its first
  10000 characters followed by `...`.

The repository holds two versions of this machine, and both are modelled:

- **Mounted version.** `src/components/liveEditor.js` is the one the application
  mounts. It is a pure reducer over a three-field record, with a history bound
  of 50. It is modelled in module `Reducer` (`reducer.dfy`) as a datatype
  `State`, a datatype `Action` and the function `Reduce`. Its handlers are
  functions that return the new state and the value handed to the sender. The
  laws about it are in module `ReducerLaws` (`reducer_laws.dfy`).
- **Older version.** `src/liveEditor.js` is unmounted. It keeps the same three
  cells as separately updated component state. It is modelled in module `Legacy`
  (`legacy.dfy`) as a class `Editor` with three fields and one method per
  handler. Each method's postcondition ties the new cells to the mounted
  reducer where the two versions agree. Lemmas show where they diverge: input
  has no equality check and no history bound.

The proofs cover:

- what each action does, including the no-op cases;
- the exact inverse laws between undo and redo, including `k` undos followed
  by `k` redos;
- the bound on reachable states: history plus redo stack never holds more than
  50 entries, so the history never exceeds 50 even though redo does not trim it;
- oldest-first eviction over any number of distinct edits;
- the run "n edits, n undos, n redos" from the initial state, for at most 50
  distinct edits, with the text shown after every undo and every redo;
- echo suppression, and remote overwrites bypassing the undo history;
- the bounds of display clipping.

The proofs rest on one observation. A state is a position in a fixed timeline,
`history + [content] + redoStack`. Undo and redo move the position by one and
never change the timeline (`ReducerLaws.UndoRedoKeepTimeline`,
`ReducerLaws.SameTimelineSameState`).

Two points of the code are easy to misread:

- The mounted `handleInput` hands the new text to the sender even when the
  reducer ignored it as unchanged (`src/components/liveEditor.js:85-89`).
  `Reducer.HandleInput` always returns `Some(text)`.
- `REDO` does not trim the history (`src/components/liveEditor.js:42`). The
  bound holds only because of the invariant `|history| + |redoStack| <= 50`
  (`ReducerLaws.RunKeepsBound`).

## Model

| member | source | states |
|---|---|---|
| `Reducer.PushBounded` | src/components/liveEditor.js:19-20 | the new history is a suffix of the old history followed by the replaced text: one longer below the bound, as long at or above it, and never longer than 50 when the old history was within 50 |
| `Reducer.Reduce` | src/components/liveEditor.js:15-53 | every action keeps the bound `history length + redo length <= 50`; an edit returns the same state exactly when its payload equals the content; edits and remote overwrites leave the payload as content; SET_CONTENT and unknown actions leave both stacks alone; undo and redo keep the total number of stacked entries; an unknown action changes nothing |
| `Reducer.HandleInput` | src/components/liveEditor.js:85-89 | the new text is always sent and becomes the content; unchanged text leaves the state as it was; new text empties the redo stack and leaves a non-empty history; the bound is kept |
| `Reducer.HandleUndo` | src/components/liveEditor.js:91-96 | a value is sent exactly when the history is non-empty; with nothing sent the state is unchanged; the value sent is the new content, which is the last history entry; the total number of stacked entries is kept |
| `Reducer.HandleRedo` | src/components/liveEditor.js:98-103 | a value is sent exactly when the redo stack is non-empty; with nothing sent the state is unchanged; the value sent is the new content, which is the head of the redo stack; the total number of stacked entries is kept |
| `Reducer.InboundAction` | src/components/liveEditor.js:62-63 | SET_CONTENT is dispatched exactly for an update whose content differs from the current content, and its payload is that content |
| `Reducer.HandleMessage` | src/components/liveEditor.js:59-68 | an inbound message never touches history or redo stack; it changes the state exactly when it is accepted, and then the content is the message content |
| `Reducer.DisplayContent` | src/components/liveEditor.js:105-107 | the shown text is at most 10003 characters; text of at most 10000 characters is shown as is; longer text shows its first 10000 characters followed by `...` |
| `ReducerLaws.UpdateSameIsNoop` | src/components/liveEditor.js:18 | an edit equal to the current content returns the very same state, so no history or redo entry is created |
| `ReducerLaws.UpdateDifferent` | src/components/liveEditor.js:19-25 | an edit with new text sets the content, appends the old content as the last history entry, evicts the oldest entry when the history already holds 50, and empties the redo stack |
| `ReducerLaws.UndoEmptyIsNoop` | src/components/liveEditor.js:28 | UNDO on an empty history changes nothing |
| `ReducerLaws.UndoStep` | src/components/liveEditor.js:29-35 | UNDO makes the last history entry the content, removes exactly that entry and prepends the old content to the redo stack |
| `ReducerLaws.RedoEmptyIsNoop` | src/components/liveEditor.js:37 | REDO on an empty redo stack changes nothing |
| `ReducerLaws.RedoStep` | src/components/liveEditor.js:38-44 | REDO makes the head of the redo stack the content, appends the old content to the history untrimmed and drops the head of the redo stack |
| `ReducerLaws.SetContentOnlyContent` | src/components/liveEditor.js:45-52 | SET_CONTENT changes the content and nothing else; an unrecognized action returns the state unchanged |
| `ReducerLaws.UndoThenRedo` | src/components/liveEditor.js:27-44 | UNDO then REDO on a state with history restores that exact state |
| `ReducerLaws.RedoThenUndo` | src/components/liveEditor.js:27-44 | REDO then UNDO on a state with a redo stack restores that exact state |
| `ReducerLaws.RunKeepsBound` | src/components/liveEditor.js:15-53 | any sequence of actions from a state within the bound stays within the bound |
| `ReducerLaws.ReachableHistoryBounded` | src/components/liveEditor.js:7-13 | every state reached from the initial state has `history length + redo length <= 50`, hence at most 50 history entries |
| `ReducerLaws.UndoRedoKeepTimeline` | src/components/liveEditor.js:27-44 | UNDO and REDO never change the timeline `history + [content] + redoStack`; each moves the current position by one when it applies |
| `ReducerLaws.UndosThenRedos` | src/components/liveEditor.js:27-44 | `k` undos followed by `k` redos restore the state, for every `k` up to the history length |
| `ReducerLaws.RedosThenUndos` | src/components/liveEditor.js:27-44 | `k` redos followed by `k` undos restore the state, for every `k` up to the redo stack length |
| `ReducerLaws.SameTimelineSameState` | src/components/liveEditor.js:9-13 | two states with the same timeline and the same number of history entries are the same state |
| `ReducerLaws.EditsExtendTimeline` | src/components/liveEditor.js:17-26 | below the bound, a run of distinct edits appends the edited texts to the timeline, leaves the position on the last edit and empties the redo stack |
| `ReducerLaws.EditsFromInitial` | src/components/liveEditor.js:9-26 | from the initial state, `n <= 50` distinct edits give the timeline "empty text, then the edits", with `n` history entries, the last edit as content and nothing to redo |
| `ReducerLaws.UndosShowEdits` | src/components/liveEditor.js:27-35 | on such a timeline, the `k`-th undo shows the `k`-th most recent edit, and the `n`-th undo shows the empty text |
| `ReducerLaws.EditsThenUndos` | src/components/liveEditor.js:9-35 | from the initial state, after `n <= 50` distinct edits, `k` undos show the edits in reverse order |
| `ReducerLaws.RedosShowTimeline` | src/components/liveEditor.js:36-44 | after `j` redos the content is the entry `j` places after the current position of the timeline |
| `ReducerLaws.EditsUndoRedo` | src/components/liveEditor.js:9-44 | from the initial state, after `n <= 50` distinct edits, `n` undos reach the empty text, the `j`-th redo after them shows the `j`-th edit, and `n` redos restore the state after the edits |
| `ReducerLaws.EditsKeepNewest` | src/components/liveEditor.js:17-26 | after any number of distinct edits the history is the newest 50 of the replaced texts (oldest evicted first), the content is the last edit and the redo stack is empty |
| `ReducerLaws.EchoSuppressed` | src/components/liveEditor.js:62 | an inbound update equal to the current content, or any other message, leaves the state unchanged |
| `ReducerLaws.MessageIdempotent` | src/components/liveEditor.js:62-63 | applying the same inbound message twice is the same as applying it once |
| `ReducerLaws.RemoteBypassesHistory` | src/components/liveEditor.js:45-49 | after a remote overwrite, the next undo sends the same entry and leaves the same history as it would have without the overwrite |
| `ReducerLaws.NewEditClearsRedo` | src/components/liveEditor.js:25 | after an undo, an edit with new text leaves the redo stack empty |
| `ReducerLaws.DisplayStable` | src/components/liveEditor.js:106 | clipping the shown text again changes nothing, and the shown characters before the marker are a prefix of the stored content |
| `Legacy.Editor.constructor` | src/liveEditor.js:7-9 | the three cells start as the empty text, an empty history and an empty redo stack |
| `Legacy.Editor.HandleInput` | src/liveEditor.js:54-60 | with no equality check and no bound, the old content is appended to the history, the redo stack is cleared, and the new text becomes the content and is sent; the history grows by exactly one |
| `Legacy.Editor.HandleUndo` | src/liveEditor.js:62-69 | a no-op with nothing sent on an empty history; otherwise the last entry becomes the content and is removed, the old content is prepended to the redo stack, and the new content is sent; the new cells are what the mounted reducer's UNDO gives; the total number of stacked entries is kept |
| `Legacy.Editor.HandleRedo` | src/liveEditor.js:71-78 | a no-op with nothing sent on an empty redo stack; otherwise the head becomes the content and is dropped, the old content is appended to the history, and the new content is sent; the new cells are what the mounted reducer's REDO gives; the total number of stacked entries is kept |
| `Legacy.Editor.OnMessage` | src/liveEditor.js:29-30 | the content changes exactly for an update whose content differs from the current content; history and redo stack are untouched; the result is the mounted editor's inbound step |
| `Legacy.Editor.GetDisplayContent` | src/liveEditor.js:80-85 | text of at most 10000 characters is shown as is; longer text is shown as its first 10000 characters followed by `...`, at most 10003 characters; the expression is the mounted editor's clipping, and nothing is modified |
| `Legacy.UndoThenRedoRestores` | src/liveEditor.js:62-78 | handleUndo then handleRedo restores content, history and redo stack exactly; the two values sent are the restored entry and then the original content |
| `Legacy.RedoThenUndoRestores` | src/liveEditor.js:62-78 | handleRedo then handleUndo restores all three cells; the two values sent are the redo head and then the original content |
| `Legacy.InputStep` | src/liveEditor.js:56-58 | one input takes the new text, empties the redo stack, and appends the replaced text to the unchanged older history |
| `Legacy.InputsGrowHistory` | src/liveEditor.js:56 | after any sequence of inputs, the history has grown by exactly the number of inputs and its older entries are unchanged |
| `Legacy.HistoryUnbounded` | src/liveEditor.js:56 | more than 50 inputs from the initial state leave more than 50 history entries |
| `Legacy.InputIgnoresEquality` | src/liveEditor.js:54-60 | re-entering the current text changes this editor's state, while the mounted reducer returns its state unchanged |
| `Legacy.InputIgnoresBound` | src/liveEditor.js:56 | at or above 50 entries, an input grows this editor's history by one, while the mounted reducer keeps the length |
| `Legacy.InputAgreesBelowBound` | src/liveEditor.js:54-60 | below the bound and with new text, this editor's input step equals the mounted reducer's UPDATE_CONTENT |
| `Legacy.StaleOnMessage` | src/liveEditor.js:14-35 | as written, the inbound handler decides by comparing against the content captured at mount, the empty text; it never touches history or redo stack |
| `Legacy.StaleClosureDropsClear` | src/liveEditor.js:29 | on a document holding `abc`, an update to the empty text is dropped by the handler as written and applied by the intended comparison |
| `Legacy.StaleDiffersOnlyOnClear` | src/liveEditor.js:29 | the handler as written and the intended comparison give different states exactly for an update to the empty text on a non-empty document |

## Left out

- Transport is not modelled. This covers `src/hooks/useWebSocket.js` and the
  connect and reconnect code in `src/liveEditor.js:14-43`: WebSocket I/O, the
  3000 ms reconnect timer and the close events. Unmounting still fires
  `onclose`, which schedules a reconnect (`src/hooks/useWebSocket.js:19-22,
  28-29`), so no teardown guard exists to model.
- The debounced sender is not modelled: `lodash.debounce`, the 500 ms window,
  cancellation on unmount, and the `readyState` gate before `send`. It is a
  foreign library with wall-clock timing. Each handler instead returns the value
  it hands to the sender (`Reaction.sent`, or a method's `sent` result).
- `JSON.parse` and `JSON.stringify` are not modelled. A parsed frame is the
  variant `Inbound`: `Update(content)`, or `Other` for any other type and for a
  frame that fails to parse. `Inbound` excludes an `update` frame whose
  `content` is not a string. The source stores such a value as it is: `5` for
  `{"type":"update","content":5}`, and `undefined` when the field is missing.
  With a missing or `null` content, `content.length` then throws while the
  editor renders (`src/components/liveEditor.js:106`, `src/liveEditor.js:81`),
  and nothing above the editor catches it, so the editor crashes. The model
  does not capture that failure.
- React specifics are not modelled: `useReducer` and `useState` batching,
  `useCallback` and `useMemo`, JSX, `contentEditable` and `innerText`, and
  console logging. Each handler is one atomic transition over the current state.
- Stale closures in the mounted version are not modelled. Its socket callback
  is recreated on every render, and the old connections' reconnect timers keep
  older callbacks alive. The model compares against the current content. The
  older version's stale comparison is recorded under Findings.
- `src/App.js` (UI composition) and `process.env.WEBSOCKET_URL`
  (configuration) are not modelled.
- String lengths are counted in Dafny characters. JavaScript counts UTF-16 code
  units, so `slice(0, 10000)` can split a surrogate pair. This is not modelled.

## Findings

| source | as written | input that shows it | evidently intended | confidence | as-written member | corrected member |
|---|---|---|---|---|---|---|
| src/liveEditor.js:29 | the `onmessage` callback is created by `connectWebSocket` in the mount effect (`[]` dependencies, line 19), and the reconnect reuses that same function. So `content` in the comparison is always the first render's empty text | current content `abc`, inbound `{"type":"update","content":""}`: the comparison `'' !== ''` fails and the remote clear is dropped | compare against the current content, as the mounted version does at src/components/liveEditor.js:62 | medium, not executed | `Legacy.StaleOnMessage` (shown by `Legacy.StaleClosureDropsClear` and `Legacy.StaleDiffersOnlyOnClear`) | `Legacy.Editor.OnMessage` |
