/** The mounted live editor (src/components/liveEditor.js): a closed, deterministic
    reducer over a three-field document state, the handlers that dispatch to it and
    report the value they forward to the peer, the decision taken on an inbound
    message, and the truncation applied before the content is rendered. */
module Reducer {

  datatype Option<T> = None | Some(value: T)

  /** Bound on the undo history of the mounted editor. */
  const MaxHistory: nat := 50

  /** Number of characters shown before the content is clipped. */
  const DisplayLimit: nat := 10000

  /** Marker appended to clipped content. */
  const Ellipsis: string := "..."

  /** The document: current text, undo history (most recent last) and redo
      stack (next redo first). */
  datatype State = State(content: string, history: seq<string>, redoStack: seq<string>)

  /** The editor's state at mount. */
  const InitialState: State := State("", [], [])

  /** The actions the reducer distinguishes; `Unrecognized` stands for any other
      action type, which reaches the default branch. */
  datatype Action =
    | UpdateContent(payload: string)
    | Undo
    | Redo
    | SetContent(payload: string)
    | Unrecognized

  /** A decoded inbound frame: an update carrying content, or anything else
      (another type, or a frame that did not parse). */
  datatype Inbound = Update(content: string) | Other

  /** What a handler leaves behind: the new state and the value it hands to the
      debounced sender, if any. */
  datatype Reaction = Reaction(state: State, sent: Option<string>)

  /** The history bound that every reachable state keeps: undo and redo move
      entries between the two stacks, a new edit empties the redo stack. */
  predicate Bounded(st: State) {
    |st.history| + |st.redoStack| <= MaxHistory
  }

  /** The whole timeline a state encodes: older entries, the current text and the
      entries that can still be redone, in edit order. */
  function Timeline(st: State): (t: seq<string>)
    ensures |t| == |st.history| + 1 + |st.redoStack|
    ensures t[|st.history|] == st.content
  {
    st.history + [st.content] + st.redoStack
  }

  /** Appends `entry` to the history and drops the oldest entry when the result
      would hold more than MaxHistory entries. */
  function PushBounded(h: seq<string>, entry: string): (r: seq<string>)
    ensures |r| == if |h| + 1 > MaxHistory then |h| else |h| + 1
    ensures r == (h + [entry])[|h| + 1 - |r|..]
    ensures |h| <= MaxHistory ==> |r| <= MaxHistory
  {
    var extended := h + [entry];
    if |extended| > MaxHistory then extended[1..] else extended
  }

  /** The reducer. */
  function Reduce(st: State, a: Action): (r: State)
    ensures Bounded(st) ==> Bounded(r)
    ensures a.UpdateContent? ==> (r == st <==> a.payload == st.content)
    ensures a.SetContent? || a.Unrecognized? ==> r.history == st.history && r.redoStack == st.redoStack
    ensures a.Undo? || a.Redo? ==> |r.history| + |r.redoStack| == |st.history| + |st.redoStack|
    ensures a.UpdateContent? || a.SetContent? ==> r.content == a.payload
    ensures a.Unrecognized? ==> r == st
  {
    match a
    case UpdateContent(payload) =>
      if st.content == payload then st
      else State(payload, PushBounded(st.history, st.content), [])
    case Undo =>
      if |st.history| == 0 then st
      else
        var previous := st.history[|st.history| - 1];
        State(previous, st.history[..|st.history| - 1], [st.content] + st.redoStack)
    case Redo =>
      if |st.redoStack| == 0 then st
      else
        var next := st.redoStack[0];
        State(next, st.history + [st.content], st.redoStack[1..])
    case SetContent(payload) =>
      State(payload, st.history, st.redoStack)
    case Unrecognized =>
      st
  }

  /** Local input: dispatches UpdateContent and forwards the new text to the
      sender whether or not the reducer changed anything. */
  function HandleInput(st: State, text: string): (o: Reaction)
    ensures o.sent == Some(text) && o.state.content == text
    ensures text == st.content ==> o.state == st
    ensures text != st.content ==> o.state.redoStack == [] && o.state.history != []
    ensures Bounded(st) ==> Bounded(o.state)
  {
    Reaction(Reduce(st, UpdateContent(text)), Some(text))
  }

  /** Undo button: nothing happens on an empty history; otherwise dispatches Undo
      and forwards the entry it restores, read before the dispatch. */
  function HandleUndo(st: State): (o: Reaction)
    ensures o.sent.Some? <==> st.history != []
    ensures o.sent.None? ==> o.state == st
    ensures o.sent.Some? ==> o.sent.value == o.state.content && o.state.content == st.history[|st.history| - 1]
    ensures |o.state.history| + |o.state.redoStack| == |st.history| + |st.redoStack|
  {
    if |st.history| == 0 then Reaction(st, None)
    else
      var previous := st.history[|st.history| - 1];
      Reaction(Reduce(st, Undo), Some(previous))
  }

  /** Redo button: nothing happens on an empty redo stack; otherwise dispatches
      Redo and forwards the entry it restores, read before the dispatch. */
  function HandleRedo(st: State): (o: Reaction)
    ensures o.sent.Some? <==> st.redoStack != []
    ensures o.sent.None? ==> o.state == st
    ensures o.sent.Some? ==> o.sent.value == o.state.content && o.state.content == st.redoStack[0]
    ensures |o.state.history| + |o.state.redoStack| == |st.history| + |st.redoStack|
  {
    if |st.redoStack| == 0 then Reaction(st, None)
    else
      var next := st.redoStack[0];
      Reaction(Reduce(st, Redo), Some(next))
  }

  /** The action dispatched for an inbound message, if any: SetContent, and only
      for an update whose content differs from the current text. */
  function InboundAction(msg: Inbound, current: string): (a: Option<Action>)
    ensures a.Some? <==> msg.Update? && msg.content != current
    ensures a.Some? ==> a.value.SetContent? && a.value.payload == msg.content && a.value.payload != current
  {
    if msg.Update? && msg.content != current then Some(SetContent(msg.content)) else None
  }

  /** An inbound message applied to the state: never touches either stack and
      changes the state exactly when the message is accepted. Nothing is sent. */
  function HandleMessage(st: State, msg: Inbound): (r: State)
    ensures r.history == st.history && r.redoStack == st.redoStack
    ensures r != st <==> InboundAction(msg, st.content).Some?
    ensures r != st ==> r.content == msg.content
  {
    match InboundAction(msg, st.content)
    case None => st
    case Some(a) => Reduce(st, a)
  }

  /** The text handed to the renderer: content of at most DisplayLimit characters
      is shown as is; longer content is clipped and followed by the marker. */
  function DisplayContent(content: string): (d: string)
    ensures |d| <= DisplayLimit + |Ellipsis|
    ensures |content| <= DisplayLimit ==> d == content
    ensures |content| > DisplayLimit ==>
      |d| == DisplayLimit + |Ellipsis| && d[..DisplayLimit] == content[..DisplayLimit] && d[DisplayLimit..] == Ellipsis
  {
    if |content| > DisplayLimit then content[..DisplayLimit] + Ellipsis else content
  }
}
