/** The older, unmounted live editor (src/liveEditor.js): the same document
    machine kept in three separately updated cells, with no equality check on
    input and no bound on the history. Laid beside the reducer, it agrees on
    undo, redo and display; it diverges on input, and on inbound messages,
    whose handler as written compares against the text captured at mount. */
module Legacy {
  import opened Reducer
  import ReducerLaws

  /** The text the inbound handler actually compares against: its callback is
      created once, at mount, and keeps the content of that first render. */
  const ContentAtMount: string := ""

  /** The editor's three state cells. */
  class Editor {
    var content: string
    var history: seq<string>
    var redoStack: seq<string>

    /** The cells read as one reducer state, for comparison with the mounted editor. */
    function Snapshot(): State
      reads this
    {
      State(content, history, redoStack)
    }

    constructor ()
      ensures Snapshot() == InitialState
    {
      content := "";
      history := [];
      redoStack := [];
    }

    /** Local input: always pushes the replaced text, clears the redo stack and
        takes the new text, which is also what is handed to the sender. */
    method HandleInput(newContent: string) returns (sent: string)
      modifies this
      ensures Snapshot() == InputStep(old(Snapshot()), newContent)
      ensures |history| == old(|history|) + 1
      ensures sent == newContent == content
    {
      history := history + [content];
      redoStack := [];
      content := newContent;
      sent := newContent;
    }

    /** Undo button: a no-op on an empty history; otherwise the most recent entry
        becomes the content and is handed to the sender. */
    method HandleUndo() returns (sent: Option<string>)
      modifies this
      ensures Snapshot() == Reduce(old(Snapshot()), Undo)
      ensures old(history) == [] ==> sent == None && unchanged(this)
      ensures old(history) != [] ==>
        && content == old(history)[|old(history)| - 1]
        && history == old(history)[..|old(history)| - 1]
        && redoStack == [old(content)] + old(redoStack)
        && sent == Some(content)
      ensures |history| + |redoStack| == old(|history| + |redoStack|)
    {
      if |history| == 0 {
        return None;
      }
      var previous := history[|history| - 1];
      redoStack := [content] + redoStack;
      history := history[..|history| - 1];
      content := previous;
      sent := Some(previous);
    }

    /** Redo button: a no-op on an empty redo stack; otherwise the top of the redo
        stack becomes the content and is handed to the sender. */
    method HandleRedo() returns (sent: Option<string>)
      modifies this
      ensures Snapshot() == Reduce(old(Snapshot()), Redo)
      ensures old(redoStack) == [] ==> sent == None && unchanged(this)
      ensures old(redoStack) != [] ==>
        && content == old(redoStack)[0]
        && history == old(history) + [old(content)]
        && redoStack == old(redoStack)[1..]
        && sent == Some(content)
      ensures |history| + |redoStack| == old(|history| + |redoStack|)
    {
      if |redoStack| == 0 {
        return None;
      }
      var next := redoStack[0];
      history := history + [content];
      redoStack := redoStack[1..];
      content := next;
      sent := Some(next);
    }

    /** Inbound message, with the intended comparison against the current
        content (the handler as written is `StaleOnMessage`): sets the content
        for an update that differs from it and never touches either stack. */
    method OnMessage(msg: Inbound)
      modifies this
      ensures Snapshot() == HandleMessage(old(Snapshot()), msg)
      ensures history == old(history) && redoStack == old(redoStack)
      ensures content != old(content) <==> msg.Update? && msg.content != old(content)
    {
      if msg.Update? && msg.content != content {
        content := msg.content;
      }
    }

    /** The text rendered: the same clipping expression as the mounted editor's,
        so it is shown at most DisplayLimit characters plus the marker long. */
    function GetDisplayContent(): (d: string)
      reads this
      ensures |d| <= DisplayLimit + |Ellipsis|
      ensures |content| <= DisplayLimit ==> d == content
      ensures |content| > DisplayLimit ==> d == content[..DisplayLimit] + Ellipsis
    {
      DisplayContent(content)
    }
  }

  /** handleUndo followed by handleRedo restores all three cells, and the two
      sends are the restored entry and then the text that was current. */
  method UndoThenRedoRestores(e: Editor) returns (undone: Option<string>, redone: Option<string>)
    requires e.history != []
    modifies e
    ensures e.Snapshot() == old(e.Snapshot())
    ensures undone == Some(old(e.history)[|old(e.history)| - 1]) && redone == Some(old(e.content))
  {
    ghost var before := e.Snapshot();
    undone := e.HandleUndo();
    redone := e.HandleRedo();
    ReducerLaws.UndoThenRedo(before);
  }

  /** handleRedo followed by handleUndo restores all three cells. */
  method RedoThenUndoRestores(e: Editor) returns (redone: Option<string>, undone: Option<string>)
    requires e.redoStack != []
    modifies e
    ensures e.Snapshot() == old(e.Snapshot())
    ensures redone == Some(old(e.redoStack)[0]) && undone == Some(old(e.content))
  {
    ghost var before := e.Snapshot();
    redone := e.HandleRedo();
    undone := e.HandleUndo();
    ReducerLaws.RedoThenUndo(before);
  }

  /** The state change of one local input in this editor: the replaced text is
      appended whatever the new text is, and the history is never trimmed. */
  function InputStep(st: State, text: string): (r: State)
    ensures r.content == text && r.redoStack == []
    ensures |r.history| == |st.history| + 1
    ensures r.history[..|st.history|] == st.history && r.history[|st.history|] == st.content
  {
    State(text, st.history + [st.content], [])
  }

  /** The state after one local input per element of `texts`. */
  function Inputs(st: State, texts: seq<string>): State
    decreases |texts|
  {
    if texts == [] then st else Inputs(InputStep(st, texts[0]), texts[1..])
  }

  /** Every input adds exactly one history entry and keeps the older ones. */
  lemma {:induction false} InputsGrowHistory(st: State, texts: seq<string>)
    ensures |Inputs(st, texts).history| == |st.history| + |texts|
    ensures Inputs(st, texts).history[..|st.history|] == st.history
    decreases |texts|
  {
    if texts != [] {
      var next := InputStep(st, texts[0]);
      InputsGrowHistory(next, texts[1..]);
      assert Inputs(st, texts).history[..|st.history|] == Inputs(next, texts[1..]).history[..|next.history|][..|st.history|];
    }
  }

  /** Unlike the mounted editor, more than MaxHistory inputs leave more than
      MaxHistory history entries. */
  lemma HistoryUnbounded(texts: seq<string>)
    requires |texts| > MaxHistory
    ensures |Inputs(InitialState, texts).history| > MaxHistory
  {
    InputsGrowHistory(InitialState, texts);
  }

  /** First divergence: re-entering the current text grows the history here and
      leaves the mounted editor's state as it is. */
  lemma InputIgnoresEquality(st: State)
    ensures InputStep(st, st.content) != st
    ensures Reduce(st, UpdateContent(st.content)) == st
  {
    assert |InputStep(st, st.content).history| != |st.history|;
  }

  /** Second divergence: at the bound the history grows past it here while the
      mounted editor evicts its oldest entry. */
  lemma InputIgnoresBound(st: State, text: string)
    requires |st.history| >= MaxHistory && text != st.content
    ensures |InputStep(st, text).history| == |st.history| + 1
    ensures |Reduce(st, UpdateContent(text)).history| == |st.history|
  {
  }

  /** Below the bound and with new text, both editors make the same step. */
  lemma InputAgreesBelowBound(st: State, text: string)
    requires |st.history| < MaxHistory && text != st.content
    ensures InputStep(st, text) == Reduce(st, UpdateContent(text))
  {
    assert (st.history + [st.content])[0..] == st.history + [st.content];
  }

  /** The inbound handler as written: its comparison is against the content
      captured at mount, not the current content. */
  function StaleOnMessage(st: State, msg: Inbound): (r: State)
    ensures r.history == st.history && r.redoStack == st.redoStack
    ensures r.content == (if InboundAction(msg, ContentAtMount).Some? then msg.content else st.content)
  {
    if msg.Update? && msg.content != ContentAtMount then st.(content := msg.content) else st
  }

  /** The stale comparison drops a remote update that clears a non-empty
      document, which the intended comparison applies. */
  lemma StaleClosureDropsClear()
    ensures var st := State("abc", [], []);
      && StaleOnMessage(st, Update("")) == st
      && HandleMessage(st, Update("")) == State("", [], [])
  {
    var st := State("abc", [], []);
    assert InboundAction(Update(""), st.content) == Some(SetContent(""));
  }

  /** The stale comparison and the intended one part ways only on an update
      that clears a non-empty document. */
  lemma StaleDiffersOnlyOnClear(st: State, msg: Inbound)
    ensures StaleOnMessage(st, msg) != HandleMessage(st, msg) <==> msg == Update("") && st.content != ""
  {
    if msg == Update("") && st.content != "" {
      assert StaleOnMessage(st, msg).content == st.content;
      assert HandleMessage(st, msg).content == "";
    }
  }
}
