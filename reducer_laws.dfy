/** Laws of the mounted editor's reducer: what each action does, the inverse laws
    between Undo and Redo, the history bound of every reachable state, and what a
    run of edits followed by undos and redos leaves behind. */
module ReducerLaws {
  import opened Reducer

  /** The state after dispatching `actions` in order. */
  function Run(st: State, actions: seq<Action>): State
    decreases |actions|
  {
    if actions == [] then st else Run(Reduce(st, actions[0]), actions[1..])
  }

  /** The state after dispatching `a` `k` times. */
  function Repeat(st: State, a: Action, k: nat): State
    decreases k
  {
    if k == 0 then st else Repeat(Reduce(st, a), a, k - 1)
  }

  /** The state after one local edit per element of `edits`. */
  function Edits(st: State, edits: seq<string>): State
    decreases |edits|
  {
    if edits == [] then st else Edits(Reduce(st, UpdateContent(edits[0])), edits[1..])
  }

  /** Each edit differs from the text it replaces. */
  predicate Distinct(current: string, edits: seq<string>) {
    && (edits != [] ==> edits[0] != current)
    && forall i :: 0 < i < |edits| ==> edits[i] != edits[i - 1]
  }

  /** The last `n` entries of `s` (all of `s` when it is shorter). */
  function Newest(s: seq<string>, n: nat): (r: seq<string>)
    ensures |r| == if |s| <= n then |s| else n
    ensures r == s[|s| - |r|..]
  {
    if |s| <= n then s else s[|s| - n..]
  }

  // ---------------------------------------------------------------------------
  // One action at a time

  /** An edit that repeats the current text returns the very same state. */
  lemma UpdateSameIsNoop(st: State, text: string)
    requires text == st.content
    ensures Reduce(st, UpdateContent(text)) == st
  {
  }

  /** An edit with new text sets the content, pushes the old content as the most
      recent history entry (dropping the oldest one beyond MaxHistory) and empties
      the redo stack. */
  lemma UpdateDifferent(st: State, text: string)
    requires text != st.content
    ensures var r := Reduce(st, UpdateContent(text));
      && r.content == text
      && r.redoStack == []
      && |r.history| > 0 && r.history[|r.history| - 1] == st.content
      && (|st.history| < MaxHistory ==> r.history == st.history + [st.content])
      && (|st.history| >= MaxHistory ==> r.history == st.history[1..] + [st.content])
  {
    var r := Reduce(st, UpdateContent(text));
    if |st.history| >= MaxHistory {
      assert r.history == (st.history + [st.content])[1..];
      assert (st.history + [st.content])[1..] == st.history[1..] + [st.content];
    }
  }

  /** Undo with an empty history changes nothing. */
  lemma UndoEmptyIsNoop(st: State)
    requires st.history == []
    ensures Reduce(st, Undo) == st
  {
  }

  /** Undo restores the most recent history entry, removes exactly that entry and
      puts the replaced text on top of the redo stack. */
  lemma UndoStep(st: State)
    requires st.history != []
    ensures var r := Reduce(st, Undo);
      && r.content == st.history[|st.history| - 1]
      && r.history + [r.content] == st.history
      && r.redoStack == [st.content] + st.redoStack
  {
  }

  /** Redo with an empty redo stack changes nothing. */
  lemma RedoEmptyIsNoop(st: State)
    requires st.redoStack == []
    ensures Reduce(st, Redo) == st
  {
  }

  /** Redo restores the top of the redo stack, pushes the replaced text onto the
      history (without trimming it) and pops the redo stack. */
  lemma RedoStep(st: State)
    requires st.redoStack != []
    ensures var r := Reduce(st, Redo);
      && r.content == st.redoStack[0]
      && r.history == st.history + [st.content]
      && [r.content] + r.redoStack == st.redoStack
  {
  }

  /** A remote overwrite changes the content only; an unrecognized action
      changes nothing. */
  lemma SetContentOnlyContent(st: State, text: string)
    ensures Reduce(st, SetContent(text)) == st.(content := text)
    ensures Reduce(st, Unrecognized) == st
  {
  }

  /** Undo then Redo on a state with history gives back that state. */
  lemma UndoThenRedo(st: State)
    requires st.history != []
    ensures Reduce(Reduce(st, Undo), Redo) == st
  {
    var h := st.history;
    assert h[..|h| - 1] + [h[|h| - 1]] == h;
  }

  /** Redo then Undo on a state with a redo stack gives back that state. */
  lemma RedoThenUndo(st: State)
    requires st.redoStack != []
    ensures Reduce(Reduce(st, Redo), Undo) == st
  {
    var h := st.history + [st.content];
    assert h[..|h| - 1] == st.history;
    assert [st.redoStack[0]] + st.redoStack[1..] == st.redoStack;
  }

  // ---------------------------------------------------------------------------
  // The history bound

  /** Every action keeps the bound, so every run from a bounded state does. */
  lemma {:induction false} RunKeepsBound(st: State, actions: seq<Action>)
    requires Bounded(st)
    ensures Bounded(Run(st, actions))
    decreases |actions|
  {
    if actions != [] {
      RunKeepsBound(Reduce(st, actions[0]), actions[1..]);
    }
  }

  /** Every state reachable from the initial state holds at most MaxHistory
      entries in its history, although Redo itself never trims. */
  lemma ReachableHistoryBounded(actions: seq<Action>)
    ensures Bounded(Run(InitialState, actions))
    ensures |Run(InitialState, actions).history| <= MaxHistory
  {
    RunKeepsBound(InitialState, actions);
  }

  // ---------------------------------------------------------------------------
  // Undo and redo move along a fixed timeline

  /** An applicable Undo keeps the timeline. */
  lemma UndoKeepsTimeline(st: State)
    requires st.history != []
    ensures Timeline(Reduce(st, Undo)) == Timeline(st)
  {
    var u := Reduce(st, Undo);
    var h := st.history;
    assert u.history + [u.content] == h by {
      assert h[..|h| - 1] + [h[|h| - 1]] == h;
    }
    assert Timeline(u) == (u.history + [u.content]) + [st.content] + st.redoStack;
  }

  /** An applicable Redo keeps the timeline. */
  lemma RedoKeepsTimeline(st: State)
    requires st.redoStack != []
    ensures Timeline(Reduce(st, Redo)) == Timeline(st)
  {
    var r := Reduce(st, Redo);
    assert [r.content] + r.redoStack == st.redoStack;
    assert Timeline(r) == st.history + [st.content] + ([r.content] + r.redoStack);
  }

  /** Undo and Redo never change the timeline; each moves the cursor by one. */
  lemma UndoRedoKeepTimeline(st: State)
    ensures Timeline(Reduce(st, Undo)) == Timeline(st)
    ensures Timeline(Reduce(st, Redo)) == Timeline(st)
    ensures st.history != [] ==> |Reduce(st, Undo).history| == |st.history| - 1
    ensures st.redoStack != [] ==> |Reduce(st, Redo).history| == |st.history| + 1
  {
    if st.history != [] {
      UndoKeepsTimeline(st);
    }
    if st.redoStack != [] {
      RedoKeepsTimeline(st);
    }
  }

  /** A state is determined by its timeline and the position of its current
      text in it. */
  lemma SameTimelineSameState(a: State, b: State)
    requires Timeline(a) == Timeline(b) && |a.history| == |b.history|
    ensures a == b
  {
    var t, p := Timeline(a), |a.history|;
    assert a.history == t[..p] == b.history;
    assert a.redoStack == t[p + 1..] == b.redoStack;
  }

  /** `k` undos keep the timeline and move the position back by `k`. */
  lemma {:induction false} UndosKeepTimeline(st: State, k: nat)
    requires k <= |st.history|
    ensures Timeline(Repeat(st, Undo, k)) == Timeline(st)
    ensures |Repeat(st, Undo, k).history| == |st.history| - k
    decreases k
  {
    if k > 0 {
      var u := Reduce(st, Undo);
      UndoRedoKeepTimeline(st);
      UndosKeepTimeline(u, k - 1);
    }
  }

  /** `k` redos keep the timeline and move the position forward by `k`. */
  lemma {:induction false} RedosKeepTimeline(st: State, k: nat)
    requires k <= |st.redoStack|
    ensures Timeline(Repeat(st, Redo, k)) == Timeline(st)
    ensures |Repeat(st, Redo, k).history| == |st.history| + k
    decreases k
  {
    if k > 0 {
      var r := Reduce(st, Redo);
      UndoRedoKeepTimeline(st);
      RedosKeepTimeline(r, k - 1);
    }
  }

  /** `k` undos followed by `k` redos restore the state, for any `k` up to the
      length of the history. */
  lemma UndosThenRedos(st: State, k: nat)
    requires k <= |st.history|
    ensures Repeat(Repeat(st, Undo, k), Redo, k) == st
  {
    var back := Repeat(st, Undo, k);
    UndosKeepTimeline(st, k);
    RedosKeepTimeline(back, k);
    SameTimelineSameState(Repeat(back, Redo, k), st);
  }

  /** `k` redos followed by `k` undos restore the state, for any `k` up to the
      size of the redo stack. */
  lemma RedosThenUndos(st: State, k: nat)
    requires k <= |st.redoStack|
    ensures Repeat(Repeat(st, Redo, k), Undo, k) == st
  {
    var ahead := Repeat(st, Redo, k);
    RedosKeepTimeline(st, k);
    UndosKeepTimeline(ahead, k);
    SameTimelineSameState(Repeat(ahead, Undo, k), st);
  }

  /** After `j` redos the content is the entry `j` places after the current
      position of the timeline. */
  lemma RedosShowTimeline(st: State, j: nat)
    requires j <= |st.redoStack|
    ensures Repeat(st, Redo, j).content == Timeline(st)[|st.history| + j]
  {
    RedosKeepTimeline(st, j);
    var r := Repeat(st, Redo, j);
    assert Timeline(r)[|r.history|] == r.content;
  }

  // ---------------------------------------------------------------------------
  // Runs of edits

  /** One edit with new text below the bound pushes the replaced text untrimmed. */
  lemma EditBelowBound(st: State, text: string)
    requires text != st.content && |st.history| < MaxHistory
    ensures Reduce(st, UpdateContent(text)) == State(text, st.history + [st.content], [])
  {
    assert (st.history + [st.content])[0..] == st.history + [st.content];
  }

  /** Splitting off the first edit of a run does not change the timeline. */
  lemma ConsEdit(before: seq<string>, edits: seq<string>)
    requires edits != []
    ensures before + [edits[0]] + edits[1..] == before + edits
  {
    assert [edits[0]] + edits[1..] == edits;
  }

  /** While the bound is not reached, distinct edits extend the timeline by the
      edited texts and leave the position on the last one, with nothing to redo. */
  lemma {:induction false} EditsExtendTimeline(st: State, edits: seq<string>)
    requires edits != [] && Distinct(st.content, edits)
    requires |st.history| + |edits| <= MaxHistory
    ensures var r := Edits(st, edits);
      && Timeline(r) == st.history + [st.content] + edits
      && |r.history| == |st.history| + |edits|
      && r.redoStack == []
    decreases |edits|
  {
    var before := st.history + [st.content];
    var next := Reduce(st, UpdateContent(edits[0]));
    EditBelowBound(st, edits[0]);
    ConsEdit(before, edits);
    var rest := edits[1..];
    assert Edits(st, edits) == Edits(next, rest);
    if rest != [] {
      DistinctTail(st.content, edits);
      EditsExtendTimeline(next, rest);
    }
  }

  /** After `k` undos the content is the entry `k` places before the current
      position of the timeline. */
  lemma UndosShowTimeline(st: State, k: nat)
    requires k <= |st.history|
    ensures Repeat(st, Undo, k).content == Timeline(st)[|st.history| - k]
  {
    UndosKeepTimeline(st, k);
    var r := Repeat(st, Undo, k);
    assert Timeline(r)[|r.history|] == r.content;
  }

  /** Undos from a state whose timeline starts with the empty text and continues
      with `edits` show the edits in reverse order, down to the empty text. */
  lemma UndosShowEdits(s: State, edits: seq<string>)
    requires Timeline(s) == [""] + edits && |s.history| == |edits|
    ensures forall k :: 0 <= k <= |edits| ==> Repeat(s, Undo, k).content == ([""] + edits)[|edits| - k]
  {
    forall k | 0 <= k <= |edits|
      ensures Repeat(s, Undo, k).content == ([""] + edits)[|edits| - k]
    {
      UndosShowTimeline(s, k);
    }
  }

  /** From the initial state, distinct edits within the bound lay out the
      timeline "empty text, then the edits", positioned on the last edit with
      nothing to redo. */
  lemma EditsFromInitial(edits: seq<string>)
    requires edits != [] && Distinct("", edits) && |edits| <= MaxHistory
    ensures Timeline(Edits(InitialState, edits)) == [""] + edits
    ensures |Edits(InitialState, edits).history| == |edits|
    ensures Edits(InitialState, edits).content == edits[|edits| - 1]
    ensures Edits(InitialState, edits).redoStack == []
  {
    var s := Edits(InitialState, edits);
    EditsExtendTimeline(InitialState, edits);
    assert [] + [""] + edits == [""] + edits;
    assert Timeline(s)[|s.history|] == s.content;
  }

  /** From the initial state, after `n <= MaxHistory` distinct edits, `k` undos
      show the edits in reverse order, the `n`-th one the empty text. */
  lemma EditsThenUndos(edits: seq<string>)
    requires edits != [] && Distinct("", edits) && |edits| <= MaxHistory
    ensures forall k :: 0 <= k <= |edits| ==>
      Repeat(Edits(InitialState, edits), Undo, k).content == ([""] + edits)[|edits| - k]
  {
    var s := Edits(InitialState, edits);
    EditsFromInitial(edits);
    UndosShowEdits(s, edits);
  }

  /** Redos from a state whose timeline is the empty text followed by `edits`,
      positioned on the empty text, show the edits in order. */
  lemma RedosShowEdits(s: State, edits: seq<string>)
    requires Timeline(s) == [""] + edits && |s.history| == 0
    ensures forall j :: 0 <= j <= |edits| ==> Repeat(s, Redo, j).content == ([""] + edits)[j]
  {
    forall j | 0 <= j <= |edits|
      ensures Repeat(s, Redo, j).content == ([""] + edits)[j]
    {
      RedosShowTimeline(s, j);
    }
  }

  /** From the initial state, `n <= MaxHistory` distinct edits followed by `n`
      undos go back to the empty text; the redos after them show the edits in
      order, and `n` of them restore the state the edits left. */
  lemma EditsUndoRedo(edits: seq<string>)
    requires edits != [] && Distinct("", edits) && |edits| <= MaxHistory
    ensures Repeat(Edits(InitialState, edits), Undo, |edits|).content == ""
    ensures forall j :: 0 <= j <= |edits| ==>
      Repeat(Repeat(Edits(InitialState, edits), Undo, |edits|), Redo, j).content == ([""] + edits)[j]
    ensures Repeat(Repeat(Edits(InitialState, edits), Undo, |edits|), Redo, |edits|) == Edits(InitialState, edits)
  {
    var s := Edits(InitialState, edits);
    EditsFromInitial(edits);
    UndosKeepTimeline(s, |edits|);
    var back := Repeat(s, Undo, |edits|);
    assert Timeline(back)[0] == back.content;
    RedosShowEdits(back, edits);
    UndosThenRedos(s, |edits|);
  }

  /** Keeping the newest `n` entries of a sequence already cut to `n` and then
      extended is the same as cutting the whole extended sequence. */
  lemma NewestOfNewest(s: seq<string>, extra: seq<string>, n: nat)
    ensures Newest(Newest(s, n) + extra, n) == Newest(s + extra, n)
  {
    var a := Newest(s, n);
    var l := Newest(a + extra, n);
    var r := Newest(s + extra, n);
    assert |l| == |r|;
    forall i | 0 <= i < |l| ensures l[i] == r[i] {
      var j := |a + extra| - |l| + i;
      var k := |s + extra| - |r| + i;
      assert l[i] == (a + extra)[j];
      assert r[i] == (s + extra)[k];
      if j < |a| {
        assert (a + extra)[j] == s[|s| - |a| + j];
      }
    }
  }

  /** Distinctness of a run of edits carries over to its tail. */
  lemma DistinctTail(current: string, edits: seq<string>)
    requires edits != [] && Distinct(current, edits)
    ensures Distinct(edits[0], edits[1..])
  {
    var rest := edits[1..];
    if rest != [] {
      assert rest[0] == edits[1];
    }
    forall i | 0 < i < |rest|
      ensures rest[i] != rest[i - 1]
    {
      assert rest[i] == edits[i + 1] && rest[i - 1] == edits[i];
    }
  }

  /** One edit with new text on a history within the bound: the history keeps
      the newest entries once the replaced text is pushed. */
  lemma EditKeepsNewest(st: State, text: string)
    requires text != st.content && |st.history| <= MaxHistory
    ensures Reduce(st, UpdateContent(text)) == State(text, Newest(st.history + [st.content], MaxHistory), [])
  {
  }

  /** The history after the first edit and the rest of a run, cut to the bound,
      is the whole replaced sequence cut to the bound. */
  lemma NewestAfterFirstEdit(before: seq<string>, edits: seq<string>)
    requires |edits| >= 2
    ensures Newest(Newest(before, MaxHistory) + [edits[0]] + edits[1..][..|edits| - 2], MaxHistory)
         == Newest(before + edits[..|edits| - 1], MaxHistory)
  {
    var tail := edits[1..][..|edits| - 2];
    NewestOfNewest(before, [edits[0]] + tail, MaxHistory);
    assert edits[..|edits| - 1] == [edits[0]] + tail;
    assert Newest(before, MaxHistory) + [edits[0]] + tail == Newest(before, MaxHistory) + ([edits[0]] + tail);
  }

  /** However many distinct edits are made, the history holds the newest
      MaxHistory texts that were replaced: the oldest are evicted first. */
  lemma {:induction false} EditsKeepNewest(st: State, edits: seq<string>)
    requires edits != [] && Distinct(st.content, edits)
    requires |st.history| <= MaxHistory
    ensures var r := Edits(st, edits);
      && r.content == edits[|edits| - 1]
      && r.redoStack == []
      && r.history == Newest(st.history + [st.content] + edits[..|edits| - 1], MaxHistory)
    decreases |edits|
  {
    var before := st.history + [st.content];
    var next := Reduce(st, UpdateContent(edits[0]));
    EditKeepsNewest(st, edits[0]);
    var rest := edits[1..];
    assert Edits(st, edits) == Edits(next, rest);
    if rest == [] {
      assert before + edits[..|edits| - 1] == before;
    } else {
      DistinctTail(st.content, edits);
      EditsKeepNewest(next, rest);
      NewestAfterFirstEdit(before, edits);
    }
  }

  // ---------------------------------------------------------------------------
  // Handlers and inbound messages

  /** An inbound copy of the current text (an echo) leaves the state as it is. */
  lemma EchoSuppressed(st: State)
    ensures HandleMessage(st, Update(st.content)) == st
    ensures HandleMessage(st, Other) == st
  {
  }

  /** Applying the same inbound message twice is the same as applying it once. */
  lemma MessageIdempotent(st: State, msg: Inbound)
    ensures HandleMessage(HandleMessage(st, msg), msg) == HandleMessage(st, msg)
  {
  }

  /** A remote overwrite is invisible to undo: the next undo restores and sends
      the same entry it would have before the overwrite. */
  lemma RemoteBypassesHistory(st: State, msg: Inbound)
    ensures HandleUndo(HandleMessage(st, msg)).sent == HandleUndo(st).sent
    ensures HandleUndo(HandleMessage(st, msg)).state.history == HandleUndo(st).state.history
  {
  }

  /** After an undo, an edit with new text leaves nothing to redo. */
  lemma NewEditClearsRedo(st: State, text: string)
    requires text != HandleUndo(st).state.content
    ensures HandleInput(HandleUndo(st).state, text).state.redoStack == []
  {
  }

  /** The clipped display is stable: clipping what is shown changes nothing, and
      what precedes the marker is a prefix of the stored content. */
  lemma DisplayStable(content: string)
    ensures DisplayContent(DisplayContent(content)) == DisplayContent(content)
    ensures |content| > DisplayLimit ==> DisplayContent(content)[..DisplayLimit] <= content
  {
    var d := DisplayContent(content);
    if |content| > DisplayLimit {
      assert d[..DisplayLimit] == content[..DisplayLimit];
    }
  }
}
