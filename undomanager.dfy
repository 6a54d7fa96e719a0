/**
 * UndoManager.js: a bounded undo stack, a redo stack, a buffer that groups
 * several actions into one undo step, and an enable flag.
 *
 * An action carries a name, a redo token and an optional undo token; the
 * tokens stand for the bound JavaScript closures. `Undo` and `Redo` return
 * the tokens they would run, in the order they would run them.
 */
module Undo {
  import opened Wrappers

  datatype Action<T> = Action(name: string, redo: T, undo: Option<T>)

  /** One undo step: a single pushed action, or a whole recorded buffer. */
  type Entry<T> = seq<Action<T>>

  /** The whole state of an UndoManager. */
  datatype History<T> = History(
    undoStack: seq<Entry<T>>,
    redoStack: seq<Entry<T>>,
    actionBuffer: Option<Entry<T>>,
    enabled: bool)

  /** Push onto the undo stack, dropping the bottom entry when it grows past `maxActions`. */
  function Bounded<T>(stack: seq<Entry<T>>, e: Entry<T>, maxActions: int): (r: seq<Entry<T>>)
    ensures |stack| <= |r| <= |stack| + 1 && r == (stack + [e])[|stack| + 1 - |r|..]
    ensures |r| == |stack| <==> |stack| >= maxActions
    ensures 1 <= maxActions && |stack| <= maxActions ==> 0 < |r| <= maxActions && r[|r| - 1] == e
  {
    var s := stack + [e];
    if |s| > maxActions then s[1..] else s
  }

  /** The undo token of one action, if it has one. */
  function UndoToken<T>(a: Action<T>): seq<T>
  {
    if a.undo.Some? then [a.undo.value] else []
  }

  /** The undo tokens of an entry, last action first, skipping actions without one. */
  function UndoTokens<T>(e: Entry<T>): seq<T>
  {
    if |e| == 0 then []
    else
      UndoToken(e[|e| - 1]) + UndoTokens(e[..|e| - 1])
  }

  /** The redo tokens of an entry, first action first. */
  function RedoTokens<T>(e: Entry<T>): seq<T>
  {
    if |e| == 0 then [] else [e[0].redo] + RedoTokens(e[1..])
  }

  /** `push`. */
  function PushSpec<T>(h: History<T>, maxActions: int, a: Action<T>): History<T>
  {
    if !h.enabled then h
    else if h.actionBuffer.Some? then
      h.(actionBuffer := Some(h.actionBuffer.value + [a]), redoStack := [])
    else
      h.(undoStack := Bounded(h.undoStack, [a], maxActions), redoStack := [])
  }

  /** `recordStart`: opens an empty buffer; throws when one is already open. */
  function RecordStartSpec<T>(h: History<T>): Result<History<T>, string>
  {
    if h.actionBuffer.None? then Ok(h.(actionBuffer := Some([])))
    else Err("UndoManager::recordStart was invoked while already recording actions.")
  }

  /** `recordStop`: pushes a non-empty buffer as one entry and closes the buffer. */
  function RecordStopSpec<T>(h: History<T>, maxActions: int): History<T>
  {
    if h.actionBuffer.Some? && |h.actionBuffer.value| > 0 then
      h.(undoStack := Bounded(h.undoStack, h.actionBuffer.value, maxActions), actionBuffer := None)
    else
      h.(actionBuffer := None)
  }

  /** `undo`: moves the top undo entry to the redo stack; always ends enabled. */
  function UndoSpec<T>(h: History<T>): History<T>
  {
    if |h.undoStack| > 0 then
      var e := h.undoStack[|h.undoStack| - 1];
      h.(undoStack := h.undoStack[..|h.undoStack| - 1], redoStack := h.redoStack + [e], enabled := true)
    else
      h.(enabled := true)
  }

  /** `redo`: moves the top redo entry to the undo stack, without the bound; always ends enabled. */
  function RedoSpec<T>(h: History<T>): History<T>
  {
    if |h.redoStack| > 0 then
      var e := h.redoStack[|h.redoStack| - 1];
      h.(redoStack := h.redoStack[..|h.redoStack| - 1], undoStack := h.undoStack + [e], enabled := true)
    else
      h.(enabled := true)
  }

  /** The first action's undo token comes last. */
  lemma {:induction false} UndoTokensFront<T>(e: Entry<T>)
    requires |e| > 0
    ensures UndoTokens(e) == UndoTokens(e[1..]) + UndoToken(e[0])
    decreases |e|
  {
    var n := |e|;
    if n > 1 {
      var init := e[..n - 1];
      UndoTokensFront(init);
      assert e[1..][..n - 2] == init[1..];
      assert init[0] == e[0];
    }
  }

  /** The loop of `undo` over one entry: its undo tokens, last action first. */
  method RunUndoTokens<T>(action: Entry<T>) returns (executed: seq<T>)
    ensures executed == UndoTokens(action)
  {
    executed := [];
    var i := |action| - 1;
    while i >= 0
      invariant -1 <= i < |action|
      invariant executed == UndoTokens(action[i + 1..])
    {
      UndoTokensFront(action[i..]);
      assert action[i..][1..] == action[i + 1..];
      executed := executed + UndoToken(action[i]);
      i := i - 1;
    }
    assert action[0..] == action;
  }

  /** The loop of `redo` over one entry: its redo tokens, first action first. */
  method RunRedoTokens<T>(action: Entry<T>) returns (executed: seq<T>)
    ensures executed == RedoTokens(action)
  {
    executed := [];
    var i := 0;
    while i < |action|
      invariant 0 <= i <= |action|
      invariant executed + RedoTokens(action[i..]) == RedoTokens(action)
    {
      assert action[i..][1..] == action[i + 1..];
      executed := executed + [action[i].redo];
      i := i + 1;
    }
  }

  class UndoManager<T> {
    var undoStack: seq<Entry<T>>
    var redoStack: seq<Entry<T>>
    var actionBuffer: Option<Entry<T>>
    var enabled: bool
    const maxActions: int

    function State(): History<T>
      reads this
    {
      History(undoStack, redoStack, actionBuffer, enabled)
    }

    /** A new manager is disabled, with both stacks empty and no buffer. */
    constructor (maxActions: int)
      ensures State() == History([], [], None, false)
      ensures this.maxActions == maxActions
    {
      undoStack, redoStack := [], [];
      actionBuffer := None;
      enabled := false;
      this.maxActions := maxActions;
    }

    method Push(name: string, redo: T, undo: Option<T>)
      modifies this
      ensures State() == PushSpec(old(State()), maxActions, Action(name, redo, undo))
    {
      if enabled {
        var action := Action(name, redo, undo);
        if actionBuffer.Some? {
          actionBuffer := Some(actionBuffer.value + [action]);
        } else {
          undoStack := undoStack + [[action]];
          if |undoStack| > maxActions {
            undoStack := undoStack[1..];
          }
        }
        redoStack := [];
      }
    }

    method Enable()
      modifies this
      ensures State() == old(State()).(enabled := true)
    {
      enabled := true;
    }

    method Disable()
      modifies this
      ensures State() == old(State()).(enabled := false)
    {
      enabled := false;
    }

    /** `getStackSize`: the number of entries on the undo stack. */
    method GetStackSize() returns (n: int)
      ensures n == |undoStack|
    {
      n := |undoStack|;
    }

    /** `clearStack`: empties both stacks; the buffer and the flag stay. */
    method ClearStack()
      modifies this
      ensures State() == old(State()).(undoStack := [], redoStack := [])
    {
      undoStack := [];
      redoStack := [];
    }

    method RecordStart() returns (r: Result<(), string>)
      modifies this
      ensures r.Ok? <==> old(actionBuffer).None?
      ensures RecordStartSpec(old(State())).Ok? ==> State() == RecordStartSpec(old(State())).value
      ensures r.Err? ==> State() == old(State())
    {
      if actionBuffer.None? {
        actionBuffer := Some([]);
        r := Ok(());
      } else {
        r := Err("UndoManager::recordStart was invoked while already recording actions.");
      }
    }

    method RecordStop()
      modifies this
      ensures State() == RecordStopSpec(old(State()), maxActions)
    {
      if actionBuffer.Some? && |actionBuffer.value| > 0 {
        undoStack := undoStack + [actionBuffer.value];
        if |undoStack| > maxActions {
          undoStack := undoStack[1..];
        }
      }
      actionBuffer := None;
    }

    /**
     * `undo`: runs the top entry's undo tokens, last action first and
     * skipping actions without one, then moves the entry to the redo stack.
     */
    method Undo() returns (executed: seq<T>)
      modifies this
      ensures State() == UndoSpec(old(State()))
      ensures executed == if |old(undoStack)| > 0 then UndoTokens(old(undoStack)[|old(undoStack)| - 1]) else []
    {
      enabled := false;
      executed := [];
      if |undoStack| > 0 {
        var action := undoStack[|undoStack| - 1];
        undoStack := undoStack[..|undoStack| - 1];
        executed := RunUndoTokens(action);
        redoStack := redoStack + [action];
      }
      enabled := true;
    }

    /**
     * `redo`: runs the top redo entry's redo tokens, first action first, then
     * moves the entry back to the undo stack.
     */
    method Redo() returns (executed: seq<T>)
      modifies this
      ensures State() == RedoSpec(old(State()))
      ensures executed == if |old(redoStack)| > 0 then RedoTokens(old(redoStack)[|old(redoStack)| - 1]) else []
    {
      enabled := false;
      executed := [];
      if |redoStack| > 0 {
        var action := redoStack[|redoStack| - 1];
        redoStack := redoStack[..|redoStack| - 1];
        executed := RunRedoTokens(action);
        undoStack := undoStack + [action];
      }
      enabled := true;
    }
  }

  // ---------------------------------------------------------------------
  // Properties of the history transitions

  /** While disabled, `push` changes nothing. */
  lemma PushDisabledIsNoop<T>(h: History<T>, maxActions: int, a: Action<T>)
    requires !h.enabled
    ensures PushSpec(h, maxActions, a) == h
  {
  }

  /** An enabled push empties the redo stack. */
  lemma PushClearsRedo<T>(h: History<T>, maxActions: int, a: Action<T>)
    requires h.enabled
    ensures PushSpec(h, maxActions, a).redoStack == []
  {
  }

  /**
   * Outside recording, an enabled push appends one entry on top and drops
   * the bottom one only when the stack would exceed `maxActions`.
   */
  lemma PushAppends<T>(h: History<T>, maxActions: int, a: Action<T>)
    requires h.enabled && h.actionBuffer.None? && 0 <= maxActions
    ensures var h' := PushSpec(h, maxActions, a);
      |h'.undoStack| == (if |h.undoStack| + 1 > maxActions then |h.undoStack| else |h.undoStack| + 1) &&
      (maxActions > 0 ==> h'.undoStack[|h'.undoStack| - 1] == [a]) &&
      h'.actionBuffer == None
  {
  }

  /** During recording, a push extends the buffer and leaves the undo stack alone. */
  lemma PushWhileRecording<T>(h: History<T>, maxActions: int, a: Action<T>)
    requires h.enabled && h.actionBuffer.Some?
    ensures var h' := PushSpec(h, maxActions, a);
      h'.undoStack == h.undoStack && h'.actionBuffer == Some(h.actionBuffer.value + [a])
  {
  }

  /** The undo stack never grows past `maxActions` through push or recordStop. */
  lemma BoundKept<T>(h: History<T>, maxActions: int, a: Action<T>)
    requires 0 <= maxActions && |h.undoStack| <= maxActions
    ensures |PushSpec(h, maxActions, a).undoStack| <= maxActions
    ensures |RecordStopSpec(h, maxActions).undoStack| <= maxActions
    ensures |UndoSpec(h).undoStack| <= maxActions
  {
  }

  /** recordStart on an open buffer fails. */
  lemma RecordStartTwiceFails<T>(h: History<T>)
    requires RecordStartSpec(h).Ok?
    ensures RecordStartSpec(RecordStartSpec(h).value).Err?
  {
  }

  /** recordStop pushes the buffer as one entry exactly when it is non-empty, and always closes it. */
  lemma RecordStopPushesNonEmpty<T>(h: History<T>, maxActions: int)
    requires 0 < maxActions
    ensures var h' := RecordStopSpec(h, maxActions);
      h'.actionBuffer.None? &&
      (h.actionBuffer.Some? && h.actionBuffer.value != [] ==> h'.undoStack[|h'.undoStack| - 1] == h.actionBuffer.value) &&
      (h.actionBuffer.None? || h.actionBuffer.value == [] ==> h'.undoStack == h.undoStack)
  {
  }

  /** A recorded group becomes a single undo step that undoes its actions in reverse. */
  lemma {:induction false} UndoTokensReverse<T>(e: Entry<T>)
    requires forall i :: 0 <= i < |e| ==> e[i].undo.Some?
    ensures |UndoTokens(e)| == |e|
    ensures forall i :: 0 <= i < |e| ==> UndoTokens(e)[i] == e[|e| - 1 - i].undo.value
  {
    if |e| > 0 {
      var init := e[..|e| - 1];
      UndoTokensReverse(init);
      forall i | 0 <= i < |e| ensures UndoTokens(e)[i] == e[|e| - 1 - i].undo.value {
        if i > 0 { assert UndoTokens(e)[i] == UndoTokens(init)[i - 1]; }
      }
    }
  }

  /** Redo runs every action's redo token, in order. */
  lemma {:induction false} RedoTokensInOrder<T>(e: Entry<T>)
    ensures |RedoTokens(e)| == |e|
    ensures forall i :: 0 <= i < |e| ==> RedoTokens(e)[i] == e[i].redo
  {
    if |e| > 0 {
      RedoTokensInOrder(e[1..]);
    }
  }

  /** undo moves one entry from the undo stack to the redo stack; on an empty stack nothing moves. */
  lemma UndoMovesOneEntry<T>(h: History<T>)
    ensures var h' := UndoSpec(h);
      h'.enabled &&
      (|h.undoStack| > 0 ==> |h'.undoStack| == |h.undoStack| - 1 && |h'.redoStack| == |h.redoStack| + 1) &&
      (|h.undoStack| == 0 ==> h'.undoStack == h.undoStack && h'.redoStack == h.redoStack)
  {
  }

  /** redo moves one entry from the redo stack to the undo stack; on an empty stack nothing moves. */
  lemma RedoMovesOneEntry<T>(h: History<T>)
    ensures var h' := RedoSpec(h);
      h'.enabled &&
      (|h.redoStack| > 0 ==> |h'.redoStack| == |h.redoStack| - 1 && |h'.undoStack| == |h.undoStack| + 1) &&
      (|h.redoStack| == 0 ==> h'.undoStack == h.undoStack && h'.redoStack == h.redoStack)
  {
  }

  /** redo after undo restores both stacks (and leaves the manager enabled). */
  lemma RedoAfterUndo<T>(h: History<T>)
    requires |h.undoStack| > 0
    ensures RedoSpec(UndoSpec(h)) == h.(enabled := true)
  {
  }

  /** undo re-enables a manager that was disabled before it ran. */
  lemma UndoEnablesDisabled<T>(h: History<T>, maxActions: int, a: Action<T>)
    requires !h.enabled && h.actionBuffer.None? && h.undoStack == [] && 0 < maxActions
    ensures PushSpec(h, maxActions, a) == h
    ensures PushSpec(UndoSpec(h), maxActions, a).undoStack == [[a]]
  {
  }

  /**
   * redo does not apply the bound: an undo while a buffer is being recorded,
   * then recordStop, then redo leave two entries on a stack bounded by one.
   */
  lemma RedoCanExceedBound(a: Action<int>, b: Action<int>)
    ensures var h0 := History([], [], None, true);
      var h1 := PushSpec(h0, 1, a);
      var h2 := RecordStartSpec(h1).value;
      var h3 := PushSpec(h2, 1, b);
      var h4 := UndoSpec(h3);
      var h5 := RecordStopSpec(h4, 1);
      var h6 := RedoSpec(h5);
      |h6.undoStack| == 2
  {
  }
}
