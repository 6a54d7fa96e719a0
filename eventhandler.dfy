/**
 * EventHandler.js: the registry of (type, target, useCapture) listener
 * records of one handler, the counter shared by all handlers
 * (`EventHandler.numListeners`), and the filter `handleEvent` applies before
 * calling the handler named by the event type. Attaching to and detaching
 * from DOM targets is not modelled; the clock is a parameter.
 */
module EventHandlers {
  import opened Seqs

  /** One listener record. `T` stands for the DOM targets, compared by identity. */
  datatype Listener<T> = Listener(eventType: string, target: T, useCapture: bool)

  /** The static counter `EventHandler.numListeners`, shared by every handler. */
  class ListenerCounter {
    var numListeners: int

    constructor ()
      ensures numListeners == 0
    {
      numListeners := 0;
    }
  }

  /** The listener list after `registerListener`: appended only when absent. */
  function Registered<T(==)>(ls: seq<Listener<T>>, l: Listener<T>): (r: seq<Listener<T>>)
    ensures l in r
    ensures l in ls ==> r == ls
    ensures l !in ls ==> r == ls + [l]
    ensures NoDup(ls) ==> NoDup(r)
  {
    if l in ls then ls else ls + [l]
  }

  /** The listener list after `unregisterListener`: the matching record removed, if any. */
  function Unregistered<T(==)>(ls: seq<Listener<T>>, l: Listener<T>): (r: seq<Listener<T>>)
    ensures l !in ls ==> r == ls
    ensures l in ls ==> |r| == |ls| - 1
    ensures NoDup(ls) ==> NoDup(r) && l !in r
    ensures forall m :: m in r ==> m in ls
    ensures NoDup(ls) ==> forall m :: m in ls ==> (m in r <==> m != l)
  {
    if l in ls then
      NoDupSplice(ls, IndexOf(ls, l));
      RemoveAt(ls, IndexOf(ls, l))
    else ls
  }

  /** Helper: removal at an index keeps a duplicate-free list duplicate-free. */
  lemma NoDupSplice<T>(ls: seq<T>, i: nat)
    requires i < |ls|
    ensures NoDup(ls) ==> NoDup(RemoveAt(ls, i)) && ls[i] !in RemoveAt(ls, i)
    ensures NoDup(ls) ==> forall m :: m in RemoveAt(ls, i) <==> m in ls && m != ls[i]
  {
    if NoDup(ls) {
      NoDupRemoveAt(ls, i);
    }
  }

  /** Registering a fresh triple and then unregistering it restores the list. */
  lemma RegisterThenUnregister<T>(ls: seq<Listener<T>>, l: Listener<T>)
    requires l !in ls
    ensures Unregistered(Registered(ls, l), l) == ls
  {
    WithoutAppended(ls, l);
  }

  /** Unregistering is undone by registering again, up to the position of the record. */
  lemma UnregisterThenRegister<T>(ls: seq<Listener<T>>, l: Listener<T>)
    requires NoDup(ls) && l in ls
    ensures multiset(Registered(Unregistered(ls, l), l)) == multiset(ls)
  {
    var i := IndexOf(ls, l);
    var r := RemoveAt(ls, i);
    NoDupRemoveAt(ls, i);
    assert Unregistered(ls, l) == r;
    assert Registered(r, l) == r + [l];
    assert ls == ls[..i] + [l] + ls[i + 1..];
    assert multiset(ls) == multiset(ls[..i]) + multiset{l} + multiset(ls[i + 1..]);
  }

  /** The event fields `handleEvent` looks at. */
  datatype Event = Event(
    eventType: string,
    ctrlKey: bool,
    metaKey: bool,
    detail: int,
    /** `relatedTarget` is the current target itself or one of its children. */
    relatedIsSelfOrChild: bool)

  class EventHandler<T(==)> {
    var lastMouseMove: int
    var listeners: seq<Listener<T>>
    /** The counter shared with the other handlers. */
    const counter: ListenerCounter
    /** `Alberti.refreshms`, the minimum time between two processed mousemoves. */
    const refreshMs: int

    ghost predicate Valid()
      reads this
    {
      NoDup(listeners)
    }

    constructor (now: int, counter: ListenerCounter, refreshMs: int)
      ensures Valid()
      ensures lastMouseMove == now && listeners == []
      ensures this.counter == counter && this.refreshMs == refreshMs
    {
      lastMouseMove := now;
      listeners := [];
      this.counter := counter;
      this.refreshMs := refreshMs;
    }

    /** `getListenerIndex`: the first index of a record equal to the triple, or -1. */
    method GetListenerIndex(eventType: string, target: T, useCapture: bool) returns (index: int)
      ensures index == IndexOf(listeners, Listener(eventType, target, useCapture))
      ensures index == -1 <==> Listener(eventType, target, useCapture) !in listeners
      ensures 0 <= index ==> listeners[index] == Listener(eventType, target, useCapture)
    {
      var l := Listener(eventType, target, useCapture);
      var i := 0;
      while i < |listeners|
        invariant 0 <= i <= |listeners|
        invariant l !in listeners[..i]
      {
        var rec := listeners[i];
        if eventType == rec.eventType && target == rec.target && useCapture == rec.useCapture {
          assert listeners[..i + 1] == listeners[..i] + [l];
          IndexOfFirstMatch(listeners, l, i);
          return i;
        }
        assert listeners[..i + 1] == listeners[..i] + [rec];
        i := i + 1;
      }
      assert listeners[..i] == listeners;
      return -1;
    }

    /** `registerListener`: adds the record and counts it only when the triple is absent. */
    method RegisterListener(eventType: string, target: T, useCapture: bool)
      requires Valid()
      modifies this`listeners, counter
      ensures Valid()
      ensures listeners == Registered(old(listeners), Listener(eventType, target, useCapture))
      ensures counter.numListeners == old(counter.numListeners) + |listeners| - |old(listeners)|
    {
      var index := GetListenerIndex(eventType, target, useCapture);
      if index == -1 {
        counter.numListeners := counter.numListeners + 1;
        listeners := listeners + [Listener(eventType, target, useCapture)];
      }
    }

    /** `unregisterListener`: removes the record and uncounts it when present; otherwise a no-op. */
    method UnregisterListener(eventType: string, target: T, useCapture: bool)
      requires Valid()
      modifies this`listeners, counter
      ensures Valid()
      ensures listeners == Unregistered(old(listeners), Listener(eventType, target, useCapture))
      ensures counter.numListeners == old(counter.numListeners) - (|old(listeners)| - |listeners|)
    {
      var index := GetListenerIndex(eventType, target, useCapture);
      if index > -1 {
        counter.numListeners := counter.numListeners - 1;
        listeners := SpliceOut(listeners, index);
      }
    }

    /** `killAllListeners`: the counter loses one per record and the list is emptied. */
    method KillAllListeners()
      requires Valid()
      modifies this`listeners, counter
      ensures Valid()
      ensures listeners == []
      ensures counter.numListeners == old(counter.numListeners) - |old(listeners)|
    {
      var i := 0;
      while i < |listeners|
        invariant 0 <= i <= |listeners|
        invariant listeners == old(listeners)
        invariant counter.numListeners == old(counter.numListeners) - i
      {
        counter.numListeners := counter.numListeners - 1;
        i := i + 1;
      }
      listeners := [];
    }

    /**
     * `handleEvent`: whether the handler named by the event type is called.
     * Mousemoves closer than `refreshMs` to the last processed one, mouseovers
     * and mouseouts whose related target is the target or inside it, keydowns
     * with control or meta, and clicks with detail 0 are dropped. A processed
     * mousemove records `now`.
     */
    method HandleEvent(evt: Event, now: int) returns (dispatched: bool)
      modifies this`lastMouseMove
      ensures evt.eventType == "mousemove" ==>
        (dispatched <==> now - old(lastMouseMove) >= refreshMs)
      ensures (evt.eventType == "mouseover" || evt.eventType == "mouseout") ==>
        (dispatched <==> !evt.relatedIsSelfOrChild)
      ensures evt.eventType == "keydown" ==> (dispatched <==> !evt.ctrlKey && !evt.metaKey)
      ensures evt.eventType == "click" ==> (dispatched <==> evt.detail != 0)
      ensures evt.eventType !in {"mousemove", "mouseover", "mouseout", "keydown", "click"} ==> dispatched
      ensures lastMouseMove == if evt.eventType == "mousemove" && dispatched then now else old(lastMouseMove)
    {
      dispatched := true;
      if evt.eventType == "mousemove" {
        if now - lastMouseMove < refreshMs {
          dispatched := false;
        } else {
          lastMouseMove := now;
        }
      } else if evt.eventType == "mouseover" || evt.eventType == "mouseout" {
        if evt.relatedIsSelfOrChild {
          dispatched := false;
        }
      } else if evt.eventType == "keydown" {
        if evt.ctrlKey || evt.metaKey {
          dispatched := false;
        }
      } else if evt.eventType == "click" {
        if evt.detail == 0 {
          dispatched := false;
        }
      }
    }
  }
}
