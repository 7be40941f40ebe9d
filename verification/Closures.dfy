/**
 The life of a heap-allocated closure context handed to C: calls through the context, then one drop, which
 runs the user's `on_drop` and frees the context.
 */
module Closures {

  /** What C does with a context it was given. */
  datatype Use = CallContext | DeleteContext

  datatype Event = Created | Called | Dropped | Freed

  class Context {
    var inUse: bool
    ghost var log: seq<Event>

    /** `into_context`. */
    constructor ()
      ensures inUse && log == [Created]
    {
      inUse, log := true, [Created];
    }

    /** `call_from_context`; the context is dereferenced. */
    method Call()
      requires inUse
      modifies this
      ensures inUse && log == old(log) + [Called]
    {
      log := log + [Called];
    }

    /** `delete_from_context`: `drop()`, then `delete`. */
    method DeleteFromContext()
      requires inUse
      modifies this
      ensures !inUse && log == old(log) + [Dropped, Freed]
    {
      log := log + [Dropped];
      inUse, log := false, log + [Freed];
    }

    /** A C-side schedule: any number of calls followed by one drop. */
    method Follow(schedule: seq<Use>)
      requires inUse && CallsThenDrop(schedule)
      modifies this
      ensures !inUse && log == old(log) + Trace(schedule)
      decreases |schedule|
    {
      var i := 0;
      while i < |schedule|
        invariant 0 <= i <= |schedule|
        invariant inUse == (i < |schedule|)
        invariant inUse ==> CallsThenDrop(schedule[i..])
        invariant log + Trace(schedule[i..]) == old(log) + Trace(schedule)
      {
        assert schedule[i..][0] == schedule[i] && schedule[i..][1..] == schedule[i + 1..];
        match schedule[i] {
          case CallContext => Call();
          case DeleteContext => DeleteFromContext();
        }
        assert log + Trace(schedule[i + 1..]) == old(log) + Trace(schedule);
        i := i + 1;
      }
      assert schedule[i..] == [] && log + [] == log;
    }
  }

  function Trace(schedule: seq<Use>): seq<Event> {
    if schedule == [] then []
    else (if schedule[0].CallContext? then [Called] else [Dropped, Freed]) + Trace(schedule[1..])
  }

  predicate CallsThenDrop(schedule: seq<Use>) {
    && schedule != [] && schedule[|schedule| - 1] == DeleteContext
    && forall i | 0 <= i < |schedule| - 1 :: schedule[i] == CallContext
  }

  /** The context is dereferenced only while in use, and does not leak. */
  predicate Sound(inUse: bool, schedule: seq<Use>)
    decreases |schedule|
  {
    if schedule == [] then !inUse
    else inUse && Sound(schedule[0].CallContext?, schedule[1..])
  }

  /** Exactly the schedules of calls followed by one drop use the context soundly. */
  lemma {:induction false} SoundExactly(schedule: seq<Use>)
    ensures Sound(true, schedule) <==> CallsThenDrop(schedule)
    decreases |schedule|
  {
    if schedule != [] {
      if schedule[0].CallContext? {
        SoundExactly(schedule[1..]);
        assert CallsThenDrop(schedule) <==> CallsThenDrop(schedule[1..]) by {
          if CallsThenDrop(schedule[1..]) {
            forall i | 0 <= i < |schedule| - 1 ensures schedule[i] == CallContext {
              if i > 0 { assert schedule[1..][i - 1] == CallContext; }
            }
          }
        }
      } else {
        assert CallsThenDrop(schedule) <==> |schedule| == 1;
      }
    }
  }

  /** On such a schedule `on_drop` runs once, after the last call and right before the context is freed. */
  lemma {:induction false} DropOnceAfterCalls(schedule: seq<Use>)
    requires CallsThenDrop(schedule)
    ensures Trace(schedule) == seq(|schedule| - 1, _ => Called) + [Dropped, Freed]
    decreases |schedule|
  {
    if |schedule| > 1 {
      DropOnceAfterCalls(schedule[1..]);
      assert [Called] + seq(|schedule| - 2, _ => Called) == seq(|schedule| - 1, _ => Called);
    } else {
      assert schedule[1..] == [];
    }
  }
}
