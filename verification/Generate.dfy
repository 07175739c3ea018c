/**
 * The generator: it checks the order of the events it is given and delivers them, here by recording
 * them. A stack of size 0 means that nothing is checked. The stack may have less memory than its size asks for.
 */
module Generate {
  import opened Base
  import opened Stack
  import opened Delivery
  import E = Events

  class Generator {
    const stack: BitStack
    var keyNext: bool
    var error: Option<ErrorCode>
    var events: seq<Event>

    constructor (size: nat)
      requires size <= WRAP
      ensures Valid() && fresh(stack) && fresh(stack.data)
      ensures Checker() == E.FRESH && events == [] && error.None? && stack.size == size
    {
      stack := new BitStack(size, GeneratorBytes(size));
      keyNext := false;
      error := None;
      events := [];
    }

    ghost predicate Valid()
      reads this, stack
    {
      stack.Valid() && stack.size <= WRAP && stack.data.Length == GeneratorBytes(stack.size)
    }

    /** The state of the checks. */
    ghost function Checker(): E.Checker
      requires Valid()
      reads this, stack, stack.data
    {
      E.Checker(stack.Contents(), keyNext)
    }

    /** The call did what the check says, and noted the error if there is one. */
    twostate predicate Did(s: E.Check, ok: bool)
      requires Valid()
      reads this, stack, stack.data
    {
      && ok == s.Pass? && Checker() == s.next
      && error == if s.Pass? then old(error) else Some(s.code)
    }

    /** All there is to know of the generator. */
    ghost function State(): Log
      requires Valid()
      reads this, stack, stack.data
    {
      Log(Checker(), error, events)
    }

    /** The pushes of the events write inside the memory. */
    ghost predicate HasRoom(evs: seq<Event>)
      requires Valid()
      reads this, stack, stack.data
    {
      Room(Checker(), evs, stack.size)
    }

    method CanValue() returns (ok: bool)
      requires Valid()
      modifies this`keyNext, this`error
      ensures Valid() && (stack.size > 0 ==> Did(E.CanValue(old(Checker())), ok))
      ensures stack.size == 0 ==> ok && keyNext == old(keyNext) && error == old(error)
    {
      if stack.size > 0 {
        var top := stack.Peek();
        if top == Frame.InObject {
          if keyNext {
            error := Some(ExpectedKey);
            return false;
          } else {
            keyNext := true;
          }
        }
      }
      ok := true;
    }

    method CanKey() returns (ok: bool)
      requires Valid()
      modifies this`keyNext, this`error
      ensures Valid() && (stack.size > 0 ==> Did(E.CanKey(old(Checker())), ok))
      ensures stack.size == 0 ==> ok && !keyNext && error == old(error)
    {
      if stack.size > 0 && !keyNext {
        error := Some(ExpectedValue);
        return false;
      }
      keyNext := false;
      ok := true;
    }

    method CanPush(isArray: bool) returns (ok: bool)
      requires Valid() && (stack.size > 0 && E.CanPush(Checker(), isArray, stack.size).Pass? ==> stack.Writable())
      modifies this`keyNext, this`error, stack, stack.data
      ensures Valid() && (stack.size > 0 ==> Did(E.CanPush(old(Checker()), isArray, stack.size), ok))
      ensures stack.size == 0 ==> ok && keyNext == old(keyNext) && error == old(error)
    {
      ok := CanValue();
      if !ok {
        return;
      }
      if stack.size > 0 {
        ok := stack.Push(isArray);
        if !ok {
          error := Some(StackOverflow);
          return;
        }
        keyNext := !isArray;
      }
    }

    method CanPop(isArray: bool) returns (ok: bool)
      requires Valid()
      modifies this`keyNext, this`error, stack
      ensures Valid() && (stack.size > 0 ==> Did(E.CanPop(old(Checker()), isArray), ok))
      ensures stack.size == 0 ==> ok && keyNext == old(keyNext) && error == old(error)
    {
      hide BitStack.Contents;
      if stack.size > 0 {
        var top := stack.Peek();
        if top == Underflow {
          error := Some(StackUnderflow);
          return false;
        } else if top != FrameOf(isArray) {
          error := Some(if isArray then NoArray else NoObject);
          return false;
        } else if !isArray && !keyNext {
          error := Some(ExpectedValue);
          return false;
        }
        var _ := stack.Pop();
        top := stack.Peek();
        keyNext := top == Frame.InObject;
      }
      ok := true;
    }

    /** The checks of one event and, when they pass, its delivery. */
    method Deliver(e: Event) returns (ok: bool)
      requires Valid() && HasRoom([e])
      modifies this, stack, stack.data
      ensures Valid() && Did(E.CheckEvent(old(Checker()), e, stack.size), ok)
      ensures events == if ok then old(events) + [e] else old(events)
      ensures State() == Give(old(State()), [e], stack.size) && ok == Takes(old(State()), [e], stack.size)
    {
      ghost var before := events;
      GiveOne(State(), e, stack.size);
      ok := Check(e);
      assert events == before;
      if ok {
        events := events + [e];
      }
    }

    method Check(e: Event) returns (ok: bool)
      requires Valid() && Inside(Checker(), e, stack.size)
      modifies this`keyNext, this`error, stack, stack.data
      ensures Valid() && Did(E.CheckEvent(old(Checker()), e, stack.size), ok)
    {
      hide BitStack.Contents, E.CanValue, E.CanKey, E.CanPush, E.CanPop;
      if stack.ptr < stack.size {
        GeneratorWritesInsideIff(stack.size, stack.ptr);
      }
      match e
      case Key(_) => ok := CanKey();
      case StartArray => ok := CanPush(true);
      case StartObject => ok := CanPush(false);
      case EndArray => ok := CanPop(true);
      case EndObject => ok := CanPop(false);
      case _ => ok := CanValue();
    }
  }
}
