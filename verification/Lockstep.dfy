/**
 * The generator checks along a parse: with at least the parser's stack size they never fail, on any
 * input, so every parse, also a failing one, delivers the beginning of well-formed values.
 */
module Lockstep {
  import opened Base
  import opened Descent
  import opened Loop
  import E = Events

  /** The generator between values inside the containers stk: a key comes next in an object. */
  function Between(stk: seq<bool>): E.Checker {
    E.Behind(E.Checker(stk, false))
  }

  /** The events of a part of the loop pass the checks, and a parse that ends leaves a fresh generator. */
  ghost predicate Passes(c: E.Checker, o: Outcome, size: nat) {
    var s := E.CheckAll(c, o.evs, size);
    s.Pass? && (o.Ok? ==> s.next == E.FRESH)
  }

  // ----- One event -----

  /** The open containers behind an event. */
  function OpenedBehind(stk: seq<bool>, e: Event): seq<bool> {
    if e.StartArray? || e.StartObject? then stk + [e.StartArray?]
    else if (e.EndArray? || e.EndObject?) && stk != [] then Pop(stk)
    else stk
  }

  lemma OpenedByBracket(stk: seq<bool>, isArray: bool)
    ensures OpenedBehind(stk, StartOf(isArray)) == stk + [isArray]
    ensures stk != [] ==> OpenedBehind(stk, EndOf(isArray)) == Pop(stk)
  {
  }

  /** The generator with the containers stk open: a value comes next, or what stands between values. */
  function Waits(stk: seq<bool>, value: bool): E.Checker {
    if value then E.Checker(stk, false) else Between(stk)
  }

  /** Any event that is taken opens and closes in the generator what it says. */
  lemma FollowsEvent(c: E.Checker, e: Event, size: nat)
    ensures size > 0 && E.CheckEvent(c, e, size).Pass? ==> E.CheckEvent(c, e, size).next.stk == OpenedBehind(c.stk, e)
  {
  }

  /** A key or the end of a container stands between values; behind a key a value comes next. */
  lemma WaitsBehind(stk: seq<bool>, e: Event, size: nat)
    ensures var s := E.CheckEvent(Waits(stk, !e.Key? && !e.EndArray? && !e.EndObject?), e, size);
      size > 0 && s.Pass? ==> s.next == Waits(OpenedBehind(stk, e), e.Key?)
  {
  }

  // ----- A parse -----

  lemma EmitPasses(c: E.Checker, evs: seq<Event>, o: Outcome, c': E.Checker, size: nat)
    requires E.CheckAll(c, evs, size) == E.Pass(c') && Passes(c', o, size)
    ensures Passes(c, Emit(evs, o), size)
  {
    E.CheckConcat(c, evs, o.evs, size);
  }

  lemma {:induction false} HeadPasses(t: bytes, p: nat, stk: seq<bool>, r: Rules, size: nat)
    requires p <= |t| && |stk| <= r.size <= size && size > 0
    ensures Passes(Between(stk), Head(t, p, stk, r), size)
    decreases |t| - p, 1
  {
    if stk != [] && !Top(stk) {
      var k := KeyAt(t, p, r);
      KeyPasses(t, p, stk, r, size);
      if k.Ok? {
        ValuePasses(t, k.pos, stk, r, size);
        EmitPasses(Between(stk), k.evs, Value(t, k.pos, stk, r), E.Checker(stk, false), size);
      }
    } else {
      ValuePasses(t, p, stk, r, size);
    }
  }

  lemma KeyPasses(t: bytes, p: nat, stk: seq<bool>, r: Rules, size: nat)
    requires p <= |t| && stk != [] && !Top(stk) && size > 0
    ensures var k := KeyAt(t, p, r);
      E.CheckAll(Between(stk), k.evs, size).Pass?
      && (k.Ok? ==> E.CheckAll(Between(stk), k.evs, size) == E.Pass(E.Checker(stk, false)))
  {
    var k := KeyAt(t, p, r);
    if k.evs != [] {
      E.CheckOne(Between(stk), k.evs[0], size);
      assert k.evs == [k.evs[0]];
    }
  }

  lemma {:induction false} ValuePasses(t: bytes, p: nat, stk: seq<bool>, r: Rules, size: nat)
    requires p <= |t| && |stk| <= r.size <= size && size > 0
    ensures Passes(E.Checker(stk, false), Value(t, p, stk, r), size)
    decreases |t| - p, 0
  {
    var b := At(t, p);
    var c := E.Checker(stk, false);
    if b == Opener(true) || b == Opener(false) {
      var isArray := b == Opener(true);
      if |stk| < r.size {
        var stk' := stk + [isArray];
        OpenedPasses(t, p + 1, stk', r, size);
        E.CheckOne(c, StartOf(isArray), size);
        EmitPasses(c, [StartOf(isArray)], Opened(t, p + 1, stk', r), Between(stk'), size);
      }
    } else {
      var s := ScalarAt(t, p, r);
      ScalarEvents(t, p, r);
      if s.Ok? {
        E.CheckOne(c, s.evs[0], size);
        AfterPasses(t, s.pos, stk, r, size);
        EmitPasses(c, s.evs, After(t, s.pos, stk, r), Between(stk), size);
      }
    }
  }

  lemma ScalarEvents(t: bytes, p: nat, r: Rules)
    requires p <= |t|
    ensures var s := ScalarAt(t, p, r);
      if s.Err? then s.evs == []
      else s.evs == [s.evs[0]] && (s.evs[0].Null? || s.evs[0].Boolean? || s.evs[0].Integer? || s.evs[0].Real? || s.evs[0].Str?)
  {
  }

  lemma {:induction false} OpenedPasses(t: bytes, p: nat, stk: seq<bool>, r: Rules, size: nat)
    requires p <= |t| && 0 < |stk| <= r.size <= size
    ensures Passes(Between(stk), Opened(t, p, stk, r), size)
    decreases |t| - p, 2
  {
    var s := OpeningEnd(t, p, Top(stk), r);
    if s.Done? {
      if At(t, s.pos) == Closer(Top(stk)) {
        EndPasses(t, s.pos, stk, r, size);
      } else {
        HeadPasses(t, s.pos, stk, r, size);
      }
    }
  }

  lemma {:induction false} AfterPasses(t: bytes, p: nat, stk: seq<bool>, r: Rules, size: nat)
    requires p <= |t| && |stk| <= r.size <= size && size > 0
    ensures Passes(Between(stk), After(t, p, stk, r), size)
    decreases |t| - p, 1
  {
    var s := SeparatorEnd(t, p, r);
    if s.Done? {
      if s.val {
        HeadPasses(t, s.pos, stk, r, size);
      } else if stk != [] && At(t, s.pos) == Closer(Top(stk)) {
        EndPasses(t, s.pos, stk, r, size);
      }
    }
  }

  lemma {:induction false} EndPasses(t: bytes, p: nat, stk: seq<bool>, r: Rules, size: nat)
    requires p < |t| && 0 < |stk| <= r.size <= size
    ensures Passes(Between(stk), Emit([EndOf(Top(stk))], After(t, p + 1, Pop(stk), r)), size)
    decreases |t| - p, 0
  {
    AfterPasses(t, p + 1, Pop(stk), r, size);
    E.CheckOne(Between(stk), EndOf(Top(stk)), size);
    EmitPasses(Between(stk), [EndOf(Top(stk))], After(t, p + 1, Pop(stk), r), Between(Pop(stk)), size);
  }

  /** No check fails on any input, and the events are the beginning of a sequence of well-formed values. */
  lemma {:induction false} SaxPasses(t: bytes, p: nat, r: Rules, multiple: bool, trailing: bool, size: nat)
    requires p <= |t| && !r.pull && r.size <= size && size > 0
    ensures E.CheckAll(E.FRESH, SaxAt(t, p, r, multiple, trailing).evs, size).Pass?
    ensures exists f ::
      (E.Keyed(f, false) && E.ForestDepth(f) <= size && SaxAt(t, p, r, multiple, trailing).evs <= E.ForestEvents(f))
    decreases |t| - p
  {
    var w := Space(t, p, r);
    var o := GenerateAt(t, p, r);
    if w.Done? {
      HeadPasses(t, w.pos, [], r, size);
      LoopIsDescent(t, w.pos, r);
    }
    if o.Ok? && o.pos < |t| && multiple {
      SaxPasses(t, o.pos, r, multiple, trailing, size);
      E.CheckConcat(E.FRESH, o.evs, SaxAt(t, o.pos, r, multiple, trailing).evs, size);
    }
    E.PassIffPrefix(SaxAt(t, p, r, multiple, trailing).evs, size);
  }

  /** With any stack the checks fail exactly when the parse delivers more open containers than the stack holds. */
  lemma SaxPassesIff(t: bytes, p: nat, r: Rules, multiple: bool, trailing: bool, size: nat)
    requires p <= |t| && !r.pull && size > 0
    ensures var evs := SaxAt(t, p, r, multiple, trailing).evs;
      E.CheckAll(E.FRESH, evs, size).Pass? <==> E.Height(0, evs) <= size
  {
    hide SaxAt, E.CheckAll;
    var large := if r.size > size then r.size else size;
    SaxPasses(t, p, r, multiple, trailing, large);
    E.PassesIffLow(E.FRESH, SaxAt(t, p, r, multiple, trailing).evs, size, large);
  }
}
