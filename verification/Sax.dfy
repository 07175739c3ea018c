/**
 * The SAX parse: the flattened loop over the parser's own stack, delivering to a generator. The methods
 * are proved against the function Loop.Head, and with it against the recursive descent.
 */
module Sax {
  import opened Base
  import opened Text
  import opened Stack
  import opened Descent
  import opened Loop
  import opened Input
  import opened Parser
  import opened NumberParser
  import Number
  import opened Generate
  import opened Delivery
  import E = Events
  import L = Lockstep

  /** The cursor stands where the outcome says, and the error is the one it says. */
  ghost predicate Reached(o: Outcome, err: Option<ErrorCode>, pos: nat) {
    pos == o.pos && err == if o.Ok? then None else Some(o.code)
  }

  /** A value that is no container: the switch on its first byte. A string lies in the buffer at off. */
  method ReadScalar(mis: InputStream, rules: Rules)
    returns (err: Option<ErrorCode>, e: Event, off: nat, len: nat)
    requires mis.Valid() && mis.read <= mis.count
    modifies mis, mis.buf
    ensures mis.Valid() && Reached(ScalarAt(mis.text, old(mis.read), rules), err, mis.read)
    ensures ScalarAt(mis.text, old(mis.read), rules).evs == if err.None? then [e] else []
    ensures err.None? ==> off + len <= mis.read <= mis.count && !e.Key?
    ensures err.None? && e.Str? ==> mis.buf[off..off + len] == e.s
    ensures mis.buf[..old(mis.read)] == old(mis.buf[..mis.read])
  {
    hide StringAt, Number.NumberAt;
    e, off, len := Null, 0, 0;
    var b := mis.Peek();
    if b == QUOTE {
      var _ := mis.Take();
      err, off, len := ParseStringInStream(mis, rules.validate);
      if err.None? {
        e := Str(mis.buf[off..off + len]);
      }
    } else if b == 't' as int {
      err := ParseWord(mis, TRUE);
      e := Boolean(true);
    } else if b == 'f' as int {
      err := ParseWord(mis, FALSE);
      e := Boolean(false);
    } else if b == 'n' as int {
      err := ParseWord(mis, NULL);
    } else if b == '-' as int || 0x30 <= b <= 0x39 {
      err, e := ParseNumber(mis, rules.finite);
    } else {
      err := Some(Unexpected);
    }
  }

  /** A key up to its colon, which is not yet taken. */
  method ReadKey(mis: InputStream, rules: Rules) returns (err: Option<ErrorCode>, off: nat, len: nat)
    requires mis.Valid() && mis.read <= mis.count
    modifies mis, mis.buf
    ensures mis.Valid() && mis.read <= mis.count
    ensures err.Some? ==> KeyColon(mis.text, old(mis.read), rules) == Fail(err.value, mis.read)
    ensures err.None? ==> mis.read < mis.count && off == old(mis.read) + 1 && off + len <= mis.read
    ensures err.None? ==> KeyColon(mis.text, old(mis.read), rules) == Done(mis.buf[off..off + len], mis.read + 1)
    ensures mis.buf[..old(mis.read)] == old(mis.buf[..mis.read])
  {
    hide StringAt, SpaceEnd;
    off, len := 0, 0;
    ghost var p := mis.read;
    var b := mis.Peek();
    if b != QUOTE {
      return Some(ExpectedKey), off, len;
    }
    var _ := mis.Take();
    err, off, len := ParseStringInStream(mis, rules.validate);
    assert mis.buf[..p] == mis.buf[..p + 1][..p];
    if err.Some? {
      return;
    }
    err, b := ConsumeWhitespace(mis, rules.comments);
    if err.None? && b != ':' as int {
      err := Some(ExpectedKey);
    }
  }

  /** The loop at an opening bracket. */
  lemma OpenIs(t: bytes, p: nat, stk: seq<bool>, isArray: bool, r: Rules)
    requires p < |t| && t[p] == Opener(isArray) && |stk| <= r.size
    ensures Value(t, p, stk, r) ==
      if |stk| == r.size then Err([], p + 1, StackOverflow)
      else Emit([StartOf(isArray)], Opened(t, p + 1, stk + [isArray], r))
  {
  }

  /** The loop behind an opening bracket. */
  lemma OpenedIs(t: bytes, p: nat, stk: seq<bool>, r: Rules)
    requires p <= |t| && 0 < |stk| <= r.size
    ensures var s := OpeningEnd(t, p, Top(stk), r);
      Opened(t, p, stk, r) ==
        if s.Fail? then Err([], s.pos, s.code)
        else if At(t, s.pos) == Closer(Top(stk)) then Emit([EndOf(Top(stk))], After(t, s.pos + 1, Pop(stk), r))
        else Head(t, s.pos, stk, r)
  {
    hide OpeningEnd, After, Head, Emit;
  }

  /** What is left of a parse behind one run of the loop. */
  function SaxRest(t: bytes, p: nat, r: Rules, multiple: bool, trailing: bool): Outcome
    requires p <= |t|
  {
    var o := GenerateAt(t, p, r);
    if o.Err? then Err([], o.pos, o.code)
    else if o.pos < |t| && multiple then SaxAt(t, o.pos, r, multiple, trailing)
    else if o.pos < |t| && !trailing then Err([], o.pos, Unexpected)
    else Ok([], o.pos)
  }

  lemma SaxStep(t: bytes, p: nat, r: Rules, multiple: bool, trailing: bool)
    requires p <= |t|
    ensures SaxAt(t, p, r, multiple, trailing) == Emit(GenerateAt(t, p, r).evs, SaxRest(t, p, r, multiple, trailing))
  {
    hide GenerateAt;
  }

  /** A generator without a stack refuses nothing, a fresh one only containers for which it has no room. */
  lemma RefusesIff(t: bytes, p: nat, r: Rules, multiple: bool, trailing: bool, s: Log, size: nat)
    requires p <= |t| && !r.pull
    ensures var evs := SaxAt(t, p, r, multiple, trailing).evs;
      && (size == 0 ==> Takes(s, evs, size))
      && (size > 0 && s.checker == E.FRESH ==> (Takes(s, evs, size) <==> E.Height(0, evs) <= size))
  {
    hide SaxAt, E.CheckAll, E.Height;
    if size == 0 {
      NoStackTakes(s, SaxAt(t, p, r, multiple, trailing).evs);
    } else {
      L.SaxPassesIff(t, p, r, multiple, trailing, size);
    }
  }

  /** One round of the inner loop behind a value. */
  lemma AfterIs(t: bytes, p: nat, stk: seq<bool>, r: Rules)
    requires p <= |t| && |stk| <= r.size
    ensures var s := SeparatorEnd(t, p, r);
      After(t, p, stk, r) ==
        if s.Fail? then Err([], s.pos, s.code)
        else if s.val then Head(t, s.pos, stk, r)
        else if stk != [] && At(t, s.pos) == Closer(Top(stk)) then
          Emit([EndOf(Top(stk))], After(t, s.pos + 1, Pop(stk), r))
        else if stk == [] then Ok([], s.pos)
        else Err([], s.pos, Unexpected)
  {
  }

  class JsonParser {
    const mis: InputStream
    const stack: BitStack
    const rules: Rules

    constructor (bs: bytes, rules: Rules)
      requires rules.size <= WRAP
      ensures Valid() && fresh(mis) && fresh(mis.buf) && fresh(stack) && fresh(stack.data)
      ensures mis.text == bs && mis.read == 0 && this.rules == rules && stack.Contents() == []
    {
      mis := new InputStream(bs);
      stack := new BitStack(rules.size, ParserBytes(rules.size));
      this.rules := rules;
    }

    ghost predicate Valid()
      reads mis, mis.buf, stack
    {
      && mis.Valid() && stack.Valid() && stack.size == rules.size <= WRAP && stack.data.Length == ParserBytes(rules.size)
      && (mis.buf as object) != stack.data
    }

    /** The generator shares nothing with the parser. */
    ghost predicate Fits(g: Generator)
      reads mis, mis.buf, stack, g, g.stack
    {
      && Valid() && g.Valid() && !rules.pull
      && g.stack != stack && g.stack.data != stack.data && (mis.buf as object) != g.stack.data
    }

    /** The generator, if it checks anything, has the same containers open. */
    ghost predicate Same(g: Generator)
      requires stack.Valid() && g.Valid()
      reads stack, stack.data, g, g.stack, g.stack.data
    {
      g.stack.size > 0 ==> g.Checker().stk == stack.Contents()
    }

    /** It also expects what the parser does: a value, or what stands between values, a key in an object. */
    ghost predicate InStep(g: Generator, value: bool)
      requires stack.Valid() && g.Valid()
      reads stack, stack.data, g, g.stack, g.stack.data
    {
      g.stack.size > 0 ==> g.Checker() == L.Waits(stack.Contents(), value)
    }

    /** Outside of objects the two are the same. */
    lemma NoKeyNext(g: Generator)
      requires stack.Valid() && g.Valid() && (stack.Contents() == [] || Top(stack.Contents()))
      ensures InStep(g, false) == InStep(g, true)
    {
    }

    /** The generator was given the events, up to the first it refuses. */
    twostate predicate Gave(g: Generator, evs: seq<Event>, refused: bool)
      requires old(g.Valid()) && g.Valid()
      reads g, g.stack, g.stack.data
    {
      g.State() == Give(old(g.State()), evs, g.stack.size) && refused == !Takes(old(g.State()), evs, g.stack.size)
    }

    /** The generator was given the events of whole without those of left, or those up to the first it refuses. */
    twostate predicate GavePart(g: Generator, whole: Outcome, refused: bool, left: Outcome)
      requires old(g.Valid()) && g.Valid()
      reads g, g.stack, g.stack.data
    {
      Delivered(whole, old(g.State()), g.State(), g.stack.size, refused, left)
    }

    /**
     * Gives the generator an event. The parser, which had the containers stk open, has done to its stack what the
     * event says; if the event is not refused, so has the generator.
     */
    method GiveEvent(g: Generator, e: Event, ghost stk: seq<bool>) returns (refused: bool)
      requires Fits(g) && g.HasRoom([e]) && stack.Contents() == L.OpenedBehind(stk, e)
      modifies g, g.stack, g.stack.data
      ensures Fits(g) && Gave(g, [e], refused)
      ensures (g.stack.size > 0 ==> old(g.Checker()).stk == stk) && !refused ==> Same(g)
      ensures (g.stack.size > 0 ==> old(g.Checker()) == L.Waits(stk, !e.Key? && !e.EndArray? && !e.EndObject?)) && !refused ==>
        InStep(g, e.Key?)
    {
      hide BitStack.Contents, Give, Takes, Room, E.CheckEvent, L.OpenedBehind, L.Waits;
      L.FollowsEvent(g.Checker(), e, g.stack.size);
      L.WaitsBehind(stk, e, g.stack.size);
      var ok := g.Deliver(e);
      refused := !ok;
    }

    /** Inside an object: the key, its colon and the space behind it. */
    method ParseKey(g: Generator) returns (err: Option<ErrorCode>, refused: bool)
      requires Fits(g) && mis.read <= mis.count && g.HasRoom(KeyAt(mis.text, mis.read, rules).evs)
      modifies mis, mis.buf, g, g.stack, g.stack.data
      ensures Fits(g) && mis.read <= mis.count
      ensures Gave(g, KeyAt(mis.text, old(mis.read), rules).evs, refused)
      ensures !refused ==> Reached(KeyAt(mis.text, old(mis.read), rules), err, mis.read)
      ensures old(Same(g)) && !refused ==> Same(g)
      ensures old(InStep(g, false)) && !refused && err.None? ==> InStep(g, true)
    {
      hide KeyColon, SpaceEnd, BitStack.Contents, Give, Takes, Room, L.Waits;
      GiveNothing(g.State(), g.stack.size);
      refused := false;
      var off, len;
      err, off, len := ReadKey(mis, rules);
      if err.Some? {
        return;
      }
      refused := GiveEvent(g, Key(mis.buf[off..off + len]), stack.Contents());
      if refused {
        return;
      }
      var _ := mis.Take();
      var b;
      err, b := ConsumeWhitespace(mis, rules.comments);
    }

    /** A value that is no container. */
    method ParseScalar(g: Generator) returns (err: Option<ErrorCode>, refused: bool)
      requires Fits(g) && mis.read <= mis.count && g.HasRoom(ScalarAt(mis.text, mis.read, rules).evs)
      modifies mis, mis.buf, g, g.stack, g.stack.data
      ensures Fits(g) && Reached(ScalarAt(mis.text, old(mis.read), rules), err, mis.read)
      ensures err.None? ==> mis.read <= mis.count
      ensures Gave(g, ScalarAt(mis.text, old(mis.read), rules).evs, refused)
      ensures old(Same(g)) && !refused ==> Same(g)
      ensures old(InStep(g, true)) && !refused && err.None? ==> InStep(g, false)
    {
      hide ScalarAt, BitStack.Contents, Give, Takes, Room;
      GiveNothing(g.State(), g.stack.size);
      refused := false;
      var e, off, len;
      err, e, off, len := ReadScalar(mis, rules);
      if err.None? {
        L.ScalarEvents(mis.text, old(mis.read), rules);
        refused := GiveEvent(g, e, stack.Contents());
      }
    }

    /** What is left of the loop: nothing after an error or at its end. */
    ghost function Left(err: Option<ErrorCode>, more: bool): Outcome
      requires Valid() && (err.None? && more ==> mis.read <= mis.count)
      reads mis, mis.buf, stack, stack.data
    {
      if err.Some? then Err([], mis.read, err.value)
      else if more then Head(mis.text, mis.read, stack.Contents(), rules)
      else Ok([], mis.read)
    }

    /** What is left of the loop behind a value that is complete, or inside a container just opened. */
    ghost function LeftBehind(err: Option<ErrorCode>, complete: bool): Outcome
      requires Valid() && (err.None? ==> mis.read <= mis.count)
      reads mis, mis.buf, stack, stack.data
    {
      if err.None? && complete then After(mis.text, mis.read, stack.Contents(), rules) else Left(err, true)
    }

    /** The frame on top of the parser's stack. */
    ghost predicate Tops(frame: Frame)
      requires stack.Valid()
      reads stack, stack.data
    {
      frame == if stack.Contents() == [] then InNone else FrameOf(Top(stack.Contents()))
    }

    /** What is left of the loop at a closing bracket. */
    ghost function LeftAtEnd(isArray: bool): Outcome
      requires Valid() && mis.read < mis.count && stack.Contents() != []
      reads mis, mis.buf, stack, stack.data
    {
      Emit([EndOf(isArray)], After(mis.text, mis.read + 1, Pop(stack.Contents()), rules))
    }

    /** A closing bracket under the cursor ends the innermost container. */
    method ParseEnd(isArray: bool, g: Generator) returns (frame: Frame, refused: bool)
      requires Fits(g) && mis.read < mis.count && stack.Contents() != []
      requires g.HasRoom(LeftAtEnd(isArray).evs)
      modifies mis`read, stack, g, g.stack, g.stack.data
      ensures Fits(g) && mis.read == old(mis.read) + 1
      ensures stack.Contents() == Pop(old(stack.Contents())) && Tops(frame)
      ensures GavePart(g, old(LeftAtEnd(isArray)), refused, After(mis.text, mis.read, stack.Contents(), rules))
      ensures old(Same(g)) && !refused ==> Same(g)
      ensures old(InStep(g, false)) && !refused ==> InStep(g, false)
    {
      hide BitStack.Contents, Give, Takes, Room, After, Delivered, E.CheckEvent, L.Waits, L.OpenedBehind;
      L.OpenedByBracket(stack.Contents(), isArray);
      DeliveredPart(LeftAtEnd(isArray), g.State(), [EndOf(isArray)], g.stack.size,
        After(mis.text, mis.read + 1, Pop(stack.Contents()), rules));
      var _ := mis.Take();
      frame := stack.Pop();
      refused := GiveEvent(g, EndOf(isArray), old(stack.Contents()));
    }

    /** An opening bracket under the cursor starts a container, if the stack can hold it. */
    method ParseStart(isArray: bool, g: Generator) returns (ok: bool, refused: bool)
      requires Fits(g) && mis.read < mis.count && At(mis.text, mis.read) == Opener(isArray)
      requires g.HasRoom(Value(mis.text, mis.read, stack.Contents(), rules).evs)
      modifies mis`read, stack, stack.data, g, g.stack, g.stack.data
      ensures Fits(g) && mis.read == old(mis.read) + 1
      ensures !ok ==> g.State() == old(g.State()) && !refused
      ensures !ok ==> Value(mis.text, old(mis.read), old(stack.Contents()), rules) == Err([], mis.read, StackOverflow)
      ensures ok ==> stack.Contents() == old(stack.Contents()) + [isArray]
      ensures ok ==> GavePart(g, Value(mis.text, old(mis.read), old(stack.Contents()), rules), refused,
        Opened(mis.text, mis.read, stack.Contents(), rules))
      ensures old(Same(g)) && !refused ==> Same(g)
      ensures old(InStep(g, true)) && !refused && ok ==> InStep(g, false)
    {
      hide BitStack.Contents, Give, Takes, Room, Value, Opened, Emit, Delivered, E.CheckEvent, L.Waits, L.OpenedBehind;
      L.OpenedByBracket(stack.Contents(), isArray);
      ghost var whole := Value(mis.text, mis.read, stack.Contents(), rules);
      OpenIs(mis.text, mis.read, stack.Contents(), isArray, rules);
      refused := false;
      var _ := mis.Take();
      ok := stack.Push(isArray);
      if ok {
        DeliveredPart(whole, g.State(), [StartOf(isArray)], g.stack.size,
          Opened(mis.text, mis.read, stack.Contents(), rules));
        refused := GiveEvent(g, StartOf(isArray), old(stack.Contents()));
      }
    }

    /** Behind an opening bracket: space and, when trailing commas are allowed, a comma on its own. */
    method ParseOpening(isArray: bool) returns (err: Option<ErrorCode>, closed: bool)
      requires Valid() && !rules.pull && mis.read <= mis.count
      modifies mis`read
      ensures Valid() && mis.read <= mis.count
      ensures Agrees(OpeningEnd(mis.text, old(mis.read), isArray, rules), err, mis.read)
      ensures err.None? ==> closed == (At(mis.text, mis.read) == Closer(isArray))
      ensures err.None? ==> Space(mis.text, mis.read, rules) == Done((), mis.read)
    {
      hide SpaceEnd;
      closed := false;
      var b;
      err, b := ConsumeWhitespace(mis, rules.comments);
      if err.Some? {
        return;
      }
      if rules.trailingCommas && b == ',' as int {
        var _ := mis.Take();
        err, b := ConsumeWhitespace(mis, rules.comments);
        if err.Some? {
          return;
        }
        if b != Closer(isArray) {
          return Some(Unexpected), closed;
        }
      }
      closed := b == Closer(isArray);
      SpaceEndIdempotent(mis.text, mis.read, rules.comments);
    }

    /**
     * An opening bracket under the cursor. An empty container is closed at once; otherwise a value, or a
     * key, is expected next.
     */
    method ParseOpen(isArray: bool, g: Generator)
      returns (err: Option<ErrorCode>, closed: bool, frame: Frame, refused: bool)
      requires Fits(g) && mis.read < mis.count && At(mis.text, mis.read) == Opener(isArray)
      requires g.HasRoom(Value(mis.text, mis.read, stack.Contents(), rules).evs)
      modifies mis`read, stack, stack.data, g, g.stack, g.stack.data
      ensures Fits(g) && old(mis.read) < mis.read <= mis.count && (!refused && err.None? ==> Tops(frame))
      ensures GavePart(g, Value(mis.text, old(mis.read), old(stack.Contents()), rules), refused, LeftBehind(err, closed))
      ensures old(Same(g)) && !refused ==> Same(g)
      ensures old(InStep(g, true)) && !refused && err.None? ==> InStep(g, false)
    {
      hide Value, After, Head, Opened, OpeningEnd, SpaceEnd, BitStack.Contents, Same, InStep, Give, Takes, Room, Delivered, Emit;
      ghost var s0, size := g.State(), g.stack.size;
      ghost var whole := Value(mis.text, mis.read, stack.Contents(), rules);
      closed, frame := false, FrameOf(isArray);
      var ok;
      ok, refused := ParseStart(isArray, g);
      if !ok {
        DeliveredNothing(whole, s0, size);
        return Some(StackOverflow), closed, frame, refused;
      }
      err := None;
      ghost var s1, left := g.State(), Opened(mis.text, mis.read, stack.Contents(), rules);
      if refused {
        DeliveredRefused(whole, s0, s1, size, left, LeftBehind(err, closed));
        return;
      }
      DeliveredRoom(whole, s0, s1, size, left);
      OpenedIs(mis.text, mis.read, stack.Contents(), rules);
      err, closed := ParseOpening(isArray);
      if err.None? {
        if closed {
          frame, refused := ParseEnd(isArray, g);
          DeliveredMore(whole, s0, s1, g.State(), size, left, refused, LeftBehind(err, closed));
        } else {
          var b;
          err, b := ConsumeWhitespace(mis, rules.comments);
        }
      }
    }

    /** Space and perhaps a comma behind a value. */
    method ParseSeparator() returns (err: Option<ErrorCode>, more: bool, b: byte)
      requires Valid() && mis.read <= mis.count
      modifies mis`read
      ensures Valid() && mis.read <= mis.count
      ensures Agrees(SeparatorEnd(mis.text, old(mis.read), rules), err, mis.read)
      ensures err.None? ==> more == SeparatorEnd(mis.text, old(mis.read), rules).val && b == At(mis.text, mis.read)
      ensures err.None? ==> Space(mis.text, mis.read, rules) == Done((), mis.read)
    {
      hide SpaceEnd;
      more := false;
      err, b := ConsumeWhitespace(mis, rules.comments);
      if err.None? && b == ',' as int {
        var _ := mis.Take();
        err, b := ConsumeWhitespace(mis, rules.comments);
        more := !(rules.trailingCommas && IsCloser(b));
      }
      if err.None? {
        SpaceEndIdempotent(mis.text, mis.read, rules.comments);
      }
    }

    /** What is left of the loop behind a closing bracket, or when the inner loop has ended. */
    ghost function LeftInside(err: Option<ErrorCode>, more: bool, closed: bool): Outcome
      requires Valid() && (err.None? ==> mis.read <= mis.count)
      reads mis, mis.buf, stack, stack.data
    {
      if err.None? && closed then After(mis.text, mis.read, stack.Contents(), rules) else Left(err, more)
    }

    /** One round of the inner loop: a separator, and perhaps a closing bracket. */
    method ParseCloser(g: Generator, top: Frame)
      returns (err: Option<ErrorCode>, more: bool, closed: bool, frame: Frame, refused: bool)
      requires Fits(g) && mis.read <= mis.count && Tops(top)
      requires g.HasRoom(After(mis.text, mis.read, stack.Contents(), rules).evs)
      modifies mis`read, stack, g, g.stack, g.stack.data
      ensures Fits(g) && old(mis.read) <= mis.read <= mis.count && Tops(frame)
      ensures GavePart(g, After(mis.text, old(mis.read), old(stack.Contents()), rules), refused, LeftInside(err, more, closed))
      ensures err.None? && !closed && !more ==>
        stack.Contents() == [] && Space(mis.text, mis.read, rules) == Done((), mis.read)
      ensures closed ==> err.None? && !more
      ensures err.None? && (more || closed) ==> old(mis.read) < mis.read
      ensures old(Same(g)) && !refused ==> Same(g)
      ensures old(InStep(g, false)) && !refused ==> InStep(g, false)
    {
      hide After, Head, SeparatorEnd, SpaceEnd, BitStack.Contents, Same, InStep, Delivered, Room;
      AfterIs(mis.text, mis.read, stack.Contents(), rules);
      DeliveredNothing(After(mis.text, mis.read, stack.Contents(), rules), g.State(), g.stack.size);
      closed, frame, refused := false, top, false;
      var b;
      err, more, b := ParseSeparator();
      if err.Some? || more {
        return;
      }
      if b == Closer(false) && frame == Frame.InObject {
        closed := true;
        frame, refused := ParseEnd(false, g);
      } else if b == Closer(true) && frame == Frame.InArray {
        closed := true;
        frame, refused := ParseEnd(true, g);
      } else if frame != InNone {
        err := Some(Unexpected);
      }
    }

    /** The inner loop behind a value: closing brackets, then a comma or the end of the top-level value. */
    method ParseAfter(g: Generator, top: Frame)
      returns (err: Option<ErrorCode>, more: bool, frame: Frame, refused: bool)
      requires Fits(g) && mis.read <= mis.count && Tops(top)
      requires g.HasRoom(After(mis.text, mis.read, stack.Contents(), rules).evs)
      modifies mis`read, stack, g, g.stack, g.stack.data
      ensures Fits(g) && old(mis.read) <= mis.read <= mis.count
      ensures GavePart(g, After(mis.text, old(mis.read), old(stack.Contents()), rules), refused, Left(err, more))
      ensures !refused && err.None? ==> Tops(frame)
      ensures !refused && err.None? && !more ==>
        stack.Contents() == [] && Space(mis.text, mis.read, rules) == Done((), mis.read)
      ensures !refused && err.None? && more ==> old(mis.read) < mis.read
      ensures old(Same(g)) && !refused ==> Same(g)
      ensures old(InStep(g, false)) && !refused && err.None? ==> InStep(g, false)
    {
      hide After, SpaceEnd, BitStack.Contents, Same, InStep, Delivered, Room, Left;
      ghost var s0, size := g.State(), g.stack.size;
      ghost var whole := After(mis.text, mis.read, stack.Contents(), rules);
      DeliveredNothing(whole, s0, size);
      frame := top;
      while true
        invariant Fits(g) && old(mis.read) <= mis.read <= mis.count && Tops(frame)
        invariant Delivered(whole, s0, g.State(), size, false, After(mis.text, mis.read, stack.Contents(), rules))
        invariant (old(Same(g)) ==> Same(g)) && (old(InStep(g, false)) ==> InStep(g, false))
        decreases mis.count - mis.read
      {
        ghost var s1, left := g.State(), After(mis.text, mis.read, stack.Contents(), rules);
        DeliveredRoom(whole, s0, s1, size, left);
        var closed;
        err, more, closed, frame, refused := ParseCloser(g, frame);
        DeliveredMore(whole, s0, s1, g.State(), size, left, refused, LeftInside(err, more, closed));
        if refused {
          DeliveredRefused(whole, s0, g.State(), size, LeftInside(err, more, closed), Left(err, more));
        }
        if refused || !closed {
          return;
        }
      }
    }

    /** The switch on the first byte of a value. */
    method ParseValue(g: Generator, top: Frame)
      returns (err: Option<ErrorCode>, complete: bool, frame: Frame, refused: bool)
      requires Fits(g) && mis.read <= mis.count && Tops(top)
      requires g.HasRoom(Value(mis.text, mis.read, stack.Contents(), rules).evs)
      modifies mis, mis.buf, stack, stack.data, g, g.stack, g.stack.data
      ensures Fits(g) && (err.None? ==> mis.read <= mis.count)
      ensures GavePart(g, Value(mis.text, old(mis.read), old(stack.Contents()), rules), refused, LeftBehind(err, complete))
      ensures !refused && err.None? ==> Tops(frame) && old(mis.read) < mis.read
      ensures old(Same(g)) && !refused ==> Same(g)
      ensures old(InStep(g, true)) && !refused && err.None? ==> InStep(g, false)
    {
      hide After, Head, Opened, SpaceEnd, ScalarAt, OpeningEnd, BitStack.Contents, Same, InStep, Room, Give, Takes, Delivered;
      var b := mis.Peek();
      if b == Opener(true) || b == Opener(false) {
        err, complete, frame, refused := ParseOpen(b == Opener(true), g);
      } else {
        complete, frame := true, top;
        ghost var s := ScalarAt(mis.text, mis.read, rules);
        ghost var left := if s.Err? then Err([], s.pos, s.code) else After(mis.text, s.pos, stack.Contents(), rules);
        DeliveredPart(Value(mis.text, mis.read, stack.Contents(), rules), g.State(), s.evs, g.stack.size, left);
        err, refused := ParseScalar(g);
      }
    }

    /** One pass of the outer loop: a key inside an object, a value, and what follows it. */
    method ParsePass(g: Generator, top: Frame)
      returns (err: Option<ErrorCode>, more: bool, frame: Frame, refused: bool)
      requires Fits(g) && mis.read <= mis.count && Tops(top)
      requires g.HasRoom(Head(mis.text, mis.read, stack.Contents(), rules).evs)
      modifies mis, mis.buf, stack, stack.data, g, g.stack, g.stack.data
      ensures Fits(g) && (err.None? ==> mis.read <= mis.count)
      ensures GavePart(g, Head(mis.text, old(mis.read), old(stack.Contents()), rules), refused, Left(err, more))
      ensures !refused && err.None? ==> Tops(frame) && old(mis.read) < mis.read
      ensures !refused && err.None? && !more ==>
        stack.Contents() == [] && Space(mis.text, mis.read, rules) == Done((), mis.read)
      ensures old(Same(g)) && !refused ==> Same(g)
      ensures old(InStep(g, false)) && !refused && err.None? ==> InStep(g, false)
    {
      hide Value, After, SpaceEnd, KeyAt, BitStack.Contents, Same, InStep, Room, Give, Takes, Delivered;
      ghost var s0, size := g.State(), g.stack.size;
      ghost var whole := Head(mis.text, mis.read, stack.Contents(), rules);
      DeliveredNothing(whole, s0, size);
      more, frame := true, top;
      if top == Frame.InObject {
        ghost var k := KeyAt(mis.text, mis.read, rules);
        ghost var behind := if k.Err? then Err([], k.pos, k.code) else Value(mis.text, k.pos, stack.Contents(), rules);
        DeliveredPart(whole, s0, k.evs, size, behind);
        err, refused := ParseKey(g);
        if refused {
          DeliveredRefused(whole, s0, g.State(), size, behind, Left(err, more));
        }
        if refused || err.Some? {
          return;
        }
      } else {
        NoKeyNext(g);
      }
      ghost var s1, left := g.State(), Value(mis.text, mis.read, stack.Contents(), rules);
      DeliveredRoom(whole, s0, s1, size, left);
      var complete;
      err, complete, frame, refused := ParseValue(g, top);
      DeliveredMore(whole, s0, s1, g.State(), size, left, refused, LeftBehind(err, complete));
      if refused {
        DeliveredRefused(whole, s0, g.State(), size, LeftBehind(err, complete), Left(err, more));
      } else if err.None? && complete {
        s1, left := g.State(), LeftBehind(err, complete);
        DeliveredRoom(whole, s0, s1, size, left);
        err, more, frame, refused := ParseAfter(g, frame);
        DeliveredMore(whole, s0, s1, g.State(), size, left, refused, Left(err, more));
      }
    }

    /** The whole loop, which is the recursive descent. */
    method ParseGenerate(g: Generator) returns (err: Option<ErrorCode>, refused: bool)
      requires Fits(g) && mis.read <= mis.count && stack.Contents() == []
      requires g.HasRoom(GenerateAt(mis.text, mis.read, rules).evs)
      modifies mis, mis.buf, stack, stack.data, g, g.stack, g.stack.data
      ensures Fits(g) && Gave(g, GenerateAt(mis.text, old(mis.read), rules).evs, refused)
      ensures !refused ==> Reached(GenerateAt(mis.text, old(mis.read), rules), err, mis.read)
      ensures !refused && err.None? ==> stack.Contents() == [] && old(mis.read) < mis.read <= mis.count
      ensures old(Same(g)) && !refused ==> Same(g)
      ensures old(InStep(g, false)) && !refused && err.None? ==> InStep(g, false)
    {
      hide Head, TopAt, SpaceEnd, BitStack.Contents, Same, InStep, Room, Give, Takes, Delivered;
      ghost var s0, size := g.State(), g.stack.size;
      GiveNothing(s0, size);
      refused := false;
      var b;
      err, b := ConsumeWhitespace(mis, rules.comments);
      if err.Some? {
        return;
      }
      ghost var start, whole := mis.read, TopAt(mis.text, mis.read, rules);
      LoopIsDescent(mis.text, start, rules);
      DeliveredNothing(whole, s0, size);
      var frame, more := InNone, true;
      while more
        invariant Fits(g) && start <= mis.read <= mis.count && Tops(frame)
        invariant !refused && Delivered(whole, s0, g.State(), size, false, Left(None, more))
        invariant (old(Same(g)) ==> Same(g)) && (old(InStep(g, false)) ==> InStep(g, false))
        invariant !more ==> stack.Contents() == [] && Space(mis.text, mis.read, rules) == Done((), mis.read)
        invariant start < mis.read || more
        decreases mis.count - mis.read, more
      {
        ghost var s1, left := g.State(), Left(None, true);
        DeliveredRoom(whole, s0, s1, size, left);
        err, more, frame, refused := ParsePass(g, frame);
        DeliveredMore(whole, s0, s1, g.State(), size, left, refused, Left(err, more));
        if refused || err.Some? {
          DeliveredAll(whole, s0, g.State(), size, refused, Left(err, more));
          return;
        }
      }
      DeliveredAll(whole, s0, g.State(), size, false, Left(None, false));
      err, b := ConsumeWhitespace(mis, rules.comments);
    }

    /** A parse of the whole text: one run of the loop, or several when multiple values are allowed. */
    method Parse(g: Generator, multiple: bool, trailing: bool) returns (err: Option<ErrorCode>, refused: bool)
      requires Fits(g) && mis.read <= mis.count && stack.Contents() == []
      requires g.HasRoom(SaxAt(mis.text, mis.read, rules, multiple, trailing).evs)
      modifies mis, mis.buf, stack, stack.data, g, g.stack, g.stack.data
      ensures Fits(g) && Gave(g, SaxAt(mis.text, old(mis.read), rules, multiple, trailing).evs, refused)
      ensures !refused ==> Reached(SaxAt(mis.text, old(mis.read), rules, multiple, trailing), err, mis.read)
      ensures refused ==> g.stack.size > 0
      ensures g.stack.size > 0 && old(g.Checker()) == E.FRESH ==>
        (refused <==> E.Height(0, SaxAt(mis.text, old(mis.read), rules, multiple, trailing).evs) > g.stack.size)
      ensures old(Same(g)) && !refused ==> Same(g)
      ensures old(InStep(g, false)) && !refused && err.None? ==> InStep(g, false)
    {
      hide GenerateAt, SaxAt, Emit, BitStack.Contents, Same, InStep, Room, Give, Delivered, E.Height, E.CheckAll;
      ghost var s0, size := g.State(), g.stack.size;
      ghost var whole := SaxAt(mis.text, mis.read, rules, multiple, trailing);
      DeliveredNothing(whole, s0, size);
      RefusesIff(mis.text, mis.read, rules, multiple, trailing, s0, size);
      while true
        invariant Fits(g) && mis.read <= mis.count && stack.Contents() == []
        invariant Delivered(whole, s0, g.State(), size, false, SaxAt(mis.text, mis.read, rules, multiple, trailing))
        invariant (old(Same(g)) ==> Same(g)) && (old(InStep(g, false)) ==> InStep(g, false))
        decreases mis.count - mis.read
      {
        ghost var s1, left := g.State(), SaxAt(mis.text, mis.read, rules, multiple, trailing);
        ghost var part := GenerateAt(mis.text, mis.read, rules).evs;
        ghost var rest := SaxRest(mis.text, mis.read, rules, multiple, trailing);
        SaxStep(mis.text, mis.read, rules, multiple, trailing);
        DeliveredRoom(whole, s0, s1, size, left);
        DeliveredPart(left, s1, part, size, rest);
        err, refused := ParseGenerate(g);
        DeliveredMore(whole, s0, s1, g.State(), size, left, refused, rest);
        if refused || err.Some? {
          DeliveredAll(whole, s0, g.State(), size, refused, rest);
          return;
        }
        var eof := mis.Eof();
        if !eof && multiple {
          continue;
        }
        if !eof && !trailing {
          err := Some(Unexpected);
        }
        DeliveredAll(whole, s0, g.State(), size, refused, rest);
        return;
      }
    }
  }
}
