/** Which error is reported for what, above the level of strings and numbers. */
module Errors {
  import opened Base
  import opened Text
  import opened Descent
  import opened Conformance
  import opened PullMachine
  import E = Events

  // ----- The parsers -----

  /** A container for which there is no room on the stack. */
  lemma TooDeep(t: bytes, p: nat, depth: nat, r: Rules)
    requires p < |t| && (t[p] == 0x5B || t[p] == 0x7B) && depth >= r.size
    ensures ValueAt(t, p, depth, r) == Err([], p + 1, StackOverflow)
  {
  }

  lemma NoKey(t: bytes, p: nat, r: Rules)
    requires p <= |t| && At(t, p) != 0x22
    ensures KeyColon(t, p, r) == Fail(ExpectedKey, p)
  {
  }

  /** A key that is broken itself, and one without a colon behind it. */
  lemma BrokenKey(t: bytes, p: nat, r: Rules)
    requires p < |t| && t[p] == 0x22
    ensures var s := StringAt(t, p + 1, r.validate);
      && (s.Fail? ==> KeyColon(t, p, r) == s)
      && (s.Done? && Space(t, s.pos, r).Done? && At(t, Space(t, s.pos, r).pos) != 0x3A ==>
        KeyColon(t, p, r) == Fail(ExpectedKey, Space(t, s.pos, r).pos))
  {
    hide StringAt, SpaceEnd;
  }

  /** A key is delivered before the space behind its colon is read. */
  lemma KeyBeforeSpace(t: bytes, p: nat, r: Rules)
    requires p <= |t| && KeyColon(t, p, r).Done? && Space(t, KeyColon(t, p, r).pos, r).Fail?
    ensures var k, w := KeyColon(t, p, r), Space(t, KeyColon(t, p, r).pos, r);
      KeyAt(t, p, r) == Err([Key(k.val)], w.pos, w.code)
  {
    hide KeyColon, SpaceEnd;
  }

  /** Behind an element neither a comma nor the matching bracket; the pull parser takes another member there. */
  lemma NoSeparator(t: bytes, p: nat, depth: nat, isArray: bool, r: Rules)
    requires p <= |t| && Space(t, p, r) == Done((), p) && (isArray || !r.pull)
    requires At(t, p) != 0x2C && At(t, p) != if isArray then 0x5D else 0x7D
    ensures MoreAt(t, p, depth, isArray, r) == Err([], p, Unexpected)
  {
    hide SpaceEnd;
  }

  /** With trailing commas allowed a comma behind an opening bracket has to be followed by the closing one. */
  lemma LoneCommaThenMore(t: bytes, p: nat, depth: nat, isArray: bool, r: Rules)
    requires p < |t| && t[p] == 0x2C && r.trailingCommas && !r.pull && Space(t, p, r) == Done((), p)
    requires var q := Space(t, p + 1, r); q.Done? && At(t, q.pos) != if isArray then 0x5D else 0x7D
    ensures BodyAt(t, p, depth, isArray, r) == Err([], Space(t, p + 1, r).pos, Unexpected)
  {
    hide SpaceEnd;
  }

  /** What follows a value, where nothing may. */
  lemma Trailing(t: bytes, p: nat, r: Rules)
    requires p <= |t| && GenerateAt(t, p, r).Ok? && GenerateAt(t, p, r).pos < |t|
    ensures var o := GenerateAt(t, p, r); SaxAt(t, p, r, false, false) == Err(o.evs, o.pos, Unexpected)
  {
    hide GenerateAt;
  }

  /** The same for the pull parser, where neither further values nor trailing characters are allowed. */
  lemma PullTrailing(t: bytes, s: nat, r: Rules)
    requires r.pull && Space(t, 0, r) == Done((), s) && s <= |t| && ValueAt(t, s, 0, r).Ok?
    requires var w := Space(t, ValueAt(t, s, 0, r).pos, r); w.Done? && w.pos < |t|
    ensures var v := ValueAt(t, s, 0, r);
      Run(t, PullMachine.START, r, Tail(false, false)) == Ran(Err(v.evs, Space(t, v.pos, r).pos, Unexpected))
  {
    hide Run, SpaceEnd, ValueAt, ScalarAt;
    PullIsDescent(t, r, Tail(false, false));
    var v := ValueAt(t, s, 0, r);
    assert PullBehind(t, v.pos, r, Tail(false, false)) == Ran(Err([], Space(t, v.pos, r).pos, Unexpected));
    assert v.evs + [] == v.evs;
  }

  // ----- The generator -----

  predicate InsideObject(c: E.Checker) {
    c.stk != [] && !c.stk[|c.stk| - 1]
  }

  /** A value, also one that starts a container, where a key has to come. */
  lemma ValueRefused(c: E.Checker, e: Event, size: nat)
    requires size > 0 && !e.Key? && !e.EndArray? && !e.EndObject?
    ensures var s := E.CheckEvent(c, e, size);
      && (s.Reject? && s.code == ExpectedKey <==> InsideObject(c) && c.keyNext)
      && (s.Reject? && s.code == StackOverflow <==>
            (e.StartArray? || e.StartObject?) && |c.stk| >= size && !(InsideObject(c) && c.keyNext))
      && (s.Reject? ==> s.code in {ExpectedKey, StackOverflow})
  {
  }

  /** A key where none has to come. */
  lemma KeyRefused(c: E.Checker, k: bytes, size: nat)
    requires size > 0
    ensures E.CheckEvent(c, Key(k), size) ==
      if c.keyNext then E.Pass(c.(keyNext := false)) else E.Reject(c, ExpectedValue)
  {
  }

  /** The end of a container where none is open, where one of the other kind is, and behind a key. */
  lemma EndRefused(c: E.Checker, size: nat)
    requires size > 0
    ensures c.stk == [] ==>
      && E.CheckEvent(c, EndArray, size) == E.Reject(c, StackUnderflow)
      && E.CheckEvent(c, EndObject, size) == E.Reject(c, StackUnderflow)
    ensures InsideObject(c) ==> E.CheckEvent(c, EndArray, size) == E.Reject(c, NoArray)
    ensures c.stk != [] && !InsideObject(c) ==> E.CheckEvent(c, EndObject, size) == E.Reject(c, NoObject)
    ensures InsideObject(c) && !c.keyNext ==> E.CheckEvent(c, EndObject, size) == E.Reject(c, ExpectedValue)
  {
  }
}
