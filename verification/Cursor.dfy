/**
 * Where a parse can end: the cursor passes the end of the text in one case only, a minus sign that ends the
 * text where a value is read, because parse_number takes the NUL byte before it fails.
 */
module Cursor {
  import opened Base
  import opened Text
  import opened Descent
  import opened PullMachine
  import Number

  // ----- Where values are read -----

  /** Reading the value at p reads a value at q: itself, or one inside it. */
  predicate ReadsValue(t: bytes, p: nat, depth: nat, r: Rules, q: nat)
    requires p <= |t|
    decreases |t| - p, 0
  {
    var b := At(t, p);
    || p == q
    || ((b == Opener(true) || b == Opener(false)) && depth < r.size
        && ReadsBody(t, p + 1, depth + 1, b == Opener(true), r, q))
  }

  predicate ReadsBody(t: bytes, p: nat, depth: nat, isArray: bool, r: Rules, q: nat)
    requires p <= |t|
    decreases |t| - p, 4
  {
    var s := OpeningEnd(t, p, isArray, r);
    s.Done? && At(t, s.pos) != Closer(isArray) && ReadsElements(t, s.pos, depth, isArray, r, q)
  }

  predicate ReadsElement(t: bytes, p: nat, depth: nat, isArray: bool, r: Rules, q: nat)
    requires p <= |t|
    decreases |t| - p, 1
  {
    if isArray then ReadsValue(t, p, depth, r, q)
    else KeyAt(t, p, r).Ok? && ReadsValue(t, KeyAt(t, p, r).pos, depth, r, q)
  }

  predicate ReadsElements(t: bytes, p: nat, depth: nat, isArray: bool, r: Rules, q: nat)
    requires p <= |t|
    decreases |t| - p, 2
  {
    var e := ElementAt(t, p, depth, isArray, r);
    ReadsElement(t, p, depth, isArray, r, q) || (e.Ok? && ReadsMore(t, e.pos, depth, isArray, r, q))
  }

  predicate ReadsMore(t: bytes, p: nat, depth: nat, isArray: bool, r: Rules, q: nat)
    requires p <= |t|
    decreases |t| - p, 3
  {
    var s := SeparatorEnd(t, p, r);
    && s.Done? && (s.val || (At(t, s.pos) != Closer(isArray) && r.pull && !isArray))
    && ReadsElements(t, s.pos, depth, isArray, r, q)
  }

  predicate ReadsTop(t: bytes, p: nat, r: Rules, q: nat)
    requires p <= |t|
    decreases |t| - p
  {
    var v := ValueAt(t, p, 0, r);
    || ReadsValue(t, p, 0, r, q)
    || (v.Ok? && var s := SeparatorEnd(t, v.pos, r); s.Done? && s.val && ReadsTop(t, s.pos, r, q))
  }

  /** The parse from p on reads a value at q. */
  predicate ReadsAt(t: bytes, p: nat, r: Rules, multiple: bool, q: nat)
    requires p <= |t|
    decreases |t| - p
  {
    var w, o := Space(t, p, r), GenerateAt(t, p, r);
    && w.Done?
    && (ReadsTop(t, w.pos, r, q) || (o.Ok? && o.pos < |t| && multiple && ReadsAt(t, o.pos, r, multiple, q)))
  }

  // ----- The cursor -----

  predicate LoneMinus(t: bytes) {
    t != [] && t[|t| - 1] == '-' as int
  }

  /** The cursor is inside the text or at its end, but when the error is that of a lone minus sign. */
  predicate Inside(t: bytes, o: Outcome, minus: bool) {
    if minus then o.Err? && o.code == NumberError && o.pos == |t| + 1 else o.pos <= |t|
  }

  lemma ScalarInside(t: bytes, p: nat, r: Rules)
    requires p <= |t|
    ensures Inside(t, ScalarAt(t, p, r), LoneMinus(t) && p == |t| - 1)
  {
    hide StringAt;
  }

  lemma {:induction false} ValueInside(t: bytes, p: nat, depth: nat, r: Rules)
    requires p <= |t|
    ensures Inside(t, ValueAt(t, p, depth, r), LoneMinus(t) && ReadsValue(t, p, depth, r, |t| - 1))
    decreases |t| - p, 0
  {
    hide ScalarAt;
    var b := At(t, p);
    if b == Opener(true) || b == Opener(false) {
      BodyInside(t, p + 1, depth + 1, b == Opener(true), r);
    } else {
      ScalarInside(t, p, r);
    }
  }

  lemma {:induction false} BodyInside(t: bytes, p: nat, depth: nat, isArray: bool, r: Rules)
    requires p <= |t|
    ensures Inside(t, BodyAt(t, p, depth, isArray, r), LoneMinus(t) && ReadsBody(t, p, depth, isArray, r, |t| - 1))
    decreases |t| - p, 4
  {
    var s := OpeningEnd(t, p, isArray, r);
    if s.Done? && At(t, s.pos) != Closer(isArray) {
      ElementsInside(t, s.pos, depth, isArray, r);
    }
  }

  lemma {:induction false} ElementInside(t: bytes, p: nat, depth: nat, isArray: bool, r: Rules)
    requires p <= |t|
    ensures Inside(t, ElementAt(t, p, depth, isArray, r), LoneMinus(t) && ReadsElement(t, p, depth, isArray, r, |t| - 1))
    decreases |t| - p, 1
  {
    if isArray {
      ValueInside(t, p, depth, r);
    } else if KeyAt(t, p, r).Ok? {
      ValueInside(t, KeyAt(t, p, r).pos, depth, r);
    }
  }

  lemma {:induction false} ElementsInside(t: bytes, p: nat, depth: nat, isArray: bool, r: Rules)
    requires p <= |t|
    ensures Inside(t, ElementsAt(t, p, depth, isArray, r), LoneMinus(t) && ReadsElements(t, p, depth, isArray, r, |t| - 1))
    decreases |t| - p, 2
  {
    ElementInside(t, p, depth, isArray, r);
    var e := ElementAt(t, p, depth, isArray, r);
    if e.Ok? {
      MoreInside(t, e.pos, depth, isArray, r);
    }
  }

  lemma {:induction false} MoreInside(t: bytes, p: nat, depth: nat, isArray: bool, r: Rules)
    requires p <= |t|
    ensures Inside(t, MoreAt(t, p, depth, isArray, r), LoneMinus(t) && ReadsMore(t, p, depth, isArray, r, |t| - 1))
    decreases |t| - p, 3
  {
    var s := SeparatorEnd(t, p, r);
    if s.Done? && (s.val || (At(t, s.pos) != Closer(isArray) && r.pull && !isArray)) {
      ElementsInside(t, s.pos, depth, isArray, r);
    }
  }

  lemma {:induction false} TopInside(t: bytes, p: nat, r: Rules)
    requires p <= |t|
    ensures Inside(t, TopAt(t, p, r), LoneMinus(t) && ReadsTop(t, p, r, |t| - 1))
    decreases |t| - p
  {
    ValueInside(t, p, 0, r);
    var v := ValueAt(t, p, 0, r);
    if v.Ok? {
      var s := SeparatorEnd(t, v.pos, r);
      if s.Done? && s.val {
        TopInside(t, s.pos, r);
      }
    }
  }

  /**
   * On every input and with every option the cursor ends inside the text, but exactly when the text ends with a
   * minus sign at a position where a value is read: then it ends behind the NUL byte.
   */
  lemma {:induction false} SaxInside(t: bytes, p: nat, r: Rules, multiple: bool, trailing: bool)
    requires p <= |t|
    ensures Inside(t, SaxAt(t, p, r, multiple, trailing), LoneMinus(t) && ReadsAt(t, p, r, multiple, |t| - 1))
    decreases |t| - p
  {
    hide SpaceEnd, TopAt, ReadsTop;
    var w := Space(t, p, r);
    if w.Done? {
      TopInside(t, w.pos, r);
    }
    var o := GenerateAt(t, p, r);
    if o.Ok? && o.pos < |t| && multiple {
      SaxInside(t, o.pos, r, multiple, trailing);
    }
  }

  /** The minus sign on its own does it. */
  lemma MinusPasses(r: Rules, multiple: bool, trailing: bool)
    ensures SaxAt(['-' as int], 0, r, multiple, trailing) == Err([], 2, NumberError)
  {
    var t: bytes := ['-' as int];
    SaxInside(t, 0, r, multiple, trailing);
    assert Space(t, 0, r) == Done((), 0);
    assert Number.ScanNumber(t, 0) == Fail(NumberError, 2);
    assert ValueAt(t, 0, 0, r) == Err([], 2, NumberError);
  }

  // ----- The pull parser -----

  /** A run from a value at p on reads a value at q. */
  predicate PullReads(t: bytes, p: nat, first: bool, r: Rules, tail: Tail, q: nat)
    requires p <= |t|
    decreases |t| - p, 0
  {
    var v := ValueAt(t, p, 0, r);
    && (first || ScalarAt(t, p, r).Err?)
    && (ReadsValue(t, p, 0, r, q) || (v.Ok? && PullReadsBehind(t, v.pos, r, tail, q)))
  }

  predicate PullReadsBehind(t: bytes, p: nat, r: Rules, tail: Tail, q: nat)
    requires p <= |t|
    decreases |t| - p, 1
  {
    var e := Space(t, p, r);
    e.Done? && e.pos < |t| && tail.multiple && PullReads(t, e.pos, false, r, tail, q)
  }

  /** All calls of the pull parser together read a value at q. */
  predicate PullReadsAt(t: bytes, r: Rules, tail: Tail, q: nat) {
    var w := Space(t, 0, r);
    w.Done? && PullReads(t, w.pos, true, r, tail, q)
  }

  /** A run that the assertion ends leaves the cursor inside. */
  predicate TraceInside(t: bytes, x: Trace, minus: bool) {
    match x
    case Ran(o) => Inside(t, o, minus)
    case Broke(_) => !minus
  }

  lemma {:induction false} PullFromInside(t: bytes, p: nat, first: bool, r: Rules, tail: Tail)
    requires p <= |t|
    ensures TraceInside(t, PullFrom(t, p, first, r, tail), LoneMinus(t) && PullReads(t, p, first, r, tail, |t| - 1))
    decreases |t| - p, 0
  {
    hide SpaceEnd, ScalarAt, LoneMinus;
    ValueInside(t, p, 0, r);
    var v := ValueAt(t, p, 0, r);
    hide ValueAt, ReadsValue;
    if v.Ok? {
      PullBehindInside(t, v.pos, r, tail);
    }
  }

  lemma {:induction false} PullBehindInside(t: bytes, p: nat, r: Rules, tail: Tail)
    requires p <= |t|
    ensures TraceInside(t, PullBehind(t, p, r, tail), LoneMinus(t) && PullReadsBehind(t, p, r, tail, |t| - 1))
    decreases |t| - p, 1
  {
    hide SpaceEnd, PullFrom, PullReads, LoneMinus;
    var e := Space(t, p, r);
    if e.Done? && e.pos < |t| && tail.multiple {
      PullFromInside(t, e.pos, false, r, tail);
    }
  }

  /** On every input and with every option a run of the pull parser passes the end of the text in that case only. */
  lemma PullInside(t: bytes, r: Rules, tail: Tail)
    requires r.pull
    ensures TraceInside(t, Run(t, PullMachine.START, r, tail), LoneMinus(t) && PullReadsAt(t, r, tail, |t| - 1))
  {
    hide Run, SpaceEnd, PullFrom, PullReads, LoneMinus;
    PullIsDescent(t, r, tail);
    var w := Space(t, 0, r);
    if w.Done? {
      PullFromInside(t, w.pos, true, r, tail);
    }
  }
}
