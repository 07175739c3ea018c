/**
 * The flattened parse: one loop over a stack of open containers, as a function of the text, the
 * cursor and the stack. It is proved to be the recursive descent, errors and positions included.
 */
module Loop {
  import opened Base
  import opened Descent

  function Top(stk: seq<bool>): bool
    requires stk != []
  {
    stk[|stk| - 1]
  }

  function Pop(stk: seq<bool>): seq<bool>
    requires stk != []
  {
    stk[..|stk| - 1]
  }

  /** The head of the loop: a key comes first inside an object. */
  function Head(t: bytes, p: nat, stk: seq<bool>, r: Rules): (o: Outcome)
    requires p <= |t| && |stk| <= r.size
    ensures o.Ok? ==> p < o.pos <= |t|
    decreases |t| - p, 1
  {
    if stk != [] && !Top(stk) then
      var k := KeyAt(t, p, r);
      if k.Err? then k else Emit(k.evs, Value(t, k.pos, stk, r))
    else Value(t, p, stk, r)
  }

  /** The switch on the first byte of a value. */
  function Value(t: bytes, p: nat, stk: seq<bool>, r: Rules): (o: Outcome)
    requires p <= |t| && |stk| <= r.size
    ensures o.Ok? ==> p < o.pos <= |t|
    decreases |t| - p, 0
  {
    var b := At(t, p);
    if b == Opener(true) || b == Opener(false) then
      var isArray := b == Opener(true);
      if |stk| >= r.size then Err([], p + 1, StackOverflow)
      else Emit([StartOf(isArray)], Opened(t, p + 1, stk + [isArray], r))
    else
      var s := ScalarAt(t, p, r);
      if s.Err? then s else Emit(s.evs, After(t, s.pos, stk, r))
  }

  /** Behind an opening bracket: an empty container ends at once. */
  function Opened(t: bytes, p: nat, stk: seq<bool>, r: Rules): (o: Outcome)
    requires p <= |t| && 0 < |stk| <= r.size
    ensures o.Ok? ==> p < o.pos <= |t|
    decreases |t| - p, 2
  {
    var s := OpeningEnd(t, p, Top(stk), r);
    if s.Fail? then Err([], s.pos, s.code)
    else if At(t, s.pos) == Closer(Top(stk)) then Emit([EndOf(Top(stk))], After(t, s.pos + 1, Pop(stk), r))
    else Head(t, s.pos, stk, r)
  }

  /** The inner loop behind a value: closing brackets, then a comma or the end. */
  function After(t: bytes, p: nat, stk: seq<bool>, r: Rules): (o: Outcome)
    requires p <= |t| && |stk| <= r.size
    ensures o.Ok? ==> p <= o.pos <= |t|
    decreases |t| - p, 0
  {
    var s := SeparatorEnd(t, p, r);
    if s.Fail? then Err([], s.pos, s.code)
    else if s.val then Head(t, s.pos, stk, r)
    else if stk != [] && At(t, s.pos) == Closer(Top(stk)) then
      Emit([EndOf(Top(stk))], After(t, s.pos + 1, Pop(stk), r))
    else if stk == [] then Ok([], s.pos)
    else Err([], s.pos, Unexpected)
  }

  /** The rest of the loop behind what the descent has read. */
  function Continue(t: bytes, v: Outcome, stk: seq<bool>, r: Rules): Outcome
    requires |stk| <= r.size && (v.Ok? ==> v.pos <= |t|)
  {
    if v.Err? then v else Emit(v.evs, After(t, v.pos, stk, r))
  }

  lemma EmitContinue(t: bytes, evs: seq<Event>, v: Outcome, stk: seq<bool>, r: Rules)
    requires |stk| <= r.size && (v.Ok? ==> v.pos <= |t|)
    ensures Emit(evs, Continue(t, v, stk, r)) == Continue(t, Emit(evs, v), stk, r)
  {
    if v.Ok? {
      EmitEmit(evs, v.evs, After(t, v.pos, stk, r));
    }
  }

  // A value, an element and the rest of a container are read by the loop as by the descent.

  lemma {:induction false} ValueIsDescent(t: bytes, p: nat, stk: seq<bool>, r: Rules)
    requires p <= |t| && |stk| <= r.size && !r.pull
    ensures Value(t, p, stk, r) == Continue(t, ValueAt(t, p, |stk|, r), stk, r)
    decreases |t| - p, 0
  {
    var b := At(t, p);
    if (b == Opener(true) || b == Opener(false)) && |stk| < r.size {
      var isArray := b == Opener(true);
      BodyIsDescent(t, p + 1, stk + [isArray], r);
      assert Pop(stk + [isArray]) == stk;
      EmitContinue(t, [StartOf(isArray)], BodyAt(t, p + 1, |stk| + 1, isArray, r), stk, r);
    }
  }

  lemma {:induction false} BodyIsDescent(t: bytes, p: nat, stk: seq<bool>, r: Rules)
    requires p <= |t| && 0 < |stk| <= r.size && !r.pull
    ensures Opened(t, p, stk, r) == Continue(t, BodyAt(t, p, |stk|, Top(stk), r), Pop(stk), r)
    decreases |t| - p, 4
  {
    var s := OpeningEnd(t, p, Top(stk), r);
    if s.Done? && At(t, s.pos) != Closer(Top(stk)) {
      ElementsIsDescent(t, s.pos, stk, r);
    }
  }

  lemma {:induction false} ElementsIsDescent(t: bytes, p: nat, stk: seq<bool>, r: Rules)
    requires p <= |t| && 0 < |stk| <= r.size && !r.pull
    ensures Head(t, p, stk, r) == Continue(t, ElementsAt(t, p, |stk|, Top(stk), r), Pop(stk), r)
    decreases |t| - p, 2
  {
    var e := ElementAt(t, p, |stk|, Top(stk), r);
    ElementIsDescent(t, p, stk, r);
    if e.Ok? {
      MoreIsDescent(t, e.pos, stk, r);
      EmitContinue(t, e.evs, MoreAt(t, e.pos, |stk|, Top(stk), r), Pop(stk), r);
    }
  }

  lemma {:induction false} ElementIsDescent(t: bytes, p: nat, stk: seq<bool>, r: Rules)
    requires p <= |t| && 0 < |stk| <= r.size && !r.pull
    ensures Head(t, p, stk, r) == Continue(t, ElementAt(t, p, |stk|, Top(stk), r), stk, r)
    decreases |t| - p, 1
  {
    if Top(stk) {
      ValueIsDescent(t, p, stk, r);
    } else {
      var k := KeyAt(t, p, r);
      if k.Ok? {
        ValueIsDescent(t, k.pos, stk, r);
        EmitContinue(t, k.evs, ValueAt(t, k.pos, |stk|, r), stk, r);
      }
    }
  }

  lemma {:induction false} MoreIsDescent(t: bytes, p: nat, stk: seq<bool>, r: Rules)
    requires p <= |t| && 0 < |stk| <= r.size && !r.pull
    ensures After(t, p, stk, r) == Continue(t, MoreAt(t, p, |stk|, Top(stk), r), Pop(stk), r)
    decreases |t| - p, 3
  {
    var s := SeparatorEnd(t, p, r);
    if s.Done? && s.val {
      ElementsIsDescent(t, s.pos, stk, r);
    }
  }

  /** The flattened loop is the recursive descent. */
  lemma {:induction false} LoopIsDescent(t: bytes, p: nat, r: Rules)
    requires p <= |t| && !r.pull
    ensures Head(t, p, [], r) == TopAt(t, p, r)
    decreases |t| - p
  {
    ValueIsDescent(t, p, [], r);
    var v := ValueAt(t, p, 0, r);
    if v.Ok? {
      var s := SeparatorEnd(t, v.pos, r);
      if s.Done? && s.val {
        LoopIsDescent(t, s.pos, r);
      }
    }
  }
}
