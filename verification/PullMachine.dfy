/**
 * The pull parser as a state machine: one step per call. Its runs are proved to be the recursive
 * descent that reads containers as the pull parser does, with every option.
 */
module PullMachine {
  import opened Base
  import opened Text
  import opened Descent
  import opened Loop

  /** The states that are stored between calls. */
  datatype State = Start | InObject | AfterKey | KeyValue | InArray | ArrayValue | AtEnd | AtEof

  datatype Config = Config(pos: nat, state: State, stk: seq<bool>)

  datatype Step =
    | Item(ev: Event, next: Config)
    | End(next: Config)
    | Failed(code: ErrorCode, next: Config)
    | Abort

  datatype Tail = Tail(multiple: bool, trailing: bool)

  /** What the stored state and the stack say about each other between calls, also after errors. */
  predicate Consistent(c: Config, r: Rules) {
    && |c.stk| <= r.size
    && match c.state
       case Start | AtEnd | AtEof => c.stk == []
       case InObject | AfterKey | KeyValue => c.stk != [] && !Top(c.stk)
       case InArray | ArrayValue => c.stk != [] && Top(c.stk)
  }

  /** The state behind a scalar; there is none for a state that does not expect a value. */
  function NextState(s: State): Option<State> {
    match s
    case Start => Some(AtEnd)
    case AfterKey => Some(KeyValue)
    case InArray | ArrayValue => Some(ArrayValue)
    case _ => None
  }

  /** The state behind a value inside the containers stk. */
  function ValueState(stk: seq<bool>): State {
    if stk == [] then AtEnd else if Top(stk) then ArrayValue else KeyValue
  }

  function OpenState(isArray: bool): State {
    if isArray then InArray else InObject
  }

  /** A value is expected at p. */
  function ValueStep(t: bytes, p: nat, c: Config, r: Rules): (s: Step)
    requires p <= |t|
    ensures s.Item? ==> p < s.next.pos <= |t|
    ensures !s.Abort? ==> s.next.pos <= |t| + 1
  {
    var b := At(t, p);
    if b == Opener(true) || b == Opener(false) then
      var isArray := b == Opener(true);
      if |c.stk| >= r.size then Failed(StackOverflow, c.(pos := p + 1))
      else Item(StartOf(isArray), Config(p + 1, OpenState(isArray), c.stk + [isArray]))
    else
      var o := ScalarAt(t, p, r);
      if o.Err? then Failed(o.code, c.(pos := o.pos))
      else if NextState(c.state).None? then Abort
      else Item(o.evs[0], Config(o.pos, NextState(c.state).value, c.stk))
  }

  /** A key is expected at p. */
  function KeyStep(t: bytes, p: nat, c: Config, r: Rules): (s: Step)
    requires p <= |t|
    ensures !s.Abort? && !s.End? && s.next.pos <= |t| && (s.Item? ==> p < s.next.pos)
  {
    var k := KeyColon(t, p, r);
    if k.Fail? then Failed(k.code, c.(pos := k.pos)) else Item(Key(k.val), Config(k.pos, AfterKey, c.stk))
  }

  function EndStep(p: nat, c: Config): Step
    requires c.stk != []
  {
    Item(EndOf(Top(c.stk)), Config(p + 1, ValueState(Pop(c.stk)), Pop(c.stk)))
  }

  /** Behind a comma, or where it is missing: another element, or the closing bracket when trailing commas are allowed. */
  function NextStep(t: bytes, p: nat, c: Config, r: Rules): (s: Step)
    requires p <= |t| && c.stk != []
    ensures s.Item? ==> p < s.next.pos <= |t|
    ensures !s.Abort? ==> s.next.pos <= |t| + 1
  {
    var isArray := Top(c.stk);
    if r.trailingCommas && At(t, p) == Closer(isArray) then EndStep(p, c)
    else if isArray then ValueStep(t, p, c, r)
    else KeyStep(t, p, c, r)
  }

  /** Behind a value in a container: the closing bracket, a comma, and for objects perhaps neither. */
  function MoreStep(t: bytes, p: nat, c: Config, r: Rules): (s: Step)
    requires p <= |t| && c.stk != []
    ensures s.Item? ==> p < s.next.pos <= |t|
    ensures !s.Abort? ==> s.next.pos <= |t| + 1
  {
    var isArray := Top(c.stk);
    if At(t, p) == Closer(isArray) then EndStep(p, c)
    else if At(t, p) != COMMA && isArray then Failed(Unexpected, c.(pos := p))
    else
      var w := if At(t, p) == COMMA then Space(t, p + 1, r) else Done((), p);
      if w.Fail? then Failed(w.code, c.(pos := w.pos)) else NextStep(t, w.pos, c, r)
  }

  /** Behind the top-level value and the space that follows it. */
  function EndOfValue(t: bytes, p: nat, c: Config, r: Rules, tail: Tail): (s: Step)
    requires p <= |t|
    ensures s.Item? ==> p < s.next.pos <= |t|
    ensures !s.Abort? ==> s.next.pos <= |t| + 1
  {
    if p == |t| || (!tail.multiple && tail.trailing) then End(Config(p, AtEof, c.stk))
    else if tail.multiple then ValueStep(t, p, c, r)
    else Failed(Unexpected, c.(pos := p))
  }

  /** One call of the pull parser, behind the space it skips first. */
  function StepAt(t: bytes, p: nat, c: Config, r: Rules, tail: Tail): (s: Step)
    requires p <= |t| && Consistent(c, r)
    ensures s.Item? ==> p < s.next.pos
    ensures s.Item? || s.End? ==> s.next.pos <= |t|
    ensures !s.Abort? ==> s.next.pos <= |t| + 1
  {
    match c.state
    case AtEof => Failed(EofError, c.(pos := p))
    case KeyValue | ArrayValue => MoreStep(t, p, c, r)
    case InObject => if At(t, p) == Closer(false) then EndStep(p, c) else KeyStep(t, p, c, r)
    case InArray => if At(t, p) == Closer(true) then EndStep(p, c) else ValueStep(t, p, c, r)
    case AtEnd => EndOfValue(t, p, c, r, tail)
    case Start | AfterKey => ValueStep(t, p, c, r)
  }

  /** One call of the pull parser. */
  function PullStep(t: bytes, c: Config, r: Rules, tail: Tail): (s: Step)
    requires c.pos <= |t| && Consistent(c, r)
    ensures s.Item? ==> c.pos < s.next.pos
    ensures s.Item? || s.End? ==> s.next.pos <= |t|
    ensures !s.Abort? ==> s.next.pos <= |t| + 1
  {
    var w := Space(t, c.pos, r);
    if w.Fail? then Failed(w.code, c.(pos := w.pos)) else StepAt(t, w.pos, c, r, tail)
  }

  lemma ValueIgnoresPosition(t: bytes, p: nat, c: Config, q: nat, r: Rules)
    requires p <= |t|
    ensures ValueStep(t, p, c.(pos := q), r) == ValueStep(t, p, c, r)
    ensures KeyStep(t, p, c.(pos := q), r) == KeyStep(t, p, c, r)
  {
    hide ScalarAt, KeyColon;
  }

  /** A step leads on from where it reads, not from where the call began. */
  lemma StepIgnoresPosition(t: bytes, p: nat, c: Config, q: nat, r: Rules, tail: Tail)
    requires p <= |t| && Consistent(c, r)
    ensures StepAt(t, p, c.(pos := q), r, tail) == StepAt(t, p, c, r, tail)
    ensures ValueStep(t, p, c.(pos := q), r) == ValueStep(t, p, c, r)
    ensures KeyStep(t, p, c.(pos := q), r) == KeyStep(t, p, c, r)
    ensures c.stk != [] ==> NextStep(t, p, c.(pos := q), r) == NextStep(t, p, c, r)
  {
    hide SpaceEnd, ValueStep, KeyStep;
    ValueIgnoresPosition(t, p, c, q, r);
    if At(t, p) == COMMA && Space(t, p + 1, r).Done? {
      ValueIgnoresPosition(t, Space(t, p + 1, r).pos, c, q, r);
    }
  }

  // ----- Every run -----

  lemma ValueStepConsistent(t: bytes, p: nat, c: Config, r: Rules)
    requires p <= |t| && Consistent(c, r)
    ensures var s := ValueStep(t, p, c, r); !s.Abort? ==> Consistent(s.next, r)
  {
  }

  lemma EndStepConsistent(p: nat, c: Config, r: Rules)
    requires Consistent(c, r) && c.stk != []
    ensures Consistent(EndStep(p, c).next, r)
  {
  }

  /** Whatever a call returns, the state it leaves behind is consistent with the stack. */
  lemma StepConsistent(t: bytes, c: Config, r: Rules, tail: Tail)
    requires c.pos <= |t| && Consistent(c, r)
    ensures var s := PullStep(t, c, r, tail); !s.Abort? ==> Consistent(s.next, r)
  {
    var w := Space(t, c.pos, r);
    if w.Done? {
      ValueStepConsistent(t, w.pos, c, r);
      if c.stk != [] {
        EndStepConsistent(w.pos, c, r);
        MoreStepConsistent(t, w.pos, c, r);
      }
    }
  }

  lemma MoreStepConsistent(t: bytes, p: nat, c: Config, r: Rules)
    requires p <= |t| && Consistent(c, r) && c.stk != []
    ensures var s := MoreStep(t, p, c, r);
      (c.state == KeyValue || c.state == ArrayValue) && !s.Abort? ==> Consistent(s.next, r)
  {
    var w := if At(t, p) == COMMA then Space(t, p + 1, r) else Done((), p);
    EndStepConsistent(p, c, r);
    if w.Done? {
      EndStepConsistent(w.pos, c, r);
      ValueStepConsistent(t, w.pos, c, r);
    }
  }

  /** The invalid-state assertion fails exactly on a second top-level value that is a scalar. */
  lemma AbortIff(t: bytes, c: Config, r: Rules, tail: Tail)
    requires c.pos <= |t| && Consistent(c, r)
    ensures var w := Space(t, c.pos, r);
      PullStep(t, c, r, tail).Abort?
      <==> c.state == AtEnd && tail.multiple && w.Done? && w.pos < |t| && ScalarAt(t, w.pos, r).Ok?
  {
    var w := Space(t, c.pos, r);
    if w.Done? && (At(t, w.pos) == Opener(true) || At(t, w.pos) == Opener(false)) {
      OpenersAreNoScalars(t, w.pos, r);
    }
  }

  lemma OpenersAreNoScalars(t: bytes, p: nat, r: Rules)
    requires p <= |t| && (At(t, p) == Opener(true) || At(t, p) == Opener(false))
    ensures ScalarAt(t, p, r) == Err([], p, Unexpected)
  {
  }

  /** What all the calls of a run deliver: an outcome, or events up to a call that the assertion ends. */
  datatype Trace = Ran(o: Outcome) | Broke(evs: seq<Event>)

  function EmitTrace(evs: seq<Event>, x: Trace): Trace {
    match x
    case Ran(o) => Ran(Emit(evs, o))
    case Broke(more) => Broke(evs + more)
  }

  lemma EmitEmitTrace(a: seq<Event>, b: seq<Event>, x: Trace)
    ensures EmitTrace(a, EmitTrace(b, x)) == EmitTrace(a + b, x)
    ensures EmitTrace([], x) == x
  {
    if x.Ran? {
      EmitEmit(a, b, x.o);
    } else {
      assert a + (b + x.evs) == a + b + x.evs;
      assert [] + x.evs == x.evs;
    }
  }

  /** The rest of a run whose next step is s. */
  function RunFrom(t: bytes, s: Step, r: Rules, tail: Tail): Trace
    requires s.Item? ==> s.next.pos <= |t| && Consistent(s.next, r)
    decreases if s.Item? && s.next.pos <= |t| then |t| - s.next.pos + 1 else 0, 1
  {
    match s
    case Item(ev, next) => EmitTrace([ev], Run(t, next, r, tail))
    case End(next) => Ran(Ok([], next.pos))
    case Failed(code, next) => Ran(Err([], next.pos, code))
    case Abort => Broke([])
  }

  /** All calls until the end of the input, an error or the failing assertion. */
  function Run(t: bytes, c: Config, r: Rules, tail: Tail): Trace
    requires c.pos <= |t| && Consistent(c, r)
    decreases |t| - c.pos + 1, 0
  {
    StepConsistent(t, c, r, tail);
    RunFrom(t, PullStep(t, c, r, tail), r, tail)
  }

  // ----- Runs are the descent -----

  /** The run behind what the descent has read inside the containers stk. */
  function Continue(t: bytes, v: Outcome, stk: seq<bool>, r: Rules, tail: Tail): Trace
    requires |stk| <= r.size && (v.Ok? ==> v.pos <= |t|)
  {
    if v.Err? then Ran(v) else EmitTrace(v.evs, Run(t, Config(v.pos, ValueState(stk), stk), r, tail))
  }

  lemma EmitContinue(t: bytes, evs: seq<Event>, v: Outcome, stk: seq<bool>, r: Rules, tail: Tail)
    requires |stk| <= r.size && (v.Ok? ==> v.pos <= |t|)
    ensures EmitTrace(evs, Continue(t, v, stk, r, tail)) == Continue(t, Emit(evs, v), stk, r, tail)
  {
    if v.Ok? {
      EmitEmitTrace(evs, v.evs, Run(t, Config(v.pos, ValueState(stk), stk), r, tail));
    }
  }

  predicate ExpectsValue(c: Config, r: Rules) {
    Consistent(c, r) && NextState(c.state).Some?
  }

  lemma {:induction false} ValueIsDescent(t: bytes, p: nat, c: Config, r: Rules, tail: Tail)
    requires p <= |t| && ExpectsValue(c, r) && r.pull
    ensures ValueStep(t, p, c, r).Item? ==>
      ValueStep(t, p, c, r).next.pos <= |t| && Consistent(ValueStep(t, p, c, r).next, r)
    ensures RunFrom(t, ValueStep(t, p, c, r), r, tail) == Continue(t, ValueAt(t, p, |c.stk|, r), c.stk, r, tail)
    decreases |t| - p, 0
  {
    hide ScalarAt, BodyAt, Run, SpaceEnd;
    var b := At(t, p);
    if b == Opener(true) || b == Opener(false) {
      var isArray := b == Opener(true);
      if |c.stk| < r.size {
        BodyIsDescent(t, p + 1, c.stk + [isArray], r, tail);
        assert Pop(c.stk + [isArray]) == c.stk;
        ContainerStep(t, p, c, isArray, r, tail);
      }
    } else {
      ScalarStep(t, p, c, r, tail);
    }
  }

  lemma ContainerStep(t: bytes, p: nat, c: Config, isArray: bool, r: Rules, tail: Tail)
    requires p < |t| && t[p] == Opener(isArray) && |c.stk| < r.size && Consistent(c, r)
    requires Run(t, Config(p + 1, OpenState(isArray), c.stk + [isArray]), r, tail)
          == Continue(t, BodyAt(t, p + 1, |c.stk| + 1, isArray, r), c.stk, r, tail)
    ensures Consistent(Config(p + 1, OpenState(isArray), c.stk + [isArray]), r)
    ensures RunFrom(t, ValueStep(t, p, c, r), r, tail) == Continue(t, ValueAt(t, p, |c.stk|, r), c.stk, r, tail)
  {
    EmitContinue(t, [StartOf(isArray)], BodyAt(t, p + 1, |c.stk| + 1, isArray, r), c.stk, r, tail);
  }

  lemma ScalarStep(t: bytes, p: nat, c: Config, r: Rules, tail: Tail)
    requires p <= |t| && At(t, p) != Opener(true) && At(t, p) != Opener(false) && ExpectsValue(c, r)
    ensures ValueStep(t, p, c, r).Item? ==> Consistent(ValueStep(t, p, c, r).next, r)
    ensures RunFrom(t, ValueStep(t, p, c, r), r, tail) == Continue(t, ValueAt(t, p, |c.stk|, r), c.stk, r, tail)
  {
    var o := ScalarAt(t, p, r);
    if o.Ok? {
      assert o.evs == [o.evs[0]];
    }
  }

  lemma {:induction false} BodyIsDescent(t: bytes, p: nat, stk: seq<bool>, r: Rules, tail: Tail)
    requires p <= |t| && 0 < |stk| <= r.size && r.pull
    ensures Run(t, Config(p, OpenState(Top(stk)), stk), r, tail)
         == Continue(t, BodyAt(t, p, |stk|, Top(stk), r), Pop(stk), r, tail)
    decreases |t| - p, 4
  {
    var c := Config(p, OpenState(Top(stk)), stk);
    var w := Space(t, p, r);
    if w.Done? && At(t, w.pos) != Closer(Top(stk)) {
      ElementsIsDescent(t, w.pos, c, r, tail);
    }
  }

  /** An element is expected at p. */
  function ElementStep(t: bytes, p: nat, c: Config, r: Rules): (s: Step)
    requires p <= |t| && c.stk != []
  {
    if Top(c.stk) then ValueStep(t, p, c, r) else KeyStep(t, p, c, r)
  }

  lemma {:induction false} ElementsIsDescent(t: bytes, p: nat, c: Config, r: Rules, tail: Tail)
    requires p <= |t| && Consistent(c, r) && c.stk != [] && c.state in {InArray, ArrayValue, InObject, KeyValue}
    requires r.pull
    ensures ElementStep(t, p, c, r).Item? ==>
      ElementStep(t, p, c, r).next.pos <= |t| && Consistent(ElementStep(t, p, c, r).next, r)
    ensures RunFrom(t, ElementStep(t, p, c, r), r, tail)
         == Continue(t, ElementsAt(t, p, |c.stk|, Top(c.stk), r), Pop(c.stk), r, tail)
    decreases |t| - p, 2
  {
    ValueStepConsistent(t, p, c, r);
    ElementIsDescent(t, p, c, r, tail);
    var e := ElementAt(t, p, |c.stk|, Top(c.stk), r);
    if e.Ok? {
      MoreIsDescent(t, e.pos, c.stk, r, tail);
      EmitContinue(t, e.evs, MoreAt(t, e.pos, |c.stk|, Top(c.stk), r), Pop(c.stk), r, tail);
    }
  }

  lemma {:induction false} ElementIsDescent(t: bytes, p: nat, c: Config, r: Rules, tail: Tail)
    requires p <= |t| && Consistent(c, r) && c.stk != [] && c.state in {InArray, ArrayValue, InObject, KeyValue}
    requires r.pull
    ensures ElementStep(t, p, c, r).Item? ==>
      ElementStep(t, p, c, r).next.pos <= |t| && Consistent(ElementStep(t, p, c, r).next, r)
    ensures RunFrom(t, ElementStep(t, p, c, r), r, tail)
         == Continue(t, ElementAt(t, p, |c.stk|, Top(c.stk), r), c.stk, r, tail)
    decreases |t| - p, 1
  {
    if Top(c.stk) {
      ValueIsDescent(t, p, c, r, tail);
      ValueStepConsistent(t, p, c, r);
    } else {
      var k := KeyColon(t, p, r);
      if k.Done? {
        var c' := Config(k.pos, AfterKey, c.stk);
        var w := Space(t, k.pos, r);
        assert PullStep(t, c', r, tail) == if w.Fail? then Failed(w.code, c'.(pos := w.pos)) else ValueStep(t, w.pos, c', r);
        if w.Done? {
          ValueIsDescent(t, w.pos, c', r, tail);
          EmitContinue(t, [Key(k.val)], ValueAt(t, w.pos, |c.stk|, r), c.stk, r, tail);
        } else {
          assert Run(t, c', r, tail) == Ran(Err([], w.pos, w.code));
          assert ElementAt(t, p, |c.stk|, false, r) == Err([Key(k.val)], w.pos, w.code);
        }
      }
    }
  }

  lemma CloserFails(t: bytes, p: nat, c: Config, r: Rules)
    requires p <= |t|
    ensures IsCloser(At(t, p)) ==> ValueStep(t, p, c, r) == Failed(Unexpected, c.(pos := p))
  {
  }

  /** Behind a value the pull parser takes a separator as the descent does. */
  lemma MoreStepIsSeparator(t: bytes, c: Config, r: Rules, tail: Tail)
    requires c.pos <= |t| && Consistent(c, r) && (c.state == KeyValue || c.state == ArrayValue) && r.pull
    ensures PullStep(t, c, r, tail) ==
      var s, isArray := SeparatorEnd(t, c.pos, r), Top(c.stk);
      if s.Fail? then Failed(s.code, c.(pos := s.pos))
      else if s.val then ElementStep(t, s.pos, c, r)
      else if At(t, s.pos) == Closer(isArray) then EndStep(s.pos, c)
      else if isArray then Failed(Unexpected, c.(pos := s.pos))
      else ElementStep(t, s.pos, c, r)
  {
    hide SpaceEnd, ValueStep, KeyStep, EndStep;
    var s := SeparatorEnd(t, c.pos, r);
    CloserFails(t, s.pos, c, r);
  }

  lemma {:induction false} MoreIsDescent(t: bytes, p: nat, stk: seq<bool>, r: Rules, tail: Tail)
    requires p <= |t| && 0 < |stk| <= r.size && r.pull
    ensures Run(t, Config(p, ValueState(stk), stk), r, tail)
         == Continue(t, MoreAt(t, p, |stk|, Top(stk), r), Pop(stk), r, tail)
    decreases |t| - p, 3
  {
    var c := Config(p, ValueState(stk), stk);
    MoreStepIsSeparator(t, c, r, tail);
    var s := SeparatorEnd(t, p, r);
    if s.Done? && (s.val || (At(t, s.pos) != Closer(Top(stk)) && !Top(stk))) {
      ElementsIsDescent(t, s.pos, c, r, tail);
    }
  }

  // ----- Whole runs -----

  /** Values from p on; only the first of the text can be a scalar. */
  function PullFrom(t: bytes, p: nat, first: bool, r: Rules, tail: Tail): Trace
    requires p <= |t|
    decreases |t| - p, 0
  {
    var v := ValueAt(t, p, 0, r);
    if !first && ScalarAt(t, p, r).Ok? then Broke([])
    else if v.Err? then Ran(v)
    else EmitTrace(v.evs, PullBehind(t, v.pos, r, tail))
  }

  /** Behind a top-level value: the end of the text or, when several values are allowed, another one. */
  function PullBehind(t: bytes, p: nat, r: Rules, tail: Tail): Trace
    requires p <= |t|
    decreases |t| - p, 1
  {
    var e := Space(t, p, r);
    if e.Fail? then Ran(Err([], e.pos, e.code))
    else if e.pos == |t| || (!tail.multiple && tail.trailing) then Ran(Ok([], e.pos))
    else if tail.multiple then PullFrom(t, e.pos, false, r, tail)
    else Ran(Err([], e.pos, Unexpected))
  }

  function PullText(t: bytes, r: Rules, tail: Tail): Trace {
    var w := Space(t, 0, r);
    if w.Fail? then Ran(Err([], w.pos, w.code)) else PullFrom(t, w.pos, true, r, tail)
  }

  const START: Config := Config(0, Start, [])

  lemma FailedScalar(t: bytes, p: nat, r: Rules)
    requires p <= |t| && ScalarAt(t, p, r).Err?
    ensures ScalarAt(t, p, r) == Err([], ScalarAt(t, p, r).pos, ScalarAt(t, p, r).code)
  {
  }

  /** A container behind the first value is read like the first. */
  lemma FurtherContainer(t: bytes, p: nat, c: Config, isArray: bool, r: Rules, tail: Tail)
    requires p < |t| && t[p] == Opener(isArray) && Consistent(c, r) && c.stk == [] && r.pull
    ensures ValueStep(t, p, c, r).Item? ==>
      ValueStep(t, p, c, r).next.pos <= |t| && Consistent(ValueStep(t, p, c, r).next, r)
    ensures RunFrom(t, ValueStep(t, p, c, r), r, tail) == Continue(t, ValueAt(t, p, 0, r), [], r, tail)
  {
    hide ScalarAt, BodyAt, Run, SpaceEnd;
    if 0 < r.size {
      BodyIsDescent(t, p + 1, [isArray], r, tail);
      assert Pop([isArray]) == [] && [] + [isArray] == [isArray];
      ContainerStep(t, p, c, isArray, r, tail);
    }
  }

  /** A scalar behind the first value breaks the run. */
  lemma FurtherScalar(t: bytes, p: nat, c: Config, r: Rules, tail: Tail)
    requires p <= |t| && At(t, p) != Opener(true) && At(t, p) != Opener(false) && c.state == AtEnd && c.stk == []
    ensures !ValueStep(t, p, c, r).Item?
    ensures RunFrom(t, ValueStep(t, p, c, r), r, tail)
         == if ScalarAt(t, p, r).Ok? then Broke([]) else Continue(t, ValueAt(t, p, 0, r), [], r, tail)
  {
    hide ScalarAt, Run;
    if ScalarAt(t, p, r).Err? {
      FailedScalar(t, p, r);
    }
  }

  /** A value behind the first: a container is read like the first, a scalar breaks the run. */
  lemma FurtherValue(t: bytes, p: nat, c: Config, r: Rules, tail: Tail)
    requires p <= |t| && Consistent(c, r) && c.state == AtEnd && r.pull
    ensures ValueStep(t, p, c, r).Item? ==>
      ValueStep(t, p, c, r).next.pos <= |t| && Consistent(ValueStep(t, p, c, r).next, r)
    ensures RunFrom(t, ValueStep(t, p, c, r), r, tail)
         == if ScalarAt(t, p, r).Ok? then Broke([]) else Continue(t, ValueAt(t, p, 0, r), [], r, tail)
  {
    hide ScalarAt, ValueAt, ValueStep, Run, RunFrom, Continue;
    var b := At(t, p);
    if b == Opener(true) || b == Opener(false) {
      OpenersAreNoScalars(t, p, r);
      FurtherContainer(t, p, c, b == Opener(true), r, tail);
    } else {
      FurtherScalar(t, p, c, r, tail);
    }
  }

  lemma {:induction false} BehindIsRun(t: bytes, p: nat, r: Rules, tail: Tail)
    requires p <= |t| && r.pull
    ensures Run(t, Config(p, AtEnd, []), r, tail) == PullBehind(t, p, r, tail)
    decreases |t| - p
  {
    hide SpaceEnd, ValueAt, ScalarAt, ValueStep;
    var c := Config(p, AtEnd, []);
    var e := Space(t, p, r);
    if e.Done? && e.pos < |t| && tail.multiple {
      FurtherValue(t, e.pos, c, r, tail);
      var v := ValueAt(t, e.pos, 0, r);
      if v.Ok? {
        BehindIsRun(t, v.pos, r, tail);
      }
    }
  }

  /** Every run of the pull parser, failing ones included, is the descent. */
  lemma PullIsDescent(t: bytes, r: Rules, tail: Tail)
    requires r.pull
    ensures Run(t, START, r, tail) == PullText(t, r, tail)
  {
    hide SpaceEnd, ValueAt, ScalarAt, ValueStep, PullBehind;
    var w := Space(t, 0, r);
    if w.Done? {
      ValueIsDescent(t, w.pos, START, r, tail);
      var v := ValueAt(t, w.pos, 0, r);
      if v.Ok? {
        BehindIsRun(t, v.pos, r, tail);
      }
    }
  }

  /** Once the end has been returned every further call fails, at the same place. */
  lemma AfterEof(t: bytes, c: Config, r: Rules, tail: Tail)
    requires c.pos <= |t| && Consistent(c, r) && PullStep(t, c, r, tail).End?
    ensures var end := PullStep(t, c, r, tail).next;
      Consistent(end, r) && PullStep(t, end, r, tail) == Failed(EofError, end)
  {
    var w := Space(t, c.pos, r);
    SpaceEndIdempotent(t, w.pos, r.comments);
  }
}
