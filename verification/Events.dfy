/** Value trees, the events they flatten to, and the generator checks as an automaton over events. */
module Events {
  import opened Base

  datatype Tree =
    | NullTree
    | BooleanTree(b: bool)
    | IntegerTree(n: int)
    | RealTree(neg: bool, sig: nat, exp: int)
    | StringTree(s: bytes)
    | ArrayTree(items: Forest)
    | ObjectTree(members: Forest)

  /** The items of an array, or the members of an object with their keys. */
  datatype Forest = Nil | Cons(key: Option<bytes>, head: Tree, tail: Forest)

  /** Members have keys, items have none. */
  predicate Keyed(f: Forest, keyed: bool) {
    f.Cons? ==> f.key.Some? == keyed && WfTree(f.head) && Keyed(f.tail, keyed)
  }

  predicate WfTree(v: Tree) {
    match v
    case ArrayTree(f) => Keyed(f, false)
    case ObjectTree(f) => Keyed(f, true)
    case _ => true
  }

  function TreeEvents(v: Tree): seq<Event> {
    match v
    case NullTree => [Null]
    case BooleanTree(b) => [Boolean(b)]
    case IntegerTree(n) => [Integer(n)]
    case RealTree(neg, sig, exp) => [Real(neg, sig, exp)]
    case StringTree(s) => [Str(s)]
    case ArrayTree(f) => [StartArray] + (ForestEvents(f) + [EndArray])
    case ObjectTree(f) => [StartObject] + (ForestEvents(f) + [EndObject])
  }

  function KeyEvents(key: Option<bytes>): seq<Event> {
    if key.Some? then [Key(key.value)] else []
  }

  function ForestEvents(f: Forest): seq<Event> {
    if f.Nil? then [] else KeyEvents(f.key) + (TreeEvents(f.head) + ForestEvents(f.tail))
  }

  function TreeDepth(v: Tree): nat {
    match v
    case ArrayTree(f) => 1 + ForestDepth(f)
    case ObjectTree(f) => 1 + ForestDepth(f)
    case _ => 0
  }

  function ForestDepth(f: Forest): nat {
    if f.Nil? then 0
    else if TreeDepth(f.head) > ForestDepth(f.tail) then TreeDepth(f.head) else ForestDepth(f.tail)
  }

  // ----- The generator checks -----

  /** The stack of open containers, true for an array, and whether a key has to come next. */
  datatype Checker = Checker(stk: seq<bool>, keyNext: bool)

  datatype Check = Pass(next: Checker) | Reject(next: Checker, code: ErrorCode)

  predicate InArray(c: Checker) {
    c.stk != [] && c.stk[|c.stk| - 1]
  }

  predicate InObject(c: Checker) {
    c.stk != [] && !c.stk[|c.stk| - 1]
  }

  function CanValue(c: Checker): Check {
    if !InObject(c) then Pass(c)
    else if c.keyNext then Reject(c, ExpectedKey)
    else Pass(c.(keyNext := true))
  }

  function CanKey(c: Checker): Check {
    if !c.keyNext then Reject(c, ExpectedValue) else Pass(c.(keyNext := false))
  }

  function CanPush(c: Checker, isArray: bool, size: nat): Check {
    var v := CanValue(c);
    if v.Reject? then v
    else if |c.stk| >= size then Reject(v.next, StackOverflow)
    else Pass(Checker(c.stk + [isArray], !isArray))
  }

  function CanPop(c: Checker, isArray: bool): Check {
    if c.stk == [] then Reject(c, StackUnderflow)
    else if c.stk[|c.stk| - 1] != isArray then Reject(c, if isArray then NoArray else NoObject)
    else if !isArray && !c.keyNext then Reject(c, ExpectedValue)
    else
      var stk := c.stk[..|c.stk| - 1];
      Pass(Checker(stk, stk != [] && !stk[|stk| - 1]))
  }

  /** The checks of one event. A generator without a stack only notes that a key was given. */
  function CheckEvent(c: Checker, e: Event, size: nat): Check {
    if size == 0 then Pass(if e.Key? then c.(keyNext := false) else c)
    else
      match e
      case Key(_) => CanKey(c)
      case StartArray => CanPush(c, true, size)
      case StartObject => CanPush(c, false, size)
      case EndArray => CanPop(c, true)
      case EndObject => CanPop(c, false)
      case _ => CanValue(c)
  }

  const FRESH: Checker := Checker([], false)

  /** The checks of a sequence of events, up to the first that fails. */
  function CheckAll(c: Checker, evs: seq<Event>, size: nat): Check
    decreases |evs|
  {
    if evs == [] then Pass(c)
    else
      var s := CheckEvent(c, evs[0], size);
      if s.Reject? then s else CheckAll(s.next, evs[1..], size)
  }

  /** key_next is only set inside an object. */
  predicate Sane(c: Checker) {
    c.keyNext ==> InObject(c)
  }

  lemma {:induction false} CheckConcat(c: Checker, a: seq<Event>, b: seq<Event>, size: nat)
    ensures CheckAll(c, a + b, size)
         == if CheckAll(c, a, size).Reject? then CheckAll(c, a, size) else CheckAll(CheckAll(c, a, size).next, b, size)
    decreases |a|
  {
    if a == [] {
      assert a + b == b;
    } else {
      assert (a + b)[1..] == a[1..] + b;
      var s := CheckEvent(c, a[0], size);
      if s.Pass? {
        CheckConcat(s.next, a[1..], b, size);
      }
    }
  }

  /** On every run, also up to a check that fails, key_next is only set inside an object. */
  lemma {:induction false} RunIsSane(c: Checker, evs: seq<Event>, size: nat)
    requires Sane(c)
    ensures Sane(CheckAll(c, evs, size).next)
    decreases |evs|
  {
    if evs != [] && CheckEvent(c, evs[0], size).Pass? {
      RunIsSane(CheckEvent(c, evs[0], size).next, evs[1..], size);
    }
  }

  // ----- Nesting -----

  /** How many containers are open behind an event. */
  function OpenBehind(n: nat, e: Event): nat {
    if e.StartArray? || e.StartObject? then n + 1
    else if n > 0 && (e.EndArray? || e.EndObject?) then n - 1
    else n
  }

  /** The most containers that are open at once along the events. */
  function Height(n: nat, evs: seq<Event>): nat
    decreases |evs|
  {
    if evs == [] then n
    else
      var h := Height(OpenBehind(n, evs[0]), evs[1..]);
      if h > n then h else n
  }

  lemma OneCheck(c: Checker, e: Event, size: nat, large: nat)
    requires 0 < size <= large && |c.stk| <= size && CheckEvent(c, e, large).Pass?
    ensures |CheckEvent(c, e, large).next.stk| == OpenBehind(|c.stk|, e)
    ensures CheckEvent(c, e, size).Pass? <==> OpenBehind(|c.stk|, e) <= size
    ensures CheckEvent(c, e, size).Pass? ==> CheckEvent(c, e, size) == CheckEvent(c, e, large)
  {
  }

  /** Events that pass with a large stack pass with a smaller one exactly when they never open more than it holds. */
  lemma {:induction false} PassesIffLow(c: Checker, evs: seq<Event>, size: nat, large: nat)
    requires 0 < size <= large && |c.stk| <= size && CheckAll(c, evs, large).Pass?
    ensures CheckAll(c, evs, size).Pass? <==> Height(|c.stk|, evs) <= size
    decreases |evs|
  {
    if evs != [] {
      OneCheck(c, evs[0], size, large);
      var c' := CheckEvent(c, evs[0], large).next;
      if |c'.stk| <= size {
        PassesIffLow(c', evs[1..], size, large);
      } else {
        HeightAbove(|c'.stk|, evs[1..]);
      }
    }
  }

  lemma {:induction false} HeightAbove(n: nat, evs: seq<Event>)
    ensures Height(n, evs) >= n
  {
  }

  // ----- Well-formed trees pass -----

  /** A value may come next. */
  predicate Expects(c: Checker) {
    Sane(c) && !c.keyNext
  }

  /** The state behind a value. */
  function Behind(c: Checker): Checker {
    c.(keyNext := InObject(c))
  }

  lemma CheckOne(c: Checker, e: Event, size: nat)
    ensures CheckAll(c, [e], size) == CheckEvent(c, e, size)
  {
    var s := CheckEvent(c, e, size);
    if s.Pass? {
      assert [e][1..] == [];
      assert CheckAll(s.next, [], size) == Pass(s.next);
    }
  }

  lemma {:induction false} TreePasses(c: Checker, v: Tree, size: nat)
    requires size > 0 && Expects(c) && WfTree(v) && |c.stk| + TreeDepth(v) <= size
    ensures CheckAll(c, TreeEvents(v), size) == Pass(Behind(c))
    decreases v, 0
  {
    if v.ArrayTree? || v.ObjectTree? {
      var isArray := v.ArrayTree?;
      var f := if isArray then v.items else v.members;
      ForestPasses(Checker(c.stk + [isArray], !isArray), f, size);
      EnclosedPasses(c, isArray, ForestEvents(f), size);
    } else {
      CheckOne(c, TreeEvents(v)[0], size);
    }
  }

  /** Events that leave an opened container as they find it pass between its brackets. */
  lemma EnclosedPasses(c: Checker, isArray: bool, evs: seq<Event>, size: nat)
    requires Expects(c) && |c.stk| < size
    requires var inner := Checker(c.stk + [isArray], !isArray); CheckAll(inner, evs, size) == Pass(inner)
    ensures CheckAll(c, [StartOf(isArray)] + (evs + [EndOf(isArray)]), size) == Pass(Behind(c))
  {
    var inner := Checker(c.stk + [isArray], !isArray);
    assert inner.stk[..|c.stk|] == c.stk;
    assert CheckEvent(c, StartOf(isArray), size) == Pass(inner);
    assert CheckEvent(inner, EndOf(isArray), size) == Pass(Behind(c));
    hide CheckAll, CheckEvent, Behind, Expects;
    CheckOne(c, StartOf(isArray), size);
    CheckOne(inner, EndOf(isArray), size);
    CheckConcat(inner, evs, [EndOf(isArray)], size);
    CheckConcat(c, [StartOf(isArray)], evs + [EndOf(isArray)], size);
  }

  lemma {:induction false} ForestPasses(c: Checker, f: Forest, size: nat)
    requires size > 0 && Sane(c) && c == Behind(c) && Keyed(f, InObject(c)) && |c.stk| + ForestDepth(f) <= size
    ensures CheckAll(c, ForestEvents(f), size) == Pass(c)
    decreases f, 1
  {
    if f.Cons? {
      var c' := c.(keyNext := false);
      if f.key.Some? {
        CheckOne(c, Key(f.key.value), size);
      }
      assert CheckAll(c, KeyEvents(f.key), size) == Pass(c');
      TreePasses(c', f.head, size);
      ForestPasses(c, f.tail, size);
      CheckConcat(c', TreeEvents(f.head), ForestEvents(f.tail), size);
      CheckConcat(c, KeyEvents(f.key), TreeEvents(f.head) + ForestEvents(f.tail), size);
    }
  }

  // ----- Whatever passes is the beginning of well-formed trees -----

  /**
   * How a run can go on from a checker state to the end of every open container: the value a key
   * waits for, the rest of the innermost container, its closing bracket, and so on outwards.
   */
  datatype Rest = Outermost(f: Forest) | Inside(pending: Option<Tree>, f: Forest, outer: Rest)

  predicate WfRest(k: Rest, c: Checker, size: nat)
    decreases |c.stk|
  {
    if c.stk == [] then k.Outermost? && Keyed(k.f, false) && ForestDepth(k.f) <= size
    else
      && k.Inside?
      && k.pending.Some? == (InObject(c) && !c.keyNext)
      && (k.pending.Some? ==> WfTree(k.pending.value) && |c.stk| + TreeDepth(k.pending.value) <= size)
      && Keyed(k.f, InObject(c)) && |c.stk| + ForestDepth(k.f) <= size
      && WfRest(k.outer, Popped(c), size)
  }

  function Popped(c: Checker): Checker
    requires c.stk != []
  {
    Behind(Checker(c.stk[..|c.stk| - 1], false))
  }

  function PendingEvents(v: Option<Tree>): seq<Event> {
    if v.Some? then TreeEvents(v.value) else []
  }

  function RestEvents(k: Rest, c: Checker): seq<Event>
    decreases |c.stk|
  {
    if c.stk == [] || k.Outermost? then ForestEvents(k.f)
    else
      PendingEvents(k.pending) + (ForestEvents(k.f) + ([EndOf(InArray(c))] + RestEvents(k.outer, Popped(c))))
  }

  /** The shortest way to the end. */
  lemma {:induction false} Shortest(c: Checker, size: nat) returns (k: Rest)
    requires |c.stk| <= size
    ensures WfRest(k, c, size)
    decreases |c.stk|
  {
    if c.stk == [] {
      k := Outermost(Nil);
    } else {
      var outer := Shortest(Popped(c), size);
      k := Inside(if InObject(c) && !c.keyNext then Some(NullTree) else None, Nil, outer);
    }
  }

  lemma ConsEvents(key: Option<bytes>, v: Tree, f: Forest, tail: seq<Event>)
    ensures ForestEvents(Cons(key, v, f)) + tail == KeyEvents(key) + (TreeEvents(v) + (ForestEvents(f) + tail))
  {
    var a, b, d := KeyEvents(key), TreeEvents(v), ForestEvents(f);
    assert a + (b + d) + tail == a + (b + (d + tail));
  }

  /** What follows the innermost forest. */
  function Closing(k: Rest, c: Checker): seq<Event>
    requires k.Inside? && c.stk != []
  {
    [EndOf(InArray(c))] + RestEvents(k.outer, Popped(c))
  }

  lemma Unfold(k: Rest, c: Checker)
    requires k.Inside? && c.stk != []
    ensures RestEvents(k, c) == PendingEvents(k.pending) + (ForestEvents(k.f) + Closing(k, c))
    ensures k.pending.None? ==> RestEvents(k, c) == ForestEvents(k.f) + Closing(k, c)
  {
    assert [] + (ForestEvents(k.f) + Closing(k, c)) == ForestEvents(k.f) + Closing(k, c);
  }

  /** A tree in front of a continuation outside of containers. */
  lemma PutOutermost(v: Tree, k: Rest, c: Checker, size: nat) returns (k': Rest)
    requires c.stk == [] && Expects(c) && WfTree(v) && TreeDepth(v) <= size && WfRest(k, Behind(c), size)
    ensures WfRest(k', c, size) && RestEvents(k', c) == TreeEvents(v) + RestEvents(k, Behind(c))
  {
    k' := Outermost(Cons(None, v, k.f));
    ConsEvents(None, v, k.f, []);
    assert ForestEvents(k'.f) == TreeEvents(v) + ForestEvents(k.f);
  }

  /** The value that an object waits for. */
  lemma PutMember(v: Tree, k: Rest, c: Checker, size: nat) returns (k': Rest)
    requires InObject(c) && Expects(c) && WfTree(v) && |c.stk| + TreeDepth(v) <= size && WfRest(k, Behind(c), size)
    ensures WfRest(k', c, size) && RestEvents(k', c) == TreeEvents(v) + RestEvents(k, Behind(c))
  {
    hide TreeEvents, ForestEvents, RestEvents;
    assert Popped(Behind(c)) == Popped(c);
    Unfold(k, Behind(c));
    k' := Inside(Some(v), k.f, k.outer);
    Unfold(k', c);
  }

  lemma NothingBefore(evs: seq<Event>)
    ensures [] + evs == evs
  {
  }

  /** One more item of an array. */
  lemma PutItem(v: Tree, k: Rest, c: Checker, size: nat) returns (k': Rest)
    requires InArray(c) && Expects(c) && WfTree(v) && |c.stk| + TreeDepth(v) <= size && WfRest(k, Behind(c), size)
    ensures WfRest(k', c, size) && RestEvents(k', c) == TreeEvents(v) + RestEvents(k, Behind(c))
  {
    hide TreeEvents, ForestEvents, RestEvents;
    assert Popped(Behind(c)) == Popped(c);
    Unfold(k, Behind(c));
    k' := Inside(None, Cons(None, v, k.f), k.outer);
    Unfold(k', c);
    ConsEvents(None, v, k.f, Closing(k, c));
    NothingBefore(TreeEvents(v) + (ForestEvents(k.f) + Closing(k, c)));
  }

  /** A tree in front of a continuation. */
  lemma PutTree(v: Tree, k: Rest, c: Checker, size: nat) returns (k': Rest)
    requires Expects(c) && WfTree(v) && |c.stk| + TreeDepth(v) <= size && WfRest(k, Behind(c), size)
    ensures WfRest(k', c, size) && RestEvents(k', c) == TreeEvents(v) + RestEvents(k, Behind(c))
  {
    hide WfTree, WfRest, RestEvents, TreeEvents, TreeDepth;
    if c.stk == [] {
      k' := PutOutermost(v, k, c, size);
    } else if InObject(c) {
      k' := PutMember(v, k, c, size);
    } else {
      k' := PutItem(v, k, c, size);
    }
  }

  lemma PutKey(key: bytes, k: Rest, c: Checker, size: nat) returns (k': Rest)
    requires Sane(c) && c.keyNext && WfRest(k, c.(keyNext := false), size)
    ensures WfRest(k', c, size) && RestEvents(k', c) == [Key(key)] + RestEvents(k, c.(keyNext := false))
  {
    k' := Inside(None, Cons(Some(key), k.pending.value, k.f), k.outer);
    assert Popped(c.(keyNext := false)) == Popped(c);
    Unfold(k', c);
    Unfold(k, c.(keyNext := false));
    ConsEvents(Some(key), k.pending.value, k.f, Closing(k, c));
  }

  lemma PutStart(isArray: bool, k: Rest, c: Checker, size: nat) returns (k': Rest)
    requires Expects(c) && |c.stk| < size && WfRest(k, Checker(c.stk + [isArray], !isArray), size)
    ensures WfRest(k', c, size)
    ensures RestEvents(k', c) == [StartOf(isArray)] + RestEvents(k, Checker(c.stk + [isArray], !isArray))
  {
    var inner := Checker(c.stk + [isArray], !isArray);
    assert inner.stk[..|c.stk|] == c.stk;
    assert Popped(inner) == Behind(c);
    Unfold(k, inner);
    k' := PutTree(Container(isArray, k.f), k.outer, c, size);
    ContainerEvents(isArray, k.f, RestEvents(k.outer, Behind(c)));
  }

  function Container(isArray: bool, f: Forest): Tree {
    if isArray then ArrayTree(f) else ObjectTree(f)
  }

  lemma ContainerEvents(isArray: bool, f: Forest, tail: seq<Event>)
    ensures TreeEvents(Container(isArray, f)) + tail
         == [StartOf(isArray)] + (ForestEvents(f) + ([EndOf(isArray)] + tail))
  {
    assert [StartOf(isArray)] + (ForestEvents(f) + [EndOf(isArray)]) + tail
      == [StartOf(isArray)] + (ForestEvents(f) + ([EndOf(isArray)] + tail));
  }

  lemma PutEnd(isArray: bool, k: Rest, c: Checker, size: nat) returns (k': Rest)
    requires Sane(c) && c.stk != [] && c.stk[|c.stk| - 1] == isArray && (!isArray ==> c.keyNext) && |c.stk| <= size
    requires WfRest(k, Popped(c), size)
    ensures WfRest(k', c, size) && RestEvents(k', c) == [EndOf(isArray)] + RestEvents(k, Popped(c))
  {
    k' := Inside(None, Nil, k);
    Unfold(k', c);
    assert [] + Closing(k', c) == Closing(k', c);
  }

  /** The state behind an event that passes. */
  lemma Passed(e: Event, c: Checker, size: nat)
    requires size > 0 && Sane(c) && CheckEvent(c, e, size).Pass?
    ensures var next := CheckEvent(c, e, size).next;
      if e.Key? then c.keyNext && next == c.(keyNext := false)
      else if e.StartArray? || e.StartObject? then
        Expects(c) && |c.stk| < size && next == Checker(c.stk + [e.StartArray?], !e.StartArray?)
      else if e.EndArray? || e.EndObject? then
        && c.stk != [] && c.stk[|c.stk| - 1] == e.EndArray? && (e.EndObject? ==> c.keyNext) && next == Popped(c)
      else Expects(c) && next == Behind(c)
  {
  }

  /** One event in front of a continuation of the state behind it. */
  lemma PutEvent(e: Event, k: Rest, c: Checker, size: nat) returns (k': Rest)
    requires size > 0 && Sane(c) && |c.stk| <= size && CheckEvent(c, e, size).Pass?
    requires WfRest(k, CheckEvent(c, e, size).next, size)
    ensures WfRest(k', c, size) && RestEvents(k', c) == [e] + RestEvents(k, CheckEvent(c, e, size).next)
  {
    Passed(e, c, size);
    hide CheckEvent, WfRest, RestEvents, TreeEvents, Popped, Behind, Sane;
    match e
    case Key(b) => k' := PutKey(b, k, c, size);
    case StartArray => k' := PutStart(true, k, c, size);
    case StartObject => k' := PutStart(false, k, c, size);
    case EndArray => k' := PutEnd(true, k, c, size);
    case EndObject => k' := PutEnd(false, k, c, size);
    case Null => k' := PutTree(NullTree, k, c, size);
    case Boolean(b) => k' := PutTree(BooleanTree(b), k, c, size);
    case Integer(n) => k' := PutTree(IntegerTree(n), k, c, size);
    case Real(neg, sig, exp) => k' := PutTree(RealTree(neg, sig, exp), k, c, size);
    case Str(b) => k' := PutTree(StringTree(b), k, c, size);
  }

  lemma {:induction false} PassedIsPrefix(c: Checker, evs: seq<Event>, size: nat) returns (k: Rest)
    requires size > 0 && Sane(c) && |c.stk| <= size && CheckAll(c, evs, size).Pass?
    ensures WfRest(k, c, size) && evs <= RestEvents(k, c)
    decreases |evs|
  {
    hide WfRest, RestEvents;
    if evs == [] {
      k := Shortest(c, size);
    } else {
      var e := evs[0];
      var c' := CheckEvent(c, e, size).next;
      var k' := PassedIsPrefix(c', evs[1..], size);
      k := PutEvent(e, k', c, size);
      assert evs == [e] + evs[1..];
    }
  }

  /** The checks accept a sequence of events exactly when it begins a sequence of well-formed values. */
  lemma PassIffPrefix(evs: seq<Event>, size: nat)
    requires size > 0
    ensures CheckAll(FRESH, evs, size).Pass?
      <==> exists f :: Keyed(f, false) && ForestDepth(f) <= size && evs <= ForestEvents(f)
  {
    if CheckAll(FRESH, evs, size).Pass? {
      var k := PassedIsPrefix(FRESH, evs, size);
      assert Keyed(k.f, false) && ForestDepth(k.f) <= size && evs <= ForestEvents(k.f);
    }
    if f :| Keyed(f, false) && ForestDepth(f) <= size && evs <= ForestEvents(f) {
      ForestPasses(FRESH, f, size);
      CheckConcat(FRESH, evs, ForestEvents(f)[|evs|..], size);
      assert ForestEvents(f) == evs + ForestEvents(f)[|evs|..];
    }
  }
}
