/**
 * Delivering events to a generator as a function: each event is checked, and the first that is refused ends
 * the program, because the checks are assertions.
 */
module Delivery {
  import opened Base
  import opened Stack
  import E = Events

  /** A generator: the state of its checks, its error and the events it has delivered. */
  datatype Log = Log(checker: E.Checker, error: Option<ErrorCode>, events: seq<Event>)

  /** The events are given one after the other, up to the first that is refused. */
  function Give(s: Log, evs: seq<Event>, size: nat): Log
    decreases |evs|
  {
    if evs == [] then s
    else
      match E.CheckEvent(s.checker, evs[0], size)
      case Pass(next) => Give(Log(next, s.error, s.events + [evs[0]]), evs[1..], size)
      case Reject(next, code) => Log(next, Some(code), s.events)
  }

  /** No event is refused. */
  predicate Takes(s: Log, evs: seq<Event>, size: nat) {
    E.CheckAll(s.checker, evs, size).Pass?
  }

  /** If the event pushes, it writes inside the memory of the generator's stack. */
  predicate Inside(c: E.Checker, e: Event, size: nat) {
    (e.StartArray? || e.StartObject?) && |c.stk| < size && E.CheckEvent(c, e, size).Pass? ==>
      WritesInside(|c.stk|, GeneratorBytes(size))
  }

  /** So do all the events that are given. */
  predicate Room(c: E.Checker, evs: seq<Event>, size: nat)
    decreases |evs|
  {
    evs != [] ==>
      && Inside(c, evs[0], size)
      && (E.CheckEvent(c, evs[0], size).Pass? ==> Room(E.CheckEvent(c, evs[0], size).next, evs[1..], size))
  }

  lemma GiveNothing(s: Log, size: nat)
    ensures Give(s, [], size) == s && Takes(s, [], size) && Room(s.checker, [], size)
  {
  }

  lemma GiveOne(s: Log, e: Event, size: nat)
    ensures Takes(s, [e], size) == E.CheckEvent(s.checker, e, size).Pass?
    ensures Room(s.checker, [e], size) == Inside(s.checker, e, size)
    ensures Give(s, [e], size) ==
      match E.CheckEvent(s.checker, e, size)
      case Pass(next) => Log(next, s.error, s.events + [e])
      case Reject(next, code) => Log(next, Some(code), s.events)
  {
    E.CheckOne(s.checker, e, size);
    assert [e][1..] == [];
  }

  /** Events can be given in two parts; the second part is not given when an event of the first is refused. */
  lemma {:induction false} GiveConcat(s: Log, a: seq<Event>, b: seq<Event>, size: nat)
    ensures var s' := Give(s, a, size);
      && (Takes(s, a + b, size) <==> Takes(s, a, size) && Takes(s', b, size))
      && Give(s, a + b, size) == (if Takes(s, a, size) then Give(s', b, size) else s')
      && (Room(s.checker, a + b, size) <==>
        Room(s.checker, a, size) && (Takes(s, a, size) ==> Room(s'.checker, b, size)))
    decreases |a|
  {
    if a == [] {
      assert a + b == b;
    } else {
      assert (a + b)[1..] == a[1..] + b;
      var c := E.CheckEvent(s.checker, a[0], size);
      if c.Pass? {
        GiveConcat(Log(c.next, s.error, s.events + [a[0]]), a[1..], b, size);
      }
    }
  }

  /** Events that are all taken are all delivered. */
  lemma {:induction false} GiveAll(s: Log, evs: seq<Event>, size: nat)
    requires Takes(s, evs, size)
    ensures Give(s, evs, size) == Log(E.CheckAll(s.checker, evs, size).next, s.error, s.events + evs)
    decreases |evs|
  {
    if evs == [] {
      assert s.events + evs == s.events;
    } else {
      var c := E.CheckEvent(s.checker, evs[0], size);
      assert s.events + evs == s.events + [evs[0]] + evs[1..];
      hide E.CheckEvent;
      GiveAll(Log(c.next, s.error, s.events + [evs[0]]), evs[1..], size);
    }
  }

  lemma TakesFirst(s: Log, evs: seq<Event>, n: nat, size: nat)
    requires 0 < n <= |evs| && E.CheckEvent(s.checker, evs[0], size).Pass?
    ensures var s' := Log(E.CheckEvent(s.checker, evs[0], size).next, s.error, s.events + [evs[0]]);
      Takes(s, evs[..n], size) == Takes(s', evs[1..][..n - 1], size)
  {
    hide E.CheckEvent;
    assert evs[..n][1..] == evs[1..][..n - 1];
  }

  /** Otherwise those before the first that is refused are, and the error is the one of its check. */
  lemma {:induction false} GiveSome(s: Log, evs: seq<Event>, size: nat) returns (n: nat)
    requires !Takes(s, evs, size)
    ensures n < |evs| && Takes(s, evs[..n], size) && !Takes(s, evs[..n + 1], size)
    ensures Give(s, evs, size).events == s.events + evs[..n]
    ensures Give(s, evs, size).error == Some(E.CheckAll(s.checker, evs, size).code)
    decreases |evs|
  {
    hide E.CheckEvent;
    var c := E.CheckEvent(s.checker, evs[0], size);
    if c.Pass? {
      var m := GiveSome(Log(c.next, s.error, s.events + [evs[0]]), evs[1..], size);
      n := m + 1;
      TakesFirst(s, evs, n, size);
      TakesFirst(s, evs, n + 1, size);
      assert s.events + evs[..n] == s.events + [evs[0]] + evs[1..][..m];
    } else {
      n := 0;
      GiveOne(s, evs[0], size);
      assert evs[..1] == [evs[0]] && s.events + evs[..0] == s.events;
    }
  }

  /**
   * Events that are all taken write inside the memory exactly when the size is a multiple of eight or they never
   * open more containers than the memory holds.
   */
  lemma {:induction false} RoomIffLow(s: Log, evs: seq<Event>, size: nat)
    requires 0 < size <= WRAP && |s.checker.stk| <= 8 * GeneratorBytes(size) && Takes(s, evs, size)
    ensures Room(s.checker, evs, size) <==>
      size % 8 == 0 || E.Height(|s.checker.stk|, evs) <= 8 * GeneratorBytes(size)
    decreases |evs|
  {
    if evs != [] {
      var n := |s.checker.stk|;
      E.OneCheck(s.checker, evs[0], size, size);
      var next := E.CheckEvent(s.checker, evs[0], size).next;
      var m := E.OpenBehind(n, evs[0]);
      if n < size {
        GeneratorWritesInsideIff(size, n);
      }
      E.HeightAbove(m, evs[1..]);
      hide E.CheckEvent, E.Height;
      if m <= 8 * GeneratorBytes(size) {
        RoomIffLow(Log(next, s.error, s.events + [evs[0]]), evs[1..], size);
      }
    }
  }

  /** With a size that is a multiple of eight there is always room. */
  lemma {:induction false} RoomWhereMultiple(c: E.Checker, evs: seq<Event>, size: nat)
    requires size % 8 == 0 && size <= WRAP
    ensures Room(c, evs, size)
    decreases |evs|
  {
    if evs != [] {
      if |c.stk| < size {
        GeneratorWritesInsideIff(size, |c.stk|);
      }
      RoomWhereMultiple(E.CheckEvent(c, evs[0], size).next, evs[1..], size);
    }
  }

  /** A generator without a stack takes everything. */
  lemma {:induction false} NoStackTakes(s: Log, evs: seq<Event>)
    ensures Takes(s, evs, 0)
    decreases |evs|
  {
    if evs != [] {
      NoStackTakes(Log(E.CheckEvent(s.checker, evs[0], 0).next, s.error, s.events + [evs[0]]), evs[1..]);
    }
  }

  // ----- A parse that delivers -----

  /**
   * A generator has come from s0 to s on the way through the outcome whole. If it has refused an event it stays
   * where that has left it; else giving what is left of the outcome ends as giving the whole would.
   */
  ghost predicate Delivered(whole: Outcome, s0: Log, s: Log, size: nat, refused: bool, left: Outcome) {
    if refused then s == Give(s0, whole.evs, size) && !Takes(s0, whole.evs, size)
    else
      && Give(s0, whole.evs, size) == Give(s, left.evs, size)
      && Takes(s0, whole.evs, size) == Takes(s, left.evs, size)
      && (Room(s0.checker, whole.evs, size) ==> Room(s.checker, left.evs, size))
      && whole == left.(evs := whole.evs)
  }

  /** The first part of an outcome is given. */
  lemma DeliveredPart(whole: Outcome, s0: Log, evs: seq<Event>, size: nat, left: Outcome)
    requires whole == Emit(evs, left)
    ensures Room(s0.checker, whole.evs, size) ==> Room(s0.checker, evs, size)
    ensures Delivered(whole, s0, Give(s0, evs, size), size, !Takes(s0, evs, size), left)
  {
    GiveConcat(s0, evs, left.evs, size);
  }

  lemma DeliveredNothing(whole: Outcome, s: Log, size: nat)
    ensures Delivered(whole, s, s, size, false, whole)
  {
  }

  /** Behind a refused event it does not matter what is left. */
  lemma DeliveredRefused(whole: Outcome, s0: Log, s: Log, size: nat, left: Outcome, other: Outcome)
    requires Delivered(whole, s0, s, size, true, left)
    ensures Delivered(whole, s0, s, size, true, other)
  {
  }

  lemma DeliveredMore(whole: Outcome, s0: Log, s1: Log, s2: Log, size: nat, mid: Outcome, refused: bool, left: Outcome)
    requires Delivered(whole, s0, s1, size, false, mid) && Delivered(mid, s1, s2, size, refused, left)
    ensures Delivered(whole, s0, s2, size, refused, left)
  {
  }

  lemma DeliveredRoom(whole: Outcome, s0: Log, s: Log, size: nat, left: Outcome)
    requires Delivered(whole, s0, s, size, false, left) && Room(s0.checker, whole.evs, size)
    ensures Room(s.checker, left.evs, size)
  {
  }

  /** Where nothing is left, all was given. */
  lemma DeliveredAll(whole: Outcome, s0: Log, s: Log, size: nat, refused: bool, left: Outcome)
    requires Delivered(whole, s0, s, size, refused, left) && (!refused ==> left.evs == [])
    ensures s == Give(s0, whole.evs, size) && refused == !Takes(s0, whole.evs, size)
    ensures !refused ==> whole == left.(evs := whole.evs)
  {
  }
}
