/**
 * The pull parser: one JSON item for each call. Every call is proved to be a step of PullMachine, and
 * strings returned by earlier calls are never changed by later ones.
 */
module PullParser {
  import opened Base
  import opened Text
  import opened Stack
  import opened Descent
  import opened Loop
  import opened Input
  import opened Parser
  import opened PullMachine
  import Sax

  /** What a call returns; strings and keys lie in the input buffer. */
  datatype Result =
    | Got(ev: Event, position: nat, off: nat, len: nat)
    | Finished(position: nat)
    | Error(code: ErrorCode, position: nat)
    | Aborted

  class PullParser {
    const mis: InputStream
    const stack: BitStack
    const rules: Rules
    const tail: Tail
    var state: State

    constructor (bs: bytes, rules: Rules, tail: Tail)
      requires rules.size <= WRAP
      ensures Valid() && Here() == START && mis.text == bs && this.rules == rules && this.tail == tail
      ensures fresh(mis) && fresh(mis.buf) && fresh(stack) && fresh(stack.data)
    {
      mis := new InputStream(bs);
      stack := new BitStack(rules.size, ParserBytes(rules.size));
      this.rules, this.tail, state := rules, tail, Start;
    }

    ghost predicate Valid()
      reads this, mis, mis.buf, stack, stack.data
    {
      && mis.Valid() && stack.Valid() && stack.size == rules.size <= WRAP && stack.data.Length == ParserBytes(rules.size)
      && (mis.buf as object) != stack.data && Consistent(Here(), rules)
    }

    /** The cursor, the stored state and the stack. */
    ghost function Here(): Config
      requires stack.Valid()
      reads this, mis, stack, stack.data
    {
      Config(mis.read, state, stack.Contents())
    }

    /** The parser stands where the step leads to, and the call returns what the step says. */
    ghost predicate Did(s: Step, r: Result)
      requires mis.Valid() && stack.Valid()
      reads this, mis, mis.buf, stack, stack.data
    {
      match s
      case Item(ev, next) => r.Got? && r.ev == ev && r.position == next.pos && Here() == next && Holds(r)
      case End(next) => r == Finished(next.pos) && Here() == next
      case Failed(code, next) => r == Error(code, next.pos) && Here() == next
      case Abort => r == Aborted
    }

    /** A returned string lies in the buffer before the cursor. */
    ghost predicate Holds(r: Result)
      requires r.Got?
      reads mis, mis.buf
    {
      && r.off + r.len <= mis.read <= mis.buf.Length
      && (r.ev.Str? ==> mis.buf[r.off..r.off + r.len] == r.ev.s)
      && (r.ev.Key? ==> mis.buf[r.off..r.off + r.len] == r.ev.k)
    }

    method Fail(code: ErrorCode) returns (r: Result)
      requires mis.Valid() && stack.Valid()
      ensures r == Error(code, mis.read) && Did(Failed(code, Here()), r)
    {
      var p := mis.Tell();
      r := Error(code, p);
    }

    method Accept(ev: Event, next: State) returns (r: Result)
      requires !ev.Str? && !ev.Key?
      modifies this`state
      ensures state == next && r == Got(ev, mis.read, 0, 0)
    {
      var p := mis.Tell();
      state := next;
      r := Got(ev, p, 0, 0);
    }

    /** A closing bracket under the cursor; the stack says which state follows. */
    method AcceptEnd(isArray: bool) returns (r: Result)
      requires Valid() && mis.read < mis.count && stack.Contents() != [] && Top(stack.Contents()) == isArray
      modifies this`state, mis`read, stack
      ensures mis.Valid() && stack.Valid() && Did(EndStep(old(mis.read), old(Here())), r)
    {
      hide BitStack.Contents;
      var _ := mis.Take();
      var _ := stack.Pop();
      var top := stack.Peek();
      r := Accept(EndOf(isArray),
        if top == Frame.InObject then KeyValue else if top == Frame.InArray then ArrayValue else AtEnd);
    }

    /** A key is expected under the cursor. */
    method AcceptKey() returns (r: Result)
      requires Valid() && mis.read <= mis.count
      modifies this`state, mis, mis.buf
      ensures mis.Valid() && stack.Valid() && Did(KeyStep(mis.text, old(mis.read), old(Here()), rules), r)
      ensures mis.buf[..old(mis.read)] == old(mis.buf[..mis.read])
    {
      hide KeyColon, BitStack.Contents;
      var err, off, len := Sax.ReadKey(mis, rules);
      if err.Some? {
        r := Fail(err.value);
        return;
      }
      var _ := mis.Take();
      var p := mis.Tell();
      state := AfterKey;
      r := Got(Key(mis.buf[off..off + len]), p, off, len);
    }

    /** A value that is no container, in a state that expects one; otherwise the assertion fails. */
    method AcceptScalar() returns (r: Result)
      requires Valid() && mis.read <= mis.count
      requires At(mis.text, mis.read) != Opener(true) && At(mis.text, mis.read) != Opener(false)
      modifies this`state, mis, mis.buf
      ensures mis.Valid() && stack.Valid() && Did(ValueStep(mis.text, old(mis.read), old(Here()), rules), r)
      ensures mis.buf[..old(mis.read)] == old(mis.buf[..mis.read])
    {
      hide ScalarAt, BitStack.Contents;
      var err, e, off, len := Sax.ReadScalar(mis, rules);
      if err.Some? {
        r := Fail(err.value);
        return;
      }
      var next := NextState(state);
      if next.None? {
        return Aborted;
      }
      var p := mis.Tell();
      state := next.value;
      r := Got(e, p, off, len);
    }

    /** An opening bracket under the cursor. */
    method AcceptStart(isArray: bool) returns (r: Result)
      requires Valid() && mis.read < mis.count && At(mis.text, mis.read) == Opener(isArray)
      modifies this`state, mis`read, stack, stack.data
      ensures mis.Valid() && stack.Valid() && Did(ValueStep(mis.text, old(mis.read), old(Here()), rules), r)
    {
      hide ScalarAt, BitStack.Contents;
      var _ := mis.Take();
      var ok := stack.Push(isArray);
      if !ok {
        r := Fail(StackOverflow);
      } else {
        r := Accept(StartOf(isArray), OpenState(isArray));
      }
    }

    /** A value is expected under the cursor. */
    method AcceptValue() returns (r: Result)
      requires Valid() && mis.read <= mis.count
      modifies this`state, mis, mis.buf, stack, stack.data
      ensures mis.Valid() && stack.Valid() && Did(ValueStep(mis.text, old(mis.read), old(Here()), rules), r)
      ensures mis.buf[..old(mis.read)] == old(mis.buf[..mis.read])
    {
      hide ScalarAt, ValueStep, Did, BitStack.Contents;
      var b := mis.Peek();
      if b == Opener(true) || b == Opener(false) {
        r := AcceptStart(b == Opener(true));
      } else {
        r := AcceptScalar();
      }
    }

    /** Behind a comma, or where it is missing. */
    method AcceptNext(c: byte) returns (r: Result)
      requires Valid() && mis.read <= mis.count && c == At(mis.text, mis.read)
      requires state == KeyValue || state == ArrayValue
      modifies this`state, mis, mis.buf, stack, stack.data
      ensures mis.Valid() && stack.Valid() && Did(NextStep(mis.text, old(mis.read), old(Here()), rules), r)
      ensures mis.buf[..old(mis.read)] == old(mis.buf[..mis.read])
    {
      hide ValueStep, KeyStep, EndStep, BitStack.Contents;
      var isArray := state == ArrayValue;
      if rules.trailingCommas && c == Closer(isArray) {
        r := AcceptEnd(isArray);
      } else if isArray {
        r := AcceptValue();
      } else {
        r := AcceptKey();
      }
    }

    /** Behind a value in an object or an array. */
    method AcceptMore(b: byte) returns (r: Result)
      requires Valid() && mis.read <= mis.count && b == At(mis.text, mis.read)
      requires state == KeyValue || state == ArrayValue
      modifies this`state, mis, mis.buf, stack, stack.data
      ensures mis.Valid() && stack.Valid() && Did(MoreStep(mis.text, old(mis.read), old(Here()), rules), r)
      ensures mis.buf[..old(mis.read)] == old(mis.buf[..mis.read])
    {
      hide SpaceEnd, NextStep, EndStep, BitStack.Contents, Did;
      ghost var p := mis.read;
      var isArray := state == ArrayValue;
      var c := b;
      if c == Closer(isArray) {
        r := AcceptEnd(isArray);
        return;
      } else if c == ',' as int {
        var _ := mis.Take();
        var err;
        err, c := ConsumeWhitespace(mis, rules.comments);
        if err.Some? {
          r := Fail(err.value);
          return;
        }
      } else if isArray {
        r := Fail(Unexpected);
        return;
      }
      ghost var q := mis.read;
      StepIgnoresPosition(mis.text, q, Here(), p, rules, tail);
      r := AcceptNext(c);
      assert mis.buf[..p] == mis.buf[..q][..p];
    }

    /** Behind the top-level value: the end of the input, or another value when multiple values are allowed. */
    method AcceptEof() returns (r: Result)
      requires Valid() && mis.read <= mis.count && state == AtEnd
      requires Space(mis.text, mis.read, rules) == Done((), mis.read)
      modifies this`state, mis, mis.buf, stack, stack.data
      ensures mis.Valid() && stack.Valid() && Did(EndOfValue(mis.text, old(mis.read), old(Here()), rules, tail), r)
      ensures mis.buf[..old(mis.read)] == old(mis.buf[..mis.read])
    {
      hide SpaceEnd, ValueStep, BitStack.Contents;
      var err, b := ConsumeWhitespace(mis, rules.comments);
      var eof := mis.Eof();
      if !eof {
        if tail.multiple {
          r := AcceptValue();
          return;
        }
        if !tail.trailing {
          r := Fail(Unexpected);
          return;
        }
      }
      state := AtEof;
      var p := mis.Tell();
      r := Finished(p);
    }

    /** The switch on the stored state. */
    method Switch(b: byte) returns (r: Result)
      requires Valid() && mis.read <= mis.count && b == At(mis.text, mis.read)
      requires Space(mis.text, mis.read, rules) == Done((), mis.read)
      modifies this`state, mis, mis.buf, stack, stack.data
      ensures mis.Valid() && stack.Valid() && Did(StepAt(mis.text, old(mis.read), old(Here()), rules, tail), r)
      ensures mis.buf[..old(mis.read)] == old(mis.buf[..mis.read])
    {
      hide SpaceEnd, ValueStep, KeyStep, MoreStep, EndStep, EndOfValue, BitStack.Contents;
      if state == AtEof {
        r := Fail(EofError);
      } else if state == KeyValue || state == ArrayValue {
        r := AcceptMore(b);
      } else if (state == State.InObject && b == Closer(false)) || (state == State.InArray && b == Closer(true)) {
        r := AcceptEnd(state == State.InArray);
      } else if state == State.InObject {
        r := AcceptKey();
      } else if state == AtEnd {
        r := AcceptEof();
      } else {
        r := AcceptValue();
      }
    }

    /** One call of the pull parser. */
    method ParseNext() returns (r: Result)
      requires Valid() && mis.read <= mis.count
      modifies this`state, mis, mis.buf, stack, stack.data
      ensures mis.Valid() && stack.Valid() && Did(PullStep(mis.text, old(Here()), rules, tail), r)
      ensures r.Aborted? || Valid()
      ensures r.Got? || r.Finished? ==> mis.read <= mis.count
      ensures mis.buf[..old(mis.read)] == old(mis.buf[..mis.read])
    {
      hide SpaceEnd, StepAt, BitStack.Contents;
      ghost var p := mis.read;
      StepConsistent(mis.text, Here(), rules, tail);
      var err, b := ConsumeWhitespace(mis, rules.comments);
      if err.Some? {
        r := Fail(err.value);
        return;
      }
      ghost var q := mis.read;
      StepIgnoresPosition(mis.text, q, Here(), p, rules, tail);
      SpaceEndIdempotent(mis.text, mis.read, rules.comments);
      r := Switch(b);
      assert mis.buf[..p] == mis.buf[..q][..p];
    }
  }
}
