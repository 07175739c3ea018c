/** Bytes, error codes and parse events shared by every component. */
module Base {
  type byte = b: int | 0 <= b < 256
  type bytes = seq<byte>

  datatype Option<+T> = None | Some(value: T)

  /** The error codes a parse or a generator can report. */
  datatype ErrorCode =
    | NumberError | Utf8Error | SurrogateError
    | StackUnderflow | StackOverflow
    | ExpectedValue | ExpectedKey | NoObject | NoArray
    | EscapeError | Unexpected | Invalid | EofError

  /**
   * One item of JSON as it is delivered to a generator or returned by the pull parser.
   * A real is the decimal (-1)^neg * sig * 10^exp: the double the C code makes of it is not modelled.
   */
  datatype Event =
    | Null
    | Boolean(b: bool)
    | Integer(n: int)
    | Real(neg: bool, sig: nat, exp: int)
    | Str(s: bytes)
    | Key(k: bytes)
    | StartArray | EndArray
    | StartObject | EndObject

  /** What reading one token leads to: a value or an error code, and where the cursor then stands. */
  datatype Token<+T> = Fail(code: ErrorCode, pos: nat) | Done(val: T, pos: nat)

  /** The events delivered, where the cursor stands, and the error that ended the parse, if one did. */
  datatype Outcome =
    | Ok(evs: seq<Event>, pos: nat)
    | Err(evs: seq<Event>, pos: nat, code: ErrorCode)

  /** The outcome of a parse that delivers evs first. */
  function Emit(evs: seq<Event>, o: Outcome): Outcome {
    o.(evs := evs + o.evs)
  }

  lemma EmitEmit(a: seq<Event>, b: seq<Event>, o: Outcome)
    ensures Emit(a, Emit(b, o)) == Emit(a + b, o)
    ensures Emit([], o) == o
  {
    assert a + (b + o.evs) == a + b + o.evs;
  }

  /** The byte at position p of a text that a NUL byte terminates. */
  function At(t: bytes, p: nat): byte {
    if p < |t| then t[p] else 0
  }

  /** u is what the text holds from position p on. */
  predicate Occurs(t: bytes, p: nat, u: bytes) {
    p + |u| <= |t| && t[p..p + |u|] == u
  }

  lemma OccursSplit(t: bytes, p: nat, u: bytes, v: bytes)
    ensures Occurs(t, p, u + v) <==> Occurs(t, p, u) && Occurs(t, p + |u|, v)
  {
    if Occurs(t, p, u + v) {
      assert u == (u + v)[..|u|] == t[p..p + |u|];
      assert v == (u + v)[|u|..] == t[p + |u|..p + |u| + |v|];
    }
  }

  lemma OccursAt(t: bytes, p: nat, u: bytes, i: nat)
    requires Occurs(t, p, u) && i < |u|
    ensures At(t, p + i) == u[i]
  {
    assert t[p..p + |u|][i] == u[i];
  }

  /** Two adjacent stretches of text make one. */
  lemma Adjoin(t: bytes, p: nat, q: nat, r: nat)
    requires p <= q <= r <= |t|
    ensures t[p..q] + t[q..r] == t[p..r]
  {
  }

  // Stretches of sequences.

  lemma TwoSlices<T>(s: seq<T>, i: nat, j: nat, k: nat)
    requires i <= j <= k <= |s|
    ensures s[i..k] == s[i..j] + s[j..k]
  {
  }

  lemma ThreeSlices<T>(s: seq<T>, i: nat, j: nat, k: nat, l: nat)
    requires i <= j <= k <= l <= |s|
    ensures s[i..l] == s[i..j] + s[j..k] + s[k..l]
  {
  }

  lemma SliceOf<T>(s: seq<T>, i: nat, j: nat, a: nat, b: nat)
    requires i <= j <= |s| && a <= b <= j - i
    ensures s[i..j][a..b] == s[i + a..i + b]
  {
    var part := s[i..j];
    forall k | a <= k < b ensures part[k] == s[i + k] {
    }
    assert |part[a..b]| == |s[i + a..i + b]|;
  }

  /** What is equal on a stretch is equal on a part of it. */
  lemma SameWithin<T>(s: seq<T>, t: seq<T>, i: nat, j: nat, a: nat, b: nat)
    requires i <= a <= b <= j <= |s| == |t| && s[i..j] == t[i..j]
    ensures s[a..b] == t[a..b]
  {
    forall k | a <= k < b ensures s[k] == t[k] {
      assert s[i..j][k - i] == t[i..j][k - i];
    }
  }

  /** The middle of three parts that a sequence starts with. */
  lemma MiddleOf<T>(s: seq<T>, a: seq<T>, b: seq<T>, c: seq<T>)
    requires |a| + |b| + |c| <= |s| && s[..|a| + |b| + |c|] == a + b + c
    ensures s[|a|..|a| + |b|] == b
  {
    forall k | 0 <= k < |b| ensures s[|a| + k] == b[k] {
      assert (a + b + c)[|a| + k] == b[k];
    }
  }

  // Arrays and objects differ in their brackets, their events and the key before a value.

  const COMMA: byte := ',' as int

  function Opener(isArray: bool): byte {
    if isArray then '[' as int else '{' as int
  }

  function Closer(isArray: bool): byte {
    if isArray then ']' as int else '}' as int
  }

  function StartOf(isArray: bool): Event {
    if isArray then StartArray else StartObject
  }

  function EndOf(isArray: bool): Event {
    if isArray then EndArray else EndObject
  }

  const TRUE: bytes := ['t' as int, 'r' as int, 'u' as int, 'e' as int]
  const FALSE: bytes := ['f' as int, 'a' as int, 'l' as int, 's' as int, 'e' as int]
  const NULL: bytes := ['n' as int, 'u' as int, 'l' as int, 'l' as int]
}
