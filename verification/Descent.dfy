/**
 * The parse as a recursive descent, for every input and every option. It is the reference the
 * flattened loop and the pull parser are compared with, and it is itself compared with the grammar.
 */
module Descent {
  import opened Base
  import opened Text
  import Number

  /**
   * The options that matter below the top level. pull is how the pull parser reads containers: it does
   * not ask for a comma between members, and it takes none on its own.
   */
  datatype Rules = Rules(comments: bool, trailingCommas: bool, validate: bool, pull: bool,
                         size: nat, finite: bytes -> bool)

  predicate IsCloser(b: byte) {
    b == ']' as int || b == '}' as int
  }

  // ----- Tokens -----

  function Space(t: bytes, p: nat, r: Rules): (s: Token<()>)
    requires p <= |t|
    ensures p <= s.pos <= |t|
  {
    SpaceEnd(t, p, r.comments)
  }

  /** The end of the word, or the first position where the text departs from it. */
  function WordEnd(t: bytes, p: nat, word: bytes): (s: Token<()>)
    requires p <= |t| && 0 !in word
    ensures p <= s.pos <= |t|
    ensures s.Done? ==> s.pos == p + |word|
    decreases |word|
  {
    if word == [] then Done((), p)
    else if At(t, p) == word[0] then WordEnd(t, p + 1, word[1..])
    else Fail(Unexpected, p)
  }

  function WordAt(t: bytes, p: nat, word: bytes, e: Event): (o: Outcome)
    requires p <= |t| && 0 !in word && word != []
    ensures o.pos <= |t| && (o.Ok? ==> p < o.pos && |o.evs| == 1)
  {
    var s := WordEnd(t, p, word);
    if s.Fail? then Err([], s.pos, s.code) else Ok([e], s.pos)
  }

  /** A value that is no container. */
  function ScalarAt(t: bytes, p: nat, r: Rules): (o: Outcome)
    requires p <= |t|
    ensures o.Ok? ==> p < o.pos <= |t| && |o.evs| == 1
    ensures o.pos > |t| ==> o.Err? && o.pos == |t| + 1 && At(t, p) == '-' as int && p + 1 == |t|
  {
    var b := At(t, p);
    if b == QUOTE then
      var s := StringAt(t, p + 1, r.validate);
      if s.Fail? then Err([], s.pos, s.code) else Ok([Str(s.val)], s.pos)
    else if b == 't' as int then WordAt(t, p, TRUE, Boolean(true))
    else if b == 'f' as int then WordAt(t, p, FALSE, Boolean(false))
    else if b == 'n' as int then WordAt(t, p, NULL, Null)
    else if b == '-' as int || 0x30 <= b <= 0x39 then
      var n := Number.NumberAt(t, p, r.finite);
      if n.Fail? then Err([], n.pos, n.code) else Ok([n.val], n.pos)
    else Err([], p, Unexpected)
  }

  /** A key and its colon. */
  function KeyColon(t: bytes, p: nat, r: Rules): (k: Token<bytes>)
    requires p <= |t|
    ensures k.pos <= |t| && (k.Done? ==> p < k.pos)
  {
    if At(t, p) != QUOTE then Fail(ExpectedKey, p)
    else
      var s := StringAt(t, p + 1, r.validate);
      if s.Fail? then s
      else
        var w := Space(t, s.pos, r);
        if w.Fail? then Fail(w.code, w.pos)
        else if At(t, w.pos) != ':' as int then Fail(ExpectedKey, w.pos)
        else Done(s.val, w.pos + 1)
  }

  /** A key, its colon and the space behind it. */
  function KeyAt(t: bytes, p: nat, r: Rules): (o: Outcome)
    requires p <= |t|
    ensures o.pos <= |t| && (o.Ok? ==> p < o.pos)
  {
    var k := KeyColon(t, p, r);
    if k.Fail? then Err([], k.pos, k.code)
    else
      var w := Space(t, k.pos, r);
      if w.Fail? then Err([Key(k.val)], w.pos, w.code) else Ok([Key(k.val)], w.pos)
  }

  /** What stands between an opening bracket and the first element or the closing bracket. */
  function OpeningEnd(t: bytes, p: nat, isArray: bool, r: Rules): (s: Token<()>)
    requires p <= |t|
    ensures p <= s.pos <= |t|
  {
    var w := Space(t, p, r);
    if w.Fail? || r.pull || !(r.trailingCommas && At(t, w.pos) == COMMA) then w
    else
      var w' := Space(t, w.pos + 1, r);
      if w'.Fail? then w'
      else if At(t, w'.pos) != Closer(isArray) then Fail(Unexpected, w'.pos)
      else w'
  }

  /** What stands behind a value: true when it is a comma that another value has to follow. */
  function SeparatorEnd(t: bytes, p: nat, r: Rules): (s: Token<bool>)
    requires p <= |t|
    ensures p <= s.pos <= |t|
    ensures s.Done? && s.val ==> p < s.pos
  {
    var w := Space(t, p, r);
    if w.Fail? then Fail(w.code, w.pos)
    else if At(t, w.pos) != COMMA then Done(false, w.pos)
    else
      var w' := Space(t, w.pos + 1, r);
      if w'.Fail? then Fail(w'.code, w'.pos)
      else Done(!(r.trailingCommas && IsCloser(At(t, w'.pos))), w'.pos)
  }

  // ----- The descent -----

  /** The value at p, inside depth open containers. */
  function ValueAt(t: bytes, p: nat, depth: nat, r: Rules): (o: Outcome)
    requires p <= |t|
    ensures o.Ok? ==> p < o.pos <= |t|
    decreases |t| - p, 0
  {
    var b := At(t, p);
    if b == Opener(true) || b == Opener(false) then
      var isArray := b == Opener(true);
      if depth >= r.size then Err([], p + 1, StackOverflow)
      else Emit([StartOf(isArray)], BodyAt(t, p + 1, depth + 1, isArray, r))
    else ScalarAt(t, p, r)
  }

  /** The rest of a container behind its opening bracket. */
  function BodyAt(t: bytes, p: nat, depth: nat, isArray: bool, r: Rules): (o: Outcome)
    requires p <= |t|
    ensures o.Ok? ==> p < o.pos <= |t|
    decreases |t| - p, 4
  {
    var s := OpeningEnd(t, p, isArray, r);
    if s.Fail? then Err([], s.pos, s.code)
    else if At(t, s.pos) == Closer(isArray) then Ok([EndOf(isArray)], s.pos + 1)
    else ElementsAt(t, s.pos, depth, isArray, r)
  }

  /** An array element or an object member. */
  function ElementAt(t: bytes, p: nat, depth: nat, isArray: bool, r: Rules): (o: Outcome)
    requires p <= |t|
    ensures o.Ok? ==> p < o.pos <= |t|
    decreases |t| - p, 1
  {
    if isArray then ValueAt(t, p, depth, r)
    else
      var k := KeyAt(t, p, r);
      if k.Err? then k else Emit(k.evs, ValueAt(t, k.pos, depth, r))
  }

  /** One or more elements and the closing bracket. */
  function ElementsAt(t: bytes, p: nat, depth: nat, isArray: bool, r: Rules): (o: Outcome)
    requires p <= |t|
    ensures o.Ok? ==> p < o.pos <= |t|
    decreases |t| - p, 2
  {
    var e := ElementAt(t, p, depth, isArray, r);
    if e.Err? then e else Emit(e.evs, MoreAt(t, e.pos, depth, isArray, r))
  }

  /** What follows an element up to and including the closing bracket. */
  function MoreAt(t: bytes, p: nat, depth: nat, isArray: bool, r: Rules): (o: Outcome)
    requires p <= |t|
    ensures o.Ok? ==> p < o.pos <= |t|
    decreases |t| - p, 3
  {
    var s := SeparatorEnd(t, p, r);
    if s.Fail? then Err([], s.pos, s.code)
    else if s.val then ElementsAt(t, s.pos, depth, isArray, r)
    else if At(t, s.pos) == Closer(isArray) then Ok([EndOf(isArray)], s.pos + 1)
    else if r.pull && !isArray then ElementsAt(t, s.pos, depth, isArray, r)
    else Err([], s.pos, Unexpected)
  }

  /** One or more top-level values separated by commas: the loop breaks on a comma at any level. */
  function TopAt(t: bytes, p: nat, r: Rules): (o: Outcome)
    requires p <= |t|
    ensures o.Ok? ==> p < o.pos <= |t|
    decreases |t| - p
  {
    var v := ValueAt(t, p, 0, r);
    if v.Err? then v
    else
      var s := SeparatorEnd(t, v.pos, r);
      if s.Fail? then Err(v.evs, s.pos, s.code)
      else if s.val then Emit(v.evs, TopAt(t, s.pos, r))
      else Ok(v.evs, s.pos)
  }

  /** What one run of the loop over the text from p on delivers. */
  function GenerateAt(t: bytes, p: nat, r: Rules): (o: Outcome)
    requires p <= |t|
    ensures o.Ok? ==> p < o.pos <= |t|
  {
    var w := Space(t, p, r);
    if w.Fail? then Err([], w.pos, w.code) else TopAt(t, w.pos, r)
  }

  /** The whole SAX parse of the text from p on. */
  function SaxAt(t: bytes, p: nat, r: Rules, multiple: bool, trailing: bool): (o: Outcome)
    requires p <= |t|
    ensures o.Ok? ==> p < o.pos <= |t|
    decreases |t| - p
  {
    var o := GenerateAt(t, p, r);
    if o.Err? || o.pos == |t| then o
    else if multiple then Emit(o.evs, SaxAt(t, o.pos, r, multiple, trailing))
    else if trailing then o
    else Err(o.evs, o.pos, Unexpected)
  }
}
