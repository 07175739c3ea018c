/**
 * The descent accepts exactly the texts of the grammar, with every option, and delivers the events of the
 * tree: completeness (every tree is read as itself, or rejected if only the other parser takes it) and
 * soundness (what is read is the text of a tree).
 */
module Conformance {
  import opened Base
  import opened Text
  import opened Gap
  import opened Grammar
  import opened Descent
  import opened Decimal
  import Number

  function LimitsOf(r: Rules): Limits {
    Limits(r.validate, r.finite, r.comments, r.trailingCommas)
  }

  /** A byte that ends an element inside a container, or the text. */
  predicate IsDelimiter(b: byte) {
    b == COMMA || IsCloser(b) || b == 0
  }

  /** A byte that starts an element. */
  predicate StartsElement(b: byte) {
    EndsGap(b) && !IsDelimiter(b)
  }

  /** The byte does not continue a value that ends before it. */
  predicate EndsValue(v: Value, b: byte) {
    v.NumberValue? ==> Number.EndsLiteral(v.lit, b)
  }

  // ----- Completeness -----

  lemma SpaceComplete(t: bytes, p: nat, q: nat, ws: bytes, r: Rules)
    requires IsGap(ws, r.comments) && Occurs(t, p, ws) && q == p + |ws| && EndsGap(At(t, q))
    ensures Space(t, p, r) == Done((), q)
  {
    GapSkip(t, p, ws, r.comments);
    SpaceEndIdempotent(t, q, r.comments);
  }

  lemma SpaceStays(t: bytes, p: nat, r: Rules)
    requires p <= |t| && EndsGap(At(t, p))
    ensures Space(t, p, r) == Done((), p)
  {
  }

  lemma {:induction false} WordComplete(t: bytes, p: nat, word: bytes)
    requires 0 !in word && Occurs(t, p, word)
    ensures WordEnd(t, p, word) == Done((), p + |word|)
    decreases |word|
  {
    if word != [] {
      OccursAt(t, p, word, 0);
      assert t[p + 1..p + |word|] == word[1..];
      WordComplete(t, p + 1, word[1..]);
    }
  }

  lemma NumberStart(l: Number.Literal)
    requires Number.WfLiteral(l)
    ensures Number.Unparse(l) != []
    ensures var b := Number.Unparse(l)[0]; if l.neg then b == '-' as int else 0x30 <= b <= 0x39
  {
    assert Number.Unparse(l)[0] == if l.neg then '-' as int else l.whole[0];
  }

  lemma NumberComplete(t: bytes, p: nat, q: nat, l: Number.Literal, r: Rules)
    requires WfValue(NumberValue(l), LimitsOf(r))
    requires Occurs(t, p, Number.Unparse(l)) && q == p + |Number.Unparse(l)| && Number.EndsLiteral(l, At(t, q))
    ensures ScalarAt(t, p, r) == Ok([Number.LiteralEvent(l)], q)
    ensures if l.neg then At(t, p) == '-' as int else 0x30 <= At(t, p) <= 0x39
  {
    NumberStart(l);
    OccursAt(t, p, Number.Unparse(l), 0);
    Number.NumberComplete(t, p, q, l, r.finite);
    ScalarIsNumber(t, p, r);
  }

  lemma ScalarIsNumber(t: bytes, p: nat, r: Rules)
    requires p <= |t| && (At(t, p) == '-' as int || 0x30 <= At(t, p) <= 0x39)
    ensures ScalarAt(t, p, r) ==
      var n := Number.NumberAt(t, p, r.finite); if n.Fail? then Err([], n.pos, n.code) else Ok([n.val], n.pos)
  {
    hide Number.NumberAt;
  }

  lemma QuotedComplete(t: bytes, p: nat, cs: seq<Piece>, validate: bool)
    requires WfPieces(cs, validate) && Occurs(t, p, [QUOTE] + (PiecesText(cs, validate) + [QUOTE]))
    ensures At(t, p) == QUOTE && p + 1 <= |t|
    ensures StringAt(t, p + 1, validate) == Done(PiecesBytes(cs, validate), p + |PiecesText(cs, validate)| + 2)
  {
    OccursSplit(t, p, [QUOTE], PiecesText(cs, validate) + [QUOTE]);
    OccursAt(t, p, [QUOTE], 0);
    StringComplete(t, p + 1, cs, validate);
  }

  predicate IsScalar(v: Value) {
    v.NullValue? || v.BooleanValue? || v.NumberValue? || v.StringValue?
  }

  /** The first byte of a value: a digit exactly if the value is a number without a sign. */
  predicate ValueStart(v: Value, b: byte) {
    StartsElement(b) && if v.NumberValue? && !v.lit.neg then IsDigit(b) else Number.EndsNumber(b)
  }

  lemma WordStart(t: bytes, p: nat, word: bytes, e: Event, r: Rules)
    requires Occurs(t, p, word) && word in {NULL, TRUE, FALSE}
    requires e == if word == NULL then Null else Boolean(word == TRUE)
    ensures ScalarAt(t, p, r) == Ok([e], p + |word|)
    ensures At(t, p) == word[0]
  {
    hide StringAt, Number.NumberAt;
    OccursAt(t, p, word, 0);
    WordComplete(t, p, word);
  }

  lemma QuotedScalar(t: bytes, p: nat, cs: seq<Piece>, r: Rules)
    requires WfPieces(cs, r.validate) && Occurs(t, p, [QUOTE] + (PiecesText(cs, r.validate) + [QUOTE]))
    ensures At(t, p) == QUOTE
    ensures ScalarAt(t, p, r) == Ok([Str(PiecesBytes(cs, r.validate))], p + |PiecesText(cs, r.validate)| + 2)
  {
    hide StringAt, Number.NumberAt, PiecesText, PiecesBytes, WfPieces;
    QuotedComplete(t, p, cs, r.validate);
  }

  lemma ScalarComplete(t: bytes, p: nat, q: nat, v: Value, r: Rules)
    requires WfValue(v, LimitsOf(r)) && IsScalar(v)
    requires Occurs(t, p, ValueText(v, LimitsOf(r))) && q == p + |ValueText(v, LimitsOf(r))|
    requires EndsValue(v, At(t, q))
    ensures ScalarAt(t, p, r) == Ok(ValueEvents(v, LimitsOf(r)), q)
    ensures ValueStart(v, At(t, p)) && At(t, p) != Opener(true) && At(t, p) != Opener(false)
  {
    hide Occurs, ScalarAt, PiecesText, PiecesBytes, Number.Unparse, WfPieces;
    match v
    case NullValue => WordStart(t, p, NULL, Null, r);
    case BooleanValue(b) => WordStart(t, p, if b then TRUE else FALSE, Boolean(b), r);
    case NumberValue(l) => NumberComplete(t, p, q, l, r);
    case StringValue(cs) => QuotedScalar(t, p, cs, r);
  }

  lemma KeyComplete(t: bytes, p: nat, q: nat, k: KeyPart, r: Rules)
    requires WfKey(k, LimitsOf(r))
    requires Occurs(t, p, KeyText(k, LimitsOf(r))) && q == p + |KeyText(k, LimitsOf(r))| && EndsGap(At(t, q))
    ensures KeyAt(t, p, r) == Ok([Key(PiecesBytes(k.cs, r.validate))], q)
    ensures At(t, p) == QUOTE
  {
    hide Occurs, KeyAt, Space, StringAt, IsGap;
    var str := [QUOTE] + (PiecesText(k.cs, r.validate) + [QUOTE]);
    OccursSplit(t, p, str, k.before + ([':' as int] + k.behind));
    var s := p + |str|;
    OccursSplit(t, s, k.before, [':' as int] + k.behind);
    var c := s + |k.before|;
    OccursSplit(t, c, [':' as int], k.behind);
    OccursAt(t, c, [':' as int], 0);
    QuotedComplete(t, p, k.cs, r.validate);
    SpaceComplete(t, s, c, k.before, r);
    SpaceComplete(t, c + 1, q, k.behind, r);
    KeyParts(t, p, s, c, q, PiecesBytes(k.cs, r.validate), r);
  }

  lemma KeyParts(t: bytes, p: nat, s: nat, c: nat, q: nat, key: bytes, r: Rules)
    requires p < s <= c < |t| && c + 1 <= q <= |t| && t[p] == QUOTE && t[c] == ':' as int
    requires StringAt(t, p + 1, r.validate) == Done(key, s)
    requires Space(t, s, r) == Done((), c) && Space(t, c + 1, r) == Done((), q)
    ensures KeyAt(t, p, r) == Ok([Key(key)], q)
  {
  }

  /** What reading a part of the grammar comes to: its events, or an error where only the other parser takes it. */
  predicate Comes(o: Outcome, suits: bool, evs: seq<Event>, pos: nat) {
    if suits then o == Ok(evs, pos) else o.Err?
  }

  lemma {:induction false} ValueComplete(t: bytes, p: nat, q: nat, v: Value, depth: nat, r: Rules)
    requires WfValue(v, LimitsOf(r)) && depth + Depth(v) <= r.size
    requires Occurs(t, p, ValueText(v, LimitsOf(r))) && q == p + |ValueText(v, LimitsOf(r))|
    requires EndsValue(v, At(t, q))
    ensures p <= |t| && Comes(ValueAt(t, p, depth, r), Suits(v, r.pull), ValueEvents(v, LimitsOf(r)), q)
    ensures ValueStart(v, At(t, p))
    decreases v, 0
  {
    hide Occurs, Space, ScalarAt, BodyAt, IsGap, ElementsText, ElementsEvents, ElementsDepth, WfElements, SuitAll;
    if v.Empty? {
      EmptyComplete(t, p, q, v, depth, r);
    } else if v.LoneComma? {
      LoneCommaComplete(t, p, q, v, depth, r);
    } else if v.Filled? {
      var inner := ElementsText(v.es, !v.isArray, LimitsOf(r)) + [Closer(v.isArray)];
      OccursSplit(t, p, [Opener(v.isArray)], inner);
      OccursEnds(t, p, [Opener(v.isArray)]);
      BodyComplete(t, p + 1, q, v.es, depth + 1, v.isArray, r);
    } else {
      ScalarComplete(t, p, q, v, r);
    }
  }

  lemma EmptyComplete(t: bytes, p: nat, q: nat, v: Value, depth: nat, r: Rules)
    requires v.Empty? && WfValue(v, LimitsOf(r)) && depth < r.size
    requires Occurs(t, p, ValueText(v, LimitsOf(r))) && q == p + |ValueText(v, LimitsOf(r))|
    ensures p <= |t| && ValueAt(t, p, depth, r) == Ok([StartOf(v.isArray), EndOf(v.isArray)], q)
    ensures ValueStart(v, At(t, p))
  {
    hide Occurs, Space, IsGap;
    OccursSplit(t, p, [Opener(v.isArray)], v.ws + [Closer(v.isArray)]);
    OccursEnds(t, p, [Opener(v.isArray)]);
    OccursSplit(t, p + 1, v.ws, [Closer(v.isArray)]);
    var n := p + 1 + |v.ws|;
    OccursEnds(t, n, [Closer(v.isArray)]);
    SpaceComplete(t, p + 1, n, v.ws, r);
    assert BodyAt(t, p + 1, depth + 1, v.isArray, r) == Ok([EndOf(v.isArray)], n + 1);
  }

  lemma LoneCommaComplete(t: bytes, p: nat, q: nat, v: Value, depth: nat, r: Rules)
    requires v.LoneComma? && WfValue(v, LimitsOf(r)) && depth < r.size
    requires Occurs(t, p, ValueText(v, LimitsOf(r))) && q == p + |ValueText(v, LimitsOf(r))|
    ensures p <= |t| && Comes(ValueAt(t, p, depth, r), !r.pull, [StartOf(v.isArray), EndOf(v.isArray)], q)
    ensures ValueStart(v, At(t, p))
  {
    hide Occurs, Space, IsGap;
    var close: bytes := [Closer(v.isArray)];
    OccursSplit(t, p, [Opener(v.isArray)], v.before + ([COMMA] + (v.behind + close)));
    OccursAt(t, p, [Opener(v.isArray)], 0);
    OccursSplit(t, p + 1, v.before, [COMMA] + (v.behind + close));
    var c := p + 1 + |v.before|;
    OccursSplit(t, c, [COMMA], v.behind + close);
    OccursAt(t, c, [COMMA], 0);
    OccursSplit(t, c + 1, v.behind, close);
    var n := c + 1 + |v.behind|;
    OccursAt(t, n, close, 0);
    SpaceComplete(t, p + 1, c, v.before, r);
    SpaceComplete(t, c + 1, n, v.behind, r);
    LoneCommaParts(t, p, c, n, depth, v.isArray, r);
  }

  lemma LoneCommaParts(t: bytes, p: nat, c: nat, n: nat, depth: nat, isArray: bool, r: Rules)
    requires p < c < n < |t| && t[p] == Opener(isArray) && t[c] == COMMA && t[n] == Closer(isArray)
    requires Space(t, p + 1, r) == Done((), c) && Space(t, c + 1, r) == Done((), n)
    requires r.trailingCommas && depth < r.size
    ensures Comes(ValueAt(t, p, depth, r), !r.pull, [StartOf(isArray), EndOf(isArray)], n + 1)
  {
    hide Space;
    if r.pull {
      assert ElementAt(t, c, depth + 1, isArray, r).Err?;
      assert ElementsAt(t, c, depth + 1, isArray, r).Err?;
      assert BodyAt(t, p + 1, depth + 1, isArray, r).Err?;
    } else {
      assert BodyAt(t, p + 1, depth + 1, isArray, r) == Ok([EndOf(isArray)], n + 1);
    }
  }

  lemma {:induction false} BodyComplete(t: bytes, p: nat, q: nat, es: Elements, depth: nat, isArray: bool, r: Rules)
    requires WfElements(es, !isArray, LimitsOf(r)) && depth + ElementsDepth(es) <= r.size
    requires Occurs(t, p, ElementsText(es, !isArray, LimitsOf(r)) + [Closer(isArray)])
    requires q == p + |ElementsText(es, !isArray, LimitsOf(r))| + 1
    ensures p <= |t| && Comes(BodyAt(t, p, depth, isArray, r), SuitAll(es, r.pull),
      ElementsEvents(es, !isArray, LimitsOf(r)) + [EndOf(isArray)], q)
    decreases es, 2
  {
    var s := p + |es.e.pre|;
    ElementsComplete(t, p, s, q, es, depth, isArray, r);
    PreComplete(t, p, s, es, isArray, r);
    BodyParts(t, p, s, depth, isArray, r);
  }

  lemma BodyParts(t: bytes, p: nat, s: nat, depth: nat, isArray: bool, r: Rules)
    requires p <= s <= |t| && Space(t, p, r) == Done((), s) && StartsElement(At(t, s))
    ensures BodyAt(t, p, depth, isArray, r) == ElementsAt(t, s, depth, isArray, r)
  {
  }

  /** The white space before the first element. */
  lemma PreComplete(t: bytes, p: nat, s: nat, es: Elements, isArray: bool, r: Rules)
    requires WfElements(es, !isArray, LimitsOf(r))
    requires Occurs(t, p, ElementsText(es, !isArray, LimitsOf(r)))
    requires s == p + |es.e.pre| && EndsGap(At(t, s))
    ensures p <= |t| && Space(t, p, r) == Done((), s)
  {
    hide IsGap;
    var text := ElementText(es.e, !isArray, LimitsOf(r));
    OccursSplit(t, p, text, ElementsText(es, !isArray, LimitsOf(r))[|text|..]);
    assert ElementsText(es, !isArray, LimitsOf(r)) == text + ElementsText(es, !isArray, LimitsOf(r))[|text|..];
    OccursSplit(t, p, es.e.pre, text[|es.e.pre|..]);
    assert text == es.e.pre + text[|es.e.pre|..];
    SpaceComplete(t, p, s, es.e.pre, r);
  }

  /** An element; the space behind its value ends where the space behind its text ends. */
  lemma {:induction false} ElementComplete(t: bytes, p: nat, s: nat, q: nat, e: Element, depth: nat, isArray: bool, r: Rules)
    returns (m: nat)
    requires WfElement(e, !isArray, LimitsOf(r)) && depth + Depth(e.v) <= r.size
    requires Occurs(t, p, ElementText(e, !isArray, LimitsOf(r))) && q == p + |ElementText(e, !isArray, LimitsOf(r))|
    requires (e.post == [] ==> EndsValue(e.v, At(t, q))) && s == p + |e.pre|
    ensures s <= m <= q <= |t|
    ensures if isArray then ValueStart(e.v, At(t, s)) else At(t, s) == QUOTE
    ensures Comes(ElementAt(t, s, depth, isArray, r), Suits(e.v, r.pull), ElementEvents(e, !isArray, LimitsOf(r)), m)
    ensures Space(t, m, r) == Space(t, q, r)
    decreases e, 1
  {
    hide Occurs, Space, ValueAt, KeyAt, IsGap, ElementAt, ElementEvents, ElementText, ValueText, KeyText, Comes;
    var k;
    k, m := CutElement(t, p, s, q, e, isArray, r);
    PostSkip(t, m, q, e, r);
    ValueComplete(t, k, m, e.v, depth, r);
    if !isArray {
      KeyComplete(t, s, k, e.key.value, r);
    }
    ElementParts(t, s, k, m, e, depth, isArray, r);
  }

  /** Where the key, the value and the space behind it stand in the text of an element. */
  lemma CutElement(t: bytes, p: nat, s: nat, q: nat, e: Element, isArray: bool, r: Rules) returns (k: nat, m: nat)
    requires WfElement(e, !isArray, LimitsOf(r)) && s == p + |e.pre|
    requires Occurs(t, p, ElementText(e, !isArray, LimitsOf(r))) && q == p + |ElementText(e, !isArray, LimitsOf(r))|
    ensures s <= k <= m <= q <= |t| && q == m + |e.post| && Occurs(t, m, e.post)
    ensures m == k + |ValueText(e.v, LimitsOf(r))| && Occurs(t, k, ValueText(e.v, LimitsOf(r)))
    ensures if isArray then k == s
      else k == s + |KeyText(e.key.value, LimitsOf(r))| && Occurs(t, s, KeyText(e.key.value, LimitsOf(r)))
  {
    hide Occurs, IsGap, ValueText, KeyText, WfValue, WfKey;
    var lim := LimitsOf(r);
    var key := if isArray then [] else KeyText(e.key.value, lim);
    var val := ValueText(e.v, lim);
    OccursSplit(t, p, e.pre, key + (val + e.post));
    OccursSplit(t, s, key, val + e.post);
    k := s + |key|;
    OccursSplit(t, k, val, e.post);
    m := k + |val|;
    OccursFits(t, m, e.post);
  }

  /** The key and the value of an element read one after the other. */
  lemma ElementParts(t: bytes, s: nat, k: nat, m: nat, e: Element, depth: nat, isArray: bool, r: Rules)
    requires WfElement(e, !isArray, LimitsOf(r)) && s <= k <= |t|
    requires Comes(ValueAt(t, k, depth, r), Suits(e.v, r.pull), ValueEvents(e.v, LimitsOf(r)), m)
    requires if isArray then s == k else KeyAt(t, s, r) == Ok([Key(PiecesBytes(e.key.value.cs, r.validate))], k)
    ensures Comes(ElementAt(t, s, depth, isArray, r), Suits(e.v, r.pull), ElementEvents(e, !isArray, LimitsOf(r)), m)
  {
    hide ValueAt, KeyAt, Suits, ValueEvents, WfValue, WfKey, IsGap;
    assert [] + ValueEvents(e.v, LimitsOf(r)) == ValueEvents(e.v, LimitsOf(r));
  }

  lemma PostSkip(t: bytes, m: nat, q: nat, e: Element, r: Rules)
    requires IsGap(e.post, r.comments) && Occurs(t, m, e.post) && q == m + |e.post|
    requires e.post == [] ==> EndsValue(e.v, At(t, q))
    ensures EndsValue(e.v, At(t, m)) && q <= |t| && Space(t, m, r) == Space(t, q, r)
  {
    if e.post != [] {
      OccursAt(t, m, e.post, 0);
      GapStart(e.post, r.comments);
    }
    GapSkip(t, m, e.post, r.comments);
  }

  /** One or more elements and the closing bracket. */
  lemma {:induction false} ElementsComplete(t: bytes, p: nat, s: nat, q: nat, es: Elements, depth: nat, isArray: bool, r: Rules)
    requires WfElements(es, !isArray, LimitsOf(r)) && depth + ElementsDepth(es) <= r.size
    requires Occurs(t, p, ElementsText(es, !isArray, LimitsOf(r)) + [Closer(isArray)])
    requires q == p + |ElementsText(es, !isArray, LimitsOf(r))| + 1 && s == p + |es.e.pre|
    ensures StartsElement(At(t, s)) && s <= |t|
    ensures !isArray ==> At(t, s) == QUOTE
    ensures Occurs(t, p, ElementsText(es, !isArray, LimitsOf(r)))
    ensures Comes(ElementsAt(t, s, depth, isArray, r), SuitAll(es, r.pull),
      ElementsEvents(es, !isArray, LimitsOf(r)) + [EndOf(isArray)], q)
    decreases es, 1
  {
    hide Occurs, ElementsAt, ElementAt, Space, ElementText, ElementsText, ElementEvents, ElementsEvents, WfElement, IsGap;
    var n := CutElements(t, p, es, isArray, r);
    if es.Comma? {
      var s' := n + 1 + |es.rest.e.pre|;
      ElementsComplete(t, n + 1, s', q, es.rest, depth, isArray, r);
      PreComplete(t, n + 1, s', es.rest, isArray, r);
      var m := ElementComplete(t, p, s, n, es.e, depth, isArray, r);
      SpaceStays(t, n, r);
      NextElement(t, s, m, n, s', q, es, depth, isArray, r);
    } else if es.Beside? {
      ElementsComplete(t, n, n, q, es.rest, depth, isArray, r);
      var m := ElementComplete(t, p, s, n, es.e, depth, isArray, r);
      SpaceStays(t, n, r);
      NextBeside(t, s, m, n, q, es, depth, r);
    } else {
      var m := ElementComplete(t, p, s, n, es.e, depth, isArray, r);
      SpaceStays(t, n, r);
      if es.Trailing? {
        SpaceComplete(t, n + 1, q - 1, es.ws, r);
      }
      LastElement(t, s, m, n, q, es, depth, isArray, r);
    }
  }

  /** The text of the elements from the end of the first one on. */
  lemma CutElements(t: bytes, p: nat, es: Elements, isArray: bool, r: Rules) returns (n: nat)
    requires WfElements(es, !isArray, LimitsOf(r))
    requires Occurs(t, p, ElementsText(es, !isArray, LimitsOf(r)) + [Closer(isArray)])
    ensures Occurs(t, p, ElementsText(es, !isArray, LimitsOf(r)))
    ensures n == p + |ElementText(es.e, !isArray, LimitsOf(r))| && n < |t|
    ensures Occurs(t, p, ElementText(es.e, !isArray, LimitsOf(r)))
    ensures var len, close := |ElementsText(es, !isArray, LimitsOf(r))|, Closer(isArray);
      match es
      case Last(_) => t[n] == close && p + len == n
      case Trailing(_, ws) => t[n] == COMMA && Occurs(t, n + 1, ws) && p + len == n + 1 + |ws| < |t| && t[p + len] == close
      case Comma(_, rest) =>
        && t[n] == COMMA && Occurs(t, n + 1, ElementsText(rest, !isArray, LimitsOf(r)) + [close])
        && p + len == n + 1 + |ElementsText(rest, !isArray, LimitsOf(r))|
      case Beside(_, rest) =>
        && Occurs(t, n, ElementsText(rest, !isArray, LimitsOf(r)) + [close])
        && p + len == n + |ElementsText(rest, !isArray, LimitsOf(r))|
  {
    hide IsGap, WfElement, ElementText, Occurs;
    var lim := LimitsOf(r);
    var close := Closer(isArray);
    var text := ElementText(es.e, !isArray, lim);
    n := p + |text|;
    var link: bytes := if es.Trailing? || es.Comma? then [COMMA] else [];
    var rest := if HasRest(es) then ElementsText(es.rest, !isArray, lim) else if es.Trailing? then es.ws else [];
    assert ElementsText(es, !isArray, lim) == text + (link + rest);
    CutText(t, p, text, link, rest, close);
    if es.Trailing? {
      OccursSplit(t, n + 1, rest, [close]);
    }
  }

  /** An element, a comma or nothing, what follows, and the closing bracket. */
  lemma CutText(t: bytes, p: nat, text: bytes, link: bytes, rest: bytes, close: byte)
    requires Occurs(t, p, text + (link + rest) + [close]) && |link| <= 1
    ensures Occurs(t, p, text + (link + rest)) && Occurs(t, p, text)
    ensures var n := p + |text|; n < |t| && Occurs(t, n + |link|, rest + [close]) && (link != [] ==> t[n] == link[0])
    ensures var q := p + |text + (link + rest)|; q < |t| && t[q] == close
  {
    hide Occurs;
    var n := p + |text|;
    OccursSplit(t, p, text + (link + rest), [close]);
    OccursSplit(t, p, text, link + rest);
    OccursAt(t, p + |text + (link + rest)|, [close], 0);
    assert text + (link + rest) + [close] == text + (link + (rest + [close]));
    OccursSplit(t, p, text, link + (rest + [close]));
    OccursSplit(t, n, link, rest + [close]);
    OccursAt(t, n, link + (rest + [close]), 0);
    if link != [] {
      OccursAt(t, n, link, 0);
    }
    OccursEnds(t, p + |text + (link + rest)|, [close]);
  }

  lemma OccursEnds(t: bytes, p: nat, u: bytes)
    requires Occurs(t, p, u) && u != []
    ensures p < |t| && t[p] == u[0]
  {
  }

  /** The last element, perhaps with a comma behind it. */
  lemma LastElement(t: bytes, p: nat, m: nat, n: nat, q: nat, es: Elements, depth: nat, isArray: bool, r: Rules)
    requires WfElements(es, !isArray, LimitsOf(r)) && !HasRest(es)
    requires p <= m <= n < q <= |t| && Space(t, m, r) == Done((), n) && t[q - 1] == Closer(isArray)
    requires if es.Last? then n == q - 1 else t[n] == COMMA && Space(t, n + 1, r) == Done((), q - 1)
    requires Comes(ElementAt(t, p, depth, isArray, r), Suits(es.e.v, r.pull), ElementEvents(es.e, !isArray, LimitsOf(r)), m)
    ensures Comes(ElementsAt(t, p, depth, isArray, r), SuitAll(es, r.pull),
      ElementsEvents(es, !isArray, LimitsOf(r)) + [EndOf(isArray)], q)
  {
    hide Space, IsGap, WfElement, ElementEvents, ElementAt;
    assert SeparatorEnd(t, m, r) == Done(false, q - 1);
    assert MoreAt(t, m, depth, isArray, r) == Ok([EndOf(isArray)], q);
    assert ElementsEvents(es, !isArray, LimitsOf(r)) == ElementEvents(es.e, !isArray, LimitsOf(r));
  }

  /** The first element and those behind the comma. */
  lemma NextElement(t: bytes, p: nat, m: nat, n: nat, s: nat, q: nat, es: Elements, depth: nat, isArray: bool, r: Rules)
    requires WfElements(es, !isArray, LimitsOf(r)) && es.Comma?
    requires p <= m <= n < |t| && t[n] == COMMA && Space(t, m, r) == Done((), n)
    requires s <= |t| && Space(t, n + 1, r) == Done((), s) && StartsElement(At(t, s))
    requires Comes(ElementAt(t, p, depth, isArray, r), Suits(es.e.v, r.pull), ElementEvents(es.e, !isArray, LimitsOf(r)), m)
    requires Comes(ElementsAt(t, s, depth, isArray, r), SuitAll(es.rest, r.pull),
      ElementsEvents(es.rest, !isArray, LimitsOf(r)) + [EndOf(isArray)], q)
    ensures Comes(ElementsAt(t, p, depth, isArray, r), SuitAll(es, r.pull),
      ElementsEvents(es, !isArray, LimitsOf(r)) + [EndOf(isArray)], q)
  {
    hide Space, IsGap, WfElement, ElementEvents, ElementAt;
    assert SeparatorEnd(t, m, r) == Done(true, s);
    assert MoreAt(t, m, depth, isArray, r) == ElementsAt(t, s, depth, isArray, r);
    var a, b := ElementEvents(es.e, !isArray, LimitsOf(r)), ElementsEvents(es.rest, !isArray, LimitsOf(r));
    assert a + (b + [EndOf(isArray)]) == a + b + [EndOf(isArray)];
  }

  /** A member and those that follow it at once, which only the pull parser reads. */
  lemma NextBeside(t: bytes, p: nat, m: nat, n: nat, q: nat, es: Elements, depth: nat, r: Rules)
    requires WfElements(es, true, LimitsOf(r)) && es.Beside?
    requires p <= m <= n < |t| && t[n] == QUOTE && Space(t, m, r) == Done((), n)
    requires Comes(ElementAt(t, p, depth, false, r), Suits(es.e.v, r.pull), ElementEvents(es.e, true, LimitsOf(r)), m)
    requires Comes(ElementsAt(t, n, depth, false, r), SuitAll(es.rest, r.pull),
      ElementsEvents(es.rest, true, LimitsOf(r)) + [EndObject], q)
    ensures Comes(ElementsAt(t, p, depth, false, r), SuitAll(es, r.pull),
      ElementsEvents(es, true, LimitsOf(r)) + [EndObject], q)
  {
    hide Space, IsGap, WfElement, ElementEvents, ElementAt;
    assert SeparatorEnd(t, m, r) == Done(false, n);
    assert MoreAt(t, m, depth, false, r) == if r.pull then ElementsAt(t, n, depth, false, r) else Err([], n, Unexpected);
    var a, b := ElementEvents(es.e, true, LimitsOf(r)), ElementsEvents(es.rest, true, LimitsOf(r));
    assert a + (b + [EndObject]) == a + b + [EndObject];
  }

  /**
   * What may follow a list of values: not a comma, nor more of a number at its end. Behind a comma at its end a
   * closing bracket has to follow.
   */
  predicate EndsList(t: bytes, q: nat, es: Elements, r: Rules) {
    q <= |t|
    && if Trails(es) then IsCloser(At(t, q))
       else
         && (LastOf(es).post == [] ==> EndsValue(LastOf(es).v, At(t, q)))
         && Space(t, q, r).Done? && At(t, Space(t, q, r).pos) != COMMA
  }

  /** Values with commas between them, at the top level. */
  lemma {:induction false} TopComplete(t: bytes, p: nat, s: nat, q: nat, es: Elements, r: Rules)
    requires WfElements(es, false, LimitsOf(r)) && IsOpenList(es) && ElementsDepth(es) <= r.size
    requires Occurs(t, p, ElementsText(es, false, LimitsOf(r))) && q == p + |ElementsText(es, false, LimitsOf(r))|
    requires s == p + |es.e.pre| && EndsList(t, q, es, r)
    ensures s <= |t| && ValueStart(es.e.v, At(t, s))
    ensures Comes(TopAt(t, s, r), SuitAll(es, r.pull), ElementsEvents(es, false, LimitsOf(r)), Space(t, q, r).pos)
    decreases es
  {
    hide Occurs, TopAt, ElementAt, Space, IsGap, WfElement, ElementText, ElementsText, ElementEvents, ElementsEvents;
    var n := CutTop(t, p, es, r);
    if es.Comma? {
      var s' := n + 1 + |es.rest.e.pre|;
      TopComplete(t, n + 1, s', q, es.rest, r);
      PreComplete(t, n + 1, s', es.rest, true, r);
      var m := ElementComplete(t, p, s, n, es.e, 0, true, r);
      SpaceStays(t, n, r);
      NextTop(t, s, m, n, s', Space(t, q, r).pos, es, r);
    } else if es.Trailing? {
      SpaceComplete(t, n + 1, q, es.ws, r);
      var m := ElementComplete(t, p, s, n, es.e, 0, true, r);
      SpaceStays(t, n, r);
      SpaceStays(t, q, r);
      TrailingTop(t, s, m, n, q, es, r);
    } else {
      var m := ElementComplete(t, p, s, n, es.e, 0, true, r);
      LastTop(t, s, m, n, es, r);
    }
  }

  lemma CutTop(t: bytes, p: nat, es: Elements, r: Rules) returns (n: nat)
    requires WfElements(es, false, LimitsOf(r)) && IsOpenList(es) && Occurs(t, p, ElementsText(es, false, LimitsOf(r)))
    ensures n == p + |ElementText(es.e, false, LimitsOf(r))| && Occurs(t, p, ElementText(es.e, false, LimitsOf(r)))
    ensures es.Last? ==> n == p + |ElementsText(es, false, LimitsOf(r))|
    ensures es.Comma? ==>
      && n < |t| && t[n] == COMMA && Occurs(t, n + 1, ElementsText(es.rest, false, LimitsOf(r)))
      && p + |ElementsText(es, false, LimitsOf(r))| == n + 1 + |ElementsText(es.rest, false, LimitsOf(r))|
    ensures es.Trailing? ==>
      && n < |t| && t[n] == COMMA && Occurs(t, n + 1, es.ws)
      && p + |ElementsText(es, false, LimitsOf(r))| == n + 1 + |es.ws|
  {
    hide IsGap, WfElement, ElementText, Occurs;
    var text := ElementText(es.e, false, LimitsOf(r));
    n := p + |text|;
    if !es.Last? {
      var rest := if es.Comma? then ElementsText(es.rest, false, LimitsOf(r)) else es.ws;
      assert ElementsText(es, false, LimitsOf(r)) == text + ([COMMA] + rest);
      OccursSplit(t, p, text, [COMMA] + rest);
      OccursSplit(t, n, [COMMA], rest);
      OccursEnds(t, n, [COMMA]);
    } else {
      assert ElementsText(es, false, LimitsOf(r)) == text;
    }
  }

  lemma LastTop(t: bytes, s: nat, m: nat, n: nat, es: Elements, r: Rules)
    requires WfElements(es, false, LimitsOf(r)) && es.Last?
    requires s <= m <= n <= |t| && Space(t, m, r) == Space(t, n, r) && EndsList(t, n, es, r)
    requires Comes(ElementAt(t, s, 0, true, r), Suits(es.e.v, r.pull), ElementEvents(es.e, false, LimitsOf(r)), m)
    ensures Comes(TopAt(t, s, r), SuitAll(es, r.pull), ElementsEvents(es, false, LimitsOf(r)), Space(t, n, r).pos)
  {
    hide Space, IsGap, WfElement, ElementEvents;
    assert SeparatorEnd(t, m, r) == Done(false, Space(t, n, r).pos);
    assert ElementsEvents(es, false, LimitsOf(r)) == ElementEvents(es.e, false, LimitsOf(r));
  }

  lemma TrailingTop(t: bytes, s: nat, m: nat, n: nat, q: nat, es: Elements, r: Rules)
    requires WfElements(es, false, LimitsOf(r)) && es.Trailing?
    requires s <= m <= n < q <= |t| && t[n] == COMMA && IsCloser(At(t, q))
    requires Space(t, m, r) == Done((), n) && Space(t, n + 1, r) == Done((), q)
    requires Comes(ElementAt(t, s, 0, true, r), Suits(es.e.v, r.pull), ElementEvents(es.e, false, LimitsOf(r)), m)
    ensures Comes(TopAt(t, s, r), SuitAll(es, r.pull), ElementsEvents(es, false, LimitsOf(r)), q)
  {
    hide Space, IsGap, WfElement, ElementEvents;
    assert SeparatorEnd(t, m, r) == Done(false, q);
    assert ElementsEvents(es, false, LimitsOf(r)) == ElementEvents(es.e, false, LimitsOf(r));
  }

  lemma NextTop(t: bytes, s: nat, m: nat, n: nat, s': nat, q: nat, es: Elements, r: Rules)
    requires WfElements(es, false, LimitsOf(r)) && es.Comma?
    requires s <= m <= n < s' <= |t| && t[n] == COMMA && StartsElement(At(t, s'))
    requires Space(t, m, r) == Done((), n) && Space(t, n + 1, r) == Done((), s')
    requires Comes(ElementAt(t, s, 0, true, r), Suits(es.e.v, r.pull), ElementEvents(es.e, false, LimitsOf(r)), m)
    requires Comes(TopAt(t, s', r), SuitAll(es.rest, r.pull), ElementsEvents(es.rest, false, LimitsOf(r)), q)
    ensures Comes(TopAt(t, s, r), SuitAll(es, r.pull), ElementsEvents(es, false, LimitsOf(r)), q)
  {
    hide Space, IsGap, WfElement, ElementEvents;
    assert SeparatorEnd(t, m, r) == Done(true, s');
  }

  // ----- Soundness -----

  /** Space that ends before the end of the text is a gap. */
  lemma SpaceSound(t: bytes, p: nat, r: Rules)
    requires p <= |t| && Space(t, p, r).Done? && Space(t, p, r).pos < |t|
    ensures IsGap(t[p..Space(t, p, r).pos], r.comments)
  {
    GapSound(t, p, r.comments);
  }

  /** Space up to n is a gap, and from n on, if it does not end there, a comment that nothing ends. */
  lemma SpaceParts(t: bytes, p: nat, r: Rules) returns (n: nat)
    requires p <= |t| && Space(t, p, r).Done?
    ensures p <= n <= Space(t, p, r).pos && IsGap(t[p..n], r.comments)
    ensures n < Space(t, p, r).pos ==> r.comments && Space(t, p, r).pos == |t| && IsOpenComment(t[n..])
  {
    n := SpaceCut(t, p, r.comments);
  }

  lemma {:induction false} WordSound(t: bytes, p: nat, word: bytes)
    requires p <= |t| && 0 !in word && WordEnd(t, p, word).Done?
    ensures Occurs(t, p, word)
    decreases |word|
  {
    if word != [] {
      WordSound(t, p + 1, word[1..]);
      assert word == [word[0]] + word[1..];
      assert Occurs(t, p, [word[0]]);
      OccursSplit(t, p, [word[0]], word[1..]);
    }
  }

  lemma QuotedSound(t: bytes, p: nat, validate: bool) returns (cs: seq<Piece>)
    requires p < |t| && t[p] == QUOTE && StringAt(t, p + 1, validate).Done?
    ensures WfPieces(cs, validate) && Occurs(t, p, [QUOTE] + (PiecesText(cs, validate) + [QUOTE]))
    ensures StringAt(t, p + 1, validate) == Done(PiecesBytes(cs, validate), p + |PiecesText(cs, validate)| + 2)
  {
    cs := StringSound(t, p + 1, validate);
    assert Occurs(t, p, [QUOTE]);
    OccursSplit(t, p, [QUOTE], PiecesText(cs, validate) + [QUOTE]);
  }

  lemma ScalarSound(t: bytes, p: nat, r: Rules) returns (v: Value)
    requires p <= |t| && ScalarAt(t, p, r).Ok?
    ensures WfValue(v, LimitsOf(r)) && IsScalar(v) && Occurs(t, p, ValueText(v, LimitsOf(r)))
    ensures ScalarAt(t, p, r).pos == p + |ValueText(v, LimitsOf(r))| && EndsValue(v, At(t, ScalarAt(t, p, r).pos))
  {
    hide Number.NumberAt, StringAt, WordEnd, Occurs;
    var b := At(t, p);
    if b == QUOTE {
      var cs := QuotedSound(t, p, r.validate);
      v := StringValue(cs);
    } else if b == 't' as int {
      WordSound(t, p, TRUE);
      v := BooleanValue(true);
    } else if b == 'f' as int {
      WordSound(t, p, FALSE);
      v := BooleanValue(false);
    } else if b == 'n' as int {
      WordSound(t, p, NULL);
      v := NullValue;
    } else {
      var l := Number.NumberSound(t, p, r.finite);
      v := NumberValue(l);
    }
  }

  lemma KeyCut(t: bytes, p: nat, r: Rules) returns (s: nat, c: nat, q: nat)
    requires p <= |t| && KeyAt(t, p, r).Ok? && KeyAt(t, p, r).pos < |t|
    ensures p < |t| && t[p] == QUOTE && StringAt(t, p + 1, r.validate).Done? && s == StringAt(t, p + 1, r.validate).pos
    ensures s <= c < |t| && t[c] == ':' as int && c + 1 <= q <= |t| && KeyAt(t, p, r).pos == q
    ensures IsGap(t[s..c], r.comments) && IsGap(t[c + 1..q], r.comments)
  {
    hide StringAt, SpaceEnd, IsGap;
    s := StringAt(t, p + 1, r.validate).pos;
    c := Space(t, s, r).pos;
    SpaceSound(t, s, r);
    q := Space(t, c + 1, r).pos;
    SpaceSound(t, c + 1, r);
  }

  lemma KeySound(t: bytes, p: nat, r: Rules) returns (k: KeyPart)
    requires p <= |t| && KeyAt(t, p, r).Ok? && KeyAt(t, p, r).pos < |t|
    ensures WfKey(k, LimitsOf(r)) && Occurs(t, p, KeyText(k, LimitsOf(r)))
    ensures KeyAt(t, p, r).pos == p + |KeyText(k, LimitsOf(r))|
  {
    hide KeyAt, StringAt, WfKey, IsGap, KeyText, PiecesText, PiecesBytes, WfPieces;
    var s, c, q := KeyCut(t, p, r);
    var cs := QuotedSound(t, p, r.validate);
    k := WrapKey(t, p, s, c, q, cs, r);
  }

  lemma WrapKey(t: bytes, p: nat, s: nat, c: nat, q: nat, cs: seq<Piece>, r: Rules) returns (k: KeyPart)
    requires p < s <= c < q <= |t| && t[c] == ':' as int
    requires IsGap(t[s..c], r.comments) && IsGap(t[c + 1..q], r.comments)
    requires WfPieces(cs, r.validate) && t[p..s] == [QUOTE] + (PiecesText(cs, r.validate) + [QUOTE])
    ensures WfKey(k, LimitsOf(r)) && t[p..q] == KeyText(k, LimitsOf(r))
  {
    hide IsGap;
    k := KeyPart(cs, t[s..c], t[c + 1..q]);
    assert t[c..q] == [':' as int] + k.behind;
    assert t[s..q] == k.before + ([':' as int] + k.behind);
    Adjoin(t, p, s, q);
  }

  lemma {:induction false} ValueSound(t: bytes, p: nat, depth: nat, r: Rules) returns (v: Value)
    requires p <= |t| && depth <= r.size && ValueAt(t, p, depth, r).Ok?
    ensures WfValue(v, LimitsOf(r)) && Occurs(t, p, ValueText(v, LimitsOf(r))) && depth + Depth(v) <= r.size
    ensures ValueAt(t, p, depth, r).pos == p + |ValueText(v, LimitsOf(r))| && EndsValue(v, At(t, ValueAt(t, p, depth, r).pos))
    decreases |t| - p, 0
  {
    var b := At(t, p);
    if b == Opener(true) || b == Opener(false) {
      var isArray := b == Opener(true);
      v := BodySound(t, p, depth, isArray, r);
    } else {
      v := ScalarSound(t, p, r);
    }
  }

  lemma {:induction false} BodySound(t: bytes, p: nat, depth: nat, isArray: bool, r: Rules) returns (v: Value)
    requires p < |t| && t[p] == Opener(isArray) && depth < r.size && BodyAt(t, p + 1, depth + 1, isArray, r).Ok?
    ensures WfValue(v, LimitsOf(r)) && Occurs(t, p, ValueText(v, LimitsOf(r))) && depth + Depth(v) <= r.size
    ensures !IsScalar(v)
    ensures BodyAt(t, p + 1, depth + 1, isArray, r).pos == p + |ValueText(v, LimitsOf(r))|
    decreases |t| - (p + 1), 4
  {
    hide SpaceEnd, Occurs, IsGap, BodyAt, ElementsAt, ElementsText, ValueText, WfElements, ElementsDepth;
    var s, c := BodyStart(t, p + 1, depth + 1, isArray, r);
    if At(t, s) != Closer(isArray) {
      var es, n := ElementsSound(t, p + 1, s, depth + 1, isArray, r);
      v := Filled(isArray, es);
      WrapBody(t, p, n, v, t[p + 1..n], LimitsOf(r));
    } else if c == s {
      v := Empty(isArray, t[p + 1..s]);
      WrapBody(t, p, s, v, v.ws, LimitsOf(r));
    } else {
      v := LoneComma(isArray, t[p + 1..c], t[c + 1..s]);
      CommaBetween(t, p + 1, c, s);
      WrapBody(t, p, s, v, v.before + ([COMMA] + v.behind), LimitsOf(r));
    }
  }

  lemma CommaBetween(t: bytes, p: nat, c: nat, s: nat)
    requires p <= c < s <= |t| && t[c] == COMMA
    ensures t[p..s] == t[p..c] + ([COMMA] + t[c + 1..s])
  {
  }

  /** What stands behind an opening bracket: space up to s, with a comma at c if c is not s. */
  lemma BodyStart(t: bytes, p: nat, depth: nat, isArray: bool, r: Rules) returns (s: nat, c: nat)
    requires p <= |t| && BodyAt(t, p, depth, isArray, r).Ok?
    ensures p <= c <= s < |t| && IsGap(t[p..c], r.comments)
    ensures At(t, s) == Closer(isArray) ==> BodyAt(t, p, depth, isArray, r).pos == s + 1
    ensures At(t, s) != Closer(isArray) ==> c == s && BodyAt(t, p, depth, isArray, r) == ElementsAt(t, s, depth, isArray, r)
    ensures c < s ==> r.trailingCommas && t[c] == COMMA && IsGap(t[c + 1..s], r.comments)
  {
    hide SpaceEnd, ElementsAt, IsGap;
    c := Space(t, p, r).pos;
    s := OpeningEnd(t, p, isArray, r).pos;
    SpaceSound(t, p, r);
    if c < s {
      SpaceSound(t, c + 1, r);
    }
  }

  lemma WrapBody(t: bytes, p: nat, n: nat, v: Value, inner: bytes, lim: Limits)
    requires (v.Empty? || v.Filled? || v.LoneComma?) && WfValue(v, lim)
    requires p < n < |t| && t[p] == Opener(v.isArray) && t[n] == Closer(v.isArray) && t[p + 1..n] == inner
    requires inner == if v.Empty? then v.ws else if v.LoneComma? then v.before + ([COMMA] + v.behind)
      else ElementsText(v.es, !v.isArray, lim)
    ensures Occurs(t, p, ValueText(v, lim)) && n + 1 == p + |ValueText(v, lim)|
  {
    hide IsGap;
    var close: bytes := [Closer(v.isArray)];
    assert t[p..n + 1] == [Opener(v.isArray)] + (inner + close);
    if v.LoneComma? {
      assert v.before + ([COMMA] + v.behind) + close == v.before + ([COMMA] + (v.behind + close));
    }
  }

  lemma {:induction false} ElementSound(t: bytes, s: nat, m: nat, depth: nat, isArray: bool, r: Rules)
    returns (key: Option<KeyPart>, v: Value)
    requires s <= |t| && depth <= r.size && ElementAt(t, s, depth, isArray, r).Ok?
    requires m == ElementAt(t, s, depth, isArray, r).pos
    ensures key.Some? == !isArray && (!isArray ==> WfKey(key.value, LimitsOf(r)))
    ensures WfValue(v, LimitsOf(r)) && depth + Depth(v) <= r.size
    ensures t[s..m] == (if isArray then [] else KeyText(key.value, LimitsOf(r))) + ValueText(v, LimitsOf(r))
    decreases |t| - s, 1
  {
    hide KeyAt, Occurs, IsGap;
    if isArray {
      key := None;
      v := ValueSound(t, s, depth, r);
      TextOf(t, s, m, ValueText(v, LimitsOf(r)));
      assert [] + ValueText(v, LimitsOf(r)) == ValueText(v, LimitsOf(r));
    } else {
      var k := KeySound(t, s, r);
      key := Some(k);
      var c := KeyAt(t, s, r).pos;
      v := ValueSound(t, c, depth, r);
      TextOf(t, s, c, KeyText(k, LimitsOf(r)));
      TextOf(t, c, m, ValueText(v, LimitsOf(r)));
      Adjoin(t, s, c, m);
    }
  }

  lemma TextOf(t: bytes, p: nat, q: nat, u: bytes)
    requires Occurs(t, p, u) && q == p + |u|
    ensures q <= |t| && t[p..q] == u
  {
  }

  /** The element whose leading white space is t[p..s] and that ends at n. */
  lemma WrapElement(t: bytes, p: nat, s: nat, m: nat, n: nat, key: Option<KeyPart>, v: Value, keyed: bool, lim: Limits)
    returns (e: Element)
    requires p <= s <= m <= n <= |t| && IsGap(t[p..s], lim.comments) && IsGap(t[m..n], lim.comments)
    requires key.Some? == keyed && (keyed ==> WfKey(key.value, lim)) && WfValue(v, lim)
    requires t[s..m] == (if keyed then KeyText(key.value, lim) else []) + ValueText(v, lim)
    ensures e == Element(t[p..s], key, v, t[m..n]) && WfElement(e, keyed, lim) && ElementText(e, keyed, lim) == t[p..n]
  {
    hide IsGap, WfValue, WfKey, KeyText, ValueText;
    e := Element(t[p..s], key, v, t[m..n]);
    var k := if keyed then KeyText(key.value, lim) else [];
    assert k + (ValueText(v, lim) + e.post) == (k + ValueText(v, lim)) + e.post;
    Adjoin(t, s, m, n);
    Adjoin(t, p, s, n);
  }

  lemma {:induction false} ElementsSound(t: bytes, p: nat, s: nat, depth: nat, isArray: bool, r: Rules)
    returns (es: Elements, q: nat)
    requires p <= s <= |t| && IsGap(t[p..s], r.comments) && depth <= r.size
    requires ElementsAt(t, s, depth, isArray, r).Ok?
    ensures WfElements(es, !isArray, LimitsOf(r)) && depth + ElementsDepth(es) <= r.size && es.e.pre == t[p..s]
    ensures s < q < |t| && t[p..q] == ElementsText(es, !isArray, LimitsOf(r)) && t[q] == Closer(isArray)
    ensures ElementsAt(t, s, depth, isArray, r).pos == q + 1
    decreases |t| - s, 2
  {
    var lim := LimitsOf(r);
    hide Occurs, ElementsAt, ElementAt, IsGap, ElementText, ElementsText, WfElement, WfElements, WfValue, WfKey, ValueText, KeyText;
    var m, n, s' := ElementsStep(t, s, depth, isArray, r);
    var key, v := ElementSound(t, s, m, depth, isArray, r);
    var e := WrapElement(t, p, s, m, n, key, v, !isArray, lim);
    if t[n] == COMMA {
      if t[s'] == Closer(isArray) {
        es, q := Trailing(e, t[n + 1..s']), s';
        TrailingText(t, p, n, s', e, !isArray, lim);
      } else {
        var rest;
        rest, q := ElementsSound(t, n + 1, s', depth, isArray, r);
        es := Comma(e, rest);
        CommaText(t, p, n, q, e, rest, !isArray, lim);
      }
    } else if t[n] == Closer(isArray) {
      es, q := Last(e), n;
      LastText(e, !isArray, lim);
    } else {
      var rest;
      assert t[n..n] == [];
      rest, q := ElementsSound(t, n, n, depth, isArray, r);
      es := Beside(e, rest);
      BesideText(t, p, n, q, e, rest, lim);
    }
  }

  lemma LastText(e: Element, keyed: bool, lim: Limits)
    requires WfElement(e, keyed, lim)
    ensures WfElements(Last(e), keyed, lim) && ElementsText(Last(e), keyed, lim) == ElementText(e, keyed, lim)
  {
    hide IsGap, ElementText, WfElement;
    assert ElementText(e, keyed, lim) + [] == ElementText(e, keyed, lim);
  }

  lemma TrailingText(t: bytes, p: nat, n: nat, q: nat, e: Element, keyed: bool, lim: Limits)
    requires WfElement(e, keyed, lim) && lim.trailingCommas
    requires p <= n < q <= |t| && t[n] == COMMA && t[p..n] == ElementText(e, keyed, lim) && IsGap(t[n + 1..q], lim.comments)
    ensures WfElements(Trailing(e, t[n + 1..q]), keyed, lim)
    ensures t[p..q] == ElementsText(Trailing(e, t[n + 1..q]), keyed, lim)
  {
    hide IsGap, ElementText, WfElement;
    CommaBetween(t, p, n, q);
  }

  lemma BesideText(t: bytes, p: nat, n: nat, q: nat, e: Element, rest: Elements, lim: Limits)
    requires WfElement(e, true, lim) && WfElements(rest, true, lim) && rest.e.pre == [] && p <= n <= q <= |t|
    requires t[p..n] == ElementText(e, true, lim) && t[n..q] == ElementsText(rest, true, lim)
    ensures WfElements(Beside(e, rest), true, lim) && t[p..q] == ElementsText(Beside(e, rest), true, lim)
  {
    hide IsGap, ElementText, WfElement;
    Adjoin(t, p, n, q);
  }

  /** Where the first of the elements ends, its delimiter, and where the next one, if any, starts. */
  lemma ElementsStep(t: bytes, s: nat, depth: nat, isArray: bool, r: Rules) returns (m: nat, n: nat, s': nat)
    requires s <= |t| && ElementsAt(t, s, depth, isArray, r).Ok?
    ensures ElementAt(t, s, depth, isArray, r).Ok? && m == ElementAt(t, s, depth, isArray, r).pos
    ensures s < m <= n <= s' < |t| && IsGap(t[m..n], r.comments) && IsGap([], r.comments)
    ensures t[n] == COMMA ==> n < s' && IsGap(t[n + 1..s'], r.comments) && (t[s'] == Closer(isArray) ==> r.trailingCommas)
    ensures t[n] != COMMA ==> s' == n && (t[n] != Closer(isArray) ==> !isArray)
    ensures if t[s'] == Closer(isArray) then ElementsAt(t, s, depth, isArray, r).pos == s' + 1
      else ElementsAt(t, s', depth, isArray, r).Ok?
           && ElementsAt(t, s, depth, isArray, r).pos == ElementsAt(t, s', depth, isArray, r).pos
  {
    hide Space, ElementAt, IsGap;
    m := ElementAt(t, s, depth, isArray, r).pos;
    var more := MoreAt(t, m, depth, isArray, r);
    assert more.Ok? && ElementsAt(t, s, depth, isArray, r).pos == more.pos;
    n := Space(t, m, r).pos;
    SpaceSound(t, m, r);
    assert t[m..m] == [];
    EmptyGap(r.comments);
    if At(t, n) == COMMA {
      s' := Space(t, n + 1, r).pos;
      SpaceSound(t, n + 1, r);
      assert SeparatorEnd(t, m, r) == Done(!(r.trailingCommas && IsCloser(At(t, s'))), s');
      if IsCloser(At(t, s')) {
        CloserStarts(t, s', depth, isArray, r);
      }
    } else {
      assert SeparatorEnd(t, m, r) == Done(false, n);
      s' := n;
    }
  }

  lemma EmptyGap(comments: bool)
    ensures IsGap([], comments)
  {
  }

  /** No element starts with a closing bracket. */
  lemma CloserStarts(t: bytes, p: nat, depth: nat, isArray: bool, r: Rules)
    requires p <= |t| && IsCloser(At(t, p))
    ensures ElementAt(t, p, depth, isArray, r).Err? && ElementsAt(t, p, depth, isArray, r).Err?
  {
  }

  lemma CommaText(t: bytes, p: nat, n: nat, q: nat, e: Element, rest: Elements, keyed: bool, lim: Limits)
    requires WfElement(e, keyed, lim) && WfElements(rest, keyed, lim)
    requires p <= n < q <= |t| && t[n] == COMMA
    requires t[p..n] == ElementText(e, keyed, lim) && t[n + 1..q] == ElementsText(rest, keyed, lim)
    ensures WfElements(Comma(e, rest), keyed, lim) && t[p..q] == ElementsText(Comma(e, rest), keyed, lim)
  {
    hide IsGap, ElementText, WfElement;
    CommaBetween(t, p, n, q);
  }

  /** A list of values up to n, and a comment behind it if n is not where the space ends. */
  lemma {:induction false} TopSound(t: bytes, p: nat, s: nat, r: Rules) returns (es: Elements, n: nat)
    requires p <= s <= |t| && IsGap(t[p..s], r.comments) && TopAt(t, s, r).Ok?
    ensures WfElements(es, false, LimitsOf(r)) && IsOpenList(es) && ElementsDepth(es) <= r.size && es.e.pre == t[p..s]
    ensures s < n <= TopAt(t, s, r).pos <= |t| && t[p..n] == ElementsText(es, false, LimitsOf(r))
    ensures if Trails(es) then n == TopAt(t, s, r).pos && IsCloser(At(t, n))
      else At(t, TopAt(t, s, r).pos) != COMMA && (LastOf(es).post == [] ==> EndsValue(LastOf(es).v, At(t, n)))
    ensures n < TopAt(t, s, r).pos ==> r.comments && TopAt(t, s, r).pos == |t| && IsOpenComment(t[n..])
    decreases |t| - s
  {
    var lim := LimitsOf(r);
    hide Occurs, TopAt, ValueAt, IsGap, IsOpenComment;
    var m, k, s' := TopStep(t, s, r);
    var v := ValueSound(t, s, 0, r);
    TextOf(t, s, m, ValueText(v, lim));
    assert [] + ValueText(v, lim) == ValueText(v, lim);
    var e := WrapElement(t, p, s, m, k, None, v, false, lim);
    if s' > k && r.trailingCommas && IsCloser(At(t, s')) {
      es, n := Trailing(e, t[k + 1..s']), s';
      TrailingText(t, p, k, s', e, false, lim);
    } else if s' > k {
      var rest;
      rest, n := TopSound(t, k + 1, s', r);
      es := Comma(e, rest);
      CommaText(t, p, k, n, e, rest, false, lim);
    } else {
      es, n := Last(e), k;
      LastText(e, false, lim);
    }
  }

  /** The first value of a list, the gap behind it, and, behind a comma, where the next value or a closing bracket is. */
  lemma TopStep(t: bytes, s: nat, r: Rules) returns (m: nat, n: nat, s': nat)
    requires s <= |t| && TopAt(t, s, r).Ok?
    ensures ValueAt(t, s, 0, r).Ok? && m == ValueAt(t, s, 0, r).pos
    ensures s < m <= n <= s' <= |t| && IsGap(t[m..n], r.comments)
    ensures n < s' ==>
      && t[n] == COMMA && IsGap(t[n + 1..s'], r.comments)
      && if r.trailingCommas && IsCloser(At(t, s')) then TopAt(t, s, r).pos == s'
         else TopAt(t, s', r).Ok? && TopAt(t, s', r).pos == TopAt(t, s, r).pos
    ensures n == s' ==> n <= TopAt(t, s, r).pos && At(t, TopAt(t, s, r).pos) != COMMA
    ensures n == s' && n < TopAt(t, s, r).pos ==> r.comments && TopAt(t, s, r).pos == |t| && IsOpenComment(t[n..])
  {
    hide Space, ValueAt, IsGap, IsOpenComment;
    m := ValueAt(t, s, 0, r).pos;
    n := SpaceParts(t, m, r);
    var w := Space(t, m, r).pos;
    if At(t, w) == COMMA {
      s' := Space(t, w + 1, r).pos;
      assert SeparatorEnd(t, m, r) == Done(!(r.trailingCommas && IsCloser(At(t, s'))), s');
      SpaceSound(t, w + 1, r);
    } else {
      assert SeparatorEnd(t, m, r) == Done(false, w);
      s' := n;
    }
  }
}
