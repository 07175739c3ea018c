/**
 * The SAX parser and the pull parser on the same text: exactly when they deliver the same, with every
 * option, which of the texts they accept are JSON, and texts that show the differences.
 */
module Agreement {
  import opened Base
  import opened Text
  import opened Gap
  import opened Grammar
  import opened Descent
  import opened Conformance
  import opened PullMachine
  import opened Language
  import opened Decimal
  import Number

  predicate Accepted(x: Trace) {
    x.Ran? && x.o.Ok?
  }

  /** All calls of the pull parser on a text that the SAX parser reads with the rules r. */
  function PullRun(t: bytes, r: Rules, multiple: bool): Trace {
    Run(t, PullMachine.START, AsPull(r), Tail(multiple, false))
  }

  /** The document is one value, with no comma behind it. */
  predicate OneValue(d: Document) {
    d.Final? && d.es.Last?
  }

  /** No opening bracket of the document is followed, over space, by a comma. */
  predicate NoLoneComma(d: Document) {
    SuitDocument(d, true)
  }

  /** There is a comma between any two members of the document. */
  predicate NoMissingComma(d: Document) {
    SuitDocument(d, false)
  }

  lemma SameText(d: Document, t: bytes, r: Rules)
    ensures IsTextOf(d, t, AsPull(r)) <==> IsTextOf(d, t, r)
  {
    assert LimitsOf(AsPull(r)) == LimitsOf(r);
  }

  // ----- From one parser to the other -----

  lemma OneValueReads(d: Document)
    ensures PullVerdict(d, true, false) == Reads <==> OneValue(d) && NoLoneComma(d)
  {
  }

  ghost predicate IsValueText(d: Document, t: bytes, r: Rules) {
    IsTextOf(d, t, r) && OneValue(d) && NoLoneComma(d)
  }

  /** The pull parser reads to the end exactly the texts of one value with no comma on its own in it. */
  lemma PullIffOneValue(t: bytes, r: Rules)
    ensures Accepted(PullRun(t, r, false)) <==> exists d :: IsValueText(d, t, r)
  {
    hide Run, IsTextOf, OneValue, NoLoneComma;
    PullIffGrammar(t, AsPull(r), false);
    forall d ensures IsValueText(d, t, r) <==> PullReads(d, t, AsPull(r), false) {
      SameText(d, t, r);
      OneValueReads(d);
    }
  }

  /**
   * Where the SAX parser accepts the text of a document, the calls of the pull parser deliver the same events
   * and then the end, exactly when the document is one value with no comma on its own in it.
   */
  lemma SaxThenPull(t: bytes, d: Document, r: Rules)
    requires !r.pull && IsTextOf(d, t, r) && SaxAt(t, 0, r, false, false).Ok?
    ensures PullRun(t, r, false) == Ran(SaxAt(t, 0, r, false, false)) <==> OneValue(d) && NoLoneComma(d)
    ensures Accepted(PullRun(t, r, false)) <==> OneValue(d) && NoLoneComma(d)
  {
    hide SaxAt, Run, IsTextOf, OneValue, NoLoneComma, SaxReads;
    SaxThenPullMultiple(t, d, r, false);
    OneValueReads(d);
  }

  /** The same with several values: the verdict on the document is that of the pull parser. */
  lemma SaxThenPullMultiple(t: bytes, d: Document, r: Rules, multiple: bool)
    requires !r.pull && IsTextOf(d, t, r) && SaxAt(t, 0, r, multiple, false).Ok?
    ensures PullRun(t, r, multiple) == Ran(SaxAt(t, 0, r, multiple, false)) <==> PullVerdict(d, true, multiple) == Reads
    ensures Accepted(PullRun(t, r, multiple)) <==> PullVerdict(d, true, multiple) == Reads
    ensures PullRun(t, r, multiple).Broke? <==> PullVerdict(d, true, multiple) == Breaks
  {
    hide SaxAt, Run, SaxReads, WfDocument, DocumentText, DocumentDepth;
    SameText(d, t, r);
    SaxComplete(t, d, r, multiple);
    PullComplete(t, d, AsPull(r), multiple);
    if PullVerdict(d, true, multiple) == Reads {
      PullEventsAll(d, true, LimitsOf(r), multiple);
    }
  }

  /**
   * Where the pull parser reads the text of a document to its end, the SAX parser delivers the same events
   * exactly when no comma is missing between members, and rejects the text otherwise. Without options the
   * text is JSON exactly then.
   */
  lemma PullThenSax(t: bytes, d: Document, r: Rules)
    requires !r.pull && IsTextOf(d, t, r) && Accepted(PullRun(t, r, false))
    ensures PullRun(t, r, false) == Ran(SaxAt(t, 0, r, false, false)) <==> NoMissingComma(d)
    ensures SaxAt(t, 0, r, false, false).Ok? <==> NoMissingComma(d)
    ensures Plain(r) ==> (IsJson(t, r) <==> NoMissingComma(d))
  {
    hide SaxAt, Run, WfDocument, DocumentText, DocumentDepth, SuitDocument;
    SameText(d, t, r);
    PullComplete(t, d, AsPull(r), false);
    PullEventsAll(d, true, LimitsOf(r), false);
    OneValueReads(d);
    SaxComplete(t, d, r, false);
    if Plain(r) {
      forall d' | IsJsonText(d', t, r) ensures NoMissingComma(d) {
        SaxComplete(t, d', r, false);
      }
      assert NoMissingComma(d) ==> IsJsonText(d, t, r);
    }
  }

  /** What is read to its end as one value is read so with any options for what may follow it. */
  lemma AnyTail(t: bytes, r: Rules, tail: Tail)
    requires Accepted(PullRun(t, r, false))
    ensures Run(t, PullMachine.START, AsPull(r), tail) == PullRun(t, r, false)
  {
    hide Run, SpaceEnd, ValueAt, ScalarAt, PullBehind;
    PullIsDescent(t, AsPull(r), tail);
    PullIsDescent(t, AsPull(r), Tail(false, false));
    var v := ValueAt(t, Space(t, 0, AsPull(r)).pos, 0, AsPull(r));
    EndsAlike(t, v.pos, AsPull(r), tail);
  }

  lemma EndsAlike(t: bytes, p: nat, r: Rules, tail: Tail)
    requires p <= |t| && Accepted(PullBehind(t, p, r, Tail(false, false)))
    ensures PullBehind(t, p, r, tail) == PullBehind(t, p, r, Tail(false, false))
  {
    hide SpaceEnd;
  }

  // ----- JSON -----

  /** No comments and no trailing commas: the syntax of RFC 8259. */
  predicate Plain(r: Rules) {
    !r.comments && !r.trailingCommas
  }

  ghost predicate IsJsonText(d: Document, t: bytes, r: Rules)
    requires Plain(r)
  {
    IsTextOf(d, t, r) && OneValue(d) && NoMissingComma(d)
  }

  /** Section 2 of RFC 8259: a text is one value. */
  ghost predicate IsJson(t: bytes, r: Rules)
    requires Plain(r)
  {
    exists d :: IsJsonText(d, t, r)
  }

  /** Without trailing commas there is no comma on its own. */
  lemma {:induction false} PlainValue(v: Value, lim: Limits)
    requires WfValue(v, lim) && !lim.trailingCommas
    ensures Suits(v, true)
    decreases v
  {
    hide IsGap;
    if v.Filled? {
      PlainElements(v.es, !v.isArray, lim);
    }
  }

  lemma {:induction false} PlainElements(es: Elements, keyed: bool, lim: Limits)
    requires WfElements(es, keyed, lim) && !lim.trailingCommas
    ensures SuitAll(es, true)
    decreases es
  {
    hide IsGap;
    PlainValue(es.e.v, lim);
    if HasRest(es) {
      PlainElements(es.rest, keyed, lim);
    }
  }

  /** A text is JSON exactly when both parsers accept it, and then they deliver the same. */
  lemma JsonIffBoth(t: bytes, r: Rules)
    requires Plain(r) && !r.pull
    ensures var sax, pull := SaxAt(t, 0, r, false, false), PullRun(t, r, false);
      && (IsJson(t, r) <==> sax.Ok? && Accepted(pull))
      && (IsJson(t, r) ==> pull == Ran(sax))
  {
    hide SaxAt, Run, IsTextOf, SuitDocument;
    if IsJson(t, r) {
      var d :| IsJsonText(d, t, r);
      JsonIsAccepted(t, d, r);
    }
    if SaxAt(t, 0, r, false, false).Ok? && Accepted(PullRun(t, r, false)) {
      var d := SaxSound(t, r, false);
      PullThenSax(t, d, r);
    }
  }

  lemma JsonIsAccepted(t: bytes, d: Document, r: Rules)
    requires Plain(r) && !r.pull && IsJsonText(d, t, r)
    ensures SaxAt(t, 0, r, false, false) == Ok(DocumentEvents(d, LimitsOf(r)), |t|)
    ensures PullRun(t, r, false) == Ran(SaxAt(t, 0, r, false, false))
  {
    hide SaxAt, Run, DocumentText, IsGap;
    SaxComplete(t, d, r, false);
    PlainElements(d.es, false, LimitsOf(r));
    SaxThenPull(t, d, r);
  }

  // ----- Several values -----

  /** Values with no comma behind any of them. */
  predicate Singles(d: Document) {
    d.es.Last? && (d.Next? ==> Singles(d.more))
  }

  predicate AnyScalar(d: Document) {
    IsScalar(d.es.e.v) || (d.Next? && AnyScalar(d.more))
  }

  lemma {:induction false} ScalarsBreak(d: Document, first: bool)
    requires Singles(d) && NoLoneComma(d)
    ensures PullVerdict(d, first, true)
      == if (if first then d.Next? && AnyScalar(d.more) else AnyScalar(d)) then Breaks else Reads
    decreases d
  {
    if d.Next? {
      ScalarsBreak(d.more, false);
    }
  }

  /**
   * When several values are allowed, the calls deliver the values one after another, and the assertion about
   * the state fails exactly when a value behind the first is a scalar, just before that value.
   */
  lemma BreaksIffScalar(t: bytes, d: Document, r: Rules)
    requires r.pull && IsTextOf(d, t, r) && Singles(d) && NoLoneComma(d)
    ensures Run(t, PullMachine.START, r, Tail(true, false)) ==
      if d.Next? && AnyScalar(d.more) then Broke(PullEvents(d, true, LimitsOf(r)))
      else Ran(Ok(DocumentEvents(d, LimitsOf(r)), |t|))
  {
    hide Run, WfDocument, DocumentText, DocumentDepth;
    PullComplete(t, d, r, true);
    ScalarsBreak(d, true);
    if PullVerdict(d, true, true) == Reads {
      PullEventsAll(d, true, LimitsOf(r), true);
    }
  }

  // ----- Texts on which the parsers differ -----

  function Digit(d: byte): Number.Literal {
    Number.Literal(false, [d], [], 'e' as int, [], [])
  }

  lemma DigitIsValue(d: byte, lim: Limits)
    requires 0x30 <= d <= 0x39
    ensures WfValue(NumberValue(Digit(d)), lim) && ValueText(NumberValue(Digit(d)), lim) == [d]
  {
    assert Val([]) == 0 && [] + [d] == [d] && [d] + [] == [d];
  }

  /** A scalar member with others beside it. */
  lemma MemberBeside(e: Element, rest: Elements, lim: Limits)
    requires WfElement(e, true, lim) && WfElements(rest, true, lim) && IsScalar(e.v) && rest.e.pre == []
    ensures var es := Beside(e, rest);
      && WfElements(es, true, lim) && ElementsDepth(es) == ElementsDepth(rest)
      && ElementsText(es, true, lim) == ElementText(e, true, lim) + ElementsText(rest, true, lim)
      && (SuitAll(es, true) <==> SuitAll(rest, true)) && !SuitAll(es, false)
  {
    hide WfElement, ElementText;
    assert Suits(e.v, true) && Suits(e.v, false);
  }

  /** One digit is a value. */
  lemma OneDigit(t: bytes, p: nat, depth: nat, r: Rules)
    requires p < |t| && IsDigit(t[p]) && Number.EndsLiteral(Digit(t[p]), At(t, p + 1))
    ensures ValueAt(t, p, depth, r) == ScalarAt(t, p, r) == Ok([Integer(t[p] - 0x30)], p + 1)
  {
    var l := Digit(t[p]);
    assert Val([]) == 0 && [] + [t[p]] == [t[p]] && t[p..p + 1] == [t[p]] == Number.Unparse(l);
    Number.NumberComplete(t, p, p + 1, l, r.finite);
    hide Number.NumberAt;
  }

  const ONE_COMMA_TWO: bytes := [0x31, COMMA, 0x32]

  /** The SAX parser accepts 1,2 under any limits, with the events of both numbers; it is not JSON. */
  lemma ListIsAccepted(r: Rules)
    requires Plain(r) && !r.pull
    ensures SaxAt(ONE_COMMA_TWO, 0, r, false, false) == Ok([Integer(1), Integer(2)], 3)
    ensures !IsJson(ONE_COMMA_TWO, r)
  {
    var t, r' := ONE_COMMA_TWO, AsPull(r);
    OneDigit(t, 0, 0, r);
    OneDigit(t, 2, 0, r);
    OneDigit(t, 0, 0, r');
    JsonIffBoth(t, r);
    PullIsDescent(t, r', Tail(false, false));
    SpaceStays(t, 1, r');
    CommaBehind(t, 1, 1, r', false);
    hide Run, ValueAt, ScalarAt, PullBehind, IsJson;
    assert TopAt(t, 2, r) == Ok([Integer(2)], 3);
  }

  /** A value at the start of a text and a scalar behind it. */
  lemma ScalarBreaks(t: bytes, p: nat, s: nat, r: Rules)
    requires r.pull && Space(t, 0, r) == Done((), 0) && ValueAt(t, 0, 0, r).Ok? && ValueAt(t, 0, 0, r).pos == p
    requires p <= s < |t| && Space(t, p, r) == Done((), s) && ScalarAt(t, s, r).Ok?
    ensures Run(t, PullMachine.START, r, Tail(true, false)) == Broke(ValueAt(t, 0, 0, r).evs)
  {
    hide Run, SpaceEnd, ValueAt, ScalarAt;
    PullIsDescent(t, r, Tail(true, false));
    assert PullBehind(t, p, r, Tail(true, false)) == Broke([]);
    assert ValueAt(t, 0, 0, r).evs + [] == ValueAt(t, 0, 0, r).evs;
  }

  /** Two values at the top level with no comma between them. */
  lemma TwoValues(t: bytes, p: nat, s: nat, r: Rules)
    requires Space(t, 0, r) == Done((), 0) && ValueAt(t, 0, 0, r).Ok? && ValueAt(t, 0, 0, r).pos == p
    requires p <= s < |t| && Space(t, p, r) == Done((), s) && t[s] != COMMA && Space(t, s, r) == Done((), s)
    requires ValueAt(t, s, 0, r).Ok? && ValueAt(t, s, 0, r).pos == |t|
    ensures SaxAt(t, 0, r, true, false) == Ok(ValueAt(t, 0, 0, r).evs + ValueAt(t, s, 0, r).evs, |t|)
  {
    hide ValueAt;
    assert SeparatorEnd(t, |t|, r) == Done(false, |t|);
    hide SpaceEnd;
    assert GenerateAt(t, 0, r) == Ok(ValueAt(t, 0, 0, r).evs, s);
    assert GenerateAt(t, s, r) == ValueAt(t, s, 0, r);
  }

  const ONE_SPACE_TWO: bytes := [0x31, 0x20, 0x32]

  /** When several values are allowed the SAX parser reads 1 2, and the pull parser breaks behind the first. */
  lemma SecondScalarBreaks(r: Rules)
    requires !r.pull
    ensures SaxAt(ONE_SPACE_TWO, 0, r, true, false) == Ok([Integer(1), Integer(2)], 3)
    ensures PullRun(ONE_SPACE_TWO, r, true) == Broke([Integer(1)])
  {
    var t, r' := ONE_SPACE_TWO, AsPull(r);
    OneDigit(t, 0, 0, r);
    OneDigit(t, 2, 0, r);
    OneDigit(t, 0, 0, r');
    OneDigit(t, 2, 0, r');
    SpaceStays(t, 0, r);
    BlankSkip(t, 1, r.comments);
    SpaceStays(t, 2, r);
    hide Run, ValueAt, ScalarAt, SpaceEnd, SaxAt;
    ScalarBreaks(t, 1, 2, r');
    TwoValues(t, 1, 2, r);
  }

  /** The text {"":0"":0}, in which a comma is missing. */
  const NO_COMMA: bytes := [0x7B, 0x22, 0x22, 0x3A, 0x30, 0x22, 0x22, 0x3A, 0x30, 0x7D]

  lemma EmptyKeyZero(lim: Limits) returns (e: Element)
    ensures WfElement(e, true, lim) && ElementText(e, true, lim) == [0x22, 0x22, 0x3A, 0x30] && e.pre == [] && IsScalar(e.v)
  {
    DigitIsValue(0x30, lim);
    EmptyGap(lim.comments);
    hide WfValue, ValueText, IsGap;
    e := Element([], Some(KeyPart([], [], [])), NumberValue(Digit(0x30)), []);
    assert [] + [QUOTE] == [QUOTE];
    assert KeyText(e.key.value, lim) == [0x22, 0x22, 0x3A];
  }

  lemma NoComma(r: Rules) returns (d: Document)
    requires r.size > 0
    ensures IsTextOf(d, NO_COMMA, r) && !NoMissingComma(d) && PullVerdict(d, true, false) == Reads
  {
    var lim := LimitsOf(r);
    var e := EmptyKeyZero(lim);
    hide WfElement, ElementText, IsGap;
    var last := Last(e);
    assert ElementsText(last, true, lim) == [0x22, 0x22, 0x3A, 0x30] + [];
    assert ElementsDepth(last) == 0 && SuitAll(last, true);
    MemberBeside(e, last, lim);
    var v := Filled(false, Beside(e, last));
    assert ElementsText(v.es, true, lim) == [0x22, 0x22, 0x3A, 0x30, 0x22, 0x22, 0x3A, 0x30];
    assert Suits(v, true) && !Suits(v, false);
    hide ElementsText, SuitAll, ElementsDepth;
    d := OneContainer(NO_COMMA, v, r);
    SuitsOne(d);
  }

  lemma SuitsOne(d: Document)
    requires OneValue(d)
    ensures SuitDocument(d, true) <==> Suits(d.es.e.v, true)
    ensures SuitDocument(d, false) <==> Suits(d.es.e.v, false)
  {
  }

  /** The pull parser accepts an object whose members no comma separates; the SAX parser does not. */
  lemma MissingCommaIsAccepted(r: Rules)
    requires !r.pull && r.size > 0
    ensures SaxAt(NO_COMMA, 0, r, false, false).Err? && Accepted(PullRun(NO_COMMA, r, false))
  {
    hide SaxAt, Run, WfDocument, DocumentText, DocumentDepth, PullVerdict, SuitDocument;
    var d := NoComma(r);
    SaxComplete(NO_COMMA, d, r, false);
    SameText(d, NO_COMMA, r);
    PullComplete(NO_COMMA, d, AsPull(r), false);
  }

  lemma OneElement(v: Value, lim: Limits) returns (es: Elements)
    requires WfValue(v, lim)
    ensures es == Last(Element([], None, v, [])) && WfElements(es, false, lim) && IsList(es)
    ensures ElementsText(es, false, lim) == ValueText(v, lim) && ElementsEvents(es, false, lim) == ValueEvents(v, lim)
    ensures ElementsDepth(es) == Depth(v)
  {
    hide WfValue, ValueText, ValueEvents, IsGap, Depth;
    var e := Element([], None, v, []);
    es := Last(e);
    EmptyGap(lim.comments);
    assert ElementText(e, false, lim) == ValueText(v, lim);
    assert ElementEvents(e, false, lim) == ValueEvents(v, lim);
  }

  lemma OneContainer(t: bytes, v: Value, r: Rules) returns (d: Document)
    requires WfValue(v, LimitsOf(r)) && ValueText(v, LimitsOf(r)) == t && Depth(v) <= r.size
    ensures d == Final(Last(Element([], None, v, [])), []) && IsTextOf(d, t, r)
    ensures DocumentEvents(d, LimitsOf(r)) == ValueEvents(v, LimitsOf(r))
  {
    hide WfValue, ValueText, ValueEvents, Depth, WfElements, ElementsText, ElementsEvents, ElementsDepth, IsList;
    var es := OneElement(v, LimitsOf(r));
    d := Final(es, []);
    assert DocumentText(d, LimitsOf(r)) == t + [];
  }

  const LONE_COMMA: bytes := ['[' as int, COMMA, ']' as int]

  /** With trailing commas allowed the SAX parser takes a comma in an empty array; the pull parser does not. */
  lemma LoneCommaIsAccepted(r: Rules)
    requires !r.pull && r.trailingCommas && r.size > 0
    ensures SaxAt(LONE_COMMA, 0, r, false, false) == Ok([StartArray, EndArray], 3)
    ensures !Accepted(PullRun(LONE_COMMA, r, false))
  {
    hide SaxAt, Run;
    var v := LoneComma(true, [], []);
    EmptyGap(r.comments);
    assert ValueText(v, LimitsOf(r)) == LONE_COMMA;
    var d := OneContainer(LONE_COMMA, v, r);
    SaxComplete(LONE_COMMA, d, r, false);
    SaxThenPull(LONE_COMMA, d, r);
  }

  const TRUE_FALSE: bytes := TRUE + FALSE

  /** Nothing need stand between two values: truefalse is two. */
  lemma WordsBesideEachOther(r: Rules)
    requires !r.pull
    ensures SaxAt(TRUE_FALSE, 0, r, true, false) == Ok([Boolean(true), Boolean(false)], 9)
  {
    var t := TRUE_FALSE;
    WordComplete(t, 0, TRUE);
    WordComplete(t, 4, FALSE);
    assert t[0] == 't' as int && t[4] == 'f' as int;
    SpaceStays(t, 0, r);
    SpaceStays(t, 4, r);
    hide WordEnd, SpaceEnd, SaxAt;
    assert ValueAt(t, 0, 0, r) == Ok([Boolean(true)], 4) && ValueAt(t, 4, 0, r) == Ok([Boolean(false)], 9);
    TwoValues(t, 4, 4, r);
  }

  const ZERO_ONE: bytes := [0x30, 0x31]

  /** Nor need anything stand behind a zero: 01 is two numbers. The pull parser breaks at the second. */
  lemma DigitBehindZero(r: Rules)
    requires !r.pull
    ensures SaxAt(ZERO_ONE, 0, r, true, false) == Ok([Integer(0), Integer(1)], 2)
    ensures PullRun(ZERO_ONE, r, true) == Broke([Integer(0)])
  {
    var t, r' := ZERO_ONE, AsPull(r);
    OneDigit(t, 0, 0, r);
    OneDigit(t, 1, 0, r);
    OneDigit(t, 0, 0, r');
    OneDigit(t, 1, 0, r');
    SpaceStays(t, 0, r);
    SpaceStays(t, 1, r);
    hide Run, ValueAt, ScalarAt, SpaceEnd, SaxAt;
    ScalarBreaks(t, 1, 1, r');
    TwoValues(t, 1, 1, r);
  }

  const ONE_X: bytes := [0x31, 0x20, 'x' as int]

  /** What may trail one value is read where several are allowed: x is none. */
  lemma MultipleCanReject(r: Rules)
    requires !r.pull
    ensures SaxAt(ONE_X, 0, r, false, true) == Ok([Integer(1)], 2)
    ensures SaxAt(ONE_X, 0, r, true, true).Err?
  {
    OneDigit(ONE_X, 0, 0, r);
    assert ValueAt(ONE_X, 2, 0, r).Err?;
    BlankSkip(ONE_X, 1, r.comments);
    SpaceStays(ONE_X, 0, r);
    SpaceStays(ONE_X, 2, r);
    hide ValueAt;
    assert GenerateAt(ONE_X, 0, r) == Ok([Integer(1)], 2);
    assert GenerateAt(ONE_X, 2, r).Err?;
  }

  const ONE_SLASH: bytes := [0x31, Gap.SLASH]

  /** A slash may trail a value; where comments are allowed it has to start one. */
  lemma CommentsCanReject(r: Rules)
    requires !r.pull && !r.comments
    ensures SaxAt(ONE_SLASH, 0, r, false, true) == Ok([Integer(1)], 1)
    ensures SaxAt(ONE_SLASH, 0, r.(comments := true), false, true).Err?
  {
    OneDigit(ONE_SLASH, 0, 0, r);
    OneDigit(ONE_SLASH, 0, 0, r.(comments := true));
    hide ValueAt;
    assert Space(ONE_SLASH, 1, r.(comments := true)).Fail?;
  }
}
