/**
 * Printing a value and parsing the text delivers the events of the value again: equal ones, but for
 * reals, which are equal as decimals.
 */
module RoundTrip {
  import opened Base
  import opened Text
  import opened Escape
  import opened Grammar
  import opened Events
  import opened Descent
  import opened Conformance
  import opened Language
  import opened Agreement
  import opened Gap
  import opened Printing
  import Number
  import Options
  import PullMachine
  import Itoa
  import RealText

  // ----- Events that say the same -----

  predicate SameEvent(a: Event, b: Event) {
    a == b || (a.Real? && b.Real? && a.neg == b.neg && RealText.SameReal(a.sig, a.exp, b.sig, b.exp))
  }

  predicate SameEvents(a: seq<Event>, b: seq<Event>) {
    |a| == |b| && forall i | 0 <= i < |a| :: SameEvent(a[i], b[i])
  }

  lemma SameConcat(a: seq<Event>, b: seq<Event>, a': seq<Event>, b': seq<Event>)
    requires SameEvents(a, a') && SameEvents(b, b')
    ensures SameEvents(a + b, a' + b')
  {
  }

  /** Every real is printed as a number, and the number converts to a finite double. */
  predicate RealsReadable(v: Tree, finite: bytes -> bool)
    requires TreePrintable(v)
  {
    match v
    case RealTree(neg, sig, exp) => RealText.InRange(sig, exp) && finite(RealText.DoubleText(neg, sig, exp))
    case ArrayTree(f) => ForestReadable(f, finite)
    case ObjectTree(f) => ForestReadable(f, finite)
    case _ => true
  }

  predicate ForestReadable(f: Forest, finite: bytes -> bool)
    requires ForestPrintable(f)
  {
    f.Cons? ==> RealsReadable(f.head, finite) && ForestReadable(f.tail, finite)
  }

  /** The parser can read back everything that is printed of the value. */
  predicate Readable(v: Tree, lim: Limits) {
    WfTree(v) && TreePrintable(v) && Encodable(v, lim.validate) && RealsReadable(v, lim.finite)
  }

  predicate ForestAllReadable(f: Forest, keyed: bool, lim: Limits) {
    Keyed(f, keyed) && ForestPrintable(f) && ForestEncodable(f, lim.validate) && ForestReadable(f, lim.finite)
  }

  // ----- Printed text as text of the grammar -----

  /** cv is a tree of the grammar with the text and, but for reals, the events of v. */
  ghost predicate Renders(cv: Value, v: Tree, level: nat, indent: nat, lim: Limits)
    requires TreePrintable(v)
  {
    && WfValue(cv, lim) && ValueText(cv, lim) == TreeText(v, level, indent, lim.validate)
    && Depth(cv) == TreeDepth(v) && SameEvents(ValueEvents(cv, lim), TreeEvents(v))
    && Suits(cv, true) && Suits(cv, false)
  }

  ghost predicate RendersAll(es: Elements, f: Forest, keyed: bool, level: nat, indent: nat, lim: Limits, gap: bytes)
    requires ForestPrintable(f)
  {
    && WfElements(es, keyed, lim) && ElementsText(es, keyed, lim) == ForestText(f, level, indent, lim.validate) + gap
    && ElementsDepth(es) == ForestDepth(f) && SameEvents(ElementsEvents(es, keyed, lim), ForestEvents(f))
    && SuitAll(es, true) && SuitAll(es, false)
  }

  lemma BreakBlank(indent: nat, level: nat)
    ensures AllBlank(Break(indent, level))
  {
  }

  lemma ScalarRenders(v: Tree, level: nat, indent: nat, lim: Limits) returns (cv: Value)
    requires Readable(v, lim) && !IsContainer(v)
    ensures Renders(cv, v, level, indent, lim)
  {
    match v
    case NullTree => cv := NullValue;
    case BooleanTree(b) => cv := BooleanValue(b);
    case IntegerTree(n) => cv := IntegerRenders(n, level, indent, lim);
    case RealTree(neg, sig, exp) => cv := RealRenders(neg, sig, exp, level, indent, lim);
    case StringTree(s) => cv := StringRenders(s, level, indent, lim);
    case _ =>
  }

  lemma IntegerRenders(n: int, level: nat, indent: nat, lim: Limits) returns (cv: Value)
    requires Readable(IntegerTree(n), lim)
    ensures Renders(cv, IntegerTree(n), level, indent, lim)
  {
    Itoa.IntegerReadsBack(n);
    Number.IntegerIffFits(Itoa.IntegerLiteral(n));
    hide Number.LiteralAcc, Number.Unparse;
    cv := NumberValue(Itoa.IntegerLiteral(n));
  }

  lemma RealRenders(neg: bool, sig: nat, exp: int, level: nat, indent: nat, lim: Limits) returns (cv: Value)
    requires Readable(RealTree(neg, sig, exp), lim)
    ensures Renders(cv, RealTree(neg, sig, exp), level, indent, lim)
  {
    var c, scale := RealText.DoubleReadsBack(neg, sig, exp);
    hide Number.LiteralAcc, Number.Unparse;
    cv := NumberValue(RealText.DoubleLiteral(neg, sig, exp));
  }

  lemma StringRenders(s: bytes, level: nat, indent: nat, lim: Limits) returns (cv: Value)
    requires Readable(StringTree(s), lim)
    ensures Renders(cv, StringTree(s), level, indent, lim)
  {
    var cs := EscapedIsString(s, 0, lim.validate);
    assert s[0..] == s;
    hide EscapeFrom, PiecesText, PiecesBytes, WfPieces;
    cv := StringValue(cs);
    Assoc([QUOTE], EscapeFrom(s, 0, lim.validate).text, [QUOTE]);
  }

  lemma {:induction false} TreeRenders(v: Tree, level: nat, indent: nat, lim: Limits) returns (cv: Value)
    requires Readable(v, lim)
    ensures Renders(cv, v, level, indent, lim)
    decreases v
  {
    match v
    case ArrayTree(f) => cv := BracketsRender(v, true, f, level, indent, lim);
    case ObjectTree(f) => cv := BracketsRender(v, false, f, level, indent, lim);
    case _ => cv := ScalarRenders(v, level, indent, lim);
  }

  lemma {:induction false} BracketsRender(v: Tree, isArray: bool, f: Forest, level: nat, indent: nat, lim: Limits)
    returns (cv: Value)
    requires Readable(v, lim) && v == if isArray then ArrayTree(f) else ObjectTree(f)
    ensures Renders(cv, v, level, indent, lim)
    decreases f, 1
  {
    if f.Nil? {
      cv := Empty(isArray, []);
      assert TreeText(v, level, indent, lim.validate) == [Opener(isArray)] + ([] + [] + [Closer(isArray)]);
      assert [] + [] + [Closer(isArray)] == [] + [Closer(isArray)];
    } else {
      var es := ForestRenders(f, !isArray, level + 1, indent, lim, Break(indent, level));
      cv := Filled(isArray, es);
      FilledRenders(v, isArray, f, es, level, indent, lim);
    }
  }

  lemma FilledRenders(v: Tree, isArray: bool, f: Forest, es: Elements, level: nat, indent: nat, lim: Limits)
    requires Readable(v, lim) && f.Cons? && v == if isArray then ArrayTree(f) else ObjectTree(f)
    requires RendersAll(es, f, !isArray, level + 1, indent, lim, Break(indent, level))
    ensures Renders(Filled(isArray, es), v, level, indent, lim)
  {
    ContainerShape(v, isArray, f, level, indent, lim.validate);
    hide ElementsText, ForestText, ElementsEvents, ForestEvents, SameEvents, WfElements, Break;
    var start, end := [StartOf(isArray)], [EndOf(isArray)];
    SameOne(StartOf(isArray));
    SameOne(EndOf(isArray));
    SameConcat(ElementsEvents(es, !isArray, lim), end, ForestEvents(f), end);
    SameConcat(start, ElementsEvents(es, !isArray, lim) + end, start, ForestEvents(f) + end);
  }

  lemma SameOne(e: Event)
    ensures SameEvents([e], [e])
  {
  }

  lemma {:induction false} ForestRenders(f: Forest, keyed: bool, level: nat, indent: nat, lim: Limits, gap: bytes)
    returns (es: Elements)
    requires f.Cons? && ForestAllReadable(f, keyed, lim) && AllBlank(gap)
    ensures RendersAll(es, f, keyed, level, indent, lim, gap)
    decreases f, 0
  {
    var cv := TreeRenders(f.head, level, indent, lim);
    var key := KeyRenders(f.key, indent, lim);
    BreakBlank(indent, level);
    if f.tail.Nil? {
      var e := Element(Break(indent, level), key, cv, gap);
      es := Last(e);
      LastRenders(f, e, keyed, level, indent, lim, gap);
    } else {
      var e := Element(Break(indent, level), key, cv, []);
      var rest := ForestRenders(f.tail, keyed, level, indent, lim, gap);
      es := Comma(e, rest);
      CommaRenders(f, e, rest, keyed, level, indent, lim, gap);
    }
  }

  /** The key of the grammar with the text and the event of a key. */
  ghost predicate RendersKey(k: Option<KeyPart>, key: Option<bytes>, indent: nat, lim: Limits) {
    && k.Some? == key.Some?
    && (k.Some? ==>
      && WfKey(k.value, lim) && Grammar.KeyText(k.value, lim) == Printing.KeyText(key, indent, lim.validate)
      && PiecesBytes(k.value.cs, lim.validate) == key.value)
  }

  lemma KeyRenders(key: Option<bytes>, indent: nat, lim: Limits) returns (k: Option<KeyPart>)
    requires key.Some? ==> EscapeFrom(key.value, 0, lim.validate).ok
    ensures RendersKey(k, key, indent, lim)
  {
    if key.None? {
      k := None;
    } else {
      var cs := EscapedIsString(key.value, 0, lim.validate);
      assert key.value[0..] == key.value;
      var behind: bytes := if indent > 0 then [0x20] else [];
      BlankGap(behind, lim.comments);
      BlankGap([], lim.comments);
      hide IsGap, PiecesText, PiecesBytes, WfPieces, EscapeFrom;
      k := Some(KeyPart(cs, [], behind));
      var e := EscapeFrom(key.value, 0, lim.validate).text;
      assert [] + ([':' as int] + behind) == ColonText(indent);
      Assoc([QUOTE], e, [QUOTE]);
    }
  }

  /** One element of the grammar for one item or member. */
  lemma ItemRenders(f: Forest, e: Element, keyed: bool, level: nat, indent: nat, lim: Limits)
    requires f.Cons? && ForestAllReadable(f, keyed, lim)
    requires e.pre == Break(indent, level) && AllBlank(e.post)
    requires RendersKey(e.key, f.key, indent, lim) && Renders(e.v, f.head, level, indent, lim)
    ensures WfElement(e, keyed, lim)
    ensures ElementText(e, keyed, lim) == Break(indent, level) + Printing.KeyText(f.key, indent, lim.validate)
      + TreeText(f.head, level, indent, lim.validate) + e.post
    ensures SameEvents(ElementEvents(e, keyed, lim), KeyEvents(f.key) + TreeEvents(f.head))
  {
    BreakBlank(indent, level);
    BlankGap(e.pre, lim.comments);
    BlankGap(e.post, lim.comments);
    hide IsGap;
    assert !keyed ==> Printing.KeyText(f.key, indent, lim.validate) == [];
    hide ValueText, TreeText, ValueEvents, TreeEvents, Break, WfValue, WfKey, Grammar.KeyText, Printing.KeyText, PiecesBytes;
    hide SameEvents, AllBlank;
    var key := if keyed then Grammar.KeyText(e.key.value, lim) else [];
    assert key == Printing.KeyText(f.key, indent, lim.validate);
    SameNone(KeyEvents(f.key));
    SameConcat(KeyEvents(f.key), ValueEvents(e.v, lim), KeyEvents(f.key), TreeEvents(f.head));
    JoinFour(e.pre, key, ValueText(e.v, lim), e.post);
  }

  lemma SameNone(a: seq<Event>)
    ensures SameEvents(a, a)
  {
  }

  lemma JoinFour(a: bytes, b: bytes, c: bytes, d: bytes)
    ensures a + (b + (c + d)) == a + b + c + d
  {
  }

  /** The last element, with what follows it before the closing bracket. */
  lemma LastRenders(f: Forest, e: Element, keyed: bool, level: nat, indent: nat, lim: Limits, gap: bytes)
    requires f.Cons? && f.tail.Nil? && ForestAllReadable(f, keyed, lim) && AllBlank(gap)
    requires e.pre == Break(indent, level) && e.post == gap
    requires RendersKey(e.key, f.key, indent, lim) && Renders(e.v, f.head, level, indent, lim)
    ensures RendersAll(Last(e), f, keyed, level, indent, lim, gap)
  {
    ItemRenders(f, e, keyed, level, indent, lim);
    LastParts(e, keyed, lim, f, level, indent);
    assert ForestDepth(f) == TreeDepth(f.head);
    hide ElementsText, ElementsEvents, ForestText, ForestEvents, SameEvents, ElementText, TreeText, Break, Printing.KeyText;
  }

  lemma LastParts(e: Element, keyed: bool, lim: Limits, f: Forest, level: nat, indent: nat)
    requires WfElement(e, keyed, lim) && f.Cons? && f.tail.Nil? && ForestPrintable(f)
    ensures ElementsText(Last(e), keyed, lim) == ElementText(e, keyed, lim)
    ensures ElementsEvents(Last(e), keyed, lim) == ElementEvents(e, keyed, lim)
    ensures ForestText(f, level, indent, lim.validate) == Break(indent, level)
      + Printing.KeyText(f.key, indent, lim.validate) + TreeText(f.head, level, indent, lim.validate)
    ensures ForestEvents(f) == KeyEvents(f.key) + TreeEvents(f.head)
  {
    hide ElementText, ElementEvents, TreeText, TreeEvents, Break, Printing.KeyText, WfElement;
    assert ForestEvents(f.tail) == [];
    assert TreeEvents(f.head) + [] == TreeEvents(f.head);
  }

  lemma CommaParts(e: Element, rest: Elements, keyed: bool, lim: Limits, f: Forest, level: nat, indent: nat)
    requires WfElement(e, keyed, lim) && WfElements(rest, keyed, lim) && f.Cons? && f.tail.Cons? && ForestPrintable(f)
    ensures ElementsText(Comma(e, rest), keyed, lim)
      == ElementText(e, keyed, lim) + ([COMMA] + ElementsText(rest, keyed, lim))
    ensures ElementsEvents(Comma(e, rest), keyed, lim) == ElementEvents(e, keyed, lim) + ElementsEvents(rest, keyed, lim)
    ensures ForestText(f, level, indent, lim.validate) == Break(indent, level)
      + Printing.KeyText(f.key, indent, lim.validate) + TreeText(f.head, level, indent, lim.validate)
      + [COMMA] + ForestText(f.tail, level, indent, lim.validate)
    ensures ForestEvents(f) == KeyEvents(f.key) + TreeEvents(f.head) + ForestEvents(f.tail)
  {
    hide ElementText, ElementEvents, TreeText, TreeEvents, Break, Printing.KeyText, WfElement;
    assert KeyEvents(f.key) + TreeEvents(f.head) + ForestEvents(f.tail)
        == KeyEvents(f.key) + (TreeEvents(f.head) + ForestEvents(f.tail));
  }

  lemma JoinComma(text: bytes, more: bytes, gap: bytes)
    ensures text + [] + ([COMMA] + (more + gap)) == text + [COMMA] + more + gap
  {
  }

  /** An element and those behind the comma. */
  lemma CommaRenders(f: Forest, e: Element, rest: Elements, keyed: bool, level: nat, indent: nat, lim: Limits, gap: bytes)
    requires f.Cons? && f.tail.Cons? && ForestAllReadable(f, keyed, lim)
    requires e.pre == Break(indent, level) && e.post == []
    requires RendersKey(e.key, f.key, indent, lim) && Renders(e.v, f.head, level, indent, lim)
    requires RendersAll(rest, f.tail, keyed, level, indent, lim, gap)
    ensures RendersAll(Comma(e, rest), f, keyed, level, indent, lim, gap)
  {
    ItemRenders(f, e, keyed, level, indent, lim);
    CommaParts(e, rest, keyed, lim, f, level, indent);
    SameConcat(ElementEvents(e, keyed, lim), ElementsEvents(rest, keyed, lim),
      KeyEvents(f.key) + TreeEvents(f.head), ForestEvents(f.tail));
    JoinComma(Break(indent, level) + Printing.KeyText(f.key, indent, lim.validate)
      + TreeText(f.head, level, indent, lim.validate), ForestText(f.tail, level, indent, lim.validate), gap);
    hide ElementsText, ElementsEvents, ForestText, ForestEvents, SameEvents, ElementText, TreeText, Break, Printing.KeyText;
  }

  // ----- The round trip -----

  /** The printed text of a value is one value of the grammar that stands for it, and that both parsers read. */
  lemma PrintedIsJson(v: Tree, indent: nat, r: Rules) returns (d: Document)
    requires Readable(v, LimitsOf(r)) && TreeDepth(v) <= r.size
    ensures IsTextOf(d, TreeText(v, 0, indent, r.validate), r) && OneValue(d) && NoLoneComma(d) && NoMissingComma(d)
    ensures SameEvents(DocumentEvents(d, LimitsOf(r)), TreeEvents(v))
  {
    var cv := TreeRenders(v, 0, indent, LimitsOf(r));
    hide ValueText, ValueEvents, WfValue, TreeText, TreeEvents, SameEvents, Suits;
    d := OneContainer(TreeText(v, 0, indent, r.validate), cv, r);
    SuitsOne(d);
  }

  /** With and without the printer's own validation the text is the same. */
  lemma {:induction false} SameText(v: Tree, level: nat, indent: nat)
    requires TreePrintable(v) && Encodable(v, true)
    ensures Encodable(v, false) && TreeText(v, level, indent, false) == TreeText(v, level, indent, true)
    decreases v
  {
    match v
    case StringTree(s) => ValidationOnlyRejects(s, 0);
    case ArrayTree(f) => SameForestText(f, level + 1, indent);
    case ObjectTree(f) => SameForestText(f, level + 1, indent);
    case _ =>
  }

  lemma {:induction false} SameForestText(f: Forest, level: nat, indent: nat)
    requires ForestPrintable(f) && ForestEncodable(f, true)
    ensures ForestEncodable(f, false) && ForestText(f, level, indent, false) == ForestText(f, level, indent, true)
    decreases f
  {
    if f.Cons? {
      if f.key.Some? {
        ValidationOnlyRejects(f.key.value, 0);
      }
      SameText(f.head, level, indent);
      SameForestText(f.tail, level, indent);
    }
  }

  /** The whole value is printed, with the text that the parser's own validation would ask for. */
  lemma PrintedText(v: Tree, indent: nat, validate: bool, wanted: bool)
    requires WfTree(v) && TreePrintable(v) && Encodable(v, validate || wanted) && TreeDepth(v) < TWO32
    ensures AllPrintable(TreeEvents(v)) && Encodable(v, wanted)
    ensures var p := PrintAll(Printing.START, TreeEvents(v), indent, validate);
      p.ok && p.text == TreeText(v, 0, indent, wanted)
  {
    if validate || wanted {
      SameText(v, 0, indent);
    }
    TreePrints(Printing.START, v, indent, validate);
    hide TreeText;
    assert PrefixText(Printing.START, indent) == [];
    assert [] + TreeText(v, 0, indent, validate) == TreeText(v, 0, indent, validate);
  }

  function Strict(r: Rules): Rules {
    r.(comments := false, trailingCommas := false, pull := false)
  }

  /**
   * Print, then parse: for every value whose strings the printer and the parser take and whose reals can be
   * read, the printer writes JSON, both parsers read all of it, whatever they are told to allow, and they
   * deliver the events printed.
   */
  lemma PrintThenParse(v: Tree, indent: nat, validate: bool, r: Rules, multiple: bool, trailing: bool)
    requires WfTree(v) && TreePrintable(v) && RealsReadable(v, r.finite)
    requires Encodable(v, validate || r.validate) && TreeDepth(v) <= r.size < TWO32 && !r.pull
    ensures AllPrintable(TreeEvents(v))
    ensures var p := PrintAll(Printing.START, TreeEvents(v), indent, validate);
      && p.ok && IsJson(p.text, Strict(r))
      && var sax := SaxAt(p.text, 0, r, multiple, trailing);
         && sax.Ok? && sax.pos == |p.text| && SameEvents(sax.evs, TreeEvents(v))
         && PullMachine.Run(p.text, PullMachine.START, AsPull(r), PullMachine.Tail(multiple, trailing)) == PullMachine.Ran(sax)
  {
    hide TreeText, PrintAll, SaxAt, IsTextOf, SameEvents, PullMachine.Run, OneValue, SuitDocument, RealsReadable;
    PrintedText(v, indent, validate, r.validate);
    var text := TreeText(v, 0, indent, r.validate);
    var d := PrintedIsJson(v, indent, Strict(r));
    assert IsJsonText(d, text, Strict(r));
    var d' := PrintedIsJson(v, indent, r);
    OneGroup(d');
    SaxComplete(text, d', r, false);
    SaxThenPull(text, d', r);
    AnyTail(text, r, PullMachine.Tail(multiple, trailing));
    Options.MoreOptionsAcceptMore(text, 0, r, r, false, multiple, trailing);
  }

  lemma OneGroup(d: Document)
    requires OneValue(d)
    ensures !d.Next?
  {
  }
}
