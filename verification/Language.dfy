/**
 * The languages of the two parsers, with every option: the texts each of them accepts are those of the
 * documents it reads, and where the two differ the document says so.
 */
module Language {
  import opened Base
  import opened Text
  import opened Gap
  import opened Grammar
  import opened Descent
  import opened Conformance
  import opened PullMachine
  import opened Decimal
  import Number
  import Options

  /** The text is that of the document, within the depth limit. */
  ghost predicate IsTextOf(d: Document, t: bytes, r: Rules) {
    WfDocument(d, LimitsOf(r)) && DocumentDepth(d) <= r.size && DocumentText(d, LimitsOf(r)) == t
  }

  function AsPull(r: Rules): Rules {
    r.(pull := true)
  }

  /** The document stands in the text from p on, and its first list of values ends at q. */
  ghost predicate Stands(t: bytes, p: nat, q: nat, d: Document, r: Rules) {
    && p <= q <= |t| && WfDocument(d, LimitsOf(r)) && DocumentDepth(d) <= r.size
    && t[p..] == DocumentText(d, LimitsOf(r)) && t[p..q] == ElementsText(d.es, false, LimitsOf(r))
  }

  lemma Standing(t: bytes, p: nat, d: Document, r: Rules) returns (q: nat)
    requires p <= |t| && WfDocument(d, LimitsOf(r)) && DocumentDepth(d) <= r.size
    requires t[p..] == DocumentText(d, LimitsOf(r))
    ensures Stands(t, p, q, d, r)
    ensures t[q..] == if d.Final? then d.rest else DocumentText(d.more, LimitsOf(r))
  {
    hide IsGap, WfElements, ElementsText, IsOpenComment;
    var text := ElementsText(d.es, false, LimitsOf(r));
    q := p + |text|;
    assert t[p..q] == t[p..][..|text|];
    assert t[q..] == t[p..][|text|..];
  }

  /** The space behind a list ends at the end of the text or where the next list starts. */
  lemma ListEnds(t: bytes, p: nat, q: nat, d: Document, r: Rules)
    requires Stands(t, p, q, d, r)
    requires t[q..] == if d.Final? then d.rest else DocumentText(d.more, LimitsOf(r))
    requires d.Next? ==> ValueStart(d.more.es.e.v, At(t, q))
    ensures Space(t, q, r) == Done((), if d.Final? then |t| else q) && EndsList(t, q, d.es, r)
    ensures d.Next? ==> q < |t|
  {
    ListIsOpen(d.es);
    if d.Final? {
      if d.rest != [] {
        assert At(t, q) == t[q..][0];
        OpenSkip(t, q);
      }
    } else {
      SpaceStays(t, q, r);
    }
  }

  // ----- The SAX parser -----

  /** What the SAX parser reads: several lists of values only when they are allowed. */
  predicate SaxReads(d: Document, multiple: bool) {
    SuitDocument(d, false) && (d.Next? ==> multiple)
  }

  lemma GenerateIs(t: bytes, p: nat, s: nat, r: Rules)
    requires p <= s <= |t| && Space(t, p, r) == Done((), s)
    ensures GenerateAt(t, p, r) == TopAt(t, s, r)
  {
  }

  /** A document is read with its events, or rejected. */
  lemma {:induction false} SaxDocument(t: bytes, p: nat, d: Document, r: Rules, multiple: bool)
    requires !r.pull && p <= |t| && WfDocument(d, LimitsOf(r)) && DocumentDepth(d) <= r.size
    requires t[p..] == DocumentText(d, LimitsOf(r))
    ensures ValueStart(d.es.e.v, At(t, p + |d.es.e.pre|))
    ensures Comes(SaxAt(t, p, r, multiple, false), SaxReads(d, multiple), DocumentEvents(d, LimitsOf(r)), |t|)
    decreases d
  {
    hide TopAt, GenerateAt, Space, IsGap, WfElements, ElementsText, ElementsEvents, IsOpenComment, ElementsDepth, SuitAll;
    hide DocumentText, IsList, Apart, EndsList;
    var q := Standing(t, p, d, r);
    if d.Next? {
      SaxDocument(t, q, d.more, r, multiple);
    }
    ListEnds(t, p, q, d, r);
    ListIsOpen(d.es);
    var s := p + |d.es.e.pre|;
    TopComplete(t, p, s, q, d.es, r);
    PreComplete(t, p, s, d.es, true, r);
    GenerateIs(t, p, s, r);
  }

  /** Every document that the SAX parser reads is accepted, with its events, and every other is rejected. */
  lemma SaxComplete(t: bytes, d: Document, r: Rules, multiple: bool)
    requires !r.pull && IsTextOf(d, t, r)
    ensures Comes(SaxAt(t, 0, r, multiple, false), SaxReads(d, multiple), DocumentEvents(d, LimitsOf(r)), |t|)
  {
    assert t[0..] == t;
    SaxDocument(t, 0, d, r, multiple);
  }

  /** What is accepted from p on is a document, whose leading space is t[p..s]. */
  lemma {:induction false} SaxFrom(t: bytes, p: nat, r: Rules, multiple: bool) returns (d: Document)
    requires p <= |t| && !r.pull && SaxAt(t, p, r, multiple, false).Ok?
    ensures WfDocument(d, LimitsOf(r)) && DocumentDepth(d) <= r.size && t[p..] == DocumentText(d, LimitsOf(r))
    ensures EndsGap(At(t, p)) ==> d.es.e.pre == []
    decreases |t| - p
  {
    hide TopAt, Space, IsGap, WfElements, ElementsText, IsOpenComment, ElementsDepth, IsList, WfDocument, DocumentText, DocumentDepth;
    var s := Space(t, p, r).pos;
    SpaceSound(t, p, r);
    var q := TopAt(t, s, r).pos;
    if EndsGap(At(t, p)) {
      SpaceStays(t, p, r);
    }
    if q < |t| {
      NextStarts(t, p, q, r, multiple);
    }
    var es, n := TopSound(t, p, s, r);
    ListIsOpen(es);
    if q == |t| {
      d := Final(es, t[n..]);
      WrapFinal(t, p, n, es, r);
    } else {
      var more := SaxFrom(t, q, r, multiple);
      SaxDocument(t, q, more, r, multiple);
      d := Next(es, more);
      WrapNext(t, p, q, es, more, r);
    }
  }

  /** A list of values up to n, and perhaps a comment, make a document. */
  lemma WrapFinal(t: bytes, p: nat, n: nat, es: Elements, r: Rules)
    requires p <= n <= |t| && WfElements(es, false, LimitsOf(r)) && IsList(es) && ElementsDepth(es) <= r.size
    requires t[p..n] == ElementsText(es, false, LimitsOf(r)) && (n < |t| ==> r.comments && IsOpenComment(t[n..]))
    ensures var d := Final(es, t[n..]);
      WfDocument(d, LimitsOf(r)) && DocumentDepth(d) <= r.size && t[p..] == DocumentText(d, LimitsOf(r))
  {
    hide WfElements, ElementsText, IsList, IsOpenComment, ElementsDepth;
    assert t[p..] == t[p..n] + t[n..];
  }

  /** A list of values up to q and a document make a document. */
  lemma WrapNext(t: bytes, p: nat, q: nat, es: Elements, more: Document, r: Rules)
    requires p <= q <= |t| && WfElements(es, false, LimitsOf(r)) && IsList(es) && ElementsDepth(es) <= r.size
    requires WfDocument(more, LimitsOf(r)) && DocumentDepth(more) <= r.size && more.es.e.pre == []
    requires t[p..q] == ElementsText(es, false, LimitsOf(r)) && t[q..] == DocumentText(more, LimitsOf(r))
    requires LastOf(es).post == [] ==> EndsValue(LastOf(es).v, At(t, q))
    requires ValueStart(more.es.e.v, At(t, q))
    ensures var d := Next(es, more);
      WfDocument(d, LimitsOf(r)) && DocumentDepth(d) <= r.size && t[p..] == DocumentText(d, LimitsOf(r))
  {
    hide WfElements, ElementsText, IsList, ElementsDepth, LastOf;
    assert t[p..] == t[p..q] + t[q..];
    assert Apart(LastOf(es), more.es.e);
  }

  /** Another list starts with a value, and with no space, which the list before it has taken. */
  lemma NextStarts(t: bytes, p: nat, q: nat, r: Rules, multiple: bool)
    requires p <= q <= |t| && GenerateAt(t, p, r).Ok? && GenerateAt(t, p, r).pos == q
    requires SaxAt(t, q, r, multiple, false).Ok?
    ensures !IsCloser(At(t, q)) && EndsGap(At(t, q))
  {
    hide GenerateAt;
    Options.GenerateEnd(t, p, r);
    Options.GenerateStart(t, q, r);
    if IsCloser(At(t, q)) {
      CloserAlone(t, q, r);
    }
  }

  lemma CloserAlone(t: bytes, q: nat, r: Rules)
    requires q <= |t| && IsCloser(At(t, q))
    ensures GenerateAt(t, q, r).Err?
  {
    SpaceStays(t, q, r);
    assert ValueAt(t, q, 0, r).Err?;
  }

  /** What the SAX parser accepts is a document that it reads. */
  lemma SaxSound(t: bytes, r: Rules, multiple: bool) returns (d: Document)
    requires !r.pull && SaxAt(t, 0, r, multiple, false).Ok?
    ensures IsTextOf(d, t, r) && SaxReads(d, multiple)
  {
    assert t[0..] == t;
    d := SaxFrom(t, 0, r, multiple);
    SaxComplete(t, d, r, multiple);
  }

  /** The SAX parser accepts exactly the documents it reads. */
  lemma SaxIffGrammar(t: bytes, r: Rules, multiple: bool)
    requires !r.pull
    ensures SaxAt(t, 0, r, multiple, false).Ok? <==> exists d :: IsTextOf(d, t, r) && SaxReads(d, multiple)
  {
    if SaxAt(t, 0, r, multiple, false).Ok? {
      var d := SaxSound(t, r, multiple);
    }
    forall d | IsTextOf(d, t, r) && SaxReads(d, multiple) ensures SaxAt(t, 0, r, multiple, false).Ok? {
      SaxComplete(t, d, r, multiple);
    }
  }

  // ----- The pull parser -----

  /** The pull parser reads a document, rejects it, or breaks on the assertion about its state. */
  datatype Verdict = Reads | Rejects | Breaks

  /** Only the first value can be a scalar; a comma behind a value, and further values unless allowed, are rejected. */
  function PullVerdict(d: Document, first: bool, multiple: bool): Verdict {
    if !Suits(d.es.e.v, true) then Rejects
    else if !first && IsScalar(d.es.e.v) then Breaks
    else if !d.es.Last? then Rejects
    else if d.Final? then Reads
    else if !multiple then Rejects
    else PullVerdict(d.more, false, multiple)
  }

  /** The events of the values up to the first that breaks the run. */
  ghost function PullEvents(d: Document, first: bool, lim: Limits): seq<Event>
    requires WfDocument(d, lim)
  {
    if !first && IsScalar(d.es.e.v) then []
    else ElementEvents(d.es.e, false, lim) + if d.Final? then [] else PullEvents(d.more, false, lim)
  }

  /** What a run comes to. */
  ghost predicate Follows(x: Trace, d: Document, first: bool, lim: Limits, multiple: bool, end: nat)
    requires WfDocument(d, lim)
  {
    match PullVerdict(d, first, multiple)
    case Reads => x == Ran(Ok(PullEvents(d, first, lim), end))
    case Rejects => x.Ran? && x.o.Err?
    case Breaks => x == Broke(PullEvents(d, first, lim))
  }

  lemma ScalarIff(t: bytes, p: nat, q: nat, v: Value, r: Rules)
    requires WfValue(v, LimitsOf(r)) && Occurs(t, p, ValueText(v, LimitsOf(r)))
    requires q == p + |ValueText(v, LimitsOf(r))| && EndsValue(v, At(t, q))
    ensures p <= |t| && (ScalarAt(t, p, r).Ok? <==> IsScalar(v))
  {
    hide ScalarAt, Occurs, IsGap;
    if IsScalar(v) {
      ScalarComplete(t, p, q, v, r);
    } else {
      OccursAt(t, p, ValueText(v, LimitsOf(r)), 0);
      OpenersAreNoScalars(t, p, r);
    }
  }

  /** The first element of a document, whose value ends at m and text at n. */
  lemma FirstElement(t: bytes, p: nat, q: nat, d: Document, r: Rules) returns (m: nat, n: nat)
    requires r.pull && Stands(t, p, q, d, r) && EndsList(t, q, d.es, r)
    ensures var s, lim := p + |d.es.e.pre|, LimitsOf(r);
      && s <= m <= n <= q && Space(t, m, r) == Space(t, n, r) && Space(t, p, r) == Done((), s)
      && WfElement(d.es.e, false, lim) && ValueStart(d.es.e.v, At(t, s))
      && Comes(ValueAt(t, s, 0, r), Suits(d.es.e.v, true), ElementEvents(d.es.e, false, lim), m)
      && (ScalarAt(t, s, r).Ok? <==> IsScalar(d.es.e.v)) && (IsScalar(d.es.e.v) ==> Suits(d.es.e.v, true))
    ensures if d.es.Last? then n == q else n < |t| && t[n] == COMMA
  {
    hide Space, IsGap, ValueAt, ScalarAt, ElementsText, ElementText, ElementEvents, ValueText, DocumentText, IsOpenComment,
      DocumentDepth, Occurs, Suits, IsScalar;
    var e, lim, s := d.es.e, LimitsOf(r), p + |d.es.e.pre|;
    StandsThere(t, p, q, d, r);
    ListIsOpen(d.es);
    n := CutTop(t, p, d.es, r);
    FirstDepth(d);
    m := ElementComplete(t, p, s, n, e, 0, true, r);
    PreComplete(t, p, s, d.es, true, r);
    var k, end := CutElement(t, p, s, n, e, true, r);
    PostSkip(t, end, n, e, r);
    ScalarIff(t, s, end, e.v, r);
    ScalarSuits(e.v);
  }

  lemma StandsThere(t: bytes, p: nat, q: nat, d: Document, r: Rules)
    requires Stands(t, p, q, d, r)
    ensures Occurs(t, p, ElementsText(d.es, false, LimitsOf(r))) && q == p + |ElementsText(d.es, false, LimitsOf(r))|
  {
    hide ElementsText;
  }

  lemma ScalarSuits(v: Value)
    ensures IsScalar(v) ==> Suits(v, true) && Suits(v, false)
  {
  }

  lemma FirstDepth(d: Document)
    ensures Depth(d.es.e.v) <= ElementsDepth(d.es) <= DocumentDepth(d)
  {
  }

  /** A comma behind a top-level value is no value. */
  lemma CommaBehind(t: bytes, p: nat, n: nat, r: Rules, multiple: bool)
    requires p <= |t| && n < |t| && Space(t, p, r) == Done((), n) && t[n] == COMMA
    ensures var x := PullBehind(t, p, r, Tail(multiple, false)); x.Ran? && x.o.Err?
  {
    assert ScalarAt(t, n, r).Err? && ValueAt(t, n, 0, r).Err?;
  }

  lemma {:induction false} PullDocument(t: bytes, p: nat, d: Document, first: bool, r: Rules, multiple: bool)
    requires r.pull && p <= |t| && WfDocument(d, LimitsOf(r)) && DocumentDepth(d) <= r.size
    requires t[p..] == DocumentText(d, LimitsOf(r))
    ensures var s := p + |d.es.e.pre|;
      && s <= |t| && ValueStart(d.es.e.v, At(t, s)) && Space(t, p, r) == Done((), s)
      && Follows(PullFrom(t, s, first, r, Tail(multiple, false)), d, first, LimitsOf(r), multiple, |t|)
    decreases d
  {
    hide Space, IsGap, ValueAt, ScalarAt, ElementsText, ElementEvents, DocumentText, IsOpenComment, ElementsDepth, EndsList;
    hide WfElements, Apart, Suits, PullBehind;
    var q := Standing(t, p, d, r);
    if d.Next? {
      PullDocument(t, q, d.more, false, r, multiple);
    }
    ListEnds(t, p, q, d, r);
    var m, n := FirstElement(t, p, q, d, r);
    if !d.es.Last? {
      SpaceStays(t, n, r);
      CommaBehind(t, m, n, r, multiple);
    } else {
      BehindIs(t, m, r, multiple);
    }
  }

  lemma BehindIs(t: bytes, p: nat, r: Rules, multiple: bool)
    requires p <= |t| && Space(t, p, r).Done?
    ensures PullBehind(t, p, r, Tail(multiple, false)) ==
      var e := Space(t, p, r).pos;
      if e == |t| then Ran(Ok([], e))
      else if multiple then PullFrom(t, e, false, r, Tail(multiple, false))
      else Ran(Err([], e, Unexpected))
  {
    hide SpaceEnd, PullFrom;
  }

  /** Every document is read with its events, rejected, or breaks the run, as its values say. */
  lemma PullComplete(t: bytes, d: Document, r: Rules, multiple: bool)
    requires r.pull && IsTextOf(d, t, r)
    ensures Follows(Run(t, PullMachine.START, r, Tail(multiple, false)), d, true, LimitsOf(r), multiple, |t|)
  {
    hide PullFrom, SpaceEnd, Follows, Run;
    assert t[0..] == t;
    PullDocument(t, 0, d, true, r, multiple);
    PullIsDescent(t, r, Tail(multiple, false));
  }

  lemma {:induction false} PullEventsAll(d: Document, first: bool, lim: Limits, multiple: bool)
    requires WfDocument(d, lim) && PullVerdict(d, first, multiple) == Reads
    ensures PullEvents(d, first, lim) == DocumentEvents(d, lim)
    decreases d
  {
    hide ElementEvents, IsGap;
    assert ElementsEvents(d.es, false, lim) == ElementEvents(d.es.e, false, lim);
    if d.Next? {
      PullEventsAll(d.more, false, lim, multiple);
    }
  }

  /** What a run reads to the end, from a value at s on, is a document. */
  lemma {:induction false} PullSoundFrom(t: bytes, p: nat, s: nat, first: bool, r: Rules, multiple: bool) returns (d: Document)
    requires p <= s <= |t| && r.pull && IsGap(t[p..s], r.comments)
    requires var x := PullFrom(t, s, first, r, Tail(multiple, false)); x.Ran? && x.o.Ok?
    ensures WfDocument(d, LimitsOf(r)) && DocumentDepth(d) <= r.size && t[p..] == DocumentText(d, LimitsOf(r))
    ensures d.es.e.pre == t[p..s]
    decreases |t| - s
  {
    hide Space, IsGap, ValueAt, ScalarAt, IsOpenComment, Occurs, ValueText, ElementText, WfElement, PullBehind;
    hide WfDocument, DocumentText, DocumentDepth, Follows;
    var lim := LimitsOf(r);
    var m := ValueAt(t, s, 0, r).pos;
    var v := ValueSound(t, s, 0, r);
    TextOf(t, s, m, ValueText(v, lim));
    assert [] + ValueText(v, lim) == ValueText(v, lim);
    BehindSpace(t, m, r, multiple);
    BehindIs(t, m, r, multiple);
    var n := SpaceParts(t, m, r);
    var e := WrapElement(t, p, s, m, n, None, v, false, lim);
    var es := Last(e);
    assert ElementsText(es, false, lim) == t[p..n] + [] == t[p..n];
    var q := Space(t, m, r).pos;
    if q == |t| {
      d := Final(es, t[n..]);
      WrapFinal(t, p, n, es, r);
    } else {
      assert t[q..q] == [];
      EmptyGap(r.comments);
      var more := PullSoundFrom(t, q, q, false, r, multiple);
      PullDocument(t, q, more, false, r, multiple);
      d := Next(es, more);
      WrapNext(t, p, q, es, more, r);
    }
  }

  lemma BehindSpace(t: bytes, p: nat, r: Rules, multiple: bool)
    requires p <= |t|
    ensures var x := PullBehind(t, p, r, Tail(multiple, false)); x.Ran? && x.o.Ok? ==> Space(t, p, r).Done?
  {
  }

  /** What the pull parser reads to the end is a document with that verdict. */
  lemma PullSound(t: bytes, r: Rules, multiple: bool) returns (d: Document)
    requires r.pull
    requires var x := Run(t, PullMachine.START, r, Tail(multiple, false)); x.Ran? && x.o.Ok?
    ensures IsTextOf(d, t, r) && PullVerdict(d, true, multiple) == Reads
  {
    hide PullFrom, Run, IsGap, Space;
    PullIsDescent(t, r, Tail(multiple, false));
    var s := Space(t, 0, r).pos;
    ValueInText(t, s, r, multiple);
    SpaceSound(t, 0, r);
    assert t[0..] == t;
    d := PullSoundFrom(t, 0, s, true, r, multiple);
    PullComplete(t, d, r, multiple);
  }

  lemma ValueInText(t: bytes, s: nat, r: Rules, multiple: bool)
    requires s <= |t|
    ensures var x := PullFrom(t, s, true, r, Tail(multiple, false)); x.Ran? && x.o.Ok? ==> s < |t|
  {
    hide PullBehind, ScalarAt;
  }

  ghost predicate PullReads(d: Document, t: bytes, r: Rules, multiple: bool) {
    IsTextOf(d, t, r) && PullVerdict(d, true, multiple) == Reads
  }

  /** The pull parser reads to the end exactly the texts of the documents it reads. */
  lemma PullIffGrammar(t: bytes, r: Rules, multiple: bool)
    requires r.pull
    ensures var x := Run(t, PullMachine.START, r, Tail(multiple, false));
      (x.Ran? && x.o.Ok?) <==> exists d :: PullReads(d, t, r, multiple)
  {
    hide Run;
    var x := Run(t, PullMachine.START, r, Tail(multiple, false));
    if x.Ran? && x.o.Ok? {
      var d := PullSound(t, r, multiple);
      assert PullReads(d, t, r, multiple);
    }
    forall d | PullReads(d, t, r, multiple) ensures x.Ran? && x.o.Ok? {
      PullComplete(t, d, r, multiple);
    }
  }
}
