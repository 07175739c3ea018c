/**
 * Where trailing characters are allowed only the front of a text is read: which fronts the two parsers
 * accept, and what may stand behind them.
 */
module Front {
  import opened Base
  import opened Text
  import opened Gap
  import opened Grammar
  import opened Descent
  import opened Conformance
  import opened PullMachine
  import opened Language
  import Options

  /** No white space or comment starts the text, but perhaps a comment that nothing ends. */
  ghost predicate NoGap(rest: bytes, lim: Limits) {
    || (lim.comments && IsOpenComment(rest))
    || (!IsBlank(At(rest, 0)) && (lim.comments ==> At(rest, 0) != SLASH))
  }

  /** The text behind a list of values ends it. */
  ghost predicate Cuts(es: Elements, rest: bytes, lim: Limits) {
    if Trails(es) then IsCloser(At(rest, 0))
    else
      && (LastOf(es).post == [] ==> EndsValue(LastOf(es).v, At(rest, 0)))
      && NoGap(rest, lim) && At(rest, 0) != COMMA
  }

  /** The text up to q is a list of values, within the depth limit, that what follows ends. */
  ghost predicate IsFront(t: bytes, q: nat, es: Elements, r: Rules) {
    && q <= |t| && WfElements(es, false, LimitsOf(r)) && IsOpenList(es) && ElementsDepth(es) <= r.size
    && t[..q] == ElementsText(es, false, LimitsOf(r)) && Cuts(es, t[q..], LimitsOf(r))
  }

  /** Where reading stops: at the end of the text if a comment is open. */
  ghost function StopAt(t: bytes, q: nat, r: Rules): nat
    requires q <= |t|
  {
    if r.comments && IsOpenComment(t[q..]) then |t| else q
  }

  lemma RestAt(t: bytes, q: nat)
    requires q <= |t|
    ensures At(t[q..], 0) == At(t, q)
  {
  }

  lemma NoGapStays(t: bytes, q: nat, r: Rules)
    requires q <= |t| && NoGap(t[q..], LimitsOf(r))
    ensures Space(t, q, r) == Done((), StopAt(t, q, r))
  {
    RestAt(t, q);
    if r.comments && IsOpenComment(t[q..]) {
      OpenSkip(t, q);
    }
  }

  /** Space that ends at e, at an open comment or where nothing is left to skip, leaves no gap behind. */
  lemma NoGapLeft(t: bytes, n: nat, e: nat, r: Rules)
    requires n <= e <= |t| && !IsBlank(At(t, e)) && (r.comments ==> At(t, e) != SLASH)
    requires n < e ==> r.comments && IsOpenComment(t[n..])
    ensures NoGap(t[n..], LimitsOf(r)) && (n < e ==> At(t, n) == SLASH)
  {
    RestAt(t, n);
    if n < e {
      assert At(t[n..], 0) == SLASH;
    }
  }

  // ----- The SAX parser -----

  lemma CutsEnds(t: bytes, q: nat, es: Elements, r: Rules)
    requires q <= |t| && Cuts(es, t[q..], LimitsOf(r))
    ensures EndsList(t, q, es, r) && Space(t, q, r) == Done((), StopAt(t, q, r))
  {
    hide EndsValue, SpaceEnd;
    RestAt(t, q);
    if Trails(es) {
      SpaceStays(t, q, r);
    } else {
      NoGapStays(t, q, r);
      RestAt(t, |t|);
    }
  }

  /** A front is read with its events, or rejected. */
  lemma FrontComplete(t: bytes, q: nat, es: Elements, r: Rules)
    requires !r.pull && IsFront(t, q, es, r)
    ensures Comes(SaxAt(t, 0, r, false, true), SuitAll(es, false), ElementsEvents(es, false, LimitsOf(r)), StopAt(t, q, r))
  {
    hide TopAt, Space, IsGap, WfElements, ElementsText, ElementsEvents, ElementsDepth, SuitAll, IsOpenList, EndsList, Cuts, StopAt;
    CutsEnds(t, q, es, r);
    assert t[0..q] == t[..q];
    var s := |es.e.pre|;
    TopComplete(t, 0, s, q, es, r);
    PreComplete(t, 0, s, es, true, r);
    GenerateIs(t, 0, s, r);
  }

  /** What is accepted starts with a front. */
  lemma FrontSound(t: bytes, r: Rules) returns (q: nat, es: Elements)
    requires !r.pull && SaxAt(t, 0, r, false, true).Ok?
    ensures IsFront(t, q, es, r) && SuitAll(es, false)
  {
    hide TopAt, Space, IsGap, WfElements, ElementsText, ElementsEvents, ElementsDepth, SuitAll, IsOpenList, IsOpenComment, EndsValue;
    hide NoGap;
    var s := Space(t, 0, r).pos;
    TopInText(t, s, r);
    SpaceSound(t, 0, r);
    es, q := TopSound(t, 0, s, r);
    Options.TopEnd(t, s, r);
    NoGapLeft(t, q, TopAt(t, s, r).pos, r);
    RestAt(t, q);
    assert t[..q] == t[0..q];
    FrontComplete(t, q, es, r);
  }

  lemma TopInText(t: bytes, s: nat, r: Rules)
    requires s <= |t| && TopAt(t, s, r).Ok?
    ensures s < |t|
  {
  }

  /** With trailing characters the SAX parser accepts exactly the texts with a front that it reads. */
  lemma FrontIff(t: bytes, r: Rules)
    requires !r.pull
    ensures SaxAt(t, 0, r, false, true).Ok? <==> exists q, es :: IsFront(t, q, es, r) && SuitAll(es, false)
  {
    if SaxAt(t, 0, r, false, true).Ok? {
      var q, es := FrontSound(t, r);
    }
    forall q, es | IsFront(t, q, es, r) && SuitAll(es, false) ensures SaxAt(t, 0, r, false, true).Ok? {
      FrontComplete(t, q, es, r);
    }
  }

  // ----- The pull parser -----

  /** The text up to q is one value, within the depth limit, that what follows ends; a comma may follow. */
  ghost predicate IsValueFront(t: bytes, q: nat, e: Element, r: Rules) {
    && q <= |t| && WfElement(e, false, LimitsOf(r)) && Depth(e.v) <= r.size
    && t[..q] == ElementText(e, false, LimitsOf(r))
    && (e.post == [] ==> EndsValue(e.v, At(t, q))) && NoGap(t[q..], LimitsOf(r))
  }

  function PullFront(t: bytes, r: Rules): Trace {
    Run(t, PullMachine.START, r, Tail(false, true))
  }

  /** A value in front is read with its events, or rejected. */
  lemma ValueFrontComplete(t: bytes, q: nat, e: Element, r: Rules)
    requires r.pull && IsValueFront(t, q, e, r)
    ensures PullFront(t, r).Ran?
    ensures Comes(PullFront(t, r).o, Suits(e.v, true), ElementEvents(e, false, LimitsOf(r)), StopAt(t, q, r))
  {
    hide Run, ValueAt, Space, IsGap, WfElement, ElementText, ElementEvents, Suits, Depth, EndsValue, NoGap, StopAt;
    var s := |e.pre|;
    assert t[0..q] == t[..q];
    var m := ElementComplete(t, 0, s, q, e, 0, true, r);
    PreSkip(t, s, q, e, r);
    NoGapStays(t, q, r);
    PullIsDescent(t, r, Tail(false, true));
    ValueFrontRun(t, s, m, r);
  }

  lemma PreSkip(t: bytes, s: nat, q: nat, e: Element, r: Rules)
    requires q <= |t| && WfElement(e, false, LimitsOf(r)) && s == |e.pre| && StartsElement(At(t, s))
    requires t[..q] == ElementText(e, false, LimitsOf(r))
    ensures Space(t, 0, r) == Done((), s)
  {
    hide IsGap;
    assert t[0..q] == t[..q];
    OccursSplit(t, 0, e.pre, ElementText(e, false, LimitsOf(r))[s..]);
    SpaceComplete(t, 0, s, e.pre, r);
  }

  /** A run up to the first value, when anything may follow. */
  lemma ValueFrontRun(t: bytes, s: nat, m: nat, r: Rules)
    requires s <= |t| && m <= |t| && Space(t, 0, r) == Done((), s) && Space(t, m, r).Done?
    requires ValueAt(t, s, 0, r).Ok? ==> ValueAt(t, s, 0, r).pos == m
    ensures PullText(t, r, Tail(false, true)) ==
      var v := ValueAt(t, s, 0, r);
      Ran(if v.Err? then v else Ok(v.evs, Space(t, m, r).pos))
  {
    hide ValueAt, SpaceEnd;
    var v := ValueAt(t, s, 0, r);
    if v.Ok? {
      assert PullBehind(t, m, r, Tail(false, true)) == Ran(Ok([], Space(t, m, r).pos));
      assert v.evs + [] == v.evs;
    }
  }

  /** What is accepted starts with a value. */
  lemma ValueFrontSound(t: bytes, r: Rules) returns (q: nat, e: Element)
    requires r.pull && PullFront(t, r).Ran? && PullFront(t, r).o.Ok?
    ensures IsValueFront(t, q, e, r) && Suits(e.v, true)
  {
    hide Run, ValueAt, Space, IsGap, WfElement, ElementText, ElementEvents, Suits, Depth, EndsValue, NoGap, IsOpenComment, Occurs,
      ValueText, PullBehind, ScalarAt;
    PullIsDescent(t, r, Tail(false, true));
    var s := Space(t, 0, r).pos;
    var m := ValueAt(t, s, 0, r).pos;
    BehindDone(t, m, r);
    ValueInFront(t, s, r);
    SpaceSound(t, 0, r);
    var v := ValueSound(t, s, 0, r);
    TextOf(t, s, m, ValueText(v, LimitsOf(r)));
    assert [] + ValueText(v, LimitsOf(r)) == ValueText(v, LimitsOf(r));
    q := SpaceParts(t, m, r);
    e := WrapElement(t, 0, s, m, q, None, v, false, LimitsOf(r));
    SpaceStops(t, m, r);
    NoGapLeft(t, q, Space(t, m, r).pos, r);
    assert t[..q] == t[0..q];
    ValueFrontComplete(t, q, e, r);
  }

  lemma BehindDone(t: bytes, m: nat, r: Rules)
    requires m <= |t|
    ensures var x := PullBehind(t, m, r, Tail(false, true)); x.Ran? && (x.o.Ok? ==> Space(t, m, r).Done?)
  {
  }

  lemma ValueInFront(t: bytes, s: nat, r: Rules)
    requires s <= |t| && ValueAt(t, s, 0, r).Ok?
    ensures s < |t|
  {
  }

  lemma SpaceStops(t: bytes, p: nat, r: Rules)
    requires p <= |t| && Space(t, p, r).Done?
    ensures var e := Space(t, p, r).pos; !IsBlank(At(t, e)) && (r.comments ==> At(t, e) != SLASH)
  {
  }

  /** With trailing characters the pull parser accepts exactly the texts with a value in front that it reads. */
  lemma ValueFrontIff(t: bytes, r: Rules)
    requires r.pull
    ensures PullFront(t, r).Ran? && (PullFront(t, r).o.Ok? <==> exists q, e :: IsValueFront(t, q, e, r) && Suits(e.v, true))
  {
    hide Run;
    FrontNeverBreaks(t, r);
    if PullFront(t, r).o.Ok? {
      var q, e := ValueFrontSound(t, r);
    }
    forall q, e | IsValueFront(t, q, e, r) && Suits(e.v, true) ensures PullFront(t, r).o.Ok? {
      ValueFrontComplete(t, q, e, r);
    }
  }

  lemma FrontNeverBreaks(t: bytes, r: Rules)
    requires r.pull
    ensures PullFront(t, r).Ran?
  {
    hide Run, ValueAt, SpaceEnd, ScalarAt, PullBehind;
    PullIsDescent(t, r, Tail(false, true));
    var w := Space(t, 0, r);
    if w.Done? && ValueAt(t, w.pos, 0, r).Ok? {
      BehindDone(t, ValueAt(t, w.pos, 0, r).pos, r);
    }
  }
}
