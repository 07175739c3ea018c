/**
 * Options only ever accept more: a text that is accepted under some rules is accepted under rules that
 * allow more, with the same events. Not validating UTF-8 is one of these options.
 */
module Options {
  import opened Base
  import opened Text
  import opened Gap
  import opened Utf8
  import opened Descent
  import opened PullMachine
  import Number

  /** r' allows all that r allows. Where r takes a comma on its own, r' is not the pull parser. */
  ghost predicate Extends(r: Rules, r': Rules) {
    && r.size <= r'.size && r'.finite == r.finite && (r'.validate ==> r.validate)
    && (r.comments ==> r'.comments)
    && (r.trailingCommas ==> r'.trailingCommas)
    && (r.pull ==> r'.pull)
    && (r.trailingCommas && r'.pull ==> r.pull)
  }

  // ----- Strings that are not validated -----

  /** Above 0x7F every byte stands for itself when UTF-8 is not validated. */
  lemma {:induction false} RawRun(t: bytes, p: nat, q: nat)
    requires p <= q <= |t| && forall k | p <= k < q :: t[k] >= 0x80
    ensures StringAt(t, p, false) == Prepend(t[p..q], StringAt(t, q, false))
    decreases q - p
  {
    var rest := StringAt(t, q, false);
    if p == q {
      assert t[p..q] == [];
      PrependNothing(rest);
    } else {
      RawRun(t, p + 1, q);
      PrependPrepend([t[p]], t[p + 1..q], rest);
      assert [t[p]] + t[p + 1..q] == t[p..q];
      assert t[p..p + 1] == [t[p]];
    }
  }

  lemma HighSequence(t: bytes, p: nat)
    requires p < |t| && t[p] >= 0x80 && SequenceLength(t, p) != -1
    ensures p + SequenceLength(t, p) <= |t|
    ensures forall k | p <= k < p + SequenceLength(t, p) :: t[k] >= 0x80
  {
    SequenceFits(t, p);
  }

  /** A string that passes the validation is decoded alike without it. */
  lemma {:induction false} StringExtends(t: bytes, p: nat)
    requires p <= |t| && StringAt(t, p, true).Done?
    ensures StringAt(t, p, false) == StringAt(t, p, true)
    decreases |t| - p
  {
    hide EscapeAt, SequenceLength, Encode;
    var c := At(t, p);
    if c == BACKSLASH {
      StringExtends(t, EscapeAt(t, p).pos);
    } else if c != QUOTE {
      var u := RawEnd(t, p, true).pos;
      if c >= 0x80 {
        HighSequence(t, p);
        RawRun(t, p, u);
      }
      StringExtends(t, u);
    }
  }

  lemma StringsExtend(t: bytes, p: nat, r: Rules, r': Rules)
    requires p <= |t| && Extends(r, r') && StringAt(t, p, r.validate).Done?
    ensures StringAt(t, p, r'.validate) == StringAt(t, p, r.validate)
  {
    if r.validate {
      StringExtends(t, p);
    }
  }

  lemma ScalarExtends(t: bytes, p: nat, r: Rules, r': Rules)
    requires p <= |t| && Extends(r, r') && ScalarAt(t, p, r).Ok?
    ensures ScalarAt(t, p, r') == ScalarAt(t, p, r)
  {
    hide StringAt, Number.NumberAt, WordEnd;
    if At(t, p) == QUOTE {
      StringsExtend(t, p + 1, r, r');
    }
  }

  // ----- The descent -----

  lemma SpaceExtends(t: bytes, p: nat, r: Rules, r': Rules)
    requires p <= |t| && Extends(r, r') && Space(t, p, r).Done? && At(t, Space(t, p, r).pos) != SLASH
    ensures Space(t, p, r') == Space(t, p, r)
  {
    if !r.comments {
      assert Space(t, p, r).pos == BlanksEnd(t, p);
    }
  }

  /** What starts a value. */
  lemma ValueStart(t: bytes, p: nat, depth: nat, r: Rules)
    requires p <= |t| && ValueAt(t, p, depth, r).Ok?
    ensures At(t, p) != SLASH && At(t, p) != COMMA && !IsCloser(At(t, p))
  {
  }

  lemma ElementStart(t: bytes, p: nat, depth: nat, isArray: bool, r: Rules)
    requires p <= |t| && ElementAt(t, p, depth, isArray, r).Ok?
    ensures At(t, p) != SLASH && At(t, p) != COMMA && !IsCloser(At(t, p))
  {
    if isArray {
      ValueStart(t, p, depth, r);
    }
  }

  lemma KeyExtends(t: bytes, p: nat, r: Rules, r': Rules)
    requires p <= |t| && Extends(r, r') && KeyAt(t, p, r).Ok? && At(t, KeyAt(t, p, r).pos) != SLASH
    ensures KeyAt(t, p, r') == KeyAt(t, p, r)
  {
    hide SpaceEnd, StringAt;
    var k := KeyColon(t, p, r);
    StringsExtend(t, p + 1, r, r');
    SpaceExtends(t, StringAt(t, p + 1, r.validate).pos, r, r');
    assert KeyColon(t, p, r') == k;
    SpaceExtends(t, k.pos, r, r');
  }

  lemma {:induction false} ValueExtends(t: bytes, p: nat, depth: nat, r: Rules, r': Rules)
    requires p <= |t| && Extends(r, r') && ValueAt(t, p, depth, r).Ok?
    ensures ValueAt(t, p, depth, r') == ValueAt(t, p, depth, r)
    decreases |t| - p, 0
  {
    var b := At(t, p);
    if b == Opener(true) || b == Opener(false) {
      BodyExtends(t, p + 1, depth + 1, b == Opener(true), r, r');
    } else {
      ScalarExtends(t, p, r, r');
    }
  }

  lemma {:induction false} BodyExtends(t: bytes, p: nat, depth: nat, isArray: bool, r: Rules, r': Rules)
    requires p <= |t| && Extends(r, r') && BodyAt(t, p, depth, isArray, r).Ok?
    ensures BodyAt(t, p, depth, isArray, r') == BodyAt(t, p, depth, isArray, r)
    decreases |t| - p, 4
  {
    hide SpaceEnd, ElementAt;
    var s := OpeningEnd(t, p, isArray, r);
    if At(t, s.pos) != Closer(isArray) {
      ElementStart(t, s.pos, depth, isArray, r);
      ElementsExtends(t, s.pos, depth, isArray, r, r');
    }
    OpeningExtends(t, p, isArray, r, r');
  }

  lemma OpeningExtends(t: bytes, p: nat, isArray: bool, r: Rules, r': Rules)
    requires p <= |t| && Extends(r, r') && OpeningEnd(t, p, isArray, r).Done?
    requires var b := At(t, OpeningEnd(t, p, isArray, r).pos); b != SLASH && b != COMMA
    ensures OpeningEnd(t, p, isArray, r') == OpeningEnd(t, p, isArray, r)
  {
    hide SpaceEnd;
    var w := Space(t, p, r);
    SpaceExtends(t, p, r, r');
    if r.trailingCommas && At(t, w.pos) == COMMA {
      SpaceExtends(t, w.pos + 1, r, r');
    }
  }

  lemma SeparatorExtends(t: bytes, p: nat, r: Rules, r': Rules)
    requires p <= |t| && Extends(r, r') && SeparatorEnd(t, p, r).Done?
    requires var s := SeparatorEnd(t, p, r); At(t, s.pos) != SLASH && (s.val ==> !IsCloser(At(t, s.pos)))
    ensures SeparatorEnd(t, p, r') == SeparatorEnd(t, p, r)
  {
    hide SpaceEnd;
    var w := Space(t, p, r);
    SpaceExtends(t, p, r, r');
    if At(t, w.pos) == COMMA {
      SpaceExtends(t, w.pos + 1, r, r');
    }
  }

  lemma {:induction false} ElementsExtends(t: bytes, p: nat, depth: nat, isArray: bool, r: Rules, r': Rules)
    requires p <= |t| && Extends(r, r') && ElementsAt(t, p, depth, isArray, r).Ok?
    ensures ElementsAt(t, p, depth, isArray, r') == ElementsAt(t, p, depth, isArray, r)
    decreases |t| - p, 2
  {
    ElementExtends(t, p, depth, isArray, r, r');
    MoreExtends(t, ElementAt(t, p, depth, isArray, r).pos, depth, isArray, r, r');
  }

  lemma {:induction false} ElementExtends(t: bytes, p: nat, depth: nat, isArray: bool, r: Rules, r': Rules)
    requires p <= |t| && Extends(r, r') && ElementAt(t, p, depth, isArray, r).Ok?
    ensures ElementAt(t, p, depth, isArray, r') == ElementAt(t, p, depth, isArray, r)
    decreases |t| - p, 1
  {
    if isArray {
      ValueExtends(t, p, depth, r, r');
    } else {
      var k := KeyAt(t, p, r);
      ValueStart(t, k.pos, depth, r);
      KeyExtends(t, p, r, r');
      ValueExtends(t, k.pos, depth, r, r');
    }
  }

  lemma {:induction false} MoreExtends(t: bytes, p: nat, depth: nat, isArray: bool, r: Rules, r': Rules)
    requires p <= |t| && Extends(r, r') && MoreAt(t, p, depth, isArray, r).Ok?
    ensures MoreAt(t, p, depth, isArray, r') == MoreAt(t, p, depth, isArray, r)
    decreases |t| - p, 3
  {
    hide SeparatorEnd, ElementAt;
    var s := SeparatorEnd(t, p, r);
    if s.val || At(t, s.pos) != Closer(isArray) {
      ElementStart(t, s.pos, depth, isArray, r);
      ElementsExtends(t, s.pos, depth, isArray, r, r');
    }
    SeparatorExtends(t, p, r, r');
  }

  /** Values up to a position where no comment can start. */
  lemma {:induction false} TopExtends(t: bytes, p: nat, r: Rules, r': Rules)
    requires p <= |t| && Extends(r, r') && TopAt(t, p, r).Ok? && At(t, TopAt(t, p, r).pos) != SLASH
    ensures TopAt(t, p, r') == TopAt(t, p, r)
    decreases |t| - p
  {
    hide SeparatorEnd;
    var v := ValueAt(t, p, 0, r);
    ValueExtends(t, p, 0, r, r');
    var s := SeparatorEnd(t, v.pos, r);
    if s.val {
      ValueStart(t, s.pos, 0, r);
      TopExtends(t, s.pos, r, r');
    }
    SeparatorExtends(t, v.pos, r, r');
  }

  lemma TopStart(t: bytes, p: nat, r: Rules)
    requires p <= |t| && TopAt(t, p, r).Ok?
    ensures At(t, p) != SLASH
  {
    ValueStart(t, p, 0, r);
  }

  lemma GenerateExtends(t: bytes, p: nat, r: Rules, r': Rules)
    requires p <= |t| && Extends(r, r') && GenerateAt(t, p, r).Ok? && At(t, GenerateAt(t, p, r).pos) != SLASH
    ensures GenerateAt(t, p, r') == GenerateAt(t, p, r)
  {
    hide SpaceEnd, TopAt;
    var w := Space(t, p, r);
    TopStart(t, w.pos, r);
    SpaceExtends(t, p, r, r');
    TopExtends(t, w.pos, r, r');
  }

  /** Where one run of the loop has ended the next one starts with a value, or the text ends. */
  lemma GenerateStart(t: bytes, p: nat, r: Rules)
    requires p <= |t| && !IsBlank(At(t, p)) && GenerateAt(t, p, r).Ok? && (r.comments ==> At(t, p) != SLASH)
    ensures At(t, p) != SLASH
  {
    hide TopAt;
    SpaceEndIdempotent(t, p, r.comments);
    TopStart(t, p, r);
  }

  lemma {:induction false} TopEnd(t: bytes, p: nat, r: Rules)
    requires p <= |t| && TopAt(t, p, r).Ok?
    ensures var q := TopAt(t, p, r).pos; !IsBlank(At(t, q)) && (r.comments ==> At(t, q) != SLASH)
    decreases |t| - p
  {
    hide ValueAt;
    var s := SeparatorEnd(t, ValueAt(t, p, 0, r).pos, r);
    if s.val {
      TopEnd(t, s.pos, r);
    }
  }

  lemma GenerateEnd(t: bytes, p: nat, r: Rules)
    requires p <= |t| && GenerateAt(t, p, r).Ok?
    ensures var q := GenerateAt(t, p, r).pos; !IsBlank(At(t, q)) && (r.comments ==> At(t, q) != SLASH)
  {
    hide TopAt, SpaceEnd;
    TopEnd(t, Space(t, p, r).pos, r);
  }

  /** A text that is accepted to its end is accepted with any further options, and means the same. */
  lemma {:induction false} MoreOptionsAcceptMore(t: bytes, p: nat, r: Rules, r': Rules, multiple: bool, multiple': bool,
      trailing: bool)
    requires p <= |t| && Extends(r, r') && (multiple ==> multiple') && SaxAt(t, p, r, multiple, false).Ok?
    ensures SaxAt(t, p, r', multiple', trailing) == SaxAt(t, p, r, multiple, false)
    decreases |t| - p
  {
    hide SpaceEnd, TopAt, GenerateAt;
    var o := GenerateAt(t, p, r);
    GenerateEnd(t, p, r);
    if o.pos < |t| {
      GenerateStart(t, o.pos, r);
      MoreOptionsAcceptMore(t, o.pos, r, r', multiple, multiple', trailing);
    }
    GenerateExtends(t, p, r, r');
  }

  // ----- Before trailing characters -----

  /** Where several values are allowed the text has to be read to its end. */
  lemma {:induction false} NoTrailing(t: bytes, p: nat, r: Rules)
    requires p <= |t|
    ensures SaxAt(t, p, r, true, true) == SaxAt(t, p, r, true, false)
    decreases |t| - p
  {
    var o := GenerateAt(t, p, r);
    if o.Ok? && o.pos < |t| {
      NoTrailing(t, o.pos, r);
    }
  }

  /** Space under fewer options is a part of the space under more. */
  lemma SpaceThrough(t: bytes, p: nat, r: Rules, r': Rules)
    requires p <= |t| && Extends(r, r') && Space(t, p, r).Done?
    ensures Space(t, p, r') == Space(t, Space(t, p, r).pos, r')
  {
    if r.comments {
      SpaceEndIdempotent(t, Space(t, p, r).pos, true);
      assert Space(t, p, r).val == ();
    } else {
      BlanksThrough(t, p, r'.comments);
    }
  }

  lemma {:induction false} BlanksThrough(t: bytes, p: nat, comments: bool)
    requires p <= |t|
    ensures SpaceEnd(t, p, comments) == SpaceEnd(t, BlanksEnd(t, p), comments)
    decreases |t| - p
  {
    if p < |t| && IsBlank(t[p]) {
      BlankSkip(t, p, comments);
      BlanksThrough(t, p + 1, comments);
    }
  }

  /** Where the separator behind a value ends the list, more options go on from there. */
  lemma SeparatorThrough(t: bytes, p: nat, r: Rules, r': Rules)
    requires p <= |t| && Extends(r, r') && SeparatorEnd(t, p, r).Done? && !SeparatorEnd(t, p, r).val
    ensures SeparatorEnd(t, p, r') == SeparatorEnd(t, SeparatorEnd(t, p, r).pos, r')
  {
    hide SpaceEnd;
    var w := Space(t, p, r);
    SpaceThrough(t, p, r, r');
    if At(t, w.pos) == COMMA {
      SpaceExtends(t, p, r, r');
      SpaceExtends(t, w.pos + 1, r, r');
      CloserStays(t, SeparatorEnd(t, p, r).pos, r');
    }
  }

  lemma CloserStays(t: bytes, p: nat, r: Rules)
    requires p <= |t| && IsCloser(At(t, p))
    ensures SeparatorEnd(t, p, r) == Done(false, p)
  {
  }

  /** What more options make of the text from the separator at p on. */
  function GoOn(t: bytes, p: nat, r: Rules): Outcome
    requires p <= |t|
  {
    var s := SeparatorEnd(t, p, r);
    if s.Fail? then Err([], s.pos, s.code)
    else if s.val then TopAt(t, s.pos, r)
    else Ok([], s.pos)
  }

  lemma {:induction false} TopGoesOn(t: bytes, p: nat, r: Rules, r': Rules)
    requires p <= |t| && Extends(r, r') && TopAt(t, p, r).Ok?
    ensures TopAt(t, p, r') == Emit(TopAt(t, p, r).evs, GoOn(t, TopAt(t, p, r).pos, r'))
    decreases |t| - p
  {
    hide SeparatorEnd;
    var v := ValueAt(t, p, 0, r);
    ValueExtends(t, p, 0, r, r');
    var s := SeparatorEnd(t, v.pos, r);
    if s.val {
      ValueStart(t, s.pos, 0, r);
      TopGoesOn(t, s.pos, r, r');
      SeparatorExtends(t, v.pos, r, r');
      EmitEmit(v.evs, TopAt(t, s.pos, r).evs, GoOn(t, TopAt(t, s.pos, r).pos, r'));
    } else {
      SeparatorThrough(t, v.pos, r, r');
    }
  }

  /** More values, or where the text ends. */
  function ReadOn(t: bytes, p: nat, r: Rules, multiple: bool): Outcome
    requires p <= |t|
  {
    var s := SeparatorEnd(t, p, r);
    if s.Fail? then Err([], s.pos, s.code)
    else if s.val || (s.pos < |t| && multiple) then SaxAt(t, s.pos, r, multiple, true)
    else Ok([], s.pos)
  }

  lemma GoOnIs(t: bytes, p: nat, evs: seq<Event>, r: Rules, multiple: bool)
    requires p <= |t|
    ensures var o := Emit(evs, GoOn(t, p, r));
      (if o.Err? || o.pos == |t| || !multiple then o else Emit(o.evs, SaxAt(t, o.pos, r, multiple, true)))
      == Emit(evs, ReadOn(t, p, r, multiple))
  {
    hide SpaceEnd, TopAt;
    var s := SeparatorEnd(t, p, r);
    if s.Done? && s.val {
      SpaceStaysBehind(t, p, r);
      assert GenerateAt(t, s.pos, r) == TopAt(t, s.pos, r);
      var o := TopAt(t, s.pos, r);
      if o.Ok? && o.pos < |t| && multiple {
        EmitEmit(evs, o.evs, SaxAt(t, o.pos, r, multiple, true));
      }
    } else {
      assert evs + [] == evs;
    }
  }

  lemma SpaceStaysBehind(t: bytes, p: nat, r: Rules)
    requires p <= |t| && SeparatorEnd(t, p, r).Done?
    ensures Space(t, SeparatorEnd(t, p, r).pos, r) == Done((), SeparatorEnd(t, p, r).pos)
  {
    SpaceEndIdempotent(t, SeparatorEnd(t, p, r).pos, r.comments);
  }

  /**
   * What is accepted before trailing characters is read alike with further options, and then the text behind it,
   * by them: space, perhaps a comma and, behind a comma or where several values are allowed, more values.
   */
  lemma TrailingGoesOn(t: bytes, p: nat, r: Rules, r': Rules, multiple': bool)
    requires p <= |t| && Extends(r, r') && SaxAt(t, p, r, false, true).Ok?
    ensures var o := SaxAt(t, p, r, false, true);
      SaxAt(t, p, r', multiple', true) == Emit(o.evs, ReadOn(t, o.pos, r', multiple'))
  {
    hide SpaceEnd, TopAt;
    var w := Space(t, p, r);
    var o := TopAt(t, w.pos, r);
    TopStart(t, w.pos, r);
    SpaceExtends(t, p, r, r');
    TopGoesOn(t, w.pos, r, r');
    GoOnIs(t, o.pos, o.evs, r', multiple');
  }

  /** Whoever accepts delivers something. */
  lemma {:induction false} TopDelivers(t: bytes, p: nat, r: Rules)
    requires p <= |t| && TopAt(t, p, r).Ok?
    ensures TopAt(t, p, r).evs != []
    decreases |t| - p
  {
    hide SeparatorEnd, BodyAt, ScalarAt;
    assert ValueAt(t, p, 0, r).evs != [];
  }

  lemma SaxDelivers(t: bytes, p: nat, r: Rules, multiple: bool, trailing: bool)
    requires p <= |t| && SaxAt(t, p, r, multiple, trailing).Ok?
    ensures SaxAt(t, p, r, multiple, trailing).evs != []
  {
    hide TopAt, SpaceEnd;
    TopDelivers(t, Space(t, p, r).pos, r);
  }

  /**
   * So further options accept the text with the same events exactly if, skipping what they skip, nothing follows
   * that they want to read: no broken comment, no comma but one before a closing bracket, and, where several values
   * are allowed, nothing at all.
   */
  lemma TrailingAcceptMoreIff(t: bytes, p: nat, r: Rules, r': Rules, multiple': bool)
    requires p <= |t| && Extends(r, r') && SaxAt(t, p, r, false, true).Ok?
    ensures var o, o' := SaxAt(t, p, r, false, true), SaxAt(t, p, r', multiple', true);
      var s := SeparatorEnd(t, o.pos, r');
      o'.Ok? && o'.evs == o.evs <==> s.Done? && !s.val && (s.pos == |t| || !multiple')
  {
    hide SpaceEnd, SaxAt, SeparatorEnd;
    var o := SaxAt(t, p, r, false, true);
    var s := SeparatorEnd(t, o.pos, r');
    TrailingGoesOn(t, p, r, r', multiple');
    assert o.evs + [] == o.evs;
    if s.Done? && SaxAt(t, s.pos, r', multiple', true).Ok? {
      SaxDelivers(t, s.pos, r', multiple', true);
    }
  }

  // ----- The pull parser -----

  lemma {:induction false} PullFromExtends(t: bytes, p: nat, first: bool, r: Rules, r': Rules, multiple: bool, tail': Tail)
    requires p <= |t| && Extends(r, r') && (multiple ==> tail'.multiple)
    requires var x := PullFrom(t, p, first, r, Tail(multiple, false)); x.Ran? && x.o.Ok?
    ensures PullFrom(t, p, first, r', tail') == PullFrom(t, p, first, r, Tail(multiple, false))
    decreases |t| - p, 0
  {
    hide ScalarAt, PullBehind, BodyAt;
    var v := ValueAt(t, p, 0, r);
    ValueExtends(t, p, 0, r, r');
    PullBehindExtends(t, v.pos, r, r', multiple, tail');
    if !first {
      OpenersAreNoScalars(t, p, r');
    }
  }

  lemma {:induction false} PullBehindExtends(t: bytes, p: nat, r: Rules, r': Rules, multiple: bool, tail': Tail)
    requires p <= |t| && Extends(r, r') && (multiple ==> tail'.multiple)
    requires var x := PullBehind(t, p, r, Tail(multiple, false)); x.Ran? && x.o.Ok?
    ensures PullBehind(t, p, r', tail') == PullBehind(t, p, r, Tail(multiple, false))
    decreases |t| - p, 1
  {
    hide SpaceEnd, PullFrom;
    var e := Space(t, p, r);
    if e.pos < |t| {
      FromStart(t, e.pos, false, r, multiple);
      PullFromExtends(t, e.pos, false, r, r', multiple, tail');
    }
    SpaceExtends(t, p, r, r');
  }

  lemma FromStart(t: bytes, p: nat, first: bool, r: Rules, multiple: bool)
    requires p <= |t|
    requires var x := PullFrom(t, p, first, r, Tail(multiple, false)); x.Ran? && x.o.Ok?
    ensures At(t, p) != SLASH
  {
    hide PullBehind, ScalarAt;
    ValueStart(t, p, 0, r);
  }

  /** A text that the pull parser reads to its end is read so with any further options. */
  lemma PullAcceptsMore(t: bytes, r: Rules, r': Rules, multiple: bool, tail': Tail)
    requires r.pull && Extends(r, r') && (multiple ==> tail'.multiple)
    requires var x := Run(t, PullMachine.START, r, Tail(multiple, false)); x.Ran? && x.o.Ok?
    ensures Run(t, PullMachine.START, r', tail') == Run(t, PullMachine.START, r, Tail(multiple, false))
  {
    hide Run, SpaceEnd, PullFrom;
    PullIsDescent(t, r, Tail(multiple, false));
    PullIsDescent(t, r', tail');
    var w := Space(t, 0, r);
    FromStart(t, w.pos, true, r, multiple);
    SpaceExtends(t, 0, r, r');
    PullFromExtends(t, w.pos, true, r, r', multiple, tail');
  }

  /** A run up to a first value before trailing characters. */
  lemma FirstValue(t: bytes, r: Rules) returns (s: nat)
    requires r.pull
    requires var x := Run(t, PullMachine.START, r, Tail(false, true)); x.Ran? && x.o.Ok?
    ensures s <= |t| && Space(t, 0, r) == Done((), s) && ValueAt(t, s, 0, r).Ok?
    ensures Space(t, ValueAt(t, s, 0, r).pos, r).Done?
    ensures Run(t, PullMachine.START, r, Tail(false, true))
         == Ran(Ok(ValueAt(t, s, 0, r).evs, Space(t, ValueAt(t, s, 0, r).pos, r).pos))
  {
    hide Run, SpaceEnd, ValueAt, ScalarAt, PullBehind;
    PullIsDescent(t, r, Tail(false, true));
    var w := Space(t, 0, r);
    assert w.Done? && w.val == ();
    s := w.pos;
    var v := ValueAt(t, s, 0, r);
    FirstBehind(t, v.pos, r);
    assert v.evs + [] == v.evs;
  }

  lemma FirstBehind(t: bytes, p: nat, r: Rules)
    requires p <= |t|
    ensures var e := Space(t, p, r);
      PullBehind(t, p, r, Tail(false, true)) == Ran(if e.Fail? then Err([], e.pos, e.code) else Ok([], e.pos))
  {
  }

  lemma ValueDelivers(t: bytes, p: nat, r: Rules)
    requires p <= |t| && ValueAt(t, p, 0, r).Ok?
    ensures ValueAt(t, p, 0, r).evs != []
  {
    hide BodyAt, ScalarAt;
  }

  /** A further value is not read without its events. */
  lemma FurtherDelivers(t: bytes, p: nat, r: Rules, tail: Tail)
    requires p <= |t|
    ensures var x := PullFrom(t, p, false, r, tail); x.Ran? && x.o.Ok? ==> x.o.evs != []
  {
    hide ValueAt, ScalarAt, PullBehind;
    if ValueAt(t, p, 0, r).Ok? {
      ValueDelivers(t, p, r);
    }
  }

  /**
   * Before trailing characters further options deliver the same exactly if the space they skip is not broken and,
   * where several values are allowed, nothing follows it. A comma behind the value is not looked at.
   */
  lemma PullTrailingAcceptMoreIff(t: bytes, r: Rules, r': Rules, multiple': bool)
    requires r.pull && Extends(r, r')
    requires var x := Run(t, PullMachine.START, r, Tail(false, true)); x.Ran? && x.o.Ok?
    ensures var x := Run(t, PullMachine.START, r, Tail(false, true));
      var x' := Run(t, PullMachine.START, r', Tail(multiple', true));
      && x.o.pos <= |t|
      && (x'.Ran? && x'.o.Ok? && x'.o.evs == x.o.evs
          <==> Space(t, x.o.pos, r').Done? && (Space(t, x.o.pos, r').pos == |t| || !multiple'))
  {
    hide Run, SpaceEnd, ValueAt, ScalarAt, PullBehind;
    var s := FirstValue(t, r);
    var v := ValueAt(t, s, 0, r);
    ValueStart(t, s, 0, r);
    SpaceExtends(t, 0, r, r');
    ValueExtends(t, s, 0, r, r');
    PullIsDescent(t, r', Tail(multiple', true));
    SpaceThrough(t, v.pos, r, r');
    PullBehindIs(t, v.pos, r', multiple');
  }

  /** What is behind a value adds no events exactly if it is not read as a further value. */
  lemma PullBehindIs(t: bytes, p: nat, r: Rules, multiple: bool)
    requires p <= |t|
    ensures var x, e := PullBehind(t, p, r, Tail(multiple, true)), Space(t, p, r);
      x.Ran? && x.o.Ok? && x.o.evs == [] <==> e.Done? && (e.pos == |t| || !multiple)
  {
    hide SpaceEnd, PullFrom;
    var e := Space(t, p, r);
    if e.Done? && e.pos < |t| && multiple {
      FurtherDelivers(t, e.pos, r, Tail(multiple, true));
    }
  }
}
