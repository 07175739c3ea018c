/**
 * Which values can be printed, and what indentation adds: taking the white space outside strings out of
 * an indented text leaves the compact text.
 */
module Squeeze {
  import opened Base
  import opened Decimal
  import opened Text
  import opened Utf8
  import opened Escape
  import opened Events
  import opened Printing
  import Itoa
  import RealText

  // ----- Which values can be printed -----

  predicate EventEncodable(e: Event, validate: bool) {
    match e
    case Str(s) => EscapeFrom(s, 0, validate).ok
    case Key(k) => EscapeFrom(k, 0, validate).ok
    case _ => true
  }

  predicate AllEncodable(evs: seq<Event>, validate: bool) {
    forall i | 0 <= i < |evs| :: EventEncodable(evs[i], validate)
  }

  lemma PrintOk(f: Flags, e: Event, indent: nat, validate: bool)
    requires Printable(e)
    ensures Print(f, e, indent, validate).ok <==> EventEncodable(e, validate)
  {
  }

  lemma FirstAll(evs: seq<Event>, validate: bool)
    requires evs != []
    ensures AllPrintable(evs) <==> Printable(evs[0]) && AllPrintable(evs[1..])
    ensures AllEncodable(evs, validate) <==> EventEncodable(evs[0], validate) && AllEncodable(evs[1..], validate)
  {
    hide Printable, EventEncodable;
    assert evs == [evs[0]] + evs[1..];
  }

  lemma {:induction false} PrintAllOkIff(f: Flags, evs: seq<Event>, indent: nat, validate: bool)
    requires AllPrintable(evs)
    ensures PrintAll(f, evs, indent, validate).ok <==> AllEncodable(evs, validate)
    decreases |evs|
  {
    if evs != [] {
      hide Print, EventEncodable, Printable, AllEncodable, AllPrintable;
      var p := Print(f, evs[0], indent, validate);
      FirstAll(evs, validate);
      PrintOk(f, evs[0], indent, validate);
      PrintAllOkIff(p.next, evs[1..], indent, validate);
    }
  }

  lemma AllConcat(a: seq<Event>, b: seq<Event>, validate: bool)
    ensures AllPrintable(a + b) <==> AllPrintable(a) && AllPrintable(b)
    ensures AllEncodable(a + b, validate) <==> AllEncodable(a, validate) && AllEncodable(b, validate)
  {
    hide Printable, EventEncodable;
    var c := a + b;
    assert forall i | 0 <= i < |a| :: c[i] == a[i];
    assert forall i | 0 <= i < |b| :: c[|a| + i] == b[i];
  }

  lemma {:induction false} TreeAll(v: Tree, validate: bool)
    requires TreePrintable(v)
    ensures AllPrintable(TreeEvents(v)) && (AllEncodable(TreeEvents(v), validate) <==> Encodable(v, validate))
    decreases v
  {
    match v
    case ArrayTree(f) =>
      ForestAll(f, validate);
      BracketsAll(true, ForestEvents(f), validate);
    case ObjectTree(f) =>
      ForestAll(f, validate);
      BracketsAll(false, ForestEvents(f), validate);
    case _ =>
      assert TreeEvents(v) == [TreeEvents(v)[0]];
  }

  lemma BracketsAll(isArray: bool, evs: seq<Event>, validate: bool)
    ensures var all := [StartOf(isArray)] + (evs + [EndOf(isArray)]);
      && (AllPrintable(all) <==> AllPrintable(evs))
      && (AllEncodable(all, validate) <==> AllEncodable(evs, validate))
  {
    var start, end := [StartOf(isArray)], [EndOf(isArray)];
    assert AllPrintable(start) && AllPrintable(end) && AllEncodable(start, validate) && AllEncodable(end, validate);
    hide AllPrintable, AllEncodable;
    AllConcat(evs, end, validate);
    AllConcat(start, evs + end, validate);
  }

  lemma {:induction false} ForestAll(f: Forest, validate: bool)
    requires ForestPrintable(f)
    ensures AllPrintable(ForestEvents(f)) && (AllEncodable(ForestEvents(f), validate) <==> ForestEncodable(f, validate))
    decreases f
  {
    if f.Cons? {
      TreeAll(f.head, validate);
      ForestAll(f.tail, validate);
      assert f.key.Some? ==> KeyEvents(f.key)[0] == Key(f.key.value);
      AllConcat(TreeEvents(f.head), ForestEvents(f.tail), validate);
      AllConcat(KeyEvents(f.key), TreeEvents(f.head) + ForestEvents(f.tail), validate);
    }
  }

  /** Printing fails exactly where a string has to be valid UTF-8 and is not. */
  lemma PrintOkIff(f: Flags, v: Tree, indent: nat, validate: bool)
    requires TreePrintable(v)
    ensures AllPrintable(TreeEvents(v))
    ensures PrintAll(f, TreeEvents(v), indent, validate).ok <==> Encodable(v, validate)
  {
    TreeAll(v, validate);
    PrintAllOkIff(f, TreeEvents(v), indent, validate);
  }

  // ----- White space outside strings -----

  datatype Place = Outside | Within | Escaping

  function Move(s: Place, b: byte): Place {
    match s
    case Outside => if b == QUOTE then Within else Outside
    case Within => if b == QUOTE then Outside else if b == BACKSLASH then Escaping else Within
    case Escaping => Within
  }

  function MoveAll(s: Place, t: bytes): Place
    decreases |t|
  {
    if t == [] then s else MoveAll(Move(s, t[0]), t[1..])
  }

  /** The text without the white space outside strings. */
  function Squeezed(s: Place, t: bytes): bytes
    decreases |t|
  {
    if t == [] then []
    else (if s.Outside? && IsBlank(t[0]) then [] else [t[0]]) + Squeezed(Move(s, t[0]), t[1..])
  }

  /** The text leads from one place to another and loses what it has to lose. */
  predicate Squeezes(s: Place, t: bytes, u: bytes, s': Place) {
    Squeezed(s, t) == u && MoveAll(s, t) == s'
  }

  lemma {:induction false} SqueezeConcat(s: Place, a: bytes, b: bytes)
    ensures Squeezed(s, a + b) == Squeezed(s, a) + Squeezed(MoveAll(s, a), b)
    ensures MoveAll(s, a + b) == MoveAll(MoveAll(s, a), b)
    decreases |a|
  {
    if a == [] {
      assert a + b == b;
    } else {
      assert (a + b)[1..] == a[1..] + b;
      SqueezeConcat(Move(s, a[0]), a[1..], b);
      Assoc(if s.Outside? && IsBlank(a[0]) then [] else [a[0]], Squeezed(Move(s, a[0]), a[1..]),
        Squeezed(MoveAll(s, a), b));
    }
  }

  lemma Joined(s: Place, a: bytes, a': bytes, m: Place, b: bytes, b': bytes, e: Place)
    requires Squeezes(s, a, a', m) && Squeezes(m, b, b', e)
    ensures Squeezes(s, a + b, a' + b', e)
  {
    SqueezeConcat(s, a, b);
  }

  lemma OneByte(s: Place, b: byte)
    requires !(s.Outside? && IsBlank(b))
    ensures Squeezes(s, [b], [b], Move(s, b))
  {
    assert [b][1..] == [];
  }

  /** Text of neither white space nor quotes stays as it is. */
  predicate Solid(t: bytes) {
    forall i | 0 <= i < |t| :: t[i] > QUOTE
  }

  lemma {:induction false} SolidStays(t: bytes)
    requires Solid(t)
    ensures Squeezes(Outside, t, t, Outside)
    decreases |t|
  {
    if t != [] {
      SolidStays(t[1..]);
      assert t == [t[0]] + t[1..];
    }
  }

  lemma {:induction false} SpacesGo(n: nat)
    ensures Squeezes(Outside, Spaces(n), [], Outside)
    decreases n
  {
    if n > 0 {
      assert Spaces(n)[1..] == Spaces(n - 1);
      SpacesGo(n - 1);
    }
  }

  lemma BreakGoes(indent: nat, level: nat)
    ensures Squeezes(Outside, Break(indent, level), [], Outside)
  {
    if indent > 0 {
      SpacesGo(indent * level % TWO32);
      assert Break(indent, level)[1..] == Indentation(indent, level);
    }
  }

  /** Bytes that neither end a string nor start an escape. */
  lemma {:induction false} WithinStays(t: bytes)
    requires forall i | 0 <= i < |t| :: t[i] != QUOTE && t[i] != BACKSLASH
    ensures Squeezes(Within, t, t, Within)
    decreases |t|
  {
    if t != [] {
      WithinStays(t[1..]);
      assert t == [t[0]] + t[1..];
    }
  }

  lemma ByteStays(b: byte)
    ensures Squeezes(Within, ByteText(b), ByteText(b), Within)
  {
    OneByte(Within, BACKSLASH);
    if !MustEscape(b) {
      OneByte(Within, b);
    } else if ShortEscape(b) != 0 {
      OneByte(Escaping, ShortEscape(b));
      Joined(Within, [BACKSLASH], [BACKSLASH], Escaping, [ShortEscape(b)], [ShortEscape(b)], Within);
      assert [BACKSLASH] + [ShortEscape(b)] == ByteText(b);
    } else {
      var hex := [0x30, 0x30, HexDigit(b / 16 % 16), HexDigit(b % 16)];
      OneByte(Escaping, 'u' as int);
      WithinStays(hex);
      Joined(Escaping, ['u' as int], ['u' as int], Within, hex, hex, Within);
      Joined(Within, [BACKSLASH], [BACKSLASH], Escaping, ['u' as int] + hex, ['u' as int] + hex, Within);
      assert [BACKSLASH] + (['u' as int] + hex) == ByteText(b);
    }
  }

  /** An escaped string holds no quote that would end it. */
  lemma {:induction false} EscapedStays(s: bytes, p: nat, validate: bool)
    requires p <= |s|
    ensures Squeezes(Within, EscapeFrom(s, p, validate).text, EscapeFrom(s, p, validate).text, Within)
    decreases |s| - p
  {
    if p == |s| {
    } else if validate && s[p] >= 0x80 {
      if SequenceLength(s, p) != -1 {
        SequenceHigh(s, p);
        var q := p + SequenceLength(s, p);
        WithinStays(s[p..q]);
        EscapedStays(s, q, validate);
        var rest := EscapeFrom(s, q, validate).text;
        Joined(Within, s[p..q], s[p..q], Within, rest, rest, Within);
      }
    } else {
      ByteStays(s[p]);
      EscapedStays(s, p + 1, validate);
      var rest := EscapeFrom(s, p + 1, validate).text;
      Joined(Within, ByteText(s[p]), ByteText(s[p]), Within, rest, rest, Within);
    }
  }

  lemma QuotedStays(s: bytes, validate: bool)
    ensures Squeezes(Outside, Quoted(s, validate), Quoted(s, validate), Outside)
  {
    var e := EscapeFrom(s, 0, validate).text;
    EscapedStays(s, 0, validate);
    OneByte(Outside, QUOTE);
    OneByte(Within, QUOTE);
    Joined(Outside, [QUOTE], [QUOTE], Within, e, e, Within);
    Joined(Outside, [QUOTE] + e, [QUOTE] + e, Within, [QUOTE], [QUOTE], Outside);
  }

  // ----- Indented and compact text -----

  lemma SolidConcat(a: bytes, b: bytes)
    ensures Solid(a + b) <==> Solid(a) && Solid(b)
  {
    var c := a + b;
    assert forall i | 0 <= i < |a| :: c[i] == a[i];
    assert forall i | 0 <= i < |b| :: c[|a| + i] == b[i];
  }

  lemma IntegerSolid(n: int)
    ensures Solid(Itoa.IntegerText(n))
  {
  }

  lemma CoreSolid(core: bytes, k: nat)
    requires AllDigits(core)
    ensures Solid(RealText.FractionText(core, k)) && Solid(RealText.WholeText(core, k, true))
    ensures k <= |core| ==> Solid(RealText.PointText(core, k))
  {
  }

  lemma ScientificSolid(core: bytes, exponent: int)
    requires AllDigits(core) && core != [] && -20000 <= exponent <= 20000
    ensures Solid(RealText.ScientificText(core, exponent))
  {
    var k := if exponent < 0 then 0 - exponent else exponent;
    assert Solid(RealText.ExponentDigits(k));
    hide RealText.ExponentDigits;
  }

  lemma DigitsTextSolid(sig: nat, exp: int)
    requires RealText.IsShortest(sig, exp) && sig > 0
    ensures Solid(RealText.DigitsText(sig, exp, true))
  {
    hide Solid, RealText.Core, RealText.ScientificText, RealText.FractionText, RealText.PointText, RealText.WholeText;
    RealText.CoreNotEmpty(sig);
    RealText.AtMost17(sig);
    var core, point := RealText.Core(sig), NumDigits(sig) + exp;
    if !RealText.IsFixed(point) {
      ScientificSolid(core, point - 1);
    } else if point <= 0 {
      CoreSolid(core, 0 - point);
    } else if point < |core| {
      CoreSolid(core, point);
    } else {
      CoreSolid(core, point - |core|);
    }
  }

  lemma DoubleSolid(neg: bool, sig: nat, exp: int)
    requires RealText.IsShortest(sig, exp)
    ensures Solid(RealText.DoubleText(neg, sig, exp))
  {
    if sig > 0 {
      DigitsTextSolid(sig, exp);
      hide RealText.DigitsText;
      SolidConcat(if neg then ['-' as int] else [], RealText.DigitsText(sig, exp, true));
    }
  }

  /** Inside a value only breaks and the space behind a colon are dropped. */
  lemma {:induction false} TreeSqueezes(v: Tree, level: nat, indent: nat, validate: bool)
    requires TreePrintable(v)
    ensures Squeezes(Outside, TreeText(v, level, indent, validate), TreeText(v, level, 0, validate), Outside)
    decreases v
  {
    match v
    case IntegerTree(n) =>
      IntegerSolid(n);
      SolidStays(Itoa.IntegerText(n));
    case RealTree(neg, sig, exp) =>
      DoubleSolid(neg, sig, exp);
      SolidStays(RealText.DoubleText(neg, sig, exp));
    case StringTree(s) =>
      QuotedStays(s, validate);
    case ArrayTree(f) =>
      ForestSqueezes(f, level + 1, indent, validate);
      BracketsSqueeze(true, f, level, indent, validate);
    case ObjectTree(f) =>
      ForestSqueezes(f, level + 1, indent, validate);
      BracketsSqueeze(false, f, level, indent, validate);
    case _ =>
      SolidStays(TreeText(v, level, indent, validate));
  }

  lemma BracketsSqueeze(isArray: bool, f: Forest, level: nat, indent: nat, validate: bool)
    requires ForestPrintable(f)
    requires Squeezes(Outside, ForestText(f, level + 1, indent, validate), ForestText(f, level + 1, 0, validate), Outside)
    ensures Squeezes(Outside, BracketText(isArray, f, ForestText(f, level + 1, indent, validate), level, indent),
      BracketText(isArray, f, ForestText(f, level + 1, 0, validate), level, 0), Outside)
  {
    var inner, inner' := ForestText(f, level + 1, indent, validate), ForestText(f, level + 1, 0, validate);
    var open, close := [Opener(isArray)], [Closer(isArray)];
    var gap := if f.Nil? then [] else Break(indent, level);
    BreakGoes(indent, level);
    OneByte(Outside, Opener(isArray));
    OneByte(Outside, Closer(isArray));
    hide Squeezes, Break, ForestText;
    Joined(Outside, inner, inner', Outside, gap, [], Outside);
    Joined(Outside, inner + gap, inner' + [], Outside, close, close, Outside);
    Joined(Outside, open, open, Outside, inner + gap + close, inner' + [] + close, Outside);
  }

  lemma ColonSqueezes(indent: nat)
    ensures Squeezes(Outside, ColonText(indent), ColonText(0), Outside)
  {
    SolidStays([':' as int]);
    SpacesGo(1);
    assert Spaces(1) == [' ' as int];
    Joined(Outside, [':' as int], [':' as int], Outside, [' ' as int], [], Outside);
    assert [':' as int] + [' ' as int] == [':' as int, ' ' as int];
    assert [':' as int] + [] == [':' as int];
  }

  lemma KeySqueezes(key: Option<bytes>, indent: nat, validate: bool)
    ensures Squeezes(Outside, KeyText(key, indent, validate), KeyText(key, 0, validate), Outside)
  {
    if key.Some? {
      var q := Quoted(key.value, validate);
      QuotedStays(key.value, validate);
      ColonSqueezes(indent);
      Joined(Outside, q, q, Outside, ColonText(indent), ColonText(0), Outside);
    }
  }

  lemma {:induction false} ForestSqueezes(f: Forest, level: nat, indent: nat, validate: bool)
    requires ForestPrintable(f)
    ensures Squeezes(Outside, ForestText(f, level, indent, validate), ForestText(f, level, 0, validate), Outside)
    decreases f
  {
    if f.Cons? {
      var gap, key, key' := Break(indent, level), KeyText(f.key, indent, validate), KeyText(f.key, 0, validate);
      var tree, tree' := TreeText(f.head, level, indent, validate), TreeText(f.head, level, 0, validate);
      var comma := if f.tail.Nil? then [] else [',' as int];
      var rest, rest' := ForestText(f.tail, level, indent, validate), ForestText(f.tail, level, 0, validate);
      BreakGoes(indent, level);
      KeySqueezes(f.key, indent, validate);
      TreeSqueezes(f.head, level, indent, validate);
      SolidStays(comma);
      ForestSqueezes(f.tail, level, indent, validate);
      hide Squeezes;
      FiveSqueeze(gap, key, key', tree, tree', comma, rest, rest');
    }
  }

  lemma FiveSqueeze(a: bytes, b: bytes, b': bytes, c: bytes, c': bytes, d: bytes, e: bytes, e': bytes)
    requires Squeezes(Outside, a, [], Outside) && Squeezes(Outside, b, b', Outside) && Squeezes(Outside, c, c', Outside)
    requires Squeezes(Outside, d, d, Outside) && Squeezes(Outside, e, e', Outside)
    ensures Squeezes(Outside, a + b + c + d + e, [] + b' + c' + d + e', Outside)
  {
    hide Squeezes;
    Joined(Outside, a, [], Outside, b, b', Outside);
    Joined(Outside, a + b, [] + b', Outside, c, c', Outside);
    Joined(Outside, a + b + c, [] + b' + c', Outside, d, d, Outside);
    Joined(Outside, a + b + c + d, [] + b' + c' + d, Outside, e, e', Outside);
  }

  /** Taking the white space outside strings out of an indented text leaves the compact text. */
  lemma PrettyIsCompact(v: Tree, indent: nat, validate: bool)
    requires TreePrintable(v)
    ensures Squeezed(Outside, TreeText(v, 0, indent, validate)) == TreeText(v, 0, 0, validate)
  {
    TreeSqueezes(v, 0, indent, validate);
  }
}
