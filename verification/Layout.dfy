/**
 * The lines of an indented text: it is the compact text with line feeds and spaces put in by a scan of its bytes
 * that only knows strings, brackets, commas and colons.
 */
module Layout {
  import opened Base
  import opened Text
  import opened Utf8
  import opened Escape
  import opened Events
  import opened Printing
  import opened Squeeze
  import opened Decimal
  import Itoa
  import RealText
  import RoundTrip

  predicate Opens(b: byte) {
    b == 0x5B || b == 0x7B
  }

  predicate Closes(b: byte) {
    b == 0x5D || b == 0x7D
  }

  /** How many brackets are open behind a byte, if n were before it. */
  function Opened(s: Place, n: nat, b: byte): nat {
    if s.Outside? && Opens(b) then n + 1
    else if s.Outside? && Closes(b) && n > 0 then n - 1
    else n
  }

  /** The level of a line that starts with c, inside n brackets. */
  function LevelOf(n: nat, c: byte): nat {
    if Closes(c) && n > 0 then n - 1 else n
  }

  /** A line feed and the spaces of a level; the product is a 32-bit unsigned number. */
  function Line(indent: nat, level: nat): bytes {
    [0x0A] + seq(indent * level % 0x1_0000_0000, i => 0x20)
  }

  /**
   * What indentation puts between the bytes b and c: a line behind a comma, behind an opening bracket and before a
   * closing one, but nothing inside an empty container; and a space behind a colon.
   */
  function Between(s: Place, n: nat, b: byte, c: byte, indent: nat): bytes {
    if indent == 0 || !Move(s, b).Outside? then []
    else if s.Outside? && b == 0x3A then [0x20]
    else if s.Outside? && Opens(b) then if Closes(c) then [] else Line(indent, n + 1)
    else if (s.Outside? && b == 0x2C) || Closes(c) then Line(indent, LevelOf(Opened(s, n, b), c))
    else []
  }

  /** The text with the indentation put in; next is the byte that follows it. */
  function Spread(s: Place, n: nat, t: bytes, next: byte, indent: nat): bytes
    decreases |t|
  {
    if t == [] then []
    else
      [t[0]] + Between(s, n, t[0], if |t| > 1 then t[1] else next, indent)
      + Spread(Move(s, t[0]), Opened(s, n, t[0]), t[1..], next, indent)
  }

  /** How many brackets are open behind a text. */
  function OpenedAll(s: Place, n: nat, t: bytes): nat
    decreases |t|
  {
    if t == [] then n else OpenedAll(Move(s, t[0]), Opened(s, n, t[0]), t[1..])
  }

  function FirstOf(t: bytes, next: byte): byte {
    if t == [] then next else t[0]
  }

  /** The text leads from inside n brackets to inside n' and becomes u. */
  predicate Spreads(s: Place, n: nat, t: bytes, next: byte, indent: nat, u: bytes, s': Place, n': nat) {
    Spread(s, n, t, next, indent) == u && MoveAll(s, t) == s' && OpenedAll(s, n, t) == n'
  }

  lemma {:induction false} SpreadConcat(s: Place, n: nat, a: bytes, b: bytes, next: byte, indent: nat)
    ensures Spread(s, n, a + b, next, indent) ==
      Spread(s, n, a, FirstOf(b, next), indent) + Spread(MoveAll(s, a), OpenedAll(s, n, a), b, next, indent)
    ensures MoveAll(s, a + b) == MoveAll(MoveAll(s, a), b)
    ensures OpenedAll(s, n, a + b) == OpenedAll(MoveAll(s, a), OpenedAll(s, n, a), b)
    decreases |a|
  {
    if a == [] {
      assert a + b == b;
      assert [] + Spread(s, n, b, next, indent) == Spread(s, n, b, next, indent);
    } else {
      hide Between, Move, Opened;
      assert (a + b)[1..] == a[1..] + b;
      SpreadConcat(Move(s, a[0]), Opened(s, n, a[0]), a[1..], b, next, indent);
      var c := if |a| > 1 then a[1] else FirstOf(b, next);
      assert c == if |a + b| > 1 then (a + b)[1] else next;
      Assoc([a[0]] + Between(s, n, a[0], c, indent),
        Spread(Move(s, a[0]), Opened(s, n, a[0]), a[1..], FirstOf(b, next), indent),
        Spread(MoveAll(s, a), OpenedAll(s, n, a), b, next, indent));
    }
  }

  lemma Joins(s: Place, n: nat, a: bytes, u: bytes, s': Place, n': nat, b: bytes, v: bytes, s'': Place, n'': nat,
      next: byte, indent: nat)
    requires Spreads(s, n, a, FirstOf(b, next), indent, u, s', n') && Spreads(s', n', b, next, indent, v, s'', n'')
    ensures Spreads(s, n, a + b, next, indent, u + v, s'', n'')
  {
    SpreadConcat(s, n, a, b, next, indent);
  }

  lemma OneSpreads(s: Place, n: nat, b: byte, next: byte, indent: nat)
    ensures Spreads(s, n, [b], next, indent, [b] + Between(s, n, b, next, indent), Move(s, b), Opened(s, n, b))
  {
    assert [b][1..] == [];
    assert [b] + Between(s, n, b, next, indent) + [] == [b] + Between(s, n, b, next, indent);
  }

  // ----- Words, numbers and strings -----

  /** What comes behind a value: a line before a closing bracket. */
  function Tail(n: nat, next: byte, indent: nat): bytes {
    if indent > 0 && Closes(next) then Line(indent, LevelOf(n, next)) else []
  }

  /** Bytes that neither are structure nor start a string. */
  predicate Bare(t: bytes) {
    forall i | 0 <= i < |t| :: t[i] !in {0x22, 0x2C, 0x3A, 0x5B, 0x5D, 0x7B, 0x7D}
  }

  lemma {:induction false} BareSpreads(n: nat, t: bytes, next: byte, indent: nat)
    requires Bare(t) && t != []
    ensures Spreads(Outside, n, t, next, indent, t + Tail(n, next, indent), Outside, n)
    decreases |t|
  {
    var b := t[0];
    if |t| == 1 {
      assert t == [b];
      OneSpreads(Outside, n, b, next, indent);
    } else {
      var rest := t[1..];
      assert t == [b] + rest;
      BareSpreads(n, rest, next, indent);
      OneSpreads(Outside, n, b, rest[0], indent);
      Joins(Outside, n, [b], [b], Outside, n, rest, rest + Tail(n, next, indent), Outside, n, next, indent);
      Assoc([b], rest, Tail(n, next, indent));
    }
  }

  /** No quote ends the string. */
  predicate StaysInside(s: Place, t: bytes)
    decreases |t|
  {
    !s.Outside? && (t != [] ==> StaysInside(Move(s, t[0]), t[1..]))
  }

  /** Nothing is put into a string. */
  lemma {:induction false} InsideSpreads(s: Place, n: nat, t: bytes, next: byte, indent: nat)
    requires StaysInside(s, t)
    ensures Spreads(s, n, t, next, indent, t, MoveAll(s, t), n)
    decreases |t|
  {
    if t != [] {
      assert t == [t[0]] + t[1..];
      assert StaysInside(Move(s, t[0]), t[1..]);
      InsideSpreads(Move(s, t[0]), n, t[1..], next, indent);
    }
  }

  lemma {:induction false} InsideConcat(s: Place, a: bytes, b: bytes)
    requires StaysInside(s, a) && StaysInside(MoveAll(s, a), b)
    ensures StaysInside(s, a + b)
    decreases |a|
  {
    if a == [] {
      assert a + b == b;
    } else {
      assert (a + b)[1..] == a[1..] + b;
      InsideConcat(Move(s, a[0]), a[1..], b);
    }
  }

  lemma {:induction false} PlainInside(t: bytes)
    requires forall i | 0 <= i < |t| :: t[i] != QUOTE && t[i] != BACKSLASH
    ensures StaysInside(Within, t)
    decreases |t|
  {
    if t != [] {
      PlainInside(t[1..]);
    }
  }

  lemma ByteInside(b: byte)
    ensures StaysInside(Within, ByteText(b)) && MoveAll(Within, ByteText(b)) == Within
  {
    ByteStays(b);
    if !MustEscape(b) {
      PlainInside([b]);
    } else {
      var text := ByteText(b);
      assert text == [BACKSLASH, text[1]] + text[2..];
      PlainInside(text[2..]);
      EscapeInside(text[1]);
      InsideConcat(Within, [BACKSLASH, text[1]], text[2..]);
    }
  }

  lemma EscapeInside(e: byte)
    ensures StaysInside(Within, [BACKSLASH, e]) && MoveAll(Within, [BACKSLASH, e]) == Within
  {
    assert [BACKSLASH, e][1..] == [e] && [e][1..] == [];
    assert MoveAll(Escaping, [e]) == Within && StaysInside(Escaping, [e]);
  }

  lemma {:induction false} EscapedInside(s: bytes, p: nat, validate: bool)
    requires p <= |s|
    ensures var e := EscapeFrom(s, p, validate).text; StaysInside(Within, e) && MoveAll(Within, e) == Within
    decreases |s| - p
  {
    EscapedStays(s, p, validate);
    if p == |s| {
    } else if validate && s[p] >= 0x80 {
      if SequenceLength(s, p) != -1 {
        SequenceHigh(s, p);
        var q := p + SequenceLength(s, p);
        PlainInside(s[p..q]);
        WithinStays(s[p..q]);
        EscapedInside(s, q, validate);
        InsideConcat(Within, s[p..q], EscapeFrom(s, q, validate).text);
      }
    } else {
      ByteInside(s[p]);
      EscapedInside(s, p + 1, validate);
      InsideConcat(Within, ByteText(s[p]), EscapeFrom(s, p + 1, validate).text);
    }
  }

  lemma QuoteOpens(n: nat, next: byte, indent: nat)
    ensures Spreads(Outside, n, [QUOTE], next, indent, [QUOTE], Within, n)
  {
    OneSpreads(Outside, n, QUOTE, next, indent);
  }

  lemma QuoteCloses(n: nat, next: byte, indent: nat)
    ensures Spreads(Within, n, [QUOTE], next, indent, [QUOTE] + Tail(n, next, indent), Outside, n)
  {
    OneSpreads(Within, n, QUOTE, next, indent);
  }

  lemma QuotedSpreads(n: nat, s: bytes, validate: bool, next: byte, indent: nat)
    ensures Spreads(Outside, n, Quoted(s, validate), next, indent, Quoted(s, validate) + Tail(n, next, indent), Outside, n)
  {
    var e, tail := EscapeFrom(s, 0, validate).text, Tail(n, next, indent);
    EscapedInside(s, 0, validate);
    InsideSpreads(Within, n, e, QUOTE, indent);
    hide Spreads, EscapeFrom, Tail;
    QuoteOpens(n, FirstOf(e + [QUOTE], next), indent);
    QuoteCloses(n, next, indent);
    Joins(Within, n, e, e, Within, n, [QUOTE], [QUOTE] + tail, Outside, n, next, indent);
    Joins(Outside, n, [QUOTE], [QUOTE], Within, n, e + [QUOTE], e + ([QUOTE] + tail), Outside, n, next, indent);
    Requoted(e, tail);
  }

  lemma Requoted(e: bytes, tail: bytes)
    ensures [QUOTE] + (e + [QUOTE]) == [QUOTE] + e + [QUOTE]
    ensures [QUOTE] + (e + ([QUOTE] + tail)) == [QUOTE] + e + [QUOTE] + tail
  {
  }

  /** Every real is printed as a number (RealText.TextIsNumberIff). */
  predicate RealsInRange(v: Tree) {
    match v
    case RealTree(_, sig, exp) => RealText.InRange(sig, exp)
    case ArrayTree(f) => ForestInRange(f)
    case ObjectTree(f) => ForestInRange(f)
    case _ => true
  }

  predicate ForestInRange(f: Forest) {
    f.Cons? ==> RealsInRange(f.head) && ForestInRange(f.tail)
  }

  lemma RealBare(neg: bool, sig: nat, exp: int)
    requires RealText.IsShortest(sig, exp) && RealText.InRange(sig, exp)
    ensures Bare(RealText.DoubleText(neg, sig, exp)) && RealText.DoubleText(neg, sig, exp) != []
  {
    var c, scale := RealText.DoubleReadsBack(neg, sig, exp);
    RealText.LiteralBytes(RealText.DoubleLiteral(neg, sig, exp));
    hide RealText.DoubleText, RealText.DoubleLiteral;
  }

  lemma WordsBare(v: Tree, level: nat, indent: nat, validate: bool)
    requires TreePrintable(v) && RealsInRange(v) && !IsContainer(v) && !v.StringTree?
    ensures Bare(TreeText(v, level, indent, validate)) && TreeText(v, level, indent, validate) != []
  {
    hide RealText.DoubleText, RealText.IsShortest, RealText.InRange;
    if v.RealTree? {
      RealBare(v.neg, v.sig, v.exp);
    }
  }

  lemma ScalarSpreads(v: Tree, level: nat, indent: nat, validate: bool, next: byte)
    requires TreePrintable(v) && RealsInRange(v) && !IsContainer(v)
    ensures TreeSpread(v, level, indent, validate, next)
  {
    if v.StringTree? {
      QuotedSpreads(level, v.s, validate, next, indent);
    } else {
      WordsBare(v, level, 0, validate);
      BareSpreads(level, TreeText(v, level, 0, validate), next, indent);
    }
  }

  // ----- Containers -----

  /** The compact text of a value becomes the indented one, and a line where a closing bracket follows. */
  predicate TreeSpread(v: Tree, level: nat, indent: nat, validate: bool, next: byte)
    requires TreePrintable(v)
  {
    Spreads(Outside, level, TreeText(v, level, 0, validate), next, indent,
      TreeText(v, level, indent, validate) + Tail(level, next, indent), Outside, level)
  }

  /** The items of a container; the line of the first one is put in behind the bracket before them. */
  predicate ForestSpread(f: Forest, level: nat, indent: nat, validate: bool, next: byte)
    requires ForestPrintable(f)
  {
    var t := ForestText(f, level, 0, validate);
    && MoveAll(Outside, t) == Outside && OpenedAll(Outside, level, t) == level
    && Break(indent, level) + Spread(Outside, level, t, next, indent)
      == ForestText(f, level, indent, validate) + Tail(level, next, indent)
  }

  lemma LineIsBreak(indent: nat, level: nat)
    ensures Break(indent, level) == if indent > 0 then Line(indent, level) else []
  {
    if indent > 0 {
      assert Indentation(indent, level) == seq(indent * level % 0x1_0000_0000, i => 0x20);
    }
  }

  /** No value starts with a closing bracket or a comma. */
  lemma TextStarts(v: Tree, level: nat, indent: nat, validate: bool)
    requires TreePrintable(v) && RealsInRange(v)
    ensures var t := TreeText(v, level, indent, validate); t != [] && !Closes(t[0])
  {
    if !IsContainer(v) && !v.StringTree? {
      WordsBare(v, level, indent, validate);
    }
  }

  lemma {:induction false} TreeSpreads(v: Tree, level: nat, indent: nat, validate: bool, next: byte)
    requires TreePrintable(v) && RealsInRange(v)
    ensures TreeSpread(v, level, indent, validate, next)
    decreases v
  {
    match v
    case ArrayTree(f) =>
      if f.Cons? {
        ForestSpreads(f, level + 1, indent, validate, Closer(true));
      }
      ContainerSpreads(true, f, level, indent, validate, next);
    case ObjectTree(f) =>
      if f.Cons? {
        ForestSpreads(f, level + 1, indent, validate, Closer(false));
      }
      ContainerSpreads(false, f, level, indent, validate, next);
    case _ =>
      ScalarSpreads(v, level, indent, validate, next);
  }

  lemma OpenSpreads(isArray: bool, n: nat, next: byte, indent: nat)
    ensures Spreads(Outside, n, [Opener(isArray)], next, indent,
      [Opener(isArray)] + (if Closes(next) then [] else Break(indent, n + 1)), Outside, n + 1)
  {
    OneSpreads(Outside, n, Opener(isArray), next, indent);
    LineIsBreak(indent, n + 1);
  }

  lemma CloseSpreads(isArray: bool, n: nat, next: byte, indent: nat)
    ensures Spreads(Outside, n + 1, [Closer(isArray)], next, indent, [Closer(isArray)] + Tail(n, next, indent), Outside, n)
  {
    OneSpreads(Outside, n + 1, Closer(isArray), next, indent);
  }

  lemma EmptyText(isArray: bool, level: nat, indent: nat, validate: bool)
    ensures TreeText(if isArray then ArrayTree(Nil) else ObjectTree(Nil), level, indent, validate)
         == [Opener(isArray)] + [Closer(isArray)]
  {
    assert [Opener(isArray)] + ([] + [] + [Closer(isArray)]) == [Opener(isArray)] + [Closer(isArray)];
  }

  lemma EmptySpreads(isArray: bool, level: nat, indent: nat, validate: bool, next: byte)
    ensures TreeSpread(if isArray then ArrayTree(Nil) else ObjectTree(Nil), level, indent, validate, next)
  {
    var open, close := [Opener(isArray)], [Closer(isArray)];
    var tail := Tail(level, next, indent);
    CloseSpreads(isArray, level, next, indent);
    OpenSpreads(isArray, level, Closer(isArray), indent);
    EmptyText(isArray, level, 0, validate);
    EmptyText(isArray, level, indent, validate);
    hide Spreads, Tail, TreeText;
    assert open + [] == open;
    Joins(Outside, level, open, open, Outside, level + 1, close, close + tail, Outside, level, next, indent);
    Assoc(open, close, tail);
  }

  lemma ContainerSpreads(isArray: bool, f: Forest, level: nat, indent: nat, validate: bool, next: byte)
    requires ForestPrintable(f) && ForestInRange(f)
    requires f.Cons? ==> ForestSpread(f, level + 1, indent, validate, Closer(isArray))
    ensures TreeSpread(if isArray then ArrayTree(f) else ObjectTree(f), level, indent, validate, next)
  {
    if f.Nil? {
      EmptySpreads(isArray, level, indent, validate, next);
    } else {
      FilledSpreads(isArray, f, level, indent, validate, next);
    }
  }

  lemma FilledSpreads(isArray: bool, f: Forest, level: nat, indent: nat, validate: bool, next: byte)
    requires f.Cons? && ForestPrintable(f) && ForestInRange(f)
    requires ForestSpread(f, level + 1, indent, validate, Closer(isArray))
    ensures TreeSpread(if isArray then ArrayTree(f) else ObjectTree(f), level, indent, validate, next)
  {
    hide Spread, MoveAll, OpenedAll, ForestText, Tail, Break, Closes, ForestPrintable, ForestInRange;
    var open, close, tail := [Opener(isArray)], [Closer(isArray)], Tail(level, next, indent);
    var t, u := ForestText(f, level + 1, 0, validate), ForestText(f, level + 1, indent, validate);
    var inner := Spread(Outside, level + 1, t, Closer(isArray), indent);
    ForestStarts(f, level + 1, validate);
    CloserTail(level, indent, isArray);
    CloseSpreads(isArray, level, next, indent);
    OpenSpreads(isArray, level, t[0], indent);
    Joins(Outside, level + 1, t, inner, Outside, level + 1, close, close + tail, Outside, level, next, indent);
    Joins(Outside, level, open, open + Break(indent, level + 1), Outside, level + 1, t + close, inner + (close + tail),
      Outside, level, next, indent);
    Brackets(open, Break(indent, level + 1), inner, t, u, Break(indent, level), Break(0, level), close, tail);
  }

  lemma CloserTail(level: nat, indent: nat, isArray: bool)
    ensures Tail(level + 1, Closer(isArray), indent) == Break(indent, level) && Break(0, level) == []
  {
    LineIsBreak(indent, level);
  }

  lemma Brackets(open: bytes, before: bytes, inner: bytes, t: bytes, u: bytes, after: bytes, none: bytes, close: bytes, tail: bytes)
    requires before + inner == u + after && none == []
    ensures open + (t + close) == open + (t + none + close)
    ensures open + before + (inner + (close + tail)) == open + (u + after + close) + tail
  {
    assert open + before + (inner + (close + tail)) == open + (before + inner) + (close + tail);
    assert t + none == t;
  }

  lemma ForestStarts(f: Forest, level: nat, validate: bool)
    requires f.Cons? && ForestPrintable(f) && ForestInRange(f)
    ensures var t := ForestText(f, level, 0, validate); t != [] && !Closes(t[0])
  {
    TextStarts(f.head, level, 0, validate);
    hide TreeText;
  }

  lemma ColonSpreads(n: nat, next: byte, indent: nat)
    requires !Closes(next)
    ensures Spreads(Outside, n, ColonText(0), next, indent, ColonText(indent), Outside, n)
  {
    OneSpreads(Outside, n, 0x3A, next, indent);
    assert [0x3A] + [0x20] == [0x3A, 0x20];
  }

  lemma KeySpreads(key: Option<bytes>, n: nat, validate: bool, next: byte, indent: nat)
    requires !Closes(next)
    ensures Spreads(Outside, n, KeyText(key, 0, validate), next, indent, KeyText(key, indent, validate), Outside, n)
  {
    if key.Some? {
      var q := Quoted(key.value, validate);
      QuotedSpreads(n, key.value, validate, 0x3A, indent);
      assert q + [] == q;
      ColonSpreads(n, next, indent);
      hide Spreads, Quoted, ColonText;
      ColonStarts(next);
      Joins(Outside, n, q, q, Outside, n, ColonText(0), ColonText(indent), Outside, n, next, indent);
    }
  }

  lemma ColonStarts(next: byte)
    ensures FirstOf(ColonText(0), next) == 0x3A
  {
  }

  lemma CommaSpreads(n: nat, next: byte, indent: nat)
    requires !Closes(next)
    ensures Spreads(Outside, n, [0x2C], next, indent, [0x2C] + Break(indent, n), Outside, n)
  {
    OneSpreads(Outside, n, 0x2C, next, indent);
    LineIsBreak(indent, n);
  }

  lemma CommaTail(n: nat, indent: nat)
    ensures Tail(n, 0x2C, indent) == []
  {
  }

  lemma {:induction false} ForestSpreads(f: Forest, level: nat, indent: nat, validate: bool, next: byte)
    requires f.Cons? && ForestPrintable(f) && ForestInRange(f)
    ensures ForestSpread(f, level, indent, validate, next)
    decreases f
  {
    TextStarts(f.head, level, 0, validate);
    if f.tail.Nil? {
      TreeSpreads(f.head, level, indent, validate, next);
      LastSpreads(f, level, indent, validate, next);
    } else {
      TreeSpreads(f.head, level, indent, validate, 0x2C);
      ForestSpreads(f.tail, level, indent, validate, next);
      MoreSpreads(f, level, indent, validate, next);
    }
  }

  lemma PrintableParts(f: Forest)
    requires f.Cons? && ForestPrintable(f)
    ensures TreePrintable(f.head) && ForestPrintable(f.tail)
  {
  }

  lemma NoBreak(level: nat)
    ensures Break(0, level) == []
  {
  }

  lemma LastSpreads(f: Forest, level: nat, indent: nat, validate: bool, next: byte)
    requires f.Cons? && f.tail.Nil? && ForestPrintable(f)
    requires TreeSpread(f.head, level, indent, validate, next)
    requires var t := TreeText(f.head, level, 0, validate); t != [] && !Closes(t[0])
    ensures ForestSpread(f, level, indent, validate, next)
  {
    hide KeyText, TreeText, ForestText, Tail, Spreads, Break, Closes, ForestPrintable, ForestSpread, TreePrintable;
    PrintableParts(f);
    var key, key' := KeyText(f.key, 0, validate), KeyText(f.key, indent, validate);
    var tree, tree' := TreeText(f.head, level, 0, validate), TreeText(f.head, level, indent, validate);
    var gap, tail := Break(indent, level), Tail(level, next, indent);
    LastUnfolds(f, level, 0, validate);
    LastUnfolds(f, level, indent, validate);
    NoBreak(level);
    KeySpreads(f.key, level, validate, tree[0], indent);
    Joins(Outside, level, key, key', Outside, level, tree, tree' + tail, Outside, level, next, indent);
    assert [] + key + tree == key + tree;
    LastJoined(gap, key', tree', tail);
    Concludes(f, level, indent, validate, next, key' + (tree' + tail));
  }

  lemma Concludes(f: Forest, level: nat, indent: nat, validate: bool, next: byte, u: bytes)
    requires ForestPrintable(f)
    requires Spreads(Outside, level, ForestText(f, level, 0, validate), next, indent, u, Outside, level)
    requires Break(indent, level) + u == ForestText(f, level, indent, validate) + Tail(level, next, indent)
    ensures ForestSpread(f, level, indent, validate, next)
  {
  }

  lemma LastUnfolds(f: Forest, level: nat, indent: nat, validate: bool)
    requires f.Cons? && f.tail.Nil? && ForestPrintable(f)
    ensures ForestText(f, level, indent, validate)
         == Break(indent, level) + KeyText(f.key, indent, validate) + TreeText(f.head, level, indent, validate)
  {
    var t := Break(indent, level) + KeyText(f.key, indent, validate) + TreeText(f.head, level, indent, validate);
    assert t + [] + [] == t;
  }

  lemma LastJoined(gap: bytes, key: bytes, tree: bytes, tail: bytes)
    ensures gap + (key + (tree + tail)) == gap + key + tree + tail
  {
  }

  lemma MoreSpreads(f: Forest, level: nat, indent: nat, validate: bool, next: byte)
    requires f.Cons? && f.tail.Cons? && ForestPrintable(f) && ForestInRange(f)
    requires TreeSpread(f.head, level, indent, validate, 0x2C) && ForestSpread(f.tail, level, indent, validate, next)
    requires var t := TreeText(f.head, level, 0, validate); t != [] && !Closes(t[0])
    ensures ForestSpread(f, level, indent, validate, next)
  {
    var key, key' := KeyText(f.key, 0, validate), KeyText(f.key, indent, validate);
    var tree, tree' := TreeText(f.head, level, 0, validate), TreeText(f.head, level, indent, validate);
    var rest, rest' := ForestText(f.tail, level, 0, validate), ForestText(f.tail, level, indent, validate);
    var inner, gap, tail := Spread(Outside, level, rest, next, indent), Break(indent, level), Tail(level, next, indent);
    ForestStarts(f.tail, level, validate);
    CommaTail(level, indent);
    assert tree' + [] == tree';
    ForestUnfolds(f, level, 0, validate);
    ForestUnfolds(f, level, indent, validate);
    assert Break(0, level) == [];
    hide KeyText, TreeText, ForestText, Tail, Spread, Break, Closes, MoveAll, OpenedAll;
    KeySpreads(f.key, level, validate, tree[0], indent);
    CommaSpreads(level, rest[0], indent);
    Joins(Outside, level, [0x2C], [0x2C] + gap, Outside, level, rest, inner, Outside, level, next, indent);
    Joins(Outside, level, tree, tree', Outside, level, [0x2C] + rest, [0x2C] + gap + inner, Outside, level, next, indent);
    Joins(Outside, level, key, key', Outside, level, tree + ([0x2C] + rest), tree' + ([0x2C] + gap + inner), Outside, level,
      next, indent);
    MoreJoined(key, tree, rest, gap, key', tree', inner, rest', tail);
  }

  lemma ForestUnfolds(f: Forest, level: nat, indent: nat, validate: bool)
    requires f.Cons? && f.tail.Cons? && ForestPrintable(f)
    ensures ForestText(f, level, indent, validate) == Break(indent, level) + KeyText(f.key, indent, validate)
      + TreeText(f.head, level, indent, validate) + [0x2C] + ForestText(f.tail, level, indent, validate)
  {
  }

  lemma MoreJoined(key: bytes, tree: bytes, rest: bytes, gap: bytes, key': bytes, tree': bytes, inner: bytes, rest': bytes,
      tail: bytes)
    requires gap + inner == rest' + tail
    ensures key + (tree + ([0x2C] + rest)) == [] + key + tree + [0x2C] + rest
    ensures gap + (key' + (tree' + ([0x2C] + gap + inner))) == gap + key' + tree' + [0x2C] + rest' + tail
  {
    assert gap + (key' + (tree' + ([0x2C] + gap + inner))) == gap + key' + tree' + [0x2C] + (gap + inner);
  }

  /** The indented text is the compact text with the indentation put in. */
  lemma IndentedIsSpread(v: Tree, indent: nat, validate: bool)
    requires TreePrintable(v) && RealsInRange(v)
    ensures TreeText(v, 0, indent, validate) == Spread(Outside, 0, TreeText(v, 0, 0, validate), 0, indent)
  {
    TreeSpreads(v, 0, indent, validate, 0);
    hide TreeText, Spread;
    assert TreeText(v, 0, indent, validate) + [] == TreeText(v, 0, indent, validate);
  }

  // ----- The lines -----

  /** How many spaces stand from p on. */
  function SpacesAt(t: bytes, p: nat): nat
    decreases if p < |t| then |t| - p else 0
  {
    if At(t, p) == 0x20 then 1 + SpacesAt(t, p + 1) else 0
  }

  /**
   * What the text t[p..] starts with outside strings, inside n brackets: a line has the spaces of its level; behind a
   * comma and an opening bracket a line starts; and a closing bracket stands on a line of its own.
   */
  predicate WellLaid(s: Place, n: nat, t: bytes, p: nat, indent: nat) {
    && (s.Outside? && At(t, p) == 0x0A ==>
      SpacesAt(t, p + 1) == indent * LevelOf(n, At(t, p + 1 + SpacesAt(t, p + 1))) % 0x1_0000_0000)
    && (indent > 0 && s.Outside? && (At(t, p) == 0x2C || Opens(At(t, p))) ==>
      At(t, p + 1) == 0x0A || (Opens(At(t, p)) && Closes(At(t, p + 1))))
    && (indent > 0 && Move(s, At(t, p)).Outside? && Closes(At(t, p + 1)) ==>
      s.Outside? && (Opens(At(t, p)) || At(t, p) == 0x0A || At(t, p) == 0x20))
  }

  predicate Lined(s: Place, n: nat, t: bytes, indent: nat)
    decreases |t|
  {
    t != [] ==> WellLaid(s, n, t, 0, indent) && Lined(Move(s, t[0]), Opened(s, n, t[0]), t[1..], indent)
  }

  /** No white space outside strings. */
  predicate NoBlank(s: Place, t: bytes)
    decreases |t|
  {
    t != [] ==> !(s.Outside? && IsBlank(t[0])) && NoBlank(Move(s, t[0]), t[1..])
  }

  lemma {:induction false} SqueezedShorter(s: Place, t: bytes)
    ensures |Squeezed(s, t)| <= |t|
    ensures |Squeezed(s, t)| == |t| ==> NoBlank(s, t)
    decreases |t|
  {
    if t != [] {
      SqueezedShorter(Move(s, t[0]), t[1..]);
    }
  }

  predicate Finished(t: bytes) {
    t != [] && t[|t| - 1] !in {0x2C, 0x5B, 0x7B}
  }

  lemma {:induction false} SpacesLined(k: nat, n: nat, rest: bytes, indent: nat)
    requires Lined(Outside, n, rest, indent)
    ensures Lined(Outside, n, seq(k, i => 0x20) + rest, indent)
    decreases k
  {
    var u: bytes := seq(k, i => 0x20) + rest;
    if k == 0 {
      assert u == rest;
    } else {
      assert u[0] == 0x20 && u[1..] == seq(k - 1, i => 0x20) + rest;
      SpacesLined(k - 1, n, rest, indent);
    }
  }

  lemma {:induction false} SpacesCounted(k: nat, rest: bytes, t: bytes, p: nat)
    requires p <= |t| && t[p..] == seq(k, i => 0x20) + rest && (rest != [] ==> rest[0] != 0x20)
    ensures SpacesAt(t, p) == k && At(t, p + k) == At(rest, 0)
    decreases k
  {
    if k == 0 {
      assert t[p..] == rest;
    } else {
      assert t[p] == t[p..][0] == 0x20;
      assert t[p + 1..] == t[p..][1..] == seq(k - 1, i => 0x20) + rest;
      SpacesCounted(k - 1, rest, t, p + 1);
    }
  }

  lemma BlankIs(b: byte)
    ensures !IsBlank(b) ==> b != 0x20
  {
  }

  lemma LineFeedLined(n: nat, u: bytes, indent: nat)
    requires u != [] && u[0] == 0x0A && Lined(Outside, n, u[1..], indent)
    requires SpacesAt(u, 1) == indent * LevelOf(n, At(u, 1 + SpacesAt(u, 1))) % 0x1_0000_0000
    ensures Lined(Outside, n, u, indent)
  {
    hide SpacesAt;
  }

  lemma LineLined(n: nat, rest: bytes, indent: nat)
    requires rest != [] && !IsBlank(rest[0]) && Lined(Outside, n, rest, indent)
    ensures Lined(Outside, n, Line(indent, LevelOf(n, rest[0])) + rest, indent)
  {
    hide IsBlank, Closes;
    var k := indent * LevelOf(n, rest[0]) % 0x1_0000_0000;
    var run: bytes := seq(k, i => 0x20);
    var u := Line(indent, LevelOf(n, rest[0])) + rest;
    assert u == [0x0A] + (run + rest);
    BlankIs(rest[0]);
    SpacesLined(k, n, rest, indent);
    assert u[1..] == run + rest;
    SpacesCounted(k, rest, u, 1);
    LineFeedLined(n, u, indent);
  }

  /** A scan of a text without white space outside strings lays it out. */
  lemma {:induction false} SpreadLined(s: Place, n: nat, t: bytes, indent: nat)
    requires NoBlank(s, t) && Finished(t)
    ensures var u := Spread(s, n, t, 0, indent); u != [] && u[0] == t[0] && Lined(s, n, u, indent)
    decreases |t|
  {
    var b, s', n' := t[0], Move(s, t[0]), Opened(s, n, t[0]);
    if |t| == 1 {
      EndLined(s, n, b, indent);
      assert t[1..] == [];
      assert [b] + Between(s, n, b, 0, indent) + [] == [b] + Between(s, n, b, 0, indent);
    } else {
      var rest := Spread(s', n', t[1..], 0, indent);
      SpreadLined(s', n', t[1..], indent);
      StepLined(s, n, b, t[1], rest, indent);
    }
  }

  lemma EndLined(s: Place, n: nat, b: byte, indent: nat)
    requires !(s.Outside? && IsBlank(b)) && b !in {0x2C, 0x5B, 0x7B}
    ensures Lined(s, n, [b] + Between(s, n, b, 0, indent), indent)
  {
  }

  lemma StepLined(s: Place, n: nat, b: byte, c: byte, rest: bytes, indent: nat)
    requires !(s.Outside? && IsBlank(b)) && !(Move(s, b).Outside? && IsBlank(c))
    requires rest != [] && rest[0] == c && Lined(Move(s, b), Opened(s, n, b), rest, indent)
    ensures Lined(s, n, [b] + Between(s, n, b, c, indent) + rest, indent)
  {
    var gap := Between(s, n, b, c, indent);
    var u := [b] + gap + rest;
    assert u[0] == b && u[1..] == gap + rest;
    var n' := Opened(s, n, b);
    if gap == [] {
      assert gap + rest == rest;
    } else if s.Outside? && b == 0x3A {
      SpacesLined(1, n', rest, indent);
      assert seq(1, i => 0x20) == [0x20];
    } else {
      LineLined(n', rest, indent);
      assert (gap + rest)[0] == 0x0A;
    }
  }

  /** Every place of the text is well laid, where strings and brackets are followed from its start. */
  ghost predicate LaidOut(t: bytes, indent: nat) {
    forall p | 0 <= p < |t| :: WellLaid(MoveAll(Outside, t[..p]), OpenedAll(Outside, 0, t[..p]), t, p, indent)
  }

  lemma {:induction false} SpacesShift(t: bytes, p: nat)
    requires t != []
    ensures SpacesAt(t[1..], p) == SpacesAt(t, p + 1)
    decreases if p < |t| then |t| - p else 0
  {
    if At(t[1..], p) == 0x20 {
      SpacesShift(t, p + 1);
    }
  }

  lemma WellLaidShift(s: Place, n: nat, t: bytes, p: nat, indent: nat)
    requires t != [] && WellLaid(s, n, t[1..], p, indent)
    ensures WellLaid(s, n, t, p + 1, indent)
  {
    SpacesShift(t, p + 1);
  }

  lemma {:induction false} LinedAt(s: Place, n: nat, t: bytes, p: nat, indent: nat)
    requires Lined(s, n, t, indent) && p < |t|
    ensures WellLaid(MoveAll(s, t[..p]), OpenedAll(s, n, t[..p]), t, p, indent)
    decreases p
  {
    if p > 0 {
      LinedAt(Move(s, t[0]), Opened(s, n, t[0]), t[1..], p - 1, indent);
      assert t[..p][1..] == t[1..][..p - 1];
      hide WellLaid;
      WellLaidShift(MoveAll(s, t[..p]), OpenedAll(s, n, t[..p]), t, p - 1, indent);
    }
  }

  lemma TextFinished(v: Tree, validate: bool)
    requires TreePrintable(v) && RealsInRange(v)
    ensures Finished(TreeText(v, 0, 0, validate))
  {
    if !IsContainer(v) && !v.StringTree? {
      WordsBare(v, 0, 0, validate);
    }
  }

  /** The text of a value is laid out with the indentation asked for. */
  lemma TextIsLaidOut(v: Tree, indent: nat, validate: bool)
    requires TreePrintable(v) && RealsInRange(v)
    ensures LaidOut(TreeText(v, 0, indent, validate), indent)
  {
    hide TreeText, Lined, NoBlank, Squeezed, Spread, WellLaid;
    var t, u := TreeText(v, 0, 0, validate), TreeText(v, 0, indent, validate);
    PrettyIsCompact(v, 0, validate);
    SqueezedShorter(Outside, t);
    TextFinished(v, validate);
    SpreadLined(Outside, 0, t, indent);
    IndentedIsSpread(v, indent, validate);
    forall p | 0 <= p < |u| ensures WellLaid(MoveAll(Outside, u[..p]), OpenedAll(Outside, 0, u[..p]), u, p, indent) {
      LinedAt(Outside, 0, u, p, indent);
    }
  }

  /** What is printed of a value is laid out, and it is what is printed without indentation but for the layout. */
  lemma PrintedIsLaidOut(v: Tree, indent: nat, validate: bool)
    requires WfTree(v) && TreePrintable(v) && Encodable(v, validate) && RealsInRange(v) && TreeDepth(v) < 0x1_0000_0000
    ensures AllPrintable(TreeEvents(v))
    ensures var p, compact := PrintAll(START, TreeEvents(v), indent, validate), PrintAll(START, TreeEvents(v), 0, validate);
      LaidOut(p.text, indent) && p.text == Spread(Outside, 0, compact.text, 0, indent)
  {
    hide TreeText, LaidOut, Spread, PrintAll;
    RoundTrip.PrintedText(v, indent, validate, validate);
    RoundTrip.PrintedText(v, 0, validate, validate);
    TextIsLaidOut(v, indent, validate);
    IndentedIsSpread(v, indent, validate);
  }
}
