/**
 * What the printer writes: event by event as a machine over four flags, and for whole values as a
 * recursive serialiser. The machine is proved to be the serialiser.
 */
module Printing {
  import opened Base
  import opened Text
  import opened Escape
  import opened Events
  import Itoa
  import RealText

  /** The level and the products with it are 32-bit unsigned numbers. */
  const TWO32: nat := 0x1_0000_0000

  datatype Flags = Flags(level: nat, nl: bool, comma: bool, key: bool)

  const START: Flags := Flags(0, false, false, false)

  /** What one event writes, the flags it leaves, and whether all of it could be written. */
  datatype Printed = Printed(text: bytes, next: Flags, ok: bool)

  function Spaces(n: nat): (r: bytes)
    ensures |r| == n
  {
    seq(n, i => ' ' as int)
  }

  function Indentation(indent: nat, level: nat): bytes {
    Spaces(indent * level % TWO32)
  }

  // ----- The flag machine -----

  function PrefixText(f: Flags, indent: nat): bytes {
    if f.key then []
    else
      (if f.comma then [',' as int] else [])
      + (if indent > 0 && f.nl then ['\n' as int] else [])
      + (if indent > 0 then Indentation(indent, f.level) else [])
  }

  function AfterPrefix(f: Flags, indent: nat): Flags {
    f.(comma := true, key := false, nl := f.nl || (indent > 0 && !f.key))
  }

  function AfterStart(f: Flags, indent: nat): Flags {
    AfterPrefix(f, indent).(comma := false, level := (f.level + 1) % TWO32)
  }

  /** The level goes down first; a container that is not empty ends on a line of its own. */
  function Down(f: Flags): Flags {
    f.(level := (f.level - 1) % TWO32, comma := false)
  }

  function EndPrefixText(f: Flags, indent: nat): bytes {
    if f.comma then PrefixText(Down(f), indent) else []
  }

  function AfterEnd(f: Flags, indent: nat): Flags {
    (if f.comma then AfterPrefix(Down(f), indent) else Down(f)).(comma := Down(f).level > 0)
  }

  /** The numbers that can be printed: 64-bit integers, and decimals that stand for doubles. */
  predicate Printable(e: Event) {
    match e
    case Integer(n) => Itoa.IsInt64(n)
    case Real(_, sig, exp) => RealText.IsShortest(sig, exp)
    case _ => true
  }

  /** The text of a value that is neither a string nor a container. */
  function WordText(e: Event): bytes
    requires Printable(e)
  {
    match e
    case Null => NULL
    case Boolean(b) => if b then TRUE else FALSE
    case Integer(n) => Itoa.IntegerText(n)
    case Real(neg, sig, exp) => RealText.DoubleText(neg, sig, exp)
    case _ => []
  }

  function ColonText(indent: nat): bytes {
    if indent > 0 then [':' as int, ' ' as int] else [':' as int]
  }

  /** A string that cannot be written ends the printing behind what has been written of it. */
  function PrintString(f: Flags, s: bytes, indent: nat, validate: bool, suffix: bytes, isKey: bool): Printed {
    var e := EscapeFrom(s, 0, validate);
    var text := PrefixText(f, indent) + [QUOTE] + e.text;
    if !e.ok then Printed(text, AfterPrefix(f, indent), false)
    else Printed(text + [QUOTE] + suffix, AfterPrefix(f, indent).(key := isKey), true)
  }

  function Print(f: Flags, e: Event, indent: nat, validate: bool): Printed
    requires Printable(e)
  {
    match e
    case Str(s) => PrintString(f, s, indent, validate, [], false)
    case Key(k) => PrintString(f, k, indent, validate, ColonText(indent), true)
    case StartArray | StartObject =>
      Printed(PrefixText(f, indent) + [Opener(e.StartArray?)], AfterStart(f, indent), true)
    case EndArray | EndObject =>
      Printed(EndPrefixText(f, indent) + [Closer(e.EndArray?)], AfterEnd(f, indent), true)
    case _ => Printed(PrefixText(f, indent) + WordText(e), AfterPrefix(f, indent), true)
  }

  predicate AllPrintable(evs: seq<Event>) {
    forall i | 0 <= i < |evs| :: Printable(evs[i])
  }

  /** q follows p, unless p failed. */
  function Then(p: Printed, q: Printed): Printed {
    if !p.ok then p else q.(text := p.text + q.text)
  }

  /** The events one after the other, up to the first that cannot be written. */
  function PrintAll(f: Flags, evs: seq<Event>, indent: nat, validate: bool): Printed
    requires AllPrintable(evs)
    decreases |evs|
  {
    if evs == [] then Printed([], f, true)
    else
      var p := Print(f, evs[0], indent, validate);
      Then(p, PrintAll(p.next, evs[1..], indent, validate))
  }

  lemma Assoc(a: bytes, b: bytes, c: bytes)
    ensures a + b + c == a + (b + c)
  {
  }

  lemma ThenAssoc(p: Printed, q: Printed, r: Printed)
    ensures Then(Then(p, q), r) == Then(p, Then(q, r))
    ensures Then(Printed([], p.next, true), p) == p
  {
    Assoc(p.text, q.text, r.text);
    assert [] + p.text == p.text;
  }

  lemma {:induction false} PrintConcat(f: Flags, a: seq<Event>, b: seq<Event>, indent: nat, validate: bool)
    requires AllPrintable(a) && AllPrintable(b)
    ensures AllPrintable(a + b)
    ensures var p := PrintAll(f, a, indent, validate);
      PrintAll(f, a + b, indent, validate) == Then(p, PrintAll(p.next, b, indent, validate))
    decreases |a|
  {
    hide Print, Printable;
    if a == [] {
      assert a + b == b;
      ThenAssoc(PrintAll(f, b, indent, validate), Printed([], f, true), Printed([], f, true));
    } else {
      var p := Print(f, a[0], indent, validate);
      PrintConcat(p.next, a[1..], b, indent, validate);
      assert (a + b)[1..] == a[1..] + b;
      var q := PrintAll(p.next, a[1..], indent, validate);
      ThenAssoc(p, q, PrintAll(q.next, b, indent, validate));
    }
  }

  // ----- The serialiser -----

  predicate TreePrintable(v: Tree) {
    match v
    case IntegerTree(n) => Itoa.IsInt64(n)
    case RealTree(_, sig, exp) => RealText.IsShortest(sig, exp)
    case ArrayTree(f) => ForestPrintable(f)
    case ObjectTree(f) => ForestPrintable(f)
    case _ => true
  }

  predicate ForestPrintable(f: Forest) {
    f.Cons? ==> TreePrintable(f.head) && ForestPrintable(f.tail)
  }

  /** Every string of the value can be written. */
  predicate Encodable(v: Tree, validate: bool) {
    match v
    case StringTree(s) => EscapeFrom(s, 0, validate).ok
    case ArrayTree(f) => ForestEncodable(f, validate)
    case ObjectTree(f) => ForestEncodable(f, validate)
    case _ => true
  }

  predicate ForestEncodable(f: Forest, validate: bool) {
    f.Cons? ==>
      && (f.key.Some? ==> EscapeFrom(f.key.value, 0, validate).ok)
      && Encodable(f.head, validate) && ForestEncodable(f.tail, validate)
  }

  /** A new line with its indentation, where there is any indentation at all. */
  function Break(indent: nat, level: nat): bytes {
    if indent > 0 then ['\n' as int] + Indentation(indent, level) else []
  }

  function Quoted(s: bytes, validate: bool): bytes {
    [QUOTE] + EscapeFrom(s, 0, validate).text + [QUOTE]
  }

  function KeyText(key: Option<bytes>, indent: nat, validate: bool): bytes {
    if key.Some? then Quoted(key.value, validate) + ColonText(indent) else []
  }

  /** The value as it stands inside level containers: compact without indentation, else one item a line. */
  function TreeText(v: Tree, level: nat, indent: nat, validate: bool): bytes
    requires TreePrintable(v)
  {
    match v
    case NullTree => NULL
    case BooleanTree(b) => if b then TRUE else FALSE
    case IntegerTree(n) => Itoa.IntegerText(n)
    case RealTree(neg, sig, exp) => RealText.DoubleText(neg, sig, exp)
    case StringTree(s) => Quoted(s, validate)
    case ArrayTree(f) => BracketText(true, f, ForestText(f, level + 1, indent, validate), level, indent)
    case ObjectTree(f) => BracketText(false, f, ForestText(f, level + 1, indent, validate), level, indent)
  }

  function BracketText(isArray: bool, f: Forest, inner: bytes, level: nat, indent: nat): bytes {
    [Opener(isArray)] + (inner + (if f.Nil? then [] else Break(indent, level)) + [Closer(isArray)])
  }

  function ForestText(f: Forest, level: nat, indent: nat, validate: bool): bytes
    requires ForestPrintable(f)
  {
    if f.Nil? then []
    else
      Break(indent, level)
      + KeyText(f.key, indent, validate)
      + TreeText(f.head, level, indent, validate)
      + (if f.tail.Nil? then [] else [',' as int])
      + ForestText(f.tail, level, indent, validate)
  }

  // ----- The machine is the serialiser -----

  /** The flags between two events of a well-formed value: only the first line starts without a newline. */
  predicate Steady(f: Flags, indent: nat) {
    (f.key ==> f.level > 0) && (indent > 0 && f.level > 0 ==> f.nl)
  }

  predicate IsContainer(v: Tree) {
    v.ArrayTree? || v.ObjectTree?
  }

  function AfterTree(f: Flags, v: Tree, indent: nat): Flags {
    AfterPrefix(f, indent).(comma := !IsContainer(v) || f.level > 0)
  }

  function TreePrinted(f: Flags, v: Tree, indent: nat, validate: bool): Printed
    requires TreePrintable(v)
  {
    Printed(PrefixText(f, indent) + TreeText(v, f.level, indent, validate), AfterTree(f, v, indent), true)
  }

  function ForestPrinted(f: Flags, fo: Forest, indent: nat, validate: bool): Printed
    requires ForestPrintable(fo)
  {
    Printed((if f.comma && fo.Cons? then [',' as int] else []) + ForestText(fo, f.level, indent, validate),
      f.(comma := f.comma || fo.Cons?), true)
  }

  lemma PrintOne(f: Flags, e: Event, indent: nat, validate: bool)
    requires Printable(e)
    ensures PrintAll(f, [e], indent, validate) == Print(f, e, indent, validate)
  {
    hide Print, Printable;
    var p := Print(f, e, indent, validate);
    assert [e][1..] == [];
    assert p.text + [] == p.text;
  }

  lemma JoinQuoted(prefix: bytes, e: bytes, suffix: bytes)
    ensures prefix + [QUOTE] + e + [QUOTE] + suffix == prefix + ([QUOTE] + e + [QUOTE] + suffix)
  {
  }

  lemma ScalarPrints(f: Flags, v: Tree, indent: nat, validate: bool)
    requires TreePrintable(v) && Encodable(v, validate) && !IsContainer(v)
    ensures AllPrintable(TreeEvents(v))
    ensures PrintAll(f, TreeEvents(v), indent, validate) == TreePrinted(f, v, indent, validate)
  {
    PrintOne(f, TreeEvents(v)[0], indent, validate);
    if v.StringTree? {
      var e := EscapeFrom(v.s, 0, validate).text;
      JoinQuoted(PrefixText(f, indent), e, []);
      assert [QUOTE] + e + [QUOTE] + [] == [QUOTE] + e + [QUOTE];
    }
  }

  /** Behind an opening bracket the level is one higher. */
  lemma StartSteady(f: Flags, indent: nat)
    ensures Steady(f, indent) && f.level + 1 < TWO32 ==>
      Steady(AfterStart(f, indent), indent) && AfterStart(f, indent).level == f.level + 1
    ensures !AfterStart(f, indent).key
  {
  }

  lemma {:induction false} TreePrints(f: Flags, v: Tree, indent: nat, validate: bool)
    requires WfTree(v) && TreePrintable(v) && Encodable(v, validate)
    requires Steady(f, indent) && f.level + TreeDepth(v) < TWO32
    ensures AllPrintable(TreeEvents(v))
    ensures PrintAll(f, TreeEvents(v), indent, validate) == TreePrinted(f, v, indent, validate)
    decreases v
  {
    hide Print, PrintAll, PrefixText, BracketText, TreeText, ForestText, TreePrinted, ForestPrinted, AllPrintable, TreeEvents;
    hide AfterStart, Steady, EscapeFrom, Itoa.IsInt64, RealText.IsShortest;
    StartSteady(f, indent);
    match v
    case ArrayTree(fo) =>
      ForestPrints(AfterStart(f, indent), fo, false, indent, validate);
      ContainerPrints(f, v, true, fo, indent, validate);
    case ObjectTree(fo) =>
      ForestPrints(AfterStart(f, indent), fo, true, indent, validate);
      ContainerPrints(f, v, false, fo, indent, validate);
    case _ =>
      ScalarPrints(f, v, indent, validate);
  }

  lemma ContainerPrints(f: Flags, v: Tree, isArray: bool, fo: Forest, indent: nat, validate: bool)
    requires v == (if isArray then ArrayTree(fo) else ObjectTree(fo)) && TreePrintable(v)
    requires Steady(f, indent) && f.level + 1 < TWO32 && AllPrintable(ForestEvents(fo))
    requires PrintAll(AfterStart(f, indent), ForestEvents(fo), indent, validate)
          == ForestPrinted(AfterStart(f, indent), fo, indent, validate)
    ensures AllPrintable(TreeEvents(v))
    ensures PrintAll(f, TreeEvents(v), indent, validate) == TreePrinted(f, v, indent, validate)
  {
    hide Print, PrintAll, ForestText, ForestEvents, BracketText, PrefixText, TreeEvents, TreeText, TreePrintable, Printable, Break;
    ContainerShape(v, isArray, fo, f.level, indent, validate);
    var inner := ForestText(fo, f.level + 1, indent, validate);
    assert [] + inner == inner;
    EnclosedPrints(f, isArray, fo, ForestEvents(fo), inner, indent, validate);
  }

  lemma EnclosedPrints(f: Flags, isArray: bool, fo: Forest, evs: seq<Event>, inner: bytes, indent: nat, validate: bool)
    requires Steady(f, indent) && f.level + 1 < TWO32 && AllPrintable(evs)
    requires PrintAll(AfterStart(f, indent), evs, indent, validate)
          == Printed(inner, AfterStart(f, indent).(comma := fo.Cons?), true)
    ensures AllPrintable([StartOf(isArray)] + (evs + [EndOf(isArray)]))
    ensures PrintAll(f, [StartOf(isArray)] + (evs + [EndOf(isArray)]), indent, validate)
      == Printed(PrefixText(f, indent) + BracketText(isArray, fo, inner, f.level, indent),
           AfterPrefix(f, indent).(comma := f.level > 0), true)
  {
    hide Print, PrintAll, BracketText, PrefixText;
    StartsWith(f, isArray, indent, validate);
    Enclose(f, StartOf(isArray), evs, EndOf(isArray), AfterStart(f, indent), indent, validate);
    BracketsPrint(f, isArray, fo, inner, indent, validate);
  }

  lemma StartsWith(f: Flags, isArray: bool, indent: nat, validate: bool)
    ensures Print(f, StartOf(isArray), indent, validate).next == AfterStart(f, indent)
  {
  }

  lemma ContainerShape(v: Tree, isArray: bool, fo: Forest, level: nat, indent: nat, validate: bool)
    requires v == (if isArray then ArrayTree(fo) else ObjectTree(fo)) && TreePrintable(v)
    ensures TreeEvents(v) == [StartOf(isArray)] + (ForestEvents(fo) + [EndOf(isArray)])
    ensures ForestPrintable(fo)
    ensures TreeText(v, level, indent, validate)
         == BracketText(isArray, fo, ForestText(fo, level + 1, indent, validate), level, indent)
  {
  }

  /** Events between two others, which leave the flags g and, behind them, some flags. */
  lemma Enclose(f: Flags, x: Event, evs: seq<Event>, y: Event, g: Flags, indent: nat, validate: bool)
    requires Printable(x) && Printable(y) && AllPrintable(evs)
    requires Print(f, x, indent, validate).next == g && PrintAll(g, evs, indent, validate).ok
    ensures AllPrintable([x] + (evs + [y]))
    ensures var p := PrintAll(g, evs, indent, validate);
      PrintAll(f, [x] + (evs + [y]), indent, validate)
      == Then(Print(f, x, indent, validate), Then(p, Print(p.next, y, indent, validate)))
  {
    hide Print, Printable;
    var p := PrintAll(g, evs, indent, validate);
    PrintOne(f, x, indent, validate);
    PrintOne(p.next, y, indent, validate);
    PrintConcat(g, evs, [y], indent, validate);
    PrintConcat(f, [x], evs + [y], indent, validate);
  }

  /** The brackets around a printed forest are those of the serialiser. */
  lemma BracketsPrint(f: Flags, isArray: bool, fo: Forest, inner: bytes, indent: nat, validate: bool)
    requires Steady(f, indent) && f.level + 1 < TWO32
    ensures var h := AfterStart(f, indent).(comma := fo.Cons?);
      Then(Print(f, StartOf(isArray), indent, validate),
        Then(Printed(inner, h, true), Print(h, EndOf(isArray), indent, validate)))
      == Printed(PrefixText(f, indent) + BracketText(isArray, fo, inner, f.level, indent),
           AfterPrefix(f, indent).(comma := f.level > 0), true)
  {
    var h := AfterStart(f, indent).(comma := fo.Cons?);
    var close := if fo.Nil? then [] else Break(indent, f.level);
    StartPrints(f, isArray, indent, validate);
    EndPrints(f, isArray, fo, indent, validate);
    assert BracketText(isArray, fo, inner, f.level, indent) == [Opener(isArray)] + (inner + close + [Closer(isArray)]);
    hide Print, PrefixText, Break, BracketText, AfterStart, AfterPrefix;
    Assoc(inner, close, [Closer(isArray)]);
    Assoc(PrefixText(f, indent), [Opener(isArray)], inner + (close + [Closer(isArray)]));
  }

  lemma StartPrints(f: Flags, isArray: bool, indent: nat, validate: bool)
    requires Steady(f, indent)
    ensures Print(f, StartOf(isArray), indent, validate)
      == Printed(PrefixText(f, indent) + [Opener(isArray)], AfterStart(f, indent), true)
  {
  }

  lemma EndPrints(f: Flags, isArray: bool, fo: Forest, indent: nat, validate: bool)
    requires Steady(f, indent) && f.level + 1 < TWO32
    ensures Print(AfterStart(f, indent).(comma := fo.Cons?), EndOf(isArray), indent, validate)
      == Printed((if fo.Nil? then [] else Break(indent, f.level)) + [Closer(isArray)],
           AfterPrefix(f, indent).(comma := f.level > 0), true)
  {
    hide EndPrefixText, AfterEnd, AfterStart, Break;
    EndFlags(f, fo.Cons?, indent);
  }

  /** At the end of a container the flags are those before it, but for the comma. */
  lemma EndFlags(f: Flags, more: bool, indent: nat)
    requires Steady(f, indent) && f.level + 1 < TWO32
    ensures var g := AfterStart(f, indent).(comma := more);
      && AfterEnd(g, indent) == AfterPrefix(f, indent).(comma := f.level > 0)
      && EndPrefixText(g, indent) == if more then Break(indent, f.level) else []
  {
    hide Indentation;
    LevelBack(f.level);
  }

  lemma LevelBack(level: nat)
    requires level + 1 < TWO32
    ensures ((level + 1) % TWO32 - 1) % TWO32 == level
  {
  }

  lemma KeyPrints(f: Flags, key: bytes, indent: nat, validate: bool)
    requires EscapeFrom(key, 0, validate).ok && !f.key
    ensures PrintAll(f, [Key(key)], indent, validate)
      == Printed(PrefixText(f, indent) + (Quoted(key, validate) + ColonText(indent)),
           AfterPrefix(f, indent).(key := true), true)
  {
    hide PrefixText, EscapeFrom, ColonText;
    PrintOne(f, Key(key), indent, validate);
    JoinQuoted(PrefixText(f, indent), EscapeFrom(key, 0, validate).text, ColonText(indent));
  }

  lemma {:induction false} ForestPrints(f: Flags, fo: Forest, keyed: bool, indent: nat, validate: bool)
    requires Keyed(fo, keyed) && ForestPrintable(fo) && ForestEncodable(fo, validate)
    requires f.level > 0 && !f.key && Steady(f, indent) && f.level + ForestDepth(fo) < TWO32
    ensures AllPrintable(ForestEvents(fo))
    ensures PrintAll(f, ForestEvents(fo), indent, validate) == ForestPrinted(f, fo, indent, validate)
    decreases fo
  {
    if fo.Cons? {
      var g := if keyed then AfterPrefix(f, indent).(key := true) else f;
      TreePrints(g, fo.head, indent, validate);
      var h := f.(comma := true);
      ForestPrints(h, fo.tail, keyed, indent, validate);
      ItemPrints(f, fo, keyed, indent, validate);
    }
  }

  lemma JoinItem(c: bytes, br: bytes, k: bytes, t: bytes, b: bytes, r: bytes)
    ensures c + br + k + (t + (b + r)) == c + (br + k + t + b + r)
  {
  }

  lemma Separators(f: Flags, fo: Forest, indent: nat)
    requires fo.Cons? && !f.key && f.level > 0 && Steady(f, indent)
    ensures PrefixText(f, indent) == (if f.comma then [',' as int] else []) + Break(indent, f.level)
    ensures PrefixText(AfterPrefix(f, indent).(key := true), indent) == []
    ensures AfterPrefix(f, indent) == f.(comma := true)
  {
  }

  /** An item or a member and those behind it. */
  lemma ItemPrints(f: Flags, fo: Forest, keyed: bool, indent: nat, validate: bool)
    requires fo.Cons? && fo.key.Some? == keyed && ForestPrintable(fo) && ForestEncodable(fo, validate)
    requires f.level > 0 && !f.key && Steady(f, indent)
    requires AllPrintable(TreeEvents(fo.head)) && AllPrintable(ForestEvents(fo.tail))
    requires var g := if keyed then AfterPrefix(f, indent).(key := true) else f;
      PrintAll(g, TreeEvents(fo.head), indent, validate) == TreePrinted(g, fo.head, indent, validate)
    requires var h := f.(comma := true);
      PrintAll(h, ForestEvents(fo.tail), indent, validate) == ForestPrinted(h, fo.tail, indent, validate)
    ensures AllPrintable(ForestEvents(fo))
    ensures PrintAll(f, ForestEvents(fo), indent, validate) == ForestPrinted(f, fo, indent, validate)
  {
    hide PrintAll, TreeEvents, TreeText, PrefixText, Break, Quoted, ColonText;
    var h := f.(comma := true);
    var head, tail := TreeEvents(fo.head), ForestEvents(fo.tail);
    var tree, rest := TreeText(fo.head, f.level, indent, validate), ForestText(fo.tail, f.level, indent, validate);
    var c := if f.comma then [',' as int] else [];
    var between := if fo.tail.Nil? then [] else [',' as int];
    Separators(f, fo, indent);
    var key := KeyText(fo.key, indent, validate);
    JoinItem(c, Break(indent, f.level), key, tree, between, rest);
    assert ForestText(fo, f.level, indent, validate) == Break(indent, f.level) + key + tree + between + rest;
    assert ForestEvents(fo) == KeyEvents(fo.key) + (head + tail);
    if keyed {
      var g := AfterPrefix(f, indent).(key := true);
      KeyPrints(f, fo.key.value, indent, validate);
      PrintConcat(g, head, tail, indent, validate);
      PrintConcat(f, [Key(fo.key.value)], head + tail, indent, validate);
      assert [] + tree == tree;
      hide ForestText, ForestEvents;
      Assoc(c + Break(indent, f.level), key, tree + (between + rest));
    } else {
      PrintConcat(f, head, tail, indent, validate);
      assert [] + (head + tail) == head + tail;
      hide ForestText, ForestEvents;
      Assoc(c + Break(indent, f.level), tree, between + rest);
      assert c + Break(indent, f.level) + [] == c + Break(indent, f.level);
    }
  }
}
