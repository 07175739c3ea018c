/**
 * The JSON grammar of RFC 8259, with what the options add to it, as concrete syntax trees: every tree has
 * a text and the events it stands for. Trees, not a parser, say which texts are JSON and what they mean.
 */
module Grammar {
  import opened Base
  import opened Text
  import opened Gap
  import opened Utf8
  import opened Decimal
  import Number

  // ----- Strings (section 7) -----

  datatype Piece =
    | Raw(b: byte)
    | Multi(cp: nat)
    | Short(e: byte)
    | Unicode(hex: bytes)
    | Pair(high: bytes, low: bytes)

  predicate IsHex4(h: bytes) {
    |h| == 4 && forall i | 0 <= i < 4 :: HexValue(h[i]) != -1
  }

  function Hex4(h: bytes): (cp: nat)
    requires IsHex4(h)
    ensures cp < 0x10000
  {
    4096 * HexValue(h[0]) + 256 * HexValue(h[1]) + 16 * HexValue(h[2]) + HexValue(h[3])
  }

  /** With validation a byte above 0x7F is only allowed as part of a valid UTF-8 sequence. */
  predicate WfPiece(c: Piece, validate: bool) {
    match c
    case Raw(b) => b >= 0x20 && b != QUOTE && b != BACKSLASH && (validate ==> b < 0x80)
    case Multi(cp) => validate && cp >= 0x80 && IsValidCodepoint(cp)
    case Short(e) => Unescape(e) != 0
    case Unicode(h) => IsHex4(h) && !IsSurrogate(Hex4(h))
    case Pair(h, l) => IsHex4(h) && IsHex4(l) && IsHigh(Hex4(h)) && IsLow(Hex4(l))
  }

  function PieceText(c: Piece, validate: bool): (r: bytes)
    requires WfPiece(c, validate)
    ensures |r| >= 1
  {
    match c
    case Raw(b) => [b]
    case Multi(cp) => Encode(cp)
    case Short(e) => [BACKSLASH, e]
    case Unicode(h) => [BACKSLASH, 'u' as int] + h
    case Pair(h, l) => [BACKSLASH, 'u' as int] + h + ([BACKSLASH, 'u' as int] + l)
  }

  function PieceBytes(c: Piece, validate: bool): bytes
    requires WfPiece(c, validate)
  {
    match c
    case Raw(b) => [b]
    case Multi(cp) => Encode(cp)
    case Short(e) => [Unescape(e)]
    case Unicode(h) => Encode(Hex4(h))
    case Pair(h, l) => Encode(Combine(Hex4(h), Hex4(l)))
  }

  predicate WfPieces(cs: seq<Piece>, validate: bool) {
    forall i | 0 <= i < |cs| :: WfPiece(cs[i], validate)
  }

  function PiecesText(cs: seq<Piece>, validate: bool): bytes
    requires WfPieces(cs, validate)
  {
    if cs == [] then [] else PieceText(cs[0], validate) + PiecesText(cs[1..], validate)
  }

  function PiecesBytes(cs: seq<Piece>, validate: bool): bytes
    requires WfPieces(cs, validate)
  {
    if cs == [] then [] else PieceBytes(cs[0], validate) + PiecesBytes(cs[1..], validate)
  }

  // ----- Values (sections 2 to 6) -----

  /**
   * The limits the parser sets, UTF-8 validation and the reals that convert to a finite double, and what
   * its options add to the syntax of RFC 8259.
   */
  datatype Limits = Limits(validate: bool, finite: bytes -> bool, comments: bool, trailingCommas: bool)

  datatype Value =
    | NullValue
    | BooleanValue(b: bool)
    | NumberValue(lit: Number.Literal)
    | StringValue(cs: seq<Piece>)
    | Empty(isArray: bool, ws: bytes)
    | LoneComma(isArray: bool, before: bytes, behind: bytes)
    | Filled(isArray: bool, es: Elements)

  /**
   * The elements of an array or the members of an object. After an element comes the closing bracket,
   * a comma and the closing bracket, a comma and another element, or another element at once.
   */
  datatype Elements =
    | Last(e: Element)
    | Trailing(e: Element, ws: bytes)
    | Comma(e: Element, rest: Elements)
    | Beside(e: Element, rest: Elements)

  /** One element between white space; the members of objects have a key. */
  datatype Element = Element(pre: bytes, key: Option<KeyPart>, v: Value, post: bytes)

  datatype KeyPart = KeyPart(cs: seq<Piece>, before: bytes, behind: bytes)

  ghost predicate WfValue(v: Value, lim: Limits) {
    match v
    case NullValue | BooleanValue(_) => true
    case NumberValue(l) =>
      && Number.WfLiteral(l) && Val(l.exp) <= Number.MAX_EXPONENT
      && (Number.ForceReal(l) ==> lim.finite(Number.Unparse(l)))
    case StringValue(cs) => WfPieces(cs, lim.validate)
    case Empty(_, ws) => IsGap(ws, lim.comments)
    case LoneComma(_, before, behind) =>
      lim.trailingCommas && IsGap(before, lim.comments) && IsGap(behind, lim.comments)
    case Filled(isArray, es) => WfElements(es, !isArray, lim)
  }

  /** Only members can stand beside each other; the white space between them goes with the first. */
  ghost predicate WfElements(es: Elements, keyed: bool, lim: Limits) {
    && WfElement(es.e, keyed, lim)
    && match es
       case Last(_) => true
       case Trailing(_, ws) => lim.trailingCommas && IsGap(ws, lim.comments)
       case Comma(_, rest) => WfElements(rest, keyed, lim)
       case Beside(_, rest) => keyed && rest.e.pre == [] && WfElements(rest, keyed, lim)
  }

  ghost predicate WfElement(e: Element, keyed: bool, lim: Limits) {
    && IsGap(e.pre, lim.comments) && WfValue(e.v, lim) && IsGap(e.post, lim.comments)
    && e.key.Some? == keyed
    && (keyed ==> WfKey(e.key.value, lim))
  }

  ghost predicate WfKey(k: KeyPart, lim: Limits) {
    WfPieces(k.cs, lim.validate) && IsGap(k.before, lim.comments) && IsGap(k.behind, lim.comments)
  }

  /** How deeply containers are nested in a value. */
  function Depth(v: Value): nat {
    match v
    case Empty(_, _) | LoneComma(_, _, _) => 1
    case Filled(_, es) => 1 + ElementsDepth(es)
    case _ => 0
  }

  predicate HasRest(es: Elements) {
    es.Comma? || es.Beside?
  }

  function ElementsDepth(es: Elements): nat {
    var d := Depth(es.e.v);
    if HasRest(es) && ElementsDepth(es.rest) > d then ElementsDepth(es.rest) else d
  }

  /**
   * The two parsers differ in two things. The SAX parser takes a comma on its own in an empty container,
   * and the pull parser takes members with no comma between them.
   */
  predicate Suits(v: Value, pull: bool) {
    match v
    case LoneComma(_, _, _) => !pull
    case Filled(_, es) => SuitAll(es, pull)
    case _ => true
  }

  predicate SuitAll(es: Elements, pull: bool) {
    Suits(es.e.v, pull) && (es.Beside? ==> pull) && (HasRest(es) ==> SuitAll(es.rest, pull))
  }

  ghost function ValueText(v: Value, lim: Limits): bytes
    requires WfValue(v, lim)
  {
    match v
    case NullValue => NULL
    case BooleanValue(b) => if b then TRUE else FALSE
    case NumberValue(l) => Number.Unparse(l)
    case StringValue(cs) => [QUOTE] + (PiecesText(cs, lim.validate) + [QUOTE])
    case Empty(isArray, ws) => [Opener(isArray)] + (ws + [Closer(isArray)])
    case LoneComma(isArray, before, behind) =>
      [Opener(isArray)] + (before + ([COMMA] + (behind + [Closer(isArray)])))
    case Filled(isArray, es) => [Opener(isArray)] + (ElementsText(es, !isArray, lim) + [Closer(isArray)])
  }

  ghost function ElementsText(es: Elements, keyed: bool, lim: Limits): bytes
    requires WfElements(es, keyed, lim)
  {
    ElementText(es.e, keyed, lim)
    + match es
      case Last(_) => []
      case Trailing(_, ws) => [COMMA] + ws
      case Comma(_, rest) => [COMMA] + ElementsText(rest, keyed, lim)
      case Beside(_, rest) => ElementsText(rest, keyed, lim)
  }

  ghost function ElementText(e: Element, keyed: bool, lim: Limits): bytes
    requires WfElement(e, keyed, lim)
  {
    e.pre + ((if keyed then KeyText(e.key.value, lim) else []) + (ValueText(e.v, lim) + e.post))
  }

  ghost function KeyText(k: KeyPart, lim: Limits): bytes
    requires WfKey(k, lim)
  {
    [QUOTE] + (PiecesText(k.cs, lim.validate) + [QUOTE]) + (k.before + ([':' as int] + k.behind))
  }

  ghost function ValueEvents(v: Value, lim: Limits): seq<Event>
    requires WfValue(v, lim)
  {
    match v
    case NullValue => [Null]
    case BooleanValue(b) => [Boolean(b)]
    case NumberValue(l) => [Number.LiteralEvent(l)]
    case StringValue(cs) => [Str(PiecesBytes(cs, lim.validate))]
    case Empty(isArray, _) => [StartOf(isArray), EndOf(isArray)]
    case LoneComma(isArray, _, _) => [StartOf(isArray), EndOf(isArray)]
    case Filled(isArray, es) => [StartOf(isArray)] + (ElementsEvents(es, !isArray, lim) + [EndOf(isArray)])
  }

  ghost function ElementsEvents(es: Elements, keyed: bool, lim: Limits): seq<Event>
    requires WfElements(es, keyed, lim)
  {
    ElementEvents(es.e, keyed, lim) + if HasRest(es) then ElementsEvents(es.rest, keyed, lim) else []
  }

  ghost function ElementEvents(e: Element, keyed: bool, lim: Limits): seq<Event>
    requires WfElement(e, keyed, lim)
  {
    (if keyed then [Key(PiecesBytes(e.key.value.cs, lim.validate))] else []) + ValueEvents(e.v, lim)
  }

  // ----- Whole texts -----

  /**
   * A text: at least one value, with commas between values or, where several values are allowed, without.
   * A comment that nothing ends can be the last thing in it.
   */
  datatype Document =
    | Final(es: Elements, rest: bytes)
    | Next(es: Elements, more: Document)

  /** Values with commas between them, and no comma behind the last. */
  predicate IsList(es: Elements) {
    match es
    case Last(_) => true
    case Comma(_, rest) => IsList(rest)
    case _ => false
  }

  /** Values with commas between them, and perhaps a comma behind the last. */
  predicate IsOpenList(es: Elements) {
    match es
    case Last(_) | Trailing(_, _) => true
    case Comma(_, rest) => IsOpenList(rest)
    case _ => false
  }

  /** A comma stands behind the last value. */
  predicate Trails(es: Elements) {
    if HasRest(es) then Trails(es.rest) else es.Trailing?
  }

  lemma {:induction false} ListIsOpen(es: Elements)
    ensures IsList(es) <==> IsOpenList(es) && !Trails(es)
  {
    if HasRest(es) {
      ListIsOpen(es.rest);
    }
  }

  function LastOf(es: Elements): Element {
    if HasRest(es) then LastOf(es.rest) else es.e
  }

  /** Of two numbers with nothing between them the first is a zero or the second starts with a minus sign. */
  predicate Apart(e: Element, f: Element) {
    e.post == [] && e.v.NumberValue? && f.v.NumberValue? ==> Number.IsZero(e.v.lit) || f.v.lit.neg
  }

  ghost predicate WfDocument(d: Document, lim: Limits) {
    && WfElements(d.es, false, lim) && IsList(d.es)
    && match d
       case Final(_, rest) => rest == [] || (lim.comments && IsOpenComment(rest))
       case Next(es, more) => WfDocument(more, lim) && more.es.e.pre == [] && Apart(LastOf(es), more.es.e)
  }

  function DocumentDepth(d: Document): nat {
    var n := ElementsDepth(d.es);
    if d.Next? && DocumentDepth(d.more) > n then DocumentDepth(d.more) else n
  }

  ghost function DocumentText(d: Document, lim: Limits): bytes
    requires WfDocument(d, lim)
  {
    ElementsText(d.es, false, lim) + if d.Final? then d.rest else DocumentText(d.more, lim)
  }

  ghost function DocumentEvents(d: Document, lim: Limits): seq<Event>
    requires WfDocument(d, lim)
  {
    ElementsEvents(d.es, false, lim) + if d.Final? then [] else DocumentEvents(d.more, lim)
  }

  /** No value of the document is one that only the other parser takes. */
  predicate SuitDocument(d: Document, pull: bool) {
    SuitAll(d.es, pull) && (d.Next? ==> SuitDocument(d.more, pull))
  }

  // ----- What StringAt reads is a string of the grammar -----

  lemma {:induction false} HexAtIsHex4(t: bytes, p: nat)
    requires p <= |t|
    ensures HexAt(t, p, 4, 0).Done? <==> p + 4 <= |t| && IsHex4(t[p..p + 4])
    ensures p + 4 <= |t| && IsHex4(t[p..p + 4]) ==> HexAt(t, p, 4, 0) == Done(Hex4(t[p..p + 4]), p + 4)
  {
    var a, b, c, d := HexValue(At(t, p)), HexValue(At(t, p + 1)), HexValue(At(t, p + 2)), HexValue(At(t, p + 3));
    hide HexValue;
    FourSteps(t, p);
    if p + 4 <= |t| {
      assert t[p..p + 4] == [t[p], t[p + 1], t[p + 2], t[p + 3]];
    }
  }

  lemma FourSteps(t: bytes, p: nat)
    requires p <= |t|
    ensures var a, b, c, d := HexValue(At(t, p)), HexValue(At(t, p + 1)), HexValue(At(t, p + 2)), HexValue(At(t, p + 3));
      if a != -1 && b != -1 && c != -1 && d != -1
      then p + 4 <= |t| && HexAt(t, p, 4, 0) == Done(16 * (16 * (16 * a + b) + c) + d, p + 4)
      else HexAt(t, p, 4, 0).Fail?
  {
    HexStep(t, p, 4, 0);
    if HexValue(At(t, p)) != -1 {
      var v := HexValue(At(t, p));
      HexStep(t, p + 1, 3, v);
      if HexValue(At(t, p + 1)) != -1 {
        v := 16 * v + HexValue(At(t, p + 1));
        HexStep(t, p + 2, 2, v);
        if HexValue(At(t, p + 2)) != -1 {
          v := 16 * v + HexValue(At(t, p + 2));
          HexStep(t, p + 3, 1, v);
        }
      }
    }
  }

  lemma HexStep(t: bytes, p: nat, n: nat, v: nat)
    requires p <= |t| && n > 0
    ensures HexAt(t, p, n, v) ==
      if HexValue(At(t, p)) == -1 then Fail(EscapeError, p)
      else if n == 1 then Done(16 * v + HexValue(At(t, p)), p + 1)
      else HexAt(t, p + 1, n - 1, 16 * v + HexValue(At(t, p)))
  {
  }


  lemma EscapeSound(t: bytes, p: nat, validate: bool) returns (c: Piece)
    requires p < |t| && t[p] == BACKSLASH && EscapeAt(t, p).Done?
    ensures WfPiece(c, validate) && Occurs(t, p, PieceText(c, validate))
    ensures EscapeAt(t, p).pos == p + |PieceText(c, validate)|
    ensures PieceBytes(c, validate) == Encode(EscapeAt(t, p).val)
  {
    if Unescape(At(t, p + 1)) != 0 {
      hide HexAt;
      c := Short(At(t, p + 1));
      assert t[p..p + 2] == [BACKSLASH, c.e];
    } else {
      c := UnicodeSound(t, p, validate);
    }
  }

  lemma UnicodeSound(t: bytes, p: nat, validate: bool) returns (c: Piece)
    requires p < |t| && t[p] == BACKSLASH && EscapeAt(t, p).Done? && Unescape(At(t, p + 1)) == 0
    ensures (c.Unicode? || c.Pair?) && WfPiece(c, validate) && Occurs(t, p, PieceText(c, validate))
    ensures EscapeAt(t, p).pos == p + |PieceText(c, validate)|
    ensures PieceBytes(c, validate) == Encode(EscapeAt(t, p).val)
  {
    hide Occurs, Encode, HexAt, Unescape;
    var h := HexSound(t, p);
    if !IsSurrogate(Hex4(h)) {
      c := Unicode(h);
    } else {
      var l := HexSound(t, p + 6);
      c := Pair(h, l);
      OccursSplit(t, p, [BACKSLASH, 'u' as int] + h, [BACKSLASH, 'u' as int] + l);
    }
  }

  lemma HexSound(t: bytes, p: nat) returns (h: bytes)
    requires p + 2 <= |t| && At(t, p) == BACKSLASH && At(t, p + 1) == 'u' as int && HexAt(t, p + 2, 4, 0).Done?
    ensures IsHex4(h) && Occurs(t, p, [BACKSLASH, 'u' as int] + h)
    ensures HexAt(t, p + 2, 4, 0) == Done(Hex4(h), p + 6)
  {
    HexAtIsHex4(t, p + 2);
    h := t[p + 2..p + 6];
    assert t[p..p + 6] == [t[p], t[p + 1]] + h;
  }

  lemma EscapeComplete(t: bytes, p: nat, c: Piece, validate: bool)
    requires WfPiece(c, validate) && (c.Short? || c.Unicode? || c.Pair?)
    requires Occurs(t, p, PieceText(c, validate))
    ensures At(t, p) == BACKSLASH && EscapeAt(t, p).Done?
    ensures EscapeAt(t, p).pos == p + |PieceText(c, validate)|
    ensures Encode(EscapeAt(t, p).val) == PieceBytes(c, validate)
  {
    hide Occurs, HexAt;
    var text := PieceText(c, validate);
    OccursAt(t, p, text, 0);
    OccursAt(t, p, text, 1);
    if c.Unicode? {
      HexOccurs(t, p, c.hex);
    } else if c.Pair? {
      var first := [BACKSLASH, 'u' as int] + c.high;
      OccursSplit(t, p, first, [BACKSLASH, 'u' as int] + c.low);
      HexOccurs(t, p, c.high);
      HexOccurs(t, p + 6, c.low);
      OccursAt(t, p, text, 6);
      OccursAt(t, p, text, 7);
    }
  }

  lemma HexOccurs(t: bytes, p: nat, h: bytes)
    requires IsHex4(h) && Occurs(t, p, [BACKSLASH, 'u' as int] + h)
    ensures HexAt(t, p + 2, 4, 0) == Done(Hex4(h), p + 6)
    ensures At(t, p) == BACKSLASH && At(t, p + 1) == 'u' as int
  {
    OccursSplit(t, p, [BACKSLASH, 'u' as int], h);
    OccursAt(t, p, [BACKSLASH, 'u' as int], 0);
    OccursAt(t, p, [BACKSLASH, 'u' as int], 1);
    HexAtIsHex4(t, p + 2);
  }

  /** One piece is read as its bytes. */
  lemma PieceComplete(t: bytes, p: nat, q: nat, c: Piece, validate: bool)
    requires WfPiece(c, validate) && Occurs(t, p, PieceText(c, validate)) && q == p + |PieceText(c, validate)|
    ensures StringAt(t, p, validate) == Prepend(PieceBytes(c, validate), StringAt(t, q, validate))
  {
    hide StringAt, Occurs, Encode, EscapeAt;
    match c
    case Raw(b) => RawComplete(t, p, c, validate);
    case Multi(cp) => MultiComplete(t, p, cp);
    case _ =>
      EscapeComplete(t, p, c, validate);
      BackslashStep(t, p, validate);
  }

  lemma RawComplete(t: bytes, p: nat, c: Piece, validate: bool)
    requires c.Raw? && WfPiece(c, validate) && Occurs(t, p, [c.b])
    ensures StringAt(t, p, validate) == Prepend([c.b], StringAt(t, p + 1, validate))
  {
    OccursAt(t, p, [c.b], 0);
    assert t[p..p + 1] == [c.b];
  }

  lemma MultiComplete(t: bytes, p: nat, cp: nat)
    requires cp >= 0x80 && IsValidCodepoint(cp) && Occurs(t, p, Encode(cp))
    ensures StringAt(t, p, true) == Prepend(Encode(cp), StringAt(t, p + |Encode(cp)|, true))
  {
    MultiLead(cp);
    hide Encode, SequenceLength;
    OccursAt(t, p, Encode(cp), 0);
    EncodingValidates(cp, t, p);
  }

  lemma BackslashStep(t: bytes, p: nat, validate: bool)
    requires At(t, p) == BACKSLASH && EscapeAt(t, p).Done?
    ensures StringAt(t, p, validate) == Prepend(Encode(EscapeAt(t, p).val), StringAt(t, EscapeAt(t, p).pos, validate))
  {
    hide Encode, EscapeAt;
  }

  lemma MultiLead(cp: nat)
    requires IsValidCodepoint(cp)
    ensures cp >= 0x80 <==> Encode(cp)[0] >= 0x80
  {
  }

  lemma Cons(c: Piece, cs: seq<Piece>, validate: bool)
    requires WfPiece(c, validate) && WfPieces(cs, validate)
    ensures WfPieces([c] + cs, validate)
    ensures PiecesText([c] + cs, validate) == PieceText(c, validate) + PiecesText(cs, validate)
    ensures PiecesBytes([c] + cs, validate) == PieceBytes(c, validate) + PiecesBytes(cs, validate)
  {
    assert ([c] + cs)[1..] == cs;
  }

  /** A string that starts with a piece is that piece and then a string. */
  lemma ConsOccurs(t: bytes, p: nat, c: Piece, cs: seq<Piece>, validate: bool)
    requires WfPiece(c, validate) && WfPieces(cs, validate)
    ensures WfPieces([c] + cs, validate)
    ensures Occurs(t, p, PiecesText([c] + cs, validate) + [QUOTE])
      <==> (Occurs(t, p, PieceText(c, validate))
            && Occurs(t, p + |PieceText(c, validate)|, PiecesText(cs, validate) + [QUOTE]))
  {
    hide PieceText, PiecesText, PiecesBytes, PieceBytes, Occurs, WfPiece, WfPieces;
    Cons(c, cs, validate);
    SplitQuoted(t, p, PieceText(c, validate), PiecesText(cs, validate));
  }

  lemma SplitQuoted(t: bytes, p: nat, first: bytes, rest: bytes)
    ensures Occurs(t, p, first + rest + [QUOTE]) <==> Occurs(t, p, first) && Occurs(t, p + |first|, rest + [QUOTE])
  {
    hide Occurs;
    assert first + rest + [QUOTE] == first + (rest + [QUOTE]);
    OccursSplit(t, p, first, rest + [QUOTE]);
  }

  lemma QuoteComplete(t: bytes, p: nat, validate: bool)
    requires Occurs(t, p, [QUOTE])
    ensures StringAt(t, p, validate) == Done([], p + 1)
  {
    OccursAt(t, p, [QUOTE], 0);
  }

  /** Every string of the grammar is decoded to the bytes of its pieces. */
  lemma {:induction false} StringComplete(t: bytes, p: nat, cs: seq<Piece>, validate: bool)
    requires WfPieces(cs, validate) && Occurs(t, p, PiecesText(cs, validate) + [QUOTE])
    ensures StringAt(t, p, validate)
         == Done(PiecesBytes(cs, validate), p + |PiecesText(cs, validate)| + 1)
    decreases |cs|
  {
    hide StringAt, PieceText, PieceBytes, Occurs, WfPiece;
    if cs == [] {
      assert [] + [QUOTE] == [QUOTE];
      QuoteComplete(t, p, validate);
    } else {
      var c, rest := cs[0], cs[1..];
      assert cs == [c] + rest;
      ConsOccurs(t, p, c, rest, validate);
      var q := p + |PieceText(c, validate)|;
      StringComplete(t, q, rest, validate);
      ConsRead(t, p, q, c, rest, validate);
    }
  }

  lemma ConsRead(t: bytes, p: nat, q: nat, c: Piece, cs: seq<Piece>, validate: bool)
    requires WfPiece(c, validate) && WfPieces(cs, validate) && Occurs(t, p, PieceText(c, validate))
    requires q == p + |PieceText(c, validate)|
    requires StringAt(t, q, validate) == Done(PiecesBytes(cs, validate), q + |PiecesText(cs, validate)| + 1)
    ensures WfPieces([c] + cs, validate)
    ensures StringAt(t, p, validate)
         == Done(PiecesBytes([c] + cs, validate), p + |PiecesText([c] + cs, validate)| + 1)
  {
    PieceComplete(t, p, q, c, validate);
    Cons(c, cs, validate);
    var n := q + |PiecesText(cs, validate)| + 1;
    assert n == p + |PiecesText([c] + cs, validate)| + 1;
    assert Prepend(PieceBytes(c, validate), Done(PiecesBytes(cs, validate), n)) == Done(PiecesBytes([c] + cs, validate), n);
  }

  lemma FirstPiece(t: bytes, p: nat, validate: bool) returns (c: Piece)
    requires p <= |t| && StringAt(t, p, validate).Done? && At(t, p) != QUOTE
    ensures WfPiece(c, validate) && Occurs(t, p, PieceText(c, validate))
  {
    var b := At(t, p);
    if b == BACKSLASH {
      c := EscapeSound(t, p, validate);
    } else if validate && b >= 0x80 {
      var cp := ValidatedIsEncoding(t, p);
      MultiLead(cp);
      OccursAt(t, p, Encode(cp), 0);
      c := Multi(cp);
    } else {
      c := Raw(b);
      assert t[p..p + 1] == [b];
    }
  }

  lemma OccursFits(t: bytes, p: nat, u: bytes)
    requires Occurs(t, p, u)
    ensures p + |u| <= |t|
  {
  }

  lemma ByteOccurs(t: bytes, p: nat)
    requires p < |t|
    ensures Occurs(t, p, [t[p]])
  {
  }

  lemma PrependDone(b: bytes, r: Token<bytes>)
    ensures Prepend(b, r).Done? <==> r.Done?
  {
  }

  /** What is decoded is a string of the grammar. */
  lemma {:induction false} StringSound(t: bytes, p: nat, validate: bool) returns (cs: seq<Piece>)
    requires p <= |t| && StringAt(t, p, validate).Done?
    ensures WfPieces(cs, validate) && Occurs(t, p, PiecesText(cs, validate) + [QUOTE])
    ensures StringAt(t, p, validate)
         == Done(PiecesBytes(cs, validate), p + |PiecesText(cs, validate)| + 1)
    decreases |t| - p
  {
    hide StringAt, PieceText, PieceBytes, WfPiece, Occurs;
    if At(t, p) == QUOTE {
      cs := [];
      ByteOccurs(t, p);
      assert [] + [QUOTE] == [QUOTE];
    } else {
      hide PiecesText, PiecesBytes;
      var c := FirstPiece(t, p, validate);
      OccursFits(t, p, PieceText(c, validate));
      var q := p + |PieceText(c, validate)|;
      PieceComplete(t, p, q, c, validate);
      PrependDone(PieceBytes(c, validate), StringAt(t, q, validate));
      var rest := StringSound(t, q, validate);
      cs := [c] + rest;
      ConsOccurs(t, p, c, rest, validate);
    }
    StringComplete(t, p, cs, validate);
  }
}
