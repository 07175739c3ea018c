/**
 * The printer: the callbacks that write one event each, over a growable buffer and four flags. Each is
 * proved to write what Printing.Print says.
 */
module Printer {
  import opened Base
  import opened Text
  import opened Escape
  import opened Events
  import opened Output
  import opened Printing
  import Itoa
  import RealText
  import FormatDigits

  const INTEGER_ROOM: nat := 22
  const REAL_ROOM: nat := 64

  class JsonOutput {
    const mos: OutputStream
    const indent: nat
    const validate: bool
    var level: nat
    var nl: bool
    var comma: bool
    var key: bool
    var error: Option<ErrorCode>

    constructor (indent: nat, validate: bool)
      ensures Valid() && fresh(mos) && fresh(mos.buffer)
      ensures Flagged() == START && mos.Contents() == [] && error.None?
      ensures this.indent == indent && this.validate == validate
    {
      mos := new OutputStream(0);
      this.indent, this.validate := indent, validate;
      level, nl, comma, key, error := 0, false, false, false, None;
    }

    ghost predicate Valid()
      reads this, mos
    {
      mos.Valid()
    }

    ghost function Flagged(): Flags
      reads this
    {
      Flags(level, nl, comma, key)
    }

    /** Only text was added, and the buffer is the old one or a new one. */
    twostate predicate Wrote(text: bytes)
      requires old(Valid()) && Valid()
      reads this, mos, mos.buffer
    {
      && mos.Contents() == old(mos.Contents()) + text
      && (mos.buffer == old(mos.buffer) || fresh(mos.buffer))
    }

    method Indent()
      requires Valid()
      modifies this`nl, mos, mos.buffer
      ensures Valid() && nl
      ensures Wrote((if old(nl) then ['\n' as int] else []) + Indentation(indent, level))
    {
      if nl {
        mos.Put('\n' as int);
      } else {
        nl := true;
      }
      mos.PutN(' ' as int, indent * level % TWO32);
      assert Repeat(' ' as int, indent * level % TWO32) == Indentation(indent, level);
    }

    method Prefix()
      requires Valid()
      modifies this`nl, this`comma, this`key, mos, mos.buffer
      ensures Valid() && Wrote(PrefixText(old(Flagged()), indent)) && Flagged() == AfterPrefix(old(Flagged()), indent)
    {
      if !key {
        if comma {
          mos.Put(',' as int);
        }
        if indent > 0 {
          Indent();
        }
      }
      comma := true;
      key := false;
    }

    method PrefixStart()
      requires Valid()
      modifies this`level, this`nl, this`comma, this`key, mos, mos.buffer
      ensures Valid() && Wrote(PrefixText(old(Flagged()), indent)) && Flagged() == AfterStart(old(Flagged()), indent)
    {
      Prefix();
      comma := false;
      level := (level + 1) % TWO32;
    }

    method PrefixEnd()
      requires Valid()
      modifies this`level, this`nl, this`comma, this`key, mos, mos.buffer
      ensures Valid() && Wrote(EndPrefixText(old(Flagged()), indent)) && Flagged() == AfterEnd(old(Flagged()), indent)
    {
      level := (level - 1) % TWO32;
      if comma {
        comma := false;
        Prefix();
      }
      comma := level > 0;
    }

    method KeySuffix()
      requires Valid()
      modifies this`key, mos, mos.buffer
      ensures Valid() && Wrote(ColonText(indent)) && key
    {
      mos.Put(':' as int);
      if indent > 0 {
        mos.Put(' ' as int);
      }
      key := true;
    }

    /** Room for the longest integer is reserved, and what is not used is given back. */
    method PutInteger(n: int)
      requires Valid() && Itoa.IsInt64(n)
      modifies mos, mos.buffer
      ensures Valid() && Wrote(Itoa.IntegerText(n))
    {
      hide Itoa.IntegerText;
      var room := mos.Reserve(INTEGER_ROOM);
      var off := room.value;
      ghost var before := mos.buffer[..off];
      var end := Itoa.I64toa(n, mos.buffer, off);
      assert mos.buffer[..off] == before;
      mos.Adjust(end - off - INTEGER_ROOM);
      assert mos.Contents() == mos.buffer[..off] + mos.buffer[off..end];
    }

    method PutReal(neg: bool, sig: nat, exp: int)
      requires Valid() && RealText.IsShortest(sig, exp)
      modifies mos, mos.buffer
      ensures Valid() && Wrote(RealText.DoubleText(neg, sig, exp))
    {
      hide RealText.DoubleText;
      var room := mos.Reserve(REAL_ROOM);
      var off := room.value;
      ghost var before := mos.buffer[..off];
      var end := FormatDigits.Dtoa(mos.buffer, off, neg, sig, exp);
      assert mos.buffer[..off] == before;
      mos.Adjust(end - off - REAL_ROOM);
      assert mos.Contents() == mos.buffer[..off] + mos.buffer[off..end];
    }

    /** A string between quotes, or the part of it that could be written. */
    method PutQuoted(s: bytes) returns (ok: bool)
      requires Valid()
      modifies this`error, mos, mos.buffer
      ensures Valid() && ok == EscapeFrom(s, 0, validate).ok
      ensures error == if ok then old(error) else Some(Utf8Error)
      ensures Wrote([QUOTE] + EscapeFrom(s, 0, validate).text + if ok then [QUOTE] else [])
    {
      hide EscapeFrom, OutputStream.Contents;
      ghost var before, text := mos.Contents(), EscapeFrom(s, 0, validate).text;
      mos.Put(QUOTE);
      ok := mos.ScanEscape(s, validate);
      Assoc(before, [QUOTE], text);
      if ok {
        mos.Put(QUOTE);
        Assoc(before, [QUOTE] + text, [QUOTE]);
      } else {
        error := Some(Utf8Error);
        assert [QUOTE] + text + [] == [QUOTE] + text;
      }
    }

    /** The event was printed, or as much of it as could be. */
    twostate predicate Did(e: Event, ok: bool)
      requires old(Valid()) && Valid() && Printable(e)
      reads this, mos, mos.buffer
    {
      var p := Printing.Print(old(Flagged()), e, indent, validate);
      && ok == p.ok && Wrote(p.text) && Flagged() == p.next
      && error == if ok then old(error) else Some(Utf8Error)
    }

    method PrintString(s: bytes) returns (ok: bool)
      requires Valid()
      modifies this, mos, mos.buffer
      ensures Valid() && Did(Str(s), ok)
    {
      hide PrefixText, EscapeFrom, OutputStream.Contents;
      ghost var before, f := mos.Contents(), Flagged();
      Prefix();
      ok := PutQuoted(s);
      StringText(before, f, s, indent, validate, [], false);
    }

    method PrintKey(k: bytes) returns (ok: bool)
      requires Valid()
      modifies this, mos, mos.buffer
      ensures Valid() && Did(Key(k), ok)
    {
      hide PrefixText, EscapeFrom, ColonText, OutputStream.Contents;
      ghost var before, f := mos.Contents(), Flagged();
      Prefix();
      ok := PutQuoted(k);
      if ok {
        KeySuffix();
      }
      StringText(before, f, k, indent, validate, ColonText(indent), true);
    }

    method PrintInteger(n: int)
      requires Valid() && Itoa.IsInt64(n)
      modifies this, mos, mos.buffer
      ensures Valid() && Did(Integer(n), true)
    {
      hide PrefixText, OutputStream.Contents, Itoa.IntegerText;
      Assoc(mos.Contents(), PrefixText(Flagged(), indent), Itoa.IntegerText(n));
      Prefix();
      PutInteger(n);
    }

    method PrintReal(neg: bool, sig: nat, exp: int)
      requires Valid() && RealText.IsShortest(sig, exp)
      modifies this, mos, mos.buffer
      ensures Valid() && Did(Real(neg, sig, exp), true)
    {
      hide PrefixText, OutputStream.Contents, RealText.DoubleText;
      Assoc(mos.Contents(), PrefixText(Flagged(), indent), RealText.DoubleText(neg, sig, exp));
      Prefix();
      PutReal(neg, sig, exp);
    }

    method PrintNull()
      requires Valid()
      modifies this, mos, mos.buffer
      ensures Valid() && Did(Null, true)
    {
      hide PrefixText, OutputStream.Contents;
      Assoc(mos.Contents(), PrefixText(Flagged(), indent), NULL);
      Prefix();
      var _ := mos.Puts(NULL);
    }

    method PrintBoolean(b: bool)
      requires Valid()
      modifies this, mos, mos.buffer
      ensures Valid() && Did(Boolean(b), true)
    {
      hide PrefixText, OutputStream.Contents;
      Assoc(mos.Contents(), PrefixText(Flagged(), indent), if b then TRUE else FALSE);
      Prefix();
      var _ := mos.Puts(if b then TRUE else FALSE);
    }

    method PrintStart(isArray: bool)
      requires Valid()
      modifies this, mos, mos.buffer
      ensures Valid() && Did(StartOf(isArray), true)
    {
      hide PrefixText, OutputStream.Contents;
      Assoc(mos.Contents(), PrefixText(Flagged(), indent), [Opener(isArray)]);
      PrefixStart();
      mos.Put(Opener(isArray));
    }

    method PrintEnd(isArray: bool)
      requires Valid()
      modifies this, mos, mos.buffer
      ensures Valid() && Did(EndOf(isArray), true)
    {
      hide EndPrefixText, OutputStream.Contents;
      Assoc(mos.Contents(), EndPrefixText(Flagged(), indent), [Closer(isArray)]);
      PrefixEnd();
      mos.Put(Closer(isArray));
    }

    /** The callback of an event; it fails only on a string that is not UTF-8 where that is asked for. */
    method Print(e: Event) returns (ok: bool)
      requires Valid() && Printable(e)
      modifies this, mos, mos.buffer
      ensures Valid() && Did(e, ok)
    {
      hide Printing.Print, Wrote;
      ok := true;
      match e
      case Null => PrintNull();
      case Boolean(b) => PrintBoolean(b);
      case Integer(n) => PrintInteger(n);
      case Real(neg, sig, exp) => PrintReal(neg, sig, exp);
      case Str(s) => ok := PrintString(s);
      case Key(k) => ok := PrintKey(k);
      case StartArray => PrintStart(true);
      case StartObject => PrintStart(false);
      case EndArray => PrintEnd(true);
      case EndObject => PrintEnd(false);
    }
  }

  /** The pieces of a printed string in the order in which they are written. */
  lemma StringText(before: bytes, f: Flags, s: bytes, indent: nat, validate: bool, suffix: bytes, isKey: bool)
    ensures var e, prefix := EscapeFrom(s, 0, validate), PrefixText(f, indent);
      before + PrintString(f, s, indent, validate, suffix, isKey).text
      == before + prefix + ([QUOTE] + e.text + if e.ok then [QUOTE] else []) + if e.ok then suffix else []
  {
    hide PrefixText, EscapeFrom;
    var e, prefix := EscapeFrom(s, 0, validate), PrefixText(f, indent);
  }
}
