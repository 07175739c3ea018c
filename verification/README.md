# jsnpg: a model and its proofs

jsnpg is a JSON library with a parser that delivers events (SAX), a pull parser that returns one item for
each call, a printer, and a record of events that can be replayed. This project models these parts in Dafny
and proves that they fit together: the parsers against the grammar of RFC 8259, the printer against a
recursive serialiser, and the two against each other.

## How it is laid out

Code that changes things step by step is modelled by classes and methods over arrays; each method is proved
against a function, and the properties are lemmas about these functions.

- `Base`, `Decimal`: bytes, events, outcomes; powers of ten and digit strings.
- `Stack`: the bit stack, a refinement of a sequence of booleans.
- `Utf8`, `Text`, `Gap`, `Grammar`: encoding; white space, comments, escapes and strings as functions from
  position to position; white space and comments as texts; the grammar of RFC 8259, with what the flags add to
  it, as concrete syntax trees with their texts and events.
- `Number`: literals, their scan, and what is kept of them.
- `Spelling`, `Errors`, `Writing`: what is read, reported and written, with the bytes, bounds and codes spelled out.
- `Input`, `Parser`, `NumberParser`: the cursor machine that decodes strings inside the input buffer, and the
  token parsers over it.
- `Descent`, `Loop`, `Sax`: the recursive descent that is the reference, the flattened loop as a function, and
  the methods with the loops of the source.
- `Conformance`, `Language`, `Front`, `Agreement`, `Options`, `Cursor`: the descent against the grammar, in both
  directions; which texts each parser accepts, to the end or before trailing characters; when the two deliver the
  same; when more flags accept what fewer do; where the cursor can end.
- `Events`, `Delivery`, `Generate`, `Lockstep`: value trees and the generator's checks, what giving it events
  does, its methods, and that it follows the parser event by event and its checks never fail along a parse.
- `PullMachine`, `PullParser`: the resumable parser as a state machine, and its methods.
- `Escape`, `Output`, `Printing`, `Printer`, `Squeeze`, `Layout`: escaping, the growable buffer, the flag machine and
  the serialiser, the callbacks, and what indentation adds and where.
- `DigitPairs`, `Itoa`, `RealText`, `RealForm`, `FormatDigits`, `Pow5`: numbers to text, and the divisibility test.
- `RoundTrip`: printing a value and parsing the text.
- `Dom`: the chunked record and its replay.

A text has no terminator in the model: `At(t, p)` is 0 from its end on, as the NUL byte behind the buffer is.
Bit masks and shifts on integers are written as the divisions and remainders by powers of two that they are;
the bit stack keeps its bytes as bit-vectors. Unsigned arithmetic that wraps around in the source
(`dom_size_align`, the printer's level, `i64toa`, the stack's byte offset, the divisibility test) wraps around
here.

## What the code does that one might not expect

- `stack_push` casts the byte offset to eight bits, so depths from 2048 on share the bits of lower ones
  (`Stack.PushIsExact`). Parsers and generators are modelled for stacks of at most 2048 entries.
- A generator allocates one byte for eight entries of its stack, rounded down, a parser rounded up. With a size
  that is no multiple of eight, the deepest pushes write behind the generator's memory: with 1025 entries the one
  at depth 1024 (`Stack.GeneratorFitsIff`, `Stack.GeneratorWritesInsideIff`).
- The SAX loop leaves on a comma before it asks whether it is at the top level, so it accepts a list of values
  such as `1,2`. The grammar it is compared with is generalised to such lists, and `Agreement.JsonIffBoth` says
  which of them are JSON.
- The pull parser does not ask for the comma between members (`Agreement.MissingCommaIsAccepted`). A text it
  accepts is JSON, and accepted by the SAX parser, exactly when no such comma is missing (`Agreement.PullThenSax`).
- With trailing commas allowed the SAX parser accepts a comma on its own in an empty container, the pull parser
  does not (`Agreement.LoneCommaIsAccepted`). The two deliver the same on exactly the texts of one value without
  such a comma (`Agreement.SaxThenPull`).
- With multiple values allowed, a top-level scalar behind another value makes the pull parser's assertion on its
  state fail, for instance the second number of `1 2` (`Agreement.SecondScalarBreaks`), and nothing else does
  (`PullMachine.AbortIff`, `Agreement.BreaksIffScalar`).
- With multiple values allowed nothing need stand between two values: `truefalse` and `01` are two each
  (`Agreement.WordsBesideEachOther`, `Agreement.DigitBehindZero`). Only a number that is no zero needs something
  between it and a digit (`Grammar.Apart`).
- Where trailing characters are allowed, allowing more can reject a text: comments (`Agreement.CommentsCanReject`)
  and multiple values (`Agreement.MultipleCanReject`). `Options.TrailingAcceptMoreIff` says exactly when further flags
  deliver the same; a text that is read to its end they only ever accept (`Options.MoreOptionsAcceptMore`).
- A second value that is printed at the top level has a comma before it when the first is a scalar, and nothing
  before it when the first is a container (`Writing.TopLevelCommas`).
- A comment that nothing ends, or that holds a NUL byte, ends with the text and is accepted behind the last value
  (`Gap.IsOpenComment`).
- `dom_parse` reads the first node before it asks whether the first chunk holds one. The memory there is not
  initialised when the record is empty or its first event has a payload of more than 8136 bytes
  (`Dom.FirstFitsIff`); nothing is known of the result then (`Dom.DomParse`).
- A minus sign that ends the text where a value is read moves the cursor behind the NUL byte before the error, and
  nothing else does (`Cursor.SaxInside`, `Cursor.PullInside`, `Cursor.MinusPasses`).
- `FormatDigits` admits exponents for which the exponent it writes would need four digits; it then writes a byte
  that is no digit (`RealText.TextIsNumberIff`). No double has such a shortest decimal.

## Model

| member | source | states |
|---|---|---|
| Stack.PushIsExact | src/stack.c:37-51 | Storing a bit at a depth pushes it, whatever was stored before, exactly for depths below 2048 (or where the bits happen to agree): the byte offset is cast to eight bits |
| Stack.StoreUpdates | src/stack.c:42-50 | Setting or clearing the masked bit in the byte at the cast offset changes one bit of the stack, that of the depth modulo 2048 |
| Stack.PeekIsBitAt | src/stack.c:14-20 | Shifting and masking a byte reads the bit that the push wrote |
| Stack.BitStack.Peek | src/stack.c:14-20 | The kind of the innermost open container, or underflow |
| Stack.BitStack.Pop | src/stack.c:22-35 | Drops the innermost container; the result is the kind of the one around it, "none" or underflow |
| Stack.BitStack.Push | src/stack.c:37-51 | Refines appending to a sequence of booleans up to size 2048 where the write lies inside the memory; above the size nothing changes |
| Stack.GeneratorFitsIff | src/generate.c:157-181 | All pushes that the size allows write inside the generator's memory exactly when the size is a multiple of eight |
| Stack.GeneratorWritesInsideIff | src/generate.c:163-164 | A push writes inside exactly below the last multiple of eight (also src/stack.c:37-51) |
| Stack.ParserWritesInside | src/parser.c:482-502 | Every push on the parser's stack writes inside its memory |
| Utf8.EncodeInto | src/utf8.c:75-113 | Writes exactly the bytes RFC 3629 assigns to the code point and leaves all others unchanged |
| Utf8.ValidateSequence | src/utf8.c:119-164 | The loop over lead and continuation bytes computes the sequence length of the specification, also where a NUL byte stands in for missing bytes |
| Utf8.ValidIffEncoding | src/utf8.c:119-164 | A prefix of n bytes validates exactly when it is the encoding of a valid non-surrogate code point, so overlong forms, surrogates and values above 10FFFF are rejected |
| Utf8.EncodeAllInjective | src/utf8.c:75-164 | Encoding is uniquely decodable over whole strings |
| Input.InputStream.FindByte | src/input.c:80-89 | strchr from the cursor: the first occurrence, or the end of the text where a NUL byte or the end comes first |
| Input.InputStream.Consume | src/input.c:91-98 | Takes the byte if it is the expected one |
| Input.InputStream.ValidateUtf8 | src/input.c:100-108 | The probe of four bytes decides as the whole text would, and the cursor stays within the text |
| Input.InputStream.StringStart | src/input.c:110-115 | An open string with nothing decoded |
| Input.InputStream.StringUpdate | src/input.c:117-128 | Moves the bytes since the last escape behind the decoded ones; nothing else before or after is lost |
| Input.InputStream.PutCodepoint | src/input.c:130-138 | A code point is written over bytes already read, never over unread ones, and the next stretch starts at the cursor |
| Input.InputStream.StringComplete | src/input.c:145-159 | The slice returned holds what was decoded |
| Parser.ParseHex4 | src/parser.c:163-183 | Four hexadecimal digits, or the error at the first byte that is none |
| Parser.ParseEscape | src/parser.c:185-229 | Short escapes, code points and surrogate pairs, with the error and its position for every malformed one |
| Parser.ConsumeWhitespace | src/parser.c:231-279 | White space and comments, nested loops included, end where the specification ends them |
| Gap.GapSkip | src/parser.c:231-279 | White space and complete comments are skipped, whatever follows |
| Gap.SpaceCut | src/parser.c:231-279 | What is skipped is white space and complete comments, and perhaps a comment that nothing ends before the end of the text |
| Parser.ParseWord | src/parser.c:123-161 | The literal names, or the error where the text departs from them |
| Spelling.NamesAreRead | src/parser.c:123-161 | The bytes 6E 75 6C 6C are what is read as null, 74 72 75 65 as true and 66 61 6C 73 65 as false (also src/parse.c:132-148) |
| Spelling.BrokenName | src/parser.c:123-161 | A name is the error "unexpected" at the first byte where the text departs from it |
| Spelling.FirstBytes | src/parse.c:80-159 | No value starts with any byte but the seventeen that RFC 8259 gives one; another is the error "unexpected" there |
| Spelling.BlankBytes | src/parser.c:231-241 | The bytes 20, 09, 0A and 0D are skipped, and no others where comments are not allowed |
| Spelling.BlockBytes | src/parser.c:243-279 | A block comment between 2F 2A and the first 2A 2F is skipped |
| Spelling.LineBytes | src/parser.c:243-279 | A line comment from 2F 2F to the first 0A is skipped |
| Spelling.NulInComment | src/input.c:80-89 | A comment in which a NUL byte or the end of the text comes first takes the rest of the text (also src/parser.c:243-279) |
| Spelling.LoneSlash | src/parser.c:272-276 | A slash with neither a slash nor a star behind it is an error behind it |
| Spelling.BracketsAreRead | src/parse.c:80-121 | The bytes 5B and 7B start an array and an object, 5D and 7D end an empty one |
| Spelling.SeparatorsAreRead | src/parse.c:161-185 | Behind an element 2C leads to the next one, and 5D or 7D ends the container |
| Spelling.TrailingIsRead | src/parse.c:163-169 | With trailing commas allowed 2C before 5D or 7D is dropped |
| Spelling.ColonIsRead | src/parse.c:64-75 | A key is a string behind 22 with 3A behind it |
| Parser.ParseStringInStream | src/parser.c:281-305 | In-place decoding is the functional decoding of the original text, for every string and every error; the bytes before the string are unchanged, so slices returned earlier stay what they were |
| Grammar.StringComplete | src/parser.c:281-305 | Every string of the grammar (section 7 of RFC 8259) is decoded to the bytes it stands for |
| Spelling.ShortEscapes | src/parser.c:185-229 | The eight escapes of two characters, byte by byte; behind a backslash anything else but u is the error "escape" there |
| Spelling.UnicodeIsRead | src/parser.c:163-183 | Four hexadecimal digits in either case stand for the code point they denote, unless it is a surrogate (also src/parser.c:203-225) |
| Spelling.PairIsRead | src/parser.c:203-225 | For every code point above FFFF the escapes of D800 plus the high and DC00 plus the low ten bits of what it exceeds 10000 by, in hexadecimal, stand for it |
| Spelling.EscapeIsDecoded | src/parser.c:281-305 | An escape in a string adds the bytes of its code point |
| Spelling.EncodingBytes | src/utf8.c:75-113 | The bytes of a code point carry its bits, five, four or three in the first and six in each other, as section 3 of RFC 3629 lays down |
| Spelling.Utf8Table | src/utf8.c:119-164 | The valid sequences are those of the table in section 4 of RFC 3629 |
| Spelling.StringBytes | src/parser.c:281-328 | Every byte of a string that starts no escape: the quote ends it, bytes below 20 and invalid UTF-8 are errors where they stand, the others stand for themselves |
| Spelling.BrokenHex | src/parser.c:163-183 | The first byte of four that is no hexadecimal digit is the error "escape" there |
| Spelling.LoneSurrogates | src/parser.c:203-225 | A low surrogate on its own, and a high one with no escape behind it, are the error "surrogate", with its place |
| Spelling.BrokenPair | src/parser.c:203-225 | A high surrogate and an escape that is no low one are the error "surrogate" behind both |
| Grammar.StringSound | src/parser.c:281-305 | What is decoded is a string of the grammar, with no unescaped quote or control byte and, with validation, only UTF-8 |
| NumberParser.ParseNumber | src/parser.c:330-458 | The loops over digits, with unsigned 64-bit accumulation, compute the token of the specification: kind, value, error and position; a real is the literal that stands there with sign, scale and all but its dropped low digits |
| NumberParser.ParseLiteral | src/parser.c:359-432 | Sign, digits, fraction and exponent accumulate to the significand and exponent of the literal and the sum stays below 2^64 |
| Number.SignificandKept | src/parser.c:359-432 | The significand kept is below 10^19, is the coefficient without its k low digits, is exact up to 19 digits, and has 19 digits whenever one was dropped |
| Number.IntegerIffFits | src/parser.c:434-457 | A literal is delivered as an integer exactly when it has no fraction or exponent and fits a signed 64-bit number, and then exactly |
| Spelling.IntegerRange | src/parser.c:434-457 | The same with the bounds spelled out: -9223372036854775808 and 9223372036854775807 |
| Number.RealIsKept | src/parser.c:330-458 | Any other literal is delivered with its sign, with at most 19 digits, which are all but the k low ones of its coefficient, and with its scale raised by k; below 10^19 nothing is dropped |
| Number.NumberIsKept | src/parser.c:330-458 | So is every number of a text that is delivered as a real |
| Spelling.NumberBytes | src/parser.c:330-432 | The bytes of a literal: 2D, digits, 2E and digits, 65 or 45 with 2B or 2D and digits |
| Spelling.ExponentTooLarge | src/parser.c:421-429 | The digit at which an exponent exceeds 1000 is a number error |
| Spelling.BrokenNumbers | src/parser.c:359-432 | Where a digit is missing behind the sign, the point or the exponent mark is a number error, with its place |
| Spelling.NotFinite | src/parser.c:434-457 | A real that converts to no finite double is a number error behind it |
| Number.ScanSound | src/parser.c:359-432 | What the scan accepts is a literal of section 6 of RFC 8259 |
| Number.ScanIff | src/parser.c:359-432 | Where a literal of the grammar with an exponent of at most 1000 stands in a text, it is scanned as itself exactly when the next byte does not continue it: no digit behind an exponent or, but for a zero, elsewhere, no point behind the integer part, no exponent mark before the exponent |
| Sax.ReadScalar | src/parse.c:124-159 | The switch on the first byte of a value that is no container |
| Sax.ReadKey | src/parse.c:65-72 | A key up to its colon, with the error where either is missing |
| Errors.NoKey | src/parse.c:62-64 | Where a key has to stand anything but a quote is the error "expected key" |
| Errors.BrokenKey | src/parse.c:64-69 | A key without a colon is the error "expected key" where the colon is missing; a broken one has the error of its string |
| Errors.KeyBeforeSpace | src/parse.c:71-75 | A key is delivered before the space behind its colon is read |
| Errors.TooDeep | src/parser.c:80-110 | A container for which the stack has no room is a stack overflow behind its bracket |
| Errors.NoSeparator | src/parse.c:161-184 | Behind an element anything but a comma or the matching bracket is the error "unexpected" there |
| Errors.LoneCommaThenMore | src/parse.c:86-91 | A comma behind an opening bracket that no closing one follows is the error "unexpected" behind it |
| Errors.Trailing | src/parse.c:202-208 | What follows the last value is the error "unexpected" where nothing may follow |
| Errors.PullTrailing | src/parsenext.c:200-213 | The same for the pull parser |
| Sax.JsonParser.GiveEvent | src/parse.c:71 | After every single event that is not refused the generator has the same containers open as the parser, and expects a key exactly where the parser does (also src/parse.c:82-121, src/generate.c:79-147) |
| Sax.JsonParser.ParseOpen | src/parse.c:81-121 | An opening bracket: depth limit, the start event, the comma that trailing commas allow on its own, and the empty container; for any generator, up to an event that it refuses; the two stacks stay equal |
| Sax.JsonParser.ParseAfter | src/parse.c:161-185 | The inner loop closes containers and stops at a comma, at the end of the top-level value or at an event that is refused; throughout, the parser and a generator that starts so hold the same stack, and both stand between values |
| Sax.JsonParser.ParsePass | src/parse.c:60-185 | One pass of the outer loop: key, value and what follows it, for any generator; the two stacks stay equal, also where it ends with an error |
| Sax.JsonParser.ParseGenerate | src/parse.c:40-191 | The flattened loop over the bit stack gives the generator, whatever its state, exactly the events of the recursive descent up to the first it refuses; where it refuses none, the loop stops at the position of the descent with its error, on every input and with every flag; a generator that starts with the same stack keeps the same stack |
| Sax.JsonParser.Parse | src/parse.c:193-218 | The whole parse, with multiple values and trailing characters; a fresh generator refuses an event exactly when more containers are opened at once than its stack holds, one without a stack never |
| Loop.LoopIsDescent | src/parse.c:60-187 | The loop over a sequence of open containers is the recursive descent, errors and positions included |
| Language.SaxComplete | src/parse.c:40-218 | With any flags every document the parser reads (sections 2 to 7 of RFC 8259, with the comments and trailing commas that are allowed, one or more values between commas, several such lists when they are allowed) is accepted within the depth limit, with the events of its tree, and every other document is rejected |
| Language.SaxSound | src/parse.c:40-218 | Every accepted text is the text of such a document |
| Language.SaxIffGrammar | src/parse.c:40-218 | For every combination of comments, trailing commas and multiple values the SAX parser accepts exactly the texts of the documents it reads |
| Front.FrontIff | src/parse.c:40-191 | With trailing characters the SAX parser accepts exactly the texts that start with such a list of values, perhaps with a trailing comma, where what follows ends it: no white space or comment, no comma, no more of a number, and a closing bracket behind a trailing comma (also src/parse.c:196-210) |
| Front.FrontComplete | src/parse.c:40-191 | Such a front is delivered with the events of its tree, and the cursor stops behind it (also src/parse.c:196-210) |
| Language.PullComplete | src/parsenext.c:125-275 | The calls on a document deliver its events and the end, fail, or break on the assertion, as its values say |
| Language.PullSound | src/parsenext.c:125-275 | What is read to the end is a document of one value, or of several of which only the first may be a scalar |
| Language.PullIffGrammar | src/parsenext.c:125-275 | For every combination of flags the pull parser reads to the end exactly the texts of the documents with that verdict |
| Front.ValueFrontIff | src/parsenext.c:200-213 | With trailing characters the pull parser accepts exactly the texts that start with one value that it reads, where no white space, comment or more of a number follows |
| Agreement.PullIffOneValue | src/parsenext.c:125-275 | Without multiple values the pull parser accepts exactly the texts of one value in which no opening bracket is followed by a comma; commas between members are optional |
| Agreement.SaxThenPull | src/parse.c:40-191 | Where the SAX parser accepts, trailing commas and comments allowed or not, the calls of the pull parser deliver the same and then the end exactly when no comma follows the first value and none follows an opening bracket (also src/parsenext.c:125-275) |
| Agreement.SaxThenPullMultiple | src/parse.c:193-218 | The same when multiple values are allowed: the verdict on the document says whether the calls deliver the same, fail or break (also src/parsenext.c:200-218) |
| Agreement.PullThenSax | src/parsenext.c:144-156 | Where the pull parser accepts, the SAX parser delivers the same exactly when no comma is missing between members, and otherwise rejects; without flags the text is JSON exactly then |
| Agreement.JsonIffBoth | src/parse.c:163-168 | Without flags a text is JSON, one value, exactly when both parsers accept it, and then the events are equal (also src/parsenext.c:187-199) |
| Agreement.BreaksIffScalar | src/parsenext.c:33-39 | With multiple values the calls deliver the values one after another, and the assertion fails exactly when one behind the first is a scalar, just before it (also src/parsenext.c:200-218) |
| Agreement.AnyTail | src/parsenext.c:200-213 | One value that is read to the end of the text is read so whatever may follow a value |
| Agreement.ListIsAccepted | src/parse.c:163-168 | The text 1,2 is accepted with two values although it is not JSON, because the loop leaves on a comma before it asks for the top level |
| Agreement.LoneCommaIsAccepted | src/parse.c:86-91 | With trailing commas allowed the SAX parser accepts [,] and the pull parser does not |
| Agreement.MissingCommaIsAccepted | src/parsenext.c:144-156 | The pull parser accepts an object without the comma between its members; the SAX parser does not |
| Agreement.SecondScalarBreaks | src/parsenext.c:33-39 | With multiple values allowed the SAX parser reads 1 2, and the pull parser returns 1 and then fails its assertion (also src/parsenext.c:200-218) |
| Agreement.CommentsCanReject | src/parser.c:272-276 | With trailing characters allowed, a slash behind the value is accepted, and rejected once comments are allowed as well |
| Agreement.MultipleCanReject | src/parse.c:196-210 | With trailing characters allowed, 1 x is accepted, and rejected once multiple values are allowed as well |
| Agreement.WordsBesideEachOther | src/parse.c:196-210 | With multiple values allowed truefalse is two values |
| Agreement.DigitBehindZero | src/parse.c:196-210 | With multiple values allowed 01 is two numbers; the pull parser returns the first and then fails its assertion (also src/parser.c:359-432) |
| Options.MoreOptionsAcceptMore | src/parse.c:40-218 | A text accepted to its end is accepted with any further flags (comments, trailing commas, invalid UTF-8, multiple values, trailing characters) and any deeper stack, and means the same |
| Options.NoTrailing | src/parse.c:196-210 | Where multiple values are allowed it makes no difference whether trailing characters are |
| Options.TrailingGoesOn | src/parse.c:40-218 | What is accepted before trailing characters is read alike with further flags, and then those read on from there: space, a comma and more values, or an error |
| Options.TrailingAcceptMoreIff | src/parse.c:163-168 | Further flags accept such a text with the same events exactly if the space that they skip behind it is not broken, no comma follows it but one before a closing bracket where those are allowed, and, where multiple values are allowed, nothing follows at all (also src/parse.c:196-210, src/parser.c:230-279) |
| Options.PullAcceptsMore | src/parsenext.c:125-275 | A text that the pull parser reads to its end is read so with any further flags |
| Options.PullTrailingAcceptMoreIff | src/parsenext.c:200-213 | Before trailing characters the pull parser delivers the same with further flags exactly if the space they skip is not broken and, where multiple values are allowed, nothing follows it (also src/parser.c:230-279) |
| Options.StringExtends | src/parser.c:281-305 | A string that passes the UTF-8 validation is decoded alike without it |
| Cursor.SaxInside | src/parser.c:361-370 | On every input and with every flag the cursor ends inside the text, except exactly when the text ends with a minus sign where a value is read; then it ends one byte behind the end with a number error |
| Cursor.MinusPasses | src/parser.c:361-370 | The text - is such a text |
| Cursor.PullInside | src/parsenext.c:125-275 | On every input and with every flag a run of the pull parser ends inside the text, except exactly when the text ends with a minus sign where a call reads a value (also src/parser.c:361-370) |
| Events.PassIffPrefix | src/generate.c:16-76 | The generator checks accept an event sequence exactly when it is the beginning of a sequence of well-formed values within the depth limit |
| Events.TreePasses | src/generate.c:16-76 | Every well-formed value within the depth limit passes the checks and leaves them as a value does |
| Events.RunIsSane | src/generate.c:16-76 | On every run of the checks, failing ones included, key_next is only set inside an object |
| Generate.Generator.CanValue | src/generate.c:16-28 | A value is refused where a key has to come |
| Generate.Generator.CanKey | src/generate.c:30-38 | A key is refused where none has to come |
| Generate.Generator.CanPush | src/generate.c:40-53 | A container is refused like a value or for want of stack; a push that is made has to lie inside the memory |
| Generate.Generator.CanPop | src/generate.c:55-76 | The end of a container is refused without one, in one of the other kind, and behind a key |
| Errors.ValueRefused | src/generate.c:16-53 | With which error a value or the start of a container is refused, exactly |
| Errors.KeyRefused | src/generate.c:30-38 | With which error a key is refused |
| Errors.EndRefused | src/generate.c:55-76 | With which error the end of a container is refused |
| Generate.Generator.Deliver | src/generate.c:79-147 | An event is delivered exactly when its check passes; the state, the bit stack included, is that of the checks on sequences |
| Delivery.GiveAll | src/generate.c:79-147 | Given one after the other, events whose checks all pass are all delivered, and the state is that behind them |
| Delivery.GiveSome | src/generate.c:79-147 | Where a check fails, exactly the events before the first that fails are delivered, and the error is the one of its check (also src/common.h:10) |
| Delivery.RoomIffLow | src/generate.c:157-181 | Events that are taken write inside a generator's memory exactly when its size is a multiple of eight or they never open more containers than the memory holds (also src/stack.c:37-51) |
| Lockstep.SaxPasses | src/parse.c:58-187 | On every input no generator check fails during a parse, and the events delivered, also by a failing parse, are the beginning of well-formed values (also src/generate.c:16-76) |
| Lockstep.AfterPasses | src/parse.c:161-185 | Whatever the parse delivers behind a value inside some containers passes the checks from the state those containers determine, and a parse that ends leaves a fresh generator (also src/generate.c:16-76) |
| Lockstep.FollowsEvent | src/generate.c:16-76 | Whatever event is taken, it opens or closes in the generator the container that it does in the parser, and nothing else |
| Lockstep.WaitsBehind | src/generate.c:16-76 | Where the generator waits for what the parser delivers next, a key only between the values of an object, it waits so again behind the event |
| Lockstep.SaxPassesIff | src/parse.c:58-187 | With a stack of any size the checks fail exactly when the parse delivers more open containers than it holds (also src/generate.c:40-53) |
| PullMachine.StepConsistent | src/parsenext.c:17-46 | Between calls, also after errors, the stored state is never a comma state and agrees with the stack: empty at the start and the end, an object or an array on top otherwise (also src/parsenext.c:125-275) |
| PullMachine.AbortIff | src/parsenext.c:33-39 | The assertion on the state fails exactly on a further top-level scalar when multiple values are allowed (also src/parsenext.c:200-218) |
| PullMachine.PullIsDescent | src/parsenext.c:125-275 | With every flag every run of calls, failing and breaking ones included, delivers what a recursive descent delivers that makes commas between members optional and takes no comma on its own |
| PullMachine.AfterEof | src/parsenext.c:135-136 | Once the end was returned every further call fails at the same place, also before trailing characters |
| PullParser.PullParser.ParseNext | src/parsenext.c:125-275 | One call is one step of the state machine; the string or key returned lies in the buffer, and no byte before the old cursor changes |
| PullParser.PullParser.AcceptValue | src/parsenext.c:221-271 | A value where one is expected |
| PullParser.PullParser.AcceptKey | src/parsenext.c:162-174 | A key and its colon |
| PullParser.PullParser.AcceptMore | src/parsenext.c:140-192 | Behind a value: the closing bracket, a comma, and for objects neither |
| PullParser.PullParser.AcceptEof | src/parsenext.c:200-213 | Behind the top-level value: the end, trailing characters, or another value |
| Escape.EscapedIsString | src/output.c:173-240 | What is written for a string is a string of the grammar that stands for its bytes |
| Writing.BytesAreWritten | src/output.c:173-240 | What is written for each byte: the seven escapes of two characters, 00 and two capital hexadecimal digits behind 5C 75 for the other control bytes, and all else as it is |
| Writing.SequencesAreWritten | src/output.c:208-216 | With validation a valid sequence is copied, and an invalid one ends what is written |
| Escape.EscapeRoundTrip | src/output.c:173-240 | Decoding the escaped string between quotes returns the string and ends behind the closing quote (also src/parser.c:281-305) |
| Escape.EscapeOkIff | src/output.c:196-205 | With validation exactly the UTF-8 strings are written, without it all are |
| Escape.NoControlWritten | src/output.c:173-240 | No control byte is ever written |
| Output.OutputStream.Grow | src/output.c:41-64 | Doubling makes enough room and keeps what was written |
| Output.OutputStream.Reserve | src/output.c:66-75 | Room behind what was written |
| Output.OutputStream.PutN | src/output.c:86-95 | Appends n equal bytes |
| Output.OutputStream.Puts | src/output.c:97-104 | Appends a byte string |
| Output.OutputStream.Adjust | src/output.c:106-112 | Gives back room that was not used |
| Output.FindNextSpecial | src/output.c:155-171 | The next byte that cannot be copied |
| Output.OutputStream.ScanEscape | src/output.c:173-240 | The loop that copies runs and escapes single bytes writes the escaped string, up to invalid UTF-8 |
| Printer.JsonOutput.Indent | src/output.c:273-284 | A newline except at the very beginning, and the indentation of the level |
| Printer.JsonOutput.Prefix | src/output.c:286-298 | What the flags put before an event, and the flags behind it |
| Printer.JsonOutput.PrefixStart | src/output.c:300-308 | The same before an opening bracket |
| Printer.JsonOutput.PrefixEnd | src/output.c:310-322 | The same before a closing bracket |
| Printer.JsonOutput.KeySuffix | src/output.c:324-334 | The colon, with a space when there is indentation |
| Printer.JsonOutput.PutInteger | src/output.c:242-255 | The room reserved suffices and exactly the text of the integer remains |
| Printer.JsonOutput.PutReal | src/output.c:257-271 | The same for a real |
| Printer.JsonOutput.PrintString | src/output.c:357-365 | The callback of a string |
| Printer.JsonOutput.PrintKey | src/output.c:367-376 | The callback of a key |
| Printer.JsonOutput.Print | src/output.c:339-437 | Each callback writes what the flag machine says, and fails only on a string that has to be UTF-8 and is not |
| Writing.NamesAreWritten | src/output.c:339-355 | Null and the two booleans are written as the bytes of their names |
| Writing.IntegersArePrintable | src/output.c:242-256 | The integers that can be printed are those from -9223372036854775808 to 9223372036854775807 |
| Writing.BracketsAreWritten | src/output.c:394-424 | Containers are written with the bytes 5B, 5D, 7B and 7D |
| Writing.CompactPrefixes | src/output.c:286-322 | Without indentation only the comma 2C is written between values |
| Writing.StringsAreWritten | src/output.c:324-376 | Strings and keys stand between quotes, and 3A stands behind a key, with 20 behind it where there is indentation |
| Writing.BrokenStrings | src/output.c:173-240 | A string that is not valid is written up to what is wrong with it, and printing fails (also src/output.c:357-376) |
| Writing.LevelsWrap | src/output.c:300-322 | Every start and end of a container moves the level by one, modulo 2^32 |
| Writing.TopLevelCommas | src/output.c:286-322 | A second value at the top level has a comma before it exactly where the first is a scalar |
| Printing.TreePrints | src/output.c:273-424 | For every value, level and indentation the flag machine writes what the recursive serialiser writes |
| Printing.ForestPrints | src/output.c:273-424 | The same for the items of an array and the members of an object |
| Squeeze.PrintOkIff | src/output.c:357-376 | Printing a value fails exactly where one of its strings has to be UTF-8 and is not |
| Squeeze.PrettyIsCompact | src/output.c:273-334 | Taking the white space outside strings out of the indented text leaves the compact text |
| Layout.IndentedIsSpread | src/output.c:273-334 | The indented text is the compact text with indentation put in by a scan of its bytes: lines behind commas and opening brackets and before closing ones, nothing in empty containers, a space behind colons |
| Layout.PrintedIsLaidOut | src/output.c:273-334 | In a printed text every line feed outside strings is followed by exactly indent * n spaces modulo 2^32, where n brackets are open, one fewer before a closing bracket; every item and member starts on such a line, and every closing bracket but that of an empty container |
| RoundTrip.PrintedIsJson | src/output.c:339-424 | The printed text of a value is one value of the grammar that stands for it and that both parsers read (also src/parse.c:40-191) |
| RoundTrip.PrintThenParse | src/output.c:286-424 | For every value within the depth limit and every indentation the printed text is JSON, and with any flags both parsers deliver the events printed, reals equal as decimals, and end at the end of the text (also src/parse.c:40-218, src/parsenext.c:125-275) |
| Itoa.U64toa | src/thirdparty/itoa.c:37-202 | In every branch the canonical decimal text, in at most 20 bytes |
| Itoa.I64toa | src/thirdparty/itoa.c:204-213 | The canonical text of any signed 64-bit number, -2^63 included |
| Itoa.IntegerReadsBack | src/thirdparty/itoa.c:204-213 | The parser reads that text as that integer (also src/parser.c:359-457) |
| DigitPairs.Tens | src/thirdparty/itoa.c:21-35 | The first digit of every entry of the table of pairs |
| DigitPairs.Units | src/thirdparty/itoa.c:21-35 | The second digit of every entry of the table of pairs |
| FormatDigits.DecimalLengthIsExact | src/thirdparty/dragonbox.c:1296-1324 | The comparisons yield the number of decimal digits |
| FormatDigits.Put8SkipZeros | src/thirdparty/dragonbox.c:1154-1180 | Eight digits into a buffer of zeros, and the number of trailing zeros |
| FormatDigits.PrintDecimalDigitsBackwards | src/thirdparty/dragonbox.c:1182-1294 | All digits before the end position, nothing else changed, and the number of trailing zeros |
| FormatDigits.FormatDigits | src/thirdparty/dragonbox.c:1326-1458 | The fixed or the scientific text, for every significand of up to 17 digits and every exponent from -999 to 999 |
| FormatDigits.Dtoa | src/thirdparty/dragonbox.c:1460-1513 | Sign and text of a finite double given by its shortest decimal |
| RealText.DoubleReadsBack | src/thirdparty/dragonbox.c:1326-1458 | The text is a number literal that the parser reads as a real, with no digit dropped and equal to the decimal printed (also src/parser.c:359-432) |
| RealForm.HasExponentIff | src/thirdparty/dragonbox.c:1326-1345 | A double is written with an exponent exactly when it is not 0 and is below 10^-7 or not below 10^17 |
| RealForm.DoubleShape | src/thirdparty/dragonbox.c:1326-1458 | Without an exponent it has a fraction, which is 0 or ends with no zero; with one it has a single digit before the point, no zero at the end of a fraction, and an exponent with a sign and without leading zeros |
| RealText.TextIsNumberIff | src/thirdparty/dragonbox.c:1430-1455 | The text is a number of the grammar exactly when the exponent has at most three digits |
| Pow5.MultipleIffDivides | src/thirdparty/dragonbox.c:774-814 | For every 64-bit value and every table entry the wrapped product test holds exactly when the power of five divides the value |
| Pow5.Entry | src/thirdparty/dragonbox.c:781-807 | Every table entry holds the inverse modulo 2^64 and the largest quotient |
| Dom.SizeAligned | src/dom.c:40-43 | The least multiple of the node size, also for size 0, where the unsigned arithmetic wraps around |
| Dom.NodesTake | src/dom.c:72-74 | The writer's allocation and the reader's advance agree for every payload length (also src/dom.c:251-276) |
| Dom.Chunk.Put | src/dom.c:91-137 | The used memory of a chunk is the record of its events |
| Dom.Recording.NodeNext | src/dom.c:72-89 | Room in the current chunk, or in a new chunk linked behind it |
| Dom.Recording.Add | src/dom.c:91-197 | Recording appends the event to the log over all chunks |
| Dom.Chunk.Read | src/dom.c:252-276 | Reading the nodes of an event returns it and the offset behind it |
| Dom.Replay.ParseNext | src/dom.c:238-283 | The calls return the recorded events in order and then the end for ever, whatever chunks they lie in |
| Dom.FirstFitsIff | src/dom.c:48-89 | The first chunk holds any first event but a string or key of more than 8136 bytes |
| Dom.DomParse | src/dom.c:285-364 | Where the first event lies in the first chunk, the events are given to the generator in order, up to the first it refuses; where the first chunk is empty the result is open |

## Left out

- Decimal to double and double to shortest decimal: `compute_float_64`, `strtod` and `ToDecimal64`. Reals are
  decimals, a parameter says which texts of reals convert to a finite double, and the others are number errors.
- Infinities and NaN, which are printed as `inf` and `nan`; a real that the printer is given is finite.
- Layout.PrintedIsLaidOut: asks that every real is printed as a number, which RealText.TextIsNumberIff makes exact.
- RealText.DoubleReadsBack: the exponent of the text must have at most three digits; RealText.TextIsNumberIff shows that the text is no number otherwise.
- RoundTrip.PrintThenParse: asks for strings that the printer and the parser take and for reals that are printed as numbers; Squeeze.PrintOkIff and RealText.TextIsNumberIff say that this is when they are printed.
- Generate.Generator.CanPush: asks that a push that is made lies inside the memory; what one outside does is not modelled.
- Generate.Generator.Deliver: asks the same of the push of its event, and so do Stack.BitStack.Push and the methods that follow; it holds for every size that is a multiple of eight (`Delivery.RoomWhereMultiple`) and for others up to what their memory holds (`Delivery.RoomIffLow`).
- Stack.BitStack.Push: asks that a push that is made lies inside the memory.
- Sax.JsonParser.ParseOpen: asks that every push of the events it gives lies inside the generator's memory.
- Sax.JsonParser.ParseAfter: asks that every push of the events it gives lies inside the generator's memory.
- Sax.JsonParser.ParsePass: asks that every push of the events it gives lies inside the generator's memory.
- Sax.JsonParser.ParseGenerate: asks that every push of the events it gives lies inside the generator's memory.
- Sax.JsonParser.Parse: asks that every push of the events it gives lies inside the generator's memory.
- Stack sizes above 2048, where the bit stack is not a stack (`Stack.PushIsExact`).
- Callbacks that return false, which only end the run; events are recorded instead.
- NumberParser.ParseNumber: delivers the decimal that is kept of a real, not the double made of it.
- FormatDigits.Dtoa: is given the shortest decimal of a finite double.
- Dom.DomParse: asks the same of every push of the recorded events.
- PullMachine.StepConsistent: a call after the error of a minus sign that ends the text, when the cursor is behind the NUL byte, reads memory that is not part of the text (`Cursor.PullInside` says when); that call is not modelled.
- PullParser.PullParser.ParseNext: does not model that call either.
- Allocation and its failure, byte order marks, option plumbing, error texts, `setjmp` (modelled as a result with
  code and position), debug output, and the convenience functions around these.
- Dom.Recording.Add: sizes are below 2^62, so that a size with its headers does not wrap around.
