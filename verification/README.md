# libee: a verified model of its JSON engine, its decoder and its encoders

libee turns log records into events (named fields with lists of values) and back. This project models
the parts of it that carry real algorithms and proves what they promise, with the Dafny verifier. It
is meant to be kept beside the C sources; nothing here executes them.

How the pieces fit together:

- **JSON values and text** (`JsonTree`, `JsonString`, `JsonParse`): trees as a pure datatype, the text
  the printer writes for them, and the value, end position or blamed position the recursive-descent
  parser computes. The grammar of RFC 4627, UTF-16 (RFC 2781) and UTF-8 (RFC 3629) are given as
  independent definitions (`Unicode`, `Bits`).
- **The texts that are accepted** (`JsonSyntax`, `NumberSyntax`, `JsonAccepts`, `JsonBlame`): syntax trees
  of JSON text with every blank and every spelling in them, defined without the parser; that the parser
  takes exactly the texts of such trees, with their values; and what the position it blames says about
  a text that it refuses.
- **Numbers** (`Reals`, `Doubles`, `JsonNumber`, `JsonDouble`, `DoubleErrors`, `NumberFormat`,
  `NumberPrecision`, `NumberReread`): a double is the real it holds, and each operation on doubles rounds
  to the nearest one, ties to even, with 53 bits and gradual underflow. `JsonNumber` is what a number text
  denotes, `JsonDouble` the double the parser computes from it step by step, `DoubleErrors` how far that
  is from what the text denotes, `NumberFormat` which of the four formats the printer chooses and what
  its text denotes, `NumberPrecision` how a number is shown by its size alone, and `NumberReread` which
  doubles come back from that text.
- **Theorems about that text** (`JsonRoundTrip`, `JsonReparse`, `JsonLayout`, `ParsedText`): parsing
  undoes printing in both forms, up to the numbers that do not come back; formatting is only white space,
  and it is where a formatter puts it that sees nothing but the text; what is parsed can be printed and
  parsed again.
- **The C code on the heap** (`Nodes`, `NodeTrees`, `NodeLists`, `NodeReferences`, `NodeParser`, `NodePrinter`, with
  `JsonStringCode`, `JsonNumberCode` and `Buffers` for the string and number routines): structs with
  `next`, `prev` and `child` pointers, two-pass routines that measure, allocate and fill an array of
  exactly the size the code computes, and in-place list surgery. A ghost `Shape` says which objects a
  tree owns; `Tree` says which value it stands for, and `Reads` which value a reader sees who follows
  the pointers, through reference items too. Every array index and every null test in these methods is
  checked, so a write outside a buffer would be a verification error. The parser's methods also say that
  they allocate nothing but what they hand out, so that a leak would be one as well.
- **Events** (`Fields`, `Events`): the field with its inline first value and tail-pointer list, and the
  bucket that grows at its tail; `Record` is what a field says.
- **JSON and events** (`JsonEvents`, `JsonEncoder`, `EventRoundTrip`): the flattening walk, the encoder,
  and the theorem across encoder, parser and walk.
- **The internal decoder** (`IntLines`, `IntDecoder`): the state machine over typed lines, what a run of
  lines means, and the line loop over heap events.
- **Text codecs** (`SyslogEncoder`, `PrimitiveTypes`, `Timestamps`): structured data of RFC 5424 with an
  inverse, the recognisers of dates, times and addresses against numeric ranges, and the grammar of the
  timestamps that are taken.

Text that the C code only reads is a byte sequence with its terminator; buffers it fills are arrays.
Callbacks, time and memory are parameters or are absent: the line callback of the decoder is a
sequence of lines and a final code, the event callback is the sequence of events it was given.

## Where the code departs from the obvious claim

The code was kept as it is; where a property fails, the exact condition under which it holds is proved,
unless the entry says otherwise.

- `src/cjson/cjson.c:177` ors `0x10000` into the twenty bits of a surrogate pair where UTF-16 adds it. The
  two agree exactly when bit 6 of the high half is clear (`Bits.SurrogatePairExact`). `\u0000` vanishes
  (`src/cjson/cjson.c:170`). So a string literal whose units denote something in UTF-16 decodes as the
  standards say exactly when no unit is zero and no pair has that bit set (`JsonString.MeaningIsUtf16`);
  `ParsedText.Bit6PairExample` and `ParsedText.ZeroUnitExample` are two texts that do not.
- Unpaired halves, which denote nothing, vanish, and a high half swallows an escaped unit after it that
  is not a low half (`src/cjson/cjson.c:170-176`; `JsonString.MeaningOfGroups`).
- The parser accepts more than RFC 4627 has: every control character is a blank between tokens and itself
  in a literal, any letter may follow a backslash, a number may lack its digits or begin with a zero before
  other digits, an exponent may lack its digits, a literal at the outermost level may end with the text, and what is
  behind the value does not matter. `JsonAccepts.ValueParses` is an if-and-only-if with exactly these texts.
- Printing and parsing again changes some numbers. A value comes back if and only if all its numbers do
  (`JsonReparse.PrintParseIdentity`), and a number does if and only if it is, depending on the format it is
  printed in, an int, a larger integer that its own digits accumulate to in doubles, the rounded product
  of some integer with the double nearest to a millionth, or that of seven digits with the double nearest
  to some power of ten (`NumberReread.RereadIsSame`). Integers of at most 53 bits always come back
  (`JsonReparse.SmallIntegersKept`), and so do larger ones that end in enough zeros
  (`NumberReread.ZerosKept`); for the others the condition is the digit loop itself. Two to the 58th and one 128th do not come back
  (`JsonReparse.LargeIntegerExample`, `JsonReparse.FractionExample`), the double nearest to three tenths
  does (`JsonReparse.TenthsExample`).
- The parser does not read every number text as the double nearest to what it denotes, since it rounds
  along the way (`src/cjson/cjson.c:103-112`). It does when the digits have at most 53 bits and the
  exponent, less one for each digit behind the point, is from 0 to 22 (`JsonDouble.ReadsNearest`);
  `NumberReread.TenthExample` is a text with exponent -6 where it does not. That this is the only range in
  which it does is not claimed, and is not so. For every text, whatever its digits and its exponent, the
  double is within a count of roundings of what the text denotes, unless the power of ten is subnormal
  (`DoubleErrors.ReadsNear`).
- The parser presumes complete escapes. `CText.Outside` is that presumption, stated for the whole text,
  also behind the value that is read; printed and encoded text meets it (`JsonRoundTrip.PrintTame`,
  `EventRoundTrip.EventTextTame`).
- The printer formats numbers other than ints into 64 bytes without checking that they fit. A double
  fits unless it is printed as an integer of more than 63 digits, or of more than 62 with a sign
  (`NumberFormat.DoublesFit`, an if-and-only-if); two to the 210th is one that does not
  (`NumberFormat.OverrunExample`). The printer's methods and `ee_newEventFromJSON` say so: they have no
  result, or `ok` is false, exactly where some number does not fit, and promise nothing more then.
- Field names are encoded without escaping (`src/json_enc.c:145`). `EventRoundTrip.PlainName` is what the
  round trip asks of them, and it cannot be dropped: a name with quotes in it can read as another field,
  and no event with a field of such a name among fields with plain names, which in ultra-compact mode all
  have values, comes back (`EventRoundTrip.ForgedNameBreaks`). That every other name that is not plain
  fails as well is not claimed.
- In ultra-compact mode a field without values writes one quote character (`src/json_enc.c:151-153`). Such an
  event never comes back; all others do (`EventRoundTrip.EventRoundTrips`, an if-and-only-if).
- In syslog text a field without values looks like one with an empty value; nothing else is confused
  (`SyslogEncoder.TextDetermines`, an if-and-only-if).
- At the end of input the internal decoder overwrites the code with which the input ended when an event
  is still open (`src/int_dec.c:181-189`): a run over acceptable lines that ends with a read error reports
  success if and only if an event line was read (`IntDecoder.ErrorLostWhen`,
  `IntDecoder.ErrorLostExample`).
- The numeric time-zone branch of the timestamp parser does not count the colon
  (`src/primitivetype.c:209-211`): it looks at the byte behind the text and leaves the space it would take
  after `Z`. `PrimitiveTypes.OffsetAtEnd` says exactly when a well-formed timestamp with such an offset is
  accepted at the end of the text, `PrimitiveTypes.OffsetBeforeText` when before further text, and
  `PrimitiveTypes.RefusedTimestamp` names one that is refused. The hour is kept in a `char`, so only its
  value modulo 256 is tested.
- The quoted-string parser reads its first character without testing whether there is one
  (`src/primitivetype.c:619`); at the end of the text it goes by the two bytes behind it
  (`PrimitiveTypes.ParseQuotedString`).
- `cJSON_ReplaceItemInObject` names the new item without freeing the name it had
  (`src/cjson/cjson.c:498`), unlike `cJSON_AddItemToObject`; `NodeLists.ReplaceItemInObject` says which name
  is lost.
- `cJSON_AddItemToObject` frees the item's name before it copies the new one (`src/cjson/cjson.c:484`), so
  a caller that passes the item's own name has it read after it was freed; `NodeLists.AddItemToObject`
  requires another string.
- A reference item holds the pointers that its item had when it was made. So the array to which
  `cJSON_AddItemReferenceToArray` adds one must not be what the item is read through: neither the array
  nor its last child may occur below the item (`NodeReferences.AddItemReferenceToArray`).
- The comment before the length test of the IPv4 parser asks for seven characters, the test for six
  (`src/primitivetype.c:829`); it makes no difference (`PrimitiveTypes.AddressLength`).

## Model

| member | source | states |
|---|---|---|
| Bits.Continuation | src/cjson/cjson.c:182-185 | `(uc \| 0x80) & 0xBF` is a UTF-8 continuation byte with the low six bits, for every word |
| Bits.FirstByte | src/cjson/cjson.c:142-186 | or-ing the first-byte mark is addition on the bits left over, for each form of UTF-8 |
| Bits.PairWordIs | src/cjson/cjson.c:177 | the shift-mask-or expression, on every surrogate pair, in arithmetic |
| Bits.SurrogatePairExact | src/cjson/cjson.c:172-178 | the code point computed equals UTF-16 decoding if and only if bit 6 of the high half is clear |
| Unicode.Utf8RoundTrip | src/cjson/cjson.c:180-188 | UTF-8 is invertible and only ASCII code points have an octet below 0x80 |
| JsonString.MeaningIsUtf16 | src/cjson/cjson.c:167-189 | wherever the units denote something in UTF-16, the decoder agrees with UTF-16 then UTF-8 if and only if no unit is zero and no pair has bit 6 set; exactly one byte is lost for each zero unit |
| JsonString.MeaningOfGroups | src/cjson/cjson.c:167-189 | whatever the units, what is stored is what they stand for one by one or in pairs: a character, a surrogate pair, or nothing for zero, a low half on its own, a high half on its own, or a high half with a unit behind it that is not a low half |
| JsonString.GroupsOf | src/cjson/cjson.c:154-193 | every run of bytes and units is made of such groups |
| JsonString.LettersMean | src/cjson/cjson.c:161-190 | the letters with a meaning of their own, by their codes; every other letter, the slash among them, stands for itself |
| JsonString.BodyReadsBack | src/cjson/cjson.c:143-200 | whatever spelling an encoder chooses byte by byte, the literal reads back as the string without NUL bytes, up to its own closing quote |
| JsonString.EscapeByteSpells | src/cjson/cjson.c:217-231 | the printer's escape of any byte is a spelling of that byte |
| JsonString.EscapeByteShortest | src/cjson/cjson.c:217-231 | it is an escape that section 2.5 of RFC 4627 has for the byte, and none of those is shorter |
| JsonStringCode.WriteUtf8 | src/cjson/cjson.c:180-188 | the backward writes of the fall-through switch leave exactly the UTF-8 octets, and touch nothing before them |
| JsonStringCode.ReadCodePoint | src/cjson/cjson.c:167-177 | the units at a `\u`: the code point they make, or none, and how far they reach |
| JsonStringCode.ReadUnit | src/cjson/cjson.c:167-189 | the `\u` case: what is written and where reading goes on, with room measured for it |
| JsonStringCode.ReadPiece | src/cjson/cjson.c:154-193 | one turn of the decoding loop against the declarative decoder, within the measured room |
| JsonStringCode.MeasureLiteral | src/cjson/cjson.c:148-150 | the first pass counts the room of the specification |
| JsonStringCode.DecodeLiteral | src/cjson/cjson.c:154-195 | the second pass stops at the same quote and writes exactly the decoded bytes |
| JsonStringCode.ReadLiteral | src/cjson/cjson.c:143-200 | measuring and decoding stop at the same quote; the new buffer has the measured size and holds the decoded bytes |
| JsonNumber.ReadsGrammar | src/cjson/cjson.c:96-116 | every text of the RFC 4627 number grammar is consumed whole, and the sign, digits and exponent taken from it denote exactly its value |
| Doubles.RoundedIsNearest | src/cjson/cjson.c:98-112 | the rounding of doubles: no number of 53 bits is nearer to x than the one x is rounded to |
| Doubles.DoublesStay | src/cjson/cjson.c:98-112 | what is a double already stays as it is |
| Doubles.RelativeError | src/cjson/cjson.c:98-112 | rounding changes a number that is not subnormal by at most one part in two to the 53rd |
| JsonDouble.DigitsExact | src/cjson/cjson.c:103-104 | the digit loops, which round each product and each sum, are exact up to two to the 53rd |
| JsonDouble.ReadsNearest | src/cjson/cjson.c:96-116 | a grammatical text is read as the double nearest to the number it denotes, if its digits have at most 53 bits and its exponent, less the digits behind the point, is from 0 to 22 |
| JsonDouble.ReadsInteger | src/cjson/cjson.c:96-127 | a printed integer of at most 53 bits is read back as that integer |
| DoubleErrors.ReadsWithin | src/cjson/cjson.c:96-116 | what is read of any text is within as many relative roundings as the parser makes of the number that the digits taken denote, unless the power of ten is subnormal |
| DoubleErrors.ReadsNear | src/cjson/cjson.c:96-116 | the same for a grammatical text and the number it denotes: two roundings for the power and the product, and two for each digit if the digits have more than 53 bits |
| DoubleErrors.ReadsThreeParts | src/cjson/cjson.c:96-116 | with digits of at most 53 bits, and any exponent whose power of ten is not subnormal, the double differs from the number denoted by at most three parts in two to the 53rd |
| NumberSyntax.TakenStands | src/cjson/cjson.c:96-116 | at a minus or a digit the parser takes a text of optional minus, zero, digits, fraction and exponent, with the decimal number that it stands for |
| NumberSyntax.LooseLongest | src/cjson/cjson.c:96-116 | and no longer text of that kind stands there |
| NumberSyntax.GrammaticalIsLoose | src/cjson/cjson.c:96-116 | every number of the RFC 4627 grammar is such a text, with the same digits and exponent |
| JsonNumberCode.TakeDigits | src/cjson/cjson.c:103-104 | a digit loop accumulates, rounding at each step, the double of the run after the digits before it, and stops at its end |
| JsonNumberCode.TakeExponent | src/cjson/cjson.c:107 | the digit loop of the exponent computes the value of the run and stops at its end |
| JsonNumberCode.ReadDouble | src/cjson/cjson.c:98-112 | the loops and the last product of parse_number compute the specified double and the position after the number |
| NumberFormat.PrintsAsWhen | src/cjson/cjson.c:123 | the test for the int format holds of the item's int if and only if the number itself is an int or that close to one; then the item's int is the number without its fraction |
| NumberFormat.SignificandIs | src/cjson/cjson.c:134 | the scientific form shows seven digits of which the first is not zero, also when rounding carries |
| NumberFormat.ShownIsNearest | src/cjson/cjson.c:119-138 | in each of the four formats the text denotes the number to the nearest unit of its last digit, and the number itself if and only if that is a whole number of units |
| NumberPrecision.TextBySize | src/cjson/cjson.c:119-138 | the text is an integer if and only if the number is within DBL_EPSILON of the one below it, or for an int of the one towards zero, has six decimals and no exponent if and only if it is otherwise from a millionth to a thousand million, and has one digit, six decimals and an exponent if and only if it is not |
| NumberPrecision.ShownBySize | src/cjson/cjson.c:119-138 | the error of the text by the size of the number: at most DBL_EPSILON where an integer is shown, half a millionth from a millionth to a thousand million, and else half a unit of the seventh digit |
| NumberFormat.IntegersShown | src/cjson/cjson.c:119-138 | integers of any size are shown exactly |
| NumberFormat.DifferencesRounded | src/cjson/cjson.c:123-133 | rounding the differences that are tested against DBL_EPSILON changes no outcome |
| NumberFormat.DoublesFit | src/cjson/cjson.c:125-135 | the text of a double fits the 21 or 64 bytes allocated if and only if it is not printed as an integer of more than 63 digits, or of more than 62 with a sign |
| NumberFormat.OverrunExample | src/cjson/cjson.c:133 | two to the 210th, whose text does not fit |
| NumberReread.RereadIsSame | src/cjson/cjson.c:96-138 | the parser gives a printed number back if and only if it is an int, an integer that its own digits accumulate to, or what a text of six decimals or of seven digits with an exponent is read as, by its format |
| NumberReread.IntegersKept | src/cjson/cjson.c:96-138 | integers of at most 53 bits are among them |
| NumberReread.ZerosKept | src/cjson/cjson.c:96-138 | so are larger integers m times ten to the j for which m times five to the j has at most 53 bits |
| NumberReread.LargeReread | src/cjson/cjson.c:103 | two to the 58th is read back as 288230376151711712 |
| NumberReread.TenthExample | src/cjson/cjson.c:104-112 | the text 0.100000 is read as one double although another is nearer to a tenth |
| JsonParse.ParseValue | src/cjson/cjson.c:267-279 | a success ends strictly later and a failure blames a position inside the text, with mutual recursion measured by the remaining input; which texts succeed, with which value and end, is JsonAccepts.ValueParses |
| JsonParse.ParseArray | src/cjson/cjson.c:300-325 | the same for arrays |
| JsonParse.ParseObject | src/cjson/cjson.c:379-412 | the same for objects |
| JsonSyntax.DocReads | src/cjson/cjson.c:143-412 | every text of a syntax tree is read whole and with the value of the tree, whatever its blanks and spellings, unless it is a number that goes on |
| JsonAccepts.ValueStands | src/cjson/cjson.c:143-412 | what the parser takes is the text of a syntax tree of the value, but for a literal that ends with the text |
| JsonAccepts.ValueParses | src/cjson/cjson.c:143-412 | the parser takes a value from a position up to another if and only if a text of that value stands there: a number that could not be longer, a literal that may lack its quote at the end of the text, or any other tree |
| JsonAccepts.AcceptsOnce | src/cjson/cjson.c:143-412 | the syntax is unambiguous: at a position there is at most one value, with one end |
| JsonAccepts.TextParses | src/cjson/cjson.c:252-260 | cJSON_Parse gives a value if and only if the text begins with blanks and then with a text of it, and nothing if and only if no prefix is such a text |
| JsonBlame.ValueAlike | src/cjson/cjson.c:143-412 | two texts that are the same as far as the parser looks into one of them are read alike, in success and in failure |
| JsonBlame.BlamedAt | src/cjson/cjson.c:252-412 | the blamed position: what is before it can be completed to a text of JSON, and no text that is the same up to and including the blamed character is accepted (with the four characters behind it where a word begins there, and the one behind it at a point) |
| JsonRoundTrip.PrintParse | src/cjson/cjson.c:263-470 | at every depth, in both forms, at every position and before every text that does not go on with a number: parsing what is printed rebuilds the value, each number as the double its text is read as, and consumes exactly that text |
| JsonRoundTrip.PrintParseWhole | src/cjson/cjson.c:252-264 | the same for cJSON_Parse of what cJSON_Print or cJSON_PrintUnformatted returns |
| JsonRoundTrip.PrintInjective | src/cjson/cjson.c:263-470 | the two forms together never confuse two values, but for numbers whose texts are read as the same double |
| JsonReparse.PrintParseIdentity | src/cjson/cjson.c:252-470 | print then parse is the identity if and only if every number is one that comes back |
| JsonReparse.SmallIntegersKept | src/cjson/cjson.c:96-138 | values whose numbers are integers of at most 53 bits meet that condition |
| JsonReparse.LargeIntegerExample | src/cjson/cjson.c:96-138 | two to the 58th, printed and parsed, is another integer |
| JsonReparse.FractionExample | src/cjson/cjson.c:135 | one 128th, printed and parsed, is another number |
| JsonReparse.TenthsExample | src/cjson/cjson.c:96-138 | the double nearest to three tenths, printed and parsed, is itself, though its text denotes another number |
| JsonReparse.Reparse | src/cjson/cjson.c:252-470 | for every text that parses, printing its value in either form and parsing again gives that value, each number as the double its text is read as, and the value itself if and only if all its numbers come back |
| JsonRoundTrip.PrintTame | src/cjson/cjson.c:203-470 | printed text contains only complete escapes |
| JsonRoundTrip.PrintedStringRoundTrip | src/cjson/cjson.c:143-236 | a NUL-free string printed by print_string_ptr is read back by parse_string |
| JsonLayout.FormatIsLayout | src/cjson/cjson.c:328-470 | the formatted text without the white space outside its literals is the unformatted text, for every value and depth |
| JsonLayout.FormatterWrites | src/cjson/cjson.c:328-470 | the formatted text is what a formatter makes of the unformatted one, byte by byte with a stack of open containers: a line for each member, indented by the open containers, a line for each closing brace, a space behind the commas of arrays and a tab behind colons |
| ParsedText.ParsedTexts | src/cjson/cjson.c:143-412 | whatever the text, every number parsed from it is a double, no string or name has a NUL byte and every member has a name |
| ParsedText.Bit6PairExample | src/cjson/cjson.c:177 | the literal `\uD840\uDC00` is read as U+10000, where UTF-16 has U+20000 |
| ParsedText.ZeroUnitExample | src/cjson/cjson.c:170 | the literal `\u0000` is read as the empty string |
| NodeTrees.TreeReads | src/cjson/cjson.c:282-297 | what a tree stands for is what a reader of its pointers sees |
| NodeTrees.ReferenceReads | src/cjson/cjson.c:480 | a reference item reads as the item it refers to |
| Nodes.Delete | src/cjson/cjson.c:81-93 | every object a sibling list owns is freed exactly once, and nothing that a reference item only points to |
| Nodes.DeleteItem | src/cjson/cjson.c:87-90 | the same for one item: children, strings, struct |
| NodeLists.StrCaseCmp | src/cjson/cjson.c:39-44 | zero if and only if the names agree up to the case of letters; a missing name matches only a missing name |
| NodeLists.LowerMerges | src/cjson/cjson.c:42 | two bytes count as the same letter if and only if they are equal or one is a capital A to Z and the other the same letter below |
| NodeLists.StrDup | src/cjson/cjson.c:49-58 | a fresh buffer that holds the same C string |
| NodeLists.FindIsFirst | src/cjson/cjson.c:475 | a lookup finds the first child of that name and passes no other |
| NodeLists.GetArraySize | src/cjson/cjson.c:473 | the number of children |
| NodeLists.GetArrayItem | src/cjson/cjson.c:474 | the child at the index; a negative index counts as zero |
| NodeLists.GetObjectItem | src/cjson/cjson.c:475 | the first child of that name, or none |
| NodeLists.AddItemToArray | src/cjson/cjson.c:478-483 | appends to the linked list by writing one link at each end; a missing item changes nothing |
| NodeLists.AddItemToObject | src/cjson/cjson.c:484 | the same with a fresh copy of the name, which must not be the item's own; exactly the old name is freed |
| NodeLists.CreateReference | src/cjson/cjson.c:480 | a copy that shares child and string and owns nothing but itself |
| NodeLists.DetachItemFromArray | src/cjson/cjson.c:488-489 | takes the child at the index out of the sequence, leaves the order of the rest, and clears its links |
| NodeLists.DetachItemFromObject | src/cjson/cjson.c:491 | removes exactly the item cJSON_GetObjectItem would find |
| NodeLists.DetachOwned | src/cjson/cjson.c:488-489 | ownership of the detached tree passes to the caller, the rest stays owned |
| NodeLists.DeleteItemFromArray | src/cjson/cjson.c:490 | exactly what the removed child owns is freed, and the container still owns the rest |
| NodeLists.DeleteItemFromObject | src/cjson/cjson.c:492 | the same for the first child of a name |
| NodeLists.RelinkItem | src/cjson/cjson.c:495-497 | the sequence with one child replaced, doubly linked again |
| NodeLists.ReplaceItemInArray | src/cjson/cjson.c:495-497 | the new tree stands where the old one stood, and exactly the old one is freed; past the end nothing happens |
| NodeLists.ReplaceItemInObject | src/cjson/cjson.c:498 | the first child of that name makes way for the new tree under a copy of the name, and exactly the old tree is freed; the name the new item had is owned by nobody and not freed |
| NodeLists.AddOwned | src/cjson/cjson.c:483 | appending passes the ownership of the whole tree to the container |
| NodeReferences.AddItemReferenceToArray | src/cjson/cjson.c:480-485 | the reference has the kind, the numbers, the string and the children of the item; the container owns the reference struct and nothing of the item; an array that read as some items reads as those and the item's value, and the item reads as before, if neither the array nor its last child is below the item |
| NodeParser.SkipBlanks | src/cjson/cjson.c:249 | the loop of skip() computes the specified position |
| NodeParser.ParseStringInto | src/cjson/cjson.c:143-200 | the item gets a fresh string with the decoded bytes, or is left alone and the position is blamed |
| NodeParser.ParseNumberInto | src/cjson/cjson.c:96-116 | the item's double is the one specified, with every step rounded, and its int that number without the fraction where an int can hold it |
| NodeParser.ParseLiteralInto | src/cjson/cjson.c:270-272 | a literal is recognised if and only if its text stands there; the item gets its kind, and for true a one in its int |
| NodeParser.ParseNameInto | src/cjson/cjson.c:390-393 | the string becomes the name of the child and the colon is passed |
| NodeParser.NewBehind | src/cjson/cjson.c:316-318 | a blank struct linked behind the last one keeps the list doubly linked |
| NodeParser.ParseItemInto | src/cjson/cjson.c:319-320 | one array value in the struct linked for it, without disturbing the children before |
| NodeParser.MoreItemsInto | src/cjson/cjson.c:314-324 | the comma loop: as many linked structs as values, or a well-formed list up to the failure |
| NodeParser.ParseArrayInto | src/cjson/cjson.c:300-325 | the result of the specification, and a separate well-formed tree that stands for it |
| NodeParser.ParseMemberInto | src/cjson/cjson.c:402-407 | one name and value: the child has the name and stands for the value |
| NodeParser.MoreMembersInto | src/cjson/cjson.c:397-411 | the comma loop of objects |
| NodeParser.ParseObjectInto | src/cjson/cjson.c:379-412 | the result of the specification; every member struct has its name |
| NodeParser.ParseValueInto | src/cjson/cjson.c:267-279 | success or failure, the structs and strings below the item are all that was allocated, shared by nobody and well linked; on success they stand for the parsed value |
| NodeParser.ParseText | src/cjson/cjson.c:252-260 | a tree of the first value that is all the call allocated; or nothing, with the blamed position, and then every object the call allocated has been freed exactly once |
| NodePrinter.MeasureEscape | src/cjson/cjson.c:208 | the first pass counts exactly the escaped length |
| NodePrinter.PutEscaped | src/cjson/cjson.c:217-231 | one turn of the second pass, within the room measured |
| NodePrinter.PrintStringPtr | src/cjson/cjson.c:203-236 | exactly the measured bytes are filled, terminator included, with the quoted string |
| NumberFormat.IntLength | src/cjson/cjson.c:125-126 | every int takes at most eleven characters |
| NodePrinter.ChooseFormat | src/cjson/cjson.c:123-135 | the tests on the item's int and double choose the specified format |
| NodePrinter.PrintNumber | src/cjson/cjson.c:119-138 | the specified text of the number, in any of the four formats, in a buffer of 21 or 64 bytes, or no result if and only if it does not fit |
| NodePrinter.ItemsFitRoom | src/cjson/cjson.c:347-352 | the text of the items never exceeds what the first pass adds up |
| NodePrinter.MembersFitRoom | src/cjson/cjson.c:432-442 | the same for members with names, tabs and separators |
| NodePrinter.CollectItems | src/cjson/cjson.c:342-349 | every child printed in order, and the room added up; failure if and only if a number does not fit |
| NodePrinter.ComposeArray | src/cjson/cjson.c:364-375 | the composed text is the specified one and stays within the computed length |
| NodePrinter.CollectMembers | src/cjson/cjson.c:431-439 | every name and value printed in order, and the room added up; failure if and only if a number does not fit |
| NodePrinter.PutMember | src/cjson/cjson.c:457-460 | tabs, name, colon and value of one member |
| NodePrinter.ComposeObject | src/cjson/cjson.c:453-469 | the composed text is the specified one and stays within the computed length |
| NodePrinter.PrintValue | src/cjson/cjson.c:282-297 | for every tree, with reference items and unnamed members too, every depth and flag: a fresh buffer that holds the specified text, or no result if and only if a number does not fit |
| NodePrinter.PrintText | src/cjson/cjson.c:263-264 | the same for the two entry points |
| JsonEvents.ValueString | src/json_event.c:45-55 | the value string of a scalar, read off the struct; the text of a number, the only buffer allocated, is freed; no value if and only if a number does not fit |
| JsonEvents.Callback | src/json_event.c:33-67 | a scalar becomes one field at the end of the bucket; a container adds none; what is allocated is part of the bucket or freed once |
| JsonEvents.NewPrefix | src/json_event.c:80-89 | the prefix rule, with the empty prefix and unnamed items |
| JsonEvents.WalkItem | src/json_event.c:78-96 | one item: its own field, then those below it, with the same account of what is allocated |
| JsonEvents.ParseAndCallback | src/json_event.c:70-97 | the walk over heap siblings appends exactly the fields of the recursive specification, in document order, unless a number does not fit; what is allocated is part of the bucket or freed once |
| JsonEvents.PathNameAppend | src/json_event.c:80-89 | the prefix rule applied key by key joins the keys of a path with dots, once a key has left a trace |
| JsonEvents.EventIsLeaves | src/json_event.c:70-97 | one field for each scalar, in document order, named by its path of keys |
| JsonEvents.EventSays | src/json_event.c:45-97 | what the fields say: the name is the path of the scalar; null is a single minus, a string its own bytes, and the text of a boolean or a number parses as that boolean or the reread number |
| JsonEvents.NewEventFromJSON | src/json_event.c:99-114 | no event if and only if the text does not parse; otherwise an event whose fields say the scalars of the value in order, as in JsonEvents.EventSays; in both cases everything allocated is part of the event or freed exactly once; all that unless, and only unless, a number does not fit its buffer |
| JsonEncoder.EncodeByteSpells | src/json_enc.c:71-118 | every byte, escaped or not, is spelled so that it reads back |
| JsonEncoder.EncodeByteShortest | src/json_enc.c:71-118 | with an escape of section 2.5 of RFC 4627 than which none is shorter |
| JsonEncoder.HexDigits | src/json_enc.c:41-113 | the digits filled in backwards are the value's four upper-case digits |
| JsonEncoder.AddByte | src/json_enc.c:72-117 | the text added for one byte |
| JsonEncoder.AddValue | src/json_enc.c:52-124 | the quoted and escaped value is appended |
| JsonEncoder.AddValues | src/json_enc.c:151-167 | no value, one value or a list of values is appended, walking the value nodes |
| JsonEncoder.AddField | src/json_enc.c:127-172 | name, colon and values are appended |
| JsonEncoder.AddTags | src/json_enc.c:175-195 | the tags member is appended |
| JsonEncoder.AddFields | src/json_enc.c:214-228 | the fields of the bucket with separators, the first one only if something precedes |
| JsonEncoder.FmtEventToJSON | src/json_enc.c:198-234 | the text of the event with or without tags, in both modes |
| JsonEncoder.CompactSaves | src/json_enc.c:127-234 | the ultra-compact text is shorter by one byte for each field and one more for each field without values |
| EventRoundTrip.ObjectReads | src/json_enc.c:198-234 | encoded objects parse to their members, in order, and are consumed whole |
| EventRoundTrip.EventTextTame | src/json_enc.c:198-234 | encoded text meets what the parser presumes |
| EventRoundTrip.EncodedIsReadable | src/json_enc.c:198-234 | encoded text meets all that reloading presumes, and it parses |
| EventRoundTrip.EventComesBack | src/json_enc.c:53-233 | encoding and reloading yields a field for each tag and value, in order, without NUL bytes |
| EventRoundTrip.EventRoundTrips | src/json_enc.c:53-233 | an event without tags comes back, lists spread over several fields and a missing value as an empty one, if and only if no value has a NUL byte and no field lacks values in ultra-compact mode |
| EventRoundTrip.ValuelessBreaks | src/json_enc.c:151-153 | in ultra-compact mode no event with a valueless field comes back |
| EventRoundTrip.CompactValuelessExample | src/json_enc.c:151-153 | the smallest event that does not come back, and its text |
| EventRoundTrip.ForgedNameBreaks | src/json_enc.c:144-149 | a name with quotes in it reads as another field and a name: wherever such a field stands among fields with plain names, in ultra-compact mode all with values, the event comes back with one field more |
| Fields.ChainedDistinct | src/field.c:121-150 | a value list never meets itself |
| Fields.Field.constructor | src/field.c:42-54 | a field without name and values |
| Fields.Field.FromNameValue | src/field.c:79-97 | a field with one value |
| Fields.Field.NameField | src/field.c:105-118 | a name is given once |
| Fields.Field.AddValue | src/field.c:121-150 | the sequence of values grows at its end; the 256th value is refused and changes nothing |
| Fields.Field.ReplaceValue | src/field.c:154-182 | the sequence with one value replaced, inline or in the list; past the end nothing changes |
| Fields.Field.GetValueAsStr | src/field.c:212-239 | the value at the index, or none |
| Fields.Field.GetAsString | src/field.c:247-270 | all values run together; a field without values is an error |
| Fields.ConcatJoins | src/field.c:258-266 | the text of one value is that value, and of two lists their texts one behind the other |
| Events.FindFromIsFirst | src/fieldbucket.c:107-117 | a lookup finds the first field of that name |
| Events.FieldBucket.constructor | src/fieldbucket.c:43-55 | an empty bucket |
| Events.FieldBucket.AddField | src/fieldbucket.c:76-96 | the field is appended; the fields before it and what they say stay |
| Events.FieldBucket.GetField | src/fieldbucket.c:106-117 | the first field of that name, and what it says |
| Events.Event.AddField | src/event.c:113-127 | the event's contents grow at their end; the bucket is made when needed |
| IntLines.ClassifiedAs | src/int_dec.c:42-66 | a line is taken for what it is written as, a letter, a colon and a text, and for malformed if and only if it is written as nothing |
| IntLines.StepAddsLine | src/int_dec.c:99-141 | each accepted line adds exactly itself to what the state says |
| IntLines.RunConserves | src/int_dec.c:144-192 | conservation: the events and what is open say exactly the lines read, in order, without the comments, also when a line is refused |
| IntLines.LinesDeliver | src/int_dec.c:144-192 | every list of events within the limit is delivered by its own lines |
| IntLines.StateKnows | src/int_dec.c:99-141 | when an event is open, when a field is open and how many values it has, in terms of the lines read |
| IntLines.RefusedWhen | src/int_dec.c:100-177 | a line is refused if and only if it is malformed, a field line before any event, or a value line without an open field or after 255 values |
| IntLines.RunKeepsLimit | src/int_dec.c:99-141 | no field ever exceeds the limit |
| IntLines.DeliveredAreClosed | src/int_dec.c:110-117 | the events delivered so far are exactly those that a later event line closed |
| IntLines.StopsAtFirst | src/int_dec.c:161-177 | a run stops at the first refused line, with the state before it |
| IntDecoder.DecodeLn | src/int_dec.c:42-69 | type and value of a line, refused if and only if malformed |
| IntDecoder.FinishField | src/int_dec.c:79-90 | the open field becomes the last field of the event |
| IntDecoder.ProcessEvent | src/int_dec.c:111-117 | the open event is delivered complete, and shares nothing with the new one |
| IntDecoder.ProcessField | src/int_dec.c:118-126 | the open field is finished and a new one opened, if an event is open |
| IntDecoder.ProcessValue | src/int_dec.c:127-135 | the value joins the open field, if there is one with room |
| IntDecoder.ProcessLn | src/int_dec.c:99-141 | one line is one step of the state machine; a refused line changes nothing |
| IntDecoder.Advance | src/int_dec.c:161-176 | a line in the middle of a run is one step of the state machine, with the events so far |
| IntDecoder.EndOfInput | src/int_dec.c:178-189 | the open event is finished and delivered, and its delivery overwrites the final code |
| IntDecoder.IntDec | src/int_dec.c:144-192 | over whole runs the events on the heap, the code and the message with its line number are those of the state machine |
| IntDecoder.ErrorLostWhen | src/int_dec.c:178-189 | a run over acceptable lines reports success if and only if the input ended properly or an event line was read |
| IntDecoder.ErrorLostExample | src/int_dec.c:178-189 | one event line and then a read error: the run reports success |
| SyslogEncoder.AddValue | src/syslog_enc.c:39-98 | the escaped value is appended |
| SyslogEncoder.AddField | src/syslog_enc.c:101-125 | name and comma-separated values are appended, walking the value nodes |
| SyslogEncoder.AddTags | src/syslog_enc.c:128-146 | the tags parameter is appended |
| SyslogEncoder.FmtEventToRFC5424 | src/syslog_enc.c:149-173 | the structured data element of the event |
| SyslogEncoder.ValuesRead | src/syslog_enc.c:40-120 | splitting at unprotected commas and unescaping recovers every value list |
| SyslogEncoder.FieldReads | src/syslog_enc.c:101-125 | name and values are recovered, and exactly the field's text is used |
| SyslogEncoder.EventReads | src/syslog_enc.c:149-173 | all fields are recovered from the text of an event |
| SyslogEncoder.TextDetermines | src/syslog_enc.c:40-169 | two events have the same text if and only if they differ at most in no value against an empty value |
| SyslogEncoder.ValuelessExample | src/syslog_enc.c:111-119 | two different events with the same text |
| SyslogEncoder.ValuesProtected | src/syslog_enc.c:55-93 | no quote, backslash or closing bracket stays unescaped between the quotes (section 6.3.3 of RFC 5424) |
| SyslogEncoder.ValueEscapes | src/syslog_enc.c:52-93 | escaping costs one byte for each of the six bytes that need it and none for the others, and leaves no terminator and no line break |
| SyslogEncoder.EventOneLine | src/syslog_enc.c:149-173 | whatever its values, an event is written on one line if its names and tags are |
| SyslogEncoder.TagsAsField | src/syslog_enc.c:128-169 | tags are written as a first field named event.tags if and only if none of their bytes needs an escape |
| SyslogEncoder.TagsRead | src/syslog_enc.c:128-173 | tags and fields are recovered from the text of an event with such tags |
| PrimitiveTypes.ParseInt | src/primitivetype.c:71-87 | the value of the digit run and its end |
| PrimitiveTypes.ParseISODate | src/primitivetype.c:649-696 | accepts if and only if the ten characters are a date with month and day in range |
| PrimitiveTypes.ParseTime24hr | src/primitivetype.c:703-740 | accepts if and only if the eight characters are a time with an hour up to 23 |
| PrimitiveTypes.ParseTime12hr | src/primitivetype.c:748-784 | accepts if and only if the eight characters are a time with an hour up to 12 |
| PrimitiveTypes.ParseOffset | src/primitivetype.c:200-224 | the numeric offset branch with its miscounted length |
| PrimitiveTypes.ParseRFC5424Date | src/primitivetype.c:125-251 | what is taken, for every text and every byte behind it |
| Timestamps.TimestampTaken | src/primitivetype.c:125-251 | the timestamps taken are exactly the texts made of runs of digits in their ranges, the separators, an optional fraction and a zone, whole, with what must stand behind them |
| PrimitiveTypes.DatesAgree | src/primitivetype.c:125-251 | what the two unrolled parsers accept around `T` and before `Z`, the timestamp parser takes whole |
| PrimitiveTypes.OffsetBeforeText | src/primitivetype.c:125-251 | a well-formed timestamp with a numeric offset and more text behind it is accepted if and only if a space follows, which is left |
| PrimitiveTypes.OffsetAtEnd | src/primitivetype.c:125-251 | a well-formed timestamp with a numeric offset at the end of the text is accepted if and only if the byte behind the text is a space or a digit that keeps the minutes in range |
| PrimitiveTypes.RefusedTimestamp | src/primitivetype.c:125-251 | one timestamp that is refused at the end of a terminated text and accepted before a space |
| PrimitiveTypes.CheckAddrByte | src/primitivetype.c:795-817 | one to three digits worth at most 255 |
| PrimitiveTypes.ParseIPv4 | src/primitivetype.c:821-857 | four such numbers with dots between them, and nothing more is taken |
| PrimitiveTypes.AddressLength | src/primitivetype.c:829-833 | the length test turns no address away |
| PrimitiveTypes.DottedTaken | src/primitivetype.c:795-857 | four texts of one to three digits worth at most 255, with dots between them, are taken whole unless the last could have a digit more |
| PrimitiveTypes.DigitsAreByte | src/primitivetype.c:795-817 | the usual form of a byte is such a text |
| PrimitiveTypes.AddressIsDotted | src/primitivetype.c:795-857 | and whatever is taken is four such texts, of which the last could not have a digit more |
| PrimitiveTypes.ParseWord | src/primitivetype.c:528-557 | the text up to the first space, refused if and only if empty |
| PrimitiveTypes.ParseCharTo | src/primitivetype.c:569-599 | the text up to the first terminator, refused if and only if empty or unterminated |
| PrimitiveTypes.ParseQuotedString | src/primitivetype.c:609-641 | the text between the first two quotes, refused if and only if one is missing; at the end of the text the two bytes behind it decide |

## Left out

- NodePrinter.PrintNumber: infinities and values that are not numbers are not modelled, and `sprintf` is taken to round to nearest, ties to even. Where the text does not fit the buffer, the code writes past its end; the model stops there.
- NodePrinter.PrintValue: a string item is taken to have its string, which the code does not check.
- NodePrinter.CollectItems: the results are gathered in a growing sequence instead of an array sized by counting the children first.
- NodePrinter.CollectMembers: the same for names and values.
- JsonNumberCode.ReadDouble: doubles have no greatest exponent here, `pow` is taken to give the double nearest to the power, arithmetic has no excess precision, and the exponent's int and the count of digits behind the point are unbounded. So a text for which the code's accumulated digits, power of ten or product reach two to the 1024th, where it goes on with an infinity, is not covered.
- DoubleErrors.ReadsNear: does not bound the error where the power of ten is subnormal, that is for exponents, less the digits behind the point, below about -307.
- JsonReparse.Reparse: does not cover those texts either; printed numbers that fit their buffers are below ten to the 63rd, so that reading them stays within the range.
- JsonEvents.NewEventFromJSON: the prefixes the walk allocates and the names and values of fields are byte sequences, so what is accounted for are structs, their strings, the texts of numbers, fields and buckets.
- CText.Outside: covers the whole text, so a text with an incomplete escape behind its first value, which the parser would not read, is not covered.
- NodeParser.ParseText: presumes complete escapes, as the C code does.
- IntDecoder.IntDec: the event callback is taken to succeed, and a line is a byte sequence.
- EventRoundTrip.EventRoundTrips: is about events without flat tags; with tags, EventComesBack gives what comes back.
- SyslogEncoder.EventReads: is about events without tags; tags are not escaped, and those that need no escape are read back by SyslogEncoder.TagsRead.
- PrimitiveTypes.ParseInt: unbounded integers; a digit run too long for a C int is not modelled.
- Memory allocation: always succeeds, also for no bytes; failure paths, the freeing of intermediate print buffers and the `objID` numbers are not modelled, and lengths and recursion depth are unbounded.
- Values: byte sequences held by the field; that several fields could share one value object is not modelled, nor are the destructors of fields, buckets and events.
- libestr strings: byte sequences with append, slice and equality; growth of the underlying buffer and the codes of the append functions are not modelled.
- The remaining compositions of cJSON's list operations (`cJSON_AddItemReferenceToObject`, the create functions): each is two modelled steps in a row.
- Tag buckets: a sequence of names; the reference counting of src/tagbucket.c frees one release late and promises nothing to prove.
- src/apache_dec.c, src/csv_enc.c, src/xml_enc.c: escaping and column loops that would repeat, in an easier form, what is proved of the JSON and syslog encoders.
- `ee_parseNumber` and the RFC 3164 date in src/primitivetype.c: the first tests for progress against the wrong pointer, the second reads ahead unguarded and is otherwise a switch over month names.
- src/convert.c, src/json_dec.c, src/ctx.c: command line, files and thin loops.
