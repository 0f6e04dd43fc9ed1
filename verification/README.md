# Models of the JSON engine and of three message protocols

A Dafny project that models the JSON engine `cJSON` (the copy in Controller-Simulator) and three small
protocols of the controllers, and proves what they are for. `dafny verify dfyconfig.toml` checks all of it.

## What is modelled

**The JSON engine.** Texts are byte sequences that end with their only NUL; memory is a heap of nodes, strings
and byte arrays with the set of live blocks.

- `Bytes`, `Bits`, `Utf8`, `Values`, `Syntax`: bytes and the bitwise operators of C on them, UTF-8, the values a
  text can mean, and concrete syntax trees. `Render` gives the text of a syntax tree, `Meaning` its value.
- `Rfc8259`: which text stands for which value, in ASCII and without syntax trees; `RfcTheorems`, `Numerals`: the
  parser and the printers against it.
- `Parsing`, `ParsingTheorems`, `Escapes`: the parser as a function and its two halves of correctness.
  `ErrorPointers`: where it fails. `Grammar`, `ParsingLaws`: how the parser's grammar differs from the standard.
  `Scanning`, `StringScanning`, `ParseLoops`, `Building`, `TreeParsing`: the loops and pointers that compute it.
- `Printing`, `PrintingTheorems`, `PrintingLaws`: the printed text, its meaning and its shape. `StringPrinting`, `Joining`, `AllocPrinting`,
  `Buffers`, `BufferedPrinting`: the two printers, with every block they allocate and every byte they write.
- `Minifying`, `MinifyingTheorems`, `MinifyingLaws`: the in-place minifier and what it takes away.
- `Nodes`, `Lists`, `Deleting`, `Duplicating`, `Forests`, `Ownership`, `Pictures`, `Api`: nodes with `next`, `prev`
  and `child`. A ghost `Tree` says what hangs below a node: `Holds` what the node owns, `Seen` what a reader meets,
  below references too. `Forest` holds all trees of a program and keeps the invariant that every live block has
  exactly one owner.
- `RoundTrips`: the operations one after the other.

**The protocols.** Each is a step relation over events, with the theorems about whole runs, and, where the
program has an object, a class whose methods are proved to do what the run does.

- `Sequences`: the wrapping generator of sequence numbers.
- `Amx`, `AmxServers`, `AuthLink`: commands held until the auth server answers, and its heartbeat.
- `Proxy`: the meeting agent that renumbers requests and routes replies back.
- `EnquireLink`, `EnquireBounds`: the counter of unanswered requests. Its loop need not end, so it is modelled step
  by step, one step for every access to a field that other threads write.

## What the code does that its documentation does not say

- `skip` passes over every byte from 1 to 32, not only the four blanks of section 2 of RFC 8259
  (`ParsingLaws.SkipsExactly`, `Grammar.LooseBlank`); the minifier removes only those four, and what it leaves is skipped.
- A string literal that runs into the end of the text is accepted as a value (`Grammar.LooseStrings`). On
  such a text `cJSON_Minify` runs off the end (`MinifyingTheorems.MinifyPreservesMeaning` says exactly when).
- A minus sign alone is read as the number 0, an exponent mark needs no digits, and a zero may precede other
  digits (`Grammar.MinusAlone`, `Grammar.MarkAlone`, `Grammar.LeadingZero`); a point does need one
  (`Grammar.PointAlone`). `Grammar.ConformsExactly` says which accepted texts conform.
- In `cJSON_Minify` the star that opens a block comment can also close it: `/*/` is a whole comment.
- The buffered `print_object` returns the depth, not its start, when it has written closing tabs; only the
  outermost call's result is used, and that one is right (`BufferedPrinting.PrintBuffer.PrintObjectTo`).
- `cJSON_ReplaceItemInObject` does not free the name the new item had (`Api.Forest.ReplaceItemInObject`).
- A reference does not keep what it shows: deleting the original leaves it dangling, and printing or duplicating
  it reads freed memory (`Api.Forest.Dangle`, `Api.Forest.SurvivesDelete`).
- An array that shows itself through a reference cannot be printed or duplicated: the recursion does not end
  (`Api.Forest.Tangle`; `Pictures.LinkExactly` for exactly when).
- `cJSON_AddItemToObject` frees the item's name before it reads the key, so the key must not point to that name or
  into it (`Api.ReadableAfter`).
- An auth answer names no question, only the ID, so it can send the command of another request
  (`Amx.OtherAnswer`, and `Amx.OwnAnswersExactly` for exactly when it does not).
- An auth answer that is handled before its control request does not hold the command back
  (`Amx.RefusedYetSent`, and `Amx.StraightExactly` for exactly when).
- A meeting agent forgets a request when a whole period of numbers has passed (`Proxy.OverwritesExactly`).
- Whichever socket unbinds or disconnects, the bound auth server is forgotten (`AuthLink.LostExactly`).
- An auth server that disconnects while no enquiry is open causes no reboot request (`AuthLink.NotMissed`).
- An answer between a request's sending and its count makes the link report one request early
  (`EnquireLink.SilenceExactly`, `EnquireLink.OneTooFew`). Two starts that overlap break the bound and the
  silence after a report (`EnquireLink.TwoTooFew`, `EnquireLink.SendsAfterReport`).

## Model

| member | source | states |
|---|---|---|
| Scanning.ParseNumber | Controller-Simulator/cJSON.cpp:110-147 | The number stored is exactly sign x digits x 10^(exponent minus number of fraction digits) of the numeral that stands there, the whole numeral is consumed, and valueint is that number without its fraction |
| Scanning.ReadDigits | Controller-Simulator/cJSON.cpp:119-138 | The digit loop continues a number by precisely the digits that stand there and stops at the first byte that is none |
| Scanning.ReadFrac | Controller-Simulator/cJSON.cpp:123-129 | Each digit behind the point multiplies by ten and takes one off the scale |
| Scanning.ReadExp | Controller-Simulator/cJSON.cpp:130-139 | Sign and digits of the exponent are read as the exponent's value |
| Numerals.Pow10Sum | Controller-Simulator/cJSON.cpp:141 | Powers of ten multiply as their exponents add, for negative exponents too |
| Numerals.PlainValue | Controller-Simulator/cJSON.cpp:119-129 | Without an exponent the number times ten to the number of fraction digits is the signed number of all digits |
| Numerals.RaisedValue | Controller-Simulator/cJSON.cpp:130-141 | An exponent without a minus sign multiplies by that natural power of ten |
| Numerals.LoweredValue | Controller-Simulator/cJSON.cpp:130-141 | An exponent with one divides by it |
| Values.TruncatedIs | Controller-Simulator/cJSON.cpp:144 | valueint is the last integer on the way from zero to the number |
| ParsingTheorems.NumeralComplete | Controller-Simulator/cJSON.cpp:110-147 | Every numeral of section 6 of RFC 8259 is found again from its text, whatever byte that cannot carry it on follows |
| Utf8.EncodeIsUtf8 | Controller-Simulator/cJSON.cpp:349-371 | The bytes written for a scalar value are a UTF8-char of section 4 of RFC 3629 and decode to that value |
| Utf8.DecodeIsScalar | Controller-Simulator/cJSON.cpp:349-371 | The other direction: every UTF8-char is the encoding of exactly one scalar value, never of a surrogate |
| Utf8.KeepsOrder | Controller-Simulator/cJSON.cpp:349-371 | The bytes sort as the characters do (section 1 of RFC 3629), which leaves no other encoding |
| Utf8.TailBits | Controller-Simulator/cJSON.cpp:357-368 | Or-ing 0x80 and masking with 0xBF gives the continuation byte with the six low bits |
| Utf8.LeadBits | Controller-Simulator/cJSON.cpp:357-371 | Or-ing the lead mark onto the remaining bits gives the lead byte of each length |
| Utf8.PairBits | Controller-Simulator/cJSON.cpp:339-348 | The shift-and-or surrogate arithmetic gives the code point of the pair (section 7 of RFC 8259) |
| StringScanning.ParseHex4 | Controller-Simulator/cJSON.cpp:244-286 | Four hexadecimal digits give their value, anything else zero, and nothing is read behind the first byte that is no digit |
| RfcTheorems.UnitOf | Controller-Simulator/cJSON.cpp:244-286 | For every code unit its four hexadecimal digits, in either case and the most significant first, are read as it |
| RfcTheorems.EscapeRead | Controller-Simulator/cJSON.cpp:334-378 | For every character but NUL, its escape, or the escapes of its two surrogates, is parsed to the UTF-8 whose character number it is |
| ParsingLaws.OpenEscapes | Controller-Simulator/cJSON.cpp:334-348 | A zero unit, a lone second half and a first half with no escape behind it stand for nothing; a first half takes an escape along that is no second half |
| ParsingLaws.OtherEscape | Controller-Simulator/cJSON.cpp:317-388 | A backslash in front of any byte without a meaning of its own is dropped |
| ParsingLaws.PlainString | Controller-Simulator/cJSON.cpp:302-385 | Bytes that need no escape stand for themselves, and an unclosed string stands for what the closed one would |
| StringScanning.WriteUtf8 | Controller-Simulator/cJSON.cpp:349-371 | The backward-writing switch leaves exactly the UTF-8 bytes of the code point and nothing in front of them changes |
| StringScanning.TranscodeEscape | Controller-Simulator/cJSON.cpp:334-378 | One \u escape: a valid pair becomes one code point; a zero unit, a lone low surrogate and a high surrogate without partner emit nothing and are stepped over as the code does |
| StringScanning.CountLiteral | Controller-Simulator/cJSON.cpp:302-305 | The first pass gives the count of the literal |
| StringScanning.DecodedFits | Controller-Simulator/cJSON.cpp:302-380 | Decoding a literal never takes more bytes than the first-pass count |
| StringScanning.DecodeLiteral | Controller-Simulator/cJSON.cpp:305-385 | The second pass writes the denoted string and its NUL inside the buffer the first pass sized, and ends at the closing quote or the terminator |
| ParsingTheorems.SkipSound | Controller-Simulator/cJSON.cpp:510-515 | All that is skipped are control bytes and blanks, what is stopped at is none or the terminator, and the terminator is never passed |
| ParsingLaws.SkipsExactly | Controller-Simulator/cJSON.cpp:510-515 | A byte in front of a value is passed over if and only if its code is at most 32 |
| Scanning.SkipBlanks | Controller-Simulator/cJSON.cpp:510-515 | The loop is that function |
| Parsing.ParseValue | Controller-Simulator/cJSON.cpp:582-621 | Recursion on the remaining length terminates; success ends strictly behind the start and not behind the terminator, failure points inside the text |
| Parsing.ParseDoc | Controller-Simulator/cJSON.cpp:518-547 | The same for the whole text; with require_null_terminated success ends exactly at the terminator |
| ParsingTheorems.ValueSound | Controller-Simulator/cJSON.cpp:582-621 | What the parser accepts is the text of the syntax tree it returns |
| ParsingTheorems.ValueComplete | Controller-Simulator/cJSON.cpp:582-747 | Every syntax tree is found back from its text, whatever follows that can follow |
| ParsingTheorems.ElemsSound | Controller-Simulator/cJSON.cpp:709-747 | The same for element lists, with their commas and gaps |
| ParsingTheorems.MembersSound | Controller-Simulator/cJSON.cpp:955-1013 | The same for member lists |
| ParsingTheorems.AcceptsExactly | Controller-Simulator/cJSON.cpp:518-547 | The parser accepts a text with a given tree if and only if the text is that tree's, so acceptance is the grammar, no more and no less |
| RfcTheorems.Reads | Controller-Simulator/cJSON.cpp:518-1013 | Every text that stands for a value by RFC 8259, told in ASCII and without syntax trees, is read to its end as that value |
| RfcTheorems.ReadsExactly | Controller-Simulator/cJSON.cpp:518-1013 | And a text stands for a value by the standard if and only if it is accepted with a strict tree, all of whose escapes stand for characters, and that meaning |
| RfcTheorems.OneValue | Controller-Simulator/cJSON.cpp:518-1013 | So a text stands for one value only |
| ErrorPointers.ErrorExactly | Controller-Simulator/cJSON.cpp:518-1013 | What stands in front of the error pointer begins a text that is accepted; no text that goes on for five more bytes as this one does is |
| ErrorPointers.FailureLocal | Controller-Simulator/cJSON.cpp:518-1013 | Such a text fails at the same place |
| Grammar.ConformingAccepted | Controller-Simulator/cJSON.cpp:518-1013 | Every text that conforms to sections 2, 6 and 7 of RFC 8259 is accepted, with a syntax tree of that grammar |
| Grammar.ConformsExactly | Controller-Simulator/cJSON.cpp:518-1013 | A text that is accepted conforms if and only if the tree it is parsed to is one of that grammar |
| Grammar.MinusAlone | Controller-Simulator/cJSON.cpp:110-147 | A minus sign alone is accepted as the number 0 although it does not conform |
| Grammar.MarkAlone | Controller-Simulator/cJSON.cpp:130-139 | An exponent mark without digits is accepted although it does not conform |
| Grammar.LeadingZero | Controller-Simulator/cJSON.cpp:117-122 | A zero in front of other digits is accepted although it does not conform |
| Grammar.PointAlone | Controller-Simulator/cJSON.cpp:123-129 | A point that no digit follows is not read: parsing fails at the point |
| Grammar.LooseStrings | Controller-Simulator/cJSON.cpp:290-393 | Unclosed strings at the end of the text, bare control bytes and escapes of any byte are accepted although they do not conform |
| Grammar.LooseBlank | Controller-Simulator/cJSON.cpp:510-515 | Every control byte is skipped as white space although only four are by section 2 of RFC 8259 |
| Escapes.LitStays | Controller-Simulator/cJSON.cpp:290-393 | In a text whose escapes are complete no string literal is cut short |
| Escapes.DocStays | Controller-Simulator/cJSON.cpp:510-547 | In such a text the parser always answers: a value whose end lies inside the text, or an error pointer inside the text |
| ParseLoops.ArrayStep | Controller-Simulator/cJSON.cpp:709-747 | What the element loop answers is what the array answers |
| ParseLoops.ObjectStep | Controller-Simulator/cJSON.cpp:955-1013 | What the member loop answers is what the object answers, although white space is skipped twice |
| TreeParsing.Parser.ParseString | Controller-Simulator/cJSON.cpp:290-393 | A fresh string with the literal's denotation, or the error pointer at the text |
| TreeParsing.Parser.ParseArray | Controller-Simulator/cJSON.cpp:709-747 | Nodes in memory: fresh, correctly linked children with the values of the elements; on failure the error pointer of the failing element |
| TreeParsing.Parser.ParseObject | Controller-Simulator/cJSON.cpp:955-1013 | The same for members and their names |
| TreeParsing.Parser.ParseValue | Controller-Simulator/cJSON.cpp:582-621 | Nodes for the value at an index, with its meaning, and exactly the blocks it owns newly live |
| TreeParsing.Parser.ParseWithOpts | Controller-Simulator/cJSON.cpp:518-547 | Either a well-built tree with the text's meaning, the index behind it and a null error pointer, or null, the error position, and not one block left allocated |
| PrintingTheorems.NumeralMeaning | Controller-Simulator/cJSON.cpp:203-224 | The decimal text of an integer is a numeral whose value is that integer |
| PrintingTheorems.StringMeaning | Controller-Simulator/cJSON.cpp:396-493 | Escaping and then decoding is the identity on every NUL-free string |
| PrintingTheorems.StringRoundTrip | Controller-Simulator/cJSON.cpp:290-493 | A printed string is read back, with any text after it, and the parser stops right behind its closing quote |
| PrintingTheorems.PrintText | Controller-Simulator/cJSON.cpp:624-1200 | What the printer composes, at any depth and in either format, is the text of a syntax tree |
| PrintingTheorems.PrintMeaning | Controller-Simulator/cJSON.cpp:624-1200 | That tree is well formed as the parser reads it, its gaps are standard white space only, it is no unclosed string, and its meaning is the value printed |
| Grammar.PrintConforms | Controller-Simulator/cJSON.cpp:203-1200 | What is printed, at any depth and in either format, conforms to sections 2, 6 and 7 of RFC 8259 |
| RfcTheorems.Prints | Controller-Simulator/cJSON.cpp:203-1200 | What is printed, at any depth and in either format, stands for the value printed by RFC 8259 |
| PrintingLaws.ArrayShape | Controller-Simulator/cJSON.cpp:832-948 | An array is its elements' texts between brackets with a comma, and a space when formatted, between them |
| PrintingLaws.ObjectShape | Controller-Simulator/cJSON.cpp:1016-1200 | A formatted object has each member on a line of its own at one tab more than its brace, with colon and tab behind the name; an unformatted one is on one line without blanks |
| PrintingLaws.NoMembersShape | Controller-Simulator/cJSON.cpp:1016-1048 | The empty object, whose formatted brace stands at one tab less than the depth |
| PrintingLaws.ByteShape | Controller-Simulator/cJSON.cpp:445-492 | Which bytes of a string are written as themselves, which by the escape of two characters and which by their number in lower case |
| PrintingLaws.IntegerShape | Controller-Simulator/cJSON.cpp:203-224 | An integer is its decimal digits without leading zeros, behind a minus sign when negative |
| PrintingLaws.WordShape | Controller-Simulator/cJSON.cpp:624-680 | Nodes of the three kinds without contents print as null, true and false |
| PrintingLaws.IntegersExactly | Controller-Simulator/cJSON.cpp:216-224 | The numbers that can be printed here are the integers of 32 bits |
| PrintingLaws.PrintableExactly | Controller-Simulator/cJSON.cpp:624-680 | Strings without NUL can be printed, and arrays and objects of what can |
| Joining.ReadyExactly | Controller-Simulator/cJSON.cpp:624-680 | A tree can be printed if and only if it has a value that can |
| PrintingTheorems.RoundTripAnywhere | Controller-Simulator/cJSON.cpp:582-1200 | Wherever printed text stands inside a text the parser reads the printed value there and stops right behind it |
| PrintingTheorems.RoundTrip | Controller-Simulator/cJSON.cpp:518-1200 | For every value of null, booleans, 32-bit integers, NUL-free strings, arrays and objects: parsing the printed text consumes all of it and gives the value back |
| RoundTrips.PrintAndParse | Controller-Simulator/cJSON.cpp:518-569 | The same in memory: printing a readable node tree and parsing the text gives a second tree, sharing nothing and readable, with the same value; the text's memory is returned |
| RoundTrips.ParseStandard | Controller-Simulator/cJSON.cpp:518-547 | Every text that stands for a value by RFC 8259 comes out as a tree in memory with that value, read to its end |
| RoundTrips.ParseAndPrint | Controller-Simulator/cJSON.cpp:518-569 | Parsing such a text and printing the tree gives the printer's text for the same value |
| StringPrinting.NeedsEscape | Controller-Simulator/cJSON.cpp:403-404 | The first loop finds whether any byte needs an escape |
| StringPrinting.PlainEscape | Controller-Simulator/cJSON.cpp:403-420 | When none does, the escaped form is the string itself: fast path and escaping path agree |
| StringPrinting.MeasureEscaped | Controller-Simulator/cJSON.cpp:433-441 | The counting loop gives exactly the length of the escaped form |
| StringPrinting.WriteString | Controller-Simulator/cJSON.cpp:405-493 | Quote, contents, quote and NUL, the same text on both paths |
| StringPrinting.IntLength | Controller-Simulator/cJSON.cpp:216-224 | The text of a 32-bit integer is shorter than the 21 bytes set aside |
| AllocPrinting.PrintStringPtr | Controller-Simulator/cJSON.cpp:396-493 | The block asked for, len + 3 bytes, is filled to its last byte; the string read is live |
| AllocPrinting.PrintNumberNew | Controller-Simulator/cJSON.cpp:203-224 | The text of the integer in a block of its own; zero has a branch of its own |
| Joining.ItemsFit | Controller-Simulator/cJSON.cpp:893-948 | The len that print_array adds up bounds what its compose loop writes, for every list of entries |
| Joining.MembersFit | Controller-Simulator/cJSON.cpp:1112-1198 | The same for print_object, tabs and line breaks included, at every depth |
| Joining.ArrayJoined | Controller-Simulator/cJSON.cpp:832-948 | The text of an array is its entries joined by separators between brackets |
| Joining.ObjectJoined | Controller-Simulator/cJSON.cpp:1016-1200 | The text of an object is its members, one a line when formatted, between braces |
| AllocPrinting.ComposeItems | Controller-Simulator/cJSON.cpp:928-948 | All writes lie inside len bytes; the result is the joined text; every entry is freed once |
| AllocPrinting.ComposeMembers | Controller-Simulator/cJSON.cpp:1163-1198 | The same for names and entries of an object |
| AllocPrinting.PrintArrayNew | Controller-Simulator/cJSON.cpp:832-948 | A fresh block with the array's text; every piece printed on the way is freed again |
| AllocPrinting.PrintObjectNew | Controller-Simulator/cJSON.cpp:1016-1198 | The same for an object, the empty one included |
| AllocPrinting.PrintItem | Controller-Simulator/cJSON.cpp:555-569 | cJSON_Print and cJSON_PrintUnformatted: one new block, the text of the tree and a NUL in it; all that the tree shows, also through references, must be live, and every block read is |
| Buffers.Pow2gt | Controller-Simulator/cJSON.cpp:149-158 | The least power of two not below x, for every x from 1 to 2^30 |
| Buffers.ShrDivides | Controller-Simulator/cJSON.cpp:149-158 | A right shift is the division by a power of two |
| Buffers.Smear | Controller-Simulator/cJSON.cpp:149-158 | Why: or-ing with itself shifted by s doubles the run of ones at the top |
| BufferedPrinting.PrintBuffer.constructor | Controller-Simulator/cJSON.cpp:571-579 | A buffer of the size asked for, with nothing in it |
| BufferedPrinting.PrintBuffer.Ensure | Controller-Simulator/cJSON.cpp:167-191 | Room for what is needed; a new buffer has the least power of two that fits, keeps every byte written so far, and the old one is freed |
| BufferedPrinting.PrintBuffer.Update | Controller-Simulator/cJSON.cpp:193-200 | The length emitted so far |
| BufferedPrinting.PrintBuffer.PrintStringTo | Controller-Simulator/cJSON.cpp:396-493 | The escaped string behind what is there |
| BufferedPrinting.PrintBuffer.PrintArrayTo | Controller-Simulator/cJSON.cpp:856-890 | The array's text behind what is there; the index returned is where it starts |
| BufferedPrinting.PrintBuffer.PrintObjectTo | Controller-Simulator/cJSON.cpp:1048-1110 | The object's text behind what is there; the index returned is the depth instead when tabs have been written, because the tab loop uses the same variable |
| BufferedPrinting.PrintBuffer.PrintValueTo | Controller-Simulator/cJSON.cpp:624-706 | Any value's text behind what is there, every write inside the buffer |
| BufferedPrinting.PrintBuffered | Controller-Simulator/cJSON.cpp:571-579 | For every positive first size exactly the text of the allocating printer, in one block; the buffers outgrown are freed; all that the tree shows must be live, and every block read is |
| Minifying.MinifyInPlace | Controller-Simulator/cJSON.cpp:1562-1599 | The in-place loop: the write position never overtakes the read position, the buffer ends up with the minified text and its NUL, nothing behind the old NUL is touched |
| Minifying.CopyString | Controller-Simulator/cJSON.cpp:1584-1594 | String literals are copied verbatim, escaped quotes included |
| MinifyingLaws.MinifiedIsSqueezed | Controller-Simulator/cJSON.cpp:1562-1595 | From a text with nothing but the four blanks and C comments in its gaps all of them are taken and nothing else: what is left is the text of the same tree with empty gaps |
| MinifyingLaws.BlanksConform | Controller-Simulator/cJSON.cpp:1562-1595 | Blanks between the tokens of a conforming text leave it conforming |
| MinifyingLaws.OthersStay | Controller-Simulator/cJSON.cpp:1562-1595 | Every other byte outside strings stays |
| MinifyingLaws.UnclosedOverruns | Controller-Simulator/cJSON.cpp:1576-1583 | A block comment that is not closed makes it run off the end |
| MinifyingTheorems.GapMinified | Controller-Simulator/cJSON.cpp:1565-1583 | Standard white space, line comments and block comments vanish |
| MinifyingTheorems.ValueMinified | Controller-Simulator/cJSON.cpp:1562-1599 | The text of a syntax tree becomes the text of the same tree without its gaps, strings untouched |
| MinifyingTheorems.MinifyThenParse | Controller-Simulator/cJSON.cpp:518-1599 | For every JSON text, commented or not, the last line comment with or without its line feed: the minified text parses to the meaning of the original |
| MinifyingTheorems.MinifyPreservesMeaning | Controller-Simulator/cJSON.cpp:518-1599 | For every text the parser accepts: the minifier runs off the end exactly when the value is an unclosed string, and otherwise parsing before and after gives the same value |
| Grammar.ConformingMinified | Controller-Simulator/cJSON.cpp:518-1599 | A text that conforms to RFC 8259 is minified to a conforming text of the same meaning |
| MinifyingTheorems.EndMinified | Controller-Simulator/cJSON.cpp:1575-1577 | A line comment that the end of the text ends vanishes as well |
| MinifyingTheorems.MinifiedPrint | Controller-Simulator/cJSON.cpp:555-1599 | Minifying what cJSON_Print gives is cJSON_PrintUnformatted, byte for byte |
| RoundTrips.PrintAndMinify | Controller-Simulator/cJSON.cpp:555-1599 | The same in memory, on the block the printer returned |
| Nodes.LinkLast | Controller-Simulator/cJSON.cpp:730-741 | Linking a new node behind the last child keeps next and prev mutually inverse |
| Lists.GetArraySize | Controller-Simulator/cJSON.cpp:1203-1210 | The length of the child list |
| Lists.GetArrayItem | Controller-Simulator/cJSON.cpp:1211-1217 | The child at an index; a negative index gives the first, one too large null |
| Lists.StrCaseCmp | Controller-Simulator/cJSON.cpp:42-52 | Zero exactly for names equal but for upper and lower case, null equal to null only |
| Lists.SameNameExactly | Controller-Simulator/cJSON.cpp:42-52 | Two names match if and only if they are of one length and each byte is the other's or its other case, A to Z being 65 to 90 and a to z 32 further on |
| Lists.FindName | Controller-Simulator/cJSON.cpp:1310-1319 | The by-name loop stops at the first matching name |
| Lists.FirstMatchIs | Controller-Simulator/cJSON.cpp:1310-1373 | The first match is the only index that matches with none before it matching |
| Lists.GetObjectItem | Controller-Simulator/cJSON.cpp:1218-1224 | The first case-insensitive match, or null |
| Lists.AddItemToArray | Controller-Simulator/cJSON.cpp:1246-1261 | Add is append; links stay mutually inverse, the head has no predecessor, no node occurs twice |
| Lists.DetachItemFromArray | Controller-Simulator/cJSON.cpp:1290-1305 | Detach removes exactly the element at that place and clears its links; out of range nothing changes |
| Lists.InsertItemInArray | Controller-Simulator/cJSON.cpp:1326-1343 | Insert puts the item in front of the element at that place, behind the last when the index is too large |
| Lists.SwapItemInArray | Controller-Simulator/cJSON.cpp:1344-1361 | Replace substitutes the element at that place; out of range nothing changes, not even the new item |
| Lists.DetachInsert | Controller-Simulator/cJSON.cpp:1290-1343 | Detach then insert at the same place is the identity, and the other way round |
| Deleting.Delete | Controller-Simulator/cJSON.cpp:92-107 | Deleting a chain terminates and frees every owned node, string and name exactly once, reads nothing that is freed, and frees nothing that is reached only through a reference |
| Forests.PutOwned | Controller-Simulator/cJSON.cpp:1246-1361 | Changing a child list anywhere below a root changes what the root owns by exactly what was added and taken out |
| Forests.Rebuilt | Controller-Simulator/cJSON.cpp:1246-1361 | Relinking one list anywhere below a root leaves every other node of the tree as it was |
| Ownership.AfterAttach | Controller-Simulator/cJSON.cpp:1246-1343 | After an item has been linked in, all trees are still sound, still disjoint, and own the same blocks |
| Ownership.AfterDetach | Controller-Simulator/cJSON.cpp:1290-1305 | The same after a detach, with one tree more |
| Ownership.AfterSwap | Controller-Simulator/cJSON.cpp:1344-1361 | The same after a replacement |
| Api.Forest.constructor | Controller-Simulator/cJSON.cpp:83-89 | An empty program owns nothing |
| Api.Forest.CreateItem | Controller-Simulator/cJSON.cpp:1376-1438 | A new tree without children; one more live node |
| Api.Forest.CreateNumber | Controller-Simulator/cJSON.cpp:1404-1414 | A number node with both its fields |
| Api.Forest.CreateString | Controller-Simulator/cJSON.cpp:1415-1424 | A string node that owns a copy of the string |
| Api.Forest.CreateReference | Controller-Simulator/cJSON.cpp:1233-1243 | A node that shows another's contents and owns nothing but itself |
| Api.Forest.AddItemToArray | Controller-Simulator/cJSON.cpp:1246-1261 | Every live block still has exactly one owner; the item's tree is now the last child, wherever the array is; whatever could be read before can be read still if and only if it does not look at the end of the list or the item does not show it |
| Api.Forest.InsertItemInArray | Controller-Simulator/cJSON.cpp:1326-1343 | The same with the item at its place, unless the item is itself shown; pictures that do not look at the pointer that changed stay as they are |
| Api.Forest.SetName | Controller-Simulator/cJSON.cpp:1262-1270 | The new name is a copy and the old one is freed first; the key must be readable and not lie inside that name |
| Api.ReadableAfter | Controller-Simulator/cJSON.cpp:1266-1268 | A key is still readable after the item's name has been freed if and only if it does not point to or into that name, so naming an item by its own name, or by an end of it, reads freed memory |
| Api.Forest.AddItemToObject | Controller-Simulator/cJSON.cpp:1262-1270 | Renamed and appended; the key may be any readable string but one inside the item's own name; what can still be read as for arrays |
| Api.Forest.AddItemReferenceToArray | Controller-Simulator/cJSON.cpp:1281-1284 | Only the reference node is new; ownership of the original does not change; what could be read before can be read still if and only if it does not look at the end of the list or the original does not show that end |
| Api.Forest.AddItemReferenceToObject | Controller-Simulator/cJSON.cpp:1285-1288 | The same with a name of its own |
| Api.Forest.DetachItemFromArray | Controller-Simulator/cJSON.cpp:1290-1305 | The child becomes a tree of its own; no block changes owner otherwise; what could be read before can be read still |
| Api.Forest.DetachItemFromObject | Controller-Simulator/cJSON.cpp:1310-1319 | The same for the first case-insensitive match, and nothing at all without one |
| Api.Forest.DeleteTree | Controller-Simulator/cJSON.cpp:92-107 | Exactly the blocks of that tree stop being live |
| Api.Forest.DeleteItemFromArray | Controller-Simulator/cJSON.cpp:1306-1309 | Exactly the child's blocks stop being live |
| Api.Forest.DeleteItemFromObject | Controller-Simulator/cJSON.cpp:1320-1323 | The same for the first case-insensitive match |
| Api.Forest.ReplaceItemInArray | Controller-Simulator/cJSON.cpp:1344-1361 | The old child is freed and the new item stands in its place; out of range nothing happens |
| Api.Forest.OverwriteName | Controller-Simulator/cJSON.cpp:1368-1372 | The new name is a copy; the old one stays live without an owner |
| Api.Forest.ReplaceItemInObject | Controller-Simulator/cJSON.cpp:1362-1373 | The first match is replaced and freed; the new item's former name leaks, exactly that block and only when there was one |
| Api.Forest.DuplicateItem | Controller-Simulator/cJSON.cpp:1503-1560 | The copy is a further tree of the program, disjoint from all others; all that the item shows, also through references, must be live |
| Api.Forest.Emptied | Controller-Simulator/cJSON.cpp:92-107 | When the last tree is deleted only what has leaked is live |
| Api.Forest.Spared | Controller-Simulator/cJSON.cpp:92-107 | Deleting one tree frees nothing of another, whatever references lead there |
| Duplicating.Duplicate | Controller-Simulator/cJSON.cpp:1503-1560 | A wholly fresh, well-built tree with null root links: a deep copy through references, or the root alone; every node and string read is live |
| Duplicating.CopyKids | Controller-Simulator/cJSON.cpp:1537-1558 | The loop copies every child in order, each linked behind the last |
| Duplicating.CopyValue | Controller-Simulator/cJSON.cpp:1503-1560 | A copy has the same value |
| Nodes.ShownSplit | Controller-Simulator/cJSON.cpp:1233-1243 | What a tree shows is what it owns and what it shows through references |
| Pictures.OnePicture | Controller-Simulator/cJSON.cpp:1203-1224 | Following child and next from a node, below references too, gives at most one picture |
| Pictures.CutSeen | Controller-Simulator/cJSON.cpp:1233-1243 | Cut off at its references, the picture is what the node owns |
| Pictures.PlainSeen | Controller-Simulator/cJSON.cpp:1203-1224 | Without references the tree that is owned is the picture, so it may be handed to every reader |
| Pictures.SeenExactly | Controller-Simulator/cJSON.cpp:622-948 | A node has a picture if and only if the ways along child and next below it are bounded, that is, if reading it comes to an end |
| Pictures.ReferenceShown | Controller-Simulator/cJSON.cpp:1233-1243 | A reference is as readable as its original |
| Pictures.LinkExactly | Controller-Simulator/cJSON.cpp:1226-1261 | When an item has been linked into a list, anything that could be read before can be read still if and only if it does not look at the pointer that changed or the item does not show the node that pointer belongs to |
| Pictures.FiniteSkipping | Controller-Simulator/cJSON.cpp:1290-1305 | Where pointers only skip nodes or are cleared, whatever could be read can be read still |
| Api.Forest.ReadableExactly | Controller-Simulator/cJSON.cpp:92-107 | The picture of any node of the program shows what the node owns, and everything it shows is live if and only if no block shown through a reference has been freed |
| Api.Forest.MayBeRead | Controller-Simulator/cJSON.cpp:92-107 | A node of the program may be read, that is, it has a picture of live blocks, if and only if no way below it leads round in a circle and no block shown through a reference has been freed |
| Api.Forest.PlainReadable | Controller-Simulator/cJSON.cpp:92-107 | A node of the program with no reference below it may always be read |
| Api.Forest.SurvivesDelete | Controller-Simulator/cJSON.cpp:92-107 | Deleting another tree leaves it readable if and only if none of its references shows a block of that tree |
| Api.Forest.Dangle | Controller-Simulator/cJSON.cpp:92-107 | A reference to a string that is then deleted is a sound tree of the program that shows freed memory, so printing or duplicating it is not allowed |
| Api.Forest.Tangle | Controller-Simulator/cJSON.cpp:1281-1284 | An array that takes a reference to itself is a sound tree of live blocks, and reading it does not come to an end |
| Api.Forest.Overtake | Controller-Simulator/cJSON.cpp:1326-1343 | An item put in front of a list after a reference was taken: the reference may be read as ever, although the first child it shows has a predecessor now |
| Api.Forest.OwnListed | Controller-Simulator/cJSON.cpp:1203-1224 | The children of every node of the program, and their names, are live and linked, so the readers may be called |
| Api.Forest.SeenListed | Controller-Simulator/cJSON.cpp:1203-1224 | So are those that a readable reference shows |
| Api.Forest.GetArraySize | Controller-Simulator/cJSON.cpp:1203-1210 | The length of a list all of whose nodes are live |
| Api.Forest.GetArrayItem | Controller-Simulator/cJSON.cpp:1211-1217 | The child at an index, which is live, or null |
| Api.Forest.GetObjectItem | Controller-Simulator/cJSON.cpp:1218-1224 | The first case-insensitive match, which is live, or null; names and key must be live |
| RoundTrips.CopyPrints | Controller-Simulator/cJSON.cpp:1503-1560 | A copy prints as the original does, at every depth and in both formats |
| Sequences.Generator.GetSequence | Controller-Simulator/packet.h:229-236 | The k-th call gives ((k - 1) mod (2^31 - 2)) + 1 |
| Sequences.Counts | Controller-Simulator/packet.h:229-236 | The numbers are 1, 2, 3 up to 2147483646, and 1 comes after that |
| Sequences.SameNumber | Controller-Simulator/packet.h:229-236 | Two calls give the same number exactly when they are a whole number of periods apart |
| Sequences.Fresh | Controller-Simulator/packet.h:229-236 | Within one period no number comes twice |
| Amx.FirstOf | Controller-AMX/controllerHandler/CController.cpp:174-189 | The search in key order finds the smallest number that waits for the ID |
| Amx.HeldExactly | Controller-AMX/controllerHandler/CController.cpp:118-207 | A number is held exactly when it was asked for and neither consumed nor cleared since |
| Amx.StraightExactly | Controller-AMX/controllerHandler/CController.cpp:143-163 | A control request goes out at once exactly when no auth server is bound or no request of its number is open |
| Amx.RefusedYetSent | Controller-AMX/controllerHandler/CController.cpp:143-199 | A run in which a refusal arrives before its control request, which is then sent all the same |
| Amx.ReleasedExactly | Controller-AMX/controllerHandler/CController.cpp:143-199 | A held command goes out if and only if the message is a positive answer for its own ID, its request has been open ever since, and it has the smallest number waiting for that ID |
| Amx.AtMostOnce | Controller-AMX/controllerHandler/CController.cpp:118-207 | With distinct numbers no control request is sent twice in any run |
| Amx.WipedOut | Controller-AMX/controllerHandler/CController.cpp:200-202 | Nothing that came before a reboot request is sent after it |
| Amx.InOrder | Controller-AMX/controllerHandler/CController.cpp:174-199 | When requests come with increasing numbers, entries for one ID are consumed in increasing order |
| Amx.OtherAnswer | Controller-AMX/controllerHandler/CController.cpp:174-199 | A run in which the only answer is to another token's question of the same ID, and the first command goes out |
| Amx.WaitsExactly | Controller-AMX/controllerHandler/CController.cpp:118-199 | With increasing numbers, no reboot and no answer too many: a question for an ID waits if and only if as many came before it as have been answered |
| Amx.Taken | Controller-AMX/controllerHandler/CController.cpp:174-199 | So the k-th answer for an ID takes the k-th question and no other |
| Amx.OwnAnswersExactly | Controller-AMX/controllerHandler/CController.cpp:174-199 | Every answer takes the question it is meant for if and only if the questions of the ID are answered in the order in which they came and none is passed over |
| AmxServers.Controller.Search | Controller-AMX/controllerHandler/CController.cpp:178-188 | The loop over the map |
| AmxServers.Controller.OnHandleMessage | Controller-AMX/controllerHandler/CController.cpp:118-207 | The object does what the run does, and message by message: what it stores, forwards and asks, the token before the ID |
| AmxServers.CmpServer.OnAmxControl | Controller-AMX/controllerHandler/CServerCMP.cpp:62-119 | One number for a request and its command; without token or ID nothing is posted although a number is used up; within a period all numbers posted are distinct and increasing |
| AmxServers.OvertakenOnly | Controller-AMX/controllerHandler/CController.cpp:143-202 | Over such a queue, a command that is sent unheld while an auth server is bound had its request consumed by an answer for its ID, or cleared by a reboot, before it came |
| AmxServers.CmpServer.BroadcastAMXStatus | Controller-AMX/controllerHandler/CServerCMP.cpp:213-217 | A broadcast uses up one number for every client and leaves the order of the numbers posted intact |
| AuthLink.OutstandingExactly | Controller-AMX/controllerHandler/CServerAuth.cpp:30-54 | mnEnquuireSeq differs from -1 if and only if the latest of enquiry, answer, bind, unbind and drop was an enquiry |
| AuthLink.DropsExactly | Controller-AMX/controllerHandler/CServerAuth.cpp:120-142 | A tick posts a reboot request and clears the auth server if and only if an earlier enquiry is unanswered |
| AuthLink.NeverDropped | Controller-AMX/controllerHandler/CServerAuth.cpp:120-142 | A link answered before every tick is never dropped by the timer |
| AuthLink.BoundExactly | Controller-AMX/controllerHandler/CServerAuth.cpp:30-59 | The bound server is the socket of the latest bind that no unbind, disconnection or drop followed |
| AuthLink.NotMissed | Controller-AMX/controllerHandler/CServerAuth.cpp:144-153 | A server that disconnects with no enquiry open is not missed: until the next bind there is neither an enquiry nor a reboot request |
| AuthLink.LostExactly | Controller-AMX/controllerHandler/CServerAuth.cpp:30-153 | A bound server that has neither left nor been given up is lost all the same if and only if another socket has unbound or disconnected since |
| AuthLink.OldServerLeaves | Controller-AMX/controllerHandler/CServerAuth.cpp:30-153 | A second server binds, the first one's connection ends: no server is bound any more |
| AuthLink.AuthServer.OnTimer | Controller-AMX/controllerHandler/CServerAuth.cpp:120-142 | The object does what the run does: a reboot request and the server forgotten when an enquiry is open, else an enquiry under a new number to the bound server, if there is one |
| AuthLink.AuthServer.RequestAuth | Controller-AMX/controllerHandler/CServerAuth.cpp:56-72 | A request for authentication goes out to the bound server, with the token, the ID and a number of its own, if and only if a server is bound |
| AuthLink.AuthServer.OnAuthAnswer | Controller-AMX/controllerHandler/CServerAuth.cpp:89-112 | One message goes to the controller if and only if the ID is not empty; it carries that ID, and its status is 1 if AUTH is y and 0 if not |
| AuthLink.AnswersExactly | Controller-AMX/controllerHandler/CServerAuth.cpp:89-112 | Over a run: a message with an ID and a status was posted if and only if a packet with that ID and the AUTH for it came |
| AuthLink.ReleasedByYes | Controller-AMX/controllerHandler/CServerAuth.cpp:89-112 | A held command goes out only when the auth server has answered y for the ID of its own request |
| Proxy.PendingExactly | Controller-MeetingAgent2/controllerHandler/CController.cpp:39-66 | A request without a reply is pending exactly until a whole period of requests has come after it |
| Proxy.RoutedExactly | Controller-MeetingAgent2/controllerHandler/CController.cpp:39-59 | A reply reaches a device if and only if it names a pending request, and then it carries that request's socket and sequence number |
| Proxy.Routed | Controller-MeetingAgent2/controllerHandler/CController.cpp:39-66 | While no more than a period of requests has come since, the first reply to a request's number goes back to that request's device |
| Proxy.AnsweredOnce | Controller-MeetingAgent2/controllerHandler/CController.cpp:39-59 | No two replies answer the same request |
| Proxy.Unknown | Controller-MeetingAgent2/controllerHandler/CController.cpp:39-48 | A duplicate or unknown reply changes nothing and reaches nobody |
| Proxy.Conserved | Controller-MeetingAgent2/controllerHandler/CController.cpp:39-66 | Pending + answered + overwritten = accepted, in every run |
| Proxy.PendingCount | Controller-MeetingAgent2/controllerHandler/CController.cpp:39-66 | Pending = accepted - answered exactly as long as no request was overwritten |
| Proxy.OverwritesExactly | Controller-MeetingAgent2/controllerHandler/CController.cpp:60-66 | A request overwrites another exactly when the one a period before it is still pending |
| Proxy.SentToCurrent | Controller-MeetingAgent2/controllerHandler/CServerMeeting.cpp:43-81 | A request goes to the meeting socket that was added last, unless it has been deleted, and to no other |
| Proxy.OneClient | Controller-MeetingAgent2/controllerHandler/CServerMeeting.cpp:112-134 | There is never more than one meeting socket |
| Proxy.MeetingServer.DeleteClient | Controller-MeetingAgent2/controllerHandler/CServerMeeting.cpp:123-134 | The first occurrence of the socket is erased |
| Proxy.WithoutFirst | Controller-MeetingAgent2/controllerHandler/CServerMeeting.cpp:123-134 | What is taken out is the first of its kind, and the rest keeps its order |
| Proxy.Agent.OnMeetingCommand | Controller-MeetingAgent2/controllerHandler/CController.cpp:60-66 | The object does what the run does: a request none of whose socket, command and number is -1 is remembered under a new number and sent to the last meeting socket; any other changes nothing |
| Proxy.Agent.OnDeviceCommand | Controller-MeetingAgent2/controllerHandler/CController.cpp:39-59 | The same for replies: the remembered request's socket and number with the reply's command and body |
| EnquireLink.Accounted | Controller-Meeting/enquireLinkYo/EnquireLinkYo.cpp:109-178 | Under every interleaving of any number of loop threads, answers, starts, stops and cancellations: what is counted, in flight or lost equals what was sent since the last answer plus what that answer overtook |
| EnquireLink.SilenceMeans | Controller-Meeting/enquireLinkYo/EnquireLinkYo.cpp:146-153 | Silence is reported only after maxBalance requests without an answer, less those in flight at the last answer |
| EnquireLink.EnoughExactly | Controller-Meeting/enquireLinkYo/EnquireLinkYo.cpp:146-153 | In any run, a silence report has at least maxBalance - 1 unanswered requests behind it if and only if the last answer overtook no more than one request beyond those counted too many, in flight or lost |
| EnquireLink.ApartExactly | Controller-Meeting/enquireLinkYo/EnquireLinkYo.cpp:67-121 | Starts are apart (one that finds isRunning unset comes only when all threads have ended) if and only if there are never two live threads |
| EnquireLink.ApartForCallers | Controller-Meeting/enquireLinkYo/EnquireLinkYo.cpp:67-121 | The same condition for callers, if and only if: no start between an earlier start and its thread's setting of isRunning, and none between a stop and the end of the thread |
| EnquireLink.SilenceExactly | Controller-Meeting/enquireLinkYo/EnquireLinkYo.cpp:109-178 | Where starts are apart: exactly maxBalance requests, or maxBalance - 1 when the last answer came between a request's sending and its count |
| EnquireLink.NeverAnswered | Controller-Meeting/enquireLinkYo/EnquireLinkYo.cpp:109-178 | Where starts are apart, in every run in which no answer has come since the loop began: silence is reported after exactly maxBalance requests |
| EnquireLink.ReportComes | Controller-Meeting/enquireLinkYo/EnquireLinkYo.cpp:129-175 | A loop that is not hindered and not answered does report silence, after 6 * maxBalance + 2 steps |
| EnquireLink.OneTooFew | Controller-Meeting/enquireLinkYo/EnquireLinkYo.cpp:104-165 | The bound maxBalance - 1 is reached, for every maxBalance |
| EnquireLink.TwoLoops | Controller-Meeting/enquireLinkYo/EnquireLinkYo.cpp:67-121 | Two starts in quick succession make two loops, and then starts are not apart |
| EnquireLink.TwoTooFew | Controller-Meeting/enquireLinkYo/EnquireLinkYo.cpp:67-165 | With two loops the bound is broken: silence is reported after maxBalance - 2 requests, for every maxBalance above 1 |
| EnquireBounds.BreaksExactly | Controller-Meeting/enquireLinkYo/EnquireLinkYo.cpp:67-178 | From any run, without a further start, some continuation reports silence too early after a further answer if and only if maxBalance is above 1 and either two threads can go on (isRunning is set or one of them will set it) or, the loops stopped, the threads about to count reach the limit and another is about to check it |
| EnquireBounds.InformsExactly | Controller-Meeting/enquireLinkYo/EnquireLinkYo.cpp:109-178 | A failure is reported exactly when the count is found at its limit, or when a request could not be sent while isRunning was set |
| EnquireBounds.ProbeExactly | Controller-Meeting/enquireLinkYo/EnquireLinkYo.cpp:109-128 | A socket that is not there ends the thread and lets another start |
| EnquireBounds.StopEnds | Controller-Meeting/enquireLinkYo/EnquireLinkYo.cpp:80-178 | Once isRunning is unset and no thread is on its way to set it, every thread ends after at most three steps of its own |
| EnquireLink.StartIgnored | Controller-Meeting/enquireLinkYo/EnquireLinkYo.cpp:67-78 | Where starts are apart: after a failure report isRunning stays set, and until a stop no start makes a thread and no request is sent |
| EnquireLink.IdleExactly | Controller-Meeting/enquireLinkYo/EnquireLinkYo.cpp:67-178 | In any run, while isRunning is set: however it goes on, until a stop no start makes a thread and no request is sent, if and only if every thread has reported, is about to, or ends before it does anything |
| EnquireLink.SendsAfterReport | Controller-Meeting/enquireLinkYo/EnquireLinkYo.cpp:67-178 | With two loops one reports the failure and the other sends a request after it, without any stop |

## Left out

- Doubles: number fields are exact reals; rounding, infinities and casts of numbers outside the range of int are not modelled.
- The `%f` and `%e` branches of `print_number`: printing is modelled for 32-bit integers, whose two fields agree.
- Escapes that are cut short (a backslash at the end of the text, `\u` without four hexadecimal digits): the parsers in memory require complete ones, which `Escapes.Outside` defines.
- Minifying in place a text with an unclosed string or block comment: the function says that it runs off the end, the loop requires that it does not.
- Failing allocation and `cJSON_InitHooks`: allocation always succeeds, so the failure branches are not there.
- Sizes beyond int: lengths and counters are unbounded, except that the buffered printer's sizes stay within 2^30, where `pow2gt` is still right.
- C strings in nodes are blocks whose bytes do not change; nothing in the engine writes to them once they are in a node.
- The tables of entries and names in `print_array` and `print_object` are local sequences, not blocks of the heap.
- `cJSON_AddItemToObjectCS` and constant names: no member of the ownership model has the flag.
- Replacing an item: what can be read afterwards is not stated, as it is for adding, inserting and detaching.
- Adding children to a reference node: its list belongs to another node, so the calls require a node that owns its children.
- The one-argument `print_array`, `cJSON_Print_Array` and the helpers that create arrays from C arrays: the same loops with less in them.
- `cJSON_GetErrorPtr`: the error pointer is a field of the parser.
- Null names and null strings when printing: names and strings of a printable tree are there.
- By-name lookups: the key is read before anything is freed, so that it is readable when the call starts is left to the caller.
- UTF-8 in the texts themselves: bytes from 0x80 on are taken as parts of unescaped characters, well formed or not.
- AMX messages arrive decoded: reading TOKEN, ID and AUTH out of their JSON bodies and writing them is not modelled, and the command tables are a parameter.
- Sockets, queues, threads, timers and logging: their effects are events; closing a socket may lead to a disconnection event or not.
- EnquireLink: sleeping takes no time, the limit does not change during a run, and a cancelled thread may end anywhere.
