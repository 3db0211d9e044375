# Verified models of the JSON, WebSocket and event-loop cores

This project models the parts of the repository whose correctness is hardest to see from the code, and proves
what they promise for all inputs and all runs. `dafny verify dfyconfig.toml` checks all of it.

**Reading JSON.** `JsonText` and `JsonDescent` state what recursive descent does: the log of handler events, the
end and the first error. `JsonReader` is the reader as a class, with the recursive parser, the table-driven one and
the token-by-token one, each proved against that one description; `JsonStates` and `JsonSimulation` say what
recursive descent would still do from any configuration of the table-driven parser. `JsonGrammar` is an independent
grammar of the texts (sections 2 to 7 of RFC 8259 and the extensions that flags switch on), and `JsonLexing`,
`JsonNumbers` and `JsonAcceptance` prove that exactly its texts are accepted, with the events of their trees.
`JsonVocabulary` pins the characters, digits and escapes that grammar and readers share to the standards' tables.

**Writing and storing JSON.** `JsonWriter` has both writers, `JsonNode` the document handler, `JsonRoundTrip` and
`JsonLoading` the round trips between text, events and stored values. `JsonMembers` has an object's members with
and without the members map. `JsonFilterKey` is the streaming filter. `JsonPointer` and `JsonPointerTree` read,
write, resolve and create by pointer. `Utf8Codec` has the UTF-8 coder and `UriPath` the removal of dot segments.
`MemoryPool` is the pool allocator.

**Concurrency and the network.** `EventLoopWorker` and `ParseByParts` are interleavings of single steps of
their threads, with mutexes, a pipe that can be full, and condition variables. `WebSocketFrame`, `WebSocketPacket`
and `WebSocketReceive` go from bytes over frames to messages. `HandshakeBase64` is the encoder. `Bytes` holds what the
byte-level modules share.

A text is a string of code units, and reading at or behind its end gives zero. A handler is the list of events
sent to it. The specification functions carry the log along, so that what a parser has sent before it failed is
part of what is proved.

Where the code and its documentation differ, the model follows the code:

- `3rdparty/rapidjson/doc/sax.md:193-196` shows a loop that calls `IterativeParseNext` until the reader is complete and
  looks at nothing else. On accepted texts it ends. Without comments, the first call that fails leaves a complete state
  if and only if the text begins with a whole value (`ParseByEvents`): on `[]x` the loop ends with the error set
  (`LoopEndsWithError`), on `x` it never ends (`DocumentedLoop`, `LoopStaysAtX`).
- `3rdparty/rapidjson/include/rapidjson/reader.h:612-618` says that a call returns whether parsing succeeded. Without
  comments it does: the call fails exactly when it sets an error (`IterativeParseNext`). With comments a call can succeed
  with an error set (`BadCommentIsMissed`).
- `3rdparty/rapidjson/include/rapidjson/reader.h:101-104` asserts that no error is set over another one. The error
  `SetTwice` stands for that assertion failing; a build without assertions keeps the later error instead. It never fails
  in `Parse`, with either parser, nor up to the first failing call of pull parsing without comments; with comments it can
  (`BadCommentSetsTwice`).
- A fragmented message reaches the message handler with the opcode of its last fragment, which RFC 6455 makes zero
  (`src/net/wss_client.cpp:357-365`, section 5.4 of RFC 6455); it is the first fragment's opcode exactly when there is
  one fragment (`OpcodeOfFirst`, `TwoFragments`).
- A masked frame that gives a length below four in sixteen bits can be taken before its masking key is there
  (`src/util/ws/ws_packet.cpp:74-97`); `NeverPremature` says that no other frame can.
- A last frame of fewer than six bytes waits in the receive buffer until more bytes come
  (`src/net/wss_client.cpp:348`); `ShortTailWaits` says exactly when, and `HiWaits` shows one.
- The overflow test of pointer indices misses some values (`3rdparty/rapidjson/include/rapidjson/pointer.h:1027-1037`);
  `IndexIsDecimal` says exactly when the index is right, and
  `TenDigits` which numbers of ten digits it misses.
- With `kParseNanAndInfFlag` a NaN or an infinity may be followed by a fraction or an exponent and is still accepted
  (`3rdparty/rapidjson/include/rapidjson/reader.h:1524-1630`); the grammar allows it (`NanTakesFraction`).

## Model

| member | source | states |
|---|---|---|
| `JsonAcceptance.AcceptedIffDerivable` | 3rdparty/rapidjson/include/rapidjson/reader.h:559-590 | a text without zero characters is accepted if and only if some tree of the grammar (sections 2 to 7 of RFC 8259 with the flags' extensions) is written exactly so, and then the events are those of that tree |
| `JsonAcceptance.DocumentSound` | 3rdparty/rapidjson/include/rapidjson/reader.h:559-590 | every accepted text begins with a tree of the grammar whose events are the ones sent; with stop-when-done it ends behind the root, otherwise nothing follows |
| `JsonAcceptance.DocumentComplete` | 3rdparty/rapidjson/include/rapidjson/reader.h:559-590 | every text that a tree of the grammar derives is accepted with that tree's events, and where the reader stops under either setting of stop-when-done |
| `JsonAcceptance.ValueSound` | 3rdparty/rapidjson/include/rapidjson/reader.h:1752-1770 | an accepted value is a tree of the grammar with the same events and the same end |
| `JsonAcceptance.ValueComplete` | 3rdparty/rapidjson/include/rapidjson/reader.h:1752-1770 | a tree's text is read as a value with the tree's events, whatever may follow a value |
| `JsonReader.GenericReader.IterativeParse` | 3rdparty/rapidjson/include/rapidjson/reader.h:2192-2225 | for every text, every setting of the flags and whatever an earlier parse has left in the reader, the table-driven parser accepts exactly what recursive descent accepts, stops at the same place, has sent the same events even when it rejects, sets no error over another and leaves its stack empty |
| `JsonReader.GenericReader.RecursiveParse` | 3rdparty/rapidjson/include/rapidjson/reader.h:559-590 | the recursive parser ends with the log, position or error of the recursive-descent specification |
| `JsonReader.GenericReader.Parse` | 3rdparty/rapidjson/include/rapidjson/reader.h:559-590 | whichever parser the flag selects, acceptance, events and end are those of recursive descent |
| `JsonReader.GenericReader.ParseByEvents` | 3rdparty/rapidjson/include/rapidjson/reader.h:607-680 | pull parsing until the reader is complete or a call fails accepts the same texts and sends the same events, with exactly one call per event; without comments the first failing call leaves a complete state if and only if the text begins with a whole value, as stop-when-done would accept it |
| `JsonReader.GenericReader.IterativeParseNext` | 3rdparty/rapidjson/include/rapidjson/reader.h:620-672 | from an unfinished state one call sends exactly one event and leaves what recursive descent would still do unchanged, or sets an error on a text that recursive descent rejects; without comments the call fails exactly when it sets an error; behind a bad comment the next token decides the result and a scalar is still sent, but not a string; where no value can go on, every further call fails and leaves position, log and state as they are |
| `JsonReader.GenericReader.FinishNext` | 3rdparty/rapidjson/include/rapidjson/reader.h:640-652 | after the root only blanks may follow, unless stop-when-done is set; without comments it fails exactly when it sets an error |
| `JsonReader.GenericReader.NextToken` | 3rdparty/rapidjson/include/rapidjson/reader.h:621-626 | one token is read behind blanks and comments, a bad comment included, with what that does to the rest of the parse |
| `JsonReader.GenericReader.DocumentedLoop` | 3rdparty/rapidjson/doc/sax.md:193-196 | the documented loop, which looks at nothing but the state, ends on every accepted text with its events, and without comments on every text that begins with a value; it never ends on a text that begins with nothing a value begins with |
| `JsonDescent.FirstValueStops` | 3rdparty/rapidjson/include/rapidjson/reader.h:577-586 | a parse up to the end of the root value is the whole parse with stop-when-done set: the flag changes nothing before that end |
| `JsonReader.LoopEndsWithError` | 3rdparty/rapidjson/doc/sax.md:193-196 | on the text []x the documented loop ends complete, with an error set |
| `JsonReader.LoopStaysAtX` | 3rdparty/rapidjson/doc/sax.md:193-196 | on the text x the documented loop never becomes complete, however many turns it is given |
| `JsonReader.BadCommentIsMissed` | 3rdparty/rapidjson/include/rapidjson/reader.h:620-672 | with comments allowed, the first call on /[] succeeds although it has set an error |
| `JsonReader.BadCommentSetsTwice` | 3rdparty/rapidjson/include/rapidjson/reader.h:101-104 | with comments allowed, the first call on /x sets a second error over the first, which the code asserts never to happen |
| `JsonReader.GenericReader.IterativeParseInit` | 3rdparty/rapidjson/include/rapidjson/reader.h:607-610 | clears the error and the state |
| `JsonReader.GenericReader.Transit` | 3rdparty/rapidjson/include/rapidjson/reader.h:2011-2160 | a transition keeps what recursive descent would still do and makes progress, or finds with recursive descent that the text is wrong, having sent the same events; when an error is set already a scalar other than a string is read and sent all the same, and the transition fails |
| `JsonReader.GenericReader.Open` | 3rdparty/rapidjson/include/rapidjson/reader.h:2018-2043 | opening an object or array pushes the state to return to and a zero count |
| `JsonReader.GenericReader.Delimit` | 3rdparty/rapidjson/include/rapidjson/reader.h:2073-2078 | a comma counts the member or element before it and keeps the rest of the parse |
| `JsonReader.GenericReader.Finish` | 3rdparty/rapidjson/include/rapidjson/reader.h:2080-2138 | closing pops the count, completes it, refuses a trailing comma unless allowed, and returns to the outer state |
| `JsonReader.GenericReader.TransitKey` | 3rdparty/rapidjson/include/rapidjson/reader.h:2045-2050 | a member's name is read as recursive descent reads it; when an error is set already nothing is sent and the transition fails |
| `JsonReader.GenericReader.TransitScalar` | 3rdparty/rapidjson/include/rapidjson/reader.h:2057-2160 | a scalar is read as recursive descent reads it and leads to the next state; when an error is set already it is read and, unless it is a string, sent, and the transition fails |
| `JsonReader.GenericReader.HandleError` | 3rdparty/rapidjson/include/rapidjson/reader.h:2163-2181 | the error of the state at the current offset, unless one is set already |
| `JsonSimulation.ValueStep` | 3rdparty/rapidjson/include/rapidjson/reader.h:2011-2160 | where a value is expected, the configuration after that value means the same as recursive descent after that value |
| `JsonSimulation.OpenStep` | 3rdparty/rapidjson/include/rapidjson/reader.h:2018-2043 | the configuration inside an opened object or array means the same as before the bracket |
| `JsonSimulation.KeyStep` | 3rdparty/rapidjson/include/rapidjson/reader.h:2045-2050 | the configuration behind a name means the same as before it |
| `JsonSimulation.ColonStep` | 3rdparty/rapidjson/include/rapidjson/reader.h:2052-2055 | the configuration behind a colon means the same as before it |
| `JsonSimulation.CommaStep` | 3rdparty/rapidjson/include/rapidjson/reader.h:2073-2078 | the configuration behind a comma, with the count one higher, means the same as before it |
| `JsonSimulation.CloseStep` | 3rdparty/rapidjson/include/rapidjson/reader.h:2080-2138 | the configuration behind a closing bracket, one level up, means the same as before it |
| `JsonSimulation.RejectStep` | 3rdparty/rapidjson/include/rapidjson/reader.h:1844-2004 | wherever the table says error, or a trailing comma is not allowed, recursive descent fails too and sends nothing more |
| `JsonSimulation.EndRejects` | 3rdparty/rapidjson/include/rapidjson/reader.h:2214-2222 | at the end of the text every unfinished configuration is rejected by recursive descent too |
| `JsonReader.GenericReader.ParseObject` | 3rdparty/rapidjson/include/rapidjson/reader.h:740-805 | objects: members, counts modulo 2^32, trailing commas and every error as specified |
| `JsonReader.GenericReader.ParseMember` | 3rdparty/rapidjson/include/rapidjson/reader.h:757-776 | one name, colon and value inside an object |
| `JsonReader.GenericReader.EndMember` | 3rdparty/rapidjson/include/rapidjson/reader.h:778-803 | a comma counts and goes on, a brace ends with the member count |
| `JsonReader.GenericReader.ParseArray` | 3rdparty/rapidjson/include/rapidjson/reader.h:808-853 | arrays: elements, counts, trailing commas and every error as specified |
| `JsonReader.GenericReader.ParseElement` | 3rdparty/rapidjson/include/rapidjson/reader.h:825-830 | one element inside an array |
| `JsonReader.GenericReader.EndElement` | 3rdparty/rapidjson/include/rapidjson/reader.h:828-851 | a comma counts and goes on, a bracket ends with the element count |
| `JsonReader.GenericReader.ParseValue` | 3rdparty/rapidjson/include/rapidjson/reader.h:1752-1770 | dispatch on the first character |
| `JsonReader.GenericReader.SkipWhitespaceAndComments` | 3rdparty/rapidjson/include/rapidjson/reader.h:711-737 | skips exactly the blanks and, when allowed, the comments; an unclosed comment is an error at the same offset |
| `JsonReader.GenericReader.SkipComment` | 3rdparty/rapidjson/include/rapidjson/reader.h:716-731 | one block or line comment |
| `JsonReader.GenericReader.SkipBlock` | 3rdparty/rapidjson/include/rapidjson/reader.h:716-727 | a block comment ends at the first closing mark, and is an error at the end of the text |
| `JsonReader.GenericReader.SkipLine` | 3rdparty/rapidjson/include/rapidjson/reader.h:728-729 | a line comment ends behind the next newline or at the end of the text |
| `JsonReader.GenericReader.SkipWhitespace` | 3rdparty/rapidjson/include/rapidjson/reader.h:266-273 | skips space, newline, return and tab, and nothing else |
| `JsonReader.GenericReader.ParseNull` | 3rdparty/rapidjson/include/rapidjson/reader.h:856-866 | the literal null |
| `JsonReader.GenericReader.ParseTrue` | 3rdparty/rapidjson/include/rapidjson/reader.h:869-879 | the literal true |
| `JsonReader.GenericReader.ParseFalse` | 3rdparty/rapidjson/include/rapidjson/reader.h:882-892 | the literal false |
| `JsonReader.GenericReader.ConsumeWord` | 3rdparty/rapidjson/include/rapidjson/reader.h:895-903 | a chain of Consume calls goes exactly as far as the text matches |
| `JsonReader.GenericReader.ParseHex4` | 3rdparty/rapidjson/include/rapidjson/reader.h:906-925 | four hex digits and their value, or the error at the escape |
| `JsonReader.GenericReader.ParseUnicode` | 3rdparty/rapidjson/include/rapidjson/reader.h:1022-1044 | a unicode escape with its surrogate pair, or the error |
| `JsonReader.GenericReader.ParseStringToStream` | 3rdparty/rapidjson/include/rapidjson/reader.h:991-1068 | every escape decoded, control characters and open strings refused |
| `JsonReader.GenericReader.ParseString` | 3rdparty/rapidjson/include/rapidjson/reader.h:959-988 | a string event, or a key event, with the decoded characters |
| `JsonLexing.StringSound` | 3rdparty/rapidjson/include/rapidjson/reader.h:991-1068 | an accepted string is a list of the grammar's characters and escapes with that meaning |
| `JsonLexing.StringComplete` | 3rdparty/rapidjson/include/rapidjson/reader.h:991-1068 | the grammar's characters and escapes are read back as what they mean |
| `JsonVocabulary.SpacesAre` | 3rdparty/rapidjson/include/rapidjson/reader.h:266-273 | blanks are exactly space, tab, line feed and carriage return |
| `JsonVocabulary.DigitsAre` | 3rdparty/rapidjson/include/rapidjson/reader.h:912-919 | hexadecimal digits are exactly 0 to 9, a to f and A to F |
| `JsonVocabulary.DigitMeans` | 3rdparty/rapidjson/include/rapidjson/reader.h:912-919 | the digit at place d of either alphabet has the value d |
| `JsonVocabulary.EscapeMeans` | 3rdparty/rapidjson/include/rapidjson/reader.h:906-925 | four hexadecimal digits in any mixture of cases mean the number they write in base 16 |
| `JsonVocabulary.EscapesAre` | 3rdparty/rapidjson/include/rapidjson/reader.h:993-1003 | the eight escapes of one character and the characters they stand for |
| `JsonVocabulary.SurrogatesMean` | 3rdparty/rapidjson/include/rapidjson/reader.h:1028-1038 | the two surrogates of UTF-16 for a code point are read as that code point |
| `JsonVocabulary.EscapeIsUtf8` | 3rdparty/rapidjson/include/rapidjson/reader.h:1022-1044 | an escaped code point is sent as its UTF-8 character (section 4 of RFC 3629) |
| `JsonVocabulary.LowerCaseEscape` | 3rdparty/rapidjson/include/rapidjson/reader.h:991-1068 | the text with the escape u00e9 is the string of the bytes C3 and A9 |
| `JsonVocabulary.DecimalDigitsAre` | 3rdparty/rapidjson/include/rapidjson/reader.h:1495-1497 | the ten digits and their values |
| `JsonLexing.GapsSound` | 3rdparty/rapidjson/include/rapidjson/reader.h:711-737 | what is skipped is a list of blanks and comments, and what follows is neither |
| `JsonLexing.GapsComplete` | 3rdparty/rapidjson/include/rapidjson/reader.h:711-737 | blanks and comments are skipped to their end |
| `JsonNumbers.IntegerIsExact` | 3rdparty/rapidjson/include/rapidjson/reader.h:1483-1749 | an integer literal of any length gives its exact value, signed with a minus sign and unsigned without, in 32 bits exactly when it fits, and a double exactly when it leaves [-2^63, 2^64 - 1] |
| `JsonNumbers.NumberComplete` | 3rdparty/rapidjson/include/rapidjson/reader.h:1468-1749 | every number of the grammar that is not too big is read whole, as the integer or double it denotes |
| `JsonNumbers.NumberSound` | 3rdparty/rapidjson/include/rapidjson/reader.h:1468-1749 | every number token read is a number of the grammar with that event |
| `JsonNumbers.NanTakesFraction` | 3rdparty/rapidjson/include/rapidjson/reader.h:1524-1630 | with NaN allowed, NaN.5 is read as one number |
| `JsonReader.GenericReader.ParseNumber` | 3rdparty/rapidjson/include/rapidjson/reader.h:1468-1749 | the number method gives the token, the event and the end of the specification, or its error |
| `JsonReader.GenericReader.ParseHead` | 3rdparty/rapidjson/include/rapidjson/reader.h:1486-1582 | the integer part: which of the 32-bit, 64-bit and double branches is taken says exactly which limits the value passes |
| `JsonReader.GenericReader.ParseInteger` | 3rdparty/rapidjson/include/rapidjson/reader.h:1495-1575 | the digit loops: the accumulators hold the exact value as long as it fits the limits |
| `JsonReader.GenericReader.AccumulateDigits` | 3rdparty/rapidjson/include/rapidjson/reader.h:1498-1574 | a digit loop never takes its accumulator past its limit, so it cannot wrap, and stops exactly when the literal's value would pass it |
| `JsonReader.GenericReader.ParseSpecial` | 3rdparty/rapidjson/include/rapidjson/reader.h:1524-1546 | NaN, Inf and Infinity when allowed, and where the mismatch is reported |
| `JsonReader.GenericReader.ParseFraction` | 3rdparty/rapidjson/include/rapidjson/reader.h:1584-1630 | the fraction: how many digits enter the significand, and that the number is a double |
| `JsonReader.GenericReader.ParseNarrowFraction` | 3rdparty/rapidjson/include/rapidjson/reader.h:1595-1608 | the part that still adds to the 64-bit significand, which cannot wrap |
| `JsonReader.GenericReader.ParseWideFraction` | 3rdparty/rapidjson/include/rapidjson/reader.h:1618-1627 | the part that adds up to seventeen significant digits |
| `JsonReader.GenericReader.ParseExponent` | 3rdparty/rapidjson/include/rapidjson/reader.h:1632-1680 | the exponent and its sum with the fraction's shift stay inside a 32-bit int for inputs below 2^27 characters, and the error for a too big exponent is exact |
| `JsonReader.GenericReader.ParsePositiveExponent` | 3rdparty/rapidjson/include/rapidjson/reader.h:1666-1673 | stops with an error exactly when the exponent is above the limit, before it can overflow |
| `JsonReader.GenericReader.ParseNegativeExponent` | 3rdparty/rapidjson/include/rapidjson/reader.h:1648-1665 | stays below ten times the limit and skips the remaining digits |
| `JsonDigits.GuardExact` | 3rdparty/rapidjson/include/rapidjson/reader.h:1500-1571 | the guard value and last digit comparison is exactly the test that one more digit passes the limit |
| `JsonDigits.ManyDigits` | 3rdparty/rapidjson/include/rapidjson/reader.h:1550-1582 | a value that leaves the 64-bit limits has at least eighteen digits, so the significand is full |
| `JsonRoundTrip.DocumentRoundTrip` | 3rdparty/rapidjson/include/rapidjson/document.h:2642-2657 | writing a document's value in any format and parsing it into a document again gives exactly that value |
| `JsonRoundTrip.PrintThenLoad` | 3rdparty/rapidjson/include/rapidjson/document.h:2642-2657 | any value printed in any format and loaded under any flags gives a document that holds the value's shape, names, strings and integers |
| `JsonRoundTrip.PrintThenParse` | 3rdparty/rapidjson/include/rapidjson/writer.h:217-253 | parsing what the compact or pretty writer printed sends exactly the value's events, counts included and each integer in the type that the reader gives its value, with every flag setting |
| `JsonRoundTrip.WriterPrints` | 3rdparty/rapidjson/include/rapidjson/prettywriter.h:123-179 | the writer's output on a value's events is the value's layout in the format, and its level stack is empty again |
| `JsonRoundTrip.PrintValue` | 3rdparty/rapidjson/include/rapidjson/writer.h:197-253 | the writer object, fed a value's events, holds the value's layout |
| `JsonRoundTrip.WritesValue` | 3rdparty/rapidjson/include/rapidjson/writer.h:479-497 | inside any open levels a value's events append exactly separators, indentation and the value's layout, and count one value |
| `JsonRoundTrip.LayoutMeans` | 3rdparty/rapidjson/include/rapidjson/prettywriter.h:208-255 | the layout is a tree of the grammar, and its events are the value's events with each integer in the type that the reader gives its value |
| `JsonRoundTrip.PiecesPrint` | 3rdparty/rapidjson/include/rapidjson/writer.h:383-455 | an escaped string is a string of the grammar that means the original characters |
| `JsonRoundTrip.EscapeIsPiece` | 3rdparty/rapidjson/include/rapidjson/writer.h:383-455 | each character's escape is one piece of the grammar that means that character |
| `JsonRoundTrip.IntegerPrints` | 3rdparty/rapidjson/include/rapidjson/writer.h:314-348 | a printed integer is a number of the grammar with the integer's event |
| `JsonWriter.Writer.WriteString` | 3rdparty/rapidjson/include/rapidjson/writer.h:383-455 | the loop writes the quoted and escaped string |
| `JsonWriter.EscapesAre` | 3rdparty/rapidjson/include/rapidjson/writer.h:383-455 | the escape table: seven short escapes, upper-case hexadecimal for the other control characters, and all else as it is |
| `JsonWriter.AssertionsAre` | 3rdparty/rapidjson/include/rapidjson/writer.h:479-497 | exactly which events the writer's assertions forbid: a second root, something other than a string where an object wants a name, and a bracket that does not close what is open |
| `JsonWriter.Writer.Prefix` | 3rdparty/rapidjson/include/rapidjson/writer.h:479-497 | the comma or colon before a value and the count after it |
| `JsonWriter.Writer.PrettyPrefix` | 3rdparty/rapidjson/include/rapidjson/prettywriter.h:208-250 | the same with new lines and indentation, or spaces inside single-line arrays |
| `JsonWriter.Writer.WriteIndent` | 3rdparty/rapidjson/include/rapidjson/prettywriter.h:252-255 | indentation by the number of open levels |
| `JsonWriter.Writer.EndObject` | 3rdparty/rapidjson/include/rapidjson/prettywriter.h:137-155 | closes the object, with the pretty writer's last line when it has members |
| `JsonWriter.Writer.EndArray` | 3rdparty/rapidjson/include/rapidjson/prettywriter.h:163-179 | closes the array likewise |
| `JsonWriter.Writer.ReceiveAll` | 3rdparty/rapidjson/include/rapidjson/writer.h:197-253 | over any run of events that no assertion forbids the object does what the specification does |
| `JsonWriter.Writer.Scalar` | 3rdparty/rapidjson/include/rapidjson/writer.h:183-215 | a scalar with its prefix |
| `JsonWriter.Writer.Key` | 3rdparty/rapidjson/include/rapidjson/writer.h:223-223 | a member's name |
| `JsonWriter.Writer.StartObject` | 3rdparty/rapidjson/include/rapidjson/writer.h:217-221 | opens a level for an object |
| `JsonWriter.Writer.StartArray` | 3rdparty/rapidjson/include/rapidjson/writer.h:241-245 | opens a level for an array |
| `JsonNode.AcceptBuilds` | 3rdparty/rapidjson/include/rapidjson/document.h:1948-1985 | feeding a value's events to the document's handler pushes exactly that value and leaves the stack below untouched |
| `JsonNode.AcceptKeeps` | 3rdparty/rapidjson/include/rapidjson/document.h:2820-2860 | the value pushed has the shape, names, strings and integers of the one sent, and the stack below is untouched |
| `JsonNode.StoredKeeps` | 3rdparty/rapidjson/include/rapidjson/document.h:1977-1984 | an integer in the range of its type is kept exactly, in the first of Int, Uint, Int64 and Uint64 that holds it, and every other scalar is kept as it is |
| `JsonNode.ConstructThenSend` | 3rdparty/rapidjson/include/rapidjson/document.h:792-828 | the 64 bits and the type flags that the number constructors set make Accept send the same integer, in that type |
| `JsonNode.AcceptInto` | 3rdparty/rapidjson/include/rapidjson/document.h:1948-1985 | walking a value into a document pushes exactly that value: its shape, names, strings and integers |
| `JsonRoundTrip.RereadStored` | 3rdparty/rapidjson/include/rapidjson/document.h:2820-2860 | a document stores the value that was read back as it would have stored the original value |
| `JsonNode.StoredTwice` | 3rdparty/rapidjson/include/rapidjson/document.h:2820-2860 | what a document stores for a number is stored unchanged by another document |
| `JsonLoading.OneRoot` | 3rdparty/rapidjson/include/rapidjson/document.h:2642-2657 | after every accepted parse exactly one value is on the document's stack: it has the shape and names of the text's tree, and at every place the literal's own value, integers of 64 bits exactly |
| `JsonLoading.TreeSendsValue` | 3rdparty/rapidjson/include/rapidjson/document.h:2642-2657 | the events of a tree of the grammar are those of the value that it denotes |
| `JsonNode.GenericDocument.EndObject` | 3rdparty/rapidjson/include/rapidjson/document.h:2848-2852 | pops the members off the stack into the object below them |
| `JsonNode.GenericDocument.EndArray` | 3rdparty/rapidjson/include/rapidjson/document.h:2856-2860 | pops the elements off the stack into the array below them |
| `JsonNode.GenericDocument.Scalar` | 3rdparty/rapidjson/include/rapidjson/document.h:2820-2842 | pushes the scalar: strings, doubles and the words as they are, and an integer as the same integer in the first of Int, Uint, Int64 and Uint64 that holds it |
| `JsonNode.GenericDocument.StartObject` | 3rdparty/rapidjson/include/rapidjson/document.h:2844-2844 | pushes an empty object |
| `JsonNode.GenericDocument.StartArray` | 3rdparty/rapidjson/include/rapidjson/document.h:2854-2854 | pushes an empty array |
| `JsonNode.GenericDocument.Key` | 3rdparty/rapidjson/include/rapidjson/document.h:2846-2846 | pushes the name as a string |
| `JsonFilterKey.Filters` | 3rdparty/rapidjson/example/filterkey/filterkey.cpp:26-99 | for every value and key the filter forwards exactly the events of the value without any member of that name at any depth, with the counts of what is left, and is back in its starting state |
| `JsonFilterKey.Skips` | 3rdparty/rapidjson/example/filterkey/filterkey.cpp:95-99 | inside a filtered member a whole value is swallowed and ends one level |
| `JsonFilterKey.FiltersMembers` | 3rdparty/rapidjson/example/filterkey/filterkey.cpp:47-71 | a list of members forwards the members that are kept and counts them |
| `JsonFilterKey.FiltersElems` | 3rdparty/rapidjson/example/filterkey/filterkey.cpp:73-92 | a list of elements forwards every element, filtered |
| `JsonFilterKey.FilterKeyHandler.Key` | 3rdparty/rapidjson/example/filterkey/filterkey.cpp:47-58 | starts filtering at the key, otherwise counts and forwards |
| `JsonFilterKey.FilterKeyHandler.StartObject` | 3rdparty/rapidjson/example/filterkey/filterkey.cpp:36-45 | deepens a filtered value, otherwise opens a count and forwards |
| `JsonFilterKey.FilterKeyHandler.EndObject` | 3rdparty/rapidjson/example/filterkey/filterkey.cpp:60-71 | ends a filtered level, otherwise forwards the recomputed count |
| `JsonFilterKey.FilterKeyHandler.StartArray` | 3rdparty/rapidjson/example/filterkey/filterkey.cpp:73-80 | deepens a filtered value, otherwise forwards |
| `JsonFilterKey.FilterKeyHandler.EndArray` | 3rdparty/rapidjson/example/filterkey/filterkey.cpp:82-92 | ends a filtered level, otherwise forwards |
| `JsonFilterKey.FilterKeyHandler.ReceiveAll` | 3rdparty/rapidjson/example/filterkey/filterkey.cpp:26-92 | over any run of events that leaves the count stack sound the object does what the specification does |
| `JsonFilterKey.FilterValue` | 3rdparty/rapidjson/example/filterkey/filterkey.cpp:26-99 | a value sent through a fresh handler comes out as the events of the value without the members of the name at any depth |
| `JsonFilterKey.FilterKeyHandler.Scalar` | 3rdparty/rapidjson/example/filterkey/filterkey.cpp:26-34 | swallows or forwards a scalar |
| `JsonFilterKey.FilterKeyHandler.FinishValue` | 3rdparty/rapidjson/example/filterkey/filterkey.cpp:95-99 | the filtered depth falls back to zero when only the member itself is left |
| `JsonMembers.BuildsAgree` | 3rdparty/rapidjson/include/rapidjson/document.h:2214-2376 | through every run of add, remove, erase and clear, both builds hold the same members in the same order, and a lookup finds a member of the name in one build exactly when it does in the other |
| `JsonMembers.MappedRun` | 3rdparty/rapidjson/include/rapidjson/document.h:2191-2376 | after every run the map has exactly one entry per member, and a map lookup succeeds exactly when a member has the name, with such a member |
| `JsonMembers.PlainRun` | 3rdparty/rapidjson/include/rapidjson/document.h:2266-2376 | after every run the linear scan finds the first member of the name exactly when there is one |
| `JsonMembers.EntriesAreMembers` | 3rdparty/rapidjson/include/rapidjson/document.h:2124-2143 | an indexed map holds exactly the pairs of name and position of the members, one each |
| `JsonMembers.SameKey` | 3rdparty/rapidjson/include/rapidjson/document.h:2123-2130 | the map's order is asymmetric, and two names are the same key exactly when they are equal |
| `JsonMembers.LessTransitive` | 3rdparty/rapidjson/include/rapidjson/document.h:2123-2130 | the map's order is transitive |
| `JsonMembers.RemoveLosesOne` | 3rdparty/rapidjson/include/rapidjson/document.h:2320-2376 | removing by swap and erasing one member lose exactly that member |
| `JsonMembers.IndexWithout` | 3rdparty/rapidjson/include/rapidjson/document.h:2320-2342 | moving the last entry into the gap and renumbering it keeps the index exact |
| `JsonMembers.IndexErased` | 3rdparty/rapidjson/include/rapidjson/document.h:2344-2376 | erasing a range and moving the later entries down keeps the index exact |
| `JsonMembers.IndexAnother` | 3rdparty/rapidjson/include/rapidjson/document.h:2304-2318 | inserting an entry for the appended member keeps the index exact |
| `JsonMembers.MappedObject.DoAddMember` | 3rdparty/rapidjson/include/rapidjson/document.h:2304-2318 | appends the member, growing the storage to 16 or by half when it is full, and keeps the index |
| `JsonMembers.MappedObject.DoReserveMembers` | 3rdparty/rapidjson/include/rapidjson/document.h:2191-2226 | moves members and iterators to larger storage, copying as many as the map has |
| `JsonMembers.MappedObject.DoRemoveMember` | 3rdparty/rapidjson/include/rapidjson/document.h:2320-2342 | the last member takes the place of the removed one, in the array, the iterators and the map |
| `JsonMembers.MappedObject.DoEraseMembers` | 3rdparty/rapidjson/include/rapidjson/document.h:2344-2376 | the range is gone, the later members keep their order, and the index is renumbered |
| `JsonMembers.MappedObject.EraseEntries` | 3rdparty/rapidjson/include/rapidjson/document.h:2349-2358 | exactly the entries of the range leave the map |
| `JsonMembers.MappedObject.MoveDown` | 3rdparty/rapidjson/include/rapidjson/document.h:2359-2369 | each later member moves down with its iterator, whose entry gets the new position |
| `JsonMembers.MappedObject.DoClearMembers` | 3rdparty/rapidjson/include/rapidjson/document.h:2240-2250 | no members and no entries are left; the storage is kept |
| `JsonMembers.MappedObject.DoFindMember` | 3rdparty/rapidjson/include/rapidjson/document.h:2229-2238 | finds a member of the name whenever the linear scan would |
| `JsonMembers.MappedObject.Run` | 3rdparty/rapidjson/include/rapidjson/document.h:2304-2376 | every run of allowed operations keeps the index exact and gives the specified members |
| `JsonMembers.PlainObject.DoFindMember` | 3rdparty/rapidjson/include/rapidjson/document.h:2282-2288 | the first member of the name, or the end |
| `JsonMembers.PlainObject.DoAddMember` | 3rdparty/rapidjson/include/rapidjson/document.h:2304-2318 | appends the member, growing the storage to 16 or by half when it is full |
| `JsonMembers.PlainObject.DoRemoveMember` | 3rdparty/rapidjson/include/rapidjson/document.h:2320-2342 | the last member takes the place of the removed one |
| `JsonMembers.PlainObject.DoEraseMembers` | 3rdparty/rapidjson/include/rapidjson/document.h:2370-2375 | the range is gone and the later members keep their order |
| `EventLoopWorker.RunKeeps` | src/event/event_base.cpp:181-256 | in every interleaving of any number of submitters with the loop thread: executed, local batch and queue are together the tasks in lock order, the mutex excludes, and a non-empty queue implies a byte in the pipe, a submitter about to write, or a loop thread about to drain, even when a write fails because the pipe is full |
| `EventLoopWorker.EveryTaskRunsOnce` | src/event/event_base.cpp:181-256 | when no thread can step any more, every submitted task has run exactly once, in lock order and in each thread's own order |
| `EventLoopWorker.StuckIsDone` | src/event/event_base.cpp:181-256 | some thread can always step unless everything has been submitted, woken for and run |
| `EventLoopWorker.RunEnds` | src/event/event_base.cpp:181-256 | every run is finite: a bound computed from the first state goes down with every step |
| `EventLoopWorker.RunInOrder` | src/event/event_base.cpp:232-242 | what a thread has pushed and what it still has to push are its tasks in order |
| `EventLoopWorker.SubmitterKeeps` | src/event/event_base.cpp:232-242 | every step of submitWork keeps the invariant, the failing write included |
| `EventLoopWorker.LoopKeeps` | src/event/event_base.cpp:181-256 | every step of notify_cb and processWork keeps the invariant |
| `EventLoopWorker.StepSpends` | src/event/event_base.cpp:181-256 | every step lowers the bound on the remaining steps |
| `ParseByParts.RunKeeps` | 3rdparty/rapidjson/example/parsebyparts/parsebyparts.cpp:34-112 | in every interleaving, with spurious wakeups: what has been taken is a prefix of the parts joined in order, everything peeked or taken is the symbol that the joined stream has at that count, and a sleeping thread has a reason to sleep |
| `ParseByParts.NeverBothAsleep` | 3rdparty/rapidjson/example/parsebyparts/parsebyparts.cpp:34-112 | producer and parser are never both asleep |
| `ParseByParts.PartsAreUsedUp` | 3rdparty/rapidjson/example/parsebyparts/parsebyparts.cpp:55-70 | the buffer is replaced only after all earlier parts have been taken in full, unless parsing has completed |
| `ParseByParts.TerminatorIsLast` | 3rdparty/rapidjson/example/parsebyparts/parsebyparts.cpp:34-53 | the parser sees the terminator only after it has taken every part in full |
| `ParseByParts.JoinedAt` | 3rdparty/rapidjson/example/parsebyparts/parsebyparts.cpp:55-70 | symbol k of the stream is character k of the parts joined in order |
| `ParseByParts.StuckIsDone` | 3rdparty/rapidjson/example/parsebyparts/parsebyparts.cpp:34-112 | without spurious wakeups some thread can always step until both have finished |
| `ParseByParts.ProduceKeeps` | 3rdparty/rapidjson/example/parsebyparts/parsebyparts.cpp:34-70 | every step of ParsePart and of the destructor keeps the invariant |
| `ParseByParts.ParseKeeps` | 3rdparty/rapidjson/example/parsebyparts/parsebyparts.cpp:73-112 | every step of Peek, Take and the end of parsing keeps the invariant |
| `WebSocketReceive.ReadAndProcessMessage` | src/net/wss_client.cpp:307-381 | for every stream of readable frames and every way it is cut into reads, once a turn of reads was not cut short, delivered messages, partial message, pongs and left-over bytes are functions of all bytes received so far |
| `WebSocketReceive.TakeMore` | src/net/wss_client.cpp:348-375 | frames and rest of all bytes are those of the first bytes followed by those of the old rest with the new bytes: the cut does not matter |
| `WebSocketReceive.NothingLost` | src/net/wss_client.cpp:348-375 | the frames taken, written out again, followed by the rest, are exactly the bytes received |
| `WebSocketReceive.TakesThePrefix` | src/net/wss_client.cpp:348-375 | from any prefix of a stream of frames exactly the first frames are taken, and what is left is too short to look at or begins the next frame without completing it |
| `WebSocketReceive.ShortTailWaits` | src/net/wss_client.cpp:348-370 | a stream of whole frames is taken to its end exactly when its last frame has at least six bytes; a shorter one waits for more bytes |
| `WebSocketReceive.HiWaits` | src/net/wss_client.cpp:348-370 | the four-byte text frame that says Hi stays in the buffer |
| `WebSocketReceive.MessagesJoin` | src/net/wss_client.cpp:357-365 | messages are the payloads of their fragments joined, one message per FIN, and nothing partial is left |
| `WebSocketReceive.OpcodeOfFirst` | src/net/wss_client.cpp:357-365 | of fragments with the opcode in the first and zero in the others, the message is delivered with the first one's opcode if and only if it is the only one, and else with zero |
| `WebSocketReceive.TwoFragments` | src/net/wss_client.cpp:357-365 | Hi in two text fragments is delivered with opcode zero |
| `WebSocketReceive.StreamDelivered` | src/net/wss_client.cpp:307-381 | a stream of whole messages is delivered as those messages unless its last frame is too short to be looked at |
| `WebSocketReceive.ProcessBuffer` | src/net/wss_client.cpp:350-375 | the inner loop takes every frame that is ready, delivers it, and leaves the rest at the front of the buffer |
| `WebSocketReceive.ProcessFrame` | src/net/wss_client.cpp:352-365 | one frame is taken and delivered if it is all there, and otherwise nothing changes |
| `WebSocketReceive.ProcessOneMessage` | src/net/wss_client.cpp:232-254 | a ping is answered with a pong frame that carries its payload |
| `WebSocketReceive.PingIsAnswered` | src/net/wss_client.cpp:232-254 | a frame that begins with 0x89, and no other, is answered, by a frame that begins with 0x8A and carries its payload |
| `WebSocketReceive.ReadChunks` | src/net/wss_client.cpp:318-327 | the reads of one turn are appended in order |
| `WebSocketPacket.WebSocketPacket.RecvDataframe` | src/util/ws/ws_packet.cpp:74-97 | takes one frame if all of it is there and gives FIN, opcode, mask and payload, and otherwise restores the offset and returns 0; only a masked frame that gives a length below four in sixteen bits is taken too early, when it ends before its key; no access is out of range |
| `WebSocketFrame.NeverPremature` | src/util/ws/ws_packet.cpp:74-155 | the frames that are never taken before they are all there are exactly those whose length is not below four when it is given in sixteen bits before a masking key |
| `WebSocketPacket.WebSocketPacket.FetchFrameInfo` | src/util/ws/ws_packet.cpp:99-155 | reads FIN, opcode, mask, the 7- or 16-bit length and the key, stops behind the header, and keeps the old length when the length has 64 bits |
| `WebSocketPacket.WebSocketPacket.FetchPayload` | src/util/ws/ws_packet.cpp:157-175 | appends the payload with the mask taken off and stops behind it |
| `WebSocketPacket.WebSocketPacket.PackDataframe` | src/util/ws/ws_packet.cpp:177-256 | appends the frame of the packet's fields with the shortest length form; its first byte is FIN with the low four bits of the opcode |
| `WebSocketPacket.CreateWebsocketFrame` | src/net/wss_client.cpp:173-207 | builds the masked text frame byte by byte: 0x81, the length in its shortest form with the mask bit, highest byte first, the key, and payload byte i exclusive-or key byte i modulo 4 |
| `WebSocketPacket.MaskPayload` | src/net/wss_client.cpp:165-171 | bit k of byte i is the sum modulo 2 of bit k of the payload's byte i and of the key's byte i modulo 4 |
| `WebSocketPacket.SendThenReceive` | src/net/wss_client.cpp:173-207 | for every key and every payload up to 65535 bytes, receiving a created frame gives FIN, opcode and payload back and stops just behind the frame, whatever follows |
| `WebSocketPacket.SendThenReceivePart` | src/util/ws/ws_packet.cpp:74-97 | any proper prefix of a created frame of six bytes or more returns 0 and stays in the buffer |
| `WebSocketPacket.ByteBuffer.ReadBytesX` | src/util/ws/ws_packet.cpp:396-404 | reads and advances exactly when there are enough bytes, and otherwise leaves the position |
| `WebSocketPacket.ByteBuffer.SkipX` | src/util/ws/ws_packet.cpp:387-394 | advances exactly when there are enough bytes |
| `WebSocketPacket.ByteBuffer.Curat` | src/util/ws/ws_packet.cpp:379-381 | the position read from; it may not be behind the last byte unless the buffer is empty |
| `WebSocketPacket.ByteBuffer.Erase` | src/util/ws/ws_packet.cpp:419-425 | drops bytes from the front, all of them when asked for more than there are |
| `WebSocketPacket.ByteBuffer.Append` | src/util/ws/ws_packet.cpp:427-431 | adds bytes at the end |
| `WebSocketPacket.ByteBuffer.Clear` | src/util/ws/ws_packet.cpp:433-436 | no bytes and position zero |
| `WebSocketFrame.ReadWritten` | src/util/ws/ws_packet.cpp:74-155 | reading an encoded frame gives the frame back whatever follows, and a shorter input of six bytes or more is seen to be incomplete |
| `WebSocketFrame.WriteRead` | src/util/ws/ws_packet.cpp:74-155 | encoding the frame that was read gives its bytes back |
| `WebSocketFrame.HeaderSeen` | src/util/ws/ws_packet.cpp:99-155 | from six bytes on the header fields are read as they were written |
| `WebSocketFrame.MaskTwice` | src/net/wss_client.cpp:165-171 | masking twice with the same key gives the payload back |
| `WebSocketFrame.XorTwice` | src/net/wss_client.cpp:168-169 | exclusive or with the same byte twice gives the byte back |
| `WebSocketFrame.XorBit` | src/net/wss_client.cpp:168-169 | each bit of the exclusive or of two bytes is the sum of their bits modulo 2 |
| `WebSocketFrame.MaskBits` | src/net/wss_client.cpp:165-171 | masking does so to every byte with the key byte at its position modulo 4 |
| `MemoryPool.MemoryPoolAllocator.Realloc` | 3rdparty/rapidjson/include/rapidjson/allocators.h:336-369 | a block is grown in place exactly when it is the last block of the head chunk and there is room, or it already is large enough; otherwise its bytes move to a block that is new, as is the block that null asks for; no live block's bytes change, and all blocks stay aligned, inside one chunk and disjoint |
| `MemoryPool.MemoryPoolAllocator.Malloc` | 3rdparty/rapidjson/include/rapidjson/allocators.h:321-334 | a new block at the top of the head chunk, aligned, inside one chunk and disjoint from all live blocks; a chunk, of the larger of the chunk capacity and the aligned size, is added exactly when the head chunk has no room, and nothing else changes |
| `MemoryPool.MemoryPoolAllocator.Clear` | 3rdparty/rapidjson/include/rapidjson/allocators.h:277-287 | only the first chunk is left, emptied, and no block is live |
| `MemoryPool.MemoryPoolAllocator.Size` | 3rdparty/rapidjson/include/rapidjson/allocators.h:303-309 | the bytes used in all chunks, never more than the capacity |
| `MemoryPool.MemoryPoolAllocator.Capacity` | 3rdparty/rapidjson/include/rapidjson/allocators.h:292-298 | the capacity of all chunks |
| `MemoryPool.MemoryPoolAllocator.AddChunk` | 3rdparty/rapidjson/include/rapidjson/allocators.h:390-402 | a new empty chunk becomes the head and every block stays where it is |
| `MemoryPool.MemoryPoolAllocator.GrowInPlace` | 3rdparty/rapidjson/include/rapidjson/allocators.h:353-360 | the branch that expands a block fires exactly for the true last block of the head chunk with room |
| `MemoryPool.MemoryPoolAllocator.WithBuffer` | 3rdparty/rapidjson/include/rapidjson/allocators.h:200-213 | the user's buffer is aligned and becomes the first chunk, inside its bounds |
| `MemoryPool.LastOfHead` | 3rdparty/rapidjson/include/rapidjson/allocators.h:354-354 | a live block that ends at the head chunk's top lies in the head chunk, because every chunk has a header before its buffer |
| `MemoryPool.CutKeeps` | 3rdparty/rapidjson/include/rapidjson/allocators.h:321-334 | cutting a block off the head chunk keeps all blocks aligned, inside chunks and disjoint |
| `MemoryPool.GrowKeeps` | 3rdparty/rapidjson/include/rapidjson/allocators.h:353-360 | growing the last block of the head chunk keeps all blocks aligned, inside chunks and disjoint |
| `MemoryPool.SizeWithinCapacity` | 3rdparty/rapidjson/include/rapidjson/allocators.h:292-309 | the total size is at most the total capacity |
| `MemoryPool.NoByteTwice` | 3rdparty/rapidjson/include/rapidjson/allocators.h:321-369 | no byte belongs to two live blocks; blocks start at multiples of 8 and each byte lies behind the header of one chunk, inside its capacity |
| `UriPath.RemoveDotSegments` | 3rdparty/rapidjson/include/rapidjson/uri.h:411-458 | for every absolute path the in-place loop leaves remove_dot_segments of section 5.2.4 of RFC 3986, terminated, with the write position never ahead of the read position |
| `UriPath.Idempotent` | 3rdparty/rapidjson/include/rapidjson/uri.h:411-458 | removing dot segments twice is removing them once |
| `UriPath.ProducesNoDots` | 3rdparty/rapidjson/include/rapidjson/uri.h:411-458 | no segment of the result is a dot or a double dot |
| `UriPath.NoDotsIsFixed` | 3rdparty/rapidjson/include/rapidjson/uri.h:411-458 | a path without dot segments is left as it is |
| `UriPath.TakeSegment` | 3rdparty/rapidjson/include/rapidjson/uri.h:417-456 | one turn of the loop is one segment of the standard's function; before a double dot the written path is empty or ends in a slash |
| `UriPath.BackUp` | 3rdparty/rapidjson/include/rapidjson/uri.h:425-440 | backing up drops the last segment of the output with its slash |
| `UriPath.MoveSegment` | 3rdparty/rapidjson/include/rapidjson/uri.h:443-452 | a segment moves down with the slash behind it and nothing after it changes |
| `UriPath.FindSlash` | 3rdparty/rapidjson/include/rapidjson/uri.h:418-423 | the segment ends at the next slash or at the end |
| `UriPath.OneSegment` | 3rdparty/rapidjson/include/rapidjson/uri.h:424-453 | what the standard's steps do with one segment of an absolute path |
| `UriPath.FirstOfRelative` | 3rdparty/rapidjson/include/rapidjson/uri.h:411-416 | what the standard's steps do with the first segment of a relative path |
| `UriPath.AbsoluteExample` | 3rdparty/rapidjson/include/rapidjson/uri.h:424-453 | /a/b/c/./../../g becomes /a/g (section 5.2.4 of RFC 3986) |
| `UriPath.RelativeExample` | 3rdparty/rapidjson/include/rapidjson/uri.h:411-416 | the standard's function turns mid/content=5/../6 into mid/6 (section 5.2.4 of RFC 3986) |
| `Utf8Codec.DecodeAll` | 3rdparty/rapidjson/include/rapidjson/encodings.h:146-176 | looping Decode accepts exactly the byte sequences of section 4 of RFC 3629 and gives the code points that encode back to the text |
| `Utf8Codec.EncodeThenDecode` | 3rdparty/rapidjson/include/rapidjson/encodings.h:102-121 | decoding the encoding of any list of Unicode scalar values gives the list back |
| `Utf8Codec.DecodeThenEncode` | 3rdparty/rapidjson/include/rapidjson/encodings.h:146-176 | encoding what was decoded from an accepted text gives the text back, and all code points are scalar values |
| `Utf8Codec.EncodedIsChar` | 3rdparty/rapidjson/include/rapidjson/encodings.h:102-121 | every scalar value is encoded as one character of the standard with that value |
| `Utf8Codec.CharIsEncoded` | 3rdparty/rapidjson/include/rapidjson/encodings.h:102-121 | every character of the standard is the encoding of its value, which is a scalar value |
| `Utf8Codec.MemoryStream.Decode` | 3rdparty/rapidjson/include/rapidjson/encodings.h:146-176 | succeeds exactly when the text goes on with a character of the standard, takes all of it and gives its code point |
| `Utf8Codec.MemoryStream.Validate` | 3rdparty/rapidjson/include/rapidjson/encodings.h:179-202 | judges as Decode does, takes as many bytes, and puts exactly the bytes taken when it succeeds |
| `Utf8Codec.MemoryStream.DecodeTail` | 3rdparty/rapidjson/include/rapidjson/encodings.h:162-173 | the switch over the classes takes and tests exactly the bytes that the class asks for |
| `Utf8Codec.MemoryStream.ValidateTail` | 3rdparty/rapidjson/include/rapidjson/encodings.h:188-199 | the same switch, putting the bytes |
| `Utf8Codec.Judged` | 3rdparty/rapidjson/include/rapidjson/encodings.h:204-220 | the class table and the masks accept exactly the characters of the standard |
| `Utf8Codec.Masks` | 3rdparty/rapidjson/include/rapidjson/encodings.h:204-220 | each mask tests exactly its byte range |
| `Utf8Codec.MemoryStream.Take` | 3rdparty/rapidjson/include/rapidjson/memorystream.h:46-46 | the next byte, or zero at the end |
| `HandshakeBase64.Base64Encode` | src/net/ws_client.cpp:19-38 | the shift accumulator, wrapping at 32 bits, gives the three-byte groups of section 4 of RFC 4648 with their padding |
| `HandshakeBase64.Injective` | src/net/ws_client.cpp:19-38 | different byte strings have different encodings |
| `HandshakeBase64.Length` | src/net/ws_client.cpp:19-38 | the length is four times the number of groups, rounded up |
| `HandshakeBase64.Alphabet` | src/net/ws_client.cpp:20-23 | the 64 characters of Table 1 of RFC 4648 |
| `HandshakeBase64.Vectors` | src/net/ws_client.cpp:19-38 | four test vectors of section 10 of RFC 4648 |
| `HandshakeBase64.OneByte` | src/net/ws_client.cpp:27-34 | one byte of input pushes exactly the digits that its bits complete |
| `HandshakeBase64.LowBits` | src/net/ws_client.cpp:28-28 | wrapping at 32 bits does not touch the bits that are still to be pushed |
| `HandshakeBase64.LastDigit` | src/net/ws_client.cpp:35-35 | the bits that are left give the last digit before the padding |
| `HandshakeBase64.PushDigits` | src/net/ws_client.cpp:30-33 | the inner loop pushes every complete digit |
| `HandshakeBase64.Pad` | src/net/ws_client.cpp:36-36 | padding up to a multiple of four |
| `JsonPointer.RoundTrip` | 3rdparty/rapidjson/include/rapidjson/pointer.h:924-1094 | parsing what Stringify wrote gives the same tokens, in plain and in URI fragment form, for tokens whose indices are those of their names |
| `JsonPointer.TokensWritable` | 3rdparty/rapidjson/include/rapidjson/pointer.h:1063-1094 | Stringify succeeds for all names in plain form, and in fragment form for all names that are UTF-8 |
| `JsonPointer.TokensFit` | 3rdparty/rapidjson/include/rapidjson/pointer.h:924-1054 | the decoded names with their terminators never outgrow the name buffer, and there are exactly as many tokens as the source has slashes |
| `JsonPointer.IndexIsDecimal` | 3rdparty/rapidjson/include/rapidjson/pointer.h:1015-1039 | a name of digits without a leading zero gets its decimal value as index if and only if that value fits in 32 bits |
| `JsonPointer.NoIndex` | 3rdparty/rapidjson/include/rapidjson/pointer.h:1015-1039 | every other name, empty, with a character that is no digit, or with a leading zero, has the invalid index 2^32 - 1 |
| `JsonPointer.ParsedIndexed` | 3rdparty/rapidjson/include/rapidjson/pointer.h:924-1054 | the tokens that Parse gives have the indices of their names, so that a dash has none, as Create and Get take for granted |
| `JsonPointer.ArrayChild` | 3rdparty/rapidjson/include/rapidjson/pointer.h:595-623 | in an array a token leads to the element whose number it writes without leading zeros, and nowhere if it is no such number or there are too few elements |
| `JsonPointer.OverflowIsMissed` | 3rdparty/rapidjson/include/rapidjson/pointer.h:1027-1037 | the overflow test misses 5000000000, which gets the index 705032704 |
| `JsonPointer.TenDigits` | 3rdparty/rapidjson/include/rapidjson/pointer.h:1027-1037 | of the ten-digit names that do not fit in 32 bits the overflow test catches those below 4772185884 and those from 8589934592 below 9544371768; the others get their remainder as index |
| `JsonPointer.NameBack` | 3rdparty/rapidjson/include/rapidjson/pointer.h:955-1017 | a written name is read back up to the slash or the end that follows |
| `JsonPointer.FirstBack` | 3rdparty/rapidjson/include/rapidjson/pointer.h:1071-1091 | what Stringify writes for one character is read back as that character |
| `JsonPointer.WrittenFragment` | 3rdparty/rapidjson/include/rapidjson/pointer.h:1071-1091 | a fragment is written in unreserved characters of RFC 3986, slashes and percent triplets |
| `JsonPointer.PlainName` | 3rdparty/rapidjson/include/rapidjson/pointer.h:1071-1091 | in a fragment a name of unreserved characters other than the tilde is written as it is |
| `JsonPointer.ReadFragment` | 3rdparty/rapidjson/include/rapidjson/pointer.h:964-992 | only unreserved characters, slashes and percent triplets are read in a fragment |
| `JsonPointer.GenericPointer.ParseSource` | 3rdparty/rapidjson/include/rapidjson/pointer.h:924-1054 | Parse gives the tokens, or the error and its offset, and stays inside the name buffer |
| `JsonPointer.GenericPointer.TakeName` | 3rdparty/rapidjson/include/rapidjson/pointer.h:959-1020 | one name is decoded up to the next slash, with whether it is all digits |
| `JsonPointer.GenericPointer.TakePiece` | 3rdparty/rapidjson/include/rapidjson/pointer.h:962-1016 | one turn of the loop over a name |
| `JsonPointer.GenericPointer.DecodePercent` | 3rdparty/rapidjson/include/rapidjson/pointer.h:964-984 | percent triplets are taken exactly when they make one UTF-8 character |
| `JsonPointer.GenericPointer.ParseIndex` | 3rdparty/rapidjson/include/rapidjson/pointer.h:1017-1039 | the index is the function of the name that the loop with its overflow test computes |
| `JsonPointer.GenericPointer.StringifyTo` | 3rdparty/rapidjson/include/rapidjson/pointer.h:1063-1094 | Stringify writes the specified text or fails |
| `JsonPointer.GenericPointer.WriteFirst` | 3rdparty/rapidjson/include/rapidjson/pointer.h:1071-1091 | one turn of the loop over a name: an escape, percent triplets of one UTF-8 character, or the character |
| `JsonPointerTree.ExistIsGet` | 3rdparty/rapidjson/include/rapidjson/pointer.h:452-499 | Create reports that the value was there exactly when Get resolved before, gives the position that Get gives, and then leaves the tree unchanged |
| `JsonPointerTree.CreatedIsFound` | 3rdparty/rapidjson/include/rapidjson/pointer.h:452-499 | after Create, Get resolves to the position created or found unless a dash was applied to an array, and what was created is null |
| `JsonPointerTree.CreateKeeps` | 3rdparty/rapidjson/include/rapidjson/pointer.h:452-499 | every value of the old tree is still at its position after Create, unless the position is on the created path or below a value that was turned into another type |
| `JsonPointerTree.CreateShape` | 3rdparty/rapidjson/include/rapidjson/pointer.h:457-491 | at each token members and elements stay in their order, a missing member or element is appended, an array is padded with nulls, and only a value that cannot take the token is replaced, by an object or an array |
| `JsonPointerTree.PreparedIsChild` | 3rdparty/rapidjson/include/rapidjson/pointer.h:457-491 | one token makes nothing exactly when it already leads to a child, and then changes nothing |
| `JsonPointerTree.Walk` | 3rdparty/rapidjson/include/rapidjson/pointer.h:595-623 | Get's loop finds the value at the resolved position, or stops at a token |

## Left out

- Sockets, TLS, the HTTP upgrade, signing, curl, configuration and ticker fields: they are input and output through other libraries.
- `src/event/event_loop.cpp`, libevent's own code, `stop` and `loopbreak`: the pipe event is taken to be level-triggered and persistent.
- spdlog is not part of this model, and neither are the small demonstration programs, which hold no state worth an invariant.
- In-situ parsing, the SIMD scanners, encoding validation, numbers as strings, and handlers that stop the parse by returning false.
- Agreement of error codes and offsets between the recursive and the table-driven parser: they differ by design, so only acceptance, events and the end are compared.
- Doubles: a double event carries its literal, and whether a literal overflows a double is a parameter of the flags; `strtod`, `dtoa` and printing of doubles are not modelled.
- The integer-to-text helpers of the writers are replaced by a plain decimal printer.
- JsonReader.GenericReader.ParseExponent: the int range is stated for inputs below 2^27 characters, as the code's own comments assume.
- JsonReader.GenericReader.IterativeParseNext: the bytes that a failed string leaves on the shared stack are not modelled, so calls made after a failed one are described only where they are stuck, besides that the error stays set.
- JsonFilterKey.Filters: nesting and counts stay below 2^32, where the filter's counters would wrap.
- JsonLoading.OneRoot: the text is shorter than 2^32, so that counts fit in a SizeType.
- JsonRoundTrip.PrintThenParse: values with integers, strings, booleans and null; counts fit in a SizeType.
- JsonMembers.BuildsAgree: capacities are unbounded numbers, the multimap is a set of entries of which a lookup may find any with the key, and removal by name, which may pick different duplicates in the two builds, is not modelled.
- EventLoopWorker.RunKeeps: a task that submits tasks is covered only as an independent submitter; tasks are taken to return.
- ParseByParts.RunKeeps: the parser peeks before it takes and does not take the terminator, as the reader does; it is otherwise arbitrary.
- WebSocketReceive.ReadAndProcessMessage: frames with 64-bit lengths, whose length the code does not keep, and masked frames that give a length below four in sixteen bits, which depend on where the stream is cut, are excluded; control frames between fragments join the message as in the code and are outside `MessagesJoin`.
- WebSocketPacket.CreateWebsocketFrame: the random key is a parameter.
- MemoryPool.MemoryPoolAllocator.Malloc: the base allocator never fails and its next answer is a parameter, aligned and apart from the chunks; sizes do not overflow; reference counts and copies of the allocator are left out.
- UriPath.RemoveDotSegments: absolute paths only; relative ones do not follow RFC 3986 there.
- JsonPointer.GenericPointer.DecodePercent: the stream of percent triplets is the byte stream of the triplets at its position.
- JsonPointerTree.CreatedIsFound: trees are values and Create gives the new tree, so the moving pointer into a tree edited in place is a position here; reserving capacity is left out.
- The two concurrent protocols are transition systems over values rather than classes, because every thread's single steps must interleave.
- `Utf8Codec` has one stream for reading and a string for writing in place of the generic streams.
