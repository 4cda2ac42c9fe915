# Vault containers: a verified model

This project models, in Dafny, the part of the Code Vault library that stores
and encodes data, and proves what that code is for.

- **Bento text.** Trees of named nodes with typed attributes are printed with
  two layers of escaping and read by a character-at-a-time machine that builds
  node objects on a stack. `BentoText`, `BentoTextWriting` (printer),
  `BentoParsing` (the machine on values), `BentoTextNodeParser` (the parser
  object and its spine of open nodes), `BentoTextValues` (values from text),
  `BentoNodes` (node objects, copying, adopting), `BentoTextReading`.
  `BentoTextForms` spells out what is printed and which texts are read,
  `BentoBlanks` which characters are skipped.
  `BentoRoundTrip` composes escaping, machine and value readers into the
  round trip of whole trees. `BentoTextRoundTrip` and `BentoSurvival` give its
  exact condition for every tree; for the trees that do not come back
  `BentoStringArrays` and `BentoAttributeEnds` count what a list of strings
  costs to print and to read, `BentoBrackets`, `BentoPrintedBrackets` and
  `BentoGrowth` what the parser can make of a text at all.
- **Bento binary.** Length-prefixed typed trees: `BinaryStreams`
  (`VBinaryIOStream`), `BentoBinary` (values and attributes),
  `BentoCharacterOrder` (characters under any order of evaluation),
  `BentoBinaryForms` (the bytes spelled out),
  `BentoBinaryAttributes` (sizes and framing of attributes),
  `BentoBinaryTrees` (announced sizes, framing, skipping),
  `BentoMisreadLengths` and `BentoMisreadExamples` (lengths that an overflowing
  polygon makes negative and the reader takes for something else),
  `BentoBinaryCodec` (the loops that measure, write and read, on a stream
  object).
- **Strings.** `Utf8`, `Utf16`, `StringIterator`, `VStrings` (small-string
  storage over real arrays), `VStringRuns` (any run of operations),
  `CStrings` (search and replace with C string semantics), `XmlEscape`.
- **Lookup and arithmetic.** `ColorRanges`, `StringColorRanges`, `Calendar`,
  `Durations`, `Decimal`, `Geometry`.

Methods with loops or updates follow the original step by step and are proved
against functions; lemmas about those functions state the properties. Machine
integers wrap where the original's do (`Decimal.ToS32`, `ToS64`, `ToU64`).

Results that come with an exact boundary:

- a string attribute survives text print and parse exactly if no backslash in
  it stands before one of the escaped characters, because the value is
  unescaped twice, and a string array exactly if no element has a backslash
  or an apostrophe, because its elements are escaped in part only
  (`BentoTextRoundTrip.TextRoundTrip`; lost: `LostValues`);
- of all trees, exactly those come back that also have no NUL, no closing
  parenthesis in an encoding and no empty array of numbers or booleans
  (`BentoSurvival.Survives`; lost: `LostForms`);
- unescaping undoes escaping exactly if there is no NUL or nothing to escape
  (`BentoEscape.UnescapeEscape`; lost: `NulLost`);
- a polygon's announced length is exact only while it fits a 32-bit `int`
  (`BentoBinary.DataLengthExact`; too long: `PolygonTooLong`), and so are the
  lengths announced for attributes and nodes around it
  (`BentoBinaryAttributes.AttributeSizesExact`, `BentoBinaryTrees.SizesExact`);
- an attribute is read back from the binary stream exactly if its announced
  length is non-negative or has a low byte below 0xFD
  (`BentoBinaryAttributes.ReadAttributeOf`; lost: `PolygonLost`); a tree comes
  back if that holds of all its lengths (`BentoBinaryTrees.ReadNodeOf`), and
  only then, unless a length that the reader takes for a longer form stands
  ahead of a part that starts over behind the bytes taken, with enough to be
  saved later (`BentoMisreadLengths.ReadNodeExactly`; lost: `LostRoot`). That
  exception is real: `BentoMisreadExamples.MisreadButRead`;
- a character of three or four bytes survives the binary stream under any
  order of evaluation exactly if its continuation bytes are all equal
  (`BentoCharacterOrder.AnyOrder`; scrambled: `EuroSign`);
- the `timegm` replacement is right exactly from 1970 on: before that its loop
  also takes away the year 1970 (`Calendar.Timegm`), which shows
  once in day overflow, at the end of 1969 (`Calendar.DayOverflow`; the day:
  `December1969`);
- a duration survives its text exactly if its unit count fits a 32-bit `int`
  (`Durations.DurationRoundTrip`; lost: `MinutesTooMany`);
- surrogate values do not survive UTF-16 (`Utf16.UnitsRoundTrip`; the first:
  `SurrogateChanged`).

Where the format comment of `vbento.h` and the code differ (`char` is written
as `u8ch`, and more type codes exist), the model follows the code.

Check the whole project with `dafny verify dfyconfig.toml`.

## Model

| member | source | states |
|---|---|---|
| `BentoEscape.EscapeString` | source/containers/vbento.cpp:387-400 | the in-place loop that inserts backslashes ends with every special character of the original preceded by one backslash, and nothing else changed |
| `BentoEscape.UnescapeString` | source/containers/vbento.cpp:402-409 | the five calls of `replace`, each with the exact loop of `VString::replace`, compose to `Unescape` |
| `BentoEscape.PairUnescaped` | source/containers/vbento.cpp:402-409 | one replacement changes the text exactly if its pair occurs in it, and then shortens it |
| `BentoEscape.UnescapeFixes` | source/containers/vbento.cpp:402-409 | unescaping leaves a text as it is if and only if no backslash in it stands directly before a special character |
| `BentoEscape.UnescapeEscape` | source/containers/vbento.cpp:387-409 | the two are a pair: unescaping undoes escaping if and only if the text has no NUL or nothing in it needs an escape |
| `BentoEscape.NulLost` | source/containers/vbento.cpp:387-409 | a NUL in front of a brace does not come back |
| `BentoUtf8.EscapeCommutes` | source/containers/vbento.cpp:387-400 | escaping the bytes of a string gives the UTF-8 bytes of the escaped characters, for every string |
| `BentoUtf8.ReplaceCommutes` | source/containers/vstring.cpp:1388-1451 | leftmost replacement of an ASCII text in the bytes of a string gives the bytes of the replacement in its characters |
| `BentoUtf8.UnescapeCommutes` | source/containers/vbento.cpp:402-409 | unescaping the bytes of a NUL-free string gives the bytes of the unescaped characters |
| `BentoUtf8.QuoteCommutes` | source/containers/vbento.h:2146 | the same for the quoting of an array element |
| `BentoUtf8.NulMisplaces` | source/containers/vstring.cpp:1388-1451 | behind a NUL bytes and characters part: the search resumes at an offset into the text as it was |
| `BentoModel.TagOfCode` | source/containers/vbento.cpp:492-580 | the chain of type-code tests is unambiguous: every code selects its own type and no other |
| `BentoTextWriting.WriteAttribute` | source/containers/vbento.cpp:411-466 | what the branches of the attribute printer put on the stream is exactly the attribute text that the round trips are about |
| `BentoTextWriting.WriteNode` | source/containers/vbento.cpp:1647-1673 | the loops over attributes and child objects append exactly the text of the tree that the node objects hold |
| `BentoTextWriting.WriteIndent` | source/containers/vbento.cpp:826-841 | the indent loop writes one space for each level, and only when wrapping |
| `BentoTextForms.ScalarForm` | source/containers/vbento.h:881-1112 | numbers are printed in decimal, durations with `ms` behind them |
| `BentoTextForms.BoolForm` | source/containers/vbento.h:1145 | booleans are printed as `true` and `false` |
| `BentoTextForms.CharForm` | source/containers/vbento.h:1234 | every character but the surrogates is printed as itself |
| `BentoTextForms.ShapeForm` | source/containers/vbento.h:1438-1726 | the text of each int shape, spelled out: commas within a pair or triple, a colon between the points of a line, a colon and an asterisk in a rectangle |
| `BentoTextForms.ColorForm` | source/containers/vbento.h:1839 | four numbers with commas |
| `BentoTextForms.PolygonForm` | source/containers/vbento.cpp:976-983 | each point in parentheses, its coordinates with a comma |
| `BentoTextForms.ArrayForm` | source/containers/vbento.cpp:1048-1172 | elements with a comma between them |
| `BentoTextForms.BoolArrayForm` | source/containers/vbento.cpp:1180-1205 | the words `true` and `false` with a comma between them |
| `BentoTextForms.StringArrayForm` | source/containers/vbento.h:2146 | elements in double quotes, each of their own with two backslashes in front |
| `BentoTextForms.TypeSpelled` | source/containers/vbento.cpp:411-466 | the type printed for each kind of value, by its four-character code; none for strings, characters, 32-bit integers and booleans |
| `BentoTextForms.ValueSpelled` | source/containers/vbento.cpp:411-466 | which values are printed in double quotes, in single quotes, without quotes or with their encoding |
| `BentoTextForms.AttributeForm` | source/containers/vbento.cpp:411-466 | the text of an attribute: bracket, quoted name, type, equals sign, value, bracket |
| `BentoTextValues.ReadPolygon` | source/containers/vbento.cpp:984-1003 | the walk over parentheses yields the points between successive pairs of parentheses, or stops where a pair of coordinates does not scan |
| `BentoTextValues.ReadNumericArray` | source/containers/vbento.cpp:1048-1172 | the do/while loop of every numeric array class reads the cast integers between commas, always at least one element |
| `BentoTextValues.ReadBoolArray` | source/containers/vbento.cpp:1180-1205 | the same for booleans: an element is true exactly if it reads "true" in any case |
| `BentoTextValues.ReadStringArray` | source/containers/vbento.cpp:1221-1287 | the string-array state machine, with its error throws, as a fold of its steps |
| `BentoTextValues.NewValueFromText` | source/containers/vbento.cpp:587-772 | type inference and typed construction of a value from its text, with the cases that throw |
| `BentoTextValues.ScanFormat` | source/containers/vbento.cpp:984-1003 | `sscanf` with separators undoes `printf` of any list of 32-bit integers |
| `Decimal.ScanIntExactly` | source/containers/vbento.cpp:984-1003 | `%d` takes exactly white space, at most one sign and all digits that follow, and at least one |
| `BentoTextForms.ScanExactly` | source/containers/vbento.cpp:984-1003 | `sscanf` with separators reads exactly the texts in which such numbers stand between them, with anything behind |
| `BentoTextForms.ShapeReadExactly` | source/containers/vbento.cpp:660-712 | for each int shape, which texts are read, with the separators spelled out, and as what |
| `BentoTextForms.Rectangle` | source/containers/vbento.h:1726 | one int rectangle, printed and read |
| `BentoTextForms.ColorReadExactly` | source/containers/vbento.cpp:721-727 | a colour is read from four such numbers, each brought into the range of a byte, and from nothing else |
| `BentoTextForms.PolygonReadExactly` | source/containers/vbento.cpp:986-1003 | a polygon is read from what stands in parentheses, two such numbers with a comma at a time |
| `BentoTextForms.BoolReadExactly` | source/containers/vbento.cpp:1180-1205 | an element is true exactly if it has four characters, each the lower- or upper-case letter of `true` |
| `BentoTextForms.BoolArrayReadExactly` | source/containers/vbento.cpp:1180-1205 | a boolean array is read element by element, from what stands between commas |
| `BentoTextForms.InferredBool` | source/containers/vbento.cpp:749-772 | without a type the lower-case words are booleans |
| `BentoTextForms.InferredNumber` | source/containers/vbento.cpp:749-772 | without a type, quotes or a reserved word a text is a 32-bit integer or throws |
| `BentoTextForms.InferredQuoted` | source/containers/vbento.cpp:749-772 | without a type a text in double quotes is a string with the encoding read before, one in single quotes a character |
| `BentoTextForms.TypedText` | source/containers/vbento.cpp:625-634 | strings, characters and booleans whose type is given, the empty character text included |
| `BentoTextForms.TypedNumber` | source/containers/vbento.cpp:609-624 | numbers whose type is given are parsed as signed or unsigned 64-bit numbers and cast |
| `BentoTextForms.ElementBlank` | source/containers/vcodepoint.cpp:214-218 | behind an element of a string array exactly the characters up to U+0020 and U+007F are passed over, and other characters throw |
| `BentoTextForms.CastExactly` | source/containers/vbento.cpp:609-624 | a number read for a type becomes the one of that type that differs by a multiple of its size |
| `BentoTextForms.FittingExactly` | source/containers/vbento.cpp:609-748 | the values the round trips speak of are those that no such conversion changes |
| `BentoValueLaws.ReadPlainValue` | source/containers/vbento.cpp:609-748 | every integer, boolean, duration, int-based shape, polygon, colour and non-empty array value is read back from its text with its type |
| `BentoValueLaws.ReadPolygonText` | source/containers/vbento.cpp:984-1003 | every list of int points is read back from the printed polygon |
| `BentoValueLaws.SplitJoin` | source/containers/vbento.cpp:2722-2731 | splitting at commas undoes joining with commas for parts without commas |
| `BentoValueLaws.ReadQuotedStrings` | source/containers/vbento.cpp:1221-1287 | the string-array machine reads back every list of strings without backslashes from their quoted forms; quotes, apostrophes, commas, NULs and the empty list included |
| `BentoStringArrays.OnceQuotedExactly` | source/containers/vbento.cpp:1221-1287 | it reads a list back from those forms if and only if no element has a backslash |
| `BentoParsing.ParseConcat` | source/containers/vbento.cpp:109-328 | parsing a text is parsing its pieces one after the other, faults included |
| `BentoBlanks.BlankStep` | source/containers/vbento.cpp:105-107 | between tokens exactly the characters up to U+0020 and U+007F are skipped |
| `BentoBlanks.BlankEndsValue` | source/containers/vbento.cpp:287-324 | exactly these end an unquoted value without a pending escape |
| `BentoBlanks.BlankIsText` | source/containers/vbento.cpp:146-286 | in names, types, encodings and quotes they are text |
| `BentoBlanks.BlanksIgnored` | source/containers/vbento.cpp:109-328 | any number of them at any point between tokens changes nothing in the run |
| `BentoBlanks.PrintedSurvives` | source/containers/vbento.cpp:1647-1673 | the round trip of every tree, wrapped or not, with LF, CR or CR LF as the line end and one of them behind the tree |
| `BentoBlanks.WrappedText` | source/containers/vbento.cpp:1647-1673 | a tree of two nodes over several lines, in full |
| `BentoRoundTrip.StringValue` | source/containers/vbento.cpp:262-286 | the quoted state reads back a string attribute unescaped once more than it was escaped |
| `BentoRoundTrip.CharValue` | source/containers/vbento.cpp:262-286 | a character attribute, NUL included, survives the single-quoted state and the second unescaping |
| `BentoRoundTrip.UnquotedValue` | source/containers/vbento.cpp:287-324 | 32-bit integers and booleans survive the unquoted state |
| `BentoRoundTrip.TypedPlainValue` | source/containers/vbento.cpp:609-748 | typed values survive printing with their type code and parsing by that code |
| `BentoRoundTrip.StringArrayValue` | source/containers/vbento.h:2146 | element quoting, the single-quoted attribute state and the string-array machine compose to the identity for strings without NUL, backslash and apostrophe; that no other list survives is `BentoTextRoundTrip.AttributeRoundTrip` |
| `BentoRoundTrip.AttributeRun` | source/containers/vbento.cpp:411-466 | an attribute of any readable kind, printed and parsed in the open node, is appended to it with its type, name, value and encoding |
| `BentoRoundTrip.NodeRun` | source/containers/vbento.cpp:1647-1673 | a printed subtree, met in any open node, becomes its last child and leaves the stack as it was |
| `BentoRoundTrip.ParsePrinted` | source/containers/vbento.cpp:109-328 | the text of a whole tree, in any layout and at any depth, merges the reread tree into any root and leaves no node open |
| `BentoRoundTrip.RereadFixes` | source/containers/vbento.cpp:758-761 | a tree equals its reread form if and only if every string value in it is settled |
| `BentoStringArrays.ReaderNeeds` | source/containers/vbento.cpp:1221-1287 | a text that the string-array machine reads as a list has at least a character for every one of the list, one more for each quote and backslash in it, and its delimiters |
| `BentoStringArrays.PrintedCost` | source/containers/vbento.h:2146 | counting a backslash as half a character, since the quoted state drops one of each pair, the printed list has what the reader needs less three halves for each backslash in the list |
| `BentoAttributeEnds.OnlyUnquotable` | source/containers/vbento.cpp:218-328 | however early the quoted state is left, an attribute that ends within its own text yields the list only if no element has a backslash or an apostrophe |
| `BentoBrackets.HeldRun` | source/containers/vbento.cpp:109-328 | the parser never makes up text: what it holds has no more closing brackets than it started with and was given |
| `BentoPrintedBrackets.NodeTextBrackets` | source/containers/vbento.cpp:1647-1673 | the text of a tree has exactly one closing bracket for each attribute and those of its names and strings |
| `BentoGrowth.LeavesRun` | source/containers/vbento.cpp:109-328 | the parser only adds: what the open nodes hold at any point of a run is still there, at the same place, in the tree the run ends with |
| `BentoTextRoundTrip.ArrayForced` | source/containers/vbento.cpp:1221-1287 | a string array whose text leads a run to the very tree it was printed from has neither backslashes nor apostrophes, even if the value were to swallow later attributes |
| `BentoTextRoundTrip.AttributeRoundTrip` | source/containers/vbento.cpp:411-466 | an attribute of any printable kind, in any open node, is parsed to itself if and only if it is a settled string, a string array without backslash and apostrophe, or of another kind |
| `BentoTextRoundTrip.TextRoundTrip` | source/containers/vbento.cpp:1647-1673 | whole-tree text round trip: a new node filled from the text equals the tree if and only if every string value is settled and no element of a string array has a backslash or an apostrophe |
| `BentoTextRoundTrip.LostValues` | source/containers/vbento.cpp:402-409 | trees that do not come back: a string of backslash and brace, an array of one backslash, an array of one apostrophe |
| `BentoSurvival.RunCarried` | source/containers/vbento.cpp:109-328 | over any NUL-free text the parser builds only trees without NULs, without a parenthesis in an encoding and without empty arrays of numbers or booleans |
| `BentoSurvival.Survives` | source/containers/vbento.cpp:1647-1710 | the round trip for every tree whose numbers fit their types: it comes back if and only if it is such a tree and its strings and string arrays are settled |
| `BentoSurvival.LostForms` | source/containers/vbento.cpp:1048-1205 | trees that do not come back: an empty integer array, an empty boolean array, an encoding with a closing parenthesis |
| `BentoNodes.CopyNode` | source/containers/vbento.cpp:1458-1474 | the copy holds the same tree in new nodes only, each child linked to its new parent, and the original is not touched |
| `BentoNodes.AdoptFrom` | source/containers/vbento.cpp:1509-1526 | for any source in a forest and any target, rooted or not: the target gets name, attributes and children, its new children point at it, the source keeps its name alone, and if the target is not below the source the whole forest is the one `Adopted` says |
| `BentoNodes.ChildAfterwards` | source/containers/vbento.cpp:1509-1526 | what any other node shows of its children in that forest: the source as an emptied child of the same name, the target with the source's tree, everything around neither of them as before |
| `BentoNodes.OrphanNodes` | source/containers/vbento.cpp:1493-1499 | no child of the node keeps a parent and the node keeps no child |
| `BentoTextNodeParser.Parser.OpenRoot` | source/containers/vbento.cpp:111-118 | opening the root starts the spine with it |
| `BentoTextNodeParser.Parser.OpenChild` | source/containers/vbento.cpp:133-138 | a new node becomes the last child of the pending node and the top of the stack; the spine invariant is kept |
| `BentoTextNodeParser.Parser.CloseTop` | source/containers/vbento.cpp:139-145 | the node on top becomes a closed subtree, its parent pending, or no node is pending once the root is closed |
| `BentoTextNodeParser.Parser.AttributePending` | source/containers/vbento.cpp:182-189 | an attribute goes to the pending node alone; the rest of the spine still holds what it held |
| `BentoTextNodeParser.Parser.ParseCharacter` | source/containers/vbento.cpp:109-328 | for each character the object does what the machine on values does, keeps the spine invariant and leaves every closed subtree as it was; where it throws, the spine still holds the tree built before |
| `BentoTextNodeParser.Parser.ParseText` | source/containers/vbento.cpp:91-103 | over a whole text the object follows the machine and closed subtrees are never modified; a throw leaves the spine invariant and, in the objects, the tree that the characters before it have built |
| `BentoTextReading.ReadFromBentoText` | source/containers/vbento.cpp:1702-1710 | text that closes every node it opens leaves a complete tree of linked objects under the root; a throw leaves a forest, and the root with name, attributes and closed children of what was parsed before it; trees elsewhere are untouched |
| `BentoTextReading.ReadPrintedText` | source/containers/vbento.cpp:1702-1710 | reading printed text into a node object merges the reread tree into it |
| `BentoTextReading.WriteThenRead` | source/containers/vbento.cpp:1647-1710 | on objects: a settled tree written as text and read into a new node is the same tree in other nodes, and the original keeps its tree |
| `BinaryStreams.WordOfBigEndian` | source/streams/vbinaryiostream.cpp:27-97 | a signed or unsigned word of any width is recovered from its big-endian two's complement bytes |
| `BinaryStreams.DynamicCountLength` | source/streams/vbinaryiostream.cpp:338-348 | the computed length of a dynamic count is the number of bytes written for it, for every count |
| `BinaryStreams.ReadCountOf` | source/streams/vbinaryiostream.cpp:193-206 | every count a signed 64-bit word holds is read back from its announcement, whatever follows |
| `BinaryStreams.ReadCountLeft` | source/streams/vbinaryiostream.cpp:193-206 | what follows a written count is left in place, but for the two, four or eight bytes that a negative count takes with it if its low byte is the lead of a longer form |
| `BinaryStreams.CountConsumed` | source/streams/vbinaryiostream.cpp:193-206 | no form of a count is shorter than the one that is written |
| `BinaryStreams.ReadStringOf` | source/streams/vbinaryiostream.cpp:103-117 | every string shorter than 2 GB is read back, whatever follows |
| `BinaryStreams.BinaryStream.WriteDynamicCount` | source/streams/vbinaryiostream.cpp:296-335 | the four branches write the least form of the count |
| `BinaryStreams.BinaryStream.ReadDynamicCount` | source/streams/vbinaryiostream.cpp:193-206 | the stream object reads a count as the function on the bytes ahead does, end of stream included |
| `BinaryStreams.BinaryStream.ReadText` | source/streams/vbinaryiostream.cpp:103-117 | strings with their length check, end of stream and negative lengths included |
| `BentoBinary.DataLengthExact` | source/containers/vbento.h:852-2299 | the announced length of a value is the number of bytes written for it if and only if it is no polygon whose length overflows a 32-bit `int` |
| `BentoBinary.PolygonTooLong` | source/containers/vbento.h:1811 | the int polygon of 2^28 points is announced with a negative length |
| `BentoBinary.DataTaken` | source/containers/vbento.h:852-2299 | from whatever bytes a value is read, they are no fewer than those written for it, but for one of a character from U+0080 to U+00FF |
| `BentoBinary.ReadDataOf` | source/containers/vbento.cpp:492-580 | the stream constructor chosen by a value's type code reads the value back and leaves exactly what follows |
| `BentoCharacterOrder.LeftToRight` | source/containers/vcodepoint.cpp:120-128 | the character reader of the model is the stream constructor with its arguments evaluated from left to right |
| `BentoCharacterOrder.ReadInOrder` | source/containers/vcodepoint.cpp:120-128 | for any order of evaluation: a character is read back if and only if every argument gets the byte that belongs there |
| `BentoCharacterOrder.RightToLeft` | source/containers/vcodepoint.cpp:120-128 | from right to left: if and only if it has at most two bytes or its first and last continuation byte are equal |
| `BentoCharacterOrder.AnyOrder` | source/containers/vcodepoint.cpp:120-128 | a character survives every order of evaluation if and only if all its continuation bytes are equal |
| `BentoCharacterOrder.EuroSign` | source/containers/vcodepoint.cpp:120-128 | U+20AC is read as U+2B02 from right to left |
| `BentoBinaryAttributes.AttributeSizesExact` | source/containers/vbento.cpp:362-385 | content size and total size of an attribute never exceed the numbers of bytes written, and equal them if and only if it holds no polygon that overflows |
| `BentoBinaryAttributes.ReadAttributeOf` | source/containers/vbento.cpp:492-580 | every attribute that can be held is read back from its bytes, leaving exactly the following ones, if and only if its announced length is non-negative or has a low byte below 0xFD |
| `BentoBinaryAttributes.NotResumed` | source/containers/vbento.cpp:492-580 | an attribute with any other length is read nowhere, whatever follows it, unless its type code stands once more behind the bytes taken with the length |
| `BentoBinaryAttributes.RarelyRecurs` | source/containers/vbento.cpp:377-385 | which is impossible for two such bytes, and for four only with a name of 112 bytes that goes on with the type code |
| `BentoBinaryAttributes.PolygonLost` | source/containers/vbento.cpp:362-385 | an int polygon of 2^28 + 30 points under a name of four bytes is not read back |
| `BentoBinaryAttributes.PolygonKept` | source/containers/vbento.cpp:362-385 | one of 2^28 points under an empty name is, in spite of its negative length |
| `BentoBinary.ColorFields` | source/containers/vcolor.h:138-139 | the four components survive the 32-bit stream word |
| `BentoBinaryForms.NumberBytes` | source/streams/vbinaryiostream.cpp:212-294 | how many bytes each numeric type is written in, and in which order |
| `BentoBinaryForms.InRangeExactly` | source/streams/vbinaryiostream.cpp:27-97 | a number fits its type if and only if reading its bytes gives it back |
| `BentoBinaryForms.Signs` | source/streams/vbinaryiostream.cpp:27-97 | the least and greatest numbers of each type |
| `BentoBinaryForms.CountForms` | source/streams/vbinaryiostream.cpp:296-335 | the bytes of each form of a count |
| `BentoBinaryForms.Limits` | source/streams/vbinaryiostream.cpp:193-206 | the limits of list lengths and of sizes are those of the signed words that count them |
| `BentoBinaryForms.ShapeData` | source/containers/vbento.h:1445-1735 | the coordinates that each shape is written as |
| `BentoBinaryForms.ByteData` | source/containers/vcolor.h:99-139 | booleans as one byte, colours as four in the order red, green, blue, alpha |
| `BentoBinaryForms.ArrayData` | source/containers/vbento.h:1986-2299 | arrays of numbers: a 32-bit count and the elements |
| `BentoBinaryForms.BoolArrayData` | source/containers/vbento.h:2181-2190 | arrays of booleans: a 32-bit count and a byte each |
| `BentoBinaryForms.StringData` | source/containers/vbento.h:1188-2150 | strings: the encoding and then the text, each with its length; arrays of them with a 32-bit count |
| `BentoBinaryForms.PolygonData` | source/containers/vbento.h:1771-1815 | polygons: a 32-bit count and pairs of coordinates |
| `BentoBinaryForms.CharSaving` | source/containers/vcodepoint.cpp:111-128 | the characters from U+0080 to U+00FF, and no others, can be read from one byte less than they are written in |
| `BentoBinaryForms.SmallTree` | source/containers/vbento.cpp:1626-1645 | all bytes of a node with an attribute and a child |
| `BentoBinaryTrees.SizesExact` | source/containers/vbento.cpp:2549-2571 | for every tree that can be held, and so at every depth: the announced sizes never exceed the numbers of bytes written, and equal them if and only if no polygon in the tree overflows |
| `BentoBinaryTrees.ReadNodeOf` | source/containers/vbento.cpp:1686-1700 | framing round trip: a tree whose announced lengths are all legible, written and followed by any bytes, is read back equal and leaves exactly those bytes |
| `BentoBinaryTrees.FittingIsLegible` | source/containers/vbento.cpp:2549-2571 | trees without overflowing polygons are such trees |
| `BentoMisreadLengths.NodeTaken` | source/containers/vbento.cpp:1686-1700 | from whatever bytes a tree is read, they are no fewer than those written for it, less what longer lengths and characters can save |
| `BentoMisreadLengths.NodeOvershot` | source/containers/vbento.cpp:1686-1700 | a tree whose first illegible length cannot be made up for makes the reader go beyond its end by more than what follows can save |
| `BentoMisreadLengths.ReadNodeExactly` | source/containers/vbento.cpp:1686-1700 | of the trees whose first illegible length, if there is one, cannot be made up for, exactly those without one come back |
| `BentoMisreadExamples.LostRoot` | source/containers/vbento.cpp:1626-1700 | a root with one int polygon of 2^28 + 30 points does not come back |
| `BentoMisreadExamples.RegainsStep` | source/containers/vbento.cpp:1626-1700 | a node whose own length is misread comes back all the same if its counters recur and the length of its first attribute can be read from its last byte |
| `BentoMisreadExamples.MisreadButRead` | source/containers/vbento.cpp:1626-1700 | there is such a tree, of some 2.4 GB |
| `BentoBinaryTrees.SkipChildren` | source/containers/vbento.cpp:1626-1645 | skipping k children without overflowing polygons by their announced lengths lands on the k-th sibling |
| `BentoBinaryTrees.SkipAttributes` | source/containers/vbento.cpp:1626-1645 | skipping k attributes without overflowing polygons by their announced lengths lands on the k-th one |
| `BentoBinaryTrees.SkipAttribute` | source/containers/vbento.cpp:377-385 | skipping an attribute by its announced length lands behind it if and only if it holds no polygon that overflows |
| `BentoBinaryTrees.NodeBytesInjective` | source/containers/vbento.cpp:1626-1645 | of the trees with legible lengths, the bytes of none are a prefix of those of another |
| `BentoBinaryCodec.WriteData` | source/containers/vbento.h:852-2299 | the writers of all attribute classes, loops included, append exactly the bytes the laws are about |
| `BentoBinaryCodec.WriteAttribute` | source/containers/vbento.cpp:377-385 | writing any attribute that can be held appends its announced length, type, name and data |
| `BentoBinaryCodec.CalculateContentSize` | source/containers/vbento.cpp:2549-2571 | the summing loops compute the size that `SizesExact` relates to the bytes written |
| `BentoBinaryCodec.WriteNode` | source/containers/vbento.cpp:1626-1645 | the recursive writer appends exactly the bytes of the tree, for every tree that can be held |
| `BentoBinaryCodec.ReadValue` | source/containers/vbento.cpp:492-580 | the reader loops of all attribute classes agree with the reading functions on every input, malformed ones included |
| `BentoBinaryCodec.NewAttribute` | source/containers/vbento.cpp:492-580 | reading an attribute from the stream object agrees with the reading function on every input |
| `BentoBinaryCodec.ReadTree` | source/containers/vbento.cpp:1686-1700 | reading a node from the stream object agrees with the reading function on every input, and terminates |
| `BentoBinaryCodec.WriteThenRead` | source/containers/vbento.cpp:1626-1700 | write a tree, then anything, then read: the tree comes back and the rest is left if all lengths are legible, and not if it is lost |
| `Utf8.EncodeDecode` | source/containers/vcodepoint.cpp:165-204 | the bytes of every code point: the first announces the length, the others are continuations, together they give the code point back |
| `Utf8.ByteKinds` | source/containers/vcodepoint.cpp:299-361 | how many bytes each first byte announces, and which bytes continue a sequence |
| `Utf8.FirstAndLast` | source/containers/vcodepoint.cpp:165-204 | the bytes of the first and the last code point of each length |
| `Utf8.Terminated` | source/containers/vcodepoint.cpp:111-118 | past the end of a buffer stand terminators, also within a sequence |
| `Utf8.AtOffset` | source/containers/vcodepoint.cpp:299-361 | in an encoded list each code point stands at the end of the one before, with continuation bytes only inside |
| `Utf8.EncodeAllInjective` | source/containers/vcodepoint.cpp:165-204 | no two lists of code points have the same bytes |
| `Utf8.CountUtf8CodePoints` | source/containers/vcodepoint.cpp:340-351 | the counting loop on any bytes |
| `Utf8.CountEncoded` | source/containers/vcodepoint.cpp:340-351 | counting the code points of an encoded list gives its length |
| `Utf8.PreviousOffset` | source/containers/vcodepoint.cpp:353-361 | the backward scan stops at the nearest start byte |
| `Utf8.PreviousStart` | source/containers/vcodepoint.cpp:353-361 | on encoded text that is the start of the code point before |
| `Utf16.UnitsRoundTrip` | source/containers/vcodepoint.cpp:242-265 | a code point survives splitting into UTF-16 units and joining if and only if it is no surrogate value |
| `Utf16.OneUnit` | source/containers/vcodepoint.cpp:140-155 | a unit alone is a code point exactly if it is no surrogate value and fits 16 bits |
| `Utf16.FirstAndLastPair` | source/containers/vcodepoint.cpp:242-265 | the pairs of the first and the last code point that takes two units |
| `Utf16.SurrogateChanged` | source/containers/vcodepoint.cpp:242-265 | U+D800 is split into D7F6 and DC00 and read as U+D7F6 |
| `StringIterator.Iterator.Get` | source/containers/vstringiterator.h:90-97 | dereferencing yields the code point at the index, or the one before it in reverse |
| `StringIterator.Iterator.MoveForward` | source/containers/vstringiterator.h:165-182 | +n moves the index by n and throws exactly when it passes the end |
| `StringIterator.Iterator.MoveBackward` | source/containers/vstringiterator.h:184-200 | -n moves the index back by n and throws exactly when it passes the beginning |
| `StringIterator.Iterator.ThereAndBack` | source/containers/vstringiterator.h:111-119 | +n then -n returns to the same offset whenever +n does not throw, in both directions |
| `StringIterator.Collect` | source/containers/vstringiterator.h:65-97 | forward iteration yields the list of code points, reverse iteration the reversed list |
| `VStrings.VString.Preflight` | source/containers/vstring.cpp:1814-1895 | contents survive; room for the length and a terminator; a new heap buffer is a multiple of 32 between n+2 and n+33; throws exactly for negative lengths |
| `VStrings.VString.SetLength` | source/containers/vstring.cpp:1994-2018 | throws exactly for a length that is negative or not below the buffer length, changing nothing; otherwise terminator in place, count invalidated, heap buffer given up exactly when the string becomes empty |
| `VStrings.ChunksKeepFlag` | source/containers/vstring.cpp:1814-1895 | the buffer lengths chosen for heap buffers leave the lowest bit clear, where a little-endian layout keeps the internal-buffer flag, if and only if the chunks are of even length |
| `VStrings.VString.FlagClear` | source/containers/vstring.h:1412-1430 | whenever the heap buffer is in use the flag bit that its length shares is clear |
| `VStrings.VString.Assign` | source/containers/vstring.cpp:262-279 | the contents become those of the other string, which may be the same object |
| `VStrings.VString.Append` | source/containers/vstring.cpp:554-569 | concatenation, also of a string with itself |
| `VStrings.VString.AppendByte` | source/containers/vstring.cpp:571-581 | one byte at the end |
| `VStrings.VString.Insert` | source/containers/vstring.cpp:860-894 | insertion at the offset brought into range, also of a string into itself |
| `VStrings.VString.InsertByte` | source/containers/vstring.cpp:896-919 | one byte at the offset brought into range |
| `VStrings.InsertedExactly` | source/containers/vstring.cpp:860-894 | where an insertion goes: at its offset, at the start for offsets below zero, at the end for those past it |
| `VStrings.VString.CopyFromBuffer` | source/containers/vstring.cpp:1720-1737 | the stretch of a foreign buffer, empty for reversed bounds; throws exactly for a negative start |
| `VStrings.VString.SubstringInPlace` | source/containers/vstring.cpp:1578-1601 | the stretch between the clamped indices, moved within the buffer |
| `VStrings.SubstringExactly` | source/containers/vstring.cpp:1578-1601 | which stretch is kept, with bounds below zero, past the end, -1 and the wrong way round |
| `VStrings.VString.TruncateLength` | source/containers/vstring.cpp:948-956 | at most the first bytes |
| `VStrings.VString.GetNumCodePoints` | source/containers/vstring.cpp:921-929 | the cached count, once computed, is the number of code points |
| `VStrings.VString.TruncateCodePoints` | source/containers/vstring.cpp:937-946 | at most the first code points, cut at a code point boundary |
| `VStrings.VString.OrphanDataBuffer` | source/containers/vstring.cpp:1921-1950 | the caller gets bytes and terminator in a buffer the string no longer holds; the string is empty |
| `VStringRuns.Run` | source/containers/vstring.cpp:1814-2018 | over any run of operations, self-appends and self-inserts included, contents equal the run on plain sequences and the storage invariant holds: capacity above length, terminator in place, heap capacity in whole chunks, cached count -1 or right |
| `CStrings.IndexOf` | source/containers/vstring.cpp:1234-1249 | the first index at which the text matches by `strncmp` |
| `CStrings.NothingToFind` | source/containers/vstring.cpp:1339-1361 | an empty text is found nowhere, and no region starts at the end of a text |
| `CStrings.SameRegionExactly` | source/containers/vstring.cpp:1339-1361 | two regions compare equal exactly if they are the same up to their first NUL |
| `CStrings.CStrExactly` | source/containers/vbento.cpp:411-466 | what `%s` copies is everything before the first NUL |
| `CStrings.Replace` | source/containers/vstring.cpp:1388-1451 | terminates even if the replacement contains the search text; on NUL-free arguments the result is leftmost non-overlapping replacement and the count that of the occurrences |
| `CStrings.ReplaceFromIsReplaceAll` | source/containers/vstring.cpp:1388-1451 | the same for the part of the text past any offset |
| `XmlEscape.EscapeXmlValue` | source/containers/vbento.cpp:793-824 | the one-pass in-place loop replaces every special character where it stands |
| `XmlEscape.ReplaceCharWithString` | source/containers/vbento.cpp:783-788 | overwriting one character and inserting the rest puts the replacement in its place |
| `XmlEscape.NaiveEscape` | source/containers/vbento.cpp:795-798 | the naive series of `VString::replace` calls, `&` first and the others in any order, gives the same text on NUL-free input |
| `XmlEscape.NothingRaw` | source/containers/vbento.cpp:793-824 | no quote, apostrophe, angle bracket or unprintable character is left |
| `XmlEscape.EscapedConcat` | source/containers/vbento.cpp:793-824 | escaping works character by character |
| `XmlEscape.EscapedOne` | source/containers/vbento.cpp:793-824 | what each character gives way to: five names, a reference of two hexadecimal digits below U+0020 and for U+007F, and itself otherwise |
| `XmlEscape.NothingLeft` | source/containers/vbento.cpp:793-824 | at no place of the escaped text stands a quote, an apostrophe, an angle bracket or a control character, and each ampersand starts one of those names or references |
| `XmlEscape.UnescapedEscaped` | source/containers/vbento.cpp:793-824 | an XML reader gets the original back, so escaping loses nothing |
| `ColorRanges.LowerBound` | source/containers/vcolor.cpp:720-751 | binary search finds the first minimum not below the value |
| `ColorRanges.RangeColorMapper.AddColors` | source/containers/vcolor.cpp:748-751 | inserting where the search says keeps the vector sorted and adds exactly the new element |
| `ColorRanges.RangeColorMapper.GetColors` | source/containers/vcolor.cpp:720-741 | the answer of a scan over the elements in the order they were added, repeated minimums included, default if none; for distinct minimums the greatest minimum not above the value |
| `ColorRanges.NewIntegerRangeColorMapper` | source/containers/vcolor.cpp:697-701 | the integer mapper is the general one over the order of integers, with the given default colours |
| `ColorRanges.NewDoubleRangeColorMapper` | source/containers/vcolor.cpp:759-763 | the floating-point mapper is the general one over the order of the reals, with the given default colours |
| `ColorRanges.ScanIsGreatest` | source/containers/vcolor.cpp:787-813 | the scan finds a greatest minimum not above the value, and nothing only if all minimums are above it |
| `ColorRanges.ScanIgnoresOrder` | source/containers/vcolor.cpp:787-813 | for distinct minimums the answer does not depend on the order of insertion |
| `ColorRanges.HitIsAnswer` | source/containers/vcolor.cpp:720-751 | insertion and binary search together answer as that scan does: of equal minimums the newest wins for the value itself, the oldest for values above |
| `StringColorRanges.StringRangeColorMapper.AddColors` | source/containers/vcolor.cpp:674-689 | the vector stays sorted and gains the key and, in prefix mode, its range end |
| `StringColorRanges.StringRangeColorMapper.GetColors` | source/containers/vcolor.cpp:627-660 | the answer of the scan over all elements, repeated minimums included, unless it is the marker |
| `StringColorRanges.StringRangeColorMapper.GetPrefixColors` | source/containers/vcolor.cpp:627-660 | in prefix mode with prefix-free keys below `~`: the colours of the one key that is a prefix of the value, or the default |
| `StringColorRanges.CaseAdjustedExactly` | source/containers/vcolor.cpp:631-633 | with case a text stands for itself, without it for the form with its letters from A to Z in lower case, which exactly the texts share that differ in case only |
| `StringColorRanges.LookUpBoth` | source/containers/vcolor.cpp:627-660 | a mapper without case gives two values that differ in case only the same colours; one with case looks the value up unchanged |
| `StringColorRanges.AddAndLookUp` | source/containers/vcolor.cpp:627-689 | in prefix mode without case, colours added for a key are found exactly for the values that start with it in letters of either case |
| `StringColorRanges.AddMarker` | source/containers/vcolor.cpp:660-672 | colours equal to the marker mean the default colours in prefix mode, and themselves without it |
| `StringColorRanges.BetweenIsPrefix` | source/containers/vcolor.cpp:684-688 | a string between a key and the key followed by `~` starts with the key |
| `StringColorRanges.PrefixIsGreatest` | source/containers/vcolor.cpp:674-689 | the key that is a prefix of the value is the greatest minimum not above it among all keys and range ends |
| `Geometry.NearestOnLine` | source/containers/vgeometry.h:439-477 | without restriction no point of the whole line is nearer |
| `Geometry.NearestOnSegment` | source/containers/vgeometry.h:439-477 | for distinct endpoints the result lies on the segment and no point of the segment is nearer |
| `Geometry.GetNearestSide` | source/containers/vgeometry.h:847-865 | the side and the point returned are at minimum distance over the whole boundary |
| `Geometry.SidesGoAround` | source/containers/vgeometry.h:793-810 | each side starts where the one before it ends, and the last ends at the first vertex |
| `Geometry.Pythagoras` | source/containers/vgeometry.h:439-477 | the distances compared are those of Pythagoras, squared |
| `Geometry.Rect.ExpandTo` | source/containers/vgeometry.h:580-606 | each edge moves just far enough to take in the point, in every branch |
| `Geometry.InsideExactly` | source/containers/vgeometry.h:573-579 | a rectangle holds its inside, its left and its top edge, but not the others |
| `Geometry.GetBounds` | source/containers/vgeometry.h:768-782 | the bounds hold every vertex and each edge touches one |
| `Calendar.Timegm` | source/containers/vinstant.cpp:386-411 | the year and month loops equal the proleptic Gregorian day count times 86,400,000 plus time of day if and only if the year is 1970 or later; before that they fall short by the 365 days of 1970 |
| `Calendar.NextYear` | source/containers/vinstant.cpp:380-383 | the closed form steps by 366 days exactly in leap years, by 365 otherwise |
| `Calendar.StrictlyIncreasing` | source/containers/vinstant.cpp:386-411 | valid fields in lexicographic order give strictly increasing results, across 1970 as well |
| `Calendar.OrderExactly` | source/containers/vinstant.cpp:386-411 | the order of results is exactly that of valid fields, and no two valid instants have the same result |
| `Calendar.InstantExists` | source/containers/vinstant.cpp:386-411 | every number of milliseconds is the day count and time of day of a valid instant, and from 1970 on its result |
| `Calendar.DayOverflow` | source/containers/vinstant.cpp:1096-1098 | one day past the end of a month is the first of the next month or year if and only if it is not December 1969 |
| `Calendar.December1969` | source/containers/vinstant.cpp:1096-1098 | the 32nd of December 1969 is 365 days before the first of January 1970 |
| `Durations.VDuration.SetDurationString` | source/containers/vinstant.cpp:249-281 | the suffix tests in their order, with wrapping products, as a function of the text |
| `Durations.DurationRoundTrip` | source/containers/vinstant.cpp:220-281 | a duration survives its text if and only if it is special or its unit count fits a 32-bit `int` |
| `Durations.IgnoreCaseExactly` | source/containers/vstring.cpp:1063-1075 | equality but for the case of ASCII letters |
| `Durations.SpecialNames` | source/containers/vinstant.cpp:268-273 | the three special values are read from their names in letters of either case |
| `Durations.SuffixUnits` | source/containers/vinstant.cpp:249-281 | the milliseconds of each suffix |
| `Durations.Printed` | source/containers/vinstant.cpp:220-241 | which unit a duration is printed in |
| `Durations.NamesPrinted` | source/containers/vinstant.cpp:220-241 | the special values are printed by name |
| `Durations.MinutesTooMany` | source/containers/vinstant.cpp:220-281 | 2^31 minutes are printed with a negative count and read back as their negation |
| `Decimal.ParseSignedInteger` | source/containers/vstring.cpp:2020-2067 | the right-to-left loop with 64-bit wrapping computes the wrapped decimal value, or throws |
| `Decimal.ParseUnsignedInteger` | source/containers/vstring.cpp:2069-2112 | the same without sign |
| `Decimal.PartialSums` | source/containers/vstring.cpp:2020-2067 | no partial sum of the right-to-left loop, and no product added to one, exceeds the final magnitude |
| `Decimal.SumsFit` | source/containers/vstring.cpp:2020-2067 | all partial sums fit a signed 64-bit word if and only if the final magnitude does |
| `Decimal.MultipliersFit` | source/containers/vstring.cpp:2020-2112 | for digits without leading zeros the multipliers in use fit a signed 64-bit word if and only if the number is below 10^19, so below 2^63 the multiplier overflows after its last use only |
| `Decimal.ParseSignedPrint` | source/containers/vstring.cpp:2020-2067 | every signed and unsigned 64-bit value is read back from its decimal text, the least one included |
| `Decimal.PrintExactly` | source/containers/vstring.cpp:2020-2067 | what is printed is the only decimal form of the number without a needless zero |
| `Decimal.WordsExactly` | source/containers/vstring.cpp:2020-2067 | a conversion to 32 or 64 bits yields the number of the word that differs by a multiple of its size |

## Left out

- BentoSurvival.Survives: float, double, instant and binary attributes, legacy `char` values and surrogate characters have no modelled text form; the line end and the text after the tree hold no NUL.
- BentoBinary.ReadDataOf: the arguments that read the bytes of a character are evaluated from left to right, an order the language leaves open; `BentoCharacterOrder` says what any other order does.
- BentoBinaryCodec.ReadValue: likewise from left to right; floating-point words are read as the words they are.
- BentoBinaryCodec.NewAttribute: an unknown type code is a fault, where the original builds an attribute of unknown type.
- BentoBinary.DataLengthExact: the overflow of `int` in a polygon's length, undefined in the original, wraps.
- BentoBinaryTrees.ReadNodeOf: lists and strings are shorter than 2^31, as their 32-bit counts require, and the whole shorter than 2^63 bytes; polygons of any such length are included. A length is the exact sum of its parts, without 64-bit overflow.
- BentoMisreadLengths.ReadNodeExactly: says nothing of a tree in which the part behind its first illegible length starts over and enough can be saved later; such a tree may come back (`MisreadButRead`) or not.
- BentoBinaryTrees.SkipChildren: nothing is said of skipping a node in which a polygon overflows.
- BentoBinaryCodec.ReadTree: builds the tree as a value, where the original appends to a node object; object identity is covered on the text side only; an attribute of an unknown type ends the reading.
- BentoBinaryCodec.WriteThenRead: streams are bytes in memory; files and sockets, and a short read of the four type bytes, which ends in end of stream anyway, are not distinguished.
- BentoUtf8.UnescapeCommutes: for NUL-free strings; `NulMisplaces` shows why.
- BentoTextNodeParser.Parser.ParseText: reads characters, not bytes; ill-formed UTF-8 in the stream is not modelled.
- BentoTextValues.NewValueFromText: numbers that overflow in `sscanf`, which is undefined, are given the wrapped value; values the original leaves unassigned are reported as faults, and text for types without a modelled text form as not modelled.
- BentoTextValues.ReadNumericArray: a number that overflows in `sscanf`, which is undefined, is given the wrapped value.
- BentoNodes.AdoptFrom: the target's old attributes and children are dropped, not destroyed, and a source below the target, which would be destroyed before it is used, is excluded; for a target below the source, which closes a cycle, only the fields are stated.
- BinaryStreams.BinaryStream.ReadText: a negative length is a fault also where its low 32 bits, as `preflight` sees them, are not negative.
- Utf8.AtOffset: overlong and ill-formed UTF-8 are excluded from the iterator and truncation laws; `CountUtf8CodePoints` itself takes any bytes.
- Utf16.UnitsRoundTrip: the two length fields that the wide-string constructor leaves unset for single units are not modelled, nor is the loop over a wide string that reads them.
- VStrings.VString.Preflight: the union of the internal buffer and the heap fields is two separate arrays and a flag of its own, `FlagClear` aside; failing allocations and 32-bit overflow of lengths are not modelled.
- VStrings.VString.TruncateCodePoints: for well-formed UTF-8; on other bytes the iterator steps over positions that start no code point.
- VStringRuns.Run: direct writes through `set` and `operator[]`, which leave the cached count alone, are not among the operations.
- CStrings.Replace: the search is case-sensitive and the arguments are not the string itself.
- ColorRanges.RangeColorMapper.GetColors: the floating-point mapper is over the reals.
- StringColorRanges.StringRangeColorMapper.GetPrefixColors: nested prefixes, repeated keys, NULs and letters outside ASCII are excluded.
- Geometry.NearestOnSegment: over the reals, without rounding; a segment of equal endpoints divides by zero in the original and is excluded. Distances are compared squared.
- Calendar.Timegm: overflow of `time_t` is not modelled; months outside 1 to 12, which index past the tables, are excluded.
- Decimal.ParseSignedInteger: signed overflow, undefined in the original, gives the wrapped value; `SumsFit` and `MultipliersFit` say when there is none.
- Decimal.ParseUnsignedInteger: likewise for the signed multiplier.
- Durations.VDuration.SetDurationString: text without a known suffix goes through floating point and is reported as not modelled.
- `updateFrom`, attribute lookup, XML output of nodes, unknown attribute types and the callback parser.
- Local time zones, date and time formatting, CSS colours, rectangles beyond their bounds, deques and characters.
- Streams, sockets, servers, threads, exceptions and platform variants (Qt, CoreFoundation, boost, varargs).
