# A Dafny model of tinyxml2, with two small containers beside it

The project models the XML library under `tinyXML2/` as the five layers its code has, and proves what each layer
promises to the next one: strings that are decoded lazily and in place, the recursive parser, the printer, the mutable
document tree with its allocation, and attribute lists. Two other stateful containers of the repository are modelled
with them: nlohmann's `ordered_map` and RapidJSON's `FileReadStream`.

## How it is put together

| files | what they hold |
|---|---|
| `Chars`, `Seqs`, `Entries` | bytes, character classes, the line counter's meaning; sequences without repetitions; insertion-ordered maps as sequences of entries |
| `CharRef`, `References`, `Decode`, `Tokens` | character references and UTF-8 and the pure decoder, and what references and raw texts stand for, described without the loops that find it |
| `Exactness`, `LineEnds`, `StrPair` | where the decoder's result is the expected one and where it is that of the standard, and `GetStr` as it rewrites the buffer |
| `Syntax`, `Grammar`, `ParserGrammar`, `Departures` | the parser by positions, a declarative grammar, the proof that the two agree, and texts that both accept without being well formed |
| `Rejections`, `ParsedStrings`, `NodeStrings` | a grammar of failures with error, line and linked nodes, what follows for nesting and for the recorded slices, and the string each part of a node stands for |
| `Tally`, `Parser` | the parser as it runs: a cursor, a line counter, a depth counter, the list of unlinked nodes, the pool counters, and the flushes it makes in the buffer it reads |
| `Render`, `DynArray`, `Printer`, `Pieces`, `PageLayout` | the text of a tree, the printer's buffer and state machine, where its white space goes, and the whole output described by the tree alone |
| `RoundTripStrings`, `RoundTripTags`, `RoundTrip`, `EndToEnd` | parsing what was printed |
| `ChildLists`, `Forests`, `Document`, `Clones` | doubly linked child lists on the heap, the forest they amount to, moves and deletion with their accounting, and deep copies |
| `Attributes`, `MemPool` | the singly linked attribute list and the free list of the pool allocator |
| `OrderedMap`, `FileReadStream` | the two containers |

A byte is a `char` below 256. A text is the part of a buffer before its first NUL; buffers on the heap are arrays with
one more element, that NUL. `unsigned long` has 32 bits, as on the Windows targets the project files are for. Character
classes are those of the C locale. A null pointer result is `None` or `null`.

Code that changes things in place is a method over arrays and objects (`StrPairs`, `Parser.XmlParser`,
`Printer.XmlPrinter`, `ChildLists`, `Documents`, `Attributes`, `MemPools`, `OrderedMaps`, `FileReadStreams`); each such
method states its result or its whole new state by a function of the old one, and the promises are proved about that
function.

## Main results

- **Strings.** The decoder computes what the tokens of a raw text stand for (`Tokens.IdealReads`), and a character
  reference is what `References.CharRefIs` describes, for every text. The string `GetStr` returns is the one expected
  of the raw text, decoded from left to right up to a decoded NUL and, when collapsing, split into words that single
  spaces join, exactly when no unknown entity is read before that NUL while a byte other than `&` stands at the write
  position (`Exactness.ValueIsExpected`, on the bytes the loop leaves `Decode.InPlaceIsIdeal`). It is the string
  expected of the text after the line-end handling of XML 1.0 section 2.11 exactly when, besides, no line end is lost
  there or white space is collapsed (`LineEnds.ValueConforms`). Reads of disjoint slices commute
  (`StrPairs.AnyOrder`), and the slices of everything a parse has linked are disjoint.
- **Parser.** The parser accepts exactly the documents of the grammar, with exactly the grammar's nodes, for every
  text and every option (`ParserGrammar.ParserAcceptsGrammar`), and fails with exactly the error, the line and the
  linked nodes of a grammar of failures (`Rejections.ParserRejects`); the strings of the linked nodes are those their
  kind and the options ask for (`NodeStrings.DocumentStrings`); the running parser computes that function and keeps
  `_parseCurLineNum` at one plus the line feeds before the cursor; on every path, with an error or without, it
  restores the depth, leaves nothing unlinked or untracked, keeps alive exactly what is in the tree, and leaves every
  string of the tree readable (`Parser.XmlParser.Parse`).
- **Printer.** Its output is that of a recursive function (`Printer.XmlPrinter.AcceptDocument`), which is the page
  that the tree alone describes (`PageLayout.DocumentPage`); its white space stands between markup and markup only
  (`Pieces.SpaceIsBetweenMarkup`), and without it pretty output is compact output (`Pieces.PrettyIsCompactSpaced`).
- **Round trip.** Every document in normal form is given back by printing, compact or pretty, and parsing
  (`RoundTrip.DocumentRoundTrip`), also through the running printer and parser (`EndToEnd.PrintAndParse`).
- **Tree.** Every insertion, move and deletion keeps the child lists linked as one sequence per parent, the unlinked
  list exactly the parentless nodes and the pool counters exact (`Documents.Document`); the nodes stay a forest if and
  only if no node is put below itself; a moved node stands where the call asks for, and the others keep their order;
  deletion removes a subtree and nothing else; `InsertAfterChild` dereferences null for a document and in one other
  situation, which `Documents.MoveLastBehindItsPrevious` reaches; clones are new nodes with the same value
  (`Clones.DeepClone`, `Clones.DeepCopy`).

## Where the code and its documentation differ

The model follows the code.

- An unknown entity behind a contraction keeps a byte of the raw text: `&lt;&` is read as `<l`
  (`Exactness.StaleByteIsRead`). `Exactness.ValueIsExpected` says exactly when this happens.
- LF CR becomes one LF, which XML 1.0 section 2.11 does not ask for (`LineEnds.LfCrIsRead`). The string of a text,
  an attribute value or any other markup is that of section 2.11 in this respect exactly when each LF CR that is taken
  as a pair is followed by an LF with which the scan goes on; pairs within a reference or behind a decoded NUL do not
  count, and collapsing hides the difference (`LineEnds.ValueConforms`).
- A trailing `&#` loses its `&` (`Exactness.BrokenReferenceWitness`), whatever stands before it, unless a decoded NUL
  ends the string before it; the decoder loses no other one this way (`Exactness.BrokenReferenceLoses`).
- A NUL that a character reference produces ends the string.
- A close tag may carry attributes, which are parsed and dropped; `</a/>` is a closed element; a close tag at document
  level that nothing opened ends the parse without an error. The grammar says so, and speaks of the text up to there
  (`Departures.CloseTagAttributes`, `Departures.ClosedCloseTag`, `Departures.StrayCloseTag`).
- The comment in `ParseAttributes` says that a repeated attribute is not detected; the code in front of it does detect
  it.
- A node can be inserted below itself, which makes a cycle (`Documents.InsertIntoItself`).

## Model

| member | source | states |
|---|---|---|
| CharRef.EncodeDecodes | tinyXML2/tinyXML2.cpp:422-471 | the bytes of a value below 0x200000 are decoded to that value by the bit pattern of RFC 3629 section 3, extended past its upper limit, whatever follows them |
| CharRef.EncodeAllInjective | tinyXML2/tinyXML2.cpp:422-471 | concatenated encodings determine the values: no two lists of values have the same bytes |
| CharRef.ContinuationBits | tinyXML2/tinyXML2.cpp:445-463 | the mark and the mask of the code keep the low six bits of every value under 10xxxxxx |
| CharRef.LeadingBits | tinyXML2/tinyXML2.cpp:424-468 | the mark of the leading byte meets none of the value bits left for it, so its bitwise or is a sum below 256 |
| CharRef.ConvertUTF32ToUTF8 | tinyXML2/tinyXML2.cpp:422-471 | the falling-through switch, with its bitwise operators, writes the encoding of its input at the start of the output and returns its length |
| CharRef.DigitIs | tinyXML2/tinyXML2.cpp:503-548 | the digits of either base have the values of their places in the usual order, in either case, and no other byte is a digit |
| CharRef.SumWraps | tinyXML2/tinyXML2.cpp:485-560 | for any number of digits the accumulation is the positional value modulo the size of the machine word |
| CharRef.SumIsPositional | tinyXML2/tinyXML2.cpp:485-560 | the right-to-left accumulation has no 32-bit wrap and no failing assertion exactly up to 7 hexadecimal or 9 decimal digits, and then is the positional value |
| CharRef.BackwardDigitsOf | tinyXML2/tinyXML2.cpp:496-557 | an all-digit body is read back to the prefix with its digits in reverse order |
| CharRef.CharRefDenotes | tinyXML2/tinyXML2.cpp:475-568 | a reference to any all-digit body is consumed up to its semicolon and gives the encoding of its number modulo 2^32, and within the digit limit of its number |
| CharRef.CharRefAt | tinyXML2/tinyXML2.cpp:475-568 | an accepted reference never writes more bytes than it consumes, and never more than four |
| CharRef.AccumulateDigits | tinyXML2/tinyXML2.cpp:496-557 | the backward loop computes the sum of the digits, or fails at the first byte that is not one |
| CharRef.GetCharacterRef | tinyXML2/tinyXML2.cpp:475-568 | on every text behind `&#`, with its three special ends, the pointer, length and bytes are those of `CharRefAt` |
| References.CharRefIs | tinyXML2/tinyXML2.cpp:475-568 | for every text behind `&#` the outcome is exactly this: nothing and one byte on for `&#` alone; no reference without a semicolon; else the digits between the last mark and the first semicolon give the encoding of their number modulo 2^32, if they are digits |
| References.EncodingLengths | tinyXML2/tinyXML2.cpp:426-442 | the ranges of one to four bytes, and none above 0x1FFFFF |
| References.ShortestForm | tinyXML2/tinyXML2.cpp:422-471 | no byte sequence that stands for the same value is shorter than the encoding |
| Tokens.IdealReads | tinyXML2/tinyXML2.cpp:300-376 | decoding gives exactly what the tokens of the text stand for: line ends of one byte or two, the five entities, references, and every other byte for itself |
| Tokens.TokenExists | tinyXML2/tinyXML2.cpp:300-376 | every text begins with one token and no other |
| Tokens.InPlaceOfToken | tinyXML2/tinyXML2.cpp:345-364 | in place the same bytes are written token by token, but nothing at an ampersand at which no entity begins, where the byte at the write position stays |
| Tokens.PlainTextKept | tinyXML2/tinyXML2.cpp:330-372 | a text without semicolons and line ends is kept, unless it ends in `&#` |
| Decode.InPlaceIsIdeal | tinyXML2/tinyXML2.cpp:300-376 | decoding in the slice's own bytes equals the left-to-right decoder if and only if every unknown entity is met where the byte at the write position is an ampersand |
| Decode.StaleByteWitness | tinyXML2/tinyXML2.cpp:345-364 | the loop leaves `<l` for `&lt;&`, because the branch for an unknown entity moves on without writing |
| Decode.Ideal | tinyXML2/tinyXML2.cpp:300-376 | decoding never makes a string longer |
| Decode.InPlace | tinyXML2/tinyXML2.cpp:300-376 | what is written stays inside the slice, from every pair of read and write positions |
| Decode.CollapseIsJoin | tinyXML2/tinyXML2.cpp:257-283 | collapsing white space is splitting into words and joining them with single spaces |
| Decode.NoFlagsKeep | tinyXML2/tinyXML2.cpp:286-297 | without flags the raw text is kept |
| Exactness.ValueIsExpected | tinyXML2/tinyXML2.cpp:257-384 | for every raw text and all flags, what `GetStr` returns is the expected string if and only if every unknown entity before the first decoded NUL is met where the byte at the write position is an ampersand |
| Exactness.StaleByteIsRead | tinyXML2/tinyXML2.cpp:345-364 | `GetStr` returns `<l` for `&lt;&`, where `<&` is expected |
| Exactness.StaleByteBehindNul | tinyXML2/tinyXML2.cpp:300-384 | a stale byte behind a decoded NUL, as in `&#0;&`, is not seen |
| Exactness.BrokenReferenceLoses | tinyXML2/tinyXML2.cpp:330-344 | decoding loses the ampersand of a trailing `&#` in every text that ends so, and in no other |
| Exactness.BrokenReferenceWitness | tinyXML2/tinyXML2.cpp:565-567 | `GetStr` returns `#` for `&#` |
| LineEnds.LineEndsConform | tinyXML2/tinyXML2.cpp:300-376 | for every text, with entity processing or without, decoding with newline normalization is decoding the text that XML 1.0 section 2.11 makes of it if and only if each LF CR taken as a pair is followed by an LF from which the scan goes on; in other texts line ends are lost |
| LineEnds.PlainLineEnds | tinyXML2/tinyXML2.cpp:301-324 | without entity processing that is the normalized text itself |
| LineEnds.CollapsedAlike | tinyXML2/tinyXML2.cpp:257-324 | collapsing white space makes the same of both, whatever line ends are lost |
| LineEnds.ValueConforms | tinyXML2/tinyXML2.cpp:257-384 | what `GetStr` returns is the string expected of the text that section 2.11 makes of it if and only if no unknown entity keeps a stale byte and, unless white space is collapsed, no line end is lost, both before the first decoded NUL |
| LineEnds.LfCrIsRead | tinyXML2/tinyXML2.cpp:313-324 | `GetStr` returns one LF for LF CR, where the standard has two; a further LF makes up for it, one more CR does not |
| LineEnds.LfCrInReference | tinyXML2/tinyXML2.cpp:493-528 | an LF CR within a reference is no line end: the backward scan stops at an `x` behind it |
| StrPairs.MatchEntity | tinyXML2/tinyXML2.cpp:347-356 | the search loop finds the first entity of the table that stands at the ampersand, with its semicolon |
| StrPairs.TranslateStep | tinyXML2/tinyXML2.cpp:301-373 | one turn of the loop writes what the decoder's step leaves, advances both pointers by its widths and touches no other byte |
| StrPairs.Translate | tinyXML2/tinyXML2.cpp:293-376 | the loop leaves the in-place decoder's result followed by a NUL, all inside the slice |
| StrPairs.SqueezeStep | tinyXML2/tinyXML2.cpp:264-280 | one turn of the collapsing loop writes one word byte, or one space and the byte after the gap, and drops a trailing gap |
| StrPairs.CollapseWhitespace | tinyXML2/tinyXML2.cpp:257-283 | the C string from the new start is the collapsed one, written in place |
| StrPairs.Flush | tinyXML2/tinyXML2.cpp:286-384 | flushing a slice leaves the C string of its value inside the closed interval of its two pointers |
| StrPairs.StrPair.GetStr | tinyXML2/tinyXML2.cpp:286-384 | the first call rewrites the slice, every call returns its value, and nothing outside the closed interval is written |
| StrPairs.ReadKeepsMeanings | tinyXML2/tinyXML2.cpp:286-384 | reading one of several disjoint slices changes what none of them stands for |
| StrPairs.AnyOrder | tinyXML2/tinyXML2.cpp:286-384 | over every run of reads of disjoint slices, in any order and with repetitions, each read returns the slice's first value |
| Chars.ClassesAre | tinyXML2/tinyxml2.h:569-589 | the bytes of the three character classes, one by one |
| Chars.LineCounts | tinyXML2/tinyxml2.h:551-561 | the line of a position is one more than the line feeds before it |
| Chars.SkipIsUnique | tinyXML2/tinyxml2.h:551-562 | skipping white space stops at the one position with only white space before it and none at it |
| Syntax.FindTag | tinyXML2/tinyXML2.cpp:212-234 | the first place behind the start where the end tag stands, or none anywhere |
| Syntax.NameEnd | tinyXML2/tinyXML2.cpp:237-254 | names end before the first byte that is not a name character |
| Syntax.Identify | tinyXML2/tinyXML2.cpp:715-792 | a node is found at or behind the cursor, and parsing goes on inside the text, also when the function backs up over text |
| Syntax.ParseAttributes | tinyXML2/tinyXML2.cpp:1972-2029 | accepted attributes end behind the cursor and inside the text and keep those read before; each turn of the loop stops or moves on, so it ends on every text |
| Syntax.ParseList | tinyXML2/tinyXML2.cpp:1085-1199 | a list ended by a close tag ends behind the cursor and inside the text; each turn of the loop stops or moves on, through the recursion, so parsing ends on every text |
| ParserGrammar.ParsesAttr | tinyXML2/tinyXML2.cpp:1455-1480 | an attribute is parsed exactly where the grammar has one: name, equals sign, quoted value cut at the same quote |
| ParserGrammar.AttrsSound | tinyXML2/tinyXML2.cpp:1972-2029 | accepted attributes are a run of attributes with pairwise distinct names, up to the end of the tag |
| ParserGrammar.AttrsComplete | tinyXML2/tinyXML2.cpp:1972-2029 | every such run is accepted with exactly these attributes |
| ParserGrammar.ParsesLeaf | tinyXML2/tinyXML2.cpp:1246-1420 | comments, CDATA, declarations, unknowns and texts run to the first end tag of their kind |
| ParserGrammar.NodeSound | tinyXML2/tinyXML2.cpp:1085-1199 | an accepted node that is not a close tag is one of the grammar, on the line of its first byte |
| ParserGrammar.ListSound | tinyXML2/tinyXML2.cpp:1085-1199 | the nodes a list has linked are a list of the grammar, also when the parse fails behind them; an accepted one ends at the end of the text or at a close tag, which is handed up |
| ParserGrammar.ListComplete | tinyXML2/tinyXML2.cpp:1085-1199 | every list of the grammar is accepted with exactly its nodes, and parsing goes on behind it |
| ParserGrammar.ParserAcceptsGrammar | tinyXML2/tinyXML2.cpp:2562-2576 | a text parses without error to given nodes if and only if the grammar has that document: open and close tags of the same name, distinct attribute names, declarations first and at document level only, each node on its line |
| Departures.StrayCloseTag | tinyXML2/tinyXML2.cpp:1128-1194 | `<a/></b>x` is parsed without an error to its first element |
| Departures.ClosedCloseTag | tinyXML2/tinyXML2.cpp:2088-2112 | `</a/>` is a closed element |
| Departures.CloseTagAttributes | tinyXML2/tinyXML2.cpp:2088-2112 | the close tag of `<a></a b="1">` is accepted and its attribute dropped |
| ParserGrammar.DocumentNodes | tinyXML2/tinyXML2.cpp:1085-1199 | whatever the outcome, the nodes linked to the document are a run of nodes of the grammar, declarations first |
| Rejections.ParserRejects | tinyXML2/tinyXML2.cpp:1085-1199 | for every text, all options and every outcome: the parse fails with this error on this line and with these nodes linked if and only if the grammar of failures says so |
| Rejections.HeadFails | tinyXML2/tinyXML2.cpp:1974-2039 | a tag fails for want of a name, at a name with no attribute or a repeated one, or for want of its end mark, with the error and line of each |
| Rejections.LeafFailsIs | tinyXML2/tinyXML2.cpp:1246-1420 | a leaf fails exactly when its end mark is missing, with the error of its kind, or when text ends at the last byte |
| NodeStrings.DocumentStrings | tinyXML2/tinyXML2.cpp:1246-1475 | for every text and all options: names are kept, attribute values decoded and never collapsed, text decoded and collapsed as the options say, and of other markup only line ends are normalized |
| ParsedStrings.NestingLimit | tinyXML2/tinyXML2.cpp:2578-2590 | the nodes a parse has linked, with an error or without, nest at most 498 open and closed elements |
| ParsedStrings.DocumentOrdered | tinyXML2/tinyXML2.cpp:212-254 | the slices of everything a parse has linked, in document order, are closed intervals one behind the other inside the text |
| ParsedStrings.DocumentReadsInAnyOrder | tinyXML2/tinyXML2.cpp:286-384 | for every text, any run of reads of the names and values a parse has linked returns the value of each slice's original text |
| Parser.XmlParser.SkipSpace | tinyXML2/tinyxml2.h:551-562 | the cursor moves over all white space and the line counter stays exact |
| Parser.XmlParser.ParseText | tinyXML2/tinyXML2.cpp:212-234 | the cursor moves behind the end tag found, counting the line feeds on the way |
| Parser.XmlParser.IdentifyNode | tinyXML2/tinyXML2.cpp:715-792 | the running form computes `Identify`, puts the cursor and the line counter back over text, and creates one unlinked node, counted as live and untracked in its pool |
| Parser.XmlParser.ReadAttributes | tinyXML2/tinyXML2.cpp:1972-2029 | the loop computes `ParseAttributes`; comparing names flushes earlier names in place, and only the byte behind a name becomes NUL; the attributes read are live, a refused one is not, and on an error nothing before the element is touched |
| Parser.XmlParser.ReadAttribute | tinyXML2/tinyXML2.cpp:1983-2013 | one turn: the attribute is read and new, or it is freed again, after the value of the one it repeats was read in place |
| Parser.XmlParser.PushDepth | tinyXML2/tinyXML2.cpp:2578-2584 | the depth goes up by one, with the error when it reaches 500 |
| Parser.XmlParser.ParseDeep | tinyXML2/tinyXML2.cpp:1085-1199 | the list that is parsed is that of `EnterList`; on every path the depth is what it was, live are what was live and the linked children with all below them, and no byte before the list is touched |
| Parser.XmlParser.ParseChild | tinyXML2/tinyXML2.cpp:1092-1196 | one turn of the loop: the node is linked and stays live, or it is deleted with all below it on each of the error paths and for a close tag; in each case nothing of this level stays unlinked or untracked |
| Parser.XmlParser.Settle | tinyXML2/tinyXML2.cpp:1128-1194 | a node that was read is rejected, handed up as a close tag or linked, as `ParseList` says; what is read for the error messages lies inside the node |
| Parser.XmlParser.DeleteNode | tinyXML2/tinyXML2.cpp:2339-2354 | deleting a node that was never linked gives back exactly what it and all below it took from each pool |
| Tallies.UnitsAre | tinyXML2/tinyXML2.cpp:715-790 | which pool the item of each kind of node comes from |
| Tallies.CountMore | tinyXML2/tinyXML2.cpp:891-898 | what a list of nodes takes is what its nodes take, one by one |
| Parser.XmlParser.CheckEnd | tinyXML2/tinyXML2.cpp:1157-1191 | the mismatch decision, with the names read in place, is that of the grammar |
| Parser.XmlParser.ReadElement | tinyXML2/tinyXML2.cpp:2088-2113 | an element with its attributes and children is read as `ParseElement` says, and the flushes stay inside it |
| Parser.XmlParser.Parse | tinyXML2/tinyXML2.cpp:2562-2576 | the run computes `ParseDocument`; on success and on every error the depth is 0, nothing is unlinked or untracked, the live nodes and attributes of each pool are those of the tree, and every string of the tree can be read from the buffer that was parsed, in any order, with the value of the original text |
| Parser.XmlParser.MarkInUse | tinyXML2/tinyXML2.cpp:2224-2235 | the node last created leaves the list and the others stay |
| RoundTripStrings.StringRoundTrip | tinyXML2/tinyXML2.cpp:2676-2728 | a printed string followed by its delimiter is cut exactly there and decodes to the original, for every string without NUL and CR |
| RoundTripStrings.DecodeEscaped | tinyXML2/tinyXML2.cpp:2676-2728 | every ampersand the printer writes starts one of the five entities, so escaped text decodes to what was escaped |
| RoundTripStrings.CutAtTag | tinyXML2/tinyXML2.cpp:212-234 | a value that does not contain its end tag is cut exactly at the tag behind it |
| RoundTripTags.AttrParses | tinyXML2/tinyXML2.cpp:1455-1480 | a printed attribute is parsed back with its name and value |
| RoundTripTags.AttrsParse | tinyXML2/tinyXML2.cpp:1972-2029 | printed attributes with distinct names are parsed back in order |
| RoundTripTags.TextParses | tinyXML2/tinyXML2.cpp:1246-1270 | printed text that is not blank is identified as text from its first byte and parsed back |
| RoundTrip.ElementParses | tinyXML2/tinyXML2.cpp:2088-2113 | a printed element is parsed back with its attributes, its children and its own close tag |
| RoundTrip.ListParses | tinyXML2/tinyXML2.cpp:1085-1199 | a printed list of nodes is parsed back node by node, over the white space pretty printing puts between them |
| RoundTrip.DocumentRoundTrip | tinyXML2/tinyXML2.cpp:2676-3028 | parsing the output for a document in normal form, compact or pretty, gives no error and the same tree: byte order mark, kinds, values, attributes in order, children |
| EndToEnd.DocumentNulFree | tinyXML2/tinyXML2.cpp:2642-2665 | the output for a document in normal form is one C string |
| EndToEnd.PrintAndParse | tinyXML2/tinyXML2.cpp:2562-3028 | the running printer followed by the running parser gives the printed document back, with all strings readable in place |
| PageLayout.DocumentPage | tinyXML2/tinyXML2.cpp:2742-2965 | for every document, compact or pretty, with entities or without: the output is the page the tree describes, with a line and four blanks a level before markup, unless the last text so far is in an element that is still open |
| RoundTripStrings.EscapeOne | tinyXML2/tinyXML2.cpp:2605-2616 | the pattern of each special character; quotes are special in attribute values only |
| RoundTripStrings.EscapeKeeps | tinyXML2/tinyXML2.cpp:2676-2728 | a string is printed as it is if and only if it has no special character |
| DynArrays.DynArray.EnsureCapacity | tinyXML2/tinyxml2.h:300-314 | growing keeps the contents |
| DynArrays.DynArray.Push | tinyXML2/tinyxml2.h:223-228 | pushing appends one element, across a reallocation |
| DynArrays.DynArray.PushArr | tinyXML2/tinyxml2.h:230-237 | the new room starts behind the old contents, which stay in front of it |
| Printer.XmlPrinter.Write | tinyXML2/tinyXML2.cpp:2642-2652 | the output grows by the bytes written and one NUL stays behind it |
| Printer.XmlPrinter.PrintString | tinyXML2/tinyXML2.cpp:2676-2728 | flushing runs between entities writes the escaped string, nothing lost and nothing twice; without entity processing the string itself |
| Printer.XmlPrinter.EscapeConcat | tinyXML2/tinyXML2.cpp:2676-2728 | escaping distributes over concatenation |
| Printer.XmlPrinter.PrepareForNewNode | tinyXML2/tinyXML2.cpp:2742-2757 | an open tag is sealed, then a line feed and the indentation of the current depth are written, unless the mode is compact or text has come before |
| Printer.XmlPrinter.OpenElement | tinyXML2/tinyXML2.cpp:2760-2770 | the element is pushed on the stack that has one entry per level |
| Printer.XmlPrinter.PushAttribute | tinyXML2/tinyXML2.cpp:2773-2781 | one blank, the name and the quoted, fully escaped value |
| Printer.XmlPrinter.CloseElement | tinyXML2/tinyXML2.cpp:2832-2857 | the close tag names the element that was opened last, and an element without children is closed in its open tag |
| Printer.XmlPrinter.PushText | tinyXML2/tinyXML2.cpp:2870-2883 | text is written with no white space around it, and the depth of its element is remembered |
| Printer.XmlPrinter.PushComment | tinyXML2/tinyXML2.cpp:2942-2949 | a comment between its marks, as markup |
| Printer.XmlPrinter.PushDeclaration | tinyXML2/tinyXML2.cpp:2952-2959 | a declaration between its marks, as markup |
| Printer.XmlPrinter.PushUnknown | tinyXML2/tinyXML2.cpp:2962-2969 | an unknown between its marks, as markup |
| Printer.XmlPrinter.Accept | tinyXML2/tinyXML2.cpp:2156-2167 | visiting a tree at any depth, in any layout state and with entity processing on or off, writes its rendering and gives depth and stack back |
| Printer.XmlPrinter.AcceptChildren | tinyXML2/tinyXML2.cpp:2160-2164 | the loop over the children writes their renderings in order, the first of them sealing the open tag |
| Printer.XmlPrinter.AcceptDocument | tinyXML2/tinyXML2.cpp:795-806 | whatever a printer has printed and has open, visiting a document takes the entity option from it and writes a byte order mark and the document's nodes in the layout the printer is in; for a fresh printer that is the rendering the round trip is proved about |
| Pieces.ListText | tinyXML2/tinyXML2.cpp:2742-2883 | the output of a list is its pieces of markup, text and white space, one after another |
| Pieces.PrettyIsCompactSpaced | tinyXML2/tinyXML2.cpp:2742-2857 | pretty output without the white space pieces is compact output, for every list of trees and from every layout state |
| Pieces.SpaceIsBetweenMarkup | tinyXML2/tinyXML2.cpp:2742-2883 | no white space piece stands next to the output of a text or CDATA node, for every document without text at its top level |
| ChildLists.Bypass | tinyXML2/tinyXML2.cpp:901-922 | the pointer updates of `Unlink` leave the list without the child and the child without links, in every position |
| ChildLists.Append | tinyXML2/tinyXML2.cpp:947-963 | the pointer updates of `InsertEndChild` make the list end in the child |
| ChildLists.Prepend | tinyXML2/tinyXML2.cpp:977-994 | the pointer updates of `InsertFirstChild` make the list start with the child |
| ChildLists.PlaceAfter | tinyXML2/tinyXML2.cpp:1026-1031 | the pointer updates of `InsertAfterChild` put the child behind its sibling |
| ChildLists.DetachedRelates | tinyXML2/tinyXML2.cpp:901-922 | a child is in one list only, so taking it out changes no other |
| ChildLists.AttachedRelates | tinyXML2/tinyXML2.cpp:938-1032 | a parentless node is in no list, so linking it changes one only |
| ChildLists.Detach | tinyXML2/tinyXML2.cpp:901-922 | unlinking keeps first, last, previous, next and parent of all nodes in agreement with the sequences |
| ChildLists.Attach | tinyXML2/tinyXML2.cpp:938-1032 | so does linking at any place |
| Forests.SubtreeUnique | tinyXML2/tinyXML2.cpp:824-830 | the set closed under children in which all but one node have their parent is that node's subtree |
| Forests.AttachedRanked | tinyXML2/tinyXML2.cpp:938-1032 | linking a node under one that is not below it makes no cycle |
| Forests.AttachedBelowItself | tinyXML2/tinyXML2.cpp:938-1032 | linking a node under one of its own subtree makes a cycle |
| Forests.RankedHasNoCycle | tinyXML2/tinyXML2.cpp:938-1032 | a forest has no cycle |
| ChildLists.PoolsAre | tinyXML2/tinyxml2.h:1955-1958 | elements and text have pools of their own, all other nodes share one |
| Documents.Document.constructor | tinyXML2/tinyXML2.cpp:2196-2215 | a new document is a lone node with empty accounts |
| Documents.Document.CreateUnlinkedNode | tinyXML2/tinyxml2.h:1988-1999 | a new node is live, parentless, listed once as unlinked and counted in its pool as live and untracked; its attributes are counted as live and tracked |
| Documents.Document.MarkInUse | tinyXML2/tinyXML2.cpp:2224-2235 | the node and no other leaves the list, which stays without duplicates |
| Documents.Document.InsertChildPreamble | tinyXML2/tinyXML2.cpp:1216-1228 | the node is taken from its parent, or from the unlinked list with its pool's untracked count going down |
| Documents.Document.LinkMoved | tinyXML2/tinyXML2.cpp:938-1032 | the node comes to its new place with all links and accounts right; the nodes are a forest if and only if the place was not below the node, and else there is a cycle |
| Documents.Document.MovedTo | tinyXML2/tinyXML2.cpp:938-1034 | a moved node is where it was put, by the lists and by its links, and nothing else has moved |
| Documents.Document.InsertEndChild | tinyXML2/tinyXML2.cpp:938-965 | a node of the same document leaves its list and is the target's last child; all links, the unlinked list and the counters stay right, and the forest exactly when the target is not in the node's subtree; a node of another document is refused and nothing changes; a document dereferences null |
| Documents.Document.InsertFirstChild | tinyXML2/tinyXML2.cpp:968-996 | likewise, as the first child |
| Documents.Document.InsertAfterChild | tinyXML2/tinyXML2.cpp:999-1032 | likewise, right behind the sibling; it dereferences null if and only if the node is a document, or the sibling's next one and the last child; a sibling of another parent is refused, and the sibling itself stays where it is |
| Documents.AfterStays | tinyXML2/tinyXML2.cpp:1016-1028 | what follows the sibling once the moved node has left the list |
| Documents.MoveLastBehindItsPrevious | tinyXML2/tinyXML2.cpp:1024-1028 | in a new document with two children, moving the second behind the first dereferences null |
| Documents.InsertIntoItself | tinyXML2/tinyXML2.cpp:938-965 | inserting a node into itself is accepted and makes a cycle |
| Documents.Document.DeleteLoose | tinyXML2/tinyXML2.cpp:1201-1214 | destroying a parentless node removes it and all below it, keeps every other list and all accounts, and ends |
| Documents.Document.DeleteChildren | tinyXML2/tinyXML2.cpp:891-898 | the subtrees of all children are gone and nothing else |
| Documents.Document.DeleteChild | tinyXML2/tinyXML2.cpp:925-935 | a child leaves its parent's list and its subtree is gone |
| Documents.Document.DeleteNode | tinyXML2/tinyXML2.cpp:2339-2354 | linked or not, the node's subtree is gone, nothing else changes, and list and counters stay exact |
| Documents.Document.Clear | tinyXML2/tinyXML2.cpp:2237-2268 | it ends with the document alone, nothing unlinked and the counters of all four pools 0, which its four debug assertions ask for |
| Documents.Document.OnlyRoot | tinyXML2/tinyXML2.cpp:2237-2242 | with no child of the document and nothing unlinked, no other node is live |
| Documents.Document.GiveBackMemory | tinyXML2/tinyXML2.cpp:1619-1626 | destroying a node leaves the counters of its pool and of the attribute pool right for the nodes that remain |
| Documents.AttributesAdd | tinyXML2/tinyXML2.cpp:2041-2049 | a node brings its own attributes and no others to the attributes of a set of nodes |
| Documents.CountedRemove | tinyXML2/tinyxml2.h:398-418 | removing a node of a set takes one from its own pool's counter and from no other |
| Clones.SameImage | tinyXML2/tinyXML2.cpp:878-889 | what a node amounts to depends on the lists below it only |
| Clones.JoinedImages | tinyXML2/tinyXML2.cpp:883-887 | appending a child clone adds its value behind those of its siblings |
| Clones.CopyAttributes | tinyXML2/tinyXML2.cpp:2117-2127 | setting attributes one by one copies a list with distinct names in order |
| Clones.DeepClone | tinyXML2/tinyXML2.cpp:878-889 | the clone is new, unlinked, of the target, and has the value of the original; every list there was, in source and target, is as it was; a document gives null |
| Clones.DeepCopy | tinyXML2/tinyXML2.cpp:2271-2282 | the target's children are clones of the source's in order, nothing in it is unlinked, the source is unchanged; copying a document to itself does nothing |
| Entries.PutIsUpdate | tinyXML2/tinyXML2.cpp:1925-1950 | setting is the map update; an existing key keeps its place and a new one comes last |
| Entries.DropIsRemove | tinyXML2/tinyXML2.cpp:1953-1969 | deleting removes the key from the map and leaves the order of the others |
| Entries.RunRefinesOrderedMap | Json++Demo/include/nlohmann/ordered_map.hpp:54-353 | any mix of setting, adding, deleting and erasing ranges keeps keys distinct and is at once the run on a map and on the order of its keys; of an attribute list too, which has no ranges |
| Entries.PutAllCopies | tinyXML2/tinyXML2.cpp:2121-2125 | setting entries with new, distinct keys appends them in order |
| Attributes.AttributePool.CreateAttribute | tinyXML2/tinyXML2.cpp:2041-2049 | a new attribute is counted as live and leaves the untracked count alone |
| Attributes.AttributeList.FindAttribute | tinyXML2/tinyXML2.cpp:1629-1637 | walking the list finds the ordered map's entry, or nothing when there is none |
| Attributes.AttributeList.FindOrCreateAttribute | tinyXML2/tinyXML2.cpp:1925-1950 | the entry of that name, linked behind the last one when it is new |
| Attributes.AttributeList.SetAttribute | tinyXML2/tinyxml2.h:1468-1471 | the list becomes that of the ordered map with the name set |
| Attributes.AttributeList.DeleteAttribute | tinyXML2/tinyXML2.cpp:1953-1969 | the list becomes that of the ordered map without the name, and the attribute's memory is given back |
| Attributes.AttributeList.AddParsed | tinyXML2/tinyXML2.cpp:1989-2012 | a repeated name is refused and its attribute freed, any other is linked behind the one read before |
| Attributes.AttributeList.CopyFrom | tinyXML2/tinyXML2.cpp:2117-2127 | a new list gets the same entries from new attributes, one pool item each and none untracked, and the other list is unchanged |
| MemPools.SplitsTake | tinyXML2/tinyxml2.h:372-396 | taking the head of the free list keeps free and live items a partition of all items |
| MemPools.SplitsGive | tinyXML2/tinyxml2.h:398-411 | giving a live item back keeps the partition and the free list without repetition |
| MemPools.MemPool.Capacity | tinyXML2/tinyxml2.h:343-455 | blocks times items per block is live plus free |
| MemPools.MemPool.NewBlock | tinyXML2/tinyxml2.h:375-383 | the items of a new block are linked one to the next and end in null |
| MemPools.MemPool.Alloc | tinyXML2/tinyxml2.h:372-396 | an item that is not live, from the free list or a new block; list, partition and counters stay exact |
| MemPools.MemPool.Free | tinyXML2/tinyxml2.h:398-411 | the item becomes the head of a free list that still ends; null does nothing |
| MemPools.MemPool.Clear | tinyXML2/tinyxml2.h:352-363 | all blocks go and all counters are 0 |
| OrderedMaps.OrderedMap.Emplace | Json++Demo/include/nlohmann/ordered_map.hpp:54-64 | a new key comes last, an existing entry stays, and the position and the flag say which |
| OrderedMaps.OrderedMap.Subscript | Json++Demo/include/nlohmann/ordered_map.hpp:82-85 | the place of the key's value, made with the default when the key is new |
| OrderedMaps.OrderedMap.Assign | Json++Demo/include/nlohmann/ordered_map.hpp:82-85 | writing through that place sets the key in the ordered map |
| OrderedMaps.OrderedMap.At | Json++Demo/include/nlohmann/ordered_map.hpp:106-117 | the map's value, or the exception when there is none |
| OrderedMaps.OrderedMap.Find | Json++Demo/include/nlohmann/ordered_map.hpp:286-296 | the position of the key, or the end |
| OrderedMaps.OrderedMap.Count | Json++Demo/include/nlohmann/ordered_map.hpp:260-270 | 1 for a key of the map and 0 for any other |
| OrderedMaps.OrderedMap.Insert | Json++Demo/include/nlohmann/ordered_map.hpp:329-340 | as emplacing the pair |
| OrderedMaps.OrderedMap.InsertRange | Json++Demo/include/nlohmann/ordered_map.hpp:347-353 | the run that adds the pairs in order |
| OrderedMaps.OrderedMap.EraseKey | Json++Demo/include/nlohmann/ordered_map.hpp:162-179 | shifting in place and popping removes the key's entry only; the result counts it |
| OrderedMaps.OrderedMap.EraseRange | Json++Demo/include/nlohmann/ordered_map.hpp:207-258 | shifting in place equals the prefix followed by the suffix, and the position returned is that of the first entry behind |
| Entries.RangeIsRemove | Json++Demo/include/nlohmann/ordered_map.hpp:207-258 | erasing a range keeps keys distinct, removes exactly the range's keys from the map and leaves the order of the others |
| FileReadStreams.FileReadStream.Read | RapidJsonDemo/include/rapidjson/filereadstream.h:66-82 | one byte forward in the file across refills, and standing still at its end |
| FileReadStreams.FileReadStream.Peek | RapidJsonDemo/include/rapidjson/filereadstream.h:50 | after `n` calls of `Take`, byte `n` of the file, or NUL at and behind its end |
| FileReadStreams.FileReadStream.Take | RapidJsonDemo/include/rapidjson/filereadstream.h:51 | that byte, and one step further |
| FileReadStreams.FileReadStream.Tell | RapidJsonDemo/include/rapidjson/filereadstream.h:52 | the smaller of `n` and the file's length |
| FileReadStreams.FileReadStream.Peek4 | RapidJsonDemo/include/rapidjson/filereadstream.h:61-63 | it is not null exactly when the buffer holds the next four bytes and one more behind them, a byte of the file or the NUL at its end; then it shows the next four bytes of the file |

## Left out

- The parser's tree is a value and its unlinked list holds numbers; linking a parsed node is appending it to its
  parent's list, and of its memory only the pool counters are kept. The heap form, with the same accounting, is
  `Documents`.
- Which strings an error path has read already: those nodes are deleted at once.
- Error message texts, error names and `PrintError`.
- A printer that starts at another depth, prints to a file, or overrides `CompactMode`.
- PEDANTIC_WHITESPACE, COLLAPSE_WHITESPACE and disabled entity processing in the round trip, where the tree is not given
  back; all three are in the parser, in the grammar and in `GetStr`, the last also in the printer.
- `SetInternedStr` and strings set by the user, which do not lie in the parsed buffer; `Documents` takes a node's value
  and attributes as fixed when it is created.
- Operations on a document in which a node was put below itself.
- The pools of `Documents` are their counters; which item of a block a node gets is the subject of `MemPools`.
- A document and its node are one C++ object; here the document holds its node.
- Clones.DeepClone: asks for distinct attribute names, which every list of `Attributes` has.
- OrderedMaps.OrderedMap.Assign: is the assignment a caller makes through the reference that `operator[]` returns.
- References and iterators of `ordered_map` are positions; overloads for other key types and the allocator are not
  modelled.
- `FileReadStream` reads from a file whose contents do not change and whose reads are short only at its end.
- `ShallowEqual`, `XMLHandle`, user data, `SetBoolSerialization`, the typed accessors and `ToStr`, which delegate to the
  C library.
- `LoadFile`, `SaveFile`, all demo programs, and the libraries of which only headers are present.
