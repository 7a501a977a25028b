# Verified model of the networking coursework

The repository holds four independent programs: a REST client with a JSON library, an IP
router, a publish/subscribe server, and their helpers. This project models their cores in
Dafny and proves what they are for.

- **JSON** (`CString`, `Utf8`, `JsonString`, `JsonNumber`, `JsonTree`, `JsonPrint`,
  `JsonSerializer`, `JsonParse`, `JsonParser`, `JsonNumeral`, `JsonLiteral`, `JsonGrammar`,
  `JsonLayout`, `JsonRoundTrip`, `JsonComments`, `JsonObject`, `JsonArray`, `JsonPath`,
  `JsonHeap`, `JsonEquals`). Texts are byte sequences; reading one position past the end gives
  the terminator, and no verified function can read further. `Print` and `ParseText` follow
  the code; the class `Parser` with its moving cursor, the two-pass writer on a byte array,
  the in-place comment stripper and the growing arrays are proved against them. What they are
  worth is said without them: `JsonNumeral` and `JsonLiteral` define numerals and string
  literals with their values, `JsonGrammar` whole texts with white space around every token,
  and the reader is proved to take exactly these texts for exactly these values; `JsonLayout`
  says which of the spellings the writer chooses. `JsonHeap` holds objects and arrays as
  linked nodes that dotted paths change in place.
- **Checksum and router** (`Checksum`, `IpHeader`, `Router`). `ip_checksum` with its alignment
  prologue, 64-bit accumulator and deferred carries is proved to be the Internet checksum of
  RFC 1071. On top of it stand the edits that the router makes to a packet in its buffer, and
  `Router.EveryPacketIsServed`, which says byte by byte what becomes of each packet.
- **Routes** (`RouteTable`). The in-place quicksort, the binary search whose key depends on
  the probed entry, and the walk to the longest mask.
- **Broker** (`Broker`, `BrokerServer`). `Broker` is the event loop as a state machine with
  its invariant, its runs, and a reference in which one subscriber is served alone.
  `BrokerServer` has clients and server as objects that change in place; each of its methods
  is one step of the machine.
- **HTTP** (`Http`). The growing buffer with its two searches, and the two loops that read a
  response.

Where the code and what one would expect of it part, the code is modelled as it is, and it is
proved exactly when the two agree:

- `get_best_route` finds the longest match only where overlapping entries share a prefix
  value. `RouteTable.OverlapConditionIsExact` proves that this is exactly the condition under
  which every table made of the entries routes rightly. The program moreover compares the raw
  numbers of `inet_addr`, which on a little-endian host have no contiguous masks. For masks of
  any shape `RouteTable.RouteConditionIsExact` gives the exact condition for each destination,
  on pairs and triples of entries; `RouteTable.RawNumbersMiss` is a table of raw numbers that
  fails it.
- The router's checksum test refuses valid headers whose field is all ones
  (`IpHeader.StampedIff`, `Router.LostIff`), and the ICMP checksum covers eight bytes only
  (`Router.IcmpChecksumCoversTheHeaderOnly`, `Router.EchoReplyIsRightIff`).
- `ip_checksum` returns zero for data of zeros, where RFC 1071 gives FFFF, because its
  accumulator starts at FFFF; `Checksum.InternetChecksum` says so.
- A response longer than its header declares depends on how the stream was cut
  (`Http.CutsAgreeIff`).
- `is_valid_utf8` accepts a string cut inside a character. `Utf8.CutIsAcceptedIff` says exactly
  when its answer is not the validity of the piece, and `Utf8.CutBetweenCharacters` gives the
  test by which a caller can exclude that.
- The two passes over comments do not know of each other: a quotation mark or the start of a
  block comment inside a line comment means something to the first pass. A line comment is
  balanced when that pass, run over it alone, stands outside strings and comments at its end.
  `JsonComments.LineCommentGoesIff` proves that it vanishes in front of every text exactly
  then, and `JsonComments.CommentsReadRightIff` that texts with such line comments are read
  rightly exactly then.
- `is_decimal` refuses `0e5` and its like, which are numerals of RFC 8259
  (`JsonNumeral.LegalIsReadIff`), and a minus that no number follows is read as zero without a
  character being taken (`JsonNumber.LoneMinusIsZero`, `JsonGrammar.NothingTaken`).
- `json_value_equals` has a tolerance for numbers. `JsonEquals.EqualsIffSameMeaning` and
  `JsonEquals.TransitiveIff` say exactly over which numbers it is equality of meaning, and
  over which it is transitive.

## Model

| member | source | states |
|---|---|---|
| `CString.Search` | Client-Web-RestAPI/parson.c:339 | `strstr`: the leftmost occurrence, or none anywhere |
| `Utf8.DecodeEncoded` | Client-Web-RestAPI/parson.c:201-233 | taking the encoding of any code point up to 10FFFF apart gives its length, its continuation bytes and the code point |
| `Utf8.VerifyAcceptsEncodings` | Client-Web-RestAPI/parson.c:216-256 | the sequence check accepts the encoding of every scalar value, with its full length |
| `Utf8.VerifyOnlyEncodings` | Client-Web-RestAPI/parson.c:216-256 | and nothing else: whatever it accepts is the encoding of a scalar value (no overlong form, no surrogate, nothing above 10FFFF) |
| `Utf8.EncodingIsUnique` | Client-Web-RestAPI/parson.c:216-256 | no encoding is a proper prefix of another (RFC 3629 section 3) |
| `Utf8.IsValidUtf8` | Client-Web-RestAPI/parson.c:258-268 | the loop; on a whole string it accepts exactly the concatenations of encodings of scalar values |
| `Utf8.ValidIffScanned` | Client-Web-RestAPI/parson.c:258-268 | the same from any position of a text, both directions |
| `Utf8.AcceptedIffReached` | Client-Web-RestAPI/parson.c:258-268 | for a length that cuts the string: accepted if and only if some valid text reaches the length with its last character |
| `Utf8.CutIsAcceptedIff` | Client-Web-RestAPI/parson.c:258-268 | accepted although the piece is not valid, if and only if the scan has a sequence that starts before the length and ends behind it; a valid piece is always accepted |
| `Utf8.CutBetweenCharacters` | Client-Web-RestAPI/parson.c:258-268 | at the end of the string or in front of a byte that is no continuation, which a caller can test, accepted means valid |
| `Utf8.CutCharacterIsAccepted` | Client-Web-RestAPI/parson.c:258-268 | the smallest case: a string cut inside a character |
| `JsonString.UnescapeEscape` | Client-Web-RestAPI/parson.c:1030-1095 | decoding an escaped string gives it back, for every byte string (NUL and bytes above 7F included) and both slash settings |
| `JsonString.ScanEscaped` | Client-Web-RestAPI/parson.c:559-577 | the scanner stops exactly at the quote written behind an escaped string |
| `JsonString.QuotedStringReadsQuoted` | Client-Web-RestAPI/parson.c:685-694 | reading a written literal anywhere in a text gives the string and the position behind it |
| `JsonString.SkipQuotes` | Client-Web-RestAPI/parson.c:559-577 | the loop finds the first quote that no backslash escapes, and fails at the terminator |
| `JsonString.UnitStaysInside` | Client-Web-RestAPI/parson.c:628-681 | between the quotes that the scanner delimited, no escape and no surrogate pair reaches over the closing quote, whatever follows it |
| `JsonString.ParseUtf16Hex` | Client-Web-RestAPI/parson.c:185-199 | four hexadecimal digits, without reading beyond the terminator |
| `JsonString.StoreUtf8` | Client-Web-RestAPI/parson.c:589-615 | the shifts and masks store exactly the UTF-8 encoding of the code point and nothing else |
| `JsonString.ReadCodePoint` | Client-Web-RestAPI/parson.c:579-618 | a code unit outside the surrogates, or a lead and a trail surrogate combined as in RFC 2781 section 2.2, else failure |
| `JsonString.ParseUtf16` | Client-Web-RestAPI/parson.c:579-623 | both cursors after one escape, and the buffer changed by exactly its encoding |
| `JsonString.ProcessUnit` | Client-Web-RestAPI/parson.c:638-665 | one round: one character or escape is appended, and the output never overtakes the input |
| `JsonString.ProcessString` | Client-Web-RestAPI/parson.c:628-681 | decodes what the scanner delimited into a buffer of the input size plus one, without overrunning it; fails where RFC 8259 section 7 allows no such literal |
| `JsonString.GetQuotedString` | Client-Web-RestAPI/parson.c:685-694 | scanner and decoder together: the string and the position behind the closing quote |
| `JsonString.UnescapeKeepsUtf8` | Client-Web-RestAPI/parson.c:628-681 | a literal whose raw bytes are valid UTF-8 decodes to valid UTF-8 |
| `JsonNumber.IsDecimal` | Client-Web-RestAPI/parson.c:270-283 | refuses superfluous leading zeros and any x |
| `JsonNumber.PrintedNumberIsShort` | Client-Web-RestAPI/parson.c:1006-1019 | the text of a number fits the 64-byte scratch buffer of the size pass |
| `JsonNumber.LoneMinusIsZero` | Client-Web-RestAPI/parson.c:859-869 | a literal consumes nothing, and is zero, if and only if it is a minus that no number follows |
| `JsonNumber.MovedAndRefusedIff` | Client-Web-RestAPI/parson.c:863-868 | exactly which literals are refused behind `is_decimal`: `-inf` and `-nan` in all their forms without an `x` |
| `JsonParse.ParsedIsWellFormed` | Client-Web-RestAPI/parson.c:696-719 | every accepted value is well formed: names without NUL and pairwise different, no node inside more than 2048 containers |
| `JsonParse.ParsedMembersAreWellFormed` | Client-Web-RestAPI/parson.c:740-782 | the same for the loop over members |
| `JsonParse.ParsedItemsAreWellFormed` | Client-Web-RestAPI/parson.c:803-828 | the same for the loop over items |
| `JsonParse.ParseTextIsWellFormed` | Client-Web-RestAPI/parson.c:1139-1147 | the same for every text whatsoever |
| `JsonParse.NothingAtTheEnd` | Client-Web-RestAPI/parson.c:740 | at the end of the text neither loop finds anything more, so leaving the loop at the terminator and failing inside it are the same |
| `JsonParser.Parser.SkipWhitespaces` | Client-Web-RestAPI/parson.c:52 | the cursor goes to the first character that is no white space |
| `JsonParser.Parser.ParseValue` | Client-Web-RestAPI/parson.c:696-719 | the recursive descent with one cursor does what the specification does, terminates on every text, and never reads beyond the terminator |
| `JsonParser.Parser.ParseScalar` | Client-Web-RestAPI/parson.c:706-718 | strings, words and numbers |
| `JsonParser.Parser.ParseNumberValue` | Client-Web-RestAPI/parson.c:859-869 | the value of the literal; the cursor goes behind every literal that `is_decimal` lets pass, even where an infinity is refused after that |
| `JsonParser.Parser.ParseMember` | Client-Web-RestAPI/parson.c:741-767 | a key without NUL, a colon and a value go into the object, unless the name is there already |
| `JsonParser.Parser.MemberRound` | Client-Web-RestAPI/parson.c:740-774 | one round of the loop, and that the cursor advanced |
| `JsonParser.Parser.ParseObjectValue` | Client-Web-RestAPI/parson.c:721-783 | the loop over members |
| `JsonParser.Parser.CloseObject` | Client-Web-RestAPI/parson.c:775-782 | behind the loop: the brace is taken and the arrays are trimmed without losing a member |
| `JsonParser.Parser.ItemRound` | Client-Web-RestAPI/parson.c:803-820 | one round of the loop; termination rests on the comma because an item may consume nothing |
| `JsonParser.Parser.ParseArrayValue` | Client-Web-RestAPI/parson.c:785-829 | the loop over items |
| `JsonParser.Parser.CloseArray` | Client-Web-RestAPI/parson.c:821-828 | the same for the bracket and the items |
| `JsonParser.ParseString` | Client-Web-RestAPI/parson.c:1139-1147 | the value at the front of the text, behind a byte order mark; it is well formed |
| `JsonNumeral.NumeralIsRead` | Client-Web-RestAPI/parson.c:859-869 | a numeral with a sign, digits before and behind a point and an exponent of either sign is read, wherever it stands, as the number it denotes, to its end; digits count by their places, and powers of ten are multiplied out |
| `JsonNumeral.ReadIsNumeral` | Client-Web-RestAPI/parson.c:859-869 | whatever is read as a number, unless nothing is consumed, is such a numeral |
| `JsonNumeral.LegalIsReadIff` | Client-Web-RestAPI/parson.c:270-283 | a numeral of RFC 8259 section 6 is refused if and only if it is a lone zero with an exponent directly behind it, as `0e5` |
| `JsonNumeral.HexadecimalIsRefused` | Client-Web-RestAPI/parson.c:864 | a literal `0x` with a hexadecimal digit behind it is refused, with a minus or without; with anything else behind it the zero is read |
| `JsonNumeral.InfinityIsRefused` | Client-Web-RestAPI/parson.c:863-868 | `-inf` and `-infinity` in letters of either case are refused, and how much of them `strtod` has consumed |
| `JsonNumeral.NotANumberIsRefused` | Client-Web-RestAPI/parson.c:863-868 | the same for `-nan` with characters in parentheses |
| `JsonNumeral.ValueIsDigitsValue` | Client-Web-RestAPI/parson.c:863 | a run of digits is worth the sum of its digits times the powers of ten of their places |
| `JsonLiteral.CharIsDecoded` | Client-Web-RestAPI/parson.c:579-665 | every spelled character decodes to its bytes: four hexadecimal digits in either case, computed by division, to the UTF-8 of the code point, and a pair D800 + k / 400, DC00 + k % 400 (RFC 2781 section 2.1) to that of 10000 + k |
| `JsonLiteral.DecodedIsChar` | Client-Web-RestAPI/parson.c:579-665 | and what is decoded is a character of RFC 8259 section 7 so spelled |
| `JsonLiteral.LiteralIsRead` | Client-Web-RestAPI/parson.c:685-694 | every literal, wherever it stands, is read as the bytes that it spells, to its closing quote |
| `JsonLiteral.ReadIsLiteral` | Client-Web-RestAPI/parson.c:685-694 | whatever is read as a string is a literal that spells it |
| `JsonGrammar.SpelledIsRead` | Client-Web-RestAPI/parson.c:696-830 | any spelling of a value, with runs of white space around every token and anything behind it, is read as that value to its end; it is refused if and only if the value is not well formed there |
| `JsonGrammar.SpacedIsRead` | Client-Web-RestAPI/parson.c:696-699 | the same for a value between white space, and where the cursor stands behind it |
| `JsonGrammar.ItemsAreRead` | Client-Web-RestAPI/parson.c:803-828 | the items of an array, from any of them on, with those read before |
| `JsonGrammar.EntriesAreRead` | Client-Web-RestAPI/parson.c:740-782 | the members of an object, from any of them on: all of them in order, or nothing when one does not fit to those before |
| `JsonGrammar.ReadIsSpelled` | Client-Web-RestAPI/parson.c:696-830 | whatever is read, and more than nothing, is a spelling of the value behind white space |
| `JsonGrammar.NothingTaken` | Client-Web-RestAPI/parson.c:859-869 | the one value read without a character is zero, in front of a minus |
| `JsonGrammar.WellFormedIff` | Client-Web-RestAPI/parson.c:696-699 | well formed is: no part inside more than 2048 containers, names of an object different and without NUL |
| `JsonGrammar.SpelledTextIsRead` | Client-Web-RestAPI/parson.c:1139-1147 | every text of the grammar, with a byte order mark or not and whatever follows, is read as its value, and refused exactly for its names or its nesting |
| `JsonGrammar.ReadTextIsSpelled` | Client-Web-RestAPI/parson.c:1139-1147 | and every text that is read is one of the grammar, apart from the lone minus |
| `JsonLayout.ValuePrinted` | Client-Web-RestAPI/parson.c:891-1111 | the text written is the spelling of the value with this layout: compact without white space outside literals; pretty with every element on a line of its own behind four spaces for each level and one space behind a colon; a slash with a backslash if and only if the setting says so; short escapes where RFC 8259 has them and lower-case digits otherwise |
| `JsonLayout.CharsWritten` | Client-Web-RestAPI/parson.c:1030-1095 | the same for the characters of a string |
| `JsonLayout.NumberWritten` | Client-Web-RestAPI/parson.c:1006-1019 | a printable number is written as the plain decimal numeral that denotes it |
| `JsonLayout.ParseNumberOfPrinted` | Client-Web-RestAPI/parson.c:859-869 | reading a printed integer gives its value and stops behind the last digit |
| `JsonRoundTrip.ParsePrinted` | Client-Web-RestAPI/parson.c:696-719 | a value printed anywhere in a text, at any level and nesting, is read back with the cursor at its end, or refused if it is not well formed there |
| `JsonRoundTrip.RoundTrip` | Client-Web-RestAPI/parson.c:891-1028 | parse after print is the identity on every well-formed tree of integers: any level, compact or pretty, either slash setting, cursor at the end |
| `JsonRoundTrip.NormalForm` | Client-Web-RestAPI/parson.c:1139-1147 | writing what was read is a normal form: reading and writing it again changes nothing |
| `JsonRoundTrip.PrintIsInjective` | Client-Web-RestAPI/parson.c:891-1028 | no two trees share a text, whatever the levels and styles |
| `JsonSerializer.AppendString` | Client-Web-RestAPI/parson.c:1106-1111 | only counts without a buffer, otherwise writes the text and a NUL |
| `JsonSerializer.Append` | Client-Web-RestAPI/parson.c:881-884 | what the macro adds to the text so far and to the total |
| `JsonSerializer.AppendIndent` | Client-Web-RestAPI/parson.c:1097-1104 | four spaces for each level |
| `JsonSerializer.SerializeString` | Client-Web-RestAPI/parson.c:1030-1095 | the count equals the length of the escaped text, and the bytes are that text |
| `JsonSerializer.SerializeValue` | Client-Web-RestAPI/parson.c:891-1028 | with and without a buffer the same count; the bytes are the specified text; no byte before it and at most the NUL behind it changes |
| `JsonSerializer.SerializeItem` | Client-Web-RestAPI/parson.c:910-929 | one round of the loop over an array |
| `JsonSerializer.SerializeArray` | Client-Web-RestAPI/parson.c:903-934 | arrays |
| `JsonSerializer.SerializeMember` | Client-Web-RestAPI/parson.c:942-978 | one round of the loop over an object; looking the value up by name finds the member itself |
| `JsonSerializer.SerializeObject` | Client-Web-RestAPI/parson.c:935-983 | objects |
| `JsonSerializer.SerializationSize` | Client-Web-RestAPI/parson.c:1539-1543 | length of the text plus one |
| `JsonSerializer.SerializeToBuffer` | Client-Web-RestAPI/parson.c:1545-1556 | succeeds if and only if the buffer has that size; then it holds text and NUL and the rest is unchanged, otherwise nothing changed |
| `JsonSerializer.SerializeToString` | Client-Web-RestAPI/parson.c:1580-1597 | a buffer of exactly the computed size holds the text and its NUL |
| `JsonComments.StripOnlyBlanks` | Client-Web-RestAPI/parson.c:318-351 | nothing moves, and a byte either stays or becomes a space |
| `JsonComments.StripBlanksTheComments` | Client-Web-RestAPI/parson.c:327-350 | for every text cut into literals, comments, escaped quotation marks and other characters: exactly the comments become spaces, and no byte of a literal changes |
| `JsonComments.StripBehind` | Client-Web-RestAPI/parson.c:318-351 | what lies in front of the cursor plays no part in the pass and stays as it is |
| `JsonComments.UnclosedCommentKeepsItsText` | Client-Web-RestAPI/parson.c:339-342 | a comment that is never closed loses its opening token only |
| `JsonComments.StripKeepsSerializedText` | Client-Web-RestAPI/parson.c:318-351 | serializer output passes unchanged, even with unescaped slashes in strings |
| `JsonComments.RoundTripWithComments` | Client-Web-RestAPI/parson.c:1149-1162 | reading serialized text as text with comments gives the value back |
| `JsonComments.BlocksOverALine` | Client-Web-RestAPI/parson.c:327-350 | where the first pass leaves a line outside block comments, it treats line and rest apart, the rest in the state that the line leaves |
| `JsonComments.BothKindsOfCommentsAreBlanked` | Client-Web-RestAPI/parson.c:1156-1159 | for every text whose line comments are balanced, exactly the comments of both kinds become spaces |
| `JsonComments.LineCommentGoesIff` | Client-Web-RestAPI/parson.c:1156-1157 | a line comment vanishes in front of every text if and only if it is balanced |
| `JsonComments.CommentsReadRightIff` | Client-Web-RestAPI/parson.c:1149-1162 | for any set of line comments: all texts with these are read as the same texts with all comments blanked, if and only if each of them is balanced |
| `JsonComments.UnbalancedMisreads` | Client-Web-RestAPI/parson.c:1149-1162 | for each line comment that is not balanced one of three short texts behind it is misread |
| `JsonComments.QuietLineIsBalanced` | Client-Web-RestAPI/parson.c:327-334 | a line comment without quotation marks and openings of block comments is balanced, with backslashes or not |
| `JsonComments.OpenCommentSwallows` | Client-Web-RestAPI/parson.c:334-347 | a block comment left open by a line takes what follows up to its closing token |
| `JsonComments.LoneQuoteKeepsBlockComments` | Client-Web-RestAPI/parson.c:332-334 | a string left open by a line comment: no block comment behind the line goes away, when no unescaped quotation mark follows in the rest of the text |
| `JsonComments.BlankCommentInPlace` | Client-Web-RestAPI/parson.c:334-347 | the comment branch, in the buffer |
| `JsonComments.StripRound` | Client-Web-RestAPI/parson.c:327-350 | one round of the loop: cursor, flags and buffer |
| `JsonComments.RemoveComments` | Client-Web-RestAPI/parson.c:318-351 | the pass over the copy of a C string does what the specification does and keeps the terminator its only NUL |
| `JsonObject.AddRefinesMap` | Client-Web-RestAPI/parson.c:374-397 | adding fails exactly for a known name and otherwise is a map update |
| `JsonObject.SetRefinesMap` | Client-Web-RestAPI/parson.c:1824-1843 | setting fails exactly for a value with a parent and otherwise is a map update |
| `JsonObject.RemoveRefinesMap` | Client-Web-RestAPI/parson.c:443-464 | removing (the last member takes the place) fails exactly for an unknown name and otherwise is a map removal |
| `JsonObject.RunRefinesMap` | Client-Web-RestAPI/parson.c:374-464 | over every sequence of operations: same answers as the map, distinct names, count equal to the size of the map |
| `JsonObject.MapSize` | Client-Web-RestAPI/parson.c:1230-1232 | with distinct names the count is the size of the map |
| `JsonObject.GetIsMapLookup` | Client-Web-RestAPI/parson.c:429-441 | lookup by name is lookup in the map |
| `JsonObject.ObjectBuffer.constructor` | Client-Web-RestAPI/parson.c:354-365 | an empty object without arrays |
| `JsonObject.ObjectBuffer.GetN` | Client-Web-RestAPI/parson.c:429-441 | the loop finds the first member of that name |
| `JsonObject.ObjectBuffer.Resize` | Client-Web-RestAPI/parson.c:399-427 | new arrays with the same members; fails for capacity zero without a change |
| `JsonObject.ObjectBuffer.MakeRoom` | Client-Web-RestAPI/parson.c:382-387 | a full object doubles, any other stays |
| `JsonObject.ObjectBuffer.AddN` | Client-Web-RestAPI/parson.c:374-397 | refuses a known name, doubles a full object, and appends |
| `JsonObject.ObjectBuffer.Drop` | Client-Web-RestAPI/parson.c:455-460 | the last entry moves into the gap |
| `JsonObject.ObjectBuffer.RemoveInternal` | Client-Web-RestAPI/parson.c:443-464 | the loop removes the member of that name, or nothing changes |
| `JsonObject.ObjectBuffer.SetValue` | Client-Web-RestAPI/parson.c:1824-1843 | replaces in place or appends; a value with a parent changes nothing |
| `JsonObject.ObjectBuffer.Clear` | Client-Web-RestAPI/parson.c:2000-2011 | no members, same capacity |
| `JsonArray.ArrayBuffer.Resize` | Client-Web-RestAPI/parson.c:518-534 | new storage, same items |
| `JsonArray.ArrayBuffer.Add` | Client-Web-RestAPI/parson.c:505-516 | appends, doubling a full array first |
| `JsonPath.DotGetFollowsSegments` | Client-Web-RestAPI/parson.c:1197-1204 | reading by dotted name is reading along the list of its segments |
| `JsonPath.DotSetFollowsSegments` | Client-Web-RestAPI/parson.c:1890-1930 | setting by dotted name is setting along the list of its segments |
| `JsonPath.DotRemoveFollowsSegments` | Client-Web-RestAPI/parson.c:466-479 | removing likewise |
| `JsonPath.DotSetNeedsNoParent` | Client-Web-RestAPI/parson.c:1827 | a value that sits in a tree already is never set |
| `JsonPath.PathSetSucceedsIff` | Client-Web-RestAPI/parson.c:1890-1930 | a set succeeds if and only if the value has no parent and no proper prefix of the path reads a non-object |
| `JsonPath.PathSetThenGet` | Client-Web-RestAPI/parson.c:1890-1930 | after a set the path reads the value, longer paths read inside it, and paths apart from it read what they read before |
| `JsonPath.PathSetKeepsUniqueNames` | Client-Web-RestAPI/parson.c:1890-1930 | every object of the tree keeps distinct names |
| `JsonPath.PathRemoveThenGet` | Client-Web-RestAPI/parson.c:466-479 | a remove succeeds if and only if the path reads something; then it reads nothing, and paths apart from it are unchanged |
| `JsonPath.DotSetThenDotGet` | Client-Web-RestAPI/parson.c:1890-1930 | the same laws for dotted names: set, then get |
| `JsonPath.DotRemoveThenDotGet` | Client-Web-RestAPI/parson.c:466-479 | and remove, then get |
| `JsonHeap.Node.SetValue` | Client-Web-RestAPI/parson.c:1824-1843 | on the linked tree: the value is the node under that name and has its parent; or nothing changed |
| `JsonHeap.Node.AddN` | Client-Web-RestAPI/parson.c:374-397 | on the linked tree: a known name changes nothing, otherwise the value is linked at the end and has its parent |
| `JsonHeap.Node.Append` | Client-Web-RestAPI/parson.c:505-516 | on the linked tree: the value is linked at the end of the array and has its parent |
| `JsonHeap.Node.DotSetValue` | Client-Web-RestAPI/parson.c:1890-1930 | the in-place set does what the law above speaks of, and the path then leads to that very node, which has its parent; where it fails, no node of the tree and not the value has changed |
| `JsonHeap.Node.DotSetInNewChild` | Client-Web-RestAPI/parson.c:1913-1929 | the missing object is built first and linked in only when that worked |
| `JsonHeap.Node.DotSetInChild` | Client-Web-RestAPI/parson.c:1905-1912 | the recursive call into an existing child; a non-object is not overwritten |
| `JsonHeap.SetGetSet` | Client-Web-RestAPI/parson.c:1827 | three calls together: the getter gives back the node that was set, and setting that node again anywhere is refused |
| `JsonHeap.Node.DotRemoveValue` | Client-Web-RestAPI/parson.c:466-479 | the in-place remove; where it fails, nothing has changed |
| `JsonHeap.Node.DotRemoveInChild` | Client-Web-RestAPI/parson.c:473-478 | the recursive call of the remove |
| `JsonHeap.Node.DotGetValue` | Client-Web-RestAPI/parson.c:1197-1204 | the node that the path leads to: linked, a valid part of the tree, and standing for the value read |
| `JsonHeap.Node.CopyMember` | Client-Web-RestAPI/parson.c:1497-1510 | one round of the copy of an object: distinct names are what makes the add succeed |
| `JsonHeap.Node.CopyItem` | Client-Web-RestAPI/parson.c:1476-1488 | one round of the copy of an array |
| `JsonHeap.Node.DeepCopy` | Client-Web-RestAPI/parson.c:1459-1537 | only new nodes down to the scalars, through objects and arrays; the same value, members and items in the same order, no parent |
| `JsonEquals.Reflexive` | Client-Web-RestAPI/parson.c:2073-2136 | every tree equals itself |
| `JsonEquals.Symmetric` | Client-Web-RestAPI/parson.c:2073-2136 | with unique names equality is symmetric, although it only looks for the names of the first object |
| `JsonEquals.OrderDoesNotMatter` | Client-Web-RestAPI/parson.c:2101-2116 | objects with the same members in any order are equal |
| `JsonEquals.Transitive` | Client-Web-RestAPI/parson.c:2073-2136 | equality is transitive on trees over numbers none of which is close to two that are not close to each other |
| `JsonEquals.TransitiveIff` | Client-Web-RestAPI/parson.c:2073-2136 | and over no other set of numbers |
| `JsonEquals.NotTransitive` | Client-Web-RestAPI/parson.c:2127-2128 | an instance: three numbers on which it is not transitive |
| `JsonEquals.EqualsIffSameMeaning` | Client-Web-RestAPI/parson.c:2073-2136 | over any set of numbers: equality is having the same abstract value, objects being maps, if and only if no two of the numbers lie within the tolerance |
| `JsonEquals.IntegersEqualIffSameMeaning` | Client-Web-RestAPI/parson.c:2127-2128 | an instance: the integers |
| `Checksum.OcSumIsReducedSum` | Packet-Routing-IP-Eth/skel.c:124-174 | the one's complement sum of RFC 1071 section 1 is the plain sum of words, reduced |
| `Checksum.Sum32IsSum16` | Packet-Routing-IP-Eth/skel.c:143-158 | adding 32-bit words is adding 16-bit words modulo 65535, for every alignment |
| `Checksum.Sum16Shifted` | Packet-Routing-IP-Eth/skel.c:166-170 | starting one byte later multiplies the sum by 256 |
| `Checksum.SwappedSum` | Packet-Routing-IP-Eth/skel.c:168-170 | swapping the bytes takes that shift back |
| `Checksum.FoldAccumulator` | Packet-Routing-IP-Eth/skel.c:160-164 | the folding loop terminates, keeps the sum modulo 65535, and keeps it from becoming zero |
| `Checksum.ReadWord` | Packet-Routing-IP-Eth/skel.c:135-138 | the partial word at either end, high byte first |
| `Checksum.AddWord` | Packet-Routing-IP-Eth/skel.c:145-150 | one word is added; the 64-bit accumulator is the sum so far |
| `Checksum.SumWords` | Packet-Routing-IP-Eth/skel.c:131-158 | partial word, whole words and partial word again, from any of the four alignments |
| `Checksum.NoCarryIsLost` | Packet-Routing-IP-Eth/skel.c:128-158 | up to 2^34 bytes the 64-bit accumulator does not overflow |
| `Checksum.IpChecksum` | Packet-Routing-IP-Eth/skel.c:124-174 | prologue, word loop, tail, folding and swap compute the Internet checksum of any data up to 2^34 bytes |
| `Checksum.ComputedIsInternetChecksum` | Packet-Routing-IP-Eth/skel.c:124-174 | the same as a statement about the computed value |
| `Checksum.AlignmentDoesNotMatter` | Packet-Routing-IP-Eth/skel.c:131-170 | all four start addresses give the same checksum |
| `Checksum.LostCarry` | Packet-Routing-IP-Eth/skel.c:128-158 | the bound is sharp: one word more of ones and the result is wrong |
| `IpHeader.StampedIsValid` | Packet-Routing-IP-Eth/router.c:186-187 | storing the checksum of a header with its field zeroed makes the sum over the header FFFF, unless it is zero throughout |
| `IpHeader.StampedIff` | Packet-Routing-IP-Eth/router.c:262-266 | the headers that the router's own test accepts: the valid ones whose field is not FFFF, and the header of zeros |
| `IpHeader.ValidButRefused` | Packet-Routing-IP-Eth/router.c:262-266 | a header of twenty bytes that is valid by RFC 1071 and fails the test |
| `IpHeader.ExchangeKeepsOcSum` | Packet-Routing-IP-Eth/router.c:213-215 | exchanging two fields at even distance does not change the sum |
| `RouteTable.AndIsBitwise` | Packet-Routing-IP-Eth/router.c:99 | the conjunction used for masks is the bitwise one |
| `RouteTable.MaskingIsMonotone` | Packet-Routing-IP-Eth/router.c:103 | masking with ones followed by zeros keeps the order of addresses |
| `RouteTable.MaskTwice` | Packet-Routing-IP-Eth/router.c:99 | masking with a longer and then with a shorter mask is masking with the shorter |
| `RouteTable.Swap` | Packet-Routing-IP-Eth/router.c:45-62 | the two entries change places, field by field |
| `RouteTable.Partition` | Packet-Routing-IP-Eth/router.c:64-82 | smaller entries in front of the pivot, the rest behind it, and only the range is rearranged |
| `RouteTable.Quicksort` | Packet-Routing-IP-Eth/router.c:84-91 | prefix ascending and mask descending in the range, a permutation of it, nothing else changed; terminates |
| `RouteTable.BinarySearch` | Packet-Routing-IP-Eth/router.c:93-111 | what is found matches, on every table |
| `RouteTable.WalkLeft` | Packet-Routing-IP-Eth/router.c:121-127 | the walk ends at an entry that matches and has no longer match on its left |
| `RouteTable.GetBestRoute` | Packet-Routing-IP-Eth/router.c:113-129 | on any table an answer other than -1 is an entry that matches the destination |
| `RouteTable.ProbeSendsTowards` | Packet-Routing-IP-Eth/router.c:99-107 | a probe that misses sends the search towards every entry that matches |
| `RouteTable.SearchFinds` | Packet-Routing-IP-Eth/router.c:93-111 | the search finds an entry if one matches |
| `RouteTable.WalkEndsAtTheLongest` | Packet-Routing-IP-Eth/router.c:121-128 | no entry with the same prefix matches with a longer mask than the one where the walk stops |
| `RouteTable.LookupIsLongestMatch` | Packet-Routing-IP-Eth/router.c:113-129 | for one destination: longest match, or -1 exactly when nothing matches, if no prefix lies between a matching one and the destination (sufficient; the exact condition is `RouteConditionIsExact`) |
| `RouteTable.LongestPrefixMatch` | Packet-Routing-IP-Eth/router.c:113-129 | for every destination, on a sorted table without duplicates where overlapping entries share their prefix |
| `RouteTable.OverlapConditionIsExact` | Packet-Routing-IP-Eth/router.c:93-129 | that condition holds if and only if every table made of these entries routes every destination rightly |
| `RouteTable.OverlappingPairIsWrong` | Packet-Routing-IP-Eth/router.c:93-129 | two nested entries with different prefixes already misroute |
| `RouteTable.FittingTableIsRight` | Packet-Routing-IP-Eth/router.c:93-129 | for masks of any shape: where every two and every three entries fit, the lookup is a longest match |
| `RouteTable.RouteConditionIsExact` | Packet-Routing-IP-Eth/router.c:93-129 | for masks of any shape and each destination: every two and every three entries fit if and only if every table made of these entries routes it rightly |
| `RouteTable.TableConditionIsExact` | Packet-Routing-IP-Eth/router.c:93-129 | the same for all destinations together |
| `RouteTable.ProperEntriesFitIff` | Packet-Routing-IP-Eth/router.c:93-129 | with masks of ones followed by zeros, fitting is what the overlap condition says |
| `RouteTable.SearchConditionIsExact` | Packet-Routing-IP-Eth/router.c:93-111 | when the search finds some entry wherever one matches: an exact condition of its own on pairs and triples |
| `RouteTable.SortedTableIsDrawn` | Packet-Routing-IP-Eth/router.c:145 | sorting keeps the entries and their freedom from duplicates |
| `RouteTable.SortedTableRoutes` | Packet-Routing-IP-Eth/router.c:145 | a table in any order, with masks of any shape, once sorted routes every destination for which its entries fit |
| `RouteTable.SortedProperTableRoutes` | Packet-Routing-IP-Eth/router.c:145 | and every destination, if overlapping entries share their prefix |
| `RouteTable.RawMasksGrow` | Packet-Routing-IP-Eth/router.c:34-37 | on a little-endian host, too, a longer mask is a greater number |
| `RouteTable.RawNumbersMiss` | Packet-Routing-IP-Eth/router.c:34-37 | on the raw numbers that a little-endian host compares, two disjoint entries do not fit, and their table misses a route: an instance of the exact condition |
| `Router.StampStamps` | Packet-Routing-IP-Eth/router.c:186-189 | a field that was just computed passes the test that recomputes it |
| `Router.StampingTwice` | Packet-Routing-IP-Eth/router.c:262-266 | recomputing changes nothing if and only if the field was right |
| `Router.SwapCommutesWithStamp` | Packet-Routing-IP-Eth/router.c:210-215 | swapping the addresses before or after computing the checksum gives the same packet |
| `Router.EchoReplyContents` | Packet-Routing-IP-Eth/router.c:172-190 | both checksums right, hosts and addresses exchanged, type 0, time to live 64, every other byte kept |
| `Router.UnreachableContents` | Packet-Routing-IP-Eth/router.c:197-221 | the same for type 3 code 0 and the new length and protocol, although the addresses move after the checksum |
| `Router.TimeExceededContents` | Packet-Routing-IP-Eth/router.c:227-256 | the same for type 11; the code and the four bytes behind the checksum keep what they held |
| `Router.IcmpChecksumCoversTheHeaderOnly` | Packet-Routing-IP-Eth/router.c:189 | over the whole ICMP message the checksum is right exactly when the data behind the header sum to zero |
| `Router.EchoReplyIsRightIff` | Packet-Routing-IP-Eth/router.c:172-190 | for the request that arrives: the checksum of the reply is right over the whole message exactly when the data of the request sum to zero |
| `Router.EchoReplyWithWrongChecksum` | Packet-Routing-IP-Eth/router.c:172-190 | requests whose reply has a wrong checksum |
| `Router.HopContents` | Packet-Routing-IP-Eth/router.c:267-270 | forwarding changes only the time to live and the checksum, and leaves a valid header |
| `Router.HopAddsToTheChecksum` | Packet-Routing-IP-Eth/router.c:267-270 | the new checksum is the old one plus 256 in one's complement (RFC 1141) |
| `Router.HopsCollapse` | Packet-Routing-IP-Eth/router.c:267-270 | many hops equal one with the final time to live |
| `Router.EveryRouterAccepts` | Packet-Routing-IP-Eth/router.c:262-270 | along a path of such routers every test passes while the time to live lasts, and the rest of the packet is unchanged |
| `Router.ExchangeInPlace` | Packet-Routing-IP-Eth/router.c:175-179 | two fields change places by way of a copy |
| `Router.StampInPlace` | Packet-Routing-IP-Eth/router.c:186-187 | zero, compute, store, at any alignment of the buffer |
| `Router.EchoReplyInPlace` | Packet-Routing-IP-Eth/router.c:172-190 | the edits in the buffer give the specified reply |
| `Router.UnreachableInPlace` | Packet-Routing-IP-Eth/router.c:197-221 | the same |
| `Router.TimeExceededInPlace` | Packet-Routing-IP-Eth/router.c:227-256 | the same |
| `Router.ForwardInPlace` | Packet-Routing-IP-Eth/router.c:262-270 | passes exactly the packets whose checksum recomputes to itself |
| `Router.Handle` | Packet-Routing-IP-Eth/router.c:159-270 | the order of the tests: echo request to the own address, no route, expired, checksum |
| `Router.SentHeadersAreValid` | Packet-Routing-IP-Eth/router.c:159-270 | whatever arrives, every packet that is sent has a valid IP header that the next router accepts, with a positive time to live |
| `Router.ForwardedToAMatchingRoute` | Packet-Routing-IP-Eth/router.c:195-272 | on any table: forwarded only to a matching entry, dropped only for a bad checksum |
| `Router.LostIff` | Packet-Routing-IP-Eth/router.c:262-266 | of the packets with a route and a time to live exactly those are lost whose header is not valid or spells a zero checksum as all ones |
| `Router.ValidPacketIsLost` | Packet-Routing-IP-Eth/router.c:262-266 | a packet with a valid header that is lost |
| `Router.RoutedByLongestPrefix` | Packet-Routing-IP-Eth/router.c:195-272 | on a proper table: unreachable exactly where nothing matches, onward by the longest match |
| `Router.EveryPacketIsServed` | Packet-Routing-IP-Eth/router.c:165-277 | byte by byte: an echo request for the own address is answered with type 0, a destination (bytes 30 to 33) that no entry is for with type 3 code 0, a time to live of at most 1 with type 11, all of them back to the sender with good checksums; anything else goes to the longest match with only time to live and checksum changed, or is lost exactly where the test of the checksum fails |
| `Router.ProperTableAnswers` | Packet-Routing-IP-Eth/router.c:84-129 | tables as the search needs them give every destination the longest match, or rightly none |
| `Broker.WithTopicRefinesMap` | Client-Server-TCP-UDP/helpers.cpp:96-117 | a list of distinct topics refines a map: subscribing sets one key |
| `Broker.WithoutTopicRefinesMap` | Client-Server-TCP-UDP/helpers.cpp:119-146 | and unsubscribing removes one |
| `Broker.ConnectKeepsInvariant` | Client-Server-TCP-UDP/server.cpp:90-131 | accepting or refusing a connection keeps the invariant |
| `Broker.DisconnectKeepsInvariant` | Client-Server-TCP-UDP/server.cpp:186-195 | closing one keeps it |
| `Broker.TopicsKeepInvariant` | Client-Server-TCP-UDP/server.cpp:202-211 | changing one client's topics keeps it |
| `Broker.PublishKeepsInvariant` | Client-Server-TCP-UDP/server.cpp:144-162 | publishing keeps it |
| `Broker.StepKeepsInvariant` | Client-Server-TCP-UDP/server.cpp:85-215 | every event keeps it, and commands always come from a socket with a client |
| `Broker.InvariantById` | Client-Server-TCP-UDP/server.cpp:66-70 | ids distinct, one socket for each online client and none for the others, pending messages only for the others, as lookups see it |
| `Broker.Run` | Client-Server-TCP-UDP/server.cpp:77-215 | every state that a run reaches satisfies the invariant |
| `Broker.StepAgrees` | Client-Server-TCP-UDP/server.cpp:85-215 | one event does to each subscriber what it would do if that one were alone |
| `Broker.ServedAsIfAlone` | Client-Server-TCP-UDP/server.cpp:77-215 | over every run each id is sent the same messages in the same order, and holds the same, as in a reference where it is alone |
| `Broker.AloneConserves` | Client-Server-TCP-UDP/server.cpp:144-162 | in that reference what was sent and what is held are together what was due |
| `Broker.ExactlyOnce` | Client-Server-TCP-UDP/server.cpp:77-215 | hence exactly once: sent and pending together are the messages published for the id, as multisets, in every run |
| `Broker.ReconnectFlushes` | Client-Server-TCP-UDP/server.cpp:113-123 | a reconnect sends everything that waited, newest first, and leaves nothing |
| `Broker.RunsGoOn` | Client-Server-TCP-UDP/server.cpp:73-100 | which runs there are: a message at any time, a connection of a socket that is not open, a command of a client that is connected |
| `Broker.ConnectionAnswered` | Client-Server-TCP-UDP/server.cpp:100-130 | a connection under an id that is at some socket is told the four characters `exit` and nothing changes; any other one gets its socket |
| `Broker.OnlyClientsAreWrittenTo` | Client-Server-TCP-UDP/server.cpp:142-152 | apart from that only a publication writes, once to each socket whose client is subscribed |
| `BrokerServer.Client.AddTopic` | Client-Server-TCP-UDP/helpers.cpp:96-117 | the search and the update or prepend |
| `BrokerServer.Client.RemoveTopic` | Client-Server-TCP-UDP/helpers.cpp:119-146 | head case and search |
| `BrokerServer.Client.CheckSubscription` | Client-Server-TCP-UDP/helpers.cpp:290-299 | true exactly for a subscribed topic |
| `BrokerServer.Client.CheckSfActive` | Client-Server-TCP-UDP/helpers.cpp:275-288 | true exactly for a subscribed topic with the flag |
| `BrokerServer.Client.Flush` | Client-Server-TCP-UDP/server.cpp:114-123 | everything pending in list order, and the list is empty |
| `BrokerServer.Client.Keep` | Client-Server-TCP-UDP/server.cpp:156-160 | a client that is away and asked for it gets the message in front |
| `BrokerServer.Server.CheckUniqueId` | Client-Server-TCP-UDP/helpers.cpp:252-260 | true exactly when no online client has the id |
| `BrokerServer.Server.GetClient` | Client-Server-TCP-UDP/helpers.cpp:172-182 | the first client with that id, or null |
| `BrokerServer.Server.AddClientToClients` | Client-Server-TCP-UDP/helpers.cpp:148-170 | a known client comes online, an unknown one is put in front, and the socket leads to it |
| `BrokerServer.Server.Accept` | Client-Server-TCP-UDP/server.cpp:102-123 | the accepting branch on the objects |
| `BrokerServer.Server.Connect` | Client-Server-TCP-UDP/server.cpp:90-131 | the step of the machine, invariant kept |
| `BrokerServer.Server.Drop` | Client-Server-TCP-UDP/server.cpp:188-195 | the closing branch on the objects |
| `BrokerServer.Server.Disconnect` | Client-Server-TCP-UDP/server.cpp:186-195 | the step of the machine, invariant kept |
| `BrokerServer.Server.Subscribe` | Client-Server-TCP-UDP/server.cpp:202-206 | the step of the machine, invariant kept |
| `BrokerServer.Server.Unsubscribe` | Client-Server-TCP-UDP/server.cpp:207-211 | the step of the machine, invariant kept |
| `BrokerServer.Server.Broadcast` | Client-Server-TCP-UDP/server.cpp:147-152 | one message to each online subscriber and to nobody else |
| `BrokerServer.Server.KeepForLater` | Client-Server-TCP-UDP/server.cpp:153-162 | every other client is treated by the flag of the topic |
| `BrokerServer.Server.Publish` | Client-Server-TCP-UDP/server.cpp:144-162 | the step of the machine, invariant kept |
| `BrokerServer.Server.Perform` | Client-Server-TCP-UDP/server.cpp:85-215 | every event, as one step of the machine |
| `Http.Buffer.Add` | Client-Web-RestAPI/buffer.c:28-39 | the contents grow by exactly the piece |
| `Http.Buffer.Find` | Client-Web-RestAPI/buffer.c:41-62 | the leftmost occurrence, or -1 when there is none |
| `Http.Buffer.FindInsensitive` | Client-Web-RestAPI/buffer.c:64-85 | the same without regard to case |
| `Http.InsensitiveIsLeftmost` | Client-Web-RestAPI/buffer.c:64-85 | what that finds is the leftmost place where every byte is the same or the same letter in the other case |
| `Http.StrtolReads` | Client-Web-RestAPI/helpers.c:104 | white space, a sign and digits are read as the number that they spell, held within 64 bits |
| `Http.TotalWraps` | Client-Web-RestAPI/helpers.c:108 | a declared length that makes the end of the response negative wraps to a number of 64 bits that no stream reaches |
| `Http.LeftmostInPrefix` | Client-Web-RestAPI/buffer.c:41-62 | a prefix has the leftmost occurrence once that is complete, and no other |
| `Http.ReceiveHead` | Client-Web-RestAPI/helpers.c:80-108 | the first loop |
| `Http.ReceiveFromServer` | Client-Web-RestAPI/helpers.c:73-126 | both loops do what the function of the reads says |
| `Http.HeadRound` | Client-Web-RestAPI/helpers.c:80-108 | on a framed response the first loop goes on exactly until the header is complete, and then has its end and its declared length |
| `Http.ReceivedReaches` | Client-Web-RestAPI/helpers.c:73-126 | the response is made of the fewest reads that reach the declared end, plus one NUL |
| `Http.ChunksDoNotMatter` | Client-Web-RestAPI/helpers.c:73-126 | a response no longer than it declares is received whole, however the stream is cut (RFC 7230 section 3.3.3) |
| `Http.CutsAgreeIff` | Client-Web-RestAPI/helpers.c:109-124 | every two ways of cutting a framed stream agree if and only if it is no longer than it declares |
| `Http.ReadToTheEnd` | Client-Web-RestAPI/helpers.c:100-102 | without a Content-Length the stream is read to its end, however it is cut |
| `Http.OneLineHeaderIsFramed` | Client-Web-RestAPI/helpers.c:93-106 | a header of one line is that of a framed response, whether the body is as long as declared, shorter or longer |
| `Http.LongerThanDeclared` | Client-Web-RestAPI/helpers.c:109-124 | a framed response longer than it declares, of which two cuts disagree |
| `Http.SpelledOut` | Client-Web-RestAPI/helpers.c:93-106 | a header written in small letters, byte by byte, is that of a framed response |

## Left out

- JsonNumeral.NumeralIsRead: numbers are exact reals, so the rounding of `strtod`, its range errors and negative zero are not modelled; infinities are refused as by the program.
- JsonRoundTrip.RoundTrip: numbers with a fraction or an exponent, and integers from 10^17 on, are read but have no specified text.
- JsonSerializer.SerializeValue: counts are unbounded integers; a text longer than an `int` can count is not modelled.
- JsonParser.Parser.ParseValue: trees are values while they are read; nodes in memory are modelled in `JsonHeap` only.
- JsonHeap.Node.DotSetValue: the reverse link to the parent is a flag, not a reference. That a value is not set into its own subtree is a precondition, which the program leaves to its caller, as it does that what it is handed is a tree.
- JsonHeap.Node.DotSetInNewChild: the branch that undoes the inner set is never reached without an allocation failure and is not modelled.
- JsonComments.StripBlanksTheComments: texts whose last literal or comment is not closed are covered by `StripOnlyBlanks` and `UnclosedCommentKeepsItsText` only.
- JsonComments.CommentsReadRightIff: the cut into parts is given, not computed; a line comment at the very end of a text, without a line end, is covered by `UnclosedCommentKeepsItsText` only.
- Checksum.IpChecksum: the start address enters as its remainder modulo four.
- RouteTable.LookupIsLongestMatch: the condition of this lemma is sufficient and not necessary; `RouteTable.RouteConditionIsExact` has the exact one, for all tables of the same entries together. For a single table it also depends on which entries happen to be probed.
- RouteTable.GetBestRoute: the entry in front of the first one, which the program reads, does not exist in the model, so the walk stops at index 0.
- Router.Handle: choosing the next hop, the ARP table and its queue, and ARP packets are not part of this model; neither are interfaces and the Ethernet addresses of forwarded packets.
- Router.TimeExceededContents: the reply does not quote the original packet as RFC 792 wants, because the program does not; the options of an IP header are taken for ICMP bytes, as there.
- Broker.Run: that `accept` delivers a socket that is not open, and that `select` reports only watched sockets, are the conditions `Enabled`; commands come decoded, and a new client starts without topics and pending messages although the program leaves both unset.
- BrokerServer.Server.Broadcast: the order in which different sockets are written in one step is not modelled; each socket's own order is.
- BrokerServer.Server.Connect: the refusal is the text `exit`; the bytes that the program sends behind it, and that the refused socket stays open, are not modelled.
- Http.ReceiveFromServer: sizes beyond an `int` position, and the read past the buffer that `strtol` makes when digits end the received data, are not modelled: digits end where the buffer ends.
- Http.CutsAgreeIff: a Content-Length that occurs only behind the header is followed by the model as by the program, but no law is stated for it.
- Sockets, files, printing, argument parsing, the interactive client and the request builders: input and output only.
- Allocation failure, `free` and pluggable allocators.
- Typed getters and setters, the wrappers around array replacement, `json_array_remove` and `json_validate`: they would only add easy members.
- `decode_message` and `decode_udp_message`: tokenizing and real-valued payloads.
