# The RECS daemon, modelled and proved

The daemon reads the sensors of a compute node and hands them to a management controller through a
message slot in shared memory.  This project models the parts of it that carry state, loops or
arithmetic, and proves what they are for:

- **JSON** (`Json*.dfy`).  The parser consumes its text in place, shares one stack of open brackets among
  four mutually recursive functions and has a scan that runs ahead of them.  `JsonReader` says what each
  function computes (that it is accepted is the proof that parsing ends on every input), `JsonParser` holds
  the methods with the loops of the original, `JsonBrackets` proves the scan against a grammar of typed
  brackets.  `JsonDocument` is JSON as RFC 8259 writes it, with white space, numbers and members in any order;
  `JsonRoundTrip` says what the parser makes of every such document, and `JsonLayout` that white space makes
  no difference.  `JsonSafe` says which values come back from what the writer prints, `JsonWeights` and
  `JsonConverse` why no others do, and `JsonLaws` puts this together.  `JsonStrings` and `JsonScalars` say what
  becomes of single strings, words and numbers, and what is not read or aborts the parser.
- **INI** (`Ini*.dfy`).  `IniStore` is the heap structure, lists of lists with first and last pointers and
  counters; `IniModel` is the ordered map of ordered maps it refines; `IniText` is the file format.
- **Sensors** (`Bytes.dfy`, `Sensor*.dfy`).  The pages that describe the sensors, the data message, the
  group ids, and a receiver that reads both messages.  `SensorBean.dfy` is how a reading is stored.
- **The message slot** (`Segments.dfy`, `Mailbox.dfy`, `MailboxLaws.dfy`, `Daemon.dfy`,
  `CommunicatorDummy.dfy`, `EndToEnd.dfy`).  `Mailbox` is the protocol as a state machine in which the
  management side and resets may move between the daemon's read of a header and what follows; `Daemon` is
  the loop itself over the memory of the dummy communicator, with the bytes it writes; `EndToEnd` puts the
  protocol and the message layout together.
- **TCP** (`TcpFrames.dfy`, `CommunicatorTCP.dfy`).  Frames on a byte stream, and the receive buffer that
  puts them together again from any pieces.

`dafny verify dfyconfig.toml` checks everything.

## Findings

Where the code does less than one would expect, the model keeps the code and the exact condition is proved.

- Serializing escapes nothing, unescaping takes escapes and outer blanks away, and the array reader looks for
  `,` and `]` inside quotes.  So an object or array without floating point, whatever its strings and keys hold,
  comes back from its text (without the nulls in its arrays) if and only if it is `Safe`: strings hold no
  quote, no backslash and no white space at their ends, none is exposed in an array, keys are not empty and
  found between their quotes, and the scan finds the end of every array and object inside
  (`ParseUndoesTextExactlyOnSafe`).  The last holds whenever no key ends in a backslash
  (`ReadableEndIsFound`).  A string in an array may contain `,` or `]` when a `[` or `{` stands before the
  first of them, because the array reader then leaves the whole string to the value parser.  Keys are not
  unescaped, so they may hold escapes (`StringInObjectExactly`).  What comes back of any document is known when
  its strings and keys are found between their quotes, strings decode and inner ends are found (`Plain`,
  `ParsedDocumentIsReadBack`).
- White space around brackets, commas, colons, keys and values makes no difference, except inside an object
  without members: `{ }` is not read, though it is valid (`HollowObjectIsLost`).  A text of a safe value comes
  back if and only if there is no such object in it (`SpacedTextComesBackExactly`).
- An integer that fits 64 bits but not 32 is an error, and one that does not fit 64 is floating point
  (`ScalarInArrayExactly`).
- The parser can start a substring past the end or read the top of an empty stack (`Abort` and `Broken` in
  `JsonReader`), also on valid JSON: the scan for the end of a nested array or object looks only at the
  character before a quote, so an escaped backslash at the end of a string hides the closing quote from it.
  `[["\\"]]` aborts (`EscapedBackslashAborts`), and so does the invalid `[[]` (`UnclosedArrayAborts`).  The scan
  sees strings as the standard does if and only if no quote stands right behind a backslash that does not
  protect it (`RulesAgreeExactly`); a nested value aborts when the scan finds no end for it
  (`NestedAbortsExactly`); a nested string aborts if and only if a backslash stands in front of its closing
  quote (`NestedStringExactly`, `NestedEscapingExactly`).  On the text of a `Plain` document the parser
  never aborts.
- A loaded value loses one carriage return at its end, so loading undoes saving only when no value ends in
  one (`LoadUndoesSaveExactly`).
- The page number has eight bits: with 255 pages the daemon never gets to send data (`DataReachableExactly`).
  It then asks for page 0, for which the original moves its map iterator past the end; here page 0 is written
  like any other.
- A command that is placed after the daemon has read the header of a slot it may write to is overwritten;
  those are the only ones lost (`CommandsAreAccountedFor`, `CommandCanBeLost`).  A command whose size field
  is too large blocks the slot for good.
- A reset inside the write of the basic information or of a page makes the daemon skip a message: it is missing
  from every run up to the next reset (`InnerResetLosesMessage`, and `InnerResetSkipsBasic` for a run); a reset
  inside the write of data does not (`ResetInsideWriteIsFreshExactlyForData`).
- The TCP receiver takes one frame out of its buffer per receive, so of two that arrive together the second
  waits until more bytes come (`SecondOfTwoWaits`, and `EveryReceiveProceeds` for the exact condition).

## Model

| member | source | states |
|---|---|---|
| JsonText.TrimIsIdentityExactlyOnTight | daemon/src/json.cpp:38-47 | trimming leaves a text alone exactly when neither end is one of the six white space characters of C |
| JsonText.TrimFindsTightMiddle | daemon/src/json.cpp:38-47 | white space of RFC 8259 in front of a text goes, and what follows its last other character loses only white space |
| JsonText.GetQuotePos | daemon/src/json.cpp:51-69 | the loop finds the first quote that no unprotected backslash protects |
| JsonText.UnescapeJSONString | daemon/src/json.cpp:687-726 | the loop undoes the escapes and trims; it fails where substr would throw |
| JsonText.EscapedStringReadsBack | daemon/src/json.cpp:687-726 | any escaping of any text under section 7 of RFC 8259, with \u for 0000 to 00FF, quoted and followed by anything: the closing quote is found, and the text without outer blanks comes back |
| JsonText.LegalEscapingIsReadable | daemon/src/json.cpp:687-726 | any legal escaping is found between its quotes and decodes to the text without outer blanks; a backslash stands in front of its closing quote exactly when it ends in an escaped backslash |
| JsonText.UnescapeIsIdentityExactly | daemon/src/json.cpp:687-726 | unescaping leaves a text alone exactly when it holds no escape and has tight ends; an escape makes it shorter |
| JsonText.OtherEscapeVanishes | daemon/src/json.cpp:700-718 | an escape that RFC 8259 does not know is dropped |
| JsonText.CutEscape | daemon/src/json.cpp:709-714 | a \u escape that runs over the end aborts with fewer than two characters behind it, and otherwise stands for the last digit there is, zero if none |
| JsonText.OddHexNumbers | daemon/src/json.cpp:712 | the value of two characters that are not both hexadecimal digits: sign, blank or stop |
| JsonText.IntReadsBack | daemon/src/json.cpp:889-917 | every int printed with %d reads back as itself |
| JsonText.IntTextIsCanonical | daemon/src/json.cpp:510 | an int prints without leading zeros and with no sign but a minus |
| JsonBrackets.BracketStack.Push | daemon/src/json.cpp:741 | the shared stack grows by the bracket |
| JsonBrackets.BracketStack.Pop | daemon/src/json.cpp:662 | the shared stack loses its top and nothing else |
| JsonBrackets.GetEndOfArrayOrObj | daemon/src/json.cpp:632-685 | the scan on the shared stack returns the position and leaves the stack that Scan says |
| JsonBrackets.ScanRefinesGrammar | daemon/src/json.cpp:632-685 | for every text and stack: the position returned closes the caller's bracket in the grammar of typed brackets; npos exactly when a closer of the wrong kind comes first; the length when neither happens; a match pops exactly the caller's entry, entries below it are never touched; quoted brackets do not count, where quoted means what in_quote says, and what RFC 8259 says on texts where the two agree |
| JsonBrackets.RulesAgreeExactly | daemon/src/json.cpp:640-644 | in_quote agrees with quotation as section 7 of RFC 8259 has it if and only if no quote stands right behind a backslash that does not protect it |
| JsonBrackets.ScanMissesClosingBracket | daemon/src/json.cpp:640-644 | on an array with one escaped backslash the scan runs past the bracket that closes it |
| JsonValue.InsertChangesOnePair | daemon/src/json.cpp:1030 | storing under a key changes that pair and no other |
| JsonValue.InsertKeepsSorted | daemon/src/json.h:268 | an object stays a map in key order |
| JsonValue.LessIsDictionaryOrder | daemon/src/json.h:268 | the key order is that of dictionaries |
| JsonWriter.SerializeValue | daemon/src/json.cpp:503-522 | a value prints as the grammar's text for it |
| JsonWriter.SerializeArray | daemon/src/json.cpp:524-542 | the loop prints the elements with commas between brackets |
| JsonWriter.Serialize | daemon/src/json.cpp:544-585 | only objects and arrays are texts; members are printed in key order |
| JsonReader.ReadValue | daemon/src/json.cpp:728-933 | a value never lengthens what is left, and when a bracket comes before any separator it shortens it or fails: the reason why the array loop ends |
| JsonReader.FirstStop | daemon/src/json.cpp:954-993 | where the inner array loop stops: the first bracket or separator, quotes or not |
| JsonReader.LexFailsAtBracket | daemon/src/json.cpp:849-854 | a scalar that runs into an opening bracket is an error |
| JsonParser.DeserializeScalar | daemon/src/json.cpp:784-930 | the scan over a boolean, number or null and its conversion, with its pops of the shared stack |
| JsonParser.DeserializeValue | daemon/src/json.cpp:728-933 | value, error flag, remaining text and stack are those of ReadValue, or it aborts as ReadValue does |
| JsonParser.ReadOneElement | daemon/src/json.cpp:951-993 | the inner loop of the array reader and what it hands to the value parser |
| JsonParser.DeserializeArray | daemon/src/json.cpp:935-997 | value and stack are those of ReadArray, or it aborts as that does |
| JsonParser.ReadKey | daemon/src/json.cpp:1014-1027 | the next key and the text behind its colon, none when a quote or the colon is missing or the key is empty |
| JsonParser.DeserializeObj | daemon/src/json.cpp:999-1036 | value and stack are those of ReadObject, or it aborts as that does |
| JsonParser.DeserializeInternal | daemon/src/json.cpp:592-630 | value and stack are those of ReadWhole, or it aborts as that does |
| JsonParser.Deserialize | daemon/src/json.cpp:1038-1042 | the whole parser returns Parse, on every text |
| JsonPrinted.ScanFindsEnd | daemon/src/json.cpp:632-685 | in front of any tail and above any stack the scan stops at the last character of a printed array or object if and only if it does so on its text alone; the stack is then as it was before the push |
| JsonPrinted.ScalarReadsBack | daemon/src/json.cpp:784-930 | null, booleans and ints read back, leaving exactly the tail and the stack |
| JsonPrinted.StringReadsBack | daemon/src/json.cpp:769-781 | a string found between its quotes is decoded with any tail, or aborts when its escape runs over the end |
| JsonPrinted.NumeralReadsBack | daemon/src/json.cpp:784-868 | every number with a fraction or an exponent is read as floating point of its text, leaving exactly what follows the white space behind it |
| JsonDocument.CompactText | daemon/src/json.cpp:503-585 | what the writer prints is a document without white space |
| JsonDocument.ReadableEndIsFound | daemon/src/json.cpp:632-685 | the scan finds the end of every array or object of which strings and keys are readable, whatever the white space |
| JsonDocument.ReadableIsPlain | daemon/src/json.cpp:728-781 | a document of which strings and keys are readable is one the parser finds its way in |
| JsonRoundTrip.DocumentReadsBack | daemon/src/json.cpp:728-933 | a document of any depth between white space, in front of the end or a comma, in which strings, keys and ends are found, is read as ReadBack says and leaves what follows |
| JsonRoundTrip.ArrayReadsBack | daemon/src/json.cpp:935-997 | the same for the array reader, which splits exposed strings and fails on them |
| JsonRoundTrip.ObjectReadsBack | daemon/src/json.cpp:999-1036 | the same for the object reader, which fails on an empty key and on nothing but white space |
| JsonRoundTrip.WholeReadsBack | daemon/src/json.cpp:592-630 | the same for a whole text, with the stack left as it was when no key is empty and no object hollow |
| JsonRoundTrip.CutStringFails | daemon/src/json.cpp:971-985 | the front part of a quoted string cut at a separator is an error |
| JsonLayout.ScanIgnoresBlanks | daemon/src/json.cpp:632-685 | the scan over any text with white space put in, none of it right behind a backslash, has the verdict and the stack that it has without |
| JsonLayout.StrippedIsPlain | daemon/src/json.cpp:728-781 | white space makes no difference to whether the parser finds its way in a document |
| JsonLayout.StrippedReadsBack | daemon/src/json.cpp:935-1036 | nor to what comes back, unless it stands inside an object without members |
| JsonLaws.ParsedDocumentIsReadBack | daemon/src/json.cpp:592-1042 | for every document, array or object, with any white space, members in any order and repeated, numbers and escapes, in which strings, keys and inner ends are found: parsing does not abort and gives ReadBack, strings decoded and trimmed, keys verbatim |
| JsonLaws.WhiteSpaceDoesNotMatter | daemon/src/json.cpp:592-1042 | such a document without hollow objects is parsed to the same as without its white space |
| JsonLaws.SpacedTextComesBackExactly | daemon/src/json.cpp:544-1042 | for every safe object or array and every text of it with white space of RFC 8259 around brackets, commas, colons, keys and values: the value comes back up to array nulls if and only if no object without members has white space inside |
| JsonLaws.ScalarsAreNoTexts | daemon/src/json.cpp:544-630 | only arrays and objects are printed and read as texts |
| JsonLaws.ParseUndoesTextExactlyOnSafe | daemon/src/json.cpp:544-1042 | for every object or array without floating point, whatever its strings and keys hold: parsing undoes serializing up to array nulls if and only if the value is safe, undoes it altogether if and only if it has no array nulls too, and then leaves any stack as it found it |
| JsonSafe.SafeReadsBack | daemon/src/json.cpp:728-1036 | a safe value is found by the parser and read as it is, but for its array nulls |
| JsonWeights.DecodedWeighs | daemon/src/json.cpp:687-726 | decoding never adds weight (quotes, brackets, c one each, backslashes two), and keeps it only when there is no escape |
| JsonWeights.NeedIsWeight | daemon/src/json.cpp:503-585 | a printed value weighs what its strings, keys and brackets need |
| JsonWeights.ValueConserves | daemon/src/json.cpp:728-933 | for every text: the value read and the text left weigh no more than the text |
| JsonWeights.MembersConserve | daemon/src/json.cpp:1012-1033 | for every text: the object loop adds no more weight than the text has |
| JsonWeights.StoredPairStays | daemon/src/json.cpp:1030 | a pair once stored is in the object that the loop returns, or weight was lost |
| JsonWeights.StoredKeysAreDelimited | daemon/src/json.cpp:1014-1024 | for every text: keys that the object loop stores are not empty and were found between their quotes |
| JsonConverse.StringCameBack | daemon/src/json.cpp:769-781 | a string that came back without loss of weight holds no quote, no backslash and no outer blanks |
| JsonConverse.NestedCameBack | daemon/src/json.cpp:738-768 | a nested value that came back without loss of weight was cut out at its own end |
| JsonConverse.ElementsCameBack | daemon/src/json.cpp:949-994 | elements that came back from their text are safe and not exposed |
| JsonConverse.MembersCameBack | daemon/src/json.cpp:1012-1033 | members that came back from their text are safe |
| JsonConverse.WholeCameBack | daemon/src/json.cpp:592-630 | an object or array that came back from its text is safe |
| JsonConverse.ParsedIsArrayNullFree | daemon/src/json.cpp:963-988 | for every text: no array in what is parsed has a null as an element |
| JsonStrings.StringInObjectExactly | daemon/src/json.cpp:1014-1030 | for every key and every string: alone in an object they survive if and only if the key is not empty and found between its quotes, and the string has no quote, no backslash and no white space at its ends |
| JsonStrings.StringInArrayExactly | daemon/src/json.cpp:971-990 | for every string: alone in an array it survives if and only if it has no quote, no backslash, no white space at its ends and no exposed separator |
| JsonStrings.NestedAbortsExactly | daemon/src/json.cpp:738-768 | a nested value aborts when the scan sees neither its end nor a wrong closer; with a wrong closer it does not; with an end only when what is inside aborts |
| JsonStrings.NestedStringExactly | daemon/src/json.cpp:738-752 | a string alone in an array in an array: the parser aborts if and only if a backslash stands in front of its closing quote; otherwise it is decoded, or the inner array is lost when a separator is exposed |
| JsonStrings.NestedEscapingExactly | daemon/src/json.cpp:738-752 | the same for every legal escaping of every text: abort if and only if it ends in an escaped backslash |
| JsonStrings.EscapedBackslashAborts | daemon/src/json.cpp:751 | the valid text of a string with one backslash in two arrays aborts |
| JsonStrings.UnclosedArrayAborts | daemon/src/json.cpp:751 | an unclosed inner array aborts |
| JsonStrings.QuotePosIsClosingQuote | daemon/src/json.cpp:51-69 | for every text: behind an opening quote the search finds the closing quote of section 7 of RFC 8259 |
| JsonStrings.HollowObjectIsLost | daemon/src/json.cpp:1012-1022 | the valid text { } is not read |
| JsonStrings.OtherTextsAreNotRead | daemon/src/json.cpp:597-626 | a text that does not start with a bracket, or ends in the other kind, is not read |
| JsonStrings.KeylessObjectIsNotRead | daemon/src/json.cpp:1014-1020 | an object without a colon or without two quotes inside is not read |
| JsonScalars.ScalarInArrayExactly | daemon/src/json.cpp:784-930 | for every text without brackets, quotes, commas, white space and NUL, alone in an array: true, false and null in any case, integers that fit 32 bits or do not fit 64, and numbers with a fraction or an exponent are read as what they are, and nothing else is read |
| IniModel.PutIsUpdate | daemon/src/ini_manage.cpp:359-416 | a write reads back, all other pairs and the order are unchanged, new sections and keys go last, names stay distinct |
| IniModel.SettingsKeepLastValues | daemon/src/ini_manage.cpp:246-262 | after any run of set_value calls each pair holds the value last written to it, or its old one; what was there keeps its order |
| IniModel.LoadKeepsLastValues | daemon/src/ini_manage.cpp:113-168 | after a load, repeated headers and keys included, get_value gives the value of the last line for the key under a header of the section, the empty string when there is none; first-occurrence order is kept |
| IniText.LoadGivesStorable | daemon/src/ini_manage.cpp:94-179 | whatever the file, the store that load leaves is well formed and fits the text form |
| IniText.LoadUndoesSaveExactly | daemon/src/ini_manage.cpp:184-221 | loading what was saved rebuilds every section, key and value in order if and only if each line fits and no value ends in a carriage return; load reports success exactly when there was anything |
| IniText.SavedTextIsMinimal | daemon/src/ini_manage.cpp:197-219 | saving prints nothing but names in brackets, pairs and line ends |
| IniText.CommentLineIsSkipped | daemon/src/ini_manage.cpp:132-139 | for all texts in front and behind, a line that starts with # or ; leaves the store and the success of parsing as they are without it, and counts as something loaded |
| IniText.BlankLineIsSkipped | daemon/src/ini_manage.cpp:140-141 | for all texts in front and behind, an empty line changes nothing |
| IniText.FaultyLineStopsLoad | daemon/src/ini_manage.cpp:114-149 | a header without ] and a line without = stop the load with the store it has by then |
| IniText.PairWithoutSectionStopsLoad | daemon/src/ini_manage.cpp:155-160 | so does a pair in front of every header |
| IniText.HeaderLineIsRead | daemon/src/ini_manage.cpp:116-131 | a header opens the section of the name up to the last ], whatever follows that |
| IniText.PairLineIsRead | daemon/src/ini_manage.cpp:142-166 | a pair goes into the current section, split at the first =, without one carriage return at its end |
| IniStore.Classify | daemon/src/ini_manage.cpp:116-168 | the switch on a line agrees with the line grammar: last ] of a header, first = of a pair |
| IniStore.Content.constructor | daemon/src/ini_manage.cpp:280-293 | an empty valid store |
| IniStore.Content.GetSection | daemon/src/ini_manage.cpp:421-439 | the node of the first section of that name, null when there is none |
| IniStore.Content.GetRecord | daemon/src/ini_manage.cpp:443-472 | the node of the first record with that key, null when there is no section or no record |
| IniStore.Content.GetValue | daemon/src/ini_manage.cpp:234-241 | the value in the map, the empty string when there is none |
| IniStore.Content.AddSectionNode | daemon/src/ini_manage.cpp:298-354 | a missing section goes last in the list, an old one stays; the structure stays valid |
| IniStore.Content.Append | daemon/src/ini_manage.cpp:359-416 | the linked structure stays valid and refines the map update; the self-call ends |
| IniStore.Content.SetValue | daemon/src/ini_manage.cpp:246-262 | the same through set_value, and its result, false without an error |
| IniStore.Content.Save | daemon/src/ini_manage.cpp:184-221 | the two nested loops print the text of the map |
| IniStore.Content.SaveRecords | daemon/src/ini_manage.cpp:206-216 | the inner loop prints the pairs of one section |
| IniStore.Content.LoadFile | daemon/src/ini_manage.cpp:94-179 | the loop over fgets leaves the store the line semantics says, also after a parse error, and its success value |
| IniStore.Content.RemoveAll | daemon/src/ini_manage.cpp:477-495 | each record of the section is released once, in order; the count is returned and the counter is zero |
| IniStore.Content.ReleaseAll | daemon/src/ini_manage.cpp:506-514 | the loop releases all nodes in list order and brings the section count to zero |
| IniStore.Content.Clear | daemon/src/ini_manage.cpp:500-515 | afterwards the store is empty and valid, and what was released is ReleaseOrder |
| IniStore.Content.ReleasedOnce | daemon/src/ini_manage.cpp:500-515 | ReleaseOrder holds each section and record of the lists once and nothing else |
| SensorPages.RequestKeepsNumbered | daemon/src/SensorSet.cpp:227-244 | the known groups stay numbered 1 to their count, no id changes, 0 means no name or no id left |
| SensorPages.SameIdExactlyForSameGroup | daemon/src/SensorSet.cpp:227-244 | over any run of requests two that were served get the same id exactly when the names are equal; not served means empty name or ids exhausted |
| SensorPages.PerPageIsLargest | daemon/src/SensorSet.cpp:168-172 | as many entries of 72 bytes as fit behind 9 bytes of header, and not one more |
| SensorPages.PageBounds | daemon/src/SensorSet.cpp:172-190 | a page ends where the next starts, the last at the number of sensors |
| SensorPages.StartIsEntriesBefore | daemon/src/SensorSet.cpp:190 | the start index of a page is the number of entries on the pages before it |
| SensorPages.PagesPartition | daemon/src/SensorSet.cpp:167-224 | pages 1 to the last are the sensors in order without gap or repeat, and each fits the buffer |
| SensorMessages.PageReadsBack | daemon/src/SensorSet.cpp:193-221 | a receiver reads each sensor's description out of a page |
| SensorMessages.CopiedName | daemon/src/SensorSet.cpp:196 | byte k of the 29 of the name field is that of the name, or 0 behind its end or first NUL |
| SensorMessages.PageInfoReadsBack | daemon/src/SensorSet.cpp:215-222 | the header of a page tells its length, its number, the number of pages, its entries and how many entries come before |
| SensorMessages.DataInfoReadsBack | daemon/src/SensorSet.cpp:143-148 | the header of the data message tells its length and the number of sensors |
| SensorMessages.EntryCarriesGroupId | daemon/src/SensorSet.cpp:207 | the id in an entry is the one handed out for its group at that request |
| SensorMessages.ReceiverRecoversReadings | daemon/src/SensorSet.cpp:143-224 | all pages plus a data message give, for each sensor, exactly the bytes getData produced, zeros when it failed, with nothing left over |
| SensorGroups.ReceivedIdsAreGroups | daemon/src/SensorSet.cpp:227-244 | over any run of page requests since the last clear with at most 255 groups: received ids are equal and nonzero exactly for equal nonempty group names |
| SensorSets.SensorSet.constructor | daemon/src/SensorSet.cpp:112-116 | the size is the header plus the data of all sensors, and the buffer has that size |
| SensorSets.SensorSet.GetGroupId | daemon/src/SensorSet.cpp:227-244 | known groups and id are those of GroupRequest, on eight bits |
| SensorSets.SensorSet.GetMessage | daemon/src/SensorSet.cpp:143-165 | the buffer holds the data message; the version byte keeps what it was |
| SensorSets.SensorSet.PageNumbers | daemon/src/SensorSet.cpp:167-190 | page capacity, page count, entries and start index, none of which wraps around |
| SensorSets.SensorSet.FillEntries | daemon/src/SensorSet.cpp:192-213 | the loops write the entries of the page behind the header place, with group ids as they are requested |
| SensorSets.SensorSet.GetDescriptionPage | daemon/src/SensorSet.cpp:167-225 | the buffer starts with the page message, at most as long as the buffer, and is unchanged behind it |
| SensorSets.SensorSet.Clear | daemon/src/SensorSet.cpp:246-258 | no sensors and no groups are left, and description pages can still be asked for |
| SensorBeans.HtonllReversesAllBytes | include/SensorBean.h:150-163 | the two swapped halves are the full reversal of eight bytes on a little-endian host |
| SensorBeans.BeDecodes | include/SensorBean.h:113-123 | n bytes in network order decode to the value modulo 256 to the n |
| SensorBeans.FieldsInByteOrder | daemon/src/SensorSet.cpp:147 | 16-bit fields are in network byte order in messages and in host byte order in the memory header |
| SensorBeans.SensorBean.SetData32 | include/SensorBean.h:113-117 | the stored bytes decode to the value modulo 256 to the size |
| SensorBeans.SensorBean.SetData64 | include/SensorBean.h:119-123 | the same for 64 bits |
| Segments.FindSegment | daemon/src/Daemon.cpp:320-330 | offset and size of the segment, inside the memory for every slot of the board |
| Segments.SegmentsDisjoint | daemon/src/Daemon.cpp:320-330 | segments of different slots share no byte and lie in the memory |
| Segments.SegmentsFillArea | daemon/src/Daemon.cpp:320-330 | segments start at the area, at byte 66 in versions before 3, lie one right behind the other, and could not be one byte longer |
| Segments.SlotsDoNotInterfere | daemon/src/Daemon.cpp:326-330 | in any interleaving of writes that fit their segments a segment holds what its own writes alone leave there, and the header area is unchanged |
| Mailbox.ResetInsideWriteIsFreshExactlyForData | daemon/src/Daemon.cpp:452-482 | a reset inside a write starts afresh exactly when the write is that of data |
| Mailbox.OnlyDataIsOverwritten | daemon/src/Daemon.cpp:448-451 | a message of the daemon that still waits in the slot is overwritten only when it is data |
| Mailbox.WriteAdvances | daemon/src/Daemon.cpp:452-482 | each write sends the next message of the script and moves the state one step |
| Mailbox.RunKeepsInv | daemon/src/Daemon.cpp:395-483 | the invariant of the protocol holds in every interleaved run |
| MailboxLaws.AnnouncementsArriveInOrder | daemon/src/Daemon.cpp:395-483 | in every run since the last reset: basic information, pages 1 to the last, then data only, both as written and as picked up; the announcements written are those picked up and at most one in the slot; state and page are those after that many messages whatever commands came; the data state comes exactly after one write per page and one more; page numbers stay in range |
| MailboxLaws.DecisionByCode | daemon/src/Daemon.cpp:406-452 | which message codes are executed, waited for or written over, and the codes of the daemon's own messages |
| MailboxLaws.ResetStartsWithBasic | daemon/src/Daemon.cpp:77-81 | after a reset of any reachable world every run starts its log with basic information, and until then each iteration writes it whatever lies in the slot, but for a command or a size too large |
| MailboxLaws.FirstWriteIsBasic | daemon/src/Daemon.cpp:448-460 | in every run, also after a reset inside the write of data: as long as nothing was written an iteration writes basic information, but for a command or a size too large |
| MailboxLaws.InnerResetLosesMessage | daemon/src/Daemon.cpp:452-481 | after a reset inside the write of basic information, or of a page, basic information, or page 1, is missing from every run up to the next reset |
| MailboxLaws.InnerResetSkipsBasic | daemon/src/Daemon.cpp:457-460 | a run in which page 1 is the first message after such a reset |
| MailboxLaws.OwnMessagesPassSizeTest | daemon/src/Daemon.cpp:405 | the daemon's own messages are never found too large |
| MailboxLaws.CommandsAreAccountedFor | daemon/src/Daemon.cpp:406-447 | each command placed is exactly one of taken by the daemon, overwritten, in the slot; overwritten exactly when it was placed between a header read that allows a write and the write |
| MailboxLaws.NoCommandTwice | daemon/src/Daemon.cpp:406-447 | no command is taken, and so none executed, twice |
| MailboxLaws.CommandLeavesStateMachine | daemon/src/Daemon.cpp:406-447 | a command placed into the empty slot between two iterations is taken in the next, which leaves state, page and the message logs unchanged and the slot empty |
| MailboxLaws.CommandCanBeLost | daemon/src/Daemon.cpp:397-482 | a run in which a command is overwritten |
| MailboxLaws.RoundsWrite | daemon/src/Daemon.cpp:448-482 | with a management side that picks up at once every iteration writes one message |
| MailboxLaws.DataReachableExactly | daemon/src/Daemon.cpp:476-480 | some run reaches the data state if and only if there are at most 254 pages and no oversized command in the slot |
| Segments.HeaderReadsBack | plugins/CommunicatorDummy/src/CommunicatorDummy.cpp:64-72 | the daemon reads from the memory header what was put there |
| DummyMemory.ClearsWhereDaemonWrites | plugins/CommunicatorDummy/src/CommunicatorDummy.cpp:116-124 | the byte cleared for a slot is the first of the segment that the daemon computes for it |
| DummyMemory.TakenAt | plugins/CommunicatorDummy/src/CommunicatorDummy.cpp:114-126 | the first bytes of the four segments are cleared and no other byte changes |
| DummyMemory.CommunicatorDummy.constructor | plugins/CommunicatorDummy/src/CommunicatorDummy.cpp:56-75 | the header, then zeros |
| DummyMemory.CommunicatorDummy.ReadData | plugins/CommunicatorDummy/src/CommunicatorDummy.cpp:87-97 | the bytes at the offset, cut at the end of the memory |
| DummyMemory.CommunicatorDummy.WriteData | plugins/CommunicatorDummy/src/CommunicatorDummy.cpp:99-112 | the bytes are stored, cut at the end of the memory, and all messages are taken |
| DummyMemory.CommunicatorDummy.ParseData | plugins/CommunicatorDummy/src/CommunicatorDummy.cpp:114-126 | the loop takes the messages of all slots |
| DaemonLoop.HeadAfterWrite | daemon/src/Daemon.cpp:397-405 | after a write over the dummy memory the next header read finds an empty slot of the written size |
| DaemonLoop.PageIsMessage | daemon/src/SensorSet.cpp:215-222 | a page's header announces its kind and length |
| DaemonLoop.DataIsMessage | daemon/src/SensorSet.cpp:143-148 | the data message's header announces its kind and length |
| DaemonLoop.Daemon.Locate | daemon/src/Daemon.cpp:215-335 | the segment from the header in memory; no start without magic, without slots or with a segment too small for a header |
| DaemonLoop.Daemon.ResetStatemachine | daemon/src/Daemon.cpp:77-81 | the initial state |
| DaemonLoop.Daemon.WriteNext | daemon/src/Daemon.cpp:452-482 | state, page number, bytes written and memory after the branch that writes; the page number stays a page |
| DaemonLoop.Daemon.HandleCommand | daemon/src/Daemon.cpp:406-447 | the whole message is handed on when accepted, and only the slot's first byte is written |
| DaemonLoop.Daemon.Iterate | daemon/src/Daemon.cpp:397-489 | an iteration decides as the state machine does on the header in memory, and changes state and memory accordingly and nothing else |
| DaemonLoop.Daemon.Run | daemon/src/Daemon.cpp:387-489 | over the dummy memory the loop never waits, sends message k of the script in pass k, and is in the data state after one pass per page and one more |
| DaemonLoop.Daemon.Quit | daemon/src/Daemon.cpp:520-528 | the last message is a page from which a receiver reads no sensors |
| EndToEnd.ManagementReadsSensors | daemon/src/Daemon.cpp:395-483 | in every interleaved run, the pages picked up let management cut any data message it picks up into exactly the bytes each sensor produced for it |
| EndToEnd.LettersFitSegment | daemon/src/Daemon.cpp:351-352 | basic information, pages and data of a daemon are no longer than the segment they are made for, nor is the byte that clears a command |
| EndToEnd.ActionsAreWritable | daemon/src/Daemon.cpp:440-472 | for every memory header, every write of every slot's daemon stays inside its own segment |
| EndToEnd.DaemonsDoNotInterfere | daemon/src/Daemon.cpp:320-333 | for every memory header and every interleaving of the daemons of all slots, a segment holds what its own daemon's messages and clear bytes alone leave there, and the header area is unchanged |
| TcpFrames.FrameParts | plugins/CommunicatorTCP/src/CommunicatorTCP.cpp:164-176 | magic, baseboard, node, length and payload of a frame are where the receiver looks for them |
| TcpFrames.ExtractFromFrame | plugins/CommunicatorTCP/src/CommunicatorTCP.cpp:125-141 | on a buffer that starts with a frame, in whole or in part, the receiver takes exactly that frame or waits |
| TcpFrames.ReassemblyConserves | plugins/CommunicatorTCP/src/CommunicatorTCP.cpp:111-148 | for every list of messages and every chunking: what was delivered is a prefix, the buffer was never dropped, bytes in equal frames delivered plus the buffer, and the buffer has room |
| TcpFrames.EveryReceiveProceeds | plugins/CommunicatorTCP/src/CommunicatorTCP.cpp:120-141 | a receive takes bytes whenever there are any, and delivers if and only if the buffer then holds the next frame in full |
| TcpFrames.SecondOfTwoWaits | plugins/CommunicatorTCP/src/CommunicatorTCP.cpp:120-141 | of two frames that arrive together the second is not delivered while nothing more comes |
| TcpCommunicator.CarriesOwnSegment | plugins/CommunicatorTCP/src/CommunicatorTCP.cpp:86-92 | the memory header gives the only slot the 65521 bytes from byte 14 on, where received payloads go |
| TcpCommunicator.CommunicatorTCP.constructor | plugins/CommunicatorTCP/src/CommunicatorTCP.cpp:69-90 | the memory header, then zeros, and an empty receive buffer |
| TcpCommunicator.CommunicatorTCP.ReadData | plugins/CommunicatorTCP/src/CommunicatorTCP.cpp:111-148 | buffer and memory change as Extract says, or not at all without bytes |
| TcpCommunicator.CommunicatorTCP.ExtractFrame | plugins/CommunicatorTCP/src/CommunicatorTCP.cpp:125-141 | copy and shift in place leave what Extract says |
| TcpCommunicator.CommunicatorTCP.WriteData | plugins/CommunicatorTCP/src/CommunicatorTCP.cpp:150-195 | memory, bytes on the wire, connection and reset request, also when a send fails or there is no connection |
| TcpCommunicator.WrittenMessagesArrive | plugins/CommunicatorTCP/src/CommunicatorTCP.cpp:150-195 | whatever is written at the head of the segment reaches the other end as the available messages in order, however it is cut up |

## Left out

- JsonLaws.ParsedDocumentIsReadBack: of a document in which a string, a key or an inner end is not found, or a string does not decode, nothing is said here; of what the writer prints it is known that it does not come back.
- JsonLaws.SpacedTextComesBackExactly: of a value that is not safe it is not shown that no text with white space comes back; members stand in key order here (in any order in ParsedDocumentIsReadBack).
- JsonBrackets.ScanRefinesGrammar: on texts where the scan and the standard differ about what is quoted, the grammar is that of the scan.
- JsonText.EscapedStringReadsBack: \u only up to 00FF, because the parser keeps the last two digits.
- JsonParser.DeserializeScalar: a floating point number keeps its text, not its value; strtod is taken to accept decimal numerals only and never to report a range error.  long is 64 bits wide.
- JsonScalars.ScalarInArrayExactly: texts with a NUL, behind which the conversions do not look, and with white space or brackets inside.
- JsonWriter.SerializeValue: floats and doubles, which are printed with %f and do not round trip.
- JsonWriter.SerializeArray: floats and doubles inside.
- JsonWriter.Serialize: floats and doubles inside; the array branch repeats the loop of SerializeArray and is modelled by a call of it.
- JSON: the accessors and comparisons of the value type.  Nothing is claimed about the bracket stack after malformed input.
- IniStore.Content.SetValue: the result after an error, since failing allocation, the only one, is not modelled.
- IniStore.Content.AddSectionNode: comments; writing the name a section already has over itself is skipped.
- IniStore.Content.Append: comments.
- IniStore.Content.Save: comments, and a file that cannot be opened.
- IniStore.Content.SaveRecords: comments.
- IniStore.Content.LoadFile: comments are read and dropped (the code puts one more # in front at each load), and a file that cannot be opened is not modelled; on an empty line the byte in front of the buffer, which trim looks at, is taken not to be a carriage return.
- IniStore: fixed sizes of the name, key and value fields and failing allocation; set_value with longer strings than the fields is not modelled.  The last pointer after clear is not constrained.
- SensorSets.SensorSet.constructor: finding the sensors, and adding sensors after construction, which does not recompute the size.
- SensorSets.SensorSet.GetDescriptionPage: buffer sizes for which a page holds more than 255 entries or there are more than 255 pages; the floor and ceiling of a floating point quotient are integer division; the separate stores into the fields of an entry are one copy of its 72 bytes; page 0, which the daemon would ask for with 255 pages, is not modelled.
- SensorSets.SensorSet.PageNumbers: the same sizes and counts.
- SensorSets.SensorSet.GetMessage: the sensors' getData calls are a parameter, one reading for each sensor.
- SensorBeans.SensorBean.SetData32: sizes above 4, for which the code copies from in front of its variable.
- SensorBeans.SensorBean.SetData64: sizes above 8, likewise.
- SensorBeans.SensorBean: setData of strings and doubles, the callbacks, and hosts that are not little-endian.
- Segments.FindSegment: a memory header whose area offset lies behind its size, for which the subtraction wraps around.
- DaemonLoop.Daemon.Locate: the same.
- MailboxLaws.DataReachableExactly: page 0, which the daemon asks for with 255 pages, is written like any other page.
- MailboxLaws.CommandsAreAccountedFor: a command taken may be refused by its address or signature; the two are not told apart.
- Mailbox: resets inside the write of the basic information or of a page, whose effect InnerResetLosesMessage states, are no events of the runs; Command_Result messages are waited for but nobody writes one; management neither takes a command back nor writes over a full slot; execution of a command and clearing it are one step, since nothing can happen to the slot in between.
- DaemonLoop.Daemon.HandleCommand: address and signature check are one predicate on the message; splitting it into command and parameters and executing them is not modelled; commands shorter than a message header are excluded.
- DaemonLoop.Daemon.Iterate: readData never fails on the dummy memory; negative results, which the code takes for success, are not modelled.
- DaemonLoop.Daemon.Run: one pass for each list of readings instead of a loop until shutdown; the wait between passes is left out.  The basic information block is a parameter that fits the segment.
- TcpCommunicator.CommunicatorTCP.ReadData: payloads longer than 65521 bytes, which the code would copy past its memory; the shift of the buffer by memcpy over overlapping ranges is taken to be a move.
- TcpCommunicator.CommunicatorTCP.ExtractFrame: the same.
- TcpCommunicator.CommunicatorTCP.WriteData: a send that fails is taken to have sent nothing of its part.
- Node, Config, Signature, plugins and their factories, adapters, sensor providers, the command line server, sockets, serial and GPIO access, threads, logging: thin, or not visible.
