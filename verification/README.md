# libmasc, verified

A model of the parts of libmasc that carry state, loops and arithmetic, with proofs of what they promise.

- **JSON text.** `json_parse_to_obj` is a loop with a stack and an expectation, not a recursive parser. The model keeps
  that automaton (`JsonParse`), proves its invariant on all texts (`JsonInvariant`), says exactly when it reads past
  the end of a text (`JsonOverRead`), which error it reports (`JsonErrors`) and what becomes of unclosed texts
  (`JsonUnclosed`), and proves that it undoes both printers (`JsonRoundTrip`): compact and pretty text are layouts of
  the same tokens (`JsonText`), and the automaton reads every layout. The printers write into bounded buffers in the
  style of `snprintf`; `Buffer` and `JsonPrint` show that what they leave there is the pure text, cut off where the
  size says.
- **Strings.** `Cstr` and `Utf8` hold the string representation and its decoder, `ReprText` what it is in terms of
  JSON, `Numbers` and `NumberTokens` the number recogniser and what it makes of each kind of number, `StrObject` the
  string object that is changed in place, `Splitting` split, join and replace.
- **JSON paths.** `PathKeys` scans keys such as `a.b["c.d"][3]`, `KeyText` says of their text which are malformed and
  what tokens the others have; `JsonPath` gets, sets and removes nodes by them. The laws are those of a lens, with the
  padding of lists and the exact range of indexes.
- **Containers.** `Lists` and `Maps` relink chains of nodes in place, also while a filter walks over them.
- **Timers.** `Timers` is the part of the main loop that sorts, cancels and drains timers whose callbacks arm others.
- **Streams.** `Packets` cuts a stream into packages, with a buffer that carries over, fed by a growing read buffer.
- **Paths and addresses.** `Paths` normalises file names; `Ip` masks and classifies network addresses.

Bytes are characters below 256 and a C string is its text without the terminator; reading position `n` of a text of
length `n` reads the terminator. Results of the C library (`strtol`, where `strtod` stops, `strstr`, `isspace` and its
relatives in the "C" locale) are modelled as the C standard defines them; of what `%g` prints for a double nothing is
assumed (`JsonText.DOUBLE_TEXT`); where a result needs it to be a number it says so (`JsonRoundTrip.SpeltDoubles`).
Clock readings and the results of `read` are parameters. Where the code reads past the end of a text the model has an
outcome of its own for it (`OverRead` in the parser, `None` in the decoder); only the loops that fill a buffer with
decoded text require that there is something to decode (`Cstr.Complete`).

Some results say where the code does not do what one might expect:

- Keys of maps are printed as they are (src/map.c:253). A tree whose doubles are printed with a fraction or an exponent
  survives printing and parsing, with its doubles as printed, if and only if all its keys, at every depth, hold no
  quote and no backslash: `RawKeys.CompactRoundTripIff` and `RawKeys.PrettyRoundTripIff`. A double that is printed
  without both, as `%g` prints 3.0, comes back as an integer (`NumberTokens.DecimalRead`).
- Numbers are read in the notations of C: a leading 0 makes them octal, or doubles when a digit is too large for that,
  and "0x", "0b", infinity and NaN are known (`NumberTokens`).
- Bytes that are neither printable nor part of a UTF-8 sequence are printed as `\x` with two digits, which JSON does
  not know: `ReprText.ReprRfcIff` says exactly when the representation is a JSON string. Single bytes from 0x80 to 0xBF
  pass the UTF-8 check nevertheless (`Utf8.SeqLenMeaning`).
- A key of dots alone addresses the document itself (`KeyText.RootLaws`), and "[]" the first object of a list
  (`KeyText.IndexIff`).
- The bracket that closes the root container is not compared with the one that opened it, it may be missing or come
  several times, and one trailing comma passes, unlike in section 5 of RFC 8259: `JsonInvariant.RootCloserIgnored` says
  exactly which endings are accepted. In nested containers the bracket must match but the comma passes too:
  `JsonInvariant.NestedCloserMatched`.
- `str_unrepr` leaves a string without a terminator when decoding drops all of it: `StrObject.Str.Unrepr`. In the
  parser a label of this kind is the `TornLabel` on the stack.
- The decoder reads past the end of a text exactly when an escape is cut short (`Cstr.UnreprIff`), the parser exactly
  when one of its rounds meets such a string or completes a value behind a torn label (`JsonOverRead.OverReadIff`); a
  quote and a backslash are enough (`JsonOverRead.LastBackslash`). Texts whose escapes are known and complete are safe
  (`JsonOverRead.EscapesStayInside`).
- A text that ends behind any token of an open container is accepted; the containers inside it that are still open are
  lost, so that "[1, [2" is read as "[1]": `JsonUnclosed.UnclosedAccepted`.
- The printer of pretty text writes an indentation whole or not at all. Text that is cut off ends in front of the
  indentation that lies across the end of the room, although there was room for some of its blanks, and otherwise at
  the end of the room: `JsonPrint.KeptIs`, `JsonPrint.CutOffIff` and, for four bytes, `JsonPrint.BlankMissing`.
- `json_set_node` compares an index as a `size_t` but addresses the list with an `int`: `JsonPath.Lands` is the exact
  condition under which the object is found again. A negative index on an empty list pads up to 2^64 minus its value.
- `ml_timer_cmp` cuts a difference of deadlines to `int`. One insertion keeps the list in order if and only if the cut
  differences to the deadlines in front of its place are not positive and the first one behind it is positive
  (`Timers.InsertIff`); runs whose deadlines lie within 2^31 ms of each other always meet this
  (`Timers.WindowRunKeeps`), and three operations are enough to miss it (`Timers.MissortedRun`).
- `_next_timer` cuts the time to the earliest deadline to `int` too. The timeout is not too long if and only if that
  deadline is ahead or the cut difference is not positive (`Timers.NextTimerIff`); a timer that is a little more than
  2^31 ms overdue makes the loop sleep for almost as long (`Timers.OverdueSleeps`).
- A timer without an interval can keep the drain busy for ever. When callbacks only use timers that they arm as they
  make them, every drain ends if and only if the loop is stopped, no due timer has a callback, or every live timer with
  a callback has an interval: `Timers.DrainEndsIff`.
- `ip_init_bin` accepts every prefix length. Beyond the length of the address nothing is masked and the address counts
  as a network; converting it to IPv6 then adds 96 in a byte, which wraps around: `Ip.ConvertNetworkIff`,
  `Ip.ConvertBroadcastIff` and `Ip.ConvertTypeIff` say exactly when this matters.

`dafny verify dfyconfig.toml` checks everything.

## Model

| member | source | states |
|---|---|---|
| Buffer.CstrPutc | src/cstr.c:18-29 | returns 1 for every size; writes the byte and a terminator as far as the size allows and nothing else, nothing at all without a destination |
| Buffer.CstrNcopy | src/cstr.c:31-47 | returns the full length of the source for every size; the region holds the terminated prefix that fits, all other bytes keep their value; without a destination it only measures |
| Buffer.PutPut | src/cstr.c:31-47 | two prints in a row, the second behind the first with the remaining size, equal one print of the joined text, also where the text is cut off |
| Buffer.PutAll | src/cstr.c:31-47 | what a print leaves in a buffer: the whole text and a terminator when it fits, otherwise the first `size - 1` bytes and a terminator; outside the region nothing changes |
| Cstr.CstrRepr | src/cstr.c:146-185 | for every size the length of the whole representation is returned and the buffer holds the part that fits, terminated |
| ReprText.ReprStands | src/cstr.c:116-185 | the printed text is, one behind the other: for each of the seven characters of the table its two-character escape of section 7 of RFC 8259, for printable ASCII and each measured sequence of more than one byte the character itself, and for exactly the other bytes `\x` with two lower-case hex digits |
| ReprText.ReprRfcIff | src/cstr.c:146-185 | the representation is a string of section 7 of RFC 8259 if and only if the text consists of measured sequences without control bytes other than the named ones |
| ReprText.ReprItselfIff | src/cstr.c:146-185 | it is the text itself between quotes if and only if the text is like this and none of its bytes has an escape |
| Cstr.CstrUnrepr | src/cstr.c:187-241 | for every size and every text in which no escape is cut short the decoded length is returned and the part that fits is written; nothing at all is written when nothing is decoded |
| Cstr.DecodeUnit | src/cstr.c:187-241 | one round of decoding consumes at least one character and emits at most as many bytes, fewer for an escape |
| Cstr.Unrepr | src/cstr.c:187-241 | decoded text is never longer than its source |
| Cstr.UnreprIff | src/cstr.c:187-241 | decoding stays inside the text if and only if no escape is cut short: behind `\u` stand four more bytes, behind `\x` two, behind any other backslash one |
| Cstr.UnreprOfRepr | src/cstr.c:146-241 | decoding the representation gives back every byte string, with malformed UTF-8 and control bytes |
| Cstr.HexValueIs | src/cstr.c:203-226 | two or four hex digits, in upper or lower case, are read as the number that they spell |
| Cstr.UnicodeEscape | src/cstr.c:202-222 | each `\uXXXX` escape is decoded to the bytes of its value; they are the UTF-8 of that character (section 3 of RFC 3629) exactly when it is no surrogate, and are measured as one sequence in front of any text |
| Cstr.ByteEscape | src/cstr.c:223-229 | each `\xXX` escape is decoded to the byte of its value |
| Cstr.ReprIsUtf8 | src/cstr.c:146-185 | the representation of every byte string is accepted by the UTF-8 check |
| Utf8.CheckUtf8Seq | src/cstr.c:123-144 | the loop over the lead byte computes the length of the sequence, 0 for a malformed one |
| Utf8.SeqLenInside | src/cstr.c:123-144 | a measured sequence lies inside the text: a lead byte with only continuation bytes behind it |
| Utf8.SeqLenMeaning | src/cstr.c:123-144 | the measure is the number of bytes that the high bits of the first byte ask for, from 1 to 8, if that many minus one from 0x80 to 0xBF follow, and 0 otherwise; a byte from 0x80 to 0xBF in front asks for nothing and is measured as 1 |
| Utf8.SeqLenLocal | src/cstr.c:123-144 | the measured length depends on nothing behind the sequence |
| Utf8.CstrIsUtf8 | src/cstr.c:248-258 | true exactly when the text is a sequence of measured sequences |
| Utf8.EncodeDecodes | src/cstr.c:205-219 | the bytes of a `\uXXXX` escape decode to its value (section 3 of RFC 3629) exactly when the value is no surrogate |
| Utf8.EncodeMeasured | src/cstr.c:123-144 | those bytes are measured as one sequence of exactly their length |
| Numbers.ToNumberInside | src/cstr.c:393-410 | a recognised number is not empty, lies inside the text, and an integer fits `long` |
| Numbers.DecReadBack | src/cstr.c:393-410 | the printed decimal text of every `long`, in front of anything that ends a number, is read back as that integer and nothing more |
| NumberTokens.FloatRead | src/cstr.c:393-410 | an optional minus and digits with a fraction or an exponent, in front of anything that ends a number, are read as a double of exactly this text |
| NumberTokens.DecimalRead | src/cstr.c:393-410 | a number of section 6 of RFC 8259 without fraction and exponent is read as the integer that it spells, saturated to `long` |
| NumberTokens.NumberKind | src/cstr.c:393-410 | of the numbers of JSON exactly those without fraction and exponent become integers |
| NumberTokens.ZeroLedRead | src/cstr.c:354-366 | digits behind a leading 0 are an octal integer when all are below 8, and otherwise a double |
| NumberTokens.HexRead | src/cstr.c:354-366 | hex digits behind "0x", with an optional minus, are read as the integer that they spell |
| NumberTokens.HexFloatRead | src/cstr.c:393-410 | with a fraction or a binary exponent they are a double of exactly this text |
| NumberTokens.BinaryRead | src/cstr.c:354-366 | binary digits behind "0b" are read as the integer that they spell |
| NumberTokens.BinaryPrefixOnly | src/cstr.c:354-366 | "0b" without a digit behind it is 0, and only its first character is taken |
| NumberTokens.WordRead | src/cstr.c:393-410 | infinity and NaN behind a minus, in any case, are doubles |
| NumberTokens.FloatTextRead | src/cstr.c:393-410 | float text, that is a number with a fraction or an exponent, or infinity or NaN behind a minus, is read as a double of exactly this text |
| NumberTokens.NumberIff | src/json_parse.c:192-194 | text that begins with a digit or a minus is taken for a number if and only if the digit comes first, or a digit, a point and a digit, infinity or NaN stand behind the minus |
| Numbers.DecNatStrtol | src/json.c:222-227 | the digits of an index in front of its bracket are read as that index |
| JsonPrint.ListToCstr | src/list.c:370-386 | for every size: returns the full length of the text, leaves its prefix that fits, touches nothing else |
| JsonPrint.MapToCstr | src/map.c:247-266 | the same for maps, whose keys are printed as they are |
| JsonPrint.ToStr | src/str.c:574-584 | strings are copied, "None" stands for none, and for all else measuring and then filling gives the complete text; it is never cut off |
| JsonPrint.ToTextIs | src/str.c:574-584 | what `to_str` gives differs from the representation exactly for strings, of which it gives the text up to the first NUL, and for none, for which it gives "None" instead of "null" |
| JsonPrint.IndentCstr | src/print.c:307-314 | returns twice the level for every size; writes that many blanks when they fit and otherwise nothing |
| JsonPrint.PrettyTo | src/print.c:316-366 | returns the length of the pretty text for every size and leaves its beginning, terminated and as long as `Kept` says; nothing outside the region changes |
| JsonPrint.PiecesText | src/print.c:316-366 | the tokens and indentations that are written are together the pretty text |
| JsonPrint.ShownIs | src/print.c:316-366 | any writes in which a token follows each indentation leave the text cut off as `Kept` says, although an indentation is written without a terminator and skipped when it does not fit |
| JsonPrint.KeptIs | src/print.c:307-366 | cut-off text ends at the start of the indentation that lies across the end of the room, and when there is none at the end of the room or of the text |
| JsonPrint.CutOffIff | src/print.c:307-366 | what is left equals the text cut at the end of the room if and only if no indentation lies across it |
| JsonPrint.BlankMissing | src/print.c:307-366 | a list that holds a null, printed into four bytes, lacks a blank for which there is room |
| JsonPrint.PrettyStr | src/json.c:358-364 | measuring and then filling gives the complete pretty text |
| JsonText.CompactIsLaid | src/list.c:370-386 | compact text is the layout with one blank behind commas and colons |
| JsonText.PrettyIsLaid | src/print.c:316-366 | pretty text at every depth, without the end of its line, is a layout of the same tokens that differs only in white space |
| JsonText.SameAsPrinted | src/list.c:370-386 | both printers spell a tree without doubles itself; in general they spell the tree in which each double is the text that is printed for it |
| JsonParse.ScanString | src/json_parse.c:25-51 | the scan for the closing quote, with its flag for escapes, returns the decoded string and its length, or reports an unclosed string |
| JsonParse.StepAdvances | src/json_parse.c:116-215 | a round that does not fail consumes at least one character and never leaves the text |
| JsonParse.Round | src/json_parse.c:116-215 | one round of the loop changes position, stack, expectation and error as the step of the automaton |
| JsonParse.JsonParseToObj | src/json_parse.c:107-222 | the loop over the text computes the run of the automaton and its root object |
| JsonErrors.WordsAre | src/json_parse.c:189-209 | the text of a word is exactly "true", "false", "null" or a number, each with its value and length |
| JsonErrors.StepReports | src/json_parse.c:116-215 | whether a round fails, and with which error, by the kind of token, what is expected and the stack: a token that does not fit is reported by what is missing in front of it |
| JsonErrors.ErrorIff | src/json_parse.c:107-222 | the parser ends with an error if and only if the first round that fails has to report it |
| JsonErrors.CommaMissing | src/json_parse.c:116-215 | behind the text of any value, in any layout, inside a container, anything but white space, a comma or a closer is a missing comma, as in `[1 2]` |
| JsonErrors.ColonMissing | src/json_parse.c:116-215 | behind a label anything but white space, a colon or a closer is a missing colon |
| JsonErrors.DataBehind | src/json_parse.c:107-222 | behind the text of a root container anything but white space and closers is extra data |
| JsonInvariant.AppendKeeps | src/json_parse.c:82-105 | attaching a value keeps the stack layered and its trees well-formed, and never finds a label without a map under it |
| JsonInvariant.StepKeeps | src/json_parse.c:116-215 | every round keeps the invariant: labels sit directly on maps, a colon is expected only behind a label, the internal error does not occur |
| JsonInvariant.RunKeeps | src/json_parse.c:107-222 | so does every run, on every text |
| JsonInvariant.ParseIsSafe | src/json_parse.c:107-222 | for every text: JSON_ERROR_FATAL is unreachable, a root object exists only on success and is well-formed, and success without one means that the text is blank |
| JsonOverRead.BadStringIff | src/json_parse.c:25-51 | reading a string leaves the text if and only if a last backslash stands in front of the terminator or an escape is cut short by the closing quote |
| JsonOverRead.StepOverrunsIff | src/json_parse.c:82-215 | a round leaves its text if and only if it meets such a string where a value is expected or completes a value behind a label of which decoding left nothing |
| JsonOverRead.OverReadIff | src/json_parse.c:107-222 | a run does if and only if one of its rounds does |
| JsonOverRead.LastBackslash | src/json_parse.c:25-51 | a quote and a backslash are read past their end |
| JsonOverRead.TornLabelRead | src/str.c:343-350 | so is a map with a label that consists of an unknown escape, although no escape is cut short |
| JsonOverRead.EscapesStayInside | src/json_parse.c:107-222 | no text is in which every backslash, read from the left, begins a known escape that is complete in front of the next quote |
| JsonOverRead.LettersEscape | src/json_parse.c:107-222 | such is every text in which each backslash is followed by one of the letters |
| Numbers.NumberPlain | src/cstr.c:393-410 | no recognised number contains a backslash |
| JsonInvariant.RootCloserIgnored | src/json_parse.c:134-187 | behind the text of a root list or map any closers, right or wrong, repeated or missing, are accepted if and only if at most one comma stands among them and in front of all, and none when the container is empty |
| JsonInvariant.NestedCloserMatched | src/json_parse.c:134-187 | inside another container one comma may stand in front of the closer unless the container is empty, and a wrong closer is a mismatch |
| JsonUnclosed.UnclosedAccepted | src/json_parse.c:107-222 | open containers, each inside the one before, in any layout and cut off behind a bracket, a complete child, a comma, a label or a colon, are accepted: the outermost comes out with the children that were complete, the rest is lost |
| JsonUnclosed.InnerLost | src/json_parse.c:107-222 | "[1, [2" is read as the list that holds 1 |
| JsonRoundTrip.ReprParsed | src/json_parse.c:25-51 | a printed string in front of any text is read as that string and exactly its length |
| JsonRoundTrip.RawKeyParsed | src/map.c:247-266 | a key that is printed raw is read back if and only if it contains no quote and no backslash |
| JsonRoundTrip.ValueRuns | src/json_parse.c:107-222 | for every stack that accepts a value and every layout, the text of a value takes the automaton to the stack with the value attached, expecting a comma |
| JsonRoundTrip.ListRuns | src/list.c:370-386 | the same for the text of a list, item by item |
| JsonRoundTrip.MapRuns | src/map.c:247-266 | the same for the text of a map, entry by entry, in the order of its keys |
| JsonRoundTrip.LayoutParses | src/json_parse.c:107-222 | every layout of a printable tree, in which doubles are written as float text (see FloatTextRead), with white space behind it, parses to exactly that tree, each double with its text |
| JsonRoundTrip.CompactRoundTrip | src/json_parse.c:107-222 | parsing the compact text of a tree whose doubles are printed as float text yields exactly that tree, with its doubles as printed |
| JsonRoundTrip.PrettyRoundTrip | src/print.c:316-366 | so does parsing its pretty text, whatever level it is printed at |
| JsonRoundTrip.PrettyValueRuns | src/print.c:316-366 | inside a container, for both values of the `last` flag, pretty text attaches the same value |
| RawKeys.UncleanKeyMisread | src/map.c:253 | the label that is read for a key with a quote or a backslash is never that key |
| RawKeys.KeyLabel | src/map.c:253 | reading from the opening quote of a raw key, or from any quote inside it, makes a label that is clean or lighter than the key; its weight is its length up to the last quote or backslash and its backslashes, then its whole length |
| RawKeys.LaidSound | src/map.c:247-266 | in a layout of a tree without unclean keys heavier than a given weight, every string that reading can start at is clean, lighter than that weight, or not followed by a colon |
| RawKeys.ParsedBelow | src/json_parse.c:107-222 | whatever a text with this property is parsed to, every key in it, at any depth, is clean or lighter than that weight |
| RawKeys.LayoutParsesIff | src/json_parse.c:107-222 | a layout of a tree whose doubles are written as float text is parsed to that tree if and only if all its keys, at every depth, are clean |
| RawKeys.CompactRoundTripIff | src/map.c:247-266 | a tree whose doubles are printed as float text survives compact printing and parsing, with its doubles as printed, if and only if all its keys, at every depth, are clean |
| RawKeys.PrettyRoundTripIff | src/print.c:316-366 | so it does for pretty printing, at every level |
| RawKeys.ReparseIff | src/json_parse.c:107-222 | such a tree that any text was parsed to can be printed and parsed again to the same tree, with its doubles as printed, if and only if its keys are clean |
| RawKeys.NoDoublesSpelt | src/map.c:247-266 | trees without doubles are among them |
| ListSpec.FromTheEnd | src/list.c:119-137 | a negative index counts from the end as an index counts from the start; beyond the start it is the first object, beyond the end there is none |
| ListSpec.KeptPlaces | src/iterable_class.c:24-33 | what a filter keeps comes from the accepted places of the container, each of them once and in their order |
| ListSpec.KeptFacts | src/iterable_class.c:24-33 | what a filter keeps satisfies the callback, with every accepted object as often as before |
| ListSpec.FilterAdvances | src/iterable_class.c:24-33 | one round of a filter over a container that shrinks under it visits the next original object, which stays or leaves |
| Lists.LinkedList.Len | src/list.c:95-102 | the number of nodes of the chain |
| Lists.LinkedList.GetNodeAt | src/list.c:139-150 | the node at the index, counted from the end when negative; NULL behind the end |
| Lists.LinkedList.SetAt | src/list.c:162-171 | replaces exactly the addressed object, in its node; false when there is none |
| Lists.LinkedList.Append | src/list.c:206-218 | the new object is last, in a new node behind the old ones |
| Lists.LinkedList.Remove | src/list.c:220-246 | the first node that holds the object is unlinked and all other nodes stay; true exactly when there was one |
| Lists.LinkedList.RemoveAt | src/list.c:248-275 | the addressed node is unlinked although its predecessor is searched for with `idx - 1`; its object is returned, NULL when there is none |
| Lists.LinkedList.SortIn | src/list.c:337-359 | a new node with the new object is linked in front of the first one that compares greater; the old nodes stay |
| Lists.LinkedList.DelObj | src/list.c:413-417 | the current node goes and the node that the iterator remembers takes its place |
| Lists.LinkedList.Filter | src/list.c:389-417 | every original object is visited once and in order; the list keeps exactly the accepted ones |
| Values.MapSetGet | src/map.c:143-156 | after a set the key has the new value, other keys keep theirs, and no key occurs twice |
| Values.MapRemoveGet | src/map.c:158-188 | after a removal the key is gone and other keys keep their values |
| Maps.LinkedMap.NodeByKey | src/map.c:99-111 | the first node with the key, NULL when there is none |
| Maps.LinkedMap.Get | src/map.c:118-125 | the value of the key, if there is one |
| Maps.LinkedMap.Set | src/map.c:143-156 | a known key keeps its node and place and gets the new value; a new one is appended |
| Maps.LinkedMap.RemoveKey | src/map.c:158-188 | the node of the key is unlinked and its value returned; nothing else changes |
| Maps.LinkedMap.Filter | src/map.c:269-301 | every value is visited once and in order although rejected nodes are deleted by key on the way; exactly the accepted entries stay |
| StrObject.StripFacts | src/str.c:393-409 | stripping takes only spaces, from both ends, and as many as there are |
| StrObject.SpacesAre | src/cstr.c:265-271 | white space are the six characters of the "C" locale |
| StrObject.StrippedIff | src/str.c:393-409 | stripping changes nothing exactly when there is no space at the ends |
| StrObject.DroppedIff | src/str.c:343-350 | decoding leaves nothing exactly when the text consists of bare quotes and unknown escapes |
| StrObject.Str.Unrepr | src/str.c:343-350 | text in which no escape is cut short is replaced in its own buffer by the decoded text, never cut off; it is terminated if and only if something is left or nothing was there |
| StrObject.Str.DeleteAt | src/str.c:205-213 | one byte goes, counted from the end for a negative index, and the rest moves up in place; nothing happens to an empty text |
| StrObject.TextFromTheEnd | src/str.c:98-113 | the byte that a negative index addresses, and what is left without it, in terms of the end of the text; beyond the start it is the first byte |
| StrObject.Str.StripInPlace | src/str.c:393-409 | the buffer holds the stripped text |
| StrObject.Str.Filter | src/str.c:592-620 | every byte is visited once and in order although rejected bytes are deleted on the way; exactly the accepted ones stay |
| PathKeys.KeyToTokens | src/json.c:149-207 | the loop with its flags computes the tokens of the stripped key, or reports a malformed one |
| PathKeys.TokenShapes | src/json.c:149-207 | no key makes an empty token, and a token with a leading quote is long enough to be unquoted |
| PathKeys.ScanSteps | src/json.c:160-201 | from behind one token the scan saves it and goes on with exactly the tokens of the remaining steps |
| PathKeys.ScanRendering | src/json.c:160-201 | the scan of the rendering of any steps (plain keys, quoted keys, indexes) yields exactly their tokens |
| PathKeys.KeyRoundTrip | src/json.c:149-207 | so does the whole function, with any spaces around the rendering |
| KeyText.TokensAre | src/json.c:149-207 | the tokens of a key in which quotes stand in brackets only and both are closed and not nested are the stretches between its dots and opening brackets that are not empty; a closing bracket belongs to its stretch |
| KeyText.MalformedIff | src/json.c:160-201 | a key is malformed exactly when its stripped text is not like this |
| KeyText.NoTokensIff | src/json.c:149-207 | a key has no tokens exactly when nothing but dots stands between the spaces at its ends |
| KeyText.IndexIff | src/json.c:219-227 | a list takes a token for the index n exactly when it ends with a bracket and blanks, a sign and the digits of n, saturated to `long`, stand in front of its first bracket, or nothing for the index 0 |
| KeyText.AimsAre | src/json.c:215-233 | a map takes every token for a key, a quoted one without its quote and its last two characters; a list finds nothing for any other token that ends with a bracket, and all else is no place |
| JsonPath.FindNode | src/json.c:209-238 | the loop over the tokens finds the node that the tokens address one by one |
| JsonPath.Json.GetNode | src/json.c:240-252 | the node of the key: the root for a key without tokens, NULL for a malformed one |
| JsonPath.Json.SetNode | src/json.c:254-300 | for every key and tree the new root and the return value are those of the specification that `SetGet` and `SetFrame` describe |
| JsonPath.Json.RemoveNode | src/json.c:302-341 | for every key and tree the new root and the removed node are those of the specification that `RemoveGet` describes |
| KeyText.RootLaws | src/json.c:240-341 | for keys without tokens: get finds the document, set makes the object the document and returns true, get then finds it, remove returns the old document and leaves none |
| KeyText.MalformedLaws | src/json.c:240-341 | for malformed keys: get and remove return NULL, set returns false, and nothing changes |
| KeyText.EmptyDocument | src/json.c:240-341 | without a document every other key finds nothing, and neither set nor remove changes that |
| JsonPath.WithChildGet | src/json.c:209-238 | when one child changes in place every token still addresses the same place, and only the tokens that address that place see the change |
| JsonPath.PutGet | src/json.c:209-238 | what was put at a path is found there |
| JsonPath.GetPut | src/json.c:209-238 | putting back what was found changes nothing |
| JsonPath.PutParts | src/json.c:209-238 | a path that enters another child somewhere finds what it found before |
| JsonPath.PutMeets | src/json.c:209-238 | a path through the changed node continues in its new value |
| JsonPath.SetItemGet | src/json.c:276-288 | a list set at an index is found there exactly when the index lands; otherwise padding is found |
| JsonPath.SetGet | src/json.c:254-300 | get after set for all token lists: the failing cases change nothing, keys are found again, indexes exactly when they land |
| JsonPath.SetFrame | src/json.c:254-300 | a set leaves alone every path that does not lead into or through the place that is set |
| JsonPath.RemoveGet | src/json.c:302-341 | remove returns what get finds and changes nothing when that is NULL; a removed key is gone, and a list closes up behind a removed item |
| JsonPath.RemoveParts | src/json.c:302-341 | a remove leaves every path alone that enters another child before |
| JsonPath.RemoveShifts | src/json.c:302-341 | every path that diverges from the removed one leads to its node again, with an index behind a removed list item lowered by one |
| JsonPath.SetRemoveWellFormed | src/json.c:254-341 | neither operation makes a map hold a key twice |
| JsonPath.TokenMeaning | src/json.c:209-238 | the token of a step addresses what the step says; on a map an index is taken for a key with a bracket |
| JsonPath.GetNodeFollows | src/json.c:240-252 | get follows exactly the steps of its key |
| JsonPath.SetThenGet | src/json.c:254-300 | the set and get laws for keys that render steps |
| JsonPath.RemoveThenGet | src/json.c:302-341 | the remove and get laws for keys that render steps |
| JsonPath.SetKeepsOthers | src/json.c:254-300 | a set leaves alone what a key found before whose steps diverge from those that are set |
| JsonPath.RemoveKeepsOthers | src/json.c:302-341 | the same for remove, under the key with the lowered index |
| Timers.InsertIff | src/mloop.c:120-132 | sorting in one deadline keeps the invariant if and only if the cut difference is not positive for every deadline up to it and positive for the first later one |
| Timers.FitsSorts | src/mloop/timer.c:42-45 | an operation whose deadline is within 2^31 ms of all others meets this condition |
| Timers.ExecKeepsIff | src/mloop.c:97-158 | a timer operation keeps the invariant (the list holds exactly the pending timers, each once, by deadline and first come first served) if and only if the deadline that it sets meets the condition |
| Timers.RunKeepsIff | src/mloop.c:97-158 | over any sequence of operations from the empty loop, with unarmed timers too, the invariant holds all the time if and only if every deadline on the way meets the condition |
| Timers.FitsAllSorts | src/mloop.c:97-158 | over any run from a state with the invariant, deadlines in the window of those that are pending meet it |
| Timers.WindowRunKeeps | src/mloop.c:97-158 | a run from the empty loop whose deadlines all lie in one window of 2^31 ms keeps the invariant all the time |
| Timers.TruncationIff | src/mloop/timer.c:42-45 | the comparison is positive exactly when the difference modulo 2^32 is positive and below 2^31, and 0 exactly when it is a multiple of 2^32 |
| Timers.MissortedRun | src/mloop.c:97-148 | after two new timers and one `mloop_timer_add`, from clock reading 0, the later deadline stands in front of the earlier one |
| Timers.RoundShrinks | src/mloop.c:361-384 | every round whose callback arms no timer that has a callback and no interval lowers the sum over all timers of how far they are overdue |
| Timers.DrainComplete | src/mloop.c:361-384 | every round keeps the invariant, and when the loop ends without being stopped no pending timer is due |
| Timers.DrainBounded | src/mloop.c:361-384 | what fires is due, and callbacks like this fire at most as many timers as that sum says before the drain begins |
| Timers.SteadyEnds | src/mloop.c:361-384 | with callbacks like this the loop ends, within as many rounds |
| Timers.FiredInOrder | src/mloop.c:361-384 | over any number of rounds the deadlines of fired timers never decrease when a callback adds only to its own timer |
| Timers.ZeroIntervalNeverDrains | src/mloop.c:142-148 | while a timer with a callback and interval 0 is due and callbacks add to it, the loop is not over after any number of rounds, whatever other timers are in the list |
| Timers.DueForEverReached | src/mloop.c:142-148 | adding 0 to a timer that was never armed makes such a timer |
| Timers.Endless | src/mloop.c:361-384 | when a callback is due and a timer can be armed without an interval, there are callbacks that read the clock once and keep the loop busy for ever |
| Timers.DrainEndsIff | src/mloop.c:361-384 | under all callbacks that make no unarmed timers the drain ends, if and only if the loop is stopped, no due timer has a callback, or every live timer with a callback has an interval |
| Timers.DrainEndsRawIff | src/mloop.c:361-384 | under all callbacks, also those that make unarmed timers, it ends if and only if the loop is stopped or no due timer has a callback |
| Timers.OverOnce | src/mloop.c:361-384 | a loop that ends has one result |
| Timers.ExecEffect | src/mloop.c:97-158 | what each operation does to the timer that it names, and that it does nothing to any other |
| Timers.StopsIff | src/mloop.c:491-494 | behind any operations the loop is running if and only if it was and none of them stops it |
| Timers.StopIsLast | src/mloop.c:361-384 | a timer whose callback stops the loop is the last one that fires |
| Timers.StopEnds | src/mloop.c:361-384 | so it is behind any number of rounds: when the i-th callback of a drain stops the loop, exactly the timers up to it fire |
| Timers.StopLeavesPending | src/mloop.c:361-384 | every timer behind it that the callback does not touch stays as it was, pending with its deadline |
| Timers.NeverStopped | src/mloop.c:361-384 | a drain whose callbacks never stop the loop leaves it running |
| Timers.NeverStoppedComplete | src/mloop.c:361-384 | and when it ends no pending timer is due |
| Timers.NextTimerIff | src/mloop.c:349-359 | the timeout is not too long for any pending deadline if and only if the earliest one is ahead or the cut difference is not positive, and it is exactly the time to it if and only if it is in addition less than 2^31 ms ahead |
| Timers.NothingPending | src/mloop.c:349-353 | with nothing pending the timeout is one second |
| Timers.NextTimerIsEarliest | src/mloop.c:349-359 | deadlines within 2^31 ms of the clock are a sufficient case |
| Timers.OverdueSleeps | src/mloop.c:349-359 | a timer that is 2^31 + 4 ms overdue gets a timeout of 0x7FFFFFFC ms |
| Timers.MLoop.TimerCancel | src/mloop.c:150-158 | the timer leaves the list and is not pending; true exactly when it was |
| Timers.MLoop.TimerSetTo | src/mloop.c:120-132 | the timer is pending with the new deadline, sorted in once |
| Timers.MLoop.RearmIn | src/mloop.c:134-140 | armed relative to the clock; a positive interval replaces the old one |
| Timers.MLoop.RearmAdd | src/mloop.c:142-148 | armed relative to its last deadline; a positive interval replaces the old one |
| Timers.MLoop.Create | src/mloop.c:97-105 | a new armed timer, none for an interval that is not positive |
| Timers.MLoop.CreateUnarmed | src/mloop/timer.c:6-21 | a new timer that is not armed and has no interval |
| Timers.MLoop.Dispose | src/mloop/timer.c:30-40 | a deleted timer is not pending |
| Timers.MLoop.HandleTimers | src/mloop.c:361-384 | whenever its loop ends, the state and the log are those of the rounds |
| Packets.SplitConserves | src/mloop/iopkg.c:7-60 | packages and rest together are the stream; the sentinel stands once in every package, at its end, and never in the rest |
| Packets.SplitUnique | src/mloop/iopkg.c:17-27 | there is no other way to cut a stream like this |
| Packets.SplitAppend | src/mloop/iopkg.c:7-60 | what one piece leaves over is where the next one continues |
| Packets.ChunkIndependence | src/mloop/iopkg.c:7-60 | for every way of cutting a stream into chunks the packages and the rest are those of the whole stream, and nothing is lost |
| Packets.IoPkg.DataCb | src/mloop/iopkg.c:7-60 | hands the packages of buffer and chunk to the callback, if there is one, and keeps the rest; a buffer exists exactly while it holds something |
| Packets.Deliver | src/mloop/iopkg.c:17-27 | the search loop cuts the data at every sentinel |
| Packets.ShiftLeft | src/mloop/iopkg.c:46-54 | the rest moves to the front of its own buffer although the ranges overlap |
| Packets.ReadAll | src/mloop/ioreader.c:11-32 | the growing buffer holds exactly the bytes that were read, in order; reading goes on with room in the buffer until a `read` returns nothing, and no longer |
| Packets.OnReadable | src/mloop/ioreader.c:8-38 | one event delivers the packages of the buffered bytes and of everything that could be read, and then reports the end of the file, each only if there is a callback for it |
| Packets.ReadEvents | src/mloop/ioreader.c:8-38 | any number of events, with any flags and results of `read`, delivers the packages of the stream read so far; every event that allows it was read until nothing came |
| Splitting.CstrSplit | src/cstr.c:329-352 | the loop over `strstr` computes the parts, with a limit also for an empty separator |
| Splitting.StrJoin | src/str.c:499-511 | the parts with the separator between them |
| Splitting.JoinSplit | src/cstr.c:329-352 | joining the parts gives the string back, for every separator and limit with which the loop ends |
| Splitting.SplitCut | src/cstr.c:329-352 | at most `maxsplit` cuts, each at the first occurrence of the separator; only the limit leaves separators in the last part |
| Splitting.LeftmostClean | src/cstr.c:329-352 | no part in front of a cut contains the separator |
| Splitting.SplitIff | src/cstr.c:329-352 | the parts are the only ones that join to the string and are cut at first occurrences |
| Splitting.ReplaceSubstitutes | src/str.c:537-548 | replacing is substitution from left to right, without overlap, at most `count` times |
| Paths.PathNormpath | src/path.c:134-171 | the loop over the parts computes the normal form |
| Paths.NormStepWalk | src/path.c:144-156 | one round of the loop does to the parts what entering the next component does to a directory |
| Paths.NormpathResolves | src/path.c:134-171 | the normal form leads where the path leads, from every directory; ".." stays at the root |
| Paths.NormpathFixed | src/path.c:134-171 | the normal form is canonical, canonical paths are exactly those that stay as they are, and normalising twice is normalising once |
| Paths.CanonicalText | src/path.c:134-171 | canonical paths are a slash, a dot, or plain components, none of them empty or a dot, with ".." only in front of a relative path |
| Paths.CanonicalUnique | src/path.c:134-171 | canonical parts that lead to the same place from every directory are the same |
| Paths.NormpathComplete | src/path.c:134-171 | two paths have the same normal form if and only if both or neither are absolute and they lead to the same place from every directory |
| Paths.PathJoinResolves | src/path.c:89-99 | a joined path leads where the second leads from the end of the first |
| Paths.PathJoinComponents | src/path.c:89-99 | joining adds no component that the two paths do not have: the components of a relative second path follow those of the first without the empty one at its end |
| Paths.LastComponent | src/path.c:89-99 | that component is there exactly when the first path is empty or ends with a slash |
| Paths.NormpathOfJoin | src/path.c:89-171 | normalising both paths before joining does not change the normal form of the join |
| Ip.MaskBitsValue | src/ip.c:150-155 | masking the lowest bits of a byte, in both directions, as arithmetic; the check holds when masking changes nothing |
| Ip.CheckMasked | src/ip.c:123-141 | the loop from the last byte with the checking callbacks, for every prefix length |
| Ip.MaskInPlace | src/ip.c:123-141 | the loop with the masking callbacks changes exactly the host bits |
| Ip.MaskDataValue | src/ip.c:182-195 | masking the bytes is masking the number that they spell |
| Ip.MaskedValue | src/ip.c:197-212 | the network address is V - V mod 2^H and the broadcast address that plus 2^H - 1 (section 3.1 of RFC 4632), for prefix lengths inside bytes too; without a prefix length both are the address itself |
| Ip.CheckValue | src/ip.c:143-155 | the checks hold exactly when the host part is 0 or, inverted, 2^H - 1 |
| Ip.TypeMeaning | src/ip.c:157-175 | network, broadcast and plain addresses in terms of the host part |
| Ip.MaskedTypes | src/ip.c:157-175 | with two host bits or more a network address is classified as one and a broadcast address as one |
| Ip.SmallTypes | src/ip.c:157-175 | an address is plain exactly when it has no prefix length, a host exactly when the prefix length is in range and network and broadcast address are equal, and point-to-point exactly when these differ by 1 |
| Ip.ConvertMasks | src/ip.c:269-283 | converting to a mapped IPv6 address (section 2.5.5.2 of RFC 4291) commutes with masking while the prefix length does not wrap around |
| Ip.ConvertedValue | src/ip.c:269-283 | the mapped address is 0xFFFF times 2^32 plus the address, with 96 added to the prefix length; converting again changes nothing |
| Ip.ConvertNetworkIff | src/ip.c:269-283 | for network addresses it commutes only then |
| Ip.ConvertBroadcastIff | src/ip.c:269-283 | for broadcast addresses it commutes only then or when the prefix length is 240 or more and all bits of the address are set |
| Ip.ConvertTypeIff | src/ip.c:269-283 | the classification survives conversion if and only if the prefix length plus 96 stays below 255 or there is none |
| Ip.Ip.Type | src/ip.c:157-175 | the classification of the stored address |
| Ip.Ip.NetworkOf | src/ip.c:197-212 | a new object with the masked address; the old one keeps its value |
| Ip.Ip.ConvertInet6 | src/ip.c:269-283 | the object holds the mapped address; true exactly for an IPv4 address |

## Left out

- Cstr.CstrUnrepr: requires text in which no escape is cut short, because on all others the code reads behind the terminator; Cstr.UnreprIff says that this is exactly so.
- StrObject.Str.Unrepr: requires the same.
- StrObject.Str.DeleteAt: requires an index in front of the end of a text that is not empty; with another one `cstr_ncopy` measures a source that starts behind the buffer. The index is an `int`, as the code converts it.
- Splitting.CstrSplit: requires a separator that is not empty or a limit; without both the loop never ends and there is no result.
- JsonText.DOUBLE_TEXT: the text that the C library prints for a double is a constant function of which nothing is known. The round trips are about trees for which it is a number with a fraction or an exponent, or infinity or NaN behind a minus (`JsonRoundTrip.SpeltDoubles`), and give back the doubles as they were printed, because `%g` loses digits. Doubles are texts; their values are not modelled.
- JsonPath.Json.SetNode: the tree is a value, so a change of the addressed node is shown as a new root; aliases into the tree and the deletion of replaced objects are not modelled. Stored objects are never NULL.
- Lists.LinkedList.Remove: objects are compared by address and are not deleted with their nodes; ownership is not modelled.
- Maps.LinkedMap.Filter: values are never NULL, because a NULL value ends the iteration. The nodes are those of the list model, with a key and a value in each.
- Timers.RunKeepsIff: deadlines and clock readings are unbounded numbers; only the comparison and the timeout are cut to `int`. Operations on deleted timers, undefined in C, do nothing.
- Timers.DrainEndsIff: a callback is a finite list of timer operations with a clock that does not run backwards; which one runs may depend on the number of the round.
- Timers.MLoop.HandleTimers: requires a drain that ends, because the loop of one that does not end has no result; when it ends is what Timers.DrainEndsIff says.
- Packets.IoPkg.DataCb: a callback that touches the packetiser itself is not modelled.
- `size_t` arithmetic in `max(0, size - len)` and buffer lengths are mathematical integers; wrap-around of lengths is not modelled.
- Stamps that record in which order timers were armed, and the list of all timers, exist only in the model.
- Signals, epoll, files, sockets, serial lines, child processes, events, syslog, regular expressions, dates and the formatting of `vformat`: calls into the system and the C library.
- `mloop_timer_remaining`, `list_sort`, `list_insert_at`, `cstr_escape` and `cstr_unescape`, `path_split`, text of addresses (`inet_pton`, `inet_ntop`): left out, easy or library code.
- Class dispatch, reference counting, `memtracer` and `argparse`: not part of this model.
