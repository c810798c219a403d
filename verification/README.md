# A verified model of the device-access kit's core

The kit in `protocol-implementation-demo/sdk` connects devices to an edge gateway: it keeps device data
in C records, carries them as JSON over a websocket, correlates requests with replies, queues outgoing
messages in a ring and handles incoming ones on a thread pool. This project models the four parts of it
that hold state or do arithmetic, in Dafny, and proves what they are for.

**The JSON codec** (`utility/json/cJSON.c`). Two layers. The pure layer says what a text *is*:
`Render.Text` (the formatted or unformatted print of a tree), `JsonString.Escape`, `Utf8.SpellsInUtf8`
(the table of RFC 3629, section 3), `JsonNumber.DecimalText` and `Strtod`, `Grammar.ParseDocument`,
`Minify.Minify`, `Compare.MeaningOf`. The imperative layer is the code in its own form: a class
`PrintBuffer` with the buffer, offset and two bookkeeping conventions of `printbuffer`, a class
`ParseBuffer` with the cursor and depth of `parse_buffer`, the in-place loop of `cJSON_Minify`, and a class
`Item` with the `next`, `prev` and `child` pointers of `cJSON`. Every method of the second layer is proved
equal to its function in the first, and the theorems (round trips, exact space bound, minification,
equality of trees) are proved about the functions.

`Conformance` adds an independent reference: the grammar of RFC 8259 as concrete syntax trees, with
arbitrary white space, escapes and numerals, each with the value it denotes. The parser does not accept
all of that grammar: it copies at most 63 characters of a numeral and nests at most 1000 deep. A text is
accepted, and gives the value it denotes, exactly when it stays within both bounds; without the terminator
check a lone longer numeral is cut instead of refused. (A value is what a C string can hold of it: a NUL in
a string ends it.) Conversely, not everything accepted is a text of the grammar (`Language.LeadingZeroIsAccepted`),
and `Language` proves what is: the lenient texts, which have the same shape with the leaves the parser takes
(control characters as white space, numerals as strtod reads them, the literals of `Literals`), within the two
bounds and perhaps behind a byte order mark. `Literals` describes string literals by their characters alone:
any byte but the quote and the backslash, eight escapes, code units in digits of either case, and `\u` with
four bytes that are no digits. `PrintSyntax` writes the print down a second time, as tokens with the white
space between them: every print is a text of the grammar that means its tree, and its strings are the
shortest there are. Without the terminator check it is such a value at the
front of any text. `MinifyPieces` says without a scan what `cJSON_Minify` does, and `MinifyMeaning` that it keeps
the value of every text of the grammar. `Locality` proves that what the parser makes of a value does not
depend on what follows it, unless it is a number and more number characters follow: then a longer numeral may
be read.

Bytes are integers from 0 to 255; the source's masks and shifts are written as divisions and remainders,
and `Utf8.MasksAreRemainders` proves on 32-bit words that they are the same.

**The thread pool** (`utility/threadpool/threadpool.c`). `PoolQueue` holds what each lock section does to
the shared fields and proves the circular array a queue; `Pool` does the same in place; `PoolMachine` is
the step system: workers in front of the lock, on the condition variable, in a task or gone, a caller of
destroy that joins them one by one, and a history of what was accepted, taken and returned. Every lock
section is one step and steps interleave freely; a signal may wake more than one worker and workers may
wake for no reason.

**The send ring** (`utility/ali_ws/wsc_buffer_mgmt.c`). Slots whose length 0 means empty, two indices that
wrap lazily, a push that never looks whether its slot is free, a pop whose callback result is compared as
an unsigned number, and a clear of eight slots.

**The reply table** and **device data** (`leda.c`). Callers of `leda_send_method` insert an entry, send,
wait and remove it, while responses arrive; and the two conversions between records and JSON. `FieldNumbers`
says what numbers the text fields hold by the numerals in them.

Hypotheses the theorems carry because the code does not establish them by itself:

- pool: pthread calls succeed, tasks return, destroy is not called by a worker, and `threadpool_create`
  is one step (nobody can add before it returns, and a worker that runs early finds an empty queue);
- reply table: message ids are distinct and lie between 1 and `INT_MAX`; `MessageIds` says exactly when the
  code draws such ids, since `_ws_get_msg_id` reads the counter after it released the lock
  (`leda.c:347-349`). In `ReplyTable` looking up an entry and using it is one step, although the code takes
  the lock twice and posts behind the second (`leda.c:433-447`); `ReplyRace` drops this for a response;
- ring: the ring has at least one slot, and at least eight when it is cleared (the kit creates it with
  1024, `utility/ali_ws/ws_client.c:42`).

Where code and documentation disagree the model follows the code: the header advises five bytes more than
needed for `cJSON_PrintPreallocated` because the estimate is "not always 100% accurate"
(`utility/json/cJSON.h:152`); the code needs exactly the text, its NUL and one byte, never more.

Properties a reader might expect that are false of the code, each with an input and the exact condition:

- a copy compares equal to its original if and only if members with the same key agree
  (`Compare.CopyComparesEqual`; `RepeatedKeyBreaksReflexivity`);
- a text of RFC 8259 is accepted, with the terminator check, if and only if it is nested at most 1000 deep
  and no numeral in it is longer than 63 characters (`Conformance.EveryTextParses`; `SixtyFourDigits`);
- not only texts of RFC 8259 are accepted: with the terminator check a text is accepted if and only if it is,
  perhaps behind a mark, a lenient text with short numerals, nested at most 1000 deep
  (`Language.AcceptedIffText`; `LeadingZeroIsAccepted`), and without the check if and only if such a value
  stands at its front (`Language.AcceptedIffBegins`);
- `cJSON_Minify` stays inside a C string if and only if the text divides into white space, closed comments,
  closed literals and other characters (`MinifyPieces.MinifiedIffDivided`; `UnclosedOverruns`);
- on a ring that holds its messages in cyclic order, as every clear-free run that loses nothing leaves it, a
  push is an append if and only if fewer messages wait than there are slots (`SendRing.PushAppendsIffRoom`;
  `OverflowBreaksOrder`), and a clear-free run loses nothing if and only if its backlog stays within the
  ring (`SendRing.FirstInFirstOut`);
- a push stays in the block of its slot if and only if it does not overwrite an occupied slot with a message
  that is too long for the common size and whose new block, its padding and NUL included, is shorter than the
  old message (`SlotMemory.PushInBoundsIff`; `OverflowCanLeaveTheBlock`);
- a clear empties the ring if and only if nothing lies behind slot 7 (`SendRing.ClearKeepsLaterSlots`;
  `ClearLeavesTheNinth`);
- device data comes back unchanged if and only if every record holds a canonical value: the decimal text of
  an int, a whole number with six decimals, the unformatted print of a tree nested at most 998 deep, any
  text (`DeviceData.SurvivesIffCanonical`; `LeadingZerosAreLost`);
- the write and the post of a response find their entry, in an interleaving of all lock sections, if and only
  if no caller takes its entry out between the lookup of a response with its id and that task's write or post
  (`ReplyRace.DanglingIffOvertaken`; `TimeoutRace`, `PostRace`, `RepeatedResponseRace`); no caller does when none
  gives up and no two printable responses carry one id (`NoRaceWithoutGivingUp`);
- two calls have different message ids if and only if the increments between their reads of the counter are not
  a multiple of 2^32, such as none (`MessageIds.OneIdIffWrapped`; `TwoCallsOneId`).

## Model

| member | source | states |
|---|---|---|
| Utf8.SpellingIsOneToOne | protocol-implementation-demo/sdk/utility/json/cJSON.c:640-670 | the table of RFC 3629, section 3, pairs code points and byte sequences one to one, so "the encoding" is well defined |
| Utf8.EncodingSpells | protocol-implementation-demo/sdk/utility/json/cJSON.c:640-689 | the bytes the encoder writes for a code point are the row of that table for it |
| Utf8.MasksAreRemainders | protocol-implementation-demo/sdk/utility/json/cJSON.c:672-687 | on 32-bit words, the masks and shifts that write a code point equal the divisions and remainders of the model |
| Utf8.PairMasksAreRemainders | protocol-implementation-demo/sdk/utility/json/cJSON.c:540-638 | so do those that put a surrogate pair together and the shift that collects hexadecimal digits |
| Utf8.Hex4IsSpelled | protocol-implementation-demo/sdk/utility/json/cJSON.c:540-573 | the number is h exactly when four digits, found at their places in the tables 0123456789abcdef and 0123456789ABCDEF, denote h |
| Utf8.ParseHex4 | protocol-implementation-demo/sdk/utility/json/cJSON.c:540-573 | four such digits, in either case and mixed, give the number they denote, anything else gives 0 |
| Utf8.Utf16LiteralToUtf8 | protocol-implementation-demo/sdk/utility/json/cJSON.c:577-695 | writes exactly the encoding behind the output so far and nothing when the literal is refused; the code point is at most 0x10FFFF wherever the bytes are written, so the "invalid codepoint" branch is unreachable |
| Utf8.ScalarLiteralsDecode | protocol-implementation-demo/sdk/utility/json/cJSON.c:577-695 | every Unicode scalar value written as one or two literals decodes to its RFC 3629 bytes and consumes exactly those literals |
| Utf8.AcceptedLiteralsAreScalars | protocol-implementation-demo/sdk/utility/json/cJSON.c:587-638 | literals in valid digits are accepted exactly when they spell a scalar value: lone and misordered surrogates are refused |
| JsonString.DecodeFits | protocol-implementation-demo/sdk/utility/json/cJSON.c:711-799 | for every input, well formed or not, the decode pass writes at most as many bytes as the scan pass counted, even when the passes are out of phase |
| JsonString.QuotedParses | protocol-implementation-demo/sdk/utility/json/cJSON.c:698-946 | parse_string undoes print_string_ptr on every NUL-free string, whatever follows it, and stops behind its closing quote |
| Literals.StringParses | protocol-implementation-demo/sdk/utility/json/cJSON.c:698-824 | every literal that the character grammar of `Literals` describes is taken whole, whatever follows, and gives the bytes its characters denote; those of section 7 of RFC 8259 are among them |
| Literals.TextTree | protocol-implementation-demo/sdk/utility/json/cJSON.c:698-824 | and nothing else is taken: an accepted literal has such characters, up to the first quote behind an even number of backslashes |
| Literals.UnknownEscapeIsRefused | protocol-implementation-demo/sdk/utility/json/cJSON.c:794-795 | behind any characters of section 7, a backslash and any letter but the eight and u end the parse |
| Parser.ScanString | protocol-implementation-demo/sdk/utility/json/cJSON.c:711-733 | the scan loop finds the first unescaped quote and counts the escape pairs before it |
| Parser.DecodeString | protocol-implementation-demo/sdk/utility/json/cJSON.c:744-802 | the decode loop stays inside the output sized by the scan, leaves room for the NUL and produces the decoded string |
| JsonNumber.DecimalTextReads | protocol-implementation-demo/sdk/utility/json/cJSON.c:266-340 | the text of an integer of at most 15 digits is read back as that integer and nothing more is consumed |
| JsonNumber.DecimalTextLength | protocol-implementation-demo/sdk/utility/json/cJSON.c:474-537 | that text has at most 16 characters, so it fits the number buffers of printer and parser |
| JsonNumber.ValueIntSaturates | protocol-implementation-demo/sdk/utility/json/cJSON.c:322-334 | valueint is the limit exactly at and beyond a limit, and between them the number with its fraction cut off toward zero |
| Printer.PrintBuffer.Ensure | protocol-implementation-demo/sdk/utility/json/cJSON.c:373-456 | succeeds exactly when the bytes asked for and one more fit into what the buffer can become, and keeps what is printed |
| Printer.PrintBuffer.UpdateOffset | protocol-implementation-demo/sdk/utility/json/cJSON.c:459-471 | moves the offset to the first NUL behind it |
| Printer.PrintBuffer.PrintStringPtr | protocol-implementation-demo/sdk/utility/json/cJSON.c:827-946 | the count of the first pass is exact: the closing quote directly follows the last escaped byte, and success depends only on the exact length |
| Printer.PrintBuffer.PrintNumber | protocol-implementation-demo/sdk/utility/json/cJSON.c:474-537 | the decimal text and its NUL follow what was printed, inside the reserved span |
| Printer.PrintBuffer.PrintArray | protocol-implementation-demo/sdk/utility/json/cJSON.c:1435-1494 | prints exactly the text of the array at the current depth, and succeeds exactly when it fits |
| Printer.PrintBuffer.PrintObject | protocol-implementation-demo/sdk/utility/json/cJSON.c:1606-1717 | prints exactly the text of the object with its indentation, and succeeds exactly when it fits |
| Printer.PrintBuffer.PrintValue | protocol-implementation-demo/sdk/utility/json/cJSON.c:1267-1338 | the buffer holds the old text, the text of the value and a NUL; success if and only if two bytes more than the text fit; every write lies in the span ensure reserved |
| Printer.Print | protocol-implementation-demo/sdk/utility/json/cJSON.c:1087-1160 | the result is a fresh array of exactly the text and its NUL |
| Printer.PrintBuffered | protocol-implementation-demo/sdk/utility/json/cJSON.c:1162-1190 | the same text for any first size, 0 included |
| Printer.PrintPreallocated | protocol-implementation-demo/sdk/utility/json/cJSON.c:1192-1209 | succeeds if and only if the given length is at least the text and two bytes, and then holds the text |
| Render.TextIsNulFree | protocol-implementation-demo/sdk/utility/json/cJSON.c:459-471 | no print contains a NUL, so strlen finds its end |
| PrintSyntax.PrintIsGrammar | protocol-implementation-demo/sdk/utility/json/cJSON.c:827-946 | both prints of a Raw-free tree are texts of RFC 8259 that mean the tree |
| PrintSyntax.TextIsSpelled | protocol-implementation-demo/sdk/utility/json/cJSON.c:1267-1717 | the print at any depth is the spelling of these tokens and this white space: a space behind the commas of an array, each member on its own line behind one tab per level, a tab behind its colon, the closing brace on its own line; unformatted none |
| PrintSyntax.PrintIsShortest | protocol-implementation-demo/sdk/utility/json/cJSON.c:827-946 | no string of section 7 of RFC 8259 with the same meaning is shorter than the printed one: a byte is escaped only when it must be, and by its letter if it has one |
| PrintSyntax.RawIsVerbatim | protocol-implementation-demo/sdk/utility/json/cJSON.c:1308-1323 | a raw text is printed as it stands |
| Grammar.ParseValue | protocol-implementation-demo/sdk/utility/json/cJSON.c:1212-1264 | every success consumes at least one byte and leaves the terminator unread |
| Parser.ParseBuffer.SkipWhitespace | protocol-implementation-demo/sdk/utility/json/cJSON.c:963-981 | skips the blanks and steps back when it ran off the end, so the cursor stays in the text |
| Parser.ParseBuffer.ParseNumber | protocol-implementation-demo/sdk/utility/json/cJSON.c:266-340 | hands at most 63 number characters to strtod and moves the cursor by what it read |
| Parser.ParseBuffer.ParseString | protocol-implementation-demo/sdk/utility/json/cJSON.c:698-824 | the two passes give the string of the grammar, with the cursor just past the closing quote |
| Parser.ParseBuffer.ParseArray | protocol-implementation-demo/sdk/utility/json/cJSON.c:1341-1432 | terminates on every text and gives the array of the grammar, with the depth restored; the step back before the first element is undone |
| Parser.ParseBuffer.ParseObject | protocol-implementation-demo/sdk/utility/json/cJSON.c:1497-1603 | the same for objects |
| Parser.ParseBuffer.ParseValue | protocol-implementation-demo/sdk/utility/json/cJSON.c:1212-1264 | succeeds exactly when the grammar does, with its tree, its rest of the text and the old depth; the cursor stays inside the text |
| Parser.ParseWithOpts | protocol-implementation-demo/sdk/utility/json/cJSON.c:984-1083 | byte order mark, white space, value and the terminator check, with the end of the parse |
| RoundTrip.TextParses | protocol-implementation-demo/sdk/utility/json/cJSON.c:1212-1717 | the print of a Raw-free tree, formatted or not, at any depth and in front of anything, parses back to it and stops at its end, if and only if the nesting fits the limit |
| RoundTrip.DocumentRoundTrip | protocol-implementation-demo/sdk/utility/json/cJSON.c:1000-1160 | both prints of a tree parse back to an equal tree up to the terminator exactly when it is nested at most 1000 deep |
| RoundTrip.DocumentIsPlain | protocol-implementation-demo/sdk/utility/json/cJSON.c:1000-1078 | whatever text is parsed, the tree has no Raw item and no NUL in a string, and is nested at most 1000 deep |
| RoundTrip.ReparseIsStable | protocol-implementation-demo/sdk/utility/json/cJSON.c:1000-1160 | a parsed tree with exact numbers survives printing and parsing, with trailing garbage refused |
| Conformance.EveryTextParses | protocol-implementation-demo/sdk/utility/json/cJSON.c:984-1717 | every text of the grammar of RFC 8259, and every lenient one, is a C string; with the terminator check it is accepted exactly when it is nested at most 1000 deep and no numeral has more than 63 characters, with the value it denotes; without the check a lone longer numeral is cut to the number at the start of its first 63 characters |
| Language.AcceptedIffText | protocol-implementation-demo/sdk/utility/json/cJSON.c:984-1603 | with the terminator check a C string is accepted if and only if it is, behind an optional mark, a lenient text (literals by characters, numerals and white space by their bytes) whose numerals have at most 63 characters, nested at most 1000 deep; its value is the one any such reading denotes |
| Language.AcceptedIffBegins | protocol-implementation-demo/sdk/utility/json/cJSON.c:984-1603 | without the check if and only if such a value stands at its front; the result is that value with the rest behind it, for every such reading but a number in front of more number characters |
| Language.ValueTree | protocol-implementation-demo/sdk/utility/json/cJSON.c:1212-1603 | the text that an accepted value takes is the spelling of lenient tokens that denote the value |
| Language.StrtodNumeral | protocol-implementation-demo/sdk/utility/json/cJSON.c:266-340 | what strtod reads is a lenient numeral, exactly its text, with its value |
| Language.LeadingZeroIsAccepted | protocol-implementation-demo/sdk/utility/json/cJSON.c:266-340 | 01 is accepted with the check and without, and is no text of the grammar |
| Conformance.SixtyFourDigits | protocol-implementation-demo/sdk/utility/json/cJSON.c:266-317 | a numeral of 64 digits is a text of the grammar that the parser refuses with the check and cuts without it |
| Conformance.LoadMeans | protocol-implementation-demo/sdk/utility/json/cJSON.c:266-317 | the load the parser is held to is the nesting of the value when every numeral is short enough, and above every limit otherwise |
| Conformance.ValueParses | protocol-implementation-demo/sdk/utility/json/cJSON.c:1212-1603 | the same for a value inside a text, at any depth, up to exactly its end; an overlong numeral leaves the parser in front of a number character |
| Conformance.LongNumberParses | protocol-implementation-demo/sdk/utility/json/cJSON.c:266-340 | a numeral of more than 63 characters is read as the number at the start of its first 63 |
| Conformance.NumeralReads | protocol-implementation-demo/sdk/utility/json/cJSON.c:311-316 | a numeral of section 6 of RFC 8259, and a lenient one, is read to its end as the number it denotes |
| Minify.MinifyInPlace | protocol-implementation-demo/sdk/utility/json/cJSON.c:2629-2697 | the loop leaves the minified text in the array it reads from; the write index never passes the read index |
| Minify.FormattingVanishes | protocol-implementation-demo/sdk/utility/json/cJSON.c:2629-2697 | in any context, the print of a Raw-free tree in either format minifies to its unformatted print |
| Minify.DocumentMinifies | protocol-implementation-demo/sdk/utility/json/cJSON.c:2629-2697 | minifying what cJSON_Print returns gives, byte for byte, what cJSON_PrintUnformatted returns |
| MinifyPieces.MinifiedIffDivided | protocol-implementation-demo/sdk/utility/json/cJSON.c:2629-2697 | on every C string the scan stays inside the text if and only if the text divides into white space, closed comments, closed literals and other characters; and it leaves exactly the last two, whichever division is taken |
| MinifyPieces.UnclosedOverruns | protocol-implementation-demo/sdk/utility/json/cJSON.c:2665-2688 | a quote alone and a comment that is only opened make the scan run past the terminator |
| MinifyPieces.BlockCommentGoes | protocol-implementation-demo/sdk/utility/json/cJSON.c:2665-2673 | a block comment is removed up to its first closing pair, in front of anything |
| MinifyPieces.LineCommentGoes | protocol-implementation-demo/sdk/utility/json/cJSON.c:2657-2664 | a double-slash comment is removed up to the line break or the terminator |
| MinifyMeaning.MinifyKeepsMeaning | protocol-implementation-demo/sdk/utility/json/cJSON.c:2629-2697 | every text of the grammar of RFC 8259 minifies to a text that the parser accepts exactly when it accepts the first, and reads as the same value |
| MinifyMeaning.TextMinifies | protocol-implementation-demo/sdk/utility/json/cJSON.c:2629-2697 | what is left of such a text is its tokens without the white space between them |
| Locality.ValueFront | protocol-implementation-demo/sdk/utility/json/cJSON.c:1212-1603 | the bytes of a value are read in the same way in front of any other text; of a number, in front of any text that does not go on with a number character |
| Locality.PrefixIsAnotherTree | protocol-implementation-demo/sdk/utility/json/cJSON.c:1212-1603 | no proper prefix of the unformatted print of a tree, a number included, parses to that tree |
| Compare.SameKeyIs | protocol-implementation-demo/sdk/utility/json/cJSON.c:97-118 | two keys are the same when equal, or, if case is ignored, when they have one length and differ only between the two cases of a letter |
| Compare.OneMemberCompares | protocol-implementation-demo/sdk/utility/json/cJSON.c:2878-2916 | objects of one member compare equal exactly when their keys are the same under that rule and their values compare equal both ways |
| Compare.CompareDecidesMeaning | protocol-implementation-demo/sdk/utility/json/cJSON.c:2799-2922 | for all trees, comparison is true exactly when both are consistent (same keys, same values) and equal with objects read as maps |
| Compare.DistinctIsConsistent | protocol-implementation-demo/sdk/utility/json/cJSON.c:1772-1798 | trees with distinct keys under the case rule are consistent |
| Compare.CompareIsEquivalence | protocol-implementation-demo/sdk/utility/json/cJSON.c:2799-2922 | symmetric and transitive on all trees, reflexive on trees with distinct keys |
| Compare.CopyComparesEqual | protocol-implementation-demo/sdk/utility/json/cJSON.c:2799-2922 | a tree compares equal to a copy exactly when it is consistent |
| Compare.RepeatedKeyBreaksReflexivity | protocol-implementation-demo/sdk/utility/json/cJSON.c:1772-1798 | an object that repeats a key with two values does not compare equal to its copy |
| ChildChain.Item.GetArrayItem | protocol-implementation-demo/sdk/utility/json/cJSON.c:1743-1770 | walking the chain gives the child at the index, or NULL behind the last |
| ChildChain.Item.Add | protocol-implementation-demo/sdk/utility/json/cJSON.c:1844-1871 | appends to the sequence of children; prev and next stay inverse with NULL ends |
| ChildChain.Item.InsertItemInArray | protocol-implementation-demo/sdk/utility/json/cJSON.c:2141-2168 | inserts in front of the index, appends behind the end, ignores a negative index |
| ChildChain.Item.DetachItemViaPointer | protocol-implementation-demo/sdk/utility/json/cJSON.c:2071-2099 | removes exactly that child and leaves it without neighbours |
| ChildChain.Item.DetachItemFromArray | protocol-implementation-demo/sdk/utility/json/cJSON.c:2101-2109 | the same by index; nothing happens outside the array |
| ChildChain.Item.ReplaceItemViaPointer | protocol-implementation-demo/sdk/utility/json/cJSON.c:2170-2203 | the replacement stands where the item stood, all other children are kept |
| ChildChain.Item.Duplicate | protocol-implementation-demo/sdk/utility/json/cJSON.c:2550-2627 | a recursive copy is a fresh, well-linked tree of the same value, disjoint from the original, and compares equal to it exactly when the original is consistent |
| PoolQueue.AddAppends | protocol-implementation-demo/sdk/utility/threadpool/threadpool.c:164-183 | adding appends to the pending queue exactly when there is room and no shutdown, and otherwise changes nothing; a full queue is reported exactly when it is full, a shutdown exactly when there is room |
| PoolQueue.NextTakesOldest | protocol-implementation-demo/sdk/utility/threadpool/threadpool.c:282-296 | a worker takes the oldest pending task; it waits, leaves or runs under exactly these conditions |
| Pool.Create | protocol-implementation-demo/sdk/utility/threadpool/threadpool.c:96-147 | a null pointer exactly outside the limits; otherwise an empty open queue and as many started workers as threads |
| Pool.ThreadPool.Add | protocol-implementation-demo/sdk/utility/threadpool/threadpool.c:149-197 | the fields in place follow the step, with a full queue reported before a shutdown |
| Pool.ThreadPool.Next | protocol-implementation-demo/sdk/utility/threadpool/threadpool.c:276-307 | the fields in place follow the step of a worker |
| Pool.ThreadPool.Destroy | protocol-implementation-demo/sdk/utility/threadpool/threadpool.c:207-229 | from the open state sets the graceful flag exactly when asked to and the immediate one otherwise; a second call is told so and changes nothing; the queue is untouched |
| PoolMachine.CreateEstablishes | protocol-implementation-demo/sdk/utility/threadpool/threadpool.c:102-138 | creation is refused exactly outside the limits, and a new pool satisfies the invariant |
| PoolMachine.StepKeeps | protocol-implementation-demo/sdk/utility/threadpool/threadpool.c:149-310 | every step of every thread keeps the invariant of queue, tasks, wake-ups and shutdown |
| PoolMachine.NoLostWakeup | protocol-implementation-demo/sdk/utility/threadpool/threadpool.c:179-303 | in every reachable state before the flag, either no worker waits or the awake idle workers are at least as many as the pending tasks: one signal per add is enough |
| PoolMachine.PendingWorkMoves | protocol-implementation-demo/sdk/utility/threadpool/threadpool.c:276-303 | while a task is pending some worker can take a step |
| PoolMachine.WindowIsAcceptedMinusTaken | protocol-implementation-demo/sdk/utility/threadpool/threadpool.c:164-296 | in every reachable state the tail is (head + count) modulo the size and the array window is the accepted tasks without the taken ones, in order |
| PoolMachine.StepIsLater | protocol-implementation-demo/sdk/utility/threadpool/threadpool.c:173-219 | once the flag is set it stays and nothing is accepted; under immediate shutdown nothing is taken either |
| PoolMachine.StepLowersRank | protocol-implementation-demo/sdk/utility/threadpool/threadpool.c:199-310 | after the flag every step either changes nothing or lowers the rank |
| PoolMachine.ShutdownEnds | protocol-implementation-demo/sdk/utility/threadpool/threadpool.c:199-310 | so every run after the flag has at most rank many progress steps |
| PoolMachine.ShutdownNeverSticks | protocol-implementation-demo/sdk/utility/threadpool/threadpool.c:231-244 | and until destroy has returned a progress step is possible |
| PoolMachine.ShutdownCanFinish | protocol-implementation-demo/sdk/utility/threadpool/threadpool.c:199-310 | from every state after the flag some continuation of the run brings destroy to its end |
| PoolMachine.GracefulShutdownIsComplete | protocol-implementation-demo/sdk/utility/threadpool/threadpool.c:199-310 | in every interleaving, when a graceful destroy is done every accepted task was taken in acceptance order and ran exactly once, no worker is left and the pool was freed |
| PoolMachine.DestroyGracefullyRunsEverything | protocol-implementation-demo/sdk/utility/threadpool/threadpool.c:199-310 | from every reachable open state, a destroy with the graceful flag and any steps up to its return run every accepted task exactly once, in acceptance order, with no worker left and the pool freed |
| PoolMachine.ImmediateShutdownDropsTheWindow | protocol-implementation-demo/sdk/utility/threadpool/threadpool.c:199-310 | an immediate destroy lets exactly the tasks taken before it run, each once, and drops exactly the pending window |
| SendRing.NegativeCountsAsSent | protocol-implementation-demo/sdk/utility/ali_ws/wsc_buffer_mgmt.c:118-125 | a callback result keeps the message exactly when it is non-negative and short: a negative result counts as sent |
| SendRing.PushAppendsIffRoom | protocol-implementation-demo/sdk/utility/ali_ws/wsc_buffer_mgmt.c:69-92 | on a ring that holds its messages in cyclic order a push is an append if and only if there is room; on a full ring it replaces the oldest message and is offered next |
| SendRing.PopTakesOldest | protocol-implementation-demo/sdk/utility/ali_ws/wsc_buffer_mgmt.c:107-131 | a complete write retires the oldest message, a short one leaves it in place with an error, an empty ring is a success |
| SendRing.FirstInFirstOut | protocol-implementation-demo/sdk/utility/ali_ws/wsc_buffer_mgmt.c:58-132 | a clear-free run of a new ring loses nothing if and only if its backlog stays within the ring; and then the i-th delivery is the payload of the i-th push of the run with one NUL behind it and its type, and the occupied slots are exactly the cyclic window between the indices |
| SendRing.OverflowBreaksOrder | protocol-implementation-demo/sdk/utility/ali_ws/wsc_buffer_mgmt.c:69-92 | three pushes into two slots deliver the third first and lose the first |
| SendRing.PushedIsPushes | protocol-implementation-demo/sdk/utility/ali_ws/wsc_buffer_mgmt.c:58-146 | the messages on record are, in order, the payloads of the pushes of the run with one NUL behind each, and their types |
| SendRing.EveryPushHasOneFate | protocol-implementation-demo/sdk/utility/ali_ws/wsc_buffer_mgmt.c:58-146 | in every run, with overflow and partial clears, each push is exactly one of retired, occupying, overwritten or cleared, once, and every delivery is the payload of its push with its NUL and type |
| SendRing.ClearKeepsLaterSlots | protocol-implementation-demo/sdk/utility/ali_ws/wsc_buffer_mgmt.c:134-146 | a clear empties the first eight slots only, and leaves an empty ring if and only if the others were empty |
| SendRing.ClearLeavesTheNinth | protocol-implementation-demo/sdk/utility/ali_ws/wsc_buffer_mgmt.c:134-146 | nine pushes take a new ring of more than eight slots to a state from which a clear leaves slot 8 occupied |
| SlotMemory.PushInBoundsIff | protocol-implementation-demo/sdk/utility/ali_ws/wsc_buffer_mgmt.c:74-89 | a push writes outside the block of its slot exactly when it overwrites an occupied slot with a message too long for the common size whose new block is shorter than the old message |
| SlotMemory.StepFits | protocol-implementation-demo/sdk/utility/ali_ws/wsc_buffer_mgmt.c:74-92 | every block keeps the common size at least and holds the message of its slot behind the padding, after every step |
| SlotMemory.LosslessRunsStayInBounds | protocol-implementation-demo/sdk/utility/ali_ws/wsc_buffer_mgmt.c:58-132 | a clear-free run of a new ring that overwrites no message stays inside its blocks |
| SlotMemory.OverflowCanLeaveTheBlock | protocol-implementation-demo/sdk/utility/ali_ws/wsc_buffer_mgmt.c:74-89 | two pushes into one slot leave the block when the second is long enough to cut it and the first was longer still |
| SendRing.MessageBuffer.PushMessage | protocol-implementation-demo/sdk/utility/ali_ws/wsc_buffer_mgmt.c:58-98 | the slots and indices in place follow the step, and the slot written holds the payload with one NUL behind it and its type; a null buffer is refused and changes nothing |
| SendRing.MessageBuffer.PopMessage | protocol-implementation-demo/sdk/utility/ali_ws/wsc_buffer_mgmt.c:100-132 | the slots and indices in place follow the step, and the callback is given the message under the read index |
| SendRing.MessageBuffer.ClearMessages | protocol-implementation-demo/sdk/utility/ali_ws/wsc_buffer_mgmt.c:134-146 | the loop empties eight slots and rewinds both indices |
| ReplyTable.RemoveTakesOne | protocol-implementation-demo/sdk/leda.c:403-427 | among distinct ids, removing takes out the one entry with the id and keeps every other |
| ReplyTable.ReplyList.GetReplyByMsgId | protocol-implementation-demo/sdk/leda.c:352-370 | the loop finds the first entry with the id |
| ReplyTable.ReplyList.SetReplyResult | protocol-implementation-demo/sdk/leda.c:429-450 | writes code and, unless null, payload into that entry and posts it, or reports that there is none |
| ReplyTable.ReplyList.RemoveReply | protocol-implementation-demo/sdk/leda.c:403-427 | the list in place loses that entry, if there is one |
| ReplyTable.ReplyList.InsertReply | protocol-implementation-demo/sdk/leda.c:372-401 | a new entry at the head of the list, with the code for an unknown error |
| ReplyTable.ReplyList.GetReplyResult | protocol-implementation-demo/sdk/leda.c:452-499 | unknown id, failing clock, time-out and answer each give their code, an answer also its code and payload, and every path that found the entry removes it |
| ReplyTable.StepKeeps | protocol-implementation-demo/sdk/leda.c:352-499 | every step of a caller or a response keeps the invariant of table, callers and responses |
| ReplyTable.ReturnedCodeIsItsOwn | protocol-implementation-demo/sdk/leda.c:947-972 | a code returned as the outcome of a call is the code of a response that carried the caller's message id; without one the call returns an error |
| ReplyTable.ExitDecidesCode | protocol-implementation-demo/sdk/leda.c:465-499 | a call returns what the one step that ended it says: the error of sending, 100000 when the clock fails, 100006 on a time-out, or the code in its entry when it was read |
| ReplyTable.NoResponseReachesTwo | protocol-implementation-demo/sdk/leda.c:429-499 | no response decides the outcome of two callers |
| ReplyTable.LatestResponseWins | protocol-implementation-demo/sdk/leda.c:474-498 | the code a woken caller reads is that of the last printable response with its id since its entry was inserted |
| ReplyTable.TimeoutMeansSilence | protocol-implementation-demo/sdk/leda.c:474-484 | a waiting caller can time out exactly when no printable response with its id has arrived, and otherwise can wake |
| ReplyTable.EveryResponseIsMatchedOrReported | protocol-implementation-demo/sdk/leda.c:671-686 | a printable response posts exactly the entry with its id, or, without one, goes to the registered callback; any other response is dropped |
| ReplyTable.LeavingRemovesOnlyItsEntry | protocol-implementation-demo/sdk/leda.c:465-499 | every exit path after the insertion removes exactly the caller's own entry |
| ReplyTable.TableHoldsTheOpenCalls | protocol-implementation-demo/sdk/leda.c:372-427 | the table holds an entry for exactly the calls that have not returned |
| ReplyRace.DanglingIffOvertaken | protocol-implementation-demo/sdk/leda.c:429-499 | with lookup, write and post of a response as three steps, in every interleaving: a task uses a pointer to an entry that is gone if and only if, in the run, a removal of an id falls between the lookup of a response with that id and its task's write or post |
| ReplyRace.TableWithoutOvertaking | protocol-implementation-demo/sdk/leda.c:429-499 | in a run without that, every code returned as an outcome is that of a response with the caller's own id, and whenever no task is between its write and its post the table has the invariant of the system with whole steps |
| ReplyRace.NoRaceWithoutGivingUp | protocol-implementation-demo/sdk/leda.c:429-499 | when no caller gives up and no two printable responses carry one id, no run has such an overtaking |
| ReplyRace.TimeoutRace | protocol-implementation-demo/sdk/leda.c:429-484 | a time-out between lookup and write lets the task write into an entry that is gone, with one response only |
| ReplyRace.PostRace | protocol-implementation-demo/sdk/leda.c:441-484 | a time-out between write and post lets the task post a semaphore that is gone, although the write found its entry |
| ReplyRace.RepeatedResponseRace | protocol-implementation-demo/sdk/leda.c:429-499 | so do two responses with one id, although nobody gives up |
| MessageIds.OneIdIffWrapped | protocol-implementation-demo/sdk/leda.c:343-350 | with the increment and the read of the counter as two steps: two calls read one id if and only if the increments between their reads are a multiple of 2^32 |
| MessageIds.OneIdIffNotSeparated | protocol-implementation-demo/sdk/leda.c:343-350 | with fewer than 2^32 increments in all: if and only if no increment falls between their reads |
| MessageIds.DistinctIffSeparated | protocol-implementation-demo/sdk/leda.c:343-350 | with at most INT_MAX increments every id lies between 1 and INT_MAX, and all are distinct if and only if an increment falls between any two reads |
| MessageIds.ReadingAtOnceIsDistinct | protocol-implementation-demo/sdk/leda.c:343-350 | they are distinct when every read directly follows an increment, as it would under the lock |
| MessageIds.TwoCallsOneId | protocol-implementation-demo/sdk/leda.c:343-350 | two calls that both increment before they read get one id |
| DeviceData.NamesAreRead | protocol-implementation-demo/sdk/leda.c:128-181 | type names are read back as the type they name |
| DeviceData.StructDataToJsonData | protocol-implementation-demo/sdk/leda.c:183-246 | the loop builds the array of objects, or nothing when a structure does not parse |
| DeviceData.JsonDataToStructData | protocol-implementation-demo/sdk/leda.c:248-341 | the loop fills the records, or stops with the error of the first item that lacks a member |
| DeviceData.ItemOnTheWire | protocol-implementation-demo/sdk/leda.c:207-208 | the unformatted print of one record is this text around the quoted key, the name of the type and the print of the value |
| DeviceData.NamesOnTheWire | protocol-implementation-demo/sdk/leda.c:128-157 | the nine names, and "invalid" for any other number |
| DeviceData.UnknownTypeIsInvalid | protocol-implementation-demo/sdk/leda.c:236-240 | a record of an unknown type carries the text "invalid" |
| DeviceData.LookupIgnoresCase | protocol-implementation-demo/sdk/utility/json/cJSON.c:1772-1803 | a member is found by its name in any case, the first such member |
| DeviceData.StringItemIsKey | protocol-implementation-demo/sdk/leda.c:275-279 | a string in the array becomes a key of at most 63 bytes with type and value unwritten |
| DeviceData.ItemKeepsKeyAndType | protocol-implementation-demo/sdk/leda.c:281-304 | an item with the three members keeps its type, and its key up to 63 bytes, and its value decides success |
| DeviceData.TextsAreCut | protocol-implementation-demo/sdk/leda.c:315-318 | a text or date is cut to 2047 bytes |
| DeviceData.NestedAreCut | protocol-implementation-demo/sdk/leda.c:319-330 | a structure or array prints into the field, cut to 2047 bytes, or reports a failed allocation when no buffer could hold the print |
| DeviceData.ObjectCountsAsArray | protocol-implementation-demo/sdk/leda.c:259-273 | an object in place of the array counts as the array of its values, a scalar as an empty one |
| DeviceData.MissingMemberIsRefused | protocol-implementation-demo/sdk/leda.c:281-302 | an item without one of the three members is an invalid parameter |
| DeviceData.FirstFailureDecides | protocol-implementation-demo/sdk/leda.c:273-335 | the first item that is not converted decides the result |
| DeviceData.LiteralsAsIntegers | protocol-implementation-demo/sdk/leda.c:306-310 | in an integer field true is 1 and whatever else is no number is 0 |
| DeviceData.OthersAsFloats | protocol-implementation-demo/sdk/leda.c:311-314 | in a float or double field whatever is no number is 0.000000 |
| FieldNumbers.FixedIsNearest | protocol-implementation-demo/sdk/leda.c:311-314 | the text of a float or double denotes the nearest number with six decimals, ties to the even digit, signed exactly when negative |
| FieldNumbers.AtofReads | protocol-implementation-demo/sdk/leda.c:217-220 | behind white space atof gives the number a numeral denotes, fractions and exponents included |
| FieldNumbers.AtoiReads | protocol-implementation-demo/sdk/leda.c:212-216 | behind white space atoi gives the integer the digits denote, clamped to 64 bits and cut to 32 |
| DeviceData.DataTrip | protocol-implementation-demo/sdk/leda.c:183-341 | converting to JSON, printing either way, parsing and converting back keeps keys and known types and puts every value into normal form, exactly when the nesting fits the parser |
| DeviceData.SurvivesIffCanonical | protocol-implementation-demo/sdk/leda.c:183-341 | device data whose numbers are exact comes back unchanged if and only if every record has a known type and a canonical value, conditions on the record's text alone |
| DeviceData.LeadingZerosAreLost | protocol-implementation-demo/sdk/leda.c:212-216 | the integer text 007 comes back as 7 |
| DeviceData.IntegersAreNormal | protocol-implementation-demo/sdk/leda.c:212-216 | an int, bool or enum value is in normal form exactly when it is the decimal text of a 32-bit int |
| DeviceData.PrintsAreNormal | protocol-implementation-demo/sdk/leda.c:225-235 | the unformatted print of a tree under 2048 bytes is in normal form as a structure or an array |
| DeviceData.NormalNestedIsPrint | protocol-implementation-demo/sdk/leda.c:319-330 | and a structure's or an array's value in normal form is the whole print of the tree it parses to, never a cut one |

## Left out

- Rounding: numbers are exact decimal values; printing is modelled for integers of at most 15 digits, where `%1.15g` is exact, and parsing for every decimal numeral; negative zero, NaN, infinities and hexadecimal floats are not distinguished.
- Allocation failure, `cJSON_Hooks` and the locale's decimal point; `ensure` refuses for size only.
- NULL strings and keys (printed as an empty string), item references and constant-key flags, and the shortcut of `cJSON_Compare` for one and the same pointer.
- The error position that `cJSON_GetErrorPtr` reports, and concurrent use of it.
- Minify.MinifyInPlace: what the source does behind the terminator on an unclosed string or comment; when that happens is stated by MinifyPieces.MinifiedIffDivided.
- ChildChain.Item.ReplaceItemViaPointer: the replaced item is left without neighbours; its deletion is not modelled.
- PoolMachine.CreateEstablishes: takes creation as one step and leaves out the path on which a thread cannot be started.
- Calls of `threadpool_add` that are still in progress when destroy frees the pool, and failing pthread calls.
- ReplyTable.EveryResponseIsMatchedOrReported: takes looking an entry up and using it as one step; ReplyRace takes lookup, write and post of a response as three, and for the removal by its owner nothing else removes the entry.
- ReplyTable.ReplyList.SetReplyResult: the write and the post in place are one step as well; ReplyRace.Stored and PostedOnce are its two halves.
- ReplyRace.TableWithoutOvertaking: what memory holds behind a use of a pointer to a freed entry is undefined in C, so nothing is said about such a run from there on.
- The arithmetic of the timed wait: whether it ends by a post or by the clock is a free choice, limited only by the semaphore's value.
- `leda_send_method` before the insertion (the connection and null checks, building the request), `leda_asyn_send_method` beyond its responses being unmatched, and the parsing of incoming messages in front of the receiving task.
- SendRing.MessageBuffer.PushMessage: the bytes behind a slot are in SlotMemory as sizes only; a ring that was not initialised is not modelled, and the padding is taken to fit the common size.
- DeviceData.ToJson: `atoi` outside the range of `long` is taken as clamped and cut to 32 bits; `atof` as the exact value of a decimal numeral.
- DeviceData.FromJson: a null pointer handed to `snprintf` and prints of numbers outside the exact range are one outcome, `Outside`, without further description.
- The lists of `base-utils.h`: the reply list is a sequence; the linked-list reasoning is done once, for the child chain.
- libwebsockets, TLS, reconnecting, logging, configuration, the demo device and reassembly of fragments: I/O and foreign code.
