# arena-json in Dafny

A model of the C library arena-json. The library has two parts:

- `arena.h` is a region ("arena") allocator.
- `json.c` is a strict JSON parser, value tree, builder and serializer. All its memory comes from an arena.

The model proves properties of both parts.

## What is modelled

**Bytes.** A C `char` is a `byte`: a Dafny `char` below 256. A C string is the byte sequence before its first NUL (`Bytes.UpToNul`).

**The arena** (`arena.dfy`, module `Arenas`).

- The chain of regions is a sequence whose head is `begin`. `end` is an index into it, or None for NULL.
- Each region has an abstract data address, a capacity and a used count.
- `malloc` is not modelled. Its answers are parameters: the address of the new region, or None for NULL.
- The pure functions `Allocate` (`arena_alloc`), `Rewound` (`arena_reset`), `Capture` (`arena_temp_begin`) and `Restored` (`arena_temp_end`) say what each operation does to the arena.
- The class `Arena` does the same in place, with the source's `while` loops. Each method is proved to agree with its function.
- Alignment padding is computed from the address, as `arena__align_forward` computes it.

**The value tree** (`json_value.dfy`, module `JsonValues`).

- `Json` has one constructor per `JsonType`.
- The linked child lists are sequences in list order: `items` for arrays, key/value `members` for objects.
- A `double` is abstract. `Finite(text)` is a finite number, represented by the decimal text it was read from or is printed as. `NonFinite` stands for NaN and the infinities.
- `json_get` and `json_at` are methods that walk the list.
- The builder functions are `CreateString`, `Add`, `Append`, `AddString` and `AppendString`. Each NULL key or value is a `None`.
- `json_create_null`, `_bool`, `_number`, `_array` and `_object` are the datatype constructors.
- `json_add_number`, `_bool` and `_null` (and their `json_append_*` counterparts) are `Add` (`Append`) applied to `Some` of such a constructor.

**The parser.**

- `json_grammar.dfy` (module `JsonGrammar`) states what each `parse_*` function computes, as functions of the input bytes: the value read, where the cursor stops, or the error kind and the offset where it is reported.
- The error's line and column are derived from the offset (`Position`).
- `json_parser.dfy` (module `JsonParser`) is the parser as the source runs it: a `ParseState` class whose cursor, line and column move through the input.
- `ParseState` has one method per C function.
  - `parse_string` decodes escapes into an `array` the size of the raw content.
  - `parse_number` has the integer fast path and the `is_valid_json_number` check.
- Each method is proved to follow its grammar function.
  - On success it returns the same value and the same new cursor.
  - On failure it records the same error as `set_error`.
- `JsonParse` is proved equal to `Parse` on every input.

**The serializer** (`json_writer.dfy`, module `JsonWriter`).

- `Render(v, indent, pretty)` is the text `json_write_internal` produces.
- The write methods advance a position and store only when there is a buffer.
- Each method is proved to advance by the length of the text, with or without a buffer. With a buffer, it leaves the text written in place.
- `ToString` is `json_to_string`: a counting pass, an arena allocation of `len + 1` bytes, a writing pass and a NUL terminator. It is proved to yield exactly the text followed by the NUL.
- The layout of that text (`json_layout.dfy`, module `JsonLayout`) is stated against reference definitions of its own:
  - empty containers are two brackets;
  - compact text has no line breaks or tabs and does not depend on the indentation;
  - pretty text puts one element per line, two spaces deeper than its container, with `": "` after each key.

**Round trip and limits.**

- `JsonRoundTrip.ParseRender` proves that the compact text of any well-formed tree no deeper than 1001 levels parses back to the same tree. Well-formed means NUL-free strings and keys, and finite numbers in JSON syntax.
- `JsonReparse.Reparse` proves the same for every tree `json_parse` returns whose numbers fit a `double`: compact output parses back to that tree.
- `json_parse` reads the root at depth 0 (json.c:434), and `parse_array`/`parse_object` refuse a container only when it is entered at a depth above `MAX_JSON_DEPTH`, which is 1000 (json.c:248, 298). So 1001 nested arrays are accepted and 1002 are refused. `JsonDepth.NestingLimit` proves both sides for every `n`.
- `arena_temp_end` puts back only `end` and that region's count (arena.h:225-230). Regions that `arena_alloc` unlinked after `end` or linked at the tail (arena.h:129-168) stay unlinked or linked.
  - `Arenas.CheckpointRestores` proves what is restored: `end`, its count, and the chain up to and including it.
  - A checkpoint holds the end region's address, as `old_end` holds a pointer. `Arenas.RestoreFindsRegion` proves that ending it makes that region the end again, wherever allocations have moved it in the chain.

## Model

| member | source | states |
|---|---|---|
| Bytes.UpToNul | json.c:654-663 | what `strlen`/`memcpy` see of a buffer: a NUL-free prefix that stops at the first NUL or at the end |
| Bytes.HexUpper | json.c:539 | the digit `%02X` prints for a value below 16 is a hexadecimal digit that reads back as that value |
| Bytes.HexValue | json.c:144-149 | a hexadecimal digit of a `\u` escape is worth less than 16 |
| Arenas.AlignForward | arena.h:80-86 | the result is the least multiple of the (power-of-two) alignment at or above the address, and is less than one alignment above it |
| Arenas.Padding | arena.h:121-123 | fewer than ARENA_ALIGNMENT bytes are skipped, and the block then starts at an aligned address |
| Arenas.NewCapacity | arena.h:153-157 | a new region holds at least twice the old capacity, the request plus ARENA_ALIGNMENT, and ARENA_DEFAULT_BLOCK_SIZE, and its size is one of those three |
| Arenas.Allocate | arena.h:103-174 | size 0 changes nothing and returns NULL; a returned block is aligned, lies in the new end region and ends at its count within capacity; no region is over-full; regions before the old end are untouched, the old end stays the same region and end never moves back; begin stays the same region |
| Arenas.BumpProperties | arena.h:171-173 | ALLOC_PROCEED serves the block, raises the end region's count by padding plus size and leaves every other region as it was |
| Arenas.WalkProperties | arena.h:125-169 | steps 2 and 3 keep the chain up to end; either end moves one place on to a region whose count is padding plus size, or the system allocator fails and end stays put with a NULL result |
| Arenas.FitProperties | arena.h:120-169 | the first-region fit bumps the end region in place when the block fits, and otherwise leaves it untouched and moves on; the invariant and the prefix are kept either way |
| Arenas.FirstFit | arena.h:129-150 | the region adopted is the first one after end whose capacity is at least size + ARENA_ALIGNMENT; every region before it is smaller |
| Arenas.WalkAdoptsFirstFit | arena.h:129-168 | the walk unlinks exactly the too-small regions between end and the first fitting one, then reuses that region from count 0, or links a region of NewCapacity after end (NULL if `malloc` fails) |
| Arenas.WalkSkipsSmall | arena.h:145-148 | unlinking a too-small region does not change what the walk ends with |
| Arenas.Rewound | arena.h:182-190 | every region is kept with its address and capacity; end is begin with count 0, or NULL for an arena that never allocated; the rest of the chain is untouched |
| Arenas.Capture | arena.h:217-223 | the checkpoint holds the end region's address and count, or nothing and 0 when end is NULL |
| Arenas.Locate | arena.h:225-230 | finds the first linked region at an address, or reports that none is linked |
| Arenas.Restored | arena.h:225-230 | end is NULL exactly when the captured end was; otherwise end is the linked region at the captured address, with the captured count; the chain keeps its length and regions, every other region is unchanged, and no region is over-full |
| Arenas.RestoreFindsRegion | arena.h:225-230 | when the captured region is linked anywhere in the chain and addresses are distinct, ending the checkpoint makes that region the end with the captured count and changes nothing else |
| Arenas.AllocateAll | arena.h:103-174 | any series of allocations keeps every region within its capacity and end inside the chain |
| Arenas.AllocateAllKeepsPrefix | arena.h:103-174 | after any series of allocations, the regions before the starting end are identical, that end is the same region, and end has not moved back |
| Arenas.CheckpointRestores | arena.h:217-230 | a checkpoint at a non-NULL end can be ended after any series of allocations, and it restores end and the chain up to and including it exactly |
| Arenas.UsedWithinCapacity | arena.h:203-215 | the used bytes over all regions never exceed their total capacity |
| Arenas.Arena.Init | arena.h:98-101 | a new arena has no regions and a NULL end |
| Arenas.Arena.Alloc | arena.h:103-174 | the new chain, end and returned pointer are those of Allocate |
| Arenas.Arena.Grow | arena.h:129-168 | the unlinking loop and the new region give the state and pointer of the walk |
| Arenas.Arena.Proceed | arena.h:171-173 | the bump gives the state and pointer of ALLOC_PROCEED |
| Arenas.Arena.Reset | arena.h:182-190 | the new state is the rewound one |
| Arenas.Arena.Free | arena.h:192-201 | the arena is empty again: no regions, NULL end |
| Arenas.Arena.Stats | arena.h:203-215 | the region count, used bytes and total capacity the statistics loop adds up, with used never above total |
| Arenas.Arena.TempBegin | arena.h:217-223 | the checkpoint holds the current end region's address and its count (nothing and 0 for a NULL end) |
| Arenas.Arena.TempEnd | arena.h:225-230 | the new state is the restored one: the region at the captured address is the end again, with the captured count |
| JsonValues.FirstMatch | json.c:453-457 | a value is found exactly when some member's key equals the key looked up, and it is the value of the first such member |
| JsonValues.JsonGet | json.c:449-459 | NULL for a NULL object or key; otherwise the first member's value for that key, or NULL for a non-object or a missing key |
| JsonValues.JsonAt | json.c:461-474 | a value exactly when the array is not NULL, is an array and 0 <= index < length, and then it is the element at that index |
| JsonValues.CreateString | json.c:654-663 | a string holding a NUL-free prefix of the argument, the whole argument when it has no NUL |
| JsonValues.Add | json.c:698-701 | on an object with a key and a value: one more member, at the end, with the key up to its NUL, and the earlier members unchanged; otherwise the target is unchanged |
| JsonValues.Append | json.c:716-719 | on an array with a value: one more element, at the end, with the earlier ones unchanged; otherwise the target is unchanged |
| JsonValues.AddString | json.c:702-705 | adds a string member holding the value up to its NUL; a NULL string, NULL key or non-object adds nothing |
| JsonValues.AppendString | json.c:720-723 | appends a string element holding the value up to its NUL; a NULL string or non-array appends nothing |
| JsonValues.GetAfterAdd | json.c:698-701 | after json_add, json_get still finds an earlier member with that key first; otherwise it finds the added value exactly when the keys agree |
| JsonValues.AtAfterAppend | json.c:716-719 | after json_append the new element is at the old length and every earlier index is unchanged |
| JsonGrammar.Position | json.c:40-51 | the line and column of an offset are both at least 1 |
| JsonGrammar.PositionCounts | json.c:40-70 | the line is one more than the line feeds before the cursor; the column counts the bytes since the last line feed |
| JsonGrammar.PositionOverLine | json.c:35-38 | over bytes that hold no line feed, `advance_fast`'s column arithmetic gives the true position |
| JsonGrammar.ErrorAt | json.c:21-31 | the recorded error carries the kind and the cursor's offset, line and column |
| JsonGrammar.SkipWs | json.c:53-70 | the cursor stays within the input and does not move back |
| JsonGrammar.SkipWsSpans | json.c:53-70 | exactly the run of space, tab, CR and LF is skipped |
| JsonGrammar.ScanString | json.c:89-107 | a closed scan stops on a quote inside the input; a broken one is an unterminated string, an unterminated escape or a control byte |
| JsonGrammar.ScanSpans | json.c:89-118 | a scan that saw no backslash went over plain bytes only; one that saw a backslash met one |
| JsonGrammar.ScanRejects | json.c:88-107 | after plain bytes, a raw byte below 0x20 fails with "Control character in string", a backslash that ends the input fails with "Unterminated escape", and running out of input fails with "Unterminated string"; input holding no quote never closes |
| JsonGrammar.HexQuad | json.c:138-150 | four hexadecimal digits before the closing quote give a code point below 0x10000; otherwise the error is one of the two `\u` errors |
| JsonGrammar.Utf8 | json.c:151-159 | one byte up to 0x7F, two up to 0x7FF, three above |
| JsonGrammar.Utf8RoundTrip | json.c:151-159 | the bytes written decode back to the code point and have the lead and continuation bytes of RFC 3629, section 3, in shortest form |
| JsonGrammar.Unescape | json.c:121-169 | the decoded bytes are no longer than the raw content; errors are only the two `\u` errors and an invalid escape |
| JsonGrammar.StringAt | json.c:82-173 | a string ends just after a closing quote and holds no NUL; every error is reported at the first content byte |
| JsonGrammar.StringRejects | json.c:82-107 | the three scan errors of `parse_string`, each reported at the first content byte; a string with no closing quote fails |
| JsonGrammar.StringWithoutEscapes | json.c:109-118 | content with only plain bytes is copied byte for byte and the cursor moves past the closing quote |
| JsonGrammar.IntegerEnd | json.c:177-188 | an accepted integer part covers at least one byte |
| JsonGrammar.FractionEnd | json.c:190-194 | an accepted fraction ends inside the input, not before it starts |
| JsonGrammar.ExponentEnd | json.c:196-201 | an accepted exponent ends inside the input, not before it starts |
| JsonGrammar.NumberEnd | json.c:175-203 | an accepted number covers at least one byte of the input |
| JsonGrammar.NumberEndSound | json.c:175-203 | whatever is accepted is a number as RFC 8259, section 6, writes it |
| JsonGrammar.NumberEndComplete | json.c:175-203 | a number in RFC 8259 syntax, not followed by a byte that would extend or spoil it, is accepted up to exactly its end |
| JsonGrammar.FastPathAgrees | json.c:215-232 | the integer fast path accepts only where `is_valid_json_number` accepts, and stops where it stops |
| JsonGrammar.NumberAt | json.c:234-244 | a number read is exactly the accepted bytes; an invalid one fails with "Invalid number format" at its first byte |
| JsonGrammar.Element | json.c:363-414 | a value read ends after where reading started; an error lies within the input |
| JsonGrammar.LiteralAtBytes | json.c:391-409 | a literal is matched exactly when all of its bytes lie within the input and equal the literal's |
| JsonGrammar.ElementLiteral | json.c:391-414 | `true`, `false` and `null` written in full are read with the cursor just past them; a literal the input cuts short is an unexpected character at its first byte |
| JsonGrammar.ArrayAt | json.c:247-259 | what is read from `[` is an array ending after it; an error lies within the input |
| JsonGrammar.Items | json.c:262-264 | the element loop ends in an array or an error within the input |
| JsonGrammar.AfterItem | json.c:274-293 | an array read after an element ends just past a `]`; an error lies within the input |
| JsonGrammar.AfterItemRejects | json.c:274-293 | after an element, `]` closes the array with the items read; the end of input, a comma whose next non-whitespace byte is `]`, and any byte other than `,` or `]` fail with their own errors at their offsets |
| JsonGrammar.ObjectAt | json.c:297-309 | what is read from `{` is an object ending after it; an error lies within the input |
| JsonGrammar.Members | json.c:312-329 | the member loop ends in an object or an error within the input |
| JsonGrammar.KeyAt | json.c:313-326 | a key that does not start with `"` fails with "Expected string key" there; a key read ends just past its `:`; an error lies within the input |
| JsonGrammar.KeyAtDone | json.c:313-326 | an accepted key is the string read at its quote, followed by whitespace only up to the colon |
| JsonGrammar.AfterMember | json.c:340-359 | an object read after a member ends just past a `}`; an error lies within the input |
| JsonGrammar.AfterMemberRejects | json.c:340-359 | after a member, `}` closes the object with the members read; the end of input, a comma whose next non-whitespace byte is `}`, and any byte other than `,` or `}` fail with their own errors at their offsets |
| JsonGrammar.Parse | json.c:416-445 | empty input, and only empty input, gives NULL without an error; a root is returned exactly when one element read from offset 0 at depth 0 is followed by whitespace only, and it is that element; the element's error, or "Unexpected garbage after JSON data" at the first byte after it, is recorded otherwise; a recorded error's line and column are those of its offset |
| JsonParser.IsValidJsonNumber | json.c:175-203 | the scan accepts exactly the inputs the number grammar accepts |
| JsonParser.ScanInteger | json.c:177-188 | accepts exactly when there is an integer part, and stops at its end |
| JsonParser.ScanFraction | json.c:190-194 | accepts exactly when the fraction is absent or well formed, and stops at its end |
| JsonParser.ScanExponent | json.c:196-201 | accepts exactly when the exponent is absent or well formed, and stops at its end |
| JsonParser.SkipDigits | json.c:185 | stops at the first byte that is not a digit, having passed only digits |
| JsonParser.ParseState.constructor | json.c:425-433 | the cursor is at offset 0 on line 1, column 1, and no error is recorded |
| JsonParser.ParseState.SetError | json.c:21-31 | records the kind with the cursor's offset, line and column; the cursor does not move |
| JsonParser.ParseState.Advance | json.c:40-51 | moves by `n` bytes or to the end of input, keeping the line and column true |
| JsonParser.ParseState.AdvanceFast | json.c:35-38 | over `n` bytes without a line feed, moves by `n` and keeps the line and column true |
| JsonParser.ParseState.SkipWhitespace | json.c:53-70 | moves the cursor over exactly the whitespace run |
| JsonParser.ParseState.ReadHexQuad | json.c:138-150 | reads the four digits of a `\u` escape, or the error found |
| JsonParser.ParseState.Decode | json.c:121-169 | fills the buffer with the decoded content and returns its length, which fits the buffer; or returns the decoding error |
| JsonParser.ParseState.DecodeEscape | json.c:127-163 | writes what one escape stands for, or returns the error decoding would end with |
| JsonParser.ParseState.PutUtf8 | json.c:151-159 | appends the UTF-8 bytes of the code point and nothing else |
| JsonParser.ParseState.ScanForQuote | json.c:89-107 | finds the closing quote and whether a backslash came first, or the scan error |
| JsonParser.ParseState.ParseString | json.c:82-173 | the string and cursor of the grammar on success; on failure, the grammar's error recorded as `set_error` would |
| JsonParser.ParseState.ParseNumber | json.c:205-245 | the number and cursor of the grammar on success, on the fast path and the strtod path alike; on failure, the grammar's error |
| JsonParser.ParseState.ParseElement | json.c:363-414 | the value and cursor of the grammar on success; on failure, the grammar's error |
| JsonParser.ParseState.ParseArray | json.c:247-295 | the array and cursor of the grammar on success; on failure, the grammar's error |
| JsonParser.ParseState.ArraySeparator | json.c:274-291 | closes, goes round the loop, or records the error, as the grammar does after an element |
| JsonParser.ParseState.ParseKey | json.c:313-326 | the key and the cursor after the colon on success; on failure, the grammar's error |
| JsonParser.ParseState.ParseObject | json.c:297-361 | the object and cursor of the grammar on success; on failure, the grammar's error |
| JsonParser.ParseState.ObjectSeparator | json.c:340-357 | closes, goes round the loop, or records the error, as the grammar does after a member |
| JsonParser.JsonParse | json.c:416-445 | the result is that of the parse function on every input |
| JsonWriter.EscapeByte | json.c:529-543 | one byte is written as one to six bytes |
| JsonWriter.Escape | json.c:528-545 | the escaped text is at least as long as the string and at most six times as long |
| JsonWriter.Quoted | json.c:526-547 | the text starts and ends with a quote |
| JsonWriter.Spaces | json.c:578 | writes exactly `n` bytes |
| JsonWriter.WChar | json.c:521-524 | advances by one, storing the byte when there is a buffer |
| JsonWriter.WStr | json.c:515-519 | advances by the length, copying the bytes when there is a buffer |
| JsonWriter.WSpaces | json.c:578 | advances by `n`, writing spaces when there is a buffer |
| JsonWriter.WEscapeByte | json.c:529-543 | advances by the escape's length, writing it when there is a buffer |
| JsonWriter.WEscapedString | json.c:526-547 | advances by the quoted text's length, writing it when there is a buffer |
| JsonWriter.WriteValue | json.c:549-619 | advances by the length of the value's text, writing it when there is a buffer, so both passes agree |
| JsonWriter.WriteArray | json.c:572-593 | the same for an array's text |
| JsonWriter.WriteElements | json.c:574-590 | the same for a non-empty array's text between its brackets |
| JsonWriter.WriteElementList | json.c:576-585 | the same for the elements from a given one on |
| JsonWriter.WriteItem | json.c:578-583 | the same for one element with its indentation and separator |
| JsonWriter.WriteObject | json.c:594-617 | the same for an object's text |
| JsonWriter.WriteMembers | json.c:596-614 | the same for a non-empty object's text between its braces |
| JsonWriter.WriteMemberList | json.c:598-609 | the same for the members from a given one on |
| JsonWriter.WriteMember | json.c:600-607 | the same for one member: indentation, key, colon, value, separator |
| JsonWriter.ToString | json.c:621-634 | NULL for a NULL value; otherwise exactly the arena allocation of text length + 1, and when it succeeds a new buffer holding the text and a NUL |
| JsonLayout.EmptyContainers | json.c:572-617 | an empty array is written `[]` and an empty object `{}`, in either mode |
| JsonLayout.EscapeUnbroken | json.c:526-547 | escaped string content holds no line feed, carriage return or tab |
| JsonLayout.CompactLayout | json.c:549-619 | the compact text of a well-formed value holds no line feed, carriage return or tab, and is the same at every indentation |
| JsonLayout.PrettyItemsLayout | json.c:574-590 | in pretty mode the elements of an array follow one per line, each after a line feed and two more spaces than the array, with a comma after each but the last |
| JsonLayout.PrettyMembersLayout | json.c:596-614 | in pretty mode the members of an object follow one per line, each after a line feed and two more spaces than the object, with `": "` between key and value and a comma after each but the last |
| JsonLayout.PrettyArray | json.c:572-593 | a non-empty array in pretty mode is `[`, its elements one per line, a line feed, the array's own indentation and `]` |
| JsonLayout.PrettyObject | json.c:594-617 | a non-empty object in pretty mode is `{`, its members one per line, a line feed, the object's own indentation and `}` |
| JsonRoundTrip.EscapeByteShape | json.c:529-543 | a byte is written as itself exactly when the string scan copies it; otherwise as a two-byte escape that decodes back to it, or as `\u00` and two upper-case hexadecimal digits |
| JsonRoundTrip.ScanEscaped | json.c:89-107 | the closing-quote scan walks over escaped text and stops at the quote after it |
| JsonRoundTrip.UnescapeEscaped | json.c:121-169 | decoding escaped text gives the original bytes back |
| JsonRoundTrip.HexQuadOfEscape | json.c:138-150 | the digits of a `\u00XY` the writer produced read back as the byte |
| JsonRoundTrip.StringRoundTrip | json.c:82-173 | a quoted NUL-free string is read back as itself, with the cursor just after it |
| JsonRoundTrip.DecodedString | json.c:121-172 | a string with escapes is read as its decoded bytes up to the first NUL |
| JsonRoundTrip.NumberRound | json.c:205-245 | a finite number written as its JSON text and then delimited is read back as the same number |
| JsonRoundTrip.LiteralRound | json.c:391-411 | `null`, `true` and `false` are read back as themselves |
| JsonRoundTrip.LayElement | json.c:549-619 | the compact text of a value, wherever it sits in the input, has the token layout the parser reads |
| JsonRoundTrip.ReadElement | json.c:363-414 | the parser reads a value laid out that way back as the value, ending where its text ends, while within the depth limit |
| JsonRoundTrip.ParseRender | json.c:416-445 | parsing the compact serialization of a well-formed tree no deeper than the limit gives back the same tree |
| JsonReparse.ElementReadable | json.c:363-414 | every value `parse_element` reads is well formed and nests within the limit from its depth |
| JsonReparse.ParsedWellFormed | json.c:416-445 | every tree json_parse returns has NUL-free strings and keys, JSON-syntax finite numbers, and at most 1001 nested containers |
| JsonReparse.Reparse | json.c:416-445 | serializing any tree json_parse returned, in compact mode, and parsing it again returns the same tree |
| JsonReparse.AddWellFormed | json.c:698-701 | json_add of a well-formed value keeps an object well formed |
| JsonReparse.AppendWellFormed | json.c:716-719 | json_append of a well-formed value keeps an array well formed |
| JsonDepth.NestedText | json.c:572-593 | the compact text of `n` nested arrays is `n` opening then `n` closing brackets |
| JsonDepth.DescentFails | json.c:247-251 | reading deeper and deeper brackets fails at the one entered at depth 1001 |
| JsonDepth.NestingLimit | json.c:247-251 | up to 1001 nested arrays parse back; more are refused with "Maximum JSON depth exceeded" at offset 1001 |

## Left out

- Allocation failure inside the parser and the builder. Every `make_value`, node, key or string allocation is taken to succeed. In the source a failed allocation makes the parse return NULL without recording an error, and makes `json_list_append` drop the node or leave its key NULL.
- Floating point. `strtod`, the fast path's `double` accumulator, `%.17g` and `isfinite` are not modelled. A number keeps its decimal text, and the writer writes that text.
- Arena memory contents. Regions have no bytes. The buffer of `ToString` is a new array rather than bytes inside the allocated block.
- `arena_alloc_zero`, the `arena_alloc_struct`/`arena_alloc_array` macros and `make_value`: they only wrap `arena_alloc`.
- `arena__new_region` and `free`: new regions are chosen by the caller's parameters, and freed regions simply leave the chain.
- Output. `json_print` and the `printf` of `arena_print_stats` are not modelled. `Arenas.Arena.Stats` returns the three figures that would be printed.
- The error message text of `set_error`. Each message is an `ErrorKind`; a NULL error pointer, for which nothing is recorded, is not modelled.
- NULL `Arena *` arguments, and a NULL `input` to `json_parse`. The arena is always present and the input is a byte sequence.
- A NULL target object or array for `json_add`, `json_append`, `json_add_string` and `json_append_string`, which the source ignores (json.c:699, 703-704, 717, 721-722). `Add`, `Append`, `AddString` and `AppendString` always take a value there.
- A NULL string for `json_create_string`, which returns NULL (json.c:655). `CreateString` always takes a byte sequence.
- `size_t` and `int` overflow. Counts, capacities, offsets, line and column numbers, and the `int` casts before `advance` are unbounded integers.
- Reads past the end of the input. The model reads only the `len` bytes it is given. The source can read further in three places, and its result then depends on the bytes after the input.
  - `strncmp` on literals (json.c:391-409): a literal cut off by the end of the input is accepted when the bytes after it complete it, so `tr` followed in memory by `ue` reads as `true`.
  - `strtod` (json.c:241) does not know `len`: `1.5` followed in memory by `e3` reads as 1500, where the model reads 1.5. The cursor still stops at the end of the input, because `advance` (json.c:40-51) halts at `s->end`, so only the value differs.
  - `*s->curr` after a comma (json.c:284, 350) reads the byte after the input.
- UTF-16 surrogate pairs are not combined. Each `\uD800`-`\uDFFF` escape is written as its own three-byte sequence, as the code does.
- Checkpoint misuse. The last-in, first-out discipline for `arena_temp_begin`/`arena_temp_end` is not enforced. `Arenas.Arena.TempEnd` requires that a region at the captured address is still linked (the source writes to freed memory otherwise) and that the captured count fits it. Addresses are the regions' `base` fields; `Arenas.CheckpointRestores` and `Arenas.RestoreFindsRegion` assume that linked regions have distinct ones, as live allocations do.
- JsonRoundTrip.ParseRender: proved for compact output only. Pretty output adds indentation and line feeds between tokens, which the parser skips, but that is not proved.
- JsonReparse.ParsedWellFormed: holds only for inputs whose numbers fit a `double`. The source turns a number too large for one, such as `1e400` through `strtod` (json.c:241) or a 400-digit integer through the fast path's accumulator (json.c:220-229), into an infinity. The model keeps its text as a finite number.
- JsonReparse.Reparse: holds only for inputs whose numbers fit a `double`. The source writes an infinity as `null` (json.c:559-562), which reads back as a null and not as the number.
- JsonValues.Add, JsonValues.Append, JsonValues.JsonGet: values, not pointers. The source links the child node itself into the parent (json.c:673-701, 716-719), and `json_get` returns a pointer into the tree that callers update in place (json.c:449-459). The model does not capture aliasing: a later change to a child does not show in its parent, and appending an array to itself, which makes a cycle on which `json_to_string` never returns, cannot be expressed.
- JsonReparse.Reparse: trees made by the builder are covered only through `JsonReparse.AddWellFormed`/`AppendWellFormed`. A tree with a NaN or an infinity is written as `null` and does not read back, and the builder's number text is abstract.
