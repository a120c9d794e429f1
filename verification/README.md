# Stochastic scheduler controller — a Dafny model of its core

The controller is the C++ process inside an action container. It answers
OpenWhisk-style `/init` and `/run` requests. It is built from a handful of
pieces, and this project models each one as a Dafny module:

- **BigNum** (`bignum.dfy`) — `HttpBigNum`, the arbitrary-width unsigned
  number used for HTTP chunk sizes. It is a vector of 64-bit limbs, most
  significant first. The module covers:
  - comparison;
  - increment and decrement;
  - addition and subtraction of numbers and of single limbs;
  - the hexadecimal constructor and writer.
- **HttpChunk** (`chunk.dfy`) — the resumable reader of one chunk of a chunked
  HTTP body, and the chunk writer.
- **HttpHeader** (`header.dfy`) — the resumable reader of one header line. It
  covers the field classification and the blank line that ends the headers.
- **Uuid** (`uuid.dfy`) — the 16-byte UUID. It covers:
  - its fields, read little-endian;
  - version-4 generation from 16 random bytes;
  - the 32-digit hex text form;
  - the stream reader;
  - equality.
- **ActionRelation** (`relation.dfy`) — one action of a manifest. Its depth is
  one more than the deepest of its dependencies.
- **ActionManifest** (`manifest.dfy`):
  - `emplace`, which builds the dependency index of a manifest depth-first;
  - `next`, the scheduling walk that picks the next runnable action.
- **ExecutionContext** (`context.dfy`) — the context of one request. It covers:
  - the `/init` and `/run` constructors, including the depth sort and the
    single-action fallback used when there is no manifest file;
  - the index stack (`push`/`pop`);
  - `is_stopped` and equality by id.
- **Signals** and **ThreadControl** (`threads.dfy`):
  - the scheduler signal bits;
  - the per-thread control block: `notify`, `invalidate` and the flag tests.
- **InitResource** (`init.dfy`) — the `/init` handler. It covers:
  - reading the request object and stringifying the `env` values;
  - un-escaping the code text;
  - choosing the archive or the source-file installation.
- **ObjectSplitter** (`splitter.dfy`) — the splitter that cuts a `/run` body
  into top-level JSON objects.
- **ControllerApp** (`controller.dfy`) — the controller loop. It covers:
  - clearing the signal word;
  - routing (`/init`, `/run`, 404);
  - dispatching the next action to a thread;
  - the sweep that hands indices between threads and answers finished
    contexts;
  - building responses.
- **Support modules:**
  - `Wrappers` — `Option`/`Result`;
  - `Power`, `CLocale`, `Hex`, `Decimal` in `text.dfy`;
  - `Bits`, `LittleEndian` in `bits.dfy`;
  - `Json` — a JSON value with ordered, unique object keys.

### Modelling choices

- **Undefined behaviour.** Where the C++ has undefined behaviour (`front()` on
  an empty vector, an out-of-range `operator[]`, `%` by zero), the model
  returns `Failure`.
- **Exceptions.** Where the C++ throws, the model also returns `Failure`.
- **Platform.** The platform is x86-64 Linux: `std::size_t` is 64 bits wide
  and `memcpy` into an integer is little-endian.
- **Known bugs.** Operators whose C++ is wrong are modelled twice:
  - as written (the `…AsWritten` members);
  - corrected (the `…Fixed` members, or the plain name).

  The rest of the model uses the corrected versions (see "## Findings").

## Model

| member | source | states |
|---|---|---|
| BigNum.CompareTrichotomy | controller-lib/src/application-servers/http/http-requests.cpp:27-126 | exactly one of `<`, `==`, `>` holds for any two limb vectors; `<=`, `>=`, `!=` are the matching combinations; `==` is limb-wise equality; `a < b` iff `b > a` |
| BigNum.CompareNumeric | controller-lib/src/application-servers/http/http-requests.cpp:27-126 | on numbers without leading zero limbs, each of the six comparisons holds iff the same comparison holds between the numeric values |
| BigNum.Increment | controller-lib/src/application-servers/http/http-requests.cpp:128-146 | `++` adds exactly one; a new leading limb appears iff every limb was the maximum; a normalised number stays normalised |
| BigNum.PostIncrement | controller-lib/src/application-servers/http/http-requests.cpp:148-152 | the stored number is one larger, and the returned copy is the incremented number, not the old one |
| BigNum.StripAsWritten | controller-lib/src/application-servers/http/http-requests.cpp:166-171 | the leading-zero strip loop fails exactly on all-zero vectors; otherwise it keeps the value and leaves a nonzero leading limb |
| BigNum.StripLeadingZeros | controller-lib/src/application-servers/http/http-requests.cpp:166-171 | the corrected strip keeps the value, always yields a normalised number, and agrees with the as-written loop wherever that one is defined |
| BigNum.DecrementAsWritten | controller-lib/src/application-servers/http/http-requests.cpp:154-174 | `--` on a normalised number of at least 2 subtracts one and stays normalised; on `{1}` it fails; on zero it wraps to all-maximum limbs of the same length |
| BigNum.DecrementFixed | controller-lib/src/application-servers/http/http-requests.cpp:154-174 | corrected `--` subtracts one from every positive normalised number, agrees with the as-written result whenever that exists, and turns `{1}` into `{0}` |
| BigNum.PostDecrementAsWritten | controller-lib/src/application-servers/http/http-requests.cpp:176-180 | post-decrement is defined exactly when `--` is and returns the decremented number |
| BigNum.AddAsWritten | controller-lib/src/application-servers/http/http-requests.cpp:182-214 | `+=` is the exact sum when the left side has no more limbs than the right; when it has more, the sum is exact iff the low limbs do not carry out, and otherwise exceeds the sum by BASE^\|lhs\| − BASE^\|rhs\| |
| BigNum.AddLimbAsWritten | controller-lib/src/application-servers/http/http-requests.cpp:216-252 | `+=` of one limb is the exact sum on a one-limb number |
| BigNum.AddFixed | controller-lib/src/application-servers/http/http-requests.cpp:182-214 | corrected `+=` is always the exact sum, keeps normalised inputs normalised, and equals the as-written result when the left side is not longer |
| BigNum.AddCarryMisplaced | controller-lib/src/application-servers/http/http-requests.cpp:210-212 | `{1, MAX} += {1}` gives `{1, 1, 0}`, whose value is not the sum, where the corrected operator gives `{2, 0}` |
| BigNum.SubtractAsWritten | controller-lib/src/application-servers/http/http-requests.cpp:264-313 | `-=` saturates to `{0}` when the left side is not larger; when it is larger and no limb needs a fresh borrow, the result is the exact, normalised difference |
| BigNum.SubtractShortfall | controller-lib/src/application-servers/http/http-requests.cpp:264-313 | for normalised `lhs > rhs`, the as-written result plus the lost amount `Loss` is the true difference; the operator fails iff the whole difference is lost |
| BigNum.SubtractLimbAsWritten | controller-lib/src/application-servers/http/http-requests.cpp:315-365 | `-=` of one limb saturates to `{0}` when the number is not larger, and is exact when the limb does not exceed the lowest limb |
| BigNum.SubtractFixed | controller-lib/src/application-servers/http/http-requests.cpp:264-313 | corrected `-=` is the saturating difference, normalised, and equals the as-written result when no borrow is needed |
| BigNum.SubtractOneShort | controller-lib/src/application-servers/http/http-requests.cpp:281-284 | `{1, 1} -= {9}` gives `{MAX − 8}` although the difference is MAX − 7, which the corrected operator returns |
| BigNum.SubtractEmptiesVector | controller-lib/src/application-servers/http/http-requests.cpp:264-313 | `{1, 0} -= {MAX}` has difference 1, but the as-written operator strips every limb and fails; the corrected one returns `{1}` |
| BigNum.ParsePartition | controller-lib/src/application-servers/http/http-requests.cpp:19-22 | one 16-character partition fails iff it is empty or starts with a non-hex character; an all-hex partition yields its hexadecimal value |
| Hex.FromChars | controller-lib/src/application-servers/http/http-requests.cpp:19-22 | `std::from_chars` in base 16 fails iff the text is empty or does not start with a hex digit, and reads an all-hex text as its value |
| BigNum.FromHex | controller-lib/src/application-servers/http/http-requests.cpp:9-25 | the hex constructor fails on every text whose length is a multiple of 16; any other all-hex text gives \|s\|/16 + 1 limbs holding exactly its value, normalised when there is no leading `0` |
| BigNum.ToText | controller-lib/src/application-servers/http/http-requests.cpp:377-386 | the writer prints lower-case hex: the first limb unpadded, every other limb as 16 digits |
| BigNum.HexRoundTrip | controller-lib/src/application-servers/http/http-requests.cpp:9-25 | reading back what the writer printed gives the same number whenever the leading limb has fewer than 16 hex digits |
| BigNum.HexRoundTripFails | controller-lib/src/application-servers/http/http-requests.cpp:11-16 | when the leading limb has 16 hex digits, the constructor fails on the writer's own output |
| BigNum.FromHexFixed | controller-lib/src/application-servers/http/http-requests.cpp:9-25 | the corrected constructor fails only on empty text; any all-hex text gives ⌈\|s\|/16⌉ limbs holding its value; it agrees with the as-written constructor on lengths that are not a multiple of 16 |
| BigNum.HexRoundTripFixed | controller-lib/src/application-servers/http/http-requests.cpp:377-386 | the corrected constructor reads back every number the writer prints |
| BigNum.HexExamples | controller-lib/tests/application-servers/http/http-requests-tests.cpp:248-260 | `"3E8"` reads as `{1000}` and `"1FFFFFFFFFFFFFFFF"` as `{1, MAX}`, the repository's own examples |
| HttpChunk.SizeLine | controller-lib/src/application-servers/http/http-requests.cpp:395-431 | the size-line phase consumes at least one character and leaves a suffix of its input; if no size was found it consumes everything; it never touches the data or the later flags |
| HttpChunk.SizedLine | controller-lib/src/application-servers/http/http-requests.cpp:425-431 | a complete size token fails iff the hex constructor fails on it; otherwise the size takes the token's value (normalised on request), the token buffer is cleared, and the rest of the input is returned |
| HttpChunk.Step | controller-lib/src/application-servers/http/http-requests.cpp:433-464 | one character after the size line never changes the size; it appends at most that character to the data; the body-started flag never goes back |
| HttpChunk.Feed | controller-lib/src/application-servers/http/http-requests.cpp:433-466 | input is left over only once the chunk is complete, and the size and size-found flag are kept |
| HttpChunk.Read | controller-lib/src/application-servers/http/http-requests.cpp:388-468 | once the size line has been read, `operator>>` is exactly a character-by-character feed of its input |
| HttpChunk.FeedConcat | controller-lib/src/application-servers/http/http-requests.cpp:433-466 | feeding `a + b` equals feeding `a` and then `b`, unless `a` already completed the chunk, in which case `b` is left over untouched |
| HttpChunk.ReadResumable | controller-lib/src/application-servers/http/http-requests.cpp:388-468 | once the size is known, reading `a` and then `b` into the same chunk gives the same chunk as reading `a + b` |
| HttpChunk.ReadKeeps | controller-lib/src/application-servers/http/http-requests.cpp:443-451 | every read keeps the received counter equal to the number of data characters, and keeps the data within a normalised size |
| HttpChunk.DataWithinSize | controller-lib/src/application-servers/http/http-requests.cpp:443-451 | from a fresh chunk, the received counter always counts the data; with the corrected (normalising) size the data never exceeds the announced size |
| HttpChunk.FeedAfterData | controller-lib/src/application-servers/http/http-requests.cpp:452-464 | after the last data character the reader stores nothing more and completes just after the first line feed |
| HttpChunk.WriteReadRoundTrip | controller-lib/src/application-servers/http/http-requests.cpp:470-474 | whenever the leading size limb is below 16^15 (so the size text is not a multiple of 16 digits), reading what the chunk writer prints gives back the size and the data, complete, and leaves the following input unread |
| HttpChunk.ChunkExamples | controller-lib/tests/application-servers/http/http-requests-tests.cpp:13-27 | `"16\r\n" + d + "\r\n"` reads as a complete 22-character chunk `d`, `"0\r\n\r\n"` as the empty last chunk, and a 22-character chunk is written as `"16\r\n" + d + "\r\n"` |
| HttpChunk.ChunkInTwoPieces | controller-lib/tests/application-servers/http/http-requests-tests.cpp:30-41 | a chunk read in two pieces, split inside the data, ends the same as the chunk read whole |
| HttpChunk.ReadOverrun | controller-lib/src/application-servers/http/http-requests.cpp:443-451 | with the as-written size `"0000000000000000" + "1"`, the reader stores every following character as data and never completes |
| HttpChunk.PaddedSizeLine | controller-lib/src/application-servers/http/http-requests.cpp:425-431 | the padded size line `"0000000000000000" + "1"` yields the un-normalised size `{0, 1}` and starts the body |
| HttpHeader.Classify | controller-lib/src/application-servers/http/http-requests.cpp:533-549 | a field name is classified, case-insensitively, as the field whose spelling its upper-case form matches, and as unknown iff it matches none |
| HttpHeader.Step | controller-lib/src/application-servers/http/http-requests.cpp:482-593 | one character completes the header iff it is a line feed after a name or on an otherwise blank line; progress flags never go back; the value grows by at most that character |
| HttpHeader.Read | controller-lib/src/application-servers/http/http-requests.cpp:476-597 | `operator>>` leaves a suffix of its input, only once the header is complete, and a complete header consumes nothing |
| HttpHeader.ReadConcat | controller-lib/src/application-servers/http/http-requests.cpp:476-597 | reading `a + b` equals reading `a` and then `b` unless `a` completed the header, so the reader is resumable at every character |
| HttpHeader.LastHeader | controller-lib/src/application-servers/http/http-requests.cpp:486-496 | a line of spaces ended by a line feed is read as the end-of-headers marker |
| HttpHeader.FieldLine | controller-lib/src/application-servers/http/http-requests.cpp:482-593 | `name : value\r\n`, with optional spaces around the colon, is read as the classified name with exactly that value, complete, and the rest is left over |
| HttpHeader.NoLineFeed | controller-lib/src/application-servers/http/http-requests.cpp:476-597 | input without a line feed never completes a header and is consumed entirely |
| Uuid.TimeLow | controller-lib/src/uuid/uuid.cpp:84-88 | `time_low` is the little-endian value of bytes 0–3, below 16^8 |
| Uuid.TimeMid | controller-lib/src/uuid/uuid.cpp:89-93 | `time_mid` is the little-endian value of bytes 4–5 |
| Uuid.TimeHiAndVersion | controller-lib/src/uuid/uuid.cpp:94-98 | `time_hi_and_version` is the little-endian value of bytes 6–7 |
| Uuid.Node | controller-lib/src/uuid/uuid.cpp:109-113 | the node is the last six bytes |
| Uuid.SetVariant | controller-lib/src/uuid/uuid.cpp:58-62 | the variant step sets the top two bits of byte 8 to `10` and keeps the low six |
| Uuid.SetVersion | controller-lib/src/uuid/uuid.cpp:63-70 | the version step sets the top nibble of `time_hi_and_version` to 4 and keeps the low twelve bits |
| Uuid.V4 | controller-lib/src/uuid/uuid.cpp:47-72 | a version-4 UUID keeps every random byte except 6–8, carries variant `10` in byte 8 and version 4 in `time_hi_and_version` |
| Uuid.ToText | controller-lib/src/uuid/uuid.cpp:115-123 | the text form is 32 lower-case hex digits |
| Uuid.ReadChars | controller-lib/src/uuid/uuid.cpp:125-182 | reading a field never changes the stream text, never moves past its end, and keeps the buffer size |
| Uuid.ParseField | controller-lib/src/uuid/uuid.cpp:125-182 | a field read from n hex characters is below 16^n |
| Uuid.ReadNode | controller-lib/src/uuid/uuid.cpp:26-39 | the node reader yields six bytes and stays within the stream |
| Uuid.ReadHead | controller-lib/src/uuid/uuid.cpp:125-175 | the field reader yields the ten leading bytes and stays within the stream |
| Uuid.TextRoundTrip | controller-lib/src/uuid/uuid.cpp:75-82 | constructing a UUID from its own text gives back the same UUID |
| Uuid.EmptyHead | controller-lib/src/uuid/uuid.cpp:125-175 | reading the fields from an empty stream fails the stream and yields ten zero bytes |
| Uuid.EmptyText | controller-lib/src/uuid/uuid.cpp:75-82 | the UUID constructed from empty text is the all-zero UUID |
| Uuid.Equal | controller-lib/src/uuid/uuid.cpp:185-192 | `==` holds iff all sixteen bytes agree |
| Uuid.NotEqual | controller-lib/src/uuid/uuid.cpp:194-196 | `!=` holds iff some byte differs |
| ActionRelation.DepthLoop | controller/src/controller/app/action-relation.cpp:19-23 | the depth loop ends above every dependency depth and not below its start |
| ActionRelation.Depth | controller/src/controller/app/action-relation.cpp:13-24 | an action's depth is at least 1 and above every dependency's depth |
| ActionRelation.Max | controller/src/controller/app/action-relation.cpp:19-23 | the maximum is an upper bound that is attained when there are dependencies |
| ActionRelation.DepthIsMaxPlusOne | controller/src/controller/app/action-relation.cpp:16-23 | the depth is exactly one more than the deepest dependency, and 1 without dependencies |
| ActionRelation.Make | controller/src/controller/app/action-relation.cpp:13-63 | the constructor copies key, value and path, records its dependencies' keys in order, and takes a depth one more than some dependency's (1 with none) |
| ActionManifest.Join | controller/src/controller/app/action-manifest.cpp:38-41 | joining a directory and an absolute file gives the file; a relative file ends the joined path |
| ActionManifest.Emplace | controller/src/controller/app/action-manifest.cpp:15-51 | `emplace` only appends to the index; on success the key is indexed; an already indexed key changes nothing; every appended relation is built from its manifest entry and ranks no higher than the key; a key neither indexed nor in the manifest fails |
| ActionManifest.EmplaceAll | controller/src/controller/app/action-manifest.cpp:25-35 | emplacing the dependency list only appends, indexes every dependency, and appends only relations built from the manifest that rank below the owner |
| ActionManifest.EmplaceKeeps | controller/src/controller/app/action-manifest.cpp:15-51 | `emplace` keeps the index free of duplicate keys and ordered, every relation after its dependencies with a smaller depth |
| ActionManifest.EmplaceAllKeeps | controller/src/controller/app/action-manifest.cpp:25-35 | emplacing a dependency list keeps the index unique and ordered |
| ActionManifest.EmplaceSucceeds | controller/src/controller/app/action-manifest.cpp:15-51 | in an acyclic manifest whose dependencies are all listed, emplacing an indexed or listed key succeeds |
| ActionManifest.EmplaceAllSucceeds | controller/src/controller/app/action-manifest.cpp:25-35 | in such a manifest, emplacing a list of listed keys succeeds |
| ActionManifest.FirstIncomplete | controller/src/controller/app/action-manifest.cpp:58-70 | the scan finds the first incomplete relation from a position, or reports that all from there are complete |
| ActionManifest.Next | controller/src/controller/app/action-manifest.cpp:53-117 | `next` returns the default relation when every relation is complete, fails iff some relation is incomplete and the key is unknown, and otherwise returns an indexed, incomplete relation all of whose dependencies are complete |
| ActionManifest.NextDefaultIff | controller/src/controller/app/action-manifest.cpp:58-70 | `next` returns the default relation iff every relation is complete |
| ActionManifest.NextFromComplete | controller/src/controller/app/action-manifest.cpp:84-90 | starting from any key, `next` behaves as if started from the first incomplete relation at or after it, cyclically |
| ActionManifest.NextDescends | controller/src/controller/app/action-manifest.cpp:102-113 | from an incomplete relation, `next` moves to the first incomplete dependency in the order rotated by the start index |
| ActionManifest.AdvanceDecreases | controller/src/controller/app/action-manifest.cpp:84-90 | stepping past a complete relation decreases the recursion measure, so `next` terminates |
| ActionManifest.DescendDecreases | controller/src/controller/app/action-manifest.cpp:102-113 | descending into an incomplete dependency decreases the recursion measure |
| ExecutionContext.InitContext | controller/src/controller/app/execution-context.cpp:10-14 | the `/init` context has the given id, the init route, index stack `[0]`, no manifest and no threads |
| ExecutionContext.Build | controller/src/controller/app/execution-context.cpp:40-51 | emplacing every manifest key yields one relation per entry, unique, ordered, each built from its entry; it succeeds whenever all dependencies are listed |
| ExecutionContext.SortByDepth | controller/src/controller/app/execution-context.cpp:53-55 | the depth sort is a permutation into non-increasing depth |
| ExecutionContext.SortLayers | controller/src/controller/app/execution-context.cpp:53-55 | after sorting, keys stay unique and the same, and every dependency sits later than its dependant with a smaller depth |
| ExecutionContext.SortedIndex | controller/src/controller/app/execution-context.cpp:40-55 | the sorted manifest holds exactly one relation per entry, depth-sorted, with dependencies later, each built from its entry |
| ExecutionContext.RunContext | controller/src/controller/app/execution-context.cpp:16-79 | the `/run` constructor fails without `__OW_ACTIONS`, on an unparseable or empty manifest, and without a manifest or `__OW_ACTION_EXT`; otherwise it builds the sorted manifest, or, when there is no manifest file, a single relation at depth 1 keyed by `__OW_ACTION_ENTRY_POINT` (default `main`) whose file is `main.<ext>`; it succeeds on every complete manifest |
| ExecutionContext.Same | controller/src/controller/app/execution-context.cpp:146-148 | two contexts are equal iff their ids are |
| ExecutionContext.IsStopped | controller/src/controller/app/execution-context.cpp:150-157 | a context is stopped iff every thread control has its stop bit set |
| ExecutionContext.Push | controller/src/controller/app/execution-context.cpp:168-171 | `push` appends the index to the stack and changes nothing else |
| ExecutionContext.Pop | controller/src/controller/app/execution-context.cpp:159-166 | `pop` fails iff the stack is empty, and otherwise returns the top index with the rest of the stack, changing nothing else |
| ExecutionContext.PopPush | controller/src/controller/app/execution-context.cpp:159-171 | popping right after a push returns the pushed index and the original context |
| Signals.SignalBits | controller/src/echo-app/utils/common.hpp:19-28 | each scheduler signal is a distinct power of two, with TERMINATE at bit 15 |
| ThreadControl.FlagBits | controller/src/controller/app/thread-controls.hpp:21-22 | `is_stopped` tests bit 5 of the signal word, and the start flag is bit 4 |
| ThreadControl.FreshState | controller/src/controller/app/thread-controls.hpp:11-16 | a new control is valid, has a clear signal word, records no indices, and is neither started nor stopped |
| ThreadControl.Notify | controller/src/controller/app/thread-controls.cpp:19-26 | `notify` records the index at the end, sets exactly the start bit, and keeps validity |
| ThreadControl.NotifyFlags | controller/src/controller/app/thread-controls.cpp:19-26 | after `notify` the thread is started, and stopped iff it was before |
| ThreadControl.Invalidated | controller/src/controller/app/thread-controls.cpp:28-36 | invalidation marks the thread stopped and invalid, keeps its indices, and sets only the stop bit if it was clear |
| ThreadControl.InvalidateTwice | controller/src/controller/app/thread-controls.cpp:28-36 | invalidating twice is the same as invalidating once |
| ThreadControl.HandedBack | controller/src/controller/app/thread-controls.cpp:19-42 | every index `notify` hands a thread is returned, in order, by the corrected `invalidate`, and `notify` never changes validity |
| ThreadControl.InvalidateAsWritten | controller/src/controller/app/thread-controls.cpp:28-42 | the as-written `invalidate` copies only n bytes of n indices, so entry j keeps just its low min(8, n − 8j) bytes and every entry at or past n/8 is zero |
| ThreadControl.InvalidateLosesIndices | controller/src/controller/app/thread-controls.cpp:38-39 | with 2 to 8 recorded indices and a nonzero second one, the as-written copy differs from the recorded indices |
| ThreadControl.InvalidateFiveSeven | controller/src/controller/app/thread-controls.cpp:38-39 | after notifying 5 and 7, the as-written copy has 0 where 7 should be, while the corrected `invalidate` returns `[5, 7]` |
| InitResource.Unescape | controller/src/controller/resources/init/init.cpp:65-70 | un-escaping never lengthens the code, empties only empty code, and keeps a leading `n` |
| InitResource.UnescapeCode | controller/src/controller/resources/init/init.cpp:65-70 | the find-and-replace loop computes exactly the left-to-right un-escaping of the code |
| InitResource.UnescapeNoPair | controller/src/controller/resources/init/init.cpp:65-70 | un-escaped code never contains a backslash followed by `n` |
| InitResource.UnescapeIdempotent | controller/src/controller/resources/init/init.cpp:65-70 | un-escaping twice is the same as un-escaping once |
| InitResource.UnescapeLength | controller/src/controller/resources/init/init.cpp:65-70 | the code shrinks by exactly the number of line feeds the un-escaping introduces |
| InitResource.UnescapeEscape | controller/src/controller/resources/init/init.cpp:65-70 | escaping line feeds and then un-escaping restores any text without a backslash-`n` pair |
| InitResource.EscapeUnescape | controller/src/controller/resources/init/init.cpp:65-70 | un-escaping and then escaping restores any code without a line feed |
| InitResource.Stringify | controller/src/controller/resources/init/init.cpp:20-33 | an `env` value becomes a string: strings are kept, integers print in decimal form that reads back as the same number, and other kinds become empty |
| Decimal.SignedRoundTrip | controller/src/controller/resources/init/init.cpp:25-28 | the decimal text of any integer reads back as that integer |
| InitResource.EnvStrings | controller/src/controller/resources/init/init.cpp:20-33 | the `env` map keeps its keys in order and stringifies every value |
| InitResource.StringField | controller/src/controller/resources/init/init.cpp:14-17 | a string field is read iff it is present with a string value, and then the value is that string |
| InitResource.ReadRequest | controller/src/controller/resources/init/init.cpp:12-34 | an `/init` request without a `value` object fails; otherwise it is read from that object |
| InitResource.ReadValue | controller/src/controller/resources/init/init.cpp:12-34 | the `value` object is read iff `name`, `main`, `code` are strings, `binary` is a boolean and `env` is an object, and then every field holds exactly those values |
| InitResource.ReadEncode | controller/src/controller/resources/init/init.cpp:12-34 | reading the JSON encoding of any request gives back that request |
| InitResource.StringsRoundTrip | controller/src/controller/resources/init/init.cpp:20-33 | an `env` whose values are all strings is stringified back to itself |
| InitResource.Install | controller/src/controller/resources/init/init.cpp:38-85 | installation fails without `__OW_ACTIONS`; binary code goes to `archive.tgz` unchanged with its exports; text code needs `__OW_ACTION_EXT`, goes to `main.<ext>` and is the un-escaped code, which is free of escape pairs and equals the code when it had none; the entry point is the request's `main` |
| InitResource.Handle | controller/src/controller/resources/init/init.cpp:36-90 | the `/init` handler yields an init context with one valid, unstopped thread that has no indices |
| ObjectSplitter.ScanFrom | controller/src/controller/app/controller-app.cpp:192-212 | the brace scan moves forward within the data and stops only at the end or at a top-level comma |
| ObjectSplitter.SplitAsWritten | controller/src/controller/app/controller-app.cpp:181-218 | the as-written splitter returns no objects for an empty body, fails whenever a top-level comma exists, and otherwise succeeds iff the one sliced text parses as an object |
| ObjectSplitter.ParseAll | controller/src/controller/app/controller-app.cpp:213-218 | parsing the pieces succeeds iff every piece parses as an object, and then yields their members in order |
| ObjectSplitter.SplitComma | controller/src/controller/app/controller-app.cpp:192-212 | a balanced object followed by a comma is cut off as one piece and the split resumes after the comma |
| ObjectSplitter.SplitArray | controller/src/controller/app/controller-app.cpp:181-218 | the corrected splitter cuts `[o1,…,on]` of balanced objects into exactly `o1 … on` |
| ObjectSplitter.SingleObject | controller/src/controller/app/controller-app.cpp:181-218 | a single object, bare or in brackets, is sliced out whole and split into itself alone |
| ObjectSplitter.TwoObjects | controller/src/controller/app/controller-app.cpp:207-211 | for `[o1,o2]` the as-written scan stops at the comma, where the corrected split gives `[o1, o2]` |
| ControllerApp.Clear | controller/src/controller/app/controller-app.cpp:41-46 | clearing the signal word drops every bit of the snapshot except TERMINATE and keeps all other bits |
| ControllerApp.ClearKeepsTerminate | controller/src/controller/app/controller-app.cpp:41-46 | clearing never changes whether the loop keeps running |
| ControllerApp.ClearSnapshot | controller/src/controller/app/controller-app.cpp:41-46 | clearing a word against itself leaves only its TERMINATE bit |
| ControllerApp.Respond | controller/src/controller/app/controller-app.cpp:434-446 | a response carries the HTTP version it is given, its status and body, `application/json`, `Connection: close`, and a content length that reads back as the body length |
| ControllerApp.InitResponse | controller/src/controller/app/controller-app.cpp:477-510 | the `/init` response carries the given HTTP version and is 409 once initialised and 200 before, with an empty body and length 0 |
| ControllerApp.Values | controller/src/controller/app/controller-app.cpp:415-419 | the action results are read iff every relation's value parses as an object, and then in manifest order |
| ControllerApp.Body | controller/src/controller/app/controller-app.cpp:424-428 | with a manifest file the `/run` body maps each key to its result in manifest order; without one it is the last result |
| ControllerApp.RunResponse | controller/src/controller/app/controller-app.cpp:386-476 | `/run` answers in the HTTP version of the context's request: 404 before initialisation and 500 while some thread runs; once all are stopped it fails iff `__OW_ACTIONS` is unset or a result does not parse, and otherwise answers 200 with the serialised body iff no result has an `error` key, else 500 |
| ControllerApp.CreateResponse | controller/src/controller/app/controller-app.cpp:384-513 | a response is built by the route of its context and carries the HTTP version of the context's request |
| ControllerApp.ResponseLength | controller/src/controller/app/controller-app.cpp:384-513 | every response built carries the HTTP version of the context's request, has a content length that reads back as its body length, and closes the connection |
| ControllerApp.Classify | controller/src/controller/app/controller-app.cpp:165 | a route is `/run` or `/init` exactly when its text is |
| ControllerApp.DirectResponse | controller/src/controller/app/controller-app.cpp:358-380 | a request with data on a route other than `/run` and `/init` is answered directly with 404 in that request's HTTP version, an empty body, length 0, and a closed connection, and no other request is |
| ControllerApp.InitRoute | controller/src/controller/app/controller-app.cpp:320-355 | `/init` answers in the request's HTTP version by the initialised flag, leaves the controller initialised, returns the init handler's context, and a repeated `/init` changes nothing |
| ControllerApp.StepMonotone | controller/src/controller/app/controller-app.cpp:335-348 | a request never clears the initialised flag, and only a successful `/init` sets it |
| ControllerApp.InitializedIff | controller/src/controller/app/controller-app.cpp:320-355 | after a sequence of requests the controller is initialised iff it was before or some request was `/init` |
| ControllerApp.InitializedFromStart | controller/src/controller/app/controller-app.cpp:12 | a controller that starts uninitialised is initialised iff some `/init` arrived |
| ControllerApp.Dispatch | controller/src/controller/app/controller-app.cpp:274-303 | dispatch pops an index; it fails on an empty stack or manifest; it ends the context or notifies one thread with the popped index, that thread's relation being incomplete with all dependencies complete |
| ControllerApp.DispatchComplete | controller/src/controller/app/controller-app.cpp:282-297 | when every relation is complete, dispatch ends the context with the index popped |
| ControllerApp.DispatchStarts | controller/src/controller/app/controller-app.cpp:298-303 | when some relation is incomplete, dispatch starts one thread and leaves its validity alone |
| ControllerApp.Hand | controller/src/controller/app/controller-app.cpp:116-144 | handing a stopped thread's indices on invalidates it and lowers the number of waiting threads by exactly one; it fails when the next thread is outside the manifest |
| ControllerApp.Sweep | controller/src/controller/app/controller-app.cpp:80-146 | the sweep leaves no waiting thread in the kept contexts, keeps or answers every context exactly once, answers each with its own response, and changes nothing when no thread waits |
| ControllerApp.NoPending | controller/src/controller/app/controller-app.cpp:80-89 | with no waiting thread anywhere, the sweep finds no context to work on |

## Left out

- **Environment variables.** `getenv` reads become parameters: the `Env`
  record (`__OW_ACTIONS`, `__OW_ACTION_EXT`, `__OW_ACTION_ENTRY_POINT`) and the
  `Host` record.
- **JSON parsing and serialisation.** Boost.JSON parsing and serialisation
  are parameters (`parse`, `serialize`). The model cannot see the library.
- **Doubles in `Stringify`.** The text `std::to_string` gives a double is
  taken as given (the `fixed` field), because floating point is out of scope.
- **Concurrency.** Mutexes, condition variables, atomics, `pthread_cancel`,
  `kill`, sessions and `ThreadControls::wait` are left out. So are the Boost
  fibers (`resume`, `invalidate_fiber`, thread-controls.cpp:44-56), which
  depend on the scheduler.
- **Byte order.** `memcpy` into integers is modelled for little-endian x86-64
  only.
- **UUID randomness.** The `getrandom` call in the version-4 constructor
  becomes the 16-byte parameter of `Uuid.V4`.
- **Cyclic manifests.** `Emplace`, `EmplaceAll`, `Build` and `RunContext`
  require an acyclic manifest, given as a ghost rank on the keys. On a cyclic
  manifest the C++ recurses without end, which has no value to model.
- **Unparseable `/init` bodies.** These are not among the `Request` values the
  controller replay takes. The JSON parse lies outside the model.
- **Header serialiser.** The header writer `operator<<` at
  http-requests.cpp:599-619 is not modelled. It only prints fields.
- **Tagged constructors in the tests.** The tests build numbers with
  `HttpBigNum(hex, …)` and `HttpBigNum(dec, …)`, which http-requests.cpp does
  not define. `BigNum.HexExamples` states the hex cases against the hex
  constructor that does exist. The decimal cases have no constructor to model.
- **Outside the controller core.** The following are not part of this model:
  - `launcher.py`;
  - the transport servers;
  - the echo application;
  - the Lua bindings;
  - the legacy HTTP server;
  - `utils/uuid.cpp`;
  - `base64extract`/`tar_extract`, at init.cpp:92-162, which fork and exec
    external programs.
- **Post-increment and post-decrement.** These are modelled as written: the
  returned copy is the new value, not the old one.
- HttpChunk.SizeLine: the size-line phase is resumable only within one batch
  of input. It is stated per call, not as a split-anywhere property, because
  the C++ treats an all-whitespace feed differently.
- HttpChunk.WriteReadRoundTrip: stated only for sizes whose leading limb is
  below 16^15. A larger leading limb prints 16 hex digits, which the
  as-written hex constructor rejects (`BigNum.HexRoundTripFails`).
- HttpChunk.Read: uses the as-written hex constructor, so a size line of
  exactly 16 digits fails as it does in the C++.
- ExecutionContext.SortByDepth: one of the orders `std::sort` may produce. The
  C++ sort is unstable and its order among equal depths is unspecified. Every
  property stated holds for any depth-sorted permutation.
- ControllerApp.Hand: hands on the corrected `invalidate`'s indices (every
  recorded index), not the `memcpy` copy of controller-app.cpp:121. The
  as-written copy is `ThreadControl.InvalidateAsWritten`.
- ControllerApp.CreateResponse: sessions are not modelled, so the HTTP
  version of the request a context answers (`sessions().back()` for `/run`,
  `sessions().front()` for `/init`, controller-app.cpp:388-390 and 480)
  is the `version` field of `Host`.
- ControllerApp.Dispatch: the thread controls of a `/run` context are created
  by `run::handle` (controller-app.cpp:222), which is not part of this model.
  `Dispatch`, `DispatchStarts`, `Hand` and `Sweep` take a context's threads as
  given, one per manifest entry.
- ControllerApp.InitRoute: fibers are not modelled. The `invalidate_fiber`
  of a repeated `/init` (controller-app.cpp:335-339) and the `resume` of a
  first one (controller-app.cpp:340-347) therefore leave the context as the
  init handler made it.
- BigNum.AddLimbAsWritten: states the exact sum only for one-limb numbers.
  Longer numbers go through `BigNum.AddAsWritten`, whose contract covers them.
- BigNum.SubtractLimbAsWritten: states the exact difference only when no
  borrow is needed. Otherwise the shortfall of `BigNum.SubtractShortfall`
  applies.
- ObjectSplitter.SplitAsWritten: requires that a text of at most one character
  never parses as a JSON object, which holds for every JSON parser.

## Findings

| source | as written | input that shows it | evidently intended | confidence | as-written member | corrected member |
|---|---|---|---|---|---|---|
| controller-lib/src/application-servers/http/http-requests.cpp:210-212 | the final carry of `+=` is inserted in front of the whole vector, even when the left side has limbs above the ones visited | `{1, MAX} += {1}` gives `{1, 1, 0}` | the carry propagates into the higher limbs: `{2, 0}` | high, not executed | BigNum.AddCarryMisplaced | BigNum.AddFixed |
| controller-lib/src/application-servers/http/http-requests.cpp:281-284 | a fresh borrow writes `MAX − (r − l)`, one less than `BASE + l − r` (the repository's test at http-requests-tests.cpp:216-222 expects the as-written value) | `{1, 1} -= {9}` gives `{MAX − 8}` | the difference `MAX − 7` | medium, not executed | BigNum.SubtractOneShort | BigNum.SubtractFixed |
| controller-lib/src/application-servers/http/http-requests.cpp:309-311 | the shortfall can zero every limb, and the strip loop then empties the vector and reads `front()` of it | `{1, 0} -= {MAX}` | `{1}` | high, not executed | BigNum.SubtractEmptiesVector | BigNum.SubtractFixed |
| controller-lib/src/application-servers/http/http-requests.cpp:167-171 | the leading-zero strip after `--` runs until the vector is empty when the result is zero | `--` on `{1}` | `{0}` | high, not executed | BigNum.DecrementAsWritten | BigNum.DecrementFixed |
| controller-lib/src/application-servers/http/http-requests.cpp:11-16 | the first partition has `length % 16` characters, which is empty when the length is a multiple of 16, so the constructor throws | `ToText({2^60})`, the 16-digit text `"1000000000000000"` | a full 16-digit first partition, so the writer's output reads back | high, not executed | BigNum.HexRoundTripFails | BigNum.HexRoundTripFixed |
| controller-lib/src/application-servers/http/http-requests.cpp:443-451 | the chunk size is not normalised, and its leading zero limb makes the length-first comparison treat it as larger than any one-limb counter | size line `"0000000000000000" + "1"` followed by any data | stop after one data character | medium, not executed | HttpChunk.ReadOverrun | HttpChunk.DataWithinSize |
| controller/src/controller/app/thread-controls.cpp:38-39 | `memcpy` copies `n` bytes for `n` indices of 8 bytes each | indices `[5, 7]` come back as `[5, 0]` | copy all `8n` bytes | high, not executed | ThreadControl.InvalidateFiveSeven | ThreadControl.HandedBack |
| controller/src/controller/app/controller-app.cpp:207-211 | after a top-level comma the splitter restarts at the comma itself, finds it again at once, and stops | `[o1,o2]` of two objects | one piece per object | high, not executed | ObjectSplitter.TwoObjects | ObjectSplitter.SplitArray |
