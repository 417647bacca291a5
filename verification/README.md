# ClambHook core, verified

A Dafny model of the algorithmic core of ClambHook's C code: the JSON and TOML text layers, the licence calendar, the
event ring and its paging, the developer proxy (breakpoints, response capture, rewriting, cURL export and import), the
DNS proxy's message checks, SHA-224, the token bucket and the path normaliser. `dafny verify dfyconfig.toml` checks all
of it.

C code that updates things in place is a class or a method with loops, proved against a function; what the code is for
is then proved about that function, against a definition that does not follow the code. C strings are `string`, their
characters being bytes; raw bytes are `Byte` (0 to 255) or `bv8`. Integers are unbounded, and a 64-bit limit is written
out where the code meets it. `strtod`, `%.17g` and the header-line parser of the capture are parameters. The clock,
sleeping, the network and the scheduler are inputs: a clock that jumps by any amount before each reading, upstreams
given by what they send, and runs given by any sequence of critical sections.

The main results:

- **JSON** (RFC 8259). The parser accepts a text exactly when a syntax tree of the grammar, within stated limits,
  spells it, and gives what the tree stands for. What the printer writes is parsed back to the same value exactly when
  it is nested at most 64 deep. A text is UTF-8 exactly when all strings that it stands for are.
- **TOML v1.0.0**. The rendered text, read back character by character by the rules for keys, tables and arrays of
  tables, is readable exactly when no two members clash, and holds the JSON object, value by value, exactly when no key
  is repeated. Rendering succeeds exactly for supported trees nested at most 64 deep whose text fits in a `size_t`.
- **Licence calendar**. Days and dates are mutual inverses, count every day of the Gregorian calendar, and keep order.
  The update cutoff depends only on the multiset of purchase dates, and one more purchase never moves it back, although
  adding a year is not monotone: exactly which pairs of times it reverses is proved. RFC 3339 text is
  accepted exactly when it is well-formed and in range, in any zone, and parsed back exactly when it is not too early.
- **Event paging**. Over every run of appends and polls, the pages are the matching events in order, less exactly those
  evicted or appended between the two critical sections of a poll. What a first poll with shard cursors asks for is
  delivered by its page or by the run after it.
- **Breakpoints**. Over every run of waiters, resolvers, timeouts, reconfigurations and destruction, a resolution that
  reports success decides what the waiter returns, only resolvers drop or edit, and the manager is freed only when
  everyone who ever entered has returned.
- **Capture**. Headers, preview and size do not depend on how a response is cut, and whatever arrives they are those of
  the chunks that are kept. The status does not depend on the cut exactly when the header block holds it or the limit
  leaves no room for one after the block.
- **cURL**. Every command is imported as its words and their places say. Importing an exported command gives back the
  request, exactly when its body was not truncated and holds no zero byte.
- **DNS** (RFC 1035, RFC 9250). A response is accepted exactly when it has the query's identifier and its list of
  questions; everything that the proxy hands back is acceptable for the query.
- **SHA-224** (FIPS 180-4). The block-by-block digest is the standard's digest of the padded message, for every message
  below 2 to the 64 bits, and that of the code's wrapped length beyond; the published digest of "abc" is derived.
- **Token bucket**. No window of time sees more than a full bucket and what the rate earns in it.
- **Paths**. Normalising is idempotent, keeps where a path leads from every directory, and is canonical.

Where the code differs from what one would expect:

- A truncated body makes the export end in a warning comment, whose words the importer reads as operands: the imported
  URL is then the word "sending". A zero byte ends the exported body (`CurlRoundTrip.ImportExport`).
- White space may hold vertical tabs and form feeds, which section 2 of RFC 8259 does not allow: an accepted text is a
  JSON text if and only if it holds neither (`JsonComplete.AcceptedIsStrict`; `JsonComplete.FormFeedAccepted` gives one that
  does).
- Bytes above 127 in strings are taken as they are, whether they are UTF-8 or not (`JsonUtf8.RawByteAccepted`).
- The escape of U+0000 adds nothing to a string, which is a C string. The parser gives the value that RFC 8259 says if
  and only if there is no such escape (`JsonUtf8.GivesMeaningExactly`). With one, bytes that are not UTF-8 can join to a
  string that is (`JsonUtf8.JoinedAcrossNul`).
- Two arrays of tables under one key are rendered without an error, and are read as one array, which is not the tree
  that was rendered (`TomlExact.ArraysMerge`, and exactly when in `TomlText.DocumentRoundTrip`).
- A timestamp before -9223372036 seconds is formatted, but its text is refused (`Rfc3339.RoundTrip`).
- A text in second 9223372036 with a fraction above 854775807 is accepted, and the sum overflows 64 bits there. These
  are all of them (`Rfc3339.ParseFits`); `Rfc3339.PastEndText` is one. The model's timestamps are unbounded.
- `Cutoff.YearIsNotMonotone` gives two times around 29 February whose order a year reverses;
  `Cutoff.YearKeepsOrderExactly` gives all of them.
- A poll that is not truncated passes over, without a sign, exactly the events appended between its snapshot and its
  reading of the total (`PagingRuns.SilentExactly`).
- A page for shard cursors that is cut short can move the next number back (`Queries.GoesBack`, and exactly when in
  `Queries.GoesBackExactly`), or to 0 when no number was asked for, so that going on from it
  starts over (`Queries.SinceAloneRestarts`). Nothing asked for is lost by the first (`Queries.NextTellsApart`).
- A shard cursor is reported incomplete when nothing of the shard is held, although nothing may be lost
  (`Queries.EmptyShard`, and exactly when, for times without gaps, in `Queries.CoveredMeans`).
- When a response's header block has no second word, the status is read from whatever body bytes came in the same chunk
  (`CaptureStatus.StatusVaries`).
- A chunk that would take the headers over 1 MiB is dropped and later chunks are still added, so that the captured
  headers can be of a text that was never sent (`Capture.CaptureIsKept`, `Capture.SplicedChunks`).
- The comment on the initial hash value in `clib/src/crypto.c` names the first 32 bits of the roots of the 23rd to 30th
  primes. The constants are the standard's: the second 32 bits of the roots of the 9th to 16th
  (`Sha224Constants.InitialValue`).

## Model

| member | source | states |
|---|---|---|
| JsonRoundTrip.RoundTrip | native/src/json.c:847-881 | Parsing a printed value of C strings and exact 64-bit integers gives it back, repeated keys included, if and only if it is nested at most 64 deep; deeper values are refused |
| JsonRoundTrip.ValueRoundTrip | native/src/json.c:520-555 | The same for a value inside a document, at any depth and before any text that may follow a value |
| JsonRoundTrip.StringRoundTrip | native/src/json.c:108-134 | A quoted and escaped C string is read back, and reading stops at its closing quote |
| JsonRoundTrip.EscapedExactly | native/src/json.c:114-132 | A character is written as it is if and only if it is no control character below a space, no quotation mark and no backslash |
| JsonRoundTrip.NumberRoundTrip | native/src/json.c:463-518 | An exact 64-bit integer is read back before any delimiter |
| JsonComplete.AcceptsExactly | native/src/json.c:198-573 | A text is accepted if and only if a syntax tree of RFC 8259 (white space as `isspace` has it), nested at most 64 deep, with paired surrogates and numbers that `strtod` converts, spells it; the value is what every such tree stands for |
| JsonSound.DocumentSound | native/src/json.c:198-573 | Every accepted text is spelled by such a tree |
| JsonComplete.DocumentComplete | native/src/json.c:198-573 | The text of every such tree is accepted, and parsed to the words, numbers, strings, items and members of the tree |
| JsonComplete.AcceptedIsStrict | native/src/json.c:198-202 | An accepted text is spelled by a tree of RFC 8259 if and only if it holds no vertical tab and no form feed |
| JsonComplete.FormFeedAccepted | native/src/json.c:198-202 | A form feed and null are accepted, and no tree of RFC 8259 spells them |
| JsonUtf8.DocumentDecodes | native/src/json.c:240-368 | Every key and string parsed from UTF-8 text is UTF-8 |
| JsonUtf8.TextExactly | native/src/json.c:240-368 | A document is UTF-8 if and only if every key and string that it stands for by RFC 8259 is |
| JsonUtf8.DecodesExactly | native/src/json.c:240-368 | Without escapes of U+0000 the parsed strings are UTF-8 if and only if the text is |
| JsonUtf8.GivesMeaningExactly | native/src/json.c:260-279 | The parsed value is what the document stands for by RFC 8259 if and only if it holds no escape of U+0000 |
| JsonUtf8.RawByteAccepted | native/src/json.c:301-305 | A string of one byte that is not UTF-8 is accepted and kept |
| JsonUtf8.JoinedAcrossNul | native/src/json.c:260-279 | A text that is not UTF-8, whose string is, because the bytes around an escape of U+0000 join |
| JsonUtf8.StringExactly | native/src/json.c:281-368 | After any bytes, a spelled string is UTF-8 if and only if what it stands for is |
| JsonUtf8.UnicodeDecodes | native/src/json.c:240-279 | An accepted \u escape or surrogate pair decodes to UTF-8, and to nothing if and only if it is that of U+0000 |
| JsonParser.ParseText | native/src/json.c:557-573 | The cursor-based parser returns the grammar's value or error, at the grammar's position |
| JsonParser.Parser.ReadValue | native/src/json.c:520-555 | One value is read and the depth counter is restored, on errors too |
| JsonParser.Parser.ReadArray | native/src/json.c:372-417 | An array is read as the grammar reads it, with the nesting limit |
| JsonParser.Parser.ReadObject | native/src/json.c:419-461 | An object is read with all its members in order, repeated keys included |
| JsonParser.Parser.ReadString | native/src/json.c:281-368 | A string is decoded, and each malformed one stops at the right place with its error |
| JsonParser.Parser.ReadUnicode | native/src/json.c:240-279 | A code unit or surrogate pair is decoded; a lone surrogate is an error |
| JsonParser.Parser.ReadNumber | native/src/json.c:463-518 | A number's extent, and whether it is an exact 64-bit integer, are the grammar's |
| JsonPrinter.AppendString | native/src/json.c:108-134 | The quoted string is appended, or the buffer is marked failed |
| JsonPrinter.AppendValue | native/src/json.c:847-881 | The value's text is appended, or the buffer is marked failed |
| Buffers.Buffer.Reserve | native/src/json.c:17-45 | Growing keeps the contents and makes room exactly when the size is a `size_t` |
| Buffers.Buffer.Append | native/src/json.c:60-86 | Text is appended, or nothing changes and the buffer is failed for good |
| Utf8.Valid | native/src/developer.c:1524-1555 | Bytes are accepted if and only if they are a concatenation of encodings of Unicode scalar values (section 4 of RFC 3629) |
| Utf8.HeadEncodes | native/src/developer.c:1527-1552 | What the range checks let through is a scalar value whose encoding is those very bytes |
| Utf8.EncodingFolds | native/src/developer.c:1527-1552 | Every scalar value's encoding passes the checks and folds back to it |
| TomlText.DocumentReads | native/src/config_mutation.c:1265-1319 | For integers of magnitude at most 9.0e15, reading the rendered text gives what its members build, and succeeds if and only if no two members at any level share a key, unless both are arrays of tables |
| TomlText.DocumentRoundTrip | native/src/config_mutation.c:1265-1319 | Reading the rendered text gives a table that holds the JSON object, key by key and value by value, if and only if no key is repeated, at any level |
| TomlHolds.HoldsExactly | native/src/config_mutation.c:1197-1319 | What the lines of members build has the same truths, numbers, strings, arrays and tables as the members, null members dropped, if and only if no key is repeated |
| TomlHolds.NumberWritten | native/src/config_mutation.c:1204-1211 | A whole number of magnitude at most 9.0e15 is written as an integer, and any other as `%.17g` gives it |
| TomlHolds.EscapedExactly | native/src/config_mutation.c:1155-1179 | A character of a string is written as it is if and only if it is no control character, no quotation mark and no backslash |
| TomlHolds.KeyWritten | native/src/config_mutation.c:1182-1195 | A key is written bare if and only if it is made of letters, digits, underscores and hyphens |
| TomlHolds.LinesInOrder | native/src/config_mutation.c:1265-1319 | Of two lists of members joined, the pairs, the tables and the arrays of tables are each written in the order of the members |
| TomlHolds.ItemsInOrder | native/src/config_mutation.c:1308-1316 | The tables of an array are written in its order |
| TomlBuild.BuiltExactly | native/src/config_mutation.c:1265-1319 | The lines of members are readable exactly when no two clash |
| TomlBuild.BuiltIsTree | native/src/config_mutation.c:1265-1319 | Members of distinct keys build their tree, at every level |
| TomlExact.TreeExactly | native/src/config_mutation.c:1265-1319 | Members build their tree if and only if no key is repeated, at any level |
| TomlExact.ArraysMerge | native/src/config_mutation.c:1300-1317 | Two arrays of tables under one key are read as the array of all their items, which is not their tree |
| TomlText.LineReads | native/src/config_mutation.c:1149-1263 | Each rendered key line and header is read as that line and no further |
| TomlTree.ReadTable | native/src/config_mutation.c:1265-1319 | The lines of a table, read in its place, build exactly what its members build there and change nothing else, or are refused |
| TomlWriter.AppendString | native/src/config_mutation.c:1149-1180 | The basic string's text is appended if and only if it fits in a `size_t` |
| TomlWriter.AppendKey | native/src/config_mutation.c:1182-1195 | A bare or quoted key is appended if and only if it is not empty and fits |
| TomlWriter.AppendValue | native/src/config_mutation.c:1197-1236 | A value is appended if and only if it is a scalar or a plain array and fits |
| TomlWriter.IsObjectArray | native/src/config_mutation.c:1238-1254 | Finds the non-empty arrays of objects only, and when it reports a mixed array that array cannot be rendered |
| TomlWriter.AppendPath | native/src/config_mutation.c:1256-1263 | The dotted path is appended if and only if no key in it is empty and it fits |
| TomlWriter.RenderTable | native/src/config_mutation.c:1265-1319 | The table's lines are appended if and only if its members are supported, within the depth, and fit; the path array is never left and its entries above are kept |
| TomlWriter.RenderDocument | native/src/config_mutation.c:1321-1343 | Rendering gives the document's text, exactly for supported objects nested at most 64 deep whose text fits, and nothing otherwise |
| Calendar.DateRoundTrip | native/src/license.c:43-66 | Every valid Gregorian date, of any year, comes back from its day number |
| Calendar.DayRoundTrip | native/src/license.c:43-66 | Every day number gives a valid date, and comes back from it |
| Calendar.CountsDays | native/src/license.c:43-78 | The next day of the Gregorian calendar has the next number, and 1970-01-01 is 0 |
| Calendar.OrderPreserved | native/src/license.c:43-51 | Earlier dates are exactly those with smaller numbers |
| Cutoff.AddMonthsMeaning | native/src/license.c:84-99 | Adding months moves the month by that many, clamps the day to the month's length, and keeps the time of day |
| Cutoff.YearKeepsOrderExactly | native/src/license.c:84-99 | A year keeps the order of two times if and only if they are not late on 28 February and earlier in the day on 29 February of the same year |
| Cutoff.YearKeepsOrder | native/src/license.c:84-99 | In particular when the later time is not on 29 February |
| Cutoff.YearIsNotMonotone | native/src/license.c:84-99 | Two times on 28 and 29 February 2028 whose order a year reverses |
| Cutoff.CutoffIgnoresOrder | native/src/license.c:235-274 | The cutoff depends only on how many unrevoked update purchases there are at each time, not on their order |
| Cutoff.PurchaseNeverHurts | native/src/license.c:241-274 | One more unrevoked update purchase, put anywhere, never moves the cutoff earlier |
| Cutoff.OthersDoNotMatter | native/src/license.c:228-266 | A transaction that is revoked, or of another product, changes nothing, wherever it is |
| Cutoff.DatesCounted | native/src/license.c:259-266 | A time is collected as often as an update was bought then and not revoked |
| Cutoff.NoUpdates | native/src/license.c:241-274 | Without updates the cutoff is a year after the purchase |
| Cutoff.LatestExtends | native/src/license.c:267-271 | The latest update gives a year from then, or from the cutoff so far if that is later |
| Cutoff.CollectUpdates | native/src/license.c:228-266 | The dates of the unrevoked update purchases are gathered |
| Cutoff.UpdateCutoff | native/src/license.c:241-274 | The gathered, sorted dates extend the cutoff one after the other |
| Rfc3339.RoundTrip | native/src/license.c:119-222 | The text of a 64-bit timestamp is parsed back to it if and only if it is at least -9223372036 seconds, and is refused otherwise (section 5.6 of RFC 3339) |
| Rfc3339.FormatReads | native/src/license.c:119-222 | The same by whole seconds, trimmed fractions included |
| Rfc3339Grammar.ParseExactly | native/src/license.c:119-191 | A text is accepted if and only if it is a date, a time, an optional fraction of up to nine digits and a zone, and its instant is in range |
| Rfc3339Grammar.StampParses | native/src/license.c:119-191 | Such a text in any zone up to 23:59 is parsed to the local time less the offset |
| Rfc3339.ParseFits | native/src/license.c:181-190 | The instant of an accepted text is a 64-bit timestamp if and only if it is not in the last accepted second with a fraction above 854775807 |
| Rfc3339.PastEndText | native/src/license.c:181-190 | A text that is: 2262-04-11T23:47:16.9Z |
| Rfc3339.ParseText | native/src/license.c:119-191 | The scan accepts exactly the texts of the grammar with valid fields, gives their instant, and says exactly when that is a 64-bit timestamp |
| Rfc3339.ReadFraction | native/src/license.c:148-162 | One to nine fraction digits are scaled to nanoseconds; other counts are refused |
| Rfc3339.FormatText | native/src/license.c:193-222 | The date, time and trimmed fraction are written |
| Events.CreateRing | native/src/events.c:48-73 | A capacity of zero, or one whose events would not fit in a `size_t`, is refused |
| Events.Ring.Add | native/src/events.c:90-112 | The wrapped slots hold the end of the history after every append, numbered from 1 |
| Events.Ring.Snapshot | native/src/events.c:177-217 | The held events, oldest first, are the last of the history |
| Events.Ring.Since | native/src/events.c:114-175 | The held events of a later Lamport time in order; when it says complete no later event was evicted, if times rise, and the converse if they rise by one from 0 or 1 |
| Events.CompleteMeans | native/src/events.c:114-175 | What the completeness of a replay means for the events that were evicted |
| Events.Ring.SlotHolds | native/src/events.c:114-217 | Counting round from the oldest slot meets the held events in order |
| Queries.Query | native/src/events.c:366-452 | The page's events, its next number and its completeness, from a snapshot and a total, for a number, shard cursors or both |
| Queries.FindCursor | native/src/events.c:291-312 | The first readable cursor of a shard |
| Queries.Oldest | native/src/events.c:393-399 | The least Lamport time held of a shard, or the largest 64-bit number |
| Queries.CheckCursors | native/src/events.c:378-404 | Every cursor is readable and some held event of its shard is at most one later |
| Queries.NextTellsApart | native/src/events.c:408-446 | Of the events asked for, those on the page are exactly those up to its next number |
| Queries.PageHolds | native/src/events.c:408-446 | A page holds exactly the held, matching events that are new: of a later number, or of a later Lamport time than the first cursor of their shard; one cut short only those up to its next number |
| Queries.CompleteExactly | native/src/events.c:374-404 | A page is complete if and only if it is not cut short, the ring starts no later than the number, and every cursor is covered |
| Queries.GoesBackExactly | native/src/events.c:408-446 | The next number of a page cut short is below the one asked for if and only if the first event left out is not above it, or is the one after it and the event of that number was not asked for |
| Queries.GoesBack | native/src/events.c:408-446 | Two events for which that happens |
| Queries.SinceAloneRestarts | native/src/events.c:408-446 | With shard cursors alone, the next number is 0 exactly for a page cut short or when nothing was appended; going on from it asks for every held event again exactly after a page cut short |
| Queries.CoveredMeans | native/src/events.c:378-404 | A covered cursor of a shard whose times rise has lost nothing later; without gaps, covered means that and that something of the shard is held |
| Queries.EmptyShard | native/src/events.c:378-404 | A shard without events has lost nothing, and no cursor of it is covered |
| EventClient.Client.Poll | native/src/api_server.c:1121-1184 | A poll asks after the remembered number, the first one also by shard cursors, and remembers the next one, whatever is appended between its snapshot and its reading of the total |
| EventClient.ReplyIsAnswer | native/src/events.c:366-452 | Without shard cursors the page is the one that runs are made of |
| EventClient.ReplayIsDelivered | native/src/api_server.c:1121-1184 | Whatever a first poll asks for and the ring holds is on its page, or delivered by every run that reaches it and does not leave it out |
| PagingRuns.PageExact | native/src/events.c:366-452 | A page is exactly the matching events between its two cursors, less the missed and the silent |
| PagingRuns.SilentExactly | native/src/events.c:369-451 | A truncated page passes over nothing unflagged; another passes over exactly the events appended between its two steps |
| PagingRuns.PagesExact | native/src/events.c:366-452 | Over every run, the concatenated pages are the matching events in order, without duplicates, less exactly those left out |
| PagingRuns.MissesAreReported | native/src/events.c:366-452 | In every run a poll is complete if and only if it missed no evicted event and was not truncated |
| PagingRuns.AtomicPagesExact | native/src/api_server.c:1121-1225 | When polls are atomic, the pages leave out evicted events only |
| Breakpoints.RunKeeps | native/src/developer.c:2796-2891 | After every run, identifiers are distinct, everyone who entered waits or has returned, and no verdict differs from the one due |
| BreakpointRuns.ResolveDecides | native/src/developer.c:2944-3023 | A resolution that reports success decides what the waiter returns: it drops if and only if the action says "drop", and returns its stage's edit if and only if the action is missing, empty or says "continue", in any case of letters |
| BreakpointRuns.ResolvedOnce | native/src/developer.c:2944-3023 | At most one resolution of a breakpoint reports success |
| BreakpointRuns.ResolveSucceeds | native/src/developer.c:2963-3023 | A resolution succeeds if and only if its breakpoint waits undecided and its action and edits are usable |
| BreakpointRuns.OtherWordsInvalid | native/src/developer.c:2952-2972 | A resolution without a readable body, or with any other word, is invalid and changes nothing |
| BreakpointRuns.OnlyResolversAct | native/src/developer.c:2865-2881 | A waiter that drops or returns an edit does what some successful resolution asked for |
| BreakpointRuns.ReturnsOnce | native/src/developer.c:2881-2890 | A breakpoint whose waiter returned is gone for every later step |
| BreakpointRuns.TimeoutReturns | native/src/developer.c:2857-2890 | A waiter whose time is up returns and leaves the list |
| BreakpointRuns.NoLateEntry | native/src/developer.c:2836-2843 | Once destruction has begun nobody enters |
| BreakpointRuns.RefusedExactly | native/src/developer.c:2836-2843 | An entry is refused if and only if destruction has begun |
| BreakpointRuns.EntriesNumbered | native/src/developer.c:2844-2847 | Breakpoints are numbered from 1 in the order of entry |
| BreakpointRuns.FreedWhenDrained | native/src/developer.c:458-465 | Destruction passes its wait only when everyone who ever entered has returned, and that stays so |
| BreakpointRuns.DestroyDrains | native/src/developer.c:242-252 | Destruction never waits for a resolver: waking those in the list empties it |
| BreakpointManager.Manager.Join | native/src/developer.c:2836-2856 | The entering step under the mutex |
| BreakpointManager.Manager.Decide | native/src/developer.c:2963-3012 | The resolving step: the search, the checks and the verdict |
| BreakpointManager.Manager.Leave | native/src/developer.c:2857-2890 | The waiter's last step: what it returns, and its removal from the list |
| BreakpointManager.Manager.ContinuePending | native/src/developer.c:242-252 | Everyone undecided is let through, and no other verdict is touched |
| BreakpointManager.Manager.Stop | native/src/developer.c:458-462 | The first step of destruction |
| Capture.CaptureIsWhole | native/src/developer.c:1381-1458 | Headers are those of the whole response's header block, the preview is the longest allowed prefix of its body, and the size counts it, for every way of cutting that fits |
| Capture.ChunkIndependent | native/src/developer.c:1381-1458 | Two ways of cutting the same response give the same headers, preview and size |
| Capture.OverflowExactly | native/src/developer.c:1389-1395 | The error appears if and only if the bytes went over 1 MiB before the headers were complete |
| Capture.CaptureIsKept | native/src/developer.c:1381-1458 | Whatever the chunks, the capture is that of the chunks that are kept, which fit, and the error says whether any was dropped |
| Capture.Spliced | native/src/developer.c:1389-1395 | A dropped chunk splices what came before it to what comes after: the headers are of a text that was not sent |
| Capture.SplicedChunks | native/src/developer.c:1389-1395 | Three chunks for which that happens |
| CaptureStatus.StatusExactly | native/src/developer.c:1413-1421 | Every cut within the limit of every response with a header block gives the status in the block if and only if the block holds a second word or is too near the limit for a status to follow it |
| CaptureStatus.StatusIsWhole | native/src/developer.c:1413-1421 | The first half for one response and cut |
| CaptureStatus.StatusVaries | native/src/developer.c:1413-1421 | Otherwise some body gives status 200 in one chunk and none in two |
| StatusLine.ScanDecided | native/src/developer.c:1417-1421 | When the block holds a second word the scan does not depend on what follows the block |
| StatusLine.ScanUndecided | native/src/developer.c:1417-1421 | When it does not, some following text makes the scan find any number |
| StatusLine.TooShortForStatus | native/src/developer.c:1417-1421 | When fewer than three bytes follow such a block, or five if it has no word, the scan finds nothing of three digits |
| StatusMeaning.ScanExactly | native/src/developer.c:1417-1421 | The scan finds a number if and only if the text is "HTTP/", a word, white space and that number, signed or not, and then no digit |
| StatusMeaning.StatusMeans | native/src/developer.c:1413-1421 | The status is the number of such a line, up to a zero byte, if it has three digits, and stays otherwise |
| StatusMeaning.NulEnds | native/src/developer.c:1410-1421 | What follows the first zero byte of a line does not matter |
| CaptureRecorder.Capacity | native/src/developer.c:1397-1403 | Doubling ends with enough room and within the limit |
| CaptureRecorder.Recorder.WriteBody | native/src/developer.c:1212-1231 | The preview takes what still fits, and the size stops at the 64-bit maximum |
| CaptureRecorder.Recorder.Store | native/src/developer.c:1396-1412 | The chunk is added to the header buffer, which grows when it must |
| CaptureRecorder.Recorder.Receive | native/src/developer.c:1444-1458 | One chunk's effect on the whole capture |
| Rewrite.ReplacedIsJoined | native/src/developer.c:2179-2223 | Replacing glues with the replacement the pieces that the needle glues to the body |
| Rewrite.PiecesAreLeftmost | native/src/developer.c:2187-2194 | The pieces are cut at leftmost, non-overlapping occurrences: no piece hides an earlier one |
| Rewrite.ReplacedLength | native/src/developer.c:2195-2203 | The length that the counting pass computes is the result's |
| Rewrite.SetMeans | native/src/developer.c:2143-2163 | Setting a header leaves exactly that one under its name, and all others in order |
| Rewrite.Message.RemoveHeader | native/src/developer.c:2143-2157 | All headers of the name, in any case, are dropped in place, and the others kept in order |
| Rewrite.Message.AddHeader | native/src/developer.c:2121-2141 | A header is added at the end, unless its name is empty |
| Rewrite.Message.SetBody | native/src/developer.c:2165-2177 | The body is set, with exactly one Content-Length, equal to its length |
| Rewrite.Message.CountOccurrences | native/src/developer.c:2186-2194 | The counting pass counts the occurrences that are replaced |
| Rewrite.Message.WriteReplaced | native/src/developer.c:2204-2219 | The copying pass fills the counted length exactly, and stays inside it |
| Rewrite.Message.ReplaceBody | native/src/developer.c:2179-2223 | It fails exactly when the new length is not a `size_t`, changes nothing without an occurrence, and else replaces all and leaves one Content-Length |
| CurlLex.Tokenize | native/src/developer_curl.c:76-155 | The tokenizer loop gives the tokens or the error of the shell rules |
| CurlWords.WordsAreRead | native/src/developer_curl.c:76-155 | A command of any words, plain, escaped or quoted in either way, is read as those words, up to 4096 of them and 1 MiB |
| CurlWords.UnclosedQuote | native/src/developer_curl.c:76-155 | A quote that is not closed is an error |
| CurlLex.QuoteLexes | native/src/developer.c:3417-3428 | Any C string, quoted, is read as that string within a token |
| CurlLex.ArgsLex | native/src/developer_curl.c:76-155 | A list of exported arguments is read as their values, before any text |
| Curl.ImportCommand | native/src/developer_curl.c:329-462 | The option loop gives the import of the command, or the first error and the option it is about |
| CurlMeaning.ImportMeans | native/src/developer_curl.c:329-462 | A command is imported as its words mean, without the name of the program |
| CurlMeaning.OptionsMean | native/src/developer_curl.c:344-450 | The method is the last one asked for, else POST with data and GET without; the URL is the last operand; the headers are those of -H, -A and -e in order; the body is all data values joined by "&"; an option that takes a value takes one word; the first error wins |
| CurlMeaning.TrimMeans | native/src/developer_curl.c:157-171 | Trimming removes all white space at both ends and nothing else |
| CurlMeaning.UppercaseMeans | native/src/developer_curl.c:157-171 | The method is in capitals, and otherwise as given |
| CurlMeaning.SplitMeans | native/src/developer_curl.c:220-258 | A header is split at its first colon |
| Curl.HeaderOptions | native/src/developer.c:3454-3478 | The headers' options, without Host and Content-Length, and the names of the redacted ones |
| Curl.ExportCommand | native/src/developer.c:3430-3523 | The exported command and its warnings |
| CurlMeaning.NotesMean | native/src/developer.c:3496-3506 | The notes are the truncation warning, and the names of the redacted headers with ", " between them |
| CurlRoundTrip.ImportExport | native/src/developer_curl.c:301-469 | Importing an exported command gives back method, URL, headers and body if and only if the stored body holds no zero byte and was not truncated (or the URL is "sending") |
| Dns.WireDetermines | native/src/dns.c:673-681 | Two lists of questions, even of different lengths, with the same bytes are the same |
| Dns.QuestionsRead | native/src/dns.c:624-645 | Every list of well-formed questions is read from its bytes, before any text (section 4.1 of RFC 1035) |
| Dns.QuestionsWritten | native/src/dns.c:624-645 | Whatever is read is well-formed, as many as asked for, and spelled by the bytes read |
| Dns.CountSpelled | native/src/dns.c:626-628 | The number of questions is the one the header spells in its fifth and sixth bytes, high byte first |
| DnsProxy.QuestionEnd | native/src/dns.c:624-645 | The offset after the questions, or 0 |
| DnsProxy.EndMeans | native/src/dns.c:624-645 | The offset is positive if and only if all counted questions are there, and the bytes before it spell them |
| DnsProxy.ValidateResponse | native/src/dns.c:647-683 | A response is accepted if and only if it has the query's identifier and its questions, and each error names the first check that fails |
| DnsProxy.JudgedMeans | native/src/dns.c:647-683 | What each verdict means, by the questions, the lengths and the identifiers |
| DnsProxy.SameQuestions | native/src/dns.c:673-681 | Comparing bytes compares the questions and their number, which is never compared |
| DnsProxy.Servfail | native/src/dns.c:685-712 | The copied and edited buffer is the failure response; a query without a header is refused |
| DnsProxy.FailureAcceptable | native/src/dns.c:685-712 | The failure response to a well-formed query is acceptable for it, and ends with its questions |
| DnsProxy.FailureLayout | native/src/dns.c:705-708 | Response bit set, code 2, answer counts 0, and the identifier, other flags and questions kept |
| DnsProxy.RestoredAcceptable | native/src/dns_quic.c:455-465 | A response accepted under identifier 0 is acceptable for the query once its identifier is back (section 4.2.1 of RFC 9250) |
| DnsProxy.QuicDelivers | native/src/dns_quic.c:455-465 | Putting the identifier back decides nothing: both sides of the acceptance are the same |
| DnsProxy.FrameUndone | native/src/dns_quic.c:415-417 | The two length bytes give the message back |
| DnsProxy.QuicRequest | native/src/dns_quic.c:409-419 | The request is the query under identifier 0, behind its length |
| DnsProxy.QuicExchange | native/src/dns_quic.c:398-466 | It succeeds exactly for a stream of one whole acceptable message, and returns it under the query's identifier |
| DnsProxy.QuicStatusMeans | native/src/dns_quic.c:398-466 | A stream that ends before the announced length is a failed read, one of a wrong length a malformed response |
| DnsProxy.Exchange | native/src/dns.c:1169-1239 | The first upstream that can answer does; else the failure response with the last upstream's error; either way what is returned is acceptable for the query |
| Sha224.Sum | clib/src/crypto.c:208-251 | The digest is that of the padded message (sections 5.1.1 and 6.3 of FIPS 180-4) |
| Sha224Example.KnownAnswer | clib/src/crypto.c:170-251 | The digest of "abc" is the published one |
| Sha224.ChainedJoins | clib/src/crypto.c:208-251 | What follows a whole number of blocks is folded into what they gave |
| Sha224.Compress | clib/src/crypto.c:178-206 | The state is updated in place to the standard's next hash value (section 6.2.2) |
| Sha224.Expand | clib/src/crypto.c:184-192 | The two loops fill the message schedule |
| Sha224.Mix | clib/src/crypto.c:194-202 | The 64 rounds on the working variables |
| Sha224.FinishTail | clib/src/crypto.c:223-243 | The tail is one block when marker and length fit, else two, and completes the padded message |
| Sha224Padding.OneBlockTail | clib/src/crypto.c:223-243 | With fewer than 56 bytes over, what follows the whole blocks is one block: the bytes, the marker, zeros and the length |
| Sha224Padding.TwoBlockTail | clib/src/crypto.c:223-243 | Otherwise it is two, cut after the zeros that fill the first |
| Sha224Padding.LengthField | clib/src/crypto.c:217-242 | The bytes shifted out of the 64-bit count are the length's big-endian bytes |
| Sha224Words.BytesSpellWord | clib/src/crypto.c:245-250 | The digest's bytes spell its words |
| Sha224Constants.InitialValue | clib/src/crypto.c:163-168 | The initial value is the second 32 bits of the fractional parts of the square roots of the 9th to 16th primes (section 5.3.2) |
| Sha224Constants.RoundConstants0 | clib/src/crypto.c:144-161 | Round constants 0 to 15 are the first 32 bits of the fractional parts of the cube roots of the primes (section 4.2.2) |
| Sha224Constants.RoundConstants1 | clib/src/crypto.c:144-161 | The same for constants 16 to 31 |
| Sha224Constants.RoundConstants2 | clib/src/crypto.c:144-161 | The same for constants 32 to 47 |
| Sha224Constants.RoundConstants3 | clib/src/crypto.c:144-161 | The same for constants 48 to 63 |
| TokenBucket.WindowBound | native/src/conditioner.c:80-113 | In any window of time no more bytes are granted than a full bucket, of at least 64 KiB, and the rate times the window |
| TokenBucket.PauseEarns | native/src/conditioner.c:103-107 | The rounded-up sleep earns what is missing, and one nanosecond less would not |
| TokenBucket.EarnedMeans | native/src/conditioner.c:95-99 | Tokens are earned at so many a second |
| TokenBucket.Bucket.Refill | native/src/conditioner.c:92-102 | The tokens are filled up to the present and stay between 0 and the capacity |
| TokenBucket.Bucket.Attempt | native/src/conditioner.c:89-112 | A turn grants the chunk, or sleeps so that the next turn grants it |
| TokenBucket.Bucket.Wait | native/src/conditioner.c:80-113 | The loop ends, grants exactly the length in full chunks and a rest, and sleeps at most once a chunk |
| Paths.Idempotent | native/src/config.c:1435-1485 | The normal form has no "." but a lone one, and ".." only in a leading run of a relative path; normalising it again changes nothing |
| Paths.SameTarget | native/src/config.c:1449-1467 | From every directory the normalised path leads where the path led |
| Paths.Canonical | native/src/config.c:1435-1485 | Two absolute or two relative paths have the same normal form if and only if they lead to the same place from every directory |
| Paths.Scan | native/src/config.c:1449-1467 | The scan leaves the segments of the normal form |
| Paths.Measure | native/src/config.c:1468-1472 | The computed length is that of the text |
| Paths.Normalize | native/src/config.c:1435-1485 | The allocated buffer holds exactly the normal form and its terminator |

## Left out

- Sockets, TLS, QUIC, libcurl, libuv, MaxMind lookup and file writes: their behaviour is not in these files.
- HTTP routing, licence gates, payload encoders and the field-by-field configuration checks: flat branching.
- `ch_license_evaluate`, trial periods and feature unlocking: a flat decision over the dates that are modelled.
- Allocation failure and freeing: allocation always succeeds.
- Floating-point text: `%.17g` and `strtod` are parameters, so only exact 64-bit integers take part in the JSON round trip.
- TomlText.DocumentReads: leaves out floats and integers beyond 9.0e15, which the renderer passes through doubles, and negative zero, which reals do not have.
- TomlText.DocumentRoundTrip: leaves out the same numbers.
- Queries.Query: the type and connection filters are any predicate on events, and requests and events are not JSON text.
- Breakpoints: the rules that select a request, the JSON of a resolution (a payload is given by what it holds), the listing of pending breakpoints, and the wrap-around of the 64-bit identifier counter.
- Capture: the reading of header lines (any function of the header block), redaction, and a status number too long for `%d`.
- Rewrite: rule matching, and the order in which rules are applied.
- Curl: files named by `@`, which the importer refuses, and the JSON around the exported command.
- DNS: the transports; an upstream is given by the message or the stream that it sends.
- Sha224.Sum: the length in bits is taken modulo 2 to the 64 as in the code; the standard defines it below that only.
- TokenBucket: doubles are reals, and the conversion of a very large capacity to an integer is exact.
- Paths: symbolic links; where a path leads is lexical.
