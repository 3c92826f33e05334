# trello-calendar-proxy: the iCalendar core in Dafny

trello-calendar-proxy fetches a Trello calendar feed and serves it again with
two changes. It sets the refresh interval a client should use. It also gives
every event a `DURATION`, which it reads from a `Calendar::Duration=...` tag in
the event's description. This project models the part of the program that
does the work:

- the iCalendar reader of `ical.go`:
  - `denormalize` makes CRLF the only line ending, unfolds continuation lines
    (section 3.1 of RFC 5545) and splits the text into logical lines;
  - `parseNode` reads one `NAME:VALUE` line;
  - `parse` builds the tree of `BEGIN`/`END` blocks;
  - `ParseICal` checks that every root is `BEGIN:VCALENDAR`.
- the iCalendar writer of `ical.go`:
  - `encodeNode` writes one line;
  - `encode` writes a tree and adds the closing `END` lines;
  - `renormalize` folds lines at 75 bytes;
  - `Bytes` chains the two.
- `ICalDuration` of `ical.go`, which writes a span of nanoseconds as a DURATION
  value (section 3.3.6 of RFC 5545);
- the tree rewrites `setRefreshTime` and `addDurations` of `main.go`, and
  `parseDuration`, which reads the tag.

## Modules

Modules and their files:

- `Results` and `GoText` (`gotext.dfy`): the Go library functions the core
  calls, defined and proved here:
  - `strings.SplitN(line, ":", 2)` of ical.go:101, through the search
    `Index` and its one-character form `IndexOfChar`, which `ParseNode` uses;
  - `strings.Split`, with `Join` as the inverse its properties are stated
    against (`encode` itself writes to a buffer and calls no join);
  - `bytes.ReplaceAll`, `strings.HasPrefix`;
  - a decimal `strconv.Itoa`.
  The `strings.NewReplacer` of ical.go:105 and ical.go:164 is modelled in
  `icalendar.dfy`, as `Unescape` and `Escape`.
- `Folding` (`folding.dfy`):
  - `denormalize` as the function `Denormalize`;
  - `renormalize` as the method `Renormalize`, proved to write `Folded(lines)`.
- `ICalendar` (`icalendar.dfy`):
  - the `Node` tree, and `parseNode`/`encodeNode` with their escapes;
  - `parse` as the method `Parse`, proved equal to the recursive reference
    `ParseLines`. The body of its loop is the method `ParseEntry`, the
    `BEGIN` case is `ParseBlock`, and the forward scan for the closing line
    is `FindEnd`;
  - `ParseICal`, whose root check is the loop `CheckEachRoot`;
  - `encode` as the method `Encode`, proved equal to `EncodeLines`;
  - the class `ICal` with the method `Bytes`.
- `RoundTrip` (`roundtrip.dfy`): how the reader and the writer relate:
  - a parsed tree never makes `encode` panic;
  - encoding a parse gives back the non-blank lines;
  - parsing an encoding gives back the tree;
  - the whole text round trip of a calendar.
- `ParseErrors` (`errors.dfy`): when `parse` fails, and the test inputs of
  `ical_test.go`.
- `Duration` (`duration.dfy`): `ICalDuration`, which is proved equal to
  `FormatDuration`. The cut into units is the method `Cut`, and the writes
  into the buffer are `WriteHead`, `WriteTime` and `WriteUnit`.
- `Proxy` (`proxy.dfy`): `parseDuration`, `setRefreshTime` and
  `addDurations`. The two rewrites change the `nodes` field of an `ICal`
  object in place, and each is proved to leave the tree given by a function
  of the old tree. The per-event work of `addDurations` is the method
  `RewriteEvent`.

## How the Go code is represented

- Text is a `string` of one-byte characters.
- A `time.Duration` is an `int` of nanoseconds.
- A Go error is a value of an error datatype (`ParseError`, `DurationError`,
  `DurationProblem`).
- A panic is a precondition: `Bytes` requires `Encodable`, and
  `SetRefreshTime` requires a span that `ICalDuration` accepts.
- `durationRe`, its `ReplaceAllString`, `time.ParseDuration` and the `%#v`
  quoting of `fmt` are not defined here. They are the function-typed fields of
  a `Library` value, which the `main.go` operations take as a parameter.

## Model

| member | source | states |
|---|---|---|
| GoText.Index | ical.go:101 | the position found is -1 or the start of a whole occurrence inside the text |
| GoText.IndexSpec | ical.go:101 | `Index` is the leftmost occurrence of the pattern, and -1 means the pattern does not occur at all |
| GoText.IndexOfChar | ical.go:101-104 | a one-character pattern is found iff the character occurs; the character stands there and not before it |
| GoText.Split | ical.go:53 | splitting gives at least one piece |
| GoText.SplitJoin | ical.go:53 | joining the pieces of a split with the separator gives back the text |
| GoText.SplitPiecesFree | ical.go:53 | no piece of a split contains the separator |
| GoText.SplitAfter | ical.go:53 | text without the separator's first character, then the separator, becomes the first piece |
| GoText.SplitAfterLine | ical.go:53 | a prefix without LF is the first piece of a split at CRLF, whatever CRs it holds |
| GoText.ReplaceAll | ical.go:50-52 | `bytes.ReplaceAll` with a non-empty pattern, rewriting occurrences left to right without overlap; the result is no longer than the text when the replacement is no longer than the pattern |
| GoText.ReplaceAllSplit | ical.go:50-52 | `ReplaceAll` equals splitting on the pattern and joining with the replacement |
| GoText.ReplaceAllJoin | ical.go:50-51 | in joined pieces that lack the pattern's first character, exactly the separators are replaced |
| GoText.ReplaceAllSkip | ical.go:50-52 | text that cannot start an occurrence passes through unchanged |
| GoText.ReplaceAllKeepsLast | ical.go:50-51 | a last character shared by the text, the pattern and the replacement is still last after the replacement |
| GoText.HasPrefix | ical.go:31 | `strings.HasPrefix`: true iff the text is the prefix followed by the rest of the text |
| GoText.Itoa | ical.go:195 | the numeral is one or more digits and starts with `0` only for zero |
| GoText.ItoaValue | ical.go:195 | the decimal value of `Itoa(n)` is `n` |
| Folding.Denormalize | ical.go:49-54 | `denormalize` returns at least one line |
| Folding.DenormalizeNoLf | ical.go:49-54 | no logical line contains a line feed, whatever the input |
| Folding.UnfoldRemovesFolds | ical.go:52 | the unfolded text is the pieces between the CRLF-space sequences, and no piece contains one |
| Folding.DenormalizeFinalEmpty | ical.go:49-54 | input that ends in a line feed gives a final empty line |
| Folding.CanonicalEndingsFixed | ical.go:50-51 | the two ending rewrites leave text unchanged when every CR and LF in it is part of a CRLF |
| Folding.FoldLine | ical.go:122-135 | the folded form of one line starts with its first 75 bytes (all of it when it is shorter) and ends with CRLF |
| Folding.Folded | ical.go:118-138 | the bytes `renormalize` writes for the lines, one folded line after the other; non-empty input ends with CRLF |
| Folding.ContinuationSnoc | ical.go:128-133 | a CRLF and a space come before a character of the tail exactly when its index is a multiple of 74 |
| Folding.FoldedSnoc | ical.go:121-136 | one more line appends that line's folding and changes nothing before it |
| Folding.Renormalize | ical.go:118-138 | the bytes written are `Folded(lines)` |
| Folding.WriteContinuation | ical.go:128-134 | the bytes written for the tail of a long line are its continuation text |
| Folding.ContinuationLinesBounded | ical.go:128-133 | every continuation line starts with a space and holds 1 to 75 bytes |
| Folding.SplitFolded | ical.go:118-138 | folded text splits at CRLF into each line's physical lines, in order, then one empty piece, for lines without LF (a lone CR is allowed) |
| Folding.RenormalizeBounded | ical.go:118-138 | no physical line of `renormalize`'s output is longer than 75 bytes, for lines without LF; a parsed name and an escaped value hold none |
| Folding.FoldedCrlfOnly | ical.go:118-138 | every CR and LF in folded text is part of a CRLF |
| Folding.UnfoldFolded | ical.go:52 | unfolding folded lines gives each line followed by CRLF |
| Folding.DenormalizeFolded | ical.go:49-54 | `denormalize(renormalize(ls)) == ls + [""]` for lines without CR or LF that do not start with a space |
| Folding.DenormalizeLfTerminated | ical.go:49-54 | lines ended by a bare LF are read back as the lines plus a final empty line |
| ICalendar.Node.NamePrefix | ical.go:30-32 | true iff the prefix is no longer than the name and agrees with it position by position |
| ICalendar.Escape | ical.go:164-167 | the escaped value holds no CR and no LF |
| ICalendar.Unescape | ical.go:105-108 | the replacer of `parseNode`, one pass from the left: backslash-`r` is deleted, backslash-`n` becomes LF; the result is no longer than its input and holds a CR only when the input does |
| ICalendar.UnescapeEscape | ical.go:105-108 | unescaping an escaped value gives back the value itself, for a value with no CR and no backslash before `r` or `n` |
| ICalendar.EscapeUnescape | ical.go:164-167 | escaping an unescaped text gives back the text itself, for text with no CR or LF and no backslash before `r` |
| ICalendar.ParseNode | ical.go:99-110 | a parsed line has no children, and the only failure is `MalformedLine` |
| ICalendar.ParseNodeSpec | ical.go:101-108 | a line parses iff it has a colon; the name is the text before the first colon and the value is the unescaped rest |
| ICalendar.EncodeNode | ical.go:163-168 | `Name:Value` with the value escaped: the line starts with the name and a colon, and has no CR or LF when the name has none |
| ICalendar.NodeRoundTrip | ical.go:163-168 | parsing an encoded node with a colon-free name and a safe value gives back its name and value |
| ICalendar.LineRoundTrip | ical.go:163-168 | `encodeNode(parseNode(l)) == l` when the value part of `l` has no line break and no backslash-`r` |
| ICalendar.ScanEnd | ical.go:74-86 | a closing line the scan finds lies inside the lines |
| ICalendar.ScanEndSpec | ical.go:74-86 | the scan stops at the first line that fails to parse or is the matching `END`; every line before it parses and does not match |
| ICalendar.ParseBlank | ical.go:60-62 | a blank line is skipped |
| ICalendar.ParseMalformed | ical.go:64-67 | a non-blank line that does not parse fails the whole parse with `MalformedLine` |
| ICalendar.ParseStrayEnd | ical.go:90-91 | an `END` line reached by the main loop fails with `NestingMismatch` |
| ICalendar.ParseLeaf | ical.go:93 | a line that is neither `BEGIN` nor `END` becomes a node in front of the rest |
| ICalendar.ParseBeginUnclosed | ical.go:74-89 | a `BEGIN` whose scan meets a broken line fails with `MalformedLine`; one whose scan finds no `END` fails with `UnterminatedBlock` |
| ICalendar.ParseBeginClosed | ical.go:74-85 | a `BEGIN` whose scan finds its `END` holds the parse of the lines strictly between them, and parsing goes on after the `END` |
| ICalendar.FindEnd | ical.go:73-86 | the scan loop returns the result of `ScanEnd`, and a found line lies inside the lines |
| ICalendar.ParseLines | ical.go:57-96 | the recursive reference for `parse`: blank lines skipped, a `BEGIN` takes the lines up to the first matching `END` as its inner nodes, a stray `END` is a nesting error, and the first error met wins |
| ICalendar.Parse | ical.go:57-96 | the index loop with its cursor jump returns exactly the recursive reference `ParseLines` |
| ICalendar.ParseEntry | ical.go:64-93 | one non-blank line: either the failure of the whole parse, or the node and the last line it used |
| ICalendar.ParseBlock | ical.go:71-89 | one `BEGIN` line: either the failure of the whole parse, or the block node and the index of its `END` |
| ICalendar.CheckRoots | ical.go:40-45 | success iff the parse succeeded and every root is `BEGIN:VCALENDAR`; otherwise the parse error or `UnexpectedRootObject` |
| ICalendar.ParseICal | ical.go:35-46 | `ParseICal` is the root check applied to `parse(denormalize(buf))` |
| ICalendar.CheckEachRoot | ical.go:40-45 | the loop over the roots returns what `CheckRoots` states |
| ICalendar.EncodeLines | ical.go:141-160 | the lines `encode` writes: per node its own line, and for a `BEGIN` node the lines of its children and a closing `END` line; at least one line per node |
| ICalendar.EncodeLinesAppend | ical.go:141-160 | encoding two forests one after the other gives the two encodings, in order |
| ICalendar.Encode | ical.go:141-160 | the loop with its recursion returns `EncodeLines(nodes)` for every tree on which it does not panic |
| ICalendar.ICal.Bytes | ical.go:113-115 | `Bytes` returns the folded encoding of the tree |
| RoundTrip.ParsedEncodable | ical.go:70-93 | a successful parse has no `END` node, and only `BEGIN` nodes have children, so `Bytes` never panics on it |
| RoundTrip.EncodeLinesCount | ical.go:150-157 | `encode` writes one line per node plus one `END` line per `BEGIN` node |
| RoundTrip.NonBlank | ical.go:60-62 | the kept lines are non-empty lines of the input |
| RoundTrip.EncodeOfParse | ical.go:141-168 | encoding the result of a parse gives back the non-blank input lines, when their values round-trip |
| RoundTrip.ParseOfEncode | ical.go:57-96 | parsing the encoding of a well-formed forest, followed by more lines, gives that forest in front of the parse of the rest |
| RoundTrip.WellFormedEncodable | ical.go:144-148 | a well-formed forest does not make `encode` panic |
| RoundTrip.EncodedFoldable | ical.go:118-138 | the encoded lines of a well-formed forest have no CR or LF and do not start with a space |
| RoundTrip.CalendarRoundTrip | ical.go:35-46 | `ParseICal(Bytes(t)) == t` for every well-formed forest of `VCALENDAR` roots |
| RoundTrip.BytesOfParsed | ical.go:113-115 | for text folded from lines whose values round-trip, `Bytes` of its parse gives back that text without its blank lines |
| ParseErrors.BrokenInsideBlock | ical.go:74-76 | a line that does not parse, met before the block's `END`, fails the parse with `MalformedLine` |
| ParseErrors.UnclosedBeginMalformed | ical.go:73-88 | a leading `BEGIN` with no matching `END` after it, in lines that end with an empty line, fails with `MalformedLine` |
| ParseErrors.UnclosedBeginFails | ical.go:71-89 | a `BEGIN` with no matching `END` after it makes the parse fail |
| ParseErrors.SameTypeNestingRejected | ical.go:69-89 | a block that holds a `BEGIN` of its own type before its first matching `END` makes the parse fail |
| ParseErrors.BeginThenOtherEnd | ical.go:74-88 | `BEGIN:X` then `END:Y` as a calendar text fails with `MalformedLine` |
| ParseErrors.BlankLinesParseEmpty | ical.go:59-62 | lines that are all blank parse to the empty forest |
| ParseErrors.BlankCalendar | ical.go:35-46 | a calendar of only line feeds is read as the empty forest |
| ParseErrors.EmptyCalendar | ical.go:35-46 | the empty calendar is read as the empty forest |
| ParseErrors.RejectsBareLine | ical_test.go:24 | a bare line after a property fails with `MalformedLine` |
| ParseErrors.RejectsBareLineInBlock | ical_test.go:25 | a bare line inside a block fails with `MalformedLine` |
| ParseErrors.RejectsSameTypeNesting | ical_test.go:26 | two nested blocks of the same type are rejected with `UnterminatedBlock` |
| ParseErrors.RejectsCrossingBlocks | ical_test.go:27 | crossing blocks are rejected with `UnterminatedBlock` |
| ParseErrors.RejectsStrayEnd | ical_test.go:28 | a lone `END` fails with `NestingMismatch` |
| ParseErrors.RejectsOtherRoot | ical_test.go:29 | a root that is not `VCALENDAR` fails with `UnexpectedRootObject` |
| ParseErrors.RefusesEndNode | ical_test.go:38 | a tree with an `END` node makes `Bytes` panic |
| ParseErrors.RefusesChildrenOfLeaf | ical_test.go:39 | a non-`BEGIN` node with children makes `Bytes` panic |
| Duration.Decompose | ical.go:178-187 | the sign, then whole days of the magnitude and the whole hours, minutes and seconds of what is left at each step; hours below 24, minutes and seconds below 60 |
| Duration.Render | ical.go:189-214 | the text written for the parts: an optional `-`, then `P`, the days if any, and `T` with the first non-zero time unit and every smaller one |
| Duration.FormatDuration | ical.go:171-215 | what `ICalDuration` returns: `TooLarge` iff the span is a week or more either way, `TooSmall` iff it is at most a second either way, and otherwise the rendered text |
| Duration.ICalDuration | ical.go:171-215 | the method returns `FormatDuration(span)`: the refusals, or the text of the decomposed span |
| Duration.Cut | ical.go:184-187 | the successive divisions by day, hour, minute and second give `Decompose` of the magnitude |
| Duration.WriteHead | ical.go:189-197 | the sign, `P` and the days are written as `Head` states |
| Duration.WriteTime | ical.go:198-213 | `T` is written, then the first non-zero unit and every smaller unit after it |
| Duration.WriteUnit | ical.go:202-203 | one unit is its numeral followed by its letter |
| Duration.FormatDurationRefuses | ical.go:172-176 | an error iff the span is a week or more either way (too large), or at most a second either way (too small) |
| Duration.DecomposeSound | ical.go:180-187 | days ≤ 6, hours < 24, minutes < 60, seconds < 60, and they total the whole seconds of the magnitude; the sign is that of the span |
| Duration.DecomposeInRange | ical.go:184-187 | for a magnitude under a week: days ≤ 6, hours < 24, minutes < 60, seconds < 60 |
| Duration.DecomposeTotal | ical.go:184-187 | the days, hours, minutes and seconds add up to the whole seconds of the magnitude |
| Duration.DecomposeUnique | ical.go:184-187 | any parts in range with that total and sign are the decomposition |
| Duration.SomeUnit | ical.go:172-187 | an accepted span has at least one whole second, so at least one unit is non-zero |
| Duration.RenderLetters | ical.go:189-213 | `-` first iff negative, then `P`; `D` iff days; `T` iff some time unit; `H` iff hours; `M` iff hours or minutes; `S` iff any time unit |
| Duration.FormatDurationShape | ical.go:171-215 | accepted spans: `-` iff negative, then `P`; `D` iff d > 0; `T` iff h+m+s > 0; `H` forces `M` and `S`; `M` forces `S` |
| Duration.OneHour | ical.go:198-213 | one hour is written `PT1H0M0S` |
| Duration.FifteenMinutes | ical.go:198-213 | fifteen minutes are written `PT15M0S` |
| Duration.OneDay | ical.go:193-197 | one day is written `P1D` |
| Duration.MinusNinetyMinutesAndAHalfSecond | ical.go:180-213 | minus 90 minutes and half a second is written `-PT1H30M0S`, dropping the half second |
| Proxy.DurationFor | main.go:242-260 | what `parseDuration` returns: `NotFound` iff no tag matches, `Multiple` iff several do, and for one tag the DURATION text or the reason it is invalid |
| Proxy.ParseDuration | main.go:242-260 | the case split returns `DurationFor(lib, desc)` |
| Proxy.DurationForCases | main.go:243-259 | no tag is `NotFound`, several are `Multiple`; one tag succeeds iff it parses and `ICalDuration` accepts it, and a failure names the tag |
| Proxy.FoundDurationWritten | main.go:252-256 | a found duration is a non-empty text holding `P` that `ICalDuration` produces |
| Proxy.SetRefreshTime | main.go:192-204 | the nested loops leave `Refreshed(old nodes, ICalDuration(dur))` |
| Proxy.Refreshed | main.go:197-203 | the forest after `setRefreshTime`: as many roots, each with its name, its value and as many children as before |
| Proxy.RefreshedChanges | main.go:197-202 | only a direct child of a root named exactly `X-PUBLISHED-TTL` or `REFRESH-INTERVAL` changes, and only its value, which becomes the duration |
| Proxy.RefreshedIdempotent | main.go:197-202 | setting the refresh time twice is setting it once |
| Proxy.RefreshedEncodable | main.go:197-202 | the rewrite keeps a tree encodable and keeps the roots `VCALENDAR` |
| Proxy.RenderSafe | ical.go:189-213 | a duration text has no CR and no backslash, so it survives encoding and parsing |
| Proxy.RefreshedWellFormed | main.go:197-202 | the rewrite with a safe value keeps a tree well-formed |
| Proxy.RefreshedRoundTrip | main.go:192-204 | after `setRefreshTime` the calendar still reads back from its `Bytes` |
| Proxy.AddDurations | main.go:211-240 | the nested loops leave `WithDurations(lib, old nodes)` |
| Proxy.WithDurations | main.go:212-239 | the forest after `addDurations`: as many roots, each with its name, its value and as many children as before |
| Proxy.WithDuration | main.go:215-236 | an event after `addDurations` keeps its name and value, and its last child is a `DURATION` node |
| Proxy.RewriteEvent | main.go:214-237 | the rewrite of one event is `WithDuration(lib, event)` |
| Proxy.EventStep | main.go:218-228 | one more child adds its rewrite if kept, and a `DESCRIPTION` resets the duration found so far |
| Proxy.KeptChildrenAppend | main.go:225-227 | the filter handles the children one after the other, in order |
| Proxy.KeptChild | main.go:225-227 | one child is kept, rewritten, iff its name starts with neither `DTEND` nor `DURATION` |
| Proxy.RewriteValue | main.go:219-224 | only a `DESCRIPTION` changes: it gets the warning iff `parseDuration` fails other than by not finding a tag, and then loses its tags |
| Proxy.KeptChildrenFrom | main.go:225-227 | every kept child is kept by the filter and is the rewrite of some original child; no more children than before |
| Proxy.KeptChildrenUnchanged | main.go:218-228 | children that are all kept and not descriptions stay as they are, in order |
| Proxy.NoDescriptionDefault | main.go:229-231 | with no `DESCRIPTION` the duration is `PT1H` |
| Proxy.LastDescriptionWins | main.go:219-231 | the duration is the `parseDuration` result of the last `DESCRIPTION`, or `PT1H` when that fails |
| Proxy.WithDurationShape | main.go:225-236 | an event keeps its name and value; its children are the kept ones, then one final `DURATION` node |
| Proxy.WithDurationsScope | main.go:212-214 | only `BEGIN:VEVENT` children of a root change; roots and every other node stay as they were |
| Proxy.WithDurationsEncodable | main.go:232-236 | the rewrite keeps a tree encodable and keeps the roots `VCALENDAR` |

## Left out

- UTF-8: `renormalize` walks the tail of a long line by rune and counts bytes (ical.go:128-133). Here every character is one byte, as for ASCII text. Multi-byte runes and invalid UTF-8 would fold differently.
- Error texts of ical.go: the texts of `fmt.Errorf` in `parse`, `parseNode` and `ParseICal` are left out. Each error is one kind (`MalformedLine`, `UnterminatedBlock`, `NestingMismatch`, `UnexpectedRootObject`). The texts of `ICalDuration` and `parseDuration` are modelled.
- 64-bit durations: `time.Duration` is an `int64`, and the model uses an unbounded `int`. Every span beyond the range of `int64` is refused as too large, so an accepted span fits. The negation of ical.go:181 cannot overflow, because the check before it already refuses the smallest `int64`.
- Pointers: Go nodes are pointers, so two trees could share a node. The model's nodes are values, so it does not capture that sharing.
- The I/O of main.go is not part of this model: `main`, `run`, `readme`, `transformCalendar` (main.go:22-190), flag and environment handling, the HTTP server and client, and response headers.
- Library code that is only a parameter: `durationRe` matching, `ReplaceAllString`, `time.ParseDuration` and `%#v` are the fields of `Library`. The model states what the rewrites do for any behaviour of these functions, but not what the regular expression matches.
- The sample calendar of ical_test.go:10-21 is not proved byte for byte. The general statements cover it: `RoundTrip.BytesOfParsed` says that `Bytes` of a parsed text is that text with its blank lines dropped, and `Folding.DenormalizeFolded` says that folding and unfolding are inverse.
- The double parsing of lines inside a block (ical.go:72) is a cost of the code, not a behaviour. The model keeps its effect: every line before a block's `END` must parse.
- Panics are preconditions: `encode`'s panics (ical.go:144-148) become `Encodable` on `Encode` and `ICal.Bytes`, and the panic of `setRefreshTime` (main.go:194-196) becomes the requirement that `ICalDuration` accepts the span.

## Edge cases of ical.go

These behaviours of ical.go are easy to miss, and the model keeps each of them:

- An unclosed `BEGIN:X` before the final empty line fails with `MalformedLine`. The scan for the `END` parses that empty line, and parsing it fails (`ParseErrors.UnclosedBeginMalformed`).
- `BEGIN:X` followed by `END:Y` fails with `MalformedLine` for the same reason (`ParseErrors.BeginThenOtherEnd`).
- A block nested inside a block of the same type fails (ical.go:69, ical_test.go:26; `ParseErrors.SameTypeNestingRejected`). The outer block closes at the inner `END`, so the inner `BEGIN` has none: the test input of ical_test.go:26, and the crossing blocks of ical_test.go:27, fail with `UnterminatedBlock` (`ParseErrors.RejectsSameTypeNesting`, `ParseErrors.RejectsCrossingBlocks`).
- Unfolding removes only a CRLF followed by a space, although section 3.1 of RFC 5545 also allows a tab (`Folding.UnfoldRemovesFolds`).
