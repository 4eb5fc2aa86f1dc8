# go-logger flag sets and text lines, in Dafny

A model of two pure pieces of the `blendlabs/go-logger` package vendored by
the pinger service:

- **`FlagSet`**, the event-category filter: a map from flag to an explicit
  enabled/disabled entry, plus the two bits `all` and `none`. The model
  covers the constructors, the mutators `Enable`, `Disable`, `SetAll` and
  `SetNone`, the query `IsEnabled`, the merge `CoalesceWith`, the
  case-insensitive CSV parser `NewFlagSetFromCSV` and the serialiser
  `String`. The Go type is mutated in place. Here it is an
  immutable record, and each mutator is a pure function from the old value
  to the new one.
- **`TextWriter`**, the line renderer. The model covers the three colourisers,
  `FormatFlag`, `FormatLabel`, `FormatTimestamp`, the `ErrorOutput` fallback,
  and the assembly of one line in `write`: the timestamp, label, flag and body
  segments, then one newline, handed to the sink in a single write.

The files are:

- `go_strings.dfy` (module `GoStrings`): the Go standard-library primitives the
  logger uses, each with a characterising contract:
  - `strings.Split` and `strings.Join`;
  - `strings.Trim` with the cut set `" \t\n"`;
  - ASCII `strings.ToLower`;
  - `strconv.Itoa`.
- `flag_set.dfy` (module `FlagSets`): the record, the query, the mutators,
  the constructors and the merge.
- `flag_set_text.dfy` (module `FlagSetText`): parsing, printing, and the
  conditional round trip between them.
- `text_writer.dfy` (module `TextWriters`): the writer configuration, the
  formatter operations, and line rendering and writing.

Primitives the writer calls but does not define are fields of one
`Externals` record. They stay uninterpreted:

- `AnsiColor.Apply`;
- the package-level `ColorizeStatusCode` and `ColorizeByStatusCode`;
- `GetFlagTextColor`;
- `time.Time.Format`;
- the palette entries `ColorBlue` and `ColorGray`.

A sink is an identity plus a `deliver` function that returns the sink's
error, if any. The clock is a parameter: `FormatTimestamp` takes the `now` it
would otherwise read.

Two behaviours of the code are easy to misread, and the model follows the
code:

- **`all` wins over `none`.** `IsEnabled` tests `all` first, so when both bits
  are set every flag without an explicit `false` entry is enabled. Both
  `CoalesceWith` and the CSV parser can produce that state: see
  `FlagSets.CoalesceCanSetBothBits` and `FlagSetText.FromCSVBothBits`.
  `String`, however, tests `none` first and prints `"none"`. A set with both
  bits therefore does not survive printing and parsing:
  `FlagSetText.RoundTripBothBits` shows it.
- **`CoalesceWith` is not "other wins" on verdicts**, although its doc
  comment (flag_set.go:164) says the other set takes precedence. The merge is right-biased
  on entries and only ever switches bits on. A flag's verdict after the merge
  is therefore not always `other`'s:
  - a `none` bit already set in the receiver disables a flag that `other`
    enables;
  - an explicit `false` entry in the receiver, for a flag `other` has no
    entry for, keeps that flag disabled even though `other` brings `all`
    and so enables it.

  Nor does a flag that `other` does not name always keep the receiver's
  verdict: an `all` bit brought in by `other` enables a flag the receiver
  left disabled by default.

  `FlagSets.CoalesceVerdict` states the exact rule, and
  `FlagSets.CoalesceBitsOverrideEntries` gives one instance of each case.

## Model

| member | source | states |
|---|---|---|
| FlagSets.IsEnabledMatchesPolicy | vendor/github.com/blendlabs/go-logger/flag_set.go:122-139 | A set stands for either "everything except its explicitly disabled flags" (when `all` is set) or "exactly its explicitly enabled flags" (otherwise; none at all when `none` is set), and `IsEnabled` admits exactly what that policy admits |
| FlagSets.AllBitResolution | vendor/github.com/blendlabs/go-logger/flag_set.go:122-129 | With `all` set, a flag is enabled iff it has no explicit `false` entry, whatever `none` says |
| FlagSets.NoAllBitResolution | vendor/github.com/blendlabs/go-logger/flag_set.go:130-138 | Without `all`: under `none` nothing is enabled; otherwise a flag is enabled iff it has an explicit `true` entry, so a missing entry means disabled |
| FlagSets.Enable | vendor/github.com/blendlabs/go-logger/flag_set.go:88-91 | The flag gets a `true` entry and becomes enabled, `none` is cleared, `all` is kept, and every other entry is unchanged |
| FlagSets.Disable | vendor/github.com/blendlabs/go-logger/flag_set.go:94-96 | The flag gets a `false` entry and becomes disabled; both bits and every other entry are kept, so every other flag keeps its verdict |
| FlagSets.SetAll | vendor/github.com/blendlabs/go-logger/flag_set.go:99-102 | `all` set, `none` cleared, entries kept; afterwards a flag is enabled iff it had no explicit `false` entry |
| FlagSets.SetNone | vendor/github.com/blendlabs/go-logger/flag_set.go:110-114 | `all` cleared, entries dropped, `none` set; afterwards no flag is enabled |
| FlagSets.AllButOne | vendor/github.com/blendlabs/go-logger/flag_set.go:94-102 | After `SetAll` then `Disable(x)`, `x` is disabled and any other flag is enabled unless it was already explicitly disabled |
| FlagSets.EnableEach | vendor/github.com/blendlabs/go-logger/flag_set.go:19-21 | Enabling a list of flags in turn gives each of them a `true` entry, adds exactly those keys, clears `none` when the list is not empty and leaves every unlisted entry alone |
| FlagSets.NewFlagSet | vendor/github.com/blendlabs/go-logger/flag_set.go:15-23 | Neither bit is set, and a flag is enabled iff it is one of the arguments |
| FlagSets.NewFlagSetAll | vendor/github.com/blendlabs/go-logger/flag_set.go:26-31 | Every flag is enabled |
| FlagSets.NewFlagSetNone | vendor/github.com/blendlabs/go-logger/flag_set.go:34-39 | No flag is enabled |
| FlagSets.CoalesceWith | vendor/github.com/blendlabs/go-logger/flag_set.go:165-175 | Each bit of the result is the disjunction of the two inputs' bits, so a bit is never cleared; the keys are the union; `other`'s entries win and the receiver's other entries stay |
| FlagSets.CoalesceVerdict | vendor/github.com/blendlabs/go-logger/flag_set.go:165-175 | On `other`'s keys the merged verdict is `other`'s entry, unless only `none` is set in the merge; elsewhere it is the receiver's entries judged under the merged bits; a receiver with neither bit agrees with `other` on `other`'s keys |
| FlagSets.CoalesceKeepsUntouchedVerdicts | vendor/github.com/blendlabs/go-logger/flag_set.go:165-175 | Merging with a set that has neither bit leaves the verdict of every flag outside its keys unchanged |
| FlagSets.CoalesceBitsOverrideEntries | vendor/github.com/blendlabs/go-logger/flag_set.go:165-175 | `other` loses twice: a receiver's `none` overrides an entry that `other` enables, and a receiver's explicit `false` survives an `all` from `other` that has no entry for the flag; and an `all` from `other` enables a flag the receiver had off by default |
| FlagSets.CoalesceCanSetBothBits | vendor/github.com/blendlabs/go-logger/flag_set.go:165-171 | Merging an all-set into a none-set receiver, or a none-set into an all-set receiver, sets both bits, and then every flag is enabled |
| GoStrings.Split | vendor/github.com/blendlabs/go-logger/flag_set.go:57 | There is at least one piece, no piece contains the separator, and joining the pieces with it gives back the input |
| GoStrings.SplitJoin | vendor/github.com/blendlabs/go-logger/flag_set.go:57 | Splitting undoes joining for a non-empty list of parts none of which contains the separator |
| GoStrings.Trim | vendor/github.com/blendlabs/go-logger/flag_set.go:60 | The result is the input with its leading and trailing runs of space, tab and newline removed: everything dropped is one of those, the kept slice neither starts nor ends with one, an empty result means the input held nothing else, and a lower-case input stays lower-case |
| GoStrings.TrimKeepsSlice | vendor/github.com/blendlabs/go-logger/flag_set.go:60 | What is kept is one contiguous slice of the input that neither starts nor ends with a space, tab or newline, and everything removed before and after it is one of those |
| GoStrings.ToLower | vendor/github.com/blendlabs/go-logger/flag_set.go:60 | Same length, no upper-case letter, each character lower-cased on its own, and a lower-case input is returned unchanged |
| GoStrings.SplitToLower | vendor/github.com/blendlabs/go-logger/flag_set.go:57-60 | Lower-casing before splitting on commas gives the same pieces as lower-casing each piece after |
| GoStrings.Itoa | vendor/github.com/blendlabs/go-logger/text_writer.go:180 | A '-' sign exactly for negative numbers, followed by a canonical decimal numeral |
| GoStrings.ItoaRoundTrip | vendor/github.com/blendlabs/go-logger/text_writer.go:180 | Reading the decimal string back gives the original integer |
| FlagSetText.Normalize | vendor/github.com/blendlabs/go-logger/flag_set.go:60 | A parsed token is lower-case and has no space, tab or newline at either end |
| FlagSetText.Record | vendor/github.com/blendlabs/go-logger/flag_set.go:61-74 | The tokens "all" and "none" switch on their bit and never clear one; every token, those two and the empty one included, records an entry: `false` for the name after a leading '-', otherwise `true` for the token itself |
| FlagSetText.RecordAllFromEmpty | vendor/github.com/blendlabs/go-logger/flag_set.go:52-78 | Parsing sets a bit iff some token is its sentinel, and a flag has an entry iff some token names it, with the value its last token records |
| FlagSetText.FromCSVMeaning | vendor/github.com/blendlabs/go-logger/flag_set.go:52-78 | For every input: a bit is set iff some comma-separated piece normalises to its sentinel, a flag has an entry iff some normalised piece names it, and the entry is the one the last such piece records |
| FlagSetText.FromCSVCaseInsensitive | vendor/github.com/blendlabs/go-logger/flag_set.go:50-60 | Lower-casing the whole input first does not change the parsed set |
| FlagSetText.FromTwoTokenCSV | vendor/github.com/blendlabs/go-logger/flag_set.go:57-75 | A CSV of two clean tokens parses like the two tokens recorded in turn |
| FlagSetText.FromCSVExample | vendor/github.com/blendlabs/go-logger/flag_set.go:52-78 | "all,-error" sets `all`, not `none`, disables "error" and enables "info" |
| FlagSetText.FromCSVBothBits | vendor/github.com/blendlabs/go-logger/flag_set.go:61-67 | "all,none" sets both bits, and "info" is then enabled |
| FlagSetText.String | vendor/github.com/blendlabs/go-logger/flag_set.go:141-162 | `none` prints as "none"; an empty set with neither bit prints as ""; under `all` the output starts with "all" |
| FlagSetText.StringOrderIrrelevant | vendor/github.com/blendlabs/go-logger/flag_set.go:146-160 | Any two map iteration orders produce the same tokens up to rearrangement |
| FlagSetText.TokenOfPrintableKey | vendor/github.com/blendlabs/go-logger/flag_set.go:150-158 | The token written for a printable key is clean, is neither sentinel, and parses back to that key with that entry |
| FlagSetText.RecordEntryTokens | vendor/github.com/blendlabs/go-logger/flag_set.go:141-162 | When every key is printable, parsing the entry tokens on top of any accumulated set keeps its bits and records, for each printable key that `String` writes, exactly the entry it had, leaving the accumulated entries of the others |
| FlagSetText.NormalizeJoinedTokens | vendor/github.com/blendlabs/go-logger/flag_set.go:57-60 | Splitting a non-empty list of ", "-joined clean tokens on commas and normalising each piece gives back the tokens |
| FlagSetText.RoundTripNone | vendor/github.com/blendlabs/go-logger/flag_set.go:142-144 | A set with only `none` prints as "none", which parses back to a set that enables nothing |
| FlagSetText.RoundTripEmpty | vendor/github.com/blendlabs/go-logger/flag_set.go:141-162 | A set that writes no token prints as "", which parses back to a set that enables no non-empty flag |
| FlagSetText.RoundTripTokens | vendor/github.com/blendlabs/go-logger/flag_set.go:141-162 | When `none` is not set, every key is printable and at least one token is written, parsing the output back gives every flag its original verdict |
| FlagSetText.RoundTrip | vendor/github.com/blendlabs/go-logger/flag_set.go:52-78 | Printing then parsing keeps `IsEnabled` for every non-empty flag, for any iteration order, when the bits are not both set and every key is printable (ASCII, lower-case, trimmed, comma-free, not a sentinel, no leading '-') |
| FlagSetText.RoundTripBothBits | vendor/github.com/blendlabs/go-logger/flag_set.go:141-144 | With both bits set, any flag that was enabled comes back disabled after printing and parsing |
| TextWriters.NewTextWriter | vendor/github.com/blendlabs/go-logger/text_writer.go:47-56 | A fresh writer shows timestamps and labels, uses colour and the RFC 3339 layout, has an empty label, and has no separate error output |
| TextWriters.ErrorOutput | vendor/github.com/blendlabs/go-logger/text_writer.go:154-159 | The error sink when one is set, the primary sink otherwise |
| TextWriters.Colorize | vendor/github.com/blendlabs/go-logger/text_writer.go:168-173 | With colour off the value comes back unchanged; with colour on the colour is applied to it |
| TextWriters.ColorizeStatusCode | vendor/github.com/blendlabs/go-logger/text_writer.go:176-181 | With colour off the result is a sign for negative codes followed by a canonical decimal numeral, and it reads back as the code |
| TextWriters.ColorizeByStatusCode | vendor/github.com/blendlabs/go-logger/text_writer.go:184-189 | With colour off the value comes back unchanged |
| TextWriters.PlainFormatterPassesThrough | vendor/github.com/blendlabs/go-logger/text_writer.go:168-189 | With colour off, all three formatter operations pass their value through, and the status code becomes its decimal string |
| TextWriters.FormatFlag | vendor/github.com/blendlabs/go-logger/text_writer.go:192-194 | The flag in square brackets, coloured only when colour is on |
| TextWriters.FormatLabel | vendor/github.com/blendlabs/go-logger/text_writer.go:197-199 | The label in square brackets, blue only when colour is on |
| TextWriters.TimeFormat | vendor/github.com/blendlabs/go-logger/text_writer.go:203-206 | The layout is never empty: the configured one when it is not empty, RFC 3339 otherwise |
| TextWriters.FormatTimestamp | vendor/github.com/blendlabs/go-logger/text_writer.go:202-211 | The first supplied time, or the current one when none is supplied, formatted with that layout and coloured gray when colour is on |
| TextWriters.FlagColor | vendor/github.com/blendlabs/go-logger/text_writer.go:248-257 | The event's own colour when it provides a non-empty one, the global lookup for the flag otherwise |
| TextWriters.BodyText | vendor/github.com/blendlabs/go-logger/text_writer.go:259-263 | The custom renderer's text when there is one, else the `String()` text, else nothing |
| TextWriters.Render | vendor/github.com/blendlabs/go-logger/text_writer.go:234-265 | Every line is at least as long as an empty bracketed flag, a space and a newline, and its last character is the appended newline |
| TextWriters.RenderEndsWithTail | vendor/github.com/blendlabs/go-logger/text_writer.go:248-265 | The line ends in the bracketed flag, a space, the body and the newline |
| TextWriters.RenderOpening | vendor/github.com/blendlabs/go-logger/text_writer.go:238-246 | The line opens with the timestamp when timestamps are shown, with the label when only the label is shown, and with the flag when neither is |
| TextWriters.TimestampSegmentIff | vendor/github.com/blendlabs/go-logger/text_writer.go:238-241 | Turning timestamps on puts the timestamp and a space in front of the line and changes nothing else |
| TextWriters.LabelSegmentIff | vendor/github.com/blendlabs/go-logger/text_writer.go:243-246 | With timestamps off, turning the label on puts the label and a space in front of a non-empty label's line and changes nothing else; an empty label is never written |
| TextWriters.FlagColorResolution | vendor/github.com/blendlabs/go-logger/text_writer.go:248-257 | An event that provides an empty colour renders like one that provides none, and with colour off the provided colour never matters |
| TextWriters.BodyPrecedence | vendor/github.com/blendlabs/go-logger/text_writer.go:259-263 | A custom renderer hides the `String()` text, and an event with neither body puts the newline right after the flag segment |
| TextWriters.PingExample | vendor/github.com/blendlabs/go-logger/text_writer.go:234-265 | With colour off, timestamps on, an empty label, flag "ping" and string body "b", the line is the formatted time, then " [ping] b" and a newline |
| TextWriters.WriteTo | vendor/github.com/blendlabs/go-logger/text_writer.go:234-268 | The whole rendered line goes to the given sink in one write, and that write's error is the result |
| TextWriters.Write | vendor/github.com/blendlabs/go-logger/text_writer.go:225-227 | Writes the rendered line to the primary output and returns that sink's error |
| TextWriters.WriteError | vendor/github.com/blendlabs/go-logger/text_writer.go:230-232 | Writes the rendered line to the error output, or to the primary output when no error output is set, and returns that sink's error |
| TextWriters.WriteAndWriteErrorAgree | vendor/github.com/blendlabs/go-logger/text_writer.go:225-232 | Both entry points write the same line, and without an error output they are the same write; a fresh writer sends error lines to its primary output |

## Left out

- `worker.go` and `main.go`: goroutines, channels, sleeps and HTTP polling, with nothing to state as a sequential contract.
- `NewFlagSetFromEnv`: it reads one environment variable and passes a non-empty value to `NewFlagSetFromCSV`, otherwise it calls `NewFlagSet`; the environment is outside the model.
- `NewTextWriterFromEnv`: it builds the writer itself from `os.Stdout`, `os.Stderr` as the error output, and five environment settings, without calling `NewTextWriter`. The environment and the process streams are outside the model; a writer it would build is a `TextWriter` value with `errorOutput` set.
- The buffer pool, `InterlockedWriter` and `io.Writer`: a write is a call to `deliver`, which returns the sink's error. A partial write is not modelled.
- The `With*` setters and the getters such as `All()`, `None()` and `Output()`: the configuration is a record, so they are field updates and field reads.
- `AnsiColor.Apply`, `GetFlagTextColor`, the package-level status-code colourisers, `time.Time.Format`, `ColorBlue` and `ColorGray`: they are not defined in the modelled files, so they are uninterpreted fields of `Externals`.
- `time.Now().UTC()`: the clock is the `now` parameter of `FormatTimestamp`. In `write` the event's own timestamp is always supplied.
- `TextWritable.WriteText`: it appends to the buffer through code the model cannot see, so it is a function from the formatter to the text it appends.
- The order of Go's map iteration in `String`: it is the `order` parameter, any enumeration of the keys, and `FlagSetText.StringOrderIrrelevant` shows the tokens do not depend on it beyond their order.
- `FlagAll` and `FlagNone` are defined outside the modelled files. The model takes them as "all" and "none".
- `RuneSpace` and `RuneNewline`, written by `write` at text_writer.go:240, 245, 257 and 265, are defined outside the modelled files. The model takes them as ' ' and '\n'.
- GoStrings.ToLower: lower-cases ASCII letters only, because Unicode case mapping is outside the model.
- A zero-value `FlagSet` has a nil map, and `Enable`, `Disable` and a `CoalesceWith` that copies entries panic on it. A nil `other` in `CoalesceWith` panics too. The model has no nil maps or nil references; a nil map reads like an empty one.
- FlagSetText.String: its contract states the "none" case, the empty case and the leading "all"; the tokens themselves are stated by `Tokens` and the round-trip lemmas rather than in this contract.
- TextWriters.Render: its contract states only that the line is at least four characters long and ends in a newline; the order and presence of the segments are stated by `RenderEndsWithTail`, `RenderOpening`, `TimestampSegmentIff` and `LabelSegmentIff`.
- FlagSetText.RoundTrip: concludes only for non-empty flags. A set that writes no token at all prints as "", and "" parses to the single entry `"": true`, which enables the empty flag. Keys themselves may be empty.
- FlagSetText.RoundTrip: requires printable keys to be ASCII. Go's `strings.ToLower` also folds non-ASCII letters ("É" to "é", the Kelvin sign to "k"), so a non-ASCII key can come back under another name, and the model's ASCII `ToLower` does not say which.
