# printer — a Dafny model of the colour-formatting logger

This project models `Printer`, the Go logger in `writer.go`, and the constant tables it reads from
`color.go`, `level.go` and `flags.go`. A `Printer` holds:

- two output sinks, `out` and `err`;
- a log level;
- a flag set (date, goroutine id, colour);
- a map of fields.

Each log call builds a prefix (goroutine id, clock time, level name) and wraps it in colour markup
such as `{{{-F_RED,BOLD}}}`. `formatColor` rewrites every markup token into an ANSI SGR escape
sequence (ECMA-48 section 8.3.117). It appends one reset sequence only when the colour flag is set
and at least one token matched (writer.go:73-79, 120); otherwise it returns the buffer unchanged.
`writeTo` then adds a newline when the result does not already end with one (writer.go:137-140),
and writes the result to the sink.

The modules follow the Go files:

| module | file | contents |
|---|---|---|
| `Text` | (helpers) | the parts of `strings`, `bytes` and `fmt` the printer uses: ASCII lower-casing, `bytes.Split` (and `Join`, its inverse, used only to state the round trip), `%d` and `%0Nd` |
| `Colors` | `color.go` | SGR option codes, foreground and background codes, the `colorValues` and `colorOptions` tables |
| `Levels` | `level.go` | the four levels, `String` (`Name`) and `GetColor` (`Color`) |
| `Flags` | `flags.go` | the three flag bits and `&^` (`Without`) |
| `Markup` | `writer.go:50-122` | the token scanner, component resolution, and `formatColor` |
| `Writer` | `writer.go:1-48, 124-351` | the prefix, the newline rule, the emitters, the sinks, and the `Printer` class |

`Markup.Colorized` is the specification of `formatColor`: every scanned token is rewritten in place.
The method `Markup.FormatColor` follows the Go code: its outer loop, `Markup.ReplaceTokens`, builds
each sequence component by component (`Markup.BuildSgr`), then applies `bytes.ReplaceAll` once per
match. It is proved equal to `Colorized`.

The class `Writer.Printer` keeps the Go fields and updates them in place (`SetLogLevel`, `Close`).
The derivations `Copy`, `DisableColor`, `WithField` and `WithFields` return fresh printers and leave
the receiver alone. `Writer.Sink` stands for an `io.WriteCloser` such as the test's in-memory writer:
a text buffer plus a closed flag.

A write can end in one of four ways:

- `Skipped`: the level gate is closed.
- `Wrote(n)`: the line was written.
- `Failed`: the sink is closed and the write returned an error.
- `Panicked`: the sink is nil, or a write through `WriteToStd` or `WriteToErr` failed.

`Writer.Delivered` states which of these happens and what the sink then holds.

Three details of the code shape the model:

- `flags.go` defines exactly three flags: date, goroutine id and colour (flags.go:11-18). There is
  no flag for panicking on errors, for suppressing the newline or for truncating output.
- The option lookup lower-cases the component before it consults `colorOptions`, but that table's
  key for the slow-blink code is `slowBlink`, with an upper-case letter (color.go:58). No component
  can resolve to slow blink (`Markup.SlowBlinkUnreachable`).
- The emitters hard-code their own colours (writer.go:226, 238, 250, 262). `Infof` is blue and
  `Debugf` is cyan, while `GetColor` says green and blue. The model emits what `writer.go` emits, and
  `Writer.EmitterColorsAgainstGetColor` states exactly where the two agree.

## Model

| member | source | states |
|---|---|---|
| Colors.ColorValuesEnumerate | color.go:42-51 | `colorValues` maps exactly black..white, and maps them to 0..7 in that order, one to one |
| Colors.ColorCodesFromBase | color.go:17-38 | for every colour name, foreground = 30 + value and background = 40 + value |
| Colors.OptionAndColorCodesDisjoint | color.go:4-14 | option codes are at most 5 and never equal a foreground or background code; foreground codes sit below the backgrounds |
| Levels.Ordered | level.go:6-15 | ERROR < WARN < INFO < DEBUG, and these four are exactly the known levels |
| Levels.Name | level.go:18-31 | `String` gives "UNKNOWN" exactly for values outside the four levels |
| Levels.NameDistinguishes | level.go:18-31 | distinct known levels have distinct names |
| Levels.Color | level.go:34-47 | `GetColor` gives a foreground component ("F_" first); exactly the unknown levels get "F_WHITE,BOLD" |
| Flags.Values | flags.go:11-18 | the flags are 1, 2 and 4, pairwise disjoint |
| Flags.Combination | flags.go:11-18 | any OR-combination of the three flags has exactly the chosen bits set |
| Flags.Without | writer.go:314 | `f &^ flag` has no bit of flag set, and OR-ing flag back gives `f | flag` |
| Flags.WithoutClears | flags.go:11-18 | `&^ flag` clears the flag |
| Flags.WithoutRestorable | flags.go:11-18 | `&^ flag` loses nothing but that flag: OR-ing it back gives f OR flag |
| Flags.WithoutKeepsOthers | flags.go:11-18 | `&^ flag` leaves every bit disjoint from flag unchanged |
| Text.Lower | writer.go:92 | `strings.ToLower` on ASCII: same length, each character lower-cased, others kept |
| Text.Split | writer.go:88 | `bytes.Split` always gives at least one piece |
| Text.SplitPiecesHaveNoSep | writer.go:88 | no piece contains the separator |
| Text.JoinSplit | writer.go:88 | joining the pieces with the separator gives the text back |
| Text.SplitJoin | writer.go:88 | splitting a join of separator-free pieces gives the pieces back |
| Text.Decimal | writer.go:93 | `%d` writes at least one digit, only digits, and no leading zero |
| Text.DecimalRoundTrip | writer.go:93 | reading the `%d` digits back gives the number |
| Text.PaddedDecimal | writer.go:204 | `%0Nd` writes max(N, number of `%d` digits) digits that read back as the number |
| Markup.RunEndRun | writer.go:63 | the body run ends at the first character outside `[\w,]` |
| Markup.MatchAt | writer.go:63 | a match at i starts with '{' at i and lies within the text |
| Markup.MatchShape | writer.go:63 | a match opens with three '{' and closes with three '}'; in between there is no '{' and no '}', every character of the match is a token character, and the body is made of `[\w,]` |
| Markup.MatchSpelling | writer.go:63 | the matched text is exactly `{{{` body `}}}` or `{{{-` body `}}}` |
| Markup.TokenTextMatches | writer.go:63 | a token text placed anywhere in a text is matched there, with its own body |
| Markup.TokenTextsNotNested | writer.go:63 | one token text is never a proper prefix of another |
| Markup.Scan | writer.go:76 | the scanned tokens are matches, in order, after `from`, and do not overlap |
| Markup.ScanLeftmost | writer.go:76 | no match starts between `from` and the first scanned token (or anywhere after `from` when there is none), and the tokens after the first are the scan from its end |
| Markup.ScanEmpty | writer.go:76-79 | the scan finds nothing iff no position matches |
| Markup.DashOptional | writer.go:63 | `{{{X}}}` and `{{{-X}}}` are both tokens with the same body |
| Markup.TokenOfBody | writer.go:63 | any run of `[\w,]` between `{{{` or `{{{-` and `}}}` is a token with that body |
| Markup.Resolve | writer.go:90-110 | a component that resolves gives an SGR parameter no larger than 47 |
| Markup.ResolveRange | writer.go:90-110 | a resolved `B_` component is a background code (40-47), an `F_` component a foreground code (30-37), a bare one an option code (at most 5) |
| Markup.Diagnostic | writer.go:95-108 | a diagnostic is at least two characters longer than the component and starts and ends with '%' |
| Markup.DiagnosticNames | writer.go:95-108 | the component itself stands just before the diagnostic's final '%' |
| Markup.ComponentText | writer.go:93-108 | a component writes at least two characters |
| Markup.ComponentTextEnd | writer.go:93-108 | a component's text ends in ';' exactly when the component resolves |
| Markup.ResolveForegroundName | writer.go:97-100 | `F_<n>` resolves to 30 + `colorValues[lower(n)]` |
| Markup.ResolveBackgroundName | writer.go:90-93 | `B_<n>` resolves to 40 + `colorValues[lower(n)]` |
| Markup.ResolveColorName | writer.go:90-100 | both prefixes resolve a known name, to its foreground and background codes |
| Markup.ResolveUnknownForeground | writer.go:101-102 | an unknown `F_` name emits `%F_COLOR_NOT_FOUND%<component>%` |
| Markup.ResolveUnknownBackground | writer.go:94-95 | an unknown `B_` name emits `%B_COLOR_NOT_FOUND%<component>%` |
| Markup.ResolveOption | writer.go:104-109 | a bare component resolves iff it lower-cases to reset, bold, faint or underlined, to the `colorOptions` code; otherwise it emits `%NOT_FOUND%<component>%` |
| Markup.SlowBlinkKeyUnreachable | color.go:58 | no text lower-cases to the key "slowBlink" |
| Markup.SlowBlinkUnreachable | writer.go:105 | no component resolves to the slow-blink code 5 |
| Markup.PrefixCaseSensitive | writer.go:90-97 | lower-case `f_` and `b_` prefixes are not colour prefixes and never resolve |
| Markup.UnderscoreNotOption | writer.go:104-109 | any other `x_...` component is unresolved |
| Markup.ComponentTextBraceless | writer.go:93-108 | a component without '{' writes no '{' |
| Markup.CodesBraceless | writer.go:89-111 | components without '{' write no '{' |
| Markup.CodesStep | writer.go:86-111 | one inner-loop pass extends the sequence by one component's text |
| Markup.Sgr | writer.go:86-114 | every sequence starts with ESC '[' and ends with 'm' |
| Markup.SgrBraceless | writer.go:86-114 | a body without '{' gives a sequence without '{' |
| Markup.CodesResolved | writer.go:89-111 | when all components resolve, the written text is their codes joined by ';' plus a trailing ';' |
| Markup.SgrResolved | writer.go:86-114 | when all components resolve, the sequence is ESC '[' codes joined by ';' 'm' |
| Markup.FinishLastPiece | writer.go:113-114 | the truncation drops the last character written |
| Markup.SgrLastUnresolved | writer.go:113 | when the last component is unresolved, the truncation eats its diagnostic's final '%' |
| Markup.SgrEmptyBody | writer.go:108-113 | an empty body yields ESC '[' `%NOT_FOUND%` 'm' |
| Markup.RewritePlain | writer.go:116 | text without '{' passes through the rewrite unchanged |
| Markup.RewriteShift | writer.go:116 | the rewrite from the end of a front part equals the rewrite of the back part alone |
| Markup.RewriteSuffix | writer.go:116 | the rewrite of a suffix is unaffected by the text before it |
| Markup.RenderShift | writer.go:116 | the same for the SGR rendering |
| Markup.RenderNoMatch | writer.go:116-120 | after rendering and the reset, no token is left anywhere |
| Markup.Colorized | writer.go:72-122 | with the colour flag clear, or no token found, the buffer comes back unchanged; otherwise the result ends with the reset sequence `ESC[0m` |
| Markup.ColorizedLeavesNoToken | writer.go:73-121 | with colour on, the output holds no token |
| Markup.ColorizedIdempotent | writer.go:72-122 | formatting the output again changes nothing |
| Markup.ColorizedBraceless | writer.go:76-79 | text without '{' has no token and is returned unchanged |
| Markup.ReplaceAll | writer.go:116 | `bytes.ReplaceAll` leaves a text shorter than the pattern alone, and replacing the pattern by itself changes nothing |
| Markup.ReplaceAllAbsent | writer.go:116 | a text in which the pattern occurs nowhere comes back unchanged |
| Markup.ReplaceAllBraceless | writer.go:116 | `bytes.ReplaceAll` with a '{'-led pattern keeps '{'-free text unchanged |
| Markup.ReplaceAllOtherToken | writer.go:116 | replacing one token text never touches a different token text |
| Markup.PartialNoneDone | writer.go:85 | before the loop, nothing is replaced |
| Markup.PartialAllDone | writer.go:85-118 | once every scanned token text is replaced, the buffer is the full rendering |
| Markup.ReplaceStep | writer.go:116 | one `ReplaceAll` of a token text by its sequence marks exactly that token text as done |
| Markup.AllTextsDone | writer.go:85-118 | after replacing all scanned token texts, the buffer is the full rendering |
| Markup.ReplaceMatch | writer.go:85-118 | the k-th loop pass moves the buffer from k done token texts to k + 1 |
| Markup.BuildSgr | writer.go:86-114 | the inner loop builds exactly the SGR sequence of the body |
| Markup.ReplaceTokens | writer.go:85-118 | the outer loop leaves the buffer equal to the rendering: every scanned token replaced by its SGR sequence |
| Markup.FormatColor | writer.go:72-122 | with the colour flag clear, or no token found, the buffer is returned unchanged and no reset is appended; otherwise every token is replaced by its sequence and one `ESC[0m` is appended |
| Writer.FormatClock | writer.go:210 | `15:04:05.000` is 12 characters with ':' at 2 and 5 and '.' at 8 |
| Writer.ClockRoundTrip | writer.go:210 | reading the four digit groups back gives hour, minute, second and millisecond |
| Writer.ClockBraceless | writer.go:210 | the clock text holds no markup brace |
| Writer.FormatPrefix | writer.go:201-217 | the prefix always ends with the level name |
| Writer.FormatPrefixJoin | writer.go:201-217 | the prefix is the id part (if its flag is set), the clock (if its flag is set) and the level, joined by `SEPARATOR` (space, vertical bar, space) |
| Writer.PrefixWithoutFlags | writer.go:203-215 | with neither flag, the prefix is just the level name |
| Writer.PrefixWithId | writer.go:203-205 | with the id flag, the prefix starts with '[' and at least three digits that read back as the id |
| Writer.PrefixBraceless | writer.go:201-217 | the prefix adds no '{', so it never creates markup |
| Writer.EnsureNewline | writer.go:137-140 | the result extends the input and ends in '\n'; it is the same length iff the input already ended in '\n', and at most one longer |
| Writer.EnsureNewlineIdempotent | writer.go:137-140 | a second application changes nothing |
| Writer.RewriteKeepsLast | writer.go:116 | a text whose last character is not '}' keeps that last character after rewriting |
| Writer.NewlineAfterReset | writer.go:120-140 | a coloured message with a token that ends in '\n' gets '\n' ESC[0m '\n' at its end |
| Writer.Line | writer.go:133-141 | the written line starts with formatColor's output, ends in '\n', and is at most one character longer |
| Writer.LineWithoutColor | writer.go:133-141 | with colour off, the line is the text plus the newline rule |
| Writer.SgrOfTwo | writer.go:86-114 | a two-component body with both parts resolved gives ESC '[' code ';' code 'm' |
| Writer.SgrOfOne | writer.go:86-114 | a one-component resolved body gives ESC '[' code 'm' |
| Writer.ResetToken | writer.go:226 | `RESET` gives exactly the reset sequence `ESC[0m` |
| Writer.BoldForeground | writer.go:226-262 | `F_<n>,BOLD` resolves fully to ESC '[' (30 + value) ';' 1 'm' |
| Writer.EmitterColor | writer.go:226-262 | each emitter's colour is a token body of `[\w,]` naming a foreground ("F_") followed by ",BOLD" |
| Writer.Message | writer.go:224-265 | an emitter's message starts with its colour token `{{{-<colour>}}}` and ends with the user's message |
| Writer.EmitterColorSequences | writer.go:224-265 | the emitters' markup resolves fully, to 31, 33, 34 and 36 with bold |
| Writer.LevelColorSequences | level.go:34-47 | every `GetColor` result resolves fully, to 31, 33, 32, 34 with bold, or 37 with bold for unknown levels |
| Writer.EmitterColorsAgainstGetColor | level.go:34-47 | the emitter colours agree with `GetColor` exactly for ERROR and WARN |
| Writer.RewriteEntry | writer.go:226 | rewriting an emitter message gives colour, prefix and space, reset, then the rendered user text |
| Writer.EntryScanned | writer.go:226 | every emitter message contains a token |
| Writer.EntryLine | writer.go:133-141 | the coloured line of an emitter message is colour, prefix, reset, rendered text, reset and '\n' |
| Writer.MessageLine | writer.go:224-265 | the full line an emitter writes with colour on, with the level's own SGR code |
| Writer.NoFlags | writer.go:201-217 | flags 0 means no colour rewriting and a prefix that is just the level name |
| Writer.OverrideStep | writer.go:347-349 | inserting one more given key extends the override by that key |
| Writer.InsertAll | writer.go:347-349 | the loop gives the old map overridden by the given one: the union of keys, given values winning |
| Writer.RestrictAll | writer.go:347-349 | restricting to every key gives the map back |
| Writer.Sink.Write | writer.go:141 | a write to an open sink appends and reports the length; a write to a closed sink fails and changes nothing |
| Writer.Sink.Close | writer.go:276-287 | closing marks the sink closed unless the close fails; the data is kept |
| Writer.Printer.constructor | writer.go:39-48 | a new printer has the given level, flags and sinks, and no fields |
| Writer.Printer.WriteTo | writer.go:133-142 | the sink receives formatColor's output plus the newline rule; a nil sink panics, a closed sink fails |
| Writer.Printer.WriteToStd | writer.go:148-153 | the same to `out`, and a failed write panics |
| Writer.Printer.WriteToErr | writer.go:159-164 | the same to `err`, and a failed write panics |
| Writer.Printer.Write | writer.go:174-176 | the same to `out`, with the failure returned |
| Writer.Printer.GetLogLevel | writer.go:190-192 | reports the printer's level, the one `SetLogLevel` last stored |
| Writer.Printer.SetLogLevel | writer.go:182-184 | `GetLogLevel` returns the level just set; nothing else changes |
| Writer.Printer.Errorf | writer.go:224-229 | writes iff level >= ERROR, to `err`, the red bold message line; nothing is written when gated |
| Writer.Printer.Warnf | writer.go:236-241 | writes iff level >= WARN, to `out`, the yellow bold message line |
| Writer.Printer.Infof | writer.go:248-253 | writes iff level >= INFO, to `out`, the blue bold message line |
| Writer.Printer.Debugf | writer.go:260-265 | writes iff level >= DEBUG, to `out`, the cyan bold message line |
| Writer.Printer.Close | writer.go:275-289 | closes `out` then `err` and nils each after success; a failure on `out` returns at once and leaves `err` untouched, even when `out` and `err` are the same sink; returns success only when both are nil afterwards |
| Writer.Printer.Copy | writer.go:295-306 | a fresh printer with the same sinks, level, flags and fields |
| Writer.Printer.DisableColor | writer.go:312-316 | a fresh printer with only the colour bit cleared, so its lines are the raw text plus the newline rule |
| Writer.Printer.WithField | writer.go:329-333 | a fresh printer whose fields are the old ones with the key set |
| Writer.Printer.WithFields | writer.go:345-351 | a fresh printer whose fields are the old ones overridden by the given map |
| Writer.CloseThenWrite | writer.go:275-289 | after a successful close, a second close succeeds, both sinks are nil, and a write panics |

## Left out

- `std.go`: the package-level delegations to a global printer. They target a different
  `NewPrint` signature and are not part of this model.
- `utils.go`: `getGoroutineID` parses the runtime's stack dump. The goroutine id is a `nat` input.
- `sync.Mutex` and the `sync.Pool` buffer pool exist for concurrency and allocation only. Every
  operation is modelled as atomic.
- `time.Now()`: the clock is a `Writer.Clock` input, limited to valid times of day.
- `fmt.Sprintf` of the user's format and arguments: the emitters take the formatted message as input.
  The model also does not reinterpret any `%` the prefix itself might contain.
- Real I/O: a sink is a text buffer with a closed flag. Whether a sink's own `Close` fails is an input
  (`outFails`, `errFails`). A short write is not modelled.
- Go panics are modelled as the outcome `Panicked`, returned instead of unwinding the stack.
- Bytes are modelled as `char`, one per byte. Lower-casing is ASCII only, which is all the colour
  tables need.
- `Flags` is modelled as `bv64` where Go uses `uint`.
- `fields` are stored and copied but never rendered, as in `writer.go`.
- `maps.Copy` into a fresh map is modelled as copying the map value. Sharing of the map between
  printers cannot be observed.
- Writer.Sink.Write: a write is all-or-nothing, so partial writes reported by a real writer are not
  modelled.
