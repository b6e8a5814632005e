# elapsing, modelled in Dafny

`elapsing` runs a command and keeps a status line such as
`Elapsed: 00:01:23` on screen while forwarding the command's standard output
and standard error line by line. When the command exits, `elapsing` exits
with the command's exit code. A `Format` is a parsed duration template such
as `"Elapsed: %H:%M:%S"`. It holds a list of pieces: literal text, hours,
minutes, seconds, total seconds, or subseconds at a given precision. It also
counts the newline characters in its literal text.

This project models two source files:

- `src/format.rs`: parsing a template (`from_str`) and rendering a duration
  with it (`display`). The methods of the `Format` class keep the pieces
  coalesced and the newline count exact. `from_str` is proved against a
  functional reference grammar (`Syntax.Parse`). The rendering of each piece
  is proved against the values it shows: the digits of `{:02}` and `{}`,
  and truncated nanoseconds.
- `src/main.rs`: the deterministic part of the supervisor.
  - The exit-code mapping `u8::try_from(ret & 255).unwrap_or(1)`.
  - The `print_elapsed` arithmetic, with its `% 3500` kept as written.
  - The actions each arm of the `select!` loop takes for the event it
    receives.
  - The loop itself, driven by a finite sequence of abstract events.

Modules:

| file | module | contents |
|---|---|---|
| wrappers.dfy | `Wrappers` | `Option` and `Result` |
| numerals.dfy | `Numerals` | decimal digits, `{}` and `{:0w}` of unsigned integers, digit-string values |
| pieces.dfy | `Pieces` | `Duration`, `FormatPiece` (`Piece`), `FormatPiece::display`, rendering laws |
| syntax.dfy | `Syntax` | `ParseFormatError`, the reference grammar of templates (`Step`, `Scan`, `Parse`) |
| format.dfy | `DurationFormat` | the `Format` class and its methods, `from_str` as a loop |
| parse_laws.dfy | `ParseLaws` | laws of the grammar: shape, rendering, plain text, every error case |
| format_examples.dfy | `FormatExamples` | the unit-test table of `src/format.rs`, proved for every duration and at the tested ones |
| supervisor.dfy | `Supervisor` | exit codes, the status line, per-event actions and the loop |

## Model

| member | source | states |
|---|---|---|
| DurationFormat.Format.constructor | src/format.rs:14-19 | `Format::new` has no pieces and no newlines, and satisfies the coalescing invariant |
| DurationFormat.Format.Newlines | src/format.rs:21-23 | the stored count equals the number of `\n` in the rendering of the format at every duration |
| DurationFormat.Format.Display | src/format.rs:25-31 | `display` concatenates the piece renderings in order (`Render`); the loop keeps the rendering of the pieces seen so far |
| DurationFormat.Format.PushChar | src/format.rs:33-42 | `push_char` extends a trailing text piece or starts one, keeps the invariant, and counts one more newline exactly when the character is `\n` |
| DurationFormat.Format.Push | src/format.rs:44-46 | `push` appends the piece and leaves the newline count alone; a numeric piece keeps the invariant |
| DurationFormat.Format.Default | src/format.rs:49-63 | `Format::default()` holds "Elapsed: ", hours, ":", minutes, ":", seconds, with no newlines |
| DurationFormat.Format.FromStr | src/format.rs:68-117 | `from_str` succeeds exactly when the reference grammar accepts the template; it then yields the grammar's pieces with the invariant kept, and otherwise the grammar's first error |
| DurationFormat.Format.ReadDirective | src/format.rs:71-114 | one loop turn reads exactly the grammar's next directive and pushes what it stands for, or reports that directive's error |
| DurationFormat.Format.ReadPercent | src/format.rs:73-104 | `%` followed by a letter, `%`, a digit run, another character or nothing, as the grammar's `Step` reads it |
| DurationFormat.Format.ReadSubseconds | src/format.rs:85-101 | `%<digits>f` pushes a subseconds piece with that precision; digits not followed by `f` give `InvalidPercent` of the first digit |
| DurationFormat.ReadPrecision | src/format.rs:86-93 | the checked `u32` accumulation overflows exactly when the digit run's value exceeds `u32::MAX`; otherwise it returns that value and stops at the first non-digit |
| DurationFormat.Format.ReadEscape | src/format.rs:105-112 | the four escapes, `InvalidEscape(c)` for any other character, `BrokenEscape` at the end |
| Pieces.DisplayPiece | src/format.rs:131-165 | `FormatPiece::display` appends the piece's reference text to `out` |
| Pieces.DisplaySubseconds | src/format.rs:146-163 | the digit loop with a shrinking divisor writes the nine-digit nanoseconds cut to the precision, or extended with zeros past nine |
| Pieces.DigitStep | src/format.rs:151-154 | each turn with a divisor left emits the next digit below 10 and keeps the remainder below the divisor |
| Pieces.HourRendering | src/format.rs:134-136 | `{:02}` of the hours is all digits, at least two, valued `secs / 3600`, with no leading zero past two digits |
| Pieces.MinuteRendering | src/format.rs:137-139 | the minutes are exactly two digits valued `secs / 60 % 60`, below 60 |
| Pieces.DefaultRendering | src/format.rs:49-63 | `Format::default()` renders "Elapsed: " and the `{:02}` hours, minutes and seconds of every duration |
| Pieces.SecondRendering | src/format.rs:140-142 | the seconds are exactly two digits valued `secs % 60`, below 60 |
| Pieces.TotalSecondsRendering | src/format.rs:143-145 | `{}` of the total seconds is at least one digit, valued `secs`, with no leading zero unless it is the single digit `0` |
| Pieces.SubsecondRendering | src/format.rs:146-163 | precision `p` gives exactly `p` digits: the nanoseconds truncated (never rounded) to `p` places, or scaled by `10^(p-9)` past nine |
| Pieces.RenderConcat | src/format.rs:25-31 | rendering a concatenation of pieces concatenates the renderings |
| Pieces.RenderNewlines | src/format.rs:21-23 | every newline of a rendering comes from literal text, since numeric pieces write only digits |
| Pieces.AppendCharRender | src/format.rs:33-42 | pushing a character appends it to every rendering |
| Pieces.AppendCharShape | src/format.rs:33-42 | `push_char` keeps text pieces non-empty and non-adjacent, counts newlines, and grows the list only when no text piece ends it |
| Pieces.PushFieldShape | src/format.rs:44-46 | pushing a numeric piece keeps the invariant and the newline count |
| Syntax.DigitRun | src/format.rs:87 | the run of digits `next_if(is_ascii_digit)` consumes: all digits, and stops at a non-digit or the end |
| Syntax.StepPrecision | src/format.rs:85-101 | a digit run that fits in a `u32` is a subseconds field when `f` follows, and otherwise `InvalidPercent` of its first digit |
| Syntax.StepOverflow | src/format.rs:89-92 | a digit run whose value exceeds `u32::MAX` is `PrecisionOverflow`, whatever follows |
| Syntax.AssembleSnoc | src/format.rs:71-116 | adding one more directive to the format adds its item to the pieces built so far |
| ParseLaws.ParseShape | src/format.rs:33-46 | every parsed format is coalesced, and its newline count is the number of newline directives and characters in the template |
| ParseLaws.ParseRender | src/format.rs:25-31 | rendering a parsed format writes each directive's text in template order |
| ParseLaws.ScanAppend | src/format.rs:71-115 | parsing a valid prefix and then the rest is parsing the whole template |
| ParseLaws.PlainTextRoundTrip | src/format.rs:113 | a template without `%` or `\` parses to one text piece, or none, and renders back to itself |
| ParseLaws.AssembleLits | src/format.rs:33-42 | pushing plain text character by character merges it into the trailing text piece |
| ParseLaws.AssembleShape | src/format.rs:33-46 | assembling directives keeps the invariant and adds their newlines to the count |
| ParseLaws.RenderAssemble | src/format.rs:25-46 | the rendering of the assembled pieces is the old rendering followed by the directives' text |
| ParseLaws.LetterDirective | src/format.rs:73-84 | `%H`, `%M`, `%S`, `%s`, `%f`, `%n`, `%t`, `%e` and `%%` after any valid prefix add their one item and parsing continues |
| ParseLaws.EscapeDirective | src/format.rs:105-109 | `\n`, `\t`, `\e` and `\\` after any valid prefix add their character and parsing continues |
| ParseLaws.ExplicitPrecision | src/format.rs:85-97 | `%<digits>f` with a value that fits in a `u32` adds a subseconds field with that precision |
| ParseLaws.TrailingPercent | src/format.rs:103 | a template ending in a lone `%` after a valid prefix fails with `BrokenPercent` |
| ParseLaws.TrailingBackslash | src/format.rs:111 | a template ending in a lone `\` after a valid prefix fails with `BrokenEscape` |
| ParseLaws.UnknownSpecifier | src/format.rs:102 | `%` before any other non-digit character fails with `InvalidPercent` of that character |
| ParseLaws.UnknownEscape | src/format.rs:110 | `\` before any other character fails with `InvalidEscape` of that character |
| ParseLaws.DigitsWithoutF | src/format.rs:94-100 | digits not followed by `f` fail with `InvalidPercent` of the first digit |
| ParseLaws.PrecisionTooLarge | src/format.rs:89-92 | a precision beyond `u32::MAX` fails with `PrecisionOverflow`, whatever follows |
| FormatExamples.ParseDefault | src/format.rs:187-191 | "Elapsed: %H:%M:%S" parses to `Format::default()` |
| FormatExamples.NewlinesExample | src/format.rs:193-199 | the template with `%n`, `\n` and a newline character counts 3 newlines, and every rendering has 3 |
| FormatExamples.DisplayDefault | src/format.rs:202 | the default template at any duration shows the three two-digit fields |
| FormatExamples.DisplayDefaultAtZero | src/format.rs:202 | "Elapsed: 00:00:00" at zero |
| FormatExamples.DisplayEmpty | src/format.rs:203 | the empty template renders nothing |
| FormatExamples.DisplaySubsecondsAtZero | src/format.rs:204 | "Elapsed: 00:00:00.000000" at zero |
| FormatExamples.DisplayTotalDefaultPrecisionAtZero | src/format.rs:205 | "Elapsed: 0.000000" at zero |
| FormatExamples.DisplayZeroPrecision | src/format.rs:206 | `%0f` writes no digits: "Elapsed: 0." |
| FormatExamples.DisplayOnePrecision | src/format.rs:207 | `%1f` at zero: "Elapsed: 0.0" |
| FormatExamples.DisplayDefaultAt9296 | src/format.rs:208 | "Elapsed: 02:34:56" at 9296 seconds |
| FormatExamples.DisplayTotalAt9296 | src/format.rs:209 | "Elapsed: 9296" |
| FormatExamples.DisplayTwoDigitsOf123ms | src/format.rs:210 | 123 ms at `%2f`: "Elapsed: 0.12" |
| FormatExamples.DisplayTwoDigitsOf999ms | src/format.rs:211 | 999 ms at `%2f`: "Elapsed: 0.99", truncated and not rounded |
| FormatExamples.DisplayDefaultPrecisionOfNanos | src/format.rs:212 | 123456789 ns at `%f`: "Elapsed: 0.123456" |
| FormatExamples.DisplayTwentyDigitsOfNanos | src/format.rs:213-217 | 123456789 ns at `%20f`: nine digits and eleven zeros |
| FormatExamples.DisplayEscapes | src/format.rs:218-222 | the template with every escape renders `%`, `\`, ESC, tabs and the clock at any duration |
| FormatExamples.DisplayEscapesAtZero | src/format.rs:218-222 | the exact expected text at zero |
| FormatExamples.DisplayTotalPrecision | src/format.rs:205-217 | "Elapsed: %s.%<digits>f" renders the seconds, a dot and the subsecond digits at that precision |
| FormatExamples.UnknownSpecifierExample | src/format.rs:229 | "Years: %Y" fails with `InvalidPercent('Y')` |
| FormatExamples.TrailingPercentExample | src/format.rs:230 | "Years: %" fails with `BrokenPercent` |
| FormatExamples.UnknownEscapeExample | src/format.rs:231 | "Time: %s\r" fails with `InvalidEscape('r')` |
| FormatExamples.TrailingBackslashExample | src/format.rs:232 | "Time: %s\" fails with `BrokenEscape` |
| FormatExamples.PrecisionOverflowExample | src/format.rs:233 | twelve nines of precision fail with `PrecisionOverflow` |
| FormatExamples.DigitsWithoutFExample | src/format.rs:234 | "%999_999f" fails with `InvalidPercent('9')` |
| Supervisor.LowByte | src/main.rs:64 | `ret & 255` on an `i32` is the remainder of `ret` by 256, computed bitwise on the two's-complement pattern |
| Supervisor.MaskLowBits | src/main.rs:64 | masking with `2^k - 1` keeps the remainder by `2^k` |
| Supervisor.ExitFor | src/main.rs:62-68 | an exit code gives `ExitCode::from` its low byte (so `unwrap_or(1)` is never taken); a signal gives `ExitCode::FAILURE` |
| Supervisor.ProcessStatus | src/main.rs:67 | `ExitCode::FAILURE` is a non-zero status |
| Supervisor.PrintElapsedText | src/main.rs:84-91 | the step-by-step reduction of `secs` produces `ElapsedLine`, the status line with `% 3500` as written |
| Supervisor.ElapsedLineMatchesDefault | src/main.rs:84-91 | the status line equals `Format::default()`'s rendering exactly when the remainders by 3500 and 3600 agree |
| Supervisor.ElapsedLineEarly | src/main.rs:84-91 | for the first 3500 seconds the status line equals `Format::default()`'s rendering |
| Supervisor.ElapsedLineAtOneHour | src/main.rs:88 | at 3600 seconds the status line shows one hour, one minute and forty seconds, while `Format::default()` shows one hour; the two differ |
| Supervisor.OneHourClocks | src/main.rs:91 | those two lines are "Elapsed: 01:01:40" and "Elapsed: 01:00:00" |
| Supervisor.ElapsedMinutesBelow59 | src/main.rs:88-89 | the minutes field of the status line is at most 58 |
| Supervisor.CorrectedElapsedMatchesDefault | src/main.rs:84-91 | with the reduction by 3600, the status line equals `Format::default()`'s rendering at every time |
| Supervisor.ClockInjective | src/main.rs:91 | two status lines with the same hours are equal exactly when their minutes and seconds are |
| Supervisor.Handle | src/main.rs:33-72 | each arm clears first; a tick redraws; a line is written between a clear and a redraw; end of stream does nothing; the child's exit clears and returns `ExitFor` of the status |
| Supervisor.Supervise | src/main.rs:31-74 | the loop performs the actions of every event up to and including the first child exit, and returns that exit's code; with no exit it handles all events and returns nothing |
| Supervisor.ActionsBracketed | src/main.rs:33-58 | every forwarded line is written right after a clear and right before a redraw |
| Supervisor.HandleWrites | src/main.rs:37-58 | an event writes its line to its own stream only |
| Supervisor.ForwardsInOrder | src/main.rs:37-58 | each stream receives exactly its lines, in order, none lost or duplicated |
| Supervisor.RunningEndsWithStatusLine | src/main.rs:31-58 | while the child runs, nothing returns and the last action is a redraw of the status line |
| Supervisor.EndOfStreamIsSilent | src/main.rs:44-55 | an end of stream changes neither the actions nor whether the loop has ended |
| Supervisor.ReturnsOnceAtEnd | src/main.rs:59-72 | the child's exit is the only return: a clear then the return, as the last two actions |

## Left out

- Process start-up (`main.rs` lines 13-29): reading the arguments, spawning
  the command and building line readers are I/O. The `todo!()` branches for
  a missing command or a failed spawn are left out, as are the `todo!()`
  branches for read errors (lines 45, 56) and a failed `wait` (line 70).
- Scheduling: `tokio::select!` picks among ready arms non-deterministically,
  and the one-second ticker depends on the clock. The loop takes the chosen
  events as an input sequence, and the elapsed time as a number of seconds.
- Output effects: `clear_elapsed_line`, `print_elapsed`'s write, `println!`
  and `eprintln!` are abstract actions. The newline that `println!` adds,
  the `\r` that clears the line, the streams they go to, flushing and write
  errors (`?`) are not represented.
- Integer widths: `u64` seconds and `usize` counts are unbounded naturals.
  The `u32` precision's overflow is modelled with explicit checks against
  `u32::MAX`. `usize::try_from` of a `u32` succeeds on targets whose `usize` has at
  least 32 bits, which covers every target this program builds for with
  `std::process` and tokio, so its error path (a precision above 65535 on a
  16-bit target) is not modelled.
- `Duration` is a pair of whole seconds and nanoseconds below 10^9. Only
  `as_secs` and `subsec_nanos` are used.
- The `Error` messages of `ParseFormatError` are not modelled, only its
  variants.
- tests/cli.rs and the Python helper scripts are not part of this model.
- DurationFormat.Format.Push: the coalescing invariant is promised only for
  numeric pieces, the only ones `from_str` pushes.

## Findings

| source | as written | input that shows it | evidently intended | confidence | as-written member | corrected member |
|---|---|---|---|---|---|---|
| src/main.rs:88 | `secs %= 3500` reduces the seconds by 3500 before the minutes and seconds are taken | 3600 seconds shows "Elapsed: 01:01:40" instead of "Elapsed: 01:00:00" | `secs %= 3600`, which matches `Format::default()` at every time | not executed | Supervisor.ElapsedLineAtOneHour | Supervisor.CorrectedElapsedMatchesDefault |
