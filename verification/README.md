# TracerouteService, modelled in Dafny

This project models the text-processing core of a PHP traceroute service,
`TracerouteService`. The service builds a `tracert` (Windows) or
`traceroute`/`traceroute6` (Unix) command line for a host and runs it. It
then turns the command's output into an ordered list of hop records
`{hop, ttl, hostname, ip, pingTime}` and returns them in a trace record.

The model is a set of pure functions over byte strings (`seq<char>`, one
`char` per byte) and sequences of lines. The operating-system check is
replaced by an explicit `Dialect` parameter (`Windows` or `Unix`).

| file | module | what it holds |
|---|---|---|
| `wrappers.dfy` | `Wrappers` | `Option`, `Result` |
| `text.dfy` | `Text` | PHP string primitives: `trim`, `rtrim`, `strpos`, `empty()`, `(int)`, `%d`, `implode`/`explode` |
| `scanning.dfy` | `Scanning` | `preg_match`, `preg_match_all`, `preg_replace` over a hand-coded matcher |
| `patterns.dfy` | `Patterns` | the address patterns, the `ExtractionRule` datatype and both first-match-wins cascades |
| `rtt.dfy` | `Rtt` | RTT tokens, sample values, the mean and PHP `round()` |
| `hops.dfy` | `Hops` | `Dialect`, `Hop` and the timeout hop |
| `hop_line.dfy` | `HopLine` | `parseWindowsLine` and `parseUnixLine` |
| `classifier.dfy` | `Classifier` | start-line selection and the line loop of `parseOutput` |
| `normalizer.dfy` | `Normalizer` | the "hop 1 is the local machine" step of `parseOutput` |
| `command.dfy` | `Command` | `buildCommand` |
| `trace.dfy` | `Trace` | `trace` and `parseOutput` |
| `cases.dfy` | `Cases` | concrete lines and what the model makes of them |

Each regular expression is hand-coded as a function that says whether the
pattern matches at a given start and what it captures. Each such function
follows the match that PCRE's backtracking settles on. Character classes
follow PCRE in the C locale:
- `\s` is space, tab, LF, VT, FF and CR.
- `\w` is `[A-Za-z0-9_]`.
- `$` matches at the end or before a final newline.

## Hop 1 and the first hop

The comment at `app/Services/TracerouteService.php:229` says hop 1 is
always the local machine. It is natural to read that as "the first element
of every non-empty hop list is localhost". The code does not ensure that. It
rewrites the FIRST hop numbered 1, wherever that hop sits in the list
(`app/Services/TracerouteService.php:231-237`). It prepends a synthetic
local hop only when no hop is numbered 1. The model follows the code:
- `Normalizer.FirstHopKeptWhenHop1IsLater` shows that the first hop keeps
  its own hostname and IP when hop 1 comes later.
- `Normalizer.NormalizeEstablishesLocalHop1` states what does hold: the
  first hop numbered 1 is the local machine.

The renumbering loop for a colliding hop 1
(`app/Services/TracerouteService.php:255-261`) is modelled as written, in
`Normalizer.PrependLocal`. `Normalizer.RenumberNeverFires` proves it
unreachable: it runs only when no hop was numbered 1.

`tracert` prints a blank line before "Tracing route to", then a line
"over a maximum of N hops:" and another blank line, so the hop-1 line sits
at index 4. The marker is then found at index 1 and the loop starts at
index 5 (`app/Services/TracerouteService.php:183-186`), so the hop-1 line
is never parsed. `Normalizer.Normalize` then prepends the synthetic local
hop 1, whose ping time is 0 instead of the measured one.
`Cases.TracertHop1LineSkipped` states where the loop starts on such
output. The source does not make clear whether this is intended: the
comment at `app/Services/TracerouteService.php:185` speaks of skipping four
lines. So the model keeps the behaviour as written.

## Model

Most rows state a property for all inputs. A few rows are single concrete inputs that illustrate one case: `Command.DefaultSettings`, `Command.DefaultUnixCommand`, `Command.DefaultWindowsCommand`, `Trace.ZeroHostRejected`, `Normalizer.NormalizeExamples`, `Cases.UnixTimeoutExample`, `Cases.WindowsTimeoutExample` and `Cases.StarRuleOnNamedRouter`. They add no coverage beyond the all-inputs rows.

| member | source | states |
|---|---|---|
| Text.Trim | app/Services/TracerouteService.php:202 | the result is the input minus a leading and a trailing run of " \t\n\r\0\x0B" bytes; neither end of a non-empty result is such a byte |
| Text.RTrim | app/Services/TracerouteService.php:52 | the result is a prefix of the line; only trim bytes were removed, and a non-empty result does not end in one |
| Text.TrimIdempotent | app/Services/TracerouteService.php:342 | trimming an already trimmed string changes nothing |
| Text.Contains | app/Services/TracerouteService.php:290 | `strpos(...) !== false` holds exactly when the needle occurs at some position of the line |
| Text.IntToStringRoundTrip | app/Services/TracerouteService.php:121-126 | the `%d` rendering of any integer, negative ones included, reads back as that integer |
| Text.SplitJoin | app/Services/TracerouteService.php:149-155 | words without the separator, joined with it and split at it again, come back unchanged |
| Scanning.FirstMatch | app/Services/TracerouteService.php:353 | `preg_match` takes the leftmost start at which the pattern matches: it matches there and at no earlier start, and no match means no start matches |
| Scanning.Scan | app/Services/TracerouteService.php:325 | `preg_match_all` returns match starts in increasing order, each match ending at or before the next start, and nothing when no start matches |
| Scanning.ScanFindsEveryMatch | app/Services/TracerouteService.php:325 | `preg_match_all` misses no match: the first start is the leftmost match, each next start is the leftmost match from the end of the previous one, and nothing matches after the last |
| Scanning.Search | app/Services/TracerouteService.php:303 | `preg_match` succeeds exactly when the pattern matches at some start, and returns the capture of a start where it matches |
| Scanning.StripRemovesMatches | app/Services/TracerouteService.php:341 | `preg_replace` with '' shortens the subject by exactly the total length of the matches it deletes |
| Scanning.Strip | app/Services/TracerouteService.php:341 | `preg_replace` with '' never lengthens the subject, and leaves a subject on which the pattern matches nowhere unchanged |
| Scanning.StripKeepsGaps | app/Services/TracerouteService.php:341 | `preg_replace` keeps the bytes before the leftmost match, deletes the match and carries on after it; with no match it keeps everything |
| Patterns.LabelledAt | app/Services/TracerouteService.php:377 | when `hostname [ip]` / `hostname (ip)` matches, it captures space-separated host words and an address-shaped IP; `Captures.LabelledAtFinds` states when it matches and what it captures |
| Patterns.EnclosedAt | app/Services/TracerouteService.php:383 | when `[ip]` / `(ip)` matches, it captures an address, and the hostname is the address itself or "IPv6-Host" as the rule says |
| Patterns.StarLabelledAt | app/Services/TracerouteService.php:365 | when `* hostname [ip]` matches, it captures host words and an address |
| Patterns.StarAddressAt | app/Services/TracerouteService.php:371-375 | when `* ip` matches, the hostname is "*" and the IP is address-shaped |
| Patterns.DottedQuadAt | app/Services/TracerouteService.php:401-405 | a bare dotted quad (with `(?!\S)` where the rule has it) is both hostname and IP, is at least seven bytes long, and is the text at the start position |
| Patterns.ColonHexAt | app/Services/TracerouteService.php:407-411 | a bare IPv6-like token gives hostname "IPv6-Host" and is the text at the start position; without `(?!\S)` it matches exactly where a hex digit or ':' starts |
| Patterns.TrailingNameAt | app/Services/TracerouteService.php:413-417 | host words running to the end of the residual give that hostname and IP "Unknown" |
| Patterns.RuleAt | app/Services/TracerouteService.php:352-417 | every rule except the hostname-only one yields an address-shaped IP; the hostname-only rule yields IP "Unknown" |
| Patterns.ApplyRule | app/Services/TracerouteService.php:353-375 | one `preg_match` of a rule keeps the rule's guarantee on the captured IP |
| Patterns.ApplyRuleIsLeftmost | app/Services/TracerouteService.php:353 | a rule finds something exactly when it matches at some start, and the capture is the one at the leftmost such start |
| Patterns.Cascade | app/Services/TracerouteService.php:352-423 | the `if/elseif` chain takes the first rule that finds something, and every earlier rule found nothing; no result means no rule matched |
| Patterns.Extract | app/Services/TracerouteService.php:346-423 | the result is the capture of the first rule that finds something; when none does, the IP is "Unknown" and the hostname is the whole residual exactly when that is neither `empty()` nor "*"; any IP is "Unknown" or address-shaped |
| Patterns.Verbatim | app/Services/TracerouteService.php:419-423 | the whole residual becomes the hostname exactly when it is neither `empty()` nor "*", otherwise the hostname is "Unknown"; the IP is "Unknown" |
| Patterns.PlaceholdersAreNotAddresses | app/Services/TracerouteService.php:347-348 | "Unknown" and "*" are never address-shaped, so an IP from a pattern is never mistaken for a placeholder |
| Patterns.SquareRulesNeedBracket | app/Services/TracerouteService.php:353-368 | on a residual without '[', the square-bracket rules find nothing |
| Patterns.CascadeTakesFourth | app/Services/TracerouteService.php:352-375 | when the first three rules find nothing and the fourth finds x, the cascade's answer is x |
| Patterns.StarResidualUnix | app/Services/TracerouteService.php:522-544 | a Unix residual starting `* <address bytes>` with no '[' is taken by the `* ip` rule |
| Patterns.StarResidualWindows | app/Services/TracerouteService.php:353-375 | the same holds for the Windows cascade |
| Captures.LabelledAtFinds | app/Services/TracerouteService.php:377 | on host words, whitespace, an opening bracket, address bytes and the closing bracket, `hostname [ip]` / `hostname (ip)` matches and captures exactly the host words and the address bytes |
| Captures.LabelledOnPieces | app/Services/TracerouteService.php:389 | the same on a subject built as prefix + host words + whitespace + bracketed address + tail, at the start of the host words |
| Captures.EnclosedAtFinds | app/Services/TracerouteService.php:383 | on a bracketed run of address bytes, `[ip]` / `(ip)` matches and captures exactly those bytes, with the rule's hostname |
| Captures.StarLabelledAtFinds | app/Services/TracerouteService.php:365 | on an asterisk, whitespace and the `hostname [ip]` shape, `* hostname [ip]` captures exactly the host words and the address |
| Captures.StarAddressAtFinds | app/Services/TracerouteService.php:371 | on an asterisk, whitespace and a maximal run of address bytes, `* ip` captures exactly that run, with hostname "*" |
| Captures.DottedQuadAtFinds | app/Services/TracerouteService.php:401 | on four runs of one to three digits separated by dots, the last not followed by a digit, the dotted quad matches and captures exactly those bytes, subject to `(?!\S)` where the rule has it |
| Captures.ColonHexAtFinds | app/Services/TracerouteService.php:407 | on a run of hex digits and colons followed by no address byte, the IPv6-like rule captures exactly that run, subject to `(?!\S)` where the rule has it |
| Captures.TrailingNameAtFinds | app/Services/TracerouteService.php:413 | on host words that end the residual, or end it but for one newline, `hostname$` captures exactly those words with IP "Unknown" |
| Captures.TrailingNameOnPieces | app/Services/TracerouteService.php:413 | the same on a residual that ends with the host words |
| Rtt.DigitsMsAt | app/Services/TracerouteService.php:303 | `\d+\s*ms` matches at i exactly when a maximal digit run from i is followed by optional whitespace and "ms"; the group is that whole digit run and the match ends after "ms" |
| Rtt.WindowsRttAt | app/Services/TracerouteService.php:325 | `(\d+|<\d+)\s*ms` matches at i exactly when a maximal digit run, or '<' and one, is followed by optional whitespace and "ms"; the group is the run, with its '<' |
| Rtt.BelowMsAt | app/Services/TracerouteService.php:325 | the `<\d+\s*ms` alternative matches at i exactly when '<' and a maximal digit run are followed by optional whitespace and "ms"; the group starts with the '<' |
| Rtt.MsAfter | app/Services/TracerouteService.php:325 | `\s*ms` from a position matches exactly when whitespace and then "ms" follow, and ends after "ms" |
| Rtt.WindowsRttStripAt | app/Services/TracerouteService.php:341 | `(\d+|<\d+)\s*ms\s+` matches exactly where a Windows RTT token is followed by whitespace, and consumes all of that whitespace |
| Rtt.DecimalEnd | app/Services/TracerouteService.php:607 | `\d+\.\d+` matches at i exactly when two maximal digit runs meet at a dot, and it ends after the second run |
| Rtt.UnixRttAt | app/Services/TracerouteService.php:607 | `(\d+\.\d+)\s*ms` matches at i exactly when maximal digit runs around a dot are followed by optional whitespace and "ms"; the group is the decimal |
| Rtt.UnixRttStripAt | app/Services/TracerouteService.php:510 | `\s+\d+\.\d+\s*ms` matches exactly where a whitespace run is followed by a Unix RTT token |
| Rtt.WindowsSampleValue | app/Services/TracerouteService.php:327-334 | a token starting with '<' counts as 1 ms, and a digit token as its value |
| Rtt.WindowsSampleReadsBack | app/Services/TracerouteService.php:327-334 | a printed number of milliseconds reads back as itself, and `<N` as 1 |
| Rtt.DecimalValue | app/Services/TracerouteService.php:610 | a decimal sample is never negative |
| Rtt.DecimalValueOfPieces | app/Services/TracerouteService.php:610 | `W.F` reads as W plus F over ten to the number of digits of F |
| Rtt.DecimalValueBetween | app/Services/TracerouteService.php:610 | `W.F` is at least W and below W + 1 |
| Rtt.Mean | app/Services/TracerouteService.php:337 | the mean of no samples is 0; otherwise the mean times the sample count is the sum |
| Rtt.PingTime | app/Services/TracerouteService.php:455 | `pingTime` is the integer within one half of the mean, exact halves going away from zero |
| Rtt.RoundHalfAwayFromZero | app/Services/TracerouteService.php:455 | `round()` gives the integer within one half of x; exact halves go away from zero |
| Rtt.MeanBetween | app/Services/TracerouteService.php:337 | the mean of the samples lies between any lower and upper bound of them |
| Rtt.PingTimeNonNegative | app/Services/TracerouteService.php:614 | non-negative samples give a non-negative `pingTime` |
| Rtt.WholeSamplesPingTime | app/Services/TracerouteService.php:336-337 | for whole-millisecond samples the rounded mean is `(2*sum + n) div (2*n)` |
| Rtt.WholeSamplesPingTimeBetween | app/Services/TracerouteService.php:455 | for whole-millisecond samples the rounded mean lies between the smallest and largest sample |
| HopLine.LeadingDigits | app/Services/TracerouteService.php:295 | `^\s*(\d+)` finds the whole digit run after the leading whitespace, and finds something whenever a digit follows the leading whitespace |
| HopLine.DropHopNumber | app/Services/TracerouteService.php:340 | with a prefix of whitespace, a digit run and at least one whitespace byte, the result is the line after that prefix; otherwise the line is unchanged |
| HopLine.AsteriskTimeoutIffNoSamples | app/Services/TracerouteService.php:302-303 | on a line with an asterisk and no "Request timed out", the hop is a full timeout exactly when `preg_match_all` finds no RTT token |
| HopLine.RttTokenIffDigitsMs | app/Services/TracerouteService.php:325 | a Windows RTT token occurs in a line exactly when `\d+\s*ms` does |
| HopLine.UnixFullTimeoutAt | app/Services/TracerouteService.php:487 | a hop number followed by three asterisks, each behind whitespace, is a full Unix timeout |
| HopLine.WindowsResidual | app/Services/TracerouteService.php:340-342 | the Windows residual is no longer than the line and starts and ends with no trim byte |
| HopLine.UnixResidual | app/Services/TracerouteService.php:509-511 | the Unix residual is no longer than the line and starts and ends with no trim byte |
| HopLine.ResidualWithoutTokens | app/Services/TracerouteService.php:340-342 | with no RTT token after the hop number, the residual is the rest of the line, trimmed |
| HopLine.WindowsResidualKeepsGaps | app/Services/TracerouteService.php:341 | the residual keeps what lies before the first RTT token, drops the token with its trailing whitespace, and goes on after it |
| HopLine.FixedNamesPlausible | app/Services/TracerouteService.php:428 | "Unknown" and "Timeout" pass the sanity check |
| HopLine.Sanitize | app/Services/TracerouteService.php:428-431 | an all-digit hostname or one of at most two bytes becomes "Unknown", and any other hostname is kept |
| HopLine.FallbackIp | app/Services/TracerouteService.php:435-448 | the fallback IP is the leftmost dotted quad when there is one, else an IPv6-like token; an address found occurs in the line; "*" means an asterisk and no token, "Unknown" neither |
| HopLine.FallbackFindsAddress | app/Services/TracerouteService.php:440-447 | on a line with a hop number the fallback always finds an address, since the hop number's digits match the IPv6-like pattern; its "*" and "Unknown" outcomes never happen |
| HopLine.FallbackPrefersDottedQuad | app/Services/TracerouteService.php:437-441 | a dotted quad anywhere in the line beats every IPv6-like token: the fallback reports the leftmost dotted quad |
| HopLine.Assemble | app/Services/TracerouteService.php:450-456 | the hop's `hop` and `ttl` both equal the line's number and its hostname is sanitized; its IP is the cascade's address, or the fallback's when the cascade left "Unknown", and never the no-reply placeholder "*" |
| HopLine.ParseWindowsLine | app/Services/TracerouteService.php:273-457 | null exactly for "Trace complete" lines and lines without a hop number. Otherwise `hop == ttl ==` the leading number. The IP is "*" exactly on a full timeout, and then the hop is `{n, n, "Timeout", "*", 0}`. Otherwise the hostname is the sanitized cascade hostname of the residual, the IP is the cascade's or the fallback's, and `pingTime` is the rounded mean of the samples. The hostname always passes the sanity check |
| HopLine.ParseUnixLine | app/Services/TracerouteService.php:465-648 | null exactly for lines without a hop number. Otherwise `hop == ttl ==` the leading number. The IP is "*" exactly when `^\s*\d+\s+\*\s+\*\s+\*` matches, and then the hop is the timeout hop. Otherwise the hostname is the sanitized cascade hostname of the residual, the IP is the cascade's or the fallback's, and `pingTime` is the rounded mean of the decimal samples. The hostname always passes the sanity check |
| HopLine.WindowsPingTimeFormula | app/Services/TracerouteService.php:325-337 | Windows `pingTime` is `(2*sum + n) div (2*n)`, with "<N" counted as 1 and "N" as N, and 0 without tokens |
| HopLine.WindowsPingTimeBetween | app/Services/TracerouteService.php:336-337 | Windows `pingTime` lies between the smallest and largest sample |
| HopLine.StarHostnameDiscarded | app/Services/TracerouteService.php:371-373 | the "*" hostname of the `* ip` rule is always replaced by "Unknown" |
| HopLine.DottedQuadHostnameKept | app/Services/TracerouteService.php:401-404 | a dotted quad used as hostname always survives the sanity check |
| Classifier.MarkerIndex | app/Services/TracerouteService.php:183-188 | the index is that of the first line within the window that contains the marker, and none means no such line |
| Classifier.StartLine | app/Services/TracerouteService.php:177-198 | Windows starts at 4, or at i+4 for the first line i among the first 5 holding "Tracing route to". Unix starts at 1, or at i+1 for the first line i among the first 3 holding "traceroute to" |
| Classifier.HopLines | app/Services/TracerouteService.php:201-212 | every kept line is a trimmed line that is not `empty()` and starts with a digit after optional whitespace; `Classifier.HopLinesSelect` states that all of them are kept, in order |
| Classifier.Positions | app/Services/TracerouteService.php:201-212 | the positions listed are exactly those whose line satisfies the test, in ascending order |
| Classifier.HopLinesFrom | app/Services/TracerouteService.php:201-212 | from any index, the kept lines are the trimmed lines at the hop-line positions, one for one and in order |
| Classifier.HopLinesSelect | app/Services/TracerouteService.php:201-212 | the loop keeps every hop line, trimmed, and nothing else, in input order |
| Classifier.LineHop | app/Services/TracerouteService.php:202-223 | a line yields a hop only if its trimmed form is a hop line. On Unix it yields one exactly then. On Windows it yields one exactly then unless the line says "Trace complete". The hop carries the line's number, and on a hop line it is the dialect parser's result on the trimmed line |
| Classifier.ParseHops | app/Services/TracerouteService.php:201-224 | the loop yields at most one hop per line, each with `ttl == hop`, `pingTime >= 0` and an IP that is not "Unknown"; which hops they are is stated by `Classifier.ParseHopsAreParses` |
| Classifier.HopLineAnswered | app/Services/TracerouteService.php:210-218 | a hop line always parses on Unix, and on Windows exactly when it does not say "Trace complete" |
| Classifier.CollectHopLines | app/Services/TracerouteService.php:201-223 | the loop over raw lines is the dialect's parser run over the trimmed hop lines, in order |
| Classifier.CollectUncompleted | app/Services/TracerouteService.php:290-292 | a parser that answers exactly the lines without "Trace complete" gives the same hops from those lines alone |
| Classifier.CollectEvery | app/Services/TracerouteService.php:220-222 | when the parser answers every line, the loop yields one hop per line, the parse of that line, in order |
| Classifier.ParseHopsAreParses | app/Services/TracerouteService.php:201-223 | the hops are exactly the dialect parser's result on each answered hop line, in input order: all hop lines on Unix, those without "Trace complete" on Windows |
| Classifier.UnixHopsAreParses | app/Services/TracerouteService.php:215-223 | on Unix the k-th hop is `parseUnixLine` of the k-th trimmed hop line, and there is one hop per hop line |
| Classifier.WindowsHopsAreParses | app/Services/TracerouteService.php:215-223 | on Windows the k-th hop is `parseWindowsLine` of the k-th trimmed hop line that does not say "Trace complete", and there is one hop per such line |
| Classifier.Body | app/Services/TracerouteService.php:201 | the loop reads exactly the lines from the start line to the end, and nothing when the start is past the end |
| Classifier.BodyAfterMarker | app/Services/TracerouteService.php:183-188 | with the first marker line inside the window, the loop starts right after the marker line and the lines it skips |
| Classifier.CollectAppend | app/Services/TracerouteService.php:201-224 | the loop is line-local: the hops of a concatenation are the concatenation of the hops |
| Classifier.ParseHopsAppend | app/Services/TracerouteService.php:215-223 | the same holds for the parse of either dialect |
| Classifier.UnixOneHopPerLine | app/Services/TracerouteService.php:205-223 | on Unix every hop line yields exactly one hop, in input order, numbered like its line |
| Classifier.WindowsHopCount | app/Services/TracerouteService.php:290-292 | on Windows the hop count is the number of hop lines less those saying "Trace complete" |
| Classifier.ZeroLineDropped | app/Services/TracerouteService.php:205-207 | a line that trims to "0" is dropped like an empty one |
| Normalizer.FirstHop1From | app/Services/TracerouteService.php:231-232 | the index found is that of the first hop numbered 1 |
| Normalizer.AsLocal | app/Services/TracerouteService.php:233-234 | the rewritten hop is localhost/127.0.0.1 and keeps its number, `ttl` and ping time |
| Normalizer.ShiftAfterFirst | app/Services/TracerouteService.php:257-260 | every hop after the first gets its number and `ttl` raised by one, and the first is kept |
| Normalizer.PrependLocal | app/Services/TracerouteService.php:241-261 | the local hop goes in front of the unchanged list; had the old first hop been numbered 1, every old hop would be renumbered one up |
| Normalizer.Normalize | app/Services/TracerouteService.php:229-262 | an empty list stays empty. Without hop 1 the local hop is prepended to the unchanged list. With hop 1, only the first hop numbered 1 is rewritten, in place, and the length and all other hops are kept |
| Normalizer.RenumberNeverFires | app/Services/TracerouteService.php:255-261 | the renumbering branch is dead: after prepending, the second hop is never numbered 1 |
| Normalizer.NormalizeEstablishesLocalHop1 | app/Services/TracerouteService.php:229-252 | a non-empty result's first hop numbered 1 is localhost/127.0.0.1. It sits where the input's first hop 1 was, or at the front |
| Normalizer.NormalizeIdempotent | app/Services/TracerouteService.php:229-262 | normalising twice is the same as normalising once |
| Normalizer.NormalizeLength | app/Services/TracerouteService.php:240-252 | the length grows by one exactly when a non-empty list had no hop 1 |
| Normalizer.FirstHopKeptWhenHop1IsLater | app/Services/TracerouteService.php:231-238 | when hop 1 is not first, the first hop is returned unchanged |
| Normalizer.NormalizeExamples | app/Services/TracerouteService.php:229-252 | one concrete list of each kind: hop 1 rewritten in second place, and a local hop prepended |
| Command.Merge | app/Services/TracerouteService.php:102-109 | every default key is present, a key the caller sets takes the caller's value, and any other key keeps its default |
| Command.Setting | app/Services/TracerouteService.php:109 | the setting used is the caller's when given, the default otherwise |
| Command.FlagValue | app/Services/TracerouteService.php:121-155 | a flag is absent exactly when no flag has that name, and a found value belongs to a flag of that name |
| Command.Flags | app/Services/TracerouteService.php:117-156 | Windows has two flags and Unix three, in the order hop limit, -w, then -q on Unix; no flag name contains a space |
| Command.FlagsCarrySettings | app/Services/TracerouteService.php:117-156 | the hop limit is under -h on Windows and -m on Unix. -w carries the timeout, times 1000 on Windows. -q carries the probe count on Unix and is absent on Windows |
| Command.Plan | app/Services/TracerouteService.php:112-156 | a ':' in the host selects `tracert -6` or `traceroute6`; otherwise `tracert` or `traceroute` without -6; the target is the host |
| Command.ReadFlagsRoundTrip | app/Services/TracerouteService.php:121-155 | the flag words read back as the flags they were printed from |
| Command.BuildCommand | app/Services/TracerouteService.php:99-160 | the command starts with the program and ends with the quoted host |
| Command.Render | app/Services/TracerouteService.php:121-155 | the command is the words joined by single spaces, a space, and the quoted host |
| Command.PlanIsSpaceFree | app/Services/TracerouteService.php:117-156 | no planned program, switch or flag name contains a space |
| Command.WordsHaveNoSpace | app/Services/TracerouteService.php:121-155 | no word of such a command contains a space |
| Command.RenderRoundTrip | app/Services/TracerouteService.php:121-155 | the rendered command splits back into its words and its flag values |
| Command.CommandRoundTrip | app/Services/TracerouteService.php:99-160 | cutting the quoted host off the command and splitting the rest at spaces gives the program, switches and flags, whose values parse back to the merged settings |
| Command.DefaultSettings | app/Services/TracerouteService.php:102-106 | with no options the settings are 30 hops, 5 seconds and 3 probes |
| Command.DefaultUnixCommand | app/Services/TracerouteService.php:149-155 | the default Unix command is `traceroute -m 30 -w 5 -q 3` |
| Command.DefaultWindowsCommand | app/Services/TracerouteService.php:129-134 | the default Windows command is `tracert -h 30 -w 5000` |
| Trace.ParseOutput | app/Services/TracerouteService.php:168-265 | at most one hop per output line plus the synthetic one. Every hop has `ttl == hop`, `pingTime >= 0` and an IP that is not "Unknown". A non-empty result has a local hop 1; `Trace.ParseOutputParsesBody` states the hops themselves |
| Trace.ParseOutputParsesBody | app/Services/TracerouteService.php:168-262 | the result is the normalisation of the dialect parser's result on each answered hop line of the body, in input order |
| Trace.NormalizeKeepsShape | app/Services/TracerouteService.php:229-262 | normalisation keeps every hop's `ttl == hop`, non-negative ping time and known IP |
| Trace.ExitMessage | app/Services/TracerouteService.php:66-70 | the message is the fixed text, the exit code's `%d` rendering, ": ", then standard error, or the output lines joined by newlines when standard error is falsy |
| Trace.ExitMessageCarriesOutput | app/Services/TracerouteService.php:68 | with falsy standard error, splitting the message's detail at newlines gives back the output lines |
| Trace.OutputLines | app/Services/TracerouteService.php:49-54 | each stored line is the right-trimmed line read |
| Trace.RecordName | app/Services/TracerouteService.php:24-26 | the caller's name unless `empty()`, otherwise "Trace to " + host |
| Trace.Finish | app/Services/TracerouteService.php:66-88 | success needs a started command with exit code 0 and some output. The record echoes host and name and carries the timestamp and an id starting "trace_". Every failure is a runtime failure |
| Trace.TraceRoute | app/Services/TracerouteService.php:16-89 | the invalid-argument failure happens exactly for an `empty()` host. Success implies the command ran, exited with 0 and printed something. The record echoes host and name, and its hops have a local hop 1 |
| Trace.SuccessfulRunGivesRecord | app/Services/TracerouteService.php:80-88 | a zero exit with output always gives a record whose hops are exactly the parse of the right-trimmed output |
| Trace.NotStartedFails | app/Services/TracerouteService.php:75-77 | a command that could not be started fails with "Failed to execute traceroute command" |
| Trace.SilentRunFails | app/Services/TracerouteService.php:71-74 | a zero exit with no output fails with "Traceroute command produced no output" |
| Trace.ExitCodeReported | app/Services/TracerouteService.php:67-69 | a non-zero exit fails, and the exit code reads back from the message |
| Trace.ZeroHostRejected | app/Services/TracerouteService.php:19-21 | the host "0" is rejected like the empty host |
| Cases.StarAddressOnPieces | app/Services/TracerouteService.php:540-544 | on "* " + address bytes + a non-address byte, the `* ip` rule captures exactly the address bytes |
| Cases.StarRuleOnNamedRouter | app/Services/TracerouteService.php:540-544 | on "* dc1.example.com (10.0.0.1)" the `* ip` rule captures "dc1.e" |
| Cases.NamedRouterAfterTimeoutLosesAddress | app/Services/TracerouteService.php:522-622 | both cascades give that residual IP "dc1.e" and hostname "*", which the sanity check turns into "Unknown" |
| Cases.UnixTimeoutExample | app/Services/TracerouteService.php:486-496 | " 5  * * *" parses to `{5, 5, "Timeout", "*", 0}` |
| Cases.WindowsTimeoutExample | app/Services/TracerouteService.php:301-312 | "3  *  *  *  Request timed out." parses to `{3, 3, "Timeout", "*", 0}` |
| Cases.TracertHop1LineSkipped | app/Services/TracerouteService.php:183-186 | with a blank first line and "Tracing route to" on the second, the loop starts at index 5 |

## Left out

- Process I/O (`proc_open`, pipe reads, `proc_close`) is the parameter `run`. It maps the command line to an `Execution`: not started, or an exit code, the lines read and standard error.
- `ini_set` and every `error_log` call are left out. They do not change the result.
- `uniqid` and `time` are left out. The id suffix and the timestamp are inputs; the model states only that the id starts with "trace_".
- `escapeshellarg` is the parameter `quote`. Its quoting rules are not modelled.
- The `PHP_OS` test is the `Dialect` parameter.
- The HTTP controller, the routes, the mock service and the tests are left out. They are request plumbing and fixtures around this core.
- Strings are byte strings with one `char` per byte. There is no multibyte or locale-dependent behaviour.
- PHP arrays keyed by strings become the `Hop` and `TraceRecord` datatypes.
- Command.Merge: options are integers keyed by strings. Non-integer option values, integer keys (which `array_merge` renumbers) and `%d` of non-integers are not modelled.
- Command.Flags: the Windows timeout is multiplied by 1000 over unbounded integers. PHP integer overflow into a float is not modelled.
- HopLine.LeadingDigits: the hop number is the unbounded value of its digits. PHP's `(int)` saturates at `PHP_INT_MAX`; this is not modelled.
- HopLine.ParseUnixLine: Unix RTT tokens are averaged as exact decimals, not as PHP floats. Where float rounding would decide a tie at .5, the two can differ. The contract states `pingTime` as the exact rounded mean of the exact decimal samples.
- Rtt.DecimalValue: a token is read as an exact rational number. PHP's `(float)` cast rounds it to the nearest double, which is not modelled.
- Captures.ColonHexAtFinds: covers only a run of hex digits and colons with no dotted tail. Tokens such as `::ffff:1.2.3.4` are matched by `Patterns.ColonHexAt` but have no construction lemma.
- Captures.LabelledAtFinds: states the capture at a given start. Which start `preg_match` picks is the leftmost start that matches, stated once for all rules by `Patterns.ApplyRuleIsLeftmost`.
- Trace.TraceRoute: `round()` returns a PHP float; `pingTime` is the integer it equals.
- Trace.TraceRoute: the `stdout` lines are taken as `fgets` returned them; line splitting of the byte stream is not modelled.
