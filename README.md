# bfuzz scan engine in Dafny

bfuzz is a TCP "port fuzzer": it sends every line of a wordlist to one
`host:port`, keeps at most `--batch-size` probes in flight, and prints each
response that matches none of the `--ignore` values. This project models its
scan engine, `src/main.rs`, in one Dafny module `Bfuzz` (`bfuzz.dfy`):

- **escape_ignores**: the four `str::replace` passes that turn the escapes
  backslash-n, -r, -t and -' of an ignore value into the characters they
  stand for. `Replace` models Rust's leftmost, non-overlapping replacement.
  The passes never lengthen a value, leave a value without a backslash alone,
  and invert the escaping of any response without a backslash.
- **get_wordlist_info**: the counting loop exactly as written, over the
  outcomes of reading each line and of the final seek. That includes its
  `max_length + 1` update, which computes `BumpedMax` rather than the longest
  line (see Findings).
- **scan_addr**: the retry loop over an oracle `io`, where `io[i]` is what the
  socket did in attempt i (the result of `write_all`, and the result of the
  single `read` into the 1024-byte buffer). The result is the first successful
  read, else the last read error. Write errors never reach the result.
- **fuzz**: the bounded window of in-flight probes, as a state machine.
  - `Window` holds the number of lines taken, the multiset of line numbers in
    flight, and the completed line numbers in completion order.
  - `AwaitNext` lets any in-flight probe complete, since `FuturesUnordered`
    promises no order, and then launches the next line.
  - The window never holds more than `batch_size` probes, and it holds exactly
    `min(batch_size, lines not yet completed)` whenever a result is awaited.
  - With a positive batch size every line completes exactly once.
  - `done` counts the successes, and the printed lines are the results
    classified in completion order.
- **classification**: an error is always printed. A success is printed unless
  its response equals an ignore value. The padding after the payload
  brings a shorter payload field up to `max_length` capped at 40, so the
  responses line up. Newlines in a printed response are written as
  backslash-n.

The code has no response timeout, no regex ignore patterns and no timeout or
error tallies. It reads one buffer of at most 1024 bytes rather than reading
until the peer closes. It does not retry a failed connection: a failed
connect panics.

## Model

| member | source | states |
|---|---|---|
| Bfuzz.Replace | src/main.rs:23-26 | `str::replace` never lengthens a string when the pattern is at least as long as the replacement, and changes nothing when the pattern's first character does not occur |
| Bfuzz.EscapeIgnores | src/main.rs:20-30 | the result has one value per ignore value, in order. Each is the four replacements applied in the source's order, is no longer than the original, and equals it when the original has no backslash |
| Bfuzz.UnescapeShortens | src/main.rs:23-26 | the four passes never lengthen a value and leave a value without a backslash unchanged |
| Bfuzz.ReplaceEscape | src/main.rs:23-26 | one replacement pass undoes the escaping of its character, provided no backslash already precedes the escape letter |
| Bfuzz.EscapeKeepsNoEscape | src/main.rs:23-26 | escaping one character creates no new backslash-escape of another letter, so the later passes do not interfere |
| Bfuzz.UnescapeEscapeForCli | src/main.rs:20-30 | for any response without a backslash, unescaping its command-line escaped form gives the response back |
| Bfuzz.FirstFailure | src/main.rs:144-145 | the first line whose read fails: every earlier line read, and this one did not |
| Bfuzz.Sizes | src/main.rs:145 | one byte length per line, equal to the line's length when it was read |
| Bfuzz.WordlistInfo | src/main.rs:139-154 | the first failed line read is returned as the error. Otherwise the seek error is returned. Otherwise the result is the line count and the `max_length` the loop computes (`BumpedMax` of the line lengths) |
| Bfuzz.BumpedMax | src/main.rs:147-149 | the loop's `max_length` never exceeds the number of lines read |
| Bfuzz.BumpedMaxAppend | src/main.rs:147-149 | one loop step: a line longer than `max_length` raises it by exactly one, any other line leaves it unchanged |
| Bfuzz.BumpedMaxMonotone | src/main.rs:144-150 | `max_length` never decreases while lines are read, and rises by at most one per line |
| Bfuzz.BumpedMaxBelowLongest | src/main.rs:144-150 | `max_length` never exceeds the length of the longest line |
| Bfuzz.Longest | src/main.rs:147-149 | the intended maximum: it bounds every line length and is the length of some line (0 for an empty wordlist) |
| Bfuzz.BumpedMaxUnderstates | src/main.rs:147-149 | for the single line "hello" the loop's `max_length` is 1 while the longest line has 5 bytes |
| Bfuzz.LongestLineLength | src/main.rs:139-154 | the corrected loop: it counts the lines, and its `max_length` bounds every line length and is the length of some line (0 when there are none) |
| Bfuzz.Received | src/main.rs:52-56 | one read takes a prefix of the delivered bytes of at most 1024 bytes: all of them when they fit, exactly 1024 otherwise |
| Bfuzz.FirstRead | src/main.rs:53-59 | the index of the first attempt whose read succeeds: all reads before it failed |
| Bfuzz.ScanAddr | src/main.rs:32-63 | the result is that of the first attempt whose read succeeds (payload and decoded response), else the error recorded last. Each attempt writes the payload with its optional newline, and the loop stops after the first successful read |
| Bfuzz.ProbeWithoutRetries | src/main.rs:38-62 | with zero retries the result is the initial `ErrorKind::Other` error with an empty message |
| Bfuzz.ProbeFirstSuccess | src/main.rs:52-56 | the first successful read decides the result: the original payload (never the newline-terminated one) and the decoding of at most 1024 of the delivered bytes |
| Bfuzz.ProbeFailure | src/main.rs:46-62 | with at least one retry, the probe fails exactly when every read fails, and then with the last read's error |
| Bfuzz.FirstReadIgnoresWrites | src/main.rs:46-60 | which attempt succeeds depends on the reads alone |
| Bfuzz.ProbeIgnoresWrites | src/main.rs:46-62 | two runs whose reads agree return the same result, whatever their writes did |
| Bfuzz.IgnoredBy | src/main.rs:115 | a response is ignored exactly when it equals one of the ignore values |
| Bfuzz.Padding | src/main.rs:117-125 | the padding is at most 40. A payload field shorter than `min(max_length, 40)` is padded to exactly that width; a field at least that wide gets no padding |
| Bfuzz.PrintableHasNoNewline | src/main.rs:126 | a printed response contains no newline character |
| Bfuzz.Classify | src/main.rs:111-133 | an error is always printed, with its error. A success is printed exactly when its response is not an ignore value, and then with its payload, padding and printable response |
| Bfuzz.Reports | src/main.rs:106-134 | at most one report per completed probe, in completion order |
| Bfuzz.OkCount | src/main.rs:112-113 | `done` never exceeds the number of completed probes |
| Bfuzz.ReportsAccount | src/main.rs:111-133 | every result is printed except the suppressed successes, and `done` equals the printed successes plus the suppressed ones |
| Bfuzz.Indices | src/main.rs:85 | the wordlist's line numbers, in file order |
| Bfuzz.IndicesOccurOnce | src/main.rs:85 | each line number below the line count occurs exactly once, and no other number occurs |
| Bfuzz.Fill | src/main.rs:92-104 | the filling loop launches `min(batch_size, line count)` probes, the first lines in order |
| Bfuzz.FilledWindow | src/main.rs:92-104 | after the filling loop the window invariant holds |
| Bfuzz.CompletedOnce | src/main.rs:106-110 | a probe in flight belongs to a line already taken and not yet completed. In-flight and completed probes together number the lines taken |
| Bfuzz.CompletionAccounts | src/main.rs:106-110 | after a completion, each line taken is still either in flight or completed, exactly once |
| Bfuzz.CompletionSize | src/main.rs:106-110 | after a completion the window again holds `min(batch_size, lines not completed)` probes: a line is launched exactly when one remains |
| Bfuzz.CompletionKeepsInvariant | src/main.rs:106-110 | any completion, in any order, keeps the window invariant: no more than `batch_size` probes in flight, every line taken is in flight or completed exactly once, and completed lines are distinct |
| Bfuzz.AwaitNext | src/main.rs:106-110 | some in-flight probe completes and the next line (if any) is launched. The invariant is kept and the remaining work decreases |
| Bfuzz.AllCompleted | src/main.rs:106-134 | when the window drains, the completed lines are exactly the wordlist's lines (each once) if the batch size is positive, and none if it is 0 |
| Bfuzz.TakenCount | src/main.rs:106-110 | the in-flight and completed probes together number the lines taken |
| Bfuzz.Outcomes | src/main.rs:94-109 | one probe result per line |
| Bfuzz.OutcomeAt | src/main.rs:94-109 | line k's result is `scan_addr` of line k with 3 retries over its own socket behaviour |
| Bfuzz.HandleResult | src/main.rs:111-133 | a success increments `done`, and an error leaves it unchanged. The lines printed are those `Classify` gives |
| Bfuzz.SucceededAppend | src/main.rs:112-113 | completing a new line adds one to the successes exactly when its probe succeeded |
| Bfuzz.AccountedStep | src/main.rs:106-133 | handling the result of a line not completed before keeps the bookkeeping: results, `done`, printed lines and window sizes |
| Bfuzz.ProbeLine | src/main.rs:109 | the probe launched for line k returns that line's result |
| Bfuzz.Record | src/main.rs:106-133 | the completed probe's result is recorded, counted and printed, keeping the bookkeeping |
| Bfuzz.Turn | src/main.rs:106-134 | one turn of the `while let` loop keeps both the window invariant and the bookkeeping, and brings the scan closer to its end |
| Bfuzz.SameLines | src/main.rs:106-134 | lines completed in any order succeed as the same lines in file order do |
| Bfuzz.Fuzz | src/main.rs:85-134 | with batch size 0 nothing is probed. Otherwise every line is probed and completes exactly once, in some order. Each recorded result is its line's `scan_addr` result. `done` counts the successes (as many as the lines whose probe succeeds). The printed lines are the classified results in completion order. Every time a result is awaited, `min(batch_size, lines not yet completed)` probes are in flight |

## Left out

- Command-line parsing, the banner, the progress bar and the ANSI colours are not modelled.
- Reports, Classify: an error prints two lines, the error and a hint to lower the batch size (src/main.rs:130-131). The model records both as one `Error` report and does not model the hint's text. A Found line keeps only its payload, padding and printed response, and an error line keeps only its error.
- Fuzz, ScanAddr: the network is an oracle. Real TCP connections, address resolution and `write_all` are not modelled. `io[i]` gives each attempt's write and read results. A failed connect panics (`expect`), so it is outside the model.
- ScanAddr: a read delivers what the peer had sent, cut to the 1024-byte buffer. Short reads that return fewer bytes are covered only in that the oracle may deliver fewer bytes.
- Fuzz: async execution is reduced to its scheduling. Completion order is a free choice (`:|`) among the probes in flight. Tasks, wakers and threads are not modelled.
- WordlistInfo, Fuzz: the file is not read. Each line's read outcome and byte length, and the seek's outcome, are inputs. In `fuzz` a failed line read panics (`expect`), so its lines are plain strings.
- `String::from_utf8_lossy` is the parameter `decode`. The byte length of the formatted payload field is the parameter `displayLen`, a Rust string length below 2^63.
- WordlistInfo, Fuzz: `count` and `done` are unbounded. The u64 and i64 counters would overflow only after 2^63 lines.
- Padding: `max_length` is taken below 2^63 (type `MaxLength`). The fold keeps it at most the line count, and a wordlist file has fewer than 2^63 bytes. For larger values the source's i64 subtraction at src/main.rs:121 would overflow; that case is not modelled.
- ScanAddr: `retries` is a `u32` in the source and a `nat` here. `fuzz` always passes 3.

## Findings

| source | as written | input that shows it | evidently intended | confidence | as-written member | corrected member |
|---|---|---|---|---|---|---|
| src/main.rs:147-149 | a line longer than `max_length` raises `max_length` by 1 | a wordlist holding the single line "hello": `max_length` is 1, the longest line has 5 bytes | `max_length` becomes that line's length, so it is the length of the longest line | not executed | Bfuzz.BumpedMaxUnderstates | Bfuzz.LongestLineLength |
