# Cloudflare IP scanner — a Dafny model of its core

The scanner is a browser page. It expands a list of IPv4 CIDR ranges into
addresses and probes each address up to three times, first by loading an
image over HTTPS and, when that fails, by opening a WebSocket. It keeps
the addresses that answer below a ping ceiling and exports them as a CSV
file sorted by average ping.

This project models the logic of `scanner.js` that does not depend on the
browser:

- `wrappers.dfy`: `Option`.
- `bits.dfy` (`Bits`): JavaScript's 32-bit bitwise operators (`~`, `&`, `|`, `<<`, `>>>`), written as arithmetic on unbounded integers.
- `text.dfy` (`Text`): the string built-ins the scanner uses (`split`, `join`, `trim`, `repeat`), `parseInt` on digits and the decimal text of a number.
- `address.dfy` (`Address`): `ipToNumber` and `numberToIp`.
- `cidr.dfy` (`Cidr`): `parseCIDR`.
- `probe.dfy` (`Probe`): the resolve-once promises of `testIP` and `testIPWebSocket`, driven by the sequence of events the browser delivers.
- `runner.dfy` (`Runner`): `testIPCombined` and the ping-ceiling field.
- `results.dfy` (`Results`): the entry `addResult` records and its rounded average.
- `worklist.dfy` (`Worklist`): the first half of `startScan`, which chooses the ranges and expands them into the worklist or stops.
- `scheduler.dfy` (`Scheduler`): the second half of `startScan`, which probes batches of five with a stop button and records results.
- `export.dfy` (`Export`): the stable sort and the CSV text of `exportResults`.
- `seqs.dfy` (`Seqs`): generic sequence facts and the loop that appends expansions until one throws.

The model's inputs stand for everything the scanner learns from outside:

- the events each probe receives, with their elapsed times;
- whether `new WebSocket` throws;
- whether a range's expansion throws;
- the order in which the addresses of a batch complete;
- the number of completions after which the user presses stop;
- what `parseInt` made of the ping-ceiling field.

Notes on the source text:

- `scanner.js` is stored with CRLF line endings.
- The split separator at lines 237-238 is written as a raw line break inside a single-quoted string. So is the header terminator at 316-317. The row terminator at 323-324 is a raw line break inside a template literal.
- A line terminator inside a single-quoted JavaScript string is a SyntaxError. So `scanner.js` as stored would not parse at all, and the two strings evidently stand for `'\n'`, the escape the stored text lost. The model uses `'\n'` for both.
- A raw line break inside a template literal is legal and its CRLF is normalised to `'\n'`, so the row terminator is `'\n'` as written.

## Model

| member | source | states |
|---|---|---|
| Address.ByteAt | scanner.js:39-41 | `(num >>> k) & 0xff` is the base-256 digit of `num` at bit `k` |
| Address.LowByte | scanner.js:42 | `num & 0xff` is `num` modulo 256 |
| Address.Octets | scanner.js:37-43 | the four bytes `numberToIp` extracts are the digits of the number, most significant first |
| Address.AccumulateModulo | scanner.js:34 | the fold `(acc << 8) + octet` goes through signed 32-bit values on the way, yet after `>>> 0` it is the base-256 number of the octets modulo 2^32 |
| Address.OctetsDigits | scanner.js:37-43 | the extracted bytes are below 256 and, read back in base 256, give the number |
| Address.OctetsOfBigEndian | scanner.js:37-43 | four bytes make a 32-bit number whose extracted bytes are those four |
| Address.NumberToIpIsDottedQuad | scanner.js:37-44 | `numberToIp` always yields four canonical decimal octets joined by dots |
| Address.DottedQuadIsAddressText | scanner.js:33-35 | every canonical dotted quad is a text `ipToNumber` reads exactly |
| Address.DottedQuadAvoids | scanner.js:37-44 | a dotted quad holds no character other than digits and dots |
| Address.NumberToIpAvoids | scanner.js:37-44 | the text `numberToIp` prints holds only digits and dots |
| Address.NumberRoundTrip | scanner.js:33-44 | `ipToNumber(numberToIp(n)) == n` for every 32-bit `n` |
| Address.TextRoundTrip | scanner.js:33-44 | `numberToIp(ipToNumber(s)) == s` for every canonical dotted quad `s` |
| Address.NumberToIpInjective | scanner.js:37-44 | distinct numbers print as distinct addresses |
| Cidr.ParseCidrLoop | scanner.js:19-31 | the function as written, bounds then loop, returns exactly the addresses of the block in ascending order, as `ParseCidr` and `ParseCidrSpec` describe them |
| Cidr.PushSpan | scanner.js:27-29 | the loop from `start` to `end` inclusive pushes one value for each of the `end - start + 1` numbers, in ascending order, or none when `start > end` |
| Cidr.RangeTextOf | scanner.js:20-22 | a range written as an address, `/` and a prefix length is read back as that base and prefix |
| Cidr.MaskUnsigned | scanner.js:21 | read as unsigned, `~(2 ** (32 - prefix) - 1)` has one bits above the host bits and its complement has the host bits set |
| Cidr.BlockStartValue | scanner.js:23 | `(base & mask) >>> 0` is the base with its host bits cleared |
| Cidr.BlockEndValue | scanner.js:24 | `(start \| ~mask) >>> 0` is the network address plus the block size minus one |
| Cidr.BlockShape | scanner.js:21-29 | the numbers visited are exactly the aligned block of 2^(32 - prefix) numbers that contains the base |
| Cidr.BlockSharesNetwork | scanner.js:21-29 | every number of the block, masked again, gives the block's start |
| Cidr.BlockNumbersAscending | scanner.js:27-29 | the block's numbers strictly ascend |
| Cidr.ParseCidrSpec | scanner.js:19-31 | `parseCIDR` lists 2^(32 - prefix) canonical dotted quads whose `ipToNumber` values are the block's numbers, in order |
| Cidr.ParseCidrDistinct | scanner.js:19-31 | no address occurs twice in one expansion |
| Cidr.SingleAddress | scanner.js:19-31 | a `/32` range expands to its base address alone, which is the written address when that is canonical |
| Text.ParseDecimalString | scanner.js:313 | `parseFloat` of a non-negative integer's decimal text gives the integer back |
| Text.DecimalStringOfParse | scanner.js:33-44 | a canonical digit text is the decimal text of the number it parses to |
| Text.Split | scanner.js:237-238 | `split` returns at least one piece, and no piece holds the separator |
| Text.SplitJoin | scanner.js:33-44 | splitting a join of separator-free pieces gives the pieces back |
| Text.JoinSplit | scanner.js:33-44 | joining the pieces of a split gives the text back |
| Text.TrimInfix | scanner.js:232 | `trim` removes a whitespace prefix and a whitespace suffix and nothing else |
| Text.TrimEdges | scanner.js:238 | a trimmed text neither starts nor ends with whitespace |
| Text.TrimEmpty | scanner.js:232-236 | `trim` gives the empty text exactly when the input is all whitespace |
| Text.TrimIdempotent | scanner.js:238 | trimming twice is trimming once |
| Text.Repeat | scanner.js:322 | `','.repeat(n)` is `n` commas |
| Probe.Decide | scanner.js:62-82 | the first handler resolves with its elapsed time on success, with the time on an error below the kind's limit (the timeout for the image, 500 ms for the socket) and with `null` otherwise or on timeout |
| Probe.ResolvedStays | scanner.js:54-60 | once resolved, a probe keeps its value whatever events follow |
| Probe.FirstEventDecides | scanner.js:99-129 | the first event settles the probe with the value its handler decides |
| Probe.RunAppend | scanner.js:47-88 | delivering events in two installments is the same as delivering them at once |
| Probe.PendingUntilFirstEvent | scanner.js:79-82 | a probe is pending exactly while no event has arrived, and a fired timer always settles it |
| Probe.ProbeValue | scanner.js:107-129 | a resolved probe's ping is the first event's elapsed time, and it is a number exactly when that event was a success or a fast enough error |
| Runner.MaxPing | scanner.js:231 | `parseInt(field) \|\| 300`: a NaN or zero gives 300, any other number is the ceiling |
| Runner.Kept | scanner.js:149-151 | at most one sample per repetition is kept, and every kept sample is below the ceiling |
| Runner.Repeat | scanner.js:141-147 | one repetition observes the image probe's ping, or its `null` and then the socket probe's answer |
| Runner.TestCombined | scanner.js:137-158 | three repetitions, each observing its probes, keep at most three samples, all below the ceiling, in repetition order |
| Runner.KeptCount | scanner.js:149-151 | the number of kept samples is the number of repetitions whose value is a number below the ceiling |
| Runner.KeptMembers | scanner.js:149-151 | a value is kept exactly when it is below the ceiling and some repetition produced it |
| Results.Average | scanner.js:161 | `(sum / count).toFixed(0)` is within half a unit of the mean |
| Results.RecordAverage | scanner.js:160-163 | the entry holds the address and the samples, and its average is within half a unit of their mean and between the fastest and the slowest sample |
| Results.AverageUnique | scanner.js:161 | the rounding bounds pin the average down: no other integer meets them |
| Results.AverageBetween | scanner.js:161 | the average lies between the smallest and the largest sample |
| Results.AverageWithin | scanner.js:161 | a sum between `n * lo` and `n * hi` has its rounded mean between `lo` and `hi` |
| Results.AverageOfEqual | scanner.js:161 | equal samples average to that sample |
| Worklist.TrimmedLines | scanner.js:237-238 | the selected lines are no more than the field's lines and none is blank |
| Worklist.DefaultRangesWellFormed | scanner.js:2-11 | each built-in range is a well-formed `/24` |
| Worklist.DefaultExpansion | scanner.js:2-11 | the built-in ranges expand to 2048 addresses |
| Worklist.TrimmedLinesMembers | scanner.js:237-238 | a text is selected exactly when it is a non-blank line of the field, trimmed |
| Worklist.SelectRangesSpec | scanner.js:235-239 | a blank field selects the built-in ranges; any other field selects at least one range, and each is a trimmed non-blank line of the trimmed field |
| Worklist.ExpansionAppend | scanner.js:242-253 | the expansion of two lists is the two expansions appended: nothing is merged or dropped |
| Worklist.ExpansionMembers | scanner.js:242-253 | an address is on the worklist exactly when some range expands to it |
| Worklist.ExpansionDottedQuads | scanner.js:242-253 | every worklist entry is a canonical dotted quad |
| Worklist.UniformExpansion | scanner.js:242-253 | ranges of one prefix length contribute 2^(32 - prefix) entries each, overlaps counted twice |
| Worklist.ExpansionNonEmpty | scanner.js:242-259 | the worklist is empty exactly when no range is selected |
| Seqs.ConcatUntil | scanner.js:243-253 | the loop stops at the first range that throws, having appended the expansions of the ranges before it |
| Worklist.Assemble | scanner.js:242-259 | the first throwing range aborts the scan; with none, the scan starts on the expansion unless it is empty |
| Worklist.AssembleDefaults | scanner.js:235-259 | a blank field starts the scan on the expansion of the built-in ranges, 2048 addresses |
| Scheduler.BatchCount | scanner.js:273 | the loop runs `ceil(n / 5)` times: enough batches to cover `n`, and not one more |
| Scheduler.BatchIndex | scanner.js:273 | batch `b` exists exactly when `5 * b < n` |
| Scheduler.BatchLength | scanner.js:274 | a batch holds at most five addresses and stays inside the worklist |
| Scheduler.BatchesPrefix | scanner.js:273-274 | the first `b` batches, appended, are the first `min(5b, n)` addresses |
| Scheduler.BatchesPartition | scanner.js:273-274 | the batches appended give back the worklist; each holds one to five addresses, and all but the last hold five |
| Scheduler.Slot | scanner.js:274-276 | the address completing `t`-th in batch `b` is on the worklist and in batch `b` |
| Scheduler.BatchStep | scanner.js:276-286 | one completion records its address exactly when it kept a sample and the scan is still running, and changes nothing else |
| Scheduler.DiscoveredPrefix | scanner.js:277-285 | records are appended in completion order: what the first `u` completions of a batch record is a prefix of what any later point records |
| Scheduler.Complete | scanner.js:277-285 | handling the next completion of a batch keeps the batch invariant one completion further: its address counted, recorded at most once and only if it kept samples before the stop |
| Scheduler.RunBatch | scanner.js:274-288 | after a batch, every address of it was counted, and exactly those that kept samples and completed before the stop were recorded, each once, with its entry, in the order they completed (`Discovered`) |
| Scheduler.ScanStep | scanner.js:273-289 | one batch extends what the loop has tested and recorded by that batch's completions |
| Scheduler.NextBatch | scanner.js:273-288 | a batch started while scanning brings the count to `min(n, 5 * (b + 1))` and keeps the loop invariant one batch further |
| Scheduler.ScanComplete | scanner.js:273-289 | without a stop, every address with a sample is recorded |
| Scheduler.Scan | scanner.js:270-289 | a batch starts only while scanning; the count reaches `min(n, 5 * batches)`; the records are each batch's records in completion order, batch after batch (`ScanDiscovered`); each address is recorded at most once, exactly when it kept samples and completed before the stop; without a stop everything is probed |
| Export.SortKey | scanner.js:313 | `parseFloat(avgPing)` is the average itself, so the comparator compares averages |
| Export.Insert | scanner.js:313 | one insertion step of the sort adds the entry and loses nothing |
| Export.InsertSorted | scanner.js:313 | inserting into a sorted sequence keeps it sorted |
| Export.InsertStable | scanner.js:313 | an inserted entry goes after the earlier entries of equal average |
| Export.SortByAverage | scanner.js:313 | the sort is a permutation of the entries |
| Export.SortSorted | scanner.js:313 | the sorted entries ascend by average |
| Export.SortStable | scanner.js:313 | entries of equal average keep their relative order |
| Export.SortKeepsEntries | scanner.js:313 | an entry is in the sorted sequence exactly when it was in the input |
| Export.StableSortUnique | scanner.js:313 | only one sequence is sorted by average and holds each average's entries in a given order |
| Export.SortMeetsSpec | scanner.js:313 | the sort is sorted by average and stable |
| Export.SortCharacterized | scanner.js:313 | a sequence is the sort of the entries exactly when it is sorted by average and stable with respect to them |
| Export.SortIdempotent | scanner.js:313 | exporting twice writes the entries in the same order |
| Export.Fields | scanner.js:320-324 | each row has five cells, as many as the header has titles |
| Export.RowIsLine | scanner.js:323-324 | a row is its comma-joined cells and a line break |
| Export.RowCells | scanner.js:320-324 | a printable entry's line splits into its five cells |
| Export.RowRoundTrip | scanner.js:319-325 | reading back a printable entry's line gives the entry |
| Export.ParseRowInverse | scanner.js:319-325 | whatever reads back as an entry is that entry's line, with one to three samples and an address without commas |
| Export.HeaderCells | scanner.js:316-317 | the header is one line whose comma-separated cells are the five column titles |
| Export.RowsJoined | scanner.js:316-325 | the header and the rows are the lines joined by line breaks, with an empty last piece |
| Export.FileLines | scanner.js:316-325 | the file, split at line breaks, is the header, one line per entry and an empty last piece |
| Export.ExportResults | scanner.js:309-325 | no entries give no file and leave `results` alone; otherwise the entries are sorted by average, stably and without loss, and a file is produced |
| Export.ExportLines | scanner.js:309-325 | the file's lines are the header and the entries in sorted order, each line reading back as its entry |
| Export.RecordedPrintable | scanner.js:282-283 | every entry the scan records is one the CSV represents faithfully |

## Left out

- The page itself is not modelled: the DOM updates, the result cards, the progress bar and the counters (`scanner.js:165-207`, `210-216`, `224-227`, `264-267`, `296-307`). These only display state.
- Real network I/O and timing are not modelled: `Image`, `WebSocket`, `setTimeout`, `Date.now` and the 200 ms pause (`scanner.js:47-154`). The probes are driven by a given sequence of events that carry their elapsed times. Elapsed times are whole, non-negative milliseconds.
- The `Blob`, the download link, `alert` and `console` (`scanner.js:248-249`, `256`, `261`, `284`, `292`, `328-332`) are output only.
- Interleaving inside `Promise.all` (`scanner.js:276-288`) is not modelled as concurrency. The completion order within each batch and the stop point are inputs. So is what `testIPCombined` returned for each address.
- The `sni` field (`scanner.js:230`) is read but never used.
- Floating point is not modelled. The mean of whole milliseconds is rounded exactly, half up, as `toFixed(0)` does for non-negative values, and `parseFloat` of the result is that integer.
- Cidr.ParseCidr: requires a well-formed range (digit octets up to 255, a `/`, a prefix up to 32). The scanner does not validate, and its results for other texts are not modelled. The prefix only enters through `~(2 ** (32 - parseInt(bits)) - 1)` (`scanner.js:21`), evaluated in double precision and then `ToInt32`. A prefix from 33 to 85, one of -22 or below, and a missing or non-numeric one (NaN) give a mask of -1, so the range expands to its base address alone. A prefix from -21 to -1, or of 86 or more, gives a mask of 0, so the range expands to all 2^32 addresses. A base that is not a dotted quad of decimal octets up to 255 goes through `ipToNumber` with NaN or oversized pieces, which is not modelled either.
- Address.IpToNumber: requires each dot-separated piece to be decimal digits of at most 255. `parseInt` on other pieces is not modelled.
- Worklist.Assemble: whether a range's expansion throws is an input. The scanner only throws there when the engine runs out of room for the spread or for memory.
- Runner.MaxPing: takes what `parseInt` made of the field as an input rather than parsing the text.
- Runner.TestCombined: requires every probe it awaits to resolve. A probe that never settles leaves the scanner waiting forever. That cannot happen in a browser, because each probe arms its timer.
- Export.ExportResults: requires at most three samples per entry. With more, `','.repeat` would throw; `testIPCombined` never keeps more than three.
- Scheduler.Scan: one scan at a time. `stopScan` enables Start again (`scanner.js:297-298`) while the old loop may still be waiting on `Promise.all` (`scanner.js:288`). A new click then sets `scanning` and clears `results` (`scanner.js:220-221`), so the old batch's pending completions would add to the new results and its loop could start further batches (`scanner.js:273`, `282`). Its final `stopScan()` (`scanner.js:293`) would stop the new scan. A restart while an earlier scan is still pending is not modelled.
- Export.RowRoundTrip: holds only for entries with one to three samples and an address without commas or line breaks, which is what the scan records (Export.RecordedPrintable). An entry with no samples would print six cells. That cannot happen, because `addResult` is only called when samples were kept.
