# slapper core, modelled in Dafny

slapper is an HTTP load generator with a terminal histogram. It reads a
targets file of `METHOD URL` lines, each optionally followed by a `$ body`
line. It expands range placeholders `[a-b]` and random placeholders
`[rLEN;x-y_...]` in the URLs into a corpus of requests. It fires those
requests round-robin at a desired rate, and it keeps a ring of 100 slices of
100 ms each, holding good and bad counters per latency bucket. The reporter
adds these counters up every 100 ms, and the keys `k`/`j` change the rate
while `r` resets the counters.

This project models that logic as pure functions over immutable data and
proves properties of it.

- `Faults` (faults.dfy) holds the `Result`/`Option` types. A Go panic
  becomes `Fail(Panic(reason))`, and each error the program returns becomes
  its own fault.
- `GoStrings`, `GoStrconv` and `GoInts` model the parts of Go's `strings`
  and `strconv` packages the program calls. They also model Go's truncating
  integer `/` and `%`. In Go a number is stored in a fixed number of bytes;
  in Dafny it is unbounded.
- `UrlTemplate` models `parseUrl`, `getCount`, `getMinMax`, `makeCharList`
  and `randomString`. The two regular expressions become explicit scanners,
  `Placeholders` and `RangeSpecs`.
- `Targets` models `readTargets` and `nextRequest`. It also defines a writer
  for targets files (`Render`), so the reader can be proved against it.
- `Metrics` models the counters:
  - the bucket clamp and the status classification of `attack`;
  - `getTimingsSlot` and the expiry of the next slice;
  - `resetStats`.
- `Reporter` models the aggregation loop of `reporter`.
- `RateControl` models the rate arithmetic of `ticker`.
- `Engine` models the key-press listener as transitions on one state record.

Randomness is a draw oracle `draw: nat -> nat`, standing for the successive
values of `rand.Int63()`, plus a cursor `pos` that is threaded through every
expansion. A list of pre-drawn strings would not say which draw picks which
character. The oracle keeps the model's `randomString` equal to the code,
`charlist[draw % len(charlist)]`, and still leaves every value unknown.

The base64 decoder is a parameter `decode: string -> Option<seq<byte>>`.
The targets file comes in as a sequence of lines that are already split.

In three places the code does something a reader may not expect; the model follows the code:
- The latency bucket's input `raw` is Go's `int()` of the logarithm, which
  truncates toward zero. It is not a floor.
- `nextRequest` picks index 1 first, not 0.
- Several range placeholders are numbered side by side, not as a Cartesian
  product.

## Model

| member | source | states |
|---|---|---|
| GoStrconv.AtoiItoa | slapper.go:276 | Printing an integer in decimal and parsing it back with `Atoi` gives the integer again. |
| GoStrings.SplitJoin | slapper.go:343 | Joining the pieces of `strings.Split` with the separator gives the original text back. |
| GoStrings.SplitAfterN2At | slapper.go:164 | `SplitAfterN(line, " ", 2)` splits at the first space, which stays with the first part. |
| UrlTemplate.PlaceholdersSpec | slapper.go:209-210 | The scan finds a placeholder exactly when a `[` has a `]` after it; no placeholder text holds `]`. |
| UrlTemplate.GetMinMax | slapper.go:342-359 | On success both bounds are non-negative 64-bit integers with min <= max; a failure is one of the four range errors. |
| UrlTemplate.GetMinMaxSpec | slapper.go:342-359 | Anything but exactly one dash is the missing-bound error. With one dash: the min error exactly when the text before it is not an integer; the max error exactly when only the text after it is not; the inverted-range error exactly when both parse and min > max; otherwise the two integers. |
| UrlTemplate.GetMinMaxOfSides | slapper.go:342-359 | For `a-b` with one dash the answer is the first side that is not an integer, otherwise an inverted-range error, otherwise the pair. |
| UrlTemplate.GetMinMaxRoundTrip | slapper.go:342-359 | `getMinMax` of a printed `lo-hi` gives back (lo, hi) exactly when lo <= hi, and the inverted-range error otherwise. |
| UrlTemplate.RangeSpecsAreDigitRanges | slapper.go:287-288 | Every numeric range `getCount` finds is digits, a dash, digits. |
| UrlTemplate.GetCountSpec | slapper.go:285-322 | With numeric ranges in the URL, the count is the product of (max - min + 1), or fails exactly when one range does not parse; a range beats an explicit count; without ranges, the count is the integer after the first space, or a syntax error when there is no space. |
| UrlTemplate.MakeCharList | slapper.go:362-371 | The list holds the characters from min to max in ascending order, max - min + 1 of them, and is empty when min > max. |
| UrlTemplate.MakeCharListMembers | slapper.go:362-371 | A character is in the list exactly when it lies between the bounds. |
| UrlTemplate.InvertedRangesEmpty | slapper.go:326-329 | Ranges that are all inverted give an empty character list. |
| UrlTemplate.ParseCharRanges | slapper.go:244-252 | On success there is one range per piece, and each piece is its low character, a dash, its high character; the only faults are the invalid-range error and the index panic. |
| UrlTemplate.ParseCharRangesSpec | slapper.go:244-252 | The pieces parse exactly when every one is one ASCII character, a dash, one ASCII character, with neither side a dash. The first piece that is not one decides the fault: the index panic when it is `-`, `-a` or `a-`, the invalid-range error otherwise. |
| UrlTemplate.CharRangePieces | slapper.go:247-251 | The split and length check of one piece pass exactly for a character range or a piece with an empty side, and a side is empty exactly in the latter case. |
| UrlTemplate.LowerCaseRange | slapper.go:244-252 | `a-z` parses to the single range from `a` to `z`. |
| UrlTemplate.RandomString | slapper.go:325-340 | `count` strings of exactly `length` characters, all from the character list, consuming count * length draws; it panics on a negative size (a negative count, or a negative length when count > 0), or with a division by zero when characters are needed from an empty list, and in no other case. |
| UrlTemplate.ParseUrlSpec | slapper.go:208-282 | Without a placeholder the result is the one URL before the first space; otherwise the number of URLs is exactly `getCount`'s count; draws are only consumed. |
| UrlTemplate.ParseUrlPlain | slapper.go:212-217 | A URL without placeholders stands for itself, with or without a trailing count. |
| UrlTemplate.ParseUrlEmptyPlaceholder | slapper.go:229-231 | An empty placeholder `[]` panics at `submatch[0]`. |
| UrlTemplate.ParseUrlOneRange | slapper.go:263-277 | With one placeholder that is a numeric range `lo-hi`, URL i is the URL with the placeholder replaced by the decimal of lo + i, and there are `getCount`'s count of them. |
| UrlTemplate.OneRangeCount | slapper.go:285-307 | For `p[a-b]s` the count is b - a + 1. |
| UrlTemplate.ParseUrlTemplate | slapper.go:263-277 | When the URL before the first space is `p[m]s`, with one numeric-range placeholder `m` = `lo-hi` and no `[` in `p` or `s`, the result is the URLs `p + (lo + i) + s`, one for each i below the count, in order. |
| UrlTemplate.RangeTemplate | slapper.go:285-307 | For the text `p[a-b]s` without spaces, the one placeholder is the one numeric range, it parses back to (a, b), the count is b - a + 1, and the whole text is the URL. |
| UrlTemplate.RangeTemplateCounted | slapper.go:211-214 | For `p[a-b]s n` the range still gives the count b - a + 1, ignoring n, and the URL is `p[a-b]s` without the count. |
| UrlTemplate.ParseUrlTwoRanges | slapper.go:263-277 | With two numeric-range placeholders, URL i has lo1 + i in the first and lo2 + i in the second, so this is not a Cartesian product. When both are also `getCount`'s ranges, the count is (hi1 - lo1 + 1) * (hi2 - lo2 + 1). When the second range holds more than one value, URL number hi1 - lo1 + 1 exists and carries hi1 + 1, which is past the first range's maximum. |
| UrlTemplate.TwoRangesCount | slapper.go:290-305 | With exactly two numeric ranges, the count is the product of their widths. It exceeds the first width when the second range holds more than one value. |
| UrlTemplate.ParseUrlOneRandom | slapper.go:231-262 | A random placeholder is replaced in URL i by the i-th string `randomString` draws, and the draw cursor moves past all of them. |
| Targets.ReadBody | slapper.go:168-188 | The line after a request line is consumed unless the input has ended; trimmed, it is pushed back unless it is `{}` or starts with `$ `; only a `$ ` line gives a body; the reader fails exactly when base64 is on and the decoder rejects the text after `$ `. |
| Targets.TrimSpaceEmpty | slapper.go:157-161 | A line trims to nothing exactly when it is blank. |
| Targets.SkipBlank | slapper.go:157-161 | A blank line is skipped. |
| Targets.PushbackSame | slapper.go:148-150 | A pushed-back line is handled exactly like an unread one. |
| Targets.ReadEntryNoBody | slapper.go:168-176 | After a request line without a body line, the next request line is pushed back, the body is empty, and reading goes on from that line. |
| Targets.ReadEntryWithBody | slapper.go:168-201 | A `{}` line gives an empty body; a `$ text` line gives `text`, decoded when base64 is on; the requests take that body. |
| Targets.ReadRender | slapper.go:131-205 | Reading a file written from well-formed entries gives the corpus those entries stand for: each entry's URLs in order, with its method and body, in all three body-line forms. |
| Targets.ReadTargetsRender | slapper.go:131-205 | The same round trip with `parseUrl` as the URL expansion. |
| Targets.NoSpacePanics | slapper.go:164-166 | A non-blank request line without a space panics at `parts[1]`. |
| Targets.EmptyBodyLinePanics | slapper.go:169-176 | A `$ ` line with nothing after it trims to `$`, is pushed back, and panics as a request line. |
| Targets.BadBase64Fails | slapper.go:179-184 | A body the decoder rejects stops the reader with that error. |
| Targets.NextRequest | slapper.go:373-379 | An empty corpus is an error; otherwise the cursor moves forward by one before the pick, so the pick is the request at the new cursor modulo the corpus size, and the corpus is kept. |
| Targets.FirstPick | slapper.go:378-379 | From a fresh cursor the first pick is index 1, not 0. |
| Targets.PickAt | slapper.go:378-379 | Call j of successive calls picks index (cursor + 1 + j) mod n. |
| Targets.PicksRotate | slapper.go:373-379 | Any n successive calls, n the corpus size, return the corpus rotated to the next cursor position, so every request exactly once. |
| Metrics.Init | slapper.go:655-664 | The counters after start-up are 100 slices of `buckets` counters each, all zero. |
| Metrics.ResetIsInit | slapper.go:67-86 | A reset zeroes every counter and keeps every shape, giving the start-up state again. |
| Metrics.ResetIdempotent | slapper.go:67-86 | Resetting twice is resetting once. |
| Metrics.BucketCases | slapper.go:438-444 | A raw value below 0 goes to bucket 0, from B - 1 on to bucket B - 1, and otherwise to raw + 1, so raw = B - 2 also lands in the last bucket. |
| Metrics.BucketMonotone | slapper.go:438-444 | A slower response never lands in a lower bucket. |
| Metrics.BucketOf | slapper.go:438-444 | The bucket is always in [0, B). |
| Metrics.TimingsSlot | slapper.go:649-653 | The slice is in [0, 100) and comes back exactly when Go's truncating remainder is not negative; otherwise the slice index panics. |
| Metrics.TimingsSlotAfterEpoch | slapper.go:649-653 | After the epoch the slice is (nanos / 10^8) mod 100. |
| Metrics.TimingsSlotBeforeEpoch | slapper.go:649-653 | Before the epoch, the index panics exactly when the instant is at least 100 ms before it and its count of whole 100 ms periods is not a multiple of 100. Every other such instant gets slice 0. |
| Metrics.NextSlot | slapper.go:649-653 | The slice 100 ms later is the next one around the ring. |
| Metrics.Record | slapper.go:446-459 | Recording fails exactly when the status is outside the 1024 status counters. |
| Metrics.RecordCounts | slapper.go:446-459 | One more received, and one more under the status with every other status counter unchanged. A 2xx adds one good and any other status one bad, in the current slice and bucket. Every other good and bad counter is unchanged, and the shape is kept. |
| Metrics.AttackStepCounts | slapper.go:376-459 | A request is counted as sent exactly when the corpus is not empty and `http.NewRequest` accepts the picked request; when it does not, the cursor has still moved on and no counter changes. A transport error is recorded as status 0 and adds one bad. A 2xx response adds one good, and any other response one bad, in the bucket of its latency in the current slice. The other grid is unchanged. |
| Metrics.ExpireNext | slapper.go:666-679 | Expiry zeroes exactly slice (current + 1) mod 100, which is never the current slice, and leaves every other slice alone. |
| Reporter.Aggregate | slapper.go:496-515 | With at most 100 buckets, the totals are the column sums over all 100 slices and the scale is the larger of 1 and the peak ok + bad; with more, the scratch index panics. |
| Reporter.AggregateScale | slapper.go:503-515 | The scale is at least 1 and at least every bucket's total, and when above 1 it equals one of those totals. |
| RateControl.NewTicker | slapper.go:627 | A ticker is created with period 1e9 / rate, and it fails exactly when that period is zero. |
| RateControl.Start | slapper.go:626-627 | Starting at rate 0 divides by zero, and a rate above 1e9 panics because the ticker interval `1e9 / rate` is 0; at any rate from 1 to 1e9 the controller is valid at that rate. |
| RateControl.ChangeRateSpec | slapper.go:631-637 | After a change the rate is max(0, old + delta) and the controller stays valid, with a ticker exactly when the rate is positive; the only failure is a rate above 1e9. |
| RateControl.UpThenDown | slapper.go:608-611 | `k` followed by `j` gives back the same controller while the rate stays positive. |
| RateControl.DownToStop | slapper.go:631-637 | `j` at a rate of at most 100 stops the ticker at rate 0, and another `j` changes nothing. |
| Engine.ResetKeepsRate | slapper.go:606-607 | `r` zeroes the counters and keeps the desired rate and its ticker. |
| Engine.RateKeysKeepStats | slapper.go:608-611 | `k` and `j` move the rate by +100 and -100 and leave the counters alone. |
| Engine.OnlyQuitStops | slapper.go:600-605 | Only `q` and Ctrl-C stop the program. |
| Engine.OtherKeysIgnored | slapper.go:603-612 | Any other key changes nothing. |

## Left out

- HTTP: the transport, TLS settings, `client.Do`, reading the response body,
  and the header merge (slapper.go:389-432). These are network I/O. The
  outcome of a request is an input, `Outcome`.
- Which methods and URLs `http.NewRequest` accepts (slapper.go:381-388) is
  Go library code: it is the parameter `builds` of `Metrics.AttackStep`.
  `Targets.NextRequest` models the pick only; the build and its error are
  applied in `Metrics.AttackStep`.
- Latency geometry: `logBase`, `startMs`, `math.Log` and `math.Pow`
  (slapper.go:432-434, 721-725), and the bar, label and colour maths of the
  reporter. These are floating point. The bucket clamp takes the already
  truncated integer `raw` as its input.
- Goroutines, channels, `time.Ticker`/`time.Tick`, atomics, the per-second
  rate sampler and the shutdown. Each counter update is one pure transition,
  and the ticker is only its period.
- Terminal output, termbox key polling and the terminal size checks. A key
  is an input to `Engine.HandleKey`.
- Flags, opening the targets file or stdin, and `textproto` header parsing.
- `bufio.Scanner`: the input is a sequence of lines already split, so the
  64 KiB line limit and the scanner's error are not modelled.
- Base64 decoding (section 4 of RFC 4648) is a decoder supplied as a parameter.
- The random number generator and its seed are the draw oracle; no
  distribution is claimed.
- 64-bit wrap-around of the counters, the request cursor, the range widths
  and their product, and the `uint64` rate: all are unbounded integers.
  `Atoi` still rejects values outside the 64-bit range, as Go does.
- On an error, `readTargets` has already appended some requests to the
  targeter, but the program then exits. The model returns only the error.
- Metrics.BucketOf: it requires only buckets >= 1, while `main` guarantees
  at least 4 (slapper.go:717-723).
- UrlTemplate.ParseUrlTemplate: it is stated over any URL whose scans give
  one placeholder, one range and the field `p[m]s`. `UrlTemplate.RangeTemplate`
  and `UrlTemplate.RangeTemplateCounted` show that the texts `p[a-b]s` and
  `p[a-b]s n` meet those premises. The two are not combined into one lemma
  about the literal text.
- UrlTemplate.ParseUrlTwoRanges: it covers URLs with exactly two
  placeholders, both numeric ranges. Mixed random and range templates are covered only through
  the general `UrlTemplate.ParseUrlSpec`.
- Targets.ReadRender: the writer puts a blank line after each body line, and
  it leaves out entries the reader cannot get back unchanged. Such entries
  have a method `$`, white space inside the method, at the ends of the URL, or
  at the end of a body. Their behaviour is covered by the panic and pushback
  lemmas instead.
- Lines are Dafny strings of characters, so input text is taken to be valid
  UTF-8. Go also accepts invalid bytes: a single invalid byte passes the
  one-byte check of a character range, becomes U+FFFD through `[]rune`, and
  `randomString` then indexes the multi-byte list by byte (slapper.go:248-251,
  334). `UrlTemplate.AtMostOneByte` models the byte count for valid text only.
- The `fmt.Println` debug output in `parseUrl` and `getCount` (slapper.go:264,
  289) is output only.
