# Server-Sent-Events frame splitter

A Dafny model of the event-frame splitter of the `sse` Go package (`event.go`). The
splitter cuts a Server-Sent-Events byte stream into raw frames at blank lines. A blank
line is one of five literal byte patterns: `\r\r`, `\n\n`, `\r\n\n`, `\n\r\n` and
`\r\n\r\n`. This loosely follows the end-of-line rules of section 9.2.5 ("Parsing an
event stream") of the WHATWG HTML Living Standard. The model follows the code's five
patterns, not the standard's full grammar.

The model has six modules:

- `Wrappers` (wrappers.dfy): the `Option` type.
- `Bytes` (bytes.dfy): the byte type and `bytes.Index`, modelled as "offset of the
  first occurrence, or -1".
- `Boundary` (boundary.dfy): `minPosInt` and `containsDoubleNewline`. It also proves
  that at most one pattern starts at any offset. And it proves that once a buffer
  holds a boundary, appending more bytes does not change what the detector reports.
- `Splitter` (splitter.dfy): the `split` closure installed in the scanner, and
  `Pieces`/`Frames`, the frames a complete stream is cut into.
- `StreamReader` (reader.dfy): the scanner that `EventStreamReader` wraps, first as
  the pure step `ScanFrom`, then as the class `EventStreamReader`. The class has the
  accumulation buffer, the sticky read error and the remaining reads as fields. Its
  `Scan` method loops over split and reads. `ReadEvent` maps the outcome. The main
  result is about chunking: whatever sizes the source's reads have, the reader yields
  `Frames` of the delivered bytes.
- `Scenarios` (scenarios.dfy): two concrete streams.

The byte source is a sequence of `Chunk`s. Each chunk is the result of one `Read`
call: some bytes and an optional error. When the sequence runs out, that reads as
`io.EOF`.

The scanner is Go's `bufio.Scanner`, which is in Go's standard library, not in this
package. It is modelled on the Scan loop of Go's `bufio` package. Once a read error of
any kind is recorded, reading stops and split is called with `atEOF` set. The buffered
remainder then comes out as a final frame before `ReadEvent` reports the end. This holds
for a `context.Canceled` read error too; `ReadEvent` then reports `io.EOF`.

## Model

| member | source | states |
|---|---|---|
| `Bytes.Index` | event.go:72-76 | the result is -1 exactly when the pattern occurs nowhere; otherwise the pattern occurs there and at no earlier offset |
| `Boundary.MinPos` | event.go:89-102 | the result is negative iff both arguments are, and then it is `b`; otherwise it is one of the arguments and no larger than any non-negative argument |
| `Boundary.ContainsDoubleNewline` | event.go:67-87 | the position is negative iff no pattern occurs anywhere, and then the result is `(-1, 4)`; otherwise the position is the first offset where a pattern starts, and `data[pos..pos+len]` is a pattern within `data` |
| `Boundary.EarliestOfFive` | event.go:77-78 | the nested minimum of the five first-occurrence offsets is the first boundary, and is -1 exactly when there is none |
| `Boundary.DelimitersPrefixFree` | event.go:72-76 | no pattern is a proper prefix of another |
| `Boundary.OnePatternPerOffset` | event.go:80-85 | two patterns starting at the same offset have the same length, so the length tie-break is deterministic |
| `Boundary.FirstBoundaryUnique` | event.go:77-86 | two first boundaries with their patterns are the same position and length |
| `Boundary.DetectionDetermined` | event.go:70-87 | a first boundary at `p` whose pattern has length `n` is exactly what the detector reports |
| `Boundary.LongPatternCannotStraddle` | event.go:76 | `\r\n\r\n` cannot start before a complete pattern and run past the end of the buffer |
| `Boundary.FirstBoundaryInExtension` | event.go:70-87 | the first boundary of a buffer and its pattern stay the first boundary when bytes are appended |
| `Boundary.DetectionStableUnderExtension` | event.go:70-87 | once the detector finds a boundary in `a`, it reports the same position and length on `a + b` |
| `Boundary.NoBoundaryBeforeFirst` | event.go:50 | the bytes before the first boundary contain no pattern |
| `Boundary.NoBoundaryWithoutTwoLineBreaks` | event.go:72-76 | no pattern starts where the next two bytes are not both `\r` or `\n` |
| `Splitter.Split` | event.go:43-58 | at EOF with empty data: no token, nothing consumed; with a boundary: the token is the prefix before the first boundary, it holds no pattern, and the consumed bytes are token then pattern, `0 < advance <= len(data)`; without a boundary: the whole data as final token at EOF, else advance 0 and no token |
| `Splitter.SplitStableUnderExtension` | event.go:43-58 | a token split finds before EOF is the token, with the same advance, that it finds at EOF on any longer data |
| `Splitter.Pieces` | event.go:43-58 | concatenating the frames of a stream with their delimiters gives back the stream byte for byte |
| `Splitter.PiecesAreDelimited` | event.go:49-54 | no frame body holds a pattern; every frame but the last ends with a pattern; the last ends with one or is the remainder flushed at EOF |
| `Splitter.FramesStep` | event.go:43-58 | the frames of a stream are split's token at EOF followed by the frames of what it did not consume |
| `Splitter.FrameAt` | event.go:49-50 | a first boundary at `p` of length `n` makes `stream[..p]` the first frame, followed by the frames of `stream[p+n..]` |
| `Splitter.StreamWithoutBlankLine` | event.go:53-54 | a non-empty stream without a blank line is one frame, the whole stream |
| `Splitter.AdjacentDelimitersGiveEmptyFrame` | event.go:49-50 | a pattern at the start of the data gives a zero-length frame, followed by the frames of the rest |
| `Scenarios.CrCrSplitsTwoFrames` | event.go:49-54 | `a\r\rb` gives the frames `a` and `b` |
| `Scenarios.OnlyDelimitersGiveEmptyFrames` | event.go:49-50 | `\n\n\n\n` gives two zero-length frames |
| `StreamReader.Fill` | event.go:106 | the scanner's read step inside `Scan`: one `Read` call keeps every pending byte and the terminal error, and uses up a read or records EOF |
| `StreamReader.ScanFrom` | event.go:106 | `Scanner.Scan` as a step on the scanner state: it only uses up reads, keeps a recorded error, and yielding nothing leaves an empty buffer with an error recorded; `ScanAgreesWithSplit` and `EndIsSticky` state what it yields |
| `StreamReader.ScanAgreesWithSplit` | event.go:38-60 | one scan, for any chunking, yields split's token at EOF on all pending bytes and consumes its advance; a scan with no token leaves an empty buffer and the source's terminal error recorded |
| `StreamReader.BufferedBoundaryIsPendingBoundary` | event.go:49-51 | a boundary found in the buffer before EOF is the boundary of everything still pending |
| `StreamReader.DrainIsFrames` | event.go:105-117 | repeated reads yield exactly `Frames` of the pending bytes |
| `StreamReader.ReaderYieldsFrames` | event.go:31-65 | a new reader yields `Frames` of everything the source delivers |
| `StreamReader.ChunkingDoesNotMatter` | event.go:43-58 | two sources that deliver the same bytes in different reads yield the same frames |
| `StreamReader.EndIsSticky` | event.go:105-117 | once a scan yields nothing, later scans yield nothing and change nothing |
| `StreamReader.Surfaced` | event.go:110-116 | the reported end is never `context.Canceled`; it is `io.EOF` iff the stream ended with `io.EOF` or cancellation, and otherwise the error itself |
| `StreamReader.EventStreamReader.constructor` | event.go:32-34 | a new reader has an empty buffer, no error, and the whole source pending |
| `StreamReader.EventStreamReader.Err` | event.go:110 | no error iff none was recorded or it was `io.EOF`; otherwise the recorded error |
| `StreamReader.EventStreamReader.Scan` | event.go:106-107 | the new state and the token are those of `ScanFrom` on the old state |
| `StreamReader.EventStreamReader.ReadEvent` | event.go:105-117 | a frame comes with no error, and no frame comes with an error; the frame is the first of the pending frames, and the rest are left pending; with no frame nothing is pending, and the error is the stream's end, with cancellation reported as `io.EOF` |

## Left out

- `Event` (event.go:16-22): field-level parsing is not part of this code, and its `timestamp` is a `time.Time`.
- The unused `buffer` and `idx` fields of `EventStreamReader` (event.go:27-28): nothing reads or writes them.
- `StreamReader.EventStreamReader.constructor`: takes no buffer size. The `bufferSize` of `NewEventStreamReaderWithBufferSize` (event.go:39-42) only sets the scanner's maximum token size. Buffer growth and the `bufio.ErrTooLong` failure are not modelled, so the buffer is unbounded.
- `bufio.Scanner`'s guards against misbehaving readers and split functions: `io.ErrNoProgress` after 100 empty reads, `ErrBadReadCount`, and the panic on repeated empty tokens. Empty chunks are allowed and only cost a loop iteration. This split function always advances when it returns a token.
- The `io.Reader` and real I/O: the source is a finite sequence of read results, fixed when the reader is made.
- Context cancellation as an asynchronous event: only the mapping of a `context.Canceled` read error to `io.EOF` (event.go:111-112) is kept.
- Split's error result: the closure always returns nil there, so `SplitResult` has no error field.
- `Scanner.Bytes` aliasing: in Go the returned slice is overwritten by the next scan. The model returns frames as values.
