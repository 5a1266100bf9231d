# Keyed-record codec of go-jsonutils, modelled in Dafny

The `jsonutils` package reads and writes "keyed records": text lines in which
a key and a JSON value are joined by a delimiter, by default a single tab.
This project models the byte-level half of its codec `CSVKeyedRecordCodec`
and proves what it promises:

- `SplitKV` cuts a line at the first occurrence of the delimiter (Go's
  `bytes.SplitN(line, delim, 2)`). Every later delimiter stays in the value.
  An absent or empty value is replaced by the two bytes `{}`.
- `JoinKV` puts key, delimiter and value together (Go's `bytes.Join`).
- `CodecSame` always answers true, so a writer may reuse a record's original
  bytes.
- The tab constructors fix the delimiter to the single byte `'\t'`.
- `CSVKeyedRecordScanner.Record` copies the line scanner's reused buffer into
  a newly allocated array before handing it out as a record.

Files:

- `bytes.dfy` (module `Bytes`): bytes, first occurrence (`FirstIndexOf`, Go's
  `bytes.Index`), `SplitN` and `Join` as recursive functions, with their laws.
  These are general laws of Go's `bytes` functions for any count and any
  number of parts: `SplitN` is pinned down by the predicate `IsSplitN` (the
  pieces join back to the input, each is cut at the first occurrence left,
  and the last holds no separator unless the count ran out), and `Join` is
  inverted by `SplitN` exactly when its parts meet that cut condition. The
  codec itself only ever splits with a count of 2 and joins two parts.
- `codec.dfy` (module `Codec`): the codec value, its constructors, `SplitKV`,
  `JoinKV`, `CodecSame`.
- `codec_laws.dfy` (module `CodecLaws`): edge cases of splitting, both round
  trips as if-and-only-if statements, the tab specialisations and a
  counterexample for multi-byte delimiters.
- `scanner.dfy` (module `Scanner`): the scanner as a class whose current line
  is an array, and `Record` as a copying method.

The delimiter is the subset type `Delimiter` (non-empty byte sequences). So
`SplitKV` and `JoinKV` need no precondition. Both are total functions. This
is how the model states that the Go versions always return a nil error.

The round trip "join, then split, gives back key and value" needs more than
a non-empty value. The first delimiter in `key + delimiter` must be the
appended one. For a tab this means the key holds no tab (`TabJoinThenSplit`).
For a multi-byte delimiter a key without any delimiter in it can still break
the round trip (`MultiByteDelimiterBreaksRoundTrip`: key `xa`, delimiter `aa`).
A non-empty value alone is not enough for the round trip; the key must also
hold no earlier delimiter.

## Model

| member | source | states |
|---|---|---|
| `Bytes.FirstIndexOf` | jsonutils/jsonutils.go:81 | the result is an occurrence of the delimiter with no occurrence before it; it is None exactly when the delimiter occurs nowhere |
| `Bytes.FirstIndexFrom` | jsonutils/jsonutils.go:81 | the result is an occurrence at or after the start offset with none between the offset and it; None means no occurrence at or after the offset |
| `Bytes.SplitN` | jsonutils/jsonutils.go:81 | with count 0 no pieces; with count n > 0 at least one and at most n pieces |
| `Bytes.SplitNThenJoin` | jsonutils/jsonutils.go:81 | joining the pieces of a split with the separator gives back the input |
| `Bytes.SplitNPiecesBeforeLast` | jsonutils/jsonutils.go:81 | every piece but the last contains no occurrence of the separator |
| `Bytes.SplitNCutsAtFirst` | jsonutils/jsonutils.go:81 | every piece but the last ends exactly at the first occurrence of the separator in what is left of the input from that piece on |
| `Bytes.SplitNLastUncut` | jsonutils/jsonutils.go:81 | when the split returns fewer pieces than its count, the last piece holds no separator: the input ran out of occurrences |
| `Bytes.SplitNKeepsPromise` | jsonutils/jsonutils.go:81 | the split meets `IsSplitN`: between one and n pieces that join back to the input, cut at the first occurrences from the left, the remainder kept whole in the last piece |
| `Bytes.SplitNCharacterised` | jsonutils/jsonutils.go:81 | a list of pieces meets `IsSplitN` if and only if it is the split, so the split is the only one with those properties |
| `Bytes.JoinPair` | jsonutils/jsonutils.go:112 | joining two parts gives the first, the separator and the second |
| `Bytes.JoinCons` | jsonutils/jsonutils.go:112 | joining a part before a non-empty list gives the part, the separator and the join of the list |
| `Bytes.JoinLength` | jsonutils/jsonutils.go:112 | a join is as long as all parts together plus one separator fewer than there are parts |
| `Bytes.JoinThenSplitN` | jsonutils/jsonutils.go:81-112 | splitting a join into as many pieces as it has parts gives the parts back if and only if each part ends at the first occurrence of the separator in the rest of the join |
| `Codec.NewCsvKeyedRecordCodec` | jsonutils/jsonutils.go:61-75 | the codec splits and joins on the delimiter it was given |
| `Codec.NewTabKeyedRecordCodec` | jsonutils/jsonutils.go:55-57 | the tab codec's delimiter is the single byte '\t' |
| `Codec.SplitKV` | jsonutils/jsonutils.go:79-98 | the value is never empty; the key is a prefix of the line with no delimiter in it; with no delimiter the result is (line, `{}`); otherwise the key is everything before the first delimiter and the value everything after it, or `{}` if that is empty |
| `Codec.JoinKV` | jsonutils/jsonutils.go:111-114 | the line is key, delimiter and value in that order, of length \|key\| + \|delimiter\| + \|value\|, for every input |
| `Codec.CodecSame` | jsonutils/jsonutils.go:127-129 | always true |
| `CodecLaws.SplitKVWithoutDelimiter` | jsonutils/jsonutils.go:81-95 | the key is the whole line if and only if the line holds no delimiter, and then the value is `{}` |
| `CodecLaws.SplitKVAtFirstDelimiter` | jsonutils/jsonutils.go:81-95 | with the first delimiter at i, the key is the line up to i, the line is key + delimiter + rest, and the value is the rest verbatim (later delimiters included) or `{}` when the rest is empty |
| `CodecLaws.SplitKVTrailingDelimiter` | jsonutils/jsonutils.go:88-95 | a line that ends in its only delimiter splits like the line without it, into the prefix and `{}` |
| `CodecLaws.FirstDelimiterOfJoin` | jsonutils/jsonutils.go:79-114 | the first delimiter of a joined line is the one the join inserted if and only if it is the first delimiter of key + delimiter |
| `CodecLaws.JoinThenSplit` | jsonutils/jsonutils.go:79-114 | splitting a joined line gives back key and value if and only if the value is non-empty and the first delimiter of key + delimiter is the appended one |
| `CodecLaws.SplitThenJoin` | jsonutils/jsonutils.go:79-114 | joining the split parts gives back the line if and only if the line holds a delimiter followed by at least one byte |
| `CodecLaws.TabJoinThenSplit` | jsonutils/jsonutils.go:55-57 | with the tab codec, the round trip holds if and only if the key holds no tab and the value is non-empty |
| `CodecLaws.TabSplitKV` | jsonutils/jsonutils.go:79-98 | with the tab codec, a line without a tab splits into (line, `{}`), and a line splits at its first tab |
| `CodecLaws.TabSplitExamples` | jsonutils/jsonutils.go:79-98 | `user42<TAB>{"age":30}` splits into `user42` and `{"age":30}`; `user42` splits into `user42` and `{}` |
| `CodecLaws.MultiByteDelimiterBreaksRoundTrip` | jsonutils/jsonutils.go:79-114 | with delimiter `aa`, key `xa` (which holds no delimiter) and value `v` join to a line that splits into `x` and `av` |
| `Scanner.CsvKeyedRecordScanner.WithDecoder` | jsonutils/jsonutils.go:159-169 | the scanner reads the given line buffer and decodes with the given codec |
| `Scanner.CsvKeyedRecordScanner.WithDelimiter` | jsonutils/jsonutils.go:148-155 | the scanner's decoder is a codec on the given delimiter |
| `Scanner.CsvKeyedRecordScanner.TabDelimited` | jsonutils/jsonutils.go:141-143 | the scanner's decoder splits on the single byte '\t' |
| `Scanner.CsvKeyedRecordScanner.Record` | jsonutils/jsonutils.go:178-184 | the record's bytes are a newly allocated array of the same length and contents as the current line, bound to the scanner's decoder |
| `Scanner.RecordThenOverwrite` | jsonutils/jsonutils.go:178-184 | after the scanner's buffer is overwritten with the next line, a record taken before still holds the earlier line |

## Left out

- `UnmarshalVal` and `MarshalVal` (jsonutils/jsonutils.go:101-119): they delegate to Go's `encoding/json`, whose grammar and number handling are not part of this model; the value type the codec would decode into is therefore not a field of the model's codec either.
- The reflection loop of `NewCSVKeyedRecordCodec` (jsonutils/jsonutils.go:65-72): runtime type introspection with no Dafny counterpart.
- Empty delimiters: Go's `bytes.SplitN` then splits off the first UTF-8 character, and indexing `data[0]` on empty input would fail. The model requires a non-empty delimiter through the `Delimiter` type.
- Negative counts of `bytes.SplitN` ("split at every occurrence") are not modelled; the codec only uses a count of 2.
- The Go `error` results of `SplitKV` and `JoinKV` are always nil; the model has no error channel for them and expresses "never fails" by making them total.
- Slice aliasing: Go's key and value share storage with the input line. The model works on values and does not track that sharing.
- `Scan` and `Err` (jsonutils/jsonutils.go:173-189): delegation to `bufio.Scanner`'s line splitting and I/O errors. The scanner's current line is a given array; `RecordThenOverwrite` stands for the next scan overwriting it.
- `Scanner.CsvKeyedRecordScanner.Record`: the record library's `NewKeyedRecordFromBytes` is not part of this model, so a record is just the copied bytes and the decoder; the Go decoder may be any implementation of the decoder interface, the model's is always this codec.
- `CSVKeyedRecordWriter.Write` and its constructors (jsonutils/jsonutils.go:193-230): output through `fmt.Fprintf` to an `io.Writer`, and the decision to reuse raw bytes lives in the record library, which is not part of this model.
