/** The byte-level half of the delimited keyed-record codec: a line is a key
    and a JSON value joined by a delimiter. */
module Codec {
  import opened Bytes

  /** A key/value delimiter; it is never empty. */
  type Delimiter = d: Bytes | |d| > 0 witness [9]

  /** The codec's configuration. Only the delimiter is modelled; the Go value
      also carries the reflected type that values are decoded into. */
  datatype CsvKeyedRecordCodec = CsvKeyedRecordCodec(delimiter: Delimiter)

  /** The two parts of a split record line. */
  datatype KeyValue = KeyValue(key: Bytes, val: Bytes)

  /** The two bytes `{}`, the JSON empty object that stands in for a missing value. */
  const EmptyObject: Bytes := [123, 125]

  /** A codec that splits and joins on `delimiter`. */
  function NewCsvKeyedRecordCodec(delimiter: Delimiter): (c: CsvKeyedRecordCodec)
    ensures c.delimiter == delimiter
  {
    CsvKeyedRecordCodec(delimiter)
  }

  /** A codec for tab-delimited records: the delimiter is the single byte '\t'. */
  function NewTabKeyedRecordCodec(): (c: CsvKeyedRecordCodec)
    ensures c.delimiter == [Tab]
  {
    NewCsvKeyedRecordCodec([Tab])
  }

  /** `v` itself, or `{}` when `v` is empty. */
  function ValueOrEmptyObject(v: Bytes): Bytes {
    if |v| == 0 then EmptyObject else v
  }

  /** Splits a record line at the first occurrence of the delimiter. The key
      is everything before it (the whole line when there is none), the value
      everything after it, later delimiters included; an absent or empty
      value becomes `{}`. */
  function SplitKV(c: CsvKeyedRecordCodec, wire: Bytes): (r: KeyValue)
    ensures |r.val| > 0
    ensures r.key <= wire && !Contains(r.key, c.delimiter)
    ensures match FirstIndexOf(wire, c.delimiter)
            case None => r == KeyValue(wire, EmptyObject)
            case Some(i) =>
              r.key == wire[..i] && r.val == ValueOrEmptyObject(wire[i + |c.delimiter|..])
  {
    var data := SplitN(wire, c.delimiter, 2);
    var key := data[0];
    var val := if |data| > 1 then data[1] else [];
    var r := KeyValue(key, if |val| == 0 then EmptyObject else val);
    match FirstIndexOf(wire, c.delimiter)
    case None => r
    case Some(i) => BeforeFirstHasNone(wire, c.delimiter, i); r
  }

  /** Joins a key and a value into a record line with the delimiter between them. */
  function JoinKV(c: CsvKeyedRecordCodec, key: Bytes, val: Bytes): (r: Bytes)
    ensures r == key + c.delimiter + val
    ensures |r| == |key| + |c.delimiter| + |val|
  {
    JoinPair(key, val, c.delimiter);
    Join([key, val], c.delimiter)
  }

  /** Whether a writer using this codec may write a record's original bytes
      back out unchanged when the record was read with this same codec. It
      always may. */
  function CodecSame(c: CsvKeyedRecordCodec): (r: bool)
    ensures r
  {
    true
  }
}
