/** The keyed-record scanner: it hands out each line of its input as a
    record bound to its decoder. The underlying line scanner keeps the
    current line in a buffer that it reuses, so a record must own a copy. */
module Scanner {
  import opened Bytes
  import opened Codec

  /** A record as handed to the record library: the raw line and the decoder
      that will split and decode it on demand. */
  datatype KeyedRecord = KeyedRecord(wire: array<byte>, decoder: CsvKeyedRecordCodec)

  class CsvKeyedRecordScanner {
    /** The line scanner's buffer holding the current line; the next scan
        overwrites it in place. */
    var line: array<byte>
    const decoder: CsvKeyedRecordCodec

    /** A scanner over `line` that decodes with `decoder`. */
    constructor WithDecoder(line: array<byte>, decoder: CsvKeyedRecordCodec)
      ensures this.line == line && this.decoder == decoder
    {
      this.line := line;
      this.decoder := decoder;
    }

    /** A scanner whose records are split on `delimiter`. */
    constructor WithDelimiter(delimiter: Delimiter, line: array<byte>)
      ensures this.line == line && decoder == NewCsvKeyedRecordCodec(delimiter)
    {
      this.line := line;
      decoder := NewCsvKeyedRecordCodec(delimiter);
    }

    /** A scanner whose records are split on a tab. */
    constructor TabDelimited(line: array<byte>)
      ensures this.line == line && decoder.delimiter == [Tab]
    {
      this.line := line;
      decoder := NewTabKeyedRecordCodec();
    }

    /** The current line as a record: a newly allocated array holding the
        same bytes as the buffer, bound to this scanner's decoder. */
    method Record() returns (rec: KeyedRecord)
      ensures fresh(rec.wire)
      ensures rec.wire.Length == line.Length && rec.wire[..] == line[..]
      ensures rec.decoder == decoder
    {
      var copy := new byte[line.Length];
      for i := 0 to line.Length
        invariant forall k :: 0 <= k < i ==> copy[k] == line[k]
      {
        copy[i] := line[i];
      }
      rec := KeyedRecord(copy, decoder);
    }
  }

  /** Taking a record and then letting the next line overwrite the scanner's
      buffer: the record still holds the line it was taken from. */
  method RecordThenOverwrite(s: CsvKeyedRecordScanner, next: seq<byte>) returns (rec: KeyedRecord)
    requires |next| == s.line.Length
    modifies s.line
    ensures s.line[..] == next
    ensures rec.wire[..] == old(s.line[..]) && rec.decoder == s.decoder
  {
    rec := s.Record();
    forall i | 0 <= i < s.line.Length {
      s.line[i] := next[i];
    }
  }
}
