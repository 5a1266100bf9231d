/** What splitting and joining record lines promise, for any non-empty
    delimiter and for the tab delimiter that the tab constructors fix. */
module CodecLaws {
  import opened Bytes
  import opened Codec

  /** The key is the whole line exactly when the line holds no delimiter,
      and then the value is `{}`. */
  lemma SplitKVWithoutDelimiter(c: CsvKeyedRecordCodec, wire: Bytes)
    ensures SplitKV(c, wire).key == wire <==> !Contains(wire, c.delimiter)
    ensures !Contains(wire, c.delimiter) ==> SplitKV(c, wire) == KeyValue(wire, EmptyObject)
  {
    if SplitKV(c, wire).key == wire {
      assert !Contains(SplitKV(c, wire).key, c.delimiter);
    }
  }

  /** With the first delimiter at `i`, the line is the key, the delimiter and
      the rest; the value is that rest, byte for byte, unless it is empty. */
  lemma SplitKVAtFirstDelimiter(c: CsvKeyedRecordCodec, wire: Bytes, i: nat)
    requires OccursAt(wire, c.delimiter, i)
    requires forall j :: 0 <= j < i ==> !OccursAt(wire, c.delimiter, j)
    ensures SplitKV(c, wire).key == wire[..i]
    ensures wire == SplitKV(c, wire).key + c.delimiter + wire[i + |c.delimiter|..]
    ensures |wire| > i + |c.delimiter| ==> SplitKV(c, wire).val == wire[i + |c.delimiter|..]
    ensures |wire| == i + |c.delimiter| ==> SplitKV(c, wire).val == EmptyObject
  {
    FirstIndexOfUnique(wire, c.delimiter, i);
    assert wire == wire[..i] + wire[i..];
    assert wire[i..] == c.delimiter + wire[i + |c.delimiter|..];
  }

  /** A line that ends in its only delimiter splits as the line without it:
      into the prefix and `{}`. */
  lemma {:induction false} SplitKVTrailingDelimiter(c: CsvKeyedRecordCodec, p: Bytes)
    requires FirstIndexOf(p + c.delimiter, c.delimiter) == Some(|p|)
    ensures SplitKV(c, p + c.delimiter) == SplitKV(c, p) == KeyValue(p, EmptyObject)
  {
    assert (p + c.delimiter)[..|p|] == p;
    forall j | OccursAt(p, c.delimiter, j) ensures false {
      OccursAtPrefix(p, c.delimiter, c.delimiter, j);
    }
  }

  /** The first delimiter in `key + d + val` is the one JoinKV put there
      exactly when it is the first delimiter in `key + d`. */
  lemma {:induction false} FirstDelimiterOfJoin(c: CsvKeyedRecordCodec, key: Bytes, val: Bytes)
    ensures FirstIndexOf(JoinKV(c, key, val), c.delimiter) == Some(|key|)
        <==> FirstIndexOf(key + c.delimiter, c.delimiter) == Some(|key|)
  {
    var d := c.delimiter;
    var kd := key + d;
    var line := kd + val;
    assert JoinKV(c, key, val) == line;
    assert OccursAt(kd, d, |key|);
    OccursAtPrefix(kd, val, d, |key|);
    if FirstIndexOf(kd, d) == Some(|key|) {
      forall j | 0 <= j < |key| ensures !OccursAt(line, d, j) {
        if OccursAt(line, d, j) {
          assert line[j..j + |d|] == kd[j..j + |d|];
          assert OccursAt(kd, d, j);
        }
      }
      FirstIndexOfUnique(line, d, |key|);
    } else {
      var f := FirstIndexOf(kd, d).value;
      assert f < |key|;
      OccursAtPrefix(kd, val, d, f);
    }
  }

  /** Round trip from key and value: splitting a joined line gives back the
      key and the value exactly when the value is non-empty and the first
      delimiter in `key + d` is the appended one. */
  lemma JoinThenSplit(c: CsvKeyedRecordCodec, key: Bytes, val: Bytes)
    ensures SplitKV(c, JoinKV(c, key, val)) == KeyValue(key, val)
        <==> |val| > 0 && FirstIndexOf(key + c.delimiter, c.delimiter) == Some(|key|)
  {
    var d := c.delimiter;
    var line := JoinKV(c, key, val);
    FirstDelimiterOfJoin(c, key, val);
    assert line[..|key|] == key;
    assert line[|key| + |d|..] == val;
    assert OccursAt(line, d, |key|) by {
      assert line[|key|..|key| + |d|] == d;
    }
    var i: nat := FirstIndexOf(line, d).value;
    assert SplitKV(c, line).key == line[..i];
  }

  /** Round trip from the line: joining the split parts gives back the line
      exactly when the line has a delimiter with something after it. */
  lemma SplitThenJoin(c: CsvKeyedRecordCodec, wire: Bytes)
    ensures JoinKV(c, SplitKV(c, wire).key, SplitKV(c, wire).val) == wire
        <==> FirstIndexOf(wire, c.delimiter).Some?
             && FirstIndexOf(wire, c.delimiter).value + |c.delimiter| < |wire|
  {
    var d := c.delimiter;
    var r := SplitKV(c, wire);
    match FirstIndexOf(wire, d)
    case None =>
      assert |JoinKV(c, r.key, r.val)| > |wire|;
    case Some(i) =>
      var rest := wire[i + |d|..];
      if |rest| > 0 {
        SplitKVAtFirstDelimiter(c, wire, i);
      } else {
        assert |JoinKV(c, r.key, r.val)| > |wire|;
      }
  }

  /** For a one-byte delimiter, an occurrence is just that byte at that index. */
  lemma OccursAtSingle(s: Bytes, b: byte, j: int)
    ensures OccursAt(s, [b], j) <==> 0 <= j < |s| && s[j] == b
  {
    if 0 <= j < |s| {
      assert s[j..j + 1] == [s[j]];
    }
  }

  /** With a one-byte delimiter, the appended delimiter is the first one in
      `key + [b]` exactly when `key` does not hold that byte. */
  lemma {:induction false} SingleByteFirst(key: Bytes, b: byte)
    ensures FirstIndexOf(key + [b], [b]) == Some(|key|) <==> b !in key
  {
    var s := key + [b];
    OccursAtSingle(s, b, |key|);
    if b !in key {
      forall j | 0 <= j < |key| ensures !OccursAt(s, [b], j) {
        OccursAtSingle(s, b, j);
      }
      FirstIndexOfUnique(s, [b], |key|);
    } else {
      var j :| 0 <= j < |key| && key[j] == b;
      OccursAtSingle(s, b, j);
    }
  }

  /** Round trip for tab-delimited records: a key and a value come back from
      their joined line exactly when the key holds no tab and the value is
      non-empty. */
  lemma TabJoinThenSplit(key: Bytes, val: Bytes)
    ensures SplitKV(NewTabKeyedRecordCodec(), JoinKV(NewTabKeyedRecordCodec(), key, val))
            == KeyValue(key, val)
        <==> Tab !in key && |val| > 0
  {
    JoinThenSplit(NewTabKeyedRecordCodec(), key, val);
    SingleByteFirst(key, Tab);
  }

  /** A tab-delimited line splits at its first tab; a line without a tab is
      all key, with value `{}`. */
  lemma TabSplitKV(wire: Bytes)
    ensures Tab !in wire ==> SplitKV(NewTabKeyedRecordCodec(), wire) == KeyValue(wire, EmptyObject)
    ensures forall i :: 0 <= i < |wire| && wire[i] == Tab && Tab !in wire[..i] ==>
              SplitKV(NewTabKeyedRecordCodec(), wire)
              == KeyValue(wire[..i], ValueOrEmptyObject(wire[i + 1..]))
  {
    var c := NewTabKeyedRecordCodec();
    if Tab !in wire {
      forall j | OccursAt(wire, [Tab], j) ensures false {
        OccursAtSingle(wire, Tab, j);
      }
    }
    forall i | 0 <= i < |wire| && wire[i] == Tab && Tab !in wire[..i]
      ensures SplitKV(c, wire) == KeyValue(wire[..i], ValueOrEmptyObject(wire[i + 1..]))
    {
      OccursAtSingle(wire, Tab, i);
      forall j | 0 <= j < i ensures !OccursAt(wire, [Tab], j) {
        OccursAtSingle(wire, Tab, j);
        assert wire[..i][j] == wire[j];
      }
      FirstIndexOfUnique(wire, [Tab], i);
    }
  }

  /** With a two-byte delimiter, the round trip can fail although the key
      holds no delimiter: key "xa", delimiter "aa" and value "v" join to
      "xaaav", which splits into "x" and "av". */
  lemma MultiByteDelimiterBreaksRoundTrip()
    ensures var c := NewCsvKeyedRecordCodec([97, 97]);
            var key: Bytes := [120, 97];
            !Contains(key, c.delimiter)
            && SplitKV(c, JoinKV(c, key, [118])) == KeyValue([120], [97, 118])
  {
    var c := NewCsvKeyedRecordCodec([97, 97]);
    var key: Bytes := [120, 97];
    var line := JoinKV(c, key, [118]);
    assert line == [120, 97, 97, 97, 118];
    assert OccursAt(line, [97, 97], 1) by { assert line[1..3] == [97, 97]; }
    assert !OccursAt(line, [97, 97], 0) by { assert line[0..2] == [120, 97]; }
    FirstIndexOfUnique(line, [97, 97], 1);
    assert line[3..] == [97, 118];
    assert key[0..2] == [120, 97];
  }

  /** The two documented tab-delimited lines: `user42<TAB>{"age":30}` splits
      into `user42` and `{"age":30}`; `user42` alone into `user42` and `{}`. */
  lemma TabSplitExamples()
    ensures var user42: Bytes := [117, 115, 101, 114, 52, 50];
            var age: Bytes := [123, 34, 97, 103, 101, 34, 58, 51, 48, 125];
            SplitKV(NewTabKeyedRecordCodec(), user42 + [Tab] + age) == KeyValue(user42, age)
            && SplitKV(NewTabKeyedRecordCodec(), user42) == KeyValue(user42, EmptyObject)
  {
    var user42: Bytes := [117, 115, 101, 114, 52, 50];
    var age: Bytes := [123, 34, 97, 103, 101, 34, 58, 51, 48, 125];
    var c := NewTabKeyedRecordCodec();
    assert Tab !in user42;
    TabJoinThenSplit(user42, age);
    assert JoinKV(c, user42, age) == user42 + [Tab] + age;
    TabSplitKV(user42);
  }
}
