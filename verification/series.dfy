/** Series of samples as the dashboard stores them: each sample is the text "<epochMillis>,<value>",
    and `appendData` merges a persisted series with the in-memory one for the same key. */
module Series {
  import opened Results
  import opened Numerals
  import opened Text

  /** One sample, exactly as held in the cache and in the snapshot file. */
  type Line = string

  /** Element 0 of `line.split(",")`, or `None` when the array is empty and indexing it throws: exactly
      when the line is non-empty and made of commas only. */
  function FirstField(line: string): (r: Option<string>)
    ensures r.None? <==> |line| > 0 && AllSeparators(line, ',')
    ensures r.Some? ==> r.value == UpTo(line, ',')
  {
    SplitEmpty(line, ',');
    var parts := Split(line, ',');
    if |parts| == 0 then None
    else
      SplitFirst(line, ',');
      Some(parts[0])
  }

  /** `Long.parseLong(line.split(",")[0])`, the timestamp `appendData` reads from a sample. */
  function TimestampOf(line: Line): (r: Result<int>)
    ensures r.Ok? ==> InLong(r.value)
    ensures |line| > 0 && AllSeparators(line, ',') ==> r == Err(NoTimestamp(line))
    ensures r.Err? ==> r == Err(NoTimestamp(line)) || r == Err(BadTimestamp(line))
  {
    match FirstField(line)
    case None => Err(NoTimestamp(line))
    case Some(field) =>
      match ParseLong(field)
      case None => Err(BadTimestamp(line))
      case Some(ts) => Ok(ts)
  }

  /** A timestamp is read exactly when the line has a first field and that field, the text before the
      first ',', parses as a long; the timestamp is that long. */
  lemma TimestampOfFirstField(line: Line)
    ensures TimestampOf(line).Ok? <==> !(|line| > 0 && AllSeparators(line, ',')) && ParseLong(UpTo(line, ',')).Some?
    ensures TimestampOf(line).Ok? ==> ParseLong(UpTo(line, ',')) == Some(TimestampOf(line).value)
  {
  }

  /** `date.getTime() + "," + value`: the sample the broker poller appends. */
  function FormatSample(ts: int, value: string): Line {
    LongToString(ts) + "," + value
  }

  /** The timestamp read back from a formatted sample is the one written, whatever the value text. */
  lemma TimestampOfFormatSample(ts: int, value: string)
    requires InLong(ts)
    ensures TimestampOf(FormatSample(ts, value)) == Ok(ts)
  {
    var digits := LongToString(ts);
    var line := FormatSample(ts, value);
    assert line == digits + [','] + value;
    assert forall i :: 0 <= i < |digits| ==> digits[i] != ',';
    UpToJoin(digits, ',', value);
    assert line[0] != ',';
    ParseLongOfLongToString(ts);
  }

  /** Every sample of the series has a readable timestamp. */
  predicate WellFormed(lines: seq<Line>) {
    forall i :: 0 <= i < |lines| ==> TimestampOf(lines[i]).Ok?
  }

  /** Timestamps strictly increase along the series: no sample is repeated or out of order. */
  predicate Increasing(lines: seq<Line>) {
    && WellFormed(lines)
    && forall i, j :: 0 <= i < j < |lines| ==> TimestampOf(lines[i]).value < TimestampOf(lines[j]).value
  }

  /** `appendData(newTpsList, oldTpsList)`: the persisted series `oldList` is kept in front of the
      in-memory series `newList` only when it ends strictly before `newList` starts; otherwise the
      in-memory series alone survives. Reading a timestamp may throw. */
  function AppendData(newList: seq<Line>, oldList: seq<Line>): (r: Result<seq<Line>>)
    ensures |newList| == 0 ==> r == Ok(oldList)
    ensures |newList| > 0 && |oldList| == 0 ==> r == Ok(newList)
    ensures r.Ok? ==> r.value == newList || r.value == oldList + newList
    ensures r.Err? <==>
      && |newList| > 0 && |oldList| > 0
      && (TimestampOf(oldList[|oldList| - 1]).Err? || TimestampOf(newList[0]).Err?)
    ensures |newList| > 0 && |oldList| > 0 && r.Ok? ==>
      (r.value == oldList + newList <==>
         TimestampOf(oldList[|oldList| - 1]).value < TimestampOf(newList[0]).value)
  {
    if |newList| == 0 then Ok(oldList)
    else if |oldList| == 0 then Ok(newList)
    else
      var oldLast :- TimestampOf(oldList[|oldList| - 1]);
      var newFirst :- TimestampOf(newList[0]);
      if oldLast < newFirst then Ok(oldList + newList) else Ok(newList)
  }

  /** Two increasing series, the first ending before the second starts, form an increasing series. */
  lemma ConcatIncreasing(a: seq<Line>, b: seq<Line>)
    requires Increasing(a) && Increasing(b) && |a| > 0 && |b| > 0
    requires TimestampOf(a[|a| - 1]).value < TimestampOf(b[0]).value
    ensures Increasing(a + b)
  {
    var r := a + b;
    var last := TimestampOf(a[|a| - 1]).value;
    var first := TimestampOf(b[0]).value;
    forall i | 0 <= i < |r|
      ensures TimestampOf(r[i]).Ok?
    {
      if i < |a| {
        assert r[i] == a[i];
      } else {
        assert r[i] == b[i - |a|];
      }
    }
    forall i, j | 0 <= i < j < |r|
      ensures TimestampOf(r[i]).value < TimestampOf(r[j]).value
    {
      if j < |a| {
        assert r[i] == a[i] && r[j] == a[j];
      } else if |a| <= i {
        assert r[i] == b[i - |a|] && r[j] == b[j - |a|];
      } else {
        assert r[i] == a[i] && r[j] == b[j - |a|];
        assert TimestampOf(a[i]).value <= last by {
          if i < |a| - 1 {
            assert TimestampOf(a[i]).value < TimestampOf(a[|a| - 1]).value;
          }
        }
        assert first <= TimestampOf(b[j - |a|]).value by {
          if j - |a| > 0 {
            assert TimestampOf(b[0]).value < TimestampOf(b[j - |a|]).value;
          }
        }
      }
    }
  }

  /** Merging two increasing series yields an increasing series: the merge never interleaves or
      duplicates samples. */
  lemma AppendDataKeepsIncreasing(newList: seq<Line>, oldList: seq<Line>)
    requires Increasing(newList) && Increasing(oldList)
    ensures AppendData(newList, oldList).Ok?
    ensures Increasing(AppendData(newList, oldList).value)
  {
    if |newList| > 0 && |oldList| > 0 {
      assert TimestampOf(oldList[|oldList| - 1]).Ok? && TimestampOf(newList[0]).Ok?;
      if TimestampOf(oldList[|oldList| - 1]).value < TimestampOf(newList[0]).value {
        ConcatIncreasing(oldList, newList);
      }
    }
  }

  /** Merging a series with itself changes nothing when it does not run backwards, so re-merging a
      file with identical memory content is harmless. */
  lemma AppendDataSelf(lines: seq<Line>)
    requires |lines| > 0 ==> && TimestampOf(lines[0]).Ok? && TimestampOf(lines[|lines| - 1]).Ok?
                             && TimestampOf(lines[0]).value <= TimestampOf(lines[|lines| - 1]).value
    ensures AppendData(lines, lines) == Ok(lines)
  {
  }

  /** An increasing series meets the condition of `AppendDataSelf`. */
  lemma IncreasingSelfMerge(lines: seq<Line>)
    requires Increasing(lines)
    ensures AppendData(lines, lines) == Ok(lines)
  {
    if |lines| > 1 {
      assert TimestampOf(lines[0]).value < TimestampOf(lines[|lines| - 1]).value;
    }
    AppendDataSelf(lines);
  }

  /** The disk history survives only as a prefix: the in-memory series always ends the result. */
  lemma AppendDataEndsWithMemory(newList: seq<Line>, oldList: seq<Line>)
    requires AppendData(newList, oldList).Ok?
    ensures var r := AppendData(newList, oldList).value;
      && |newList| <= |r|
      && r[|r| - |newList|..] == newList
      && (|r| == |oldList| + |newList| ==> r == oldList + newList)
  {
    var r := AppendData(newList, oldList).value;
    if r == oldList + newList {
      assert r[|r| - |newList|..] == newList;
    } else if r == newList {
      assert r[|r| - |newList|..] == newList;
    }
  }
}
