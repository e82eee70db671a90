/** `saveData`: the periodic persistence cycle. Once a day it empties both in-memory stores; each cycle
    it merges the broker store and the topic store into that day's two snapshot files. */
module Persist {
  import opened Results
  import opened Numerals
  import opened Series
  import opened Snapshot

  /** Snapshot files by path; a missing path is a file that does not exist. */
  type Disk = map<string, Store>

  /** What one cycle reads and changes: the broker store, the topic store, the day string of the
      current-date marker, and the files. */
  datatype State = State(broker: Store, topic: Store, marker: string, disk: Disk)

  /** The state after a cycle, and the exception that ended it early, if any. */
  datatype Saved = Saved(state: State, failure: Option<Failure>)

  /** `dataLocationPath + nowDateStr + ".json"`. */
  function BrokerFile(dir: string, day: string): (path: string)
    ensures dir <= path && |path| == |dir| + |day| + 5
    ensures path[|dir|..|dir| + |day|] == day && path[|dir| + |day|..] == ".json"
  {
    dir + day + ".json"
  }

  /** `dataLocationPath + nowDateStr + "_topic" + ".json"`, never the same day's broker file. */
  function TopicFile(dir: string, day: string): (path: string)
    ensures path != BrokerFile(dir, day)
  {
    dir + day + "_topic" + ".json"
  }

  /** Days map to distinct broker files. */
  lemma BrokerFileInjective(dir: string, d1: string, d2: string)
    ensures BrokerFile(dir, d1) == BrokerFile(dir, d2) <==> d1 == d2
  {
    if BrokerFile(dir, d1) == BrokerFile(dir, d2) {
      assert |d1| == |d2|;
      assert d1 == BrokerFile(dir, d1)[|dir|..|dir| + |d1|];
      assert d2 == BrokerFile(dir, d2)[|dir|..|dir| + |d2|];
    }
  }

  /** A broker file is a topic file only for a day string that itself ends in "_topic"; day strings of
      one fixed length, as a date format yields, never collide. */
  lemma BrokerFileIsTopicFile(dir: string, d1: string, d2: string)
    ensures BrokerFile(dir, d1) == TopicFile(dir, d2) <==> d1 == d2 + "_topic"
  {
    if BrokerFile(dir, d1) == TopicFile(dir, d2) {
      assert |d1| == |d2| + 6;
      assert d1 == BrokerFile(dir, d1)[|dir|..|dir| + |d1|];
      assert TopicFile(dir, d2) == dir + (d2 + "_topic") + ".json";
      assert d2 + "_topic" == TopicFile(dir, d2)[|dir|..|dir| + |d1|];
    }
  }

  /** `jsonDataFile2map` of an existing file, or a fresh empty map when there is none. */
  function Load(disk: Disk, path: string): (m: Store)
    ensures path in disk ==> m == disk[path]
    ensures path !in disk ==> m == map[]
  {
    if path in disk then disk[path] else map[]
  }

  /** `a` and `b` hold the same file at `path`, or both lack it. */
  predicate SameFile(a: Disk, b: Disk, path: string) {
    (path in a <==> path in b) && (path in a ==> a[path] == b[path])
  }

  lemma SameDiskEverywhere(a: Disk, b: Disk)
    requires forall p :: SameFile(a, b, p)
    ensures a == b
  {
    assert a.Keys == b.Keys by {
      forall p | p in a ensures p in b { assert SameFile(a, b, p); }
      forall p | p in b ensures p in a { assert SameFile(a, b, p); }
    }
    forall p | p in a ensures a[p] == b[p] { assert SameFile(a, b, p); }
  }

  /** The daily reset (lines 173-179): on a new day both stores are emptied and the marker moves to it;
      on the same day nothing changes. */
  function RolledOver(st: State, today: string): (s: State)
    ensures s.marker == today && s.disk == st.disk
    ensures st.marker == today ==> s == st
    ensures st.marker != today ==> s.broker == map[] && s.topic == map[]
  {
    if st.marker == today then st else State(map[], map[], today, st.disk)
  }

  /** Broker write, then topic write, from the rolled-over state `s0`: the first exception stops the
      cycle, and what was already back-filled or written stays. */
  function Finish(s0: State, brokerPath: string, topicPath: string, wb: Written, wt: Written): Saved {
    if wb.outcome.Err? then Saved(s0.(broker := wb.memory), Some(wb.outcome.error))
    else
      var disk := s0.disk[brokerPath := wb.outcome.value];
      if wt.outcome.Err? then Saved(State(wb.memory, wt.memory, s0.marker, disk), Some(wt.outcome.error))
      else Saved(State(wb.memory, wt.memory, s0.marker, disk[topicPath := wt.outcome.value]), None)
  }

  /** How the two writes decide the cycle's outcome; the two files are distinct. */
  lemma FinishFacts(s0: State, brokerPath: string, topicPath: string, wb: Written, wt: Written)
    requires brokerPath != topicPath
    ensures var r := Finish(s0, brokerPath, topicPath, wb, wt);
      && r.state.marker == s0.marker
      && (forall p :: p != brokerPath && p != topicPath ==> SameFile(s0.disk, r.state.disk, p))
      && (r.failure.None? <==> wb.outcome.Ok? && wt.outcome.Ok?)
      && (wb.outcome.Err? ==> r.state.disk == s0.disk && r.state.topic == s0.topic && r.failure == Some(wb.outcome.error))
      && (wb.outcome.Ok? ==> r.state.broker == wb.memory && brokerPath in r.state.disk && r.state.disk[brokerPath] == wb.outcome.value)
      && (wb.outcome.Ok? && wt.outcome.Err? ==>
            r.state.disk == s0.disk[brokerPath := wb.outcome.value] && r.failure == Some(wt.outcome.error))
      && (wb.outcome.Ok? && wt.outcome.Ok? ==>
            r.state.topic == wt.memory && topicPath in r.state.disk && r.state.disk[topicPath] == wt.outcome.value)
  {
  }

  /** The keys of today's broker and topic files are enumerated by the two iteration orders. */
  ghost predicate OrdersFit(st: State, today: string, dir: string, brokerOrder: seq<string>, topicOrder: seq<string>) {
    && Enumerates(brokerOrder, Load(st.disk, BrokerFile(dir, today)).Keys)
    && Enumerates(topicOrder, Load(st.disk, TopicFile(dir, today)).Keys)
  }

  /** The cycle stopped with an exception raised by merging some key of `file` into `mem`. */
  predicate RaisedBy(mem: Store, file: Store, failure: Option<Failure>) {
    failure.Some? && exists k :: k in file && AppendData(Get(mem, k), file[k]) == Err(failure.value)
  }

  /** `saveData` for the day string `today` and the data directory `dir`; `policy` chooses the back-fill
      of `writeFile` (`OnlyEmpty` as written). Both files are read before either is written. On success
      each of today's files holds the reference merge of its store with the file's former content;
      a failed merge leaves that file as it was and skips whatever follows. */
  function SaveData(policy: BackFill, enabled: bool, st: State, today: string, dir: string,
                    brokerOrder: seq<string>, topicOrder: seq<string>): (r: Saved)
    requires enabled ==> OrdersFit(st, today, dir, brokerOrder, topicOrder)
    ensures !enabled ==> r == Saved(st, None)
    ensures enabled ==> r.state.marker == today
    ensures enabled ==> forall p :: p != BrokerFile(dir, today) && p != TopicFile(dir, today) ==> SameFile(st.disk, r.state.disk, p)
    ensures enabled ==>
      var s0 := RolledOver(st, today);
      var brokerPath := BrokerFile(dir, today);
      var brokerFile := Load(st.disk, brokerPath);
      var topicFile := Load(st.disk, TopicFile(dir, today));
      && (r.failure.None? <==> Mergeable(s0.broker, brokerFile) && Mergeable(s0.topic, topicFile))
      && (!Mergeable(s0.broker, brokerFile) ==>
            r.state.disk == st.disk && r.state.topic == s0.topic && RaisedBy(s0.broker, brokerFile, r.failure))
      && (Mergeable(s0.broker, brokerFile) ==>
            && r.state.broker == Refilled(policy, s0.broker, brokerFile)
            && brokerPath in r.state.disk && r.state.disk[brokerPath] == Merged(s0.broker, brokerFile))
      && (Mergeable(s0.broker, brokerFile) && !Mergeable(s0.topic, topicFile) ==>
            r.state.disk == st.disk[brokerPath := Merged(s0.broker, brokerFile)] && RaisedBy(s0.topic, topicFile, r.failure))
    ensures enabled && r.failure.None? ==>
      var s0 := RolledOver(st, today);
      var topicPath := TopicFile(dir, today);
      var topicFile := Load(st.disk, topicPath);
      r.state.topic == Refilled(policy, s0.topic, topicFile)
      && topicPath in r.state.disk && r.state.disk[topicPath] == Merged(s0.topic, topicFile)
  {
    if !enabled then Saved(st, None)
    else
      var s0 := RolledOver(st, today);
      var brokerPath := BrokerFile(dir, today);
      var topicPath := TopicFile(dir, today);
      var wb := WriteStore(policy, s0.broker, Load(s0.disk, brokerPath), brokerOrder);
      var wt := WriteStore(policy, s0.topic, Load(s0.disk, topicPath), topicOrder);
      FinishFacts(s0, brokerPath, topicPath, wb, wt);
      Finish(s0, brokerPath, topicPath, wb, wt)
  }

  /** On a new day the cycle's outcome does not depend on the series held in memory before it. */
  lemma RolloverForgetsMemory(policy: BackFill, st1: State, st2: State, today: string, dir: string,
                              brokerOrder: seq<string>, topicOrder: seq<string>)
    requires st1.disk == st2.disk && st1.marker != today && st2.marker != today
    requires OrdersFit(st1, today, dir, brokerOrder, topicOrder)
    ensures SaveData(policy, true, st1, today, dir, brokerOrder, topicOrder)
         == SaveData(policy, true, st2, today, dir, brokerOrder, topicOrder)
  {
    assert RolledOver(st1, today) == RolledOver(st2, today);
  }

  lemma MergeIntoEmpty(file: Store)
    ensures Mergeable(map[], file)
    ensures Merged(map[], file) == file && BackFilled(map[], file) == file
  {
    forall k
      ensures SameAt(Merged(map[], file), file, k) && SameAt(BackFilled(map[], file), file, k)
    {
    }
    SameEverywhere(Merged(map[], file), file);
    SameEverywhere(BackFilled(map[], file), file);
  }

  /** The first cycle of a day never fails: it reloads today's files (empty when missing) into the
      emptied stores and writes them back unchanged. */
  lemma NewDayStartsFromFiles(policy: BackFill, st: State, today: string, dir: string,
                              brokerOrder: seq<string>, topicOrder: seq<string>)
    requires st.marker != today
    requires OrdersFit(st, today, dir, brokerOrder, topicOrder)
    ensures var brokerFile := Load(st.disk, BrokerFile(dir, today));
      var topicFile := Load(st.disk, TopicFile(dir, today));
      SaveData(policy, true, st, today, dir, brokerOrder, topicOrder)
        == Saved(State(brokerFile, topicFile, today,
                       st.disk[BrokerFile(dir, today) := brokerFile][TopicFile(dir, today) := topicFile]), None)
  {
    var brokerFile := Load(st.disk, BrokerFile(dir, today));
    var topicFile := Load(st.disk, TopicFile(dir, today));
    MergeIntoEmpty(brokerFile);
    MergeIntoEmpty(topicFile);
    var r := SaveData(policy, true, st, today, dir, brokerOrder, topicOrder);
    var d := st.disk[BrokerFile(dir, today) := brokerFile][TopicFile(dir, today) := topicFile];
    forall p ensures SameFile(r.state.disk, d, p) {
      if p != BrokerFile(dir, today) && p != TopicFile(dir, today) {
        assert SameFile(st.disk, r.state.disk, p);
      }
    }
    SameDiskEverywhere(r.state.disk, d);
  }

  /** The sample texts of the counterexample below. */
  lemma SampleTimestamps()
    ensures TimestampOf("100,5.0") == Ok(100) && TimestampOf("200,7.0") == Ok(200)
  {
    assert LongToString(100) == "100" by {
      assert NatDigits(10) == "10";
    }
    assert LongToString(200) == "200" by {
      assert NatDigits(20) == "20";
    }
    assert FormatSample(100, "5.0") == "100,5.0";
    assert FormatSample(200, "7.0") == "200,7.0";
    TimestampOfFormatSample(100, "5.0");
    TimestampOfFormatSample(200, "7.0");
  }

  /** The two merges of the counterexample below: the first keeps the file's sample in front, the
      second, where the file ends at the cache's first timestamp, keeps only the cache's. */
  lemma CounterexampleMerges()
    ensures AppendData(["200,7.0"], ["100,5.0"]) == Ok(["100,5.0", "200,7.0"])
    ensures AppendData(["200,7.0"], ["100,5.0", "200,7.0"]) == Ok(["200,7.0"])
  {
    SampleTimestamps();
    FirstMergeKeepsFile("100,5.0", "200,7.0");
    SecondMergeDropsFile("100,5.0", "200,7.0");
  }

  lemma FirstMergeKeepsFile(early: Line, late: Line)
    requires TimestampOf(early) == Ok(100) && TimestampOf(late) == Ok(200)
    ensures AppendData([late], [early]) == Ok([early, late])
  {
    var file, mem := [early], [late];
    assert file[|file| - 1] == early && mem[0] == late;
    assert TimestampOf(early).value < TimestampOf(late).value;
    assert file + mem == [early, late];
  }

  lemma SecondMergeDropsFile(early: Line, late: Line)
    requires TimestampOf(late) == Ok(200)
    ensures AppendData([late], [early, late]) == Ok([late])
  {
    var file := [early, late];
    assert file[|file| - 1] == late;
  }

  /** Merging single-key stores is merging their series. */
  lemma MergeOneKey(key: string, mem: seq<Line>, file: seq<Line>, merged: seq<Line>)
    requires AppendData(mem, file) == Ok(merged)
    ensures Mergeable(map[key := mem], map[key := file])
    ensures Merged(map[key := mem], map[key := file]) == map[key := merged]
    ensures |mem| > 0 ==> BackFilled(map[key := mem], map[key := file]) == map[key := mem]
  {
    var m := map[key := mem];
    var f := map[key := file];
    assert Mergeable(m, f);
    forall k
      ensures SameAt(Merged(m, f), map[key := merged], k)
      ensures |mem| > 0 ==> SameAt(BackFilled(m, f), m, k)
    {
    }
    SameEverywhere(Merged(m, f), map[key := merged]);
    if |mem| > 0 {
      SameEverywhere(BackFilled(m, f), m);
    }
  }

  /** As written, a second save on the same day loses the history the first one kept: the file held a
      sample at 100, the cache one at 200; the first cycle writes both, but the cache is not
      back-filled because it was not empty, so the second cycle finds the file ending at 200 where the
      cache starts and keeps only the cache's series. */
  lemma SecondCycleLosesHistory()
    ensures var dir := "data/";
      var today := "2024-01-01";
      var brokerPath := BrokerFile(dir, today);
      var st := State(map["k" := ["200,7.0"]], map[], today, map[brokerPath := map["k" := ["100,5.0"]]]);
      var r1 := SaveData(OnlyEmpty, true, st, today, dir, ["k"], []);
      && r1.failure.None?
      && brokerPath in r1.state.disk && r1.state.disk[brokerPath] == map["k" := ["100,5.0", "200,7.0"]]
      && OrdersFit(r1.state, today, dir, ["k"], [])
      && var r2 := SaveData(OnlyEmpty, true, r1.state, today, dir, ["k"], []);
        r2.failure.None? && brokerPath in r2.state.disk && r2.state.disk[brokerPath] == map["k" := ["200,7.0"]]
  {
    CounterexampleMerges();
    TwoSaves("data/", "2024-01-01", "k", "100,5.0", "200,7.0");
  }

  /** The counterexample for any two samples whose timestamps increase. */
  lemma TwoSaves(dir: string, today: string, key: string, early: Line, late: Line)
    requires AppendData([late], [early]) == Ok([early, late])
    requires AppendData([late], [early, late]) == Ok([late])
    ensures var brokerPath := BrokerFile(dir, today);
      var st := State(map[key := [late]], map[], today, map[brokerPath := map[key := [early]]]);
      var r1 := SaveData(OnlyEmpty, true, st, today, dir, [key], []);
      && r1.failure.None?
      && brokerPath in r1.state.disk && r1.state.disk[brokerPath] == map[key := [early, late]]
      && OrdersFit(r1.state, today, dir, [key], [])
      && var r2 := SaveData(OnlyEmpty, true, r1.state, today, dir, [key], []);
        r2.failure.None? && brokerPath in r2.state.disk && r2.state.disk[brokerPath] == map[key := [late]]
  {
    var brokerPath := BrokerFile(dir, today);
    var topicPath := TopicFile(dir, today);
    var disk: Disk := map[brokerPath := map[key := [early]]];
    var st := State(map[key := [late]], map[], today, disk);
    SameDaySave(dir, today, key, [late], [early], [early, late], disk);
    var r1 := SaveData(OnlyEmpty, true, st, today, dir, [key], []);
    var disk1 := disk[brokerPath := map[key := [early, late]]][topicPath := map[]];
    assert r1.state == State(map[key := [late]], map[], today, disk1);
    assert Load(disk1, brokerPath) == map[key := [early, late]];
    SameDaySave(dir, today, key, [late], [early, late], [late], disk1);
  }

  /** A same-day save of a one-key broker store over a one-key broker file and no topic file: it
      writes the merge, writes an empty topic file, and keeps the non-empty cache as it was. */
  lemma SameDaySave(dir: string, today: string, key: string, mem: seq<Line>, file: seq<Line>, merged: seq<Line>,
                    disk: Disk)
    requires |mem| > 0 && AppendData(mem, file) == Ok(merged)
    requires Load(disk, BrokerFile(dir, today)) == map[key := file] && Load(disk, TopicFile(dir, today)) == map[]
    ensures var st := State(map[key := mem], map[], today, disk);
      && OrdersFit(st, today, dir, [key], [])
      && SaveData(OnlyEmpty, true, st, today, dir, [key], [])
           == Saved(State(map[key := mem], map[], today,
                          disk[BrokerFile(dir, today) := map[key := merged]][TopicFile(dir, today) := map[]]), None)
  {
    var brokerPath := BrokerFile(dir, today);
    var topicPath := TopicFile(dir, today);
    var st := State(map[key := mem], map[], today, disk);
    MergeOneKey(key, mem, file, merged);
    MergeIntoEmpty(map[]);
    assert OrdersFit(st, today, dir, [key], []);
    var r := SaveData(OnlyEmpty, true, st, today, dir, [key], []);
    var d := disk[brokerPath := map[key := merged]][topicPath := map[]];
    forall p ensures SameFile(r.state.disk, d, p) {
      if p != brokerPath && p != topicPath {
        assert SameFile(st.disk, r.state.disk, p);
      }
    }
    SameDiskEverywhere(r.state.disk, d);
  }

  /** With the corrected back-fill, a second save on the same day with no new samples changes nothing,
      whatever the stores and files hold, provided their series run forward in time. */
  lemma CorrectedCycleIdempotent(st: State, today: string, dir: string,
                                 brokerOrder: seq<string>, topicOrder: seq<string>,
                                 brokerAgain: seq<string>, topicAgain: seq<string>)
    requires AllIncreasing(st.broker) && AllIncreasing(st.topic)
    requires AllIncreasing(Load(st.disk, BrokerFile(dir, today))) && AllIncreasing(Load(st.disk, TopicFile(dir, today)))
    requires OrdersFit(st, today, dir, brokerOrder, topicOrder)
    requires OrdersFit(SaveData(Always, true, st, today, dir, brokerOrder, topicOrder).state, today, dir, brokerAgain, topicAgain)
    ensures var r1 := SaveData(Always, true, st, today, dir, brokerOrder, topicOrder);
      && r1.failure.None?
      && SaveData(Always, true, r1.state, today, dir, brokerAgain, topicAgain) == r1
  {
    var s0 := RolledOver(st, today);
    var brokerPath := BrokerFile(dir, today);
    var topicPath := TopicFile(dir, today);
    var brokerFile := Load(st.disk, brokerPath);
    var topicFile := Load(st.disk, topicPath);
    assert AllIncreasing(s0.broker) && AllIncreasing(s0.topic);
    MergedIncreasing(s0.broker, brokerFile);
    MergedIncreasing(s0.topic, topicFile);
    var mb := Merged(s0.broker, brokerFile);
    var mt := Merged(s0.topic, topicFile);
    MergedSelf(mb);
    MergedSelf(mt);
    var r1 := SaveData(Always, true, st, today, dir, brokerOrder, topicOrder);
    assert r1.state.broker == mb && r1.state.topic == mt && r1.state.marker == today;
    assert Load(r1.state.disk, brokerPath) == mb && Load(r1.state.disk, topicPath) == mt;
    var r2 := SaveData(Always, true, r1.state, today, dir, brokerAgain, topicAgain);
    assert RolledOver(r1.state, today) == r1.state;
    assert r2.failure.None? && r2.state.broker == mb && r2.state.topic == mt;
    forall p ensures SameFile(r2.state.disk, r1.state.disk, p) {
      if p != brokerPath && p != topicPath {
        assert SameFile(r1.state.disk, r2.state.disk, p);
      }
    }
    SameDiskEverywhere(r2.state.disk, r1.state.disk);
  }
}
