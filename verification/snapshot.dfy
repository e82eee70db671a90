/** `writeFile`: merging one in-memory store (a key -> series cache) with the snapshot map read from
    that day's file, producing the map written back and back-filling the cache. */
module Snapshot {
  import opened Results
  import opened Series

  /** A key -> series map: the cache's `asMap()` view, or the decoded content of a snapshot file. */
  type Store = map<string, seq<Line>>

  /** Lookup where an absent key reads as an empty series (`get` returning null is treated like an
      empty list throughout the merge). */
  function Get(m: Store, k: string): seq<Line> {
    if k in m then m[k] else []
  }

  /** `a` and `b` agree at `k`: both lack it, or both map it to the same series. */
  predicate SameAt(a: Store, b: Store, k: string) {
    (k in a <==> k in b) && (k in a ==> a[k] == b[k])
  }

  /** `order` lists every key of `keys` exactly once: a HashMap's iteration order. */
  ghost predicate Enumerates(order: seq<string>, keys: set<string>) {
    && (forall i, j :: 0 <= i < j < |order| ==> order[i] != order[j])
    && (forall k :: k in order <==> k in keys)
  }

  /** No key's merge throws: every timestamp `appendData` reads is a readable long. */
  predicate Mergeable(mem: Store, file: Store) {
    forall k :: k in file ==> AppendData(Get(mem, k), file[k]).Ok?
  }

  /** Reference result of a merge, key by key, computed from a snapshot of the memory store. */
  function Merged(mem: Store, file: Store): (r: Store)
    requires Mergeable(mem, file)
    ensures r.Keys == mem.Keys + file.Keys
    ensures forall k :: k in file && Get(mem, k) == [] ==> r[k] == file[k]
    ensures forall k :: k in mem && Get(file, k) == [] ==> r[k] == mem[k]
    ensures forall k :: k in r ==> AppendData(Get(mem, k), Get(file, k)) == Ok(r[k])
  {
    map k | k in mem.Keys + file.Keys :: if k in file then AppendData(Get(mem, k), file[k]).value else mem[k]
  }

  /** Reference back-fill: every file key whose in-memory series is empty or absent takes the file's
      series; nothing else changes. */
  function BackFilled(mem: Store, file: Store): (r: Store)
    ensures forall k :: k in file && Get(mem, k) == [] ==> k in r && r[k] == file[k]
    ensures forall k :: !(k in file && Get(mem, k) == []) ==> SameAt(mem, r, k)
  {
    mem + map k | k in file && Get(mem, k) == [] :: file[k]
  }

  /** Which file keys the first loop of `writeFile` writes back into the cache. */
  datatype BackFill =
    | OnlyEmpty  // as written: only keys whose in-memory series is empty or absent (line 224)
    | Always     // every file key

  predicate BackFills(policy: BackFill, newList: seq<Line>) {
    policy == Always || newList == []
  }

  /** The map a `writeFile` call would write, or the exception that stops it; and the cache after it. */
  datatype Written = Written(outcome: Result<Store>, memory: Store)

  /** The loop over the file's entries (lines 220-227) in iteration order `order`. `live` is the
      cache's live view, so a back-fill is visible to later lookups; `acc` is the result map so far. */
  function FileLoop(policy: BackFill, live: Store, file: Store, order: seq<string>, acc: Store): (w: Written)
    requires forall i :: 0 <= i < |order| ==> order[i] in file
    ensures w.outcome.Ok? ==> acc.Keys <= w.outcome.value.Keys
    decreases |order|
  {
    if |order| == 0 then Written(Ok(acc), live)
    else
      var k := order[0];
      var newList := Get(live, k);
      match AppendData(newList, file[k])
      case Err(e) => Written(Err(e), live)
      case Ok(merged) =>
        var live' := if BackFills(policy, newList) then live[k := merged] else live;
        FileLoop(policy, live', file, order[1..], acc[k := merged])
  }

  /** `order` lists distinct keys of `file`. */
  ghost predicate DistinctKeysOf(order: seq<string>, file: Store) {
    && (forall i :: 0 <= i < |order| ==> order[i] in file)
    && (forall i, j :: 0 <= i < j < |order| ==> order[i] != order[j])
  }

  lemma StepPreservesLaterKeys(policy: BackFill, live: Store, file: Store, order: seq<string>, merged: seq<Line>)
    requires |order| > 0 && DistinctKeysOf(order, file)
    ensures DistinctKeysOf(order[1..], file)
    ensures var live' := if BackFills(policy, Get(live, order[0])) then live[order[0] := merged] else live;
      forall k :: k in order[1..] ==> k != order[0] && SameAt(live, live', k)
  {
    forall k | k in order[1..]
      ensures k != order[0]
    {
      var i :| 0 <= i < |order[1..]| && order[1..][i] == k;
      assert order[i + 1] == k;
    }
  }

  /** The loop throws exactly when some visited key's merge throws, and then with that key's error. */
  lemma {:induction false} FileLoopOutcome(policy: BackFill, live: Store, file: Store, order: seq<string>, acc: Store)
    requires DistinctKeysOf(order, file)
    ensures var w := FileLoop(policy, live, file, order, acc);
      && (w.outcome.Ok? <==> forall k :: k in order ==> AppendData(Get(live, k), file[k]).Ok?)
      && (w.outcome.Err? ==> exists k :: k in order && AppendData(Get(live, k), file[k]) == Err(w.outcome.error))
    decreases |order|
  {
    if |order| > 0 {
      var k := order[0];
      var m := AppendData(Get(live, k), file[k]);
      if m.Ok? {
        var live' := if BackFills(policy, Get(live, k)) then live[k := m.value] else live;
        StepPreservesLaterKeys(policy, live, file, order, m.value);
        FileLoopOutcome(policy, live', file, order[1..], acc[k := m.value]);
        assert forall k' :: k' in order ==> k' == k || k' in order[1..];
      }
    }
  }

  /** On success the loop adds exactly the visited keys to the result map. */
  lemma {:induction false} FileLoopKeys(policy: BackFill, live: Store, file: Store, order: seq<string>, acc: Store)
    requires DistinctKeysOf(order, file)
    ensures var w := FileLoop(policy, live, file, order, acc);
      w.outcome.Ok? ==>
        && w.outcome.value.Keys == acc.Keys + (set k | k in order)
        && (forall k :: k in acc && k !in order ==> w.outcome.value[k] == acc[k])
    decreases |order|
  {
    if |order| > 0 {
      var k := order[0];
      var m := AppendData(Get(live, k), file[k]);
      if m.Ok? {
        var live' := if BackFills(policy, Get(live, k)) then live[k := m.value] else live;
        StepPreservesLaterKeys(policy, live, file, order, m.value);
        var rest := order[1..];
        FileLoopKeys(policy, live', file, rest, acc[k := m.value]);
        assert forall k' :: k' in order <==> k' == k || k' in rest;
      }
    }
  }

  /** On success the loop maps each visited key to the merge of its live series with its file series. */
  lemma {:induction false} FileLoopResult(policy: BackFill, live: Store, file: Store, order: seq<string>, acc: Store)
    requires DistinctKeysOf(order, file)
    ensures var w := FileLoop(policy, live, file, order, acc);
      w.outcome.Ok? ==>
        && w.outcome.value.Keys == acc.Keys + (set k | k in order)
        && (forall k :: k in order ==> AppendData(Get(live, k), file[k]) == Ok(w.outcome.value[k]))
    decreases |order|
  {
    FileLoopKeys(policy, live, file, order, acc);
    if |order| > 0 {
      var k := order[0];
      var m := AppendData(Get(live, k), file[k]);
      if m.Ok? {
        var live' := if BackFills(policy, Get(live, k)) then live[k := m.value] else live;
        StepPreservesLaterKeys(policy, live, file, order, m.value);
        var rest := order[1..];
        var acc' := acc[k := m.value];
        var w := FileLoop(policy, live, file, order, acc);
        assert w == FileLoop(policy, live', file, rest, acc');
        FileLoopResult(policy, live', file, rest, acc');
        FileLoopKeys(policy, live', file, rest, acc');
        if w.outcome.Ok? {
          var r := w.outcome.value;
          forall k' | k' in order
            ensures AppendData(Get(live, k'), file[k']) == Ok(r[k'])
          {
            if k' == k {
              assert k !in rest;
            } else {
              assert k' in rest;
              assert Get(live', k') == Get(live, k');
            }
          }
        }
      }
    }
  }

  /** The loop's effect on the cache: unvisited keys keep their series; a visited key keeps its series
      unless the policy back-fills it, and then holds its merge. */
  lemma {:induction false} FileLoopMemory(policy: BackFill, live: Store, file: Store, order: seq<string>, acc: Store)
    requires DistinctKeysOf(order, file)
    ensures var w := FileLoop(policy, live, file, order, acc);
      && (forall k :: k !in order ==> SameAt(live, w.memory, k))
      && (forall k :: k in order ==>
            || SameAt(live, w.memory, k)
            || (BackFills(policy, Get(live, k)) && k in w.memory && AppendData(Get(live, k), file[k]) == Ok(w.memory[k])))
      && (w.outcome.Ok? ==> forall k :: k in order && BackFills(policy, Get(live, k)) ==>
            k in w.memory && AppendData(Get(live, k), file[k]) == Ok(w.memory[k]))
    decreases |order|
  {
    if |order| > 0 {
      var k := order[0];
      var m := AppendData(Get(live, k), file[k]);
      if m.Ok? {
        var live' := if BackFills(policy, Get(live, k)) then live[k := m.value] else live;
        StepPreservesLaterKeys(policy, live, file, order, m.value);
        var rest := order[1..];
        var acc' := acc[k := m.value];
        var w := FileLoop(policy, live, file, order, acc);
        assert w == FileLoop(policy, live', file, rest, acc');
        FileLoopMemory(policy, live', file, rest, acc');
        assert k !in rest;
        assert SameAt(live', w.memory, k);
        forall k' | k' !in order
          ensures SameAt(live, w.memory, k')
        {
          assert k' != k && k' !in rest;
        }
        forall k' | k' in order
          ensures || SameAt(live, w.memory, k')
                  || (BackFills(policy, Get(live, k')) && k' in w.memory && AppendData(Get(live, k'), file[k']) == Ok(w.memory[k']))
          ensures w.outcome.Ok? && BackFills(policy, Get(live, k')) ==>
            k' in w.memory && AppendData(Get(live, k'), file[k']) == Ok(w.memory[k'])
        {
          if k' != k {
            assert k' in rest;
            assert SameAt(live, live', k');
          }
        }
      }
    }
  }

  /** `writeFile` with a back-fill policy: an empty file map is replaced by the cache content; otherwise
      the file loop runs, then every cache key whose file series is empty or absent overrides the
      result with its cache series (lines 229-234, over the live view). */
  function WriteWith(policy: BackFill, mem: Store, file: Store, order: seq<string>): (w: Written)
    requires Enumerates(order, file.Keys)
  {
    if |file| == 0 then Written(Ok(mem), mem)
    else
      var first := FileLoop(policy, mem, file, order, map[]);
      if first.outcome.Err? then first
      else
        Written(Ok(Override(first.outcome.value, first.memory, file)), first.memory)
  }

  /** The loop at lines 229-234: each cache key whose file series is empty or absent takes its cache
      series in the result. */
  function Override(result: Store, live: Store, file: Store): Store {
    result + map k | k in live && Get(file, k) == [] :: live[k]
  }

  /** One key of the override step agrees with the reference merge. */
  lemma OverrideAt(mem: Store, file: Store, first: Store, k: string)
    requires Mergeable(mem, file)
    requires first.Keys == file.Keys
    requires forall k :: k in file ==> AppendData(Get(mem, k), file[k]) == Ok(first[k])
    ensures SameAt(Override(first, BackFilled(mem, file), file), Merged(mem, file), k)
  {
    var live := BackFilled(mem, file);
    var r := Override(first, live, file);
    if k in file {
      if Get(file, k) == [] {
        assert k in live;
        assert r[k] == live[k];
      }
    } else if k in mem {
      assert k in live && live[k] == mem[k];
    }
  }

  lemma SameEverywhere(a: Store, b: Store)
    requires forall k :: SameAt(a, b, k)
    ensures a == b
  {
    assert a.Keys == b.Keys by {
      forall k | k in a.Keys ensures k in b.Keys { assert SameAt(a, b, k); }
      forall k | k in b.Keys ensures k in a.Keys { assert SameAt(a, b, k); }
    }
    forall k | k in a ensures a[k] == b[k] { assert SameAt(a, b, k); }
  }

  /** With an empty file map, `writeFile` writes the cache content and back-fills nothing. */
  lemma WriteEmptyFile(policy: BackFill, mem: Store, file: Store, order: seq<string>)
    requires Enumerates(order, file.Keys) && |file| == 0
    ensures Mergeable(mem, file)
    ensures WriteWith(policy, mem, file, order) == Written(Ok(mem), mem)
    ensures Merged(mem, file) == mem && BackFilled(mem, file) == mem
  {
    assert file == map[];
    forall k ensures SameAt(mem, Merged(mem, file), k) { }
    SameEverywhere(mem, Merged(mem, file));
    forall k ensures SameAt(mem, BackFilled(mem, file), k) { }
    SameEverywhere(mem, BackFilled(mem, file));
  }

  /** `writeFile` throws exactly when some key's merge throws. */
  lemma WriteWithOutcome(policy: BackFill, mem: Store, file: Store, order: seq<string>)
    requires Enumerates(order, file.Keys)
    ensures var w := WriteWith(policy, mem, file, order);
      && (w.outcome.Ok? <==> Mergeable(mem, file))
      && (w.outcome.Err? ==> exists k :: k in file && AppendData(Get(mem, k), file[k]) == Err(w.outcome.error))
  {
    assert forall k :: k in order <==> k in file;
    if |file| == 0 {
      WriteEmptyFile(policy, mem, file, order);
    } else {
      FileLoopOutcome(policy, mem, file, order, map[]);
    }
  }

  /** On failure, `writeFile` as written has back-filled at most some empty cache entries. */
  lemma WriteWithOnlyEmptyPartialMemory(mem: Store, file: Store, order: seq<string>)
    requires Enumerates(order, file.Keys)
    ensures var w := WriteWith(OnlyEmpty, mem, file, order);
      forall k :: SameAt(mem, w.memory, k) || (k in file && Get(mem, k) == [] && k in w.memory && w.memory[k] == file[k])
  {
    assert forall k :: k in order <==> k in file;
    if |file| == 0 {
      WriteEmptyFile(OnlyEmpty, mem, file, order);
    } else {
      FileLoopMemory(OnlyEmpty, mem, file, order, map[]);
    }
  }

  /** On success the cache after `writeFile` as written is exactly the reference back-fill. */
  lemma WriteWithOnlyEmptyMemory(mem: Store, file: Store, order: seq<string>)
    requires Enumerates(order, file.Keys)
    requires Mergeable(mem, file)
    ensures WriteWith(OnlyEmpty, mem, file, order).memory == BackFilled(mem, file)
  {
    assert forall k :: k in order <==> k in file;
    if |file| == 0 {
      WriteEmptyFile(OnlyEmpty, mem, file, order);
    } else {
      var first := FileLoop(OnlyEmpty, mem, file, order, map[]);
      FileLoopOutcome(OnlyEmpty, mem, file, order, map[]);
      FileLoopMemory(OnlyEmpty, mem, file, order, map[]);
      var live := first.memory;
      var filled := BackFilled(mem, file);
      forall k
        ensures SameAt(live, filled, k)
      {
        if k in file && Get(mem, k) == [] {
          assert k in order && BackFills(OnlyEmpty, Get(mem, k));
        } else if k in file {
          assert k in order && !BackFills(OnlyEmpty, Get(mem, k));
        }
      }
      SameEverywhere(live, filled);
    }
  }

  /** A successful loop over a non-empty file map: what it adds, and how `writeFile` finishes from it. */
  lemma LoopSucceeds(policy: BackFill, mem: Store, file: Store, order: seq<string>)
    requires Enumerates(order, file.Keys)
    requires Mergeable(mem, file) && |file| > 0
    ensures var first := FileLoop(policy, mem, file, order, map[]);
      && first.outcome.Ok?
      && first.outcome.value.Keys == file.Keys
      && (forall k :: k in file ==> AppendData(Get(mem, k), file[k]) == Ok(first.outcome.value[k]))
      && WriteWith(policy, mem, file, order) == Written(Ok(Override(first.outcome.value, first.memory, file)), first.memory)
  {
    assert forall k :: k in order <==> k in file;
    FileLoopOutcome(policy, mem, file, order, map[]);
    FileLoopResult(policy, mem, file, order, map[]);
  }

  /** Overriding the loop's result from the back-filled cache gives the reference merge. */
  lemma OverrideBackFilled(mem: Store, file: Store, first: Store)
    requires Mergeable(mem, file)
    requires first.Keys == file.Keys
    requires forall k :: k in file ==> AppendData(Get(mem, k), file[k]) == Ok(first[k])
    ensures Override(first, BackFilled(mem, file), file) == Merged(mem, file)
  {
    forall k
      ensures SameAt(Override(first, BackFilled(mem, file), file), Merged(mem, file), k)
    {
      OverrideAt(mem, file, first, k);
    }
    SameEverywhere(Override(first, BackFilled(mem, file), file), Merged(mem, file));
  }

  /** The map `writeFile` as written produces on success is the reference merge. */
  lemma WriteWithOnlyEmptyResult(mem: Store, file: Store, order: seq<string>)
    requires Enumerates(order, file.Keys)
    requires Mergeable(mem, file)
    ensures var w := WriteWith(OnlyEmpty, mem, file, order);
      w.outcome.Ok? && w.outcome.value == Merged(mem, file)
  {
    if |file| == 0 {
      WriteEmptyFile(OnlyEmpty, mem, file, order);
    } else {
      var first := FileLoop(OnlyEmpty, mem, file, order, map[]);
      var filled := BackFilled(mem, file);
      assert WriteWith(OnlyEmpty, mem, file, order) == Written(Ok(Override(first.outcome.value, filled, file)), filled) by {
        LoopSucceeds(OnlyEmpty, mem, file, order);
        WriteWithOnlyEmptyMemory(mem, file, order);
      }
      assert Override(first.outcome.value, filled, file) == Merged(mem, file) by {
        LoopSucceeds(OnlyEmpty, mem, file, order);
        OverrideBackFilled(mem, file, first.outcome.value);
      }
    }
  }

  /** Everything `WriteFile` promises, stated of the loops it runs. */
  lemma WriteFileFacts(mem: Store, file: Store, order: seq<string>)
    requires Enumerates(order, file.Keys)
    ensures var w := WriteWith(OnlyEmpty, mem, file, order);
      && (w.outcome.Ok? <==> Mergeable(mem, file))
      && (w.outcome.Ok? ==> w.outcome.value == Merged(mem, file))
      && (w.outcome.Ok? ==> w.memory == BackFilled(mem, file))
      && (|file| == 0 ==> w == Written(Ok(mem), mem))
      && (w.outcome.Err? ==> exists k :: k in file && AppendData(Get(mem, k), file[k]) == Err(w.outcome.error))
      && (w.outcome.Err? ==> forall k :: SameAt(mem, w.memory, k) || (k in file && Get(mem, k) == [] && k in w.memory && w.memory[k] == file[k]))
  {
    WriteWithOutcome(OnlyEmpty, mem, file, order);
    WriteWithOnlyEmptyPartialMemory(mem, file, order);
    if Mergeable(mem, file) {
      WriteWithOnlyEmptyMemory(mem, file, order);
      WriteWithOnlyEmptyResult(mem, file, order);
    }
    if |file| == 0 {
      WriteEmptyFile(OnlyEmpty, mem, file, order);
    }
  }

  /** `writeFile` as written. On success it writes exactly the reference merge and leaves the cache
      back-filled, whatever the iteration order and although the loop reads the cache's live view;
      it fails exactly when some key's timestamps cannot be read, and then has only back-filled some
      empty cache entries. */
  function WriteFile(mem: Store, file: Store, order: seq<string>): (w: Written)
    requires Enumerates(order, file.Keys)
    ensures w.outcome.Ok? <==> Mergeable(mem, file)
    ensures w.outcome.Ok? ==> w.outcome.value == Merged(mem, file)
    ensures w.outcome.Ok? ==> w.memory == BackFilled(mem, file)
    ensures |file| == 0 ==> w == Written(Ok(mem), mem)
    ensures w.outcome.Err? ==> exists k :: k in file && AppendData(Get(mem, k), file[k]) == Err(w.outcome.error)
    ensures w.outcome.Err? ==> forall k :: SameAt(mem, w.memory, k) || (k in file && Get(mem, k) == [] && k in w.memory && w.memory[k] == file[k])
  {
    WriteFileFacts(mem, file, order);
    WriteWith(OnlyEmpty, mem, file, order)
  }

  /** One key of the override step agrees with the reference merge when the cache already holds it. */
  lemma OverrideMergedAt(mem: Store, file: Store, first: Store, k: string)
    requires Mergeable(mem, file)
    requires first.Keys == file.Keys
    requires forall k :: k in file ==> AppendData(Get(mem, k), file[k]) == Ok(first[k])
    ensures SameAt(Override(first, Merged(mem, file), file), Merged(mem, file), k)
  {
  }

  /** On success the cache after the corrected `writeFile` holds the reference merge. */
  lemma WriteWithAlwaysMemory(mem: Store, file: Store, order: seq<string>)
    requires Enumerates(order, file.Keys)
    requires Mergeable(mem, file)
    ensures WriteWith(Always, mem, file, order).memory == Merged(mem, file)
  {
    assert forall k :: k in order <==> k in file;
    if |file| == 0 {
      WriteEmptyFile(Always, mem, file, order);
    } else {
      var first := FileLoop(Always, mem, file, order, map[]);
      FileLoopOutcome(Always, mem, file, order, map[]);
      FileLoopMemory(Always, mem, file, order, map[]);
      var live := first.memory;
      var merged := Merged(mem, file);
      forall k
        ensures SameAt(live, merged, k)
      {
        if k in file {
          assert k in order && BackFills(Always, Get(mem, k));
        }
      }
      SameEverywhere(live, merged);
    }
  }

  /** Overriding the loop's result from a cache that already holds the merge changes nothing. */
  lemma OverrideMerged(mem: Store, file: Store, first: Store)
    requires Mergeable(mem, file)
    requires first.Keys == file.Keys
    requires forall k :: k in file ==> AppendData(Get(mem, k), file[k]) == Ok(first[k])
    ensures Override(first, Merged(mem, file), file) == Merged(mem, file)
  {
    forall k
      ensures SameAt(Override(first, Merged(mem, file), file), Merged(mem, file), k)
    {
      OverrideMergedAt(mem, file, first, k);
    }
    SameEverywhere(Override(first, Merged(mem, file), file), Merged(mem, file));
  }

  /** The map the corrected `writeFile` produces on success is the reference merge. */
  lemma WriteWithAlwaysResult(mem: Store, file: Store, order: seq<string>)
    requires Enumerates(order, file.Keys)
    requires Mergeable(mem, file)
    ensures var w := WriteWith(Always, mem, file, order);
      w.outcome.Ok? && w.outcome.value == Merged(mem, file)
  {
    if |file| == 0 {
      WriteEmptyFile(Always, mem, file, order);
    } else {
      var first := FileLoop(Always, mem, file, order, map[]);
      var merged := Merged(mem, file);
      assert WriteWith(Always, mem, file, order) == Written(Ok(Override(first.outcome.value, merged, file)), merged) by {
        LoopSucceeds(Always, mem, file, order);
        WriteWithAlwaysMemory(mem, file, order);
      }
      assert Override(first.outcome.value, merged, file) == merged by {
        LoopSucceeds(Always, mem, file, order);
        OverrideMerged(mem, file, first.outcome.value);
      }
    }
  }

  /** Everything `WriteFileCorrected` promises, stated of the loops it runs. */
  lemma WriteFileCorrectedFacts(mem: Store, file: Store, order: seq<string>)
    requires Enumerates(order, file.Keys)
    ensures var w := WriteWith(Always, mem, file, order);
      && (w.outcome.Ok? <==> Mergeable(mem, file))
      && (w.outcome.Ok? ==> w.outcome.value == Merged(mem, file) && w.memory == Merged(mem, file))
      && (|file| == 0 ==> w == Written(Ok(mem), mem))
      && (w.outcome.Err? ==> exists k :: k in file && AppendData(Get(mem, k), file[k]) == Err(w.outcome.error))
  {
    WriteWithOutcome(Always, mem, file, order);
    if Mergeable(mem, file) {
      WriteWithAlwaysMemory(mem, file, order);
      WriteWithAlwaysResult(mem, file, order);
    }
    if |file| == 0 {
      WriteEmptyFile(Always, mem, file, order);
    }
  }

  /** `writeFile` as evidently intended: every file key is back-filled with its merge, so on success
      the cache and the written map agree, and a later write of the same day loses nothing. */
  function WriteFileCorrected(mem: Store, file: Store, order: seq<string>): (w: Written)
    requires Enumerates(order, file.Keys)
    ensures w.outcome.Ok? <==> Mergeable(mem, file)
    ensures w.outcome.Ok? ==> w.outcome.value == Merged(mem, file) && w.memory == Merged(mem, file)
    ensures |file| == 0 ==> w == Written(Ok(mem), mem)
    ensures w.outcome.Err? ==> exists k :: k in file && AppendData(Get(mem, k), file[k]) == Err(w.outcome.error)
  {
    WriteFileCorrectedFacts(mem, file, order);
    WriteWith(Always, mem, file, order)
  }

  /** The cache after a successful `writeFile` under a back-fill policy. */
  function Refilled(policy: BackFill, mem: Store, file: Store): Store
    requires Mergeable(mem, file)
  {
    if policy == OnlyEmpty then BackFilled(mem, file) else Merged(mem, file)
  }

  /** `writeFile` as written (`OnlyEmpty`) or corrected (`Always`). */
  function WriteStore(policy: BackFill, mem: Store, file: Store, order: seq<string>): (w: Written)
    requires Enumerates(order, file.Keys)
    ensures w.outcome.Ok? <==> Mergeable(mem, file)
    ensures w.outcome.Ok? ==> w.outcome.value == Merged(mem, file) && w.memory == Refilled(policy, mem, file)
    ensures |file| == 0 ==> w == Written(Ok(mem), mem)
    ensures w.outcome.Err? ==> exists k :: k in file && AppendData(Get(mem, k), file[k]) == Err(w.outcome.error)
  {
    if policy == OnlyEmpty then WriteFile(mem, file, order) else WriteFileCorrected(mem, file, order)
  }

  /** Every series of the store has strictly increasing timestamps. */
  predicate AllIncreasing(m: Store) {
    forall k :: k in m ==> Increasing(m[k])
  }

  /** Merging stores of increasing series never throws and yields increasing series again. */
  lemma MergedIncreasing(mem: Store, file: Store)
    requires AllIncreasing(mem) && AllIncreasing(file)
    ensures Mergeable(mem, file)
    ensures AllIncreasing(Merged(mem, file))
  {
    forall k | k in file
      ensures AppendData(Get(mem, k), file[k]).Ok? && Increasing(AppendData(Get(mem, k), file[k]).value)
    {
      AppendDataKeepsIncreasing(Get(mem, k), file[k]);
    }
  }

  /** A store of increasing series merged with itself is itself. */
  lemma MergedSelf(m: Store)
    requires AllIncreasing(m)
    ensures Mergeable(m, m)
    ensures Merged(m, m) == m
  {
    forall k | k in m
      ensures AppendData(m[k], m[k]) == Ok(m[k])
    {
      IncreasingSelfMerge(m[k]);
    }
    forall k
      ensures SameAt(Merged(m, m), m, k)
    {
      if k in m {
        assert AppendData(Get(m, k), Get(m, k)) == Ok(m[k]);
      }
    }
    SameEverywhere(Merged(m, m), m);
  }

  /** With the corrected back-fill, writing the same store again right after a write changes nothing:
      the file and the cache already agree. */
  lemma CorrectedWriteIdempotent(mem: Store, file: Store, order: seq<string>, again: seq<string>)
    requires AllIncreasing(mem) && AllIncreasing(file)
    requires Enumerates(order, file.Keys)
    requires Enumerates(again, mem.Keys + file.Keys)
    ensures var w := WriteFileCorrected(mem, file, order);
      && w.outcome.Ok?
      && w.outcome.value.Keys == mem.Keys + file.Keys
      && WriteFileCorrected(w.memory, w.outcome.value, again) == w
  {
    MergedIncreasing(mem, file);
    var m := Merged(mem, file);
    MergedSelf(m);
    var w2 := WriteFileCorrected(m, m, again);
    if |m| == 0 {
      assert w2 == Written(Ok(m), m);
    }
  }
}
