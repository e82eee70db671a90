/** `collectBroker` and `fetchBrokerRuntimeStats`: once a minute every broker address is asked for its
    runtime statistics, its throughput figures are averaged, and one sample is appended to the series
    of that broker's key "<brokerName>:<brokerId>". */
module BrokerPoller {
  import opened Results
  import opened Numerals
  import opened Text
  import opened Decimals
  import opened Series
  import opened Snapshot

  /** Attempts per broker address. */
  const RETRIES: nat := 3

  /** The statistics table a broker returns: entry name -> text. */
  datatype KVTable = KVTable(table: map<string, string>)

  /** One call of the remote statistics fetch: it returns a table (or null), or throws. */
  datatype Reply = Returned(stats: Option<KVTable>) | Threw(exn: Exn)

  /** What `fetchBrokerRuntimeStats` hands back: null, a table, or a thrown exception. */
  datatype Fetched = Null | Got(table: KVTable) | Raised(exn: Exn)

  /** The result of the retry, how many remote calls it made and how many one-second sleeps. */
  datatype FetchTrace = FetchTrace(result: Fetched, attempts: nat, sleeps: nat)

  function AsFetched(stats: Option<KVTable>): Fetched {
    if stats.Some? then Got(stats.value) else Null
  }

  /** Index of the last attempt that threw, among the first `attempts` replies. */
  function LastThrown(replies: seq<Reply>, attempts: nat): nat
    requires 0 < attempts <= |replies|
  {
    if replies[attempts - 1].Threw? || attempts == 1 then attempts - 1 else attempts - 2
  }

  /** `fetchBrokerRuntimeStats(addr, retry)` as written, with `replies[i]` the outcome of the i-th
      remote call. A failed call sleeps, retries with one attempt fewer and DISCARDS what the retry
      returns; it then rethrows its own exception, unless the retry threw, which then propagates. So
      only a first call that returns gives a value; otherwise the exception of the last call that
      threw escapes. */
  function Fetch(replies: seq<Reply>, retry: nat): (r: FetchTrace)
    requires |replies| >= retry
    ensures retry == 0 ==> r == FetchTrace(Null, 0, 0)
    ensures retry > 0 ==> 1 <= r.attempts <= retry
    ensures forall i :: 0 <= i < r.attempts - 1 ==> replies[i].Threw?
    ensures 0 < r.attempts < retry ==> replies[r.attempts - 1].Returned?
    ensures r.sleeps == if r.attempts > 0 && replies[r.attempts - 1].Returned? then r.attempts - 1 else r.attempts
    ensures retry > 0 && replies[0].Returned? ==> r == FetchTrace(AsFetched(replies[0].stats), 1, 0)
    ensures retry > 0 && replies[0].Threw? ==>
      r.result == Raised(replies[LastThrown(replies, r.attempts)].exn)
  {
    if retry == 0 then FetchTrace(Null, 0, 0)
    else
      match replies[0]
      case Returned(stats) => FetchTrace(AsFetched(stats), 1, 0)
      case Threw(e) =>
        var rest := Fetch(replies[1..], retry - 1);
        var result := if rest.result.Raised? then rest.result else Raised(e);
        FetchTrace(result, 1 + rest.attempts, 1 + rest.sleeps)
  }

  /** The retry as evidently intended (`return fetchBrokerRuntimeStats(addr, retry - 1)`): the first
      table returned within `retry` attempts, or null when every attempt threw. */
  function FetchCorrected(replies: seq<Reply>, retry: nat): (r: FetchTrace)
    requires |replies| >= retry
    ensures !r.result.Raised?
    ensures retry == 0 ==> r == FetchTrace(Null, 0, 0)
    ensures retry > 0 ==> 1 <= r.attempts <= retry
    ensures forall i :: 0 <= i < r.attempts - 1 ==> replies[i].Threw?
    ensures 0 < r.attempts < retry ==> replies[r.attempts - 1].Returned?
    ensures r.sleeps == if r.attempts > 0 && replies[r.attempts - 1].Returned? then r.attempts - 1 else r.attempts
    ensures r.attempts > 0 && replies[r.attempts - 1].Returned? ==> r.result == AsFetched(replies[r.attempts - 1].stats)
    ensures r.attempts > 0 && replies[r.attempts - 1].Threw? ==> r.result == Null
  {
    if retry == 0 then FetchTrace(Null, 0, 0)
    else
      match replies[0]
      case Returned(stats) => FetchTrace(AsFetched(stats), 1, 0)
      case Threw(e) =>
        var rest := FetchCorrected(replies[1..], retry - 1);
        FetchTrace(rest.result, 1 + rest.attempts, 1 + rest.sleeps)
  }

  /** Which retry the broker poller runs: `fetchBrokerRuntimeStats` as written, or corrected. */
  datatype RetryPolicy = AsWritten | Corrected

  function FetchWith(policy: RetryPolicy, replies: seq<Reply>, retry: nat): FetchTrace
    requires |replies| >= retry
  {
    if policy == AsWritten then Fetch(replies, retry) else FetchCorrected(replies, retry)
  }

  /** A call that throws and a retry that then succeeds: as written the success is thrown away and the
      failed call's exception escapes; corrected, the table is returned. */
  lemma RetrySuccessDiscarded(e: Exn, t: KVTable, third: Reply)
    ensures Fetch([Threw(e), Returned(Some(t)), third], RETRIES) == FetchTrace(Raised(e), 2, 1)
    ensures FetchCorrected([Threw(e), Returned(Some(t)), third], RETRIES) == FetchTrace(Got(t), 2, 1)
  {
    var replies := [Threw(e), Returned(Some(t)), third];
    assert replies[1..] == [Returned(Some(t)), third];
  }

  /** One (broker name, broker id, address) entry of the cluster's broker address table, in the order
      the nested maps are iterated. */
  datatype BrokerAddr = BrokerAddr(brokerName: string, brokerId: int, addr: string)

  /** The table's entries as the source gets them: each (name, id) pair once, ids Java longs. */
  predicate WellFormedTable(entries: seq<BrokerAddr>) {
    && (forall i :: 0 <= i < |entries| ==> InLong(entries[i].brokerId))
    && (forall i, j :: 0 <= i < j < |entries| ==>
          (entries[i].brokerName, entries[i].brokerId) != (entries[j].brokerName, entries[j].brokerId))
  }

  /** `brokerName + ":" + brokerId`, the series key of one broker. */
  function SeriesKey(b: BrokerAddr): (k: string)
    ensures |b.brokerName| < |k| && k[..|b.brokerName|] == b.brokerName && k[|b.brokerName|] == ':'
    ensures InLong(b.brokerId) ==> ParseLong(k[|b.brokerName| + 1..]) == Some(b.brokerId)
  {
    var k := b.brokerName + ":" + LongToString(b.brokerId);
    assert k[|b.brokerName| + 1..] == LongToString(b.brokerId);
    assert InLong(b.brokerId) ==> ParseLong(LongToString(b.brokerId)) == Some(b.brokerId) by {
      if InLong(b.brokerId) { ParseLongOfLongToString(b.brokerId); }
    }
    k
  }

  /** In `name + ":" + digits` with no ':' among the digits, the last ':' is the one after the name. */
  lemma LastColon(name: string, digits: string)
    requires ':' !in digits
    ensures var s := name + ":" + digits;
      s[|name|] == ':' && forall j :: |name| < j < |s| ==> s[j] != ':'
  {
    var s := name + ":" + digits;
    forall j | |name| < j < |s|
      ensures s[j] != ':'
    {
      assert s[j] == digits[j - |name| - 1];
    }
  }

  /** Splitting a series key at its last ':' recovers the name and the id text. */
  lemma SeriesKeySplit(name1: string, digits1: string, name2: string, digits2: string)
    requires ':' !in digits1 && ':' !in digits2
    requires name1 + ":" + digits1 == name2 + ":" + digits2
    ensures name1 == name2 && digits1 == digits2
  {
    var s := name1 + ":" + digits1;
    LastColon(name1, digits1);
    LastColon(name2, digits2);
    assert |name1| == |name2|;
    assert name1 == s[..|name1|] == name2;
    assert digits1 == s[|name1| + 1..] == digits2;
  }

  /** Brokers have the same series key exactly when they have the same name and id, even when a
      broker name contains ':'. */
  lemma SeriesKeyInjective(a: BrokerAddr, b: BrokerAddr)
    requires InLong(a.brokerId) && InLong(b.brokerId)
    ensures SeriesKey(a) == SeriesKey(b) <==> a.brokerName == b.brokerName && a.brokerId == b.brokerId
  {
    if SeriesKey(a) == SeriesKey(b) {
      var da := LongToString(a.brokerId);
      var db := LongToString(b.brokerId);
      assert forall i :: 0 <= i < |da| ==> da[i] != ':';
      assert forall i :: 0 <= i < |db| ==> db[i] != ':';
      SeriesKeySplit(a.brokerName, da, b.brokerName, db);
      LongToStringInjective(a.brokerId, b.brokerId);
    }
  }

  /** Entry `i` is the last one listing its address. */
  predicate LastFor(entries: seq<BrokerAddr>, i: int)
    requires 0 <= i < |entries|
  {
    forall j :: i < j < |entries| ==> entries[j].addr != entries[i].addr
  }

  /** The addresses the table lists. */
  function Addresses(entries: seq<BrokerAddr>): set<string> {
    set i | 0 <= i < |entries| :: entries[i].addr
  }

  /** The address -> series key map of lines 112-119: each entry puts its address, so for an address
      listed twice the entry visited last wins (`AddressMapLastWins`). */
  function AddressMap(entries: seq<BrokerAddr>): (m: map<string, string>)
    ensures m.Keys == Addresses(entries)
  {
    if |entries| == 0 then map[]
    else
      var front := entries[..|entries| - 1];
      var last := entries[|entries| - 1];
      assert Addresses(entries) == Addresses(front) + {last.addr} by {
        assert forall i :: 0 <= i < |front| ==> entries[i] == front[i];
        assert forall a :: a in Addresses(front) ==> a in Addresses(entries);
      }
      AddressMap(front)[last.addr := SeriesKey(last)]
  }

  /** The entry visited last for an address decides its series key. */
  lemma {:induction false} AddressMapLastWins(entries: seq<BrokerAddr>, i: nat)
    requires i < |entries| && LastFor(entries, i)
    ensures entries[i].addr in AddressMap(entries)
    ensures AddressMap(entries)[entries[i].addr] == SeriesKey(entries[i])
  {
    var front := entries[..|entries| - 1];
    var last := entries[|entries| - 1];
    assert AddressMap(entries) == AddressMap(front)[last.addr := SeriesKey(last)];
    if i < |front| {
      assert front[i] == entries[i];
      assert LastFor(front, i) by {
        forall j | i < j < |front| ensures front[j].addr != front[i].addr {
          assert front[j] == entries[j];
        }
      }
      AddressMapLastWins(front, i);
      assert last.addr != entries[i].addr;
    }
  }

  /** Every address maps to the key of the last entry listing it. */
  lemma AddressMapLast(entries: seq<BrokerAddr>, a: string)
    requires a in AddressMap(entries)
    ensures exists i :: (0 <= i < |entries| && entries[i].addr == a && LastFor(entries, i)
      && AddressMap(entries)[a] == SeriesKey(entries[i]))
  {
    var i :| 0 <= i < |entries| && entries[i].addr == a;
    while !LastFor(entries, i)
      invariant 0 <= i < |entries| && entries[i].addr == a
      decreases |entries| - i
    {
      var next :| i < next < |entries| && entries[next].addr == a;
      i := next;
    }
    AddressMapLastWins(entries, i);
  }

  /** Distinct addresses feed distinct series, so no series gets two samples in one cycle. */
  lemma AddressMapInjective(entries: seq<BrokerAddr>, a: string, b: string)
    requires WellFormedTable(entries)
    requires a in AddressMap(entries) && b in AddressMap(entries) && a != b
    ensures AddressMap(entries)[a] != AddressMap(entries)[b]
  {
    var m := AddressMap(entries);
    AddressMapLast(entries, a);
    AddressMapLast(entries, b);
    var i :| 0 <= i < |entries| && entries[i].addr == a && m[a] == SeriesKey(entries[i]);
    var j :| 0 <= j < |entries| && entries[j].addr == b && m[b] == SeriesKey(entries[j]);
    assert i != j;
    assert (entries[i].brokerName, entries[i].brokerId) != (entries[j].brokerName, entries[j].brokerId) by {
      if i < j {
        assert (entries[i].brokerName, entries[i].brokerId) != (entries[j].brokerName, entries[j].brokerId);
      } else {
        assert (entries[j].brokerName, entries[j].brokerId) != (entries[i].brokerName, entries[i].brokerId);
      }
    }
    SeriesKeyInjective(entries[i], entries[j]);
  }
  /** `new BigDecimal(token)` for every token, or `None` when some token is not a decimal. */
  function ParseAll(tokens: seq<string>, parse: string -> Option<Decimal>): (r: Option<seq<Decimal>>)
    ensures r.Some? <==> forall i :: 0 <= i < |tokens| ==> parse(tokens[i]).Some?
    ensures r.Some? ==> |r.value| == |tokens| && forall i :: 0 <= i < |tokens| ==> r.value[i] == parse(tokens[i]).value
  {
    if |tokens| == 0 then Some([])
    else
      match ParseAll(tokens[..|tokens| - 1], parse)
      case None => None
      case Some(front) =>
        match parse(tokens[|tokens| - 1])
        case None => None
        case Some(d) => Some(front + [d])
  }

  /** The loop and division of lines 131-135 over the tokens of the throughput text: each token parsed
      by `parse` (`new BigDecimal(String)`), summed exactly and divided by the token count, rounded
      half-up to five places. A token that is not a decimal throws; no token at all divides by zero. */
  function AverageTokens(tokens: seq<string>, parse: string -> Option<Decimal>): (r: Result<Decimal>)
    ensures r == Err(MalformedTps) <==> exists i :: 0 <= i < |tokens| && parse(tokens[i]).None?
    ensures r == Err(NoTps) <==> |tokens| == 0
    ensures r.Ok? <==> |tokens| > 0 && forall i :: 0 <= i < |tokens| ==> parse(tokens[i]).Some?
    ensures r.Ok? ==> r.value.scale == AVERAGE_SCALE
    ensures r.Ok? ==> var ds := ParseAll(tokens, parse).value;
      IsHalfUp(r.value.unscaled, ExactSum(ds, MaxScale(ds)) * Pow10(AVERAGE_SCALE), |ds| * Pow10(MaxScale(ds)))
  {
    match ParseAll(tokens, parse)
    case None => Err(MalformedTps)
    case Some(ds) => if |ds| == 0 then Err(NoTps) else Ok(Average(ds))
  }

  /** Lines 129-135: the average of the ' '-separated throughput text. */
  function AverageTps(text: string, parse: string -> Option<Decimal>): (r: Result<Decimal>)
    ensures r == Err(NoTps) <==> |text| > 0 && AllSeparators(text, ' ')
    ensures r.Ok? <==> !(|text| > 0 && AllSeparators(text, ' ')) && forall t :: t in Split(text, ' ') ==> parse(t).Some?
    ensures r.Ok? ==> r.value.scale == AVERAGE_SCALE
    ensures r == Err(MalformedTps) <==> exists t :: t in Split(text, ' ') && parse(t).None?
    ensures r.Ok? ==> var ds := ParseAll(Split(text, ' '), parse).value;
      IsHalfUp(r.value.unscaled, ExactSum(ds, MaxScale(ds)) * Pow10(AVERAGE_SCALE), |ds| * Pow10(MaxScale(ds)))
  {
    SplitEmpty(text, ' ');
    AverageTokens(Split(text, ' '), parse)
  }

  /** The throughput text is empty of tokens only when it is made of spaces, and then there is no
      average; an empty text is one empty token, which `new BigDecimal("")` rejects. */
  lemma NoTpsOnlyForSpaces(text: string, parse: string -> Option<Decimal>)
    requires parse("") == None
    ensures AverageTps(text, parse) == Err(NoTps) <==> |text| > 0 && AllSeparators(text, ' ')
    ensures text == "" ==> AverageTps(text, parse) == Err(MalformedTps)
  {
    SplitEmpty(text, ' ');
    if text == "" {
      assert Split(text, ' ') == [""];
    }
  }

  /** A scale-5 text: '.' and then five digits at the end. */
  predicate EndsInFiveDecimals(s: string) {
    && |s| >= 7 && s[|s| - 6] == '.'
    && forall i :: |s| - 5 <= i < |s| ==> IsDigit(s[i])
  }

  lemma PrefixKeepsDecimals(prefix: string, text: string)
    requires EndsInFiveDecimals(text)
    ensures EndsInFiveDecimals(prefix + text)
  {
    var line := prefix + text;
    assert forall i :: |line| - 6 <= i < |line| ==> line[i] == text[i - |prefix|];
  }

  /** A sample written at `now` with an average reads back as `now` and ends in five decimals. */
  lemma SampleLine(now: int, avg: Decimal)
    requires InLong(now) && avg.scale == AVERAGE_SCALE
    ensures TimestampOf(FormatSample(now, ScaledToString(avg))) == Ok(now)
    ensures EndsInFiveDecimals(FormatSample(now, ScaledToString(avg)))
  {
    var text := ScaledToString(avg);
    TimestampOfFormatSample(now, text);
    PrefixKeepsDecimals(LongToString(now) + ",", text);
  }

  /** The sample one broker address contributes (lines 124-136) under the retry `policy`: `None` when
      the fetch returned null and the address is skipped, otherwise "<now>,<average>" or the exception
      that aborts the cycle. */
  function BrokerSample(policy: RetryPolicy, replies: seq<Reply>, now: int, parse: string -> Option<Decimal>): (r: Result<Option<Line>>)
    requires |replies| >= RETRIES && InLong(now)
    ensures FetchWith(policy, replies, RETRIES).result.Null? <==> r == Ok(None)
    ensures FetchWith(policy, replies, RETRIES).result.Raised? ==> r == Err(RemoteFailure(FetchWith(policy, replies, RETRIES).result.exn))
    ensures r.Ok? && r.value.Some? ==> TimestampOf(r.value.value) == Ok(now)
    ensures r.Ok? && r.value.Some? ==> EndsInFiveDecimals(r.value.value)
    ensures FetchWith(policy, replies, RETRIES).result.Got? ==>
      var table := FetchWith(policy, replies, RETRIES).result.table.table;
      && ("getTotalTps" !in table ==> r == Err(MissingTotalTps))
      && ("getTotalTps" in table ==> (r.Ok? <==> AverageTps(table["getTotalTps"], parse).Ok?))
    ensures FetchWith(policy, replies, RETRIES).result.Got? ==>
      var table := FetchWith(policy, replies, RETRIES).result.table.table;
      "getTotalTps" in table ==>
        var avg := AverageTps(table["getTotalTps"], parse);
        && (avg.Err? ==> r == Err(avg.error))
        && (avg.Ok? ==> r == Ok(Some(FormatSample(now, ScaledToString(avg.value)))))
  {
    match FetchWith(policy, replies, RETRIES).result
    case Null => Ok(None)
    case Raised(e) => Err(RemoteFailure(e))
    case Got(kv) =>
      if "getTotalTps" !in kv.table then Err(MissingTotalTps)
      else
        var avg :- AverageTps(kv.table["getTotalTps"], parse);
        SampleLine(now, avg);
        Ok(Some(FormatSample(now, ScaledToString(avg))))
  }

  /** What `collectBroker` needs of its inputs: a well-formed table, an iteration order of its
      addresses, and enough oracle replies for every address. */
  ghost predicate Polled(entries: seq<BrokerAddr>, addrOrder: seq<string>, replies: map<string, seq<Reply>>) {
    && WellFormedTable(entries)
    && Enumerates(addrOrder, Addresses(entries))
    && forall a :: a in Addresses(entries) ==> a in replies && |replies[a]| >= RETRIES
  }

  /** Every address of the iteration order has a series key and enough replies. */
  lemma PolledOrder(entries: seq<BrokerAddr>, addrOrder: seq<string>, replies: map<string, seq<Reply>>)
    requires Polled(entries, addrOrder, replies)
    ensures forall i :: 0 <= i < |addrOrder| ==> addrOrder[i] in AddressMap(entries)
    ensures forall i :: 0 <= i < |addrOrder| ==> addrOrder[i] in replies && |replies[addrOrder[i]]| >= RETRIES
  {
    forall i | 0 <= i < |addrOrder|
      ensures addrOrder[i] in Addresses(entries)
    {
      assert addrOrder[i] in addrOrder;
    }
  }

  /** The sample of each address in iteration order (`SamplesOfAt`). */
  function SamplesOf(policy: RetryPolicy, addrOrder: seq<string>, replies: map<string, seq<Reply>>, now: int, parse: string -> Option<Decimal>)
    : (r: seq<Result<Option<Line>>>)
    requires InLong(now)
    requires forall i :: 0 <= i < |addrOrder| ==> addrOrder[i] in replies && |replies[addrOrder[i]]| >= RETRIES
    ensures |r| == |addrOrder|
  {
    if |addrOrder| == 0 then []
    else [BrokerSample(policy, replies[addrOrder[0]], now, parse)] + SamplesOf(policy, addrOrder[1..], replies, now, parse)
  }

  lemma {:induction false} SamplesOfAt(policy: RetryPolicy, addrOrder: seq<string>, replies: map<string, seq<Reply>>, now: int,
                                       parse: string -> Option<Decimal>, i: nat)
    requires InLong(now)
    requires forall i :: 0 <= i < |addrOrder| ==> addrOrder[i] in replies && |replies[addrOrder[i]]| >= RETRIES
    requires i < |addrOrder|
    ensures SamplesOf(policy, addrOrder, replies, now, parse)[i] == BrokerSample(policy, replies[addrOrder[i]], now, parse)
  {
    if i > 0 {
      SamplesOfAt(policy, addrOrder[1..], replies, now, parse, i - 1);
    }
  }

  /** The series keys that received a sample among the first `n` addresses. */
  ghost function Touched(keys: map<string, string>, addrOrder: seq<string>, samples: seq<Result<Option<Line>>>, n: nat): set<string> {
    set i | 0 <= i < n && i < |addrOrder| && i < |samples| && addrOrder[i] in keys && samples[i].Ok? && samples[i].value.Some?
      :: keys[addrOrder[i]]
  }

  /** After the first `n` addresses: none of them failed, each sample sits at the end of its key's
      former series, and every key that got no sample is as it was. */
  ghost predicate Appended(mem: Store, memory: Store, keys: map<string, string>, addrOrder: seq<string>,
                           samples: seq<Result<Option<Line>>>, n: nat)
  {
    && n <= |addrOrder| == |samples|
    && (forall i :: 0 <= i < |addrOrder| ==> addrOrder[i] in keys)
    && (forall i :: 0 <= i < n ==> samples[i].Ok?)
    && (forall i :: 0 <= i < n && samples[i].value.Some? ==>
          && keys[addrOrder[i]] in memory
          && memory[keys[addrOrder[i]]] == Get(mem, keys[addrOrder[i]]) + [samples[i].value.value])
    && (forall k :: k !in Touched(keys, addrOrder, samples, n) ==> SameAt(mem, memory, k))
  }

  /** The key of the next address is not among those already served. */
  lemma NextKeyFresh(entries: seq<BrokerAddr>, addrOrder: seq<string>, n: nat)
    requires WellFormedTable(entries) && Enumerates(addrOrder, Addresses(entries))
    requires n < |addrOrder|
    ensures forall i :: 0 <= i < n ==> AddressMap(entries)[addrOrder[i]] != AddressMap(entries)[addrOrder[n]]
  {
    forall i | 0 <= i < n
      ensures AddressMap(entries)[addrOrder[i]] != AddressMap(entries)[addrOrder[n]]
    {
      AddressMapInjective(entries, addrOrder[i], addrOrder[n]);
    }
  }

  /** Appending the next address's sample to its (fresh) key extends `Appended` by one address. */
  lemma AppendStep(mem: Store, memory: Store, keys: map<string, string>, addrOrder: seq<string>,
                   samples: seq<Result<Option<Line>>>, n: nat)
    requires n < |addrOrder| == |samples|
    requires forall i :: 0 <= i < |addrOrder| ==> addrOrder[i] in keys
    requires Appended(mem, memory, keys, addrOrder, samples, n)
    requires samples[n].Ok? && samples[n].value.Some?
    requires forall i :: 0 <= i < n ==> keys[addrOrder[i]] != keys[addrOrder[n]]
    ensures var key := keys[addrOrder[n]];
      Appended(mem, memory[key := Get(memory, key) + [samples[n].value.value]], keys, addrOrder, samples, n + 1)
  {
    var key := keys[addrOrder[n]];
    assert key !in Touched(keys, addrOrder, samples, n);
    assert Touched(keys, addrOrder, samples, n + 1) == Touched(keys, addrOrder, samples, n) + {key};
  }

  /** An address skipped for a null table changes nothing. */
  lemma SkipStep(mem: Store, memory: Store, keys: map<string, string>, addrOrder: seq<string>,
                 samples: seq<Result<Option<Line>>>, n: nat)
    requires n < |addrOrder| == |samples|
    requires forall i :: 0 <= i < |addrOrder| ==> addrOrder[i] in keys
    requires Appended(mem, memory, keys, addrOrder, samples, n)
    requires samples[n] == Ok(None)
    ensures Appended(mem, memory, keys, addrOrder, samples, n + 1)
  {
    assert Touched(keys, addrOrder, samples, n + 1) == Touched(keys, addrOrder, samples, n);
  }

  /** The store after one address: its sample, if any, appended to the end of its key's series. */
  function Extend(memory: Store, key: string, sample: Option<Line>): (r: Store)
    ensures sample.None? ==> r == memory
    ensures sample.Some? ==> key in r && r[key] == Get(memory, key) + [sample.value]
    ensures forall k :: k != key ==> SameAt(memory, r, k)
  {
    if sample.Some? then memory[key := Get(memory, key) + [sample.value]] else memory
  }

  /** One turn of the loop over the addresses keeps `Appended`. */
  lemma LoopStep(mem: Store, memory: Store, entries: seq<BrokerAddr>, addrOrder: seq<string>,
                 samples: seq<Result<Option<Line>>>, n: nat)
    requires WellFormedTable(entries) && Enumerates(addrOrder, Addresses(entries))
    requires n < |addrOrder|
    requires Appended(mem, memory, AddressMap(entries), addrOrder, samples, n)
    requires samples[n].Ok?
    ensures var keys := AddressMap(entries);
      Appended(mem, Extend(memory, keys[addrOrder[n]], samples[n].value), keys, addrOrder, samples, n + 1)
  {
    var keys := AddressMap(entries);
    if samples[n].value.Some? {
      NextKeyFresh(entries, addrOrder, n);
      AppendStep(mem, memory, keys, addrOrder, samples, n);
    } else {
      SkipStep(mem, memory, keys, addrOrder, samples, n);
    }
  }

  /** The loop of lines 121-138 over the addresses in iteration order: each address with a sample
      appends it to the end of its key's series, and the first exception stops the loop after `done`
      addresses, keeping what they appended. */
  method AppendSamples(policy: RetryPolicy, mem: Store, entries: seq<BrokerAddr>, addrOrder: seq<string>,
                       replies: map<string, seq<Reply>>, now: int, parse: string -> Option<Decimal>)
    returns (memory: Store, failure: Option<Failure>, done: nat)
    requires InLong(now)
    requires Polled(entries, addrOrder, replies)
    ensures done <= |addrOrder| && (failure.None? <==> done == |addrOrder|)
    ensures var samples := SamplesOf(policy, addrOrder, replies, now, parse);
      && (failure.Some? ==> samples[done] == Err(failure.value))
      && Appended(mem, memory, AddressMap(entries), addrOrder, samples, done)
  {
    PolledOrder(entries, addrOrder, replies);
    ghost var samples := SamplesOf(policy, addrOrder, replies, now, parse);
    var sampleAt := (i: int) =>
      if 0 <= i < |addrOrder| && addrOrder[i] in replies && |replies[addrOrder[i]]| >= RETRIES && InLong(now)
      then BrokerSample(policy, replies[addrOrder[i]], now, parse) else Ok(None);
    forall i | 0 <= i < |addrOrder|
      ensures sampleAt(i) == samples[i]
    {
      SamplesOfAt(policy, addrOrder, replies, now, parse, i);
    }
    memory, failure, done := AppendEach(mem, entries, addrOrder, samples, sampleAt);
  }

  /** The same loop over any samples: `sampleAt(i)`, fetched when the loop reaches address `i`. */
  method AppendEach(mem: Store, entries: seq<BrokerAddr>, addrOrder: seq<string>,
                    ghost samples: seq<Result<Option<Line>>>, sampleAt: int -> Result<Option<Line>>)
    returns (memory: Store, failure: Option<Failure>, done: nat)
    requires WellFormedTable(entries) && Enumerates(addrOrder, Addresses(entries))
    requires |samples| == |addrOrder|
    requires forall i :: 0 <= i < |addrOrder| ==> sampleAt(i) == samples[i]
    ensures done <= |addrOrder| && (failure.None? <==> done == |addrOrder|)
    ensures failure.Some? ==> samples[done] == Err(failure.value)
    ensures Appended(mem, memory, AddressMap(entries), addrOrder, samples, done)
  {
    memory := mem;
    failure := None;
    done := 0;
    var keys := AddressMap(entries);
    forall i | 0 <= i < |addrOrder|
      ensures addrOrder[i] in keys
    {
      assert addrOrder[i] in addrOrder;
    }
    assert Touched(keys, addrOrder, samples, 0) == {};
    while done < |addrOrder|
      invariant done <= |addrOrder|
      invariant failure.None?
      invariant Appended(mem, memory, keys, addrOrder, samples, done)
    {
      var sample := sampleAt(done);
      if sample.Err? {
        failure := Some(sample.error);
        return;
      }
      LoopStep(mem, memory, entries, addrOrder, samples, done);
      memory := Extend(memory, keys[addrOrder[done]], sample.value);
      done := done + 1;
    }
  }

  /** `collectBroker` (lines 103-144), with the time `now` read once, the cluster's broker table
      `cluster` (or the exception fetching it threw), the addresses in iteration order, and the
      replies each address gives. Each address with a sample appends it to the end of its key's
      series; nothing else changes. The first exception stops the cycle: `done` addresses were
      handled, and what they appended stays. `policy` chooses the retry (`AsWritten` as in the
      source). */
  method CollectBroker(policy: RetryPolicy, enabled: bool, mem: Store, cluster: Result<seq<BrokerAddr>>, addrOrder: seq<string>,
                       replies: map<string, seq<Reply>>, now: int, parse: string -> Option<Decimal>)
    returns (memory: Store, failure: Option<Failure>, done: nat)
    requires InLong(now)
    requires enabled && cluster.Ok? ==> Polled(cluster.value, addrOrder, replies)
    ensures !enabled ==> memory == mem && failure.None? && done == 0
    ensures enabled && cluster.Err? ==> memory == mem && failure == Some(cluster.error) && done == 0
    ensures enabled && cluster.Ok? ==> done <= |addrOrder| && (failure.None? <==> done == |addrOrder|)
    ensures enabled && cluster.Ok? ==>
      var samples := SamplesOf(policy, addrOrder, replies, now, parse);
      && (failure.Some? ==> samples[done] == Err(failure.value))
      && Appended(mem, memory, AddressMap(cluster.value), addrOrder, samples, done)
  {
    if !enabled {
      return mem, None, 0;
    }
    if cluster.Err? {
      return mem, Some(cluster.error), 0;
    }
    memory, failure, done := AppendSamples(policy, mem, cluster.value, addrOrder, replies, now, parse);
  }
}
