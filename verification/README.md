# Dashboard metric collection, modelled in Dafny

This project models the collection core of the RocketMQ dashboard, the scheduled task
`DashboardCollectTask`. It covers the following jobs:

- **Broker poller** (`collectBroker`, `fetchBrokerRuntimeStats`). Once a minute it builds an
  address -> "brokerName:brokerId" map from the cluster's broker address table. It asks every
  address for its runtime statistics, with up to three attempts, and averages the space-separated
  `getTotalTps` figures half-up to five decimals. Then it appends the sample "<millis>,<average>"
  to that key's in-memory series.
- **Topic poller** (`collectTopic`, `addSystemTopic`). It registers every cluster name, every
  cluster's reply topic and every broker name as a system topic. It then submits one collection
  unit per topic that is neither a retry topic, a dead-letter topic nor a system topic.
- **Persistence cycle** (`saveData`, `writeFile`, `appendData`). When the day changes it empties
  the broker and topic stores. Then it merges each store with that day's snapshot file
  (`<dir><day>.json` and `<dir><day>_topic.json`) and writes the merged map back. A series from
  the file is kept in front of the in-memory series only when it ends strictly before the
  in-memory series starts.

Modules, one per file:

| module | file | what it holds |
|---|---|---|
| `Results` | results.dfy | `Option`, `Result` and the exceptions that escape a cycle |
| `Numerals` | numerals.dfy | `Long.toString` / `Long.parseLong` and their round trip |
| `Text` | text.dfy | Java's `String.split` with a one-character literal and no limit |
| `Decimals` | decimals.dfy | the `BigDecimal` sum, half-up division and `toString` at scale 5 |
| `Series` | series.dfy | samples, timestamps and `appendData` |
| `Snapshot` | snapshot.dfy | `writeFile` over key -> series stores |
| `Persist` | persist.dfy | `saveData`: day rollover, file names, both writes |
| `BrokerPoller` | broker.dfy | the retry, the address map, the average and `collectBroker` |
| `TopicPoller` | topic.dfy | `addSystemTopic` and `collectTopic` |

Every external input is a parameter of the model:

- the clock: `now` in milliseconds, and `today` as the formatted day;
- the remote administrative calls: the topic list, the cluster information, and the sequence of
  replies each broker address gives;
- the data directory, and the files on disk (a map from path to decoded store);
- `new BigDecimal(String)`, as a partial function `parse`;
- `MixAll.getReplyTopic`, as a function `replyTopic`, the retry and DLQ prefixes, and the
  name rule by which `TopicValidator.isSystemTopic` recognises a system topic on its own;
- the configuration flag that enables collection;
- the iteration order of every `HashMap` and `Set`, as a sequence that lists its keys once.

The first part of a broker's series key is the key of an entry of `getBrokerAddrTable()` (lines
110 and 117), which is keyed by broker name. The loop variable of line 113 is called
`clusterEntry`, but it ranges over that table, so `BrokerPoller.SeriesKey` starts with the broker
name.

## Model

| member | source | states |
|---|---|---|
| Text.Split | src/main/java/org/apache/rocketmq/dashboard/task/DashboardCollectTask.java:130 | no piece contains the separator; a text without it is its own single piece; otherwise the pieces are the fields between separators, only trailing empty fields dropped, and the last piece kept is not empty |
| Text.SplitEmpty | src/main/java/org/apache/rocketmq/dashboard/task/DashboardCollectTask.java:130 | a split yields no element exactly when the text is non-empty and made only of separators |
| Text.JoinFields | src/main/java/org/apache/rocketmq/dashboard/task/DashboardCollectTask.java:130 | splitting at every separator loses nothing: joining the pieces gives the text back |
| Numerals.LongToString | src/main/java/org/apache/rocketmq/dashboard/task/DashboardCollectTask.java:136 | at least one character, all digits after an optional leading '-', which appears exactly for a negative value; no leading zero except in "0" |
| Numerals.ParseLong | src/main/java/org/apache/rocketmq/dashboard/task/DashboardCollectTask.java:248 | a parsed value is a long, read from the text as digits, '+' and digits, or '-' and digits (so any other text, or a value outside the long range, is rejected); every such text within the long range parses to its value |
| Numerals.ParseLongOfLongToString | src/main/java/org/apache/rocketmq/dashboard/task/DashboardCollectTask.java:248 | `Long.parseLong` of the text of a long gives that long back |
| Numerals.LongToStringInjective | src/main/java/org/apache/rocketmq/dashboard/task/DashboardCollectTask.java:117 | distinct longs have distinct decimal texts |
| Decimals.Sum | src/main/java/org/apache/rocketmq/dashboard/task/DashboardCollectTask.java:131-134 | the running total from `new BigDecimal(0)` is exact, at the largest scale of its terms |
| Decimals.Average | src/main/java/org/apache/rocketmq/dashboard/task/DashboardCollectTask.java:135 | the average has scale 5 and is the exact mean rounded half-up (ties away from zero) |
| Decimals.HalfUpUnique | src/main/java/org/apache/rocketmq/dashboard/task/DashboardCollectTask.java:135 | half-up rounding has only one answer, so the model's rounding is `ROUND_HALF_UP`'s |
| Decimals.ScaledToString | src/main/java/org/apache/rocketmq/dashboard/task/DashboardCollectTask.java:136 | the text of a scale-5 value has no comma, ends in '.' and five digits, starts with '-' exactly when the value is negative, has no leading zero before a longer integer part, and read back (sign, then the digits around the '.') gives the value |
| Decimals.AverageOfOneTwoThree | src/main/java/org/apache/rocketmq/dashboard/task/DashboardCollectTask.java:131-136 | averaging 1.0, 2.0 and 3.0 gives "2.00000" |
| Series.FirstField | src/main/java/org/apache/rocketmq/dashboard/task/DashboardCollectTask.java:248 | `split(",")[0]` fails exactly for a non-empty line of commas only; otherwise it is the text before the first comma |
| Series.TimestampOf | src/main/java/org/apache/rocketmq/dashboard/task/DashboardCollectTask.java:248 | a readable timestamp is a long; a line of commas has no timestamp; the only errors are a missing and an unreadable timestamp |
| Series.TimestampOfFirstField | src/main/java/org/apache/rocketmq/dashboard/task/DashboardCollectTask.java:248 | a timestamp is read exactly when the line has a first field that `Long.parseLong` accepts, and it is that field's value |
| Series.TimestampOfFormatSample | src/main/java/org/apache/rocketmq/dashboard/task/DashboardCollectTask.java:136 | the timestamp read back from a sample the poller writes is the time it was written with, whatever the value text |
| Series.AppendData | src/main/java/org/apache/rocketmq/dashboard/task/DashboardCollectTask.java:239-257 | empty memory keeps the file series; an empty file keeps memory; it throws exactly when a timestamp it reads is unreadable; the result is file+memory exactly when the file ends strictly before memory starts, else memory alone |
| Series.AppendDataKeepsIncreasing | src/main/java/org/apache/rocketmq/dashboard/task/DashboardCollectTask.java:239-257 | merging two series whose timestamps increase never throws and gives a series whose timestamps increase |
| Series.AppendDataSelf | src/main/java/org/apache/rocketmq/dashboard/task/DashboardCollectTask.java:241-256 | a series whose first and last timestamps are readable, the first not after the last, merges with itself into itself |
| Series.IncreasingSelfMerge | src/main/java/org/apache/rocketmq/dashboard/task/DashboardCollectTask.java:241-256 | merging an increasing series with itself gives it back |
| Series.AppendDataEndsWithMemory | src/main/java/org/apache/rocketmq/dashboard/task/DashboardCollectTask.java:251-256 | the in-memory series always ends the merge; the file series survives only whole, in front |
| Snapshot.Merged | src/main/java/org/apache/rocketmq/dashboard/task/DashboardCollectTask.java:220-234 | the reference merge has the keys of both stores, and each key's series is `appendData` of its memory and file series |
| Snapshot.BackFilled | src/main/java/org/apache/rocketmq/dashboard/task/DashboardCollectTask.java:224-226 | the reference back-fill gives each file key with an empty cache entry the file's series, and changes nothing else |
| Snapshot.FileLoop | src/main/java/org/apache/rocketmq/dashboard/task/DashboardCollectTask.java:220-227 | the loop over the file's entries never drops a key already in the result map |
| Snapshot.FileLoopKeys | src/main/java/org/apache/rocketmq/dashboard/task/DashboardCollectTask.java:220-227 | on success the result map gains exactly the visited keys and keeps its other entries |
| Snapshot.FileLoopResult | src/main/java/org/apache/rocketmq/dashboard/task/DashboardCollectTask.java:220-227 | on success each visited key maps to `appendData` of its live cache series and its file series |
| Snapshot.FileLoopMemory | src/main/java/org/apache/rocketmq/dashboard/task/DashboardCollectTask.java:220-226 | unvisited keys keep their cache series; a visited key keeps its series unless the policy back-fills it, and then holds its merge; on success every back-filled key holds its merge |
| Snapshot.FileLoopOutcome | src/main/java/org/apache/rocketmq/dashboard/task/DashboardCollectTask.java:220-227 | the loop over the file's entries throws exactly when some visited key's merge throws, with that key's error |
| Snapshot.WriteFile | src/main/java/org/apache/rocketmq/dashboard/task/DashboardCollectTask.java:213-237 | whatever the iteration order, writes succeed exactly when every key merges; they write the reference merge and leave the cache back-filled; an empty file writes the cache; a failure comes from some key's merge and has only back-filled empty entries |
| Snapshot.WriteFileCorrected | src/main/java/org/apache/rocketmq/dashboard/task/DashboardCollectTask.java:220-226 | with every file key back-filled, a successful write leaves the cache equal to what it wrote |
| Snapshot.WriteStore | src/main/java/org/apache/rocketmq/dashboard/task/DashboardCollectTask.java:213-237 | under either back-fill policy: succeeds exactly when every key merges, writes the reference merge, and leaves the policy's refilled cache |
| Snapshot.MergedIncreasing | src/main/java/org/apache/rocketmq/dashboard/task/DashboardCollectTask.java:220-234 | stores of increasing series always merge, into increasing series |
| Snapshot.CorrectedWriteIdempotent | src/main/java/org/apache/rocketmq/dashboard/task/DashboardCollectTask.java:220-226 | with the corrected back-fill, writing again right after a write changes nothing |
| Persist.BrokerFile | src/main/java/org/apache/rocketmq/dashboard/task/DashboardCollectTask.java:180 | the broker file's path is the data directory, then the day string, then ".json" |
| Persist.TopicFile | src/main/java/org/apache/rocketmq/dashboard/task/DashboardCollectTask.java:180-181 | a day's topic file is never that day's broker file |
| Persist.BrokerFileInjective | src/main/java/org/apache/rocketmq/dashboard/task/DashboardCollectTask.java:180 | two days share a broker file exactly when they are the same day |
| Persist.BrokerFileIsTopicFile | src/main/java/org/apache/rocketmq/dashboard/task/DashboardCollectTask.java:180-181 | a broker file is another day's topic file exactly when its day string is that day followed by "_topic" |
| Persist.SaveData | src/main/java/org/apache/rocketmq/dashboard/task/DashboardCollectTask.java:166-211 | disabled changes nothing; only today's two files change; it fails exactly when a store does not merge; a broker failure leaves the disk and the topic store alone; a topic failure keeps the broker file written; each file written holds the reference merge and each store the policy's refill |
| Persist.RolloverForgetsMemory | src/main/java/org/apache/rocketmq/dashboard/task/DashboardCollectTask.java:175-179 | on a new day the outcome does not depend on what the stores held |
| Persist.NewDayStartsFromFiles | src/main/java/org/apache/rocketmq/dashboard/task/DashboardCollectTask.java:173-203 | the first cycle of a day never fails: it loads today's files into the stores and writes them back unchanged |
| Persist.SecondCycleLosesHistory | src/main/java/org/apache/rocketmq/dashboard/task/DashboardCollectTask.java:224-226 | as written, a second save on the same day drops the history the first save kept |
| Persist.CorrectedCycleIdempotent | src/main/java/org/apache/rocketmq/dashboard/task/DashboardCollectTask.java:166-211 | with the corrected back-fill, a second save on the same day with no new samples changes nothing |
| BrokerPoller.Fetch | src/main/java/org/apache/rocketmq/dashboard/task/DashboardCollectTask.java:146-163 | no attempts give null; it stops at the first call that returns and sleeps once per call that threw; a first call that returns gives its table, and otherwise the last exception thrown escapes |
| BrokerPoller.FetchCorrected | src/main/java/org/apache/rocketmq/dashboard/task/DashboardCollectTask.java:146-163 | the corrected retry never throws: the first table returned within the attempts, or null when all threw |
| BrokerPoller.RetrySuccessDiscarded | src/main/java/org/apache/rocketmq/dashboard/task/DashboardCollectTask.java:159-161 | a failure followed by a success: as written the exception thrown escapes; corrected, the table is returned |
| BrokerPoller.SeriesKey | src/main/java/org/apache/rocketmq/dashboard/task/DashboardCollectTask.java:117 | a series key starts with the broker name and ':', and the rest reads back as the broker id |
| BrokerPoller.SeriesKeyInjective | src/main/java/org/apache/rocketmq/dashboard/task/DashboardCollectTask.java:117 | two brokers share a series key exactly when they have the same name and id |
| BrokerPoller.AddressMap | src/main/java/org/apache/rocketmq/dashboard/task/DashboardCollectTask.java:112-119 | the map's keys are exactly the addresses the table lists |
| BrokerPoller.AddressMapLastWins | src/main/java/org/apache/rocketmq/dashboard/task/DashboardCollectTask.java:116-117 | an address listed more than once maps to the key of the entry visited last |
| BrokerPoller.AddressMapInjective | src/main/java/org/apache/rocketmq/dashboard/task/DashboardCollectTask.java:112-119 | distinct addresses feed distinct series keys |
| BrokerPoller.ParseAll | src/main/java/org/apache/rocketmq/dashboard/task/DashboardCollectTask.java:132-134 | all tokens parse exactly when each one does, and then in order |
| BrokerPoller.AverageTokens | src/main/java/org/apache/rocketmq/dashboard/task/DashboardCollectTask.java:131-135 | an average exists exactly when there is a token and every token parses; a token that is not a decimal throws; no token divides by zero; the average is the exact mean rounded half-up to five places |
| BrokerPoller.AverageTps | src/main/java/org/apache/rocketmq/dashboard/task/DashboardCollectTask.java:129-135 | a token that is not a decimal throws exactly when some piece of the split fails to parse; the division by zero happens exactly for a text of spaces only; an average exists exactly when neither happens, has scale 5, and is the exact mean of the pieces rounded half-up |
| BrokerPoller.NoTpsOnlyForSpaces | src/main/java/org/apache/rocketmq/dashboard/task/DashboardCollectTask.java:130-135 | the division by zero happens exactly for a text of spaces only; an empty text is one empty, unparsable token |
| BrokerPoller.BrokerSample | src/main/java/org/apache/rocketmq/dashboard/task/DashboardCollectTask.java:122-136 | a null table skips the address; a thrown exception aborts; a missing `getTotalTps` aborts; a failed average aborts with its error; otherwise the sample is `now`, ',' and the average's text, which reads back as `now` and ends in five decimals |
| BrokerPoller.AppendSamples | src/main/java/org/apache/rocketmq/dashboard/task/DashboardCollectTask.java:120-138 | the loop over the addresses: it stops at the first exception, with that address's error; every earlier address's sample is at the end of its key's former series; keys without a sample are untouched |
| BrokerPoller.AppendEach | src/main/java/org/apache/rocketmq/dashboard/task/DashboardCollectTask.java:120-138 | for any samples fetched address by address: it stops at the first exception with that sample's error, appends every earlier sample at the end of its key's former series, and leaves keys without a sample untouched |
| BrokerPoller.CollectBroker | src/main/java/org/apache/rocketmq/dashboard/task/DashboardCollectTask.java:103-144 | disabled or a failed cluster lookup changes nothing; otherwise each address's sample is appended to the end of its key's series, keys without a sample are untouched, and the first exception stops the loop |
| TopicPoller.Register | src/main/java/org/apache/rocketmq/dashboard/task/DashboardCollectTask.java:262-270 | registration only adds names, and every visited cluster's name, reply topic and broker names end up registered |
| TopicPoller.RegisterAdds | src/main/java/org/apache/rocketmq/dashboard/task/DashboardCollectTask.java:262-270 | the loop over the entries adds exactly the names of the clusters it visits |
| TopicPoller.AddSystemTopic | src/main/java/org/apache/rocketmq/dashboard/task/DashboardCollectTask.java:259-271 | a failed cluster lookup registers nothing; otherwise the registry grows by exactly the cluster names, reply topics and broker names |
| TopicPoller.Submissions | src/main/java/org/apache/rocketmq/dashboard/task/DashboardCollectTask.java:81-89 | a topic is submitted exactly when it is listed and is neither a retry topic, a DLQ topic, registered, nor a system topic by the built-in name rule |
| TopicPoller.SubmissionsDistinct | src/main/java/org/apache/rocketmq/dashboard/task/DashboardCollectTask.java:81-89 | every topic is submitted at most once |
| TopicPoller.LargerRegistrySubmitsLess | src/main/java/org/apache/rocketmq/dashboard/task/DashboardCollectTask.java:81-86 | a larger registry submits a subsequence of what a smaller one submits |
| TopicPoller.CollectTopic | src/main/java/org/apache/rocketmq/dashboard/task/DashboardCollectTask.java:73-94 | disabled or a failed lookup submits nothing and registers nothing; otherwise the cluster names are registered first, and the listed topics that pass the filter are each submitted once, in list order |

## Left out

- JSON encoding and decoding of snapshot files (`jsonDataFile2map`, `JsonUtil`). A file is its
  decoded key -> series map. A file that does not decode, and `null` values inside one, are not
  modelled.
- `IOException` from reading, creating or writing files. The `RuntimeException` wrapping of
  exceptions (`Throwables.throwIfUnchecked`) is not modelled either: a failure carries the
  original cause.
- Persist.SaveData: does not model the empty files `createNewFile` (lines 199-200) leaves behind
  when the cycle then fails, nor `createParentDirs`. A failed cycle leaves the disk as the model
  states, not with those empty files.
- The second clock read at line 178. The marker is modelled as the day string it formats to.
- `Long.parseLong` accepts non-ASCII Unicode digits. The model accepts ASCII digits only.
- `new BigDecimal(String)` is a parameter, not modelled. Exponent notation is never produced,
  because an average at scale 5 always prints in plain notation.
- Thread sleeps are counted, not performed. The `InterruptedException` path (lines 155-157) is
  not modelled.
- The worker pool, `CollectTaskRunnble` (the per-topic unit of work), and rejection by the
  executor. `CollectTopic` returns the ordered list of topics it submits.
- The cache's loader and expiry. An absent key reads as an empty series.
- Concurrency between the scheduled jobs. Each job is modelled as one atomic step.
- `collectConsumer` and the controller classes are not part of this model.
- The internals of `MixAll` and `TopicValidator`. The prefixes, the system-topic name rule of
  `isSystemTopic` and `getReplyTopic` are parameters.
- Logging.

## Findings

| source | as written | input that shows it | evidently intended | confidence | as-written member | corrected member |
|---|---|---|---|---|---|---|
| src/main/java/org/apache/rocketmq/dashboard/task/DashboardCollectTask.java:159-161 | the retry's returned table is discarded and the exception of the last failed call is rethrown | replies: throw e, then return table t: the cycle aborts with e after sleeping once | return the retry's result, and null once attempts are exhausted | high (not executed) | BrokerPoller.RetrySuccessDiscarded | BrokerPoller.FetchCorrected |
| src/main/java/org/apache/rocketmq/dashboard/task/DashboardCollectTask.java:224-226 | only cache keys with an empty series are back-filled with the merged series | file {k: ["100,5.0"]}, cache {k: ["200,7.0"]}, two saves on one day: the first writes both samples, the second writes only "200,7.0" | back-fill every file key with its merge, so a second save of the same day loses nothing | medium (not executed) | Persist.SecondCycleLosesHistory | Persist.CorrectedCycleIdempotent |
