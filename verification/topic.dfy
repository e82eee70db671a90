/** The topic poller: `addSystemTopic` registers cluster-derived names in the process-wide
    system-topic registry, and `collectTopic` submits one collection unit per remaining topic. */
module TopicPoller {
  import opened Results
  import opened Snapshot

  /** The fixed part of the topic filter: `MixAll.RETRY_GROUP_TOPIC_PREFIX`,
      `MixAll.DLQ_GROUP_TOPIC_PREFIX`, and the rule by which `TopicValidator.isSystemTopic` treats a
      name as a system topic whatever the registry holds (its system-topic prefix). */
  datatype Filter = Filter(retry: string, dlq: string, builtIn: string -> bool)

  /** A topic the poller does not collect: a retry topic, a dead-letter topic, or a system topic
      (`TopicValidator.isSystemTopic`: one the registry holds or one the built-in rule names).
      `startsWith` is the sequence prefix order. */
  predicate Skipped(p: Filter, registry: set<string>, topic: string) {
    p.retry <= topic || p.dlq <= topic || topic in registry || p.builtIn(topic)
  }

  /** Every name cluster information makes a system topic: each cluster name, each cluster's reply
      topic (`MixAll.getReplyTopic`, given as `replyTopic`), and each broker name. */
  function SystemNames(clusters: map<string, set<string>>, replyTopic: string -> string): set<string> {
    clusters.Keys
      + (set c | c in clusters :: replyTopic(c))
      + (set c, b | c in clusters && b in clusters[c] :: b)
  }

  /** One entry of the cluster table registered: the name, its reply topic, then its brokers. */
  function RegisterCluster(registry: set<string>, name: string, brokers: set<string>, replyTopic: string -> string): (r: set<string>)
    ensures forall t :: t in r <==> t in registry || t == name || t == replyTopic(name) || t in brokers
  {
    registry + {name} + {replyTopic(name)} + brokers
  }

  /** The loop over the cluster table's entries in iteration order `order`. */
  function Register(registry: set<string>, clusters: map<string, set<string>>, order: seq<string>,
                    replyTopic: string -> string): (r: set<string>)
    requires forall i :: 0 <= i < |order| ==> order[i] in clusters
    ensures registry <= r
    ensures forall i :: 0 <= i < |order| ==>
      order[i] in r && replyTopic(order[i]) in r && clusters[order[i]] <= r
    decreases |order|
  {
    if |order| == 0 then registry
    else Register(RegisterCluster(registry, order[0], clusters[order[0]], replyTopic), clusters, order[1..], replyTopic)
  }

  /** Adding one cluster entry to a table adds its name, reply topic and brokers to its names. */
  lemma SystemNamesUpdate(m: map<string, set<string>>, k: string, v: set<string>, replyTopic: string -> string)
    requires k in m ==> m[k] == v
    ensures SystemNames(m[k := v], replyTopic) == SystemNames(m, replyTopic) + {k} + {replyTopic(k)} + v
  {
    var m' := m[k := v];
    assert (set c | c in m' :: replyTopic(c)) == (set c | c in m :: replyTopic(c)) + {replyTopic(k)};
    var brokers := set c, b | c in m && b in m[c] :: b;
    var brokers' := set c, b | c in m' && b in m'[c] :: b;
    forall t | t in brokers' ensures t in brokers + v {
      var c, b :| c in m' && b in m'[c] && b == t;
      if c != k { assert t in brokers; }
    }
    forall t | t in brokers + v ensures t in brokers' {
      if t in v {
        assert k in m' && t in m'[k];
      } else {
        var c, b :| c in m && b in m[c] && b == t;
        assert c in m' && b in m'[c];
      }
    }
  }

  /** Registration adds exactly the names of the clusters the loop visits. */
  lemma {:induction false} RegisterAdds(registry: set<string>, clusters: map<string, set<string>>, order: seq<string>,
                                        replyTopic: string -> string)
    requires forall i :: 0 <= i < |order| ==> order[i] in clusters
    ensures Register(registry, clusters, order, replyTopic)
         == registry + SystemNames(map c | c in order :: clusters[c], replyTopic)
    decreases |order|
  {
    var visited := map c | c in order :: clusters[c];
    if |order| == 0 {
      assert visited == map[];
      assert SystemNames(visited, replyTopic) == {};
    } else {
      var k := order[0];
      var first := RegisterCluster(registry, k, clusters[k], replyTopic);
      assert Register(registry, clusters, order, replyTopic) == Register(first, clusters, order[1..], replyTopic);
      RegisterAdds(first, clusters, order[1..], replyTopic);
      var rest := map c | c in order[1..] :: clusters[c];
      VisitedFirst(clusters, order);
      SystemNamesUpdate(rest, k, clusters[k], replyTopic);
    }
  }

  /** The clusters `order` visits are its first one and those the rest visits. */
  lemma VisitedFirst(clusters: map<string, set<string>>, order: seq<string>)
    requires 0 < |order| && forall i :: 0 <= i < |order| ==> order[i] in clusters
    ensures (map c | c in order :: clusters[c])
         == (map c | c in order[1..] :: clusters[c])[order[0] := clusters[order[0]]]
  {
    assert forall c :: c in order <==> c == order[0] || c in order[1..] by {
      assert order == [order[0]] + order[1..];
    }
  }

  /** `addSystemTopic`: reading the cluster information may throw, and then nothing is registered;
      otherwise, visiting every cluster once, the registry grows by exactly the cluster-derived names. */
  function AddSystemTopic(registry: set<string>, clusterInfo: Result<map<string, set<string>>>, order: seq<string>,
                          replyTopic: string -> string): (r: Result<set<string>>)
    requires clusterInfo.Ok? ==> Enumerates(order, clusterInfo.value.Keys)
    ensures clusterInfo.Err? ==> r == Err(clusterInfo.error)
    ensures r.Ok? ==> r.value == registry + SystemNames(clusterInfo.value, replyTopic)
  {
    var clusters :- clusterInfo;
    RegisterAdds(registry, clusters, order, replyTopic);
    assert (map c | c in order :: clusters[c]) == clusters;
    Ok(Register(registry, clusters, order, replyTopic))
  }

  /** Registering the same cluster information again changes nothing. */
  lemma AddSystemTopicIdempotent(registry: set<string>, clusters: map<string, set<string>>, order: seq<string>,
                                 replyTopic: string -> string)
    requires Enumerates(order, clusters.Keys)
    ensures var once := AddSystemTopic(registry, Ok(clusters), order, replyTopic);
      once.Ok? && AddSystemTopic(once.value, Ok(clusters), order, replyTopic) == once
  {
  }

  /** The topics the filter lets through, in iteration order: the reference for the submission loop. */
  function Submissions(p: Filter, registry: set<string>, order: seq<string>): (r: seq<string>)
    ensures forall t :: t in r <==> t in order && !Skipped(p, registry, t)
  {
    if |order| == 0 then []
    else if Skipped(p, registry, order[0]) then Submissions(p, registry, order[1..])
    else [order[0]] + Submissions(p, registry, order[1..])
  }

  predicate Distinct(s: seq<string>) {
    forall i, j :: 0 <= i < j < |s| ==> s[i] != s[j]
  }

  /** Each topic of the list is submitted at most once: the filter keeps the list's distinctness. */
  lemma {:induction false} SubmissionsDistinct(p: Filter, registry: set<string>, order: seq<string>)
    requires Distinct(order)
    ensures Distinct(Submissions(p, registry, order))
  {
    if |order| > 0 {
      assert Distinct(order[1..]);
      SubmissionsDistinct(p, registry, order[1..]);
      var rest := Submissions(p, registry, order[1..]);
      if !Skipped(p, registry, order[0]) {
        assert order[0] !in order[1..];
        assert order[0] !in rest;
        var r := [order[0]] + rest;
        forall i, j | 0 <= i < j < |r| ensures r[i] != r[j] {
          if i == 0 {
            assert r[j] == rest[j - 1];
          } else {
            assert r[i] == rest[i - 1] && r[j] == rest[j - 1];
          }
        }
      }
    }
  }

  /** A larger registry submits a subsequence of what a smaller one submits: registering names only
      ever withdraws topics from collection, never adds or reorders them. */
  lemma {:induction false} LargerRegistrySubmitsLess(p: Filter, small: set<string>, large: set<string>, order: seq<string>)
    requires small <= large
    ensures Submissions(p, large, order) == Submissions(p, large, Submissions(p, small, order))
  {
    if |order| > 0 {
      LargerRegistrySubmitsLess(p, small, large, order[1..]);
      if !Skipped(p, small, order[0]) {
        var rest := Submissions(p, small, order[1..]);
        assert ([order[0]] + rest)[1..] == rest;
      }
    }
  }

  /** What one `collectTopic` run leaves: the registry, the topics submitted to the worker pool in
      order, and the exception that escaped, if any. */
  datatype TopicCycle = TopicCycle(registry: set<string>, submitted: seq<string>, failure: Option<Failure>)

  /** `collectTopic` (lines 73-94): with the topic list (or the exception fetching it threw) in
      iteration order `topicOrder` and the cluster information for `addSystemTopic`. The filter runs
      against the registry as `addSystemTopic` left it, so no cluster-derived name is submitted. */
  method CollectTopic(enabled: bool, p: Filter, registry: set<string>,
                      topicList: Result<set<string>>, topicOrder: seq<string>,
                      clusterInfo: Result<map<string, set<string>>>, clusterOrder: seq<string>,
                      replyTopic: string -> string)
    returns (c: TopicCycle)
    requires enabled && topicList.Ok? ==> Enumerates(topicOrder, topicList.value)
    requires enabled && topicList.Ok? && clusterInfo.Ok? ==> Enumerates(clusterOrder, clusterInfo.value.Keys)
    ensures !enabled ==> c == TopicCycle(registry, [], None)
    ensures enabled && topicList.Err? ==> c == TopicCycle(registry, [], Some(topicList.error))
    ensures enabled && topicList.Ok? && clusterInfo.Err? ==> c == TopicCycle(registry, [], Some(clusterInfo.error))
    ensures enabled && topicList.Ok? && clusterInfo.Ok? ==>
      && c.failure.None?
      && c.registry == registry + SystemNames(clusterInfo.value, replyTopic)
      && c.submitted == Submissions(p, c.registry, topicOrder)
      && Distinct(c.submitted)
      && (forall t :: t in c.submitted <==> t in topicList.value && !Skipped(p, c.registry, t))
  {
    if !enabled {
      return TopicCycle(registry, [], None);
    }
    if topicList.Err? {
      return TopicCycle(registry, [], Some(topicList.error));
    }
    var added := AddSystemTopic(registry, clusterInfo, clusterOrder, replyTopic);
    if added.Err? {
      return TopicCycle(registry, [], Some(added.error));
    }
    var systemTopics := added.value;
    var submitted: seq<string> := [];
    var i := 0;
    while i < |topicOrder|
      invariant i <= |topicOrder|
      invariant submitted + Submissions(p, systemTopics, topicOrder[i..]) == Submissions(p, systemTopics, topicOrder)
    {
      var topic := topicOrder[i];
      assert topicOrder[i..][1..] == topicOrder[i + 1..];
      if !Skipped(p, systemTopics, topic) {
        submitted := submitted + [topic];
      }
      i := i + 1;
    }
    assert topicOrder[i..] == [];
    SubmissionsDistinct(p, systemTopics, topicOrder);
    c := TopicCycle(systemTopics, submitted, None);
  }
}
