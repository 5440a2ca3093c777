/** The five path metrics, their fixed weights and the weighted total, as
    functions of the store's current state. Means are exact averages of reals. */
module Scoring {
  import opened Base
  import opened Store

  datatype Metric = Depth | Relation | Coherence | Novelty | ContextRetention

  /** The fixed metric weights of the engine. */
  function Weight(m: Metric): real
  {
    match m
    case Depth => 0.25
    case Relation => 0.15
    case Coherence => 0.25
    case Novelty => 0.15
    case ContextRetention => 0.20
  }

  datatype PathScore = PathScore(total: real, metrics: map<Metric, real>)

  // ---------------------------------------------------------------------------
  // Sums and means

  function Sum(s: seq<real>): real
  {
    if s == [] then 0.0 else Sum(s[..|s| - 1]) + s[|s| - 1]
  }

  function Mean(s: seq<real>): real
    requires |s| > 0
  {
    Sum(s) / (|s| as real)
  }

  lemma {:induction false} SumBounds(s: seq<real>, lo: real, hi: real)
    requires forall i :: 0 <= i < |s| ==> lo <= s[i] <= hi
    ensures (|s| as real) * lo <= Sum(s) <= (|s| as real) * hi
  {
    if s != [] {
      var front := s[..|s| - 1];
      SumBounds(front, lo, hi);
      var n := |front| as real;
      assert (n + 1.0) * lo == n * lo + lo;
      assert (n + 1.0) * hi == n * hi + hi;
    }
  }

  /** A mean of values in [lo, hi] lies in [lo, hi]. */
  lemma MeanBounds(s: seq<real>, lo: real, hi: real)
    requires |s| > 0
    requires forall i :: 0 <= i < |s| ==> lo <= s[i] <= hi
    ensures lo <= Mean(s) <= hi
  {
    SumBounds(s, lo, hi);
    var n := |s| as real;
    assert Sum(s) / n >= lo by {
      assert Sum(s) >= n * lo;
      assert (n * lo) / n == lo;
    }
    assert Sum(s) / n <= hi by {
      assert Sum(s) <= n * hi;
      assert (n * hi) / n == hi;
    }
  }

  /** The mean of a single value is that value. */
  lemma MeanSingle(x: real)
    ensures Mean([x]) == x
  {
    assert [x][..0] == [];
    assert Sum([x]) == x;
  }

  lemma {:induction false} SumNonNegative(s: seq<real>)
    requires forall i :: 0 <= i < |s| ==> 0.0 <= s[i]
    ensures 0.0 <= Sum(s)
  {
    if s != [] {
      SumNonNegative(s[..|s| - 1]);
    }
  }

  // ---------------------------------------------------------------------------
  // The metrics

  ghost predicate InStore(nodes: Nodes, path: seq<Id>)
  {
    forall i :: 0 <= i < |path| ==> path[i] in nodes
  }

  /** DEPTH: the mean of the nodes' own scores. */
  function DepthMetric(nodes: Nodes, path: seq<Id>): (r: real)
    requires |path| > 0 && InStore(nodes, path)
    ensures (forall k :: k in nodes ==> 0.0 <= nodes[k].score <= 1.0) ==> 0.0 <= r <= 1.0
    ensures |path| == 1 ==> r == nodes[path[0]].score
  {
    var scores := seq(|path|, i requires 0 <= i < |path| => nodes[path[i]].score);
    assert (forall k :: k in nodes ==> 0.0 <= nodes[k].score <= 1.0) ==> 0.0 <= Mean(scores) <= 1.0 by {
      if forall k :: k in nodes ==> 0.0 <= nodes[k].score <= 1.0 {
        MeanBounds(scores, 0.0, 1.0);
      }
    }
    assert |path| == 1 ==> Mean(scores) == nodes[path[0]].score by {
      if |path| == 1 {
        assert scores == [nodes[path[0]].score];
        MeanSingle(nodes[path[0]].score);
      }
    }
    Mean(scores)
  }

  /** RELATION: the total number of relation entries over the path length. */
  function RelationMetric(nodes: Nodes, path: seq<Id>): (r: real)
    requires |path| > 0 && InStore(nodes, path)
    ensures r >= 0.0
    ensures |path| == 1 ==> r == |nodes[path[0]].relations| as real
  {
    var counts := seq(|path|, i requires 0 <= i < |path| => |nodes[path[i]].relations| as real);
    SumNonNegative(counts);
    assert |path| == 1 ==> Sum(counts) == |nodes[path[0]].relations| as real by {
      if |path| == 1 {
        assert counts[..0] == [];
      }
    }
    Sum(counts) / (|path| as real)
  }

  /** The similarities of consecutive nodes of the path. */
  function StepSims(nodes: Nodes, sim: (string, string) -> real, path: seq<Id>): (r: seq<real>)
    requires |path| >= 1 && InStore(nodes, path)
    ensures |r| == |path| - 1
  {
    seq(|path| - 1, i requires 0 <= i < |path| - 1 => sim(Text(nodes[path[i]]), Text(nodes[path[i + 1]])))
  }

  /** COHERENCE: the mean similarity of consecutive nodes; 1 for a path of one node. */
  function CoherenceMetric(nodes: Nodes, sim: (string, string) -> real, path: seq<Id>): (r: real)
    requires |path| > 0 && InStore(nodes, path)
    ensures (forall a, b :: 0.0 <= sim(a, b) <= 1.0) ==> 0.0 <= r <= 1.0
    ensures |path| < 2 ==> r == 1.0
  {
    if |path| < 2 then 1.0
    else
      var sims := StepSims(nodes, sim, path);
      assert (forall a, b :: 0.0 <= sim(a, b) <= 1.0) ==> 0.0 <= Mean(sims) <= 1.0 by {
        if forall a, b :: 0.0 <= sim(a, b) <= 1.0 {
          MeanBounds(sims, 0.0, 1.0);
        }
      }
      Mean(sims)
  }

  /** The nodes of the store outside the path, in store order. */
  function Outside(order: seq<Id>, path: seq<Id>): (r: seq<Id>)
    ensures forall x :: x in r <==> x in order && x !in path
    ensures NoDup(order) ==> NoDup(r)
  {
    if order == [] then []
    else
      var rest := Outside(order[..|order| - 1], path);
      var x := order[|order| - 1];
      assert order == order[..|order| - 1] + [x];
      NoDupSnoc(order[..|order| - 1], x);
      if x in path then rest
      else
        NoDupSnoc(rest, x);
        rest + [x]
  }

  /** One minus the mean similarity of node `x` to the nodes `others`. */
  function NodeNovelty(nodes: Nodes, sim: (string, string) -> real, x: Id, others: seq<Id>): (r: real)
    requires x in nodes && |others| > 0 && InStore(nodes, others)
    ensures (forall a, b :: 0.0 <= sim(a, b) <= 1.0) ==> 0.0 <= r <= 1.0
  {
    var sims := seq(|others|, j requires 0 <= j < |others| => sim(Text(nodes[x]), Text(nodes[others[j]])));
    assert (forall a, b :: 0.0 <= sim(a, b) <= 1.0) ==> 0.0 <= Mean(sims) <= 1.0 by {
      if forall a, b :: 0.0 <= sim(a, b) <= 1.0 {
        forall j | 0 <= j < |sims| ensures 0.0 <= sims[j] <= 1.0 {
          assert sims[j] == sim(Text(nodes[x]), Text(nodes[others[j]]));
        }
        MeanBounds(sims, 0.0, 1.0);
      }
    }
    1.0 - Mean(sims)
  }

  /** The novelty of each node of the path against the nodes outside it. */
  function Novelties(nodes: Nodes, sim: (string, string) -> real, path: seq<Id>, others: seq<Id>): (r: seq<real>)
    requires InStore(nodes, path) && |others| > 0 && InStore(nodes, others)
    ensures |r| == |path|
  {
    seq(|path|, i requires 0 <= i < |path| => NodeNovelty(nodes, sim, path[i], others))
  }

  /** NOVELTY: the mean node novelty; 0.5 when no node lies outside the path. */
  function NoveltyMetric(nodes: Nodes, order: seq<Id>, sim: (string, string) -> real, path: seq<Id>): (r: real)
    requires |path| > 0 && InStore(nodes, path) && KeysInOrder(nodes, order)
    ensures (forall a, b :: 0.0 <= sim(a, b) <= 1.0) ==> 0.0 <= r <= 1.0
    ensures Outside(order, path) == [] ==> r == 0.5
  {
    var others := Outside(order, path);
    OutsideInStore(nodes, order, path);
    if others == [] then 0.5
    else
      var novelties := Novelties(nodes, sim, path, others);
      assert (forall a, b :: 0.0 <= sim(a, b) <= 1.0) ==> 0.0 <= Mean(novelties) <= 1.0 by {
        if forall a, b :: 0.0 <= sim(a, b) <= 1.0 {
          MeanBounds(novelties, 0.0, 1.0);
        }
      }
      Mean(novelties)
  }

  lemma OutsideInStore(nodes: Nodes, order: seq<Id>, path: seq<Id>)
    requires KeysInOrder(nodes, order)
    ensures InStore(nodes, Outside(order, path))
  {
    var others := Outside(order, path);
    forall i | 0 <= i < |others| ensures others[i] in nodes {
      assert others[i] in order;
    }
  }

  /** The retention self-scores of every node of the path but the first. */
  function Retentions(nodes: Nodes, path: seq<Id>): (r: seq<real>)
    requires |path| >= 1 && InStore(nodes, path)
    ensures |r| == |path| - 1
  {
    seq(|path| - 1, i requires 0 <= i < |path| - 1 => nodes[path[i + 1]].retention)
  }

  /** CONTEXT_RETENTION: the mean retention of the nodes after the first; 1 for
      a path of one node. */
  function RetentionMetric(nodes: Nodes, path: seq<Id>): (r: real)
    requires |path| > 0 && InStore(nodes, path)
    ensures (forall k :: k in nodes ==> 0.0 <= nodes[k].retention <= 1.0) ==> 0.0 <= r <= 1.0
    ensures |path| < 2 ==> r == 1.0
  {
    if |path| < 2 then 1.0
    else
      var retentions := Retentions(nodes, path);
      assert (forall k :: k in nodes ==> 0.0 <= nodes[k].retention <= 1.0) ==> 0.0 <= Mean(retentions) <= 1.0 by {
        if forall k :: k in nodes ==> 0.0 <= nodes[k].retention <= 1.0 {
          MeanBounds(retentions, 0.0, 1.0);
        }
      }
      Mean(retentions)
  }

  /** The weighted sum of the five metrics. */
  function WeightedTotal(depth: real, relation: real, coherence: real, novelty: real, retention: real): real
  {
    depth * Weight(Depth) + relation * Weight(Relation) + coherence * Weight(Coherence) +
    novelty * Weight(Novelty) + retention * Weight(ContextRetention)
  }

  /** The score record: the five metrics and their weighted total. The
      weights are non-negative and add up to 1, so metrics in [0, 1] give a
      total in [0, 1] and non-negative metrics a non-negative total. */
  function MakeScore(depth: real, relation: real, coherence: real, novelty: real, retention: real): (r: PathScore)
    ensures r.metrics.Keys == {Depth, Relation, Coherence, Novelty, ContextRetention}
    ensures (forall m :: m in r.metrics ==> 0.0 <= r.metrics[m] <= 1.0) ==> 0.0 <= r.total <= 1.0
    ensures 0.0 <= depth && 0.0 <= relation && 0.0 <= coherence && 0.0 <= novelty && 0.0 <= retention
         ==> 0.0 <= r.total
  {
    var metrics := map[Depth := depth, Relation := relation, Coherence := coherence,
                       Novelty := novelty, ContextRetention := retention];
    assert (forall m :: m in metrics ==> 0.0 <= metrics[m] <= 1.0) ==>
      0.0 <= WeightedTotal(depth, relation, coherence, novelty, retention) <= 1.0 by {
      if forall m :: m in metrics ==> 0.0 <= metrics[m] <= 1.0 {
        assert Depth in metrics && Relation in metrics && Coherence in metrics;
        assert Novelty in metrics && ContextRetention in metrics;
        TotalIsWeightedMean(depth, relation, coherence, novelty, retention, 0.0, 1.0);
      }
    }
    PathScore(WeightedTotal(depth, relation, coherence, novelty, retention), metrics)
  }

  /** The score of a path in the current store. With similarities and node
      self-scores in [0, 1] the total is non-negative (each metric's own
      bounds are stated with it). */
  function Score(nodes: Nodes, order: seq<Id>, sim: (string, string) -> real, path: seq<Id>): (r: PathScore)
    requires |path| > 0 && InStore(nodes, path) && KeysInOrder(nodes, order)
    ensures r.metrics.Keys == {Depth, Relation, Coherence, Novelty, ContextRetention}
    ensures (forall a, b :: 0.0 <= sim(a, b) <= 1.0)
         && (forall k :: k in nodes ==> 0.0 <= nodes[k].score <= 1.0 && 0.0 <= nodes[k].retention <= 1.0)
         ==> 0.0 <= r.total
  {
    MakeScore(DepthMetric(nodes, path), RelationMetric(nodes, path), CoherenceMetric(nodes, sim, path),
              NoveltyMetric(nodes, order, sim, path), RetentionMetric(nodes, path))
  }

  // ---------------------------------------------------------------------------
  // Properties

  /** The weights add up to 1, so the total is a weighted mean of the metrics:
      it lies between the smallest and the largest of them. */
  lemma TotalIsWeightedMean(depth: real, relation: real, coherence: real, novelty: real, retention: real, lo: real, hi: real)
    requires lo <= depth <= hi && lo <= relation <= hi && lo <= coherence <= hi
    requires lo <= novelty <= hi && lo <= retention <= hi
    ensures Weight(Depth) + Weight(Relation) + Weight(Coherence) + Weight(Novelty) + Weight(ContextRetention) == 1.0
    ensures lo <= WeightedTotal(depth, relation, coherence, novelty, retention) <= hi
  {
  }

  /** A store holding a single node: its one-node path has DEPTH equal to the
      node's score, RELATION its relation count, COHERENCE and
      CONTEXT_RETENTION 1 and NOVELTY 0.5. */
  lemma SingleNodeScore(id: Id, rec: NodeRec, sim: (string, string) -> real)
    ensures var s := Score(map[id := rec], [id], sim, [id]);
      && s.metrics[Depth] == rec.score
      && s.metrics[Relation] == |rec.relations| as real
      && s.metrics[Coherence] == 1.0
      && s.metrics[Novelty] == 0.5
      && s.metrics[ContextRetention] == 1.0
  {
    assert Outside([id], [id]) == [];
  }

  /** NOVELTY falls back to 0.5 exactly when every node of the store is on the path. */
  lemma NoveltyFallback(nodes: Nodes, order: seq<Id>, sim: (string, string) -> real, path: seq<Id>)
    requires |path| > 0 && InStore(nodes, path) && KeysInOrder(nodes, order)
    ensures Outside(order, path) == [] <==> forall k :: k in nodes ==> k in path
    ensures Outside(order, path) == [] ==> NoveltyMetric(nodes, order, sim, path) == 0.5
  {
    if Outside(order, path) != [] {
      var x := Outside(order, path)[0];
      assert x in order && x !in path;
    }
  }
}
