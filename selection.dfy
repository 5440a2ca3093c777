/** Top-k selection over scored paths: the records pushed on the shared
    priority structure, the order it pops them in, and the bucketing of the
    popped records by root. */
module Selection {
  import opened Base
  import opened Scoring

  /** One node of a path as reported to the caller. */
  datatype Step = Step(nodeId: Id, prompt: string, thought: string, contextRetention: real)

  /** The details kept for one scored path. */
  datatype PathRecord = PathRecord(path: seq<Id>, score: real, metrics: map<Metric, real>, trajectory: seq<Step>)

  /** An element of the priority structure: the path's total score, the
      position at which it was pushed, and its record. */
  datatype Entry = Entry(total: real, discovery: nat, record: PathRecord)

  /** `a` pops before `b`: a higher total, or the same total pushed earlier. */
  predicate Before(a: Entry, b: Entry)
  {
    a.total > b.total || (a.total == b.total && a.discovery < b.discovery)
  }

  /** The index of the entry that pops first: no other entry comes before it. */
  method BestIndex(q: seq<Entry>) returns (b: nat)
    requires |q| > 0
    ensures b < |q|
    ensures forall j :: 0 <= j < |q| ==> !Before(q[j], q[b])
  {
    b := 0;
    var i := 1;
    while i < |q|
      invariant b < i <= |q|
      invariant forall j :: 0 <= j < i ==> !Before(q[j], q[b])
    {
      if Before(q[i], q[b]) {
        b := i;
      }
      i := i + 1;
    }
  }

  predicate Rooted(s: seq<Entry>)
  {
    forall i :: 0 <= i < |s| ==> |s[i].record.path| > 0
  }

  /** The records of `s` whose path starts at `root`, in order. */
  function RootRecords(s: seq<Entry>, root: Id): (r: seq<PathRecord>)
    requires Rooted(s)
    ensures |r| <= |s|
    ensures forall i :: 0 <= i < |r| ==> |r[i].path| > 0 && r[i].path[0] == root
  {
    if s == [] then []
    else
      var e := s[|s| - 1];
      RootRecords(s[..|s| - 1], root) + (if e.record.path[0] == root then [e.record] else [])
  }

  /** The buckets built while popping `s`: each popped record appended to the
      list of the root its path starts at. The buckets are grouped, and there
      are none exactly when nothing was popped. */
  function Bucket(s: seq<Entry>): (b: map<Id, seq<PathRecord>>)
    requires Rooted(s)
    ensures Grouped(b)
    ensures b == map[] <==> s == []
  {
    if s == [] then map[]
    else
      var b := Bucket(s[..|s| - 1]);
      var e := s[|s| - 1];
      var root := e.record.path[0];
      b[root := (if root in b then b[root] else []) + [e.record]]
  }

  /** The buckets have a key exactly for the roots of popped paths. */
  lemma {:induction false} BucketKeys(s: seq<Entry>)
    requires Rooted(s)
    ensures forall r :: r in Bucket(s) <==> exists i :: 0 <= i < |s| && s[i].record.path[0] == r
  {
    if s != [] {
      var front := s[..|s| - 1];
      BucketKeys(front);
      forall r ensures r in Bucket(s) <==> exists i :: 0 <= i < |s| && s[i].record.path[0] == r {
        if r in Bucket(front) {
          var i :| 0 <= i < |front| && front[i].record.path[0] == r;
          assert s[i] == front[i];
        }
        if exists i :: 0 <= i < |s| && s[i].record.path[0] == r {
          var i :| 0 <= i < |s| && s[i].record.path[0] == r;
          if i < |front| {
            assert front[i] == s[i];
          }
        }
      }
    }
  }

  /** Each bucket holds exactly the popped records of its root, in pop order. */
  lemma {:induction false} BucketRecords(s: seq<Entry>)
    requires Rooted(s)
    ensures forall r :: r in Bucket(s) ==> Bucket(s)[r] == RootRecords(s, r)
  {
    if s != [] {
      var front := s[..|s| - 1];
      BucketKeys(front);
      BucketRecords(front);
      forall r | r in Bucket(s) ensures Bucket(s)[r] == RootRecords(s, r) {
        if r !in Bucket(front) {
          assert RootRecords(front, r) == [] by {
            RootRecordsEmpty(front, r);
          }
        }
      }
    }
  }

  /** Buckets as `pray` returns them: every list is non-empty and every record
      in it has a path starting at the list's root. */
  predicate Grouped(top: map<Id, seq<PathRecord>>)
  {
    forall r :: r in top ==>
      top[r] != [] && forall j :: 0 <= j < |top[r]| ==> top[r][j].path != [] && top[r][j].path[0] == r
  }

  /** Every bucket key is the root of some entry of the heap the records were
      popped from. */
  lemma BucketFrom(popped: seq<Entry>, left: seq<Entry>, heap: seq<Entry>)
    requires Rooted(popped)
    requires multiset(popped) + multiset(left) == multiset(heap)
    ensures forall r :: r in Bucket(popped) ==>
      exists j :: 0 <= j < |heap| && |heap[j].record.path| > 0 && heap[j].record.path[0] == r
  {
    BucketKeys(popped);
    forall r | r in Bucket(popped)
      ensures exists j :: 0 <= j < |heap| && |heap[j].record.path| > 0 && heap[j].record.path[0] == r
    {
      var i :| 0 <= i < |popped| && popped[i].record.path[0] == r;
      assert popped[i] in multiset(heap);
      var j :| 0 <= j < |heap| && heap[j] == popped[i];
    }
  }

  /** The number of records held in all buckets together. */
  ghost function Total(b: map<Id, seq<PathRecord>>): nat
  {
    if b == map[] then 0
    else
      var k :| k in b;
      |b[k]| + Total(b - {k})
  }

  /** Any key's bucket can be counted first. */
  lemma {:induction false} TotalRemove(b: map<Id, seq<PathRecord>>, r: Id)
    requires r in b
    ensures Total(b) == |b[r]| + Total(b - {r})
    decreases |b|
  {
    var k :| k in b && Total(b) == |b[k]| + Total(b - {k});
    if k != r {
      var c := b - {k};
      TotalRemove(c, r);
      assert c - {r} == (b - {r}) - {k};
      TotalRemove(b - {r}, k);
    }
  }

  /** Appending one record to one bucket adds one to the total. */
  lemma TotalAppend(b: map<Id, seq<PathRecord>>, r: Id, x: PathRecord)
    ensures Total(b[r := (if r in b then b[r] else []) + [x]]) == Total(b) + 1
  {
    var b' := b[r := (if r in b then b[r] else []) + [x]];
    TotalRemove(b', r);
    assert b' - {r} == b - {r};
    if r in b {
      TotalRemove(b, r);
    } else {
      assert b - {r} == b;
    }
  }

  /** The buckets hold exactly as many records as were popped. */
  lemma {:induction false} BucketTotal(s: seq<Entry>)
    requires Rooted(s)
    ensures Total(Bucket(s)) == |s|
  {
    if s != [] {
      BucketTotal(s[..|s| - 1]);
      var e := s[|s| - 1];
      TotalAppend(Bucket(s[..|s| - 1]), e.record.path[0], e.record);
    }
  }

  lemma {:induction false} RootRecordsEmpty(s: seq<Entry>, root: Id)
    requires Rooted(s)
    requires forall i :: 0 <= i < |s| ==> s[i].record.path[0] != root
    ensures RootRecords(s, root) == []
  {
    if s != [] {
      RootRecordsEmpty(s[..|s| - 1], root);
    }
  }

  /** `s` is in pop order: no entry pops before an earlier one. */
  predicate PopOrder(s: seq<Entry>)
  {
    forall i, j :: 0 <= i < j < |s| ==> !Before(s[j], s[i])
  }

  /** No entry of `rest` pops before any entry of `popped`. */
  predicate NoneBefore(rest: seq<Entry>, popped: seq<Entry>)
  {
    forall e, i :: e in rest && 0 <= i < |popped| ==> !Before(e, popped[i])
  }

  /** The pop loop of top-k selection: pops `min(k, |heap|)` entries (none when
      `k <= 0`), best first, and appends each record to the bucket of its root.
      What is popped comes from the heap in non-increasing order, and nothing
      left behind (`left`) pops before anything popped. */
  method TakeTop(heap: seq<Entry>, k: int) returns (top: map<Id, seq<PathRecord>>, ghost popped: seq<Entry>, ghost left: seq<Entry>)
    requires Rooted(heap)
    ensures |popped| == if k <= 0 then 0 else if k < |heap| then k else |heap|
    ensures multiset(popped) + multiset(left) == multiset(heap)
    ensures Rooted(popped)
    ensures PopOrder(popped)
    ensures NoneBefore(left, popped)
    ensures top == Bucket(popped) && Total(top) == |popped|
    ensures Grouped(top)
    ensures top == map[] <==> k <= 0 || heap == []
  {
    var n := if k <= 0 then 0 else if k < |heap| then k else |heap|;
    var rest := heap;
    top, popped := map[], [];
    var t := 0;
    while t < n
      invariant 0 <= t <= n && |popped| == t && |rest| == |heap| - t
      invariant multiset(popped) + multiset(rest) == multiset(heap)
      invariant Rooted(rest) && Rooted(popped)
      invariant PopOrder(popped) && NoneBefore(rest, popped)
      invariant top == Bucket(popped)
    {
      var b := BestIndex(rest);
      var e := rest[b];
      PopStep(popped, rest, b);
      rest := rest[..b] + rest[b + 1..];
      var root := e.record.path[0];
      top := top[root := (if root in top then top[root] else []) + [e.record]];
      BucketSnoc(popped, e);
      popped := popped + [e];
      t := t + 1;
    }
    left := rest;
    BucketTotal(popped);
  }

  /** Popping one more entry appends its record to the bucket of its root. */
  lemma BucketSnoc(s: seq<Entry>, e: Entry)
    requires Rooted(s) && |e.record.path| > 0
    ensures Rooted(s + [e])
    ensures var b := Bucket(s);
      var root := e.record.path[0];
      Bucket(s + [e]) == b[root := (if root in b then b[root] else []) + [e.record]]
  {
    assert (s + [e])[..|s|] == s;
  }

  /** Moving the first-popping entry of `rest` to the end of `popped` keeps the
      entries, the pop order and the separation between the two. */
  lemma PopStep(popped: seq<Entry>, rest: seq<Entry>, b: nat)
    requires b < |rest|
    requires forall j :: 0 <= j < |rest| ==> !Before(rest[j], rest[b])
    requires Rooted(rest) && Rooted(popped)
    requires PopOrder(popped) && NoneBefore(rest, popped)
    ensures multiset(popped + [rest[b]]) + multiset(rest[..b] + rest[b + 1..]) == multiset(popped) + multiset(rest)
    ensures Rooted(rest[..b] + rest[b + 1..]) && Rooted(popped + [rest[b]])
    ensures PopOrder(popped + [rest[b]])
    ensures NoneBefore(rest[..b] + rest[b + 1..], popped + [rest[b]])
  {
    var r := rest[..b] + rest[b + 1..];
    var p := popped + [rest[b]];
    assert rest == rest[..b] + [rest[b]] + rest[b + 1..];
    forall x | x in r ensures x in rest && !Before(x, rest[b]) {
      var j :| 0 <= j < |r| && r[j] == x;
      if j < b {
        assert x == rest[j];
      } else {
        assert x == rest[j + 1];
      }
    }
    forall i, j | 0 <= i < j < |p| ensures !Before(p[j], p[i]) {
      if j < |popped| {
        assert p[i] == popped[i] && p[j] == popped[j];
      } else {
        assert p[i] == popped[i] && p[j] == rest[b] && rest[b] in rest;
      }
    }
  }
}
