/** The reasoning-tree engine: the node store as the mutable state of one
    object, and the engine's steps as methods that change it. Every method is
    specified by the store functions it implements. */
module Engine {
  import opened Base
  import opened Store
  import opened Relevance
  import opened Prompt
  import opened Paths
  import opened Scoring
  import opened Selection

  // ---------------------------------------------------------------------------
  // What `pray` ranks

  /** The identifiers of nodes without a parent, in key order. */
  function Roots(nodes: Nodes, order: seq<Id>): (r: seq<Id>)
    requires forall i :: 0 <= i < |order| ==> order[i] in nodes
    ensures forall i :: 0 <= i < |r| ==> r[i] in nodes && nodes[r[i]].parent.None?
    ensures forall x :: x in order && nodes[x].parent.None? ==> x in r
    ensures forall y :: y in r ==> y in order
    ensures NoDup(order) ==> NoDup(r)
  {
    if order == [] then []
    else
      var x := order[|order| - 1];
      var rest := Roots(nodes, order[..|order| - 1]);
      assert order == order[..|order| - 1] + [x];
      if nodes[x].parent.None? then
        assert NoDup(order) ==> x !in order[..|order| - 1];
        NoDupSnoc(rest, x);
        rest + [x]
      else rest
  }

  /** `RootsInKeyOrder` for one more key `x` that is a root: it goes last. */
  lemma RootsOrderWithRoot(nodes: Nodes, front: seq<Id>, x: Id)
    requires forall i :: 0 <= i < |front| ==> front[i] in nodes
    requires x in nodes && nodes[x].parent.None? && NoDup(front + [x])
    requires forall i, j :: 0 <= i < j < |Roots(nodes, front)| ==>
      IndexOf(front, Roots(nodes, front)[i]) < IndexOf(front, Roots(nodes, front)[j])
    ensures forall i, j :: 0 <= i < j < |Roots(nodes, front + [x])| ==>
      IndexOf(front + [x], Roots(nodes, front + [x])[i]) < IndexOf(front + [x], Roots(nodes, front + [x])[j])
  {
    var order := front + [x];
    assert order[..|order| - 1] == front;
    var rest := Roots(nodes, front);
    var r := Roots(nodes, order);
    assert x !in front;
    IndexOfAfter(front, [x], x);
    assert r == rest + [x];
    forall i, j | 0 <= i < j < |r|
      ensures IndexOf(order, r[i]) < IndexOf(order, r[j])
    {
      assert r[i] == rest[i] && r[i] in front;
      IndexOfPrefix(front, [x], r[i]);
      if j < |rest| {
        assert r[j] == rest[j] && r[j] in front;
        IndexOfPrefix(front, [x], r[j]);
      } else {
        assert r[j] == x;
        assert IndexOf(order, r[i]) == IndexOf(front, r[i]) < |front| <= IndexOf(order, x);
      }
    }
  }

  /** `RootsInKeyOrder` for one more key `x` that has a parent: nothing moves. */
  lemma RootsOrderWithInner(nodes: Nodes, front: seq<Id>, x: Id)
    requires forall i :: 0 <= i < |front| ==> front[i] in nodes
    requires x in nodes && nodes[x].parent.Some? && NoDup(front + [x])
    requires forall i, j :: 0 <= i < j < |Roots(nodes, front)| ==>
      IndexOf(front, Roots(nodes, front)[i]) < IndexOf(front, Roots(nodes, front)[j])
    ensures forall i, j :: 0 <= i < j < |Roots(nodes, front + [x])| ==>
      IndexOf(front + [x], Roots(nodes, front + [x])[i]) < IndexOf(front + [x], Roots(nodes, front + [x])[j])
  {
    var order := front + [x];
    assert order[..|order| - 1] == front;
    var r := Roots(nodes, order);
    assert r == Roots(nodes, front);
    forall i, j | 0 <= i < j < |r|
      ensures IndexOf(order, r[i]) < IndexOf(order, r[j])
    {
      IndexOfPrefix(front, [x], r[i]);
      IndexOfPrefix(front, [x], r[j]);
    }
  }

  /** The roots come in key order: of two roots, the one listed first is the
      one inserted first. */
  lemma {:induction false} RootsInKeyOrder(nodes: Nodes, order: seq<Id>)
    requires forall i :: 0 <= i < |order| ==> order[i] in nodes
    requires NoDup(order)
    ensures forall i, j :: 0 <= i < j < |Roots(nodes, order)| ==>
      IndexOf(order, Roots(nodes, order)[i]) < IndexOf(order, Roots(nodes, order)[j])
  {
    if order != [] {
      var front := order[..|order| - 1];
      var x := order[|order| - 1];
      assert order == front + [x];
      RootsInKeyOrder(nodes, front);
      if nodes[x].parent.None? {
        RootsOrderWithRoot(nodes, front, x);
      } else {
        RootsOrderWithInner(nodes, front, x);
      }
    }
  }

  /** The paths found from each root in turn, concatenated. */
  function AllPaths(nodes: Nodes, roots: seq<Id>): (r: seq<seq<Id>>)
    requires ChildrenPresent(nodes)
    requires forall i :: 0 <= i < |roots| ==> roots[i] in nodes
  {
    if roots == [] then []
    else AllPaths(nodes, roots[..|roots| - 1]) + PathsFrom(nodes, roots[|roots| - 1], {})
  }

  /** Every path found is a leaf path that starts at one of the roots. */
  lemma {:induction false} AllPathsShape(nodes: Nodes, roots: seq<Id>)
    requires ChildrenPresent(nodes)
    requires forall i :: 0 <= i < |roots| ==> roots[i] in nodes
    ensures forall p :: p in AllPaths(nodes, roots) ==> LeafPath(nodes, p) && p[0] in roots
  {
    if roots != [] {
      var front := roots[..|roots| - 1];
      AllPathsShape(nodes, front);
      PathsFromShape(nodes, roots[|roots| - 1], {});
      assert forall x :: x in front ==> x in roots;
    }
  }

  /** Every leaf path starting at one of the roots is found. */
  lemma {:induction false} AllPathsComplete(nodes: Nodes, roots: seq<Id>, p: seq<Id>)
    requires ChildrenPresent(nodes)
    requires forall i :: 0 <= i < |roots| ==> roots[i] in nodes
    requires LeafPath(nodes, p) && p[0] in roots
    ensures p in AllPaths(nodes, roots)
  {
    var front := roots[..|roots| - 1];
    var last := roots[|roots| - 1];
    if p[0] == last {
      PathsFromComplete(nodes, last, {}, p);
    } else {
      assert roots == front + [last];
      AllPathsComplete(nodes, front, p);
    }
  }

  /** Distinct roots and children lists without repeats give each path once. */
  lemma {:induction false} AllPathsNoDup(nodes: Nodes, roots: seq<Id>)
    requires ChildrenPresent(nodes)
    requires forall x :: x in nodes ==> NoDup(nodes[x].children)
    requires forall i :: 0 <= i < |roots| ==> roots[i] in nodes
    requires NoDup(roots)
    ensures NoDup(AllPaths(nodes, roots))
  {
    if roots != [] {
      var front := roots[..|roots| - 1];
      var last := roots[|roots| - 1];
      assert roots == front + [last];
      NoDupSnoc(front, last);
      AllPathsNoDup(nodes, front);
      PathsFromNoDup(nodes, last, {});
      AllPathsShape(nodes, front);
      PathsFromShape(nodes, last, {});
      NoDupAppend(AllPaths(nodes, front), PathsFrom(nodes, last, {}));
    }
  }

  /** In a consistent tree, the paths `pray` ranks are exactly the leaf paths
      that start at a node without a parent, each listed once. */
  lemma PrayPaths(nodes: Nodes, order: seq<Id>)
    requires Linked(nodes) && KeysInOrder(nodes, order)
    ensures forall p :: p in AllPaths(nodes, Roots(nodes, order)) <==>
      LeafPath(nodes, p) && nodes[p[0]].parent.None?
    ensures NoDup(AllPaths(nodes, Roots(nodes, order)))
  {
    LinkedChildrenPresent(nodes);
    var roots := Roots(nodes, order);
    AllPathsShape(nodes, roots);
    forall p | LeafPath(nodes, p) && nodes[p[0]].parent.None?
      ensures p in AllPaths(nodes, roots)
    {
      AllPathsComplete(nodes, roots, p);
    }
    AllPathsNoDup(nodes, roots);
  }

  /** The per-node details reported along a path. */
  function Trajectory(nodes: Nodes, path: seq<Id>): seq<Step>
    requires InStore(nodes, path)
  {
    seq(|path|, i requires 0 <= i < |path| =>
      var n := nodes[path[i]];
      Step(path[i], n.prompt, n.thought, n.retention))
  }

  /** The record reported for a path: the path, its total, its metrics and
      its trajectory. */
  function Record(nodes: Nodes, order: seq<Id>, sim: (string, string) -> real, path: seq<Id>): PathRecord
    requires |path| > 0 && InStore(nodes, path) && KeysInOrder(nodes, order)
  {
    var s := Score(nodes, order, sim, path);
    PathRecord(path, s.total, s.metrics, Trajectory(nodes, path))
  }

  /** Every path of `ps` is a leaf path (so non-empty and in the store). */
  ghost predicate LeafPaths(nodes: Nodes, ps: seq<seq<Id>>)
  {
    forall i :: 0 <= i < |ps| ==> LeafPath(nodes, ps[i])
  }

  lemma LeafPathsSnoc(nodes: Nodes, ps: seq<seq<Id>>, p: seq<Id>)
    requires LeafPaths(nodes, ps) && LeafPath(nodes, p)
    ensures LeafPaths(nodes, ps + [p])
  {
    forall i | 0 <= i < |ps| + 1 ensures LeafPath(nodes, (ps + [p])[i]) {
      if i < |ps| {
        assert (ps + [p])[i] == ps[i];
      }
    }
  }

  /** The heap entries pushed for the paths `ps`, numbered in push order. */
  function Candidates(nodes: Nodes, order: seq<Id>, sim: (string, string) -> real, ps: seq<seq<Id>>): (r: seq<Entry>)
    requires KeysInOrder(nodes, order)
    requires forall i :: 0 <= i < |ps| ==> |ps[i]| > 0 && InStore(nodes, ps[i])
    ensures |r| == |ps| && Rooted(r)
    ensures forall i :: 0 <= i < |r| ==>
      && r[i].discovery == i
      && r[i].record.path == ps[i]
      && r[i].total == r[i].record.score == Score(nodes, order, sim, ps[i]).total
  {
    seq(|ps|, i requires 0 <= i < |ps| =>
      var rec := Record(nodes, order, sim, ps[i]);
      Entry(rec.score, i, rec))
  }

  /** The scan of `_find_relations` over a snapshot of the store: every key in
      order, linking `id` with each other node strictly more similar than the
      threshold, on both sides. Relating changes no text, so the texts are
      read from the snapshot. */
  method ScanRelations(start: Nodes, keys: seq<Id>, id: Id, sim: (string, string) -> real, threshold: real) returns (m: Nodes)
    requires id in start && KeysInOrder(start, keys)
    ensures m == Relate(start, keys, id, sim, threshold)
  {
    var text := Text(start[id]);
    m := start;
    RelateEmpty(start, id, sim, threshold);
    assert keys[..0] == [];
    var i := 0;
    while i < |keys|
      invariant 0 <= i <= |keys|
      invariant m == Relate(start, keys[..i], id, sim, threshold)
    {
      var other := keys[i];
      RelateNext(start, keys, i, id, sim, threshold, m);
      if other != id {
        var similarity := sim(text, Text(start[other]));
        if similarity > threshold {
          m := Link(m, id, other);
        }
      }
      i := i + 1;
    }
    assert keys[..i] == keys;
  }

  /** The inner loop of `pray`: scores each path of `paths` in order and
      pushes its record, numbered by the heap's size, after the entries of
      the paths `done` pushed before. */
  method PushPaths(nodes: Nodes, order: seq<Id>, sim: (string, string) -> real, heap: seq<Entry>, ghost done: seq<seq<Id>>, paths: seq<seq<Id>>) returns (heap': seq<Entry>)
    requires KeysInOrder(nodes, order)
    requires LeafPaths(nodes, done) && LeafPaths(nodes, paths)
    requires heap == Candidates(nodes, order, sim, done)
    ensures LeafPaths(nodes, done + paths)
    ensures heap' == Candidates(nodes, order, sim, done + paths)
  {
    heap' := heap;
    ghost var acc := done;
    var j := 0;
    SliceSnoc(done, paths, 0);
    while j < |paths|
      invariant 0 <= j <= |paths|
      invariant acc == done + paths[..j]
      invariant LeafPaths(nodes, acc)
      invariant heap' == Candidates(nodes, order, sim, acc)
    {
      var path := paths[j];
      var s := Score(nodes, order, sim, path);
      var details := PathRecord(path, s.total, s.metrics, Trajectory(nodes, path));
      CandidatesSnoc(nodes, order, sim, acc, path);
      LeafPathsSnoc(nodes, acc, path);
      SliceSnoc(done, paths, j);
      heap' := heap' + [Entry(s.total, |heap'|, details)];
      acc := acc + [path];
      j := j + 1;
    }
  }

  class God {
    /** The node store, and its keys in insertion order. */
    var nodes: Nodes
    var order: seq<Id>
    /** The text similarity used for relations, coherence, novelty and the gate. */
    const sim: (string, string) -> real
    const similarityThreshold: real
    const contextWindow: int

    /** The store's keys are listed once each, tree links agree both ways and
        relation counts are symmetric. */
    ghost predicate Valid()
      reads this
    {
      KeysInOrder(nodes, order) && Linked(nodes) && RelationsSymmetric(nodes)
    }

    constructor (sim: (string, string) -> real, similarityThreshold: real := 0.7, contextWindow: int := 3)
      ensures Valid()
      ensures nodes == map[] && order == []
      ensures this.sim == sim && this.similarityThreshold == similarityThreshold
      ensures this.contextWindow == contextWindow
    {
      this.sim := sim;
      this.similarityThreshold := similarityThreshold;
      this.contextWindow := contextWindow;
      nodes := map[];
      order := [];
    }

    /** `_build_context_history`: walks up from `nodeId` at most
        `contextWindow` steps and returns the snapshots oldest first. */
    method BuildContextHistory(nodeId: Option<Id>) returns (h: seq<ContextEntry>)
      requires ParentsPresent(nodes)
      requires nodeId.Some? ==> nodeId.value in nodes
      ensures h == History(nodes, nodeId, contextWindow)
    {
      if nodeId.None? {
        return [];
      }
      assert [] + Ancestors(nodes, nodeId, 0, contextWindow) == Ancestors(nodes, nodeId, 0, contextWindow);
      var contexts: seq<ContextEntry> := [];
      var current := nodeId;
      var depth: nat := 0;
      while current.Some? && depth < contextWindow
        invariant current.Some? ==> current.value in nodes
        invariant Ancestors(nodes, nodeId, 0, contextWindow) == contexts + Ancestors(nodes, current, depth, contextWindow)
        decreases contextWindow - depth
      {
        var node := nodes[current.value];
        var entry := ContextEntry(node.prompt, node.thought, depth, current.value);
        AncestorsUnfold(nodes, contexts, current, depth, contextWindow);
        contexts := contexts + [entry];
        current := node.parent;
        depth := depth + 1;
      }
      assert Ancestors(nodes, current, depth, contextWindow) == [];
      assert contexts + [] == contexts;
      h := Reverse(contexts);
    }

    /** `_find_relations`: scans the store in key order and links `id` with
        every other node strictly more similar than the threshold, on both
        sides. */
    method FindRelations(id: Id)
      requires id in nodes && KeysInOrder(nodes, order)
      modifies this
      ensures order == old(order)
      ensures nodes == Relate(old(nodes), old(order), id, sim, similarityThreshold)
    {
      nodes := ScanRelations(nodes, order, id, sim, similarityThreshold);
    }

    /** The loop of `_delete_node` that clears the parent of each present child. */
    method OrphanChildren(kids: seq<Id>)
      modifies this
      ensures order == old(order)
      ensures nodes == Orphaned(old(nodes), kids)
    {
      ghost var start := nodes;
      OrphanNone(start);
      var i := 0;
      assert kids[..0] == [];
      while i < |kids|
        invariant 0 <= i <= |kids| && order == old(order)
        invariant nodes == Orphaned(start, kids[..i])
      {
        var c := kids[i];
        assert kids[..i + 1] == kids[..i] + [c];
        OrphanStep(start, kids[..i], c);
        if c in nodes {
          nodes := nodes[c := nodes[c].(parent := None)];
        }
        i := i + 1;
      }
      assert kids[..i] == kids;
    }

    /** `_delete_node`: detaches `id` from its parent, orphans its present
        children and removes its key; an absent `id` changes nothing. */
    method DeleteNode(id: Id)
      requires CanDelete(nodes, id) && KeysInOrder(nodes, order)
      modifies this
      ensures nodes == Deleted(old(nodes), id)
      ensures order == Without(old(order), id)
      ensures KeysInOrder(nodes, order)
    {
      ghost var before := nodes;
      DeleteKeys(nodes, order, id);
      if id !in nodes {
        return;
      }
      var node := nodes[id];
      if node.parent.Some? && node.parent.value in nodes {
        var p := node.parent.value;
        nodes := nodes[p := nodes[p].(children := RemoveFirst(nodes[p].children, id))];
      }
      ghost var detached := nodes;
      assert detached == Detached(before, id);
      // The children list is read after the detach: when the node is its own
      // parent, the list just lost an entry.
      var kids := nodes[id].children;
      OrphanChildren(kids);
      assert nodes == Orphaned(detached, detached[id].children);
      nodes := nodes - {id};
      order := Without(order, id);
    }
  
    /** The storing step of `expand`: append the new identifier to the
        parent's children, store the record under it, then discover its
        relations. */
    method AddNode(id: Id, node: NodeRec)
      requires KeysInOrder(nodes, order) && id !in nodes
      requires node.parent.Some? ==> node.parent.value in nodes
      modifies this
      ensures order == old(order) + [id]
      ensures nodes == Relate(Inserted(old(nodes), id, node), old(order) + [id], id, sim, similarityThreshold)
    {
      ghost var before := nodes;
      if node.parent.Some? {
        var p := node.parent.value;
        nodes := nodes[p := nodes[p].(children := nodes[p].children + [id])];
      }
      nodes := nodes[id := node];
      order := order + [id];
      assert nodes == Inserted(before, id, node);
      InsertKeys(before, old(order), id, node);
      FindRelations(id);
    }

    /** `expand` for one prompt, without the follow-up recursion: builds the
        context history and the prompt sent to the generator, stores the node
        made from the generated `thought` under its parent, discovers its
        relations, and deletes it again when the relevance gate rejects it.
        The node keeps `newId`, and returns it; a rejected node returns the
        parent identifier and leaves the store as it was except that every
        node that was close to it keeps the now dangling `newId` in its
        relations. */
    method Expand(prompt: string, parentId: Option<Id> := None, newId: Id, thought: string, score: real, retention: real, elapsed: real)
      returns (r: Option<Id>, enhanced: string)
      requires Valid()
      requires Fresh(nodes, newId)
      requires parentId.Some? ==> parentId.value in nodes
      modifies this
      ensures Valid()
      ensures var h := History(old(nodes), parentId, contextWindow);
        var rec := NodeRec(prompt, thought, parentId, [], [], h, score, retention);
        var grown := Grown(old(nodes), old(order), newId, rec, sim, similarityThreshold);
        && enhanced == EnhancedPrompt(prompt, h)
        && CanDelete(grown, newId)
        && (IsRelevant(sim, rec, prompt, elapsed, similarityThreshold) ==>
              r == Some(newId) && nodes == grown && order == old(order) + [newId])
        && (!IsRelevant(sim, rec, prompt, elapsed, similarityThreshold) ==>
              && r == parentId && order == old(order)
              && nodes == Deleted(grown, newId) == Dangling(old(nodes), newId, Text(rec), sim, similarityThreshold))
    {
      var h := BuildContextHistory(parentId);
      enhanced := CreateEnhancedPrompt(prompt, h);
      var node := NodeRec(prompt, thought, parentId, [], [], h, score, retention);
      var kept := Admit(newId, node, prompt, elapsed);
      r := if kept then Some(newId) else parentId;
    }

    /** The store half of `expand`: stores `node` under `newId`, discovers its
        relations, and deletes it again when the relevance gate rejects it. */
    method Admit(newId: Id, node: NodeRec, prompt: string, elapsed: real) returns (kept: bool)
      requires Valid() && Fresh(nodes, newId)
      requires node.parent.Some? ==> node.parent.value in nodes
      requires node.children == [] && node.relations == []
      modifies this
      ensures Valid()
      ensures kept == IsRelevant(sim, node, prompt, elapsed, similarityThreshold)
      ensures var grown := Grown(old(nodes), old(order), newId, node, sim, similarityThreshold);
        && CanDelete(grown, newId)
        && (kept ==> nodes == grown && order == old(order) + [newId])
        && (!kept ==> order == old(order) && nodes == Deleted(grown, newId) == Dangling(old(nodes), newId, Text(node), sim, similarityThreshold))
    {
      ghost var before, order0 := nodes, order;
      ExpansionShape(before, order0, newId, node, sim, similarityThreshold);
      AddNode(newId, node);
      kept := IsRelevant(sim, node, prompt, elapsed, similarityThreshold);
      if !kept {
        RejectedExpansion(before, order0, newId, node, sim, similarityThreshold);
        DeleteNode(newId);
        assert order == order0 by {
          WithoutAppended(order0, newId);
        }
      }
    }

    /** `_find_paths`: depth-first from `start`, adding `start` to the visited
        set and the current path on entry and taking it off both on return;
        every leaf reached appends a copy of the current path to `w.paths`. */
    method FindPaths(start: Id, w: PathSearch)
      requires ChildrenPresent(nodes) && start in nodes && start !in w.visited
      modifies w
      ensures w.visited == old(w.visited) && w.path == old(w.path)
      ensures w.paths == old(w.paths) + Prepend(old(w.path), PathsFrom(nodes, start, old(w.visited)))
      decreases nodes.Keys - w.visited, 0
    {
      ghost var v := w.visited + {start};
      w.visited := w.visited + {start};
      w.path := w.path + [start];
      var node := nodes[start];
      if node.children == [] {
        w.paths := w.paths + [w.path];
        assert Prepend(old(w.path), [[start]]) == [old(w.path) + [start]];
      } else {
        var kids := node.children;
        ghost var pre := old(w.path) + [start];
        var i := 0;
        assert kids[..0] == [];
        while i < |kids|
          invariant 0 <= i <= |kids|
          invariant w.visited == v && w.path == pre
          invariant w.paths == old(w.paths) + Prepend(pre, PathsOver(nodes, kids[..i], v))
        {
          var child := kids[i];
          ghost var acc := PathsOver(nodes, kids[..i], v);
          ghost var found := if child in v then [] else PathsFrom(nodes, child, v);
          if child !in w.visited {
            FindPaths(child, w);
          }
          assert w.paths == old(w.paths) + Prepend(pre, acc) + Prepend(pre, found);
          ghost var next := PathsOver(nodes, kids[..i + 1], v);
          assert next == acc + found by {
            PathsOverStep(nodes, kids, v, i);
          }
          assert Prepend(pre, next) == Prepend(pre, acc) + Prepend(pre, found) by {
            PrependAppend(pre, acc, found);
          }
          assert w.paths == old(w.paths) + Prepend(pre, next) by {
            AppendAssoc(old(w.paths), Prepend(pre, acc), Prepend(pre, found));
          }
          i := i + 1;
        }
        assert kids[..i] == kids;
        PrependPrepend(old(w.path), start, PathsOver(nodes, kids, v));
      }
      w.visited := w.visited - {start};
      w.path := w.path[..|w.path| - 1];
    }

    /** The pushing phase of `pray`: the roots in key order, and for each root
        the entries of the paths found from it. */
    method PushAll() returns (heap: seq<Entry>)
      requires ChildrenPresent(nodes) && KeysInOrder(nodes, order)
      ensures LeafPaths(nodes, AllPaths(nodes, Roots(nodes, order)))
      ensures heap == Candidates(nodes, order, sim, AllPaths(nodes, Roots(nodes, order)))
    {
      ghost var ns, keys := nodes, order;
      var roots := Roots(nodes, order);
      heap := [];
      var i := 0;
      assert roots[..0] == [];
      while i < |roots|
        invariant 0 <= i <= |roots|
        invariant LeafPaths(ns, AllPaths(ns, roots[..i]))
        invariant heap == Candidates(ns, keys, sim, AllPaths(ns, roots[..i]))
        modifies {}
      {
        var w := new PathSearch();
        FindPaths(roots[i], w);
        var paths := w.paths;
        assert paths == PathsFrom(ns, roots[i], {}) by {
          PrependEmpty(PathsFrom(ns, roots[i], {}));
        }
        assert LeafPaths(ns, paths) by {
          PathsFromShape(ns, roots[i], {});
        }
        AllPathsStep(ns, roots, i);
        heap := PushPaths(nodes, order, sim, heap, AllPaths(ns, roots[..i]), paths);
        i := i + 1;
      }
      assert roots[..i] == roots;
    }

    /** `pray`: scores every root-to-leaf path of every root, pushes them all
        on one heap, pops the best `k` overall and buckets them by root. The
        popped entries are candidates, best first, and no candidate left
        behind pops before any popped one. */
    method Pray(k: int := 3) returns (top: map<Id, seq<PathRecord>>, ghost popped: seq<Entry>, ghost left: seq<Entry>)
      requires Valid()
      ensures var all := AllPaths(nodes, Roots(nodes, order));
        && LeafPaths(nodes, all)
        && multiset(popped) + multiset(left) == multiset(Candidates(nodes, order, sim, all))
        && |popped| == (if k <= 0 then 0 else if k < |all| then k else |all|)
      ensures PopOrder(popped) && NoneBefore(left, popped)
      ensures Rooted(popped) && top == Bucket(popped) && Total(top) == |popped|
      ensures Grouped(top)
      ensures top == map[] <==> k <= 0 || AllPaths(nodes, Roots(nodes, order)) == []
      ensures forall r :: r in top ==> r in nodes && nodes[r].parent.None?
      ensures var all := AllPaths(nodes, Roots(nodes, order));
        && NoDup(all)
        && forall p :: p in all <==> LeafPath(nodes, p) && nodes[p[0]].parent.None?
    {
      PrayPaths(nodes, order);
      LinkedChildrenPresent(nodes);
      var heap := PushAll();
      top, popped, left := TakeTop(heap, k);
      TopRoots(nodes, order, sim, popped, left);
    }
  }


  /** Selecting from the candidates of all paths buckets records only under
      roots of the store. */
  lemma TopRoots(nodes: Nodes, order: seq<Id>, sim: (string, string) -> real, popped: seq<Entry>, left: seq<Entry>)
    requires ChildrenPresent(nodes) && KeysInOrder(nodes, order)
    requires LeafPaths(nodes, AllPaths(nodes, Roots(nodes, order)))
    requires multiset(popped) + multiset(left) == multiset(Candidates(nodes, order, sim, AllPaths(nodes, Roots(nodes, order))))
    requires Rooted(popped)
    ensures forall r :: r in Bucket(popped) ==> r in nodes && nodes[r].parent.None?
  {
    var roots := Roots(nodes, order);
    var all := AllPaths(nodes, roots);
    var cands := Candidates(nodes, order, sim, all);
    AllPathsShape(nodes, roots);
    BucketFrom(popped, left, cands);
    forall r | r in Bucket(popped) ensures r in nodes && nodes[r].parent.None? {
      var j :| 0 <= j < |cands| && |cands[j].record.path| > 0 && cands[j].record.path[0] == r;
      assert all[j] in all;
    }
  }

  /** The paths of the first `i + 1` roots are those of the first `i`
      followed by those of root `i`. */
  lemma AllPathsStep(nodes: Nodes, roots: seq<Id>, i: nat)
    requires ChildrenPresent(nodes)
    requires forall j :: 0 <= j < |roots| ==> roots[j] in nodes
    requires i < |roots|
    ensures AllPaths(nodes, roots[..i + 1]) == AllPaths(nodes, roots[..i]) + PathsFrom(nodes, roots[i], {})
  {
    assert roots[..i + 1][..i] == roots[..i];
  }

  /** Pushing the entry of one more path. */
  lemma CandidatesSnoc(nodes: Nodes, order: seq<Id>, sim: (string, string) -> real, ps: seq<seq<Id>>, p: seq<Id>)
    requires KeysInOrder(nodes, order)
    requires forall i :: 0 <= i < |ps| ==> |ps[i]| > 0 && InStore(nodes, ps[i])
    requires |p| > 0 && InStore(nodes, p)
    ensures Candidates(nodes, order, sim, ps + [p]) ==
      Candidates(nodes, order, sim, ps) + [Entry(Score(nodes, order, sim, p).total, |ps|, Record(nodes, order, sim, p))]
  {
    var a := Candidates(nodes, order, sim, ps + [p]);
    var b := Candidates(nodes, order, sim, ps) + [Entry(Score(nodes, order, sim, p).total, |ps|, Record(nodes, order, sim, p))];
    forall i | 0 <= i < |a| ensures a[i] == b[i] {
      if i < |ps| {
        assert (ps + [p])[i] == ps[i];
      }
    }
  }
}
