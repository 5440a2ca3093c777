/** Depth-first enumeration of root-to-leaf paths: the paths as a function of
    the store, what every such path looks like, and the mutable search state
    (`visited`, `path`, `paths`) that the recursive search shares between its
    calls. */
module Paths {
  import opened Base
  import opened Store

  /** Every path of `ps` with `pre` in front. */
  function Prepend(pre: seq<Id>, ps: seq<seq<Id>>): (r: seq<seq<Id>>)
    ensures |r| == |ps|
    ensures forall i :: 0 <= i < |ps| ==> r[i] == pre + ps[i]
  {
    seq(|ps|, i requires 0 <= i < |ps| => pre + ps[i])
  }

  /** The paths the search reports from `start` when `visited` holds the nodes
      already on the current path: `[start]` at a leaf, otherwise `start` in
      front of the paths through each unvisited child, in children order. */
  function PathsFrom(nodes: Nodes, start: Id, visited: set<Id>): (r: seq<seq<Id>>)
    requires ChildrenPresent(nodes) && start in nodes && start !in visited
    decreases nodes.Keys - visited, 0
  {
    var v := visited + {start};
    if nodes[start].children == [] then [[start]]
    else Prepend([start], PathsOver(nodes, nodes[start].children, v))
  }

  /** The paths through each unvisited node of `kids`, in order. */
  function PathsOver(nodes: Nodes, kids: seq<Id>, v: set<Id>): (r: seq<seq<Id>>)
    requires ChildrenPresent(nodes)
    requires forall i :: 0 <= i < |kids| ==> kids[i] in nodes
    decreases nodes.Keys - v, 1, |kids|
  {
    if kids == [] then []
    else
      var k := kids[|kids| - 1];
      PathsOver(nodes, kids[..|kids| - 1], v) + (if k in v then [] else PathsFrom(nodes, k, v))
  }

  /** A root-to-leaf walk: non-empty, through present nodes, each step from a
      node to one of its children, no node twice, ending at a node without
      children. */
  ghost predicate LeafPath(nodes: Nodes, p: seq<Id>)
  {
    && |p| > 0
    && (forall i :: 0 <= i < |p| ==> p[i] in nodes)
    && (forall i :: 0 <= i < |p| - 1 ==> p[i + 1] in nodes[p[i]].children)
    && NoDup(p)
    && nodes[p[|p| - 1]].children == []
  }

  /** Every reported path starts at `start`, is a leaf path and avoids the
      visited nodes. */
  lemma {:induction false} PathsFromShape(nodes: Nodes, start: Id, visited: set<Id>)
    requires ChildrenPresent(nodes) && start in nodes && start !in visited
    ensures forall p :: p in PathsFrom(nodes, start, visited) ==>
      LeafPath(nodes, p) && p[0] == start && (forall i :: 0 <= i < |p| ==> p[i] !in visited)
    decreases nodes.Keys - visited, 0
  {
    var v := visited + {start};
    var kids := nodes[start].children;
    if kids != [] {
      PathsOverShape(nodes, kids, v);
      var q := PathsOver(nodes, kids, v);
      forall p | p in PathsFrom(nodes, start, visited)
        ensures LeafPath(nodes, p) && p[0] == start && (forall i :: 0 <= i < |p| ==> p[i] !in visited)
      {
        var j :| 0 <= j < |q| && p == [start] + q[j];
        ConsLeafPath(nodes, start, q[j], v);
      }
    }
  }

  /** A step from a node to a leaf path through one of its children that
      avoids it gives a leaf path. */
  lemma ConsLeafPath(nodes: Nodes, start: Id, t: seq<Id>, v: set<Id>)
    requires start in nodes && start in v
    requires LeafPath(nodes, t) && t[0] in nodes[start].children
    requires forall i :: 0 <= i < |t| ==> t[i] !in v
    ensures LeafPath(nodes, [start] + t)
    ensures forall i :: 0 <= i < |t| + 1 ==> i == 0 || ([start] + t)[i] !in v
  {
    var p := [start] + t;
    assert forall i :: 1 <= i < |p| ==> p[i] == t[i - 1];
    forall i, l | 0 <= i < l < |p| ensures p[i] != p[l] {
      if i > 0 {
        assert p[i] == t[i - 1] && p[l] == t[l - 1];
      } else {
        assert p[l] == t[l - 1];
      }
    }
  }

  lemma {:induction false} PathsOverShape(nodes: Nodes, kids: seq<Id>, v: set<Id>)
    requires ChildrenPresent(nodes)
    requires forall i :: 0 <= i < |kids| ==> kids[i] in nodes
    ensures forall p :: p in PathsOver(nodes, kids, v) ==>
      LeafPath(nodes, p) && p[0] in kids && (forall i :: 0 <= i < |p| ==> p[i] !in v)
    decreases nodes.Keys - v, 1, |kids|
  {
    if kids != [] {
      var k := kids[|kids| - 1];
      PathsOverShape(nodes, kids[..|kids| - 1], v);
      if k !in v {
        PathsFromShape(nodes, k, v);
      }
    }
  }

  /** The search misses no path: every leaf path from `start` that avoids the
      visited nodes is reported. */
  lemma {:induction false} PathsFromComplete(nodes: Nodes, start: Id, visited: set<Id>, p: seq<Id>)
    requires ChildrenPresent(nodes) && start in nodes && start !in visited
    requires LeafPath(nodes, p) && p[0] == start
    requires forall i :: 0 <= i < |p| ==> p[i] !in visited
    ensures p in PathsFrom(nodes, start, visited)
    decreases nodes.Keys - visited, 0
  {
    var v := visited + {start};
    var kids := nodes[start].children;
    if |p| == 1 {
      assert p == [start];
    } else {
      assert p[1] in kids;
      var t := p[1..];
      assert p == [start] + t;
      forall i | 0 <= i < |t| ensures t[i] !in v {
        assert t[i] == p[i + 1];
      }
      assert LeafPath(nodes, t) by {
        forall i | 0 <= i < |t| - 1 ensures t[i + 1] in nodes[t[i]].children {
          assert t[i] == p[i + 1] && t[i + 1] == p[i + 2];
        }
        forall i, j | 0 <= i < j < |t| ensures t[i] != t[j] {
          assert t[i] == p[i + 1] && t[j] == p[j + 1];
        }
      }
      PathsOverContains(nodes, kids, v, t);
      var q := PathsOver(nodes, kids, v);
      var j :| 0 <= j < |q| && q[j] == t;
      assert Prepend([start], q)[j] == p;
    }
  }

  /** Every leaf path that avoids `v` and starts at a child listed in `kids`
      is among the paths through `kids`. */
  lemma {:induction false} PathsOverContains(nodes: Nodes, kids: seq<Id>, v: set<Id>, t: seq<Id>)
    requires ChildrenPresent(nodes)
    requires forall i :: 0 <= i < |kids| ==> kids[i] in nodes
    requires LeafPath(nodes, t) && t[0] in kids
    requires forall i :: 0 <= i < |t| ==> t[i] !in v
    ensures t in PathsOver(nodes, kids, v)
    decreases nodes.Keys - v, 1, |kids|
  {
    var k := kids[|kids| - 1];
    var front := kids[..|kids| - 1];
    if t[0] == k {
      PathsFromComplete(nodes, k, v, t);
    } else {
      assert kids == front + [k];
      PathsOverContains(nodes, front, v, t);
    }
  }

  /** Prepending a prefix keeps distinct paths distinct. */
  lemma PrependNoDup(pre: seq<Id>, ps: seq<seq<Id>>)
    requires NoDup(ps)
    ensures NoDup(Prepend(pre, ps))
  {
    var r := Prepend(pre, ps);
    forall i, j | 0 <= i < j < |r| ensures r[i] != r[j] {
      assert r[i][|pre|..] == ps[i] && r[j][|pre|..] == ps[j];
    }
  }

  /** When no children list repeats a child, the search reports each path
      once. */
  lemma {:induction false} PathsFromNoDup(nodes: Nodes, start: Id, visited: set<Id>)
    requires ChildrenPresent(nodes) && start in nodes && start !in visited
    requires forall x :: x in nodes ==> NoDup(nodes[x].children)
    ensures NoDup(PathsFrom(nodes, start, visited))
    decreases nodes.Keys - visited, 0
  {
    var v := visited + {start};
    var kids := nodes[start].children;
    if kids != [] {
      PathsOverNoDup(nodes, kids, v);
      PrependNoDup([start], PathsOver(nodes, kids, v));
    }
  }

  lemma {:induction false} PathsOverNoDup(nodes: Nodes, kids: seq<Id>, v: set<Id>)
    requires ChildrenPresent(nodes)
    requires forall i :: 0 <= i < |kids| ==> kids[i] in nodes
    requires forall x :: x in nodes ==> NoDup(nodes[x].children)
    requires NoDup(kids)
    ensures NoDup(PathsOver(nodes, kids, v))
    decreases nodes.Keys - v, 1, |kids|
  {
    if kids != [] {
      var k := kids[|kids| - 1];
      var front := kids[..|kids| - 1];
      PathsOverNoDup(nodes, front, v);
      if k !in v {
        PathsFromNoDup(nodes, k, v);
        PathsOverShape(nodes, front, v);
        PathsFromShape(nodes, k, v);
        assert k !in front by {
          assert kids == front + [k];
        }
        NoDupAppend(PathsOver(nodes, front, v), PathsFrom(nodes, k, v));
      } else {
        assert PathsOver(nodes, kids, v) == PathsOver(nodes, front, v) + [];
      }
    }
  }

  /** The paths through `kids[..i + 1]` are those through `kids[..i]` followed
      by those through `kids[i]`. */
  lemma PathsOverStep(nodes: Nodes, kids: seq<Id>, v: set<Id>, i: nat)
    requires ChildrenPresent(nodes)
    requires forall j :: 0 <= j < |kids| ==> kids[j] in nodes
    requires i < |kids|
    ensures PathsOver(nodes, kids[..i + 1], v) ==
      PathsOver(nodes, kids[..i], v) + (if kids[i] in v then [] else PathsFrom(nodes, kids[i], v))
  {
    assert kids[..i + 1][..i] == kids[..i];
  }

  /** An empty prefix changes no path. */
  lemma PrependEmpty(ps: seq<seq<Id>>)
    ensures Prepend([], ps) == ps
  {
    assert forall i :: 0 <= i < |ps| ==> [] + ps[i] == ps[i];
  }

  lemma PrependAppend(pre: seq<Id>, a: seq<seq<Id>>, b: seq<seq<Id>>)
    ensures Prepend(pre, a + b) == Prepend(pre, a) + Prepend(pre, b)
  {
  }

  lemma PrependPrepend(pre: seq<Id>, x: Id, ps: seq<seq<Id>>)
    ensures Prepend(pre + [x], ps) == Prepend(pre, Prepend([x], ps))
  {
    forall i | 0 <= i < |ps| ensures pre + [x] + ps[i] == pre + ([x] + ps[i]) {
    }
  }

  /** The arguments `_find_paths` threads through its recursive calls, as the
      fields of one object: the nodes on the current path, the current path,
      and the paths found so far. */
  class PathSearch {
    var visited: set<Id>
    var path: seq<Id>
    var paths: seq<seq<Id>>

    constructor ()
      ensures visited == {} && path == [] && paths == []
    {
      visited, path, paths := {}, [], [];
    }
  }
}
