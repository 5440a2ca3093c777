/** The identifier-indexed node store as a value: the shape invariants the
    engine keeps, and the effect of each store-changing step of the engine
    (context walk, relation discovery, insertion, deletion) as a function. */
module Store {
  import opened Base

  type Nodes = map<Id, NodeRec>

  // ---------------------------------------------------------------------------
  // Shape of the store

  /** `order` lists the keys of `nodes` once each, in insertion order
      (the iteration order of the source's dictionary). */
  ghost predicate KeysInOrder(nodes: Nodes, order: seq<Id>)
  {
    && NoDup(order)
    && (forall i :: 0 <= i < |order| ==> order[i] in nodes)
    && (forall id :: id in nodes ==> id in order)
  }

  /** Every parent reference names a node of the store. */
  ghost predicate ParentsPresent(nodes: Nodes)
  {
    forall id :: id in nodes && nodes[id].parent.Some? ==> nodes[id].parent.value in nodes
  }

  /** Tree links agree both ways: a node with a parent is among that parent's
      children, every child listed is present and names its parent back, and
      no node lists a child twice. */
  ghost predicate Linked(nodes: Nodes)
  {
    && ParentsPresent(nodes)
    && (forall id :: id in nodes && nodes[id].parent.Some? ==> id in nodes[nodes[id].parent.value].children)
    && (forall p, i :: p in nodes && 0 <= i < |nodes[p].children| ==>
          nodes[p].children[i] in nodes && nodes[nodes[p].children[i]].parent == Some(p))
    && (forall p :: p in nodes ==> NoDup(nodes[p].children))
  }

  /** Every listed child is a node of the store. */
  ghost predicate ChildrenPresent(nodes: Nodes)
  {
    forall p, i :: p in nodes && 0 <= i < |nodes[p].children| ==> nodes[p].children[i] in nodes
  }

  lemma LinkedChildrenPresent(nodes: Nodes)
    requires Linked(nodes)
    ensures ChildrenPresent(nodes)
  {
  }

  /** Relations are symmetric in count between nodes that are both present. */
  ghost predicate RelationsSymmetric(nodes: Nodes)
  {
    forall a, b :: a in nodes && b in nodes ==>
      multiset(nodes[a].relations)[b] == multiset(nodes[b].relations)[a]
  }

  /** An identifier the store has never handed out: not a key and not named by
      any relation list (identifiers are never reused). */
  ghost predicate Fresh(nodes: Nodes, id: Id)
  {
    id !in nodes && forall k :: k in nodes ==> id !in nodes[k].relations
  }

  // ---------------------------------------------------------------------------
  // Context history

  /** The upward walk from `cur`, newest first: one entry per visited node, at
      most until `depth` reaches `window` or a node without parent is passed. */
  function Ancestors(nodes: Nodes, cur: Option<Id>, depth: nat, window: int): (a: seq<ContextEntry>)
    requires ParentsPresent(nodes)
    requires cur.Some? ==> cur.value in nodes
    ensures |a| <= (if window > depth then window - depth else 0)
    ensures a != [] <==> cur.Some? && depth < window
    ensures a != [] ==> a[0].nodeId == cur.value && a[0].depth == depth
    decreases if window > depth then window - depth else 0
  {
    if cur.None? || depth >= window then []
    else
      var n := nodes[cur.value];
      [ContextEntry(n.prompt, n.thought, depth, cur.value)] + Ancestors(nodes, n.parent, depth + 1, window)
  }

  /** One step of the walk, after the entries already collected. */
  lemma AncestorsUnfold(nodes: Nodes, front: seq<ContextEntry>, cur: Option<Id>, depth: nat, window: int)
    requires ParentsPresent(nodes)
    requires cur.Some? && cur.value in nodes && depth < window
    ensures var n := nodes[cur.value];
      front + Ancestors(nodes, cur, depth, window) ==
      (front + [ContextEntry(n.prompt, n.thought, depth, cur.value)]) + Ancestors(nodes, n.parent, depth + 1, window)
  {
    var n := nodes[cur.value];
    var e := ContextEntry(n.prompt, n.thought, depth, cur.value);
    var rest := Ancestors(nodes, n.parent, depth + 1, window);
    assert Ancestors(nodes, cur, depth, window) == [e] + rest;
    assert front + ([e] + rest) == (front + [e]) + rest;
  }

  function Reverse<T>(s: seq<T>): (r: seq<T>)
    ensures |r| == |s|
    ensures forall i :: 0 <= i < |s| ==> r[i] == s[|s| - 1 - i]
  {
    if s == [] then [] else Reverse(s[1..]) + [s[0]]
  }

  /** The context history of a node created under `start`: the walk, oldest first. */
  function History(nodes: Nodes, start: Option<Id>, window: int): (h: seq<ContextEntry>)
    requires ParentsPresent(nodes)
    requires start.Some? ==> start.value in nodes
    ensures |h| <= (if window > 0 then window else 0)
    ensures h != [] <==> start.Some? && window > 0
    ensures h != [] ==> h[|h| - 1].nodeId == start.value && h[|h| - 1].depth == 0
  {
    Reverse(Ancestors(nodes, start, 0, window))
  }

  lemma {:induction false} AncestorsShape(nodes: Nodes, cur: Option<Id>, depth: nat, window: int)
    requires ParentsPresent(nodes)
    requires cur.Some? ==> cur.value in nodes
    ensures var a := Ancestors(nodes, cur, depth, window);
      && |a| <= (if window > depth then window - depth else 0)
      && (cur.Some? && depth < window <==> a != [])
      && (a != [] ==> a[0].nodeId == cur.value)
      && (forall j :: 0 <= j < |a| ==>
            && a[j].depth == depth + j
            && a[j].nodeId in nodes
            && a[j].prompt == nodes[a[j].nodeId].prompt
            && a[j].thought == nodes[a[j].nodeId].thought)
      && (forall j :: 0 <= j < |a| - 1 ==> nodes[a[j].nodeId].parent == Some(a[j + 1].nodeId))
      && (a != [] ==> |a| == window - depth || nodes[a[|a| - 1].nodeId].parent.None?)
    decreases if window > depth then window - depth else 0
  {
    if cur.Some? && depth < window {
      var n := nodes[cur.value];
      AncestorsShape(nodes, n.parent, depth + 1, window);
      var rest := Ancestors(nodes, n.parent, depth + 1, window);
      assert rest != [] ==> rest[0].nodeId == n.parent.value;
    }
  }

  /** The context history holds at most `window` entries, its depths count down
      to 0 at the end (oldest first), its last entry is the start node, and each
      entry is the parent of the one after it. */
  lemma HistoryShape(nodes: Nodes, start: Option<Id>, window: int)
    requires ParentsPresent(nodes)
    requires start.Some? ==> start.value in nodes
    ensures var h := History(nodes, start, window);
      && (start.None? ==> h == [])
      && |h| <= (if window > 0 then window else 0)
      && (h != [] <==> start.Some? && window > 0)
      && (forall i :: 0 <= i < |h| ==> h[i].depth == |h| - 1 - i)
      && (forall i, j :: 0 <= i < j < |h| ==> h[i].depth > h[j].depth)
      && (h != [] ==> h[|h| - 1].nodeId == start.value && h[|h| - 1].depth == 0)
      && (forall i :: 0 <= i < |h| ==> h[i].nodeId in nodes && h[i].prompt == nodes[h[i].nodeId].prompt)
      && (forall i :: 0 <= i < |h| - 1 ==> nodes[h[i + 1].nodeId].parent == Some(h[i].nodeId))
  {
    HistoryEntries(nodes, start, window);
    HistoryLinks(nodes, start, window);
  }

  /** Entry i of the history has depth `len-1-i` and copies its node's prompt. */
  lemma HistoryEntries(nodes: Nodes, start: Option<Id>, window: int)
    requires ParentsPresent(nodes)
    requires start.Some? ==> start.value in nodes
    ensures var h := History(nodes, start, window);
      forall i :: 0 <= i < |h| ==> h[i].depth == |h| - 1 - i && h[i].nodeId in nodes && h[i].prompt == nodes[h[i].nodeId].prompt
  {
    AncestorsShape(nodes, start, 0, window);
    var a := Ancestors(nodes, start, 0, window);
    var h := History(nodes, start, window);
    forall i | 0 <= i < |h|
      ensures h[i].depth == |h| - 1 - i && h[i].nodeId in nodes && h[i].prompt == nodes[h[i].nodeId].prompt
    {
      var j := |a| - 1 - i;
      assert h[i] == a[j];
      assert a[j].depth == j && a[j].nodeId in nodes && a[j].prompt == nodes[a[j].nodeId].prompt;
    }
  }

  /** Each history entry's node is the parent of the next entry's node. */
  lemma HistoryLinks(nodes: Nodes, start: Option<Id>, window: int)
    requires ParentsPresent(nodes)
    requires start.Some? ==> start.value in nodes
    ensures var h := History(nodes, start, window);
      forall i :: 0 <= i < |h| - 1 && h[i + 1].nodeId in nodes ==> nodes[h[i + 1].nodeId].parent == Some(h[i].nodeId)
  {
    var a := Ancestors(nodes, start, 0, window);
    var h := History(nodes, start, window);
    forall i | 0 <= i < |h| - 1 && h[i + 1].nodeId in nodes
      ensures nodes[h[i + 1].nodeId].parent == Some(h[i].nodeId)
    {
      var j := |a| - 2 - i;
      assert h[i + 1] == a[j] && h[i] == a[j + 1];
      AncestorsParent(nodes, start, 0, window, j);
    }
  }

  /** Entry `j` of the walk is the child of entry `j + 1`. */
  lemma {:induction false} AncestorsParent(nodes: Nodes, cur: Option<Id>, depth: nat, window: int, j: nat)
    requires ParentsPresent(nodes)
    requires cur.Some? ==> cur.value in nodes
    requires j + 1 < |Ancestors(nodes, cur, depth, window)|
    ensures var a := Ancestors(nodes, cur, depth, window);
      a[j].nodeId in nodes && nodes[a[j].nodeId].parent == Some(a[j + 1].nodeId)
    decreases j
  {
    var n := nodes[cur.value];
    var rest := Ancestors(nodes, n.parent, depth + 1, window);
    if j > 0 {
      AncestorsParent(nodes, n.parent, depth + 1, window, j - 1);
    }
  }

  /** A history shorter than the window reaches back to a node without a
      parent: the walk stops only at the window or at a root. */
  lemma HistoryStops(nodes: Nodes, start: Option<Id>, window: int)
    requires ParentsPresent(nodes)
    requires start.Some? ==> start.value in nodes
    ensures var h := History(nodes, start, window);
      h != [] ==> |h| == window || (h[0].nodeId in nodes && nodes[h[0].nodeId].parent.None?)
  {
    AncestorsShape(nodes, start, 0, window);
    var a := Ancestors(nodes, start, 0, window);
    var h := History(nodes, start, window);
    if h != [] {
      assert h[0] == a[|a| - 1];
    }
  }

  // ---------------------------------------------------------------------------
  // Relation discovery

  /** `other` is related to `id`: a different node whose text is strictly more
      similar to `id`'s than the threshold. */
  predicate Close(nodes: Nodes, id: Id, other: Id, sim: (string, string) -> real, threshold: real)
    requires id in nodes && other in nodes
  {
    other != id && sim(Text(nodes[id]), Text(nodes[other])) > threshold
  }

  /** The identifiers of `scan`, in order, that are related to `id`. */
  function RelatedIds(nodes: Nodes, scan: seq<Id>, id: Id, sim: (string, string) -> real, threshold: real): (r: seq<Id>)
    requires id in nodes
    requires forall i :: 0 <= i < |scan| ==> scan[i] in nodes
    ensures forall o :: o in r <==> o in scan && Close(nodes, id, o, sim, threshold)
    ensures NoDup(scan) ==> NoDup(r)
    ensures id !in r
  {
    if scan == [] then []
    else
      var rest := RelatedIds(nodes, scan[..|scan| - 1], id, sim, threshold);
      var o := scan[|scan| - 1];
      assert scan == scan[..|scan| - 1] + [o];
      if Close(nodes, id, o, sim, threshold) then rest + [o] else rest
  }

  /** The store after the relation scan has visited the keys in `scan`: `id`
      gains every related identifier seen, and every related node gains `id`. */
  function Relate(nodes: Nodes, scan: seq<Id>, id: Id, sim: (string, string) -> real, threshold: real): (m: Nodes)
    requires id in nodes
    requires forall i :: 0 <= i < |scan| ==> scan[i] in nodes
    ensures m.Keys == nodes.Keys
  {
    map k | k in nodes ::
      if k == id then nodes[k].(relations := nodes[k].relations + RelatedIds(nodes, scan, id, sim, threshold))
      else if k in scan && Close(nodes, id, k, sim, threshold) then nodes[k].(relations := nodes[k].relations + [id])
      else nodes[k]
  }

  /** A relation recorded on both sides: each node's list gains the other. */
  function Link(m: Nodes, a: Id, b: Id): Nodes
    requires a in m && b in m
  {
    m[a := m[a].(relations := m[a].relations + [b])][b := m[b].(relations := m[b].relations + [a])]
  }

  /** One more key of the scan order: `Relate` over the first `i + 1` keys is
      `m`, the store after the first `i`, with the links for key `i` added
      when it is another node more similar than the threshold. */
  lemma RelateNext(nodes: Nodes, order: seq<Id>, i: nat, id: Id, sim: (string, string) -> real, threshold: real, m: Nodes)
    requires id in nodes && KeysInOrder(nodes, order) && i < |order|
    requires m == Relate(nodes, order[..i], id, sim, threshold)
    ensures var o := order[i];
      Relate(nodes, order[..i + 1], id, sim, threshold) ==
        if o != id && sim(Text(nodes[id]), Text(nodes[o])) > threshold then
          Link(m, id, o)
        else m
  {
    assert order[..i + 1] == order[..i] + [order[i]];
    RelateStep(nodes, order[..i], order[i], id, sim, threshold);
  }

  /** Scanning one more identifier `o`: when it is close to `id`, `id` gains
      `o` and then `o` gains `id`; otherwise nothing changes. */
  lemma RelateStep(nodes: Nodes, scan: seq<Id>, o: Id, id: Id, sim: (string, string) -> real, threshold: real)
    requires id in nodes && o in nodes && o !in scan
    requires forall i :: 0 <= i < |scan| ==> scan[i] in nodes
    ensures var m := Relate(nodes, scan, id, sim, threshold);
      Relate(nodes, scan + [o], id, sim, threshold) ==
        if Close(nodes, id, o, sim, threshold) then
          Link(m, id, o)
        else m
  {
    if Close(nodes, id, o, sim, threshold) {
      RelateStepClose(nodes, scan, o, id, sim, threshold);
    } else {
      RelateStepFar(nodes, scan, o, id, sim, threshold);
    }
  }

  /** `RelateStep` for an identifier close to `id`: both gain a link. */
  lemma RelateStepClose(nodes: Nodes, scan: seq<Id>, o: Id, id: Id, sim: (string, string) -> real, threshold: real)
    requires id in nodes && o in nodes && o !in scan
    requires forall i :: 0 <= i < |scan| ==> scan[i] in nodes
    requires Close(nodes, id, o, sim, threshold)
    ensures var m := Relate(nodes, scan, id, sim, threshold);
      Relate(nodes, scan + [o], id, sim, threshold) ==
        Link(m, id, o)
  {
    var m := Relate(nodes, scan, id, sim, threshold);
    var m' := Relate(nodes, scan + [o], id, sim, threshold);
    assert (scan + [o])[..|scan|] == scan;
    var r := RelatedIds(nodes, scan, id, sim, threshold);
    assert RelatedIds(nodes, scan + [o], id, sim, threshold) == r + [o];
    var u := Link(m, id, o);
    assert m'.Keys == u.Keys;
    forall k | k in m' ensures m'[k] == u[k] {
      if k == id {
        assert nodes[k].relations + (r + [o]) == nodes[k].relations + r + [o];
      }
    }
  }

  /** `RelateStep` for an identifier not close to `id`: nothing changes. */
  lemma RelateStepFar(nodes: Nodes, scan: seq<Id>, o: Id, id: Id, sim: (string, string) -> real, threshold: real)
    requires id in nodes && o in nodes && o !in scan
    requires forall i :: 0 <= i < |scan| ==> scan[i] in nodes
    requires !Close(nodes, id, o, sim, threshold)
    ensures Relate(nodes, scan + [o], id, sim, threshold) == Relate(nodes, scan, id, sim, threshold)
  {
    var m := Relate(nodes, scan, id, sim, threshold);
    var m' := Relate(nodes, scan + [o], id, sim, threshold);
    assert (scan + [o])[..|scan|] == scan;
    assert RelatedIds(nodes, scan + [o], id, sim, threshold) == RelatedIds(nodes, scan, id, sim, threshold);
    assert m'.Keys == m.Keys;
    forall k | k in m' ensures m'[k] == m[k] {
    }
  }

  /** Scanning nothing changes nothing. */
  lemma RelateEmpty(nodes: Nodes, id: Id, sim: (string, string) -> real, threshold: real)
    requires id in nodes
    ensures Relate(nodes, [], id, sim, threshold) == nodes
  {
    var m := Relate(nodes, [], id, sim, threshold);
    assert nodes[id].relations + [] == nodes[id].relations;
    assert forall k :: k in m ==> m[k] == nodes[k];
  }

  /** Relation discovery changes nothing but relation lists; between `id` and
      any other node the number of links added is the same on both sides, and
      is one exactly when the two are close; `id` never gains itself. */
  lemma RelateEffect(nodes: Nodes, order: seq<Id>, id: Id, sim: (string, string) -> real, threshold: real)
    requires id in nodes && KeysInOrder(nodes, order)
    ensures var m := Relate(nodes, order, id, sim, threshold);
      && (forall k :: k in nodes ==> m[k] == nodes[k].(relations := m[k].relations))
      && multiset(m[id].relations)[id] == multiset(nodes[id].relations)[id]
      && (forall o :: o in nodes && o != id ==>
            && multiset(m[id].relations)[o] - multiset(nodes[id].relations)[o]
               == multiset(m[o].relations)[id] - multiset(nodes[o].relations)[id]
               == (if Close(nodes, id, o, sim, threshold) then 1 else 0))
  {
    var m := Relate(nodes, order, id, sim, threshold);
    var r := RelatedIds(nodes, order, id, sim, threshold);
    assert multiset(m[id].relations) == multiset(nodes[id].relations) + multiset(r);
    forall o | o in nodes && o != id
      ensures multiset(r)[o] == (if Close(nodes, id, o, sim, threshold) then 1 else 0)
    {
      NoDupCount(r, o);
    }
  }

  lemma {:induction false} NoDupCount(s: seq<Id>, x: Id)
    requires NoDup(s)
    ensures multiset(s)[x] == (if x in s then 1 else 0)
  {
    if s != [] {
      assert s == [s[0]] + s[1..];
      NoDupCount(s[1..], x);
    }
  }

  /** Relation discovery keeps relations symmetric. */
  lemma RelatePreservesSymmetry(nodes: Nodes, order: seq<Id>, id: Id, sim: (string, string) -> real, threshold: real)
    requires id in nodes && KeysInOrder(nodes, order)
    requires RelationsSymmetric(nodes)
    ensures RelationsSymmetric(Relate(nodes, order, id, sim, threshold))
  {
    var m := Relate(nodes, order, id, sim, threshold);
    RelateEffect(nodes, order, id, sim, threshold);
    forall a, b | a in m && b in m
      ensures multiset(m[a].relations)[b] == multiset(m[b].relations)[a]
    {
      if a != id && b != id {
        assert multiset(m[a].relations)[b] == multiset(nodes[a].relations)[b] by {
          if a in order && Close(nodes, id, a, sim, threshold) {
            assert m[a].relations == nodes[a].relations + [id];
          }
        }
        assert multiset(m[b].relations)[a] == multiset(nodes[b].relations)[a] by {
          if b in order && Close(nodes, id, b, sim, threshold) {
            assert m[b].relations == nodes[b].relations + [id];
          }
        }
      }
    }
  }

  /** Relation discovery keeps the tree links consistent. */
  lemma RelatePreservesLinked(nodes: Nodes, order: seq<Id>, id: Id, sim: (string, string) -> real, threshold: real)
    requires id in nodes && KeysInOrder(nodes, order)
    requires Linked(nodes)
    ensures Linked(Relate(nodes, order, id, sim, threshold))
  {
    var m := Relate(nodes, order, id, sim, threshold);
    assert forall k :: k in m ==> m[k].parent == nodes[k].parent && m[k].children == nodes[k].children;
  }

  // ---------------------------------------------------------------------------
  // Insertion and deletion

  /** The store after a node `rec` is stored under `id`, first appended to its
      parent's children when it has one. */
  function Inserted(nodes: Nodes, id: Id, rec: NodeRec): (m: Nodes)
    requires rec.parent.Some? ==> rec.parent.value in nodes
    ensures m.Keys == nodes.Keys + {id}
  {
    var withChild :=
      if rec.parent.Some? then
        var p := rec.parent.value;
        nodes[p := nodes[p].(children := nodes[p].children + [id])]
      else nodes;
    withChild[id := rec]
  }

  /** What deleting `id` needs: when it is present with a present parent, the
      parent lists it (otherwise the source's `list.remove` raises). */
  ghost predicate CanDelete(nodes: Nodes, id: Id)
  {
    id in nodes && nodes[id].parent.Some? && nodes[id].parent.value in nodes ==>
      id in nodes[nodes[id].parent.value].children
  }

  /** Orphaning no child changes nothing. */
  lemma OrphanNone(nodes: Nodes)
    ensures Orphaned(nodes, []) == nodes
  {
    assert forall k :: k in nodes ==> Orphaned(nodes, [])[k] == nodes[k];
  }

  /** Orphaning one more child `c`: it loses its parent when it is present. */
  lemma OrphanStep(nodes: Nodes, kids: seq<Id>, c: Id)
    ensures var o := Orphaned(nodes, kids);
      Orphaned(nodes, kids + [c]) == if c in nodes then o[c := o[c].(parent := None)] else o
  {
    var o := Orphaned(nodes, kids);
    var o' := Orphaned(nodes, kids + [c]);
    if c in nodes {
      assert forall k :: k in o' ==> o'[k] == o[c := o[c].(parent := None)][k];
    } else {
      assert forall k :: k in o' ==> o'[k] == o[k];
    }
  }

  /** The store after `id` is taken out of its parent's children list. */
  function Detached(nodes: Nodes, id: Id): (m: Nodes)
    requires id in nodes && CanDelete(nodes, id)
    ensures m.Keys == nodes.Keys
  {
    var n := nodes[id];
    if n.parent.Some? && n.parent.value in nodes then
      var p := n.parent.value;
      nodes[p := nodes[p].(children := RemoveFirst(nodes[p].children, id))]
    else nodes
  }

  /** The store after the nodes named in `kids` lose their parent. */
  function Orphaned(nodes: Nodes, kids: seq<Id>): (m: Nodes)
    ensures m.Keys == nodes.Keys
  {
    map k | k in nodes :: if k in kids then nodes[k].(parent := None) else nodes[k]
  }

  /** Deleting `id`: no change when it is absent; otherwise detach it from its
      parent, orphan its present children and drop the key. */
  function Deleted(nodes: Nodes, id: Id): (m: Nodes)
    requires CanDelete(nodes, id)
    ensures m.Keys == nodes.Keys - {id}
  {
    if id !in nodes then nodes
    else
      var m1 := Detached(nodes, id);
      Orphaned(m1, m1[id].children) - {id}
  }

  /** Deleting a key takes it out of the key order. */
  lemma DeleteKeys(nodes: Nodes, order: seq<Id>, id: Id)
    requires CanDelete(nodes, id) && KeysInOrder(nodes, order)
    ensures KeysInOrder(Deleted(nodes, id), Without(order, id))
  {
    var w := Without(order, id);
    forall i | 0 <= i < |w| ensures w[i] in Deleted(nodes, id) {
      assert w[i] in w;
    }
  }

  /** Deletion: an absent id is a no-op; otherwise only the key goes, the
      parent loses exactly one occurrence of it, each present child becomes a
      root, and every other record stays as it was. */
  lemma DeleteEffect(nodes: Nodes, id: Id)
    requires CanDelete(nodes, id)
    ensures id !in nodes ==> Deleted(nodes, id) == nodes
    ensures id in nodes ==> var m := Deleted(nodes, id); var n := nodes[id];
      && m.Keys == nodes.Keys - {id}
      && (forall k :: k in m ==>
            m[k] == nodes[k].(
              children := if n.parent == Some(k) then RemoveFirst(nodes[k].children, id) else nodes[k].children,
              parent := if k in n.children then None else nodes[k].parent))
  {
    if id in nodes {
      var m := Deleted(nodes, id);
      var n := nodes[id];
      var m1 := Detached(nodes, id);
      forall k | k in m
        ensures k in m1[id].children <==> k in n.children
      {
      }
    }
  }

  /** The parent of a deleted node keeps its children in order except for one
      occurrence of the deleted identifier. */
  lemma DeleteParentChildren(nodes: Nodes, id: Id)
    requires CanDelete(nodes, id)
    requires id in nodes && nodes[id].parent.Some? && nodes[id].parent.value in nodes
    requires nodes[id].parent.value != id
    ensures var p := nodes[id].parent.value; var m := Deleted(nodes, id);
      && p in m
      && multiset(m[p].children) == multiset(nodes[p].children) - multiset{id}
      && |m[p].children| == |nodes[p].children| - 1
      && exists i :: 0 <= i < |nodes[p].children| && nodes[p].children[i] == id
           && id !in nodes[p].children[..i]
           && m[p].children == nodes[p].children[..i] + nodes[p].children[i + 1..]
  {
    DeleteEffect(nodes, id);
  }

  /** Deleting a node keeps the tree links consistent. */
  lemma DeletePreservesLinked(nodes: Nodes, id: Id)
    requires Linked(nodes)
    ensures CanDelete(nodes, id)
    ensures Linked(Deleted(nodes, id))
  {
    if id in nodes {
      var m := Deleted(nodes, id);
      var n := nodes[id];
      DeleteEffect(nodes, id);
      forall k | k in m && m[k].parent.Some?
        ensures m[k].parent.value in m && k in m[m[k].parent.value].children
      {
        var p := m[k].parent.value;
        assert k !in n.children && nodes[k].parent == Some(p);
        assert p != id;
        assert k != id;
      }
      forall p, i | p in m && 0 <= i < |m[p].children|
        ensures m[p].children[i] in m && m[m[p].children[i]].parent == Some(p)
      {
        var c := m[p].children[i];
        assert c in m[p].children;
        if n.parent == Some(p) {
          assert c != id by {
            assert multiset(m[p].children) == multiset(nodes[p].children) - multiset{id};
            NoDupCount(nodes[p].children, id);
          }
        }
        assert c in nodes[p].children;
        assert nodes[c].parent == Some(p);
        assert c !in n.children;
      }
      forall p | p in m
        ensures NoDup(m[p].children)
      {
        if n.parent == Some(p) {
          RemoveFirstNoDup(nodes[p].children, id);
        }
      }
    }
  }

  lemma RemoveFirstNoDup(s: seq<Id>, x: Id)
    requires x in s && NoDup(s)
    ensures NoDup(RemoveFirst(s, x))
  {
    var i := IndexOf(s, x);
    assert RemoveFirst(s, x) == s[..i] + s[i + 1..];
  }

  /** Deleting a node keeps relations symmetric among the nodes that remain. */
  lemma DeletePreservesSymmetry(nodes: Nodes, id: Id)
    requires CanDelete(nodes, id) && RelationsSymmetric(nodes)
    ensures RelationsSymmetric(Deleted(nodes, id))
  {
    DeleteKeepsRelations(nodes, id);
    SymmetryOnSubstore(nodes, Deleted(nodes, id));
  }

  /** Deleting a node leaves the relation lists of the others untouched. */
  lemma DeleteKeepsRelations(nodes: Nodes, id: Id)
    requires CanDelete(nodes, id)
    ensures forall a :: a in Deleted(nodes, id) ==> Deleted(nodes, id)[a].relations == nodes[a].relations
  {
    var m := Deleted(nodes, id);
    if id in nodes {
      var m1 := Detached(nodes, id);
      assert forall a :: a in m1 ==> m1[a].relations == nodes[a].relations;
      var o := Orphaned(m1, m1[id].children);
      assert forall a :: a in o ==> o[a].relations == m1[a].relations;
      assert forall a :: a in m ==> m[a] == o[a];
    }
  }

  /** A sub-store whose nodes keep their relation lists keeps them symmetric. */
  lemma SymmetryOnSubstore(nodes: Nodes, m: Nodes)
    requires RelationsSymmetric(nodes) && m.Keys <= nodes.Keys
    requires forall a :: a in m ==> m[a].relations == nodes[a].relations
    ensures RelationsSymmetric(m)
  {
  }

  /** Inserting a fresh childless node keeps the tree links consistent and
      extends the key order by the new identifier. */
  lemma InsertPreservesLinked(nodes: Nodes, order: seq<Id>, id: Id, rec: NodeRec)
    requires Linked(nodes) && KeysInOrder(nodes, order) && id !in nodes
    requires rec.parent.Some? ==> rec.parent.value in nodes
    requires rec.children == []
    ensures Linked(Inserted(nodes, id, rec))
    ensures KeysInOrder(Inserted(nodes, id, rec), order + [id])
  {
    var m := Inserted(nodes, id, rec);
    InsertChildLists(nodes, id, rec);
    InsertKeys(nodes, order, id, rec);
    forall k | k in m && m[k].parent.Some?
      ensures m[k].parent.value in m && k in m[m[k].parent.value].children
    {
      if k != id {
        assert m[k].parent == nodes[k].parent;
        var p := nodes[k].parent.value;
        assert k in nodes[p].children;
      }
    }
  }

  /** After inserting a fresh childless node, every listed child is present and
      names its parent back, and no list holds a child twice. */
  lemma InsertChildLists(nodes: Nodes, id: Id, rec: NodeRec)
    requires Linked(nodes) && id !in nodes
    requires rec.parent.Some? ==> rec.parent.value in nodes
    requires rec.children == []
    ensures var m := Inserted(nodes, id, rec);
      && (forall p :: p in m ==> NoDup(m[p].children))
      && (forall p, i :: p in m && 0 <= i < |m[p].children| ==>
            m[p].children[i] in m && m[m[p].children[i]].parent == Some(p))
  {
    var m := Inserted(nodes, id, rec);
    forall p | p in m
      ensures NoDup(m[p].children)
    {
      if rec.parent == Some(p) {
        assert id !in nodes[p].children;
      }
    }
    forall p, i | p in m && 0 <= i < |m[p].children|
      ensures m[p].children[i] in m && m[m[p].children[i]].parent == Some(p)
    {
      if rec.parent == Some(p) && i < |nodes[p].children| {
        assert m[p].children[i] == nodes[p].children[i];
      }
    }
  }

  lemma InsertKeys(nodes: Nodes, order: seq<Id>, id: Id, rec: NodeRec)
    requires KeysInOrder(nodes, order) && id !in nodes
    requires rec.parent.Some? ==> rec.parent.value in nodes
    ensures KeysInOrder(Inserted(nodes, id, rec), order + [id])
  {
  }

  /** A fresh node with no relations of its own keeps relations symmetric. */
  lemma InsertPreservesSymmetry(nodes: Nodes, id: Id, rec: NodeRec)
    requires Fresh(nodes, id) && RelationsSymmetric(nodes)
    requires rec.parent.Some? ==> rec.parent.value in nodes
    requires rec.relations == []
    ensures RelationsSymmetric(Inserted(nodes, id, rec))
  {
    var m := Inserted(nodes, id, rec);
    forall a, b | a in m && b in m
      ensures multiset(m[a].relations)[b] == multiset(m[b].relations)[a]
    {
      assert a in nodes ==> m[a].relations == nodes[a].relations;
      assert b in nodes ==> m[b].relations == nodes[b].relations;
    }
  }

  lemma RemoveAppended(s: seq<Id>, x: Id)
    requires x !in s
    ensures RemoveFirst(s + [x], x) == s
  {
    var i := IndexOf(s + [x], x);
    assert (s + [x])[..|s|] == s;
  }

  /** Storing a fresh childless node without relations and discovering its
      relations keeps the store's shape, and so does deleting it again. */
  lemma ExpansionShape(nodes: Nodes, order: seq<Id>, id: Id, rec: NodeRec, sim: (string, string) -> real, threshold: real)
    requires Linked(nodes) && KeysInOrder(nodes, order) && RelationsSymmetric(nodes) && Fresh(nodes, id)
    requires rec.parent.Some? ==> rec.parent.value in nodes
    requires rec.children == [] && rec.relations == []
    ensures var m1 := Relate(Inserted(nodes, id, rec), order + [id], id, sim, threshold);
      && Linked(m1) && KeysInOrder(m1, order + [id]) && RelationsSymmetric(m1)
      && CanDelete(m1, id)
      && var m2 := Deleted(m1, id);
      && Linked(m2) && KeysInOrder(m2, order) && RelationsSymmetric(m2)
  {
    var m0 := Inserted(nodes, id, rec);
    InsertPreservesLinked(nodes, order, id, rec);
    InsertPreservesSymmetry(nodes, id, rec);
    var m1 := Relate(m0, order + [id], id, sim, threshold);
    RelatePreservesLinked(m0, order + [id], id, sim, threshold);
    RelatePreservesSymmetry(m0, order + [id], id, sim, threshold);
    DeletePreservesLinked(m1, id);
    DeletePreservesSymmetry(m1, id);
    DeleteKeys(m1, order + [id], id);
    WithoutAppended(order, id);
  }

  /** `nodes` where every node whose text is strictly more similar to `text`
      than the threshold has `id` appended to its relations, and nothing else
      changes. */
  function Dangling(nodes: Nodes, id: Id, text: string, sim: (string, string) -> real, threshold: real): (m: Nodes)
    ensures m.Keys == nodes.Keys
  {
    map k | k in nodes :: nodes[k].(relations := nodes[k].relations + (if sim(text, Text(nodes[k])) > threshold then [id] else []))
  }

  /** The store after a fresh node `rec` is stored under `id` and its
      relations are discovered against the key order extended by `id`. */
  function Grown(nodes: Nodes, order: seq<Id>, id: Id, rec: NodeRec, sim: (string, string) -> real, threshold: real): (m: Nodes)
    requires KeysInOrder(nodes, order) && id !in nodes
    requires rec.parent.Some? ==> rec.parent.value in nodes
    ensures m.Keys == nodes.Keys + {id}
  {
    InsertKeys(nodes, order, id, rec);
    Relate(Inserted(nodes, id, rec), order + [id], id, sim, threshold)
  }

  /** The store effect of expanding a prompt whose new node the relevance gate
      rejects: inserting it under its parent, discovering its relations and
      deleting it again leaves the same keys, the same children lists and
      parents, and changes only relation lists, where every node that was close
      to the rejected node keeps the rejected identifier, now dangling. */
  lemma RejectedExpansion(nodes: Nodes, order: seq<Id>, id: Id, rec: NodeRec, sim: (string, string) -> real, threshold: real)
    requires KeysInOrder(nodes, order) && id !in nodes
    requires rec.parent.Some? ==> rec.parent.value in nodes && id !in nodes[rec.parent.value].children
    requires rec.children == []
    ensures var m1 := Relate(Inserted(nodes, id, rec), order + [id], id, sim, threshold);
      && CanDelete(m1, id)
      && Deleted(m1, id) == Dangling(nodes, id, Text(rec), sim, threshold)
  {
    var m1 := Relate(Inserted(nodes, id, rec), order + [id], id, sim, threshold);
    assert CanDelete(m1, id) && m1.Keys == nodes.Keys + {id} by {
      RelatedRecords(nodes, order, id, rec, sim, threshold);
    }
    var m2 := Deleted(m1, id);
    forall k | k in nodes
      ensures m2[k] == nodes[k].(relations := nodes[k].relations + (if sim(Text(rec), Text(nodes[k])) > threshold then [id] else []))
    {
      RejectedRecord(nodes, order, id, rec, sim, threshold, k);
    }
    DanglingEntries(nodes, m2, id, Text(rec), sim, threshold);
  }

  /** `RejectedExpansion` for the record under one key. */
  lemma RejectedRecord(nodes: Nodes, order: seq<Id>, id: Id, rec: NodeRec, sim: (string, string) -> real, threshold: real, k: Id)
    requires KeysInOrder(nodes, order) && id !in nodes
    requires rec.parent.Some? ==> rec.parent.value in nodes && id !in nodes[rec.parent.value].children
    requires rec.children == []
    requires k in nodes
    ensures var m1 := Relate(Inserted(nodes, id, rec), order + [id], id, sim, threshold);
      && CanDelete(m1, id)
      && k in Deleted(m1, id)
      && Deleted(m1, id)[k] == nodes[k].(relations := nodes[k].relations + (if sim(Text(rec), Text(nodes[k])) > threshold then [id] else []))
  {
    var m1 := Relate(Inserted(nodes, id, rec), order + [id], id, sim, threshold);
    RelatedRecords(nodes, order, id, rec, sim, threshold);
    DeleteEffect(m1, id);
    if rec.parent == Some(k) {
      RemoveAppended(nodes[k].children, id);
    }
  }

  /** A store with the keys of `nodes`, where each record is the original one
      with `id` appended to its relations exactly when it is close to `text`,
      is `Dangling(nodes, id, text, ...)`. */
  lemma DanglingEntries(nodes: Nodes, m: Nodes, id: Id, text: string, sim: (string, string) -> real, threshold: real)
    requires m.Keys == nodes.Keys
    requires forall k :: k in nodes ==>
      m[k] == nodes[k].(relations := nodes[k].relations + (if sim(text, Text(nodes[k])) > threshold then [id] else []))
    ensures m == Dangling(nodes, id, text, sim, threshold)
  {
    var d := Dangling(nodes, id, text, sim, threshold);
    assert forall k :: k in m ==> m[k] == d[k];
  }

  /** The records after a fresh node is inserted and its relations found. */
  lemma RelatedRecords(nodes: Nodes, order: seq<Id>, id: Id, rec: NodeRec, sim: (string, string) -> real, threshold: real)
    requires KeysInOrder(nodes, order) && id !in nodes
    requires rec.parent.Some? ==> rec.parent.value in nodes
    ensures var m1 := Relate(Inserted(nodes, id, rec), order + [id], id, sim, threshold);
      && m1[id].parent == rec.parent && m1[id].children == rec.children
      && (forall k :: k in nodes ==>
            m1[k] == nodes[k].(
              children := if rec.parent == Some(k) then nodes[k].children + [id] else nodes[k].children,
              relations := nodes[k].relations + (if sim(Text(rec), Text(nodes[k])) > threshold then [id] else [])))
  {
    var m0 := Inserted(nodes, id, rec);
    var m1 := Relate(m0, order + [id], id, sim, threshold);
    forall k | k in nodes
      ensures m1[k] == nodes[k].(
              children := if rec.parent == Some(k) then nodes[k].children + [id] else nodes[k].children,
              relations := nodes[k].relations + (if sim(Text(rec), Text(nodes[k])) > threshold then [id] else []))
    {
      assert k != id;
      assert Text(m0[k]) == Text(nodes[k]) && Text(m0[id]) == Text(rec);
      assert k in order + [id];
    }
  }
}
