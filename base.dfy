/** Values shared by every part of the reasoning-tree engine: node records,
    context snapshots and small sequence helpers. */
module Base {

  datatype Option<+T> = None | Some(value: T)

  /** Node identifiers are generated by the node class as non-empty strings,
      so an identifier that is present is always truthy. */
  type Id = s: string | |s| > 0 witness "n"

  /** One snapshot of an ancestor, taken when a node is created:
      `depth` counts the steps up from the node the walk started at. */
  datatype ContextEntry = ContextEntry(prompt: string, thought: string, depth: nat, nodeId: Id)

  /** One exploration step of the tree.
      `score` and `retention` are the node's own depth score and context-retention
      self-score; both are defined by the node class, which is not part of this
      model, so they are carried as given values. */
  datatype NodeRec = NodeRec(
    prompt: string,
    thought: string,
    parent: Option<Id>,
    children: seq<Id>,
    relations: seq<Id>,
    contextHistory: seq<ContextEntry>,
    score: real,
    retention: real)

  /** The text two nodes are compared by: prompt and thought joined by one space. */
  function Text(n: NodeRec): string
  {
    n.prompt + " " + n.thought
  }

  predicate NoDup<T(==)>(s: seq<T>)
  {
    forall i, j :: 0 <= i < j < |s| ==> s[i] != s[j]
  }

  /** Two duplicate-free sequences with no common element concatenate to a
      duplicate-free sequence. */
  lemma NoDupAppend<T>(a: seq<T>, b: seq<T>)
    requires NoDup(a) && NoDup(b)
    requires forall x :: x in a ==> x !in b
    ensures NoDup(a + b)
  {
    var c := a + b;
    forall i, j | 0 <= i < j < |c| ensures c[i] != c[j] {
      if j < |a| {
        assert c[i] == a[i] && c[j] == a[j];
      } else if i >= |a| {
        assert c[i] == b[i - |a|] && c[j] == b[j - |a|];
      } else {
        assert c[i] == a[i] && a[i] in a && c[j] == b[j - |a|];
      }
    }
  }

  /** Appending an element keeps a sequence duplicate-free exactly when the
      element is new. */
  lemma NoDupSnoc<T>(s: seq<T>, x: T)
    ensures NoDup(s + [x]) <==> NoDup(s) && x !in s
  {
    var c := s + [x];
    if NoDup(c) {
      forall i, j | 0 <= i < j < |s| ensures s[i] != s[j] {
        assert c[i] == s[i] && c[j] == s[j];
      }
      forall i | 0 <= i < |s| ensures s[i] != x {
        assert c[i] == s[i] && c[|s|] == x;
      }
    }
    if NoDup(s) && x !in s {
      NoDupAppend(s, [x]);
    }
  }

  /** `s` without its elements equal to `x` (the order of the rest is kept). */
  function Without(s: seq<Id>, x: Id): (r: seq<Id>)
    ensures forall y :: y in r <==> y in s && y != x
    ensures NoDup(s) ==> NoDup(r)
    ensures x !in s ==> r == s
  {
    if s == [] then []
    else if s[0] == x then Without(s[1..], x)
    else
      var rest := Without(s[1..], x);
      assert NoDup(s) ==> s[0] !in s[1..];
      [s[0]] + rest
  }

  /** Removal keeps the order of the remaining identifiers: of two of them,
      the one listed first in the result is listed first in `s`. */
  lemma {:induction false} WithoutKeepsOrder(s: seq<Id>, x: Id)
    requires NoDup(s)
    ensures forall i, j :: 0 <= i < j < |Without(s, x)| ==>
      IndexOf(s, Without(s, x)[i]) < IndexOf(s, Without(s, x)[j])
  {
    if s != [] {
      NoDupTail(s);
      WithoutKeepsOrder(s[1..], x);
      if s[0] == x {
        WithoutOrderSkip(s, x);
      } else {
        WithoutOrderKeep(s, x);
      }
    }
  }

  lemma NoDupTail(s: seq<Id>)
    requires |s| > 0 && NoDup(s)
    ensures NoDup(s[1..])
  {
    var t := s[1..];
    forall i, j | 0 <= i < j < |t| ensures t[i] != t[j] {
      assert t[i] == s[i + 1] && t[j] == s[j + 1];
    }
  }

  /** The step of `WithoutKeepsOrder` when the head is the removed identifier. */
  lemma WithoutOrderSkip(s: seq<Id>, x: Id)
    requires |s| > 0 && NoDup(s) && s[0] == x
    requires forall i, j :: 0 <= i < j < |Without(s[1..], x)| ==>
      IndexOf(s[1..], Without(s[1..], x)[i]) < IndexOf(s[1..], Without(s[1..], x)[j])
    ensures forall i, j :: 0 <= i < j < |Without(s, x)| ==>
      IndexOf(s, Without(s, x)[i]) < IndexOf(s, Without(s, x)[j])
  {
    var r := Without(s, x);
    assert r == Without(s[1..], x);
    forall i, j | 0 <= i < j < |r| ensures IndexOf(s, r[i]) < IndexOf(s, r[j]) {
      IndexOfTail(s, r[i]);
      IndexOfTail(s, r[j]);
    }
  }

  /** The step of `WithoutKeepsOrder` when the head is kept. */
  lemma WithoutOrderKeep(s: seq<Id>, x: Id)
    requires |s| > 0 && NoDup(s) && s[0] != x
    requires forall i, j :: 0 <= i < j < |Without(s[1..], x)| ==>
      IndexOf(s[1..], Without(s[1..], x)[i]) < IndexOf(s[1..], Without(s[1..], x)[j])
    ensures forall i, j :: 0 <= i < j < |Without(s, x)| ==>
      IndexOf(s, Without(s, x)[i]) < IndexOf(s, Without(s, x)[j])
  {
    var rest := Without(s[1..], x);
    var r := Without(s, x);
    assert r == [s[0]] + rest;
    forall i, j | 0 <= i < j < |r| ensures IndexOf(s, r[i]) < IndexOf(s, r[j]) {
      assert r[j] == rest[j - 1];
      IndexOfTail(s, r[j]);
      if i > 0 {
        assert r[i] == rest[i - 1];
        IndexOfTail(s, r[i]);
      }
    }
  }

  /** Past the head, an identifier is found one place later than in the tail. */
  lemma IndexOfTail(s: seq<Id>, y: Id)
    requires |s| > 0 && NoDup(s) && y in s[1..]
    ensures IndexOf(s, y) == IndexOf(s[1..], y) + 1
  {
    var k :| 0 <= k < |s[1..]| && s[1..][k] == y;
    assert s[k + 1] == y;
  }

  /** Removing an identifier that was appended to a list without it gives the
      list back. */
  lemma {:induction false} WithoutAppended(s: seq<Id>, x: Id)
    requires x !in s
    ensures Without(s + [x], x) == s
  {
    if s != [] {
      assert (s + [x])[1..] == s[1..] + [x];
      WithoutAppended(s[1..], x);
    }
  }

  /** Slices of the front part of a concatenation, and its back part. */
  lemma ConcatSlices<T>(b: seq<T>, q: seq<T>, lo: nat, hi: nat)
    requires lo <= hi <= |b|
    ensures (b + q)[lo..hi] == b[lo..hi]
    ensures (b + q)[|b|..] == q
  {
  }

  /** A slice inside a prefix `a` of `b` is the same slice of `a`. */
  lemma PrefixSlice<T>(a: seq<T>, b: seq<T>, lo: nat, hi: nat)
    requires |a| <= |b| && b[..|a|] == a && lo <= hi <= |a|
    ensures b[lo..hi] == a[lo..hi]
  {
    assert forall k :: lo <= k < hi ==> b[k] == b[..|a|][k];
  }

  /** When `a + b` is a prefix of `c`, `b` sits in `c` right after `a`. */
  lemma SuffixSlice<T>(a: seq<T>, b: seq<T>, c: seq<T>)
    requires |a + b| <= |c| && c[..|a + b|] == a + b
    ensures c[|a|..|a| + |b|] == b
  {
    PrefixSlice(a + b, c, |a|, |a| + |b|);
    assert (a + b)[|a|..|a| + |b|] == b;
  }

  /** Growing a slice of `b` behind `a` one element at a time. */
  lemma SliceSnoc<T>(a: seq<T>, b: seq<T>, j: nat)
    requires j <= |b|
    ensures a + b[..0] == a
    ensures j < |b| ==> a + b[..j + 1] == (a + b[..j]) + [b[j]]
    ensures a + b[..|b|] == a + b
  {
    assert b[..0] == [] && b[..|b|] == b;
    if j < |b| {
      assert b[..j + 1] == b[..j] + [b[j]];
    }
  }

  lemma AppendAssoc<T>(a: seq<T>, b: seq<T>, c: seq<T>)
    ensures a + b + c == a + (b + c)
  {
  }

  /** Position of the first occurrence of `x` in `s`. */
  function IndexOf(s: seq<Id>, x: Id): (i: nat)
    requires x in s
    ensures i < |s| && s[i] == x && x !in s[..i]
  {
    if s[0] == x then 0
    else
      var j := IndexOf(s[1..], x);
      assert s[..j + 1] == [s[0]] + s[1..][..j];
      j + 1
  }

  /** An element of `a` is found in `a + b` where it is found in `a`. */
  lemma {:induction false} IndexOfPrefix(a: seq<Id>, b: seq<Id>, x: Id)
    requires x in a
    ensures IndexOf(a + b, x) == IndexOf(a, x)
  {
    if a[0] != x {
      assert (a + b)[1..] == a[1..] + b;
      IndexOfPrefix(a[1..], b, x);
    }
  }

  /** An element only of `b` is found in `a + b` after all of `a`. */
  lemma {:induction false} IndexOfAfter(a: seq<Id>, b: seq<Id>, x: Id)
    requires x !in a && x in b
    ensures IndexOf(a + b, x) == |a| + IndexOf(b, x)
  {
    if a == [] {
      assert a + b == b;
    } else {
      assert (a + b)[0] == a[0] && (a + b)[1..] == a[1..] + b;
      IndexOfAfter(a[1..], b, x);
    }
  }

  /** Python's `list.remove(x)`: drop the FIRST occurrence of `x`. */
  function RemoveFirst(s: seq<Id>, x: Id): (r: seq<Id>)
    requires x in s
    ensures |r| == |s| - 1
    ensures multiset(r) == multiset(s) - multiset{x}
    ensures forall y :: y != x ==> (y in r <==> y in s)
    ensures exists i :: 0 <= i < |s| && s[i] == x && x !in s[..i] && r == s[..i] + s[i + 1..]
  {
    var i := IndexOf(s, x);
    assert s == s[..i] + [x] + s[i + 1..];
    s[..i] + s[i + 1..]
  }
}
