/** The relevance gate that decides whether a freshly expanded node is kept:
    key-concept extraction, the four sub-scores it combines with semantic
    similarity, and the composite verdict. */
module Relevance {
  import opened Base

  // ---------------------------------------------------------------------------
  // Tokens

  /** The characters `str.split()` with no argument treats as separators. */
  predicate IsSpace(c: char)
  {
    var n := c as int;
    n == 0x20 || 0x09 <= n <= 0x0D || 0x1C <= n <= 0x1F || n == 0x85 || n == 0xA0 || n == 0x1680 ||
    0x2000 <= n <= 0x200A || n == 0x2028 || n == 0x2029 || n == 0x202F || n == 0x205F || n == 0x3000
  }

  predicate IsUpper(c: char)
  {
    'A' <= c <= 'Z'
  }

  function LowerChar(c: char): (d: char)
    ensures !IsUpper(d)
    ensures IsSpace(d) <==> IsSpace(c)
  {
    if IsUpper(c) then (c as int + 32) as char else c
  }

  /** Lower-casing, on the ASCII letters. */
  function Lower(s: string): (r: string)
    ensures |r| == |s|
    ensures forall i :: 0 <= i < |s| ==> r[i] == LowerChar(s[i])
  {
    if s == [] then [] else [LowerChar(s[0])] + Lower(s[1..])
  }

  /** The words of `s` after the partial word `cur`: maximal runs of
      non-separator characters, in order. */
  function WordsFrom(s: string, cur: string): seq<string>
    decreases |s|
  {
    if s == [] then (if cur == [] then [] else [cur])
    else if IsSpace(s[0]) then (if cur == [] then [] else [cur]) + WordsFrom(s[1..], [])
    else WordsFrom(s[1..], cur + [s[0]])
  }

  /** `str.split()` with no argument: every word is non-empty, holds no
      separator and is made of characters of the text. */
  function Words(s: string): (r: seq<string>)
    ensures forall w :: w in r ==> w != [] && forall c :: c in w ==> !IsSpace(c) && c in s
  {
    WordsFromShape(s, []);
    WordsFrom(s, [])
  }

  lemma {:induction false} WordsFromShape(s: string, cur: string)
    requires forall c :: c in cur ==> !IsSpace(c)
    ensures forall w :: w in WordsFrom(s, cur) ==>
      w != [] && forall c :: c in w ==> !IsSpace(c) && (c in s || c in cur)
    decreases |s|
  {
    if s != [] {
      if IsSpace(s[0]) {
        WordsFromShape(s[1..], []);
      } else {
        WordsFromShape(s[1..], cur + [s[0]]);
      }
    }
  }

  /** A word as `str.split()` yields it: non-empty and free of separators. */
  predicate Token(w: string)
  {
    w != [] && forall c :: c in w ==> !IsSpace(c)
  }

  /** Reading a run of non-separators extends the partial word. */
  lemma {:induction false} WordsOfRun(w: string, cur: string, rest: string)
    requires forall c :: c in w ==> !IsSpace(c)
    ensures WordsFrom(w + rest, cur) == WordsFrom(rest, cur + w)
    decreases |w|
  {
    if w != [] {
      assert w[0] in w;
      var s := w + rest;
      assert s[0] == w[0] && s[1..] == w[1..] + rest;
      assert WordsFrom(s, cur) == WordsFrom(s[1..], cur + [s[0]]);
      WordsOfRun(w[1..], cur + [w[0]], rest);
      assert cur + [w[0]] + w[1..] == cur + w;
    } else {
      assert w + rest == rest && cur + w == cur;
    }
  }

  /** The words of a list joined by single spaces, read after the partial word
      `cur`, are the list with `cur` glued to its first word. */
  lemma {:induction false} WordsOfJoin(ws: seq<string>, cur: string)
    requires ws != []
    requires forall i :: 0 <= i < |ws| ==> Token(ws[i])
    requires forall c :: c in cur ==> !IsSpace(c)
    ensures WordsFrom(JoinSpace(ws), cur) == [cur + ws[0]] + ws[1..]
    decreases |ws|
  {
    assert Token(ws[0]);
    if |ws| == 1 {
      WordsOfRun(ws[0], cur, []);
      assert ws[0] + [] == ws[0];
    } else {
      var tail := JoinSpace(ws[1..]);
      assert JoinSpace(ws) == ws[0] + (" " + tail);
      WordsOfRun(ws[0], cur, " " + tail);
      assert (" " + tail)[0] == ' ' && (" " + tail)[1..] == tail;
      assert IsSpace(' ');
      assert WordsFrom(" " + tail, cur + ws[0]) == [cur + ws[0]] + WordsFrom(tail, []);
      WordsOfJoin(ws[1..], []);
      assert [] + ws[1] == ws[1];
      assert [ws[1]] + ws[2..] == ws[1..];
    }
  }

  /** `" ".join(ws)`. */
  function JoinSpace(ws: seq<string>): string
  {
    if ws == [] then [] else if |ws| == 1 then ws[0] else ws[0] + " " + JoinSpace(ws[1..])
  }

  /** Splitting undoes joining with single spaces. */
  lemma SplitJoin(ws: seq<string>)
    requires forall i :: 0 <= i < |ws| ==> Token(ws[i])
    ensures Words(JoinSpace(ws)) == ws
  {
    if ws != [] {
      WordsOfJoin(ws, []);
      assert [] + ws[0] == ws[0];
      assert [ws[0]] + ws[1..] == ws;
    }
  }

  // ---------------------------------------------------------------------------
  // Key concepts

  const StopWords: set<string> :=
    {"the", "a", "an", "and", "or", "but", "in", "on", "at", "to", "for", "is", "are"}

  /** The key concepts of a text: its lower-cased words of at least three
      characters that are not stop words. Every key concept is a lower-case
      token free of separators, drawn from the text's characters (up to case). */
  function KeyConcepts(text: string): (r: set<string>)
    ensures forall w :: w in r ==>
      && |w| >= 3
      && w !in StopWords
      && (forall c :: c in w ==> !IsUpper(c) && !IsSpace(c) && c in Lower(text))
  {
    var lowered := Lower(text);
    var r := set w | w in Words(lowered) && w !in StopWords && |w| >= 3;
    assert forall w, c :: w in r && c in w ==> !IsUpper(c) by {
      forall w, c | w in r && c in w
        ensures !IsUpper(c)
      {
        assert c in lowered;
        var i :| 0 <= i < |lowered| && lowered[i] == c;
      }
    }
    r
  }

  lemma LowerIdempotent(s: string)
    ensures Lower(Lower(s)) == Lower(s)
  {
  }

  /** Concept extraction ignores case: lower-casing the text first changes nothing. */
  lemma KeyConceptsIgnoreCase(text: string)
    ensures KeyConcepts(Lower(text)) == KeyConcepts(text)
  {
    LowerIdempotent(text);
  }

  // ---------------------------------------------------------------------------
  // Sub-scores

  /** The share of the prompt's concepts found among `concepts`; 0 when the
      prompt has none. */
  function Overlap(concepts: set<string>, promptConcepts: set<string>): (r: real)
    ensures promptConcepts == {} ==> r == 0.0
    ensures 0.0 <= r <= 1.0
    ensures r == 1.0 <==> promptConcepts != {} && promptConcepts <= concepts
  {
    if |promptConcepts| == 0 then 0.0
    else
      var common := concepts * promptConcepts;
      SubsetCard(common, promptConcepts);
      (|common| as real) / (|promptConcepts| as real)
  }

  /** A subset is no larger, and as large only when it is the whole set. */
  lemma {:induction false} SubsetCard(a: set<string>, b: set<string>)
    requires a <= b
    ensures |a| <= |b|
    ensures |a| == |b| <==> a == b
  {
    if b != {} {
      var x :| x in b;
      if x in a {
        SubsetCard(a - {x}, b - {x});
        assert a == (a - {x}) + {x};
      } else {
        SubsetCard(a, b - {x});
      }
    }
  }

  /** The text of a node's context history: each snapshot's prompt and thought
      joined by a space, the snapshots joined by spaces. */
  function ContextText(history: seq<ContextEntry>): string
  {
    JoinSpace(seq(|history|, i requires 0 <= i < |history| => history[i].prompt + " " + history[i].thought))
  }

  /** How many of the prompt's concepts the node's context history mentions;
      0 without history or without prompt concepts. */
  function Continuity(history: seq<ContextEntry>, promptConcepts: set<string>): (r: real)
    ensures history == [] || promptConcepts == {} ==> r == 0.0
    ensures 0.0 <= r <= 1.0
  {
    if history == [] then 0.0
    else if promptConcepts == {} then 0.0
    else Overlap(KeyConcepts(ContextText(history)), promptConcepts)
  }

  /** 5% less per context entry, never below 0.8. */
  function DepthPenalty(historyLength: nat): (r: real)
    ensures 0.8 <= r <= 1.0
    ensures historyLength <= 4 ==> r == 1.0 - 0.05 * historyLength as real
    ensures historyLength >= 4 ==> r == 0.8
  {
    var p := 1.0 - historyLength as real * 0.05;
    if 0.8 > p then 0.8 else p
  }

  /** The recency bonus of a node created `elapsed` seconds ago: 0.2 at
      creation minus the age in days, never below 0. It therefore reaches 0
      after 17280 seconds (4.8 hours), well before a day has passed. */
  function Recency(elapsed: real): (r: real)
    ensures r >= 0.0
    ensures elapsed >= 0.0 ==> r <= 0.2
    ensures elapsed == 0.0 ==> r == 0.2
    ensures r == 0.0 <==> elapsed >= 17280.0
  {
    var b := 0.2 - elapsed / 86400.0;
    if 0.0 > b then 0.0 else b
  }

  // ---------------------------------------------------------------------------
  // Composite verdict

  /** The weighted relevance of a candidate node to the prompt that produced it.
      The semantic part compares the node's text with the text of a synthetic
      node holding only the prompt and an empty thought. */
  function Composite(sim: (string, string) -> real, node: NodeRec, prompt: string, elapsed: real): (r: real)
    ensures 0.0 <= sim(Text(node), prompt + " ") <= 1.0 && elapsed >= 0.0 ==> 0.12 <= r <= 0.96
  {
    var promptConcepts := KeyConcepts(prompt);
    0.35 * sim(Text(node), prompt + " ") +
    0.25 * Overlap(KeyConcepts(Text(node)), promptConcepts) +
    0.20 * Continuity(node.contextHistory, promptConcepts) +
    0.15 * DepthPenalty(|node.contextHistory|) +
    0.05 * Recency(elapsed)
  }

  /** The gate is a strict `>`: with a similarity in [0, 1] and a
      non-negative age, a threshold below 0.12 keeps every node and one at or
      above 0.96 rejects every node. */
  predicate IsRelevant(sim: (string, string) -> real, node: NodeRec, prompt: string, elapsed: real, threshold: real)
    ensures 0.0 <= sim(Text(node), prompt + " ") <= 1.0 && elapsed >= 0.0 && threshold < 0.12 ==>
      IsRelevant(sim, node, prompt, elapsed, threshold)
    ensures 0.0 <= sim(Text(node), prompt + " ") <= 1.0 && elapsed >= 0.0 && threshold >= 0.96 ==>
      !IsRelevant(sim, node, prompt, elapsed, threshold)
  {
    Composite(sim, node, prompt, elapsed) > threshold
  }

  /** The verdict reads only the node's text and context history: two nodes
      that agree on those (whatever their links) get the same composite. */
  lemma CompositeReadsTextAndHistory(sim: (string, string) -> real, a: NodeRec, b: NodeRec, prompt: string, elapsed: real)
    requires Text(a) == Text(b) && a.contextHistory == b.contextHistory
    ensures Composite(sim, a, prompt, elapsed) == Composite(sim, b, prompt, elapsed)
  {
  }

  /** A prompt without key concepts can only be judged on similarity, depth and
      recency. */
  lemma NoConceptsComposite(sim: (string, string) -> real, node: NodeRec, prompt: string, elapsed: real)
    requires KeyConcepts(prompt) == {}
    ensures Composite(sim, node, prompt, elapsed) ==
      0.35 * sim(Text(node), prompt + " ") + 0.15 * DepthPenalty(|node.contextHistory|) + 0.05 * Recency(elapsed)
  {
  }
}
