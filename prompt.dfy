/** The enhanced prompt sent to the generator: the raw prompt, preceded by a
    rendering of the context history when there is one. */
module Prompt {
  import opened Base

  function DigitChar(d: nat): (c: char)
    requires d < 10
    ensures '0' <= c <= '9'
  {
    ['0', '1', '2', '3', '4', '5', '6', '7', '8', '9'][d]
  }

  /** Decimal rendering of a depth, as an f-string renders an `int`. */
  function NatToString(n: nat): (s: string)
    ensures |s| >= 1
    ensures forall i :: 0 <= i < |s| ==> '0' <= s[i] <= '9'
  {
    if n < 10 then [DigitChar(n)] else NatToString(n / 10) + [DigitChar(n % 10)]
  }

  /** The value of a string of decimal digits. */
  function DigitsValue(s: string): nat
    requires forall i :: 0 <= i < |s| ==> '0' <= s[i] <= '9'
  {
    if s == [] then 0 else 10 * DigitsValue(s[..|s| - 1]) + ((s[|s| - 1] as int) - ('0' as int))
  }

  /** The rendering of a depth reads back as that depth. */
  lemma {:induction false} NatToStringRoundTrip(n: nat)
    ensures DigitsValue(NatToString(n)) == n
    decreases n
  {
    var s := NatToString(n);
    if n >= 10 {
      NatToStringRoundTrip(n / 10);
      assert s[..|s| - 1] == NatToString(n / 10);
    }
    forall d: nat | d < 10 ensures (DigitChar(d) as int) - ('0' as int) == d {
    }
  }

  const Header: string := "Previous context:\n"

  const Instruction: string :=
    "Provide a thoughtful response that builds upon and maintains coherence with the previous context while addressing the current question."

  /** The block one context entry contributes. */
  function EntryText(e: ContextEntry): (r: string)
    ensures |r| == 17 + |NatToString(e.depth)| + |e.prompt| + |e.thought|
  {
    "\nDepth " + NatToString(e.depth) + ":\nQ: " + e.prompt + "\nA: " + e.thought + "\n"
  }

  /** An entry's block carries the entry's fields at fixed offsets: the
      depth's digits (which read back as the depth), the prompt after them,
      and the thought just before the final newline. */
  lemma EntryTextFields(e: ContextEntry)
    ensures var r, d := EntryText(e), NatToString(e.depth);
      && r[7..7 + |d|] == d
      && DigitsValue(r[7..7 + |d|]) == e.depth
      && r[12 + |d|..12 + |d| + |e.prompt|] == e.prompt
      && r[|r| - 1 - |e.thought|..|r| - 1] == e.thought
  {
    var d := NatToString(e.depth);
    Fields("\nDepth ", d, ":\nQ: ", e.prompt, "\nA: ", e.thought, "\n");
    NatToStringRoundTrip(e.depth);
  }

  /** The pieces of a seven-part concatenation sit at their offsets. */
  lemma Fields<T>(a: seq<T>, d: seq<T>, b: seq<T>, p: seq<T>, c: seq<T>, t: seq<T>, z: seq<T>)
    ensures var r := a + d + b + p + c + t + z;
      && r[|a|..|a| + |d|] == d
      && r[|a| + |d| + |b|..|a| + |d| + |b| + |p|] == p
      && r[|r| - |z| - |t|..|r| - |z|] == t
  {
    var r := a + d + b + p + c + t + z;
    forall k | 0 <= k < |d| ensures r[|a| + k] == d[k] { }
    assert r[|a|..|a| + |d|] == d;
    var o := |a| + |d| + |b|;
    forall k | 0 <= k < |p| ensures r[o + k] == p[k] { }
    assert r[o..o + |p|] == p;
    var q := |r| - |z| - |t|;
    forall k | 0 <= k < |t| ensures r[q + k] == t[k] { }
    assert r[q..q + |t|] == t;
  }

  /** The header followed by the blocks of the entries, in history order. */
  function ContextBlock(h: seq<ContextEntry>): (r: string)
    ensures |Header| <= |r|
  {
    if h == [] then Header else ContextBlock(h[..|h| - 1]) + EntryText(h[|h| - 1])
  }

  function QuestionPart(prompt: string): string
  {
    "\nCurrent question: " + prompt + "\n\n" + Instruction
  }

  /** The prompt actually sent: unchanged without history, otherwise the
      context block, the current question and the coherence instruction. */
  function EnhancedPrompt(prompt: string, h: seq<ContextEntry>): (r: string)
    ensures h == [] <==> r == prompt
    ensures h != [] ==> |r| > |prompt|
  {
    if h == [] then prompt else ContextBlock(h) + QuestionPart(prompt)
  }

  /** The block of the first `i` entries is a prefix of the whole block. */
  lemma {:induction false} ContextBlockPrefix(h: seq<ContextEntry>, i: nat)
    requires i <= |h|
    ensures |ContextBlock(h[..i])| <= |ContextBlock(h)|
    ensures ContextBlock(h)[..|ContextBlock(h[..i])|] == ContextBlock(h[..i])
    decreases |h|
  {
    if i < |h| {
      var front := h[..|h| - 1];
      assert front[..i] == h[..i];
      ContextBlockPrefix(front, i);
    } else {
      assert h[..i] == h;
    }
  }

  /** A non-empty history renders as the header, then each entry's block in
      order (entry `i` right after the blocks of the entries before it), then
      the current question with the instruction. */
  lemma EnhancedPromptLayout(prompt: string, h: seq<ContextEntry>, i: nat)
    requires i < |h|
    ensures var r := EnhancedPrompt(prompt, h);
      var lo := |ContextBlock(h[..i])|;
      && r[..|Header|] == Header
      && lo + |EntryText(h[i])| <= |r|
      && r[lo..lo + |EntryText(h[i])|] == EntryText(h[i])
      && r[|r| - |QuestionPart(prompt)|..] == QuestionPart(prompt)
  {
    var b := ContextBlock(h);
    var q := QuestionPart(prompt);
    assert EnhancedPrompt(prompt, h) == b + q;
    ContextBlockEntry(h, i);
    AppendLayout(b, q, |Header|, |ContextBlock(h[..i])|, |EntryText(h[i])|);
  }

  /** Slices of `b` survive appending `q`, which ends the result. */
  lemma AppendLayout(b: string, q: string, n: nat, lo: nat, len: nat)
    requires n <= |b| && lo + len <= |b|
    ensures (b + q)[..n] == b[..n]
    ensures (b + q)[lo..lo + len] == b[lo..lo + len]
    ensures (b + q)[|b + q| - |q|..] == q
  {
    ConcatSlices(b, q, 0, n);
    ConcatSlices(b, q, lo, lo + len);
  }

  /** Within the context block: the header first, and entry `i`'s block right
      after the blocks of the entries before it. */
  lemma ContextBlockEntry(h: seq<ContextEntry>, i: nat)
    requires i < |h|
    ensures var b := ContextBlock(h);
      var lo := |ContextBlock(h[..i])|;
      && |Header| <= |b| && b[..|Header|] == Header
      && lo + |EntryText(h[i])| <= |b|
      && b[lo..lo + |EntryText(h[i])|] == EntryText(h[i])
  {
    ContextBlockHeader(h);
    ContextBlockPrefix(h, i + 1);
    var front := ContextBlock(h[..i]);
    var e := EntryText(h[i]);
    assert ContextBlock(h[..i + 1]) == front + e by {
      assert h[..i + 1][..i] == h[..i];
    }
    SuffixSlice(front, e, ContextBlock(h));
  }

  /** The context block opens with the header. */
  lemma ContextBlockHeader(h: seq<ContextEntry>)
    ensures |Header| <= |ContextBlock(h)| && ContextBlock(h)[..|Header|] == Header
  {
    ContextBlockPrefix(h, 0);
    assert h[..0] == [];
  }

  /** `_create_enhanced_prompt`: builds the context block entry by entry. */
  method CreateEnhancedPrompt(prompt: string, h: seq<ContextEntry>) returns (r: string)
    ensures r == EnhancedPrompt(prompt, h)
  {
    if h == [] {
      return prompt;
    }
    var text := Header;
    var i := 0;
    while i < |h|
      invariant 0 <= i <= |h|
      invariant text == ContextBlock(h[..i])
    {
      assert h[..i + 1][..i] == h[..i];
      text := text + EntryText(h[i]);
      i := i + 1;
    }
    assert h[..i] == h;
    r := text + QuestionPart(prompt);
  }
}
