/** The operator alphabet, the sizing of source text, instruction addresses in
    the compiled stream, and bracket nesting. */
module Syntax {

  /** The six one-byte operators of the base language. */
  predicate IsSimple(ch: char)
  {
    ch == '<' || ch == '>' || ch == '+' || ch == '-' || ch == ',' || ch == '.'
  }

  predicate IsBracket(ch: char)
  {
    ch == '[' || ch == ']'
  }

  /** The eight operators the compiler keeps; everything else is a comment. */
  predicate IsOp(ch: char)
  {
    IsSimple(ch) || IsBracket(ch)
  }

  /** Bytes the sizing pass counts for one source character: 1 per simple
      operator, 1 + sizeof(short) per bracket, 0 for anything else. */
  function SourceWidth(ch: char): nat
  {
    if IsSimple(ch) then 1 else if IsBracket(ch) then 3 else 0
  }

  /** Total of the sizing pass over `src`. */
  function Size(src: seq<char>): nat
  {
    if src == [] then 0 else Size(src[..|src| - 1]) + SourceWidth(src[|src| - 1])
  }

  /** The operators of `src` in order, with every other character dropped. */
  function Ops(src: seq<char>): (ops: seq<char>)
    ensures |ops| <= |src|
    ensures forall k :: 0 <= k < |ops| ==> IsOp(ops[k])
  {
    if src == [] then []
    else
      var rest := Ops(src[..|src| - 1]);
      if IsOp(src[|src| - 1]) then rest + [src[|src| - 1]] else rest
  }

  /** Width of one instruction in the compiled stream: a bracket is followed
      by its 2-byte field, every other operator takes one byte. */
  function Width(ch: char): nat
  {
    if IsBracket(ch) then 3 else 1
  }

  /** Length of the compiled form of an instruction sequence. */
  function Len(prog: seq<char>): nat
  {
    if prog == [] then 0 else Len(prog[..|prog| - 1]) + Width(prog[|prog| - 1])
  }

  /** Address, in the compiled stream, of instruction `k` of `prog`. */
  function Addr(prog: seq<char>, k: nat): nat
    requires k <= |prog|
  {
    Len(prog[..k])
  }

  /** Nesting depth after `s`: opened minus closed brackets. */
  function Depth(s: seq<char>): int
  {
    if s == [] then 0
    else Depth(s[..|s| - 1]) + (if s[|s| - 1] == '[' then 1 else if s[|s| - 1] == ']' then -1 else 0)
  }

  /** Every prefix of `s` leaves between 0 and `bound - 1` loops open. */
  ghost predicate DepthsWithin(s: seq<char>, bound: int)
  {
    forall n {:trigger Depth(s[..n])} :: 0 <= n <= |s| ==> 0 <= Depth(s[..n]) < bound
  }

  /** Brackets balanced, never more than `bound - 1` open at once. */
  ghost predicate WellNested(s: seq<char>, bound: int)
  {
    DepthsWithin(s, bound) && Depth(s) == 0
  }

  /** The `]` at `j` closes the `[` at `k`: after the `[` the depth stays above
      its level before `k` until the `]` at `j` brings it back to that level. */
  ghost predicate Match(s: seq<char>, k: int, j: int)
  {
    && 0 <= k < j < |s|
    && s[k] == '['
    && s[j] == ']'
    && Depth(s[..j + 1]) == Depth(s[..k])
    && forall m {:trigger Depth(s[..m])} :: k < m <= j ==> Depth(s[..m]) > Depth(s[..k])
  }

  /** No prefix of `s` closes more brackets than it opens. */
  ghost predicate NeverNegative(s: seq<char>)
  {
    forall n {:trigger Depth(s[..n])} :: 0 <= n <= |s| ==> Depth(s[..n]) >= 0
  }

  /** A sequence in which brackets pair up. */
  ghost predicate Balanced(s: seq<char>)
  {
    Depth(s) == 0 && NeverNegative(s)
  }

  // ---------------------------------------------------------------------
  // Lemmas about sizes and addresses

  lemma SizeStep(src: seq<char>, i: nat)
    requires i < |src|
    ensures Size(src[..i + 1]) == Size(src[..i]) + SourceWidth(src[i])
    ensures Ops(src[..i + 1]) == if IsOp(src[i]) then Ops(src[..i]) + [src[i]] else Ops(src[..i])
  {
    assert src[..i + 1][..i] == src[..i];
  }

  /** The sizing pass counts exactly the compiled length of the operators. */
  lemma {:induction false} SizeIsLen(src: seq<char>)
    ensures Size(src) == Len(Ops(src))
  {
    if src != [] {
      var init := src[..|src| - 1];
      SizeIsLen(init);
      if IsOp(src[|src| - 1]) {
        assert (Ops(init) + [src[|src| - 1]])[..|Ops(init)|] == Ops(init);
      }
    }
  }

  /** Comments contribute nothing: stripping them changes neither the
      operator sequence nor the size. */
  lemma {:induction false} OpsIdempotent(src: seq<char>)
    ensures Ops(Ops(src)) == Ops(src)
    ensures Size(Ops(src)) == Size(src)
  {
    if src != [] {
      var init := src[..|src| - 1];
      OpsIdempotent(init);
      if IsOp(src[|src| - 1]) {
        assert (Ops(init) + [src[|src| - 1]])[..|Ops(init)|] == Ops(init);
      }
    }
  }

  lemma {:induction false} OpsPrefix(src: seq<char>, i: nat)
    requires i <= |src|
    ensures Ops(src[..i]) <= Ops(src)
    decreases |src| - i
  {
    if i < |src| {
      OpsPrefix(src, i + 1);
      SizeStep(src, i);
    } else {
      assert src[..i] == src;
    }
  }

  /** A prefix never sizes larger than the whole. */
  lemma {:induction false} SizePrefix(src: seq<char>, i: nat)
    requires i <= |src|
    ensures Size(src[..i]) <= Size(src)
    decreases |src| - i
  {
    if i < |src| {
      SizePrefix(src, i + 1);
      SizeStep(src, i);
    } else {
      assert src[..i] == src;
    }
  }

  lemma LenStep(prog: seq<char>, k: nat)
    requires k < |prog|
    ensures Addr(prog, k + 1) == Addr(prog, k) + Width(prog[k])
  {
    assert prog[..k + 1][..k] == prog[..k];
  }

  /** Instructions occupy disjoint, increasing byte ranges. */
  lemma {:induction false} AddrMonotone(prog: seq<char>, k: nat, k': nat)
    requires k < k' <= |prog|
    ensures Addr(prog, k) + Width(prog[k]) <= Addr(prog, k')
    decreases k' - k
  {
    LenStep(prog, k);
    if k + 1 < k' {
      AddrMonotone(prog, k + 1, k');
    }
  }

  lemma AddrBound(prog: seq<char>, k: nat)
    requires k < |prog|
    ensures Addr(prog, k) + Width(prog[k]) <= Len(prog)
  {
    AddrMonotone(prog, k, |prog|);
    assert prog[..|prog|] == prog;
  }

  // ---------------------------------------------------------------------
  // Lemmas about depth

  lemma DepthStep(s: seq<char>, n: nat)
    requires n < |s|
    ensures Depth(s[..n + 1]) == Depth(s[..n]) + (if s[n] == '[' then 1 else if s[n] == ']' then -1 else 0)
  {
    assert s[..n + 1][..n] == s[..n];
  }

  lemma {:induction false} DepthAppend(a: seq<char>, b: seq<char>)
    ensures Depth(a + b) == Depth(a) + Depth(b)
    decreases |b|
  {
    if b == [] {
      assert a + b == a;
    } else {
      var b' := b[..|b| - 1];
      DepthAppend(a, b');
      assert (a + b)[..|a + b| - 1] == a + b';
    }
  }

  /** Comments have no depth. */
  lemma {:induction false} DepthOfOps(src: seq<char>)
    ensures Depth(Ops(src)) == Depth(src)
  {
    if src != [] {
      var init := src[..|src| - 1];
      DepthOfOps(init);
      if IsOp(src[|src| - 1]) {
        assert (Ops(init) + [src[|src| - 1]])[..|Ops(init)|] == Ops(init);
      }
    }
  }

  /** The prefix form of `Match` agrees with "the text strictly between the
      two brackets is balanced". */
  lemma MatchIsBalancedBetween(s: seq<char>, k: int, j: int)
    requires 0 <= k < j < |s| && s[k] == '[' && s[j] == ']'
    ensures Match(s, k, j) <==> Balanced(s[k + 1..j])
  {
    var mid := s[k + 1..j];
    DepthStep(s, k);
    DepthStep(s, j);
    forall n | 0 <= n <= |mid|
      ensures Depth(s[..k + 1 + n]) == Depth(s[..k]) + 1 + Depth(mid[..n])
    {
      assert s[..k + 1 + n] == s[..k + 1] + mid[..n];
      DepthAppend(s[..k + 1], mid[..n]);
    }
    assert mid[..|mid|] == mid;
    if Balanced(mid) {
      forall m | k < m <= j
        ensures Depth(s[..m]) > Depth(s[..k])
      {
        assert Depth(s[..k + 1 + (m - k - 1)]) == Depth(s[..k]) + 1 + Depth(mid[..m - k - 1]);
      }
    }
    if Match(s, k, j) {
      forall n | 0 <= n <= |mid|
        ensures Depth(mid[..n]) >= 0
      {
        assert Depth(s[..k + 1 + n]) > Depth(s[..k]);
      }
    }
  }

  lemma MatchExtend(s: seq<char>, c: char, k: int, j: int)
    requires 0 <= j < |s|
    ensures Match(s + [c], k, j) <==> Match(s, k, j)
  {
    forall n | 0 <= n <= |s|
      ensures (s + [c])[..n] == s[..n]
    {
    }
  }

  lemma DepthsWithinStep(s: seq<char>, c: char, bound: int)
    ensures DepthsWithin(s + [c], bound) <==> DepthsWithin(s, bound) && 0 <= Depth(s + [c]) < bound
  {
    forall n | 0 <= n <= |s|
      ensures (s + [c])[..n] == s[..n]
    {
    }
    assert (s + [c])[..|s| + 1] == s + [c];
  }

  lemma DepthsWithinPrefix(s: seq<char>, t: seq<char>, bound: int)
    requires t <= s && DepthsWithin(s, bound)
    ensures DepthsWithin(t, bound)
  {
    forall n | 0 <= n <= |t|
      ensures 0 <= Depth(t[..n]) < bound
    {
      assert t[..n] == s[..n];
    }
  }
}
