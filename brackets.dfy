/** Bracket pairing in an operator sequence, independent of any byte layout:
    which `[` are still open after a prefix (the compiler's loop stack, in
    instruction positions), and that every bracket of a sequence that never
    closes more than it opens is either open or paired. */
module Brackets {
  import opened Syntax

  /** Every `[` of `prog` not listed in `open` has its `]`. */
  ghost predicate OpensMatched(prog: seq<char>, open: seq<int>)
  {
    forall k :: 0 <= k < |prog| && prog[k] == '[' && k !in open ==> exists j :: Match(prog, k, j)
  }

  /** Every `]` of `prog` has its `[`. */
  ghost predicate ClosesMatched(prog: seq<char>)
  {
    forall j :: 0 <= j < |prog| && prog[j] == ']' ==> exists k :: Match(prog, k, j)
  }

  /** Positions of the brackets left open by `prog`, bottom first: a `[`
      pushes its position, a `]` pops one (and does nothing when none is
      open). */
  function OpenBrackets(prog: seq<char>): (K: seq<int>)
    ensures forall t :: 0 <= t < |K| ==> 0 <= K[t] < |prog|
  {
    if prog == [] then []
    else
      var K := OpenBrackets(prog[..|prog| - 1]);
      var c := prog[|prog| - 1];
      if c == '[' then K + [|prog| - 1]
      else if c == ']' && K != [] then K[..|K| - 1]
      else K
  }

  /** The `[` at position `k` of `prog` was opened at depth `t` and the
      depth has stayed above `t` ever since: it is still open. */
  ghost predicate OpenAt(prog: seq<char>, k: int, t: int)
  {
    && 0 <= k < |prog| && prog[k] == '['
    && Depth(prog[..k]) == t
    && forall m {:trigger Depth(prog[..m])} :: k < m <= |prog| ==> Depth(prog[..m]) > t
  }

  /** The bracket at level `t` of `K` is open at depth `t`. */
  ghost predicate Pending(prog: seq<char>, K: seq<int>)
  {
    forall t :: 0 <= t < |K| ==> OpenAt(prog, K[t], t)
  }

  // ---------------------------------------------------------------------
  // One more operator

  lemma AppendLast(P: seq<char>, c: char)
    ensures (P + [c])[..|P| + 1] == P + [c]
    ensures (P + [c])[..|P|] == P
    ensures Len(P + [c]) == Len(P) + Width(c)
    ensures Depth(P + [c]) == Depth(P) + (if c == '[' then 1 else if c == ']' then -1 else 0)
    ensures OpenBrackets(P + [c]) == var K := OpenBrackets(P);
      if c == '[' then K + [|P|] else if c == ']' && K != [] then K[..|K| - 1] else K
  {
    assert (P + [c])[..|P|] == P;
  }

  lemma AppendPrefix(P: seq<char>, c: char, n: int)
    requires 0 <= n <= |P|
    ensures (P + [c])[..n] == P[..n]
    ensures Addr(P + [c], n) == Addr(P, n)
    ensures n == |P| ==> Addr(P, n) == Len(P)
  {
    assert P[..|P|] == P;
  }

  lemma NeverNegativePrefix(P: seq<char>, c: char)
    requires NeverNegative(P + [c])
    ensures NeverNegative(P) && Depth(P + [c]) >= 0
  {
    forall n | 0 <= n <= |P|
      ensures Depth(P[..n]) >= 0
    {
      AppendPrefix(P, c, n);
    }
    AppendLast(P, c);
  }

  /** An open bracket stays open while the depth stays above its level. */
  lemma OpenAtKept(P: seq<char>, c: char, k: int, t: int)
    requires OpenAt(P, k, t) && Depth(P + [c]) > t
    ensures OpenAt(P + [c], k, t)
  {
    AppendLast(P, c);
    AppendPrefix(P, c, k);
    forall m | k < m <= |P| + 1
      ensures Depth((P + [c])[..m]) > t
    {
      if m <= |P| { AppendPrefix(P, c, m); }
    }
  }

  lemma OpenAtNew(P: seq<char>)
    ensures OpenAt(P + ['['], |P|, Depth(P))
  {
    AppendLast(P, '[');
    AppendPrefix(P, '[', |P|);
  }

  /** Pending brackets stay pending while the depth does not drop below
      their number. */
  lemma PendingKept(P: seq<char>, K: seq<int>, c: char)
    requires Pending(P, K) && Depth(P + [c]) >= |K|
    ensures Pending(P + [c], K)
  {
    forall t | 0 <= t < |K|
      ensures OpenAt(P + [c], K[t], t)
    {
      OpenAtKept(P, c, K[t], t);
    }
  }

  lemma PendingOpen(P: seq<char>, K: seq<int>)
    requires Pending(P, K) && Depth(P) == |K|
    ensures Pending(P + ['['], K + [|P|])
  {
    var K' := K + [|P|];
    AppendLast(P, '[');
    forall t | 0 <= t < |K'|
      ensures OpenAt(P + ['['], K'[t], t)
    {
      if t < |K| {
        assert K'[t] == K[t];
        OpenAtKept(P, '[', K[t], t);
      } else {
        OpenAtNew(P);
      }
    }
  }

  lemma PendingClose(P: seq<char>, K: seq<int>)
    requires Pending(P, K) && Depth(P) == |K| && K != []
    ensures Pending(P + [']'], K[..|K| - 1])
  {
    var K' := K[..|K| - 1];
    forall t | 0 <= t < |K'|
      ensures OpenAt(P + [']'], K'[t], t)
    {
      assert K'[t] == K[t];
      AppendLast(P, ']');
      OpenAtKept(P, ']', K[t], t);
    }
  }

  /** The `]` at position `|P|` closes the innermost pending `[` (at
      position `kt`), which no earlier `]` closes. */
  lemma CloseMatchesTop(P: seq<char>, K: seq<int>, kt: int)
    requires Pending(P, K) && |K| == Depth(P) && K != [] && kt == K[|K| - 1]
    ensures Match(P + [']'], kt, |P|)
    ensures forall j :: 0 <= j < |P| ==> !Match(P, kt, j)
  {
    var P' := P + [']'];
    var n := |K| - 1;
    assert OpenAt(P, kt, n);
    AppendLast(P, ']');
    AppendPrefix(P, ']', kt);
    forall m | kt < m <= |P|
      ensures Depth(P'[..m]) > Depth(P'[..kt])
    {
      AppendPrefix(P, ']', m);
    }
    forall j | 0 <= j < |P|
      ensures !Match(P, kt, j)
    {
      if kt <= j {
        assert Depth(P[..j + 1]) > n;
      }
    }
  }

  /** No other `[` is closed by that `]`. */
  lemma CloseMatchesOnlyTop(P: seq<char>, K: seq<int>, kt: int, k: int)
    requires Pending(P, K) && |K| == Depth(P) && K != [] && kt == K[|K| - 1]
    requires 0 <= k < |P| && k != kt
    ensures !Match(P + [']'], k, |P|)
  {
    var n := |K| - 1;
    assert OpenAt(P, kt, n);
    AppendLast(P, ']');
    AppendPrefix(P, ']', k);
    AppendPrefix(P, ']', kt);
    if k > kt {
      assert Depth(P[..k]) > n;
    }
  }

  /** Everything about the `]` at position `|P|` that pairing relies on. */
  lemma CloseFacts(P: seq<char>, K: seq<int>, kt: int)
    requires Pending(P, K) && |K| == Depth(P) && K != [] && kt == K[|K| - 1]
    ensures Match(P + [']'], kt, |P|)
    ensures forall j :: 0 <= j < |P| ==> !Match(P, kt, j)
    ensures forall k :: 0 <= k < |P| && k != kt ==> !Match(P + [']'], k, |P|)
  {
    CloseMatchesTop(P, K, kt);
    forall k | 0 <= k < |P| && k != kt
      ensures !Match(P + [']'], k, |P|)
    {
      CloseMatchesOnlyTop(P, K, kt, k);
    }
  }

  lemma MatchingKept(P: seq<char>, K: seq<int>, c: char)
    requires c != ']' && OpensMatched(P, K) && ClosesMatched(P)
    ensures OpensMatched(P + [c], if c == '[' then K + [|P|] else K)
    ensures ClosesMatched(P + [c])
  {
    var K' := if c == '[' then K + [|P|] else K;
    forall k | 0 <= k < |P| + 1 && (P + [c])[k] == '[' && k !in K'
      ensures exists j :: Match(P + [c], k, j)
    {
      var j :| Match(P, k, j);
      MatchExtend(P, c, k, j);
    }
    forall j | 0 <= j < |P| + 1 && (P + [c])[j] == ']'
      ensures exists k :: Match(P + [c], k, j)
    {
      var k :| Match(P, k, j);
      MatchExtend(P, c, k, j);
    }
  }

  lemma MatchingClose(P: seq<char>, K: seq<int>, kt: int)
    requires K != [] && kt == K[|K| - 1] && 0 <= kt < |P|
    requires Match(P + [']'], kt, |P|)
    requires OpensMatched(P, K) && ClosesMatched(P)
    ensures OpensMatched(P + [']'], K[..|K| - 1]) && ClosesMatched(P + [']'])
  {
    var P' := P + [']'];
    var K' := K[..|K| - 1];
    assert K == K' + [kt];
    forall k | 0 <= k < |P'| && P'[k] == '[' && k !in K'
      ensures exists j :: Match(P', k, j)
    {
      if k != kt {
        var j :| Match(P, k, j);
        MatchExtend(P, ']', k, j);
      }
    }
    forall j | 0 <= j < |P'| && P'[j] == ']'
      ensures exists k :: Match(P', k, j)
    {
      if j < |P| {
        var k :| Match(P, k, j);
        MatchExtend(P, ']', k, j);
      }
    }
  }

  // ---------------------------------------------------------------------
  // Whole sequences

  /** While no prefix closes more than it opens, `OpenBrackets` lists exactly
      the open brackets, one per level of depth. */
  lemma {:induction false} OpenBracketsPending(P: seq<char>)
    requires NeverNegative(P)
    ensures |OpenBrackets(P)| == Depth(P) && Pending(P, OpenBrackets(P))
  {
    if P != [] {
      var Q := P[..|P| - 1];
      var c := P[|P| - 1];
      assert P == Q + [c];
      NeverNegativePrefix(Q, c);
      OpenBracketsPending(Q);
      var K := OpenBrackets(Q);
      AppendLast(Q, c);
      if c == '[' {
        PendingOpen(Q, K);
      } else if c == ']' {
        PendingClose(Q, K);
      } else {
        PendingKept(Q, K, c);
      }
    }
  }

  /** ... and every other bracket is paired. */
  lemma {:induction false} OpenBracketsPaired(P: seq<char>)
    requires NeverNegative(P)
    ensures OpensMatched(P, OpenBrackets(P)) && ClosesMatched(P)
  {
    if P != [] {
      var Q := P[..|P| - 1];
      var c := P[|P| - 1];
      assert P == Q + [c];
      NeverNegativePrefix(Q, c);
      OpenBracketsPaired(Q);
      var K := OpenBrackets(Q);
      AppendLast(Q, c);
      if c == ']' {
        OpenBracketsPending(Q);
        CloseMatchesTop(Q, K, K[|K| - 1]);
        MatchingClose(Q, K, K[|K| - 1]);
      } else {
        MatchingKept(Q, K, c);
      }
    }
  }

  /** A balanced sequence leaves nothing open, so every bracket is paired. */
  lemma BalancedPaired(P: seq<char>)
    requires Balanced(P)
    ensures OpenBrackets(P) == [] && OpensMatched(P, []) && ClosesMatched(P)
  {
    OpenBracketsPending(P);
    OpenBracketsPaired(P);
  }
}
