/** The compiler's stack of pending loop addresses: a fixed array of `short`
    whose live part is the run of non-negative entries before the first
    negative one (the sentinel, -1). The functions of brainfuck.c and their
    copies in brainfuck.h are the same code; they are modelled once. */
module LoopStack {
  import opened Bytes

  /** Number of leading non-negative entries of `s`. The scan also stops at
      the end of `s` (see `ShortLen` for why). */
  function SentinelLen(s: seq<int>): (n: nat)
    ensures n <= |s|
    ensures forall k :: 0 <= k < n ==> s[k] >= 0
    ensures n < |s| ==> s[n] < 0
  {
    if s == [] || s[0] < 0 then 0 else 1 + SentinelLen(s[1..])
  }

  /** The three facts of `SentinelLen`'s contract determine it. */
  lemma SentinelLenUnique(s: seq<int>, n: nat)
    requires n <= |s|
    requires forall k :: 0 <= k < n ==> s[k] >= 0
    requires n < |s| ==> s[n] < 0
    ensures n == SentinelLen(s)
  {
  }

  /** `n` copies of `v`. */
  function Fill(v: int, n: nat): (r: seq<int>)
    ensures |r| == n && forall k :: 0 <= k < n ==> r[k] == v
  {
    seq(n, _ => v)
  }

  /** Array contents `s` hold the stack `st` (bottom first): the entries of
      `st`, all non-negative, followed by -1 in every remaining slot. */
  ghost predicate Holds(s: seq<int>, st: seq<int>)
  {
    && |st| <= |s|
    && s == st + Fill(-1, |s| - |st|)
    && forall k :: 0 <= k < |st| ==> st[k] >= 0
  }

  /** A stack of `n` slots, all -1 (brainfuck.c:161-164, brainfuck.h:81-84). */
  method NewLoopStack(n: nat) returns (stack: array<Short>)
    ensures fresh(stack)
    ensures stack.Length == n && Holds(stack[..], [])
  {
    stack := new Short[n];
    for i := 0 to n
      invariant forall k :: 0 <= k < i ==> stack[k] == -1
    {
      stack[i] := -1;
    }
    assert stack[..] == [] + Fill(-1, n);
  }

  /** `shortlen` (brainfuck.c:86-90): the number of entries before the first
      negative one. The C loop has no bound; this one also stops at the end
      of the array, where the C loop would read past it. */
  method ShortLen(arr: array<Short>) returns (len: int)
    ensures len == SentinelLen(arr[..])
  {
    len := 0;
    while len < arr.Length && arr[len] >= 0
      invariant 0 <= len <= arr.Length
      invariant forall k :: 0 <= k < len ==> arr[k] >= 0
    {
      len := len + 1;
    }
    SentinelLenUnique(arr[..], len);
  }

  /** `shortlen` exactly as written: the walk reads entries until it meets a
      negative one, so it is only defined when the array holds one. */
  method ShortLenStrict(arr: array<Short>) returns (len: int)
    requires exists k :: 0 <= k < arr.Length && arr[k] < 0
    ensures len == SentinelLen(arr[..])
  {
    ghost var stop :| 0 <= stop < arr.Length && arr[stop] < 0;
    len := 0;
    while arr[len] >= 0
      invariant 0 <= len <= stop
      invariant forall k :: 0 <= k < len ==> arr[k] >= 0
      decreases stop - len
    {
      len := len + 1;
    }
    SentinelLenUnique(arr[..], len);
  }

  /** `push` (brainfuck.c:96-99): `data` goes into the slot at `shortlen`. */
  method Push(stack: array<Short>, data: Short)
    requires SentinelLen(stack[..]) < stack.Length
    modifies stack
    ensures stack[..] == old(stack[..])[SentinelLen(old(stack[..])) := data]
  {
    var len := ShortLen(stack);
    stack[len] := data;
  }

  /** `pop` (brainfuck.c:105-112): -1 on an empty stack; otherwise the top
      entry, whose slot is overwritten with the sentinel. */
  method Pop(stack: array<Short>) returns (top: Short)
    modifies stack
    ensures var n := SentinelLen(old(stack[..]));
      if n == 0 then top == -1 && stack[..] == old(stack[..])
      else top == old(stack[n - 1]) && stack[..] == old(stack[..])[n - 1 := -1]
  {
    var len := ShortLen(stack);
    if len == 0 {
      return -1;
    }
    top := stack[len - 1];
    stack[len - 1] := -1;
  }

  /** `peek` (brainfuck.c:118-123): the value `pop` would return; -1
      exactly when the stack is empty. */
  method Peek(stack: array<Short>) returns (top: Short)
    ensures var n := SentinelLen(stack[..]);
      top == (if n == 0 then -1 else stack[n - 1]) && (top < 0 <==> n == 0)
  {
    var len := ShortLen(stack);
    if len == 0 {
      return -1;
    }
    top := stack[len - 1];
  }

  // ---------------------------------------------------------------------
  // The abstract stack

  lemma HoldsLen(s: seq<int>, st: seq<int>)
    requires Holds(s, st)
    ensures SentinelLen(s) == |st|
  {
    SentinelLenUnique(s, |st|);
  }

  lemma HoldsPush(s: seq<int>, st: seq<int>, d: int)
    requires Holds(s, st) && |st| < |s| && d >= 0
    ensures Holds(s[|st| := d], st + [d])
  {
    assert s[|st| := d] == (st + [d]) + Fill(-1, |s| - |st| - 1);
  }

  lemma HoldsPop(s: seq<int>, st: seq<int>)
    requires Holds(s, st) && st != []
    ensures Holds(s[|st| - 1 := -1], st[..|st| - 1])
  {
    assert s[|st| - 1 := -1] == st[..|st| - 1] + Fill(-1, |s| - |st| + 1);
  }

  /** Pushing a non-negative value onto a stack kept in sentinel form and
      popping it again returns that value and restores the array. */
  lemma PushPopRoundTrip(s: seq<int>, d: int)
    requires Holds(s, s[..SentinelLen(s)])
    requires SentinelLen(s) < |s| && d >= 0
    ensures var n := SentinelLen(s);
      var pushed := s[n := d];
      SentinelLen(pushed) == n + 1 && pushed[n] == d && pushed[n := -1] == s
  {
    var n := SentinelLen(s);
    var st := s[..n];
    HoldsPush(s, st, d);
    HoldsLen(s[n := d], st + [d]);
  }

  /** Once every slot is in use no negative entry is left, so the sentinel
      walk of `shortlen` as written has nothing to stop at. */
  lemma FullStackHasNoSentinel(s: seq<int>, st: seq<int>)
    requires Holds(s, st) && |st| == |s|
    ensures !exists k :: 0 <= k < |s| && s[k] < 0
  {
    assert s == st;
  }
}
