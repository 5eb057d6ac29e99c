/** What the emission pass of `parse` (brainfuck.c:166-200) guarantees:
    the emitted stream has the sizing-pass length, holds every operator at
    its address, carries consistent offsets in the fields of every matched
    pair, and the two error codes come out exactly on the inputs whose
    prefix depths leave the range 0..127. */
module CompilerFacts {
  import opened Bytes
  import opened Syntax
  import opened Brackets
  import opened Compiler

  ghost predicate ZeroFrom(out: seq<Byte>, n: int)
  {
    forall q :: 0 <= n <= q < |out| ==> out[q] == 0
  }

  /** The loop stack of the pass holds the addresses of the brackets that
      are still open after `prog`. */
  ghost predicate StackOf(e: Emitter, prog: seq<char>)
  {
    var K := OpenBrackets(prog);
    |e.stack| == |K| && forall t :: 0 <= t < |K| ==> e.stack[t] == Addr(prog, K[t])
  }

  /** The bytes emitted for `prog`: every instruction at its address, every
      matched pair patched, and zeros past the next address. */
  ghost predicate LaidOut(e: Emitter, prog: seq<char>)
  {
    Laid(e.out, prog) && ZeroFrom(e.out, e.cnt) && PairsPatched(e.out, prog)
  }

  /** The `]` appended to `P` closes the `[` at position `kt`, which no
      earlier `]` closes, and closes no other `[`. */
  ghost predicate ClosesAt(P: seq<char>, kt: int)
  {
    && 0 <= kt < |P| && P[kt] == '['
    && Match(P + [']'], kt, |P|)
    && (forall j :: 0 <= j < |P| ==> !Match(P, kt, j))
    && (forall k :: 0 <= k < |P| && k != kt ==> !Match(P + [']'], k, |P|))
  }

  /** `out3` is `out` after the stores of a `]` at address `c` closing the
      `[` at address `a`. */
  ghost predicate ClosedBytes(out: seq<Byte>, out3: seq<Byte>, a: int, c: int)
  {
    && |out3| == |out| && 0 <= a && a + 3 <= c && c + 3 <= |out|
    && out3[c] == ']' as int
    && FieldAt(out3, a + 1) == c + 3 - a && FieldAt(out3, c + 1) == a - c
    && forall q :: 0 <= q < |out| && q != a + 1 && q != a + 2 && q != c && q != c + 1 && q != c + 2 ==>
      out3[q] == out[q]
  }

  /** Prefix `P[..n]` is the first one whose depth is outside 0..127. */
  ghost predicate FirstViolation(P: seq<char>, n: int)
  {
    && 0 < n <= |P|
    && (forall m {:trigger Depth(P[..m])} :: 0 <= m < n ==> 0 <= Depth(P[..m]) < MaxLoops)
    && !(0 <= Depth(P[..n]) < MaxLoops)
  }

  /** `out'` equals `out` below address `n`. */
  ghost predicate AgreeBelow(out: seq<Byte>, out': seq<Byte>, n: int)
  {
    |out'| == |out| && forall q :: 0 <= q < n && q < |out| ==> out'[q] == out[q]
  }

  // ---------------------------------------------------------------------
  // Helpers about one more instruction

  lemma Apart(P: seq<char>, k: int, x: int)
    requires 0 <= k < |P| && 0 <= x < |P| && k != x
    ensures Addr(P, k) + Width(P[k]) <= Addr(P, x) || Addr(P, x) + Width(P[x]) <= Addr(P, k)
  {
    if k < x { AddrMonotone(P, k, x); } else { AddrMonotone(P, x, k); }
  }

  /** Appending an operator at the next address, with the earlier bytes
      untouched, keeps every instruction at its address. */
  lemma LaidKept(out: seq<Byte>, out': seq<Byte>, P: seq<char>, c: char)
    requires Laid(out, P) && AgreeBelow(out, out', Len(P))
    requires Len(P) < |out'| && out'[Len(P)] == c as int
    ensures Laid(out', P + [c])
  {
    forall k | 0 <= k < |P| + 1
      ensures Addr(P + [c], k) < |out'| && out'[Addr(P + [c], k)] == (P + [c])[k] as int
    {
      AppendPrefix(P, c, k);
      if k < |P| { AddrBound(P, k); }
    }
  }

  /** Appending anything but a `]`, with the earlier bytes untouched, keeps
      every pair patched. */
  lemma PatchedKept(out: seq<Byte>, out': seq<Byte>, P: seq<char>, c: char)
    requires c != ']' && PairsPatched(out, P) && AgreeBelow(out, out', Len(P))
    ensures PairsPatched(out', P + [c])
  {
    forall k, j | Match(P + [c], k, j)
      ensures Patched(out', P + [c], k, j)
    {
      MatchExtend(P, c, k, j);
      AppendPrefix(P, c, k);
      AppendPrefix(P, c, j);
      AddrBound(P, k);
      AddrBound(P, j);
    }
  }

  /** After the stores of a `]`: every instruction is still at its address. */
  lemma LaidClose(out: seq<Byte>, out3: seq<Byte>, P: seq<char>, kt: int, a: int)
    requires 0 <= kt < |P| && P[kt] == '[' && a == Addr(P, kt)
    requires Laid(out, P) && ClosedBytes(out, out3, a, Len(P))
    ensures Laid(out3, P + [']'])
  {
    forall k | 0 <= k < |P| + 1
      ensures Addr(P + [']'], k) < |out3| && out3[Addr(P + [']'], k)] == (P + [']'])[k] as int
    {
      AppendPrefix(P, ']', k);
      if k < |P| {
        AddrBound(P, k);
        if k != kt { Apart(P, k, kt); }
      }
    }
  }

  /** A pair matched before the `]` keeps its fields: they lie below the new
      instruction and apart from the field of the pair being closed. */
  lemma OldPairKept(out: seq<Byte>, out3: seq<Byte>, P: seq<char>, kt: int, a: int, k: int, j: int)
    requires 0 <= kt < |P| && P[kt] == '[' && a == Addr(P, kt)
    requires 0 <= k < j < |P| && P[k] == '[' && P[j] == ']' && k != kt
    requires Patched(out, P, k, j)
    requires ClosedBytes(out, out3, a, Len(P))
    ensures Patched(out3, P + [']'], k, j)
  {
    AppendPrefix(P, ']', k);
    AppendPrefix(P, ']', j);
    AddrBound(P, k);
    AddrBound(P, j);
    Apart(P, k, kt);
    Apart(P, j, kt);
  }

  /** After the stores of a `]`: the new pair is patched and the fields of
      earlier pairs are untouched. */
  lemma PatchedClose(out: seq<Byte>, out3: seq<Byte>, P: seq<char>, kt: int, a: int)
    requires ClosesAt(P, kt) && a == Addr(P, kt)
    requires PairsPatched(out, P) && ClosedBytes(out, out3, a, Len(P))
    ensures PairsPatched(out3, P + [']'])
  {
    var P' := P + [']'];
    forall k, j | Match(P', k, j)
      ensures Patched(out3, P', k, j)
    {
      if j < |P| {
        MatchExtend(P, ']', k, j);
        OldPairKept(out, out3, P, kt, a, k, j);
      } else {
        NewPairPatched(out, out3, P, kt, a);
      }
    }
  }

  /** The fields of the pair just closed. */
  lemma NewPairPatched(out: seq<Byte>, out3: seq<Byte>, P: seq<char>, kt: int, a: int)
    requires 0 <= kt < |P| && a == Addr(P, kt) && ClosedBytes(out, out3, a, Len(P))
    ensures Patched(out3, P + [']'], kt, |P|)
  {
    AppendPrefix(P, ']', kt);
    AppendPrefix(P, ']', |P|);
  }

  // ---------------------------------------------------------------------
  // The loop stack of the pass

  lemma DepthsWithinNeverNegative(P: seq<char>)
    requires DepthsWithin(P, MaxLoops)
    ensures NeverNegative(P) && 0 <= Depth(P) < MaxLoops
  {
    assert P[..|P|] == P;
  }

  /** After the operators `P` and one more, `c`, the stack and the open
      brackets agree again. */
  lemma StackStep(e: Emitter, P: seq<char>, c: char)
    requires Fits(e) && |e.out| < 32768 && e.cnt + SourceWidth(c) <= |e.out| && IsOp(c)
    requires e.cnt == Len(P) && StackOf(e, P) && DepthsWithin(P, MaxLoops)
    ensures EmitOp(e, c).Ok? <==> DepthsWithin(P + [c], MaxLoops)
    ensures EmitOp(e, c).Ok? ==> EmitOp(e, c).value.cnt == Len(P + [c]) && StackOf(EmitOp(e, c).value, P + [c])
  {
    var K := OpenBrackets(P);
    DepthsWithinNeverNegative(P);
    OpenBracketsPending(P);
    DepthsWithinStep(P, c, MaxLoops);
    AppendLast(P, c);
    var K' := OpenBrackets(P + [c]);
    if EmitOp(e, c).Ok? {
      var e' := EmitOp(e, c).value;
      forall t | 0 <= t < |K'|
        ensures e'.stack[t] == Addr(P + [c], K'[t])
      {
        if t < |K| {
          AppendPrefix(P, c, K[t]);
          assert K'[t] == K[t];
        } else {
          AppendPrefix(P, c, |P|);
        }
      }
    }
  }

  /** The pass runs to the end exactly when no prefix of the operators leaves
      the depth range 0..127; its stack then holds the addresses of the brackets
      left open. */
  lemma {:induction false} EmitStack(s: seq<char>, size: nat)
    requires Size(s) <= size < 32768
    ensures Emit(s, size).Ok? <==> DepthsWithin(Ops(s), MaxLoops)
    ensures Emit(s, size).Ok? ==> Emit(s, size).value.cnt == Len(Ops(s)) && StackOf(Emit(s, size).value, Ops(s))
  {
    SizeIsLen(s);
    if s == [] {
      assert Ops(s)[..0] == [];
    } else {
      var init := s[..|s| - 1];
      var c := s[|s| - 1];
      var P := Ops(init);
      EmitStack(init, size);
      SizeIsLen(init);
      if IsOp(c) {
        DepthsWithinStep(P, c, MaxLoops);
        assert Ops(s) == P + [c];
        if Emit(init, size).Ok? {
          StackStep(Emit(init, size).value, P, c);
        }
      } else {
        assert Ops(s) == P;
      }
    }
  }

  /** On success no prefix leaves the depth range and the number of loops
      left open is the depth, below 128. */
  lemma EmitStackBound(s: seq<char>, size: nat)
    requires Size(s) <= size < 32768
    ensures Emit(s, size).Ok? <==> DepthsWithin(Ops(s), MaxLoops)
    ensures Emit(s, size).Ok? ==> |Emit(s, size).value.stack| == Depth(Ops(s)) < MaxLoops
  {
    EmitStack(s, size);
    if Emit(s, size).Ok? {
      DepthsWithinNeverNegative(Ops(s));
      OpenBracketsPending(Ops(s));
    }
  }

  // ---------------------------------------------------------------------
  // The bytes of the pass

  /** A simple operator or a `[` is written at the next address; nothing
      below it changes. */
  lemma LayoutKept(e: Emitter, P: seq<char>, c: char)
    requires Fits(e) && |e.out| < 32768 && e.cnt + SourceWidth(c) <= |e.out| && IsOp(c) && c != ']'
    requires e.cnt == Len(P) && LaidOut(e, P)
    requires EmitOp(e, c).Ok?
    ensures LaidOut(EmitOp(e, c).value, P + [c])
  {
    var e' := EmitOp(e, c).value;
    assert e'.out == e.out[e.cnt := c as int];
    LaidKept(e.out, e'.out, P, c);
    PatchedKept(e.out, e'.out, P, c);
  }

  /** The `]` after `P` closes the bracket whose address is on top of the
      stack, and no other. */
  lemma CloseTarget(e: Emitter, P: seq<char>) returns (kt: int)
    requires Fits(e) && StackOf(e, P) && DepthsWithin(P, MaxLoops) && e.stack != []
    ensures ClosesAt(P, kt) && e.stack[|e.stack| - 1] == Addr(P, kt)
  {
    var K := OpenBrackets(P);
    DepthsWithinNeverNegative(P);
    OpenBracketsPending(P);
    kt := K[|K| - 1];
    assert OpenAt(P, kt, |K| - 1);
    CloseFacts(P, K, kt);
  }

  lemma ClosePairBytes(out: seq<Byte>, a: int, c: int)
    requires 0 <= a && a + 3 <= c && c + 3 <= |out| < 32768
    ensures ClosedBytes(out, ClosePair(out, a, c), a, c)
  {
  }

  /** A `]` is written at the next address and both fields of its pair are
      patched; every other instruction and pair keeps its bytes. */
  lemma LayoutClose(e: Emitter, P: seq<char>)
    requires Fits(e) && |e.out| < 32768 && e.cnt + 3 <= |e.out|
    requires e.cnt == Len(P) && StackOf(e, P) && DepthsWithin(P, MaxLoops) && LaidOut(e, P)
    requires EmitOp(e, ']').Ok?
    ensures LaidOut(EmitOp(e, ']').value, P + [']'])
  {
    var kt := CloseTarget(e, P);
    var a := e.stack[|e.stack| - 1];
    var e' := Emitter(ClosePair(e.out, a, e.cnt), e.cnt + 3, e.stack[..|e.stack| - 1]);
    assert EmitOp(e, ']') == Ok(e');
    ClosePairBytes(e.out, a, e.cnt);
    ClosedLayout(e, e', P, kt, a);
  }

  lemma ClosedLayout(e: Emitter, e': Emitter, P: seq<char>, kt: int, a: int)
    requires ClosesAt(P, kt) && a == Addr(P, kt) && e.cnt == Len(P) && LaidOut(e, P)
    requires ClosedBytes(e.out, e'.out, a, e.cnt) && e'.cnt == e.cnt + 3
    ensures LaidOut(e', P + [']'])
  {
    LaidClose(e.out, e'.out, P, kt, a);
    PatchedClose(e.out, e'.out, P, kt, a);
  }

  /** On success the buffer holds the laid-out operators, zeros after them,
      and the patched fields of every matched pair. */
  lemma {:induction false} EmitLayout(s: seq<char>, size: nat)
    requires Size(s) <= size < 32768
    ensures Emit(s, size).Ok? ==> LaidOut(Emit(s, size).value, Ops(s))
  {
    if s != [] {
      var init := s[..|s| - 1];
      var c := s[|s| - 1];
      var P := Ops(init);
      EmitLayout(init, size);
      if IsOp(c) && Emit(s, size).Ok? {
        assert Ops(s) == P + [c];
        EmitStack(init, size);
        var e := Emit(init, size).value;
        if c == ']' {
          LayoutClose(e, P);
        } else {
          LayoutKept(e, P, c);
        }
      } else if !IsOp(c) {
        assert Ops(s) == P;
      }
    }
  }

  /** Once the pass has failed it stays failed with the same code. */
  lemma {:induction false} EmitErrSticks(s: seq<char>, i: nat, size: nat)
    requires i <= |s| && Size(s) <= size < 32768 && Size(s[..i]) <= size
    requires Emit(s[..i], size).Err?
    ensures Emit(s, size) == Emit(s[..i], size)
    decreases |s|
  {
    if i == |s| {
      assert s[..i] == s;
    } else {
      var init := s[..|s| - 1];
      assert init[..i] == s[..i];
      EmitErrSticks(init, i, size);
    }
  }

  /** The first prefix that leaves the depth range decides the error: 128
      open loops give LOOP_TOO_DEEP, a `]` with none open gives BAD_BRACKETS. */
  lemma {:induction false} EmitErrorKind(s: seq<char>, size: nat) returns (n: nat)
    requires Size(s) <= size < 32768
    ensures Emit(s, size).Err? ==>
      && FirstViolation(Ops(s), n)
      && (Emit(s, size).error == LoopTooDeep <==> Depth(Ops(s)[..n]) >= MaxLoops)
  {
    if s == [] {
      n := 0;
    } else {
      var init := s[..|s| - 1];
      var c := s[|s| - 1];
      var P := Ops(init);
      var P' := Ops(s);
      assert P' == if IsOp(c) then P + [c] else P;
      AppendLast(P, c);
      if Emit(init, size).Err? {
        n := EmitErrorKind(init, size);
        forall m | 0 <= m <= n
          ensures P'[..m] == P[..m]
        {
          if IsOp(c) { AppendPrefix(P, c, m); }
        }
      } else {
        n := |P'|;
        EmitStackBound(init, size);
        if Emit(s, size).Err? {
          assert IsBracket(c) && P' == P + [c];
          assert P'[..n] == P';
          forall m | 0 <= m < n
            ensures 0 <= Depth(P'[..m]) < MaxLoops
          {
            AppendPrefix(P, c, m);
          }
        }
      }
    }
  }

  lemma FirstViolationUnique(P: seq<char>, n: int, n': int)
    requires FirstViolation(P, n) && FirstViolation(P, n')
    ensures n == n'
  {
  }

  // ---------------------------------------------------------------------
  // Properties of `parse`

  /** `parse` succeeds exactly when the brackets balance and never more than
      127 loops are open at once. */
  lemma CompileSucceeds(src: seq<char>)
    requires Size(src) < 32768
    ensures Compile(src).Ok? <==> WellNested(Ops(src), MaxLoops)
  {
    EmitStackBound(src, Size(src));
  }

  /** The first prefix of the operators whose depth leaves 0..127 decides the
      error code: reaching 128 open loops is LOOP_TOO_DEEP, a `]` with no
      open loop is BAD_BRACKETS; a loop still open at the end is BAD_BRACKETS. */
  lemma CompileErrors(src: seq<char>)
    requires Size(src) < 32768
    ensures Compile(src) == Err(LoopTooDeep) <==>
      exists n :: FirstViolation(Ops(src), n) && Depth(Ops(src)[..n]) >= MaxLoops
    ensures Compile(src) == Err(BadBrackets) <==>
      || (exists n :: FirstViolation(Ops(src), n) && Depth(Ops(src)[..n]) < 0)
      || (DepthsWithin(Ops(src), MaxLoops) && Depth(Ops(src)) != 0)
  {
    var P := Ops(src);
    EmitStackBound(src, Size(src));
    var n := EmitErrorKind(src, Size(src));
    forall n' | FirstViolation(P, n')
      ensures !DepthsWithin(P, MaxLoops) && n' == n
    {
      assert !(0 <= Depth(P[..n']) < MaxLoops);
      FirstViolationUnique(P, n, n');
    }
  }

  /** On success the compiled length is the sizing-pass total and the stream
      is the linked form of the source's operators. */
  lemma CompileLinked(src: seq<char>)
    requires Size(src) < 32768
    ensures Compile(src).Ok? ==> |Compile(src).value| == Size(src) && Linked(Compile(src).value, Ops(src))
  {
    SizeIsLen(src);
    EmitStack(src, Size(src));
    EmitLayout(src, Size(src));
    if Compile(src).Ok? {
      DepthsWithinNeverNegative(Ops(src));
      OpenBracketsPaired(Ops(src));
    }
  }

  /** Comment characters do not influence the compiled result. */
  lemma {:induction false} EmitIgnoresComments(s: seq<char>, size: nat)
    requires Size(s) <= size < 32768
    ensures Size(Ops(s)) == Size(s)
    ensures Emit(Ops(s), size) == Emit(s, size)
  {
    OpsIdempotent(s);
    if s != [] {
      var init := s[..|s| - 1];
      var c := s[|s| - 1];
      EmitIgnoresComments(init, size);
      if IsOp(c) {
        var P := Ops(init) + [c];
        assert Ops(s) == P;
        assert P[..|P| - 1] == Ops(init);
      }
    }
  }

  lemma CompileIgnoresComments(src: seq<char>)
    requires Size(src) < 32768
    ensures Size(Ops(src)) == Size(src) && Compile(Ops(src)) == Compile(src)
  {
    EmitIgnoresComments(src, Size(src));
  }
}
