/** `parse` as the C code runs it: a sizing loop, a zeroed output array of
    that size, a 128-slot loop stack in sentinel form, and an emission loop
    that writes the array in place (brainfuck.c:132-201). The older
    revision in brainfuck.h:59-114 has a 64-slot stack and no checks. Both
    are proved to compute `Compiler.Compile`. */
module Parser {
  import opened Bytes
  import opened Syntax
  import opened LoopStack
  import opened Compiler
  import opened CompilerFacts

  /** Capacity of the loop stack of the older revision (brainfuck.h:81). */
  const LegacyLoops: int := 64

  /** The sizing pass (brainfuck.c:133-145, brainfuck.h:61-74). */
  method CountSize(src: seq<char>) returns (size: nat)
    ensures size == Size(src)
  {
    size := 0;
    for i := 0 to |src|
      invariant size == Size(src[..i])
    {
      SizeStep(src, i);
      if IsSimple(src[i]) {
        size := size + 1;
      } else if IsBracket(src[i]) {
        size := size + 3;
      }
    }
    assert src[..|src|] == src;
  }

  /** The store `*(short*)&buf[p] = v`. */
  method StoreField(buf: array<Byte>, p: int, v: Short)
    requires 0 <= p && p + 1 < buf.Length
    modifies buf
    ensures buf[..] == StoreShort(old(buf[..]), p, v)
  {
    var bytes := EncodeShort(v);
    buf[p] := bytes[0];
    buf[p + 1] := bytes[1];
  }

  /** The two stores of a `]` at address `cnt` whose `[` is at `tmp`
      (brainfuck.c:190-192, brainfuck.h:106-108), with the advance of `cnt`
      between them. */
  method PatchPair(buf: array<Byte>, cnt: int, tmp: int) returns (cnt': int)
    requires 0 <= tmp && tmp + 3 <= cnt && cnt + 3 <= buf.Length < 32768 && buf[cnt] == ']' as int
    modifies buf
    ensures cnt' == cnt + 3 && buf[..] == ClosePair(old(buf[..]), tmp, cnt)
  {
    assert old(buf[..])[cnt := OpByte(']')] == old(buf[..]);
    StoreField(buf, cnt + 1, tmp - cnt);
    cnt' := cnt + 3;
    StoreField(buf, tmp + 1, cnt' - tmp);
  }

  /** The start of the `[` case (brainfuck.c:176-177, brainfuck.h:98-99):
      store the operator and push its address. */
  method OpenLoop(buf: array<Byte>, loopstack: array<Short>, cnt: int, ghost e: Emitter)
    requires 0 <= cnt < buf.Length < 32768 && buf[..] == e.out
    requires Holds(loopstack[..], e.stack) && |e.stack| < loopstack.Length
    modifies buf, loopstack
    ensures buf[..] == e.out[cnt := OpByte('[')]
    ensures Holds(loopstack[..], e.stack + [cnt])
  {
    buf[cnt] := OpByte('[');
    HoldsLen(loopstack[..], e.stack);
    ghost var before := loopstack[..];
    Push(loopstack, cnt);
    HoldsPush(before, e.stack, cnt);
  }

  /** The start of the `]` case (brainfuck.c:186-187, brainfuck.h:104-105):
      store the operator and pop the address of the pending `[`, -1 when
      there is none. */
  method CloseLoop(buf: array<Byte>, loopstack: array<Short>, cnt: int, ghost e: Emitter) returns (tmp: Short)
    requires 0 <= cnt < buf.Length && buf[..] == e.out
    requires Holds(loopstack[..], e.stack)
    modifies buf, loopstack
    ensures buf[..] == e.out[cnt := OpByte(']')]
    ensures e.stack == [] ==> tmp == -1
    ensures e.stack != [] ==> tmp == e.stack[|e.stack| - 1] && Holds(loopstack[..], e.stack[..|e.stack| - 1])
  {
    buf[cnt] := OpByte(']');
    HoldsLen(loopstack[..], e.stack);
    ghost var before := loopstack[..];
    tmp := Pop(loopstack);
    if e.stack != [] {
      assert before[|e.stack| - 1] == e.stack[|e.stack| - 1];
      HoldsPop(before, e.stack);
    }
  }

  /** One pass of the emission loop's `switch` (brainfuck.c:167-194) on
      the character `ch`: the new `cnt`, or the code `parse` returns. */
  method EmitChar(buf: array<Byte>, loopstack: array<Short>, cnt: int, ch: char, ghost e: Emitter)
    returns (res: Result<int>)
    requires Fits(e) && buf.Length < 32768 && e.cnt + SourceWidth(ch) <= buf.Length
    requires buf[..] == e.out && cnt == e.cnt
    requires loopstack.Length == MaxLoops && Holds(loopstack[..], e.stack) && |e.stack| < MaxLoops
    modifies buf, loopstack
    ensures res.Err? <==> EmitOp(e, ch).Err?
    ensures res.Err? ==> res.error == EmitOp(e, ch).error
    ensures res.Ok? ==> var e' := EmitOp(e, ch).value;
      res.value == e'.cnt && buf[..] == e'.out && Holds(loopstack[..], e'.stack)
  {
    if IsSimple(ch) {
      buf[cnt] := OpByte(ch);
      EmitOpSimple(e, ch);
      res := Ok(cnt + 1);
    } else if ch == '[' {
      OpenLoop(buf, loopstack, cnt, e);
      var len := ShortLen(loopstack);
      HoldsLen(loopstack[..], e.stack + [cnt]);
      if len == MaxLoops {
        return Err(LoopTooDeep);
      }
      EmitOpOpen(e);
      res := Ok(cnt + 3);
    } else if ch == ']' {
      var tmp := CloseLoop(buf, loopstack, cnt, e);
      if tmp == -1 {
        return Err(BadBrackets);
      }
      var cnt' := PatchPair(buf, cnt, tmp);
      ClosePairAfterOp(e.out, tmp, e.cnt);
      EmitOpClose(e);
      res := Ok(cnt');
    } else {
      res := Ok(cnt);
    }
  }

  /** `parse` of brainfuck.c with a fresh output buffer (`*arr == NULL`, as
      main.c calls it). `src` is the C string up to its NUL, which is where
      the `strlen` loops stop (`Session.Source` makes the cut). On success the returned length is the sizing total
      and the buffer is the compiled stream; otherwise the error code. */
  method Parse(src: seq<char>) returns (r: Result<nat>, buf: array<Byte>)
    requires Size(src) < 32768
    ensures fresh(buf)
    ensures Compile(src).Ok? ==> r == Ok(Size(src)) && buf[..] == Compile(src).value
    ensures Compile(src).Err? ==> r == Err(Compile(src).error)
  {
    var size := CountSize(src);
    buf := new Byte[size](_ => 0);
    var loopstack := NewLoopStack(MaxLoops);
    var cnt := 0;
    assert src[..0] == [];
    ghost var st := Emit(src[..0], size).value;
    for i := 0 to |src|
      invariant Size(src[..i]) <= size
      invariant Emit(src[..i], size) == Ok(st)
      invariant buf[..] == st.out && cnt == st.cnt
      invariant loopstack.Length == MaxLoops && Holds(loopstack[..], st.stack)
    {
      SizeStep(src, i);
      SizePrefix(src, i + 1);
      assert src[..i + 1][..i] == src[..i];
      EmitStackBound(src[..i], size);
      var res := EmitChar(buf, loopstack, cnt, src[i], st);
      if res.Err? {
        r := Err(res.error);
        EmitErrSticks(src, i + 1, size);
        return;
      }
      cnt := res.value;
      st := EmitOp(st, src[i]).value;
    }
    assert src[..|src|] == src;
    var len := ShortLen(loopstack);
    HoldsLen(loopstack[..], st.stack);
    if len > 0 {
      return Err(BadBrackets), buf;
    }
    r := Ok(cnt);
  }

  /** One pass of the emission `switch` of the older revision
      (brainfuck.h:88-110): no check on the pop, none on the depth. The pop
      is only well defined when a `[` is pending, and the next `shortlen`
      only when fewer than 64 are. */
  method EmitCharLegacy(buf: array<Byte>, loopstack: array<Short>, cnt: int, ch: char, ghost e: Emitter)
    returns (cnt': int)
    requires Fits(e) && buf.Length < 32768 && e.cnt + SourceWidth(ch) <= buf.Length
    requires buf[..] == e.out && cnt == e.cnt
    requires loopstack.Length == LegacyLoops && Holds(loopstack[..], e.stack)
    requires ch == '[' ==> |e.stack| + 1 < LegacyLoops
    requires ch == ']' ==> e.stack != []
    modifies buf, loopstack
    ensures EmitOp(e, ch).Ok?
    ensures var e' := EmitOp(e, ch).value;
      cnt' == e'.cnt && buf[..] == e'.out && Holds(loopstack[..], e'.stack)
  {
    if IsSimple(ch) {
      buf[cnt] := OpByte(ch);
      EmitOpSimple(e, ch);
      cnt' := cnt + 1;
    } else if ch == '[' {
      OpenLoop(buf, loopstack, cnt, e);
      EmitOpOpen(e);
      cnt' := cnt + 3;
    } else if ch == ']' {
      var tmp := CloseLoop(buf, loopstack, cnt, e);
      cnt' := PatchPair(buf, cnt, tmp);
      ClosePairAfterOp(e.out, tmp, e.cnt);
      EmitOpClose(e);
    } else {
      cnt' := cnt;
    }
  }

  /** `parse` of brainfuck.h. It checks nothing, so it is only defined on
      operators that balance with fewer than 64 loops open at once; there it
      computes what the current revision computes. */
  method ParseLegacy(src: seq<char>) returns (len: int, buf: array<Byte>)
    requires Size(src) < 32768 && WellNested(Ops(src), LegacyLoops)
    ensures fresh(buf)
    ensures Compile(src).Ok? && len == Size(src) && buf[..] == Compile(src).value
  {
    var size := CountSize(src);
    buf := new Byte[size](_ => 0);
    var loopstack := NewLoopStack(LegacyLoops);
    var cnt := 0;
    assert src[..0] == [];
    ghost var st := Emit(src[..0], size).value;
    for i := 0 to |src|
      invariant Size(src[..i]) <= size
      invariant Emit(src[..i], size) == Ok(st)
      invariant buf[..] == st.out && cnt == st.cnt
      invariant loopstack.Length == LegacyLoops && Holds(loopstack[..], st.stack)
    {
      SizeStep(src, i);
      SizePrefix(src, i + 1);
      assert src[..i + 1][..i] == src[..i];
      LegacyStep(src, i, size);
      cnt := EmitCharLegacy(buf, loopstack, cnt, src[i], st);
      st := EmitOp(st, src[i]).value;
    }
    assert src[..|src|] == src;
    LegacyAgrees(src);
    len := cnt;
  }

  /** Below 64 open loops on every prefix, each stack operation of the older
      revision is defined: a `[` leaves room, a `]` has a pending `[`. */
  lemma LegacyStep(src: seq<char>, i: nat, size: nat)
    requires i < |src| && Size(src[..i]) <= size < 32768 && WellNested(Ops(src), LegacyLoops)
    requires Emit(src[..i], size).Ok?
    ensures src[i] == '[' ==> |Emit(src[..i], size).value.stack| + 1 < LegacyLoops
    ensures src[i] == ']' ==> Emit(src[..i], size).value.stack != []
  {
    var P := Ops(src[..i]);
    SizeStep(src, i);
    OpsPrefix(src, i + 1);
    DepthsWithinPrefix(Ops(src), Ops(src[..i + 1]), LegacyLoops);
    EmitStackBound(src[..i], size);
    if IsBracket(src[i]) {
      assert Ops(src[..i + 1]) == P + [src[i]];
      DepthsWithinStep(P, src[i], LegacyLoops);
      DepthStep(P + [src[i]], |P|);
      assert (P + [src[i]])[..|P|] == P;
      assert (P + [src[i]])[..|P| + 1] == P + [src[i]];
    }
  }

  /** On operators that balance with fewer than 64 loops open at once, the
      current revision succeeds, leaving no loop pending, so the older one
      computes the same stream. */
  lemma LegacyAgrees(src: seq<char>)
    requires Size(src) < 32768 && WellNested(Ops(src), LegacyLoops)
    ensures Compile(src).Ok? && Emit(src, Size(src)).value.stack == []
  {
    assert DepthsWithin(Ops(src), MaxLoops);
    CompileSucceeds(src);
    EmitStackBound(src, Size(src));
  }

  lemma EmitOpSimple(e: Emitter, ch: char)
    requires Fits(e) && |e.out| < 32768 && e.cnt + 1 <= |e.out| && IsSimple(ch)
    ensures EmitOp(e, ch) == Ok(Emitter(e.out[e.cnt := OpByte(ch)], e.cnt + 1, e.stack))
  {
  }

  lemma EmitOpOpen(e: Emitter)
    requires Fits(e) && |e.out| < 32768 && e.cnt + 3 <= |e.out| && |e.stack| + 1 != MaxLoops
    ensures EmitOp(e, '[') == Ok(Emitter(e.out[e.cnt := OpByte('[')], e.cnt + 3, e.stack + [e.cnt]))
  {
  }

  lemma EmitOpClose(e: Emitter)
    requires Fits(e) && |e.out| < 32768 && e.cnt + 3 <= |e.out| && e.stack != []
    ensures var a := e.stack[|e.stack| - 1];
      EmitOp(e, ']') == Ok(Emitter(ClosePair(e.out, a, e.cnt), e.cnt + 3, e.stack[..|e.stack| - 1]))
  {
  }

  lemma ClosePairAfterOp(out: seq<Byte>, a: int, c: int)
    requires 0 <= a && a + 3 <= c && c + 3 <= |out| < 32768
    ensures ClosePair(out[c := ']' as int], a, c) == ClosePair(out, a, c)
  {
    assert out[c := ']' as int][c := OpByte(']')] == out[c := OpByte(']')];
  }
}
