/** The two-pass compiler of brainfuck.c (`parse`, lines 132-201): a sizing
    pass, then an emission pass that copies the operators into a zeroed
    buffer of exactly that size and patches a 16-bit relative jump into the
    field after every matched pair of brackets.

    `Emit` and `Compile` are the emission pass as a function of the source;
    the methods in module Parser run the C loops over arrays and are proved
    equal to them; module CompilerFacts proves what the stream looks like. */
module Compiler {
  import opened Bytes
  import opened Syntax
  import opened Brackets

  /** Capacity of the loop stack in brainfuck.c (MAX_LOOPS). */
  const MaxLoops: int := 128

  /** The negative codes `parse` returns (BAD_BRACKETS, LOOP_TOO_DEEP). */
  datatype ParseError = BadBrackets | LoopTooDeep

  datatype Result<T> = Ok(value: T) | Err(error: ParseError)

  /** State of the emission pass: the output buffer, the next output address
      `cnt`, and the pending loop addresses (bottom first). */
  datatype Emitter = Emitter(out: seq<Byte>, cnt: nat, stack: seq<int>)

  /** Pending addresses are addresses of already emitted brackets. */
  ghost predicate Fits(e: Emitter)
  {
    && e.cnt <= |e.out|
    && forall t :: 0 <= t < |e.stack| ==> 0 <= e.stack[t] && e.stack[t] + 3 <= e.cnt
  }

  /** The byte that stands for an operator in the compiled stream: the
      character itself. */
  function OpByte(ch: char): Byte
    requires IsOp(ch)
  {
    ch as int
  }

  /** One iteration of the emission loop (brainfuck.c:167-194). */
  function EmitOp(e: Emitter, ch: char): (r: Result<Emitter>)
    requires Fits(e) && |e.out| < 32768 && e.cnt + SourceWidth(ch) <= |e.out|
    ensures r.Ok? ==> Fits(r.value) && |r.value.out| == |e.out| && r.value.cnt == e.cnt + SourceWidth(ch)
  {
    if IsSimple(ch) then
      Ok(Emitter(e.out[e.cnt := OpByte(ch)], e.cnt + 1, e.stack))
    else if ch == '[' then
      // the address is pushed first, then the depth is checked
      var stack := e.stack + [e.cnt];
      if |stack| == MaxLoops then Err(LoopTooDeep)
      else Ok(Emitter(e.out[e.cnt := OpByte(ch)], e.cnt + 3, stack))
    else if ch == ']' then
      if e.stack == [] then Err(BadBrackets)
      else
        var tmp := e.stack[|e.stack| - 1];
        Ok(Emitter(ClosePair(e.out, tmp, e.cnt), e.cnt + 3, e.stack[..|e.stack| - 1]))
    else
      Ok(e)
  }

  /** The stores for a `]` at address `c` whose `[` is at address `a`
      (brainfuck.c:184-192): the operator byte, then the field after the `]`
      (back to the `[`), then the field after the `[` (past the `]`). Only
      those five bytes change. */
  function ClosePair(out: seq<Byte>, a: int, c: int): (out3: seq<Byte>)
    requires 0 <= a && a + 3 <= c && c + 3 <= |out| < 32768
    ensures |out3| == |out| && out3[c] == ']' as int
    ensures FieldAt(out3, a + 1) == c + 3 - a && FieldAt(out3, c + 1) == a - c
    ensures forall q :: 0 <= q < |out| && q != a + 1 && q != a + 2 && q != c && q != c + 1 && q != c + 2 ==>
      out3[q] == out[q]
  {
    var out2 := StoreShort(out[c := OpByte(']')], c + 1, a - c);
    StoreShort(out2, a + 1, c + 3 - a)
  }

  /** The emission pass over `s` into a zeroed buffer of `size` bytes; the
      first error ends the pass. */
  function Emit(s: seq<char>, size: nat): (r: Result<Emitter>)
    requires Size(s) <= size < 32768
    ensures r.Ok? ==> Fits(r.value) && |r.value.out| == size && r.value.cnt == Size(s)
  {
    if s == [] then Ok(Emitter(seq(size, _ => 0), 0, []))
    else
      match Emit(s[..|s| - 1], size)
      case Err(err) => Err(err)
      case Ok(e) => EmitOp(e, s[|s| - 1])
  }

  /** What `parse` produces for `src`: the compiled stream, or the error code.
      A bracket still pending after the scan is BAD_BRACKETS (line 197). */
  function Compile(src: seq<char>): Result<seq<Byte>>
    requires Size(src) < 32768
  {
    match Emit(src, Size(src))
    case Err(err) => Err(err)
    case Ok(e) => if e.stack != [] then Err(BadBrackets) else Ok(e.out)
  }

  // ---------------------------------------------------------------------
  // What a compiled stream looks like

  /** Instruction `k` of `prog` has its character at its address. */
  ghost predicate Laid(code: seq<Byte>, prog: seq<char>)
  {
    forall k :: 0 <= k < |prog| ==> Addr(prog, k) < |code| && code[Addr(prog, k)] == prog[k] as int
  }

  /** The fields of a matched pair: the `[` at address `a` holds the distance
      to just past the `]`, the `]` at address `c` holds the (negative)
      distance back to the `[`. */
  ghost predicate Patched(code: seq<Byte>, prog: seq<char>, k: int, j: int)
    requires 0 <= k < j < |prog|
  {
    var a := Addr(prog, k);
    var c := Addr(prog, j);
    && a + 2 < |code| && c + 2 < |code|
    && FieldAt(code, a + 1) == c + 3 - a
    && FieldAt(code, c + 1) == a - c
  }

  ghost predicate PairsPatched(code: seq<Byte>, prog: seq<char>)
  {
    forall k, j :: Match(prog, k, j) ==> Patched(code, prog, k, j)
  }

  /** `code` is the compiled form of the instruction sequence `prog`: exactly
      its length, every instruction at its address, every bracket paired and
      every pair's fields patched. This is what the interpreters rely on. */
  ghost predicate Linked(code: seq<Byte>, prog: seq<char>)
  {
    && |code| == Len(prog)
    && Laid(code, prog)
    && PairsPatched(code, prog)
    && OpensMatched(prog, [])
    && ClosesMatched(prog)
  }
}
