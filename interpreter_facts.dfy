/** What running a compiled stream means. Over a stream that `parse` produced,
    the run loop of main.c (`Exec`) computes exactly a reference semantics
    over the instruction sequence in which a bracket goes to its partner
    (`RefExec`); in particular every jump lands on an instruction and the
    run never reaches undefined behaviour. */
module InterpreterFacts {
  import opened Bytes
  import opened Syntax
  import opened Brackets
  import opened Compiler
  import opened CompilerFacts
  import opened Interpreter

  /** Every bracket of `prog` has its partner. */
  ghost predicate Paired(prog: seq<char>)
  {
    OpensMatched(prog, []) && ClosesMatched(prog)
  }

  /** `prog` holds only operators (comments already dropped). */
  ghost predicate AllOps(prog: seq<char>)
  {
    forall t :: 0 <= t < |prog| ==> IsOp(prog[t])
  }

  /** The `]` that closes the `[` at `k`. */
  ghost function CloseOf(prog: seq<char>, k: int): (j: int)
    requires 0 <= k < |prog| && prog[k] == '[' && Paired(prog)
    ensures Match(prog, k, j)
  {
    var j :| Match(prog, k, j); j
  }

  /** The `[` that the `]` at `j` closes. */
  ghost function OpenOf(prog: seq<char>, j: int): (k: int)
    requires 0 <= j < |prog| && prog[j] == ']' && Paired(prog)
    ensures Match(prog, k, j)
  {
    var k :| Match(prog, k, j); k
  }

  /** The instruction that runs after instruction `k` when the current cell
      held `cell`: past the partner `]` for a `[` on a zero cell, back to
      the partner `[` for a `]`, the next one otherwise. */
  ghost function Next(prog: seq<char>, k: int, cell: Cell): (n: int)
    requires 0 <= k < |prog| && Paired(prog)
    ensures 0 <= n <= |prog|
  {
    if prog[k] == '[' && cell == 0 then CloseOf(prog, k) + 1
    else if prog[k] == ']' then OpenOf(prog, k)
    else k + 1
  }

  /** Reference semantics over instruction positions, with no byte layout:
      the same steps and the same fault check as the run loop. It never
      gets stuck. */
  ghost function RefExec(prog: seq<char>, c: Conf, k: int, fuel: nat): (r: Outcome)
    requires AllOps(prog) && Paired(prog) && OnTape(c) && 0 <= k <= |prog|
    ensures !r.Stuck?
    ensures !r.Fault? ==> OnTape(r.conf)
    decreases fuel
  {
    if k == |prog| then Finished(c)
    else if fuel == 0 then OutOfFuel(c)
    else
      var c' := Step(c, OpByte(prog[k]));
      if c'.where < 0 || c'.where >= TapeSize then Fault(c')
      else RefExec(prog, c', Next(prog, k, c.tape[c.where]), fuel - 1)
  }

  lemma FieldAfter(code: seq<Byte>, a: int)
    requires 0 <= a && a + 2 < |code|
    ensures |code[a + 1..]| >= 2 && FieldAt(code[a + 1..], 0) == FieldAt(code, a + 1)
  {
  }

  /** Instruction `k` of a compiled stream: its byte is its operator, and
      the next instruction starts right after its width. */
  lemma InstrAt(code: seq<Byte>, prog: seq<char>, k: int)
    requires Linked(code, prog) && 0 <= k < |prog|
    ensures var a := Addr(prog, k);
      && a + Width(prog[k]) <= |code| && code[a] == prog[k] as int
      && Addr(prog, k + 1) == a + Width(prog[k])
  {
    AddrBound(prog, k);
    LenStep(prog, k);
    assert prog[..|prog|] == prog;
  }

  /** The fields of a matched pair, read at their addresses. */
  lemma PairFields(code: seq<Byte>, prog: seq<char>, k: int, j: int)
    requires Linked(code, prog) && Match(prog, k, j)
    ensures var a := Addr(prog, k);
      var c := Addr(prog, j);
      && a + 3 <= c && c + 3 <= |code| && Addr(prog, j + 1) == c + 3
      && FieldAt(code, a + 1) == c + 3 - a && FieldAt(code, c + 1) == a - c
  {
    AddrMonotone(prog, k, j);
    InstrAt(code, prog, j);
    assert Patched(code, prog, k, j);
  }

  /** In a compiled stream, instruction `k` is readable at its address, and
      the index the run loop moves to after it is the address of the
      instruction `Next` names. */
  lemma Lands(code: seq<Byte>, prog: seq<char>, c: Conf, k: int)
    requires Linked(code, prog) && OnTape(c) && 0 <= k < |prog|
    ensures var a := Addr(prog, k);
      && a < |code| && code[a] == prog[k] as int
      && (IsJump(code[a]) ==> a + 3 <= |code|)
      && Jump(code, c, a) == Addr(prog, Next(prog, k, c.tape[c.where]))
  {
    InstrAt(code, prog, k);
    if prog[k] == '[' && c.tape[c.where] == 0 {
      LandsPastClose(code, prog, c, k, CloseOf(prog, k));
    } else if prog[k] == ']' {
      LandsOnOpen(code, prog, c, OpenOf(prog, k), k);
    } else {
      LandsOnNext(code, prog, c, k);
    }
  }

  lemma LandsPastClose(code: seq<Byte>, prog: seq<char>, c: Conf, k: int, j: int)
    requires Linked(code, prog) && OnTape(c) && Match(prog, k, j) && c.tape[c.where] == 0
    ensures Addr(prog, k) + 3 <= |code|
    ensures Jump(code, c, Addr(prog, k)) == Addr(prog, j + 1)
  {
    PairFields(code, prog, k, j);
    InstrAt(code, prog, k);
    JumpValue(code, c, Addr(prog, k));
  }

  lemma LandsOnOpen(code: seq<Byte>, prog: seq<char>, c: Conf, k: int, j: int)
    requires Linked(code, prog) && OnTape(c) && Match(prog, k, j)
    ensures Addr(prog, j) + 3 <= |code|
    ensures Jump(code, c, Addr(prog, j)) == Addr(prog, k)
  {
    PairFields(code, prog, k, j);
    InstrAt(code, prog, j);
    JumpValue(code, c, Addr(prog, j));
  }

  lemma LandsOnNext(code: seq<Byte>, prog: seq<char>, c: Conf, k: int)
    requires Linked(code, prog) && OnTape(c) && 0 <= k < |prog| && prog[k] != ']'
    requires prog[k] == '[' ==> c.tape[c.where] != 0
    ensures Addr(prog, k) + Width(prog[k]) <= |code|
    ensures Jump(code, c, Addr(prog, k)) == Addr(prog, k + 1)
  {
    InstrAt(code, prog, k);
    JumpValue(code, c, Addr(prog, k));
  }

  /** The index after the instruction at `a`, spelled out per operator. */
  lemma JumpValue(code: seq<Byte>, c: Conf, a: int)
    requires OnTape(c) && 0 <= a < |code| && (IsJump(code[a]) ==> a + 3 <= |code|)
    ensures Jump(code, c, a) == a + 1 +
      if (code[a] == '[' as int && c.tape[c.where] == 0) || code[a] == ']' as int then FieldAt(code, a + 1) - 1
      else if code[a] == '[' as int then 2
      else 0
  {
    if IsJump(code[a]) {
      FieldAfter(code, a);
    }
  }

  /** Where the brackets of a matched pair send the run, with the `[` at
      address `a` and the `]` at address `c`: a `[` on a zero cell continues
      at `c + 3`, on any other cell at `a + 3`, and the `]` continues at
      `a`. */
  lemma JumpTargets(code: seq<Byte>, prog: seq<char>, k: int, j: int, cell: Cell)
    requires Linked(code, prog) && Match(prog, k, j)
    ensures var a := Addr(prog, k);
      var c := Addr(prog, j);
      && a + 3 <= c && c + 3 <= |code| && code[a] == '[' as int && code[c] == ']' as int
      && a + Stride(0, code[a], code[a + 1..]) + 1 == c + 3
      && (cell != 0 ==> a + Stride(cell, code[a], code[a + 1..]) + 1 == a + 3)
      && c + Stride(cell, code[c], code[c + 1..]) + 1 == a
  {
    var a := Addr(prog, k);
    var c := Addr(prog, j);
    PairFields(code, prog, k, j);
    InstrAt(code, prog, k);
    InstrAt(code, prog, j);
    FieldAfter(code, a);
    FieldAfter(code, c);
  }

  /** One iteration of the run loop. */
  lemma ExecUnfold(code: seq<Byte>, c: Conf, i: int, fuel: nat)
    requires OnTape(c) && 0 <= i < |code| && fuel > 0 && (IsJump(code[i]) ==> i + 3 <= |code|)
    ensures var c' := Step(c, code[i]);
      Exec(code, c, i, fuel) ==
        if c'.where < 0 || c'.where >= TapeSize then Fault(c') else Exec(code, c', Jump(code, c, i), fuel - 1)
  {
  }

  /** The same, once the instruction at `i` has stepped to `c'` on the
      tape and the index has moved on to `i'`. */
  lemma ExecNext(code: seq<Byte>, c: Conf, i: int, fuel: nat, c': Conf, i': int)
    requires OnTape(c) && 0 <= i < |code| && fuel > 0 && (IsJump(code[i]) ==> i + 3 <= |code|)
    requires Step(c, code[i]) == c' && OnTape(c') && i' == Jump(code, c, i)
    ensures Exec(code, c, i, fuel) == Exec(code, c', i', fuel - 1)
  {
  }

  /** Over a compiled stream, the run loop from the address of instruction
      `k` computes exactly the reference semantics from `k`. */
  lemma {:induction false} ExecIsRef(code: seq<Byte>, prog: seq<char>, c: Conf, k: int, fuel: nat)
    requires Linked(code, prog) && AllOps(prog) && OnTape(c) && 0 <= k <= |prog|
    ensures Exec(code, c, Addr(prog, k), fuel) == RefExec(prog, c, k, fuel)
    decreases fuel, 1
  {
    if k == |prog| {
      assert prog[..k] == prog;
    } else if fuel == 0 {
      Lands(code, prog, c, k);
    } else {
      ExecIsRefStep(code, prog, c, k, fuel);
    }
  }

  /** The case of `ExecIsRef` where instruction `k` runs. */
  lemma {:induction false} ExecIsRefStep(code: seq<Byte>, prog: seq<char>, c: Conf, k: int, fuel: nat)
    requires Linked(code, prog) && AllOps(prog) && OnTape(c) && 0 <= k < |prog| && fuel > 0
    ensures Exec(code, c, Addr(prog, k), fuel) == RefExec(prog, c, k, fuel)
    decreases fuel, 0
  {
    Lands(code, prog, c, k);
    var a := Addr(prog, k);
    var c' := Step(c, OpByte(prog[k]));
    assert c' == Step(c, code[a]);
    if 0 <= c'.where < TapeSize {
      var n := Next(prog, k, c.tape[c.where]);
      ExecNext(code, c, a, fuel, c', Addr(prog, n));
      ExecIsRef(code, prog, c', n, fuel - 1);
    } else {
      ExecUnfold(code, c, a, fuel);
    }
  }


  /** Running what `parse` produced is the reference semantics of the
      source's operators, and so never reaches undefined behaviour. */
  lemma CompiledRun(src: seq<char>, c: Conf, fuel: nat)
    requires Size(src) < 32768 && Compile(src).Ok? && OnTape(c)
    ensures AllOps(Ops(src)) && Paired(Ops(src))
    ensures Exec(Compile(src).value, c, 0, fuel) == RefExec(Ops(src), c, 0, fuel)
    ensures !Exec(Compile(src).value, c, 0, fuel).Stuck?
  {
    CompileLinked(src);
    ExecIsRef(Compile(src).value, Ops(src), c, 0, fuel);
  }

  /** A bigger step budget does not change a run that ended within the
      smaller one. */
  lemma {:induction false} ExecFuel(code: seq<Byte>, c: Conf, i: int, fuel: nat, more: nat)
    requires OnTape(c) && fuel <= more && !Exec(code, c, i, fuel).OutOfFuel?
    ensures Exec(code, c, i, more) == Exec(code, c, i, fuel)
    decreases fuel
  {
    if 0 <= i < |code| && fuel > 0 && !(IsJump(code[i]) && i + 3 > |code|) {
      var c' := Step(c, code[i]);
      if 0 <= c'.where < TapeSize {
        ExecFuel(code, c', Jump(code, c, i), fuel - 1, more - 1);
      }
    }
  }

  /** The single-operator behaviour of `do_op`: `+` and `-` change only the
      current cell, by one with wrap-around; `<` and `>` change only the
      cursor; `,` stores the input byte as a `char`, so EOF stores -1; none
      of these moves the index further than the next byte. */
  lemma StepEffects(c: Conf, op: Byte, next: seq<Byte>)
    requires OnTape(c)
    ensures var c' := Step(c, op);
      var cell := c.tape[c.where];
      && (op == '+' as int ==> c'.tape == c.tape[c.where := if cell == 127 then -128 else cell + 1] && c'.where == c.where)
      && (op == '-' as int ==> c'.tape == c.tape[c.where := if cell == -128 then 127 else cell - 1] && c'.where == c.where)
      && (op == '<' as int ==> c'.tape == c.tape && c'.where == c.where - 1)
      && (op == '>' as int ==> c'.tape == c.tape && c'.where == c.where + 1)
      && (op == ',' as int && c.inp == [] ==> c'.tape[c.where] == -1 && c'.inp == [])
      && (op == ',' as int && c.inp != [] ==> c'.tape[c.where] == ToCell(c.inp[0]) && c'.inp == c.inp[1..])
      && (op == '.' as int ==> c'.tape == c.tape && c'.out == c.out + [ByteOf(cell)])
      && (op != '.' as int ==> c'.out == c.out)
      && (!IsJump(op) ==> Stride(cell, op, next) == 0)
  {
    IncrementWraps(c.tape[c.where]);
  }
}
