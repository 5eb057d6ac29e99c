/** The driver loop of main.c (lines 70-121): read a line, let
    `parse_request` handle the console commands, compile the rest, run it
    with a bounds check after every instruction, undo a faulting run from
    the snapshot in interactive mode, and take a new snapshot after every
    run. */
module Session {
  import opened Bytes
  import opened Syntax
  import opened Compiler
  import opened CompilerFacts
  import opened Parser
  import opened Interpreter
  import opened InterpreterFacts

  /** The run loop of main.c:100-113: `i += do_op(buf[i], &buf[i+1])`, then
      the bounds check, then `i++`. `inp` is what `getchar` delivers; at
      most `fuel` instructions run. The run computes `Exec`: where the C
      would read an instruction outside the buffer (which a stream from
      `parse` never makes it do, lemma `CompiledRun`) the model stops with
      `Stuck`. */
  method Run(m: Machine, code: array<Byte>, inp: seq<Input>, fuel: nat) returns (r: Outcome)
    requires m.Valid() && 0 <= m.where < TapeSize
    modifies m.memory, m`where
    ensures r == Exec(code[..], Conf(old(m.memory[..]), old(m.where), inp, []), 0, fuel)
    ensures m.memory[..] == r.conf.tape && m.where == r.conf.where
  {
    ghost var c0 := Conf(m.memory[..], m.where, inp, []);
    ghost var prog := code[..];
    var i := 0;
    var rest := inp;
    var out: seq<Byte> := [];
    var steps := fuel;
    while i < code.Length
      invariant m.Valid() && 0 <= m.where < TapeSize && code[..] == prog
      invariant Exec(prog, Conf(m.memory[..], m.where, rest, out), i, steps) == Exec(prog, c0, 0, fuel)
      decreases steps
    {
      var done;
      done, r, i, steps, rest, out := Advance(m, code, i, steps, rest, out, prog);
      if done {
        return r;
      }
    }
    return Finished(Conf(m.memory[..], m.where, rest, out));
  }

  /** One iteration of that loop from index `i` with `steps` of the budget
      left: the instruction and the bounds check. Either the run ends here
      with outcome `r`, or it goes on from index `i'` in the new state with
      a smaller budget. */
  method Advance(m: Machine, code: array<Byte>, i: int, steps: nat, rest: seq<Input>, out: seq<Byte>,
                 ghost prog: seq<Byte>)
    returns (done: bool, r: Outcome, i': int, steps': nat, rest': seq<Input>, out': seq<Byte>)
    requires m.Valid() && 0 <= m.where < TapeSize && code[..] == prog && i < code.Length
    modifies m.memory, m`where
    ensures var c := Conf(old(m.memory[..]), old(m.where), rest, out);
      done ==> (r == Exec(prog, c, i, steps) && m.memory[..] == r.conf.tape && m.where == r.conf.where)
    ensures var c := Conf(old(m.memory[..]), old(m.where), rest, out);
      !done ==> (0 <= m.where < TapeSize && steps' < steps
        && Exec(prog, c, i, steps) == Exec(prog, Conf(m.memory[..], m.where, rest', out'), i', steps'))
  {
    i', steps', rest', out' := i, steps, rest, out;
    r := OutOfFuel(Conf(m.memory[..], m.where, rest, out));
    if steps == 0 {
      return true, r, i', steps', rest', out';
    }
    if i < 0 || (IsJump(code[i]) && i + 3 > code.Length) {
      return true, Stuck(r.conf), i', steps', rest', out';
    }
    ghost var c := r.conf;
    assert prog[i + 1..] == code[i + 1..] && prog[i] == code[i];
    var offset;
    offset, rest', out' := Execute(m, code[i], code[i + 1..], rest, out);
    var now := Conf(m.memory[..], m.where, rest', out');
    if m.where < 0 || m.where >= TapeSize {
      ExecUnfold(prog, c, i, steps);
      return true, Fault(now), i', steps', rest', out';
    }
    done, i', steps' := false, i + offset + 1, steps - 1;
    ExecNext(prog, c, i, steps, now, i');
  }

  /** The body of the run loop up to the bounds check: `do_op` on the
      instruction `op` followed by the stream `next`, with `getchar`
      reading from `rest` and `printf` appending to `out`. */
  method Execute(m: Machine, op: Byte, next: seq<Byte>, rest: seq<Input>, out: seq<Byte>)
    returns (offset: int, rest': seq<Input>, out': seq<Byte>)
    requires m.Valid() && 0 <= m.where < TapeSize && (IsJump(op) ==> |next| >= 2)
    modifies m.memory, m`where
    ensures var c := Conf(old(m.memory[..]), old(m.where), rest, out);
      && Conf(m.memory[..], m.where, rest', out') == Step(c, op)
      && offset == Stride(c.tape[c.where], op, next)
  {
    var printed;
    offset, printed := m.DoOp(op, next, NextInput(rest));
    rest' := if op == ',' as int && rest != [] then rest[1..] else rest;
    out' := out + printed;
  }

  /** What main.c hands to `parse` (line 91): the console line as
      `parse_request` left it, or the whole file in batch mode, up to its
      first NUL, since `parse` reads the text only up to `strlen`
      (brainfuck.c:134, 166). */
  function Source(interactive: bool, raw: seq<char>): (src: seq<char>)
    ensures src <= raw && Size(src) <= Size(raw) && '\0' !in src
    ensures var line := if interactive then LineAfterRequest(raw) else raw;
      src <= line && (src == line || line[|src|] == '\0')
  {
    var src := UpTo(if interactive then LineAfterRequest(raw) else raw, '\0');
    assert src == raw[..|src|];
    SizePrefix(raw, |src|);
    src
  }

  /** The console line "disp 5 d -1": `parse` sees only "disp", which
      holds no operator, so the `-` among the arguments never runs. */
  lemma DispLine()
    ensures Source(true, "disp 5 d -1\n") == "disp" && Ops("disp") == []
  {
    DispWord();
    DispPlain();
  }

  /** `strtok` leaves "disp" of the line "disp 5 d -1". */
  lemma DispWord()
    ensures LineAfterRequest("disp 5 d -1\n") == "disp"
  {
    var raw := "disp 5 d -1\n";
    assert raw[4..][0] == ' ';
    assert raw[3..][1..] == raw[4..] && raw[2..][1..] == raw[3..] && raw[1..][1..] == raw[2..] && raw[1..] == raw[..][1..];
    assert UpTo(raw[4..], ' ') == [];
    assert UpTo(raw[3..], ' ') == "p";
    assert UpTo(raw[2..], ' ') == "sp";
    assert UpTo(raw[1..], ' ') == "isp";
  }

  /** "disp" holds neither a NUL nor an operator. */
  lemma DispPlain()
    ensures UpTo("disp", '\0') == "disp" && Ops("disp") == []
  {
    var w := "disp";
    assert w[0] == 'd' && w[1] == 'i' && w[2] == 's' && w[3] == 'p';
    UpToAbsent(w, '\0');
    NoOps(w);
  }

  /** A text without `stop` is kept whole. */
  lemma UpToAbsent(s: seq<char>, stop: char)
    requires forall k :: 0 <= k < |s| ==> s[k] != stop
    ensures UpTo(s, stop) == s
  {
  }

  /** A file holding "+", NUL, "+": `parse` sees only the first "+". */
  lemma NulEndsFile()
    ensures Source(false, "+\0+") == "+"
  {
    var raw := "+\0+";
    assert raw[1..][0] == '\0' && raw[1..] == raw[..][1..];
    assert UpTo(raw[1..], '\0') == [];
  }

  /** Text without operators compiles to nothing. */
  lemma {:induction false} NoOps(s: seq<char>)
    requires forall k :: 0 <= k < |s| ==> !IsOp(s[k])
    ensures Ops(s) == []
  {
    if s != [] {
      NoOps(s[..|s| - 1]);
    }
  }

  /** What one pass of the driver loop did. */
  datatype Pass = Quitted | WasReset | Rejected(error: ParseError) | Ran(outcome: Outcome)

  /** The state of main.c: the interpreter's globals, the snapshot
      `rollback`/`roll_where`, and whether the program runs as a console
      (`argc == 1`) or on a file. */
  class Session {
    const machine: Machine
    const rollback: array<Cell>
    var rollWhere: int
    const interactive: bool

    ghost predicate Valid()
      reads this, machine
    {
      && machine.Valid() && rollback.Length == TapeSize && rollback != machine.memory
      && 0 <= machine.where < TapeSize && 0 <= rollWhere < TapeSize
    }

    /** Start-up: tape, cursor and snapshot all zero. */
    constructor (interactive: bool)
      ensures Valid() && fresh(machine) && fresh(machine.memory) && fresh(rollback)
      ensures this.interactive == interactive
      ensures machine.memory[..] == ZeroCells(TapeSize) && machine.where == 0
      ensures rollback[..] == ZeroCells(TapeSize) && rollWhere == 0
    {
      machine := new Machine();
      rollback := new Cell[TapeSize](_ => 0);
      rollWhere := 0;
      this.interactive := interactive;
    }

    /** One pass of the `do ... while` body of main.c for the text `raw`
        (a console line, or the whole file in batch mode). */
    method Step(raw: seq<char>, inp: seq<Input>, fuel: nat) returns (p: Pass)
      requires Valid() && Size(Source(interactive, raw)) < 32768
      modifies machine.memory, machine`where, rollback, this`rollWhere
      // a console request that stops or resets runs nothing
      ensures p == Quitted <==> interactive && Classify(raw) == Quit
      ensures p == WasReset <==> interactive && Classify(raw) == Reset
      ensures p == Quitted ==>
        machine.memory[..] == old(machine.memory[..]) && machine.where == old(machine.where)
        && rollback[..] == old(rollback[..]) && rollWhere == old(rollWhere)
      ensures p == WasReset ==>
        machine.memory[..] == ZeroCells(TapeSize) && machine.where == 0
        && rollback[..] == ZeroCells(TapeSize) && rollWhere == 0
      // code that does not compile runs nothing and changes nothing; a
      // console line is compiled as `parse_request` left it
      ensures p.Rejected? ==> Compile(Source(interactive, raw)) == Err(p.error)
      ensures p.Rejected? ==>
        machine.memory[..] == old(machine.memory[..]) && machine.where == old(machine.where)
        && rollback[..] == old(rollback[..]) && rollWhere == old(rollWhere)
      // otherwise the compiled code runs from the current state
      ensures p.Ran? <==> !(interactive && Classify(raw) in {Quit, Reset}) && Compile(Source(interactive, raw)).Ok?
      ensures p.Ran? ==> p.outcome == Exec(Compile(Source(interactive, raw)).value, Conf(old(machine.memory[..]), old(machine.where), inp, []), 0, fuel)
      ensures p.Ran? ==> !p.outcome.Stuck?
      // a fault in console mode is undone and keeps the old snapshot
      ensures p.Ran? && p.outcome.Fault? && interactive ==>
        machine.memory[..] == old(rollback[..]) && machine.where == old(rollWhere)
      ensures p.Ran? && !(p.outcome.Fault? && interactive) ==>
        machine.memory[..] == p.outcome.conf.tape && machine.where == p.outcome.conf.where
      // after every run the snapshot is the state
      ensures p.Ran? ==> rollback[..] == machine.memory[..] && rollWhere == machine.where
      ensures interactive ==> Valid()
    {
      var line := raw;
      if interactive {
        var req;
        req, line := machine.ParseRequest(raw);
        if req == Quit {
          return Quitted;
        } else if req == Reset {
          ClearSnapshot();
          return WasReset;
        }
      }
      // `parse` reads the line as a C string, up to its first NUL
      line := UpTo(line, '\0');
      assert line == Source(interactive, raw);
      var parsed, buf := Parse(line);
      if parsed.Err? {
        return Rejected(parsed.error);
      }
      ghost var c0 := Conf(machine.memory[..], machine.where, inp, []);
      var outcome := Run(machine, buf, inp, fuel);
      CompiledRun(line, c0, fuel);
      if outcome.Fault? && interactive {
        Restore();
      }
      TakeSnapshot();
      return Ran(outcome);
    }

    /** RESET on the snapshot (main.c:81-85). */
    method ClearSnapshot()
      requires Valid()
      modifies rollback, this`rollWhere
      ensures Valid() && rollback[..] == ZeroCells(TapeSize) && rollWhere == 0
    {
      rollWhere := 0;
      forall a | 0 <= a < rollback.Length {
        rollback[a] := 0;
      }
    }

    /** The rollback after a fault (main.c:108-109): copy the snapshot back
        byte for byte and put the cursor where it was. */
    method Restore()
      requires machine.Valid() && rollback.Length == TapeSize && rollback != machine.memory
      modifies machine.memory, machine`where
      ensures machine.memory[..] == rollback[..] && machine.where == rollWhere
    {
      forall a | 0 <= a < machine.memory.Length {
        machine.memory[a] := rollback[a];
      }
      machine.where := rollWhere;
    }

    /** The snapshot after a run (main.c:119-120). */
    method TakeSnapshot()
      requires machine.Valid() && rollback.Length == TapeSize && rollback != machine.memory
      modifies rollback, this`rollWhere
      ensures rollback[..] == machine.memory[..] && rollWhere == machine.where
    {
      rollWhere := machine.where;
      forall a | 0 <= a < rollback.Length {
        rollback[a] := machine.memory[a];
      }
    }
  }
}
