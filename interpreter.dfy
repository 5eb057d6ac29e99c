/** The interpreter of brainfuck.c: one step `do_op` (lines 207-238) over the
    tape `memory` and cursor `where`, and the run loop of main.c (lines
    100-113) that advances the instruction index by the stride `do_op`
    returns and stops at the first instruction that moves the cursor off the
    tape.
    `Step`, `Stride` and `Exec` say what those do as functions of the state;
    class `Machine` runs them over the C arrays and is proved equal to them;
    module InterpreterFacts relates `Exec` over a compiled stream to a
    semantics over the instruction sequence itself. */
module Interpreter {
  import opened Bytes
  import opened Syntax
  import opened Compiler

  /** What `getchar` returns: a byte, or EOF (-1). */
  type Input = x: int | -1 <= x < 256

  /** Instructions followed by a 2-byte jump field. */
  predicate IsJump(op: Byte)
  {
    op == '[' as int || op == ']' as int
  }

  /** The current cell after `op`: `++`/`--` on a `char` (wrapping), the
      `(char)` of what `getchar` returned for `,`, otherwise unchanged. */
  function CellAfter(cell: Cell, op: Byte, input: Input): Cell
  {
    if op == '+' as int then ToCell(cell + 1)
    else if op == '-' as int then ToCell(cell - 1)
    else if op == ',' as int then ToCell(input)
    else cell
  }

  /** The cursor after `op`. */
  function WhereAfter(where: int, op: Byte): int
  {
    if op == '<' as int then where - 1
    else if op == '>' as int then where + 1
    else where
  }

  /** What `.` prints: the byte of the current cell. */
  function Output(cell: Cell, op: Byte): seq<Byte>
  {
    if op == '.' as int then [ByteOf(cell)] else []
  }

  /** The offset `do_op` returns, to which the loop then adds one: a jump
      field minus one for `]` and for `[` on a zero cell, `sizeof(short)`
      for `[` on any other cell, 0 for everything else. `next` is the
      stream from the byte after `op`. */
  function Stride(cell: Cell, op: Byte, next: seq<Byte>): int
    requires IsJump(op) ==> |next| >= 2
  {
    if op == '[' as int then (if cell == 0 then FieldAt(next, 0) - 1 else 2)
    else if op == ']' as int then FieldAt(next, 0) - 1
    else 0
  }

  /** Everything the interpreter's state consists of: the tape, the cursor,
      the input not yet read and the output printed so far. */
  datatype Conf = Conf(tape: seq<Cell>, where: int, inp: seq<Input>, out: seq<Byte>)

  /** A tape of the right size with the cursor on it. */
  ghost predicate OnTape(c: Conf)
  {
    |c.tape| == TapeSize && 0 <= c.where < TapeSize
  }

  /** The next input, EOF once the input is used up. */
  function NextInput(inp: seq<Input>): Input
  {
    if inp == [] then -1 else inp[0]
  }

  /** The configuration after one instruction `op`. Only the current cell
      and the cursor can change, the cursor by at most one, and at most one
      byte is printed. */
  function Step(c: Conf, op: Byte): (c': Conf)
    requires OnTape(c)
    ensures |c'.tape| == TapeSize
    ensures forall a :: 0 <= a < TapeSize && a != c.where ==> c'.tape[a] == c.tape[a]
    ensures c.where - 1 <= c'.where <= c.where + 1
    ensures c.out <= c'.out && |c'.out| <= |c.out| + 1
  {
    var cell := c.tape[c.where];
    Conf(c.tape[c.where := CellAfter(cell, op, NextInput(c.inp))],
         WhereAfter(c.where, op),
         if op == ',' as int && c.inp != [] then c.inp[1..] else c.inp,
         c.out + Output(cell, op))
  }

  /** How a run ends: the index reached the end of the stream, an
      instruction moved the cursor off the tape (the state right after that
      instruction), the step budget ran out, or the run got to an index
      whose instruction C could not read (undefined behaviour). */
  datatype Outcome = Finished(conf: Conf) | Fault(conf: Conf) | OutOfFuel(conf: Conf) | Stuck(conf: Conf)

  /** The run loop of main.c from index `i`, for at most `fuel`
      instructions. A bracket in the last two bytes of the stream counts as
      Stuck even for `[` on a non-zero cell, which reads no field; a stream
      from `parse` never has one there (lemma `CompiledRun`), so compiled
      runs are not affected. */
  function Exec(code: seq<Byte>, c: Conf, i: int, fuel: nat): (r: Outcome)
    requires OnTape(c)
    ensures r.Fault? ==> |r.conf.tape| == TapeSize && (r.conf.where == -1 || r.conf.where == TapeSize)
    ensures !r.Fault? ==> OnTape(r.conf)
    ensures c.out <= r.conf.out
    decreases fuel
  {
    if i >= |code| then Finished(c)
    else if fuel == 0 then OutOfFuel(c)
    else if i < 0 || (IsJump(code[i]) && i + 3 > |code|) then Stuck(c)
    else
      var c' := Step(c, code[i]);
      if c'.where < 0 || c'.where >= TapeSize then Fault(c')
      else Exec(code, c', Jump(code, c, i), fuel - 1)
  }

  /** The index after the instruction at `i`: the loop's `i += do_op(...)`
      followed by its `i++`. */
  function Jump(code: seq<Byte>, c: Conf, i: int): int
    requires OnTape(c) && 0 <= i < |code| && (IsJump(code[i]) ==> i + 3 <= |code|)
  {
    i + Stride(c.tape[c.where], code[i], code[i + 1..]) + 1
  }

  /** What `parse_request` (brainfuck.c:244-304) tells its caller: stop,
      start over, a console command that only prints (the functions return
      0 for those), or anything else, which is code. */
  datatype Request = Quit | Reset | Query | Code

  /** The order in which `parse_request` tests the command prefixes
      (`strncmp` against the first 4 or 5 characters). */
  function Classify(req: seq<char>): Request
  {
    if "quit" <= req then Quit
    else if "reset" <= req then Reset
    else if "where" <= req || "help" <= req || "print" <= req || "disp" <= req then Query
    else Code
  }

  /** The text of `s` up to the first occurrence of `stop`: where
      `strtok` cuts at a space, and where a C string ends at its NUL. */
  function UpTo(s: seq<char>, stop: char): (t: seq<char>)
    ensures t <= s && stop !in t
    ensures t == s || s[|t|] == stop
  {
    if s == [] || s[0] == stop then [] else [s[0]] + UpTo(s[1..], stop)
  }

  /** The line as `parse_request` leaves it for `parse`: `disp` starts with
      `strtok(req, " ")` (brainfuck.c:315), which writes a NUL over the
      first space, so the string ends there; no other request writes to the
      line. */
  function LineAfterRequest(req: seq<char>): (line: seq<char>)
    ensures line <= req
    ensures !("disp" <= req) ==> line == req
    ensures "disp" <= req ==> ' ' !in line && (line == req || req[|line|] == ' ')
  {
    if "disp" <= req then UpTo(req, ' ') else req
  }

  /** The globals `memory` and `where` of brainfuck.c. */
  class Machine {
    var memory: array<Cell>
    var where: int

    ghost predicate Valid()
      reads this
    {
      memory.Length == TapeSize
    }

    /** The static initial state: a zeroed tape, the cursor at 0. */
    constructor ()
      ensures Valid() && fresh(memory)
      ensures memory[..] == ZeroCells(TapeSize) && where == 0
    {
      memory := new Cell[TapeSize](_ => 0);
      where := 0;
    }

    /** `do_op`: one instruction. `input` is what `getchar` would return,
        `next` the stream after `op`; the result is the offset and what was
        printed. */
    method DoOp(op: Byte, next: seq<Byte>, input: Input) returns (offset: int, output: seq<Byte>)
      requires Valid() && 0 <= where < TapeSize && (IsJump(op) ==> |next| >= 2)
      modifies memory, this`where
      ensures memory[..] == old(memory[..])[old(where) := CellAfter(old(memory[where]), op, input)]
      ensures where == WhereAfter(old(where), op)
      ensures offset == Stride(old(memory[where]), op, next)
      ensures output == Output(old(memory[where]), op)
    {
      offset := 0;
      output := [];
      if op == '+' as int {
        memory[where] := ToCell(memory[where] as int + 1);
      } else if op == '-' as int {
        memory[where] := ToCell(memory[where] as int - 1);
      } else if op == '<' as int {
        where := where - 1;
      } else if op == '>' as int {
        where := where + 1;
      } else if op == '.' as int {
        output := [ByteOf(memory[where])];
      } else if op == ',' as int {
        memory[where] := ToCell(input);
      } else if op == '[' as int {
        if memory[where] == 0 {
          offset := FieldAt(next, 0) - 1;
        } else {
          offset := 2;
        }
      } else if op == ']' as int {
        offset := FieldAt(next, 0) - 1;
      }
    }

    /** `parse_request` on the state it changes: "reset" moves the cursor
        home and zeroes the tape; nothing else touches either. `line` is
        the request line as it is afterwards. The printing of the console
        commands is not modelled. */
    method ParseRequest(req: seq<char>) returns (r: Request, line: seq<char>)
      requires Valid()
      modifies memory, this`where
      ensures r == Classify(req) && line == LineAfterRequest(req)
      ensures r == Reset ==> memory[..] == ZeroCells(TapeSize) && where == 0
      ensures r != Reset ==> memory[..] == old(memory[..]) && where == old(where)
    {
      line := req;
      if "quit" <= req {
        return Quit, line;
      } else if "reset" <= req {
        where := 0;
        forall a | 0 <= a < memory.Length {
          memory[a] := 0;
        }
        return Reset, line;
      } else if "where" <= req || "help" <= req || "print" <= req {
        return Query, line;
      } else if "disp" <= req {
        line := UpTo(req, ' ');
        return Query, line;
      }
      return Code, line;
    }
  }
}
