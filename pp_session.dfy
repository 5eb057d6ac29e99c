/** The Brainfuck++ program of brainfuckpp.c (`main`, lines 41-293) as the
    state it updates in place: the arrays `memory` and `rollback`, the
    cursors `where` and `roll_where`, the flags `file_open` and
    `sock_open` and the handle `bf_fp`. The methods are proved to compute
    the functions of module PlusPlus. */
module PlusPlusSession {
  import opened Bytes
  import opened Interpreter
  import opened PlusPlus

  /** The console commands of lines 104-151, in the order tested there.
      "where" and "help" only print something and then go on to parse and
      run the line like any other; "print" prints and skips the run. */
  datatype Command = Stop | Restart | PrintOnly | Program

  function Console(raw: seq<char>): Command
  {
    if "quit" <= raw then Stop
    else if "reset" <= raw then Restart
    else if "where" <= raw || "help" <= raw then Program
    else if "print" <= raw then PrintOnly
    else Program
  }

  /** What one pass of the `do ... while` body did. */
  datatype Pass = Quitted | WasReset | Printed | Rejected | Ran(outcome: PPOutcome)

  /** One execution of the loop `for(int i = 0; i < len; i++)` from index
      `i`: its first step is the instruction at `i`. */
  lemma PPExecUnfold(code: seq<Byte>, c: PPConf, i: int, fuel: nat)
    requires PPOnTape(c) && 0 <= i < |code| && fuel > 0 && (IsJump(code[i]) ==> i + 3 <= |code|)
    ensures var r := PPStep(c, code[i], code[i + 1..]);
      PPExec(code, c, i, fuel) ==
        if r.Undefined? then PPStuck(c)
        else if r.conf.where < 0 || r.conf.where >= TapeSize then PPFault(r.conf)
        else PPExec(code, r.conf, i + r.offset + 1, fuel - 1)
  {
  }

  /** The same, once the instruction at `i` has stepped to `c'` and index
      `i'` with the cursor still on the tape. */
  lemma PPExecNext(code: seq<Byte>, c: PPConf, i: int, fuel: nat, c': PPConf, i': int)
    requires PPOnTape(c) && 0 <= i < |code| && fuel > 0 && (IsJump(code[i]) ==> i + 3 <= |code|)
    requires PPStep(c, code[i], code[i + 1..]) == Stepped(c', i' - i - 1) && PPOnTape(c')
    ensures PPExec(code, c, i, fuel) == PPExec(code, c', i', fuel - 1)
  {
  }

  class Interp {
    const memory: array<Cell>
    var where: int
    const rollback: array<Cell>
    var rollWhere: int
    var fileOpen: bool
    var file: Handle
    var sockOpen: bool
    /** `argc == 1`: console mode. */
    const interactive: bool

    ghost predicate Valid()
      reads this
    {
      memory.Length == TapeSize && rollback.Length == TapeSize && memory != rollback
    }

    /** The declarations of lines 60-71: everything zero, no file, no
        socket. */
    constructor (interactive: bool)
      ensures Valid() && fresh(memory) && fresh(rollback) && this.interactive == interactive
      ensures memory[..] == ZeroCells(TapeSize) && where == 0
      ensures rollback[..] == ZeroCells(TapeSize) && rollWhere == 0
      ensures !fileOpen && file == NoFile && !sockOpen
    {
      memory := new Cell[TapeSize](_ => 0);
      rollback := new Cell[TapeSize](_ => 0);
      where := 0;
      rollWhere := 0;
      fileOpen := false;
      file := NoFile;
      sockOpen := false;
      this.interactive := interactive;
    }

    /** One case of the `switch` of lines 162-261 on `op`, the instruction
        `buf[i]`, with `next` the stream after it. `getchar`
        reads from `inp`; `fopen`, `getc`, `open_sock` and `recv_sock`
        answer from `answers`; what goes out is appended to `trace`. When
        the C has undefined behaviour the result is `defined == false` and
        nothing has changed. */
    method ExecuteOp(op: Byte, next: seq<Byte>, inp: seq<Input>, answers: seq<Input>, trace: seq<Event>)
      returns (defined: bool, offset: int, inp': seq<Input>, answers': seq<Input>, trace': seq<Event>)
      requires Valid() && 0 <= where < TapeSize && (IsJump(op) ==> |next| >= 2)
      modifies memory, this`where, this`fileOpen, this`file, this`sockOpen
      ensures var r := PPStep(old(PPConf(memory[..], where, fileOpen, file, sockOpen, inp, answers, trace)), op, next);
        && (defined <==> r.Stepped?)
        && (defined ==> PPConf(memory[..], where, fileOpen, file, sockOpen, inp', answers', trace') == r.conf && offset == r.offset)
        && (!defined ==> PPConf(memory[..], where, fileOpen, file, sockOpen, inp', answers', trace') == old(PPConf(memory[..], where, fileOpen, file, sockOpen, inp, answers, trace)))
    {
      var r;
      if IsBaseOp(op) {
        defined := true;
        offset, inp', trace' := BaseOp(op, next, inp, answers, trace);
        answers' := answers;
      } else if op == '#' as int {
        r := ToggleFile(inp, answers, trace);
      } else if op == ';' as int || op == ':' as int {
        r := FileByte(op, inp, answers, trace);
      } else if op == '%' as int {
        r := ToggleSocket(inp, answers, trace);
      } else if op == '^' as int || op == '!' as int {
        r := SocketByte(op, inp, answers, trace);
      } else {
        defined, offset, inp', answers', trace' := true, 0, inp, answers, trace;
      }
      if !IsBaseOp(op) && op in {'#' as int, ';' as int, ':' as int, '%' as int, '^' as int, '!' as int} {
        defined, offset := r.Stepped?, 0;
        if r.Stepped? {
          inp', answers', trace' := inp, r.conf.answers, r.conf.trace;
        } else {
          inp', answers', trace' := inp, answers, trace;
        }
      }
    }

    /** The cases `+ - < > . , [ ]` (lines 164-190). */
    method BaseOp(op: Byte, next: seq<Byte>, inp: seq<Input>, answers: seq<Input>, trace: seq<Event>)
      returns (offset: int, inp': seq<Input>, trace': seq<Event>)
      requires Valid() && 0 <= where < TapeSize && IsBaseOp(op) && (IsJump(op) ==> |next| >= 2)
      modifies memory, this`where
      ensures var r := BaseStep(old(PPConf(memory[..], where, fileOpen, file, sockOpen, inp, answers, trace)), op, next);
        PPConf(memory[..], where, fileOpen, file, sockOpen, inp', answers, trace') == r.conf && offset == r.offset
    {
      offset, inp', trace' := 0, inp, trace;
      if op == '+' as int {
        memory[where] := ToCell(memory[where] as int + 1);
      } else if op == '-' as int {
        memory[where] := ToCell(memory[where] as int - 1);
      } else if op == '<' as int {
        where := where - 1;
      } else if op == '>' as int {
        where := where + 1;
      } else if op == '.' as int {
        trace' := trace + [Print(ByteOf(memory[where]))];
      } else if op == ',' as int {
        memory[where] := ToCell(NextInput(inp));
        inp' := Rest(inp);
      } else if op == '[' as int {
        offset := if memory[where] == 0 then FieldAt(next, 0) - 1 else 2;
      } else {
        offset := FieldAt(next, 0) - 1;
      }
    }

    /** `#` (lines 191-207). The result is the step as `FileToggleStep`
        computes it; the object holds its new state. */
    method ToggleFile(inp: seq<Input>, answers: seq<Input>, trace: seq<Event>) returns (r: StepResult)
      requires Valid() && 0 <= where < TapeSize
      modifies memory, this`fileOpen, this`file
      ensures r == FileToggleStep(old(PPConf(memory[..], where, fileOpen, file, sockOpen, inp, answers, trace)))
      ensures r.Stepped? ==> PPConf(memory[..], where, fileOpen, file, sockOpen, inp, r.conf.answers, r.conf.trace) == r.conf
      ensures r.Undefined? ==> PPConf(memory[..], where, fileOpen, file, sockOpen, inp, answers, trace) == old(PPConf(memory[..], where, fileOpen, file, sockOpen, inp, answers, trace))
    {
      ghost var c := PPConf(memory[..], where, fileOpen, file, sockOpen, inp, answers, trace);
      if fileOpen && file != NoFile {
        file := Dangling;
        fileOpen := false;
        return Stepped(PPConf(memory[..], where, fileOpen, file, sockOpen, inp, answers, trace + [FileClosed]), 0);
      }
      var move := memory[where];
      var p := where + move;
      if p < 0 || p >= TapeSize {
        return Undefined;
      }
      var len := StrLen(memory[..], p);
      if len.None? {
        return Undefined;
      }
      var path := memory[p..p + len.value];
      assert path == c.tape[p..p + len.value];
      var ok := NextInput(answers) >= 0;
      memory[where] := if ok then 0 else -1;
      file := if ok then Live else NoFile;
      fileOpen := true;
      assert memory[..] == c.tape[where := if ok then 0 else -1];
      return Stepped(PPConf(memory[..], where, fileOpen, file, sockOpen, inp, Rest(answers), trace + [FileOpened(path)]), 0);
    }

    /** `;` and `:` (lines 208-223). */
    method FileByte(op: Byte, inp: seq<Input>, answers: seq<Input>, trace: seq<Event>) returns (r: StepResult)
      requires Valid() && 0 <= where < TapeSize
      modifies memory, this`where
      ensures r == FileByteStep(old(PPConf(memory[..], where, fileOpen, file, sockOpen, inp, answers, trace)), op)
      ensures r.Stepped? ==> PPConf(memory[..], where, fileOpen, file, sockOpen, inp, r.conf.answers, r.conf.trace) == r.conf
      ensures r.Undefined? ==> PPConf(memory[..], where, fileOpen, file, sockOpen, inp, answers, trace) == old(PPConf(memory[..], where, fileOpen, file, sockOpen, inp, answers, trace))
    {
      if file == NoFile {
        where := -2;
        return Stepped(PPConf(memory[..], where, fileOpen, file, sockOpen, inp, answers, trace), 0);
      } else if file == Dangling {
        return Undefined;
      } else if op == ';' as int {
        return Stepped(PPConf(memory[..], where, fileOpen, file, sockOpen, inp, answers, trace + [FileWrite(memory[where])]), 0);
      }
      memory[where] := ReadCell(NextInput(answers));
      return Stepped(PPConf(memory[..], where, fileOpen, file, sockOpen, inp, Rest(answers), trace), 0);
    }

    /** `%` (lines 224-252). */
    method ToggleSocket(inp: seq<Input>, answers: seq<Input>, trace: seq<Event>) returns (r: StepResult)
      requires Valid() && 0 <= where < TapeSize
      modifies memory, this`sockOpen
      ensures r == SocketToggleStep(old(PPConf(memory[..], where, fileOpen, file, sockOpen, inp, answers, trace)))
      ensures r.Stepped? ==> PPConf(memory[..], where, fileOpen, file, sockOpen, inp, r.conf.answers, r.conf.trace) == r.conf
      ensures r.Undefined? ==> PPConf(memory[..], where, fileOpen, file, sockOpen, inp, answers, trace) == old(PPConf(memory[..], where, fileOpen, file, sockOpen, inp, answers, trace))
    {
      ghost var c := PPConf(memory[..], where, fileOpen, file, sockOpen, inp, answers, trace);
      if sockOpen {
        sockOpen := false;
        return Stepped(PPConf(memory[..], where, fileOpen, file, sockOpen, inp, answers, trace + [SocketClosed]), 0);
      }
      var move := memory[where];
      var p := where + move;
      if p < 0 || p >= TapeSize {
        return Undefined;
      }
      var len := StrLen(memory[..], p);
      if len.None? || p + len.value + 2 >= TapeSize {
        return Undefined;
      }
      var host := memory[p..p + len.value];
      var port := Port(memory[..], p, len.value);
      assert host == c.tape[p..p + len.value] && port == Port(c.tape, p, len.value);
      memory[where] := ToCell(NextInput(answers));
      sockOpen := true;
      assert memory[..] == c.tape[where := ToCell(NextInput(answers))];
      return Stepped(PPConf(memory[..], where, fileOpen, file, sockOpen, inp, Rest(answers), trace + [SocketOpened(host, port)]), 0);
    }

    /** `^` and `!` (lines 253-260). */
    method SocketByte(op: Byte, inp: seq<Input>, answers: seq<Input>, trace: seq<Event>) returns (r: StepResult)
      requires Valid() && 0 <= where < TapeSize
      modifies memory
      ensures r == SocketByteStep(old(PPConf(memory[..], where, fileOpen, file, sockOpen, inp, answers, trace)), op)
      ensures PPConf(memory[..], where, fileOpen, file, sockOpen, inp, r.conf.answers, r.conf.trace) == r.conf
    {
      if !sockOpen {
        return Stepped(PPConf(memory[..], where, fileOpen, file, sockOpen, inp, answers, trace), 0);
      } else if op == '^' as int {
        return Stepped(PPConf(memory[..], where, fileOpen, file, sockOpen, inp, answers, trace + [SocketSend(memory[where])]), 0);
      }
      memory[where] := ToCell(NextInput(answers));
      return Stepped(PPConf(memory[..], where, fileOpen, file, sockOpen, inp, Rest(answers), trace), 0);
    }

    /** The loop of lines 160-275 over the parsed stream `code`, up to the
        bounds check and its `break`, for at most `fuel` instructions. */
    method Run(code: array<Byte>, inp: seq<Input>, answers: seq<Input>, fuel: nat) returns (r: PPOutcome)
      requires Valid() && 0 <= where < TapeSize
      modifies memory, this`where, this`fileOpen, this`file, this`sockOpen
      ensures r == PPExec(code[..], old(PPConf(memory[..], where, fileOpen, file, sockOpen, inp, answers, [])), 0, fuel)
      ensures PPConf(memory[..], where, fileOpen, file, sockOpen, r.conf.inp, r.conf.answers, r.conf.trace) == r.conf
    {
      ghost var c0 := PPConf(memory[..], where, fileOpen, file, sockOpen, inp, answers, []);
      ghost var prog := code[..];
      var i := 0;
      var rest, said, trace := inp, answers, [];
      var steps := fuel;
      while i < code.Length
        invariant Valid() && 0 <= where < TapeSize && code[..] == prog
        invariant PPExec(prog, PPConf(memory[..], where, fileOpen, file, sockOpen, rest, said, trace), i, steps)
          == PPExec(prog, c0, 0, fuel)
        decreases steps
      {
        var done;
        done, r, i, steps, rest, said, trace := Advance(code, i, steps, rest, said, trace, prog);
        if done {
          return r;
        }
      }
      return PPFinished(PPConf(memory[..], where, fileOpen, file, sockOpen, rest, said, trace));
    }

    /** One iteration of that loop from index `i` with `steps` of the
        budget left: the instruction and the bounds check. Either the run
        ends here with outcome `r`, or it goes on from index `i'` in the new
        state with one step less. */
    method Advance(code: array<Byte>, i: int, steps: nat, rest: seq<Input>, said: seq<Input>, trace: seq<Event>,
                   ghost prog: seq<Byte>)
      returns (done: bool, r: PPOutcome, i': int, steps': nat, rest': seq<Input>, said': seq<Input>, trace': seq<Event>)
      requires Valid() && 0 <= where < TapeSize && code[..] == prog && i < code.Length
      modifies memory, this`where, this`fileOpen, this`file, this`sockOpen
      ensures var c := old(PPConf(memory[..], where, fileOpen, file, sockOpen, rest, said, trace));
        done ==> (r == PPExec(prog, c, i, steps)
          && PPConf(memory[..], where, fileOpen, file, sockOpen, r.conf.inp, r.conf.answers, r.conf.trace) == r.conf)
      ensures var c := old(PPConf(memory[..], where, fileOpen, file, sockOpen, rest, said, trace));
        !done ==> (0 <= where < TapeSize && steps' < steps
          && PPExec(prog, c, i, steps) == PPExec(prog, PPConf(memory[..], where, fileOpen, file, sockOpen, rest', said', trace'), i', steps'))
    {
      i', steps', rest', said', trace' := i, steps, rest, said, trace;
      r := PPOutOfFuel(PPConf(memory[..], where, fileOpen, file, sockOpen, rest, said, trace));
      if steps == 0 {
        return true, r, i', steps', rest', said', trace';
      }
      if i < 0 || (IsJump(code[i]) && i + 3 > code.Length) {
        return true, PPStuck(r.conf), i', steps', rest', said', trace';
      }
      ghost var c := r.conf;
      assert prog[i + 1..] == code[i + 1..] && prog[i] == code[i];
      var defined, offset;
      defined, offset, rest', said', trace' := ExecuteOp(code[i], code[i + 1..], rest, said, trace);
      var now := PPConf(memory[..], where, fileOpen, file, sockOpen, rest', said', trace');
      if !defined {
        PPExecUnfold(prog, c, i, steps);
        return true, PPStuck(now), i', steps', rest', said', trace';
      }
      if where < 0 || where >= TapeSize {
        PPExecUnfold(prog, c, i, steps);
        return true, PPFault(now), i', steps', rest', said', trace';
      }
      done, i', steps' := false, i + offset + 1, steps - 1;
      PPExecNext(prog, c, i, steps, now, i');
    }

    /** One pass of the `do ... while` body (lines 96-283) for the text
        `raw` (a console line, or the whole file in batch mode). `code` is
        what `parse` made of it, null when `parse` reported an error. */
    method Pass(raw: seq<char>, code: array?<Byte>, inp: seq<Input>, answers: seq<Input>, fuel: nat) returns (p: Pass)
      requires Valid() && 0 <= where < TapeSize && 0 <= rollWhere < TapeSize
      modifies memory, rollback, this`where, this`rollWhere, this`fileOpen, this`file, this`sockOpen
      // the console commands that skip the run
      ensures p == Quitted <==> interactive && Console(raw) == Stop
      ensures p == WasReset <==> interactive && Console(raw) == Restart
      ensures p == Printed <==> interactive && Console(raw) == PrintOnly
      ensures p == Quitted || p == Printed || p == Rejected ==>
        && memory[..] == old(memory[..]) && where == old(where)
        && rollback[..] == old(rollback[..]) && rollWhere == old(rollWhere)
        && fileOpen == old(fileOpen) && file == old(file) && sockOpen == old(sockOpen)
      // "reset" clears the tape but not the snapshot, the file or the socket
      ensures p == WasReset ==>
        && memory[..] == ZeroCells(TapeSize) && where == 0
        && rollback[..] == old(rollback[..]) && rollWhere == old(rollWhere)
        && fileOpen == old(fileOpen) && file == old(file) && sockOpen == old(sockOpen)
      // anything else is parsed and, when that succeeds, run
      ensures p == Rejected <==> !(interactive && Console(raw) != Program) && code == null
      ensures p.Ran? <==> !(interactive && Console(raw) != Program) && code != null
      ensures p.Ran? ==> code != null && p.outcome == PPExec(code[..], old(PPConf(memory[..], where, fileOpen, file, sockOpen, inp, answers, [])), 0, fuel)
      // the file and socket state is what the run left, even after a fault
      ensures p.Ran? ==> fileOpen == p.outcome.conf.fileOpen && file == p.outcome.conf.file && sockOpen == p.outcome.conf.sockOpen
      // a fault in console mode rolls the tape back to the snapshot
      ensures p.Ran? && p.outcome.PPFault? && interactive ==>
        memory[..] == old(rollback[..]) && where == old(rollWhere)
      ensures p.Ran? && !(p.outcome.PPFault? && interactive) ==>
        memory[..] == p.outcome.conf.tape && where == p.outcome.conf.where
      // after every run the snapshot is the state
      ensures p.Ran? ==> rollback[..] == memory[..] && rollWhere == where
      ensures Valid() && (interactive ==> 0 <= where < TapeSize && 0 <= rollWhere < TapeSize)
    {
      if interactive {
        var command := Console(raw);
        if command == Stop {
          return Quitted;
        } else if command == Restart {
          where := 0;
          forall a | 0 <= a < memory.Length {
            memory[a] := 0;
          }
          return WasReset;
        } else if command == PrintOnly {
          return Printed;
        }
      }
      if code == null {
        return Rejected;
      }
      var outcome := Run(code, inp, answers, fuel);
      if outcome.PPFault? && interactive {
        Restore();
      }
      TakeSnapshot();
      return Ran(outcome);
    }

    /** The rollback after a fault (lines 269-271): the whole snapshot is
        copied back and the cursor put where it was. */
    method Restore()
      requires Valid()
      modifies memory, this`where
      ensures memory[..] == rollback[..] && where == rollWhere
    {
      forall a | 0 <= a < memory.Length {
        memory[a] := rollback[a];
      }
      where := rollWhere;
    }

    /** The snapshot after a run (lines 281-282): the whole tape and the
        cursor. */
    method TakeSnapshot()
      requires Valid()
      modifies rollback, this`rollWhere
      ensures rollback[..] == memory[..] && rollWhere == where
    {
      rollWhere := where;
      forall a | 0 <= a < rollback.Length {
        rollback[a] := memory[a];
      }
    }

    /** The clean-up after the loop in batch mode (lines 286-289), with the
        corrected test: the events it sends to the world. */
    method Finish() returns (events: seq<Event>)
      ensures events == Cleanup(PPConf(memory[..], where, fileOpen, file, sockOpen, [], [], []))
    {
      events := [];
      if fileOpen && file != NoFile {
        events := events + [FileClosed];
      }
      if sockOpen {
        events := events + [SocketClosed];
      }
    }
  }
}
