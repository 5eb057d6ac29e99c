/** The Brainfuck++ interpreter of brainfuckpp.c (the loop at lines 160-275):
    the base operators again, inline, plus six operators that open and close
    a file (`#`), write and read a byte of it (`;`, `:`), open and close a
    socket (`%`), and send and receive a byte over it (`^`, `!`).
    The file and the socket are abstract: the interpreter keeps only the
    flags `file_open` and `sock_open` and the state of the handle `bf_fp`;
    what the outside world answers (`fopen`, `getc`, `open_sock`,
    `recv_sock`) comes from a list of answers, and what the program does to
    the world is recorded as a trace of events. */
module PlusPlus {
  import opened Bytes
  import opened Interpreter

  datatype Option<T> = None | Some(value: T)

  /** The state of `bf_fp`: NULL, an open file, or a pointer to a file that
      `#` has closed (the code does not reset `bf_fp` after `fclose`). */
  datatype Handle = NoFile | Live | Dangling

  /** What the program did to the outside world. */
  datatype Event =
    | Print(b: Byte)
    | FileOpened(path: seq<Cell>)
    | FileClosed
    | FileWrite(c: Cell)
    | SocketOpened(host: seq<Cell>, port: int)
    | SocketClosed
    | SocketSend(c: Cell)

  /** The interpreter's state: tape and cursor, the file and socket state,
      the unread standard input, the answers the world has still to give,
      and the events so far. */
  datatype PPConf = PPConf(
    tape: seq<Cell>, where: int,
    fileOpen: bool, file: Handle, sockOpen: bool,
    inp: seq<Input>, answers: seq<Input>, trace: seq<Event>)

  ghost predicate PPOnTape(c: PPConf)
  {
    |c.tape| == TapeSize && 0 <= c.where < TapeSize
  }

  /** What is left of a stream after one read; reading past the end reads
      nothing. */
  function Rest(s: seq<Input>): (r: seq<Input>)
    ensures s != [] ==> s == [s[0]] + r
    ensures s == [] ==> r == []
  {
    if s == [] then [] else s[1..]
  }

  // ---------------------------------------------------------------------
  // C strings on the tape

  /** `strlen(&memory[p])`: the number of cells before the first zero at or
      after `p`, or None when there is none on the tape (the C would read
      past the array). */
  function StrLen(tape: seq<Cell>, p: int): (r: Option<nat>)
    requires 0 <= p <= |tape|
    ensures r.Some? ==> p + r.value < |tape| && tape[p + r.value] == 0
    ensures r.Some? ==> forall q :: p <= q < p + r.value ==> tape[q] != 0
    ensures r.None? ==> forall q :: p <= q < |tape| ==> tape[q] != 0
    decreases |tape| - p
  {
    if p == |tape| then None
    else if tape[p] == 0 then Some(0)
    else match StrLen(tape, p + 1)
      case None => None
      case Some(n) => Some(n + 1)
  }

  /** The string at `p` ends at the first zero after it. */
  lemma {:induction false} StrLenAt(tape: seq<Cell>, p: int, n: nat)
    requires 0 <= p && p + n < |tape| && tape[p + n] == 0
    requires forall q :: p <= q < p + n ==> tape[q] != 0
    ensures StrLen(tape, p) == Some(n)
    decreases n
  {
    if n > 0 {
      StrLenAt(tape, p + 1, n - 1);
    }
  }

  // ---------------------------------------------------------------------
  // The port number of `%`

  /** The computation at brainfuckpp.c:247-248, with the host string at `p`
      of length `n`: the cell at `p + n` times 256 plus the cell at
      `p + n + 1`, both read as signed `char`s. */
  function PortAsWritten(tape: seq<Cell>, p: int, n: nat): int
    requires 0 <= p && p + n + 1 < |tape|
  {
    tape[p + n] as int * 256 + tape[p + n + 1] as int
  }

  /** The port as the layout comment at lines 235-236 describes it: the two
      bytes after the string's NUL, most significant first. */
  function Port(tape: seq<Cell>, p: int, n: nat): (port: int)
    requires 0 <= p && p + n + 2 < |tape|
    ensures 0 <= port < 65536
  {
    ByteOf(tape[p + n + 1]) * 256 + ByteOf(tape[p + n + 2])
  }

  /** The layout `[host] [NUL] [high byte] [low byte]` with the host at `p`
      decodes to the port it holds; the code as written reads the NUL as
      the high byte, so it gets the signed high byte instead. */
  lemma PortLayout(tape: seq<Cell>, p: int, n: nat, hi: Byte, lo: Byte)
    requires 0 <= p && p + n + 2 < |tape| && tape[p + n] == 0
    requires forall q :: p <= q < p + n ==> tape[q] != 0
    requires tape[p + n + 1] == ToCell(hi) && tape[p + n + 2] == ToCell(lo)
    ensures StrLen(tape, p) == Some(n)
    ensures Port(tape, p, n) == hi * 256 + lo
    ensures PortAsWritten(tape, p, n) == ToCell(hi)
  {
    StrLenAt(tape, p, n);
  }

  /** A host "a" on port 8080 (bytes 0x1F 0x90): the code as written asks
      for port 31. */
  lemma PortAsWrittenExample()
    ensures var tape := [0, 'a' as int, 0, 0x1F, ToCell(0x90)];
      && StrLen(tape, 1) == Some(1)
      && PortAsWritten(tape, 1, 1) == 31
      && Port(tape, 1, 1) == 8080
  {
    PortLayout([0, 'a' as int, 0, 0x1F, ToCell(0x90)], 1, 1, 0x1F, 0x90);
  }

  // ---------------------------------------------------------------------
  // The byte `:` reads

  /** brainfuckpp.c:219-221 as written: the result of `getc` is stored as a
      `char` and that `char` is compared with EOF, so a 0xFF byte is taken
      for the end of the file. */
  function ReadCellAsWritten(got: Input): Cell
  {
    var v := ToCell(got);
    if v == -1 then 0 else v
  }

  /** As the comment there says: 0 at the end of the file, otherwise the
      byte read. */
  function ReadCell(got: Input): (c: Cell)
    ensures got == -1 ==> c == 0
    ensures got != -1 ==> ByteOf(c) == got
  {
    if got == -1 then 0 else ToCell(got)
  }

  /** The two agree except on the byte 0xFF, which the code as written
      turns into 0. */
  lemma ReadCellAliases(got: Input)
    ensures ReadCellAsWritten(got) == ReadCell(got) <==> got != 255
    ensures ReadCellAsWritten(255) == ReadCellAsWritten(-1) == 0 && ReadCell(255) == -1
  {
  }

  // ---------------------------------------------------------------------
  // One instruction

  datatype StepResult = Stepped(conf: PPConf, offset: int) | Undefined

  /** The `switch` of brainfuckpp.c:162-261 on instruction `op`, with `next`
      the stream after it: the new state and the offset added to `i`, or
      Undefined where the C has undefined behaviour (a string that runs off
      the tape, a file used after `#` closed it). */
  function PPStep(c: PPConf, op: Byte, next: seq<Byte>): (r: StepResult)
    requires PPOnTape(c) && (IsJump(op) ==> |next| >= 2)
    ensures r.Stepped? ==> |r.conf.tape| == TapeSize
    ensures r.Stepped? ==> forall a :: 0 <= a < TapeSize && a != c.where ==> r.conf.tape[a] == c.tape[a]
    ensures r.Stepped? ==> r.conf.where in {c.where - 1, c.where, c.where + 1, -2}
    ensures r.Stepped? ==> c.trace <= r.conf.trace
    ensures r.Stepped? && !IsBaseOp(op) ==> r.offset == 0 && r.conf.inp == c.inp
  {
    if IsBaseOp(op) then BaseStep(c, op, next)
    else if op == '#' as int then FileToggleStep(c)
    else if op == ';' as int || op == ':' as int then FileByteStep(c, op)
    else if op == '%' as int then SocketToggleStep(c)
    else if op == '^' as int || op == '!' as int then SocketByteStep(c, op)
    else Stepped(c, 0)
  }

  /** The cases `+ - < > . , [ ]` (lines 164-190). */
  function BaseStep(c: PPConf, op: Byte, next: seq<Byte>): (r: StepResult)
    requires PPOnTape(c) && IsBaseOp(op) && (IsJump(op) ==> |next| >= 2)
    ensures r.Stepped? && |r.conf.tape| == TapeSize
    ensures forall a :: 0 <= a < TapeSize && a != c.where ==> r.conf.tape[a] == c.tape[a]
    ensures r.conf.where in {c.where - 1, c.where, c.where + 1}
    ensures c.trace <= r.conf.trace
  {
    var cell := c.tape[c.where];
    if op == '+' as int then Stepped(c.(tape := c.tape[c.where := ToCell(cell as int + 1)]), 0)
    else if op == '-' as int then Stepped(c.(tape := c.tape[c.where := ToCell(cell as int - 1)]), 0)
    else if op == '<' as int then Stepped(c.(where := c.where - 1), 0)
    else if op == '>' as int then Stepped(c.(where := c.where + 1), 0)
    else if op == '.' as int then Stepped(c.(trace := c.trace + [Print(ByteOf(cell))]), 0)
    else if op == ',' as int then
      Stepped(c.(tape := c.tape[c.where := ToCell(NextInput(c.inp))], inp := Rest(c.inp)), 0)
    else if op == '[' as int then Stepped(c, if cell == 0 then FieldAt(next, 0) - 1 else 2)
    else Stepped(c, FieldAt(next, 0) - 1)
  }

  /** `#` (lines 191-207): close the file if one is open, otherwise open
      the file named by the string `memory[where]` cells away. */
  function FileToggleStep(c: PPConf): (r: StepResult)
    requires PPOnTape(c)
    ensures r.Stepped? ==> |r.conf.tape| == TapeSize && r.conf.where == c.where && r.offset == 0
    ensures r.Stepped? ==> forall a :: 0 <= a < TapeSize && a != c.where ==> r.conf.tape[a] == c.tape[a]
    ensures r.Stepped? ==> c.trace <= r.conf.trace && r.conf.inp == c.inp
  {
    if c.fileOpen && c.file != NoFile then
      Stepped(c.(fileOpen := false, file := Dangling, trace := c.trace + [FileClosed]), 0)
    else
      var p := c.where + c.tape[c.where];
      if p < 0 || p >= TapeSize then Undefined
      else match StrLen(c.tape, p)
        case None => Undefined
        case Some(n) =>
          var ok := NextInput(c.answers) >= 0;
          Stepped(c.(tape := c.tape[c.where := if ok then 0 else -1],
                     fileOpen := true, file := if ok then Live else NoFile,
                     answers := Rest(c.answers), trace := c.trace + [FileOpened(c.tape[p..p + n])]), 0)
  }

  /** `;` and `:` (lines 208-223): with `bf_fp == NULL` they set `where` to
      -2; otherwise they write the cell to, or read it from, the file. */
  function FileByteStep(c: PPConf, op: Byte): (r: StepResult)
    requires PPOnTape(c)
    ensures r.Stepped? ==> |r.conf.tape| == TapeSize && r.conf.where in {c.where, -2} && r.offset == 0
    ensures r.Stepped? ==> forall a :: 0 <= a < TapeSize && a != c.where ==> r.conf.tape[a] == c.tape[a]
    ensures r.Stepped? ==> c.trace <= r.conf.trace && r.conf.inp == c.inp
  {
    if c.file == NoFile then Stepped(c.(where := -2), 0)
    else if c.file == Dangling then Undefined
    else if op == ';' as int then Stepped(c.(trace := c.trace + [FileWrite(c.tape[c.where])]), 0)
    else Stepped(c.(tape := c.tape[c.where := ReadCell(NextInput(c.answers))], answers := Rest(c.answers)), 0)
  }

  /** `%` (lines 224-252): close the socket if one is open, otherwise open
      one to the host and port laid out `memory[where]` cells away. */
  function SocketToggleStep(c: PPConf): (r: StepResult)
    requires PPOnTape(c)
    ensures r.Stepped? ==> |r.conf.tape| == TapeSize && r.conf.where == c.where && r.offset == 0
    ensures r.Stepped? ==> forall a :: 0 <= a < TapeSize && a != c.where ==> r.conf.tape[a] == c.tape[a]
    ensures r.Stepped? ==> c.trace <= r.conf.trace && r.conf.inp == c.inp
  {
    if c.sockOpen then Stepped(c.(sockOpen := false, trace := c.trace + [SocketClosed]), 0)
    else
      var p := c.where + c.tape[c.where];
      if p < 0 || p >= TapeSize then Undefined
      else match StrLen(c.tape, p)
        case None => Undefined
        case Some(n) =>
          if p + n + 2 >= TapeSize then Undefined
          else
            Stepped(c.(tape := c.tape[c.where := ToCell(NextInput(c.answers))], sockOpen := true,
                       answers := Rest(c.answers),
                       trace := c.trace + [SocketOpened(c.tape[p..p + n], Port(c.tape, p, n))]), 0)
  }

  /** `^` and `!` (lines 253-260): send the cell, or receive into it, while
      a socket is open. */
  function SocketByteStep(c: PPConf, op: Byte): (r: StepResult)
    requires PPOnTape(c)
    ensures r.Stepped? && |r.conf.tape| == TapeSize && r.conf.where == c.where && r.offset == 0
    ensures forall a :: 0 <= a < TapeSize && a != c.where ==> r.conf.tape[a] == c.tape[a]
    ensures c.trace <= r.conf.trace && r.conf.inp == c.inp
  {
    if !c.sockOpen then Stepped(c, 0)
    else if op == '^' as int then Stepped(c.(trace := c.trace + [SocketSend(c.tape[c.where])]), 0)
    else Stepped(c.(tape := c.tape[c.where := ToCell(NextInput(c.answers))], answers := Rest(c.answers)), 0)
  }

  datatype PPOutcome = PPFinished(conf: PPConf) | PPFault(conf: PPConf) | PPOutOfFuel(conf: PPConf) | PPStuck(conf: PPConf)

  /** The loop of brainfuckpp.c:160-275 from index `i`, for at most `fuel`
      instructions: each instruction, then the bounds check on `where`. */
  function PPExec(code: seq<Byte>, c: PPConf, i: int, fuel: nat): (r: PPOutcome)
    requires PPOnTape(c)
    ensures r.PPFault? ==> |r.conf.tape| == TapeSize && r.conf.where in {-2, -1, TapeSize}
    ensures !r.PPFault? ==> PPOnTape(r.conf)
    ensures c.trace <= r.conf.trace
    decreases fuel
  {
    if i >= |code| then PPFinished(c)
    else if fuel == 0 then PPOutOfFuel(c)
    else if i < 0 || (IsJump(code[i]) && i + 3 > |code|) then PPStuck(c)
    else match PPStep(c, code[i], code[i + 1..])
      case Undefined => PPStuck(c)
      case Stepped(c', offset) =>
        if c'.where < 0 || c'.where >= TapeSize then PPFault(c')
        else PPExec(code, c', i + offset + 1, fuel - 1)
  }

  // ---------------------------------------------------------------------
  // Properties of one instruction

  /** The events for bytes `putchar` printed. */
  function Prints(bs: seq<Byte>): (r: seq<Event>)
    ensures |r| == |bs| && forall k :: 0 <= k < |bs| ==> r[k] == Print(bs[k])
  {
    if bs == [] then [] else [Print(bs[0])] + Prints(bs[1..])
  }

  predicate IsBaseOp(op: Byte)
  {
    op in {'+' as int, '-' as int, '<' as int, '>' as int, '.' as int, ',' as int, '[' as int, ']' as int}
  }

  /** The eight base operators do in the Brainfuck++ loop what `do_op` of
      brainfuck.c does: the same tape, cursor, input and output, the same
      offset, and the file and socket state are left alone. */
  lemma PPBaseIsDoOp(c: PPConf, op: Byte, next: seq<Byte>)
    requires PPOnTape(c) && IsBaseOp(op) && (IsJump(op) ==> |next| >= 2)
    ensures var s := Step(Conf(c.tape, c.where, c.inp, []), op);
      PPStep(c, op, next) == Stepped(
        c.(tape := s.tape, where := s.where, inp := s.inp, trace := c.trace + Prints(s.out)),
        Stride(c.tape[c.where], op, next))
  {
    var s := Step(Conf(c.tape, c.where, c.inp, []), op);
    if op == '.' as int {
      assert Prints(s.out) == [Print(ByteOf(c.tape[c.where]))];
    } else {
      assert Prints(s.out) == [];
    }
  }

  /** `#` closes a file it opened successfully and otherwise opens one: on
      the open branch the cell reports 0 for success or -1 for failure, the
      handle is live exactly on success, `file_open` is set either way, and
      the only undefined case is a path that is not a string on the tape. */
  lemma FileToggle(c: PPConf)
    requires PPOnTape(c)
    ensures var r := PPStep(c, '#' as int, []);
      if c.fileOpen && c.file != NoFile then
        r == Stepped(c.(fileOpen := false, file := Dangling, trace := c.trace + [FileClosed]), 0)
      else
        var p := c.where + c.tape[c.where];
        && (r.Undefined? <==> p < 0 || p >= TapeSize || StrLen(c.tape, p).None?)
        && (r.Stepped? ==>
              && r.offset == 0 && r.conf.fileOpen && r.conf.where == c.where
              && r.conf.tape[c.where] in {0, -1}
              && (r.conf.file == Live <==> r.conf.tape[c.where] == 0)
              && (r.conf.file == Live <==> NextInput(c.answers) >= 0)
              && r.conf.file != Dangling
              && r.conf.trace == c.trace + [FileOpened(c.tape[p..p + StrLen(c.tape, p).value])])
  {
  }

  /** A second `#` after a successful open closes the file again, leaving
      the tape and the cursor as they were after the open. */
  lemma FileOpenThenClose(c: PPConf)
    requires PPOnTape(c) && !(c.fileOpen && c.file != NoFile)
    requires PPStep(c, '#' as int, []).Stepped? && PPStep(c, '#' as int, []).conf.file == Live
    ensures var c1 := PPStep(c, '#' as int, []).conf;
      PPStep(c1, '#' as int, []) == Stepped(c1.(fileOpen := false, file := Dangling, trace := c1.trace + [FileClosed]), 0)
  {
    FileToggle(c);
  }

  /** `;` and `:` with `bf_fp == NULL` set `where` to -2, so the bounds
      check stops the run with a fault right there. */
  lemma NoFileFaults(code: seq<Byte>, c: PPConf, i: int, fuel: nat)
    requires PPOnTape(c) && 0 <= i < |code| && fuel > 0
    requires code[i] == ';' as int || code[i] == ':' as int
    requires c.file == NoFile
    ensures PPExec(code, c, i, fuel) == PPFault(c.(where := -2))
  {
  }

  /** After `#` has closed the file, `;` and `:` use a closed `FILE`. */
  lemma DanglingUse(c: PPConf, op: Byte)
    requires PPOnTape(c) && c.file == Dangling && (op == ';' as int || op == ':' as int)
    ensures PPStep(c, op, []) == Undefined
  {
  }

  /** `:` on an open file stores what was read, and 0 at the end of the
      file. */
  lemma FileRead(c: PPConf)
    requires PPOnTape(c) && c.file == Live
    ensures var r := PPStep(c, ':' as int, []);
      && r.Stepped? && r.offset == 0 && r.conf.where == c.where
      && r.conf.answers == Rest(c.answers)
      && (c.answers == [] || c.answers[0] == -1 ==> r.conf.tape[c.where] == 0)
      && (c.answers != [] && c.answers[0] != -1 ==> ByteOf(r.conf.tape[c.where]) == c.answers[0])
  {
  }

  /** `%` closes an open socket and otherwise opens one to the host string
      at `where + memory[where]` on the port in the two bytes after its
      NUL, storing what `open_sock` returned in the cell. */
  lemma SocketToggle(c: PPConf)
    requires PPOnTape(c)
    ensures var r := PPStep(c, '%' as int, []);
      if c.sockOpen then
        r == Stepped(c.(sockOpen := false, trace := c.trace + [SocketClosed]), 0)
      else
        var p := c.where + c.tape[c.where];
        && (r.Undefined? <==>
              p < 0 || p >= TapeSize || StrLen(c.tape, p).None? || p + StrLen(c.tape, p).value + 2 >= TapeSize)
        && (r.Stepped? ==>
              var n := StrLen(c.tape, p).value;
              && r.offset == 0 && r.conf.sockOpen && r.conf.where == c.where
              && r.conf.tape[c.where] == ToCell(NextInput(c.answers))
              && r.conf.trace == c.trace + [SocketOpened(c.tape[p..p + n], Port(c.tape, p, n))])
  {
  }

  /** `^` and `!` do nothing while no socket is open. */
  lemma SocketIdle(c: PPConf, op: Byte)
    requires PPOnTape(c) && !c.sockOpen && (op == '^' as int || op == '!' as int)
    ensures PPStep(c, op, []) == Stepped(c, 0)
  {
  }

  // ---------------------------------------------------------------------
  // The file state over a run

  /** What the code keeps true of `file_open` and `bf_fp`: an open `FILE`
      is always flagged open, and the flag is never set on a closed one.
      (The flag is set on a failed open as well.) */
  ghost predicate FileInvariant(c: PPConf)
  {
    (c.file == Live ==> c.fileOpen) && (c.file == Dangling ==> !c.fileOpen)
  }

  lemma StepKeepsFileInvariant(c: PPConf, op: Byte, next: seq<Byte>)
    requires PPOnTape(c) && (IsJump(op) ==> |next| >= 2) && FileInvariant(c)
    ensures PPStep(c, op, next).Stepped? ==> FileInvariant(PPStep(c, op, next).conf)
  {
  }

  /** Every run from a state with the invariant ends in one with it. */
  lemma {:induction false} ExecKeepsFileInvariant(code: seq<Byte>, c: PPConf, i: int, fuel: nat)
    requires PPOnTape(c) && FileInvariant(c)
    ensures FileInvariant(PPExec(code, c, i, fuel).conf)
    decreases fuel
  {
    if i < |code| && fuel > 0 && 0 <= i && !(IsJump(code[i]) && i + 3 > |code|) {
      StepKeepsFileInvariant(c, code[i], code[i + 1..]);
      match PPStep(c, code[i], code[i + 1..])
      case Undefined =>
      case Stepped(c', offset) =>
        if 0 <= c'.where < TapeSize {
          ExecKeepsFileInvariant(code, c', i + offset + 1, fuel - 1);
        }
    }
  }

  // ---------------------------------------------------------------------
  // Clean-up at exit

  /** brainfuckpp.c:286-289 as written: `fclose(bf_fp)` whenever
      `file_open` is set, which after a failed open is `fclose(NULL)`
      (None: undefined behaviour), then the socket is closed if open. */
  function CleanupAsWritten(c: PPConf): Option<seq<Event>>
  {
    if c.fileOpen && c.file == NoFile then None
    else Some((if c.fileOpen then [FileClosed] else []) + (if c.sockOpen then [SocketClosed] else []))
  }

  /** The clean-up with the test `#` itself uses (line 192): close the file
      exactly when one is open, and the socket exactly when one is open. */
  function Cleanup(c: PPConf): (events: seq<Event>)
    ensures FileClosed in events <==> c.fileOpen && c.file != NoFile
    ensures SocketClosed in events <==> c.sockOpen
    ensures |events| <= 2 && forall e :: e in events ==> e == FileClosed || e == SocketClosed
  {
    (if c.fileOpen && c.file != NoFile then [FileClosed] else [])
      + (if c.sockOpen then [SocketClosed] else [])
  }

  /** The two agree on every state except one whose last `#` failed to
      open its file. */
  lemma CleanupAgrees(c: PPConf)
    requires FileInvariant(c)
    ensures CleanupAsWritten(c).None? <==> c.fileOpen && c.file == NoFile
    ensures CleanupAsWritten(c).Some? ==> CleanupAsWritten(c).value == Cleanup(c)
  {
  }

  /** The program `#` on a zero tape asks for the file "" and gets
      nothing: the flag is set, the handle is NULL, and the clean-up as
      written closes NULL. */
  lemma FailedOpenAtExit(c: PPConf)
    requires PPOnTape(c) && c.tape[c.where] == 0 && !c.fileOpen && c.file == NoFile
    requires c.answers == [-1]
    ensures var r := PPExec(['#' as int], c, 0, 1);
      && r.PPFinished? && r.conf.fileOpen && r.conf.file == NoFile && r.conf.tape[c.where] == -1
      && CleanupAsWritten(r.conf).None?
      && Cleanup(r.conf) == (if c.sockOpen then [SocketClosed] else [])
  {
    assert StrLen(c.tape, c.where) == Some(0);
  }

  // ---------------------------------------------------------------------
  // The snapshot copy

  /** `strncpy(dst, src, BF_ARRAY_SIZE)` (lines 270 and 282) as a function
      of `src`: the cells up to its first zero, then zeros to the full
      length. */
  function StrNCopy(src: seq<Cell>): (dst: seq<Cell>)
    ensures |dst| == |src|
  {
    if src == [] then []
    else if src[0] == 0 then ZeroCells(|src|)
    else [src[0]] + StrNCopy(src[1..])
  }

  /** `strncpy` copies a tape faithfully exactly when no non-zero cell
      follows a zero one. */
  lemma {:induction false} StrNCopyExact(src: seq<Cell>)
    ensures StrNCopy(src) == src <==>
      forall k, q :: 0 <= k < q < |src| && src[k] == 0 ==> src[q] == 0
  {
    if src != [] && src[0] != 0 {
      StrNCopyExact(src[1..]);
      var tail := src[1..];
      if StrNCopy(src) == src {
        assert StrNCopy(tail) == tail;
        forall k, q | 0 <= k < q < |src| && src[k] == 0
          ensures src[q] == 0
        {
          assert tail[k - 1] == 0;
          assert tail[q - 1] == src[q];
        }
      } else {
        assert StrNCopy(tail) != tail;
        var k, q :| 0 <= k < q < |tail| && tail[k] == 0 && tail[q] != 0;
        assert src[k + 1] == 0 && src[q + 1] != 0;
      }
    } else if src != [] {
      if StrNCopy(src) == src {
        forall k, q | 0 <= k < q < |src| && src[k] == 0
          ensures src[q] == 0
        {
          assert StrNCopy(src)[q] == 0;
        }
      } else {
        var q :| 0 <= q < |src| && StrNCopy(src)[q] != src[q];
        assert src[q] != 0 && src[0] == 0;
        assert 0 < q;
      }
    }
  }

  /** After `>+<` the tape starts with 0 then 1; `strncpy` snapshots a
      zero tape instead, so a later fault rolls back to all zeros. */
  lemma StrNCopyLoses()
    ensures var t := ZeroCells(TapeSize)[1 := 1];
      StrNCopy(t) == ZeroCells(TapeSize) && StrNCopy(t) != t
  {
    var t := ZeroCells(TapeSize)[1 := 1];
    assert StrNCopy(t)[1] == 0 != t[1];
  }
}
