# Brainfuck and Brainfuck++ in Dafny

A model of the engine of SimpleLang-interpreter, with proofs about it. The engine has two parts.

The **Brainfuck interpreter** covers `brainfuck.c`, `brainfuck.h` and `main.c`.

- `parse` compiles source text to a byte stream and drops every character that is not one of the eight operators.
- Each `[` and each `]` is followed by a 16-bit relative jump field.
- Loops are matched with a loop stack of 128 `short` slots that ends at the first negative slot.
- `do_op` executes one instruction on a tape of 32768 signed `char` cells.
- The driver in `main.c`:
  1. reads a line and lets `parse_request` handle `quit` and `reset`;
  2. compiles the line and runs it with a bounds check after every instruction;
  3. in console mode, rolls the tape back to the snapshot after a fault;
  4. takes a new snapshot after every run.

The **Brainfuck++ interpreter** covers `brainfuckpp.c`.

- It runs the same eight operators inline.
- It adds six operators: `#` opens and closes a file, `;` writes a byte to it and `:` reads a byte from it.
- `%` opens a socket and closes it again, `^` sends a byte over it and `!` receives one.
- The file and the socket are abstract:
  - any answer from the outside world comes from a list of answers: what `fopen`, `getc`, `open_sock` and `recv_sock` return;
  - what the program does to the world is recorded as a trace of events.

The modules:

- `Bytes`: signed cells with `char` wrap-around, and the little-endian 16-bit jump field.
- `Syntax`: the operators, their encoded widths, nesting depth and bracket matching.
- `LoopStack`: the loop stack. It is the arrays and methods of `shortlen`, `push`, `pop` and `peek`, specified by `SentinelLen` and `Holds`.
- `Brackets`: which brackets are open after a prefix of the program, and which pairs match.
- `Compiler` and `CompilerFacts`: `Compile` states what `parse` computes, as a fold over the source. Its facts:
  - when it succeeds;
  - which error it reports;
  - that comments do not matter;
  - that a compiled stream holds every operator at its address with every jump field pointing at its partner.
- `Parser`: `parse` as a method over arrays, proved equal to `Compile`. It also contains the old `parse` of `brainfuck.h`.
- `Interpreter`: `Step`, `Stride` and `Exec` model `do_op` and the run loop. Class `Machine` holds the tape and the cursor.
- `InterpreterFacts`: running a compiled stream equals a reference semantics over the operator sequence, `RefExec`, which jumps straight to the partner bracket. Such a run never reads outside its stream.
- `Session`: the driver loop of `main.c` as a class over the tape, the cursor and the snapshot.
- `PlusPlus`: the Brainfuck++ instruction as the function `PPStep`, the loop as `PPExec`, the exit clean-up, and the facts about them.
- `PlusPlusSession`: `main` of `brainfuckpp.c` as class `Interp` over its arrays and flags, proved to compute `PPExec`.

State and I/O:

- A run takes its standard input as a list; reading past the end gives EOF.
- What `.` prints is collected as output.
- A run gets a step budget `fuel`. Running out of it is the outcome `OutOfFuel`.
- Where the C has undefined behaviour, the model stops with `Stuck` (or `Undefined` for one instruction). That covers:
  - reading an instruction outside the stream;
  - a string that runs off the tape;
  - using a `FILE` after `fclose`.

## Model

| member | source | states |
|---|---|---|
| Bytes.ToCell | brainfuck.c:210-215 | the `char` a value wraps to: congruent to it modulo 256, and equal to it when it is in -128..127 |
| Bytes.ByteOf | brainfuck.c:222-224 | the byte `%c` prints for a cell; read back as a `char` it is the cell, and a non-negative cell is its own byte |
| Bytes.IncrementWraps | brainfuck.c:210-215 | `++` on 127 gives -128, `--` on -128 gives 127, otherwise they add or subtract one |
| Bytes.EncodeShort | brainfuck.c:190-192 | a jump field takes two bytes |
| Bytes.DecodeEncode | brainfuck.c:190-192 | reading a stored jump field gives back the value stored |
| Bytes.EncodeDecode | brainfuck.c:228-236 | every pair of bytes is the encoding of the value read from it |
| Bytes.StoreShort | brainfuck.c:190-192 | storing a field at `p` makes it read back there and leaves every other byte alone |
| Bytes.ZeroCells | brainfuck.c:8-10 | the zero tape: the right length with every cell 0 |
| Syntax.Ops | brainfuck.c:166-195 | the operators of a source text, kept in order, every one an operator |
| Syntax.SizeIsLen | brainfuck.c:134-145 | the size counted over the source equals the length of the encoded operator sequence |
| Syntax.OpsIdempotent | brainfuck.c:166-195 | dropping comments a second time changes nothing, and the size stays the same |
| Syntax.OpsPrefix | brainfuck.c:166-195 | the operators of a prefix of the source are a prefix of its operators |
| Syntax.SizePrefix | brainfuck.c:134-145 | a prefix never counts more than the whole source |
| Syntax.AddrMonotone | brainfuck.c:171-191 | later operators are encoded at later addresses, without overlap |
| Syntax.AddrBound | brainfuck.c:171-191 | every encoded operator lies inside the stream |
| Syntax.DepthAppend | brainfuck.c:174-193 | the nesting depth of two pieces adds up |
| Syntax.DepthOfOps | brainfuck.c:166-195 | dropping comments keeps the nesting depth |
| Syntax.MatchIsBalancedBetween | brainfuck.c:174-193 | a `[` and a `]` match exactly when the text between them is balanced |
| LoopStack.SentinelLen | brainfuck.c:86-90 | the number of slots before the first negative one |
| LoopStack.SentinelLenUnique | brainfuck.c:86-90 | any count with the property of `SentinelLen` is `SentinelLen` |
| LoopStack.Fill | brainfuck.c:163-164 | a sequence of `n` copies of a value |
| LoopStack.NewLoopStack | brainfuck.c:161-164 | a fresh stack of `n` slots holding nothing, all -1 |
| LoopStack.ShortLen | brainfuck.c:86-90 | `shortlen` with a bound: the count of slots before the first negative one, stopping at the end of the array |
| LoopStack.ShortLenStrict | brainfuck.c:86-90 | `shortlen` as written: it computes the same count, but only on an array that holds a negative slot |
| LoopStack.Push | brainfuck.c:96-99 | `push` writes the value into the first negative slot and nothing else |
| LoopStack.Pop | brainfuck.c:105-112 | `pop` returns -1 on an empty stack; otherwise it returns the top and sets that slot to -1 |
| LoopStack.Peek | brainfuck.c:118-123 | `peek` returns -1 on an empty stack and the top otherwise, changing nothing |
| LoopStack.HoldsLen | brainfuck.c:86-90 | an array holding a stack has `shortlen` equal to the stack's height |
| LoopStack.HoldsPush | brainfuck.c:96-99 | writing a non-negative value at the height pushes it |
| LoopStack.HoldsPop | brainfuck.c:105-112 | writing -1 at the top slot pops it |
| LoopStack.PushPopRoundTrip | brainfuck.c:96-112 | a push followed by a pop gives back the value and the array as it was |
| LoopStack.FullStackHasNoSentinel | brainfuck.c:177-179 | once the stack holds as many entries as it has slots, no slot is negative |
| Brackets.OpenBrackets | brainfuck.c:174-193 | the positions of the brackets left open by a prefix, each in range |
| Brackets.OpenBracketsPending | brainfuck.c:174-193 | with no unmatched `]`, as many brackets are open as the depth, and they are the pending ones, innermost last |
| Brackets.OpenBracketsPaired | brainfuck.c:184-193 | every `]` is matched with the innermost open `[`, and every open `[` still waits for its partner |
| Brackets.BalancedPaired | brainfuck.c:197-198 | in a balanced program nothing is left open, and every bracket has its partner |
| Compiler.EmitOp | brainfuck.c:167-194 | with the bounded `shortlen` (corrected): one source character appended to the stream; the count grows by its width, the buffer size stays the same |
| Compiler.ClosePair | brainfuck.c:186-192 | closing a loop writes `]` and the two jump fields: to the `]` the distance back to the `[`, to the `[` the distance past the `]`. No other byte changes |
| Compiler.Emit | brainfuck.c:166-195 | the whole pass over a source: on success the count equals the counted size |
| CompilerFacts.StackStep | brainfuck.c:174-193 | with the bounded `shortlen` (corrected): one more operator succeeds exactly when the nesting stays within 0..127; the stack then lists the open brackets |
| CompilerFacts.EmitStack | brainfuck.c:166-195 | with the bounded `shortlen` (corrected): the pass succeeds exactly when every prefix's depth lies within 0..127; its stack is the open brackets |
| CompilerFacts.EmitStackBound | brainfuck.c:179-180 | when the pass succeeds, the stack height is the depth and below 128 |
| CompilerFacts.EmitLayout | brainfuck.c:166-195 | a successful pass puts every operator at its address, with every closed pair's fields patched |
| CompilerFacts.EmitErrSticks | brainfuck.c:179-189 | after an error return the rest of the source does not matter |
| CompilerFacts.EmitErrorKind | brainfuck.c:179-189 | with the bounded `shortlen` (corrected): a failed pass stops at the first prefix whose depth leaves 0..127, and the error names the direction |
| CompilerFacts.CompileSucceeds | brainfuck.c:132-201 | with the bounded `shortlen` (corrected): `parse` succeeds exactly when the operators nest at most 127 deep and are balanced |
| CompilerFacts.CompileErrors | brainfuck.c:179-198 | with the bounded `shortlen` (corrected): LOOP_TOO_DEEP exactly when some prefix reaches depth 128 first, BAD_BRACKETS exactly when a `]` has no partner first or a `[` stays open |
| CompilerFacts.CompileLinked | brainfuck.c:132-201 | a compiled stream has the counted length and holds every operator at its address, with matching jump fields |
| CompilerFacts.EmitIgnoresComments | brainfuck.c:166-195 | the pass gives the same result on the source and on its operators alone |
| CompilerFacts.CompileIgnoresComments | brainfuck.c:132-201 | `parse` gives the same result with comments removed |
| Parser.CountSize | brainfuck.c:134-145 | the counting loop computes the size of the source |
| Parser.StoreField | brainfuck.c:190-192 | storing a `short` through a `char` pointer writes the encoded field |
| Parser.PatchPair | brainfuck.c:186-192 | patching the two fields of a loop gives `ClosePair`, and the count moves past the `]` |
| Parser.OpenLoop | brainfuck.c:174-177 | `[` is stored and its address pushed |
| Parser.CloseLoop | brainfuck.c:184-189 | `]` is stored; an empty stack gives -1, otherwise the top is popped |
| Parser.EmitChar | brainfuck.c:167-194 | with the bounded `shortlen` (corrected): one character on the arrays does what `EmitOp` does, errors included |
| Parser.Parse | brainfuck.c:132-201 | with the bounded `shortlen` (corrected): on the text up to its first NUL (the `strlen` bound), `parse` returns the counted size and fills the buffer with `Compile`, or returns `Compile`'s error |
| Parser.EmitCharLegacy | brainfuck.h:88-110 | one character of the old `parse`, the same as `EmitOp` within its 64-slot stack |
| Parser.ParseLegacy | brainfuck.h:59-114 | the old `parse` computes `Compile` on a balanced program nested below 64 |
| Parser.LegacyStep | brainfuck.h:96-109 | on such a program the old stack never overflows and never pops empty |
| Parser.LegacyAgrees | brainfuck.h:59-114 | such a program compiles and leaves the stack empty |
| Parser.ClosePairAfterOp | brainfuck.c:186-192 | storing `]` before patching changes nothing |
| Interpreter.Step | brainfuck.c:207-239 | one instruction changes only the current cell and the cursor (by at most one), and prints at most one byte |
| Interpreter.Exec | main.c:100-113 | a run ends in a fault with the cursor just off the tape, or on the tape; the output only grows |
| Interpreter.Machine.constructor | brainfuck.c:8-10 | a zero tape with the cursor at 0 |
| Interpreter.Machine.DoOp | brainfuck.c:207-239 | `do_op` on the arrays sets the cell, cursor, offset and output that `Step` and `Stride` describe |
| Interpreter.UpTo | brainfuck.c:134-166 | the longest prefix of a text without a given character: the text itself, or the part before the first occurrence; used for the space where `strtok` cuts and the NUL where `strlen` stops |
| Interpreter.LineAfterRequest | brainfuck.c:298-299 | the line after `parse_request`: a prefix of the request. A `disp` line ends before its first space, because `strtok` writes a NUL there; every other line is unchanged |
| Interpreter.Machine.ParseRequest | brainfuck.c:244-304 | the request's kind, and the line as it is left for `parse`. `reset` zeroes the tape and the cursor; no other request changes the state |
| InterpreterFacts.CloseOf | brainfuck.c:228-233 | the `]` that matches a `[` |
| InterpreterFacts.OpenOf | brainfuck.c:234-236 | the `[` that matches a `]` |
| InterpreterFacts.Next | brainfuck.c:228-236 | the next operator of the reference semantics stays inside the program |
| InterpreterFacts.RefExec | main.c:100-113 | the reference run over the operators never gets stuck and stays on the tape unless it faults |
| InterpreterFacts.InstrAt | brainfuck.c:171-191 | a linked stream holds each operator's byte at its address |
| InterpreterFacts.PairFields | brainfuck.c:190-192 | the fields of a matched pair hold the distances between the two brackets |
| InterpreterFacts.JumpTargets | brainfuck.c:228-236 | from a matched pair, `[` on 0 jumps past the `]`, `[` on non-zero goes on, `]` jumps to the `[` |
| InterpreterFacts.Lands | main.c:100-113 | every instruction of a linked stream takes the run to the address of the reference's next operator |
| InterpreterFacts.LandsPastClose | brainfuck.c:228-230 | `[` on a zero cell lands just past its `]` |
| InterpreterFacts.LandsOnOpen | brainfuck.c:234-236 | `]` lands on its `[` |
| InterpreterFacts.LandsOnNext | brainfuck.c:231-232 | any other operator, and `[` on a non-zero cell, lands on the next operator |
| InterpreterFacts.ExecIsRef | main.c:100-113 | running a linked stream from an operator's address equals the reference run from that operator |
| InterpreterFacts.ExecIsRefStep | main.c:100-113 | the same for a run with at least one step of budget |
| InterpreterFacts.CompiledRun | main.c:89-113 | running what `parse` produced equals the reference run and never reads outside the stream |
| InterpreterFacts.ExecFuel | main.c:100-113 | a run that ended within its budget ends the same way with any larger budget |
| InterpreterFacts.StepEffects | brainfuck.c:207-239 | the cell, cursor and output after each operator; `,` consumes one input unless at the end |
| Session.Run | main.c:100-113 | the run loop over the arrays computes `Exec` from index 0 and leaves the tape and cursor of its outcome |
| Session.Advance | main.c:101-112 | one turn of the loop either ends the run with `Exec`'s outcome or continues it with a smaller budget |
| Session.Execute | main.c:101 | the body before the bounds check computes `Step` and `Stride` |
| Session.Session.constructor | main.c:38-42 | tape, cursor and snapshot all zero |
| Session.Source | main.c:89-91 | the text `parse` reads: a NUL-free prefix of the input with no larger size; it is the line as `parse_request` left it (the whole file in batch mode), cut at its first NUL if it has one |
| Session.NulEndsFile | brainfuck.c:132-134 | the batch file "+", NUL, "+" reaches `parse` as the single "+" |
| Session.DispLine | brainfuck.c:298-316 | the console line "disp 5 d -1" reaches `parse` as "disp", which holds no operator |
| Session.Session.Step | main.c:70-121 | with the bounded `shortlen` (corrected): `quit` stops and `reset` clears everything. Otherwise the line as `parse_request` left it, up to its first NUL, is compiled; code that does not compile changes nothing. Code that compiles runs as `Exec` and never gets stuck. A fault in console mode is rolled back to the old snapshot, and afterwards the snapshot equals the state |
| Session.Session.ClearSnapshot | main.c:81-85 | the snapshot becomes the zero tape at cursor 0 |
| Session.Session.Restore | main.c:106-110 | the tape and cursor become the snapshot |
| Session.Session.TakeSnapshot | main.c:118-120 | the snapshot becomes the tape and cursor |
| PlusPlus.StrLen | brainfuckpp.c:247 | `strlen`: the distance to the first zero cell, with no zero before it, or None when no zero is left on the tape |
| PlusPlus.StrLenAt | brainfuckpp.c:247 | a string that ends at a zero has that length |
| PlusPlus.Port | brainfuckpp.c:235-236 | the port read from the two bytes after the NUL, high first: it lies within 0..65535 |
| PlusPlus.PortLayout | brainfuckpp.c:235-248 | on the documented layout `Port` decodes the port stored, while the code as written gets the signed high byte |
| PlusPlus.PortAsWrittenExample | brainfuckpp.c:246-248 | for the host "a" with port 8080 the code as written asks for port 31 |
| PlusPlus.ReadCell | brainfuckpp.c:219-221 | corrected: `:` stores 0 at the end of the file and otherwise the byte read |
| PlusPlus.ReadCellAliases | brainfuckpp.c:219-221 | the code as written agrees with that except on the byte 0xFF, which it stores as 0 |
| PlusPlus.PPStep | brainfuckpp.c:162-261 | with the corrected `:` and port: one instruction changes only the current cell and the cursor, and only extends the trace; the six new operators do not move the index or read standard input |
| PlusPlus.BaseStep | brainfuckpp.c:164-190 | a base operator is always defined, moves the cursor by at most one and changes only the current cell |
| PlusPlus.FileToggleStep | brainfuckpp.c:191-207 | `#` keeps the cursor and changes only the current cell and the file state |
| PlusPlus.FileByteStep | brainfuckpp.c:208-223 | corrected `:` (`ReadCell`): `;` and `:` change at most the current cell, or set the cursor to -2 |
| PlusPlus.SocketToggleStep | brainfuckpp.c:224-252 | corrected port (`Port`): `%` keeps the cursor and changes only the current cell and the socket state |
| PlusPlus.SocketByteStep | brainfuckpp.c:253-260 | `^` and `!` are always defined and change at most the current cell |
| PlusPlus.PPExec | brainfuckpp.c:160-275 | with the corrected `:` and port: a run faults with the cursor at -2, -1 or 32768, or ends on the tape; the trace only grows |
| PlusPlus.Prints | brainfuckpp.c:176-177 | one print event per byte, in order |
| PlusPlus.PPBaseIsDoOp | brainfuckpp.c:164-190 | the eight base operators do what `do_op` of brainfuck.c does, with the prints added to the trace |
| PlusPlus.FileToggle | brainfuckpp.c:191-207 | `#` closes a file that is open and not NULL; otherwise it opens the path at `where + cell`, storing 0 or -1 and marking the file open either way |
| PlusPlus.FileOpenThenClose | brainfuckpp.c:191-207 | a second `#` after a successful open closes the file and leaves a dangling handle |
| PlusPlus.NoFileFaults | brainfuckpp.c:208-216 | `;` or `:` with no file sets the cursor to -2, so the run faults there |
| PlusPlus.DanglingUse | brainfuckpp.c:194-222 | `;` or `:` after `#` closed the file has undefined behaviour |
| PlusPlus.FileRead | brainfuckpp.c:214-223 | corrected: `:` on an open file stores `ReadCell` of the next answer and consumes it |
| PlusPlus.SocketToggle | brainfuckpp.c:224-252 | corrected port: `%` closes an open socket; otherwise it opens one to the host at `where + cell` on `Port`, stores the answer and marks the socket open |
| PlusPlus.SocketIdle | brainfuckpp.c:253-260 | `^` and `!` do nothing while no socket is open |
| PlusPlus.StepKeepsFileInvariant | brainfuckpp.c:191-207 | a live handle implies the flag is set, and a dangling handle implies it is clear; every instruction keeps this |
| PlusPlus.ExecKeepsFileInvariant | brainfuckpp.c:160-275 | every run keeps the same file invariant |
| PlusPlus.Cleanup | brainfuckpp.c:286-289 | the exit closes the file exactly when it is open and not NULL, and the socket exactly when it is open |
| PlusPlus.CleanupAgrees | brainfuckpp.c:286-289 | the code as written reaches `fclose(NULL)` exactly when the last `#` failed; otherwise it does what `Cleanup` does |
| PlusPlus.FailedOpenAtExit | brainfuckpp.c:199-205 | the program `#` whose `fopen` fails ends with the flag set and a NULL handle, on which the exit as written calls `fclose(NULL)` |
| PlusPlus.StrNCopy | brainfuckpp.c:270 | `strncpy` of a whole tape gives a tape of the same size |
| PlusPlus.StrNCopyExact | brainfuckpp.c:270 | `strncpy` copies a tape faithfully exactly when no non-zero cell follows a zero one |
| PlusPlus.StrNCopyLoses | brainfuckpp.c:282 | the tape left by `>+<` is snapshotted by `strncpy` as all zeros |
| PlusPlusSession.Interp.constructor | brainfuckpp.c:60-71 | tape, snapshot and cursors all zero, no file, no socket |
| PlusPlusSession.Interp.ExecuteOp | brainfuckpp.c:162-261 | with the corrected `:` and port: one instruction on the arrays and flags computes `PPStep`; where that is undefined nothing changes |
| PlusPlusSession.Interp.BaseOp | brainfuckpp.c:164-190 | the base operators on the arrays compute `BaseStep` |
| PlusPlusSession.Interp.ToggleFile | brainfuckpp.c:191-207 | `#` on the state computes `FileToggleStep` |
| PlusPlusSession.Interp.FileByte | brainfuckpp.c:208-223 | corrected `:`: `;` and `:` on the state compute `FileByteStep` |
| PlusPlusSession.Interp.ToggleSocket | brainfuckpp.c:224-252 | corrected port: `%` on the state computes `SocketToggleStep` |
| PlusPlusSession.Interp.SocketByte | brainfuckpp.c:253-260 | `^` and `!` on the state compute `SocketByteStep` |
| PlusPlusSession.Interp.Run | brainfuckpp.c:160-275 | with the corrected `:` and port: the loop over the arrays and flags computes `PPExec` from index 0 and leaves the state of its outcome |
| PlusPlusSession.Interp.Advance | brainfuckpp.c:162-274 | with the corrected `:` and port: one turn either ends the run with `PPExec`'s outcome or continues it with a smaller budget |
| PlusPlusSession.Interp.Pass | brainfuckpp.c:96-283 | corrected `:`, port and whole-tape snapshot: `quit`, `print` and a failed parse change nothing; `reset` zeroes only the tape and cursor. Otherwise the run is `PPExec` and keeps its file and socket state. A fault in console mode is rolled back to the old snapshot, and afterwards the snapshot equals the state |
| PlusPlusSession.Interp.Restore | brainfuckpp.c:267-272 | the rollback, corrected: the tape and cursor become the whole snapshot |
| PlusPlusSession.Interp.TakeSnapshot | brainfuckpp.c:280-282 | the snapshot, corrected: it becomes the whole tape and the cursor |
| PlusPlusSession.Interp.Finish | brainfuckpp.c:286-289 | the exit clean-up, corrected: the events are those of `Cleanup` |

## Left out

- Standard input, the console line and the file contents are parameters. The program text of a pass is the string `raw`.
- `getchar` reads from a list that gives EOF once it is empty.
- `printf` and `putchar` output is collected as a list of bytes or as trace events.
- `fopen`, `getc`, `open_sock` and `recv_sock` answer from a list of answers that gives -1 once it is empty. `open_sock`'s result is stored as a `char`.
- What `putc`, `fclose`, `send_sock` and `close_sock` do to the world is only recorded as an event.
- The socket functions of SimpleLangpp.c (`open_client`, `open_server`, `close_sock`, `send_sock`, `recv_sock`) and `get_error` are not part of this model.
- The text printed by the console commands and by `show_err`, `show_help`, `disp` and the runtime error message is not modelled.
  - `where`, `help` and `print` change no state in `brainfuck.c`, and the line then goes on to parse and run as in main.c.
  - `disp` changes no state either, but its `strtok` ends the line at its first space, so only that part is parsed and run (`Interpreter.LineAfterRequest`). The later `strtok` calls only write after that point.
- File loading in `main` and the `--help` argument are not modelled. Neither are `malloc` failing, `free`, and the exit code of `quit`. These are process-level I/O.
- Non-termination: every run takes a step budget, and running out of it is a separate outcome.
- Undefined behaviour is a `Stuck`/`Undefined` outcome, not a model of what the C would then do. That covers reading an instruction outside the stream, a string that runs off the tape, and a `FILE` used after `fclose`.
- The `parse` that brainfuckpp.c calls is not part of this model. `Interp.Pass` takes the compiled stream as a parameter, with null for a failed parse.
- main.c includes brainfuck.h, but the brainfuck.h modelled here cannot be the header it is built with: it lacks `BUF_SIZE`, `QUIT`, `RESET` and `parse_request`, which main.c:45, 73-81 use, and it defines a `parse` of its own, which brainfuck.c would then define a second time. The model's driver assumes a header that matches brainfuck.c and uses brainfuck.c's `parse`. The older `parse` of brainfuck.h, with its 64-slot stack and no depth or bracket checks, is modelled as `Parser.ParseLegacy`.
- Parser.ParseLegacy: covers only balanced programs nested below 64. On the rest the old `parse` does one of three things:
  - an unmatched `]` pops -1 and patches a bogus field into bytes 0 and 1 of the stream, which is defined;
  - a `[` that is never closed leaves its field zero, which is defined;
  - once 64 loops are open, the next `push` or `pop` makes `shortlen` read past the 64-slot stack, which is undefined behaviour.
  - The model describes none of these streams.
- PlusPlus.PPStep: computes `:` with the corrected `ReadCell` and `%` with the corrected `Port`. The code as written (`ReadCellAsWritten`, `PortAsWritten`) differs on a 0xFF byte read from the file and on nearly every port (see Findings).
- PlusPlus.PPExec: built on `PPStep`, so it has the same two corrections.
- PlusPlusSession.Interp.Pass: runs `PPExec` with those corrections. It takes and restores the snapshot by copying the whole tape, not by `strncpy` (`StrNCopy`), so "the snapshot equals the state" holds only for the corrected copy.
- Parser.Parse, Parser.EmitChar, Compiler.EmitOp, CompilerFacts.StackStep, CompilerFacts.EmitStack, CompilerFacts.EmitErrorKind, CompilerFacts.CompileSucceeds, CompilerFacts.CompileErrors and Session.Session.Step: use the bounded `shortlen`. At depth 128 the C's `shortlen` finds no negative slot and reads past `loopstack` (brainfuck.c:177-179), which is undefined behaviour; the model reports LOOP_TOO_DEEP there instead (see Findings).
- Parser.Parse, Compiler.Compile and Session.Session.Step: require the counted size of the text `parse` reads to be below 32768, because jump fields are 16-bit `short`s. Longer programs overflow them, and that wrap-around is not modelled.
- `BUF_SIZE` in main.c is not defined in the files modelled. The length of a console line is therefore not bounded in the model.
- PlusPlusSession.Interp.Pass: its `raw` is not bounded by `NUM_BYTES` (1024, brainfuckpp.h:16), so the model does not split a console line of more than 1023 characters into several passes as `fgets` at brainfuckpp.c:102 does. The input list that `,` reads is kept separate from the console lines, although in the C both come from the same standard input.
- Cells are signed `char`s. Where the C passes a cell to `putchar`, `putc` or `send_sock`, the model records the cell or its byte.

## Findings

| source | as written | input that shows it | evidently intended | confidence | as-written member | corrected member |
|---|---|---|---|---|---|---|
| brainfuck.c:86-90, 177-180 | `shortlen` walks until it finds a negative slot. After the 128th `push` none is left, so the check at line 179 reads past `loopstack` | a source of 128 nested `[` | report LOOP_TOO_DEEP, with the count stopping at the end of the 128 slots | not executed | LoopStack.ShortLenStrict, LoopStack.FullStackHasNoSentinel | LoopStack.ShortLen |
| brainfuckpp.c:246-248 | the port is the NUL after the host times 256 plus the first port byte | host "a" followed by NUL, 0x1F, 0x90 (port 8080) | the two bytes after the NUL, high byte first, as the comment at lines 235-236 describes; gives 8080 | not executed | PlusPlus.PortAsWritten, PlusPlus.PortAsWrittenExample | PlusPlus.Port, PlusPlus.PortLayout |
| brainfuckpp.c:219-221 | the result of `getc` is stored as a `char` and then compared with EOF | a file whose next byte is 0xFF | 0 only at the end of the file; a 0xFF byte is stored as -1 | not executed | PlusPlus.ReadCellAsWritten, PlusPlus.ReadCellAliases | PlusPlus.ReadCell |
| brainfuckpp.c:270, 282 | snapshot and rollback use `strncpy`, which stops copying at the first zero cell and zero-fills the rest | the program `>+<` leaves cells 0, 1; the snapshot holds 0, 0 | copy the whole tape, as main.c does with `memcpy` | not executed | PlusPlus.StrNCopy, PlusPlus.StrNCopyExact, PlusPlus.StrNCopyLoses | PlusPlusSession.Interp.TakeSnapshot, PlusPlusSession.Interp.Restore |
| brainfuckpp.c:286-287 | the exit calls `fclose(bf_fp)` whenever `file_open` is set, but a failed `#` sets it with `bf_fp == NULL` | the program `#` on a zero tape with no file named "" | close the file only when `bf_fp != NULL`, as `#` does at line 192 | not executed | PlusPlus.CleanupAsWritten, PlusPlus.FailedOpenAtExit | PlusPlus.Cleanup, PlusPlus.CleanupAgrees, PlusPlusSession.Interp.Finish |
