# BFRust core, modelled in Dafny

BFRust runs Brainfuck programs in two ways: an emulating interpreter
(`Interpreter` in `src/interpreter.rs`) and an ahead-of-time compiler that
writes x86-64 assembly for the whole program, assembles it and calls it
(`x86AsmAOT` in `src/x86asm_aot.rs`). Both depend on a bracket resolver
that pairs every `]` with the most recent pending `[` (`src/utils.rs`; the
interpreter keeps its own copy that fills a map).

The model has four modules:

- `Common` (`common.dfy`): bytes (`u8`), the eight command bytes, the `ret`
  padding byte, the error values (`InvalidData`, `UnexpectedEof`, and
  `Panic` for an `unwrap` on a missing value or an out-of-range slice).
- `Brackets` (`brackets.dfy`): a declarative specification of the jump
  table by nesting depth (`Depth`, `NeverNegative`, `Pairs`, `Unclosed`,
  `ValidTable`), facts about it (pairs are unique and never cross, the
  table is determined by the program), and the stack-based resolver
  `GatherMatchingBrackets` proved against it.
- `Interpreter` (`interpreter.dfy`): the interpreter object as a class
  whose fields `run_one` and `run` update in place; `Step` and `Execute`
  are the pure specification of one step and of the run loop. Standard
  input is the sequence of bytes still to be read and standard output the
  bytes written so far.
- `X86AsmAot` (`x86asm_aot.dfy`): the emitted program as a sequence of
  lines (`AsmLine`), its text rendering (`ProgramText`: each line's text
  (`LineTexts`, with `{:x}` label numbers) followed by a newline,
  `Join`ed in order), the emitter `EmitProgram` proved equal to the function
  `Program`, structural facts about that program, and the in-place
  preparation of the executable buffer (`Fill`, `CopyFromSlice`,
  `Compile`). The assembler is a parameter of `Compile`: any function from
  program text to bytes.

Three behaviours of the code that are easy to miss:

- A `[` that is never closed is not an error. Both resolvers return
  success; the vector table holds 0 at that position and the map has no
  entry. The interpreter then panics (an `unwrap` on `None`) only if it
  meets that `[` on a zero cell; the compiled program instead jumps to
  `label_1` (`X86AsmAot.BracketBlock`).
- `.` in the interpreter prints the cell as a `char`, so values 0x80..0xFF
  are written as their two-byte UTF-8 encoding, not as the raw byte
  (`Interpreter.Utf8Of`).
- `run` does not reset `ip`, the tape or the cursor; it starts from the
  current state and returns no result value.

## Model

| member | source | states |
|---|---|---|
| Brackets.GatherMatchingBrackets | src/utils.rs:3-27 | Succeeds exactly when no prefix of the program has more `]` than `[`; otherwise fails with `InvalidData("Mismatched bracket ]")`. On success the table has one entry per byte: the partner of every matched bracket in both directions, 0 for a `[` that is never closed and for every other byte. |
| Brackets.ValidTableUnique | src/utils.rs:7-26 | The table is determined by the program: two tables meeting the specification are equal. |
| Brackets.MatchUnique | src/utils.rs:13-20 | A `[` is matched by at most one `]`. |
| Brackets.OpenUnique | src/utils.rs:13-20 | A `]` closes at most one `[`. |
| Brackets.PairsNest | src/utils.rs:9-25 | Matched pairs never cross: a pair that opens inside another closes inside it. |
| Brackets.UnclosedHasNoPair | src/utils.rs:7-26 | A `[` left pending at the end of the scan has no matching `]`, which is why its entry stays 0. |
| Brackets.TableInRange | src/utils.rs:19-20 | Every table entry is a position of the program, so every jump target entry + 1 is at most the program length. |
| Brackets.BalancedAppend | src/utils.rs:11-20 | Two properly nested stretches side by side are properly nested. |
| Brackets.BalancedWrap | src/utils.rs:11-20 | Wrapping a properly nested stretch in `[` and `]` keeps it properly nested. |
| Interpreter.Interpreter.constructor | src/interpreter.rs:25-33 | A zeroed tape of the requested size, cursor and instruction pointer at 0, an empty jump map. |
| Interpreter.Interpreter.GatherMatchingBrackets | src/interpreter.rs:73-95 | Same success condition and error as the vector resolver; on success every matched bracket has a map entry; every entry is a genuine pair and entries present before are kept; the tape, cursor and streams do not change. |
| Interpreter.Interpreter.InsertPair | src/interpreter.rs:87-88 | Inserting a matched pair in both directions keeps every existing entry, because partners are unique. |
| Interpreter.MapMatchesVector | src/interpreter.rs:73-95 | The map the interpreter builds agrees with the vector table of `src/utils.rs`: every key is a position whose vector entry is its partner, and every position without a key holds 0 in the vector. |
| Interpreter.Interpreter.RunOne | src/interpreter.rs:35-71 | Executing one instruction returns the next instruction pointer and leaves the object in the state `Step` gives; on an error (end of input, missing map entry) nothing has changed. |
| Interpreter.Step | src/interpreter.rs:35-71 | One step keeps the tape length, keeps the cursor on the tape and changes no cell other than the current one. |
| Interpreter.StepMovesOnRing | src/interpreter.rs:40-42 | `>` and `<` move the cursor one cell around a ring of tape cells (last to first, first to last) and leave the tape alone. |
| Interpreter.StepArithmeticWraps | src/interpreter.rs:44-46 | `+` and `-` change the current cell by one modulo 256 and leave the cursor where it is. |
| Interpreter.StepReadsInput | src/interpreter.rs:50-57 | `,` fails with `UnexpectedEof("No input available")` exactly when the input is exhausted; otherwise it stores the next input byte in the current cell and consumes it. |
| Interpreter.StepOthersAdvance | src/interpreter.rs:48-70 | `.` appends the cell's encoding to the output; it and every non-command byte change nothing else and advance to the next instruction. |
| Interpreter.Utf8RoundTrip | src/interpreter.rs:48 | Every cell value is written as one or two bytes from which it is read back; only values below 0x80 are written as themselves. |
| Interpreter.StepJumpsPastMatch | src/interpreter.rs:59-70 | A taken `[` (zero cell) with a map entry lands just after its matching `]`, a taken `]` (non-zero cell) just after its matching `[`; an untaken bracket advances by one whether or not it has an entry, so also at a `[` that is never closed. |
| Interpreter.StepStaysInProgram | src/interpreter.rs:59-70 | With a table of genuine pairs, the next instruction pointer is at most the program length. |
| Interpreter.PanicOnlyAtUnclosedOpen | src/interpreter.rs:59-65 | With a complete map, the missing-entry panic happens only at a `[` that is never closed, met on a zero cell. |
| Interpreter.Execute | src/interpreter.rs:102-104 | The run loop keeps the tape length and the cursor on the tape. |
| Interpreter.ExecuteMoreFuel | src/interpreter.rs:102-104 | The step bound only limits the run: a run that finished or failed ends the same way with more steps allowed. |
| Interpreter.ExecuteStopsAtEnd | src/interpreter.rs:102-104 | A finished run stops exactly at the end of the program; a failed run stops at an instruction whose step reports that error. |
| Interpreter.CopyOneByte | src/interpreter.rs:48-57 | The program `,.` with input `A` finishes with `A` in the cell and `A` written. |
| Interpreter.Interpreter.Run | src/interpreter.rs:99-107 | Resolves brackets first and stops with their error before any step; otherwise ends in the state `Execute` gives, reporting the first step error or completion. |
| X86AsmAot.HexInjective | src/x86asm_aot.rs:50 | Different numbers have different `{:x}` spellings. |
| X86AsmAot.LabelTextInjective | src/x86asm_aot.rs:50 | Labels of different positions are different text. |
| X86AsmAot.HexExamples | src/x86asm_aot.rs:50 | `{:x}` spells 9, 10, 15, 16, 255, 256 as `9`, `a`, `f`, `10`, `ff`, `100`: lower-case digits, no prefix, no padding. |
| X86AsmAot.DecimalExamples | src/x86asm_aot.rs:124 | Decimal `{}` spells 7, 10, 256, 40, 32 as `7`, `10`, `256`, `40`, `32`: no padding, no separators. |
| X86AsmAot.SliceEndPanicExample | src/x86asm_aot.rs:124 | Copying a 40-byte image into a 32-byte buffer panics with `range end index 40 out of range for slice of length 32`. |
| X86AsmAot.JoinAppend | src/x86asm_aot.rs:35-100 | Joining two runs of lines gives the two joined texts one after the other. |
| X86AsmAot.JoinSingle | src/x86asm_aot.rs:42 | One line joins to its text followed by a newline. |
| X86AsmAot.ProgramTextAppend | src/x86asm_aot.rs:35-100 | The text of a program is the text of its parts in order, as the source builds it by repeated `+=`. |
| X86AsmAot.FrameText | src/x86asm_aot.rs:37-47 | The header lines are exactly `[BITS 64]`, `start:`, `push rdi`, `push rsi`, `push rdx`, `mov rsi, rdi`; the trailer lines (src/x86asm_aot.rs:95-100) are `label_{len:x}:`, `xor eax, eax`, `pop rdx`, `pop rsi`, `pop rdi`, `ret`. |
| X86AsmAot.DotBlockText | src/x86asm_aot.rs:50-67 | A `.` block is its label line, the empty line opening the raw string, then `xor eax, eax`, `inc eax`, `xor edi, edi`, `xor edx, edx`, `inc edx`, `syscall`. |
| X86AsmAot.CommaBlockText | src/x86asm_aot.rs:69-75 | A `,` block is its label line, an empty line, then `xor eax, eax`, `xor edi, edi`, `xor edx, edx`, `inc edx`, `syscall`. |
| X86AsmAot.OpenBlockText | src/x86asm_aot.rs:77-81 | A `[` block is its label line, an empty line, `mov dl, BYTE [rsi]`, `test dl, dl`, `je label_{target:x}`. |
| X86AsmAot.CloseBlockText | src/x86asm_aot.rs:83-88 | A `]` block is the same with `jne label_{target:x}`. |
| X86AsmAot.EmitProgram | src/x86asm_aot.rs:32-100 | Emits nothing and fails with the resolver's error on a mismatched `]`; otherwise emits exactly `Program` for a table meeting the bracket specification. |
| X86AsmAot.ProgramFrame | src/x86asm_aot.rs:37-47 | The program starts with the six header lines (`[BITS 64]`, `start:`, the three pushes, `mov rsi, rdi`) and ends with the six trailer lines. |
| X86AsmAot.ProgramLabels | src/x86asm_aot.rs:49-95 | Read top to bottom, the labels of the program are exactly 0, 1, ..., len: one per position, in increasing order, and the trailer label last. |
| X86AsmAot.JumpTargetsExist | src/x86asm_aot.rs:77-95 | Every `je`/`jne` targets a label the program defines. |
| X86AsmAot.BracketBlock | src/x86asm_aot.rs:77-88 | A bracket block loads and tests the cell and jumps to the label just after the partner bracket (`je` for `[`, `jne` for `]`); an unclosed `[` jumps to label 1. |
| X86AsmAot.IgnoredByteEmitsOnlyLabel | src/x86asm_aot.rs:90 | A byte outside the eight commands emits its label and nothing else. |
| X86AsmAot.ProgramStackBalanced | src/x86asm_aot.rs:42-100 | The only stack operations are the header's pushes of rdi, rsi, rdx and the trailer's pops of rdx, rsi, rdi, in reverse order. |
| X86AsmAot.HeaderStackOps | src/x86asm_aot.rs:37-47 | The header pushes rdi, rsi, rdx in that order. |
| X86AsmAot.TrailerStackOps | src/x86asm_aot.rs:95-100 | The trailer pops rdx, rsi, rdi in that order. |
| X86AsmAot.Fill | src/x86asm_aot.rs:123 | Every byte of the buffer becomes the fill value. |
| X86AsmAot.CopyFromSlice | src/x86asm_aot.rs:124 | The buffer's prefix becomes the image and the rest is unchanged. |
| X86AsmAot.ImageLayout | src/x86asm_aot.rs:123-124 | The prepared buffer holds the image at its start and `ret` (0xC3) in every other byte. |
| X86AsmAot.Compile | src/x86asm_aot.rs:32-127 | On a mismatched `]` fails with the resolver's error before touching the buffer; otherwise the buffer holds the assembled image followed by `ret` bytes, or, when the image is larger than the buffer, is all `ret` bytes and the result is the slice panic naming the image length and the buffer length, `range end index {len} out of range for slice of length {len}`, both in decimal. |

## Left out

- The assembler run (`nasm` via `Command`, temporary files, their paths,
  `expect` on failure) is replaced by the `assemble` parameter of
  `Compile`; its failures are not modelled.
- Mapping the buffer (`map_anon` of `bytecode.len() * 32` bytes),
  `make_exec`, the tape allocation of `x86AsmAOT::new` and the call into
  the machine code in `x86AsmAOT::run` are operating-system and foreign
  calls; `Compile` takes the buffer as given. The elapsed-time measurement
  and its printing are observational only.
- The meaning of the generated x86 instructions and of the Linux `syscall`
  interface is not modelled, so the two engines are not compared. (The
  emitted `>`/`<` do not wrap as the interpreter's do, and the `.` block
  clears `edi`, which names file descriptor 0, not 1.)
- Interpreter.Interpreter.Run: bounded by a `fuel` number of steps, because
  a Brainfuck program need not terminate; `OutOfFuel` is not an outcome of
  the source.
- Interpreter.Interpreter.constructor: requires a tape of at least one
  cell. With an empty tape the source panics on the first `%` by zero or
  cell access; that path is not modelled.
- Interpreter.Interpreter.RunOne: a read error from standard input other
  than end of input (`Some(Err(e))`) is not modelled; input is a finite
  byte sequence.
- Output of `print!` is modelled as the bytes written; stdout buffering
  and flushing are not modelled.
- Integer widths: positions and the cursor are unbounded naturals; the
  source's `usize` wrap-around in `ptr.wrapping_add(1)` and in `matching + 1`
  cannot occur for programs and tapes that fit in memory.
- `src/main.rs` (command-line parsing, file reading, backend choice) and
  `src/runner.rs` (the `Runner` trait, whose `Result<usize>` does not match
  the interpreter's `Result<()>`) are glue and are not part of this model.
