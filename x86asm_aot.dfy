/** The native backend of src/x86asm_aot.rs, up to the point where machine
    code is placed in the buffer: `compile` resolves the brackets, emits an
    assembly program with one labelled block per program position, hands the
    text to an assembler, and prepares the executable buffer (fill with `ret`
    bytes, then copy the assembled image over its start).

    The program text is modelled as its sequence of lines; `ProgramText`
    renders it to the exact characters the source builds. The assembler is a
    parameter: any function from text to bytes. */
module X86AsmAot {
  import opened Common
  import opened Brackets

  /** The fixed lines the emitter writes (directives and instructions
      without a label operand); `Render` gives their text. */
  datatype Instr =
    | Bits64 | Start | MovRsiRdi
    | IncRsi | DecRsi | IncCell | DecCell
    | Blank | XorEax | IncEax | XorEdi | XorEdx | IncEdx | Syscall
    | LoadCell | TestDl | Ret

  datatype Register = Rdi | Rsi | Rdx

  /** One line of the emitted program. Labels and jumps carry the program
      position they name, pushes and pops the register they save or
      restore. */
  datatype AsmLine =
    | Op(instr: Instr)
    | Label(position: nat)
    | JumpIfZero(target: nat)
    | JumpIfNonZero(target: nat)
    | Push(register: Register)
    | Pop(register: Register)

  predicate IsJump(line: AsmLine) { line.JumpIfZero? || line.JumpIfNonZero? }

  // -----------------------------------------------------------------------
  // Rendering, with `{:x}` formatting of label numbers

  function HexDigit(d: nat): (c: char)
    requires d < 16
  {
    if d < 10 then ('0' as int + d) as char else ('a' as int + d - 10) as char
  }

  /** Lower-case hexadecimal without leading zeros, as Rust's `{:x}`. */
  function Hex(n: nat): (r: string)
    ensures |r| >= 1 && (n < 16 <==> |r| == 1)
    decreases n
  {
    if n < 16 then [HexDigit(n)] else Hex(n / 16) + [HexDigit(n % 16)]
  }

  /** Different numbers get different hexadecimal names. */
  lemma {:induction false} HexInjective(a: nat, b: nat)
    requires Hex(a) == Hex(b)
    ensures a == b
    decreases a
  {
    if a >= 16 && b >= 16 {
      var ha, hb := Hex(a), Hex(b);
      assert ha[|ha| - 1] == HexDigit(a % 16) && hb[|hb| - 1] == HexDigit(b % 16);
      assert ha[..|ha| - 1] == Hex(a / 16) && hb[..|hb| - 1] == Hex(b / 16);
      HexInjective(a / 16, b / 16);
    }
  }

  function LabelName(n: nat): (name: string) { "label_" + Hex(n) }

  function InstrText(i: Instr): (text: string)
  {
    match i
    case Bits64 => "[BITS 64]"
    case Start => "start:"
    case MovRsiRdi => "mov rsi, rdi"
    case IncRsi => "inc rsi"
    case DecRsi => "dec rsi"
    case IncCell => "inc BYTE [rsi]"
    case DecCell => "dec BYTE [rsi]"
    case Blank => ""
    case XorEax => "xor eax, eax"
    case IncEax => "inc eax"
    case XorEdi => "xor edi, edi"
    case XorEdx => "xor edx, edx"
    case IncEdx => "inc edx"
    case Syscall => "syscall"
    case LoadCell => "mov dl, BYTE [rsi]"
    case TestDl => "test dl, dl"
    case Ret => "ret"
  }

  function RegisterText(r: Register): (name: string)
  {
    match r
    case Rdi => "rdi"
    case Rsi => "rsi"
    case Rdx => "rdx"
  }

  function Render(line: AsmLine): (text: string)
  {
    match line
    case Op(i) => InstrText(i)
    case Label(n) => LabelName(n) + ":"
    case JumpIfZero(n) => "je " + LabelName(n)
    case JumpIfNonZero(n) => "jne " + LabelName(n)
    case Push(r) => "push " + RegisterText(r)
    case Pop(r) => "pop " + RegisterText(r)
  }

  /** The texts of the lines, one per line. */
  function LineTexts(lines: seq<AsmLine>): (texts: seq<string>)
  {
    seq(|lines|, i requires 0 <= i < |lines| => Render(lines[i]))
  }

  /** Texts joined into one string, each followed by a newline. */
  function Join(texts: seq<string>): (text: string)
  {
    if texts == [] then "" else Join(texts[..|texts| - 1]) + texts[|texts| - 1] + "\n"
  }

  /** The text of the program: every line followed by a newline. */
  function ProgramText(lines: seq<AsmLine>): (text: string)
  {
    Join(LineTexts(lines))
  }

  /** Labels of different positions are different text, so each label
      names exactly one place in the assembled program. */
  lemma LabelTextInjective(a: nat, b: nat)
    requires Render(Label(a)) == Render(Label(b))
    ensures a == b
  {
    var ra, rb := Render(Label(a)), Render(Label(b));
    assert ra[6..|ra| - 1] == Hex(a) && rb[6..|rb| - 1] == Hex(b);
    HexInjective(a, b);
  }

  /** Joining two runs of lines gives the two joined texts one after
      the other. */
  lemma {:induction false} JoinAppend(a: seq<string>, b: seq<string>)
    ensures Join(a + b) == Join(a) + Join(b)
    decreases |b|
  {
    if b == [] {
      assert a + b == a;
    } else {
      assert (a + b)[..|a + b| - 1] == a + b[..|b| - 1];
      JoinAppend(a, b[..|b| - 1]);
    }
  }

  /** Rendering distributes over concatenation: the text of a program is
      the text of its parts, one after the other, as the source's `+=`
      appends them. */
  lemma ProgramTextAppend(a: seq<AsmLine>, b: seq<AsmLine>)
    ensures ProgramText(a + b) == ProgramText(a) + ProgramText(b)
  {
    assert LineTexts(a + b) == LineTexts(a) + LineTexts(b);
    JoinAppend(LineTexts(a), LineTexts(b));
  }

  /** `{:x}` spellings: single digits, then carrying into a second digit. */
  lemma HexExamples()
    ensures Hex(9) == "9" && Hex(10) == "a" && Hex(15) == "f"
    ensures Hex(16) == "10" && Hex(255) == "ff" && Hex(256) == "100"
  {
    assert Hex(16) == Hex(1) + [HexDigit(0)];
    assert Hex(255) == Hex(15) + [HexDigit(15)];
    assert Hex(256) == Hex(16) + [HexDigit(0)];
  }

  /** The lines of a `[` block: `label_{idx:x}:`, then the lines of the
      source's raw string, an empty line, the load, the test and
      `je label_{target:x}`. */
  lemma OpenBlockText(idx: nat, target: nat)
    ensures LineTexts(Block(OPEN, idx, target))
      == ["label_" + Hex(idx) + ":", "", "mov dl, BYTE [rsi]", "test dl, dl", "je label_" + Hex(target)]
  {
    assert "je " + ("label_" + Hex(target)) == "je label_" + Hex(target);
  }

  /** The lines of a `]` block, ending in `jne label_{target:x}`. */
  lemma CloseBlockText(idx: nat, target: nat)
    ensures LineTexts(Block(CLOSE, idx, target))
      == ["label_" + Hex(idx) + ":", "", "mov dl, BYTE [rsi]", "test dl, dl", "jne label_" + Hex(target)]
  {
    assert "jne " + ("label_" + Hex(target)) == "jne label_" + Hex(target);
  }

  /** The lines of a `.` block: its label, then the one-byte `write`
      system call of the source's raw string. */
  lemma DotBlockText(idx: nat, target: nat)
    ensures LineTexts(Block(DOT, idx, target))
      == ["label_" + Hex(idx) + ":", "", "xor eax, eax", "inc eax", "xor edi, edi", "xor edx, edx", "inc edx", "syscall"]
  {
  }

  /** The lines of a `,` block: its label, then the one-byte `read`
      system call of the source's raw string. */
  lemma CommaBlockText(idx: nat, target: nat)
    ensures LineTexts(Block(COMMA, idx, target))
      == ["label_" + Hex(idx) + ":", "", "xor eax, eax", "xor edi, edi", "xor edx, edx", "inc edx", "syscall"]
  {
  }

  /** The lines of the header and of the trailer. */
  lemma FrameText(n: nat)
    ensures LineTexts(Header())
      == ["[BITS 64]", "start:", "push rdi", "push rsi", "push rdx", "mov rsi, rdi"]
    ensures LineTexts(Trailer(n))
      == ["label_" + Hex(n) + ":", "xor eax, eax", "pop rdx", "pop rsi", "pop rdi", "ret"]
  {
    assert "push " + "rdi" == "push rdi" && "push " + "rsi" == "push rsi" && "push " + "rdx" == "push rdx";
    assert "pop " + "rdi" == "pop rdi" && "pop " + "rsi" == "pop rsi" && "pop " + "rdx" == "pop rdx";
  }

  /** A single line's text is that line followed by a newline. */
  lemma JoinSingle(t: string)
    ensures Join([t]) == t + "\n"
  {
    assert [t][..0] == [];
  }

  // -----------------------------------------------------------------------
  // The emitted program, as a function of the program and its jump table

  /** Saves the caller's registers and moves the tape address (first
      argument, `rdi`) to `rsi`. */
  function Header(): (lines: seq<AsmLine>)
  {
    [Op(Bits64), Op(Start),
     Push(Rdi), Push(Rsi), Push(Rdx),
     Op(MovRsiRdi)]
  }

  /** The block of the instruction `opcode` at position `idx`; `target` is
      the label a bracket jumps to. */
  function Block(opcode: u8, idx: nat, target: nat): (lines: seq<AsmLine>)
  {
    [Label(idx)] +
    if opcode == RIGHT then [Op(IncRsi)]
    else if opcode == LEFT then [Op(DecRsi)]
    else if opcode == PLUS then [Op(IncCell)]
    else if opcode == MINUS then [Op(DecCell)]
    else if opcode == DOT then
      [Op(Blank), Op(XorEax), Op(IncEax), Op(XorEdi),
       Op(XorEdx), Op(IncEdx), Op(Syscall)]
    else if opcode == COMMA then
      [Op(Blank), Op(XorEax), Op(XorEdi),
       Op(XorEdx), Op(IncEdx), Op(Syscall)]
    else if opcode == OPEN then
      [Op(Blank), Op(LoadCell), Op(TestDl), JumpIfZero(target)]
    else if opcode == CLOSE then
      [Op(Blank), Op(LoadCell), Op(TestDl), JumpIfNonZero(target)]
    else []
  }

  /** The blocks of positions `0..n`, in order. */
  function Blocks(code: seq<u8>, m: seq<nat>, n: nat): (lines: seq<AsmLine>)
    requires n <= |code| == |m|
  {
    if n == 0 then [] else Blocks(code, m, n - 1) + Block(code[n - 1], n - 1, m[n - 1] + 1)
  }

  /** The label after the last block, then: zero the result register,
      restore the saved registers in reverse order, return. */
  function Trailer(n: nat): (lines: seq<AsmLine>)
  {
    [Label(n), Op(XorEax), Pop(Rdx), Pop(Rsi), Pop(Rdi), Op(Ret)]
  }

  function Program(code: seq<u8>, m: seq<nat>): (lines: seq<AsmLine>)
    requires |m| == |code|
  {
    Header() + Blocks(code, m, |code|) + Trailer(|code|)
  }

  // -----------------------------------------------------------------------
  // Structure of the emitted program

  /** The positions 0, 1, ..., n - 1 in increasing order. */
  function Range(n: nat): (r: seq<nat>)
    ensures |r| == n && forall i :: 0 <= i < n ==> r[i] == i
  {
    if n == 0 then [] else Range(n - 1) + [n - 1]
  }

  /** The label positions of `lines`, in the order they appear. */
  function LabelsOf(lines: seq<AsmLine>): (positions: seq<nat>)
  {
    if lines == [] then []
    else LabelsOf(lines[..|lines| - 1]) + (if lines[|lines| - 1].Label? then [lines[|lines| - 1].position] else [])
  }

  lemma {:induction false} LabelsOfAppend(a: seq<AsmLine>, b: seq<AsmLine>)
    ensures LabelsOf(a + b) == LabelsOf(a) + LabelsOf(b)
    decreases |b|
  {
    if b == [] {
      assert a + b == a;
    } else {
      assert (a + b)[..|a + b| - 1] == a + b[..|b| - 1];
      LabelsOfAppend(a, b[..|b| - 1]);
    }
  }

  lemma LabelsOfBlock(opcode: u8, idx: nat, target: nat)
    ensures LabelsOf(Block(opcode, idx, target)) == [idx]
  {
    var b := Block(opcode, idx, target);
    LabelsOfAppend([Label(idx)], b[1..]);
    assert b == [Label(idx)] + b[1..];
    assert LabelsOf([Label(idx)]) == [idx] by { assert [Label(idx)][..0] == []; }
    assert forall i :: 1 <= i < |b| ==> !b[i].Label?;
    NoLabels(b[1..]);
  }

  lemma {:induction false} NoLabels(lines: seq<AsmLine>)
    requires forall i :: 0 <= i < |lines| ==> !lines[i].Label?
    ensures LabelsOf(lines) == []
    decreases |lines|
  {
    if lines != [] {
      NoLabels(lines[..|lines| - 1]);
    }
  }

  lemma {:induction false} LabelsOfBlocks(code: seq<u8>, m: seq<nat>, n: nat)
    requires n <= |code| == |m|
    ensures LabelsOf(Blocks(code, m, n)) == Range(n)
    decreases n
  {
    if n > 0 {
      LabelsOfBlocks(code, m, n - 1);
      LabelsOfBlock(code[n - 1], n - 1, m[n - 1] + 1);
      LabelsExtend(Blocks(code, m, n - 1), Block(code[n - 1], n - 1, m[n - 1] + 1), n - 1);
    }
  }

  lemma LabelsExtend(prev: seq<AsmLine>, next: seq<AsmLine>, n: nat)
    requires LabelsOf(prev) == Range(n) && LabelsOf(next) == [n]
    ensures LabelsOf(prev + next) == Range(n + 1)
  {
    LabelsOfAppend(prev, next);
  }

  /** Reading the emitted program top to bottom, the labels are exactly
      0, 1, ..., |code|: one per program position, in increasing order,
      each before its position's block, and the trailer label last. */
  lemma ProgramLabels(code: seq<u8>, m: seq<nat>)
    requires |m| == |code|
    ensures LabelsOf(Program(code, m)) == Range(|code| + 1)
  {
    var n := |code|;
    NoLabels(Header());
    LabelsOfBlocks(code, m, n);
    TrailerLabels(n);
    LabelsOfAppend(Header(), Blocks(code, m, n));
    LabelsExtend(Header() + Blocks(code, m, n), Trailer(n), n);
  }

  lemma TrailerLabels(n: nat)
    ensures LabelsOf(Trailer(n)) == [n]
  {
    var t := Trailer(n);
    NoLabels(t[1..]);
    LabelsOfAppend([Label(n)], t[1..]);
    assert t == [Label(n)] + t[1..];
    assert [Label(n)][..0] == [];
  }

  /** The program opens with the header and closes with the trailer. */
  lemma ProgramFrame(code: seq<u8>, m: seq<nat>)
    requires |m| == |code|
    ensures |Program(code, m)| >= 12
    ensures Program(code, m)[..6] == Header() && Program(code, m)[|Program(code, m)| - 6..] == Trailer(|code|)
  {
  }

  /** Every position named in the label order is a label line of `lines`. */
  lemma {:induction false} LabelsOfPresent(lines: seq<AsmLine>, t: nat)
    requires t in LabelsOf(lines)
    ensures Label(t) in lines
    decreases |lines|
  {
    var last := lines[|lines| - 1];
    if !(last.Label? && last.position == t) {
      LabelsOfPresent(lines[..|lines| - 1], t);
    }
  }

  /** Every jump in the emitted program targets a label that is emitted. */
  lemma JumpTargetsExist(code: seq<u8>, m: seq<nat>)
    requires ValidTable(code, m)
    ensures forall line :: line in Program(code, m) && IsJump(line) ==> Label(line.target) in Program(code, m)
  {
    var p := Program(code, m);
    ProgramLabels(code, m);
    forall line | line in p && IsJump(line)
      ensures Label(line.target) in p
    {
      JumpTargetBound(code, m, |code|, line);
      assert Range(|code| + 1)[line.target] == line.target;
      LabelsOfPresent(p, line.target);
    }
  }

  /** The jumps of the first `n` blocks target positions up to |code|. */
  lemma {:induction false} JumpTargetBound(code: seq<u8>, m: seq<nat>, n: nat, line: AsmLine)
    requires ValidTable(code, m) && n <= |code|
    requires line in Header() + Blocks(code, m, n) + Trailer(|code|) && IsJump(line)
    ensures line.target <= |code|
    decreases n
  {
    if n > 0 {
      var prefix := Header() + Blocks(code, m, n - 1) + Trailer(|code|);
      var blk := Block(code[n - 1], n - 1, m[n - 1] + 1);
      if line in blk {
        TableInRange(code, m, n - 1);
      } else {
        assert line in prefix;
        JumpTargetBound(code, m, n - 1, line);
      }
    }
  }

  /** The block of a bracket loads the current cell, tests it and jumps to
      the label just after the partner bracket: past the matching `]` for a
      `[` (taken on zero), past the matching `[` for a `]` (taken on
      non-zero). A `[` that is never closed has the table's 0 as partner and
      so jumps to label 1. */
  lemma BracketBlock(code: seq<u8>, m: seq<nat>, idx: nat)
    requires ValidTable(code, m) && idx < |code| && IsBracket(code[idx])
    ensures var blk := Block(code[idx], idx, m[idx] + 1);
      |blk| == 5 && blk[..4] == [Label(idx), Op(Blank), Op(LoadCell), Op(TestDl)]
      && (code[idx] == OPEN ==> blk[4].JumpIfZero?) && (code[idx] == CLOSE ==> blk[4].JumpIfNonZero?)
    ensures var t := Block(code[idx], idx, m[idx] + 1)[4].target;
      && (code[idx] == OPEN && !Unclosed(code, idx) ==> Pairs(code, idx, t - 1))
      && (code[idx] == OPEN && Unclosed(code, idx) ==> t == 1)
      && (code[idx] == CLOSE ==> Pairs(code, t - 1, idx))
  {
    assert TableEntry(code, m, idx);
    if code[idx] == OPEN && Unclosed(code, idx) {
      UnclosedHasNoPair(code, idx, m[idx]);
    }
  }

  /** A byte outside the eight commands emits its label and nothing else. */
  lemma IgnoredByteEmitsOnlyLabel(opcode: u8, idx: nat, target: nat)
    requires !(opcode in {RIGHT, LEFT, PLUS, MINUS, DOT, COMMA, OPEN, CLOSE})
    ensures Block(opcode, idx, target) == [Label(idx)]
  {
  }

  predicate IsStackOp(line: AsmLine) { line.Push? || line.Pop? }

  function StackOpOf(line: AsmLine): (ops: seq<AsmLine>)
  {
    if IsStackOp(line) then [line] else []
  }

  /** The pushes and pops of `lines`, in order. */
  function StackOps(lines: seq<AsmLine>): (ops: seq<AsmLine>)
  {
    if lines == [] then [] else StackOps(lines[..|lines| - 1]) + StackOpOf(lines[|lines| - 1])
  }

  lemma {:induction false} StackOpsAppend(a: seq<AsmLine>, b: seq<AsmLine>)
    ensures StackOps(a + b) == StackOps(a) + StackOps(b)
    decreases |b|
  {
    if b == [] {
      assert a + b == a;
    } else {
      assert (a + b)[..|a + b| - 1] == a + b[..|b| - 1];
      StackOpsAppend(a, b[..|b| - 1]);
    }
  }

  lemma {:induction false} NoStackOps(lines: seq<AsmLine>)
    requires forall i :: 0 <= i < |lines| ==> !IsStackOp(lines[i])
    ensures StackOps(lines) == []
    decreases |lines|
  {
    if lines != [] {
      NoStackOps(lines[..|lines| - 1]);
    }
  }

  lemma {:induction false} BlocksKeepStack(code: seq<u8>, m: seq<nat>, n: nat)
    requires n <= |code| == |m|
    ensures forall line :: line in Blocks(code, m, n) ==> !IsStackOp(line)
    decreases n
  {
    if n > 0 {
      BlocksKeepStack(code, m, n - 1);
    }
  }

  /** The program's only stack operations are the three pushes of the
      header and the three pops of the trailer, which restore the registers
      in the reverse order: the stack is balanced on return. */
  lemma ProgramStackBalanced(code: seq<u8>, m: seq<nat>)
    requires |m| == |code|
    ensures StackOps(Program(code, m))
      == [Push(Rdi), Push(Rsi), Push(Rdx), Pop(Rdx), Pop(Rsi), Pop(Rdi)]
  {
    BodyKeepsStack(code, m);
    HeaderStackOps();
    TrailerStackOps(|code|);
    StackOpsAppend3(Header(), Blocks(code, m, |code|), Trailer(|code|));
  }

  lemma BodyKeepsStack(code: seq<u8>, m: seq<nat>)
    requires |m| == |code|
    ensures StackOps(Blocks(code, m, |code|)) == []
  {
    BlocksKeepStack(code, m, |code|);
    NoStackOps(Blocks(code, m, |code|));
  }

  lemma StackOpsAppend3(a: seq<AsmLine>, b: seq<AsmLine>, c: seq<AsmLine>)
    ensures StackOps(a + b + c) == StackOps(a) + StackOps(b) + StackOps(c)
  {
    StackOpsAppend(a + b, c);
    StackOpsAppend(a, b);
  }

  lemma {:induction false} AllStackOps(lines: seq<AsmLine>)
    requires forall i :: 0 <= i < |lines| ==> IsStackOp(lines[i])
    ensures StackOps(lines) == lines
    decreases |lines|
  {
    if lines != [] {
      AllStackOps(lines[..|lines| - 1]);
    }
  }

  lemma HeaderStackOps()
    ensures StackOps(Header()) == [Push(Rdi), Push(Rsi), Push(Rdx)]
  {
    var h := Header();
    assert h == h[..2] + h[2..5] + h[5..];
    StackOpsAppend(h[..2] + h[2..5], h[5..]);
    StackOpsAppend(h[..2], h[2..5]);
    NoStackOps(h[..2]);
    NoStackOps(h[5..]);
    AllStackOps(h[2..5]);
  }

  lemma TrailerStackOps(n: nat)
    ensures StackOps(Trailer(n)) == [Pop(Rdx), Pop(Rsi), Pop(Rdi)]
  {
    var t := Trailer(n);
    assert t == t[..2] + t[2..5] + t[5..];
    StackOpsAppend(t[..2] + t[2..5], t[5..]);
    StackOpsAppend(t[..2], t[2..5]);
    NoStackOps(t[..2]);
    NoStackOps(t[5..]);
    AllStackOps(t[2..5]);
  }

  // -----------------------------------------------------------------------
  // Emission and buffer preparation

  /** The text-emission part of `compile`: brackets are resolved first, and
      on a mismatched `]` no text is produced. */
  method EmitProgram(bytecode: seq<u8>) returns (r: Result<seq<AsmLine>>, ghost table: seq<nat>)
    ensures r.Ok? <==> NeverNegative(bytecode)
    ensures r.Err? ==> r.error == InvalidData(MISMATCHED_BRACKET)
    ensures r.Ok? ==> ValidTable(bytecode, table) && r.value == Program(bytecode, table)
  {
    var gathered := GatherMatchingBrackets(bytecode);
    if gathered.Err? {
      return Err(gathered.error), [];
    }
    var matchingBrackets := gathered.value;
    table := matchingBrackets;
    var program: seq<AsmLine> := [];
    program := program + [Op(Bits64), Op(Start)];
    // save the three registers the emitted code uses; rdi holds the tape address
    program := program + [Push(Rdi)];
    program := program + [Push(Rsi)];
    program := program + [Push(Rdx)];
    // rsi becomes the cursor, starting at the first cell
    program := program + [Op(MovRsiRdi)];
    for idx := 0 to |bytecode|
      invariant program == Header() + Blocks(bytecode, matchingBrackets, idx)
    {
      ghost var before := program;
      program := program + [Label(idx)];
      var opcode := bytecode[idx];
      if opcode == RIGHT {
        program := program + [Op(IncRsi)];
      } else if opcode == LEFT {
        program := program + [Op(DecRsi)];
      } else if opcode == PLUS {
        program := program + [Op(IncCell)];
      } else if opcode == MINUS {
        program := program + [Op(DecCell)];
      } else if opcode == DOT {
        program := program + [Op(Blank), Op(XorEax), Op(IncEax), Op(XorEdi),
                              Op(XorEdx), Op(IncEdx), Op(Syscall)];
      } else if opcode == COMMA {
        program := program + [Op(Blank), Op(XorEax), Op(XorEdi),
                              Op(XorEdx), Op(IncEdx), Op(Syscall)];
      } else if opcode == OPEN {
        program := program + [Op(Blank), Op(LoadCell), Op(TestDl),
                              JumpIfZero(matchingBrackets[idx] + 1)];
      } else if opcode == CLOSE {
        program := program + [Op(Blank), Op(LoadCell), Op(TestDl),
                              JumpIfNonZero(matchingBrackets[idx] + 1)];
      }
      assert program == before + Block(opcode, idx, matchingBrackets[idx] + 1);
    }
    // end label, then restore the saved registers and return
    program := program + [Label(|bytecode|)];
    program := program + [Op(XorEax)];
    program := program + [Pop(Rdx)];
    program := program + [Pop(Rsi)];
    program := program + [Pop(Rdi)];
    program := program + [Op(Ret)];
    return Ok(program), table;
  }

  /** The buffer contents after preparation: the image, then `ret` bytes. */
  function Image(bin: seq<u8>, size: nat): (r: seq<u8>)
    requires |bin| <= size
  {
    bin + seq(size - |bin|, _ => RET)
  }

  /** The image occupies the start of the buffer and every other byte is a
      `ret` instruction. */
  lemma ImageLayout(bin: seq<u8>, size: nat)
    requires |bin| <= size
    ensures |Image(bin, size)| == size && Image(bin, size)[..|bin|] == bin
    ensures forall i :: |bin| <= i < size ==> Image(bin, size)[i] == RET
  {
  }

  /** `fill`: every byte of the buffer becomes `value`. */
  method Fill(buffer: array<u8>, value: u8)
    modifies buffer
    ensures buffer[..] == seq(buffer.Length, _ => value)
  {
    for i := 0 to buffer.Length
      invariant forall j :: 0 <= j < i ==> buffer[j] == value
    {
      buffer[i] := value;
    }
  }

  /** `buffer[..bin.len()].copy_from_slice(&bin)`: the prefix becomes `bin`,
      nothing else changes. */
  method CopyFromSlice(buffer: array<u8>, bin: seq<u8>)
    requires |bin| <= buffer.Length
    modifies buffer
    ensures buffer[..] == bin + old(buffer[|bin|..])
  {
    for i := 0 to |bin|
      invariant buffer[..i] == bin[..i]
      invariant buffer[i..] == old(buffer[i..])
    {
      buffer[i] := bin[i];
      assert buffer[i + 1..] == old(buffer[i + 1..]);
    }
  }

  /** Decimal without leading zeros, as Rust's `{}` on an integer. */
  function Decimal(n: nat): (r: string)
    ensures |r| >= 1 && (n < 10 <==> |r| == 1)
    ensures forall i :: 0 <= i < |r| ==> '0' <= r[i] <= '9'
    decreases n
  {
    if n < 10 then [('0' as int + n) as char] else Decimal(n / 10) + [('0' as int + n % 10) as char]
  }

  /** The panic of `slice[..end]` with `end` past the slice's length `len`:
      Rust names both numbers. */
  function SliceEndPanic(end: nat, len: nat): (e: Error)
  {
    Panic("range end index " + Decimal(end) + " out of range for slice of length " + Decimal(len))
  }

  /** `{}` spellings: a single digit, then carrying into more digits. */
  lemma DecimalExamples()
    ensures Decimal(7) == "7" && Decimal(10) == "10" && Decimal(256) == "256"
    ensures Decimal(40) == "40" && Decimal(32) == "32"
  {
    assert Decimal(10) == Decimal(1) + ['0'];
    assert Decimal(25) == Decimal(2) + ['5'];
    assert Decimal(256) == Decimal(25) + ['6'];
    assert Decimal(40) == Decimal(4) + ['0'];
    assert Decimal(32) == Decimal(3) + ['2'];
  }

  /** The pieces of the 40-into-32 panic message, joined. */
  lemma SliceEndPanicText()
    ensures "range end index " + "40" + " out of range for slice of length " + "32"
      == "range end index 40 out of range for slice of length 32"
  {
  }

  /** The panic of a 40-byte image copied into a 32-byte buffer. */
  lemma SliceEndPanicExample()
    ensures SliceEndPanic(40, 32) == Panic("range end index 40 out of range for slice of length 32")
  {
    DecimalExamples();
    SliceEndPanicText();
  }

  /** `compile`: emit the program, assemble its text with `assemble`, and
      prepare `codeMmap` (whose size the caller chose as 32 bytes per program
      byte). An image larger than the buffer makes the copy panic after the
      fill. */
  method Compile(bytecode: seq<u8>, codeMmap: array<u8>, assemble: string -> seq<u8>)
    returns (r: Result<()>, ghost table: seq<nat>)
    modifies codeMmap
    ensures r.Err? && r.error.InvalidData? <==> !NeverNegative(bytecode)
    ensures !NeverNegative(bytecode) ==>
      r == Err(InvalidData(MISMATCHED_BRACKET)) && codeMmap[..] == old(codeMmap[..])
    ensures NeverNegative(bytecode) ==> ValidTable(bytecode, table)
    ensures NeverNegative(bytecode) ==>
      var bin := assemble(ProgramText(Program(bytecode, table)));
      && (r.Ok? <==> |bin| <= codeMmap.Length)
      && (r.Ok? ==> codeMmap[..] == Image(bin, codeMmap.Length))
      && (r.Err? ==> r.error == SliceEndPanic(|bin|, codeMmap.Length) && codeMmap[..] == seq(codeMmap.Length, _ => RET))
  {
    var emitted;
    emitted, table := EmitProgram(bytecode);
    if emitted.Err? {
      return Err(emitted.error), table;
    }
    var bin := assemble(ProgramText(emitted.value));
    Fill(codeMmap, RET);
    if |bin| > codeMmap.Length {
      return Err(SliceEndPanic(|bin|, codeMmap.Length)), table;
    }
    CopyFromSlice(codeMmap, bin);
    return Ok(()), table;
  }
}
