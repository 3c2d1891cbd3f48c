/** The emulated engine of src/interpreter.rs: an `Interpreter` object whose
    fields (instruction pointer, tape, tape cursor, jump table) are updated
    in place by `run_one`, driven by the `while ip < len` loop of `run`.

    Standard input is modelled as the finite byte sequence still to be read,
    standard output as the bytes written so far. */
module Interpreter {
  import opened Common
  import opened Brackets

  const MISSING_ENTRY: string := "called `Option::unwrap()` on a `None` value"

  // -----------------------------------------------------------------------
  // Output encoding

  /** The bytes `print!("{}", b as char)` writes for the cell value `b`: the
      UTF-8 encoding of the code point U+0000..U+00FF. */
  function Utf8Of(b: u8): (r: seq<u8>)
  {
    if b < 0x80 then [b] else [(0xC0 + b as int / 64) as u8, (0x80 + b as int % 64) as u8]
  }

  /** Reads one code point below U+0100 back from its UTF-8 bytes. */
  function DecodeUtf8Byte(bs: seq<u8>): (r: Option<u8>)
  {
    if |bs| == 1 && bs[0] < 0x80 then Some(bs[0])
    else if |bs| == 2 && 0xC0 <= bs[0] < 0xC4 && 0x80 <= bs[1] < 0xC0 then
      Some(((bs[0] as int - 0xC0) * 64 + (bs[1] as int - 0x80)) as u8)
    else None
  }

  /** Every cell value is written as one or two bytes from which it can be
      read back; only values below 0x80 are written as themselves. */
  lemma Utf8RoundTrip(b: u8)
    ensures DecodeUtf8Byte(Utf8Of(b)) == Some(b)
    ensures (|Utf8Of(b)| == 1) <==> b < 0x80
  {
  }

  // -----------------------------------------------------------------------
  // One step, as a function of the machine state

  /** The part of the interpreter state that `run_one` and `run` change. */
  datatype Machine = Machine(ip: nat, ptr: nat, tape: seq<u8>, input: seq<u8>, output: seq<u8>)

  function WrappingAdd(b: u8, d: int): (r: u8) { ((b as int + d) % 256) as u8 }

  /** The jump table holds only genuine pairs. */
  ghost predicate TablePaired(code: seq<u8>, table: map<nat, nat>)
  {
    forall k :: k in table ==> PairedWith(code, k, table[k])
  }

  /** The jump table holds every matched bracket. */
  ghost predicate TableCovers(code: seq<u8>, table: map<nat, nat>)
  {
    forall k :: 0 <= k < |code| && IsBracket(code[k]) && !Unclosed(code, k) ==> k in table
  }

  /** The map built by the interpreter's resolver holds exactly the nonzero
      information of the vector built by `gather_matching_brackets` in
      src/utils.rs: the same partner for every key, and the vector's 0 for
      every position without a key. */
  lemma MapMatchesVector(code: seq<u8>, m: seq<nat>, mb: map<nat, nat>)
    requires ValidTable(code, m) && TablePaired(code, mb) && TableCovers(code, mb)
    ensures forall k :: k in mb ==> k < |code| && mb[k] == m[k]
    ensures forall k :: 0 <= k < |code| && k !in mb ==> m[k] == 0
  {
    forall k | k in mb
      ensures k < |code| && mb[k] == m[k]
    {
      var v := mb[k];
      assert PairedWith(code, k, v);
      assert TableEntry(code, m, k);
      if Pairs(code, k, v) {
        if Unclosed(code, k) {
          UnclosedHasNoPair(code, k, v);
        }
        MatchUnique(code, k, v, m[k]);
      } else {
        OpenUnique(code, v, m[k], k);
      }
    }
    forall k | 0 <= k < |code| && k !in mb
      ensures m[k] == 0
    {
      assert TableEntry(code, m, k);
      if code[k] == OPEN {
        UnclosedHasNoPair(code, k, m[k]);
      }
    }
  }

  /** `run_one`: executes the instruction at `s.ip`; the result's `ip` is the
      instruction pointer `run_one` returns. */
  function Step(code: seq<u8>, table: map<nat, nat>, s: Machine): (r: Result<Machine>)
    requires s.ip < |code| && s.ptr < |s.tape|
    ensures r.Ok? ==> |r.value.tape| == |s.tape| && r.value.ptr < |s.tape|
    ensures r.Ok? ==> forall j :: 0 <= j < |s.tape| && j != s.ptr ==> r.value.tape[j] == s.tape[j]
  {
    var cell := s.tape[s.ptr];
    var opcode := code[s.ip];
    if opcode == RIGHT then
      Ok(s.(ip := s.ip + 1, ptr := (s.ptr + 1) % |s.tape|))
    else if opcode == LEFT then
      Ok(s.(ip := s.ip + 1, ptr := (s.ptr - 1) % |s.tape|))
    else if opcode == PLUS then
      Ok(s.(ip := s.ip + 1, tape := s.tape[s.ptr := WrappingAdd(cell, 1)]))
    else if opcode == MINUS then
      Ok(s.(ip := s.ip + 1, tape := s.tape[s.ptr := WrappingAdd(cell, -1)]))
    else if opcode == DOT then
      Ok(s.(ip := s.ip + 1, output := s.output + Utf8Of(cell)))
    else if opcode == COMMA then
      if s.input == [] then Err(UnexpectedEof(NO_INPUT))
      else Ok(s.(ip := s.ip + 1, tape := s.tape[s.ptr := s.input[0]], input := s.input[1..]))
    else if (opcode == OPEN && cell == 0) || (opcode == CLOSE && cell != 0) then
      if s.ip in table then Ok(s.(ip := table[s.ip] + 1)) else Err(Panic(MISSING_ENTRY))
    else
      Ok(s.(ip := s.ip + 1))
  }

  /** `>` and `<` move the cursor around a ring of `|tape|` cells. */
  lemma StepMovesOnRing(code: seq<u8>, table: map<nat, nat>, s: Machine)
    requires s.ip < |code| && s.ptr < |s.tape|
    ensures code[s.ip] == RIGHT ==>
      (Step(code, table, s).Ok?
       && Step(code, table, s).value.ptr == if s.ptr == |s.tape| - 1 then 0 else s.ptr + 1)
    ensures code[s.ip] == LEFT ==>
      (Step(code, table, s).Ok?
       && Step(code, table, s).value.ptr == if s.ptr == 0 then |s.tape| - 1 else s.ptr - 1)
    ensures code[s.ip] in {RIGHT, LEFT} ==> Step(code, table, s).value.tape == s.tape
  {
  }

  /** `+` and `-` change the current cell by one modulo 256 (255 + 1 = 0 and
      0 - 1 = 255) and leave the cursor where it is. */
  lemma StepArithmeticWraps(code: seq<u8>, table: map<nat, nat>, s: Machine)
    requires s.ip < |code| && s.ptr < |s.tape| && code[s.ip] in {PLUS, MINUS}
    ensures Step(code, table, s).Ok?
    ensures var t := Step(code, table, s).value;
      t.ptr == s.ptr && t.ip == s.ip + 1 &&
      (code[s.ip] == PLUS ==> t.tape[s.ptr] == if s.tape[s.ptr] == 255 then 0 else s.tape[s.ptr] + 1) &&
      (code[s.ip] == MINUS ==> t.tape[s.ptr] == if s.tape[s.ptr] == 0 then 255 else s.tape[s.ptr] - 1)
  {
  }

  /** `,` fails with an end-of-input error when nothing is left to read;
      otherwise it stores the next input byte in the current cell only. */
  lemma StepReadsInput(code: seq<u8>, table: map<nat, nat>, s: Machine)
    requires s.ip < |code| && s.ptr < |s.tape| && code[s.ip] == COMMA
    ensures s.input == [] <==> Step(code, table, s) == Err(UnexpectedEof(NO_INPUT))
    ensures s.input != [] ==>
      (Step(code, table, s)
       == Ok(s.(ip := s.ip + 1, tape := s.tape[s.ptr := s.input[0]], input := s.input[1..])))
  {
  }

  /** `.` and every byte outside the eight commands leave tape and cursor
      alone and go on with the next instruction. */
  lemma StepOthersAdvance(code: seq<u8>, table: map<nat, nat>, s: Machine)
    requires s.ip < |code| && s.ptr < |s.tape|
    requires !(code[s.ip] in {RIGHT, LEFT, PLUS, MINUS, COMMA, OPEN, CLOSE})
    ensures Step(code, table, s).Ok?
    ensures var t := Step(code, table, s).value;
      t.ip == s.ip + 1 && t.ptr == s.ptr && t.tape == s.tape && t.input == s.input
    ensures Step(code, table, s).value.output
      == if code[s.ip] == DOT then s.output + Utf8Of(s.tape[s.ptr]) else s.output
  {
  }

  /** A taken branch with a map entry lands just after the matching bracket:
      `[` on a zero cell skips the loop body, `]` on a non-zero cell repeats
      it. An untaken bracket advances by one without reading the map, so
      this holds for a `[` that is never closed as well. */
  lemma StepJumpsPastMatch(code: seq<u8>, table: map<nat, nat>, s: Machine)
    requires s.ip < |code| && s.ptr < |s.tape| && TablePaired(code, table)
    ensures s.ip in table && code[s.ip] == OPEN && s.tape[s.ptr] == 0 ==>
      Step(code, table, s).Ok? && Pairs(code, s.ip, Step(code, table, s).value.ip - 1)
    ensures s.ip in table && code[s.ip] == CLOSE && s.tape[s.ptr] != 0 ==>
      Step(code, table, s).Ok? && Pairs(code, Step(code, table, s).value.ip - 1, s.ip)
    ensures code[s.ip] == OPEN && s.tape[s.ptr] != 0 ==> Step(code, table, s) == Ok(s.(ip := s.ip + 1))
    ensures code[s.ip] == CLOSE && s.tape[s.ptr] == 0 ==> Step(code, table, s) == Ok(s.(ip := s.ip + 1))
  {
  }

  /** With a table of genuine pairs, every jump target `matching + 1` is at
      most the program length. */
  lemma StepStaysInProgram(code: seq<u8>, table: map<nat, nat>, s: Machine)
    requires s.ip < |code| && s.ptr < |s.tape| && TablePaired(code, table)
    ensures Step(code, table, s).Ok? ==> Step(code, table, s).value.ip <= |code|
  {
  }

  /** With a complete table, the missing-entry panic happens only at a `[`
      that is never closed, met on a zero cell. */
  lemma PanicOnlyAtUnclosedOpen(code: seq<u8>, table: map<nat, nat>, s: Machine)
    requires s.ip < |code| && s.ptr < |s.tape| && TableCovers(code, table)
    requires Step(code, table, s).Err? && Step(code, table, s).error.Panic?
    ensures code[s.ip] == OPEN && s.tape[s.ptr] == 0 && Unclosed(code, s.ip)
  {
  }

  // -----------------------------------------------------------------------
  // Running to completion, bounded by fuel

  datatype Execution =
    | Finished(state: Machine)
    | Failed(error: Error, state: Machine)
    | Exhausted(state: Machine)

  /** `run`'s loop: step while `ip < |code|`, stop at the first error; at
      most `fuel` steps are taken. */
  function Execute(code: seq<u8>, table: map<nat, nat>, s: Machine, fuel: nat): (r: Execution)
    requires s.ptr < |s.tape|
    ensures |r.state.tape| == |s.tape| && r.state.ptr < |s.tape|
    decreases fuel
  {
    if s.ip >= |code| then Finished(s)
    else if fuel == 0 then Exhausted(s)
    else match Step(code, table, s)
      case Err(e) => Failed(e, s)
      case Ok(s') => Execute(code, table, s', fuel - 1)
  }

  /** Fuel only bounds the run: a run that ends (normally or with an error)
      ends the same way with more fuel. */
  lemma {:induction false} ExecuteMoreFuel(code: seq<u8>, table: map<nat, nat>, s: Machine, fuel: nat, more: nat)
    requires s.ptr < |s.tape| && !Execute(code, table, s, fuel).Exhausted?
    ensures Execute(code, table, s, fuel + more) == Execute(code, table, s, fuel)
    decreases fuel
  {
    if s.ip < |code| && fuel > 0 {
      match Step(code, table, s)
      case Err(_) =>
      case Ok(s') => ExecuteMoreFuel(code, table, s', fuel - 1, more);
    }
  }

  /** A finished run stops exactly at the end of the program, and a failed
      run stops at an instruction whose step reports that error. */
  lemma {:induction false} ExecuteStopsAtEnd(code: seq<u8>, table: map<nat, nat>, s: Machine, fuel: nat)
    requires s.ptr < |s.tape| && s.ip <= |code| && TablePaired(code, table)
    ensures Execute(code, table, s, fuel).Finished? ==> Execute(code, table, s, fuel).state.ip == |code|
    ensures Execute(code, table, s, fuel).Failed? ==>
      var r := Execute(code, table, s, fuel);
      r.state.ip < |code| && r.state.ptr < |r.state.tape| && Step(code, table, r.state) == Err(r.error)
    decreases fuel
  {
    if s.ip < |code| && fuel > 0 {
      StepStaysInProgram(code, table, s);
      match Step(code, table, s)
      case Err(_) =>
      case Ok(s') => ExecuteStopsAtEnd(code, table, s', fuel - 1);
    }
  }

  /** `,.` copies one input byte to the output. */
  lemma CopyOneByte()
    ensures Execute([COMMA, DOT], map[], Machine(0, 0, [0], [65], []), 2)
      == Finished(Machine(2, 0, [65], [], [65]))
  {
  }

  // -----------------------------------------------------------------------
  // The interpreter object

  datatype RunOutcome = Done | Aborted(error: Error) | OutOfFuel

  /** During the map-building scan, every bracket before `idx` that is no
      longer pending has the entry the vector table gives it. */
  ghost predicate Mirrors(code: seq<u8>, idx: nat, stack: seq<nat>, table: seq<nat>, mb: map<nat, nat>)
  {
    |table| == |code| && idx <= |code|
    && forall k :: 0 <= k < idx && IsBracket(code[k]) && k !in stack ==> k in mb && mb[k] == table[k]
  }

  lemma MirrorsAfterPush(code: seq<u8>, idx: nat, stack: seq<nat>, table: seq<nat>, mb: map<nat, nat>)
    requires Mirrors(code, idx, stack, table, mb) && idx < |code|
    ensures Mirrors(code, idx + 1, stack + [idx], table, mb)
  {
  }

  lemma MirrorsAfterOther(code: seq<u8>, idx: nat, stack: seq<nat>, table: seq<nat>, mb: map<nat, nat>)
    requires Mirrors(code, idx, stack, table, mb) && idx < |code| && !IsBracket(code[idx])
    ensures Mirrors(code, idx + 1, stack, table, mb)
  {
  }

  lemma MirrorsAfterPop(code: seq<u8>, idx: nat, stack: seq<nat>, table: seq<nat>, mb: map<nat, nat>, p: nat)
    requires Mirrors(code, idx, stack + [p], table, mb) && idx < |code| && p < idx
    ensures Mirrors(code, idx + 1, stack, table[p := idx][idx := p], mb[p := idx][idx := p])
  {
    forall k | 0 <= k < idx + 1 && IsBracket(code[k]) && k !in stack
      ensures k in mb[p := idx][idx := p] && mb[p := idx][idx := p][k] == table[p := idx][idx := p][k]
    {
      if k != p && k != idx {
        assert k !in stack + [p];
      }
    }
  }

  /** One scan step at a `[`: the loop invariants hold after the push. */
  lemma OpenStep(code: seq<u8>, idx: nat, stack: seq<nat>, table: seq<nat>, mb: map<nat, nat>)
    requires ScanInvariant(code, idx, stack, table) && Mirrors(code, idx, stack, table, mb)
    requires idx < |code| && code[idx] == OPEN
    ensures ScanInvariant(code, idx + 1, stack + [idx], table)
    ensures Mirrors(code, idx + 1, stack + [idx], table, mb)
  {
    ScanOpen(code, idx, idx + 1, stack, table);
    MirrorsAfterPush(code, idx, stack, table, mb);
  }

  /** One scan step at a byte that is not a bracket. */
  lemma OtherStep(code: seq<u8>, idx: nat, stack: seq<nat>, table: seq<nat>, mb: map<nat, nat>)
    requires ScanInvariant(code, idx, stack, table) && Mirrors(code, idx, stack, table, mb)
    requires idx < |code| && !IsBracket(code[idx])
    ensures ScanInvariant(code, idx + 1, stack, table)
    ensures Mirrors(code, idx + 1, stack, table, mb)
  {
    ScanOther(code, idx, idx + 1, stack, table);
    MirrorsAfterOther(code, idx, stack, table, mb);
  }

  /** One scan step at a `]` with a pending `[`: the two form a pair, and
      the invariants hold after the pop and the two insertions. */
  lemma CloseStep(code: seq<u8>, idx: nat, stack: seq<nat>, table: seq<nat>, mb: map<nat, nat>)
    requires ScanInvariant(code, idx, stack, table) && Mirrors(code, idx, stack, table, mb)
    requires idx < |code| && code[idx] == CLOSE && stack != []
    ensures var p, rest := stack[|stack| - 1], stack[..|stack| - 1];
      && p < idx && Pairs(code, p, idx)
      && ScanInvariant(code, idx + 1, rest, table[p := idx][idx := p])
      && Mirrors(code, idx + 1, rest, table[p := idx][idx := p], mb[p := idx][idx := p])
  {
    var p, rest := stack[|stack| - 1], stack[..|stack| - 1];
    ScanClose(code, idx, idx + 1, stack, table);
    assert stack == rest + [p];
    MirrorsAfterPop(code, idx, rest, table, mb, p);
    assert ScannedEntry(code, rest, table[p := idx][idx := p], idx + 1, idx);
  }

  class Interpreter {
    const bytecode: seq<u8>
    var ip: nat
    const memory: array<u8>
    var ptr: nat
    var matchingBrackets: map<nat, nat>
    var input: seq<u8>
    var output: seq<u8>

    ghost predicate Valid()
      reads this
    {
      memory.Length > 0 && ptr < memory.Length && ip <= |bytecode|
      && TablePaired(bytecode, matchingBrackets)
    }

    function State(): (machine: Machine)
      reads this, memory
    {
      Machine(ip, ptr, memory[..], input, output)
    }

    /** `Interpreter::new`: a zeroed tape of `memorySize` cells, cursor and
        instruction pointer at 0, empty jump table. */
    constructor (bytecode: seq<u8>, memorySize: nat, input: seq<u8>)
      requires memorySize > 0
      ensures Valid() && fresh(memory)
      ensures this.bytecode == bytecode && matchingBrackets == map[]
      ensures State() == Machine(0, 0, seq(memorySize, _ => 0), input, [])
    {
      this.bytecode := bytecode;
      ip := 0;
      memory := new u8[memorySize](_ => 0);
      ptr := 0;
      matchingBrackets := map[];
      this.input := input;
      output := [];
    }

    /** The resolver kept as a method: pairs are inserted into the map field,
        in both directions. Entries already present are never altered. */
    method GatherMatchingBrackets() returns (r: Result<()>)
      requires Valid()
      modifies this`matchingBrackets
      ensures Valid() && State() == old(State())
      ensures r.Ok? <==> NeverNegative(bytecode)
      ensures r.Err? ==> r.error == InvalidData(MISMATCHED_BRACKET)
      ensures forall k :: k in old(matchingBrackets) ==>
        k in matchingBrackets && matchingBrackets[k] == old(matchingBrackets)[k]
      ensures r.Ok? ==> TableCovers(bytecode, matchingBrackets)
    {
      var bracketsQueue: seq<nat> := [];
      ghost var table: seq<nat> := seq(|bytecode|, _ => 0);
      ScanStart(bytecode);
      for idx := 0 to |bytecode|
        invariant ScanInvariant(bytecode, idx, bracketsQueue, table)
        invariant Valid()
        invariant forall k :: k in old(matchingBrackets) ==>
          k in matchingBrackets && matchingBrackets[k] == old(matchingBrackets)[k]
        invariant Mirrors(bytecode, idx, bracketsQueue, table, matchingBrackets)
      {
        var opcode := bytecode[idx];
        if opcode == OPEN {
          OpenStep(bytecode, idx, bracketsQueue, table, matchingBrackets);
          bracketsQueue := bracketsQueue + [idx];
        } else if opcode == CLOSE {
          if bracketsQueue == [] {
            ScanExcessClose(bytecode, idx, table);
            return Err(InvalidData(MISMATCHED_BRACKET));
          }
          CloseStep(bytecode, idx, bracketsQueue, table, matchingBrackets);
          var lastBracket := bracketsQueue[|bracketsQueue| - 1];
          bracketsQueue := bracketsQueue[..|bracketsQueue| - 1];
          InsertPair(lastBracket, idx);
          table := table[lastBracket := idx][idx := lastBracket];
        } else {
          OtherStep(bytecode, idx, bracketsQueue, table, matchingBrackets);
        }
      }
      ScanFinish(bytecode, bracketsQueue, table);
      return Ok(());
    }

    /** Records the pair (open, close) in both directions; a key already
        present holds the same partner, since partners are unique. */
    method InsertPair(open: nat, close: nat)
      requires Valid() && Pairs(bytecode, open, close)
      modifies this`matchingBrackets
      ensures Valid()
      ensures matchingBrackets == old(matchingBrackets)[open := close][close := open]
      ensures forall k :: k in old(matchingBrackets) ==>
        k in matchingBrackets && matchingBrackets[k] == old(matchingBrackets)[k]
    {
      if open in matchingBrackets {
        assert PairedWith(bytecode, open, matchingBrackets[open]);
        MatchUnique(bytecode, open, matchingBrackets[open], close);
      }
      if close in matchingBrackets {
        assert PairedWith(bytecode, close, matchingBrackets[close]);
        OpenUnique(bytecode, matchingBrackets[close], open, close);
      }
      matchingBrackets := matchingBrackets[open := close];
      matchingBrackets := matchingBrackets[close := open];
    }

    /** `run_one`: executes the instruction at `ip`, updating cursor, tape and
        the input and output streams, and returns the next instruction
        pointer. On an error nothing has changed. */
    method RunOne() returns (r: Result<nat>)
      requires Valid() && ip < |bytecode|
      modifies this`ptr, this`input, this`output, memory
      ensures Valid()
      ensures var s := Step(bytecode, matchingBrackets, old(State()));
        && (r.Ok? <==> s.Ok?)
        && (s.Ok? ==> r.value == s.value.ip && State() == s.value.(ip := old(ip)))
        && (s.Err? ==> r.error == s.error && State() == old(State()))
    {
      var opcode := bytecode[ip];
      if opcode == RIGHT {
        ptr := (ptr + 1) % memory.Length;
      } else if opcode == LEFT {
        ptr := (ptr - 1) % memory.Length;
      } else if opcode == PLUS {
        memory[ptr] := WrappingAdd(memory[ptr], 1);
      } else if opcode == MINUS {
        memory[ptr] := WrappingAdd(memory[ptr], -1);
      } else if opcode == DOT {
        output := output + Utf8Of(memory[ptr]);
      } else if opcode == COMMA {
        if input == [] {
          return Err(UnexpectedEof(NO_INPUT));
        }
        memory[ptr] := input[0];
        input := input[1..];
      } else if opcode == OPEN {
        if memory[ptr] == 0 {
          if ip !in matchingBrackets {
            return Err(Panic(MISSING_ENTRY));
          }
          return Ok(matchingBrackets[ip] + 1);
        }
      } else if opcode == CLOSE {
        if memory[ptr] != 0 {
          if ip !in matchingBrackets {
            return Err(Panic(MISSING_ENTRY));
          }
          return Ok(matchingBrackets[ip] + 1);
        }
      }
      return Ok(ip + 1);
    }

    /** `Runner::run`: resolve the brackets first, then step while
        `ip < |bytecode|`, stopping at the first error.
        At most `fuel` steps are taken. */
    method Run(fuel: nat) returns (r: RunOutcome)
      requires Valid()
      modifies this`ip, this`ptr, this`input, this`output, this`matchingBrackets, memory
      ensures Valid()
      ensures !NeverNegative(bytecode) ==>
        r == Aborted(InvalidData(MISMATCHED_BRACKET)) && State() == old(State())
      ensures NeverNegative(bytecode) ==> TableCovers(bytecode, matchingBrackets)
      ensures NeverNegative(bytecode) ==>
        match Execute(bytecode, matchingBrackets, old(State()), fuel)
        case Finished(s) => r == Done && State() == s
        case Failed(e, s) => r == Aborted(e) && State() == s
        case Exhausted(s) => r == OutOfFuel && State() == s
    {
      var gathered := GatherMatchingBrackets();
      if gathered.Err? {
        return Aborted(gathered.error);
      }
      ghost var start := State();
      var used: nat := 0;
      while ip < |bytecode|
        invariant Valid() && used <= fuel
        invariant TableCovers(bytecode, matchingBrackets)
        invariant Execute(bytecode, matchingBrackets, start, fuel)
          == Execute(bytecode, matchingBrackets, State(), fuel - used)
        decreases fuel - used
      {
        if used == fuel {
          return OutOfFuel;
        }
        ghost var before := State();
        var next := RunOne();
        if next.Err? {
          return Aborted(next.error);
        }
        StepStaysInProgram(bytecode, matchingBrackets, before);
        ip := next.value;
        used := used + 1;
      }
      return Done;
    }
  }
}
