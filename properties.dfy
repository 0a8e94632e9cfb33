/** What one instruction does to the state, what a whole run does, and where
    the pointer can end up, stated about `Step` and `Exec`. */
module Properties {
  import opened Prelude
  import opened Lexer
  import opened Pointer
  import opened Semantics

  /** `IncreaseValue` changes only the addressed cell, by +1; 255 overflows,
      which panics in a Debug build and wraps to 0 in a Release build. A
      pointer past the tape panics before any arithmetic. */
  lemma IncreaseValueStep(s: State, profile: Profile, stdout: nat -> WriteResult)
    requires |s.tape| < USIZE_MODULUS
    ensures var r := Step(s, IncreaseValue, profile, stdout);
      && (s.pointer >= |s.tape| ==> r == Err(IndexOutOfBounds))
      && (s.pointer < |s.tape| && s.tape[s.pointer] == 255 && profile == Debug ==> r == Err(ArithmeticOverflow))
      && (s.pointer < |s.tape| && (s.tape[s.pointer] < 255 || profile == Release) ==>
            && r.Ok? && r.value.pointer == s.pointer && r.value.input == s.input
            && r.value.output == s.output && r.value.writes == s.writes
            && |r.value.tape| == |s.tape|
            && r.value.tape[s.pointer] == (s.tape[s.pointer] as int + 1) % 256
            && forall k :: 0 <= k < |s.tape| && k != s.pointer ==> r.value.tape[k] == s.tape[k])
  {
  }

  /** `DecreaseValue` changes only the addressed cell, by -1; 0 overflows,
      which panics in a Debug build and wraps to 255 in a Release build. */
  lemma DecreaseValueStep(s: State, profile: Profile, stdout: nat -> WriteResult)
    requires |s.tape| < USIZE_MODULUS
    ensures var r := Step(s, DecreaseValue, profile, stdout);
      && (s.pointer >= |s.tape| ==> r == Err(IndexOutOfBounds))
      && (s.pointer < |s.tape| && s.tape[s.pointer] == 0 && profile == Debug ==> r == Err(ArithmeticOverflow))
      && (s.pointer < |s.tape| && (s.tape[s.pointer] > 0 || profile == Release) ==>
            && r.Ok? && r.value.pointer == s.pointer && r.value.input == s.input
            && r.value.output == s.output && r.value.writes == s.writes
            && |r.value.tape| == |s.tape|
            && r.value.tape[s.pointer] == (s.tape[s.pointer] as int + 255) % 256
            && forall k :: 0 <= k < |s.tape| && k != s.pointer ==> r.value.tape[k] == s.tape[k])
  {
  }

  /** The pointer instructions change only the pointer. */
  lemma PointerStepsMoveOnlyThePointer(s: State, i: Instruction, profile: Profile, stdout: nat -> WriteResult)
    requires |s.tape| < USIZE_MODULUS
    requires i == IncreasePointer || i == DecreasePointer
    ensures var r := Step(s, i, profile, stdout);
      r.Ok? ==> r.value == s.(pointer := r.value.pointer)
  {
  }

  /** `WriteChar` hands the addressed cell to standard output and changes no
      cell, pointer or input; the byte is appended when standard output takes
      it, dropped when it answers `Ok(0)`, and an error panics. */
  lemma WriteCharStep(s: State, profile: Profile, stdout: nat -> WriteResult)
    requires |s.tape| < USIZE_MODULUS
    ensures var r := Step(s, WriteChar, profile, stdout);
      && (s.pointer >= |s.tape| ==> r == Err(IndexOutOfBounds))
      && (s.pointer < |s.tape| && stdout(s.writes) == WriteError ==> r == Err(WriteFailed))
      && (s.pointer < |s.tape| && stdout(s.writes) != WriteError ==>
            && r.Ok? && r.value.tape == s.tape && r.value.pointer == s.pointer
            && r.value.input == s.input && r.value.writes == s.writes + 1
            && r.value.output == s.output + (if stdout(s.writes) == Written then [s.tape[s.pointer]] else []))
  {
  }

  /** `ReadChar` stores the next input byte in the addressed cell and consumes
      it; at the end of input, or on an input error, it panics rather than
      leaving the cell unchanged. */
  lemma ReadCharStep(s: State, profile: Profile, stdout: nat -> WriteResult)
    requires |s.tape| < USIZE_MODULUS
    ensures var r := Step(s, ReadChar, profile, stdout);
      && (s.input == [] || s.input[0] == ReadError ==> r == Err(ReadFailed))
      && (s.input != [] && s.input[0].Read? && s.pointer >= |s.tape| ==> r == Err(IndexOutOfBounds))
      && (s.input != [] && s.input[0].Read? && s.pointer < |s.tape| ==>
            && r.Ok? && r.value.pointer == s.pointer && r.value.input == s.input[1..]
            && r.value.output == s.output && r.value.writes == s.writes
            && |r.value.tape| == |s.tape| && r.value.tape[s.pointer] == s.input[0].byte
            && forall k :: 0 <= k < |s.tape| && k != s.pointer ==> r.value.tape[k] == s.tape[k])
  {
  }

  predicate IsBracket(i: Instruction) {
    i == StartLoop || i == EndLoop
  }

  /** A run that completes executed no bracket: the program has none. */
  lemma {:induction false} CompletedRunHasNoBrackets(s: State, program: seq<Instruction>, profile: Profile, stdout: nat -> WriteResult)
    requires |s.tape| < USIZE_MODULUS
    requires Exec(s, program, profile, stdout).1 == Completed
    ensures forall k :: 0 <= k < |program| ==> !IsBracket(program[k])
    decreases |program|
  {
    if program != [] {
      var next := Step(s, program[0], profile, stdout).value;
      CompletedRunHasNoBrackets(next, program[1..], profile, stdout);
      forall k | 0 <= k < |program|
        ensures !IsBracket(program[k])
      {
        if k > 0 {
          assert program[k] == program[1..][k - 1];
        }
      }
    }
  }

  /** The first bracket reached ends the run with `Unimplemented`, after every
      earlier instruction has had its effect. */
  lemma RunStopsAtBracket(s: State, program: seq<Instruction>, k: nat, profile: Profile, stdout: nat -> WriteResult)
    requires |s.tape| < USIZE_MODULUS
    requires k < |program| && IsBracket(program[k])
    requires Exec(s, program[..k], profile, stdout).1 == Completed
    ensures Exec(s, program, profile, stdout) == (Exec(s, program[..k], profile, stdout).0, Panicked(Unimplemented, k))
  {
    ExecNext(s, program, k, profile, stdout);
  }

  /** The same from the program text: whatever follows a `[` or `]`, a run
      that gets through the text before it stops there. */
  lemma RunOfTextStopsAtBracket(s: State, before: string, bracket: char, after: string, profile: Profile, stdout: nat -> WriteResult)
    requires |s.tape| < USIZE_MODULUS
    requires bracket == '[' || bracket == ']'
    requires Exec(s, Lex(before), profile, stdout).1 == Completed
    ensures Exec(s, Lex(before + [bracket] + after), profile, stdout)
         == (Exec(s, Lex(before), profile, stdout).0, Panicked(Unimplemented, |Lex(before)|))
  {
    LexAppend(before + [bracket], after);
    LexAppend(before, [bracket]);
    var p := Lex(before + [bracket] + after);
    var k := |Lex(before)|;
    assert p[..k] == Lex(before);
    RunStopsAtBracket(s, p, k, profile, stdout);
  }

  /** `[-]` never runs its body, whatever the cell holds: the run panics at
      the opening bracket with nothing changed. */
  lemma LoopProgramPanics(s: State, profile: Profile, stdout: nat -> WriteResult)
    requires |s.tape| < USIZE_MODULUS
    ensures Lex("[-]") == [StartLoop, DecreaseValue, EndLoop]
    ensures Exec(s, Lex("[-]"), profile, stdout) == (s, Panicked(Unimplemented, 0))
  {
    assert Lex("[-]") == [StartLoop, DecreaseValue, EndLoop] by {
      assert "[-]"[1..] == "-]";
      assert "-]"[1..] == "]";
    }
  }

  /** `,.` echoes one input byte: it lands in the addressed cell and is then
      written out. */
  lemma ReadThenWriteEchoes(s: State, b: Byte, profile: Profile, stdout: nat -> WriteResult)
    requires |s.tape| < USIZE_MODULUS && s.pointer < |s.tape|
    requires s.input != [] && s.input[0] == Read(b)
    requires stdout(s.writes) == Written
    ensures var (final, o) := Exec(s, Lex(",."), profile, stdout);
      && o == Completed
      && final.output == s.output + [b]
      && final.input == s.input[1..]
      && final.pointer == s.pointer
      && final.tape == s.tape[s.pointer := b]
  {
    assert Lex(",.") == [ReadChar, WriteChar] by {
      assert ",."[1..] == ".";
    }
    var mid := s.(tape := s.tape[s.pointer := b], input := s.input[1..]);
    assert Step(s, ReadChar, profile, stdout) == Ok(mid);
    assert [ReadChar, WriteChar][1..] == [WriteChar];
  }

  /** Where `add(1)` and `subtract(1)` can take the pointer: onto the tape, or
      on a tape of even length also to `N`, one past its end. */
  predicate Reachable(pointer: nat, N: nat) {
    pointer < N || (pointer == N && N % 2 == 0)
  }

  /** Every instruction keeps the pointer reachable; on a tape of odd length it
      stays on the tape, so no instruction panics with `IndexOutOfBounds`. */
  lemma StepKeepsPointerReachable(s: State, i: Instruction, profile: Profile, stdout: nat -> WriteResult)
    requires 0 < |s.tape| < USIZE_MODULUS && Reachable(s.pointer, |s.tape|)
    ensures var r := Step(s, i, profile, stdout);
      && (r.Ok? ==> Reachable(r.value.pointer, |s.tape|))
      && (|s.tape| % 2 == 1 ==> r != Err(IndexOutOfBounds))
  {
    var N := |s.tape|;
    if i == IncreasePointer {
      assert N % 2 == 0 ==> N < USIZE_MODULUS - 1;
    } else if i == DecreasePointer && s.pointer == 0 {
      SubtractOneFromZero(N, profile);
    }
  }

  /** A whole run keeps the pointer reachable; on a tape of odd length the
      pointer never leaves the tape and no run panics with
      `IndexOutOfBounds`. */
  lemma {:induction false} ExecKeepsPointerReachable(s: State, program: seq<Instruction>, profile: Profile, stdout: nat -> WriteResult)
    requires 0 < |s.tape| < USIZE_MODULUS && Reachable(s.pointer, |s.tape|)
    ensures var (final, o) := Exec(s, program, profile, stdout);
      && Reachable(final.pointer, |s.tape|)
      && (|s.tape| % 2 == 1 ==> final.pointer < |s.tape| && !(o.Panicked? && o.reason == IndexOutOfBounds))
    decreases |program|
  {
    if program != [] {
      StepKeepsPointerReachable(s, program[0], profile, stdout);
      match Step(s, program[0], profile, stdout)
      case Err(e) =>
      case Ok(next) =>
        ExecKeepsPointerReachable(next, program[1..], profile, stdout);
    }
  }

  /** On a tape of even length, `<` from cell 0 moves the pointer to `N` and
      the `.` after it panics with `IndexOutOfBounds`, where a circular tape
      would have written cell `N - 1`. */
  lemma LeftThenWriteOnEvenTape(s: State, profile: Profile, stdout: nat -> WriteResult)
    requires 0 < |s.tape| < USIZE_MODULUS && |s.tape| % 2 == 0 && s.pointer == 0
    ensures Exec(s, Lex("<."), profile, stdout) == (s.(pointer := |s.tape|), Panicked(IndexOutOfBounds, 1))
  {
    assert Lex("<.") == [DecreasePointer, WriteChar] by {
      assert "<."[1..] == ".";
    }
    SubtractOneFromZero(|s.tape|, profile);
    assert [DecreasePointer, WriteChar][1..] == [WriteChar];
  }

  /** On a tape of even length, `<>` from cell 0 ends on cell 1, not back on
      cell 0. */
  lemma LeftRightOnEvenTape(s: State, profile: Profile, stdout: nat -> WriteResult)
    requires 0 < |s.tape| < USIZE_MODULUS && |s.tape| % 2 == 0 && s.pointer == 0
    ensures Exec(s, Lex("<>"), profile, stdout) == (s.(pointer := 1), Completed)
  {
    var N := |s.tape|;
    assert Lex("<>") == [DecreasePointer, IncreasePointer] by {
      assert "<>"[1..] == ">";
    }
    SubtractOneFromZero(N, profile);
    assert (N + 1) % N == 1 by { ModUnique(N + 1, N, 1, 1); }
    assert [DecreasePointer, IncreasePointer][1..] == [IncreasePointer];
  }

  /** The run `main` sets up, 30,000 zero cells and the pointer at 0, panics on
      `<.` at the `.`. */
  lemma DemoTapeLeftThenWritePanics(profile: Profile, stdout: nat -> WriteResult)
    ensures var s := State(seq(30000, _ => 0), 0, [], [], 0);
      Exec(s, Lex("<."), profile, stdout).1 == Panicked(IndexOutOfBounds, 1)
  {
    var s := State(seq(30000, _ => 0), 0, [], [], 0);
    LeftThenWriteOnEvenTape(s, profile, stdout);
  }
}
