/** `BrainfuckInterpreter<N>`: a tape of `N` cells updated in place and a
    `MemoryPointer<N>`, and `run`, which lexes the program and executes the
    instructions with a `for` loop. Standard input is the sequence of items
    `stdin().bytes()` would yield, consumed from the front; standard output is
    an answer per `write` call and the bytes it took. */
module Interpreter {
  import opened Prelude
  import opened Lexer
  import opened Pointer
  import opened Semantics

  class BrainfuckInterpreter {
    const N: Usize
    const profile: Profile
    const memory: array<Byte>
    const memoryPointer: MemoryPointer

    /** The tape has `N` cells and the pointer is a `MemoryPointer<N>` of the
        same build. */
    ghost predicate Valid() {
      memory.Length == N && memoryPointer.N == N && memoryPointer.profile == profile
    }

    /** `BrainfuckInterpreter::new`: every cell is 0 and the pointer is at
        cell 0. */
    constructor (N: Usize, profile: Profile)
      ensures Valid() && fresh(memory) && fresh(memoryPointer)
      ensures this.N == N && this.profile == profile
      ensures forall k :: 0 <= k < memory.Length ==> memory[k] == 0
      ensures memoryPointer.pointer == 0
    {
      this.N := N;
      this.profile := profile;
      memory := new Byte[N](_ => 0);
      memoryPointer := new MemoryPointer(N, profile);
    }

    /** `run(program)`: the tape, the pointer, the rest of standard input and
        the bytes written are those `Exec` gives for the lexed program, and the
        outcome says whether every instruction ran or which one panicked. */
    method Run(program: string, input: seq<ReadResult>, stdout: nat -> WriteResult)
      returns (outcome: Outcome, rest: seq<ReadResult>, output: seq<Byte>)
      requires Valid()
      modifies memory, memoryPointer
      ensures var (final, o) := Exec(State(old(memory[..]), old(memoryPointer.pointer), input, [], 0), Lex(program), profile, stdout);
        && outcome == o
        && memory[..] == final.tape
        && memoryPointer.pointer == final.pointer
        && rest == final.input
        && output == final.output
    {
      var instructions := Lex(program);
      ghost var start := State(memory[..], memoryPointer.pointer, input, [], 0);
      var writes: nat := 0;
      rest, output := input, [];
      for i := 0 to |instructions|
        invariant Exec(start, instructions[..i], profile, stdout)
          == (State(memory[..], memoryPointer.pointer, rest, output, writes), Completed)
      {
        ExecNext(start, instructions, i, profile, stdout);
        var p := memoryPointer.pointer;
        match instructions[i] {
          case IncreasePointer =>
            var r := memoryPointer.Add(1);
            if r.Err? {
              return Panicked(r.error, i), rest, output;
            }
          case DecreasePointer =>
            // `subtract(1)` never panics: `1 & N` is at most `N`.
            var _ := memoryPointer.Subtract(1);
          case IncreaseValue =>
            if p >= memory.Length {
              return Panicked(IndexOutOfBounds, i), rest, output;
            }
            if memory[p] + 1 < BYTE_MODULUS {
              memory[p] := memory[p] + 1;
            } else if profile == Debug {
              return Panicked(ArithmeticOverflow, i), rest, output;
            } else {
              memory[p] := 0;
            }
          case DecreaseValue =>
            if p >= memory.Length {
              return Panicked(IndexOutOfBounds, i), rest, output;
            }
            if memory[p] >= 1 {
              memory[p] := memory[p] - 1;
            } else if profile == Debug {
              return Panicked(ArithmeticOverflow, i), rest, output;
            } else {
              memory[p] := BYTE_MODULUS - 1;
            }
          case ReadChar =>
            if rest == [] || rest[0].ReadError? {
              return Panicked(ReadFailed, i), rest, output;
            }
            if p >= memory.Length {
              return Panicked(IndexOutOfBounds, i), rest, output;
            }
            memory[p] := rest[0].byte;
            rest := rest[1..];
          case WriteChar =>
            if p >= memory.Length {
              return Panicked(IndexOutOfBounds, i), rest, output;
            }
            match stdout(writes) {
              case Written =>
                output := output + [memory[p]];
              case WroteNothing =>
              case WriteError =>
                return Panicked(WriteFailed, i), rest, output;
            }
            writes := writes + 1;
          case StartLoop =>
            return Panicked(Unimplemented, i), rest, output;
          case EndLoop =>
            return Panicked(Unimplemented, i), rest, output;
        }
      }
      assert instructions[..|instructions|] == instructions;
      outcome := Completed;
    }
  }
}
