/** What `BrainfuckInterpreter::run` does, as functions on values: the state
    it works on, the effect of one instruction (one arm of the `match` in the
    `for` loop) and the effect of the whole instruction list executed once,
    front to back, stopping at the first panic. */
module Semantics {
  import opened Prelude
  import opened Lexer
  import opened Pointer

  /** One item of standard input as `stdin().bytes().next()` yields it; the
      end of the sequence is end of input (`None`). */
  datatype ReadResult = Read(byte: Byte) | ReadError

  /** Standard output's answer to `write(&[b])`: `Ok(1)`, `Ok(0)` or `Err`. */
  datatype WriteResult = Written | WroteNothing | WriteError

  /** The tape, the pointer, what is left of standard input, the bytes standard
      output has taken, and how many writes were attempted (which write
      standard output is answering). */
  datatype State = State(tape: seq<Byte>, pointer: Usize, input: seq<ReadResult>, output: seq<Byte>, writes: nat)

  /** How a run ends: every instruction executed, or a panic at the instruction
      with index `at` in the lexed program. */
  datatype Outcome = Completed | Panicked(reason: Panic, at: nat)

  /** An outcome of a program that is preceded by `k` instructions. */
  function Offset(o: Outcome, k: nat): (r: Outcome)
    ensures r.Completed? <==> o.Completed?
    ensures r.Panicked? ==> r.reason == o.reason && r.at == o.at + k
  {
    match o
    case Completed => Completed
    case Panicked(reason, at) => Panicked(reason, at + k)
  }

  /** One arm of the `match` in `run`, with `N == |s.tape|`. The pointer moves
      by one with `add(1)` and `subtract(1)`; the cell operations index the
      tape first and then do `u8` arithmetic; a read takes the next item of
      standard input and panics unless it is a byte; a write indexes the tape
      and panics only when standard output reports an error. */
  function Step(s: State, i: Instruction, profile: Profile, stdout: nat -> WriteResult): (r: Result<State, Panic>)
    requires |s.tape| < USIZE_MODULUS
    ensures r.Ok? ==> |r.value.tape| == |s.tape|
    ensures r.Ok? ==> s.output <= r.value.output
    ensures r.Ok? ==> r.value.input == s.input || (s.input != [] && r.value.input == s.input[1..])
  {
    match i
    case IncreasePointer =>
      (match AddResult(s.pointer, 1, |s.tape|, profile)
       case Ok(p) => Ok(s.(pointer := p))
       case Err(e) => Err(e))
    case DecreasePointer =>
      (match SubtractResult(s.pointer, 1, |s.tape|, profile)
       case Ok(p) => Ok(s.(pointer := p))
       case Err(e) => Err(e))
    case IncreaseValue =>
      (match Index(s.tape, s.pointer)
       case Err(e) => Err(e)
       case Ok(v) =>
         match CheckedAdd(v, 1, BYTE_MODULUS, profile)
         case Err(e) => Err(e)
         case Ok(w) => Ok(s.(tape := s.tape[s.pointer := w])))
    case DecreaseValue =>
      (match Index(s.tape, s.pointer)
       case Err(e) => Err(e)
       case Ok(v) =>
         match CheckedSub(v, 1, BYTE_MODULUS, profile)
         case Err(e) => Err(e)
         case Ok(w) => Ok(s.(tape := s.tape[s.pointer := w])))
    case ReadChar =>
      if |s.input| > 0 && s.input[0].Read? then
        (match IndexMut(s.tape, s.pointer, s.input[0].byte)
         case Err(e) => Err(e)
         case Ok(t) => Ok(s.(tape := t, input := s.input[1..])))
      else Err(ReadFailed)
    case WriteChar =>
      (match Index(s.tape, s.pointer)
       case Err(e) => Err(e)
       case Ok(b) =>
         match stdout(s.writes)
         case Written => Ok(s.(output := s.output + [b], writes := s.writes + 1))
         case WroteNothing => Ok(s.(writes := s.writes + 1))
         case WriteError => Err(WriteFailed))
    case StartLoop => Err(Unimplemented)
    case EndLoop => Err(Unimplemented)
  }

  /** The `for` loop of `run`: each instruction once, in order; the first
      panic ends the run in the state the failing instruction started from. */
  function Exec(s: State, program: seq<Instruction>, profile: Profile, stdout: nat -> WriteResult): (r: (State, Outcome))
    requires |s.tape| < USIZE_MODULUS
    ensures |r.0.tape| == |s.tape|
    ensures s.output <= r.0.output
    ensures r.1.Panicked? ==> r.1.at < |program|
    decreases |program|
  {
    if program == [] then (s, Completed)
    else
      match Step(s, program[0], profile, stdout)
      case Err(e) => (s, Panicked(e, 0))
      case Ok(next) =>
        var (final, o) := Exec(next, program[1..], profile, stdout);
        (final, Offset(o, 1))
  }

  /** Running `p + q` runs `p` and then, if `p` completed, `q` from where `p`
      left off. */
  lemma {:induction false} ExecAppend(s: State, p: seq<Instruction>, q: seq<Instruction>, profile: Profile, stdout: nat -> WriteResult)
    requires |s.tape| < USIZE_MODULUS
    ensures var (mid, o) := Exec(s, p, profile, stdout);
      Exec(s, p + q, profile, stdout) ==
        if o.Completed? then (Exec(mid, q, profile, stdout).0, Offset(Exec(mid, q, profile, stdout).1, |p|))
        else (mid, o)
    decreases |p|
  {
    if p == [] {
      assert p + q == q;
    } else {
      assert (p + q)[0] == p[0];
      assert (p + q)[1..] == p[1..] + q;
      match Step(s, p[0], profile, stdout)
      case Err(e) =>
      case Ok(next) =>
        ExecAppend(next, p[1..], q, profile, stdout);
    }
  }

  /** The loop step of `run`: after the first `i` instructions completed,
      instruction `i` either panics, which ends the whole program there, or
      extends the completed prefix by one. */
  lemma ExecNext(s: State, program: seq<Instruction>, i: nat, profile: Profile, stdout: nat -> WriteResult)
    requires |s.tape| < USIZE_MODULUS && i < |program|
    requires Exec(s, program[..i], profile, stdout).1 == Completed
    ensures var mid := Exec(s, program[..i], profile, stdout).0;
      match Step(mid, program[i], profile, stdout)
      case Err(e) => Exec(s, program, profile, stdout) == (mid, Panicked(e, i))
      case Ok(next) => Exec(s, program[..i + 1], profile, stdout) == (next, Completed)
  {
    assert program == program[..i] + program[i..];
    ExecAppend(s, program[..i], program[i..], profile, stdout);
    assert program[..i + 1] == program[..i] + [program[i]];
    ExecAppend(s, program[..i], [program[i]], profile, stdout);
    assert program[i..][0] == program[i];
  }
}
