/** The lexer: `Instruction::try_from` maps one character to one of the eight
    instructions or to an `InvalidCharacterError`, and `run` keeps the
    successes of that mapping over the program text, in order
    (`filter_map(|c| Instruction::try_from(c).ok())`). */
module Lexer {
  import opened Prelude

  datatype Instruction =
    | IncreasePointer
    | DecreasePointer
    | IncreaseValue
    | DecreaseValue
    | StartLoop
    | EndLoop
    | ReadChar
    | WriteChar

  /** The error `try_from` returns for a character with no instruction. */
  datatype InvalidCharacterError = InvalidCharacterError(character: char)

  /** The eight command characters. */
  const COMMANDS: string := "><+-[],."

  predicate IsCommand(c: char) {
    c in COMMANDS
  }

  /** The character an instruction is written as: the inverse of `TryFrom`. */
  function Symbol(i: Instruction): (c: char)
    ensures IsCommand(c)
  {
    match i
    case IncreasePointer => '>'
    case DecreasePointer => '<'
    case IncreaseValue => '+'
    case DecreaseValue => '-'
    case StartLoop => '['
    case EndLoop => ']'
    case ReadChar => ','
    case WriteChar => '.'
  }

  /** `Instruction::try_from(c)`: succeeds exactly on the command characters,
      with the instruction written as `c`, and otherwise reports `c`. */
  function TryFrom(c: char): (r: Result<Instruction, InvalidCharacterError>)
    ensures r.Ok? <==> IsCommand(c)
    ensures r.Ok? ==> Symbol(r.value) == c
    ensures r.Err? ==> r.error == InvalidCharacterError(c)
  {
    match c
    case '>' => Ok(IncreasePointer)
    case '<' => Ok(DecreasePointer)
    case '+' => Ok(IncreaseValue)
    case '-' => Ok(DecreaseValue)
    case '[' => Ok(StartLoop)
    case ']' => Ok(EndLoop)
    case ',' => Ok(ReadChar)
    case '.' => Ok(WriteChar)
    case _ => Err(InvalidCharacterError(c))
  }

  /** Every instruction is recognised from its own symbol. */
  lemma TryFromSymbol(i: Instruction)
    ensures TryFrom(Symbol(i)) == Ok(i)
  {
    match i
    case IncreasePointer =>
    case DecreasePointer =>
    case IncreaseValue =>
    case DecreaseValue =>
    case StartLoop =>
    case EndLoop =>
    case ReadChar =>
    case WriteChar =>
  }

  /** The instruction list `run` builds from the program text. */
  function Lex(program: string): (r: seq<Instruction>)
    ensures |r| <= |program|
  {
    if program == [] then []
    else
      match TryFrom(program[0])
      case Ok(i) => [i] + Lex(program[1..])
      case Err(_) => Lex(program[1..])
  }

  /** The command characters of `s`, in order: an independent reference for
      what the lexer keeps. */
  function Commands(s: string): (r: string)
    ensures |r| <= |s|
    ensures forall k :: 0 <= k < |r| ==> IsCommand(r[k])
  {
    if s == [] then []
    else if IsCommand(s[0]) then [s[0]] + Commands(s[1..])
    else Commands(s[1..])
  }

  /** A program written out character by character. */
  function Symbols(p: seq<Instruction>): (r: string)
    ensures |r| == |p|
    ensures forall k :: 0 <= k < |p| ==> r[k] == Symbol(p[k])
  {
    if p == [] then [] else [Symbol(p[0])] + Symbols(p[1..])
  }

  /** Lexing keeps exactly the command characters, in their order, each as
      the instruction it denotes. */
  lemma {:induction false} LexKeepsCommands(s: string)
    ensures Symbols(Lex(s)) == Commands(s)
  {
    if s != [] {
      LexKeepsCommands(s[1..]);
      match TryFrom(s[0])
      case Ok(i) =>
        assert Symbols([i] + Lex(s[1..])) == [Symbol(i)] + Symbols(Lex(s[1..]));
      case Err(_) =>
    }
  }

  /** The number of instructions is the number of command characters: every
      other character contributes nothing. */
  lemma LexLength(s: string)
    ensures |Lex(s)| == |Commands(s)|
  {
    LexKeepsCommands(s);
  }

  /** A text without command characters lexes to the empty program. */
  lemma {:induction false} LexIgnoresComments(s: string)
    requires forall k :: 0 <= k < |s| ==> !IsCommand(s[k])
    ensures Lex(s) == []
  {
    if s != [] {
      LexIgnoresComments(s[1..]);
    }
  }

  /** Lexing a concatenation lexes the parts independently. */
  lemma {:induction false} LexAppend(a: string, b: string)
    ensures Lex(a + b) == Lex(a) + Lex(b)
  {
    if a == [] {
      assert a + b == b;
    } else {
      assert (a + b)[0] == a[0];
      assert (a + b)[1..] == a[1..] + b;
      LexAppend(a[1..], b);
    }
  }

  /** Writing a program out and lexing it again gives the program back. */
  lemma {:induction false} LexSymbols(p: seq<Instruction>)
    ensures Lex(Symbols(p)) == p
  {
    if p != [] {
      var s := Symbols(p);
      assert s[0] == Symbol(p[0]);
      assert s[1..] == Symbols(p[1..]);
      TryFromSymbol(p[0]);
      LexSymbols(p[1..]);
    }
  }
}
