# brainf-rs interpreter core, modelled in Dafny

brainf-rs is a small Brainfuck interpreter written in Rust. It has three parts:

- a lexer (`Instruction::try_from` and the `filter_map` in `run`);
- a wrapping tape pointer (`MemoryPointer<N>` with `add`, `subtract` and the `Index`/`IndexMut` impls on `[u8; N]`);
- the engine (`BrainfuckInterpreter<N>`), which owns a `[u8; N]` tape and a pointer.

`run` lexes the program text and executes each instruction once, in order, with a `for` loop. Pointer moves, cell increment and decrement, one-byte reads and one-byte writes are implemented. `[` and `]` reach `unimplemented!()`. There is no program counter and no jump table.

The model is organised as follows:

- `prelude.dfy` (module `Prelude`): Rust's `u8` and `usize` (64-bit target). It also has the build profile. In `Debug`, overflow checks are on and an overflowing `+`/`-` panics. In `Release`, it wraps. Finally it has the panics, and bitwise AND on naturals (`BitAnd`).
- `lexer.dfy` (module `Lexer`): the instruction datatype, `TryFrom`, `Lex`, and their inverse `Symbol`/`Symbols`.
- `memory_pointer.dfy` (module `Pointer`): what `add` and `subtract` compute (`AddResult`, `SubtractResult`), and the class `MemoryPointer`. The class's methods update `pointer` in place. The module also has the two index impls and the corrected retreat `WrappingSubtract`.
- `semantics.dfy` (module `Semantics`): the interpreter state as a value and one instruction (`Step`). `Exec` is the whole loop.
- `interpreter.dfy` (module `Interpreter`): the class `BrainfuckInterpreter`, with the tape as an `array<Byte>` updated in place. `Run` is a `for` loop proved equal to `Exec` of the lexed program.
- `properties.dfy` (module `Properties`): what each instruction does, where a run stops, and where the pointer can go.

I/O is given as parameters:

- Standard input is the sequence of items `stdin().bytes()` yields. Each item is a byte or an error, and the end of the sequence is end of input.
- Standard output is a function giving its answer to the k-th `write` call: `Ok(1)`, `Ok(0)` or `Err`.

Every Rust panic becomes the outcome `Panicked(reason, at)` returned to the caller. `at` is the index of the failing instruction in the lexed program.

## Model

| member | source | states |
|---|---|---|
| `Prelude.CheckedAdd` | src/main.rs:33 | `a + b` on an unsigned type: an overflow error exactly when the build is Debug and the sum does not fit; otherwise the sum modulo the type's size |
| `Prelude.CheckedSub` | src/main.rs:34 | `a - b` on an unsigned type: an overflow error exactly when the build is Debug and `b > a`; otherwise the value that gives back `a` when `b` is added modulo the type's size |
| `Prelude.BitAnd` | src/main.rs:74 | `n & N` is at most `n` and at most `N` |
| `Prelude.BitAndOne` | src/main.rs:74 | `1 & N` is `N % 2` |
| `Lexer.TryFrom` | src/main.rs:105-121 | succeeds exactly on the eight command characters, with the instruction whose symbol is that character; otherwise an `InvalidCharacterError` carrying the character |
| `Lexer.TryFromSymbol` | src/main.rs:108-119 | every instruction is recognised from its own symbol (inverse of `TryFrom`) |
| `Lexer.Lex` | src/main.rs:24-27 | the instruction list is never longer than the program text |
| `Lexer.LexKeepsCommands` | src/main.rs:24-27 | the lexed program, written back as symbols, is exactly the command characters of the text in their original order |
| `Lexer.LexLength` | src/main.rs:24-27 | the number of instructions equals the number of command characters |
| `Lexer.LexIgnoresComments` | src/main.rs:24-27 | a text without command characters gives no instructions |
| `Lexer.LexAppend` | src/main.rs:24-27 | lexing a concatenation is the concatenation of the lexed parts |
| `Lexer.LexSymbols` | src/main.rs:24-27 | writing a program out and lexing it gives the program back |
| `Pointer.AddResult` | src/main.rs:66-68 | `add(n)` succeeds exactly when `N > 0` and the sum does not overflow in a Debug build; the result is below `N` and is `(pointer + n) % N` (the sum taken modulo 2^64); a Debug-build overflow panics with an overflow error, and otherwise `N == 0` panics with remainder by zero |
| `Pointer.SubtractResult` | src/main.rs:70-76 | with `n <= pointer` the result is `pointer - n`. With `pointer < n` and `pointer <= n & N` it is `N - ((n & N) - pointer)`. With `n & N < pointer` the inner subtraction underflows, which is an error exactly in a Debug build; in a Release build both subtractions wrap and the result `r` satisfies `r + (n & N) == N + pointer` modulo 2^64 |
| `Pointer.WrappingSubtract` | src/main.rs:70-76 | corrected retreat: below `N`, and adding `n` back gives the starting cell modulo `N` |
| `Pointer.Index` | src/main.rs:79-85 | reading the tape at the pointer succeeds exactly when the pointer is below the tape length, with the cell's value |
| `Pointer.IndexMut` | src/main.rs:87-91 | storing through the pointer succeeds exactly when the pointer is on the tape; it sets that cell and leaves every other cell and the length unchanged |
| `Pointer.MemoryPointer.constructor` | src/main.rs:62-64 | a new pointer is at cell 0 |
| `Pointer.MemoryPointer.Add` | src/main.rs:66-68 | the field becomes `AddResult`'s value, or stays unchanged with its panic reported |
| `Pointer.MemoryPointer.Subtract` | src/main.rs:70-76 | the field becomes `SubtractResult`'s value, or stays unchanged with its panic reported |
| `Pointer.AddOneWraps` | src/main.rs:66-68 | `add(1)` from a cell on the tape moves to the next cell, and from `N - 1` to 0 |
| `Pointer.SubtractOneFromZero` | src/main.rs:74 | `subtract(1)` at cell 0 gives `N - N % 2`: `N - 1` when `N` is odd, `N` when `N` is even |
| `Pointer.SubtractOneFromZeroInRange` | src/main.rs:74 | for `N > 0`, `subtract(1)` at cell 0 stays below `N` if and only if `N` is odd |
| `Pointer.SubtractOneFromZeroOnDemoTape` | src/main.rs:74 | with the 30,000 cells of `main` (src/main.rs:5), `subtract(1)` at cell 0 gives 30,000, past the last cell |
| `Pointer.SubtractInnerUnderflow` | src/main.rs:74 | retreating 4 from cell 2 of a 3-cell tape panics in Debug and gives 5 in Release, where the circular answer is 1 |
| `Pointer.SubtractOneIsWrappingOnOddTape` | src/main.rs:70-76 | on a tape of odd length, `subtract(1)` from any cell equals the circular retreat |
| `Pointer.SubtractOneDiffersOnEvenTape` | src/main.rs:70-76 | on a tape of even length, `subtract(1)` at 0 gives `N` while the circular retreat gives `N - 1` |
| `Pointer.WrappingSubtractUndoesAdd` | src/main.rs:66-76 | the circular retreat by `n` after `add(n)` returns to the starting cell |
| `Pointer.AddUndoesWrappingSubtract` | src/main.rs:66-76 | `add(n)` after the circular retreat by `n` returns to the starting cell |
| `Semantics.Step` | src/main.rs:30-51 | one instruction keeps the tape length, only extends the output, and consumes at most the first input item |
| `Semantics.Exec` | src/main.rs:29-52 | a run keeps the tape length, only extends the output, and a panic names an instruction of the program |
| `Semantics.ExecAppend` | src/main.rs:29-52 | running `p + q` runs `p`, and then `q` from where `p` stopped if `p` completed; a panic in `q` is reported at its index shifted by `|p|` |
| `Semantics.ExecNext` | src/main.rs:29-52 | after a completed prefix of `i` instructions, instruction `i` either panics (the whole run ends there, in that state) or extends the completed prefix by one |
| `Interpreter.BrainfuckInterpreter.constructor` | src/main.rs:16-21 | a new interpreter has `N` cells all 0 and its pointer at 0 |
| `Interpreter.BrainfuckInterpreter.Run` | src/main.rs:23-53 | the tape, pointer, remaining input, written bytes and outcome after the loop are those of `Exec` over `Lex(program)` from the state before the call |
| `Properties.IncreaseValueStep` | src/main.rs:33 | changes only the addressed cell, to `(v + 1) % 256`. 255 panics in Debug and wraps to 0 in Release. A pointer past the tape panics |
| `Properties.DecreaseValueStep` | src/main.rs:34 | changes only the addressed cell, to `(v + 255) % 256`. 0 panics in Debug and wraps to 255 in Release. A pointer past the tape panics |
| `Properties.PointerStepsMoveOnlyThePointer` | src/main.rs:31-32 | `>` and `<` change nothing but the pointer |
| `Properties.WriteCharStep` | src/main.rs:42-49 | appends the addressed cell to the output when stdout takes it, drops it on `Ok(0)`, panics on `Err`; tape, pointer and input unchanged |
| `Properties.ReadCharStep` | src/main.rs:35-41 | stores the next input byte in the addressed cell only and consumes it. At end of input or on an input error it panics; it does not leave the cell unchanged |
| `Properties.CompletedRunHasNoBrackets` | src/main.rs:29-50 | a run that completes had no `[` or `]` in its program |
| `Properties.RunStopsAtBracket` | src/main.rs:29-50 | the first bracket reached ends the run with `Unimplemented` at its index, after every earlier instruction has had its effect |
| `Properties.RunOfTextStopsAtBracket` | src/main.rs:24-50 | for text `before + bracket + after`, a run that gets through `before` stops at the bracket, whatever `after` holds |
| `Properties.LoopProgramPanics` | src/main.rs:50 | `[-]` lexes to three instructions and panics at the first with the state unchanged, whatever the cell holds |
| `Properties.ReadThenWriteEchoes` | src/main.rs:35-48 | `,.` (the program `main` runs) stores the input byte in the addressed cell and writes it out |
| `Properties.StepKeepsPointerReachable` | src/main.rs:31-32 | every instruction keeps the pointer on the tape or, for even `N`, at `N`. On a tape of odd length no instruction panics out of bounds |
| `Properties.ExecKeepsPointerReachable` | src/main.rs:29-52 | a whole run keeps the pointer reachable. On a tape of odd length the pointer never leaves the tape and no run panics out of bounds |
| `Properties.LeftThenWriteOnEvenTape` | src/main.rs:32-44 | on a tape of even length, `<.` from cell 0 moves the pointer to `N` and panics out of bounds at the `.` |
| `Properties.LeftRightOnEvenTape` | src/main.rs:31-32 | on a tape of even length, `<>` from cell 0 ends on cell 1 |
| `Properties.DemoTapeLeftThenWritePanics` | src/main.rs:32-44 | with the 30,000 zero cells of `main` (src/main.rs:5), `<.` panics out of bounds at the `.` |

## Findings

| source | as written | input that shows it | evidently intended | confidence | as-written member | corrected member |
|---|---|---|---|---|---|---|
| src/main.rs:74 | `N - ((n & N) - self.pointer)` uses bitwise AND | `<.` from cell 0 on the 30,000-cell tape of src/main.rs:5: the pointer becomes 30,000 and the `.` indexes past the tape | a circular retreat `(pointer - n) mod N`, so `<` from cell 0 reaches cell `N - 1` | high (not executed) | `Properties.DemoTapeLeftThenWritePanics` | `Pointer.WrappingSubtract` |

`Pointer.SubtractOneDiffersOnEvenTape` and `Properties.LeftRightOnEvenTape` show more of the same defect: `<>` from cell 0 ends on cell 1. `Pointer.SubtractInnerUnderflow` shows that larger amounts can make the inner subtraction underflow.

`WrappingSubtract` is proved below `N` and is inverse to `add` (`Pointer.WrappingSubtractUndoesAdd`, `Pointer.AddUndoesWrappingSubtract`). `Pointer.SubtractOneIsWrappingOnOddTape` shows that on a tape of odd length the written code already agrees with it.

The interpreter (`Step`, `Run`) keeps the arithmetic as written, because it models this program. Replacing `&` by `%` would not be enough either: with `N = 1`, `1 % 1` is 0, so `<` would still move to cell 1.

Where the code and the usual Brainfuck semantics differ (loops, end of input leaving the cell unchanged, cells that wrap), the model follows the code:

- brackets panic;
- end of input panics instead of leaving the cell unchanged;
- cell overflow panics in a Debug build.

## Left out

- `main` (src/main.rs:4-8) is a fixed demo call. It appears only through its constants: `Properties.ReadThenWriteEchoes` covers its program `,.`, and `Properties.DemoTapeLeftThenWritePanics` covers its 30,000-cell tape.
- The `Display` and `Error` impls of `InvalidCharacterError` (src/main.rs:123-140) only format a message. The model keeps only the error value.
- Real stdin and stdout handles, their buffering and locking: they become an input sequence and a function giving stdout's answer to each write.
- Loops and jumps: the source has no bracket matcher, jump table or program counter. Brackets panic with `Unimplemented`.
- Panics end the process in Rust. Here they are an outcome returned to the caller, together with the state in which the failing instruction started. Two effects of a failing `,` (src/main.rs:36-39) are not represented: `stdin().bytes().next()` has already taken the item when the instruction panics, but the returned input still starts with it. This holds both for a byte read while the pointer is past the tape and for an error item. A panicking `add` or `subtract` leaves the pointer unchanged, as in Rust, where the right-hand side panics before the assignment (src/main.rs:67, src/main.rs:74).
- `usize` is taken to be 64 bits wide. Limits on how large `N` can be for an array in Rust are not modelled.
- `Prelude.BitAnd` is the usual bit-by-bit definition of AND on non-negative integers. Its agreement with the machine's `&` on 64-bit values is not proved.
- `MemoryPointer` is `Copy` in Rust. Here it is an object owned by the interpreter. The source never shares or copies it in a way that could be observed.
- `Interpreter.BrainfuckInterpreter.Run` does not return how many write calls were attempted. That count exists only to pick stdout's answer.
