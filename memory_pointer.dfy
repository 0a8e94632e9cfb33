/** `MemoryPointer<N>`: an index into a tape of `N` cells that `add` and
    `subtract` move, and the `Index`/`IndexMut` impls that look a cell up with
    it. The arithmetic is the source's, `&` in `subtract` included; the
    functions state what one call computes and the class updates its field
    accordingly. */
module Pointer {
  import opened Prelude

  /** What `add(n)` sets the pointer to: `(pointer + n) % N`, where the sum
      overflows in a Debug build and `% 0` panics in any build. */
  function AddResult(pointer: Usize, n: Usize, N: Usize, profile: Profile): (r: Result<Usize, Panic>)
    ensures r.Ok? <==> N > 0 && (profile == Release || pointer + n < USIZE_MODULUS)
    ensures r.Ok? ==> r.value < N && r.value == (pointer + n) % USIZE_MODULUS % N
    ensures r.Err? && profile == Debug && pointer + n >= USIZE_MODULUS ==> r.error == ArithmeticOverflow
    ensures r.Err? && (profile == Release || pointer + n < USIZE_MODULUS) ==> r.error == RemainderByZero
  {
    match CheckedAdd(pointer, n, USIZE_MODULUS, profile)
    case Err(e) => Err(e)
    case Ok(sum) => if N == 0 then Err(RemainderByZero) else Ok(sum % N)
  }

  /** What `subtract(n)` sets the pointer to: `pointer - n` when that does not
      go below zero, and otherwise `N - ((n & N) - pointer)`, evaluated with
      the profile's overflow behaviour. */
  function SubtractResult(pointer: Usize, n: Usize, N: Usize, profile: Profile): (r: Result<Usize, Panic>)
    ensures n <= pointer ==> r.Ok? && r.value + n == pointer
    ensures pointer < n && pointer <= BitAnd(n, N) ==> r.Ok? && r.value + BitAnd(n, N) == N + pointer
    ensures pointer < n && BitAnd(n, N) < pointer ==> (r.Err? <==> profile == Debug)
    ensures pointer < n && r.Ok? ==> (r.value + BitAnd(n, N)) % USIZE_MODULUS == (N + pointer) % USIZE_MODULUS
    ensures r.Err? ==> r.error == ArithmeticOverflow
  {
    if pointer >= n then Ok(pointer - n)
    else
      match CheckedSub(BitAnd(n, N), pointer, USIZE_MODULUS, profile)
      case Err(e) => Err(e)
      case Ok(d) => CheckedSub(N, d, USIZE_MODULUS, profile)
  }

  /** Circular retreat by `n`, `(pointer - n) mod N`: what `subtract` is
      meant to compute (the tape is a ring), with `%` where the source has
      `&`. */
  function WrappingSubtract(pointer: Usize, n: Usize, N: Usize): (r: Result<Usize, Panic>)
    ensures r.Ok? <==> N > 0
    ensures r.Ok? ==> r.value < N && (r.value + n) % N == pointer % N
    ensures r.Err? ==> r.error == RemainderByZero
  {
    if N == 0 then Err(RemainderByZero)
    else
      SubAddMod(pointer, n, N);
      Ok((pointer - n) % N)
  }

  /** The `Index` impl: reading the tape at the pointer, which panics at or
      past the end of the tape. */
  function Index(memory: seq<Byte>, pointer: Usize): (r: Result<Byte, Panic>)
    ensures r.Ok? <==> pointer < |memory|
    ensures r.Ok? ==> r.value == memory[pointer]
    ensures r.Err? ==> r.error == IndexOutOfBounds
  {
    if pointer < |memory| then Ok(memory[pointer]) else Err(IndexOutOfBounds)
  }

  /** The `IndexMut` impl followed by a store through the reference it
      returns: only the addressed cell changes. */
  function IndexMut(memory: seq<Byte>, pointer: Usize, value: Byte): (r: Result<seq<Byte>, Panic>)
    ensures r.Ok? <==> pointer < |memory|
    ensures r.Ok? ==> |r.value| == |memory| && r.value[pointer] == value
    ensures r.Ok? ==> forall k :: 0 <= k < |memory| && k != pointer ==> r.value[k] == memory[k]
    ensures r.Err? ==> r.error == IndexOutOfBounds
  {
    if pointer < |memory| then Ok(memory[pointer := value]) else Err(IndexOutOfBounds)
  }

  /** `MemoryPointer<N>`: `N` and the build's overflow behaviour are fixed,
      `pointer` is the field `add` and `subtract` update in place. */
  class MemoryPointer {
    const N: Usize
    const profile: Profile
    var pointer: Usize

    /** `MemoryPointer::new`: the pointer starts at cell 0. */
    constructor (N: Usize, profile: Profile)
      ensures this.N == N && this.profile == profile && pointer == 0
    {
      this.N := N;
      this.profile := profile;
      pointer := 0;
    }

    /** `add(n)`. On a panic the pointer is left as it was. */
    method Add(n: Usize) returns (r: Result<(), Panic>)
      modifies this
      ensures r.Ok? <==> AddResult(old(pointer), n, N, profile).Ok?
      ensures r.Ok? ==> pointer == AddResult(old(pointer), n, N, profile).value
      ensures r.Err? ==> r.error == AddResult(old(pointer), n, N, profile).error && pointer == old(pointer)
    {
      var sum: Usize;
      if pointer + n < USIZE_MODULUS {
        sum := pointer + n;
      } else if profile == Debug {
        return Err(ArithmeticOverflow);
      } else {
        sum := pointer + n - USIZE_MODULUS;
      }
      if N == 0 {
        return Err(RemainderByZero);
      }
      pointer := sum % N;
      return Ok(());
    }

    /** `subtract(n)`. On a panic the pointer is left as it was. */
    method Subtract(n: Usize) returns (r: Result<(), Panic>)
      modifies this
      ensures r.Ok? <==> SubtractResult(old(pointer), n, N, profile).Ok?
      ensures r.Ok? ==> pointer == SubtractResult(old(pointer), n, N, profile).value
      ensures r.Err? ==> r.error == SubtractResult(old(pointer), n, N, profile).error && pointer == old(pointer)
    {
      if pointer >= n {
        pointer := pointer - n;
        return Ok(());
      }
      var masked := BitAnd(n, N);
      var d: Usize;
      if masked >= pointer {
        d := masked - pointer;
      } else if profile == Debug {
        return Err(ArithmeticOverflow);
      } else {
        d := masked - pointer + USIZE_MODULUS;
      }
      // `N - d` cannot go below zero unless `d` itself wrapped, which
      // happens only in a Release build, where this subtraction wraps too.
      if N >= d {
        pointer := N - d;
      } else {
        pointer := N - d + USIZE_MODULUS;
      }
      return Ok(());
    }
  }

  /** One step right moves to the next cell and from the last cell back to
      cell 0. */
  lemma AddOneWraps(pointer: Usize, N: Usize, profile: Profile)
    requires pointer < N
    ensures AddResult(pointer, 1, N, profile) == Ok(if pointer == N - 1 then 0 else pointer + 1)
  {
    if pointer == N - 1 {
      assert (pointer + 1) % N == 0 by { ModUnique(pointer + 1, N, 1, 0); }
    } else {
      assert (pointer + 1) % N == pointer + 1 by { ModUnique(pointer + 1, N, 0, pointer + 1); }
    }
  }

  /** One step left from cell 0 yields `N - (1 & N)`, that is `N - 1` on a
      tape of odd length and `N` itself, one past the last cell, on a tape of
      even length. */
  lemma SubtractOneFromZero(N: Usize, profile: Profile)
    ensures SubtractResult(0, 1, N, profile) == Ok(N - N % 2)
  {
    BitAndOne(N);
  }

  /** ... so the pointer stays on the tape exactly when `N` is odd. */
  lemma SubtractOneFromZeroInRange(N: Usize, profile: Profile)
    requires N > 0
    ensures SubtractResult(0, 1, N, profile).Ok?
    ensures SubtractResult(0, 1, N, profile).value < N <==> N % 2 == 1
  {
    SubtractOneFromZero(N, profile);
  }

  /** On the 30,000-cell tape of `main`, a step left from cell 0 leaves the
      pointer at 30,000, past the last cell. */
  lemma SubtractOneFromZeroOnDemoTape(profile: Profile)
    ensures SubtractResult(0, 1, 30000, profile) == Ok(30000)
  {
    SubtractOneFromZero(30000, profile);
  }

  /** With a larger amount the inner subtraction `(n & N) - pointer` can go
      below zero: `4 & 3` is 0, so retreating 4 from cell 2 of a 3-cell tape
      panics in a Debug build and lands on 5 in a Release build, where the
      intended answer is cell 1. */
  lemma SubtractInnerUnderflow()
    ensures SubtractResult(2, 4, 3, Debug) == Err(ArithmeticOverflow)
    ensures SubtractResult(2, 4, 3, Release) == Ok(5)
    ensures WrappingSubtract(2, 4, 3) == Ok(1)
  {
    assert BitAnd(4, 3) == 0 by {
      assert BitAnd(1, 0) == 0;
      assert BitAnd(2, 1) == 0;
    }
  }

  /** On a tape of odd length, `subtract(1)` from any cell is the circular
      retreat. */
  lemma SubtractOneIsWrappingOnOddTape(pointer: Usize, N: Usize, profile: Profile)
    requires pointer < N && N % 2 == 1
    ensures SubtractResult(pointer, 1, N, profile) == WrappingSubtract(pointer, 1, N)
  {
    if pointer == 0 {
      SubtractOneFromZero(N, profile);
      ModUnique(-1, N, -1, N - 1);
    } else {
      ModUnique(pointer - 1, N, 0, pointer - 1);
    }
  }

  /** On a tape of even length, `subtract(1)` from cell 0 and the circular
      retreat part ways. */
  lemma SubtractOneDiffersOnEvenTape(N: Usize, profile: Profile)
    requires N > 0 && N % 2 == 0
    ensures SubtractResult(0, 1, N, profile) == Ok(N)
    ensures WrappingSubtract(0, 1, N) == Ok(N - 1)
  {
    SubtractOneFromZero(N, profile);
    ModUnique(-1, N, -1, N - 1);
  }

  /** The circular retreat undoes `add`. */
  lemma WrappingSubtractUndoesAdd(pointer: Usize, n: Usize, N: Usize, profile: Profile)
    requires pointer < N && pointer + n < USIZE_MODULUS
    ensures AddResult(pointer, n, N, profile).Ok?
    ensures WrappingSubtract(AddResult(pointer, n, N, profile).value, n, N) == Ok(pointer)
  {
    var k, q := (pointer + n) / N, (pointer + n) % N;
    assert pointer + n == N * k + q;
    ModUnique(q - n, N, -k, pointer);
  }

  /** ... and `add` undoes the circular retreat. */
  lemma AddUndoesWrappingSubtract(pointer: Usize, n: Usize, N: Usize, profile: Profile)
    requires pointer < N
    requires WrappingSubtract(pointer, n, N).value + n < USIZE_MODULUS
    ensures AddResult(WrappingSubtract(pointer, n, N).value, n, N, profile) == Ok(pointer)
  {
    ModUnique(pointer, N, 0, pointer);
  }
}
