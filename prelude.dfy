/** Machine-level vocabulary shared by the model: Rust's `u8` and `usize`,
    the two ways a Rust build treats integer overflow, the panics the
    interpreter can raise, and the bitwise AND that `MemoryPointer::subtract`
    uses. */
module Prelude {

  /** Number of values of a `u8`. */
  const BYTE_MODULUS: nat := 0x100

  /** Number of values of a `usize` on a 64-bit target. */
  const USIZE_MODULUS: nat := 0x1_0000_0000_0000_0000

  /** A tape cell or an I/O byte (Rust `u8`). */
  type Byte = b: int | 0 <= b < 0x100

  /** A pointer, an amount or a tape size (Rust `usize`, 64-bit target). */
  type Usize = x: int | 0 <= x < 0x1_0000_0000_0000_0000

  datatype Result<+T, +E> = Ok(value: T) | Err(error: E)

  /** Overflow behaviour of the build: `Debug` has overflow checks on (an
      overflowing `+`, `-`, `+=` or `-=` panics), `Release` wraps around. */
  datatype Profile = Debug | Release

  /** The ways the interpreter stops early. Each one is a Rust panic in the
      source; here it is a value the caller receives. */
  datatype Panic =
    | ArithmeticOverflow  // overflow check of `+`/`-` in a Debug build
    | RemainderByZero     // `% N` with N == 0
    | IndexOutOfBounds    // tape indexed at or past its length
    | ReadFailed          // stdin exhausted or reporting an error
    | WriteFailed         // stdout reporting an error
    | Unimplemented       // `unimplemented!()` on a bracket

  /** `a + b` on an unsigned type with `modulus` values, as the profile
      evaluates it. */
  function CheckedAdd(a: nat, b: nat, modulus: nat, profile: Profile): (r: Result<nat, Panic>)
    requires a < modulus && b < modulus
    ensures r.Err? <==> profile == Debug && a + b >= modulus
    ensures r.Err? ==> r.error == ArithmeticOverflow
    ensures r.Ok? ==> r.value < modulus && r.value == (a + b) % modulus
  {
    if a + b < modulus then Ok(a + b)
    else if profile == Debug then Err(ArithmeticOverflow)
    else Ok(a + b - modulus)
  }

  /** `a - b` on an unsigned type with `modulus` values, as the profile
      evaluates it. */
  function CheckedSub(a: nat, b: nat, modulus: nat, profile: Profile): (r: Result<nat, Panic>)
    requires a < modulus && b < modulus
    ensures r.Err? <==> profile == Debug && a < b
    ensures r.Err? ==> r.error == ArithmeticOverflow
    ensures r.Ok? ==> r.value < modulus && (r.value + b) % modulus == a
  {
    if b <= a then Ok(a - b)
    else if profile == Debug then Err(ArithmeticOverflow)
    else Ok(a - b + modulus)
  }

  /** Bitwise AND of two non-negative integers, bit by bit from the least
      significant one; on values below 2^64 it is Rust's `usize & usize`. */
  function BitAnd(a: nat, b: nat): (r: nat)
    ensures r <= a && r <= b
    decreases a
  {
    if a == 0 || b == 0 then 0
    else 2 * BitAnd(a / 2, b / 2) + (if a % 2 == 1 && b % 2 == 1 then 1 else 0)
  }

  /** `1 & b` keeps only the lowest bit of `b`: it is 1 exactly when `b` is odd. */
  lemma BitAndOne(b: nat)
    ensures BitAnd(1, b) == b % 2
  {
    if b > 0 {
      assert BitAnd(0, b / 2) == 0;
    }
  }

  lemma MulAtLeast(N: int, d: int)
    requires N > 0 && d >= 1
    ensures N * d >= N
  {}

  /** Euclidean remainder is determined by any quotient/remainder split. */
  lemma ModUnique(y: int, N: int, q: int, r: int)
    requires N > 0 && 0 <= r < N && y == N * q + r
    ensures y % N == r
  {
    var q', r' := y / N, y % N;
    assert N * (q' - q) == r - r';
    if q' > q {
      MulAtLeast(N, q' - q);
    } else if q' < q {
      MulAtLeast(N, q - q');
    }
  }

  /** Retreating by `n` modulo `N` and then advancing by `n` returns to the
      same residue. */
  lemma SubAddMod(p: int, n: int, N: int)
    requires N > 0
    ensures ((p - n) % N + n) % N == p % N
  {
    var q, k := (p - n) % N, (p - n) / N;
    assert p - n == N * k + q;
    var a, b := p / N, p % N;
    assert p == N * a + b;
    ModUnique(q + n, N, a - k, b);
  }
}
