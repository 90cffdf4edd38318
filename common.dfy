/**
 * Shared vocabulary of the FlakeGen model: the fixed-width integer types of
 * C#, the error conditions the constructors raise, and Option/Result values
 * for the paths where C# passes `null` or throws.
 */
module Common {

  /** C# `byte`, `short`, `int` and `long`, as ranges of mathematical integers. */
  type byte = x: int | 0 <= x < 0x100
  type int16 = x: int | -0x8000 <= x < 0x8000
  type int32 = x: int | -0x8000_0000 <= x < 0x8000_0000
  type int64 = x: int | -0x8000_0000_0000_0000 <= x < 0x8000_0000_0000_0000

  /** A C# reference argument that may be `null`. */
  datatype Option<+T> = None | Some(value: T)

  /** The exceptions thrown by the constructors, with the parameter they name. */
  datatype ArgumentError =
    | ArgumentNull(paramName: string)
    | Argument(paramName: string)

  /** The outcome of a constructor call: the new object, or the exception it throws. */
  datatype Result<+T> = Success(value: T) | Failure(error: ArgumentError)

  /** Reinterprets the low 16 bits of `u` as a signed value: the C# `(short)` cast. */
  function ToInt16(u: int): (r: int16)
    ensures r % 0x1_0000 == u % 0x1_0000
  {
    var w := u % 0x1_0000;
    if w < 0x8000 then w else w - 0x1_0000
  }

  /** Reinterprets the low 32 bits of `u` as a signed value: the C# `(int)` cast. */
  function ToInt32(u: int): (r: int32)
    ensures r % 0x1_0000_0000 == u % 0x1_0000_0000
  {
    var w := u % 0x1_0000_0000;
    if w < 0x8000_0000 then w else w - 0x1_0000_0000
  }

  /**
   * Reinterprets the low 64 bits of `u` as a signed long. NextId has no such
   * cast; only the decoder TimestampOf uses it.
   */
  function ToInt64(u: int): (r: int64)
    ensures r % 0x1_0000_0000_0000_0000 == u % 0x1_0000_0000_0000_0000
  {
    var w := u % 0x1_0000_0000_0000_0000;
    if w < 0x8000_0000_0000_0000 then w else w - 0x1_0000_0000_0000_0000
  }

  // ---------------------------------------------------------------------------
  // Shifts and masks on mathematical integers

  /** A positive number times at least one is at least that number. */
  lemma {:induction false} MulAtLeast(d: int, k: int)
    requires d > 0 && k >= 1
    ensures d * k >= d
  {
    if k > 1 {
      MulAtLeast(d, k - 1);
      assert d * k == d * (k - 1) + d;
    }
  }

  /** Quotient and remainder are unique: the facts `>>` and `&` are reduced to. */
  lemma DivModUnique(n: int, d: int, q: int, r: int)
    requires d > 0 && n == d * q + r && 0 <= r < d
    ensures n / d == q && n % d == r
  {
    var q', r' := n / d, n % d;
    assert n == d * q' + r';
    if q' < q {
      MulAtLeast(d, q - q');
    } else if q < q' {
      MulAtLeast(d, q' - q);
    }
  }

  /** Multiplication distributes over a quotient-and-remainder split. */
  lemma MulSplit(p: int, q: int, a1: int, a0: int)
    ensures p * (q * a1 + a0) == (p * q) * a1 + p * a0
  {
  }

  /** A digit below `q`, scaled by `p`, stays below `p * q`. */
  lemma MulDigitBound(p: int, q: int, a0: int)
    requires p >= 1 && 0 <= a0 < q
    ensures 0 <= p * a0 <= p * q - p
  {
    assert p * q - p * a0 == p * (q - a0);
    MulAtLeast(p, q - a0);
  }

  /** Keeping the low bits of `p * q`: the low bits of `p`, then those of the next `q` above them. */
  lemma ModMul(x: int, p: int, q: int)
    requires p >= 1 && q >= 1
    ensures x % (p * q) == x % p + p * ((x / p) % q)
  {
    var a, b := x / p, x % p;
    var a1, a0 := a / q, a % q;
    assert x == p * a + b;
    assert a == q * a1 + a0;
    MulSplit(p, q, a1, a0);
    MulDigitBound(p, q, a0);
    DivModUnique(x, p * q, a1, b + p * a0);
  }
}
