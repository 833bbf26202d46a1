/** Option and Result: the model's stand-ins for Java's null and for thrown exceptions. */
module Wrappers {

  datatype Option<+T> = None | Some(value: T)

  datatype Result<+T, +E> = Success(value: T) | Failure(error: E)
}

/** The parts of Java's `int` and `byte` semantics, and the exceptions, that the core relies on. */
module JavaLang {

  const INT_MIN: int := -0x8000_0000
  const INT_MAX: int := 0x7fff_ffff
  const TWO_TO_32: int := 0x1_0000_0000

  /** Java's `int`. */
  type Int32 = x: int | INT_MIN <= x <= INT_MAX

  /** Java's (signed) `byte`. */
  type Byte = b: int | -128 <= b < 128

  /** The exceptions the core throws or lets through. */
  datatype Exception =
    | NoSuchElement       // java.util.NoSuchElementException
    | IllegalArgument     // java.lang.IllegalArgumentException
    | NullPointer         // java.lang.NullPointerException
    | IndexOutOfBounds    // java.lang.ArrayIndexOutOfBoundsException
    | Arithmetic          // java.lang.ArithmeticException (division by zero)
    | ClassCast           // java.lang.ClassCastException
    | DbError             // simpledb.DbException
    | IOError             // java.io.IOException

  /** Two's-complement truncation of an unbounded integer to 32 bits, as Java's `int` arithmetic does:
      shift by 2^32 until the value is in range. */
  function Wrap32(x: int): (r: Int32)
    ensures INT_MIN <= x <= INT_MAX ==> r == x
    decreases if x > INT_MAX then x - INT_MAX else if x < INT_MIN then INT_MIN - x else 0
  {
    if x > INT_MAX then Wrap32(x - TWO_TO_32) else if x < INT_MIN then Wrap32(x + TWO_TO_32) else x
  }

  /** The closed form of `Wrap32`: the representative of x modulo 2^32 in [MIN_VALUE, MAX_VALUE]. */
  lemma {:induction false} Wrap32IsMod(x: int)
    ensures Wrap32(x) == (x - INT_MIN) % TWO_TO_32 + INT_MIN
    decreases if x > INT_MAX then x - INT_MAX else if x < INT_MIN then INT_MIN - x else 0
  {
    var a := x - INT_MIN;
    if x > INT_MAX {
      Wrap32IsMod(x - TWO_TO_32);
      ModUnique(a - TWO_TO_32, a / TWO_TO_32 - 1, a % TWO_TO_32);
    } else if x < INT_MIN {
      Wrap32IsMod(x + TWO_TO_32);
      ModUnique(a + TWO_TO_32, a / TWO_TO_32 + 1, a % TWO_TO_32);
    }
  }

  /** The remainder modulo 2^32 is the r of any split a == q * 2^32 + r with 0 <= r < 2^32. */
  lemma ModUnique(a: int, q: int, r: int)
    requires a == q * TWO_TO_32 + r && 0 <= r < TWO_TO_32
    ensures a % TWO_TO_32 == r
  {
  }

  /** Wrapping changes a value by a multiple of 2^32. */
  lemma Wrap32Congruent(x: int)
    ensures (x - Wrap32(x)) % TWO_TO_32 == 0
  {
    Wrap32IsMod(x);
  }

  /** Two 32-bit values congruent modulo 2^32 are equal. */
  lemma CongruentInt32sAreEqual(a: Int32, b: Int32)
    requires (a - b) % TWO_TO_32 == 0
    ensures a == b
  {
  }

  /** Wrapping an intermediate result does not change the wrapped end result of an addition. */
  lemma WrapAdd(a: int, b: int)
    ensures Wrap32(Wrap32(a) + b) == Wrap32(a + b)
  {
    var w := Wrap32(a);
    Wrap32Congruent(a);
    Wrap32Congruent(w + b);
    Wrap32Congruent(a + b);
    var k := (a - w) / TWO_TO_32;
    assert a - w == k * TWO_TO_32;
    var l := (w + b - Wrap32(w + b)) / TWO_TO_32;
    assert w + b - Wrap32(w + b) == l * TWO_TO_32;
    var m := (a + b - Wrap32(a + b)) / TWO_TO_32;
    assert a + b - Wrap32(a + b) == m * TWO_TO_32;
    assert Wrap32(w + b) - Wrap32(a + b) == (m - l - k) * TWO_TO_32;
    CongruentInt32sAreEqual(Wrap32(w + b), Wrap32(a + b));
  }

  function Abs(x: int): nat
  {
    if x < 0 then -x else x
  }

  /** Integer division rounding toward zero, as Java's `/` does (Dafny's `/` is Euclidean). */
  function TruncDiv(a: int, b: int): (q: int)
    requires b != 0
    ensures Abs(a - q * b) < Abs(b)
    ensures a - q * b == 0 || (a - q * b < 0 <==> a < 0)
    ensures Abs(q) * Abs(b) <= Abs(a)
    ensures if (a < 0) == (b < 0) then q >= 0 else q <= 0
  {
    var p: int, r: int := Abs(a) / Abs(b), Abs(a) % Abs(b);
    EuclideanDivision(Abs(a), Abs(b));
    var q: int := if (a < 0) == (b < 0) then p else -p;
    RoundTowardZero(a, b, p, r, q);
    q
  }

  lemma EuclideanDivision(n: int, d: int)
    requires n >= 0 && d > 0
    ensures n == (n / d) * d + n % d && 0 <= n % d < d && n / d >= 0
  {
  }

  /** Negating the Euclidean quotient of the magnitudes when the signs differ rounds toward zero. */
  lemma RoundTowardZero(a: int, b: int, p: int, r: int, q: int)
    requires b != 0 && Abs(a) == p * Abs(b) + r && 0 <= r < Abs(b) && p >= 0
    requires q == if (a < 0) == (b < 0) then p else -p
    ensures a - q * b == (if a < 0 then -r else r)
    ensures Abs(q) * Abs(b) <= Abs(a)
  {
    if a >= 0 && b > 0 {
    } else if a >= 0 {
      assert q * b == p * Abs(b);
    } else if b > 0 {
      assert q * b == -(p * Abs(b));
    } else {
      assert q * b == -(p * Abs(b));
    }
  }

  /** Java's `int` division: truncating, and wrapping for the one overflowing case MIN_VALUE / -1. */
  function JavaDiv(a: Int32, b: Int32): (q: Int32)
    requires b != 0
    ensures b > 0 ==> q == TruncDiv(a, b)
  {
    if b > 0 then
      TruncDivInRange(a, b);
      Wrap32(TruncDiv(a, b))
    else
      Wrap32(TruncDiv(a, b))
  }

  /** Dividing an int by a positive int cannot overflow. */
  lemma TruncDivInRange(a: Int32, b: Int32)
    requires b > 0
    ensures INT_MIN <= TruncDiv(a, b) <= INT_MAX
  {
    var q := TruncDiv(a, b);
    MulAtLeast(Abs(q), b);
  }

  lemma MulAtLeast(n: nat, b: int)
    requires b >= 1
    ensures n <= n * b
  {
    assert n * b == n * (b - 1) + n;
  }
}

/** Field types and field values (simpledb.Type, IntField, StringField). */
module Fields {
  import opened JavaLang

  datatype Type = INT_TYPE | STRING_TYPE

  /** A field value; Java's `null` field is `None` wherever a field may be absent. */
  datatype Field = IntField(intValue: Int32) | StringField(stringValue: string)

  function TypeOf(f: Field): Type
  {
    match f
    case IntField(_) => INT_TYPE
    case StringField(_) => STRING_TYPE
  }
}
