/** The arithmetic, comparison and indexing operators of `blis`
    (binary.py, lines 44-49, 211-281, 472-492). Every binary operator first
    turns a plain int operand into a blis (`makeargblis`), then works on the
    integer readings and builds a fresh blis from the result. */
module BlisArith {
  import opened Results
  import opened Powers
  import opened BitLists
  import opened Blis
  import opened Construction

  // ---------------------------------------------------------------------
  // Python integer division

  /** Python's `a // b`: the floor of the quotient, for either sign of b. */
  function PyDiv(a: int, b: int): (q: int)
    requires b != 0
    ensures b > 0 ==> q * b <= a < q * b + b
    ensures b < 0 ==> q * b + b < a <= q * b
  {
    if b > 0 then a / b else (-a) / (-b)
  }

  /** Python's `a % b`: the remainder takes the sign of the divisor. */
  function PyMod(a: int, b: int): (r: int)
    requires b != 0
    ensures b > 0 ==> 0 <= r < b
    ensures b < 0 ==> b < r <= 0
  {
    a - b * PyDiv(a, b)
  }

  /** Floor division and remainder recombine to the dividend, and the pair
      is the only one with the remainder on the divisor's side. */
  lemma DivModIdentity(a: int, b: int, q: int, r: int)
    requires b != 0
    requires a == q * b + r
    requires b > 0 ==> 0 <= r < b
    requires b < 0 ==> b < r <= 0
    ensures q == PyDiv(a, b) && r == PyMod(a, b)
  {
    var d := q - PyDiv(a, b);
    var e := r - PyMod(a, b);
    assert d * b + e == 0;
    if b > 0 {
      MulSmallIsZero(d, b);
    } else {
      assert d * (-b) == e;
      MulSmallIsZero(d, -b);
    }
  }

  /** Python's `x ** y` for a non-negative exponent. */
  function IntPow(x: int, y: nat): int
  {
    if y == 0 then 1 else x * IntPow(x, y - 1)
  }

  lemma {:induction false} IntPowAdd(x: int, y: nat, z: nat)
    ensures IntPow(x, y + z) == IntPow(x, y) * IntPow(x, z)
    decreases y
  {
    if y > 0 {
      IntPowAdd(x, y - 1, z);
      assert IntPow(x, y + z) == x * IntPow(x, y - 1 + z);
    }
  }

  /** Powers of two as integer powers. */
  lemma {:induction false} IntPowTwo(y: nat)
    ensures IntPow(2, y) == Pow2(y)
  {
    if y > 0 {
      IntPowTwo(y - 1);
    }
  }

  // ---------------------------------------------------------------------
  // Operands (binary.py:44-49)

  /** The right-hand operand of a binary operator: a blis or a plain int. */
  datatype Operand = Vec(b: Blis) | Num(i: int)

  /** `makeargblis`: an int operand becomes `blis(i)`, a blis is used as it
      is. Coercing an int is exact. */
  function Coerce(o: Operand): (r: Blis)
    ensures o.Num? ==> ToInt(r) == o.i && |r.bits| == AutoWidth(o.i)
    ensures o.Vec? ==> r == o.b
  {
    match o
    case Vec(b) => b
    case Num(i) =>
      FromValueRoundTrip(i, None);
      FromValue(i, None).value
  }

  /** The value an operand stands for. */
  function OperandValue(o: Operand): int
  {
    match o
    case Vec(b) => ToInt(b)
    case Num(i) => i
  }

  /** `blis(val)` without a width: always defined and exact. */
  function Exact(v: int): (r: Blis)
    ensures ToInt(r) == v && |r.bits| == AutoWidth(v)
  {
    FromValueRoundTrip(v, None);
    FromValue(v, None).value
  }

  // ---------------------------------------------------------------------
  // Addition (binary.py:223-232)

  /** The overflow guard of `__add__`: `2**(nbits - 1) < val`. With both
      operands empty nbits is 0, and then the guard does not matter since a
      width of 0 falls back to the automatic width either way. */
  predicate AddGrows(n: nat, v: int)
  {
    n == 0 || Pow2(n - 1) < v
  }

  /** What `__add__` promises about its result r, for operands of width n
      whose readings sum to v: exact whenever the guard grows the width or
      the sum fits the n-bit range, and otherwise right modulo 2^n in n bits
      (n + 1 bits for -2^n, which the negation in `from_value` widens). It
      is never narrower than the operands. */
  predicate AddResult(r: Blis, n: nat, v: int)
  {
    && (AddGrows(n, v) ==> ToInt(r) == v && |r.bits| == AutoWidth(v))
    && (n > 0 && -Pow2(n - 1) <= v < Pow2(n - 1) ==> ToInt(r) == v && |r.bits| == n)
    && (!AddGrows(n, v) ==> ToInt(r) % Pow2(n) == v % Pow2(n))
    && (!AddGrows(n, v) && -Pow2(n) < v ==> |r.bits| == n)
    && (n > 0 && v == -Pow2(n) ==> ToInt(r) == v && |r.bits| == n + 1)
    && |r.bits| >= n
  }

  /** The sum v laid out after the guard `2**(nbits-1) < val`: in the
      automatic width when the guard fires, otherwise in n bits. */
  function AddIn(n: nat, v: int): (r: Blis)
    ensures AddResult(r, n, v)
  {
    if AddGrows(n, v) then
      GrowCase(v, n);
      Exact(v)
    else
      WrapCase(v, n);
      FromValue(v, Some(n)).value
  }

  /** `a + o` as written: the sum is laid out in the wider operand's width
      unless it exceeds 2^(nbits-1), in which case the width is chosen
      automatically. Sums inside the two's complement range are exact; sums
      the guard lets through wrap modulo 2^nbits. */
  function Add(a: Blis, o: Operand): (r: Blis)
    ensures AddResult(r, Max(|a.bits|, |Coerce(o).bits|), ToInt(a) + OperandValue(o))
  {
    AddIn(Max(|a.bits|, |Coerce(o).bits|), ToInt(a) + OperandValue(o))
  }

  /** Below the guard the sum is laid out in n bits: right modulo 2^n, and
      exact inside the n-bit range. */
  lemma WrapCase(v: int, n: nat)
    requires !AddGrows(n, v)
    ensures FromValue(v, Some(n)).Ok?
    ensures ToInt(FromValue(v, Some(n)).value) % Pow2(n) == v % Pow2(n)
    ensures -Pow2(n) < v ==> |FromValue(v, Some(n)).value.bits| == n
    ensures -Pow2(n - 1) <= v < Pow2(n - 1) ==>
      ToInt(FromValue(v, Some(n)).value) == v && |FromValue(v, Some(n)).value.bits| == n
    ensures v == -Pow2(n) ==>
      ToInt(FromValue(v, Some(n)).value) == v && |FromValue(v, Some(n)).value.bits| == n + 1
    ensures |FromValue(v, Some(n)).value.bits| >= n
  {
    FromValueWraps(v, n);
    if v == -Pow2(n) {
      ModAddMultiple(0, -1, Pow2(n));
    }
    if -Pow2(n) < v < 0 {
      NonZeroMod(v, Pow2(n));
    }
    if -Pow2(n - 1) <= v < Pow2(n - 1) {
      FromValueFixedWidth(v, n);
    }
  }

  /** A sum the guard sends to the automatic width is positive (or the
      operands are empty) and needs more than the operands' width. */
  lemma GrowCase(v: int, n: nat)
    requires AddGrows(n, v)
    ensures n > 0 ==> v > 0
    ensures |Exact(v).bits| >= n
  {
    if n > 0 {
      AutoWidthFits(v);
      Pow2Order(n - 1, AutoWidth(v) - 1);
    }
  }

  /** `o + a` is `a + o`: the sum o + x, under the same promises. */
  function RAdd(a: Blis, o: Operand): (r: Blis)
    ensures r == Add(a, o)
    ensures AddResult(r, Max(|a.bits|, |Coerce(o).bits|), OperandValue(o) + ToInt(a))
  {
    Add(a, o)
  }

  /** A sum of exactly 2^(nbits-1) passes the guard (it is not strictly
      greater) and so is laid out in nbits bits, where its top bit is the
      sign: it reads as -2^(nbits-1). Stated for a blis operand, which is
      what `makeargblis` turns an int operand into. */
  lemma AddGuardGap(a: Blis, b: Blis)
    requires |a.bits| > 0
    requires ToInt(a) + ToInt(b) == Pow2(Max(|a.bits|, |b.bits|) - 1)
    ensures ToInt(Add(a, Vec(b))) == -Pow2(Max(|a.bits|, |b.bits|) - 1)
  {
    var n, v := Max(|a.bits|, |b.bits|), ToInt(a) + ToInt(b);
    AddInWidth(a, b, n, v);
    GapWindow(ToInt(Add(a, Vec(b))), n);
  }

  /** The only n-bit reading congruent to 2^(n-1) is -2^(n-1). */
  lemma GapWindow(x: int, n: int)
    requires n > 0
    requires -Pow2(n - 1) <= x < Pow2(n - 1)
    requires x % Pow2(n) == Pow2(n - 1) % Pow2(n)
    ensures x == -Pow2(n - 1)
  {
    var h := Pow2(n - 1);
    assert Pow2(n) == 2 * h;
    ModUnique(h, 2 * h, 0, h);
    ModUnique(-h, 2 * h, -1, h);
    SameWindow(x, -h, -h, 2 * h);
  }

  /** The only n-bit reading congruent to a value just below the n-bit
      range is that value plus 2^n. */
  lemma WrapWindow(x: int, v: int, n: int)
    requires n > 0 && -Pow2(n) < v < -Pow2(n - 1)
    requires -Pow2(n - 1) <= x < Pow2(n - 1)
    requires x % Pow2(n) == v % Pow2(n)
    ensures x == v + Pow2(n)
  {
    var h := Pow2(n - 1);
    assert Pow2(n) == 2 * h;
    ModUnique(v, 2 * h, -1, v + 2 * h);
    ModUnique(v + 2 * h, 2 * h, 0, v + 2 * h);
    SameWindow(x, v + 2 * h, -h, 2 * h);
  }

  /** A sum below -2^(nbits-1) is not caught by the guard either: it wraps
      to a positive reading. */
  lemma AddGuardUnderflow(a: Blis, b: Blis)
    requires |a.bits| > 0
    requires -Pow2(Max(|a.bits|, |b.bits|)) < ToInt(a) + ToInt(b) < -Pow2(Max(|a.bits|, |b.bits|) - 1)
    ensures ToInt(Add(a, Vec(b))) == ToInt(a) + ToInt(b) + Pow2(Max(|a.bits|, |b.bits|))
  {
    var n, v := Max(|a.bits|, |b.bits|), ToInt(a) + ToInt(b);
    AddInWidth(a, b, n, v);
    WrapWindow(ToInt(Add(a, Vec(b))), v, n);
  }

  /** Below the guard and above -2^nbits the sum stays nbits wide. */
  lemma AddInWidth(a: Blis, b: Blis, n: nat, v: int)
    requires n == Max(|a.bits|, |b.bits|) && v == ToInt(a) + ToInt(b)
    requires n > 0 && -Pow2(n) < v <= Pow2(n - 1)
    ensures |Add(a, Vec(b)).bits| == n
    ensures ToInt(Add(a, Vec(b))) % Pow2(n) == v % Pow2(n)
  {
    assert !AddGrows(n, v);
  }

  /** The concrete case: `blis(64) + 64`, where `makeargblis` turns the
      second 64 into `blis(64)`, is 8 bits wide and reads -128. */
  lemma SixtyFourPlusSixtyFour(x: int)
    requires x == 64
    ensures ToInt(Add(Exact(x), Vec(Exact(x)))) == -128
  {
    assert Pow2(6) == 64 && Pow2(7) == 128;
    FloorPow2Unique(x, 6);
    assert AutoWidth(x) == 8;
    AddGuardGap(Exact(x), Exact(x));
  }

  /** `__add__` with the guard the comment intends: the sum keeps the wider
      operand's width when it fits in it and takes the automatic width
      otherwise, so addition is exact. */
  function AddGrowing(a: Blis, o: Operand): (r: Blis)
    ensures ToInt(r) == ToInt(a) + OperandValue(o)
    ensures var n, v := Max(|a.bits|, |Coerce(o).bits|), ToInt(a) + OperandValue(o);
      n > 0 && -Pow2(n - 1) <= v < Pow2(n - 1) ==> |r.bits| == n
  {
    var n := Max(|a.bits|, |Coerce(o).bits|);
    var v := ToInt(a) + OperandValue(o);
    if n == 0 || v < -Pow2(n - 1) || Pow2(n - 1) <= v then Exact(v)
    else
      FromValueFixedWidth(v, n);
      FromValue(v, Some(n)).value
  }

  // ---------------------------------------------------------------------
  // Multiplication, division, power, remainder (binary.py:234-276)

  /** `a * o`, in the automatic width: exact. */
  function Mul(a: Blis, o: Operand): (r: Blis)
    ensures ToInt(r) == ToInt(a) * OperandValue(o)
    ensures |r.bits| == AutoWidth(ToInt(a) * OperandValue(o))
  {
    Exact(ToInt(a) * ToInt(Coerce(o)))
  }

  /** `a // o`: floor division of the readings; dividing by a zero reading
      raises ZeroDivisionError. */
  function FloorDiv(a: Blis, o: Operand): (r: Result<Blis>)
    ensures r.Err? <==> OperandValue(o) == 0
    ensures r.Err? ==> r.error == ZeroDivisionError
    ensures r.Ok? ==> var q := ToInt(r.value);
      (OperandValue(o) > 0 ==> q * OperandValue(o) <= ToInt(a) < q * OperandValue(o) + OperandValue(o))
      && (OperandValue(o) < 0 ==> q * OperandValue(o) + OperandValue(o) < ToInt(a) <= q * OperandValue(o))
  {
    var y := ToInt(Coerce(o));
    if y == 0 then Err(ZeroDivisionError) else Ok(Exact(PyDiv(ToInt(a), y)))
  }

  /** `o // a`. */
  function RFloorDiv(a: Blis, o: Operand): (r: Result<Blis>)
    ensures r.Err? <==> ToInt(a) == 0
    ensures r.Err? ==> r.error == ZeroDivisionError
    ensures r.Ok? ==> ToInt(r.value) == PyDiv(OperandValue(o), ToInt(a))
  {
    var x := ToInt(Coerce(o));
    if ToInt(a) == 0 then Err(ZeroDivisionError) else Ok(Exact(PyDiv(x, ToInt(a))))
  }

  /** `a ** o`: an exact power for a non-negative exponent. A negative
      exponent makes Python's `**` return a float, which `blis` rejects with
      TypeError, except that 0 to a negative power raises
      ZeroDivisionError. */
  function Pow(a: Blis, o: Operand): (r: Result<Blis>)
    ensures r.Ok? <==> OperandValue(o) >= 0
    ensures r.Ok? ==> ToInt(r.value) == IntPow(ToInt(a), OperandValue(o))
    ensures r.Err? ==> r.error == (if ToInt(a) == 0 then ZeroDivisionError else TypeError)
  {
    var x, y := ToInt(a), ToInt(Coerce(o));
    if y >= 0 then Ok(Exact(IntPow(x, y)))
    else if x == 0 then Err(ZeroDivisionError)
    else Err(TypeError)
  }

  /** The width `blis(val, nbits)` ends up with for a value that fits. */
  function WidthOr8(n: nat): nat { if n > 0 then n else 8 }

  /** `blis(x % y, nbits)` where nbits is the divisor's width: the remainder
      lies between 0 and the divisor, so it fits in the divisor's width and
      is exact. */
  function ModIn(x: int, d: Blis): (r: Result<Blis>)
    ensures r.Err? <==> ToInt(d) == 0
    ensures r.Err? ==> r.error == ZeroDivisionError
    ensures r.Ok? ==> ToInt(r.value) == PyMod(x, ToInt(d)) && |r.value.bits| == WidthOr8(|d.bits|)
  {
    var y := ToInt(d);
    if y == 0 then Err(ZeroDivisionError)
    else
      var v := PyMod(x, y);
      var n := |d.bits|;
      if n == 0 then
        assert y == -1 && v == 0;
        UnsignedClear(Zeros(8));
        Ok(FromValue(v, Some(n)).value)
      else
        FromValueFixedWidth(v, n);
        Ok(FromValue(v, Some(n)).value)
  }

  /** `a % o`: the remainder, with the divisor's sign, in the divisor's
      width. */
  function Mod(a: Blis, o: Operand): (r: Result<Blis>)
    ensures r.Err? <==> OperandValue(o) == 0
    ensures r.Err? ==> r.error == ZeroDivisionError
    ensures r.Ok? ==> ToInt(r.value) == PyMod(ToInt(a), OperandValue(o))
    ensures r.Ok? ==> |r.value.bits| == WidthOr8(|Coerce(o).bits|)
  {
    ModIn(ToInt(a), Coerce(o))
  }

  /** `o % a`: the remainder, with a's sign, in a's width. */
  function RMod(a: Blis, o: Operand): (r: Result<Blis>)
    ensures r.Err? <==> ToInt(a) == 0
    ensures r.Err? ==> r.error == ZeroDivisionError
    ensures r.Ok? ==> ToInt(r.value) == PyMod(OperandValue(o), ToInt(a))
    ensures r.Ok? ==> |r.value.bits| == WidthOr8(|a.bits|)
  {
    ModIn(ToInt(Coerce(o)), a)
  }

  /** `(a // o) * o + a % o` gives back a's reading. */
  lemma FloorDivModRecombine(a: Blis, o: Operand)
    requires OperandValue(o) != 0
    ensures ToInt(FloorDiv(a, o).value) * OperandValue(o) + ToInt(Mod(a, o).value) == ToInt(a)
  {
    var x, y := ToInt(a), OperandValue(o);
    var q := ToInt(FloorDiv(a, o).value);
    if y > 0 {
      DivModIdentity(x, y, q, x - q * y);
    } else {
      DivModIdentity(x, y, q, x - q * y);
    }
  }

  // ---------------------------------------------------------------------
  // Unary operators (binary.py:211-219, 280-281, 354-356)

  /** `+a`: a copy. Copying an empty list fails the width assertion. */
  function Pos(a: Blis): (r: Result<Blis>)
    ensures r.Ok? <==> |a.bits| > 0
    ensures r.Err? ==> r.error == AssertionError
    ensures r.Ok? ==> r.value == a
  {
    if |a.bits| > 0 then CopyIsResize(a, None); Copy(a, None)
    else Err(AssertionError)
  }

  /** `-a`: a negated copy. */
  function Neg(a: Blis): (r: Result<Blis>)
    ensures r.Ok? <==> |a.bits| > 0
    ensures r.Err? ==> r.error == AssertionError
    ensures r.Ok? ==> r.value == Negate(a)
  {
    var c := Pos(a);
    if c.Err? then c else Ok(Negate(c.value))
  }

  /** `-a` reads as the negated value, except for the two edge cases of
      two's complement negation. */
  lemma NegValue(a: Blis)
    requires |a.bits| > 0
    ensures !AllClear(a.bits) && !IsMinimum(a) ==> ToInt(Neg(a).value) == -ToInt(a)
    ensures IsMinimum(a) ==> Neg(a).value == a
    ensures AllClear(a.bits) ==> ToInt(Neg(a).value) == -Pow2(|a.bits|) && |Neg(a).value.bits| == |a.bits| + 1
  {
    NegateValue(a);
  }

  /** `~a`: an inverted copy, reading as -a - 1. */
  function InvertOp(a: Blis): (r: Result<Blis>)
    ensures r.Ok? <==> |a.bits| > 0
    ensures r.Err? ==> r.error == AssertionError
    ensures r.Ok? ==> ToInt(r.value) == -ToInt(a) - 1 && |r.value.bits| == |a.bits|
  {
    var c := Pos(a);
    if c.Err? then c else Ok(Invert(c.value))
  }

  /** `abs(a)`: negated when the sign bit is set, copied otherwise. */
  function AbsOp(a: Blis): (r: Result<Blis>)
    ensures r.Ok? <==> |a.bits| > 0
    ensures r.Err? ==> r.error == AssertionError
    ensures r.Ok? && !IsMinimum(a) ==> ToInt(r.value) == Abs(ToInt(a))
    ensures r.Ok? && IsMinimum(a) ==> r.value == a
  {
    if IsNeg(a) then
      if |a.bits| > 0 then NegateValue(a); ClearIsZero(a.bits); Neg(a) else Neg(a)
    else Pos(a)
  }

  // ---------------------------------------------------------------------
  // Comparisons (binary.py:472-483)

  /** `a == o`, `a <= o`, `a < o`: comparisons of the readings. */
  function Eq(a: Blis, o: Operand): (r: bool)
    ensures r <==> ToInt(a) == OperandValue(o)
  {
    ToInt(a) == ToInt(Coerce(o))
  }

  function Le(a: Blis, o: Operand): (r: bool)
    ensures r <==> ToInt(a) <= OperandValue(o)
  {
    ToInt(a) <= ToInt(Coerce(o))
  }

  function Lt(a: Blis, o: Operand): (r: bool)
    ensures r <==> ToInt(a) < OperandValue(o)
  {
    ToInt(a) < ToInt(Coerce(o))
  }

  /** Comparing with an int compares with the int itself, whatever the
      widths: coercion loses nothing. */
  lemma CompareWithInt(a: Blis, i: int)
    ensures Eq(a, Num(i)) <==> ToInt(a) == i
    ensures Le(a, Num(i)) <==> ToInt(a) <= i
    ensures Lt(a, Num(i)) <==> ToInt(a) < i
  {
  }

  /** Two lists of the same width are equal as numbers exactly when their
      bits agree; lists of different widths can be equal as numbers. */
  lemma EqSameWidth(a: Blis, b: Blis)
    requires |a.bits| == |b.bits| > 0
    ensures Eq(a, Vec(b)) <==> a == b
  {
    if Eq(a, Vec(b)) {
      ToIntInjective(a, b);
    }
  }

  // ---------------------------------------------------------------------
  // Indexing (binary.py:491-492)

  /** `a[i]` for an int index: Python's negative indices count from the top;
      the bit comes back as `blis(0)` or `blis(1)`, eight bits wide. */
  function GetItem(a: Blis, i: int): (r: Result<Blis>)
    ensures r.Ok? <==> -|a.bits| <= i < |a.bits|
    ensures r.Err? ==> r.error == IndexError
    ensures r.Ok? ==> |r.value.bits| == 8
    ensures r.Ok? ==> ToInt(r.value) == BitValue(a.bits[if i < 0 then i + |a.bits| else i])
  {
    if -|a.bits| <= i < |a.bits| then
      var bit := a.bits[if i < 0 then i + |a.bits| else i];
      var v := BitValue(bit);
      assert Pow2(0) == 1;
      FloorPow2Unique(1, 0);
      Ok(Exact(v))
    else Err(IndexError)
  }
}
