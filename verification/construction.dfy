/** The constructors of `blis` (binary.py, lines 76-139) and its string
    rendering (lines 204-205). */
module Construction {
  import opened Results
  import opened Powers
  import opened BitLists
  import opened Blis

  // ---------------------------------------------------------------------
  // from_value (binary.py:76-97)

  predicate Decreasing(il: seq<nat>)
  {
    forall j, k :: 0 <= j < k < |il| ==> il[j] > il[k]
  }

  lemma ExponentsBelow(il: seq<nat>, y: int, f: nat)
    requires y < Pow2(f)
    requires forall k :: 0 <= k < |il| ==> Pow2(il[k]) <= y
    ensures forall k :: 0 <= k < |il| ==> il[k] < f
  {
    forall k | 0 <= k < |il| ensures il[k] < f {
      Pow2Order(il[k], f);
    }
  }

  /** The `while val:` loop of `from_value`: repeatedly take the largest
      power of two (`floorpow2`) out of x; the list of exponents taken. */
  function PowersOf(x: nat): (il: seq<nat>)
    ensures x == 0 <==> il == []
    ensures x > 0 ==> FloorPow2(x) == Some(il[0])
    ensures Decreasing(il)
    ensures forall k :: 0 <= k < |il| ==> Pow2(il[k]) <= x
    decreases x
  {
    if x == 0 then []
    else
      var f := FloorPow2(x).value;
      var rest := PowersOf(x - Pow2(f));
      ExponentsBelow(rest, x - Pow2(f), f);
      [f] + rest
  }

  /** The `for i in il: if i < nbits: bits[i] = 1` loop. */
  function SetBits(s: seq<bool>, il: seq<nat>): (r: seq<bool>)
    ensures |r| == |s|
    decreases |il|
  {
    if il == [] then s
    else SetBits(if il[0] < |s| then s[il[0] := true] else s, il[1..])
  }

  /** The sum of 2^i over the exponents i of il below n. */
  function SumBelow(il: seq<nat>, n: nat): int
  {
    if il == [] then 0
    else (if il[0] < n then Pow2(il[0]) else 0) + SumBelow(il[1..], n)
  }

  lemma {:induction false} SetBitsValue(s: seq<bool>, il: seq<nat>)
    requires Decreasing(il)
    requires forall k :: 0 <= k < |il| && il[k] < |s| ==> !s[il[k]]
    ensures Unsigned(SetBits(s, il)) == Unsigned(s) + SumBelow(il, |s|)
    decreases |il|
  {
    if il != [] {
      var s' := if il[0] < |s| then s[il[0] := true] else s;
      if il[0] < |s| {
        SetBitValue(s, il[0]);
      }
      forall k | 0 <= k < |il[1..]| && il[1..][k] < |s'| ensures !s'[il[1..][k]] {
        assert il[1..][k] == il[k + 1] < il[0];
      }
      SetBitsValue(s', il[1..]);
    }
  }

  lemma SmallMod(x: int, m: int)
    requires 0 <= x < m
    ensures x % m == x
  {
    ModUnique(x, m, 0, x);
  }

  /** Removing the top power 2^f of x leaves x's residue modulo 2^n
      unchanged when f >= n, and leaves y == x - 2^f below 2^n otherwise. */
  lemma DropTopPower(x: int, f: nat, n: nat)
    requires Pow2(f) <= x < Pow2(f + 1)
    ensures f < n ==> x % Pow2(n) == x && (x - Pow2(f)) % Pow2(n) == x - Pow2(f)
    ensures f >= n ==> x % Pow2(n) == (x - Pow2(f)) % Pow2(n)
  {
    var y := x - Pow2(f);
    if f < n {
      assert Pow2(f + 1) == 2 * Pow2(f);
      Pow2Order(f + 1, n);
      SmallMod(x, Pow2(n));
      SmallMod(y, Pow2(n));
    } else {
      Pow2Add(n, f - n);
      assert x == y + Pow2(f - n) * Pow2(n);
      ModAddMultiple(y, Pow2(f - n), Pow2(n));
    }
  }

  /** Keeping the exponents below n of the power decomposition of x adds up
      to x modulo 2^n. */
  lemma {:induction false} SumBelowPowers(x: nat, n: nat)
    ensures SumBelow(PowersOf(x), n) == x % Pow2(n)
    decreases x
  {
    if x > 0 {
      var il := PowersOf(x);
      var f := il[0];
      var y := x - Pow2(f);
      assert il[1..] == PowersOf(y);
      assert SumBelow(il, n) == (if f < n then Pow2(f) else 0) + SumBelow(PowersOf(y), n);
      SumBelowPowers(y, n);
      DropTopPower(x, f, n);
    } else {
      assert PowersOf(x) == [];
      SmallMod(0, Pow2(n));
    }
  }

  /** The positive pattern `from_value` builds: bits of x below the width. */
  lemma PatternValue(x: nat, n: nat)
    ensures Unsigned(SetBits(Zeros(n), PowersOf(x))) == x % Pow2(n)
  {
    SetBitsValue(Zeros(n), PowersOf(x));
    UnsignedClear(Zeros(n));
    SumBelowPowers(x, n);
  }

  function Abs(v: int): nat { if v < 0 then -v else v }

  /** `from_value(val, nbits)`. Zero gives `nbits or 8` clear bits (none when
      the requested width is negative: `[0] * n` is empty); any other value
      is decomposed into powers of two, laid out in a width of `nbits` or of
      `max(m, 8)` with m the top exponent plus two, and negated when val is
      negative. A negative requested width fails the width assertion. */
  function FromValue(v: int, w: Option<int>): (r: Result<Blis>)
    ensures r.Err? <==> v != 0 && w.Some? && w.value < 0
    ensures r.Err? ==> r.error == AssertionError
    ensures v == 0 ==> r.Ok? && AllClear(r.value.bits)
  {
    if v == 0 then
      var n := OrDefault(w, 8);
      Ok(Blis(Zeros(if n > 0 then n else 0)))
    else
      var n := OrDefault(w, AutoWidth(v));
      if n <= 0 then Err(AssertionError)
      else Ok(Encode(v, n))
  }

  /** The width chosen when none is requested: the top exponent of |v| plus
      two, at least 8 (and 8 for zero). */
  function AutoWidth(v: int): nat
  {
    if v == 0 then 8 else Max(FloorPow2(Abs(v)).value + 2, 8)
  }

  /** The pattern `from_value` lays out for a non-zero v in n bits. */
  function Pattern(v: int, n: nat): Blis
  {
    Blis(SetBits(Zeros(n), PowersOf(Abs(v))))
  }

  /** The pattern, negated when v is negative. */
  function Encode(v: int, n: nat): Blis
  {
    var p := Pattern(v, n);
    if v < 0 then Negate(p) else p
  }

  lemma PatternFacts(v: int, n: nat)
    requires v != 0 && n > 0
    ensures |Pattern(v, n).bits| == n
    ensures Unsigned(Pattern(v, n).bits) == Abs(v) % Pow2(n)
    ensures FromValue(v, Some(n)) == Ok(if v < 0 then Negate(Pattern(v, n)) else Pattern(v, n))
  {
    PatternValue(Abs(v), n);
  }

  lemma FromValuePositive(v: int, n: int)
    requires n > 0 && v > 0
    ensures FromValue(v, Some(n)).Ok?
    ensures ToInt(FromValue(v, Some(n)).value) % Pow2(n) == v % Pow2(n)
    ensures |FromValue(v, Some(n)).value.bits| == n
  {
    PatternFacts(v, n);
    var p := Pattern(v, n);
    ToIntMod(p);
    ModMod(v, Pow2(n));
  }

  lemma ModMod(x: int, m: int)
    requires m > 0
    ensures (x % m) % m == x % m
  {
    SmallMod(x % m, m);
  }

  /** -(a mod m) and -a agree modulo m. */
  lemma NegMod(a: int, m: int)
    requires m > 0
    ensures (-(a % m)) % m == (-a) % m
  {
    ModUnique(a, m, a / m, a % m);
    assert -a == -(a % m) + (-(a / m)) * m;
    ModAddMultiple(-(a % m), -(a / m), m);
  }

  /** Negation respects congruence modulo m. */
  lemma NegCongruent(a: int, b: int, m: int)
    requires m > 0 && a % m == b % m
    ensures (-a) % m == (-b) % m
    ensures a % m == 0 <==> (-a) % m == 0
  {
    NegMod(a, m);
    NegMod(b, m);
    NegMod(-a, m);
    assert -(-a) == a;
  }

  /** Negating an n-bit pattern that holds (-v) mod 2^n. */
  lemma NegatePattern(p: Blis, v: int, n: nat)
    requires n > 0 && v < 0 && |p.bits| == n
    requires Unsigned(p.bits) == (-v) % Pow2(n)
    ensures ToInt(Negate(p)) % Pow2(n) == v % Pow2(n)
    ensures v % Pow2(n) == 0 ==> |Negate(p).bits| == n + 1 && ToInt(Negate(p)) == -Pow2(n)
    ensures v % Pow2(n) != 0 ==> |Negate(p).bits| == n
  {
    var m := Pow2(n);
    var r := Negate(p);
    NegateValue(p);
    ToIntMod(p);
    ClearIsZero(p.bits);
    var a, b, u := ToInt(p), -v, Unsigned(p.bits);
    SmallMod(u, m);
    assert a % m == b % m;
    NegCongruent(a, b, m);
    assert -b == v;
    NegCongruent(v, v, m);
    assert AllClear(p.bits) <==> v % m == 0;
  }

  lemma FromValueNegative(v: int, n: int)
    requires n > 0 && v < 0
    ensures FromValue(v, Some(n)).Ok?
    ensures ToInt(FromValue(v, Some(n)).value) % Pow2(n) == v % Pow2(n)
    ensures var r := FromValue(v, Some(n)).value;
      if v % Pow2(n) == 0 then |r.bits| == n + 1 && ToInt(r) == -Pow2(n)
      else |r.bits| == n
  {
    PatternFacts(v, n);
    assert Abs(v) == -v;
    NegatePattern(Pattern(v, n), v, n);
  }

  /** With a positive requested width n the reading agrees with v modulo
      2^n: the value wraps. The width is n, except that a negative multiple
      of 2^n grows by one bit into -2^n (the carry out of `negate`). */
  lemma FromValueWraps(v: int, n: int)
    requires n > 0
    ensures FromValue(v, Some(n)).Ok?
    ensures ToInt(FromValue(v, Some(n)).value) % Pow2(n) == v % Pow2(n)
    ensures var r := FromValue(v, Some(n)).value;
      if v < 0 && v % Pow2(n) == 0 then |r.bits| == n + 1 && ToInt(r) == -Pow2(n)
      else |r.bits| == n
  {
    if v == 0 {
      var r := FromValue(v, Some(n)).value;
      UnsignedClear(r.bits);
      ToIntMod(r);
    } else if v > 0 {
      FromValuePositive(v, n);
    } else {
      FromValueNegative(v, n);
    }
  }

  /** Values in the n-bit two's complement range are encoded exactly in n
      bits. */
  lemma FromValueFixedWidth(v: int, n: int)
    requires n > 0 && -Pow2(n - 1) <= v < Pow2(n - 1)
    ensures FromValue(v, Some(n)).Ok?
    ensures ToInt(FromValue(v, Some(n)).value) == v
    ensures |FromValue(v, Some(n)).value.bits| == n
  {
    var m, h := Pow2(n), Pow2(n - 1);
    assert m == 2 * h;
    FromValueWraps(v, n);
    var r := FromValue(v, Some(n)).value;
    if v < 0 { NonZeroMod(v, m); }
    assert |r.bits| == n;
    SameWindow(ToInt(r), v, -h, m);
  }

  lemma NonZeroMod(v: int, m: int)
    requires -m < v < 0 && m > 0
    ensures v % m != 0
  {
    ModUnique(v, m, -1, v + m);
  }

  /** Without a requested width (or with width 0) every integer round-trips
      through `blis`, in `max(floor(log2|v|) + 2, 8)` bits, 8 for zero. */
  lemma FromValueRoundTrip(v: int, w: Option<int>)
    requires OrDefault(w, 0) == 0
    ensures FromValue(v, w).Ok?
    ensures ToInt(FromValue(v, w).value) == v
    ensures |FromValue(v, w).value.bits| == AutoWidth(v)
  {
    var n := AutoWidth(v);
    if v == 0 {
      UnsignedClear(FromValue(v, w).value.bits);
    } else {
      AutoWidthFits(v);
      FromValueFixedWidth(v, n);
    }
  }

  /** The width chosen automatically is the least width of at least 8 that
      holds |v| with a clear sign bit. */
  lemma AutoWidthFits(v: int)
    requires v != 0
    ensures Abs(v) < Pow2(AutoWidth(v) - 1)
    ensures AutoWidth(v) > 8 ==> Pow2(AutoWidth(v) - 2) <= Abs(v)
  {
    var f := FloorPow2(Abs(v)).value;
    Pow2Order(f + 1, AutoWidth(v) - 1);
  }

  // ---------------------------------------------------------------------
  // from_sequence (binary.py:99-112) and copies

  /** An element of the iterable given to `from_sequence`: a bool, an int, or
      a value of any other type. */
  datatype Elem = BoolElem(b: bool) | IntElem(i: int) | OtherElem

  /** Elements must be bools or the ints 0 and 1. */
  predicate ValidElem(e: Elem)
  {
    e.BoolElem? || (e.IntElem? && (e.i == 0 || e.i == 1))
  }

  function ElemBit(e: Elem): bool
    requires ValidElem(e)
  {
    if e.BoolElem? then e.b else e.i == 1
  }

  predicate AllValid(elems: seq<Elem>)
  {
    forall k :: 0 <= k < |elems| ==> ValidElem(elems[k])
  }

  /** `from_sequence(seq, nbits)`: the width is `nbits or len(seq)` and must
      be positive; every element is type-checked (also those past the
      width); then the list is cut to its first nbits elements and padded
      with zeros at the top. */
  function FromSequence(elems: seq<Elem>, w: Option<int>): (r: Result<Blis>)
    ensures r.Ok? <==> OrDefault(w, |elems|) > 0 && AllValid(elems)
    ensures r.Err? ==> r.error == (if OrDefault(w, |elems|) <= 0 then AssertionError else TypeError)
    ensures r.Ok? ==> |r.value.bits| == OrDefault(w, |elems|)
    ensures r.Ok? ==> forall i :: 0 <= i < |r.value.bits| ==>
      r.value.bits[i] == (i < |elems| && ElemBit(elems[i]))
  {
    var n := OrDefault(w, |elems|);
    if n <= 0 then Err(AssertionError)
    else if !AllValid(elems) then Err(TypeError)
    else
      var bits := seq(|elems|, k requires 0 <= k < |elems| => ElemBit(elems[k]));
      var kept := Upto(bits, n);
      Ok(Blis(kept + Zeros(n - |kept|)))
  }

  function AsElems(s: seq<bool>): (r: seq<Elem>)
    ensures |r| == |s| && AllValid(r)
    ensures forall k :: 0 <= k < |s| ==> ElemBit(r[k]) == s[k]
  {
    seq(|s|, k requires 0 <= k < |s| => IntElem(BitValue(s[k])))
  }

  /** `blis(other, nbits)` for another blis: its bits go through
      `from_sequence`. It fails only when the width comes out non-positive,
      e.g. when copying an empty list without a width. */
  function Copy(b: Blis, w: Option<int>): (r: Result<Blis>)
    ensures r.Ok? <==> OrDefault(w, |b.bits|) > 0
  {
    FromSequence(AsElems(b.bits), w)
  }

  /** A copy is the `nbits` setter applied to the original. */
  lemma CopyIsResize(b: Blis, w: Option<int>)
    requires OrDefault(w, |b.bits|) > 0
    ensures Copy(b, w) == Ok(Resize(b, OrDefault(w, |b.bits|)))
    ensures w.None? ==> Copy(b, w) == Ok(b)
  {
    var r := Copy(b, w).value;
    var z := Resize(b, OrDefault(w, |b.bits|));
    assert r.bits == z.bits;
    if w.None? {
      assert z.bits == b.bits;
    }
  }

  /** With a width, `from_sequence` keeps the pattern modulo 2^n: a lossy
      truncation at the top when the sequence is longer. */
  lemma FromSequenceValue(elems: seq<Elem>, n: int)
    requires n > 0 && AllValid(elems)
    ensures Unsigned(FromSequence(elems, Some(n)).value.bits)
      == Unsigned(seq(|elems|, k requires 0 <= k < |elems| => ElemBit(elems[k]))) % Pow2(n)
  {
    var bits := seq(|elems|, k requires 0 <= k < |elems| => ElemBit(elems[k]));
    var r := FromSequence(elems, Some(n)).value;
    assert r == Resize(Blis(bits), n);
    ResizeValue(Blis(bits), n);
  }

  // ---------------------------------------------------------------------
  // from_string (binary.py:114-120) and __str__ (binary.py:204-205)

  predicate IsDigit(c: char) { '0' <= c <= '9' }

  function DigitValue(c: char): int
    requires IsDigit(c)
  {
    c as int - '0' as int
  }

  predicate IsBinaryString(s: string)
  {
    forall k :: 0 <= k < |s| ==> s[k] == '0' || s[k] == '1'
  }

  /** `from_string(string, nbits)`: the characters are read in reverse (the
      string is MSB first) through `int(x)` (a non-digit raises ValueError),
      each must be 0 or 1 (else the assertion fails), and the list goes
      through `from_sequence`. */
  function FromString(s: string, w: Option<int>): (r: Result<Blis>)
    ensures (exists k :: 0 <= k < |s| && !IsDigit(s[k])) ==> r == Err(ValueError)
    ensures (forall k :: 0 <= k < |s| ==> IsDigit(s[k])) && !IsBinaryString(s) ==> r == Err(AssertionError)
  {
    if exists k :: 0 <= k < |s| && !IsDigit(s[k]) then Err(ValueError)
    else
      var digits := seq(|s|, k requires 0 <= k < |s| => DigitValue(s[|s| - 1 - k]));
      if exists k :: 0 <= k < |s| && digits[k] != 0 && digits[k] != 1 then Err(AssertionError)
      else
        assert IsBinaryString(s) by {
          forall j | 0 <= j < |s| ensures s[j] == '0' || s[j] == '1' {
            assert digits[|s| - 1 - j] == DigitValue(s[j]);
          }
        }
        FromSequence(seq(|s|, k requires 0 <= k < |s| => IntElem(digits[k])), w)
  }

  /** The elements `from_string` hands to `from_sequence` for a '0'/'1'
      string: its characters as 0/1 ints, last character first. */
  function BinaryElems(s: string): (r: seq<Elem>)
    ensures |r| == |s| && AllValid(r)
    ensures forall i :: 0 <= i < |s| ==> ElemBit(r[i]) == (s[|s| - 1 - i] == '1')
  {
    seq(|s|, k requires 0 <= k < |s| => IntElem(if s[|s| - 1 - k] == '1' then 1 else 0))
  }

  /** On a '0'/'1' string, `from_string` passes neither check and is
      `from_sequence` of its reversed digits. */
  lemma FromStringIsSequence(s: string, w: Option<int>)
    requires IsBinaryString(s)
    ensures FromString(s, w) == FromSequence(BinaryElems(s), w)
  {
    assert !exists k :: 0 <= k < |s| && !IsDigit(s[k]);
    var digits := seq(|s|, k requires 0 <= k < |s| => DigitValue(s[|s| - 1 - k]));
    assert forall k :: 0 <= k < |s| ==> digits[k] == (if s[|s| - 1 - k] == '1' then 1 else 0);
    assert !exists k :: 0 <= k < |s| && digits[k] != 0 && digits[k] != 1;
    assert seq(|s|, k requires 0 <= k < |s| => IntElem(digits[k])) == BinaryElems(s);
  }

  /** A '0'/'1' string is read last character first, then cut or padded to
      the width `nbits or len(s)`. */
  lemma FromStringBits(s: string, w: Option<int>)
    requires IsBinaryString(s)
    ensures FromString(s, w).Ok? <==> OrDefault(w, |s|) > 0
    ensures FromString(s, w).Ok? ==> |FromString(s, w).value.bits| == OrDefault(w, |s|)
    ensures FromString(s, w).Ok? ==> forall i :: 0 <= i < |FromString(s, w).value.bits| ==>
      FromString(s, w).value.bits[i] == (i < |s| && s[|s| - 1 - i] == '1')
  {
    FromStringIsSequence(s, w);
  }

  /** `__str__`: the bits from the top down as '0'/'1' characters. */
  function Str(b: Blis): (r: string)
    ensures |r| == |b.bits| && IsBinaryString(r)
  {
    seq(|b.bits|, k requires 0 <= k < |b.bits| => if b.bits[|b.bits| - 1 - k] then '1' else '0')
  }

  /** A non-empty '0'/'1' string survives `str(blis(s))`. */
  lemma StringRoundTrip(s: string)
    requires |s| > 0 && IsBinaryString(s)
    ensures FromString(s, None).Ok?
    ensures Str(FromString(s, None).value) == s
  {
    FromStringBits(s, None);
    var r := FromString(s, None).value;
    var t := Str(r);
    forall k | 0 <= k < |s| ensures t[k] == s[k] {
      assert r.bits[|s| - 1 - k] == (s[k] == '1');
    }
  }

  /** A non-empty blis survives `blis(str(x))`. */
  lemma StrRoundTrip(b: Blis)
    requires |b.bits| > 0
    ensures FromString(Str(b), None) == Ok(b)
  {
    var s := Str(b);
    FromStringBits(s, None);
    var r := FromString(s, None).value;
    forall i | 0 <= i < |b.bits| ensures r.bits[i] == b.bits[i] {
      assert s[|s| - 1 - i] == (if b.bits[i] then '1' else '0');
    }
    assert r.bits == b.bits;
  }

  /** The docstring's example `blis(13, 4)`: the stored list is [1, 0, 1, 1]
      and prints as '1101', but the top bit is the sign, so it reads -3. */
  lemma Docstring13(v: int, n: int)
    requires v == 13 && n == 4
    ensures FromValue(v, Some(n)) == Ok(Blis([true, false, true, true]))
    ensures Str(FromValue(v, Some(n)).value) == "1101"
    ensures ToInt(FromValue(v, Some(n)).value) == -3
  {
    var r := FromValue(v, Some(n)).value;
    var want := Blis([true, false, true, true]);
    FromValueWraps(v, n);
    assert Pow2(n) == 16;
    Reads13(want.bits);
    assert ToInt(want) == -3;
    assert |r.bits| == 4 && Pow2(n - 1) == 8;
    ModUnique(-3, 16, -1, 13);
    ModUnique(13, 16, 0, 13);
    SameWindow(ToInt(r), -3, -8, 16);
    ToIntInjective(r, want);
  }

  lemma Reads13(s: seq<bool>)
    requires s == [true, false, true, true]
    ensures Unsigned(s) == 13
  {
    UnsignedCons(true, []);
    assert [true] == [true] + [];
    UnsignedCons(true, [true]);
    assert [true] + [true] == [true, true];
    UnsignedCons(false, [true, true]);
    assert [false] + [true, true] == [false, true, true];
    UnsignedCons(true, [false, true, true]);
    assert [true] + [false, true, true] == s;
  }

  // ---------------------------------------------------------------------
  // Dispatch on the first constructor argument (binary.py:122-139)

  /** The first argument of `blis(...)`, by runtime type. */
  datatype Arg = IntArg(v: int) | StrArg(s: string) | SeqArg(elems: seq<Elem>) | OtherArg

  /** `blis(arg, nbits)`: ints, strings and other iterables go to their
      constructor; anything else is a TypeError. An int reads back as itself
      without a width and modulo 2^nbits with one; a '0'/'1' string is read
      last character first; a sequence is type-checked, then cut or padded
      to `nbits or len(seq)`. */
  function Construct(a: Arg, w: Option<int>): (r: Result<Blis>)
    ensures a.OtherArg? ==> r == Err(TypeError)
    ensures a.IntArg? ==> r == FromValue(a.v, w)
    ensures a.IntArg? && OrDefault(w, 0) == 0 ==> r.Ok? && ToInt(r.value) == a.v
    ensures a.IntArg? && OrDefault(w, 0) > 0 ==>
      r.Ok? && ToInt(r.value) % Pow2(w.value) == a.v % Pow2(w.value)
    ensures a.StrArg? && !IsBinaryString(a.s) ==>
      r == Err(if exists k :: 0 <= k < |a.s| && !IsDigit(a.s[k]) then ValueError else AssertionError)
    ensures a.StrArg? && IsBinaryString(a.s) ==> (r.Ok? <==> OrDefault(w, |a.s|) > 0)
    ensures a.StrArg? && IsBinaryString(a.s) && r.Ok? ==>
      |r.value.bits| == OrDefault(w, |a.s|)
      && forall i :: 0 <= i < |r.value.bits| ==> r.value.bits[i] == (i < |a.s| && a.s[|a.s| - 1 - i] == '1')
    ensures a.SeqArg? ==> (r.Ok? <==> OrDefault(w, |a.elems|) > 0 && AllValid(a.elems))
    ensures a.SeqArg? && r.Ok? ==>
      |r.value.bits| == OrDefault(w, |a.elems|)
      && forall i :: 0 <= i < |r.value.bits| ==> r.value.bits[i] == (i < |a.elems| && ElemBit(a.elems[i]))
  {
    match a
    case IntArg(v) =>
      if OrDefault(w, 0) == 0 then FromValueRoundTrip(v, w); FromValue(v, w)
      else if w.value > 0 then FromValueWraps(v, w.value); FromValue(v, w)
      else FromValue(v, w)
    case StrArg(s) =>
      if IsBinaryString(s) then FromStringBits(s, w); FromString(s, w)
      else FromString(s, w)
    case SeqArg(elems) => FromSequence(elems, w)
    case OtherArg => Err(TypeError)
  }

  /** The whole argument list of `blis(...)`: none, one or two (the first
      argument and `nbits`), or more than two. */
  datatype Args = NoArgs | Args(first: Arg, nbits: Option<int>) | TooMany

  /** `blis(*args)`: no arguments leave the empty list; more than two are a
      TypeError raised before the first argument is looked at; otherwise the
      first argument is dispatched on its type. */
  function Init(args: Args): (r: Result<Blis>)
    ensures args.NoArgs? ==> r == Ok(Blis([]))
    ensures args.TooMany? ==> r == Err(TypeError)
    ensures args.Args? ==> r == Construct(args.first, args.nbits)
  {
    match args
    case NoArgs => Ok(Blis([]))
    case TooMany => Err(TypeError)
    case Args(first, nbits) => Construct(first, nbits)
  }
}
