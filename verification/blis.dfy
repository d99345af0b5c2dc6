/** The `blis` class of binary.py (lines 52-219): a variable-width two's
    complement integer whose storage is its own bit list, LSB first.
    This module holds the representation, its integer reading, the width
    property, the in-place mutators (modelled as functions returning the new
    value) and the three constructors. */
module Blis {
  import opened Results
  import opened Powers
  import opened BitLists

  datatype Blis = Blis(bits: seq<bool>)

  /** `blis()` with no arguments: an empty bit list. */
  const Empty := Blis([])

  function Max(a: int, b: int): int { if a < b then b else a }

  /** Python's `nbits or default`: both None and 0 are falsy. */
  function OrDefault(w: Option<int>, default: int): int
  {
    if w.Some? && w.value != 0 then w.value else default
  }

  /** The `nbits` property. */
  function Width(b: Blis): nat { |b.bits| }

  /** The `isneg` property: the top bit, and true for an empty list. The
      top bit is set exactly when the pattern is in the upper half of its
      range. */
  function IsNeg(b: Blis): (r: bool)
    ensures r <==> |b.bits| == 0 || Unsigned(b.bits) >= Pow2(|b.bits| - 1)
  {
    TopBit(b.bits);
    if |b.bits| == 0 then true else b.bits[|b.bits| - 1]
  }

  /** `__int__`: the unsigned sum of the set bits, less 2^nbits when the top
      bit is set. An empty list reads as -1. */
  function ToInt(b: Blis): (r: int)
    ensures IsNeg(b) <==> r < 0
    ensures |b.bits| > 0 ==> -Pow2(|b.bits| - 1) <= r < Pow2(|b.bits| - 1)
    ensures |b.bits| == 0 ==> r == -1
  {
    UnsignedBound(b.bits);
    TopBit(b.bits);
    var v := Unsigned(b.bits);
    if IsNeg(b) then v - Pow2(|b.bits|) else v
  }

  /** Reading a two's complement value is reading its pattern modulo 2^n. */
  lemma ToIntMod(b: Blis)
    ensures ToInt(b) % Pow2(|b.bits|) == Unsigned(b.bits) % Pow2(|b.bits|)
  {
    if IsNeg(b) {
      ModAddMultiple(Unsigned(b.bits), -1, Pow2(|b.bits|));
    }
  }

  /** Two patterns of one width with the same reading are the same pattern. */
  lemma ToIntInjective(a: Blis, b: Blis)
    requires |a.bits| == |b.bits| > 0 && ToInt(a) == ToInt(b)
    ensures a == b
  {
    var n := |a.bits|;
    ToIntMod(a);
    ToIntMod(b);
    UnsignedBound(a.bits);
    UnsignedBound(b.bits);
    SameWindow(Unsigned(a.bits), Unsigned(b.bits), 0, Pow2(n));
    UnsignedInjective(a.bits, b.bits);
  }

  // ---------------------------------------------------------------------
  // Width (binary.py:145-159)

  /** The `nbits` setter: growing appends zero bits at the top, otherwise the
      list is cut to `bits[:n]` (Python slicing, so a negative n drops bits
      from the top end). */
  function Resize(b: Blis, n: int): (r: Blis)
    ensures |r.bits| == (if n >= 0 then n else SliceBound(n, |b.bits|))
    ensures forall i :: 0 <= i < |r.bits| ==> r.bits[i] == (i < |b.bits| && b.bits[i])
  {
    if n > |b.bits| then Blis(b.bits + Zeros(n - |b.bits|))
    else Blis(Upto(b.bits, n))
  }

  /** Resizing to n >= 0 bits keeps the pattern modulo 2^n. */
  lemma ResizeValue(b: Blis, n: nat)
    ensures Unsigned(Resize(b, n).bits) == Unsigned(b.bits) % Pow2(n)
  {
    var r := Resize(b, n);
    if n > |b.bits| {
      var pad := Zeros(n - |b.bits|);
      assert r.bits == b.bits + pad;
      UnsignedAppend(b.bits, pad);
      UnsignedClear(pad);
      UnsignedBound(b.bits);
      Pow2Order(|b.bits|, n);
      ModUnique(Unsigned(b.bits), Pow2(n), 0, Unsigned(b.bits));
    } else {
      assert r.bits == b.bits[..n];
      LowBits(b.bits, n);
    }
  }

  /** Growing keeps the reading of a non-negative value and changes that of
      a negative one: the padding is not a sign extension. */
  lemma GrowValue(b: Blis, n: nat)
    requires n > |b.bits| > 0
    ensures ToInt(Resize(b, n)) == ToInt(b) <==> !IsNeg(b)
  {
    var r := Resize(b, n);
    ResizeValue(b, n);
    UnsignedBound(b.bits);
    Pow2Order(|b.bits|, n);
    ModUnique(Unsigned(b.bits), Pow2(n), 0, Unsigned(b.bits));
    assert !r.bits[n - 1];
    assert !IsNeg(r);
  }

  // ---------------------------------------------------------------------
  // Mutators (binary.py:165-186)

  function Flip(s: seq<bool>): (r: seq<bool>)
    ensures |r| == |s|
  {
    seq(|s|, i requires 0 <= i < |s| => !s[i])
  }

  lemma {:induction false} UnsignedFlip(s: seq<bool>)
    ensures Unsigned(Flip(s)) == Pow2(|s|) - 1 - Unsigned(s)
    decreases |s|
  {
    if |s| > 0 {
      var n := |s|;
      assert Flip(s)[..n - 1] == Flip(s[..n - 1]);
      UnsignedFlip(s[..n - 1]);
    }
  }

  /** `invert`: flips every bit, keeping the width; the reading becomes
      -x - 1 (one's complement) for every non-empty x. */
  function Invert(b: Blis): (r: Blis)
    ensures |r.bits| == |b.bits|
    ensures forall i :: 0 <= i < |b.bits| ==> r.bits[i] == !b.bits[i]
    ensures Unsigned(r.bits) == Pow2(|b.bits|) - 1 - Unsigned(b.bits)
    ensures |b.bits| > 0 ==> ToInt(r) == -ToInt(b) - 1
  {
    UnsignedFlip(b.bits);
    Blis(Flip(b.bits))
  }

  /** The ripple-carry loop of `increment` on a bit list: set bits become 0
      until the first clear bit takes the carry; a carry that runs off the
      top appends a 1, growing the list. */
  function IncrementBits(s: seq<bool>): (r: seq<bool>)
    ensures Unsigned(r) == Unsigned(s) + 1
    ensures !AllSet(s) ==> |r| == |s|
    ensures AllSet(s) ==> r == Zeros(|s|) + [true]
    decreases |s|
  {
    if |s| == 0 then
      assert Unsigned([true]) == 1;
      [true]
    else if !s[0] then
      UnsignedFirst(s);
      UnsignedCons(true, s[1..]);
      [true] + s[1..]
    else
      var t := IncrementBits(s[1..]);
      UnsignedFirst(s);
      UnsignedCons(false, t);
      assert AllSet(s) <==> AllSet(s[1..]) by {
        if AllSet(s[1..]) {
          forall i | 0 <= i < |s| ensures s[i] {
            if i > 0 { assert s[1..][i - 1] == s[i]; }
          }
        }
      }
      assert AllSet(s) ==> [false] + t == Zeros(|s|) + [true];
      [false] + t
  }

  /** `increment`: adds one to the unsigned pattern at the same width, except
      that an all-ones pattern becomes all zeros with a 1 appended. */
  function Increment(b: Blis): (r: Blis)
    ensures Unsigned(r.bits) == Unsigned(b.bits) + 1
    ensures !AllSet(b.bits) ==> |r.bits| == |b.bits|
    ensures AllSet(b.bits) ==> r.bits == Zeros(|b.bits|) + [true]
  {
    Blis(IncrementBits(b.bits))
  }

  /** The smallest value of a width: only the sign bit set. */
  predicate IsMinimum(b: Blis)
  {
    |b.bits| > 0 && ToInt(b) == -Pow2(|b.bits| - 1)
  }

  lemma FlipAllSet(s: seq<bool>)
    ensures AllSet(Flip(s)) <==> AllClear(s)
  {
    if AllClear(s) {
      forall i | 0 <= i < |s| ensures Flip(s)[i] { }
    }
    if AllSet(Flip(s)) {
      forall i | 0 <= i < |s| ensures !s[i] { assert Flip(s)[i]; }
    }
  }

  lemma ClearIsZero(s: seq<bool>)
    ensures AllClear(s) <==> Unsigned(s) == 0
  {
    if AllClear(s) {
      UnsignedClear(s);
    } else {
      var i :| 0 <= i < |s| && s[i];
      LowBits(s, i + 1);
      LowBits(s[..i + 1], i);
      assert s[..i + 1][..i] == s[..i];
      assert s[..i + 1] == s[..i] + [true];
      UnsignedAppend(s[..i], [true]);
      assert Unsigned([true]) == 1;
      UnsignedAppend(s[..i + 1], s[i + 1..]);
      assert s == s[..i + 1] + s[i + 1..];
    }
  }

  /** `negate`: `invert` followed by `increment`. */
  function Negate(b: Blis): (r: Blis)
    ensures Unsigned(r.bits) == Pow2(|b.bits|) - Unsigned(b.bits)
    ensures AllClear(b.bits) ==> r.bits == Zeros(|b.bits|) + [true]
    ensures !AllClear(b.bits) ==> |r.bits| == |b.bits|
  {
    FlipAllSet(b.bits);
    Increment(Invert(b))
  }

  /** Negation is exact except at the two edges of a width: the minimum maps
      to itself, and zero grows by one bit into -2^n. In all cases the
      reading is -x modulo 2^n. */
  lemma NegateValue(b: Blis)
    requires |b.bits| > 0
    ensures ToInt(Negate(b)) % Pow2(|b.bits|) == (-ToInt(b)) % Pow2(|b.bits|)
    ensures !AllClear(b.bits) && !IsMinimum(b) ==> ToInt(Negate(b)) == -ToInt(b)
    ensures IsMinimum(b) ==> Negate(b) == b
    ensures AllClear(b.bits) ==> ToInt(Negate(b)) == -Pow2(|b.bits|)
  {
    ClearIsZero(b.bits);
    if AllClear(b.bits) {
      NegateOfZero(b);
      ModAddMultiple(0, -1, Pow2(|b.bits|));
    } else {
      NegateCongruent(b);
      if IsMinimum(b) {
        NegateMinimum(b);
      } else {
        NegateExact(b);
      }
    }
  }

  /** Zero grows into -2^n. */
  lemma NegateOfZero(b: Blis)
    requires |b.bits| > 0 && AllClear(b.bits)
    ensures ToInt(b) == 0
    ensures ToInt(Negate(b)) == -Pow2(|b.bits|)
  {
    var n, r := |b.bits|, Negate(b);
    ClearIsZero(b.bits);
    assert !IsNeg(b);
    assert r.bits == Zeros(n) + [true];
    UnsignedClear(Zeros(n));
    UnsignedAppend(Zeros(n), [true]);
    assert Unsigned([true]) == 1;
    assert Pow2(n + 1) == 2 * Pow2(n);
    assert IsNeg(r);
  }

  /** Away from zero the width is kept and the reading is -x modulo 2^n. */
  lemma NegateCongruent(b: Blis)
    requires |b.bits| > 0 && !AllClear(b.bits)
    ensures |Negate(b).bits| == |b.bits|
    ensures ToInt(Negate(b)) % Pow2(|b.bits|) == (-ToInt(b)) % Pow2(|b.bits|)
  {
    var r, m := Negate(b), Pow2(|b.bits|);
    var u: int := Unsigned(b.bits);
    ToIntMod(r);
    assert Unsigned(r.bits) == m - u;
    if !IsNeg(b) {
      ModAddMultiple(-u, 1, m);
    }
  }

  /** The minimum -2^(n-1) is its own negation. */
  lemma NegateMinimum(b: Blis)
    requires IsMinimum(b)
    ensures Negate(b) == b
  {
    var n, r := |b.bits|, Negate(b);
    var m, h := Pow2(n), Pow2(n - 1);
    assert m == 2 * h;
    assert IsNeg(b);
    assert !AllClear(b.bits);
    NegateCongruent(b);
    ModAddMultiple(-h, 1, m);
    SameWindow(ToInt(r), ToInt(b), -h, m);
    ToIntInjective(r, b);
  }

  /** Every other non-zero reading negates exactly. */
  lemma NegateExact(b: Blis)
    requires |b.bits| > 0 && !AllClear(b.bits) && !IsMinimum(b)
    ensures ToInt(Negate(b)) == -ToInt(b)
  {
    var n, r := |b.bits|, Negate(b);
    var m, h := Pow2(n), Pow2(n - 1);
    assert m == 2 * h;
    NegateCongruent(b);
    SameWindow(ToInt(r), -ToInt(b), -h, m);
  }
}
