/** Rounding of `blis` to powers of two (binary.py, lines 283-346): `ceil`,
    `floor` and `trunc` replace the value with a signed power of two found
    from the highest bit that differs from the sign bit; `round(x, k)` clears
    the k lowest bits. */
module BlisRounding {
  import opened Results
  import opened Powers
  import opened BitLists
  import opened Blis
  import opened Construction

  /** The `while self.bits[i] == v: i -= 1` scan, started at index i and
      moving down. Python's negative indices let it run past 0 into the list
      again from the top; after -n it raises IndexError (None here). A hit
      is reported as the list position it names. */
  function ScanDown(s: seq<bool>, v: bool, i: int): (r: Option<nat>)
    requires -|s| - 1 <= i < |s|
    requires forall k :: i < k < |s| && 0 <= k ==> s[k] == v
    ensures r.Some? ==> r.value < |s| && s[r.value] != v
    ensures r.Some? ==> forall k :: r.value < k < |s| ==> s[k] == v
    ensures r.None? <==> forall k :: 0 <= k < |s| ==> s[k] == v
    decreases i + |s| + 1
  {
    if i < -|s| then None
    else
      var j := if i < 0 then i + |s| else i;
      if s[j] != v then Some(j) else ScanDown(s, v, i - 1)
  }

  /** The highest position holding the opposite of v, scanning from the top. */
  function HighestNot(s: seq<bool>, v: bool): Option<nat>
  {
    ScanDown(s, v, |s| - 1)
  }

  /** A highest set bit at i puts the value in [2^i, 2^(i+1)). */
  lemma HighestSetBit(s: seq<bool>, i: nat)
    requires i < |s| && s[i]
    requires forall k :: i < k < |s| ==> !s[k]
    ensures Pow2(i) <= Unsigned(s) < Pow2(i + 1)
  {
    LowBits(s, i + 1);
    UnsignedClear(s[i + 1..]);
    UnsignedBound(s);
    var u, p := Unsigned(s), Pow2(i + 1);
    assert u / p == 0;
    ModUnique(u, p, 0, u % p);
    assert u == u % p;
    TopBit(s[..i + 1]);
  }

  /** For a non-negative reading, the highest set bit is `floorpow2` of the
      value, and the scan fails exactly for zero. */
  lemma ScanNonNegative(a: Blis)
    requires !IsNeg(a)
    ensures HighestNot(a.bits, false).None? <==> ToInt(a) == 0
    ensures HighestNot(a.bits, false).Some? ==>
      HighestNot(a.bits, false).value + 1 < |a.bits| &&
      FloorPow2(ToInt(a)) == Some(HighestNot(a.bits, false).value)
  {
    ClearIsZero(a.bits);
    var r := HighestNot(a.bits, false);
    if r.Some? {
      HighestSetBit(a.bits, r.value);
      FloorPow2Unique(ToInt(a), r.value);
    }
  }

  /** For a negative reading x, the highest clear bit is `floorpow2` of
      -x-1 (the inverted pattern), and the scan fails exactly for -1. */
  lemma ScanNegative(a: Blis)
    requires IsNeg(a)
    ensures HighestNot(a.bits, true).None? <==> ToInt(a) == -1
    ensures HighestNot(a.bits, true).Some? ==>
      HighestNot(a.bits, true).value + 1 < |a.bits| &&
      FloorPow2(-ToInt(a) - 1) == Some(HighestNot(a.bits, true).value)
  {
    var r := HighestNot(a.bits, true);
    if |a.bits| > 0 {
      var b := Invert(a);
      assert !IsNeg(b);
      ClearIsZero(b.bits);
      assert AllClear(b.bits) <==> forall k :: 0 <= k < |a.bits| ==> a.bits[k];
      if r.Some? {
        HighestSetBit(b.bits, r.value);
        FloorPow2Unique(ToInt(b), r.value);
      }
    }
  }

  /** `[0]*i + [1]*(n-i)` reads as -2^i. */
  lemma OnesAbove(n: nat, i: nat)
    requires i < n
    ensures ToInt(Blis(Zeros(i) + Ones(n - i))) == -Pow2(i)
  {
    var s := Zeros(i) + Ones(n - i);
    OnesAboveUnsigned(n, i);
    assert |s| == n && s[n - 1];
  }

  lemma OnesAboveUnsigned(n: nat, i: nat)
    requires i < n
    ensures Unsigned(Zeros(i) + Ones(n - i)) == Pow2(n) - Pow2(i)
  {
    UnsignedClear(Zeros(i));
    UnsignedOnes(n - i);
    ClearBelowSet(Zeros(i), Ones(n - i));
  }

  /** A clear low part under an all-ones high part. */
  lemma ClearBelowSet(z: seq<bool>, o: seq<bool>)
    requires Unsigned(z) == 0 && Unsigned(o) == Pow2(|o|) - 1
    ensures Unsigned(z + o) == Pow2(|z| + |o|) - Pow2(|z|)
  {
    UnsignedAppend(z, o);
    Pow2Add(|z|, |o|);
    WeightedOnes(Unsigned(z + o), Pow2(|z|), Unsigned(o), Pow2(|o|), Pow2(|z| + |o|));
  }

  lemma WeightedOnes(u: int, p: int, b: int, q: int, r: int)
    requires u == 0 + p * b && b == q - 1 && r == p * q
    ensures u == r - p
  {
    Distribute(p, q, -1);
  }

  /** A single set bit j in n bits reads as 2^j, or as -2^(n-1) when it is
      the sign bit. */
  lemma SingleBit(n: nat, j: nat)
    requires j < n
    ensures ToInt(Blis(Zeros(n)[j := true])) == if j == n - 1 then -Pow2(n - 1) else Pow2(j)
  {
    SetBitValue(Zeros(n), j);
    UnsignedClear(Zeros(n));
    if j == n - 1 {
      assert Pow2(n) == 2 * Pow2(n - 1);
    }
  }

  /** `ceil(x)`: towards positive infinity. A non-negative x goes to the next
      power of two above its top bit, 2^(floorpow2(x)+1), which overflows
      into the sign bit when that is bit n-1; a negative x goes to
      -2^floorpow2(-x-1). Zero and -1 have no bit to find: IndexError. */
  function Ceil(a: Blis): (r: Result<Blis>)
    ensures r.Err? <==> ToInt(a) == 0 || ToInt(a) == -1
    ensures r.Err? ==> r.error == IndexError
    ensures r.Ok? ==> |r.value.bits| == |a.bits|
    ensures r.Ok? && ToInt(a) > 0 ==> var f := FloorPow2(ToInt(a)).value;
      ToInt(r.value) == (if f + 2 < |a.bits| then Pow2(f + 1) else -Pow2(|a.bits| - 1))
    ensures r.Ok? && ToInt(a) < -1 ==> ToInt(r.value) == -Pow2(FloorPow2(-ToInt(a) - 1).value)
  {
    var n := |a.bits|;
    if IsNeg(a) then
      ScanNegative(a);
      match HighestNot(a.bits, true)
      case None => Err(IndexError)
      case Some(i) => OnesAbove(n, i); Ok(Blis(Zeros(i) + Ones(n - i)))
    else
      ScanNonNegative(a);
      match HighestNot(a.bits, false)
      case None => Err(IndexError)
      case Some(i) => SingleBit(n, i + 1); Ok(Blis(Zeros(n)[i + 1 := true]))
  }

  /** `floor(x)`: towards negative infinity. A non-negative x goes to
      2^floorpow2(x), a negative x to -2^(floorpow2(-x-1)+1). Zero and -1
      raise IndexError. */
  function Floor(a: Blis): (r: Result<Blis>)
    ensures r.Err? <==> ToInt(a) == 0 || ToInt(a) == -1
    ensures r.Err? ==> r.error == IndexError
    ensures r.Ok? ==> |r.value.bits| == |a.bits|
    ensures r.Ok? && ToInt(a) > 0 ==> ToInt(r.value) == Pow2(FloorPow2(ToInt(a)).value)
    ensures r.Ok? && ToInt(a) < -1 ==> ToInt(r.value) == -Pow2(FloorPow2(-ToInt(a) - 1).value + 1)
  {
    var n := |a.bits|;
    if IsNeg(a) then
      ScanNegative(a);
      match HighestNot(a.bits, true)
      case None => Err(IndexError)
      case Some(i) => OnesAbove(n, i + 1); Ok(Blis(Zeros(i + 1) + Ones(n - (i + 1))))
    else
      ScanNonNegative(a);
      match HighestNot(a.bits, false)
      case None => Err(IndexError)
      case Some(i) => SingleBit(n, i); Ok(Blis(Zeros(n)[i := true]))
  }

  /** `trunc(x)`: `ceil` for a negative x and `floor` otherwise, i.e. towards
      zero: the result keeps x's sign and its magnitude is at most x's, a
      power of two; 0 and -1 raise IndexError. */
  function Trunc(a: Blis): (r: Result<Blis>)
    ensures IsNeg(a) ==> r == Ceil(a)
    ensures !IsNeg(a) ==> r == Floor(a)
    ensures r.Err? <==> ToInt(a) == 0 || ToInt(a) == -1
    ensures r.Err? ==> r.error == IndexError
    ensures r.Ok? ==> |r.value.bits| == |a.bits|
    ensures r.Ok? && ToInt(a) > 0 ==> 0 < ToInt(r.value) <= ToInt(a)
    ensures r.Ok? && ToInt(a) < 0 ==> ToInt(a) < ToInt(r.value) < 0
  {
    if ToInt(a) != 0 && ToInt(a) != -1 then
      Bracket(a);
      if IsNeg(a) then Ceil(a) else Floor(a)
    else if IsNeg(a) then Ceil(a) else Floor(a)
  }

  /** Floor and ceil bracket the value, one power of two apart; away from
      the overflow, a positive power of two is sent up to its double. */
  lemma Bracket(a: Blis)
    requires ToInt(a) != 0 && ToInt(a) != -1
    ensures var x, lo := ToInt(a), ToInt(Floor(a).value);
      lo <= x && (x > 0 ==> x < 2 * lo) && (x < 0 ==> x < lo / 2)
    ensures var x, lo, hi := ToInt(a), ToInt(Floor(a).value), ToInt(Ceil(a).value);
      (x > 0 && FloorPow2(x).value + 2 < |a.bits| ==> lo <= x < hi && hi == 2 * lo)
      && (x < -1 ==> lo <= x < hi && lo == 2 * hi)
  {
    var x := ToInt(a);
    if x > 0 {
      var f := FloorPow2(x).value;
      assert Pow2(f + 1) == 2 * Pow2(f);
    } else {
      var f := FloorPow2(-x - 1).value;
      assert Pow2(f + 1) == 2 * Pow2(f);
    }
  }

  /** `round(x, k)`: a copy with the k lowest bits cleared. Copying an empty
      list fails; k beyond the width runs off the list (IndexError); a
      negative k clears nothing. */
  function Round(a: Blis, k: int): (r: Result<Blis>)
    ensures r.Err? <==> |a.bits| == 0 || k > |a.bits|
    ensures r.Err? ==> r.error == (if |a.bits| == 0 then AssertionError else IndexError)
    ensures r.Ok? ==> |r.value.bits| == |a.bits|
    ensures r.Ok? ==> forall i :: 0 <= i < |a.bits| ==> r.value.bits[i] == (i >= k && a.bits[i])
  {
    var c := Copy(a, None);
    if c.Err? then Err(AssertionError)
    else if k > |a.bits| then Err(IndexError)
    else
      CopyIsResize(a, None);
      var m := Max(k, 0);
      Ok(Blis(Zeros(m) + c.value.bits[m..]))
  }

  /** Rounding takes the pattern down to a multiple of 2^k. */
  lemma RoundValue(a: Blis, k: nat)
    requires 0 < |a.bits| && k <= |a.bits|
    ensures Unsigned(Round(a, k).value.bits) == Unsigned(a.bits) - Unsigned(a.bits) % Pow2(k)
    ensures Unsigned(Round(a, k).value.bits) % Pow2(k) == 0
  {
    var s := a.bits;
    var r := Round(a, k).value.bits;
    var lo, hi := s[..k], s[k..];
    assert r == Zeros(k) + hi;
    assert s == lo + hi;
    UnsignedAppend(Zeros(k), hi);
    UnsignedAppend(lo, hi);
    UnsignedClear(Zeros(k));
    LowBits(s, k);
    var u, p, w := Unsigned(s), Pow2(k), Unsigned(hi);
    assert Unsigned(r) == p * w;
    assert u == Unsigned(lo) + p * w;
    assert Unsigned(r) == w * p + 0;
    ModUnique(Unsigned(r), p, w, 0);
  }

  /** Rounding twice to the same k is rounding once. */
  lemma RoundIdempotent(a: Blis, k: int)
    requires Round(a, k).Ok?
    ensures Round(Round(a, k).value, k) == Round(a, k)
  {
    assert Round(Round(a, k).value, k).value.bits == Round(a, k).value.bits;
  }
}
