/** The shift operators of `blis` (binary.py, lines 408-466). Shifting by an
    int moves the pattern within its own width (`a << k`, `k >> a`) or keeps
    a slice of it (`a >> k`, `k << a`); shifting by another blis splices the
    two patterns together. */
module BlisShift {
  import opened Results
  import opened Powers
  import opened BitLists
  import opened Blis
  import opened Construction

  /** `blis(list)` for a list of bits: the list itself, or the width
      assertion failing when the list is empty. */
  function OfBits(s: seq<bool>): (r: Result<Blis>)
    ensures r.Ok? <==> |s| > 0
    ensures r.Ok? ==> r.value == Blis(s)
    ensures r.Err? ==> r.error == AssertionError
  {
    if |s| > 0 then CopyIsResize(Blis(s), None); Copy(Blis(s), None)
    else Copy(Blis(s), None)
  }

  /** `a << k` for an int k: k zero bits are put below the pattern and the
      result is cut back to a's width (a negative k puts none). */
  function LShiftInt(a: Blis, k: int): (r: Blis)
    ensures |r.bits| == |a.bits|
    ensures forall i :: 0 <= i < |a.bits| ==> r.bits[i] == (i >= k && a.bits[i - Max(k, 0)])
  {
    var pad := Zeros(Max(k, 0));
    Resize(Blis(pad + a.bits), |a.bits|)
  }

  /** `a << k` multiplies the pattern by 2^k, modulo 2^n. */
  lemma LShiftValue(a: Blis, k: nat)
    ensures Unsigned(LShiftInt(a, k).bits) == (Unsigned(a.bits) * Pow2(k)) % Pow2(|a.bits|)
  {
    var pad := Zeros(k);
    var s := pad + a.bits;
    var u, p := Unsigned(a.bits), Pow2(k);
    UnsignedAppend(pad, a.bits);
    UnsignedClear(pad);
    assert |pad| == k;
    assert Unsigned(s) == p * u;
    assert p * u == u * p;
    assert LShiftInt(a, k) == Resize(Blis(s), |a.bits|);
    ResizeValue(Blis(s), |a.bits|);
  }

  /** `a << b` for a blis b: b's bits are put below a's and the result is cut
      back to a's width. Copying an empty b fails. */
  function LShiftVec(a: Blis, b: Blis): (r: Result<Blis>)
    ensures r.Ok? <==> |b.bits| > 0
    ensures r.Err? ==> r.error == AssertionError
    ensures r.Ok? ==> |r.value.bits| == |a.bits|
    ensures r.Ok? ==> forall i :: 0 <= i < |a.bits| ==>
      r.value.bits[i] == (if i < |b.bits| then b.bits[i] else a.bits[i - |b.bits|])
  {
    var c := OfBits(b.bits);
    if c.Err? then Err(c.error)
    else Ok(Blis((c.value.bits + a.bits)[..|a.bits|]))
  }

  /** `a << b` is `a << len(b)` with b's bits in the vacated places. */
  lemma LShiftVecValue(a: Blis, b: Blis)
    requires 0 < |b.bits| <= |a.bits|
    ensures Unsigned(LShiftVec(a, b).value.bits)
      == (Unsigned(b.bits) + Unsigned(a.bits) * Pow2(|b.bits|)) % Pow2(|a.bits|)
  {
    var s := b.bits + a.bits;
    var u, p := Unsigned(a.bits), Pow2(|b.bits|);
    UnsignedAppend(b.bits, a.bits);
    assert Unsigned(s) == Unsigned(b.bits) + p * u;
    assert p * u == u * p;
    assert LShiftVec(a, b).value.bits == s[..|a.bits|];
    LowBits(s, |a.bits|);
  }

  /** `k << a` for an int k: `blis(a.bits[-k:])`. A k larger than the width
      is a TypeError. For 0 < k <= n it keeps the top k bits, the value
      divided by 2^(n-k); `a.bits[-0:]` is the whole list, so k = 0 copies
      a; a negative k drops the low -k bits instead. An empty slice fails
      the width assertion. */
  function RLShift(a: Blis, k: int): (r: Result<Blis>)
    ensures k > |a.bits| ==> r == Err(TypeError)
    ensures k <= |a.bits| ==> r == OfBits(From(a.bits, -k))
    ensures r.Err? <==> k > |a.bits| || (k <= 0 && -k >= |a.bits|)
    ensures r.Err? ==> r.error == (if k > |a.bits| then TypeError else AssertionError)
    ensures 0 < k <= |a.bits| ==> (r.Ok? && |r.value.bits| == k
      && Unsigned(r.value.bits) == Unsigned(a.bits) / Pow2(|a.bits| - k))
    ensures k == 0 && |a.bits| > 0 ==> r == Ok(a)
    ensures k < 0 && -k < |a.bits| ==> (r.Ok? && |r.value.bits| == |a.bits| + k
      && Unsigned(r.value.bits) == Unsigned(a.bits) / Pow2(-k))
  {
    var n := |a.bits|;
    if k > n then Err(TypeError)
    else if 0 < k then
      LowBits(a.bits, n - k);
      OfBits(From(a.bits, -k))
    else if -k < n then
      LowBits(a.bits, -k);
      OfBits(From(a.bits, -k))
    else OfBits(From(a.bits, -k))
  }

  /** `a >> k` for an int k: `blis(a.bits[:k])`. A k larger than the width
      is a TypeError. For 0 < k <= n it keeps the low k bits, the value
      modulo 2^k; a negative k drops the top -k bits instead. An empty
      slice (k = 0, or -k >= n) fails the width assertion. */
  function RShiftInt(a: Blis, k: int): (r: Result<Blis>)
    ensures k > |a.bits| ==> r == Err(TypeError)
    ensures k <= |a.bits| ==> r == OfBits(Upto(a.bits, k))
    ensures r.Err? <==> k > |a.bits| || k == 0 || (k < 0 && -k >= |a.bits|)
    ensures r.Err? ==> r.error == (if k > |a.bits| then TypeError else AssertionError)
    ensures 0 < k <= |a.bits| ==> (r.Ok? && |r.value.bits| == k
      && Unsigned(r.value.bits) == Unsigned(a.bits) % Pow2(k))
    ensures k < 0 && -k < |a.bits| ==> (r.Ok? && |r.value.bits| == |a.bits| + k
      && Unsigned(r.value.bits) == Unsigned(a.bits) % Pow2(|a.bits| + k))
  {
    var n := |a.bits|;
    if k > n then Err(TypeError)
    else if 0 < k then
      LowBits(a.bits, k);
      OfBits(Upto(a.bits, k))
    else if -k < n then
      LowBits(a.bits, n + k);
      OfBits(Upto(a.bits, k))
    else OfBits(Upto(a.bits, k))
  }

  /** `a >> b` for a blis b: the last len(b) elements of b's bits followed by
      a's. Copying an empty b fails. */
  function RShiftVec(a: Blis, b: Blis): (r: Result<Blis>)
    ensures r.Ok? <==> |b.bits| > 0
    ensures r.Err? ==> r.error == AssertionError
    ensures r.Ok? ==> |r.value.bits| == |b.bits|
    ensures r.Ok? ==> forall i :: 0 <= i < |b.bits| ==>
      r.value.bits[i] == (if |a.bits| + i < |b.bits| then b.bits[|a.bits| + i] else a.bits[|a.bits| + i - |b.bits|])
  {
    var c := OfBits(b.bits);
    if c.Err? then Err(c.error)
    else Ok(Blis(From(c.value.bits + a.bits, -|c.value.bits|)))
  }

  /** When b is no wider than a, `a >> b` is a's top len(b) bits. */
  lemma RShiftVecValue(a: Blis, b: Blis)
    requires 0 < |b.bits| <= |a.bits|
    ensures Unsigned(RShiftVec(a, b).value.bits) == Unsigned(a.bits) / Pow2(|a.bits| - |b.bits|)
  {
    var m := |a.bits| - |b.bits|;
    assert RShiftVec(a, b).value.bits == a.bits[m..];
    LowBits(a.bits, m);
  }

  /** `k >> a` for an int k: k zero bits are put above the pattern and the
      last n bits are kept; with an empty a, `bits[-0:]` keeps them all. */
  function RRShift(a: Blis, k: int): (r: Blis)
    ensures |a.bits| > 0 ==> |r.bits| == |a.bits|
    ensures |a.bits| > 0 ==> forall i :: 0 <= i < |a.bits| ==>
      r.bits[i] == (i + Max(k, 0) < |a.bits| && a.bits[i + Max(k, 0)])
    ensures |a.bits| == 0 ==> r.bits == Zeros(Max(k, 0))
  {
    Blis(From(a.bits + Zeros(Max(k, 0)), -|a.bits|))
  }

  /** `k >> a` is a logical shift right by k: the value divided by 2^k. */
  lemma RRShiftValue(a: Blis, k: nat)
    ensures Unsigned(RRShift(a, k).bits) == Unsigned(a.bits) / Pow2(k)
  {
    var pad := Zeros(k);
    var s := a.bits + pad;
    UnsignedAppend(a.bits, pad);
    UnsignedClear(pad);
    assert Unsigned(s) == Unsigned(a.bits) by {
      var p := Pow2(|a.bits|);
      assert Unsigned(s) == Unsigned(a.bits) + p * 0;
    }
    if |a.bits| > 0 {
      assert RRShift(a, k).bits == s[k..];
      LowBits(s, k);
    } else {
      assert Unsigned(a.bits) == 0;
      UnsignedClear(RRShift(a, k).bits);
    }
  }

  /** Shifting left by k and then right by k (`k >> (a << k)`) clears the
      top k bits and keeps the rest in place. */
  lemma ShiftLeftThenRight(a: Blis, k: nat)
    requires k <= |a.bits|
    ensures RRShift(LShiftInt(a, k), k).bits == a.bits[..|a.bits| - k] + Zeros(k)
  {
    var r := RRShift(LShiftInt(a, k), k);
    var want := a.bits[..|a.bits| - k] + Zeros(k);
    if |a.bits| > 0 {
      forall i | 0 <= i < |a.bits| ensures r.bits[i] == want[i] {
      }
    }
  }
}
