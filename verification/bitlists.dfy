/** Bit lists stored least-significant bit first (index 0 is the LSB), the
    storage of `blis` in binary.py, and the Python list operations the class
    applies to them. */
module BitLists {
  import opened Powers

  function BitValue(b: bool): nat { if b then 1 else 0 }

  /** The unsigned value of a bit list: the sum of 2^i over the set bits
      (the `sum(2**i for i, b in enumerate(self) if b)` of `__int__`). */
  function Unsigned(s: seq<bool>): nat
  {
    if |s| == 0 then 0
    else Unsigned(s[..|s| - 1]) + (if s[|s| - 1] then Pow2(|s| - 1) else 0)
  }

  /** `[0] * n`: n cleared bits. */
  function Zeros(n: nat): (r: seq<bool>)
    ensures |r| == n && forall i :: 0 <= i < n ==> !r[i]
  {
    seq(n, i => false)
  }

  /** `[1] * n`: n set bits. */
  function Ones(n: nat): (r: seq<bool>)
    ensures |r| == n && forall i :: 0 <= i < n ==> r[i]
  {
    seq(n, i => true)
  }

  /** The three bitwise operators, `&`, `|` and `^`. */
  datatype Op = And | Or | Xor

  /** An operator applied to a pair of bits. */
  function BitOp(op: Op, x: bool, y: bool): bool
  {
    match op
    case And => x && y
    case Or => x || y
    case Xor => x != y
  }

  predicate AllSet(s: seq<bool>) { forall i :: 0 <= i < |s| ==> s[i] }

  predicate AllClear(s: seq<bool>) { forall i :: 0 <= i < |s| ==> !s[i] }

  /** Python's normalisation of a slice bound `i` against a list of length n:
      a negative bound counts from the end, and both are clamped to [0, n]. */
  function SliceBound(i: int, n: nat): (r: nat)
    ensures r <= n
    ensures 0 <= i <= n ==> r == i
    ensures i < 0 && n + i >= 0 ==> r == n + i
    ensures i > n ==> r == n
    ensures n + i < 0 ==> r == 0
  {
    if i < 0 then (if n + i < 0 then 0 else n + i)
    else if i > n then n
    else i
  }

  /** `s[i:]` */
  function From<T>(s: seq<T>, i: int): seq<T> { s[SliceBound(i, |s|)..] }

  /** `s[:j]` */
  function Upto<T>(s: seq<T>, j: int): seq<T> { s[..SliceBound(j, |s|)] }

  lemma {:induction false} UnsignedBound(s: seq<bool>)
    ensures Unsigned(s) < Pow2(|s|)
    decreases |s|
  {
    if |s| > 0 {
      UnsignedBound(s[..|s| - 1]);
    }
  }

  lemma Distribute(p: int, x: int, y: int)
    ensures p * (x + y) == p * x + p * y
  {
  }

  /** The value of a concatenation: the high part is weighted by 2^|a|. */
  lemma {:induction false} UnsignedAppend(a: seq<bool>, b: seq<bool>)
    ensures Unsigned(a + b) == Unsigned(a) + Pow2(|a|) * Unsigned(b)
    decreases |b|
  {
    if |b| == 0 {
      assert a + b == a;
    } else {
      var b' := b[..|b| - 1];
      var ab := a + b;
      assert ab[..|ab| - 1] == a + b';
      assert ab[|ab| - 1] == b[|b| - 1];
      UnsignedAppend(a, b');
      Pow2Add(|a|, |b| - 1);
      var p, q := Pow2(|a|), Pow2(|b| - 1);
      var w := if b[|b| - 1] then q else 0;
      assert Pow2(|ab| - 1) == p * q;
      assert Unsigned(ab) == Unsigned(a + b') + p * w;
      assert Unsigned(b) == Unsigned(b') + w;
      Distribute(p, Unsigned(b'), w);
    }
  }

  /** Reading from the least-significant end. */
  lemma UnsignedCons(b: bool, s: seq<bool>)
    ensures Unsigned([b] + s) == BitValue(b) + 2 * Unsigned(s)
  {
    UnsignedAppend([b], s);
    assert [b][..0] == [];
  }

  lemma UnsignedFirst(s: seq<bool>)
    requires |s| > 0
    ensures Unsigned(s) == BitValue(s[0]) + 2 * Unsigned(s[1..])
  {
    assert s == [s[0]] + s[1..];
    UnsignedCons(s[0], s[1..]);
  }

  lemma {:induction false} UnsignedClear(s: seq<bool>)
    requires AllClear(s)
    ensures Unsigned(s) == 0
    decreases |s|
  {
    if |s| > 0 {
      UnsignedClear(s[..|s| - 1]);
    }
  }

  lemma {:induction false} UnsignedOnes(n: nat)
    ensures Unsigned(Ones(n)) == Pow2(n) - 1
    decreases n
  {
    if n > 0 {
      assert Ones(n)[..n - 1] == Ones(n - 1);
      UnsignedOnes(n - 1);
    }
  }

  /** The sign bit (the highest one) is set exactly when the value reaches
      the upper half of the range. */
  lemma TopBit(s: seq<bool>)
    ensures |s| > 0 ==> (s[|s| - 1] <==> Unsigned(s) >= Pow2(|s| - 1))
  {
    if |s| > 0 {
      UnsignedBound(s[..|s| - 1]);
    }
  }

  /** Equal-length lists with equal values are equal. */
  lemma {:induction false} UnsignedInjective(a: seq<bool>, b: seq<bool>)
    requires |a| == |b| && Unsigned(a) == Unsigned(b)
    ensures a == b
    decreases |a|
  {
    if |a| > 0 {
      var n := |a|;
      TopBit(a);
      TopBit(b);
      UnsignedInjective(a[..n - 1], b[..n - 1]);
      assert a == a[..n - 1] + [a[n - 1]];
      assert b == b[..n - 1] + [b[n - 1]];
    }
  }

  /** Setting a clear bit adds its weight. */
  lemma SetBitValue(s: seq<bool>, i: nat)
    requires i < |s| && !s[i]
    ensures Unsigned(s[i := true]) == Unsigned(s) + Pow2(i)
  {
    var lo, hi := s[..i], s[i + 1..];
    assert s == lo + ([false] + hi);
    assert s[i := true] == lo + ([true] + hi);
    UnsignedAppend(lo, [false] + hi);
    UnsignedAppend(lo, [true] + hi);
    UnsignedCons(false, hi);
    UnsignedCons(true, hi);
    var p, u := Pow2(i), Unsigned(hi);
    assert Unsigned(s) == Unsigned(lo) + p * (2 * u);
    assert Unsigned(s[i := true]) == Unsigned(lo) + p * (1 + 2 * u);
    Distribute(p, 1, 2 * u);
  }

  /** The low n bits of a list hold its value modulo 2^n. */
  lemma LowBits(s: seq<bool>, n: nat)
    requires n <= |s|
    ensures Unsigned(s[..n]) == Unsigned(s) % Pow2(n)
    ensures Unsigned(s[n..]) == Unsigned(s) / Pow2(n)
  {
    var lo, hi := s[..n], s[n..];
    assert s == lo + hi;
    UnsignedAppend(lo, hi);
    UnsignedBound(lo);
    assert |lo| == n;
    assert Unsigned(s) == Unsigned(hi) * Pow2(n) + Unsigned(lo);
    ModUnique(Unsigned(s), Pow2(n), Unsigned(hi), Unsigned(lo));
  }
}
