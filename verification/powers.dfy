/** Powers of two and the three integer helpers `ispower2`, `ceilpow2` and
    `floorpow2` (binary.py, lines 22-42). */
module Powers {
  import opened Results

  /** 2^i. */
  function Pow2(i: nat): (r: int)
    ensures r >= 1
  {
    if i == 0 then 1 else 2 * Pow2(i - 1)
  }

  lemma {:induction false} Pow2Add(a: nat, b: nat)
    ensures Pow2(a + b) == Pow2(a) * Pow2(b)
    decreases b
  {
    if b > 0 {
      Pow2Add(a, b - 1);
      assert Pow2(a + b) == 2 * Pow2(a + b - 1);
    }
  }

  lemma {:induction false} Pow2Strict(i: nat, j: nat)
    requires i < j
    ensures Pow2(i) < Pow2(j)
    decreases j
  {
    if i < j - 1 {
      Pow2Strict(i, j - 1);
    }
  }

  /** Pow2 is strictly increasing, so it is injective and order-reflecting. */
  lemma Pow2Order(i: nat, j: nat)
    ensures i < j <==> Pow2(i) < Pow2(j)
    ensures i <= j <==> Pow2(i) <= Pow2(j)
  {
    if i < j {
      Pow2Strict(i, j);
    } else if j < i {
      Pow2Strict(j, i);
    }
  }

  /** `ispower2(x)`: the exponent k with x == 2^k, or -1 when there is none.
      Odd values other than 1 and zero answer -1; an even value asks about its
      half, and `k + 1 or -1` maps a failed half back to -1. Python's `%` and
      `//` by 2 are floor operations, which Dafny's `%` and `/` by a positive
      divisor agree with, also for negative x. */
  function IsPower2(x: int): (r: int)
    ensures r >= -1
    ensures r >= 0 ==> Pow2(r) == x
    ensures r == -1 ==> forall k: nat :: Pow2(k) != x
    decreases if x < 0 then -x else x
  {
    if x == 0 then -1
    else if x == 1 then 0
    else if x % 2 == 1 then -1
    else
      var k := IsPower2(x / 2) + 1;
      if k != 0 then k else -1
  }

  /** `ceilpow2(x, i)`: the first exponent j >= i with 2^j >= x. */
  function CeilPow2From(x: int, i: nat): (r: nat)
    ensures r >= i && Pow2(r) >= x
    ensures forall j: nat :: i <= j < r ==> Pow2(j) < x
    decreases x - Pow2(i)
  {
    if Pow2(i) < x then CeilPow2From(x, i + 1) else i
  }

  /** `ceilpow2(x)`: the least exponent r with 2^r >= x (0 when x <= 1). */
  function CeilPow2(x: int): (r: nat)
    ensures Pow2(r) >= x
    ensures r == 0 || Pow2(r - 1) < x
  {
    CeilPow2From(x, 0)
  }

  /** `floorpow2(x, i)`: None when 2^i > x, else the last exponent j >= i with
      2^j <= x. The walrus test `if r := ...` falls back to i when the deeper
      call answers None (a deeper answer is never 0, so 0 never falls back). */
  function FloorPow2From(x: int, i: nat): (r: Option<nat>)
    ensures r.Some? <==> Pow2(i) <= x
    ensures r.Some? ==> i <= r.value && Pow2(r.value) <= x < Pow2(r.value + 1)
    decreases x - Pow2(i)
  {
    if Pow2(i) <= x then
      var deeper := FloorPow2From(x, i + 1);
      if deeper.Some? && deeper.value != 0 then deeper else Some(i)
    else None
  }

  /** `floorpow2(x)`: floor(log2 x) for x >= 1, None below 1. */
  function FloorPow2(x: int): (r: Option<nat>)
    ensures r.None? <==> x < 1
    ensures r.Some? ==> Pow2(r.value) <= x < Pow2(r.value + 1)
  {
    FloorPow2From(x, 0)
  }

  /** The answer of `floorpow2` is the only exponent bracketing x. */
  lemma FloorPow2Unique(x: int, i: nat)
    requires Pow2(i) <= x < Pow2(i + 1)
    ensures FloorPow2(x) == Some(i)
  {
    var r := FloorPow2(x).value;
    if r < i {
      Pow2Order(r + 1, i);
    } else if i < r {
      Pow2Order(i + 1, r);
    }
  }

  /** ispower2 and floorpow2 agree on powers of two. */
  lemma IsPower2MatchesFloorPow2(x: int)
    requires IsPower2(x) >= 0
    ensures FloorPow2(x) == Some(IsPower2(x))
  {
    var k := IsPower2(x);
    assert Pow2(k + 1) == 2 * Pow2(k);
    FloorPow2Unique(x, k);
  }

  /** ceilpow2 and floorpow2 bracket x: they coincide on powers of two and
      differ by one elsewhere. */
  lemma CeilFloorBracket(x: int)
    requires x >= 1
    ensures CeilPow2(x) == FloorPow2(x).value + (if IsPower2(x) >= 0 then 0 else 1)
  {
    var f := FloorPow2(x).value;
    var c := CeilPow2(x);
    if IsPower2(x) >= 0 {
      IsPower2MatchesFloorPow2(x);
      assert Pow2(f) == x;
      if c < f {
        Pow2Order(c, f);
      }
    } else {
      assert Pow2(f) != x;
      if c <= f {
        Pow2Order(c, f);
      }
    }
  }

  // Euclidean remainder facts used to reason about truncation to a width.

  lemma MulSmallIsZero(d: int, m: int)
    requires m > 0 && -m < d * m < m
    ensures d == 0
  {
  }

  lemma ModUnique(a: int, m: int, q: int, r: int)
    requires m > 0 && a == q * m + r && 0 <= r < m
    ensures a % m == r && a / m == q
  {
    var q0, r0 := a / m, a % m;
    MulSmallIsZero(q0 - q, m);
  }

  lemma ModAddMultiple(a: int, k: int, m: int)
    requires m > 0
    ensures (a + k * m) % m == a % m
  {
    ModUnique(a + k * m, m, a / m + k, a % m);
  }

  /** Two residues that agree modulo 2^n and lie in one window of width 2^n
      are equal. */
  lemma SameWindow(x: int, y: int, lo: int, m: int)
    requires m > 0 && lo <= x < lo + m && lo <= y < lo + m
    requires x % m == y % m
    ensures x == y
  {
    ModUnique(x, m, x / m, x % m);
    ModUnique(y, m, y / m, y % m);
    var d := x / m - y / m;
    assert d * m == x - y;
    MulSmallIsZero(d, m);
  }

  /** x mod 2^(n+1) splits into its lowest bit and twice the rest. */
  lemma ModPow2Step(x: int, n: nat)
    ensures x % Pow2(n + 1) == x % 2 + 2 * ((x / 2) % Pow2(n))
    ensures x / Pow2(n + 1) == (x / 2) / Pow2(n)
  {
    var h, p := x / 2, Pow2(n);
    var q := h / p;
    var r := h % p;
    assert x == 2 * h + x % 2;
    assert h == q * p + r;
    assert x == q * (2 * p) + (2 * r + x % 2);
    ModUnique(x, 2 * p, q, 2 * r + x % 2);
  }
}
