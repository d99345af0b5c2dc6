/** Python's bitwise operators on non-negative integers: bit i of a word,
    and `&`, `|`, `^` computed bit by bit from the least significant end. */
module NatBits {
  import opened Powers
  import opened BitLists

  /** Bit i of x: `bool(x & 1 << i)`. */
  function Bit(x: nat, i: nat): bool
  {
    if i == 0 then x % 2 == 1 else Bit(x / 2, i - 1)
  }

  /** `x & y`, `x | y`, `x ^ y` on non-negative integers. */
  function Combine(op: Op, x: nat, y: nat): nat
    decreases x + y
  {
    if x == 0 && y == 0 then 0
    else BitValue(BitOp(op, x % 2 == 1, y % 2 == 1)) + 2 * Combine(op, x / 2, y / 2)
  }

  lemma {:induction false} BitOfZero(i: nat)
    ensures !Bit(0, i)
  {
    if i > 0 {
      BitOfZero(i - 1);
    }
  }

  /** Each bit of `x op y` is the operator applied to the operands' bits. */
  lemma {:induction false} CombineBit(op: Op, x: nat, y: nat, i: nat)
    ensures Bit(Combine(op, x, y), i) == BitOp(op, Bit(x, i), Bit(y, i))
    decreases i
  {
    var r := Combine(op, x, y);
    if x == 0 && y == 0 {
      BitOfZero(i);
    } else {
      var b, c := BitValue(BitOp(op, x % 2 == 1, y % 2 == 1)), Combine(op, x / 2, y / 2);
      assert r == b + 2 * c;
      assert r % 2 == b && r / 2 == c;
      if i > 0 {
        CombineBit(op, x / 2, y / 2, i - 1);
      }
    }
  }

  /** A non-negative integer is determined by its bits. */
  lemma {:induction false} BitsDetermine(x: nat, y: nat)
    requires forall i: nat :: Bit(x, i) == Bit(y, i)
    ensures x == y
    decreases x + y
  {
    assert Bit(x, 0) == Bit(y, 0);
    if x != 0 || y != 0 {
      forall i: nat ensures Bit(x / 2, i) == Bit(y / 2, i) {
        assert Bit(x, i + 1) == Bit(y, i + 1);
      }
      BitsDetermine(x / 2, y / 2);
    }
  }

  /** `1 << j` has bit j and no other. */
  lemma {:induction false} BitOfPow2(j: nat, i: nat)
    ensures Bit(Pow2(j), i) == (i == j)
    decreases j
  {
    if j == 0 {
      if i > 0 {
        BitOfZero(i - 1);
      }
    } else {
      assert Pow2(j) == 2 * Pow2(j - 1);
      if i > 0 {
        BitOfPow2(j - 1, i - 1);
      }
    }
  }

  /** Reducing modulo 2^n keeps exactly the bits below n. */
  lemma {:induction false} BitOfMod(x: nat, n: nat, i: nat)
    ensures Bit(x % Pow2(n), i) == (i < n && Bit(x, i))
    decreases n
  {
    if n == 0 {
      assert x % 1 == 0;
      BitOfZero(i);
    } else {
      ModPow2Step(x, n - 1);
      var m := (x / 2) % Pow2(n - 1);
      assert x % Pow2(n) == x % 2 + 2 * m;
      if i > 0 {
        BitOfMod(x / 2, n - 1, i - 1);
      }
    }
  }

  /** A word whose bits all lie below n is less than 2^n, and conversely. */
  lemma BitsBelow(x: nat, n: nat)
    ensures (forall i: nat :: i >= n ==> !Bit(x, i)) ==> x < Pow2(n)
    ensures x < Pow2(n) ==> forall i: nat :: i >= n ==> !Bit(x, i)
  {
    if forall i: nat :: i >= n ==> !Bit(x, i) {
      NoHighBits(x, n);
    }
    if x < Pow2(n) {
      forall i: nat | i >= n ensures !Bit(x, i) {
        SmallHasNoHighBits(x, n, i);
      }
    }
  }

  lemma {:induction false} NoHighBits(x: nat, n: nat)
    requires forall i: nat :: i >= n ==> !Bit(x, i)
    ensures x < Pow2(n)
    decreases n
  {
    if n == 0 {
      forall i: nat ensures Bit(x, i) == Bit(0, i) {
        BitOfZero(i);
      }
      BitsDetermine(x, 0);
    } else {
      assert Pow2(n) == 2 * Pow2(n - 1);
      forall i: nat | i >= n - 1 ensures !Bit(x / 2, i) {
        assert !Bit(x, i + 1);
      }
      NoHighBits(x / 2, n - 1);
    }
  }

  lemma {:induction false} SmallHasNoHighBits(x: nat, n: nat, i: nat)
    requires x < Pow2(n) && i >= n
    ensures !Bit(x, i)
    decreases n
  {
    if n == 0 {
      assert x == 0;
      BitOfZero(i);
    } else {
      assert Pow2(n) == 2 * Pow2(n - 1);
      SmallHasNoHighBits(x / 2, n - 1, i - 1);
    }
  }

  /** `2^n - 1` has the bits below n set. */
  lemma {:induction false} BitOfLowMask(n: nat, i: nat)
    ensures Bit(Pow2(n) - 1, i) == (i < n)
  {
    BitOfMod(Pow2(n) - 1, n, i);
    SmallModN(Pow2(n) - 1, Pow2(n));
    if i < n {
      BitOfComplementLow(n, i);
    }
  }

  lemma SmallModN(x: int, m: int)
    requires 0 <= x < m
    ensures x % m == x
  {
    ModUnique(x, m, 0, x);
  }

  lemma {:induction false} BitOfComplementLow(n: nat, i: nat)
    requires i < n
    ensures Bit(Pow2(n) - 1, i)
    decreases n
  {
    assert Pow2(n) == 2 * Pow2(n - 1);
    assert (Pow2(n) - 1) / 2 == Pow2(n - 1) - 1;
    if i > 0 {
      BitOfComplementLow(n - 1, i - 1);
    }
  }

  /** Subtracting from 2^n - 1 flips the bits below n. */
  lemma {:induction false} BitOfComplement(x: nat, n: nat, i: nat)
    requires x < Pow2(n)
    ensures Bit(Pow2(n) - 1 - x, i) == (i < n && !Bit(x, i))
    decreases n
  {
    if n == 0 {
      assert x == 0;
      BitOfZero(i);
    } else {
      var h := Pow2(n - 1);
      assert Pow2(n) == 2 * h;
      var c := Pow2(n) - 1 - x;
      assert c == 2 * (h - 1 - x / 2) + (1 - x % 2);
      assert c % 2 == 1 - x % 2 && c / 2 == h - 1 - x / 2;
      if i > 0 {
        BitOfComplement(x / 2, n - 1, i - 1);
      }
    }
  }
}
