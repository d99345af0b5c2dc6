/** `BinT`, the toolkit for unsigned words of a fixed number of bits
    (binary.py, lines 504-684). Words are Python ints; the operations set,
    clear, toggle or move the bits at a list of indices, or combine two
    words bit by bit. An empty index list means the whole word. */
module BinaryTools {
  import opened Powers
  import opened BitLists
  import opened NatBits

  /** `BinT(nbit, asup)`: the word width and whether the first operand is
      the background of the indexed binary operations. */
  datatype BinT = BinT(nbit: nat, asup: bool)

  /** `senior`, `1 << nbit`. */
  function Senior(t: BinT): nat { Pow2(t.nbit) }

  /** `g_mask`, the nbit low bits set. */
  function GMask(t: BinT): nat { Senior(t) - 1 }

  /** A word of the toolkit: below `senior`. */
  predicate InRange(t: BinT, a: nat) { a < Senior(t) }

  /** All indices name bits of the word. */
  predicate IndicesInRange(t: BinT, il: seq<nat>)
  {
    forall k :: 0 <= k < |il| ==> il[k] < t.nbit
  }

  // ---------------------------------------------------------------------
  // Python's bitwise view of signed ints

  /** Bit i of a Python int: a negative int is an infinite two's
      complement pattern, so `~c` has exactly the bits c lacks. */
  function SBit(b: int, i: nat): bool
  {
    if b >= 0 then Bit(b, i) else !Bit(-b - 1, i)
  }

  /** `x & g_mask` for any Python int x, which is x reduced modulo 2^nbit. */
  function MaskWord(t: BinT, x: int): (r: nat)
    ensures r < Senior(t)
  {
    x % Senior(t)
  }

  /** The reduction keeps exactly the two's complement bits below nbit. */
  lemma MaskWordBit(t: BinT, x: int, i: nat)
    ensures Bit(MaskWord(t, x), i) == (i < t.nbit && SBit(x, i))
  {
    var p := Senior(t);
    if x >= 0 {
      BitOfMod(x, t.nbit, i);
    } else {
      var c := -x - 1;
      var q, m := c / p, c % p;
      assert c == q * p + m;
      assert x == (-q - 1) * p + (p - 1 - m);
      ModUnique(x, p, -q - 1, p - 1 - m);
      BitOfComplement(m, t.nbit, i);
      BitOfMod(c, t.nbit, i);
    }
  }

  /** For a non-negative word the reduction is `x & g_mask` bit for bit. */
  lemma MaskWordIsAnd(t: BinT, x: nat)
    ensures MaskWord(t, x) == Combine(And, x, GMask(t))
  {
    forall i: nat ensures Bit(MaskWord(t, x), i) == Bit(Combine(And, x, GMask(t)), i) {
      MaskWordBit(t, x, i);
      CombineBit(And, x, GMask(t), i);
      BitOfLowMask(t.nbit, i);
    }
    BitsDetermine(MaskWord(t, x), Combine(And, x, GMask(t)));
  }

  /** `b & m` for a Python int b (possibly negative) and a mask m >= 0:
      for a negative b = ~c this is `m ^ (c & m)`. */
  function AndWord(b: int, m: nat): nat
  {
    if b >= 0 then Combine(And, b, m) else Combine(Xor, Combine(And, -b - 1, m), m)
  }

  lemma AndWordBit(b: int, m: nat, i: nat)
    ensures Bit(AndWord(b, m), i) == (SBit(b, i) && Bit(m, i))
  {
    if b >= 0 {
      CombineBit(And, b, m, i);
    } else {
      CombineBit(Xor, Combine(And, -b - 1, m), m, i);
      CombineBit(And, -b - 1, m, i);
    }
  }

  /** A word whose bits are all clear is zero. */
  lemma NoBitsIsZero(x: nat)
    requires forall i: nat :: !Bit(x, i)
    ensures x == 0
  {
    forall i: nat ensures Bit(x, i) == Bit(0, i) {
      BitOfZero(i);
    }
    BitsDetermine(x, 0);
  }

  /** A word below 2^n whose bits below n are described by f. */
  lemma WordFromBits(t: BinT, x: nat)
    requires forall i: nat :: i >= t.nbit ==> !Bit(x, i)
    ensures InRange(t, x)
  {
    BitsBelow(x, t.nbit);
  }

  // ---------------------------------------------------------------------
  // moveAt (binary.py:643-660)

  /** `mask |= 1 << i` for each index, from the left. */
  function IndexMask(acc: nat, il: seq<nat>): nat
    decreases |il|
  {
    if il == [] then acc else IndexMask(Combine(Or, acc, Pow2(il[0])), il[1..])
  }

  lemma {:induction false} IndexMaskBit(acc: nat, il: seq<nat>, j: nat)
    ensures Bit(IndexMask(acc, il), j) == (Bit(acc, j) || j in il)
    decreases |il|
  {
    if il != [] {
      CombineBit(Or, acc, Pow2(il[0]), j);
      BitOfPow2(il[0], j);
      IndexMaskBit(Combine(Or, acc, Pow2(il[0])), il[1..], j);
      assert il == [il[0]] + il[1..];
    }
  }

  /** The mask lines of `moveAt`: `mask |= 1 << i` over the indices,
      `n_mask = mask ^ g_mask`, then `a & n_mask | b & mask`. */
  function Move(t: BinT, a: nat, b: int, il: seq<nat>): nat
  {
    var mask := IndexMask(0, il);
    var nMask := Combine(Xor, mask, GMask(t));
    Combine(Or, Combine(And, a, nMask), AndWord(b, mask))
  }

  lemma MoveBit(t: BinT, a: nat, b: int, il: seq<nat>, j: nat)
    ensures Bit(Move(t, a, b, il), j) ==
      ((Bit(a, j) && ((j in il) != (j < t.nbit))) || (j in il && SBit(b, j)))
  {
    var mask := IndexMask(0, il);
    var nMask := Combine(Xor, mask, GMask(t));
    CombineBit(Or, Combine(And, a, nMask), AndWord(b, mask), j);
    CombineBit(And, a, nMask, j);
    CombineBit(Xor, mask, GMask(t), j);
    BitOfLowMask(t.nbit, j);
    IndexMaskBit(0, il, j);
    BitOfZero(j);
    AndWordBit(b, mask, j);
  }

  lemma MoveBits(t: BinT, a: nat, b: int, il: seq<nat>)
    ensures forall j: nat :: (Bit(Move(t, a, b, il), j) ==
      ((Bit(a, j) && ((j in il) != (j < t.nbit))) || (j in il && SBit(b, j))))
  {
    forall j: nat ensures Bit(Move(t, a, b, il), j) ==
      ((Bit(a, j) && ((j in il) != (j < t.nbit))) || (j in il && SBit(b, j)))
    {
      MoveBit(t, a, b, il, j);
    }
  }

  /** `moveAt(a, b, *il)`: the bits at the indices come from b, the others
      from a. b may be a negative int (the complemented operations pass
      `~(a op b)`). With no indices, a is returned unchanged. Bit j of the
      result, for any indices: b's bit at an index; a's bit elsewhere below
      nbit; above nbit a's bit survives only at an index (the mask's
      complement is taken within g_mask only). */
  function MoveAt(t: BinT, a: nat, b: int, il: seq<nat>): (r: nat)
    ensures il == [] ==> r == a
    ensures il != [] ==> forall j: nat :: (Bit(r, j) ==
      ((Bit(a, j) && ((j in il) != (j < t.nbit))) || (j in il && SBit(b, j))))
  {
    if il == [] then a
    else
      MoveBits(t, a, b, il);
      Move(t, a, b, il)
  }

  /** With indices inside the word, `moveAt` takes b on the indices and a
      elsewhere, and stays a word. */
  lemma MoveAtSpec(t: BinT, a: nat, b: int, il: seq<nat>)
    requires il != [] && IndicesInRange(t, il) && InRange(t, a)
    ensures forall j: nat :: j < t.nbit ==>
      Bit(MoveAt(t, a, b, il), j) == if j in il then SBit(b, j) else Bit(a, j)
    ensures InRange(t, MoveAt(t, a, b, il))
  {
    var r := MoveAt(t, a, b, il);
    forall j: nat ensures Bit(r, j) == (j < t.nbit && if j in il then SBit(b, j) else Bit(a, j)) {
      if j >= t.nbit {
        SmallHasNoHighBits(a, t.nbit, j);
        assert j !in il;
      }
    }
    WordFromBits(t, r);
  }

  // ---------------------------------------------------------------------
  // The binary operations (binary.py:585-625)

  /** The six binary operations: and, or, xor and their complements. */
  datatype BinOp = AndOp | NandOp | OrOp | NorOp | XorOp | XnorOp

  function BaseOp(op: BinOp): Op
  {
    match op
    case AndOp => And
    case NandOp => And
    case OrOp => Or
    case NorOp => Or
    case XorOp => Xor
    case XnorOp => Xor
  }

  predicate Complemented(op: BinOp) { op.NandOp? || op.NorOp? || op.XnorOp? }

  /** `a & b`, `~(a & b)`, `a | b`, ... as Python ints. */
  function Raw(op: BinOp, a: nat, b: nat): int
  {
    var c: int := Combine(BaseOp(op), a, b);
    if Complemented(op) then -c - 1 else c
  }

  lemma RawBit(op: BinOp, a: nat, b: nat, i: nat)
    ensures SBit(Raw(op, a, b), i) == (BitOp(BaseOp(op), Bit(a, i), Bit(b, i)) != Complemented(op))
  {
    CombineBit(BaseOp(op), a, b, i);
  }

  /** Bit j of `a op b` for one of the six operations. */
  function OpBit(op: BinOp, a: nat, b: nat, j: nat): bool
  {
    BitOp(BaseOp(op), Bit(a, j), Bit(b, j)) != Complemented(op)
  }

  /** The whole-word result keeps the operation's bits below nbit. */
  lemma WholeWordBit(t: BinT, op: BinOp, a: nat, b: nat, j: nat)
    ensures Bit(MaskWord(t, Raw(op, a, b) + Senior(t)), j) == (j < t.nbit && OpBit(op, a, b, j))
  {
    var x := Raw(op, a, b);
    ModAddMultiple(x, 1, Senior(t));
    assert MaskWord(t, x + Senior(t)) == MaskWord(t, x);
    MaskWordBit(t, x, j);
    RawBit(op, a, b, j);
  }

  /** The background of the indexed operations: a with `asuperior`, else 0. */
  function Background(t: BinT, a: nat): nat { if t.asup then a else 0 }

  /** The operation's bits moved onto the background at the indices. */
  lemma IndexedBit(t: BinT, op: BinOp, a: nat, b: nat, il: seq<nat>, j: nat)
    requires il != []
    ensures Bit(MoveAt(t, Background(t, a), Raw(op, a, b), il), j) ==
      ((t.asup && Bit(a, j) && ((j in il) != (j < t.nbit))) || (j in il && OpBit(op, a, b, j)))
  {
    RawBit(op, a, b, j);
    BitOfZero(j);
  }

  /** `andAt`, `nandAt`, `orAt`, `norAt`, `xorAt`, `xnorAt`: with no indices
      the whole-word result `(a op b) + senior & g_mask`, the operation
      (complemented for nand, nor and xnor) on the nbit low bits; otherwise
      the operation's bits are moved onto a background of a (`asuperior`)
      or 0 at the indices. */
  function OpAt(t: BinT, op: BinOp, a: nat, b: nat, il: seq<nat>): (r: nat)
    ensures il == [] ==> r < Senior(t)
    ensures il == [] ==> forall j: nat :: (Bit(r, j) == (j < t.nbit && OpBit(op, a, b, j)))
    ensures il != [] ==> forall j: nat :: (Bit(r, j) ==
      ((t.asup && Bit(a, j) && ((j in il) != (j < t.nbit))) || (j in il && OpBit(op, a, b, j))))
  {
    if il == [] then
      var r := MaskWord(t, Raw(op, a, b) + Senior(t));
      assert forall j: nat :: Bit(r, j) == (j < t.nbit && OpBit(op, a, b, j)) by {
        forall j: nat { WholeWordBit(t, op, a, b, j); }
      }
      r
    else
      var r := MoveAt(t, Background(t, a), Raw(op, a, b), il);
      assert forall j: nat :: (Bit(r, j) ==
        ((t.asup && Bit(a, j) && ((j in il) != (j < t.nbit))) || (j in il && OpBit(op, a, b, j)))) by {
        forall j: nat { IndexedBit(t, op, a, b, il, j); }
      }
      r
  }

  /** On indices inside the word, the operation's bit; elsewhere the
      background: a's bit with `asuperior`, zero without. */
  lemma OpAtIndexed(t: BinT, op: BinOp, a: nat, b: nat, il: seq<nat>)
    requires il != [] && IndicesInRange(t, il) && InRange(t, a)
    ensures forall j: nat :: j < t.nbit ==> (Bit(OpAt(t, op, a, b, il), j) ==
      if j in il then BitOp(BaseOp(op), Bit(a, j), Bit(b, j)) != Complemented(op)
      else t.asup && Bit(a, j))
    ensures InRange(t, OpAt(t, op, a, b, il))
  {
    var c := if t.asup then a else 0;
    MoveAtSpec(t, c, Raw(op, a, b), il);
    forall j: nat | j < t.nbit ensures Bit(c, j) == (t.asup && Bit(a, j)) {
      BitOfZero(j);
    }
    forall j: nat ensures SBit(Raw(op, a, b), j) == (BitOp(BaseOp(op), Bit(a, j), Bit(b, j)) != Complemented(op)) {
      RawBit(op, a, b, j);
    }
  }

  /** The example of the class comment: `andAt(0b1011, 0b0101, 0)` is 0b0001
      without `asuperior` and 0b1011 with it. */
  lemma AndAtExample(n: nat, asup: bool)
    requires n >= 4
    ensures OpAt(BinT(n, asup), AndOp, 11, 5, [0]) == if asup then 11 else 1
  {
    var t := BinT(n, asup);
    var r := OpAt(t, AndOp, 11, 5, [0]);
    var want := if asup then 11 else 1;
    assert Pow2(4) == 16;
    Pow2Order(4, n);
    OpAtIndexed(t, AndOp, 11, 5, [0]);
    forall j: nat ensures Bit(r, j) == Bit(want, j) {
      if j < n {
        CombineBit(And, 11, 5, j);
        assert Bit(11, 0) && Bit(5, 0) && Bit(1, 0);
        if j >= 4 {
          SmallHasNoHighBits(11, 4, j);
          SmallHasNoHighBits(1, 4, j);
        } else if j > 0 {
          assert !Bit(1, j) by { BitOfPow2(0, j); }
        }
      } else {
        SmallHasNoHighBits(r, n, j);
        SmallHasNoHighBits(want, n, j);
      }
    }
    BitsDetermine(r, want);
  }

  // ---------------------------------------------------------------------
  // notAt, highAt, lowAt (binary.py:574-641)

  /** One step of `notAt`'s loop: clear bit i if it is set, else set it. */
  function ToggleStep(t: BinT, a: nat, i: nat): nat
  {
    var mask := Pow2(i);
    var nMask := Combine(Xor, mask, GMask(t));
    if Combine(And, a, mask) != 0 then Combine(And, a, nMask) else Combine(Or, a, mask)
  }

  function ToggleFold(t: BinT, a: nat, il: seq<nat>): nat
    decreases |il|
  {
    if il == [] then a else ToggleFold(t, ToggleStep(t, a, il[0]), il[1..])
  }

  /** `notAt(a, *il)`: with no indices the complement `~a + senior &
      g_mask`, which for a word is g_mask - a; otherwise each listed bit is
      toggled in turn. Either way, on a word and indices inside it, exactly
      the bits listed an odd number of times (all bits, for no indices) are
      flipped, and the result is a word. */
  function NotAt(t: BinT, a: nat, il: seq<nat>): (r: nat)
    ensures il == [] && InRange(t, a) ==> r == GMask(t) - a
    ensures IndicesInRange(t, il) && InRange(t, a) ==> InRange(t, r)
    ensures IndicesInRange(t, il) && InRange(t, a) ==> forall j: nat :: j < t.nbit ==>
      Bit(r, j) == (Bit(a, j) != (il == [] || multiset(il)[j] % 2 == 1))
  {
    var c: int := a;
    if il == [] then
      if InRange(t, a) then ComplementWord(t, a); MaskWord(t, -c - 1 + Senior(t))
      else MaskWord(t, -c - 1 + Senior(t))
    else if IndicesInRange(t, il) && InRange(t, a) then
      ToggleFoldSpec(t, a, il);
      ToggleFold(t, a, il)
    else ToggleFold(t, a, il)
  }

  /** `a & (1 << i)` is non-zero exactly when bit i is set. */
  lemma TestBit(a: nat, i: nat)
    ensures Combine(And, a, Pow2(i)) != 0 <==> Bit(a, i)
  {
    var c := Combine(And, a, Pow2(i));
    forall j: nat ensures Bit(c, j) == (Bit(a, j) && j == i) {
      CombineBit(And, a, Pow2(i), j);
      BitOfPow2(i, j);
    }
    if !Bit(a, i) {
      NoBitsIsZero(c);
    } else {
      BitOfZero(i);
    }
  }

  lemma ToggleStepSpec(t: BinT, a: nat, i: nat)
    requires i < t.nbit && InRange(t, a)
    ensures forall j: nat :: Bit(ToggleStep(t, a, i), j) == (Bit(a, j) != (j == i))
    ensures InRange(t, ToggleStep(t, a, i))
  {
    var r := ToggleStep(t, a, i);
    var mask := Pow2(i);
    var nMask := Combine(Xor, mask, GMask(t));
    TestBit(a, i);
    BitsBelow(a, t.nbit);
    forall j: nat ensures Bit(r, j) == (Bit(a, j) != (j == i)) {
      BitOfPow2(i, j);
      BitOfLowMask(t.nbit, j);
      CombineBit(Xor, mask, GMask(t), j);
      CombineBit(And, a, nMask, j);
      CombineBit(Or, a, mask, j);
    }
    BitsBelow(r, t.nbit);
  }

  /** Toggling a list of bits in turn flips each bit listed an odd number
      of times. */
  lemma {:induction false} ToggleFoldSpec(t: BinT, a: nat, il: seq<nat>)
    requires IndicesInRange(t, il) && InRange(t, a)
    ensures forall j: nat :: Bit(ToggleFold(t, a, il), j) == (Bit(a, j) != (multiset(il)[j] % 2 == 1))
    ensures InRange(t, ToggleFold(t, a, il))
    decreases |il|
  {
    if il != [] {
      var s := ToggleStep(t, a, il[0]);
      ToggleStepSpec(t, a, il[0]);
      ToggleFoldSpec(t, s, il[1..]);
      assert il == [il[0]] + il[1..];
      assert multiset(il) == multiset([il[0]]) + multiset(il[1..]);
    }
  }

  /** `~a + senior & g_mask` on a word is g_mask - a, which flips the bits
      below nbit. */
  lemma ComplementWord(t: BinT, a: nat)
    requires InRange(t, a)
    ensures MaskWord(t, -(a as int) - 1 + Senior(t)) == GMask(t) - a
    ensures forall j: nat :: j < t.nbit ==> Bit(GMask(t) - a, j) == !Bit(a, j)
  {
    SmallModN(GMask(t) - a, Senior(t));
    forall j: nat | j < t.nbit ensures Bit(GMask(t) - a, j) == !Bit(a, j) {
      BitOfComplement(a, t.nbit, j);
    }
  }

  /** Toggling the same bits twice gives the word back. */
  lemma NotAtTwice(t: BinT, a: nat, il: seq<nat>)
    requires IndicesInRange(t, il) && InRange(t, a)
    ensures NotAt(t, NotAt(t, a, il), il) == a
  {
    var b := NotAt(t, a, il);
    var c := NotAt(t, b, il);
    forall j: nat ensures Bit(c, j) == Bit(a, j) {
      if j >= t.nbit {
        SmallHasNoHighBits(c, t.nbit, j);
        SmallHasNoHighBits(a, t.nbit, j);
      }
    }
    BitsDetermine(c, a);
  }

  /** The indices 0 .. n-1. */
  function Indices(n: nat): (r: seq<nat>)
    ensures |r| == n && forall k :: 0 <= k < n ==> r[k] == k
  {
    seq(n, k requires 0 <= k < n => k)
  }

  lemma {:induction false} IndicesCount(n: nat, j: nat)
    ensures multiset(Indices(n))[j] == if j < n then 1 else 0
  {
    if n > 0 {
      assert Indices(n) == Indices(n - 1) + [n - 1];
      IndicesCount(n - 1, j);
    }
  }

  /** Toggling every index one by one is the whole-word complement. */
  lemma NotAtEveryIndex(t: BinT, a: nat)
    requires t.nbit > 0 && InRange(t, a)
    ensures NotAt(t, a, Indices(t.nbit)) == NotAt(t, a, [])
  {
    var il := Indices(t.nbit);
    var x, y := NotAt(t, a, il), NotAt(t, a, []);
    forall j: nat ensures Bit(x, j) == Bit(y, j) {
      if j < t.nbit {
        IndicesCount(t.nbit, j);
      } else {
        SmallHasNoHighBits(x, t.nbit, j);
        SmallHasNoHighBits(y, t.nbit, j);
      }
    }
    BitsDetermine(x, y);
  }

  function SetFold(a: nat, il: seq<nat>): nat
    decreases |il|
  {
    if il == [] then a else SetFold(Combine(Or, a, Pow2(il[0])), il[1..])
  }

  /** `highAt(a, *il)`: set exactly the listed bits, keeping the others;
      no indices gives g_mask. */
  function HighAt(t: BinT, a: nat, il: seq<nat>): (r: nat)
    ensures il == [] ==> r == GMask(t)
    ensures il != [] ==> forall j: nat :: Bit(r, j) == (Bit(a, j) || j in il)
  {
    if il == [] then GMask(t)
    else
      assert forall j: nat :: Bit(SetFold(a, il), j) == (Bit(a, j) || j in il) by {
        forall j: nat { SetFoldBit(a, il, j); }
      }
      SetFold(a, il)
  }

  lemma {:induction false} SetFoldBit(a: nat, il: seq<nat>, j: nat)
    ensures Bit(SetFold(a, il), j) == (Bit(a, j) || j in il)
    decreases |il|
  {
    if il != [] {
      CombineBit(Or, a, Pow2(il[0]), j);
      BitOfPow2(il[0], j);
      SetFoldBit(Combine(Or, a, Pow2(il[0])), il[1..], j);
      assert il == [il[0]] + il[1..];
    }
  }

  function ClearFold(t: BinT, a: nat, il: seq<nat>): nat
    decreases |il|
  {
    if il == [] then a else ClearFold(t, Combine(And, a, Combine(Xor, Pow2(il[0]), GMask(t))), il[1..])
  }

  /** `lowAt(a, *il)`: clear exactly the listed bits of a word, keeping the
      others; no indices gives 0. */
  function LowAt(t: BinT, a: nat, il: seq<nat>): (r: nat)
    ensures il == [] ==> r == 0
    ensures il != [] && IndicesInRange(t, il) && InRange(t, a) ==>
      forall j: nat :: Bit(r, j) == (Bit(a, j) && j !in il)
  {
    if il == [] then 0
    else if IndicesInRange(t, il) && InRange(t, a) then
      assert forall j: nat :: Bit(ClearFold(t, a, il), j) == (Bit(a, j) && j !in il) by {
        forall j: nat { ClearFoldBit(t, a, il, j); }
      }
      ClearFold(t, a, il)
    else ClearFold(t, a, il)
  }

  lemma {:induction false} ClearFoldBit(t: BinT, a: nat, il: seq<nat>, j: nat)
    requires IndicesInRange(t, il) && InRange(t, a)
    ensures Bit(ClearFold(t, a, il), j) == (Bit(a, j) && j !in il)
    ensures InRange(t, ClearFold(t, a, il))
    decreases |il|
  {
    if il != [] {
      var m := Combine(Xor, Pow2(il[0]), GMask(t));
      var s := Combine(And, a, m);
      forall k: nat ensures Bit(s, k) == (Bit(a, k) && k != il[0]) {
        CombineBit(And, a, m, k);
        CombineBit(Xor, Pow2(il[0]), GMask(t), k);
        BitOfPow2(il[0], k);
        BitOfLowMask(t.nbit, k);
        if k >= t.nbit {
          SmallHasNoHighBits(a, t.nbit, k);
        }
      }
      BitsBelow(a, t.nbit);
      BitsBelow(s, t.nbit);
      ClearFoldBit(t, s, il[1..], j);
      assert il == [il[0]] + il[1..];
    }
  }

  /** Setting and clearing bits are moves of all-ones and of zero. */
  lemma HighLowAreMoves(t: BinT, a: nat, il: seq<nat>)
    requires il != [] && IndicesInRange(t, il) && InRange(t, a)
    ensures HighAt(t, a, il) == MoveAt(t, a, GMask(t), il)
    ensures LowAt(t, a, il) == MoveAt(t, a, 0, il)
  {
    MoveAtSpec(t, a, GMask(t), il);
    MoveAtSpec(t, a, 0, il);
    var h, mh := HighAt(t, a, il), MoveAt(t, a, GMask(t), il);
    var l, ml := LowAt(t, a, il), MoveAt(t, a, 0, il);
    forall j: nat ensures Bit(h, j) == Bit(mh, j) && Bit(l, j) == Bit(ml, j) {
      BitOfLowMask(t.nbit, j);
      BitOfZero(j);
      if j >= t.nbit {
        SmallHasNoHighBits(a, t.nbit, j);
        SmallHasNoHighBits(mh, t.nbit, j);
        SmallHasNoHighBits(ml, t.nbit, j);
        assert j !in il;
      }
    }
    BitsDetermine(h, mh);
    BitsDetermine(l, ml);
  }

  // ---------------------------------------------------------------------
  // Introspection (binary.py:662-684)

  /** `represent(a)`: the nbit low bits as bools, least significant first. */
  function Represent(t: BinT, a: nat): (r: seq<bool>)
    ensures |r| == t.nbit
  {
    seq(t.nbit, i requires 0 <= i < t.nbit => Bit(a, i))
  }

  /** Bit i of the value of a bit list is its element i. */
  lemma {:induction false} UnsignedBit(s: seq<bool>, i: nat)
    ensures Bit(Unsigned(s), i) == (i < |s| && s[i])
    decreases |s|
  {
    if |s| == 0 {
      BitOfZero(i);
    } else {
      UnsignedFirst(s);
      var u := Unsigned(s[1..]);
      assert Unsigned(s) % 2 == BitValue(s[0]) && Unsigned(s) / 2 == u;
      if i > 0 {
        UnsignedBit(s[1..], i - 1);
      }
    }
  }

  /** `represent` reads out the word modulo 2^nbit: the value of the
      tuple, as a bit list, is a mod senior. */
  lemma RepresentValue(t: BinT, a: nat)
    ensures Unsigned(Represent(t, a)) == a % Senior(t)
  {
    var s := Represent(t, a);
    forall i: nat ensures Bit(Unsigned(s), i) == Bit(a % Senior(t), i) {
      UnsignedBit(s, i);
      BitOfMod(a, t.nbit, i);
    }
    BitsDetermine(Unsigned(s), a % Senior(t));
  }

  /** And a bit list of width nbit is represented by its own value. */
  lemma RepresentRoundTrip(t: BinT, s: seq<bool>)
    requires |s| == t.nbit
    ensures Represent(t, Unsigned(s)) == s
  {
    forall i | 0 <= i < |s| ensures Represent(t, Unsigned(s))[i] == s[i] {
      UnsignedBit(s, i);
    }
  }

  /** The indices below n whose bit equals v, in increasing order. */
  function Where(a: nat, v: bool, n: nat): (r: seq<nat>)
    ensures forall k :: 0 <= k < |r| ==> r[k] < n && Bit(a, r[k]) == v
    ensures forall i: nat :: i < n && Bit(a, i) == v ==> i in r
    ensures forall j, k :: 0 <= j < k < |r| ==> r[j] < r[k]
  {
    if n == 0 then []
    else Where(a, v, n - 1) + (if Bit(a, n - 1) == v then [n - 1] else [])
  }

  /** `getWhereHigh(a)`: the indices of the set bits below nbit, in
      increasing order. */
  function GetWhereHigh(t: BinT, a: nat): (r: seq<nat>)
    ensures forall k :: 0 <= k < |r| ==> r[k] < t.nbit && Bit(a, r[k])
    ensures forall i: nat :: i < t.nbit && Bit(a, i) ==> i in r
    ensures forall j, k :: 0 <= j < k < |r| ==> r[j] < r[k]
  {
    Where(a, true, t.nbit)
  }

  /** `getWhereLow(a)`: the indices of the clear bits below nbit, in
      increasing order. */
  function GetWhereLow(t: BinT, a: nat): (r: seq<nat>)
    ensures forall k :: 0 <= k < |r| ==> r[k] < t.nbit && !Bit(a, r[k])
    ensures forall i: nat :: i < t.nbit && !Bit(a, i) ==> i in r
    ensures forall j, k :: 0 <= j < k < |r| ==> r[j] < r[k]
  {
    Where(a, false, t.nbit)
  }

  /** Every index of the word is listed by exactly one of the two. */
  lemma {:induction false} WherePartition(a: nat, n: nat)
    ensures |Where(a, true, n)| + |Where(a, false, n)| == n
  {
    if n > 0 {
      WherePartition(a, n - 1);
      var h, l := Where(a, true, n - 1), Where(a, false, n - 1);
      if Bit(a, n - 1) {
        assert Where(a, true, n) == h + [n - 1] && Where(a, false, n) == l;
      } else {
        assert Where(a, true, n) == h && Where(a, false, n) == l + [n - 1];
      }
    }
  }

  /** An index is listed exactly when it is below n and its bit equals v. */
  lemma WhereMember(a: nat, v: bool, n: nat, i: nat)
    ensures i in Where(a, v, n) <==> i < n && Bit(a, i) == v
  {
  }

  /** `isHighAt(a, *il)`: all listed bits are set. */
  function IsHighAt(t: BinT, a: nat, il: seq<nat>): (r: bool)
    ensures r <==> forall k :: 0 <= k < |il| ==> Bit(a, il[k])
    decreases |il|
  {
    if il == [] then true else Bit(a, il[0]) && IsHighAt(t, a, il[1..])
  }

  /** `isLowAt(a, il)` (one iterable argument): no listed bit is set. */
  function IsLowAt(t: BinT, a: nat, il: seq<nat>): (r: bool)
    ensures r <==> forall k :: 0 <= k < |il| ==> !Bit(a, il[k])
  {
    !AnyHigh(a, il)
  }

  function AnyHigh(a: nat, il: seq<nat>): (r: bool)
    ensures r <==> exists k :: 0 <= k < |il| && Bit(a, il[k])
    decreases |il|
  {
    if il == [] then false
    else
      assert forall k :: 1 <= k < |il| ==> il[1..][k - 1] == il[k];
      Bit(a, il[0]) || AnyHigh(a, il[1..])
  }

  /** The bits low in a word are those high in its complement. */
  lemma LowIsHighOfComplement(t: BinT, a: nat, il: seq<nat>)
    requires IndicesInRange(t, il) && InRange(t, a)
    ensures IsLowAt(t, a, il) <==> IsHighAt(t, NotAt(t, a, []), il)
  {
  }

  /** After setting bits they are all high. */
  lemma HighAtMakesHigh(t: BinT, a: nat, il: seq<nat>)
    requires il != []
    ensures IsHighAt(t, HighAt(t, a, il), il)
  {
  }

  function Sum(s: seq<nat>): nat
  {
    if s == [] then 0 else s[0] + Sum(s[1..])
  }

  /** The number of odd entries. */
  function OddCount(s: seq<nat>): nat
  {
    if s == [] then 0 else (if s[0] % 2 == 1 then 1 else 0) + OddCount(s[1..])
  }

  /** A sum is odd exactly when it has an odd number of odd terms. */
  lemma {:induction false} SumParity(s: seq<nat>)
    ensures Sum(s) % 2 == OddCount(s) % 2
  {
    if s != [] {
      SumParity(s[1..]);
      var x, y := Sum(s[1..]), OddCount(s[1..]);
      ModUnique(x, 2, x / 2, x % 2);
      ModUnique(y, 2, y / 2, y % 2);
      if s[0] % 2 == 1 {
        ModUnique(s[0], 2, s[0] / 2, 1);
        ModUnique(s[0] + x, 2, s[0] / 2 + x / 2 + x % 2, 1 - x % 2);
        ModUnique(1 + y, 2, y / 2 + y % 2, 1 - y % 2);
      } else {
        ModUnique(s[0], 2, s[0] / 2, 0);
        ModUnique(s[0] + x, 2, s[0] / 2 + x / 2, x % 2);
      }
    }
  }

  /** `haseven(a)` as written: the parity of the sum of the indices of the
      set bits, not of their number. That sum is even exactly when an even
      number of the set bits sit at odd indices, so the bits at even
      indices play no part. */
  function HasEven(t: BinT, a: nat): (r: bool)
    ensures r <==> OddCount(GetWhereHigh(t, a)) % 2 == 0
  {
    SumParity(GetWhereHigh(t, a));
    Sum(GetWhereHigh(t, a)) % 2 == 0
  }

  /** Bits above m play no part once a is below 2^m. */
  lemma {:induction false} WhereAbove(a: nat, v: bool, m: nat, n: nat)
    requires a < Pow2(m) && m <= n && v
    ensures Where(a, v, n) == Where(a, v, m)
    decreases n
  {
    if n > m {
      SmallHasNoHighBits(a, m, n - 1);
      WhereAbove(a, v, m, n - 1);
    }
  }

  lemma ThreeFits(a: nat)
    requires a == 3
    ensures a < Pow2(2)
  {
    assert Pow2(2) == 2 * Pow2(1);
  }

  /** A word whose two low bits are set lists 0 and 1 below 2. */
  lemma WhereOfLowTwo(a: nat)
    requires Bit(a, 0) && Bit(a, 1)
    ensures Where(a, true, 2) == [0, 1]
  {
    WhereStep(a, true, 0);
    WhereStep(a, true, 1);
  }

  lemma BitsOfThree(a: nat)
    requires a == 3
    ensures Bit(a, 0) && Bit(a, 1)
  {
    assert a / 2 == 1;
  }

  /** Where grows by index n exactly when bit n has the asked value. */
  lemma WhereStep(a: nat, v: bool, n: nat)
    ensures Where(a, v, n + 1) == Where(a, v, n) + (if Bit(a, n) == v then [n] else [])
  {
  }

  /** 0b11 has two bits set, an even number, but `haseven` says no: the
      indices 0 and 1 add up to 1. */
  lemma HasEvenMissesTwoBits(t: BinT)
    requires t.nbit >= 2
    ensures |GetWhereHigh(t, 3)| == 2
    ensures !HasEven(t, 3)
  {
    ThreeFits(3);
    WhereAbove(3, true, 2, t.nbit);
    BitsOfThree(3);
    WhereOfLowTwo(3);
    assert Sum([0, 1]) == 1 by { assert Sum([1]) == 1; }
  }

  /** `represent(a)` holds one True per set bit below nbit. */
  lemma {:induction false} RepresentCount(t: BinT, a: nat)
    ensures multiset(Represent(t, a))[true] == |GetWhereHigh(t, a)|
    decreases t.nbit
  {
    if t.nbit > 0 {
      var u := BinT(t.nbit - 1, t.asup);
      RepresentCount(u, a);
      assert Represent(t, a) == Represent(u, a) + [Bit(a, t.nbit - 1)];
    }
  }

  /** `haseven` with the count its comment describes: an even number of 1s
      in the word, i.e. of True entries in `represent(a)`. */
  function HasEvenCount(t: BinT, a: nat): (r: bool)
    ensures r <==> multiset(Represent(t, a))[true] % 2 == 0
  {
    RepresentCount(t, a);
    |GetWhereHigh(t, a)| % 2 == 0
  }

  /** Words that differ in bit i only have high-bit counts one apart. */
  lemma {:induction false} WhereDiffersAt(a: nat, b: nat, i: nat, n: nat)
    requires forall j: nat :: j != i ==> Bit(a, j) == Bit(b, j)
    requires Bit(a, i) && !Bit(b, i)
    ensures |Where(a, true, n)| == |Where(b, true, n)| + (if i < n then 1 else 0)
  {
    if n > 0 {
      WhereDiffersAt(a, b, i, n - 1);
    }
  }

  /** Toggling one bit flips the parity of the count: what `haseven` is
      meant to satisfy. */
  lemma ToggleFlipsEvenCount(t: BinT, a: nat, i: nat)
    requires i < t.nbit && InRange(t, a)
    ensures HasEvenCount(t, NotAt(t, a, [i])) != HasEvenCount(t, a)
  {
    var b := NotAt(t, a, [i]);
    assert [i][1..] == [];
    assert b == ToggleFold(t, ToggleStep(t, a, i), []);
    ToggleStepSpec(t, a, i);
    OneBitApart(t, a, b, i);
  }

  lemma OneBitApart(t: BinT, a: nat, b: nat, i: nat)
    requires i < t.nbit
    requires forall j: nat :: j != i ==> Bit(a, j) == Bit(b, j)
    requires Bit(a, i) != Bit(b, i)
    ensures HasEvenCount(t, b) != HasEvenCount(t, a)
  {
    var ca, cb := |GetWhereHigh(t, a)|, |GetWhereHigh(t, b)|;
    if Bit(a, i) {
      WhereDiffersAt(a, b, i, t.nbit);
      ParityStep(cb, ca);
    } else {
      WhereDiffersAt(b, a, i, t.nbit);
      ParityStep(ca, cb);
    }
  }

  lemma ParityStep(x: nat, y: nat)
    requires y == x + 1
    ensures (x % 2 == 0) != (y % 2 == 0)
  {
    ModUnique(y, 2, x / 2 + x % 2, 1 - x % 2);
  }

  /** Toggling bit 0 of 0 gives 1. */
  lemma ToggleZeroOfZero(t: BinT)
    requires t.nbit >= 1
    ensures NotAt(t, 0, [0]) == 1
  {
    var b := NotAt(t, 0, [0]);
    Pow2Order(0, t.nbit);
    forall j: nat ensures Bit(b, j) == Bit(1, j) {
      BitOfZero(j);
      BitOfPow2(0, j);
      if j >= t.nbit {
        SmallHasNoHighBits(b, t.nbit, j);
      } else {
        assert multiset([0])[j] == if j == 0 then 1 else 0;
      }
    }
    BitsDetermine(b, 1);
  }

  /** The written `haseven` does not flip when bit 0 is toggled: 0 and 1
      both count as even. */
  lemma HasEvenIgnoresBitZero(t: BinT)
    requires t.nbit >= 1
    ensures NotAt(t, 0, [0]) == 1
    ensures HasEven(t, 0) && HasEven(t, 1)
  {
    ToggleZeroOfZero(t);
    HasEvenOfZero(t);
    HasEvenOfOne(t);
  }

  lemma HasEvenOfZero(t: BinT)
    ensures HasEven(t, 0)
  {
    WhereAbove(0, true, 0, t.nbit);
    assert GetWhereHigh(t, 0) == [];
  }

  lemma HasEvenOfOne(t: BinT)
    requires t.nbit >= 1
    ensures HasEven(t, 1)
  {
    WhereOfOne(t);
    assert Sum([0]) == 0 by { assert [0][1..] == []; }
  }

  lemma WhereOfOne(t: BinT)
    requires t.nbit >= 1
    ensures GetWhereHigh(t, 1) == [0]
  {
    WhereAbove(1, true, 1, t.nbit);
    assert Bit(1, 0);
    assert Where(1, true, 1) == [0];
  }
}
