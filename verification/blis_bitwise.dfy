/** The bitwise operators `&`, `|` and `^` of `blis` (binary.py, lines
    360-391). The left operand is copied into the wider of the two widths
    (padding with zero bits, not with copies of the sign bit), and then each
    bit of the right operand is combined into the copy, position by position.
    Positions above the right operand's width are left as they are in the
    copy, so the operators are not symmetric when the widths differ. */
module BlisBitwise {
  import opened Results
  import opened BitLists
  import opened Blis
  import opened Construction
  import opened BlisArith

  /** Bit i of the zero-padded copy of a. */
  function Padded(a: Blis, i: nat): bool
  {
    i < |a.bits| && a.bits[i]
  }

  /** The result of `a op o`, position by position: within the right
      operand's width the two bits are combined, above it the left operand's
      (padded) bit stays. Both operands empty leaves no positive width for the
      copy. */
  function Bitwise(op: Op, a: Blis, o: Operand): (r: Result<Blis>)
    ensures r.Err? <==> |a.bits| == 0 && |Coerce(o).bits| == 0
    ensures r.Err? ==> r.error == AssertionError
    ensures r.Ok? ==> |r.value.bits| == Max(|a.bits|, |Coerce(o).bits|)
  {
    var b := Coerce(o);
    var n := Max(|a.bits|, |b.bits|);
    if n == 0 then Err(AssertionError)
    else Ok(Blis(seq(n, i requires 0 <= i < n =>
      if i < |b.bits| then BitOp(op, Padded(a, i), b.bits[i]) else Padded(a, i))))
  }

  /** The `for i, bit in enumerate(other)` loop: combine t into s position
      by position, leaving the positions past t's end alone. */
  method CombineInto(op: Op, s: seq<bool>, t: seq<bool>) returns (u: seq<bool>)
    requires |t| <= |s|
    ensures |u| == |s|
    ensures forall k :: 0 <= k < |s| ==> u[k] == (if k < |t| then BitOp(op, s[k], t[k]) else s[k])
  {
    u := s;
    var i := 0;
    while i < |t|
      invariant 0 <= i <= |t| && |u| == |s|
      invariant forall k :: 0 <= k < |s| ==> u[k] == (if k < i then BitOp(op, s[k], t[k]) else s[k])
    {
      u := u[i := BitOp(op, u[i], t[i])];
      i := i + 1;
    }
  }

  /** `__and__`, `__or__` and `__xor__`: copy the left operand into the
      wider width, then combine the right operand's bits into the copy. */
  method BitwiseLoop(op: Op, a: Blis, o: Operand) returns (r: Result<Blis>)
    ensures r == Bitwise(op, a, o)
    ensures r.Ok? ==> forall i :: 0 <= i < |r.value.bits| ==>
      r.value.bits[i] == (if i < |Coerce(o).bits| then BitOp(op, Padded(a, i), Coerce(o).bits[i]) else Padded(a, i))
  {
    r := CopyAndCombine(op, a, Coerce(o));
    assert Bitwise(op, a, Vec(Coerce(o))) == Bitwise(op, a, o);
  }

  /** The body of the operators once `makeargblis` has made the right
      operand a blis. */
  method CopyAndCombine(op: Op, a: Blis, b: Blis) returns (r: Result<Blis>)
    ensures r == Bitwise(op, a, Vec(b))
  {
    var n := Max(|a.bits|, |b.bits|);
    var c := Copy(a, Some(n));
    if c.Err? {
      assert n == 0;
      return Err(AssertionError);
    }
    CopyIsResize(a, Some(n));
    var bits := CombineInto(op, c.value.bits, b.bits);
    assert bits == Bitwise(op, a, Vec(b)).value.bits;
    r := Ok(Blis(bits));
  }

  /** `o & a`, `o | a`, `o ^ a` for an int o: the operands are swapped, so
      o becomes `blis(o)` at its automatic width and a stays the left
      operand. The result is always defined, at least as wide as blis(o),
      and above blis(o)'s width it keeps a's padded bits. */
  function Reflected(op: Op, a: Blis, i: int): (r: Result<Blis>)
    ensures r == Bitwise(op, a, Num(i))
    ensures r.Ok? && |r.value.bits| == Max(|a.bits|, AutoWidth(i))
    ensures forall j :: 0 <= j < |r.value.bits| ==>
      r.value.bits[j] == (if j < AutoWidth(i) then BitOp(op, Padded(a, j), Exact(i).bits[j]) else Padded(a, j))
  {
    Bitwise(op, a, Num(i))
  }

  /** Xoring the same mask twice gives the left operand back, as long as the
      mask is no wider than it. */
  lemma XorTwice(a: Blis, b: Blis)
    requires |a.bits| >= |b.bits| && |a.bits| > 0
    ensures Bitwise(Xor, a, Vec(b)).Ok?
    ensures Bitwise(Xor, Bitwise(Xor, a, Vec(b)).value, Vec(b)) == Ok(a)
  {
    var x := Bitwise(Xor, a, Vec(b)).value;
    var y := Bitwise(Xor, x, Vec(b)).value;
    assert y.bits == a.bits;
  }

  /** And and or of a list with itself give the list back. */
  lemma Idempotent(a: Blis)
    requires |a.bits| > 0
    ensures Bitwise(And, a, Vec(a)) == Ok(a)
    ensures Bitwise(Or, a, Vec(a)) == Ok(a)
    ensures Bitwise(Xor, a, Vec(a)) == Ok(Blis(Zeros(|a.bits|)))
  {
    assert Bitwise(And, a, Vec(a)).value.bits == a.bits;
    assert Bitwise(Or, a, Vec(a)).value.bits == a.bits;
    assert Bitwise(Xor, a, Vec(a)).value.bits == Zeros(|a.bits|);
  }

  /** For operands of the same width the operators commute. */
  lemma CommuteSameWidth(op: Op, a: Blis, b: Blis)
    requires |a.bits| == |b.bits| > 0
    ensures Bitwise(op, a, Vec(b)) == Bitwise(op, b, Vec(a))
  {
    assert Bitwise(op, a, Vec(b)).value.bits == Bitwise(op, b, Vec(a)).value.bits;
  }

  /** With a narrower right operand the top bits of the left one survive an
      and: `a & b` and `b & a` differ when a has a set bit above b's width. */
  lemma AndNotSymmetric(a: Blis, b: Blis, i: nat)
    requires |b.bits| <= i < |a.bits| && a.bits[i]
    ensures Bitwise(And, a, Vec(b)).value.bits[i]
    ensures !Bitwise(And, b, Vec(a)).value.bits[i]
    ensures Bitwise(And, a, Vec(b)) != Bitwise(And, b, Vec(a))
  {
  }
}
