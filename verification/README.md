# pytools binary tools, modelled in Dafny

This project models the numeric core of the `pytools` repository:

- `blis` (binary.py) is a variable-width two's complement integer stored as its own list of bits, least significant bit first. The model covers its three constructors (int, bit sequence, `'0'`/`'1'` string), the `nbits` and `isneg` properties, and the in-place mutators `invert`, `increment` and `negate`, written as functions that return the new value. It also covers `int()` and `str()`, the arithmetic, bitwise, shift and rounding operators, comparisons and indexing.
- The power-of-two helpers `ispower2`, `ceilpow2` and `floorpow2`, which the `blis` encoder relies on.
- `BinT`, a toolkit for unsigned words of `nbit` bits. It can set, clear, toggle or move the bits at a list of indices, combine two words with and/nand/or/nor/xor/xnor on selected bits, and list or test bits.
- `warnLast` and `meld` from generators.py, and `infList` from inflist.py. Each generator is modelled as the finite sequence it yields.

Python's unbounded ints are Dafny `int`. A bit list is `seq<bool>`. A raised exception is an `Err` carrying its kind. `Unsigned` (module BitLists) reads a bit list as an unsigned number, and `ToInt` (module Blis) is `__int__`. Bitwise operators on Python ints are modelled bit by bit in module NatBits (`Bit`, `Combine`). Every operation's contract is stated against those readings.

Modules, one per file:

| module | file |
|---|---|
| Results | results.dfy |
| Powers | powers.dfy |
| BitLists | bitlists.dfy |
| Blis | blis.dfy |
| Construction | construction.dfy |
| BlisArith | blis_arith.dfy |
| BlisBitwise | blis_bitwise.dfy |
| BlisShift | blis_shift.dfy |
| BlisRounding | blis_rounding.dfy |
| NatBits | natbits.dfy |
| BinaryTools | bint.dfy |
| Generators | generators.dfy |
| InfList | inflist.dfy |

## Model

| member | source | states |
|---|---|---|
| Powers.IsPower2 | binary.py:22-29 | returns k >= 0 only when x is 2^k, and -1 only when x is no power of two |
| Powers.CeilPow2 | binary.py:32-35 | returns the least i >= 0 with 2^i >= x |
| Powers.FloorPow2 | binary.py:37-42 | returns None exactly when x < 1; otherwise returns i with 2^i <= x < 2^(i+1) |
| Powers.FloorPow2Unique | binary.py:37-42 | any i with 2^i <= x < 2^(i+1) is the answer of floorpow2(x) |
| Powers.IsPower2MatchesFloorPow2 | binary.py:22-42 | when ispower2 finds an exponent, floorpow2 finds the same one |
| Powers.CeilFloorBracket | binary.py:22-42 | ceilpow2(x) equals floorpow2(x) for a power of two, and floorpow2(x) + 1 otherwise |
| Blis.ToInt | binary.py:195-199 | the reading is negative exactly when isneg holds; it lies in [-2^(n-1), 2^(n-1)); an empty list reads -1 |
| Blis.IsNeg | binary.py:157-159 | true for an empty list, otherwise exactly when the top bit is set, i.e. the pattern is at least 2^(n-1) |
| Blis.ToIntMod | binary.py:195-199 | the reading is congruent to the unsigned pattern modulo 2^n |
| Blis.ToIntInjective | binary.py:195-199 | two lists of the same positive width with the same reading are equal |
| Blis.Resize | binary.py:149-155 | the new width is n (a negative n slices from the end), and bit i is the old bit i, or 0 above the old width |
| Blis.ResizeValue | binary.py:149-155 | resizing to n keeps the unsigned pattern modulo 2^n |
| Blis.GrowValue | binary.py:149-155 | zero-padding keeps the reading exactly when the number is not negative |
| Blis.Invert | binary.py:172-175 | flips every bit and keeps the width; the pattern becomes 2^n - 1 - u, and the reading becomes -x - 1 |
| Blis.UnsignedFlip | binary.py:172-175 | flipping every bit of a list maps u to 2^n - 1 - u |
| Blis.IncrementBits | binary.py:177-186 | the pattern grows by 1; the width is kept unless every bit was set, in which case all bits clear and a 1 is appended |
| Blis.Increment | binary.py:177-186 | the same as IncrementBits, for a blis |
| Blis.Negate | binary.py:165-170 | the pattern becomes 2^n - u; an all-zero list grows by one bit |
| Blis.NegateValue | binary.py:165-170 | the reading is -x modulo 2^n; it is exactly -x unless x is 0 or -2^(n-1); -2^(n-1) is unchanged and 0 becomes -2^n |
| Blis.ClearIsZero | binary.py:195-199 | the pattern is zero exactly when no bit is set |
| Construction.PowersOf | binary.py:85-88 | the exponents list is empty exactly for 0, starts with floorpow2(x), decreases strictly, and holds only powers <= x |
| Construction.SumBelowPowers | binary.py:85-95 | setting the bits below n at those exponents gives x modulo 2^n |
| Construction.FromValue | binary.py:76-97 | a negative width fails the assertion unless the value is 0; 0 gives all zeros |
| Construction.FromValueWraps | binary.py:76-97 | with width n > 0 the reading is v modulo 2^n; the width is n, or n + 1 when v is a negative multiple of 2^n |
| Construction.FromValueFixedWidth | binary.py:76-97 | with width n the reading is exactly v when -2^(n-1) <= v < 2^(n-1) |
| Construction.FromValueRoundTrip | binary.py:76-97 | without a width the reading is v, at width max(floorpow2(abs v) + 2, 8), or 8 for 0 |
| Construction.AutoWidthFits | binary.py:89-90 | the automatic width fits abs(v) below 2^(width-1), and is minimal when it exceeds 8 |
| Construction.NegatePattern | binary.py:96-97 | negating the pattern of abs(v) gives v modulo 2^n |
| Construction.FromSequence | binary.py:99-112 | fails the assertion for a non-positive width and raises TypeError for a bad element; otherwise keeps the first n elements and zero-pads |
| Construction.FromSequenceValue | binary.py:99-112 | the pattern is the sequence's value modulo 2^n |
| Construction.CopyIsResize | binary.py:99-112 | copying a blis with a width is resizing it; copying without a width is the identity |
| Construction.FromString | binary.py:114-120 | a non-digit character raises ValueError; a digit other than 0 or 1 fails the assertion |
| Construction.FromStringBits | binary.py:114-120 | a '0'/'1' string is read right to left into the bits, with the width rule of from_sequence |
| Construction.FromStringIsSequence | binary.py:114-120 | for a '0'/'1' string, from_string is from_sequence on the reversed digits |
| Construction.Str | binary.py:204-205 | prints exactly one '0'/'1' character per bit |
| Construction.StringRoundTrip | binary.py:114-120 | str(blis(s)) == s for every non-empty '0'/'1' string |
| Construction.StrRoundTrip | binary.py:204-205 | blis(str(b)) == b for every non-empty b |
| Construction.Docstring13 | binary.py:57-61 | blis(13, 4) stores [1,0,1,1] and prints '1101', but reads -3 |
| Construction.Construct | binary.py:128-139 | an int goes to from_value, exact without a width and right modulo 2^w with one; a string that is not all '0'/'1' raises ValueError if it holds a non-digit and fails the assertion otherwise; a '0'/'1' string succeeds exactly for a positive width and is read right to left, zero-padded; a sequence succeeds exactly for a positive width and valid elements; any other argument raises TypeError |
| Construction.Init | binary.py:53-139 | no arguments give an empty bit list; more than two raise TypeError; one or two go to the dispatch above |
| BlisArith.PyDiv | binary.py:249-256 | Python's // is floor division for either sign of divisor |
| BlisArith.PyMod | binary.py:269-276 | Python's % lies between 0 and the divisor, on the divisor's side |
| BlisArith.DivModIdentity | binary.py:249-276 | the quotient and remainder are unique |
| BlisArith.Coerce | binary.py:44-49 | an int operand becomes blis(i), read exactly at the automatic width; a blis is used as it is |
| BlisArith.Exact | binary.py:76-97 | blis(val) without a width reads val |
| BlisArith.Add | binary.py:223-229 | a sum above 2^(w-1) is exact at the automatic width; a sum in the w-bit range is exact at width w; any other sum is right modulo 2^w, at width w when it is above -2^w; a sum of exactly -2^w is exact at width w + 1; the width is never below w |
| BlisArith.AddIn | binary.py:225-229 | the same laying out of a sum v for the operand width w, as a function of w and v alone |
| BlisArith.RAdd | binary.py:231-232 | o + a is a + o, and obeys the same width and value rules for the sum o + x |
| BlisArith.AddGuardGap | binary.py:227 | a sum of exactly 2^(w-1) reads -2^(w-1) |
| BlisArith.AddGuardUnderflow | binary.py:227 | a sum in (-2^w, -2^(w-1)) reads the sum plus 2^w |
| BlisArith.SixtyFourPlusSixtyFour | binary.py:223-229 | blis(64) + 64 reads -128 |
| BlisArith.AddGrowing | binary.py:223-229 | corrected addition: always exact, at width w whenever the sum fits in w bits |
| BlisArith.Mul | binary.py:234-237 | the product is exact, at the automatic width |
| BlisArith.FloorDiv | binary.py:248-251 | ZeroDivisionError exactly for a zero divisor; otherwise the floor quotient |
| BlisArith.RFloorDiv | binary.py:253-256 | o // a, with ZeroDivisionError exactly when a reads 0 |
| BlisArith.Pow | binary.py:260-263 | a non-negative exponent gives the exact power; a negative one raises ZeroDivisionError for base 0 and TypeError otherwise |
| BlisArith.IntPowAdd | binary.py:260-263 | x^(y+z) == x^y * x^z |
| BlisArith.Mod | binary.py:268-271 | ZeroDivisionError exactly for a zero divisor; otherwise Python's remainder, with the divisor's sign, at the divisor's width (8 if that width is 0) |
| BlisArith.RMod | binary.py:273-276 | o % a: ZeroDivisionError exactly when a reads 0; otherwise Python's remainder at a's width (8 if that width is 0) |
| BlisArith.FloorDivModRecombine | binary.py:248-271 | (a // o) * o + a % o == a |
| BlisArith.Pos | binary.py:213-215 | +a is a copy; an empty list fails the assertion |
| BlisArith.Neg | binary.py:217-219 | -a is the negated copy |
| BlisArith.NegValue | binary.py:217-219 | -a reads -x except at 0, which becomes -2^n at width n + 1, and at -2^(n-1), which stays |
| BlisArith.InvertOp | binary.py:354-356 | ~a reads -x - 1 at the same width |
| BlisArith.AbsOp | binary.py:280-281 | an empty list fails the assertion; otherwise abs(a) reads abs(x), except that -2^(n-1) stays |
| BlisArith.CompareWithInt | binary.py:472-482 | comparing with an int compares with the int itself |
| BlisArith.Eq | binary.py:472-474 | == holds exactly when the readings are equal |
| BlisArith.Le | binary.py:476-478 | <= holds exactly when a reads at most the operand |
| BlisArith.Lt | binary.py:480-482 | < holds exactly when a reads less than the operand |
| BlisArith.EqSameWidth | binary.py:472-475 | at equal widths, == holds exactly for equal bit lists |
| BlisArith.GetItem | binary.py:491-492 | a[i] is the bit as an 8-bit blis, for -n <= i < n; IndexError otherwise |
| BlisBitwise.Bitwise | binary.py:360-391 | the result has width max(n, m); both widths 0 fails the assertion |
| BlisBitwise.CombineInto | binary.py:364-365 | the loop combines the positions below the right operand's length and leaves the others alone |
| BlisBitwise.BitwiseLoop | binary.py:360-391 | &, \| and ^: bit i is a_i op b_i below b's width, and a's zero-padded bit above it |
| BlisBitwise.CopyAndCombine | binary.py:360-366 | copying the left operand at the wider width and combining in place yields the same blis as the positionwise definition, including the empty-width assertion error |
| BlisBitwise.Reflected | binary.py:368-391 | i & a, i | a, i ^ a never fail; the width is max(n, width of blis(i)); bit j is the operator on a's and blis(i)'s bits below blis(i)'s width, and a's zero-padded bit above it |
| BlisBitwise.XorTwice | binary.py:382-388 | xoring with the same narrower mask twice gives a back |
| BlisBitwise.Idempotent | binary.py:360-388 | a & a == a, a \| a == a, and a ^ a is all zeros |
| BlisBitwise.CommuteSameWidth | binary.py:360-388 | at equal widths the operators commute |
| BlisBitwise.AndNotSymmetric | binary.py:360-366 | with a narrower right operand, a & b and b & a differ at a set bit of a above b's width |
| BlisShift.OfBits | binary.py:99-112 | blis(list) is the list itself, and fails the assertion when the list is empty |
| BlisShift.LShiftInt | binary.py:408-412 | a << k keeps width n; bit j is a's bit j - k, and 0 below k |
| BlisShift.LShiftValue | binary.py:408-412 | a << k is u * 2^k modulo 2^n |
| BlisShift.LShiftVec | binary.py:413-419 | a << b puts b's bits below a's and cuts back to a's width |
| BlisShift.LShiftVecValue | binary.py:413-419 | a << b is (u_b + u_a * 2^m) modulo 2^n |
| BlisShift.RLShift | binary.py:423-427 | k << a raises TypeError for k > n and fails the assertion when -k >= n for k <= 0; for 0 < k <= n it is the top k bits, u / 2^(n-k); k = 0 returns a; for -n < k < 0 it drops the low -k bits, u / 2^(-k), at width n + k |
| BlisShift.RShiftInt | binary.py:438-442 | a >> k raises TypeError for k > n and fails the assertion for k = 0 or k <= -n; for 0 < k <= n it is the low k bits, u modulo 2^k; for -n < k < 0 it is the low n + k bits |
| BlisShift.RShiftVec | binary.py:443-449 | a >> b keeps the last len(b) elements of b + a |
| BlisShift.RShiftVecValue | binary.py:443-449 | when b is no wider than a, a >> b is a's top len(b) bits |
| BlisShift.RRShift | binary.py:453-457 | k >> a drops a's low k bits and zero-fills at the top, keeping width n |
| BlisShift.RRShiftValue | binary.py:453-457 | k >> a is u / 2^k |
| BlisShift.ShiftLeftThenRight | binary.py:408-457 | k >> (a << k) is a's low n - k bits followed by k zeros |
| BlisRounding.ScanDown | binary.py:292-301 | the while-loop scan finds the highest bit that differs from v, wrapping through negative indices, and runs off only when every bit equals v |
| BlisRounding.ScanNonNegative | binary.py:299-301 | for a non-negative x the highest set bit is floorpow2(x); the scan fails exactly for 0 |
| BlisRounding.ScanNegative | binary.py:292-295 | for a negative x the highest clear bit is floorpow2(-x-1); the scan fails exactly for -1 |
| BlisRounding.Ceil | binary.py:283-305 | IndexError exactly for 0 and -1; the width is kept; positive x goes to 2^(f+1), or -2^(n-1) on overflow; negative x goes to -2^f |
| BlisRounding.Floor | binary.py:307-328 | IndexError exactly for 0 and -1; the width is kept; positive x goes to 2^f, negative x to -2^(f+1) |
| BlisRounding.Trunc | binary.py:330-331 | ceil for a negative x, floor otherwise: IndexError exactly for 0 and -1; the width is kept; the result moves towards zero and keeps the sign |
| BlisRounding.Bracket | binary.py:283-328 | floor(x) <= x, within a factor of two; where ceil does not overflow, floor(x) <= x < ceil(x) and they are a factor of two apart |
| BlisRounding.Round | binary.py:333-346 | clears bits 0..k-1 and keeps the rest and the width; an empty list fails the assertion; k > n raises IndexError |
| BlisRounding.RoundValue | binary.py:333-346 | the pattern becomes u - u mod 2^k, a multiple of 2^k |
| BlisRounding.RoundIdempotent | binary.py:333-346 | rounding twice is rounding once |
| NatBits.CombineBit | binary.py:574-684 | each bit of x & y, x \| y, x ^ y is the operator applied to the operands' bits |
| NatBits.BitsDetermine | binary.py:574-684 | two non-negative ints with the same bits are equal |
| NatBits.BitOfMod | binary.py:577 | masking with g_mask keeps exactly the bits below nbit |
| BinaryTools.MaskWordBit | binary.py:577 | x + senior & g_mask keeps the two's complement bits of x below nbit |
| BinaryTools.MaskWordIsAnd | binary.py:519-523 | reducing modulo senior is and-ing with g_mask |
| BinaryTools.MoveAt | binary.py:643-660 | no indices return a; otherwise bit j is b's bit at a listed index, and a's bit elsewhere below nbit; above nbit a listed index takes b's bit and an unlisted one keeps a's |
| BinaryTools.MoveAtSpec | binary.py:643-660 | for in-range indices, b's bits on the indices, a's elsewhere, and the result is a word |
| BinaryTools.OpAt | binary.py:585-625 | with no indices the result is a word whose bits below nbit are the operation's (complemented for nand/nor/xnor); with indices, the operation's bit on the indices and the background elsewhere below nbit: a's bit when asuperior, 0 otherwise; above nbit a listed index also takes the background bit |
| BinaryTools.OpAtIndexed | binary.py:585-625 | with indices, the operation's bit on the indices and the background elsewhere: a's bit when asuperior, 0 otherwise |
| BinaryTools.AndAtExample | binary.py:536-538 | andAt(0b1011, 0b0101, 0) is 0b0001 without asuperior and 0b1011 with it |
| BinaryTools.ToggleStepSpec | binary.py:578-582 | one loop step of notAt flips bit i and nothing else |
| BinaryTools.ToggleFoldSpec | binary.py:578-583 | notAt flips each bit listed an odd number of times |
| BinaryTools.NotAt | binary.py:574-583 | with no indices notAt(a) of a word is g_mask - a; for in-range indices the result is a word, and bit j flips exactly when j is listed an odd number of times, or when none are listed |
| BinaryTools.NotAtTwice | binary.py:574-583 | toggling the same bits twice gives a back |
| BinaryTools.NotAtEveryIndex | binary.py:574-583 | toggling every index one by one is the whole-word complement |
| BinaryTools.HighAt | binary.py:627-633 | no indices give g_mask; otherwise the listed bits are set and every other bit is a's |
| BinaryTools.LowAt | binary.py:635-641 | no indices give 0; otherwise, for in-range indices and word, the listed bits are cleared and every other bit is a's |
| BinaryTools.HighLowAreMoves | binary.py:627-660 | highAt is moveAt from g_mask, and lowAt is moveAt from 0 |
| BinaryTools.Represent | binary.py:662-664 | one bool per bit, nbit of them |
| BinaryTools.RepresentValue | binary.py:662-664 | the tuple read as a bit list is a modulo senior |
| BinaryTools.RepresentRoundTrip | binary.py:662-664 | a bit list of width nbit is represented by its own value |
| BinaryTools.Where | binary.py:666-672 | the listed indices are increasing, below nbit, and are exactly the bits with the asked value |
| BinaryTools.GetWhereHigh | binary.py:666-668 | the indices below nbit of the set bits, all of them, in increasing order |
| BinaryTools.GetWhereLow | binary.py:670-672 | the indices below nbit of the clear bits, all of them, in increasing order |
| BinaryTools.WherePartition | binary.py:666-672 | getWhereHigh and getWhereLow together list nbit indices |
| BinaryTools.IsHighAt | binary.py:674-676 | true exactly when every listed bit is set |
| BinaryTools.IsLowAt | binary.py:678-680 | true exactly when no listed bit is set; the indices come as one iterable |
| BinaryTools.LowIsHighOfComplement | binary.py:574-680 | the bits low in a are those high in notAt(a) |
| BinaryTools.HighAtMakesHigh | binary.py:627-676 | after highAt the listed bits are all high |
| BinaryTools.HasEven | binary.py:682-684 | haseven holds exactly when the set-bit indices below nbit include an even number of odd ones, i.e. their sum is even |
| BinaryTools.HasEvenCount | binary.py:682-684 | corrected haseven: holds exactly when represent(a) holds an even number of True |
| BinaryTools.HasEvenMissesTwoBits | binary.py:682-684 | haseven(0b11) is false although two bits are set |
| BinaryTools.HasEvenIgnoresBitZero | binary.py:682-684 | toggling bit 0 of 0 gives 1, and haseven holds for both |
| BinaryTools.ToggleFlipsEvenCount | binary.py:682-684 | corrected haseven: toggling one bit flips the parity of the set-bit count |
| Generators.WarnLast | generators.py:21-26 | one row per element in order; a tuple is spread; the flag is True only on the last row; an empty input raises RuntimeError |
| Generators.WarnLastRows | generators.py:21-26 | the output is the reference row list |
| Generators.OneFlag | generators.py:24-26 | exactly one row carries the flag, and it is the last one |
| Generators.RowsKeepValues | generators.py:24-26 | dropping the flags gives back the input, tuples spread |
| Generators.Meld | generators.py:45-47 | no arguments, or an empty one, leave N unbound (UnboundLocalError) |
| Generators.MeldAll | generators.py:28-49 | for non-empty arguments, the output runs as long as the longest argument; position p comes from the leftmost argument longer than p |
| Generators.PickTails | generators.py:48-49 | cutting the arguments at the common length shifts that choice by the length |
| Generators.MeldPrefix | generators.py:45-46 | the first min-length outputs are the first argument's prefix |
| Generators.MeldOne | generators.py:45-49 | a single argument comes back unchanged |
| Generators.MeldExample | generators.py:36-43 | 'abcd', 'efghi', 'jkl', 'mnopqrs' meld to 'abcdirs' |
| InfList.From | inflist.py:5-7 | the k-th value is v + (k+1)*step, and it is yielded exactly when stop lay ahead of v + k*step |
| InfList.Values | inflist.py:2-7 | the k-th value of infList is start + (k+1)*step, and it is yielded exactly when stop lay ahead of start + k*step |
| InfList.ValuesBounds | inflist.py:5-7 | every value but the last is short of stop; the last reaches or passes it |
| InfList.Mirror | inflist.py:4-7 | a negative step mirrors the positive one |

## Left out

- `CRC` (binary.py:687-717) prints to the console and is unfinished.
- `__truediv__` and `__rtruediv__` only call `/` again. `__rpow__` returns NotImplemented.
- Subtraction comes from the standard number base classes, so it is not in binary.py itself.
- The thin list wrappers `__len__`, `__setitem__`, `__delitem__`, `insert`, `__repr__` and `__iter__` are left out.
- Slices as the index of `__getitem__` are left out. Only an int index is modelled.
- `isiterable` (observation.py) is not part of this model. The runtime type tests of the dispatch become the `Arg` variant the caller picks: `IntArg`, `StrArg`, `SeqArg` or `OtherArg`.
- `makeargblis` with a string or list operand is left out: operands are a blis or an int.
- The reflected shifts `k << a` and `k >> a` with a list or blis `k` (binary.py:428-434, 458-464) are left out. Only an int `k` is modelled.
- `from_string` reads every Unicode digit through `int()`; the model treats only '0'-'9' as digits.
- Bits that `increment` appends are Python `True`, not `1`. The model treats them as set bits.
- Construction.Str: a bit appended by `increment` prints as 'True' in the source, and the model prints it as '1'.
- BlisArith.GetItem: for a bit appended by `increment` the source's `blis(True)` raises TypeError, and the model returns the set bit.
- BinaryTools.NotAt, BinaryTools.LowAt, BinaryTools.MoveAtSpec and the other BinT lemmas state their per-bit clauses only for words below 2^nbit and indices below nbit. The source checks neither. Out-of-range indices leak bits past g_mask; `MoveAt`, `OpAt` and `HighAt` state that general case.
- BinaryTools: indices are `nat`. A negative index makes `1 << i` raise ValueError in the source (binary.py:579, 632, 640, 658, 676, 680). That error path is not modelled, because it would wrap every BinT result in a `Result`.
- BinaryTools.OpAt: the operands are non-negative ints. The source also accepts negative operands.
- InfList.Values: a zero step with `stop < start` loops forever in the source, so the model requires `step != 0` or `stop >= start`.
- InfList.Values: start, stop and step are ints. A slice with no step, such as `slice(a, b)`, makes `slc.step > 0` raise TypeError at inflist.py:4, and a missing start or stop fails the first comparison the same way. Those errors are not modelled.
- The generators are modelled as finite sequences. Laziness, and the rows `warnLast` yields before a later failure, are not modelled.
- `meld` on inputs that are not sequences (any iterable) is left out.
- vector.py, linux.py, tools.py, test.py and observation.py are not part of this model.
- Deep recursion limits of `floorpow2` and `meld` on very large inputs are not modelled.

## Findings

| source | as written | input that shows it | evidently intended | confidence | as-written member | corrected member |
|---|---|---|---|---|---|---|
| binary.py:227 | the width grows only when the sum is strictly above 2^(w-1); a sum of exactly 2^(w-1), or one in (-2^w, -2^(w-1)), is laid out in w bits and wraps (a sum of exactly -2^w comes out exact, at w + 1 bits) | blis(64) + 64 is 8 bits wide and reads -128 | grow whenever the sum does not fit in w bits, so addition is exact | high (not executed) | BlisArith.SixtyFourPlusSixtyFour | BlisArith.AddGrowing |
| binary.py:682-684 | haseven sums the indices of the set bits, not their count | haseven(0b11) is False, although 0b11 has two set bits | the parity of the number of set bits, as its doc comment says | high (not executed) | BinaryTools.HasEvenMissesTwoBits | BinaryTools.ToggleFlipsEvenCount |
