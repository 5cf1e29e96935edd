/**
 Bit fields under masks (`util/util-bits.h`).

 The bitwise operators are defined bit by bit on natural numbers.  A contiguous
 mask is the same thing as a shift and a width, and on such a mask inserting and
 extracting are `SetField` and `GetField`.
 */
module Bits {
  import opened Words

  // ----- bitwise operators

  function And(x: nat, y: nat): nat {
    if x == 0 || y == 0 then 0 else 2 * And(x / 2, y / 2) + (if x % 2 == 1 && y % 2 == 1 then 1 else 0)
  }

  function Or(x: nat, y: nat): nat
    decreases x + y
  {
    if x == 0 && y == 0 then 0 else 2 * Or(x / 2, y / 2) + (if x % 2 == 1 || y % 2 == 1 then 1 else 0)
  }

  function Xor(x: nat, y: nat): nat
    decreases x + y
  {
    if x == 0 && y == 0 then 0 else 2 * Xor(x / 2, y / 2) + (if x % 2 != y % 2 then 1 else 0)
  }

  /** Complement of an `n`-bit number. */
  function Not(n: nat, x: nat): nat
    requires x < Pow2(n)
  {
    Pow2(n) - 1 - x
  }

  function Not32(x: Word): Word {
    0xFFFF_FFFF - x
  }

  function Shl32(x: Word, s: nat): Word {
    x * Pow2(s) % 0x1_0000_0000
  }

  /** `std::countr_zero` */
  function CountrZero(x: nat): nat
    requires 0 < x
  {
    if x % 2 == 1 then 0 else 1 + CountrZero(x / 2)
  }

  /** `std::popcount` */
  function PopCount(x: nat): nat {
    if x == 0 then 0 else x % 2 + PopCount(x / 2)
  }

  /** `std::bit_width`, that is 32 - `std::countl_zero` */
  function BitWidth(x: nat): nat {
    if x == 0 then 0 else 1 + BitWidth(x / 2)
  }

  /** The contiguity test of `extract_value`. */
  predicate Contiguous(mask: Word) {
    0 < mask && PopCount(mask) == BitWidth(mask) - CountrZero(mask)
  }

  // ----- fields

  /** `w` ones above `s` zeros */
  function Mask(s: nat, w: nat): nat
    decreases s + w
  {
    if 0 < s then 2 * Mask(s - 1, w) else if 0 < w then 2 * Mask(0, w - 1) + 1 else 0
  }

  /** The `w` bits of `x` from bit `s` up. */
  function GetField(x: nat, s: nat, w: nat): nat
    decreases s + w
  {
    if 0 < s then GetField(x / 2, s - 1, w)
    else if 0 < w then x % 2 + 2 * GetField(x / 2, 0, w - 1)
    else 0
  }

  /** `x` with its `w` bits from bit `s` up replaced by the low `w` bits of `v`. */
  function SetField(x: nat, s: nat, w: nat, v: nat): nat
    decreases s + w
  {
    if 0 < s then x % 2 + 2 * SetField(x / 2, s - 1, w, v)
    else if 0 < w then v % 2 + 2 * SetField(x / 2, 0, w - 1, v / 2)
    else x
  }

  /** What the recursive definitions compute, as a reader would write them. */
  lemma {:induction false} MaskClosedForm(s: nat, w: nat)
    ensures Mask(s, w) == (Pow2(w) - 1) * Pow2(s)
    decreases s + w
  {
    if 0 < s {
      MaskClosedForm(s - 1, w);
      DoubleMul(Pow2(w) - 1, Pow2(s - 1));
    } else if 0 < w {
      MaskClosedForm(0, w - 1);
    }
  }

  lemma {:induction false} GetClosedForm(x: nat, s: nat, w: nat)
    ensures GetField(x, s, w) == x / Pow2(s) % Pow2(w)
    decreases s + w
  {
    if 0 < s {
      GetClosedForm(x / 2, s - 1, w);
      HalveFirst(x, Pow2(s - 1));
    } else if 0 < w {
      GetClosedForm(x / 2, 0, w - 1);
      HalveFirst(x, Pow2(w - 1));
    }
  }

  lemma {:induction false} SetClosedForm(x: nat, s: nat, w: nat, v: nat)
    ensures SetField(x, s, w, v) == x + (v % Pow2(w) - GetField(x, s, w)) * Pow2(s)
    decreases s + w
  {
    if 0 < s {
      SetClosedForm(x / 2, s - 1, w, v);
      DoubleMul(v % Pow2(w) - GetField(x, s, w), Pow2(s - 1));
    } else if 0 < w {
      SetClosedForm(x / 2, 0, w - 1, v / 2);
      HalveFirst(v, Pow2(w - 1));
    }
  }

  lemma {:induction false} SetFieldInRange(n: nat, x: nat, s: nat, w: nat, v: nat)
    requires x < Pow2(n) && s + w <= n
    ensures SetField(x, s, w, v) < Pow2(n)
    decreases s + w
  {
    if 0 < s {
      SetFieldInRange(n - 1, x / 2, s - 1, w, v);
    } else if 0 < w {
      SetFieldInRange(n - 1, x / 2, 0, w - 1, v / 2);
    }
  }

  /** A field reads back the low bits of what was put into it. */
  lemma {:induction false} GetAfterSet(x: nat, s: nat, w: nat, v: nat)
    ensures GetField(SetField(x, s, w, v), s, w) == v % Pow2(w)
    decreases s + w
  {
    if 0 < s {
      GetAfterSet(x / 2, s - 1, w, v);
      assert SetField(x, s, w, v) / 2 == SetField(x / 2, s - 1, w, v);
    } else if 0 < w {
      GetAfterSet(x / 2, 0, w - 1, v / 2);
      assert SetField(x, 0, w, v) / 2 == SetField(x / 2, 0, w - 1, v / 2) && SetField(x, 0, w, v) % 2 == v % 2;
      HalveFirst(v, Pow2(w - 1));
    }
  }

  predicate Disjoint(s: nat, w: nat, s': nat, w': nat) {
    s + w <= s' || s' + w' <= s
  }

  /** Setting one field leaves every field that shares no bit with it as it was. */
  lemma {:induction false} GetOtherAfterSet(x: nat, s: nat, w: nat, v: nat, s': nat, w': nat)
    requires Disjoint(s, w, s', w')
    ensures GetField(SetField(x, s, w, v), s', w') == GetField(x, s', w')
    decreases s + w + s' + w'
  {
    if 0 < s && 0 < s' {
      GetOtherAfterSet(x / 2, s - 1, w, v, s' - 1, w');
    } else if 0 < s {
      if 0 < w' {
        GetOtherAfterSet(x / 2, s - 1, w, v, 0, w' - 1);
      }
    } else if 0 < w {
      if 0 < s' {
        GetOtherAfterSet(x / 2, 0, w - 1, v / 2, s' - 1, w');
      }
    }
  }

  /** Two inserts that share no bit commute. */
  lemma {:induction false} SetsCommute(x: nat, s: nat, w: nat, v: nat, s': nat, w': nat, v': nat)
    requires Disjoint(s, w, s', w')
    ensures SetField(SetField(x, s, w, v), s', w', v') == SetField(SetField(x, s', w', v'), s, w, v)
  {
    var y, y' := SetField(x, s, w, v), SetField(x, s', w', v');
    SetClosedForm(x, s, w, v);
    SetClosedForm(y, s', w', v');
    SetClosedForm(x, s', w', v');
    SetClosedForm(y', s, w, v);
    GetOtherAfterSet(x, s, w, v, s', w');
    GetOtherAfterSet(x, s', w', v', s, w);
  }

  // ----- contiguous masks

  lemma {:induction false} PopCountBound(x: nat)
    ensures PopCount(x) <= BitWidth(x)
    ensures PopCount(x) == BitWidth(x) ==> x == Mask(0, PopCount(x))
  {
    if x != 0 {
      PopCountBound(x / 2);
    }
  }

  lemma {:induction false} MaskShape(s: nat, w: nat)
    requires 0 < w
    ensures 0 < Mask(s, w)
    ensures CountrZero(Mask(s, w)) == s && PopCount(Mask(s, w)) == w && BitWidth(Mask(s, w)) == s + w
    decreases s + w
  {
    if 0 < s {
      MaskShape(s - 1, w);
    } else if 1 < w {
      MaskShape(0, w - 1);
    }
  }

  lemma {:induction false} ContiguousShape(x: nat)
    requires 0 < x && PopCount(x) == BitWidth(x) - CountrZero(x)
    ensures x == Mask(CountrZero(x), PopCount(x)) && 0 < PopCount(x)
  {
    if x % 2 == 1 {
      PopCountBound(x);
    } else {
      ContiguousShape(x / 2);
    }
  }

  lemma {:induction false} BitWidthBound(n: nat, x: nat)
    requires x < Pow2(n)
    ensures BitWidth(x) <= n
  {
    if 0 < x {
      BitWidthBound(n - 1, x / 2);
    }
  }

  /** The mask is `w` ones from bit `s` up. */
  predicate IsRun(mask: Word, s: nat, w: nat) {
    0 < mask && Contiguous(mask) && CountrZero(mask) == s && PopCount(mask) == w
  }

  lemma RunIs(mask: Word, s: nat, w: nat)
    requires 0 < w && mask == (Pow2(w) - 1) * Pow2(s)
    ensures IsRun(mask, s, w)
  {
    MaskClosedForm(s, w);
    MaskShape(s, w);
  }

  /** The test accepts exactly the masks that are a run of ones, and then the counts are its shift and width. */
  lemma ContiguousIffRun(mask: Word)
    ensures Contiguous(mask) <==> exists s: nat, w: nat :: 0 < w && s + w <= 32 && mask == Mask(s, w)
    ensures Contiguous(mask) ==>
              && mask == Mask(CountrZero(mask), PopCount(mask))
              && 0 < PopCount(mask) && CountrZero(mask) + PopCount(mask) <= 32
  {
    if Contiguous(mask) {
      ContiguousShape(mask);
      Pow2Constants();
      BitWidthBound(32, mask);
    }
    if s: nat, w: nat :| 0 < w && s + w <= 32 && mask == Mask(s, w) {
      MaskShape(s, w);
    }
  }

  // ----- bitwise operators on fields

  lemma AndStep(x: nat, y: nat)
    ensures And(x, y) == 2 * And(x / 2, y / 2) + (if x % 2 == 1 && y % 2 == 1 then 1 else 0)
  {
  }

  lemma OrStep(x: nat, y: nat)
    ensures Or(x, y) == 2 * Or(x / 2, y / 2) + (if x % 2 == 1 || y % 2 == 1 then 1 else 0)
  {
  }

  /** `value & mask`, shifted down, is the field. */
  lemma {:induction false} AndMask(x: nat, s: nat, w: nat)
    ensures And(x, Mask(s, w)) == GetField(x, s, w) * Pow2(s)
    decreases s + w
  {
    AndStep(x, Mask(s, w));
    if 0 < s {
      AndMask(x / 2, s - 1, w);
      DoubleMul(GetField(x, s, w), Pow2(s - 1));
    } else if 0 < w {
      AndMask(x / 2, 0, w - 1);
    }
  }

  /** Masks without a common bit select separately. */
  lemma {:induction false} AndSum(x: nat, a: nat, b: nat)
    requires And(a, b) == 0
    ensures And(x, a + b) == And(x, a) + And(x, b)
    decreases a + b
  {
    if x != 0 && a + b != 0 {
      assert a % 2 + b % 2 <= 1;
      assert (a + b) / 2 == a / 2 + b / 2 && (a + b) % 2 == a % 2 + b % 2;
      AndSum(x / 2, a / 2, b / 2);
    }
  }

  lemma {:induction false} AndWraps(n: nat, x: nat, y: nat)
    requires y < Pow2(n)
    ensures And(x % Pow2(n), y) == And(x, y)
  {
    if n != 0 && y != 0 {
      HalveFirst(x, Pow2(n - 1));
      AndWraps(n - 1, x / 2, y / 2);
      AndStep(x % Pow2(n), y);
      AndStep(x, y);
    }
  }

  /** What `clear_and_insert` computes, on `n` bits and with an already shifted value. */
  function Insert(n: nat, x: nat, u: nat, m: nat): nat
    requires m < Pow2(n)
  {
    Or(And(x, Not(n, m)), And(u, m))
  }

  function ShiftLeft(v: nat, s: nat): nat {
    if s == 0 then v else 2 * ShiftLeft(v, s - 1)
  }

  lemma {:induction false} ShiftLeftIsMul(v: nat, s: nat)
    ensures ShiftLeft(v, s) == v * Pow2(s)
  {
    if 0 < s {
      ShiftLeftIsMul(v, s - 1);
      DoubleMul(v, Pow2(s - 1));
    }
  }

  /** `(dest & ~mask) | ((value << shift) & mask)` replaces exactly the field. */
  lemma {:induction false} InsertIsSetField(n: nat, x: nat, s: nat, w: nat, v: nat)
    requires x < Pow2(n) && s + w <= n && Mask(s, w) < Pow2(n)
    ensures Insert(n, x, ShiftLeft(v, s), Mask(s, w)) == SetField(x, s, w, v)
  {
    if 0 < s {
      InsertIsSetField(n - 1, x / 2, s - 1, w, v);
      InsertStep(n, x, ShiftLeft(v, s), Mask(s, w));
    } else {
      InsertLowField(n, x, w, v);
    }
  }

  lemma {:induction false} InsertLowField(n: nat, x: nat, w: nat, v: nat)
    requires x < Pow2(n) && w <= n && Mask(0, w) < Pow2(n)
    ensures Insert(n, x, v, Mask(0, w)) == SetField(x, 0, w, v)
    decreases w
  {
    if 0 < w {
      InsertLowField(n - 1, x / 2, w - 1, v / 2);
      InsertStep(n, x, v, Mask(0, w));
    } else {
      InsertNothing(n, x, v, Mask(0, w));
    }
  }

  lemma InsertNothing(n: nat, x: nat, v: nat, m: nat)
    requires x < Pow2(n) && m == 0
    ensures Insert(n, x, v, m) == x
  {
    var all := Pow2(n) - 1;
    AndAll(n, x);
    assert Not(n, m) == all;
    AndNothing(v, m);
    OrZero(x);
  }

  lemma NotStep(n: nat, x: nat)
    requires 0 < n && x < Pow2(n)
    ensures x / 2 < Pow2(n - 1) && Not(n, x) / 2 == Not(n - 1, x / 2) && Not(n, x) % 2 == 1 - x % 2
  {
    var half := Pow2(n - 1);
    assert Pow2(n) == 2 * half;
    DivModUnique(Not(n, x), 2, half - 1 - x / 2, 1 - x % 2);
  }

  /** One bit of a bitwise and, as quotient and remainder. */
  lemma AndHalves(x: nat, y: nat)
    ensures And(x, y) / 2 == And(x / 2, y / 2)
    ensures And(x, y) % 2 == if x % 2 == 1 && y % 2 == 1 then 1 else 0
  {
    AndStep(x, y);
  }

  lemma InsertStep(n: nat, x: nat, u: nat, m: nat)
    requires 0 < n && x < Pow2(n) && m < Pow2(n)
    ensures Insert(n, x, u, m) == 2 * Insert(n - 1, x / 2, u / 2, m / 2) + (if m % 2 == 1 then u % 2 else x % 2)
  {
    var c := Not(n, m);
    NotStep(n, m);
    AndHalves(x, c);
    AndHalves(u, m);
    OrStep(And(x, c), And(u, m));
  }

  lemma {:induction false} AndAll(n: nat, x: nat)
    requires x < Pow2(n)
    ensures And(x, Pow2(n) - 1) == x
  {
    if 0 < x {
      AndAll(n - 1, x / 2);
    }
  }

  lemma {:induction false} OrZero(x: nat)
    ensures Or(x, 0) == x
  {
    if 0 < x {
      OrZero(x / 2);
    }
  }

  // ----- single bits

  lemma {:induction false} OneBitMask(x: nat)
    requires PopCount(x) == 1
    ensures PopCount(x) == BitWidth(x) - CountrZero(x)
  {
    if x % 2 == 1 {
      PopCountZero(x / 2);
    } else {
      OneBitMask(x / 2);
    }
  }

  lemma {:induction false} PopCountZero(x: nat)
    requires PopCount(x) == 0
    ensures x == 0
  {
    if 1 < x {
      PopCountZero(x / 2);
    }
  }

  lemma {:induction false} OrIsSet(x: nat, s: nat)
    ensures Or(x, Mask(s, 1)) == SetField(x, s, 1, 1)
  {
    OrStep(x, Mask(s, 1));
    if 0 < s {
      OrIsSet(x / 2, s - 1);
    } else {
      OrZero(x / 2);
    }
  }

  lemma {:induction false} AndNotIsClear(n: nat, x: nat, s: nat)
    requires x < Pow2(n) && s < n && Mask(s, 1) < Pow2(n)
    ensures And(x, Not(n, Mask(s, 1))) == SetField(x, s, 1, 0)
    decreases s
  {
    var c := Not(n, Mask(s, 1));
    NotStep(n, Mask(s, 1));
    AndStep(x, c);
    if 0 < s {
      AndNotIsClear(n - 1, x / 2, s - 1);
    } else {
      assert Mask(s, 1) == 1;
      LowestCleared(n, x, s, 1, 0, c);
    }
  }

  lemma LowestCleared(n: nat, x: nat, s: nat, w: nat, v: nat, c: nat)
    requires 0 < n && x < Pow2(n) && s == 0 && w == 1 && v == 0
    requires c / 2 == Pow2(n - 1) - 1 && And(x, c) == 2 * And(x / 2, c / 2)
    ensures And(x, c) == SetField(x, s, w, v)
  {
    AndAll(n - 1, x / 2);
    assert SetField(x / 2, s, w - 1, v / 2) == x / 2;
  }

  // ----- the functions of util-bits.h

  /** The field of `value` that `mask` selects. */
  function Selected(value: Word, mask: Word): nat
    requires 0 < mask
  {
    GetField(value, CountrZero(mask), PopCount(mask))
  }

  /** `dest` with the field under `mask` replaced by the low bits of `u`. */
  function Put(dest: Word, mask: Word, u: Word): Word
    requires Contiguous(mask)
  {
    ContiguousIffRun(mask);
    Pow2Constants();
    SetFieldInRange(32, dest, CountrZero(mask), PopCount(mask), u);
    SetField(dest, CountrZero(mask), PopCount(mask), u)
  }

  predicate FitsUnsigned(value: int, mask: Word) {
    0 <= value < Pow2(PopCount(mask))
  }

  predicate FitsSigned(value: int, mask: Word)
    requires 0 < PopCount(mask)
  {
    -Pow2(PopCount(mask) - 1) <= value < Pow2(PopCount(mask) - 1)
  }

  /** `mask >> shift` for a contiguous mask */
  lemma ShiftedMask(mask: Word)
    requires Contiguous(mask)
    ensures 0 < PopCount(mask) && CountrZero(mask) + PopCount(mask) <= 32
    ensures mask / Pow2(CountrZero(mask)) == Pow2(PopCount(mask)) - 1
    ensures Pow2(PopCount(mask)) <= 0x1_0000_0000
    ensures mask == Mask(CountrZero(mask), PopCount(mask))
  {
    ContiguousIffRun(mask);
    ShiftedRun(mask, CountrZero(mask), PopCount(mask));
  }

  lemma ShiftedRun(mask: nat, s: nat, w: nat)
    requires w <= 32 && mask == Mask(s, w)
    ensures mask / Pow2(s) == Pow2(w) - 1 && Pow2(w) <= 0x1_0000_0000
  {
    MaskClosedForm(s, w);
    DivModUnique(mask, Pow2(s), Pow2(w) - 1, 0);
    Pow2Constants();
    Pow2Monotone(w, 32);
  }

  /** The two assignments at the end of `clear_and_insert` put the value under the mask. */
  lemma InsertIsPut(dest: Word, mask: Word, u: Word)
    requires Contiguous(mask)
    ensures Or(And(dest, Not32(mask)), And(Shl32(u, CountrZero(mask)), mask)) == Put(dest, mask, u)
  {
    ShiftedMask(mask);
    Pow2Constants();
    InsertWraps(32, dest, mask, CountrZero(mask), PopCount(mask), u);
  }

  lemma InsertWraps(n: nat, dest: nat, mask: nat, s: nat, w: nat, u: nat)
    requires dest < Pow2(n) && s + w <= n && mask == Mask(s, w) < Pow2(n)
    ensures Or(And(dest, Not(n, mask)), And(u * Pow2(s) % Pow2(n), mask)) == SetField(dest, s, w, u)
  {
    AndWraps(n, u * Pow2(s), mask);
    ShiftLeftIsMul(u, s);
    InsertIsSetField(n, dest, s, w, u);
  }

  /** `clear_and_insert<uint32_t>`; false stands for the range error it throws. */
  method ClearAndInsertUnsigned(regs: array<Word>, r: nat, value: Word, mask: Word) returns (ok: bool)
    requires r < regs.Length && Contiguous(mask)
    modifies regs
    ensures ok <==> FitsUnsigned(value, mask)
    ensures regs[..] == if ok then old(regs[..])[r := Put(old(regs[r]), mask, value)] else old(regs[..])
  {
    ShiftedMask(mask);
    InsertIsPut(regs[r], mask, value);
    var shift := CountrZero(mask);
    var max := mask / Pow2(shift);
    if value > max {
      return false;
    }
    regs[r] := Or(And(regs[r], Not32(mask)), And(Shl32(value, shift), mask));
    return true;
  }

  lemma {:induction false} XorTopBit(w: nat)
    requires 0 < w
    ensures (Pow2(w) - 1) / 2 == Pow2(w - 1) - 1
    ensures Xor(Pow2(w) - 1, Pow2(w - 1) - 1) == Pow2(w - 1)
  {
    if 1 < w {
      XorTopBit(w - 1);
    } else {
      assert Xor(1, 0) == 1;
    }
  }

  lemma SignedBounds(mask: Word)
    requires Contiguous(mask)
    ensures 0 < PopCount(mask)
    ensures var shiftedMask := mask / Pow2(CountrZero(mask));
            && shiftedMask / 2 == Pow2(PopCount(mask) - 1) - 1
            && Xor(shiftedMask, shiftedMask / 2) == Pow2(PopCount(mask) - 1)
  {
    ShiftedMask(mask);
    XorTopBit(PopCount(mask));
  }

  /** `clear_and_insert<int32_t>`, whose bounds are computed from the mask through its top bit. */
  method ClearAndInsertSigned(regs: array<Word>, r: nat, value: Int32, mask: Word) returns (ok: bool)
    requires r < regs.Length && Contiguous(mask)
    modifies regs
    ensures 0 < PopCount(mask) && (ok <==> FitsSigned(value, mask))
    ensures regs[..] == if ok then old(regs[..])[r := Put(old(regs[r]), mask, AsWord(value))] else old(regs[..])
  {
    SignedBounds(mask);
    InsertIsPut(regs[r], mask, AsWord(value));
    var shift := CountrZero(mask);
    var shiftedMask := mask / Pow2(shift);
    var umax := shiftedMask / 2;
    var umin: int := Xor(shiftedMask, umax);
    if value < -umin || value > umax {
      return false;
    }
    regs[r] := Or(And(regs[r], Not32(mask)), And(Shl32(AsWord(value), shift), mask));
    return true;
  }

  lemma SingleBit(mask: Word)
    requires PopCount(mask) == 1
    ensures Contiguous(mask)
  {
    OneBitMask(mask);
  }

  lemma SingleBitIsPut(dest: Word, mask: Word)
    requires PopCount(mask) == 1
    ensures Contiguous(mask)
    ensures Or(dest, mask) == Put(dest, mask, 1) && And(dest, Not32(mask)) == Put(dest, mask, 0)
  {
    SingleBit(mask);
    ShiftedMask(mask);
    Pow2Constants();
    OrIsSet(dest, CountrZero(mask));
    ClearWraps(32, dest, mask, CountrZero(mask));
  }

  lemma ClearWraps(n: nat, dest: nat, mask: nat, s: nat)
    requires dest < Pow2(n) && s < n && mask == Mask(s, 1) < Pow2(n)
    ensures And(dest, Not(n, mask)) == SetField(dest, s, 1, 0)
  {
    AndNotIsClear(n, dest, s);
  }

  /** `insert_bit` */
  method InsertBit(regs: array<Word>, r: nat, value: bool, mask: Word)
    requires r < regs.Length && PopCount(mask) == 1
    modifies regs
    ensures Contiguous(mask)
    ensures regs[..] == old(regs[..])[r := Put(old(regs[r]), mask, if value then 1 else 0)]
  {
    SingleBitIsPut(regs[r], mask);
    if value {
      regs[r] := Or(regs[r], mask);
    } else {
      regs[r] := And(regs[r], Not32(mask));
    }
  }

  /** `get_bit` */
  predicate GetBit(value: Word, mask: Word)
    requires PopCount(mask) == 1
  {
    And(value, mask) != 0
  }

  lemma GetBitIsField(value: Word, mask: Word)
    requires PopCount(mask) == 1
    ensures GetBit(value, mask) <==> Selected(value, mask) == 1
    ensures Selected(value, mask) <= 1
  {
    SingleBit(mask);
    ShiftedMask(mask);
    var s, w := CountrZero(mask), PopCount(mask);
    assert Pow2(1) == 2;
    AndMask(value, s, w);
    SmallField(value, s, w);
    BitTimes(Selected(value, mask), Pow2(s));
  }

  lemma SmallField(x: nat, s: nat, w: nat)
    ensures GetField(x, s, w) < Pow2(w)
  {
    GetClosedForm(x, s, w);
  }

  lemma BitTimes(b: nat, p: nat)
    requires b < 2 && 0 < p
    ensures b * p != 0 <==> b == 1
  {
  }

  /** `sign_extend`, which throws for any other width */
  function SignExtend(value: Word, width: nat): Option<Int32> {
    match width
    case 8 => Some(if value % 0x100 < 0x80 then value % 0x100 else value % 0x100 - 0x100)
    case 16 => Some(if value % 0x1_0000 < 0x8000 then value % 0x1_0000 else value % 0x1_0000 - 0x1_0000)
    case 32 => Some(AsInt32(value))
    case _ => None
  }

  lemma AndShrink(x: nat, y: nat)
    ensures And(x, y) <= x
  {
  }

  /** `extract_value`; its two assertions are the precondition. */
  function ExtractValue(value: Word, mask: Word, isSigned: bool): Option<Int32>
    requires 1 < PopCount(mask) && Contiguous(mask)
  {
    AndShrink(value, mask);
    var intermediary := And(value, mask) / Pow2(CountrZero(mask));
    if isSigned then SignExtend(intermediary, PopCount(mask)) else Some(AsInt32(intermediary))
  }

  lemma ExtractIsSelected(value: Word, mask: Word)
    requires Contiguous(mask)
    ensures And(value, mask) / Pow2(CountrZero(mask)) == Selected(value, mask)
    ensures Selected(value, mask) < Pow2(PopCount(mask)) <= 0x1_0000_0000
  {
    ShiftedMask(mask);
    var s, w := CountrZero(mask), PopCount(mask);
    AndMask(value, s, w);
    DivModUnique(And(value, mask), Pow2(s), Selected(value, mask), 0);
    GetClosedForm(value, s, w);
  }

  /** The number a field of `w` bits holds in two's complement. */
  function TwosComplement(field: nat, w: nat): int
    requires 0 < w
  {
    if field < Pow2(w - 1) then field else field - Pow2(w)
  }

  /** Extraction gives the selected bits, and with a sign their two's complement, for the widths it knows. */
  lemma ExtractMeaning(value: Word, mask: Word)
    requires 1 < PopCount(mask) && Contiguous(mask)
    ensures Selected(value, mask) < 0x1_0000_0000
    ensures ExtractValue(value, mask, false) == Some(AsInt32(Selected(value, mask)))
    ensures PopCount(mask) !in {8, 16, 32} ==> ExtractValue(value, mask, true) == None
    ensures PopCount(mask) in {8, 16, 32} ==>
              && ExtractValue(value, mask, true).Some?
              && ExtractValue(value, mask, true).value == TwosComplement(Selected(value, mask), PopCount(mask))
  {
    ExtractIsSelected(value, mask);
    ExtendIsTwosComplement(Selected(value, mask), PopCount(mask));
  }

  lemma ExtendIsTwosComplement(field: Word, w: nat)
    requires 0 < w && field < Pow2(w)
    ensures w in {8, 16, 32} ==> SignExtend(field, w).Some? && SignExtend(field, w).value == TwosComplement(field, w)
  {
    if w in {8, 16, 32} {
      Pow2Constants();
      assert Pow2(w) == 2 * Pow2(w - 1);
    }
  }

  /** The field under the mask of an insert is the value's low bits. */
  lemma SelectedAfterPut(dest: Word, mask: Word, u: Word)
    requires Contiguous(mask)
    ensures Selected(Put(dest, mask, u), mask) == u % Pow2(PopCount(mask))
    ensures FitsUnsigned(u, mask) ==> Selected(Put(dest, mask, u), mask) == u
  {
    GetAfterSet(dest, CountrZero(mask), PopCount(mask), u);
    if FitsUnsigned(u, mask) {
      DivModUnique(u, Pow2(PopCount(mask)), 0, u);
    }
  }

  /** A bit reads back as it was put. */
  lemma BitAfterPut(dest: Word, mask: Word, u: Word)
    requires PopCount(mask) == 1 && u < 2
    ensures Contiguous(mask) && (GetBit(Put(dest, mask, u), mask) <==> u == 1)
  {
    SingleBit(mask);
    SelectedAfterPut(dest, mask, u);
    GetBitIsField(Put(dest, mask, u), mask);
    assert Pow2(PopCount(mask)) == 2 by { assert Pow2(1) == 2; }
  }

  /** Reading back an accepted unsigned insert gives the value, as an `int32_t`. */
  lemma UnsignedRoundTrip(dest: Word, mask: Word, value: Word)
    requires 1 < PopCount(mask) && Contiguous(mask) && FitsUnsigned(value, mask)
    ensures ExtractValue(Put(dest, mask, value), mask, false) == Some(AsInt32(value))
  {
    ExtractIsSelected(Put(dest, mask, value), mask);
    SelectedAfterPut(dest, mask, value);
  }

  /** A two's complement number of `w` bits, seen through its low `w` bits. */
  lemma NegativeMod(value: int, k: int, p: int)
    requires -p <= value < 0
    ensures (value + k * p) % p == value + p
  {
    assert value + k * p == (k - 1) * p + (value + p);
    DivModUnique(value + k * p, p, k - 1, value + p);
  }

  lemma LowBitsOf(value: Int32, w: nat)
    requires 0 < w <= 32 && -Pow2(w - 1) <= value < Pow2(w - 1)
    ensures AsWord(value) % Pow2(w) == if 0 <= value then value else value + Pow2(w)
  {
    var p := Pow2(w);
    assert p == 2 * Pow2(w - 1);
    if value < 0 {
      WordModulus(w);
      NegativeMod(value, Pow2(32 - w), p);
    } else {
      DivModUnique(value, p, 0, value);
    }
  }

  lemma WordModulus(w: nat)
    requires w <= 32
    ensures Pow2(32 - w) * Pow2(w) == 0x1_0000_0000
  {
    Pow2Constants();
    Pow2Add(32 - w, w);
  }

  lemma SignExtendLowBits(value: Int32, w: nat)
    requires 0 < w <= 32 && -Pow2(w - 1) <= value < Pow2(w - 1)
    requires 0 <= (if 0 <= value then value else value + Pow2(w)) <= 0xFFFF_FFFF
    ensures SignExtend(if 0 <= value then value else value + Pow2(w), w) ==
              if w in {8, 16, 32} then Some(value) else None
  {
    Pow2Constants();
    assert Pow2(8) == 2 * Pow2(7) && Pow2(16) == 2 * Pow2(15);
  }

  /** An accepted signed insert reads back for the three supported widths; extraction of any other width throws. */
  lemma SignedRoundTrip(dest: Word, mask: Word, value: Int32)
    requires 1 < PopCount(mask) && Contiguous(mask) && FitsSigned(value, mask)
    ensures ExtractValue(Put(dest, mask, AsWord(value)), mask, true)
         == if PopCount(mask) in {8, 16, 32} then Some(value) else None
  {
    var w := PopCount(mask);
    ShiftedMask(mask);
    ExtractIsSelected(Put(dest, mask, AsWord(value)), mask);
    SelectedAfterPut(dest, mask, AsWord(value));
    LowBitsOf(value, w);
    SignExtendLowBits(value, w);
  }

  predicate DisjointMasks(m: Word, m': Word)
    requires 0 < m && 0 < m'
  {
    Disjoint(CountrZero(m), PopCount(m), CountrZero(m'), PopCount(m'))
  }

  /** An insert changes no other field, and inserts under masks that share no bit commute. */
  lemma PutFrame(dest: Word, m: Word, u: Word, m': Word, u': Word)
    requires Contiguous(m) && Contiguous(m') && DisjointMasks(m, m')
    ensures Selected(Put(dest, m, u), m') == Selected(dest, m')
    ensures Put(Put(dest, m, u), m', u') == Put(Put(dest, m', u'), m, u)
  {
    var s, w, s', w' := CountrZero(m), PopCount(m), CountrZero(m'), PopCount(m');
    GetOtherAfterSet(dest, s, w, u, s', w');
    SetsCommute(dest, s, w, u, s', w', u');
  }

  /** Two runs of ones share no bit exactly when `m & m'` is zero. */
  lemma DisjointIffAndZero(m: Word, m': Word)
    requires Contiguous(m) && Contiguous(m')
    ensures DisjointMasks(m, m') <==> And(m, m') == 0
  {
    ShiftedMask(m);
    ShiftedMask(m');
    RunsMeet(CountrZero(m), PopCount(m), CountrZero(m'), PopCount(m'));
  }

  /** The lowest bit of a mask, and the mask above it. */
  lemma MaskHalves(s: nat, w: nat)
    requires 0 < w
    ensures Mask(s, w) % 2 == (if s == 0 then 1 else 0)
    ensures Mask(s, w) / 2 == if s == 0 then Mask(0, w - 1) else Mask(s - 1, w)
  {
  }

  lemma {:induction false} AndNothing(x: nat, y: nat)
    requires x == 0 || y == 0
    ensures And(x, y) == 0
  {
  }

  lemma {:induction false} RunsMeet(s: nat, w: nat, s': nat, w': nat)
    requires 0 < w && 0 < w'
    ensures Disjoint(s, w, s', w') <==> And(Mask(s, w), Mask(s', w')) == 0
    decreases s + w + s' + w'
  {
    var x, y := Mask(s, w), Mask(s', w');
    AndStep(x, y);
    MaskHalves(s, w);
    MaskHalves(s', w');
    if 0 < s && 0 < s' {
      RunsMeet(s - 1, w, s' - 1, w');
    } else if 0 < s {
      if 1 < w' {
        RunsMeet(s - 1, w, 0, w' - 1);
      } else {
        AndNothing(x / 2, y / 2);
      }
    } else if 0 < s' {
      if 1 < w {
        RunsMeet(0, w - 1, s' - 1, w');
      } else {
        AndNothing(x / 2, y / 2);
      }
    }
  }

  // ----- the same, seen from the fields of a register

  /** The field under `mask` became `value`, and no field that shares no bit with it changed. */
  ghost predicate FieldSet(before: Word, after: Word, mask: Word, value: Word) {
    && 0 < mask && Selected(after, mask) == value
    && forall other: Word {:trigger Selected(after, other)} ::
         Contiguous(other) && DisjointMasks(mask, other) ==> Selected(after, other) == Selected(before, other)
  }

  lemma PutSetsField(dest: Word, mask: Word, u: Word)
    requires Contiguous(mask) && FitsUnsigned(u, mask)
    ensures FieldSet(dest, Put(dest, mask, u), mask, u)
  {
    SelectedAfterPut(dest, mask, u);
    forall other: Word | Contiguous(other) && DisjointMasks(mask, other)
      ensures Selected(Put(dest, mask, u), other) == Selected(dest, other)
    {
      PutFrame(dest, mask, u, other, 0);
    }
  }

  /** `clear_and_insert<uint32_t>` */
  method SetFieldOf(regs: array<Word>, r: nat, value: Word, mask: Word) returns (ok: bool)
    requires r < regs.Length && Contiguous(mask)
    modifies regs
    ensures ok <==> FitsUnsigned(value, mask)
    ensures forall x :: 0 <= x < regs.Length && x != r ==> regs[x] == old(regs[x])
    ensures if ok then FieldSet(old(regs[r]), regs[r], mask, value) else regs[r] == old(regs[r])
  {
    ok := ClearAndInsertUnsigned(regs, r, value, mask);
    if ok {
      PutSetsField(old(regs[r]), mask, value);
    }
  }

  /** The same as a number: the value moves by the weight of the mask. */
  ghost predicate BitMoved(before: Word, after: Word, mask: Word, value: Word) {
    0 < mask && after == before + (value - Selected(before, mask)) * Pow2(CountrZero(mask))
  }

  lemma PutMovesBit(dest: Word, mask: Word, u: Word)
    requires Contiguous(mask) && PopCount(mask) == 1 && u < 2
    ensures BitMoved(dest, Put(dest, mask, u), mask, u)
  {
    SetClosedForm(dest, CountrZero(mask), PopCount(mask), u);
    assert Pow2(1) == 2;
  }

  /** `insert_bit` */
  method SetBitOf(regs: array<Word>, r: nat, value: bool, mask: Word)
    requires r < regs.Length && PopCount(mask) == 1
    modifies regs
    ensures forall x :: 0 <= x < regs.Length && x != r ==> regs[x] == old(regs[x])
    ensures FieldSet(old(regs[r]), regs[r], mask, if value then 1 else 0)
    ensures BitMoved(old(regs[r]), regs[r], mask, if value then 1 else 0)
  {
    SingleBit(mask);
    InsertBit(regs, r, value, mask);
    assert Pow2(1) == 2;
    PutSetsField(old(regs[r]), mask, if value then 1 else 0);
    PutMovesBit(old(regs[r]), mask, if value then 1 else 0);
  }
}
