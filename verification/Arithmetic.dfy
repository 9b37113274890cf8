/**
 The arithmetic whose emitted code has to match the architecture: flag-setting
 add and subtract, and division.  `bits` is the operand width.
 */
module Arithmetic {
  import opened Bytes

  /** Two's-complement value of an unsigned `bits`-wide word. */
  function SInt(x: nat, bits: nat): int
    requires bits > 0
  {
    if x < Pow2(bits - 1) then x else x - Pow2(bits)
  }

  /** The signed value lies in the signed range and differs from the word by a multiple of the modulus. */
  lemma SIntIsExact(x: nat, bits: nat)
    requires IsWord(x, bits)
    ensures 0 - Pow2(bits - 1) <= SInt(x, bits) < Pow2(bits - 1)
    ensures Wrap(SInt(x, bits), bits) == x
  {
    var p := Pow2(bits);
    HalfWord(bits);
    EuclideanModUnique(SInt(x, bits), p, if x < Pow2(bits - 1) then 0 else -1, x);
  }

  /** The low `bits` bits of an integer. */
  function Wrap(x: int, bits: nat): (w: nat)
    ensures w < Pow2(bits)
  {
    x % Pow2(bits)
  }

  predicate IsWord(x: nat, bits: nat) {
    bits > 0 && x < Pow2(bits)
  }

  datatype Flags = Flags(n: bool, z: bool, c: bool, v: bool)

  // ---------------------------------------------------------------------
  // The architecture

  /** AddWithCarry of the Arm architecture reference manual, section J1. */
  function AddWithCarry(x: nat, y: nat, carryIn: nat, bits: nat): (nat, Flags)
    requires IsWord(x, bits) && IsWord(y, bits) && carryIn <= 1
  {
    var unsignedSum := x + y + carryIn;
    var signedSum := SInt(x, bits) + SInt(y, bits) + carryIn;
    var result := Wrap(unsignedSum, bits);
    (result, Flags(result >= Pow2(bits - 1), result == 0, result != unsignedSum, SInt(result, bits) != signedSum))
  }

  function Not(y: nat, bits: nat): (w: nat)
    requires IsWord(y, bits)
    ensures IsWord(w, bits)
  {
    Pow2(bits) - 1 - y
  }

  /** Integer division rounding toward zero. */
  function RoundTowardsZero(a: int, b: int): int
    requires b != 0
  {
    var q := Abs(a) / Abs(b);
    if (a < 0) == (b < 0) then q else -q
  }

  function Abs(a: int): nat {
    if a < 0 then -a else a
  }

  lemma Negate(a: int, b: int)
    ensures a * (0 - b) == 0 - a * b && (0 - a) * b == 0 - a * b
  {
  }

  /** The quotient leaves a remainder smaller than the divisor, with the sign of the dividend. */
  lemma RoundTowardsZeroIsExact(a: int, b: int)
    requires b != 0
    ensures var r := a - RoundTowardsZero(a, b) * b;
      Abs(r) < Abs(b) && (r == 0 || (r < 0 <==> a < 0))
  {
    var q, d := Abs(a) / Abs(b), Abs(b);
    var rest := Abs(a) % d;
    assert Abs(a) == d * q + rest;
    Negate(q, d);
    Negate(q, b);
    assert q * d == d * q;
    assert RoundTowardsZero(a, b) * b == if a < 0 then 0 - q * d else q * d;
  }

  // ---------------------------------------------------------------------
  // The emitted code

  datatype OverflowingBinOp = Add | Sub

  /** The wrapped result and the signed-overflow flag. */
  function Overflowing(op: OverflowingBinOp, lhs: nat, rhs: nat, bits: nat): (nat, bool)
    requires IsWord(lhs, bits) && IsWord(rhs, bits)
  {
    var exact := if op.Add? then SInt(lhs, bits) + SInt(rhs, bits) else SInt(lhs, bits) - SInt(rhs, bits);
    (if op.Add? then Wrap(lhs + rhs, bits) else Wrap(lhs - rhs, bits),
     exact + Pow2(bits - 1) < 0 || exact >= Pow2(bits - 1))
  }

  function FlagSettingBinOp(op: OverflowingBinOp, lhs: nat, rhs: nat, bits: nat): (nat, Flags)
    requires IsWord(lhs, bits) && IsWord(rhs, bits)
  {
    var (value, overflow) := Overflowing(op, lhs, rhs, bits);
    var carry := if op.Add? then value < lhs else lhs >= rhs;
    (value, Flags(SInt(value, bits) < 0, value == 0, carry, overflow))
  }

  lemma WrapSum(x: nat, bits: nat)
    requires x < 2 * Pow2(bits)
    ensures Wrap(x, bits) == if x < Pow2(bits) then x else x - Pow2(bits)
  {
    if x >= Pow2(bits) {
      ModUnique(x, Pow2(bits), 1, x - Pow2(bits));
    } else {
      ModUnique(x, Pow2(bits), 0, x);
    }
  }

  lemma WrapDifference(lhs: nat, rhs: nat, bits: nat)
    requires IsWord(lhs, bits) && IsWord(rhs, bits)
    ensures Wrap(lhs - rhs, bits) == if lhs >= rhs then lhs - rhs else lhs - rhs + Pow2(bits)
  {
    var p := Pow2(bits);
    if lhs >= rhs {
      ModUnique(lhs - rhs, p, 0, lhs - rhs);
    } else {
      assert (lhs - rhs) % p == lhs - rhs + p by {
        var d := lhs - rhs;
        assert d == p * (-1) + (d + p);
        EuclideanModUnique(d, p, -1, d + p);
      }
    }
  }

  lemma EuclideanModUnique(v: int, d: nat, q: int, r: nat)
    requires d > 0 && v == d * q + r && r < d
    ensures v % d == r
  {
    var q0 := v / d;
    assert v == d * q0 + v % d;
    IntMultiples(d, q, q0);
    IntMultiples(d, q0, q);
  }

  lemma {:induction false} IntMultiples(d: nat, a: int, b: int)
    ensures a < b ==> d * a + d <= d * b
    decreases b - a
  {
    if a + 1 < b {
      IntMultiples(d, a, b - 1);
      assert d * b == d * (b - 1) + d;
    } else if a + 1 == b {
      assert d * b == d * a + d;
    }
  }

  lemma HalfWord(bits: nat)
    requires bits > 0
    ensures Pow2(bits) == 2 * Pow2(bits - 1)
  {
  }

  /** A flag-setting add is AddWithCarry without carry-in, for every width and every operand. */
  lemma AddsIsAddWithCarry(lhs: nat, rhs: nat, bits: nat)
    requires IsWord(lhs, bits) && IsWord(rhs, bits)
    ensures FlagSettingBinOp(Add, lhs, rhs, bits) == AddWithCarry(lhs, rhs, 0, bits)
  {
    WrapSum(lhs + rhs, bits);
    HalfWord(bits);
  }

  /** A flag-setting subtract is AddWithCarry of the complement with carry-in. */
  lemma SubsIsAddWithCarry(lhs: nat, rhs: nat, bits: nat)
    requires IsWord(lhs, bits) && IsWord(rhs, bits)
    ensures FlagSettingBinOp(Sub, lhs, rhs, bits) == AddWithCarry(lhs, Not(rhs, bits), 1, bits)
  {
    WrapSum(lhs + Not(rhs, bits) + 1, bits);
    WrapDifference(lhs, rhs, bits);
    HalfWord(bits);
  }

  // ---------------------------------------------------------------------
  // PSTATE

  const N_FLAG: bv32 := 0x8000_0000
  const Z_FLAG: bv32 := 0x4000_0000
  const C_FLAG: bv32 := 0x2000_0000
  const V_FLAG: bv32 := 0x1000_0000
  const NZCV_MASK: bv32 := 0xf000_0000

  function Select(cond: bool, ifTrue: bv32, ifFalse: bv32): bv32 {
    if cond then ifTrue else ifFalse
  }

  /** The emitted update of the condition flags. */
  function SetNzcv(pstate: bv32, f: Flags): bv32 {
    var nz := Select(f.n, N_FLAG, 0) | Select(f.z, Z_FLAG, 0);
    var cv := Select(f.c, C_FLAG, 0) | Select(f.v, V_FLAG, 0);
    (pstate & !NZCV_MASK) | (nz | cv)
  }

  function FlagsOf(pstate: bv32): Flags {
    Flags(pstate & N_FLAG != 0, pstate & Z_FLAG != 0, pstate & C_FLAG != 0, pstate & V_FLAG != 0)
  }

  /** Every bit below the flags stays. */
  lemma SetNzcvKeepsRest(pstate: bv32, f: Flags)
    ensures SetNzcv(pstate, f) & 0x0fff_ffff == pstate & 0x0fff_ffff
  {
    var flags := (Select(f.n, N_FLAG, 0) | Select(f.z, Z_FLAG, 0)) | (Select(f.c, C_FLAG, 0) | Select(f.v, V_FLAG, 0));
    assert flags & 0x0fff_ffff == 0;
    assert !NZCV_MASK == 0x0fff_ffff;
    OrAbove(pstate, flags);
  }

  lemma OrAbove(low: bv32, high: bv32)
    requires high & 0x0fff_ffff == 0
    ensures ((low & 0x0fff_ffff) | high) & 0x0fff_ffff == low & 0x0fff_ffff
  {
  }

  /** Or-ed onto a word without them, the flags are its top four bits. */
  lemma TopBits(low: bv32, n: bool, z: bool, c: bool, v: bool)
    ensures ((low & 0x0fff_ffff) | TopFour(n, z, c, v)) >> 28 == NibbleOf(n, z, c, v)
  {
  }

  function TopFour(n: bool, z: bool, c: bool, v: bool): bv32 {
    (Select(n, N_FLAG, 0) | Select(z, Z_FLAG, 0)) | (Select(c, C_FLAG, 0) | Select(v, V_FLAG, 0))
  }

  function NibbleOf(n: bool, z: bool, c: bool, v: bool): bv32 {
    Select(n, 8, 0) | Select(z, 4, 0) | Select(c, 2, 0) | Select(v, 1, 0)
  }

  /** The four flags go to bits 31 to 28, from N down to V, whatever was there before. */
  lemma SetNzcvIsExact(pstate: bv32, f: Flags)
    ensures SetNzcv(pstate, f) >> 28 == Select(f.n, 8, 0) | Select(f.z, 4, 0) | Select(f.c, 2, 0) | Select(f.v, 1, 0)
    ensures FlagsOf(SetNzcv(pstate, f)) == f
  {
    assert !NZCV_MASK == 0x0fff_ffff;
    TopBits(pstate, f.n, f.z, f.c, f.v);
    ReadBack(pstate, f);
  }

  lemma ReadBack(pstate: bv32, f: Flags)
    ensures FlagsOf(SetNzcv(pstate, f)) == f
  {
  }

  // ---------------------------------------------------------------------
  // Division

  /** Undefined for a zero divisor, which the precondition rules out. */
  function UncheckedUDiv(lhs: nat, rhs: nat): nat
    requires rhs != 0
  {
    lhs / rhs
  }

  /** Undefined for a zero divisor and for the one quotient that does not fit. */
  function UncheckedSDiv(lhs: nat, rhs: nat, bits: nat): nat
    requires IsWord(lhs, bits) && IsWord(rhs, bits)
    requires rhs != 0 && !(lhs == Pow2(bits - 1) && rhs == Pow2(bits) - 1)
  {
    Wrap(RoundTowardsZero(SInt(lhs, bits), SInt(rhs, bits)), bits)
  }

  /** The emitted unsigned division: the divisor is made safe first, since both sides of a select are computed. */
  function UDiv(lhs: nat, rhs: nat, bits: nat): nat
    requires IsWord(lhs, bits) && IsWord(rhs, bits)
  {
    var rhsIsZero := rhs == 0;
    var safeRhs := if rhsIsZero then 1 else rhs;
    var quotient := UncheckedUDiv(lhs, safeRhs);
    if rhsIsZero then 0 else quotient
  }

  /** The emitted signed division. */
  function SDiv(lhs: nat, rhs: nat, bits: nat): nat
    requires IsWord(lhs, bits) && IsWord(rhs, bits) && bits > 1
  {
    var rhsIsZero := rhs == 0;
    var isOverflow := lhs == Pow2(bits - 1) && rhs == Pow2(bits) - 1;
    var safeRhs := if rhsIsZero || isOverflow then 1 else rhs;
    WideEnough(bits);
    var quotient := UncheckedSDiv(lhs, safeRhs, bits);
    if rhsIsZero then 0 else quotient
  }

  lemma WideEnough(bits: nat)
    requires bits > 1
    ensures Pow2(bits) >= 4 && Pow2(bits - 1) >= 2
  {
  }

  /** Unsigned division of the architecture: zero for a zero divisor. */
  lemma UDivIsArm(lhs: nat, rhs: nat, bits: nat)
    requires IsWord(lhs, bits) && IsWord(rhs, bits)
    ensures IsWord(UDiv(lhs, rhs, bits), bits)
    ensures rhs == 0 ==> UDiv(lhs, rhs, bits) == 0
    ensures rhs != 0 ==>
      UDiv(lhs, rhs, bits) * rhs <= lhs < UDiv(lhs, rhs, bits) * rhs + rhs
  {
    if rhs != 0 {
      Quotient(lhs, rhs);
    }
  }

  lemma Quotient(lhs: nat, rhs: nat)
    requires rhs != 0
    ensures lhs / rhs * rhs <= lhs < lhs / rhs * rhs + rhs && lhs / rhs <= lhs
  {
    QuotientOf(lhs, rhs, lhs / rhs, lhs % rhs);
  }

  lemma QuotientOf(lhs: nat, rhs: nat, q: nat, r: nat)
    requires lhs == rhs * q + r && r < rhs
    ensures q * rhs <= lhs < q * rhs + rhs && q <= lhs
  {
  }

  /** Signed division of the architecture: rounds toward zero and wraps the one quotient that does not fit. */
  lemma SDivIsArm(lhs: nat, rhs: nat, bits: nat)
    requires IsWord(lhs, bits) && IsWord(rhs, bits) && bits > 1
    ensures SDiv(lhs, rhs, bits)
      == if rhs == 0 then 0 else Wrap(RoundTowardsZero(SInt(lhs, bits), SInt(rhs, bits)), bits)
    ensures lhs == Pow2(bits - 1) && rhs == Pow2(bits) - 1 ==> SDiv(lhs, rhs, bits) == Pow2(bits - 1)
  {
    WideEnough(bits);
    HalfWord(bits);
    if lhs == Pow2(bits - 1) && rhs == Pow2(bits) - 1 {
      var h: int := Pow2(bits - 1);
      assert SInt(lhs, bits) == -h && SInt(rhs, bits) == -1 && SInt(1, bits) == 1;
      assert RoundTowardsZero(-h, -1) == h && RoundTowardsZero(-h, 1) == -h;
      WrapSum(h, bits);
      EuclideanModUnique(-h, Pow2(bits), -1, h);
    }
  }
}
