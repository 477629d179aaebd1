/**
 * Checked integer arithmetic (mfbt/CheckedInt.h): the overflow tests made with
 * sign bits, complements and truncating divisions are exact, so an expression
 * is valid exactly when all of its mathematical values fit.
 */
module CheckedInts {
  import opened Basics
  import opened Wrappers

  /** A two's complement integer type. */
  datatype IntType = IntType(bits: nat, signed: bool)

  type Type = t: IntType | t.bits >= 1 witness IntType(1, false)

  const MAX_BITS := 64

  function Min(t: Type): int {
    if t.signed then 0 - Pow2(t.bits - 1) else 0
  }

  function Max(t: Type): int {
    if t.signed then Pow2(t.bits - 1) - 1 else Pow2(t.bits) - 1
  }

  predicate Fits(t: Type, x: int) {
    Min(t) <= x <= Max(t)
  }

  // ----- the machine operations

  /** The value of type t congruent to x modulo 2^bits. */
  function Cast(t: Type, x: int): int {
    var u := x % Pow2(t.bits);
    if t.signed && u >= Pow2(t.bits - 1) then u - Pow2(t.bits) else u
  }

  function Unsigned(t: Type): Type {
    IntType(t.bits, false)
  }

  /** The low n bits of x ^ y, of x & y and of ~x, bit by bit. */
  function BitXor(n: nat, x: int, y: int): nat {
    if n == 0 then 0 else 2 * BitXor(n - 1, x / 2, y / 2) + (if x % 2 != y % 2 then 1 else 0)
  }

  function BitAnd(n: nat, x: int, y: int): nat {
    if n == 0 then 0 else 2 * BitAnd(n - 1, x / 2, y / 2) + (if x % 2 == 1 == y % 2 then 1 else 0)
  }

  function BitNot(n: nat, x: int): nat {
    if n == 0 then 0 else 2 * BitNot(n - 1, x / 2) + (1 - x % 2)
  }

  function ShiftRight(x: int, k: nat): int
    decreases k
  {
    if k == 0 then x else ShiftRight(x / 2, k - 1)
  }

  /** Division and remainder truncate toward zero. */
  function TruncDiv(x: int, y: int): int
    requires y != 0
  {
    if x >= 0 then (if y > 0 then x / y else -(x / -y))
    else (if y > 0 then -(-x / y) else -x / -y)
  }

  function TruncMod(x: int, y: int): int
    requires y != 0
  {
    x - y * TruncDiv(x, y)
  }

  // ----- the validity tests

  predicate HasSignBit(t: Type, x: int) {
    ShiftRight(Cast(Unsigned(t), x), t.bits - 1) != 0
  }

  function BinaryComplement(t: Type, x: int): int {
    Cast(t, BitNot(t.bits, x))
  }

  predicate RangeContainsRange(t: Type, u: Type) {
    if t.signed == u.signed then t.bits >= u.bits
    else if t.signed then t.bits > u.bits
    else false
  }

  predicate IsInRange(t: Type, u: Type, x: int) {
    if RangeContainsRange(t, u) then true
    else if t.signed && u.signed then x <= Max(t) && x >= Min(t)
    else if !t.signed && !u.signed then x <= Max(t)
    else if t.signed then t.bits > u.bits || x <= Cast(u, Max(t))
    else if t.bits >= u.bits then x >= 0
    else x >= 0 && x <= Cast(u, Max(t))
  }

  predicate IsAddValid(t: Type, x: int, y: int) {
    var ux, uy := Cast(Unsigned(t), x), Cast(Unsigned(t), y);
    var result := Cast(Unsigned(t), ux + uy);
    if t.signed then
      HasSignBit(t, BinaryComplement(t, Cast(t, BitAnd(t.bits, BitXor(t.bits, result, x), BitXor(t.bits, result, y)))))
    else BinaryComplement(t, x) >= y
  }

  predicate IsSubValid(t: Type, x: int, y: int) {
    var ux, uy := Cast(Unsigned(t), x), Cast(Unsigned(t), y);
    var result := Cast(Unsigned(t), ux - uy);
    if t.signed then
      HasSignBit(t, BinaryComplement(t, Cast(t, BitAnd(t.bits, BitXor(t.bits, result, x), BitXor(t.bits, x, y)))))
    else x >= y
  }

  function TwiceBigger(t: Type): Type {
    IntType(2 * t.bits, t.signed)
  }

  predicate IsMulValidWidening(t: Type, x: int, y: int) {
    var product := Cast(TwiceBigger(t), x * y);
    IsInRange(t, TwiceBigger(t), product)
  }

  predicate IsMulValidSigned(t: Type, x: int, y: int) {
    if x == 0 || y == 0 then true
    else if x > 0 then if y > 0 then x <= TruncDiv(Max(t), y) else y >= TruncDiv(Min(t), x)
    else if y > 0 then x >= TruncDiv(Min(t), y) else y >= TruncDiv(Max(t), x)
  }

  predicate IsMulValidUnsigned(t: Type, x: int, y: int) {
    y == 0 || x <= TruncDiv(Max(t), y)
  }

  predicate IsMulValid(t: Type, x: int, y: int) {
    if TwiceBigger(t).bits <= MAX_BITS then IsMulValidWidening(t, x, y)
    else if t.signed then IsMulValidSigned(t, x, y)
    else IsMulValidUnsigned(t, x, y)
  }

  predicate IsDivValid(t: Type, x: int, y: int) {
    y != 0 && !(t.signed && x == Min(t) && y == Cast(t, -1))
  }

  predicate IsModValid(t: Type, x: int, y: int) {
    if t.signed && x < 0 then false else y >= 1
  }

  // ----- checked values

  datatype CheckedInt = CheckedInt(value: int, valid: bool)

  /** The constructor from a plain integer x of type u. */
  function FromPlain(t: Type, u: Type, x: int): CheckedInt {
    CheckedInt(Cast(t, x), IsInRange(t, u, x))
  }

  /** A checked integer of type u converted to type t. */
  function ToChecked(t: Type, u: Type, a: CheckedInt): CheckedInt {
    var r := FromPlain(t, u, a.value);
    CheckedInt(r.value, r.valid && a.valid)
  }

  function Negate(t: Type, a: CheckedInt): CheckedInt {
    if !t.signed then CheckedInt(0, a.valid && a.value == 0)
    else if !a.valid || a.value == Min(t) then CheckedInt(a.value, false)
    else CheckedInt(Cast(t, -a.value), true)
  }

  datatype Op = Add | Sub | Mul | Div | Mod

  predicate IsValid(t: Type, op: Op, x: int, y: int) {
    match op
    case Add => IsAddValid(t, x, y)
    case Sub => IsSubValid(t, x, y)
    case Mul => IsMulValid(t, x, y)
    case Div => IsDivValid(t, x, y)
    case Mod => IsModValid(t, x, y)
  }

  /** The integer the operator denotes, if its operands are allowed. */
  function Denotes(op: Op, x: int, y: int): Option<int> {
    match op
    case Add => Some(x + y)
    case Sub => Some(x - y)
    case Mul => Some(x * y)
    case Div => if y == 0 then None else Some(TruncDiv(x, y))
    case Mod => if x < 0 || y < 1 then None else Some(TruncMod(x, y))
  }

  /** The C++ operator applied to promoted operands. */
  function Compute(op: Op, x: int, y: int): int
    requires op.Div? || op.Mod? ==> y != 0
  {
    match op
    case Add => x + y
    case Sub => x - y
    case Mul => x * y
    case Div => TruncDiv(x, y)
    case Mod => TruncMod(x, y)
  }

  function Binary(t: Type, op: Op, a: CheckedInt, b: CheckedInt): CheckedInt {
    if !IsValid(t, op, a.value, b.value) then CheckedInt(0, false)
    else CheckedInt(Cast(t, Compute(op, a.value, b.value)), a.valid && b.valid)
  }

  // ----- expressions

  /** Plain integers of any type, conversions between checked types, and the operators. */
  datatype Expr =
    | Plain(u: Type, x: int)
    | Convert(u: Type, e: Expr)
    | Neg(e: Expr)
    | Bin(op: Op, left: Expr, right: Expr)

  predicate WellTyped(e: Expr) {
    match e
    case Plain(u, x) => Fits(u, x)
    case Convert(u, e1) => WellTyped(e1)
    case Neg(e1) => WellTyped(e1)
    case Bin(op, l, r) => WellTyped(l) && WellTyped(r)
  }

  /** What the program computes. */
  function Eval(t: Type, e: Expr): CheckedInt
    decreases e
  {
    match e
    case Plain(u, x) => FromPlain(t, u, x)
    case Convert(u, e1) => ToChecked(t, u, Eval(u, e1))
    case Neg(e1) => Negate(t, Eval(t, e1))
    case Bin(op, l, r) => Binary(t, op, Eval(t, l), Eval(t, r))
  }

  function Narrow(t: Type, v: Option<int>): Option<int> {
    if v.Some? && Fits(t, v.value) then v else None
  }

  /** The mathematical value, provided every subexpression has one and it fits its type. */
  function Meaning(t: Type, e: Expr): Option<int>
    decreases e
  {
    match e
    case Plain(u, x) => Narrow(t, Some(x))
    case Convert(u, e1) => Narrow(t, Meaning(u, e1))
    case Neg(e1) =>
      var v := Meaning(t, e1);
      if v.None? then None else Narrow(t, Some(-v.value))
    case Bin(op, l, r) =>
      var v, w := Meaning(t, l), Meaning(t, r);
      if v.None? || w.None? then None else Narrow(t, Denotes(op, v.value, w.value))
  }

  // ----- residues

  lemma PowStep(n: nat)
    requires n >= 1
    ensures Pow2(n) == 2 * Pow2(n - 1) && Pow2(n - 1) >= 1
  {
  }

  lemma ModNear(x: int, p: int)
    requires p > 0 && -p <= x < 2 * p
    ensures x % p == if x < 0 then x + p else if x < p then x else x - p
  {
    var q, r := x / p, x % p;
    assert x == q * p + r;
    if q >= 2 {
      MulLe(2, q, p);
    } else if q <= -2 {
      MulLe(q, -2, p);
    }
  }

  lemma MulLe(a: int, b: int, p: int)
    requires a <= b && p >= 0
    ensures a * p <= b * p
  {
  }

  lemma CastFits(t: Type, x: int)
    ensures Fits(t, Cast(t, x))
  {
    PowStep(t.bits);
  }

  /** A value that fits survives the cast. */
  lemma CastKeeps(t: Type, x: int)
    requires Fits(t, x)
    ensures Cast(t, x) == x
  {
    PowStep(t.bits);
    ModNear(x, Pow2(t.bits));
  }

  lemma CastNear(t: Type, x: int)
    requires 0 - Pow2(t.bits) <= x < 2 * Pow2(t.bits)
    ensures var p := Pow2(t.bits);
            Cast(Unsigned(t), x) == if x < 0 then x + p else if x < p then x else x - p
  {
    ModNear(x, Pow2(t.bits));
  }

  // ----- the top bit

  /** Bit n - 1 of x. */
  predicate TopBit(n: nat, x: int)
    requires n >= 1
  {
    if n == 1 then x % 2 == 1 else TopBit(n - 1, x / 2)
  }

  lemma {:induction false} TopBitUnsigned(n: nat, x: int)
    requires n >= 1 && 0 <= x < Pow2(n)
    ensures TopBit(n, x) <==> x >= Pow2(n - 1)
  {
    PowStep(n);
    if n > 1 {
      PowStep(n - 1);
      TopBitUnsigned(n - 1, x / 2);
    }
  }

  lemma {:induction false} TopBitSigned(n: nat, x: int)
    requires n >= 1 && 0 - Pow2(n - 1) <= x < Pow2(n - 1)
    ensures TopBit(n, x) <==> x < 0
  {
    if n > 1 {
      PowStep(n - 1);
      TopBitSigned(n - 1, x / 2);
    }
  }

  lemma {:induction false} TopBitXor(n: nat, x: int, y: int)
    requires n >= 1
    ensures TopBit(n, BitXor(n, x, y)) <==> (TopBit(n, x) != TopBit(n, y))
  {
    if n > 1 {
      TopBitXor(n - 1, x / 2, y / 2);
      assert BitXor(n, x, y) / 2 == BitXor(n - 1, x / 2, y / 2);
    }
  }

  lemma {:induction false} TopBitAnd(n: nat, x: int, y: int)
    requires n >= 1
    ensures TopBit(n, BitAnd(n, x, y)) <==> (TopBit(n, x) && TopBit(n, y))
  {
    if n > 1 {
      TopBitAnd(n - 1, x / 2, y / 2);
      assert BitAnd(n, x, y) / 2 == BitAnd(n - 1, x / 2, y / 2);
    }
  }

  lemma {:induction false} TopBitNot(n: nat, x: int)
    requires n >= 1
    ensures TopBit(n, BitNot(n, x)) <==> !TopBit(n, x)
  {
    if n > 1 {
      TopBitNot(n - 1, x / 2);
      assert BitNot(n, x) / 2 == BitNot(n - 1, x / 2);
    }
  }

  lemma {:induction false} BitAndBound(n: nat, x: int, y: int)
    ensures BitAnd(n, x, y) < Pow2(n)
  {
    if n > 0 {
      BitAndBound(n - 1, x / 2, y / 2);
    }
  }

  lemma {:induction false} BitNotBound(n: nat, x: int)
    ensures BitNot(n, x) < Pow2(n)
    ensures 0 <= x < Pow2(n) ==> BitNot(n, x) == Pow2(n) - 1 - x
  {
    if n > 0 {
      BitNotBound(n - 1, x / 2);
    }
  }

  lemma {:induction false} ShiftToTop(n: nat, x: int)
    requires n >= 1 && 0 <= x < Pow2(n)
    ensures ShiftRight(x, n - 1) != 0 <==> TopBit(n, x)
  {
    if n > 1 {
      ShiftToTop(n - 1, x / 2);
    }
  }

  /** A cast to the type itself or to its unsigned twin keeps the top bit. */
  lemma CastTopBit(t: Type, x: int)
    requires t.signed && 0 <= x < Pow2(t.bits)
    ensures TopBit(t.bits, Cast(t, x)) == TopBit(t.bits, x)
    ensures Fits(t, Cast(t, x)) && Cast(Unsigned(t), Cast(t, x)) == x
  {
    PowStep(t.bits);
    TopBitUnsigned(t.bits, x);
    ModNear(x, Pow2(t.bits));
    CastFits(t, x);
    TopBitSigned(t.bits, Cast(t, x));
    ModNear(Cast(t, x), Pow2(t.bits));
  }

  /** The test applied to a conjunction of differences: the complement has its sign bit set. */
  lemma SignTest(t: Type, a: int, b: int)
    requires t.signed
    ensures HasSignBit(t, BinaryComplement(t, Cast(t, BitAnd(t.bits, a, b)))) <==> !(TopBit(t.bits, a) && TopBit(t.bits, b))
  {
    var n := t.bits;
    var z := BitAnd(n, a, b);
    BitAndBound(n, a, b);
    TopBitAnd(n, a, b);
    CastTopBit(t, z);
    var c := BitNot(n, Cast(t, z));
    BitNotBound(n, Cast(t, z));
    TopBitNot(n, Cast(t, z));
    CastTopBit(t, c);
    ShiftToTop(n, c);
  }

  // ----- the tests are exact

  /** The conversion test, whatever the widths and signs. */
  lemma InRangeExact(t: Type, u: Type, x: int)
    requires Fits(u, x)
    ensures IsInRange(t, u, x) <==> Fits(t, x)
  {
    PowStep(t.bits);
    PowStep(u.bits);
    if t.bits < u.bits {
      Pow2Monotone(t.bits, u.bits - 1);
      CastKeeps(u, Max(t));
    } else {
      Pow2Monotone(u.bits, t.bits);
      Pow2Monotone(u.bits - 1, t.bits - 1);
      if t.bits > u.bits {
        Pow2Monotone(u.bits, t.bits - 1);
      } else if !u.signed {
        CastKeeps(u, Max(t));
      }
    }
  }

  lemma AddSigned(t: Type, x: int, y: int)
    requires t.signed && Fits(t, x) && Fits(t, y)
    ensures IsAddValid(t, x, y) <==> Fits(t, x + y)
  {
    hide Pow2, Cast, BitXor, BitAnd, HasSignBit, BinaryComplement, TopBit;
    var n := t.bits;
    PowStep(n);
    CastNear(t, x);
    CastNear(t, y);
    var ux, uy := Cast(Unsigned(t), x), Cast(Unsigned(t), y);
    CastNear(t, ux + uy);
    var r := Cast(Unsigned(t), ux + uy);
    SignTest(t, BitXor(n, r, x), BitXor(n, r, y));
    TopBitXor(n, r, x);
    TopBitXor(n, r, y);
    TopBitSigned(n, x);
    TopBitSigned(n, y);
    TopBitUnsigned(n, r);
  }

  lemma AddExact(t: Type, x: int, y: int)
    requires Fits(t, x) && Fits(t, y)
    ensures IsAddValid(t, x, y) <==> Fits(t, x + y)
  {
    if t.signed {
      AddSigned(t, x, y);
    } else {
      BitNotBound(t.bits, x);
      CastKeeps(t, BitNot(t.bits, x));
    }
  }

  lemma SubExact(t: Type, x: int, y: int)
    requires Fits(t, x) && Fits(t, y)
    ensures IsSubValid(t, x, y) <==> Fits(t, x - y)
  {
    hide Pow2, Cast, BitXor, BitAnd, HasSignBit, BinaryComplement, TopBit;
    var n := t.bits;
    PowStep(n);
    if t.signed {
      CastNear(t, x);
      CastNear(t, y);
      var ux, uy := Cast(Unsigned(t), x), Cast(Unsigned(t), y);
      CastNear(t, ux - uy);
      var r := Cast(Unsigned(t), ux - uy);
      SignTest(t, BitXor(n, r, x), BitXor(n, x, y));
      TopBitXor(n, r, x);
      TopBitXor(n, x, y);
      TopBitSigned(n, x);
      TopBitSigned(n, y);
      TopBitUnsigned(n, r);
    }
  }

  lemma QuotientBound(a: int, b: int, c: int)
    requires c > 0
    ensures a <= b / c <==> a * c <= b
  {
    var q, r := b / c, b % c;
    assert b == q * c + r;
    if a <= q {
      MulLe(a, q, c);
    } else {
      MulLe(q + 1, a, c);
      assert (q + 1) * c == q * c + c;
    }
  }

  lemma MulBounds(x: int, y: int, p: int)
    requires -p <= x <= p && -p <= y <= p
    ensures -(p * p) <= x * y <= p * p
    ensures x >= 0 && y >= 0 ==> 0 <= x * y
    ensures (x > 0 && y < 0) || (x < 0 && y > 0) ==> x * y < 0
    ensures x < 0 && y < 0 ==> x * y > 0
  {
    var ax, ay := if x < 0 then -x else x, if y < 0 then -y else y;
    MulLe(ax, p, ay);
    MulLe(ay, p, p);
    assert ax * ay == x * y || ax * ay == -(x * y);
    assert ax * ay >= 0;
  }

  lemma SquareFits(n: nat)
    requires n >= 1
    ensures var h := Pow2(n - 1); h * h <= Pow2(2 * n - 1) - 1
    ensures var m := Pow2(n) - 1; m * m <= Pow2(2 * n) - 1
  {
    hide Pow2;
    PowStep(n);
    Pow2Add(n - 1, n);
    Pow2Add(n, n);
    var h := Pow2(n - 1);
    assert h * Pow2(n) == 2 * (h * h);
    MulLe(1, h, h);
    var m := Pow2(n) - 1;
    assert Pow2(n) * Pow2(n) == m * m + 2 * m + 1;
  }

  /** A product always fits twice the width. */
  lemma ProductFitsTwice(t: Type, x: int, y: int)
    requires Fits(t, x) && Fits(t, y)
    ensures Fits(TwiceBigger(t), x * y)
  {
    hide Pow2;
    SquareFits(t.bits);
    MulBounds(x, y, if t.signed then Pow2(t.bits - 1) else Pow2(t.bits) - 1);
  }

  lemma MulWideningExact(t: Type, x: int, y: int)
    requires Fits(t, x) && Fits(t, y)
    ensures IsMulValidWidening(t, x, y) <==> Fits(t, x * y)
  {
    ProductFitsTwice(t, x, y);
    CastKeeps(TwiceBigger(t), x * y);
    InRangeExact(t, TwiceBigger(t), x * y);
  }

  /** The quotient test for one pair of signs: the magnitudes a and b, the bound c. */
  lemma QuotientTest(a: int, b: int, c: int, product: int)
    requires a > 0 && b > 0 && c >= 0 && (product == a * b || product == -(a * b))
    ensures a <= c / b <==> -c <= product <= c
    ensures product == a * b > 0 || product == -(a * b) < 0
  {
    QuotientBound(a, c, b);
    MulBounds(a, b, a + b);
    assert a * b != 0 by {
      MulLe(1, a, b);
    }
  }

  lemma ProductBySigns(x: int, y: int, a: int, b: int, c: int)
    requires (a == x && b == y) || (a == -x && b == y) || (a == -y && b == x) || (a == -y && b == -x)
    requires a > 0 && b > 0 && c >= 0
    ensures a <= c / b <==> -c <= x * y <= c
    ensures if (x > 0) == (y > 0) then x * y > 0 else x * y < 0
  {
    var m := a * b;
    assert m == x * y || m == -(x * y);
    QuotientTest(a, b, c, x * y);
    MulBounds(x, y, a + b);
  }

  lemma MulSignedExact(t: Type, x: int, y: int)
    requires t.signed && Fits(t, x) && Fits(t, y)
    ensures IsMulValidSigned(t, x, y) <==> Fits(t, x * y)
  {
    hide Pow2;
    var p := Pow2(t.bits - 1);
    if x > 0 && y > 0 {
      ProductBySigns(x, y, x, y, p - 1);
    } else if x > 0 && y < 0 {
      ProductBySigns(x, y, -y, x, p);
    } else if x < 0 && y > 0 {
      ProductBySigns(x, y, -x, y, p);
    } else if x < 0 && y < 0 {
      ProductBySigns(x, y, -y, -x, p - 1);
    }
  }

  lemma MulUnsignedExact(t: Type, x: int, y: int)
    requires !t.signed && Fits(t, x) && Fits(t, y)
    ensures IsMulValidUnsigned(t, x, y) <==> Fits(t, x * y)
  {
    MulBounds(x, y, Pow2(t.bits));
    if y != 0 {
      QuotientBound(x, Max(t), y);
    }
  }

  lemma MulExact(t: Type, x: int, y: int)
    requires Fits(t, x) && Fits(t, y)
    ensures IsMulValid(t, x, y) <==> Fits(t, x * y)
  {
    if TwiceBigger(t).bits <= MAX_BITS {
      MulWideningExact(t, x, y);
    } else if t.signed {
      MulSignedExact(t, x, y);
    } else {
      MulUnsignedExact(t, x, y);
    }
  }

  lemma QuotientShrinks(a: int, b: int)
    requires a >= 0 && b >= 1
    ensures 0 <= a / b <= a
    ensures b >= 2 && a > 0 ==> a / b < a
  {
    var q := a / b;
    assert a == q * b + a % b;
    if b >= 2 && q >= a {
      MulLe(2, b, q);
    }
    MulLe(1, b, q);
  }

  /** Only the smallest value divided by minus one leaves the range. */
  lemma DivExact(t: Type, x: int, y: int)
    requires Fits(t, x) && Fits(t, y)
    ensures IsDivValid(t, x, y) <==> y != 0 && Fits(t, TruncDiv(x, y))
  {
    if y != 0 {
      var ax, ay := if x < 0 then -x else x, if y < 0 then -y else y;
      QuotientShrinks(ax, ay);
      if t.signed {
        CastKeeps(t, -1);
        if ay == 1 {
          assert ax / ay == ax;
        }
      }
    }
  }

  /** Truncating division: the quotient rounds toward zero, the remainder takes the dividend's sign. */
  lemma TruncDivRounds(x: int, y: int)
    requires y != 0
    ensures var q, r := TruncDiv(x, y), TruncMod(x, y);
            x == y * q + r && (x >= 0 ==> 0 <= r) && (x <= 0 ==> r <= 0) && (y > 0 ==> -y < r < y) && (y < 0 ==> y < r < -y)
  {
    var ax, ay := if x < 0 then -x else x, if y < 0 then -y else y;
    assert ax == ay * (ax / ay) + ax % ay;
    var q := ax / ay;
    assert y * q == ay * q || y * q == -(ay * q);
    assert y * -q == -(y * q);
  }

  lemma ModExact(t: Type, x: int, y: int)
    requires Fits(t, x) && Fits(t, y)
    ensures IsModValid(t, x, y) <==> x >= 0 && y >= 1
    ensures IsModValid(t, x, y) ==> Fits(t, TruncMod(x, y)) && 0 <= TruncMod(x, y) < y
  {
    if x >= 0 && y >= 1 {
      assert x == y * (x / y) + x % y;
    }
  }

  /** Every validity test equals: the operands are allowed and the result fits. */
  lemma OperatorExact(t: Type, op: Op, x: int, y: int)
    requires Fits(t, x) && Fits(t, y)
    ensures IsValid(t, op, x, y) <==> Narrow(t, Denotes(op, x, y)).Some?
  {
    hide IsAddValid, IsSubValid, IsMulValid, IsDivValid, IsModValid, TruncDiv, TruncMod;
    match op
    case Add => AddExact(t, x, y);
    case Sub => SubExact(t, x, y);
    case Mul => MulExact(t, x, y);
    case Div => DivExact(t, x, y);
    case Mod => ModExact(t, x, y);
  }

  lemma BinaryExact(t: Type, op: Op, a: CheckedInt, b: CheckedInt)
    requires Fits(t, a.value) && Fits(t, b.value)
    ensures var c := Binary(t, op, a, b);
            var v := Narrow(t, Denotes(op, a.value, b.value));
            Fits(t, c.value) && (c.valid <==> a.valid && b.valid && v.Some?) && (v.Some? ==> c.value == v.value)
  {
    hide Cast, IsAddValid, IsSubValid, IsMulValid, TruncDiv, TruncMod;
    OperatorExact(t, op, a.value, b.value);
    var v := Denotes(op, a.value, b.value);
    CastFits(t, 0);
    if v.Some? && Fits(t, v.value) {
      CastKeeps(t, v.value);
    }
  }

  lemma ConvertExact(t: Type, u: Type, x: int)
    requires Fits(u, x)
    ensures var c := FromPlain(t, u, x);
            Fits(t, c.value) && (c.valid <==> Fits(t, x)) && (c.valid ==> c.value == x)
  {
    InRangeExact(t, u, x);
    CastFits(t, x);
    if Fits(t, x) {
      CastKeeps(t, x);
    }
  }

  lemma NegateExact(t: Type, a: CheckedInt)
    requires Fits(t, a.value)
    ensures var c := Negate(t, a);
            Fits(t, c.value) && (c.valid <==> a.valid && Fits(t, -a.value)) && (c.valid ==> c.value == -a.value)
  {
    if t.signed && a.value != Min(t) {
      CastKeeps(t, -a.value);
    }
  }

  /**
   * For every expression in any mix of widths and signs: the checked result is
   * valid exactly when every subexpression's mathematical value fits and every
   * division has allowed operands, and then it holds that value.
   */
  lemma {:induction false} CheckedArithmeticIsExact(t: Type, e: Expr)
    requires WellTyped(e)
    ensures var c := Eval(t, e);
            Fits(t, c.value) && (c.valid <==> Meaning(t, e).Some?) && (c.valid ==> Meaning(t, e) == Some(c.value))
    decreases e
  {
    hide Fits, FromPlain, Negate, Binary, Denotes;
    match e
    case Plain(u, x) => ConvertExact(t, u, x);
    case Convert(u, e1) =>
      CheckedArithmeticIsExact(u, e1);
      ConvertExact(t, u, Eval(u, e1).value);
    case Neg(e1) =>
      CheckedArithmeticIsExact(t, e1);
      NegateExact(t, Eval(t, e1));
    case Bin(op, l, r) =>
      CheckedArithmeticIsExact(t, l);
      CheckedArithmeticIsExact(t, r);
      BinaryExact(t, op, Eval(t, l), Eval(t, r));
  }
}
