/**
 * Overflow-tracking integer arithmetic: the operators as the fallback code computes them,
 * the compiler builtins they stand in for, and whole expressions.
 */
module CheckedInt {
  import opened Common

  datatype Width = W8 | W16 | W32 | W64

  datatype IntType = IntType(width: Width, signed: bool)

  function Bits(w: Width): nat {
    match w case W8 => 8 case W16 => 16 case W32 => 32 case W64 => 64
  }

  /** Number of values of a type of this width. */
  function Modulus(w: Width): nat {
    match w
    case W8 => 0x100
    case W16 => 0x1_0000
    case W32 => 0x1_0000_0000
    case W64 => 0x1_0000_0000_0000_0000
  }

  function Lowest(t: IntType): int {
    if t.signed then -(Modulus(t.width) / 2) else 0
  }

  function Highest(t: IntType): int {
    if t.signed then Modulus(t.width) / 2 - 1 else Modulus(t.width) - 1
  }

  predicate InRange(t: IntType, x: int) {
    Lowest(t) <= x <= Highest(t)
  }

  /** The ranges of the eight types. */
  lemma Limits(t: IntType, x: int)
    ensures InRange(t, x) <==>
            match t
            case IntType(W8, true) => -128 <= x <= 127
            case IntType(W8, false) => 0 <= x <= 255
            case IntType(W16, true) => -32768 <= x <= 32767
            case IntType(W16, false) => 0 <= x <= 65535
            case IntType(W32, true) => -2147483648 <= x <= 2147483647
            case IntType(W32, false) => 0 <= x <= 4294967295
            case IntType(W64, true) => -9223372036854775808 <= x <= 9223372036854775807
            case IntType(W64, false) => 0 <= x <= 18446744073709551615
  {
  }

  /** Conversion to the unsigned type of the same width. */
  function ToUnsigned(t: IntType, x: int): (u: nat)
    ensures u < Modulus(t.width)
  {
    x % Modulus(t.width)
  }

  /** The value of a type that a bit pattern stands for. */
  function FromUnsigned(t: IntType, u: nat): int {
    if t.signed && Msb(t.width, u) then u - Modulus(t.width) else u
  }

  /** The top bit of a bit pattern. */
  predicate Msb(w: Width, u: nat) {
    u >= Modulus(w) / 2
  }

  /** `static_cast<T>` of any integer. */
  function Cast(t: IntType, x: int): int {
    FromUnsigned(t, ToUnsigned(t, x))
  }

  lemma CastKeepsRange(t: IntType, x: int)
    ensures InRange(t, Cast(t, x))
    ensures InRange(t, x) <==> Cast(t, x) == x
  {
    var m := Modulus(t.width);
    var q := x / m;
    assert x == m * q + x % m;
    if InRange(t, x) {
      if x >= 0 {
        DivModUnique(x, m, 0, x);
      } else {
        DivModUnique(x, m, -1, x + m);
      }
    }
  }

  /** Two values with the same bit pattern in integers of this width. */
  ghost predicate SameBits(w: Width, x: int, y: int) {
    exists k :: x == y + Modulus(w) * k
  }

  /** A cast keeps the low bits. */
  lemma CastKeepsBits(t: IntType, x: int)
    ensures SameBits(t.width, Cast(t, x), x)
  {
    var m := Modulus(t.width);
    var q := x / m;
    assert x == m * q + x % m;
    if Cast(t, x) == x % m {
      assert Cast(t, x) == x + m * -q;
    } else {
      assert Cast(t, x) == x + m * (-q - 1);
    }
  }

  /** A checked integer of some type: the value and the sticky flag. */
  datatype Checked = Checked(value: int, overflow: bool)

  /** The converting constructor, branch by branch. */
  function Convert(t: IntType, from: IntType, val: int): Checked {
    Checked(
      Cast(t, val),
      if t == from then false
      else if from.signed == t.signed then val < Lowest(t) || val > Highest(t)
      else if !from.signed then Modulus(t.width) <= Modulus(from.width) && val > Highest(t)
      else val < 0 || ToUnsigned(from, val) > Highest(t))
  }

  /** Construction flags exactly the values the type cannot hold. */
  lemma ConvertIsExact(t: IntType, from: IntType, val: int)
    requires InRange(from, val)
    ensures Convert(t, from, val).overflow <==> !InRange(t, val)
    ensures !Convert(t, from, val).overflow ==> Convert(t, from, val).value == val
    ensures InRange(t, Convert(t, from, val).value) && SameBits(t.width, Convert(t, from, val).value, val)
  {
    CastKeepsRange(t, val);
    CastKeepsBits(t, val);
    if val >= 0 {
      DivModUnique(val, Modulus(from.width), 0, val);
    }
  }

  datatype Op = Add | Sub | Mul | Div

  /** The division operator of the language. */
  function TruncDiv(a: int, b: int): int
    requires b != 0
  {
    var q := (if a < 0 then -a else a) / (if b < 0 then -b else b);
    if (a < 0) == (b < 0) then q else -q
  }

  /** `q` is `a / b` rounded toward zero: the remainder is smaller than `b` and has the sign of `a`. */
  ghost predicate IsQuotient(a: int, b: int, q: int) {
    var r := a - b * q;
    (if b < 0 then b < r < -b else -b < r < b) && (r == 0 || (r < 0 <==> a < 0))
  }

  lemma TruncDivIsQuotient(a: int, b: int)
    requires b != 0
    ensures IsQuotient(a, b, TruncDiv(a, b))
  {
    var x, y: nat := if a < 0 then -a else a, if b < 0 then -b else b;
    assert x == y * (x / y) + x % y;
  }

  /** There is only one such quotient. */
  lemma QuotientIsUnique(a: int, b: int, q: int, q': int)
    requires b != 0 && IsQuotient(a, b, q) && IsQuotient(a, b, q')
    ensures q == q'
  {
    var d := q' - q;
    assert (a - b * q) - (a - b * q') == b * d;
    if d >= 1 {
      MulMonotonic(if b < 0 then -b else b, 1, d);
    } else if d <= -1 {
      MulMonotonic(if b < 0 then -b else b, d, -1);
    }
  }

  /** `x` is the mathematical result; a division by zero has none. */
  ghost predicate IsResult(op: Op, a: int, b: int, x: int) {
    match op
    case Add => x == a + b
    case Sub => x == a - b
    case Mul => x == a * b
    case Div => b != 0 && IsQuotient(a, b, x)
  }

  ghost predicate HasResult(t: IntType, op: Op, a: int, b: int) {
    exists x :: InRange(t, x) && IsResult(op, a, b, x)
  }

  /** The result as the operators of the language compute it; None for a division by zero. */
  function Exactly(op: Op, a: int, b: int): Option<int> {
    match op
    case Add => Some(a + b)
    case Sub => Some(a - b)
    case Mul => Some(a * b)
    case Div => if b == 0 then None else Some(TruncDiv(a, b))
  }

  lemma ResultMeans(op: Op, a: int, b: int, x: int)
    ensures Exactly(op, a, b) == Some(x) <==> IsResult(op, a, b, x)
  {
    if op == Div && b != 0 {
      TruncDivIsQuotient(a, b);
      if IsQuotient(a, b, x) {
        QuotientIsUnique(a, b, x, TruncDiv(a, b));
      }
    }
  }

  lemma HasResultMeans(t: IntType, op: Op, a: int, b: int)
    ensures var x := Exactly(op, a, b);
            && (HasResult(t, op, a, b) <==> x.Some? && InRange(t, x.value))
            && (x.Some? ==> IsResult(op, a, b, x.value))
  {
    var x := Exactly(op, a, b);
    if x.Some? {
      ResultMeans(op, a, b, x.value);
    }
    if HasResult(t, op, a, b) {
      var y :| InRange(t, y) && IsResult(op, a, b, y);
      ResultMeans(op, a, b, y);
    }
  }

  /* ---- The compiler builtins: exact arithmetic, then a conversion ---- */

  function Builtin(t: IntType, op: Op, a: Checked, b: Checked): Checked
    requires op != Div
  {
    var x := Exactly(op, a.value, b.value).value;
    Checked(Cast(t, x), !InRange(t, x) || a.overflow || b.overflow)
  }

  /* ---- The fallback operators on operands of one type ---- */

  function FallbackAdd(t: IntType, a: Checked, b: Checked): Checked {
    if !t.signed then
      var v := (a.value + b.value) % Modulus(t.width);
      Checked(v, a.overflow || b.overflow || a.value > v)
    else
      var ua, ub := ToUnsigned(t, a.value), ToUnsigned(t, b.value);
      var tmp := (ua + ub) % Modulus(t.width);
      var sameSign := Msb(t.width, ua) == Msb(t.width, ub);
      var signChanged := Msb(t.width, tmp) != Msb(t.width, ua);
      Checked(FromUnsigned(t, tmp), a.overflow || b.overflow || (sameSign && signChanged))
  }

  function FallbackSub(t: IntType, a: Checked, b: Checked): Checked {
    if !t.signed then
      var v := (a.value - b.value) % Modulus(t.width);
      Checked(v, a.overflow || b.overflow || a.value < v)
    else
      var ua, ub := ToUnsigned(t, a.value), ToUnsigned(t, b.value);
      var tmp := (ua - ub) % Modulus(t.width);
      var sameSign := Msb(t.width, ua) != Msb(t.width, ub);  // the sign of ~ub
      var signChanged := Msb(t.width, tmp) != Msb(t.width, ua);
      Checked(FromUnsigned(t, tmp), a.overflow || b.overflow || (sameSign && signChanged))
  }

  function Widen(t: IntType): IntType
    requires t.width != W64
  {
    IntType(match t.width case W8 => W16 case W16 => W32 case W32 => W64, t.signed)
  }

  const HALF: nat := 0x1_0000_0000
  const FULL: nat := 0x1_0000_0000_0000_0000

  /** The upper 64 bits of a 64 by 64 bit product, from 32-bit halves in wrapping arithmetic. */
  function Upper64(ua: nat, ub: nat): nat {
    var hia, loa, hib, lob := ua / HALF, ua % HALF, ub / HALF, ub % HALF;
    AddColumns((loa * lob) % FULL, (hia * lob) % FULL, (loa * hib) % FULL, (hia * hib) % FULL)
  }

  /** The carries of the four partial products, in wrapping arithmetic. */
  function AddColumns(loLo: nat, hiLo: nat, loHi: nat, hiHi: nat): nat {
    var cross := (loLo / HALF + hiLo % HALF + loHi) % FULL;
    (hiHi + hiLo / HALF + cross / HALF) % FULL
  }

  function FallbackMul(t: IntType, a: Checked, b: Checked): Checked {
    if t.width != W64 then
      var tmp := Cast(Widen(t), a.value * b.value);
      var res := Convert(t, Widen(t), tmp);
      Checked(res.value, res.overflow || a.overflow || b.overflow)
    else
      var ua, ub := ToUnsigned(t, a.value), ToUnsigned(t, b.value);
      var upper := Upper64(ua, ub);
      if t.signed then
        var corrected1 := if a.value < 0 then (upper - ub) % FULL else upper;
        var corrected := if b.value < 0 then (corrected1 - ua) % FULL else corrected1;
        var lower := (ua * ub) % FULL;
        var signExt := if Msb(W64, lower) then FULL - 1 else 0;
        Checked(Cast(t, a.value * b.value), a.overflow || b.overflow || corrected != signExt)
      else
        Checked(Cast(t, a.value * b.value), a.overflow || b.overflow || upper != 0)
  }

  function Divide(t: IntType, a: Checked, b: Checked): Checked {
    if t.signed && a.value == Lowest(t) && b.value == -1 then Checked(Highest(t), true)
    else
      Checked(if b.value != 0 then Cast(t, TruncDiv(a.value, b.value)) else Highest(t),
              b.value == 0 || a.overflow || b.overflow)
  }

  function Fallback(t: IntType, op: Op, a: Checked, b: Checked): Checked {
    match op
    case Add => FallbackAdd(t, a, b)
    case Sub => FallbackSub(t, a, b)
    case Mul => FallbackMul(t, a, b)
    case Div => Divide(t, a, b)
  }

  /* ---- The fallback computes what the builtins compute ---- */

  ghost predicate Operands(t: IntType, a: Checked, b: Checked) {
    InRange(t, a.value) && InRange(t, b.value)
  }

  lemma UnsignedPattern(t: IntType, x: int)
    requires InRange(t, x)
    ensures ToUnsigned(t, x) == if x < 0 then x + Modulus(t.width) else x
  {
    if x < 0 {
      DivModUnique(x, Modulus(t.width), -1, x + Modulus(t.width));
    } else {
      DivModUnique(x, Modulus(t.width), 0, x);
    }
  }

  lemma SamePattern(m: nat, x: int, y: int, k: int)
    requires m != 0 && x == y + m * k
    ensures x % m == y % m
  {
    assert y == m * (y / m) + y % m;
    assert x == m * (y / m + k) + y % m by {
      assert m * (y / m + k) == m * (y / m) + m * k;
    }
    DivModUnique(x, m, y / m + k, y % m);
  }

  /** The sign tests catch exactly the sums and differences that leave `[-h, h)`. */
  lemma SignTests(h: int, a: int, b: int, ua: int, ub: int)
    requires h > 0 && -h <= a < h && -h <= b < h
    requires ua == (if a < 0 then a + 2 * h else a) && ub == (if b < 0 then b + 2 * h else b)
    ensures (ua + ub) % (2 * h) == (a + b) % (2 * h) && (ua - ub) % (2 * h) == (a - b) % (2 * h)
    ensures ((ua >= h) == (ub >= h) && (((ua + ub) % (2 * h)) >= h) != (ua >= h)) <==> !(-h <= a + b < h)
    ensures ((ua >= h) != (ub >= h) && (((ua - ub) % (2 * h)) >= h) != (ua >= h)) <==> !(-h <= a - b < h)
  {
    SamePattern(2 * h, ua + ub, a + b, (if a < 0 then 1 else 0) + (if b < 0 then 1 else 0));
    SamePattern(2 * h, ua - ub, a - b, (if a < 0 then 1 else 0) - (if b < 0 then 1 else 0));
    Remainder(2 * h, a + b);
    Remainder(2 * h, a - b);
  }

  lemma ModulusIsEven(w: Width)
    ensures Modulus(w) == 2 * (Modulus(w) / 2) && Modulus(w) > 0
  {
  }

  lemma FallbackAddIsBuiltin(t: IntType, a: Checked, b: Checked)
    requires Operands(t, a, b)
    ensures FallbackAdd(t, a, b) == Builtin(t, Add, a, b)
  {
    ModulusIsEven(t.width);
    hide Modulus;
    if t.signed {
      UnsignedPattern(t, a.value);
      UnsignedPattern(t, b.value);
      SignTests(Modulus(t.width) / 2, a.value, b.value, ToUnsigned(t, a.value), ToUnsigned(t, b.value));
    } else {
      Remainder(Modulus(t.width), a.value + b.value);
    }
  }

  lemma FallbackSubIsBuiltin(t: IntType, a: Checked, b: Checked)
    requires Operands(t, a, b)
    ensures FallbackSub(t, a, b) == Builtin(t, Sub, a, b)
  {
    ModulusIsEven(t.width);
    hide Modulus;
    if t.signed {
      UnsignedPattern(t, a.value);
      UnsignedPattern(t, b.value);
      SignTests(Modulus(t.width) / 2, a.value, b.value, ToUnsigned(t, a.value), ToUnsigned(t, b.value));
    } else {
      Remainder(Modulus(t.width), a.value - b.value);
    }
  }

  /** The remainder of a number at most one period away. */
  lemma Remainder(m: int, x: int)
    requires m > 0 && -m <= x < 2 * m
    ensures x % m == if x < 0 then x + m else if x < m then x else x - m
  {
    if x < 0 && x + m == m {
    } else if x < 0 {
      DivModUnique(x, m, -1, x + m);
    } else if x < m {
      DivModUnique(x, m, 0, x);
    } else {
      DivModUnique(x, m, 1, x - m);
    }
  }

  /* ---- The 64 by 64 bit multiplication ---- */

  lemma Halves(hia: nat, loa: nat, hib: nat, lob: nat)
    ensures (HALF * hia + loa) * (HALF * hib + lob)
            == FULL * (hia * hib) + HALF * (hia * lob) + HALF * (loa * hib) + loa * lob
  {
    calc {
      (HALF * hia + loa) * (HALF * hib + lob);
      (HALF * hia) * (HALF * hib) + (HALF * hia) * lob + loa * (HALF * hib) + loa * lob;
    }
  }

  lemma ProductBound(x: nat, y: nat, xMax: nat, yMax: nat)
    requires x <= xMax && y <= yMax
    ensures x * y <= xMax * yMax
  {
    MulMonotonic(x, y, yMax);
    MulMonotonic(yMax, x, xMax);
  }

  /** `cross` and the sum for the upper half never wrap, so the carries are exact. */
  lemma ColumnsAreExact(product: nat, loLo: nat, hiLo: nat, loHi: nat, hiHi: nat)
    requires loLo <= (HALF - 1) * (HALF - 1) && hiLo <= (HALF - 1) * (HALF - 1) && loHi <= (HALF - 1) * (HALF - 1)
    requires product == FULL * hiHi + HALF * hiLo + HALF * loHi + loLo
    requires product < FULL * FULL
    ensures loLo / HALF + hiLo % HALF + loHi < FULL
    ensures AddColumns(loLo, hiLo, loHi, hiHi) == product / FULL
  {
    var cross := loLo / HALF + hiLo % HALF + loHi;
    var upper := hiHi + hiLo / HALF + cross / HALF;
    var rest := HALF * (cross % HALF) + loLo % HALF;
    assert product == FULL * upper + rest && rest < FULL;
    DivModUnique(product, FULL, upper, rest);
    assert upper < FULL;
  }

  /** A product of two halves does not wrap. */
  lemma PartialProduct(x: nat, y: nat) returns (p: nat)
    requires x < HALF && y < HALF
    ensures p == x * y && (x * y) % FULL == p && p <= (HALF - 1) * (HALF - 1)
  {
    p := x * y;
    ProductBound(x, y, HALF - 1, HALF - 1);
    DivModUnique(p, FULL, 0, p);
  }

  lemma Upper64IsExact(ua: nat, ub: nat)
    requires ua < FULL && ub < FULL
    ensures Upper64(ua, ub) == (ua * ub) / FULL
  {
    var hia, loa, hib, lob := ua / HALF, ua % HALF, ub / HALF, ub % HALF;
    var loLo := PartialProduct(loa, lob);
    var hiLo := PartialProduct(hia, lob);
    var loHi := PartialProduct(loa, hib);
    var hiHi := PartialProduct(hia, hib);
    assert Upper64(ua, ub) == AddColumns(loLo, hiLo, loHi, hiHi);
    var product := ua * ub;
    assert product < FULL * FULL by {
      ProductBound(ua, ub, FULL - 1, FULL - 1);
    }
    assert product == FULL * hiHi + HALF * hiLo + HALF * loHi + loLo by {
      Halves(hia, loa, hib, lob);
      assert ua == HALF * hia + loa && ub == HALF * hib + lob;
    }
    ColumnsAreExact(product, loLo, hiLo, loHi, hiHi);
  }

  /** The signed upper half: subtracting the other operand undoes each operand's offset of 2^64. */
  lemma CorrectedUpper(a: int, b: int, ua: nat, ub: nat)
    requires ua == (if a < 0 then a + FULL else a) && ub == (if b < 0 then b + FULL else b)
    ensures ((ua * ub) / FULL - (if a < 0 then ub else 0) - (if b < 0 then ua else 0)) % FULL == ((a * b) / FULL) % FULL
  {
    var q, r := (a * b) / FULL, (a * b) % FULL;
    assert a * b == FULL * q + r;
    if a < 0 && b < 0 {
      assert ua * ub == a * b + FULL * (a + b + FULL);
      DivModUnique(ua * ub, FULL, q + a + b + FULL, r);
      SamePattern(FULL, q, q - FULL, 1);
    } else if a < 0 {
      assert ua * ub == a * b + FULL * b;
      DivModUnique(ua * ub, FULL, q + b, r);
    } else if b < 0 {
      assert ua * ub == a * b + FULL * a;
      DivModUnique(ua * ub, FULL, q + a, r);
    }
  }

  lemma SignedProductBound(a: int, b: int, h: int)
    requires h >= 0 && -h <= a <= h && -h <= b <= h
    ensures -(h * h) <= a * b <= h * h
  {
    ProductBound(if a < 0 then -a else a, if b < 0 then -b else b, h, h);
    if a < 0 && b < 0 {
      assert a * b == (-a) * (-b);
    } else if a < 0 {
      assert a * b == -((-a) * b);
    } else if b < 0 {
      assert a * b == -(a * (-b));
    }
  }

  lemma ProductFitsWidened(t: IntType, a: int, b: int)
    requires t.width != W64 && InRange(t, a) && InRange(t, b)
    ensures InRange(Widen(t), a * b)
  {
    match t {
      case IntType(W8, true) => SignedProductBound(a, b, 0x80);
      case IntType(W16, true) => SignedProductBound(a, b, 0x8000);
      case IntType(W32, true) => SignedProductBound(a, b, 0x8000_0000);
      case IntType(W8, false) => ProductBound(a, b, 0xFF, 0xFF);
      case IntType(W16, false) => ProductBound(a, b, 0xFFFF, 0xFFFF);
      case IntType(W32, false) => ProductBound(a, b, 0xFFFF_FFFF, 0xFFFF_FFFF);
    }
  }

  /** A signed product fits 64 bits exactly when its upper half is the sign extension of the lower. */
  lemma SignExtensionTest(product: int, corrected: nat)
    requires -(FULL * FULL / 4) <= product <= FULL * FULL / 4
    requires corrected == (product / FULL) % FULL
    ensures corrected == (if Msb(W64, product % FULL) then FULL - 1 else 0) <==> InRange(IntType(W64, true), product)
  {
    var q := product / FULL;
    assert product == FULL * q + product % FULL;
    Remainder(FULL, q);
  }

  lemma SignedMulFlag(a: int, b: int)
    requires InRange(IntType(W64, true), a) && InRange(IntType(W64, true), b)
    ensures var m := FallbackMul(IntType(W64, true), Checked(a, false), Checked(b, false));
            m.overflow <==> !InRange(IntType(W64, true), a * b)
  {
    var t := IntType(W64, true);
    UnsignedPattern(t, a);
    UnsignedPattern(t, b);
    var ua: int, ub: int := ToUnsigned(t, a), ToUnsigned(t, b);
    Upper64IsExact(ua, ub);
    var upper: int := Upper64(ua, ub);
    var corrected1 := if a < 0 then (upper - ub) % FULL else upper;
    var corrected := if b < 0 then (corrected1 - ua) % FULL else corrected1;
    CorrectedUpper(a, b, ua, ub);
    var target := upper - (if a < 0 then ub else 0) - (if b < 0 then ua else 0);
    assert corrected == target % FULL by {
      TwoCorrections(upper, if a < 0 then ub else 0, if b < 0 then ua else 0);
    }
    SignedProductBound(a, b, FULL / 2);
    SignExtensionTest(a * b, corrected);
    LowerHalf(a, b, ua, ub);
  }

  lemma TwoCorrections(upper: int, x: int, y: int)
    requires 0 <= upper < FULL
    ensures ((upper - x) % FULL - y) % FULL == (upper - x - y) % FULL
    ensures upper % FULL == upper
  {
    var k := (upper - x) / FULL;
    assert upper - x == FULL * k + (upper - x) % FULL;
    SamePattern(FULL, (upper - x) % FULL - y, upper - x - y, -k);
  }

  lemma LowerHalf(a: int, b: int, ua: nat, ub: nat)
    requires ua == (if a < 0 then a + FULL else a) && ub == (if b < 0 then b + FULL else b)
    ensures (ua * ub) % FULL == (a * b) % FULL
  {
    var k := (if a < 0 then b else 0) + (if b < 0 then a else 0) + (if a < 0 && b < 0 then FULL else 0);
    assert ua * ub == a * b + FULL * k;
    SamePattern(FULL, ua * ub, a * b, k);
  }

  lemma UnsignedMulFlag(a: int, b: int)
    requires InRange(IntType(W64, false), a) && InRange(IntType(W64, false), b)
    ensures var m := FallbackMul(IntType(W64, false), Checked(a, false), Checked(b, false));
            m.overflow <==> !InRange(IntType(W64, false), a * b)
  {
    var t := IntType(W64, false);
    UnsignedPattern(t, a);
    UnsignedPattern(t, b);
    Upper64IsExact(a, b);
    var p := a * b;
    ProductBound(a, b, FULL - 1, FULL - 1);
    assert p / FULL == 0 <==> p < FULL;
  }

  lemma FallbackMulIsBuiltin(t: IntType, a: Checked, b: Checked)
    requires Operands(t, a, b)
    ensures FallbackMul(t, a, b) == Builtin(t, Mul, a, b)
  {
    if t.width != W64 {
      ProductFitsWidened(t, a.value, b.value);
      CastKeepsRange(Widen(t), a.value * b.value);
      ConvertIsExact(t, Widen(t), a.value * b.value);
    } else if t.signed {
      SignedMulFlag(a.value, b.value);
    } else {
      UnsignedMulFlag(a.value, b.value);
    }
  }

  /** The hand-written operators and the compiler builtins agree, on value and flag, for every operand. */
  lemma FallbackIsBuiltin(t: IntType, op: Op, a: Checked, b: Checked)
    requires Operands(t, a, b) && op != Div
    ensures Fallback(t, op, a, b) == Builtin(t, op, a, b)
  {
    FallbackAddIsBuiltin(t, a, b);
    FallbackSubIsBuiltin(t, a, b);
    FallbackMulIsBuiltin(t, a, b);
  }

  /* ---- One operation is exact ---- */

  lemma QuotientBound(x: nat, y: nat)
    requires y >= 1
    ensures 0 <= x / y <= x && (y >= 2 ==> 2 * (x / y) <= x) && (y == 1 ==> x / y == x)
  {
    var q := x / y;
    assert x == y * q + x % y;
    if q < 0 {
      MulMonotonic(y, q, -1);
      assert false;
    }
    if y >= 2 {
      MulMonotonic(q, 2, y);
    }
  }

  lemma TruncDivRange(t: IntType, a: int, b: int)
    requires InRange(t, a) && InRange(t, b) && b != 0
    ensures InRange(t, TruncDiv(a, b)) <==> !(t.signed && a == Lowest(t) && b == -1)
  {
    QuotientBound(if a < 0 then -a else a, if b < 0 then -b else b);
  }

  /**
   * With clean operands an operator is clean exactly when the mathematical result exists and
   * fits, and then it is the value; a dirty operand makes the result dirty. A value that does
   * not fit wraps around, except that a division without a result answers with the largest one.
   */
  lemma OperationIsExact(t: IntType, op: Op, a: Checked, b: Checked)
    requires Operands(t, a, b)
    ensures var c := Fallback(t, op, a, b);
            && InRange(t, c.value)
            && (c.overflow <==> a.overflow || b.overflow || !HasResult(t, op, a.value, b.value))
            && (HasResult(t, op, a.value, b.value) ==> IsResult(op, a.value, b.value, c.value))
            && (!HasResult(t, op, a.value, b.value) ==>
                  if op == Div then c.value == Highest(t)
                  else forall x :: IsResult(op, a.value, b.value, x) ==> SameBits(t.width, c.value, x))
  {
    HasResultMeans(t, op, a.value, b.value);
    if op == Div {
      if b.value != 0 {
        TruncDivRange(t, a.value, b.value);
        CastKeepsRange(t, TruncDiv(a.value, b.value));
      }
    } else {
      FallbackIsBuiltin(t, op, a, b);
      CastKeepsRange(t, Exactly(op, a.value, b.value).value);
      CastKeepsBits(t, Exactly(op, a.value, b.value).value);
    }
  }

  /* ---- Whole expressions over one type ---- */

  datatype Expr =
    | Leaf(from: IntType, val: int)
    | Node(op: Op, left: Expr, right: Expr)

  /** Every leaf holds a value of its own integer type. */
  ghost predicate WellTyped(e: Expr) {
    match e
    case Leaf(from, val) => InRange(from, val)
    case Node(_, left, right) => WellTyped(left) && WellTyped(right)
  }

  function Evaluate(t: IntType, e: Expr): Checked {
    match e
    case Leaf(from, val) => Convert(t, from, val)
    case Node(op, left, right) => Fallback(t, op, Evaluate(t, left), Evaluate(t, right))
  }

  /** `x` is the mathematical value of `e`, and every subexpression has one that fits the type. */
  ghost predicate Means(t: IntType, e: Expr, x: int) {
    && InRange(t, x)
    && match e
       case Leaf(_, val) => x == val
       case Node(op, left, right) => exists l, r :: Means(t, left, l) && Means(t, right, r) && IsResult(op, l, r, x)
  }

  /** `Overflow()` tells exactly whether the expression has a meaning, and `Value()` is the only one. */
  lemma {:induction false} ExpressionIsExact(t: IntType, e: Expr)
    requires WellTyped(e)
    ensures InRange(t, Evaluate(t, e).value)
    ensures forall x :: Means(t, e, x) <==> !Evaluate(t, e).overflow && x == Evaluate(t, e).value
  {
    match e
    case Leaf(from, val) =>
      ConvertIsExact(t, from, val);
    case Node(op, left, right) =>
      ExpressionIsExact(t, left);
      ExpressionIsExact(t, right);
      var a, b := Evaluate(t, left), Evaluate(t, right);
      OperationIsExact(t, op, a, b);
      OneResult(op, a.value, b.value);
  }

  lemma OneResult(op: Op, a: int, b: int)
    ensures forall x, y :: IsResult(op, a, b, x) && IsResult(op, a, b, y) ==> x == y
  {
    forall x, y | IsResult(op, a, b, x) && IsResult(op, a, b, y)
      ensures x == y
    {
      ResultMeans(op, a, b, x);
      ResultMeans(op, a, b, y);
    }
  }

  /* ---- Operands of two types ---- */

  /** `std::common_type_t`: equal types stay, others are promoted and converted as in C++. */
  function CommonType(t: IntType, u: IntType): IntType {
    if t == u then t
    else
      var p := if Bits(t.width) < 32 then IntType(W32, true) else t;
      var q := if Bits(u.width) < 32 then IntType(W32, true) else u;
      if p.signed == q.signed then (if Bits(p.width) >= Bits(q.width) then p else q)
      else
        var unsigned, signed := if p.signed then q else p, if p.signed then p else q;
        if Bits(unsigned.width) >= Bits(signed.width) then unsigned else signed
  }

  /** One type holds whatever the other holds. */
  ghost predicate Holds(t: IntType, u: IntType) {
    forall x :: InRange(u, x) ==> InRange(t, x)
  }

  /**
   * The common type of two different types: `int` if that holds both; else with a 64-bit operand
   * a 64-bit type, unsigned if an operand is `uint64`; else `uint32`. If one operand's type holds
   * the other's values, so does the common type.
   */
  lemma CommonTypeIs(t: IntType, u: IntType)
    ensures CommonType(t, t) == t && CommonType(t, u) == CommonType(u, t)
    ensures t != u ==>
              CommonType(t, u) ==
              if Holds(IntType(W32, true), t) && Holds(IntType(W32, true), u) then IntType(W32, true)
              else if t == IntType(W64, false) || u == IntType(W64, false) then IntType(W64, false)
              else if t == IntType(W64, true) || u == IntType(W64, true) then IntType(W64, true)
              else IntType(W32, false)
    ensures Holds(t, u) || Holds(u, t) ==> Holds(CommonType(t, u), t) && Holds(CommonType(t, u), u)
  {
    IntHolds(t);
    IntHolds(u);
    CommonTypeHolds(t, u);
    hide Holds;
  }

  lemma IntHolds(t: IntType)
    ensures Holds(IntType(W32, true), t) <==> t == IntType(W32, true) || Bits(t.width) < 32
  {
    HoldsMeans(IntType(W32, true), t);
    hide Holds;
  }

  lemma CommonTypeHolds(t: IntType, u: IntType)
    ensures Holds(t, u) || Holds(u, t) ==> Holds(CommonType(t, u), t) && Holds(CommonType(t, u), u)
  {
    HoldsMeans(t, u);
    HoldsMeans(u, t);
    HoldsMeans(CommonType(t, u), t);
    HoldsMeans(CommonType(t, u), u);
    hide Holds, InRange;
  }

  lemma HoldsMeans(t: IntType, u: IntType)
    ensures Holds(t, u) <==> Lowest(t) <= Lowest(u) && Highest(u) <= Highest(t)
  {
    assert InRange(u, Lowest(u)) && InRange(u, Highest(u));
  }

  /** The converting constructor on a checked value keeps a raised flag. */
  function ConvertChecked(t: IntType, from: IntType, a: Checked): Checked {
    var c := Convert(t, from, a.value);
    Checked(c.value, c.overflow || a.overflow)
  }

  function MixedFallback(t: IntType, u: IntType, op: Op, a: Checked, b: Checked): Checked {
    var c := CommonType(t, u);
    if t == u then Fallback(t, op, a, b)
    else Fallback(c, op, ConvertChecked(c, t, a), ConvertChecked(c, u, b))
  }

  /** The builtins take operands of different types as they are. */
  function MixedBuiltin(t: IntType, u: IntType, op: Op, a: Checked, b: Checked): Checked
    requires op != Div
  {
    Builtin(CommonType(t, u), op, a, b)
  }

  /**
   * With operands of two types the fallback is sound but stricter than the builtin: it also
   * flags an operand that the common type cannot hold, and nothing else.
   */
  lemma MixedFallbackIsStricter(t: IntType, u: IntType, op: Op, a: Checked, b: Checked)
    requires InRange(t, a.value) && InRange(u, b.value) && op != Div
    ensures var c := CommonType(t, u);
            var f, g := MixedFallback(t, u, op, a, b), MixedBuiltin(t, u, op, a, b);
            && (f.overflow <==> g.overflow || !InRange(c, a.value) || !InRange(c, b.value))
            && (g.overflow <==> a.overflow || b.overflow || !HasResult(c, op, a.value, b.value))
            && (!g.overflow ==> IsResult(op, a.value, b.value, g.value))
            && (!f.overflow ==> f.value == g.value)
  {
    var c := CommonType(t, u);
    HasResultMeans(c, op, a.value, b.value);
    ConvertIsExact(c, t, a.value);
    ConvertIsExact(c, u, b.value);
    CastKeepsRange(c, a.value);
    CastKeepsRange(c, b.value);
    var a', b' := ConvertChecked(c, t, a), ConvertChecked(c, u, b);
    OperationIsExact(c, op, if t == u then a else a', if t == u then b else b');
    OneResult(op, a.value, b.value);
    CastKeepsRange(c, Exactly(op, a.value, b.value).value);
  }

  /** The two disagree on -1 + 5u: the builtin gives 4, the fallback cannot convert -1. */
  lemma MixedFallbackDiffers()
    ensures var t, u := IntType(W32, true), IntType(W32, false);
            && MixedBuiltin(t, u, Add, Checked(-1, false), Checked(5, false)) == Checked(4, false)
            && MixedFallback(t, u, Add, Checked(-1, false), Checked(5, false)).overflow
  {
    var t, u := IntType(W32, true), IntType(W32, false);
    MixedFallbackIsStricter(t, u, Add, Checked(-1, false), Checked(5, false));
  }

  /* ---- Comparisons ---- */

  datatype Cmp = Eq | Ne | Lt | Le | Gt | Ge

  predicate Compare(op: Cmp, a: int, b: int) {
    match op
    case Eq => a == b
    case Ne => a != b
    case Lt => a < b
    case Le => a <= b
    case Gt => a > b
    case Ge => a >= b
  }

  /** The mixed comparison: a negative operand never meets an unsigned one, 0 and 1 stand in for them. */
  predicate MixedCompare(op: Cmp, t: IntType, a: int, u: IntType, b: int) {
    if t.signed == u.signed then Compare(op, a, b)
    else if t.signed then (if a >= 0 then Compare(op, ToUnsigned(t, a), b) else Compare(op, 0, 1))
    else (if b >= 0 then Compare(op, a, ToUnsigned(u, b)) else Compare(op, 1, 0))
  }

  /** Comparisons across signedness agree with the comparison of the mathematical values. */
  lemma MixedCompareIsExact(t: IntType, a: int, u: IntType, b: int)
    requires InRange(t, a) && InRange(u, b)
    ensures MixedCompare(Eq, t, a, u, b) <==> a == b
    ensures MixedCompare(Ne, t, a, u, b) <==> a != b
    ensures MixedCompare(Lt, t, a, u, b) <==> a < b
    ensures MixedCompare(Le, t, a, u, b) <==> a <= b
    ensures MixedCompare(Gt, t, a, u, b) <==> a > b
    ensures MixedCompare(Ge, t, a, u, b) <==> a >= b
  {
    UnsignedPattern(t, a);
    UnsignedPattern(u, b);
  }

  /* ---- The assigning operators ---- */

  /** The operator of a build with or without the compiler builtins; there is none for division. */
  function Operator(builtins: bool, t: IntType, u: IntType, op: Op, a: Checked, b: Checked): Checked {
    if builtins && op != Div then MixedBuiltin(t, u, op, a, b) else MixedFallback(t, u, op, a, b)
  }

  /**
   * The result exists and fits both the common type and the variable; so do the operands,
   * unless a builtin takes them as they are.
   */
  ghost predicate FitsAssign(builtins: bool, op: Op, ty: IntType, u: IntType, a: int, b: int) {
    var c := CommonType(ty, u);
    && ((InRange(c, a) && InRange(c, b)) || (builtins && op != Div))
    && exists x :: InRange(c, x) && InRange(ty, x) && IsResult(op, a, b, x)
  }

  /** The operator is exact: flagged when an operand is or something does not fit, otherwise the true result. */
  lemma OperatorIsExact(builtins: bool, t: IntType, u: IntType, op: Op, a: Checked, b: Checked)
    requires InRange(t, a.value) && InRange(u, b.value)
    ensures var c, r := CommonType(t, u), Operator(builtins, t, u, op, a, b);
            && InRange(c, r.value)
            && (r.overflow <==> a.overflow || b.overflow || !HasResult(c, op, a.value, b.value)
                                || (!(InRange(c, a.value) && InRange(c, b.value)) && !(builtins && op != Div)))
            && (!r.overflow ==> IsResult(op, a.value, b.value, r.value))
  {
    var c := CommonType(t, u);
    HasResultMeans(c, op, a.value, b.value);
    if builtins && op != Div {
      CastKeepsRange(c, Exactly(op, a.value, b.value).value);
    } else {
      ConvertIsExact(c, t, a.value);
      ConvertIsExact(c, u, b.value);
      CastKeepsRange(c, a.value);
      CastKeepsRange(c, b.value);
      var a', b' := ConvertChecked(c, t, a), ConvertChecked(c, u, b);
      OperationIsExact(c, op, if t == u then a else a', if t == u then b else b');
    }
  }

  /** A variable of type `CheckedInt<T>` that `+=`, `-=`, `*=` and `/=` update in place. */
  class CheckedVariable {
    const ty: IntType
    /** Whether the compiler has overflow builtins. */
    const builtins: bool
    var value: int
    var overflow: bool

    ghost predicate Valid()
      reads this
    {
      InRange(ty, value)
    }

    constructor (ty: IntType, builtins: bool, from: IntType, val: int)
      requires InRange(from, val)
      ensures Valid() && this.ty == ty && this.builtins == builtins
      ensures overflow <==> !InRange(ty, val)
      ensures !overflow ==> value == val
      ensures SameBits(ty.width, value, val)
    {
      this.ty, this.builtins := ty, builtins;
      value, overflow := Convert(ty, from, val).value, Convert(ty, from, val).overflow;
      ConvertIsExact(ty, from, val);
      CastKeepsRange(ty, val);
    }

    /** `*this = *this OP b`: once raised the flag stays, and a clean value is the exact result. */
    method Assign(op: Op, u: IntType, b: Checked)
      requires Valid() && InRange(u, b.value)
      modifies this
      ensures Valid()
      ensures overflow <==> old(overflow) || b.overflow || !FitsAssign(builtins, op, ty, u, old(value), b.value)
      ensures !overflow ==> IsResult(op, old(value), b.value, value)
      ensures SameBits(ty.width, value, Operator(builtins, ty, u, op, old(Checked(value, overflow)), b).value)
    {
      var a, c := Checked(value, overflow), CommonType(ty, u);
      var r := Operator(builtins, ty, u, op, a, b);
      OperatorIsExact(builtins, ty, u, op, a, b);
      OneResult(op, a.value, b.value);
      var narrowed := ConvertChecked(ty, c, r);
      ConvertIsExact(ty, c, r.value);
      CastKeepsRange(ty, r.value);
      value, overflow := narrowed.value, narrowed.overflow;
    }
  }
}
