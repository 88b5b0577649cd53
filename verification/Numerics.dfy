/**
 Decimal codecs of libpgduckdb/pgddb_types.cpp.

 DuckDB stores a DECIMAL(width, scale) as one scaled machine integer; PostgreSQL stores a numeric
 as a sign, a weight, a display scale and an array of base-10000 digits.  `ConvertNumeric` goes
 from the first form to the second, `MakeResult` strips the digits the way PostgreSQL stores them,
 and `ConvertDecimal` comes back.  Every arithmetic step of the two conversions is checked against
 the machine type it is done in: a method answers `None` when a step leaves that type.
 */
module Numerics {
  import opened Basics

  const NBASE := 10000
  const DEC_DIGITS := 4

  /** The physical types of DuckDB decimals. */
  datatype MachineInt = Int16 | Int32 | Int64 | Int128 {

    function Max(): int {
      match this
      case Int16 => 0x7fff
      case Int32 => 0x7fff_ffff
      case Int64 => 0x7fff_ffff_ffff_ffff
      case Int128 => 0x7fff_ffff_ffff_ffff_ffff_ffff_ffff_ffff
    }

    predicate Fits(x: int) {
      -Max() - 1 <= x <= Max()
    }

    /** The largest DECIMAL width that is stored in this type. */
    function Width(): nat {
      match this
      case Int16 => 4
      case Int32 => 9
      case Int64 => 18
      case Int128 => 38
    }

    /** The number of entries in the table of powers of ten that the type uses. */
    function PowerTableSize(): nat {
      if this == Int128 then 39 else 19
    }

    function Bytes(): nat {
      match this
      case Int16 => 2
      case Int32 => 4
      case Int64 => 8
      case Int128 => 16
    }
  }

  datatype NumericVar = NumericVar(digits: seq<nat>, weight: int, neg: bool, dscale: nat)

  // ---------- powers of ten ----------

  function Pow10(n: nat): (p: nat)
    ensures p >= 1
  {
    if n == 0 then 1 else 10 * Pow10(n - 1)
  }

  lemma {:induction false} Pow10Add(a: nat, b: nat)
    ensures Pow10(a + b) == Pow10(a) * Pow10(b)
  {
    if a == 0 {
    } else {
      Pow10Add(a - 1, b);
      MulAssoc(10, Pow10(a - 1), Pow10(b));
    }
  }

  lemma {:induction false} Pow10Monotone(a: nat, b: nat)
    requires a <= b
    ensures Pow10(a) <= Pow10(b)
  {
    Pow10Add(a, b - a);
    MulAtLeast(Pow10(a), Pow10(b - a));
  }

  lemma Pow10Step(n: nat)
    ensures Pow10(n + 4) == NBASE * Pow10(n)
  {
    assert Pow10(n + 4) == 10 * Pow10(n + 3);
    assert Pow10(n + 3) == 10 * Pow10(n + 2);
    assert Pow10(n + 2) == 10 * Pow10(n + 1);
  }

  lemma PowerTable()
    ensures Pow10(4) == NBASE && Pow10(5) == 10_0000 && Pow10(7) == 1000_0000
    ensures Pow10(9) == 10_0000_0000 && Pow10(11) == 1000_0000_0000
    ensures Pow10(18) == 100_0000_0000_0000_0000
    ensures Pow10(19) == 1000_0000_0000_0000_0000
    ensures Pow10(38) == 1000_0000_0000_0000_0000 * 1000_0000_0000_0000_0000
    ensures Pow10(39) == 10 * Pow10(38)
  {
    assert Pow10(4) == NBASE;
    assert Pow10(5) == 10 * NBASE;
    Pow10Add(4, 5);
    Pow10Add(5, 2);
    Pow10Add(9, 2);
    Pow10Add(9, 9);
    Pow10Add(18, 1);
    Pow10Add(19, 19);
  }

  lemma WidthFits(t: MachineInt)
    ensures Pow10(t.Width()) <= t.Max()
    ensures t.Width() < t.PowerTableSize()
  {
    PowerTable();
  }

  // ---------- arithmetic that the solver is asked for one step at a time ----------

  lemma MulAtLeast(a: nat, b: nat)
    requires b >= 1
    ensures a <= a * b
  {
  }

  lemma MulMonotone(a: nat, b: nat, c: nat)
    requires a <= b
    ensures a * c <= b * c
  {
  }

  lemma MulCancel(a: int, b: int, c: nat)
    requires c > 0 && a * c == b * c
    ensures a == b
  {
    assert (a - b) * c == a * c - b * c;
    assert (b - a) * c == b * c - a * c;
    if a < b {
      MulMonotone(1, b - a, c);
    } else if b < a {
      MulMonotone(1, a - b, c);
    }
  }

  lemma DivExact(q: int, c: nat)
    requires c > 0
    ensures (q * c) / c == q
  {
    var n := q * c;
    var d, m := n / c, n % c;
    assert n == d * c + m;
    assert (q - d) * c == q * c - d * c == m;
    assert (d - q) * c == -m;
    if q - d >= 1 {
      MulMonotone(1, q - d, c);
    } else if q - d <= -1 {
      MulMonotone(1, d - q, c);
    }
  }

  lemma DivNonNegative(a: nat, c: nat)
    requires c > 0
    ensures a / c >= 0
  {
  }

  lemma DivSmall(a: nat, c: nat)
    requires a < c
    ensures a / c == 0
  {
  }

  // ---------- the meaning of digits ----------

  /** The number whose base-10000 digits, most significant first, are `digits`. */
  function Eval(digits: seq<nat>): nat {
    if digits == [] then 0 else Eval(digits[..|digits| - 1]) * NBASE + digits[|digits| - 1]
  }

  predicate WellFormed(num: NumericVar) {
    forall i :: 0 <= i < |num.digits| ==> num.digits[i] < NBASE
  }

  function Abs(x: int): nat {
    if x < 0 then -x else x
  }

  /** How many of the digits lie behind the decimal point; negative when integral zeros are suppressed. */
  function FractionCount(num: NumericVar): int {
    |num.digits| - num.weight - 1
  }

  /** `v` is the value of `num` times 10 to the `dscale`: the scaled integer of the same decimal. */
  predicate Represents(num: NumericVar, v: int) {
    && (v > 0 ==> !num.neg)
    && (v < 0 ==> num.neg)
    && var fd := FractionCount(num);
       if fd >= 0 then
         Abs(v) * Pow10(4 * fd) == Eval(num.digits) * Pow10(num.dscale)
       else
         Abs(v) == Eval(num.digits) * Pow10(4 * -fd) * Pow10(num.dscale)
  }

  /** The stored form: no leading and no trailing zero digit. */
  predicate Stripped(num: NumericVar) {
    num.digits != [] ==> num.digits[0] != 0 && num.digits[|num.digits| - 1] != 0
  }

  lemma {:induction false} EvalConcat(a: seq<nat>, b: seq<nat>)
    ensures Eval(a + b) == Eval(a) * Pow10(4 * |b|) + Eval(b)
  {
    if b == [] {
      assert a + b == a;
    } else {
      var b' := b[..|b| - 1];
      EvalConcat(a, b');
      assert (a + b)[..|a + b| - 1] == a + b';
      Pow10Step(4 * |b'|);
      MulAssoc(Eval(a), Pow10(4 * |b'|), NBASE);
    }
  }

  lemma {:induction false} EvalBound(s: seq<nat>)
    requires forall i :: 0 <= i < |s| ==> s[i] < NBASE
    ensures Eval(s) < Pow10(4 * |s|)
  {
    if s != [] {
      EvalBound(s[..|s| - 1]);
      Pow10Step(4 * (|s| - 1));
    }
  }

  lemma {:induction false} EvalZero(s: seq<nat>)
    ensures Eval(s) == 0 <==> forall i :: 0 <= i < |s| ==> s[i] == 0
  {
    if s != [] {
      EvalZero(s[..|s| - 1]);
      assert forall i :: 0 <= i < |s| - 1 ==> s[i] == s[..|s| - 1][i];
    }
  }

  /** A number represents at most one scaled integer. */
  lemma RepresentsUnique(num: NumericVar, v: int, w: int)
    requires Represents(num, v) && Represents(num, w)
    ensures v == w
  {
    var fd := FractionCount(num);
    if fd >= 0 {
      MulCancel(Abs(v), Abs(w), Pow10(4 * fd));
    }
  }

  // ---------- PostgreSQL to DuckDB: ConvertDecimal ----------

  /** The digits before the decimal point, with suppressed trailing zeros put back, as one number. */
  function IntegerDigits(digits: seq<nat>, count: nat): nat {
    if count <= |digits| then Eval(digits[..count]) else Eval(digits) * Pow10(4 * (count - |digits|))
  }

  /** Decimal places by which the last digit overshoots (positive) or undershoots the display scale. */
  function Correction(num: NumericVar): int {
    4 * FractionCount(num) - num.dscale
  }

  /** 10 to the number of decimal places that the last digit of the fraction contributes. */
  function FinalBase(correction: int): int {
    if correction >= 0 then NBASE / Pow10(correction) else NBASE * Pow10(-correction)
  }

  function FinalDigit(last: nat, correction: int): int {
    if correction >= 0 then last / Pow10(correction) else last * Pow10(-correction)
  }

  /** The fraction as the conversion computes it: the last digit is scaled by the correction. */
  function ScaledFraction(fraction: seq<nat>, correction: int): int
    requires fraction != []
  {
    Eval(fraction[..|fraction| - 1]) * FinalBase(correction) + FinalDigit(fraction[|fraction| - 1], correction)
  }

  function IntegralPart(num: NumericVar): int {
    if num.weight >= 0 then IntegerDigits(num.digits, num.weight + 1) else 0
  }

  function FractionDigits(num: NumericVar): seq<nat>
    requires num.digits != [] && FractionCount(num) > 0
    ensures FractionDigits(num) != []
  {
    num.digits[if num.weight + 1 < 0 then 0 else num.weight + 1..]
  }

  function Magnitude(num: NumericVar): int
    requires num.digits != []
  {
    IntegralPart(num) * Pow10(num.dscale) +
    if FractionCount(num) > 0 then ScaledFraction(FractionDigits(num), Correction(num)) else 0
  }

  /** What the conversion computes when no step leaves the machine type. */
  function DecimalValue(num: NumericVar): int {
    if num.digits == [] then 0
    else if num.neg then -Magnitude(num) else Magnitude(num)
  }

  /** The digits before and behind the point make up the number. */
  lemma SplitAtPoint(num: NumericVar)
    requires num.digits != [] && FractionCount(num) > 0
    ensures Eval(num.digits) == IntegralPart(num) * Pow10(4 * FractionCount(num)) + Eval(FractionDigits(num))
  {
    if num.weight >= 0 {
      var k := num.weight + 1;
      EvalConcat(num.digits[..k], num.digits[k..]);
      assert num.digits == num.digits[..k] + num.digits[k..];
    } else {
      assert num.digits[0..] == num.digits;
    }
  }

  /** `f` is the fraction `n`, scaled down by `correction` decimal places, without loss. */
  predicate ScaledBy(n: nat, correction: int, f: int) {
    if correction >= 0 then n == f * Pow10(correction) else f == n * Pow10(-correction)
  }

  /** The part of `v` behind the decimal point is the fraction scaled by the correction. */
  lemma FractionOfValue(num: NumericVar, v: int)
    requires num.digits != [] && FractionCount(num) > 0 && Represents(num, v)
    ensures ScaledBy(Eval(FractionDigits(num)), Correction(num), Abs(v) - IntegralPart(num) * Pow10(num.dscale))
  {
    var scale, p, n := Pow10(num.dscale), Pow10(4 * FractionCount(num)), Eval(FractionDigits(num));
    var integral := IntegralPart(num);
    var f := Abs(v) - integral * scale;
    SplitAtPoint(num);
    MoveIntegral(Abs(v), integral, n, scale, p);
    CancelPowers(f, n, num.dscale, 4 * FractionCount(num));
  }

  lemma MoveIntegral(a: int, integral: int, n: int, scale: int, p: int)
    requires a * p == (integral * p + n) * scale
    ensures (a - integral * scale) * p == n * scale
  {
    assert (a - integral * scale) * p == a * p - integral * scale * p;
    assert (integral * p + n) * scale == integral * p * scale + n * scale;
    MulAssoc(integral, scale, p);
    MulAssoc(integral, p, scale);
    assert scale * p == p * scale;
  }

  lemma {:induction false} CancelPowers(f: int, n: nat, a: nat, b: nat)
    requires f * Pow10(b) == n * Pow10(a)
    ensures ScaledBy(n, b - a, f)
  {
    var pa, pb := Pow10(a), Pow10(b);
    if b >= a {
      var gap := Pow10Gap(a, b);
      CancelRight(f, gap, n, pa, pb);
    } else {
      var gap := Pow10Gap(b, a);
      CancelRight(n, gap, f, pb, pa);
    }
  }

  lemma Pow10Gap(a: nat, b: nat) returns (gap: nat)
    requires a <= b
    ensures gap == Pow10(b - a) && Pow10(b) == gap * Pow10(a)
  {
    Pow10Add(b - a, a);
    gap := Pow10(b - a);
  }

  lemma CancelRight(x: int, y: int, z: int, c: nat, yc: int)
    requires c > 0 && yc == y * c && x * yc == z * c
    ensures x * y == z
  {
    MulAssoc(x, y, c);
    MulCancel(x * y, z, c);
  }

  /** The scaled fraction is exact when the correction stays within one base-10000 digit ... */
  lemma {:induction false} ScaledFractionExact(fraction: seq<nat>, correction: int, f: int)
    requires fraction != [] && correction <= 4
    requires ScaledBy(Eval(fraction), correction, f)
    ensures ScaledFraction(fraction, correction) == f
  {
    var last := fraction[|fraction| - 1];
    var front := Eval(fraction[..|fraction| - 1]);
    if correction >= 0 {
      var c := Pow10(correction);
      var q := Pow10(4 - correction);
      Pow10Add(4 - correction, correction);
      assert Pow10(4) == NBASE;
      DivExact(q, c);
      MulAssoc(front, q, c);
      assert last == f * c - front * q * c == (f - front * q) * c;
      DivExact(f - front * q, c);
    } else {
      MulAssoc(front, NBASE, Pow10(-correction));
    }
  }

  /** ... and lost altogether when it does not. */
  lemma ScaledFractionLost(fraction: seq<nat>, correction: int)
    requires fraction != [] && correction > 4 && fraction[|fraction| - 1] < NBASE
    ensures ScaledFraction(fraction, correction) == 0
  {
    Pow10Monotone(5, correction);
    assert Pow10(5) == 100000;
    DivSmall(NBASE, Pow10(correction));
    DivSmall(fraction[|fraction| - 1], Pow10(correction));
  }

  /** Every digit behind the decimal point is zero. */
  predicate FractionIsZero(num: NumericVar) {
    forall i :: 0 <= i < |num.digits| && num.weight < i ==> num.digits[i] == 0
  }

  lemma FractionIsZeroEval(num: NumericVar)
    requires num.digits != [] && FractionCount(num) > 0
    ensures FractionIsZero(num) <==> Eval(FractionDigits(num)) == 0
  {
    var fraction := FractionDigits(num);
    var start := |num.digits| - |fraction|;
    EvalZero(fraction);
    assert forall j :: 0 <= j < |fraction| ==> fraction[j] == num.digits[start + j];
    assert forall i :: start <= i < |num.digits| ==> num.digits[i] == fraction[i - start];
  }

  lemma NonZeroScaled(n: nat, correction: nat, f: int)
    requires ScaledBy(n, correction, f)
    ensures f == 0 <==> n == 0
  {
    if n == 0 { MulCancel(f, 0, Pow10(correction)); }
  }

  /**
   For a number that is exact at its display scale the conversion returns the scaled integer if and
   only if the last digit overshoots the display scale by at most one digit, or the fraction is zero.
   */
  lemma DecimalExactIff(num: NumericVar, v: int)
    requires WellFormed(num) && Represents(num, v)
    ensures DecimalValue(num) == v <==> num.digits == [] || Correction(num) <= 4 || FractionIsZero(num)
  {
    if num.digits == [] {
      ZeroValue(num, v);
    } else if FractionCount(num) <= 0 {
      if FractionCount(num) == 0 {
        assert num.digits[..num.weight + 1] == num.digits;
      }
    } else {
      var fraction := FractionDigits(num);
      var f := Abs(v) - IntegralPart(num) * Pow10(num.dscale);
      FractionOfValue(num, v);
      FractionIsZeroEval(num);
      if Correction(num) <= 4 {
        ScaledFractionExact(fraction, Correction(num), f);
      } else {
        ScaledFractionLost(fraction, Correction(num));
        NonZeroScaled(Eval(fraction), Correction(num), f);
      }
    }
  }

  lemma ZeroValue(num: NumericVar, v: int)
    requires Represents(num, v) && Eval(num.digits) == 0
    ensures v == 0
  {
    if FractionCount(num) >= 0 {
      MulCancel(Abs(v), 0, Pow10(4 * FractionCount(num)));
    }
  }

  /** A stored number that is exact at its display scale always converts exactly. */
  lemma StrippedExact(num: NumericVar, v: int)
    requires WellFormed(num) && Stripped(num) && Represents(num, v)
    ensures DecimalValue(num) == v
    ensures num.digits != [] ==> Correction(num) <= 3
  {
    if num.digits != [] && Correction(num) > 3 {
      FractionOfValue(num, v);
      MultipleLastDigit(FractionDigits(num), Correction(num), Abs(v) - IntegralPart(num) * Pow10(num.dscale));
    }
    DecimalExactIff(num, v);
  }

  lemma {:induction false} MultipleLastDigit(digits: seq<nat>, correction: nat, f: int)
    requires digits != [] && digits[|digits| - 1] < NBASE
    requires correction >= 4 && ScaledBy(Eval(digits), correction, f)
    ensures digits[|digits| - 1] == 0
  {
    Pow10Step(correction - 4);
    LastDigitZero(f, Pow10(correction - 4), Pow10(correction), Eval(digits[..|digits| - 1]), digits[|digits| - 1]);
  }

  lemma LastDigitZero(f: int, rest: int, power: int, front: nat, last: nat)
    requires power == NBASE * rest && last < NBASE && front * NBASE + last == f * power
    ensures last == 0
  {
    assert f * power == NBASE * (f * rest);
    assert last == NBASE * (f * rest - front);
  }

  /** A trailing zero digit that was not stripped loses the fraction: here of 1.5. */
  lemma UnstrippedLosesFraction()
    ensures var num := NumericVar([1, 5000, 0], 0, false, 1);
            WellFormed(num) && Represents(num, 15) && DecimalValue(num) == 10
  {
    var num := NumericVar([1, 5000, 0], 0, false, 1);
    assert num.digits[..2] == [1, 5000] && num.digits[..1] == [1];
    assert Eval([1]) == 1 by { assert [1][..0] == []; }
    assert [1, 5000][..1] == [1];
    assert Eval([1, 5000]) == 15000;
    assert Eval(num.digits) == 1_5000_0000;
    assert Pow10(8) == 1_0000_0000;
    assert Represents(num, 15);
    DecimalExactIff(num, 15);
    ScaledFractionLost(FractionDigits(num), 7);
  }

  lemma IntegerDigitsStep(digits: seq<nat>, i: nat)
    ensures IntegerDigits(digits, i + 1) == IntegerDigits(digits, i) * NBASE + if i < |digits| then digits[i] else 0
  {
    if i < |digits| {
      assert digits[..i + 1][..i] == digits[..i];
    } else {
      Pow10Step(4 * (i - |digits|));
      MulAssoc(Eval(digits), Pow10(4 * (i - |digits|)), NBASE);
      assert i == |digits| ==> digits[..i] == digits;
    }
  }

  lemma FirstDigit(digits: seq<nat>)
    requires digits != []
    ensures IntegerDigits(digits, 1) == digits[0]
  {
    IntegerDigitsStep(digits, 0);
    assert digits[..0] == [];
  }

  lemma {:induction false} IntegerDigitsMonotone(digits: seq<nat>, i: nat, j: nat)
    requires i <= j
    ensures IntegerDigits(digits, i) <= IntegerDigits(digits, j)
    decreases j - i
  {
    if i < j {
      IntegerDigitsStep(digits, i);
      IntegerDigitsMonotone(digits, i + 1, j);
    }
  }

  lemma {:induction false} EvalPrefixMonotone(s: seq<nat>, k: nat)
    requires k <= |s|
    ensures Eval(s[..k]) <= Eval(s)
  {
    if k == |s| {
      assert s[..k] == s;
    } else {
      EvalPrefixMonotone(s[..|s| - 1], k);
      assert s[..|s| - 1][..k] == s[..k];
    }
  }

  /** The conditions under which a conversion is promised to stay inside the machine type. */
  predicate DecimalInRange(t: MachineInt, num: NumericVar) {
    && num.dscale <= t.Width()
    && (num.digits == [] || Correction(num) <= 4)
    && Abs(DecimalValue(num)) < Pow10(t.Width())
  }

  lemma {:induction false} FinalBounds(last: nat, correction: int)
    ensures FinalBase(correction) >= 0 && FinalDigit(last, correction) >= 0
    ensures correction <= 4 ==> FinalBase(correction) >= 1
    ensures correction < 0 ==> FinalBase(correction) == Pow10(4 - correction)
  {
    if correction >= 0 {
      DivNonNegative(last, Pow10(correction));
      DivNonNegative(NBASE, Pow10(correction));
      if correction <= 4 {
        Pow10Add(4 - correction, correction);
        assert Pow10(4) == NBASE;
        DivExact(Pow10(4 - correction), Pow10(correction));
      }
    } else {
      Pow10Step(-correction);
      MulMonotone(0, Pow10(-correction), last);
    }
  }

  lemma ScaledFractionBounds(fraction: seq<nat>, correction: int)
    requires fraction != []
    ensures ScaledFraction(fraction, correction) >= 0
    ensures correction <= 4 ==> Eval(fraction[..|fraction| - 1]) <= ScaledFraction(fraction, correction)
  {
    FinalBounds(fraction[|fraction| - 1], correction);
    var front := Eval(fraction[..|fraction| - 1]);
    MulMonotone(0, FinalBase(correction), front);
    if correction <= 4 {
      MulAtLeast(front, FinalBase(correction));
    }
  }

  /** Both parts of a number in range are below the bound of the machine type. */
  lemma PartsInRange(t: MachineInt, num: NumericVar)
    requires num.digits != [] && DecimalInRange(t, num)
    ensures Magnitude(num) < Pow10(t.Width()) <= t.Max()
    ensures 0 <= IntegralPart(num) <= IntegralPart(num) * Pow10(num.dscale) <= Magnitude(num)
    ensures FractionCount(num) > 0 ==> 0 <= ScaledFraction(FractionDigits(num), Correction(num)) <= Magnitude(num)
  {
    WidthFits(t);
    MulAtLeast(IntegralPart(num), Pow10(num.dscale));
    if FractionCount(num) > 0 {
      ScaledFractionBounds(FractionDigits(num), Correction(num));
    }
  }

  /** The power that scales the last digit is in the table and fits, and so does what it scales up. */
  predicate ScaleStaysInside(t: MachineInt, last: nat, correction: int) {
    var places := if correction >= 0 then correction else -correction;
    && places < t.PowerTableSize() && Pow10(places) <= t.Max()
    && (correction < 0 ==> FinalBase(correction) <= t.Max() && FinalDigit(last, correction) <= t.Max())
  }

  predicate FractionStaysInside(t: MachineInt, fraction: seq<nat>, correction: int)
    requires fraction != []
  {
    && ScaleStaysInside(t, fraction[|fraction| - 1], correction)
    && Eval(fraction[..|fraction| - 1]) <= t.Max() && ScaledFraction(fraction, correction) <= t.Max()
  }

  /** No intermediate value of the conversion leaves the machine type and no power is missing from its table. */
  predicate StaysInside(t: MachineInt, num: NumericVar) {
    num.dscale < t.PowerTableSize() &&
    (num.digits != [] ==>
       && IntegralPart(num) * Pow10(num.dscale) <= t.Max()
       && (FractionCount(num) > 0 ==> FractionStaysInside(t, FractionDigits(num), Correction(num)))
       && Magnitude(num) <= t.Max())
  }

  /** The conversion of a number in range never leaves the machine type. */
  lemma {:induction false} InRangeStaysInside(t: MachineInt, num: NumericVar)
    requires WellFormed(num) && DecimalInRange(t, num)
    ensures StaysInside(t, num)
  {
    WidthFits(t);
    if num.digits != [] {
      PartsInRange(t, num);
      if FractionCount(num) > 0 { FractionInRange(t, FractionDigits(num), Correction(num), num.dscale); }
    }
  }

  lemma {:induction false} FractionInRange(t: MachineInt, fraction: seq<nat>, correction: int, dscale: nat)
    requires fraction != [] && fraction[|fraction| - 1] < NBASE
    requires dscale <= t.Width() && correction <= 4 && (correction < 0 ==> -correction <= dscale - 4)
    requires ScaledFraction(fraction, correction) < Pow10(t.Width())
    ensures FractionStaysInside(t, fraction, correction)
  {
    WidthFits(t);
    var last := fraction[|fraction| - 1];
    var places := if correction >= 0 then correction else -correction;
    FinalBounds(last, correction);
    ScaledFractionBounds(fraction, correction);
    MulMonotone(0, FinalBase(correction), Eval(fraction[..|fraction| - 1]));
    PlacesFit(t, places, dscale);
    if correction < 0 {
      Pow10Monotone(places + 4, t.Width());
      Pow10Step(places);
      MulMonotone(last, NBASE, Pow10(places));
    }
  }

  /**
   Reads a base-10000 number as a scaled integer.  It succeeds exactly when no step leaves the machine
   type, as none does for a number in range, and the result is then the decimal value.
   */
  method ConvertDecimal(t: MachineInt, num: NumericVar) returns (r: Option<int>)
    requires WellFormed(num)
    ensures r.Some? <==> StaysInside(t, num)
    ensures r.Some? ==> r.value == DecimalValue(num)
    ensures DecimalInRange(t, num) ==> r.Some?
  {
    WidthFits(t);
    if DecimalInRange(t, num) { InRangeStaysInside(t, num); }
    if num.dscale >= t.PowerTableSize() {
      return None;
    }
    if |num.digits| == 0 {
      return Some(0);
    }
    ghost var whole := IntegralPart(num) * Pow10(num.dscale);
    MulMonotone(0, Pow10(num.dscale), IntegralPart(num));
    if FractionCount(num) > 0 { ScaledFractionBounds(FractionDigits(num), Correction(num)); }
    assert whole >= 0 && Magnitude(num) >= whole;
    var integral, fractional := Some(0), Some(0);
    if num.weight >= 0 {
      integral := ConvertIntegral(t, num);
    }
    if |num.digits| > num.weight + 1 {
      fractional := ConvertFraction(t, num);
    }
    if integral.None? || fractional.None? || !t.Fits(integral.value + fractional.value) {
      return None;
    }
    var result := integral.value + fractional.value;
    r := Some(if num.neg then -result else result);
  }

  /** The digits before the decimal point, times the power of ten of the display scale. */
  method ConvertIntegral(t: MachineInt, num: NumericVar) returns (r: Option<int>)
    requires num.digits != [] && num.weight >= 0
    ensures r.Some? ==> r.value == IntegralPart(num) * Pow10(num.dscale)
    ensures r.Some? <==> IntegralPart(num) * Pow10(num.dscale) <= t.Max()
  {
    hide Eval, Pow10, IntegerDigits, MachineInt.Max;
    ghost var goal := IntegralPart(num);
    MulAtLeast(goal, Pow10(num.dscale));
    FirstDigit(num.digits);
    var integral, i := num.digits[0], 1;
    while i <= num.weight
      invariant 1 <= i <= num.weight + 1
      invariant integral == IntegerDigits(num.digits, i)
    {
      IntegerDigitsStep(num.digits, i);
      IntegerDigitsMonotone(num.digits, i + 1, num.weight + 1);
      integral := integral * NBASE;
      if !t.Fits(integral) { return None; }
      if i < |num.digits| {
        integral := integral + num.digits[i];
        if !t.Fits(integral) { return None; }
      }
      i := i + 1;
    }
    integral := integral * Pow10(num.dscale);
    if !t.Fits(integral) { return None; }
    r := Some(integral);
  }

  /** The digits behind the decimal point, scaled to the display scale at the last one. */
  method ConvertFraction(t: MachineInt, num: NumericVar) returns (r: Option<int>)
    requires WellFormed(num) && num.digits != [] && FractionCount(num) > 0
    ensures r.Some? ==> r.value == ScaledFraction(FractionDigits(num), Correction(num))
    ensures r.Some? <==> FractionStaysInside(t, FractionDigits(num), Correction(num))
  {
    var n := |num.digits|;
    var correction := (n - num.weight - 1) * DEC_DIGITS - num.dscale;
    var start := if num.weight + 1 < 0 then 0 else num.weight + 1;
    ghost var fraction := FractionDigits(num);
    ScaledFractionBounds(fraction, correction);
    WidthFits(t);
    assert num.digits[start..n - 1] == fraction[..|fraction| - 1];
    var front := AccumulateDigits(t, num.digits, start, n - 1);
    if front.None? {
      return None;
    }
    r := CompensateLastDigit(t, fraction, front.value, num.digits[n - 1], correction);
  }

  /** The rounds of the fraction loop before the last one. */
  method AccumulateDigits(t: MachineInt, digits: seq<nat>, start: nat, end: nat) returns (r: Option<int>)
    requires start <= end <= |digits|
    ensures r.Some? ==> r.value == Eval(digits[start..end])
    ensures r.Some? <==> Eval(digits[start..end]) <= t.Max()
  {
    var fractional := 0;
    ghost var s := digits[start..end];
    for i := start to end
      invariant fractional == Eval(s[..i - start]) <= t.Max()
    {
      EvalPrefixStep(s, i - start);
      EvalPrefixMonotone(s, i - start + 1);
      fractional := fractional * NBASE;
      if !t.Fits(fractional) { return None; }
      fractional := fractional + digits[i];
      if !t.Fits(fractional) { return None; }
    }
    assert s[..end - start] == s;
    r := Some(fractional);
  }

  lemma EvalPrefixStep(s: seq<nat>, k: nat)
    requires k < |s|
    ensures Eval(s[..k + 1]) == Eval(s[..k]) * NBASE + s[k]
  {
    assert s[..k + 1][..k] == s[..k];
  }

  /** The base and the last digit, scaled by the correction. */
  method ScaleLastDigit(t: MachineInt, digit: nat, correction: int) returns (r: Option<(int, int)>)
    requires digit < NBASE
    ensures r.Some? ==> r.value == (FinalBase(correction), FinalDigit(digit, correction))
    ensures r.Some? <==> ScaleStaysInside(t, digit, correction)
  {
    hide MachineInt.Max, MachineInt.PowerTableSize;
    WidthFits(t);
    FinalBounds(digit, correction);
    var places := if correction >= 0 then correction else -correction;
    if places >= t.PowerTableSize() || !t.Fits(Pow10(places)) {
      return None;
    }
    var compensation := Pow10(places);
    var base, last := NBASE, digit;
    if correction >= 0 {
      base := base / compensation;
      last := last / compensation;
    } else {
      base := base * compensation;
      last := last * compensation;
      if !t.Fits(base) || !t.Fits(last) { return None; }
    }
    r := Some((base, last));
  }

  /** The last round of the fraction loop. */
  method CompensateLastDigit(t: MachineInt, ghost fraction: seq<nat>, fractional: int, digit: nat, correction: int)
    returns (r: Option<int>)
    requires fraction != [] && digit == fraction[|fraction| - 1] < NBASE
    requires fractional == Eval(fraction[..|fraction| - 1]) <= t.Max()
    ensures r.Some? ==> r.value == ScaledFraction(fraction, correction)
    ensures r.Some? <==> FractionStaysInside(t, fraction, correction)
  {
    hide Eval, MachineInt.Max, ScaleStaysInside, FinalBase, FinalDigit;
    WidthFits(t);
    FinalBounds(digit, correction);
    MulMonotone(0, FinalBase(correction), fractional);
    var scaled := ScaleLastDigit(t, digit, correction);
    if scaled.None? {
      return None;
    }
    var product := fractional * scaled.value.0;
    if !t.Fits(product) || !t.Fits(product + scaled.value.1) { return None; }
    r := Some(product + scaled.value.1);
  }

  lemma {:induction false} PlacesFit(t: MachineInt, places: nat, dscale: nat)
    requires dscale <= t.Width() && (places <= 4 || places <= dscale - 4)
    ensures places < t.PowerTableSize() && t.Fits(Pow10(places))
  {
    WidthFits(t);
    Pow10Monotone(places, t.Width());
  }

  // ---------- DuckDB to PostgreSQL: ConvertNumeric ----------

  /** The base-10000 digits of `n`, most significant first, none for zero. */
  function DigitsOf(n: nat): (digits: seq<nat>)
    ensures forall i :: 0 <= i < |digits| ==> digits[i] < NBASE
  {
    if n == 0 then [] else DigitsOf(n / NBASE) + [n % NBASE]
  }

  /** The last `count` base-10000 digits of `n`, zeros included. */
  function FixedDigits(n: nat, count: nat): (digits: seq<nat>)
    ensures |digits| == count
    ensures forall i :: 0 <= i < |digits| ==> digits[i] < NBASE
  {
    if count == 0 then [] else FixedDigits(n / NBASE, count - 1) + [n % NBASE]
  }

  lemma {:induction false} DigitsOfEval(n: nat)
    ensures Eval(DigitsOf(n)) == n
  {
    if n != 0 {
      DigitsOfEval(n / NBASE);
      var d := DigitsOf(n);
      assert d[..|d| - 1] == DigitsOf(n / NBASE);
    }
  }

  lemma {:induction false} FixedDigitsEval(n: nat, count: nat)
    requires n < Pow10(4 * count)
    ensures Eval(FixedDigits(n, count)) == n
  {
    if count != 0 {
      Pow10Step(4 * (count - 1));
      FixedDigitsEval(n / NBASE, count - 1);
      var d := FixedDigits(n, count);
      assert d[..|d| - 1] == FixedDigits(n / NBASE, count - 1);
    }
  }

  function FractionalNDigits(scale: nat): nat {
    (scale + DEC_DIGITS - 1) / DEC_DIGITS
  }

  /** The fraction of `v`, left-aligned to whole base-10000 digits. */
  function AlignedFraction(v: int, scale: nat): int {
    (Abs(v) % Pow10(scale)) * Pow10(4 * FractionalNDigits(scale) - scale)
  }

  function NumericOf(v: int, scale: nat): NumericVar {
    var integral := DigitsOf(Quotient(Abs(v), Pow10(scale)));
    NumericVar(integral + FixedDigits(Max0(AlignedFraction(v, scale)), FractionalNDigits(scale)),
               |integral| - 1, v < 0, scale)
  }

  function Max0(x: int): nat {
    if x < 0 then 0 else x
  }

  function Quotient(a: nat, c: nat): nat
    requires c > 0
  {
    DivNonNegative(a, c);
    a / c
  }

  lemma AlignedFractionBound(v: int, scale: nat)
    ensures 0 <= AlignedFraction(v, scale) < Pow10(4 * FractionalNDigits(scale))
  {
    var gap := 4 * FractionalNDigits(scale) - scale;
    var m := Abs(v) % Pow10(scale);
    Pow10Add(scale, gap);
    MulMonotone(0, m, Pow10(gap));
    MulMonotone(m + 1, Pow10(scale), Pow10(gap));
    assert (m + 1) * Pow10(gap) == m * Pow10(gap) + Pow10(gap);
  }

  lemma {:induction false} NumericOfEval(v: int, scale: nat)
    ensures WellFormed(NumericOf(v, scale))
    ensures FractionCount(NumericOf(v, scale)) == FractionalNDigits(scale)
    ensures Eval(NumericOf(v, scale).digits)
         == Quotient(Abs(v), Pow10(scale)) * Pow10(4 * FractionalNDigits(scale)) + AlignedFraction(v, scale)
  {
    var q := Quotient(Abs(v), Pow10(scale));
    var f := AlignedFraction(v, scale);
    AlignedFractionBound(v, scale);
    DigitsOfEval(q);
    FixedDigitsEval(f, FractionalNDigits(scale));
    EvalConcat(DigitsOf(q), FixedDigits(f, FractionalNDigits(scale)));
  }

  lemma QuotientRemainder(a: nat, c: nat)
    requires c > 0
    ensures a == Quotient(a, c) * c + a % c
  {
  }

  /** The digits that are produced stand for the value that was given. */
  lemma NumericOfRepresents(v: int, scale: nat)
    ensures WellFormed(NumericOf(v, scale)) && Represents(NumericOf(v, scale), v)
    ensures NumericOf(v, scale).neg <==> v < 0
    ensures Correction(NumericOf(v, scale)) <= 3
  {
    var fd := FractionalNDigits(scale);
    var gap := 4 * fd - scale;
    NumericOfEval(v, scale);
    QuotientRemainder(Abs(v), Pow10(scale));
    Pow10Add(gap, scale);
    Reassemble(Quotient(Abs(v), Pow10(scale)), Abs(v) % Pow10(scale), Pow10(scale), Pow10(gap), Pow10(4 * fd));
  }

  lemma Reassemble(q: int, m: int, s: int, g: int, p: int)
    requires g * s == p
    ensures (q * s + m) * p == (q * p + m * g) * s
  {
    assert (q * s + m) * p == q * s * p + m * p;
    assert (q * p + m * g) * s == q * p * s + m * g * s;
    MulAssoc(m, g, s);
    MulAssoc(q, s, p);
    MulAssoc(q, p, s);
  }

  /** Over the mathematical integers the round trip is the identity, for every value and scale. */
  lemma RoundTrip(v: int, scale: nat)
    ensures DecimalValue(NumericOf(v, scale)) == v
  {
    NumericOfRepresents(v, scale);
    DecimalExactIff(NumericOf(v, scale), v);
  }

  /** The one value-dependent step: aligning the fraction must not leave the machine type. */
  predicate AlignmentFits(t: MachineInt, v: int, scale: nat) {
    AlignedFraction(v, scale) <= t.Max()
  }

  lemma MaxBelowPowers(t: MachineInt)
    ensures t.Max() + 1 < Pow10(4 * (4 * t.Bytes()))
  {
    PowerTable();
    if t == Int128 {
      Pow10Monotone(39, 256);
    } else {
      Pow10Monotone(19, 4 * (4 * t.Bytes()));
    }
  }

  /**
   Writes a scaled integer as base-10000 digits.  It succeeds exactly when negating the value and
   aligning its fraction stay inside the machine type.
   */
  method ConvertNumeric(t: MachineInt, v: int, scale: nat) returns (r: Option<NumericVar>)
    requires t.Fits(v) && scale <= t.Width()
    ensures r.Some? <==> -v <= t.Max() && AlignmentFits(t, v, scale)
    ensures r.Some? ==> r.value == NumericOf(v, scale)
  {
    WidthFits(t);
    MaxBelowPowers(t);
    var neg := v < 0;
    if neg && !t.Fits(-v) {
      return None;
    }
    var value: nat := if neg then -v else v;
    Pow10Monotone(scale, t.Width());
    var integerPart := Quotient(value, Pow10(scale));
    QuotientBound(value, Pow10(scale));
    AlignedFractionBound(v, scale);

    var fractionalCount := (scale + DEC_DIGITS - 1) / DEC_DIGITS;
    var fractionalPart := (value % Pow10(scale)) * Pow10(fractionalCount * DEC_DIGITS - scale);
    if !t.Fits(fractionalPart) {
      return None;
    }
    assert fractionalPart == AlignedFraction(v, scale);
    var digits, integralCount := EmitDigits(integerPart, fractionalPart, fractionalCount, 4 * t.Bytes());
    var weight := integralCount as int - 1;
    r := Some(NumericVar(digits[..], weight, neg, scale));
  }

  /** Splits both parts into fixed buffers and copies the digits out, most significant first. */
  method EmitDigits(integerPart: nat, fractionalPart: nat, fractionalCount: nat, capacity: nat)
    returns (digits: array<nat>, integralCount: nat)
    requires integerPart < Pow10(4 * capacity) && fractionalCount <= capacity
    ensures fresh(digits) && integralCount == |DigitsOf(integerPart)|
    ensures digits[..] == DigitsOf(integerPart) + FixedDigits(fractionalPart, fractionalCount)
  {
    hide Pow10;
    var integralDigits;
    integralDigits, integralCount := SplitDigits(integerPart, capacity);
    var fractionalDigits := SplitFixed(fractionalPart, fractionalCount, capacity);
    digits := new nat[integralCount + fractionalCount];
    CopyReversed(integralDigits, integralCount, digits, 0);
    CopyReversed(fractionalDigits, fractionalCount, digits, integralCount);
    assert digits[..] == DigitsOf(integerPart) + FixedDigits(fractionalPart, fractionalCount);
  }

  /** Copies `count` digits into `to`, from position `at` on, in reverse order. */
  method CopyReversed(from: array<nat>, count: nat, to: array<nat>, at: nat)
    requires count <= from.Length && at + count <= to.Length && from != to
    modifies to
    ensures forall k :: at <= k < at + count ==> to[k] == from[count - 1 - (k - at)]
    ensures forall k :: 0 <= k < to.Length && !(at <= k < at + count) ==> to[k] == old(to[k])
  {
    for i := 0 to count
      invariant forall k :: at <= k < at + i ==> to[k] == from[count - 1 - (k - at)]
      invariant forall k :: 0 <= k < to.Length && !(at <= k < at + i) ==> to[k] == old(to[k])
    {
      to[at + i] := from[count - 1 - i];
    }
  }

  lemma QuotientBound(a: nat, c: nat)
    requires c > 0
    ensures Quotient(a, c) <= a
  {
    MulAtLeast(Quotient(a, c), c);
  }

  /** Splits the integral part into digits, least significant first, in a buffer of fixed size. */
  method SplitDigits(n: nat, capacity: nat) returns (buffer: array<nat>, count: nat)
    requires n < Pow10(4 * capacity)
    ensures fresh(buffer) && count <= buffer.Length && count == |DigitsOf(n)|
    ensures forall k :: 0 <= k < count ==> DigitsOf(n)[k] == buffer[count - 1 - k]
  {
    buffer := new nat[capacity];
    count := 0;
    ghost var digits := [];
    var rest: nat := n;
    while rest > 0
      invariant count <= capacity && rest < Pow10(4 * (capacity - count))
      invariant |digits| == count && forall k :: 0 <= k < count ==> digits[k] == buffer[count - 1 - k]
      invariant DigitsOf(n) == DigitsOf(rest) + digits
    {
      if count < capacity { Pow10Step(4 * (capacity - count - 1)); }
      buffer[count] := rest % NBASE;
      digits := [rest % NBASE] + digits;
      rest := rest / NBASE;
      count := count + 1;
    }
  }

  /** Splits the aligned fraction into a given number of digits, least significant first. */
  method SplitFixed(n: nat, count: nat, capacity: nat) returns (buffer: array<nat>)
    requires count <= capacity
    ensures fresh(buffer) && buffer.Length == capacity
    ensures forall k :: 0 <= k < count ==> FixedDigits(n, count)[k] == buffer[count - 1 - k]
  {
    buffer := new nat[capacity];
    ghost var digits := [];
    var rest: nat := n;
    for i := 0 to count
      invariant |digits| == i && forall k :: 0 <= k < i ==> digits[k] == buffer[i - 1 - k]
      invariant FixedDigits(n, count) == FixedDigits(rest, count - i) + digits
    {
      buffer[i] := rest % NBASE;
      digits := [rest % NBASE] + digits;
      rest := rest / NBASE;
    }
  }

  // ---------- the stored form, and the whole way there and back ----------

  /** Strips leading and trailing zero digits, which keeps the value. */
  method MakeResult(num: NumericVar) returns (r: NumericVar)
    requires WellFormed(num)
    ensures WellFormed(r) && Stripped(r) && r.dscale == num.dscale
    ensures r.digits == [] ==> r.weight == 0 && !r.neg
    ensures forall v :: Represents(num, v) ==> Represents(r, v)
  {
    var digits: seq<nat>, weight: int := num.digits, num.weight;
    while |digits| > 0 && digits[0] == 0
      invariant forall i :: 0 <= i < |digits| ==> digits[i] < NBASE
      invariant forall v :: Represents(num, v) ==> Represents(num.(digits := digits, weight := weight), v)
      decreases |digits|
    {
      forall v | Represents(num, v) ensures Represents(num.(digits := digits[1..], weight := weight - 1), v) {
        DropLeadingZero(num.(digits := digits, weight := weight), v);
      }
      digits, weight := digits[1..], weight - 1;
    }
    while |digits| > 0 && digits[|digits| - 1] == 0
      invariant forall i :: 0 <= i < |digits| ==> digits[i] < NBASE
      invariant digits != [] ==> digits[0] != 0
      invariant forall v :: Represents(num, v) ==> Represents(num.(digits := digits, weight := weight), v)
      decreases |digits|
    {
      forall v | Represents(num, v) ensures Represents(num.(digits := digits[..|digits| - 1], weight := weight), v) {
        DropTrailingZero(num.(digits := digits, weight := weight), v);
      }
      digits := digits[..|digits| - 1];
    }
    var neg := num.neg;
    if |digits| == 0 {
      forall v | Represents(num, v) ensures v == 0 {
        ZeroValue(num.(digits := digits, weight := weight), v);
      }
      weight, neg := 0, false;
    }
    r := NumericVar(digits, weight, neg, num.dscale);
  }

  lemma DropLeadingZero(num: NumericVar, v: int)
    requires num.digits != [] && num.digits[0] == 0 && Represents(num, v)
    ensures Represents(num.(digits := num.digits[1..], weight := num.weight - 1), v)
  {
    assert num.digits == [0] + num.digits[1..];
    EvalConcat([0], num.digits[1..]);
    EvalZero([0]);
  }

  lemma DropTrailingZero(num: NumericVar, v: int)
    requires num.digits != [] && num.digits[|num.digits| - 1] == 0 && Represents(num, v)
    ensures Represents(num.(digits := num.digits[..|num.digits| - 1]), v)
  {
    var n := Eval(num.digits[..|num.digits| - 1]);
    var fd := FractionCount(num);
    if fd > 0 {
      Pow10Step(4 * (fd - 1));
      DropTrailingZeroArith(Abs(v), n, Pow10(4 * (fd - 1)), Pow10(num.dscale));
    } else {
      Pow10Step(4 * -fd);
      MulAssoc(n, NBASE, Pow10(4 * -fd));
    }
  }

  lemma DropTrailingZeroArith(w: int, n: int, p: int, s: int)
    requires w * (NBASE * p) == n * NBASE * s
    ensures w * p == n * s
  {
    assert w * (NBASE * p) == NBASE * (w * p);
    assert n * NBASE * s == NBASE * (n * s);
  }

  /** A stored number whose scaled integer fits the width is read without leaving the machine type. */
  lemma StoredInRange(t: MachineInt, num: NumericVar, v: int)
    requires WellFormed(num) && Stripped(num) && Represents(num, v)
    requires num.dscale <= t.Width() && Abs(v) < Pow10(t.Width())
    ensures DecimalInRange(t, num) && DecimalValue(num) == v
  {
    StrippedExact(num, v);
  }

  /**
   A DuckDB decimal written to PostgreSQL and read back is the same decimal, provided that aligning
   its fraction fits; when it does not, the write already fails.
   */
  method WriteAndReadBack(t: MachineInt, v: int, scale: nat) returns (r: Option<int>)
    requires Abs(v) < Pow10(t.Width()) && scale <= t.Width()
    ensures r == if AlignmentFits(t, v, scale) then Some(v) else None
  {
    WidthFits(t);
    var written := ConvertNumeric(t, v, scale);
    if written.None? {
      return None;
    }
    NumericOfRepresents(v, scale);
    var stored := MakeResult(written.value);
    StoredInRange(t, stored, v);
    r := ConvertDecimal(t, stored);
  }

  // ---------- which decimal types can be written ----------

  /** The largest scale whose aligned fraction always fits. */
  function SafeScale(t: MachineInt): nat {
    match t
    case Int16 => 4
    case Int32 => 8
    case Int64 => 16
    case Int128 => 36
  }

  /** Every value of DECIMAL(width, scale) can be written if and only if the scale is safe. */
  lemma ScaleSafeIff(t: MachineInt, scale: nat)
    requires scale <= t.Width()
    ensures (forall v: int :: Abs(v) < Pow10(t.Width()) ==> AlignmentFits(t, v, scale)) <==> scale <= SafeScale(t)
  {
    if scale <= SafeScale(t) {
      forall v: int ensures AlignmentFits(t, v, scale) {
        SafeScaleFits(t, v, scale);
      }
    } else {
      var v := UnsafeScaleWitness(t, scale);
      assert !AlignmentFits(t, v, scale);
    }
  }

  lemma SafeScaleFits(t: MachineInt, v: int, scale: nat)
    requires scale <= SafeScale(t)
    ensures AlignmentFits(t, v, scale)
  {
    AlignedFractionBound(v, scale);
    Pow10Monotone(4 * FractionalNDigits(scale), SafeScale(t));
    Pow10Monotone(SafeScale(t), t.Width());
    WidthFits(t);
  }

  lemma {:induction false} AlignedHalf(scale: nat)
    requires scale > 0
    ensures AlignedFraction(5 * Pow10(scale - 1), scale) == 5 * Pow10(4 * FractionalNDigits(scale) - 1)
  {
    var unit := Pow10(scale - 1);
    var gap := 4 * FractionalNDigits(scale) - scale;
    assert (5 * unit) % (10 * unit) == 5 * unit;
    Pow10Add(scale - 1, gap);
    MulAssoc(5, unit, Pow10(gap));
  }

  /** One half, written with too many decimal places: DECIMAL(9,9), DECIMAL(18,17), DECIMAL(38,37) and so on. */
  lemma UnsafeScaleWitness(t: MachineInt, scale: nat) returns (v: int)
    requires SafeScale(t) < scale <= t.Width()
    ensures Abs(v) < Pow10(t.Width()) && !AlignmentFits(t, v, scale)
  {
    v := 5 * Pow10(scale - 1);
    AlignedHalf(scale);
    Pow10Monotone(scale, t.Width());
    BeyondMax(t, 4 * FractionalNDigits(scale) - 1);
  }

  lemma {:induction false} BeyondMax(t: MachineInt, places: nat)
    requires places == match t case Int16 => 7 case Int32 => 11 case Int64 => 19 case Int128 => 39
    ensures 5 * Pow10(places) > t.Max()
  {
    PowerTable();
  }
}
