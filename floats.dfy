/** Python's `int(float(x))` on exact values. `float()` rounds to the nearest
    IEEE 754 binary64 value, a tie going to the even significand; `int()`
    truncates toward zero. A value beyond the largest finite double makes
    `float()` of an int raise OverflowError, and `float()` of a string
    return `inf`, on which `int()` raises OverflowError: both are None here.

    A positive value q = n / d is scaled by a power of two into [2^52, 2^53);
    the scaled value rounded to an integer is the significand. Values below
    the normal range (under 2^-1022) are rounded with the same precision;
    they truncate to 0 either way. */
module Floats {
  import opened Text

  function Pow2(k: nat): (r: nat)
    ensures r >= 1
  {
    if k == 0 then 1 else 2 * Pow2(k - 1)
  }

  const P52: nat := 0x10_0000_0000_0000
  const P53: nat := 0x20_0000_0000_0000

  /** The largest exponent shift of a finite double: its values are at most
      (2^53 - 1) * 2^971. */
  const MaxShift: nat := 971

  /** The number of halvings of the scale, from `k` on, after which n / (d * 2^u)
      lies in [2^52, 2^53). */
  function UpShift(n: nat, d: nat, k: nat): (u: nat)
    requires d >= 1 && P52 * (d * Pow2(k)) <= n
    ensures k <= u
    ensures P52 * (d * Pow2(u)) <= n < P53 * (d * Pow2(u))
    decreases n - P52 * (d * Pow2(k))
  {
    if n >= P53 * (d * Pow2(k)) then
      assert d * Pow2(k + 1) == 2 * (d * Pow2(k));
      UpShift(n, d, k + 1)
    else k
  }

  /** The number of doublings, from `k` on, after which n * 2^s / d lies in
      [2^52, 2^53). */
  function DownShift(n: nat, d: nat, k: nat): (s: nat)
    requires n >= 1 && d >= 1 && n * Pow2(k) < P53 * d
    ensures k <= s
    ensures P52 * d <= n * Pow2(s) < P53 * d
    decreases P53 * d - n * Pow2(k)
  {
    if n * Pow2(k) < P52 * d then
      assert n * Pow2(k + 1) == 2 * (n * Pow2(k));
      DownShift(n, d, k + 1)
    else k
  }

  /** a / b rounded to the nearest integer, a tie going to the even one
      (RoundHalfEvenNearest states how near). */
  function RoundHalfEven(a: nat, b: nat): (m: nat)
    requires b >= 1
    ensures a / b <= m <= a / b + 1
  {
    var q, r := a / b, a % b;
    if 2 * r > b || (2 * r == b && q % 2 == 1) then q + 1 else q
  }

  /** The rounded value is within half a unit of a / b, and a tie gives an
      even result. */
  lemma RoundHalfEvenNearest(a: nat, b: nat)
    requires b >= 1
    ensures var m := RoundHalfEven(a, b);
      && 2 * (m * b) <= 2 * a + b && 2 * a <= 2 * (m * b) + b
      && ((2 * (m * b) == 2 * a + b || 2 * a == 2 * (m * b) + b) ==> m % 2 == 0)
  {
    var q, r := a / b, a % b;
    DivMod(a, b);
    var qb := q * b;
    var m := RoundHalfEven(a, b);
    if m == q + 1 {
      MulAdd(q, 1, b);
      assert m * b == qb + b;
    } else {
      assert m * b == qb;
    }
  }

  /** `int(float(n / d))` for a non-negative value; None on overflow. */
  function TruncNearest(n: nat, d: nat): Option<nat>
    requires d >= 1
  {
    if n == 0 then Some(0)
    else if n >= P52 * d then
      assert d * Pow2(0) == d;
      var u := UpShift(n, d, 0);
      MulLeq(1, d, Pow2(u));
      var m := RoundHalfEven(n, d * Pow2(u));
      if u > MaxShift || (u == MaxShift && m == P53) then None else Some(m * Pow2(u))
    else
      assert n * Pow2(0) == n;
      var s := DownShift(n, d, 0);
      var m := RoundHalfEven(n * Pow2(s), d);
      DivNat(m, Pow2(s));
      Some(m / Pow2(s))
  }

  /** `int(float(x))` for x = -(n / d) when `neg`, else n / d. */
  function TruncSigned(neg: bool, n: nat, d: nat): (r: Option<int>)
    requires d >= 1
    ensures r.Some? <==> TruncNearest(n, d).Some?
  {
    match TruncNearest(n, d)
    case None => None
    case Some(v) => Some(if neg then -(v as int) else v)
  }

  // ------------------------------------------------ arithmetic helpers

  lemma {:induction false} Pow2Add(a: nat, b: nat)
    ensures Pow2(a + b) == Pow2(a) * Pow2(b)
  {
    if b > 0 {
      Pow2Add(a, b - 1);
      assert Pow2(a + b) == 2 * Pow2(a + b - 1);
    }
  }

  lemma {:induction false} Pow2Mono(a: nat, b: nat)
    requires a <= b
    ensures Pow2(a) <= Pow2(b)
  {
    if a < b {
      Pow2Mono(a, b - 1);
    }
  }

  lemma Pow2LessExp(a: nat, b: nat)
    requires Pow2(a) < Pow2(b)
    ensures a < b
  {
    if a >= b {
      Pow2Mono(b, a);
    }
  }

  lemma Pow2Known()
    ensures Pow2(40) == 0x100_0000_0000
    ensures Pow2(52) == P52 && Pow2(53) == P53
  {
    assert Pow2(10) == 1024;
    assert Pow2(12) == 4096;
    Pow2Add(10, 10);
    Pow2Add(20, 20);
    Pow2Add(40, 12);
  }

  lemma MulLeq(x: int, y: int, z: int)
    requires x <= y && z >= 0
    ensures x * z <= y * z
  {
  }

  lemma MulLess(x: int, y: int, z: int)
    requires x < y && z > 0
    ensures x * z < y * z
  {
  }

  lemma MulCancel(x: int, y: int, z: int)
    requires x * z < y * z && z > 0
    ensures x < y
  {
  }

  lemma MulAdd(x: int, y: int, z: int)
    ensures (x + y) * z == x * z + y * z
  {
  }

  lemma MulSwap(x: int, y: int, z: int)
    ensures (x * y) * z == (x * z) * y
  {
  }

  lemma MulRotate(x: int, y: int, z: int)
    ensures x * y * z == x * (z * y)
  {
  }

  lemma DivMod(a: nat, b: nat)
    requires b >= 1
    ensures a == (a / b) * b + a % b && 0 <= a % b < b
  {
  }

  lemma DivNat(a: nat, b: nat)
    requires b >= 1
    ensures a / b >= 0
  {
  }

  /** x * b <= a gives x <= a / b. */
  lemma DivLower(x: nat, a: nat, b: nat)
    requires b >= 1 && x * b <= a
    ensures x <= a / b
  {
    DivMod(a, b);
    MulAdd(a / b, 1, b);
    MulCancel(x, a / b + 1, b);
  }

  /** q * b <= a < (q + 1) * b means a / b == q. */
  lemma DivExact(a: nat, b: nat, q: nat)
    requires b >= 1 && q * b <= a < (q + 1) * b
    ensures a / b == q
  {
    DivLower(q, a, b);
    DivMod(a, b);
    MulCancel(a / b, q + 1, b);
  }

  // ---------------------------------------------------- rounding laws

  /** A value farther below the next integer than its half unit in the last
      place bound truncates to its integer part: with w = floor(n / d), if
      (w + 1 - n / d) * 2^53 > n / d then `int(float(n / d)) == w`. */
  lemma TruncNearestFloor(n: nat, d: nat, w: nat)
    requires d >= 1 && w * d <= n
    requires ((w + 1) * d - n) * P53 > n
    ensures TruncNearest(n, d) == Some(w)
  {
    MulLeq(1, d, w);
    MulAdd(w, 1, d);
    if n == 0 {
    } else if n >= P52 * d {
      FloorNormal(n, d, w);
    } else {
      FloorSmall(n, d, w);
    }
  }

  lemma FloorNormal(n: nat, d: nat, w: nat)
    requires d >= 1 && w * d <= n && n >= P52 * d && n > 0
    requires ((w + 1) * d - n) * P53 > n
    ensures TruncNearest(n, d) == Some(w)
  {
    var g := (w + 1) * d - n;
    MulAdd(w, 1, d);
    assert n < P53 * d;
    assert UpShift(n, d, 0) == 0;
    var m := RoundHalfEven(n, d);
    RoundHalfEvenNearest(n, d);
    assert 2 * g > d;
    assert m * d < (w + 1) * d;
    MulCancel(m, w + 1, d);
    DivExact(n, d, w);
    assert m == w;
    Pow2Known();
    assert TruncNearest(n, d) == Some(m * Pow2(0));
  }

  lemma FloorSmall(n: nat, d: nat, w: nat)
    requires d >= 1 && w * d <= n && n < P52 * d && n > 0
    requires ((w + 1) * d - n) * P53 > n
    ensures TruncNearest(n, d) == Some(w)
  {
    var g := (w + 1) * d - n;
    var s := DownShift(n, d, 0);
    var p := Pow2(s);
    var big := n * p;
    var m := RoundHalfEven(big, d);
    RoundHalfEvenNearest(big, d);
    assert TruncNearest(n, d) == Some(m / p);
    // w * 2^s is at most the scaled value.
    MulLeq(w * d, n, p);
    MulSwap(w, d, p);
    DivLower(w * p, big, d);
    // (w + 1) * 2^s exceeds it by more than half a unit.
    var j := (w + 1) * p;
    MulSwap(w + 1, p, d);
    MulAdd(n, g, p);
    assert j * d == big + g * p;
    MulLess(n, g * P53, p);
    MulSwap(g, P53, p);
    assert 2 * (g * p) > d;
    MulCancel(m, j, d);
    MulAdd(w, 1, p);
    DivExact(m, p, w);
  }

  /** A value below the next integer by at most a quarter of its unit in the
      last place becomes that integer: `int(float(0.99999999999999999)) == 1`. */
  lemma TruncNearestRoundUp(n: nat, d: nat, w: nat)
    requires d >= 1 && w * d <= n < (w + 1) * d && n < P52 * d
    requires ((w + 1) * d - n) * (2 * P53) <= n
    ensures TruncNearest(n, d) == Some(w + 1)
  {
    var g := (w + 1) * d - n;
    var s := DownShift(n, d, 0);
    var p := Pow2(s);
    var big := n * p;
    var m := RoundHalfEven(big, d);
    RoundHalfEvenNearest(big, d);
    assert TruncNearest(n, d) == Some(m / p);
    var j := (w + 1) * p;
    MulSwap(w + 1, p, d);
    MulAdd(n, g, p);
    assert j * d == big + g * p;
    MulLeq(g * (2 * P53), n, p);
    MulSwap(g, 2 * P53, p);
    assert 2 * (g * p) < d;
    MulLeq(1, g, p);
    MulAdd(j, 1, d);
    MulCancel(m, j + 1, d);
    MulAdd(j, -1, d);
    MulCancel(j - 1, m, d);
    assert m == j;
    MulAdd(w + 1, 1, p);
    DivExact(m, p, w + 1);
  }

  /** A value of at least 2^1024 overflows. */
  lemma TruncNearestOverflow(n: nat, d: nat, k: nat)
    requires d >= 1 && k >= 1024 && Pow2(k) * d <= n
    ensures TruncNearest(n, d).None?
  {
    Pow2Known();
    Pow2Mono(52, k);
    MulLeq(P52, Pow2(k), d);
    assert d * Pow2(0) == d;
    var u := UpShift(n, d, 0);
    var y := Pow2(u);
    MulRotate(P53, y, d);
    MulCancel(Pow2(k), P53 * y, d);
    Pow2Add(53, u);
    Pow2LessExp(k, 53 + u);
  }

  /** A value of at most (2^53 - 1) * 2^k, with k at most 971, is finite. */
  lemma TruncNearestFinite(n: nat, d: nat, k: nat)
    requires d >= 1 && k <= MaxShift && n <= (P53 - 1) * Pow2(k) * d
    ensures TruncNearest(n, d).Some?
  {
    if n > 0 && n >= P52 * d {
      var u := UpShift(n, d, 0);
      ShiftAtMost(n, d, k, u);
      if u == MaxShift {
        assert u == k;
        var y := Pow2(k);
        MulRotate(P53 - 1, y, d);
        TopBinadeFinite(n, d * y);
      }
    }
  }

  /** Up to (2^53 - 1) * b the significand does not round up to 2^53. */
  lemma TopBinadeFinite(n: nat, b: nat)
    requires b >= 1 && n <= (P53 - 1) * b
    ensures RoundHalfEven(n, b) < P53
  {
    var m := RoundHalfEven(n, b);
    RoundHalfEvenNearest(n, b);
    assert 2 * (m * b) < 2 * (P53 * b);
    MulCancel(m, P53, b);
  }

  /** The scale of a value of at most (2^53 - 1) * 2^k is at most 2^k. */
  lemma ShiftAtMost(n: nat, d: nat, k: nat, u: nat)
    requires d >= 1 && n <= (P53 - 1) * Pow2(k) * d
    requires P52 * (d * Pow2(u)) <= n
    ensures u <= k
  {
    var x, y := Pow2(k), Pow2(u);
    var z := Pow2(k + 1);
    assert z == 2 * x;
    var xd := x * d;
    assert (P53 - 1) * x * d == (P53 - 1) * xd;
    MulAdd(x, x, d);
    assert z * d == 2 * xd;
    MulLeq(1, x, d);
    assert d * y == y * d;
    assert P52 * (y * d) < P52 * (z * d);
    MulCancel(y, z, d);
    Pow2LessExp(u, k + 1);
  }

  /** An integer below 2^53 converts exactly. */
  lemma TruncNearestExact(n: nat)
    requires n < P53
    ensures TruncNearest(n, 1) == Some(n)
  {
    TruncNearestFloor(n, 1, n);
  }

  /** Above 2^53 integers round: 12345678901234567 becomes 12345678901234568. */
  lemma TruncNearestExample()
    ensures TruncNearest(12345678901234567, 1) == Some(12345678901234568)
  {
    var n := 12345678901234567;
    assert Pow2(1) == 2;
    assert UpShift(n, 1, 1) == 1;
    assert UpShift(n, 1, 0) == 1;
    assert RoundHalfEven(n, 2) == 6172839450617284;
  }

  /** `float()`'s rounding is symmetric, and so is truncation toward zero. */
  lemma TruncSignedNeg(n: nat, d: nat)
    requires d >= 1
    ensures TruncSigned(true, n, d) == (match TruncSigned(false, n, d) case None => None case Some(v) => Some(-v))
  {
  }

  // ------------------------------------------------- float() of a string

  /** Index of the first character of `s` in `cs`, or `|s|`. */
  function IndexOf(s: string, cs: set<char>): (k: nat)
    ensures k <= |s| && (k < |s| ==> s[k] in cs)
    ensures forall j :: 0 <= j < k ==> s[j] !in cs
  {
    if s == [] then 0 else if s[0] in cs then 0 else 1 + IndexOf(s[1..], cs)
  }

  /** A finite decimal literal: the value of all its digits and a decimal
      scale; the literal denotes digits * 10^scale. */
  datatype Literal = Literal(digits: nat, scale: int)

  /** An unsigned literal that `float()` reads as a finite number: a
      mantissa, then an optional exponent `e`/`E` with an optional sign.
      Anything else (including "inf" and "nan", whose `int()` fails as well)
      is None. */
  function Unsigned(u: string): Option<Literal>
  {
    var e := IndexOf(u, {'e', 'E'});
    match Mantissa(u[..e])
    case None => None
    case Some(l) =>
      if e == |u| then Some(l)
      else
        match SignedGrouped(u[e + 1..])
        case None => None
        case Some(x) => Some(Literal(l.digits, l.scale + x))
  }

  /** A digit part with an optional fraction, or a fraction alone; the scale
      is minus the number of fraction digits. Digits may be grouped by
      single underscores. */
  function Mantissa(p: string): Option<Literal>
  {
    var dot := IndexOf(p, {'.'});
    if dot == |p| then MantissaOf(p, []) else MantissaOf(p[..dot], p[dot + 1..])
  }

  /** The digits before and after the point. */
  function MantissaOf(whole: string, frac: string): (r: Option<Literal>)
    ensures r.Some? ==> r.value.scale <= 0
  {
    if (whole == [] || WellGrouped(whole)) && (frac == [] || WellGrouped(frac)) && (whole != [] || frac != []) then
      var f := |Ungrouped(frac)|;
      Some(Literal(GroupedValue(whole) * Pow10(f) + GroupedValue(frac), -f))
    else None
  }

  /** `int(float(s))` for a string: surrounding whitespace is stripped. */
  function FloatInt(s: string): (r: Option<int>)
    ensures r.Some? ==> Strip(s) != []
  {
    SignedLiteral(Strip(s))
  }

  /** An optional sign, then an unsigned literal. */
  function SignedLiteral(t: string): (r: Option<int>)
    ensures r.Some? ==> t != []
  {
    if t != [] && (t[0] == '+' || t[0] == '-') then LiteralOpt(t[0] == '-', Unsigned(t[1..]))
    else LiteralOpt(false, Unsigned(t))
  }

  function LiteralOpt(neg: bool, o: Option<Literal>): Option<int>
  {
    match o
    case None => None
    case Some(l) => LiteralInt(neg, l)
  }

  function Negated(r: Option<int>): Option<int>
  {
    match r
    case None => None
    case Some(v) => Some(-v)
  }

  /** `int(float(x))` for the value x of a literal, negated when `neg`. */
  function LiteralInt(neg: bool, l: Literal): Option<int>
  {
    if l.scale >= 0 then TruncSigned(neg, l.digits * Pow10(l.scale), 1)
    else TruncSigned(neg, l.digits, Pow10(-l.scale))
  }

  lemma {:induction false} IndexOfNone(s: string, cs: set<char>)
    requires forall j :: 0 <= j < |s| ==> s[j] !in cs
    ensures IndexOf(s, cs) == |s|
  {
    if s != [] {
      IndexOfNone(s[1..], cs);
    }
  }

  /** A literal without an exponent is its mantissa. */
  lemma UnsignedNoExponent(u: string)
    requires forall j :: 0 <= j < |u| ==> u[j] != 'e' && u[j] != 'E'
    ensures Unsigned(u) == Mantissa(u)
  {
    IndexOfNone(u, {'e', 'E'});
    assert u[..|u|] == u;
  }

  /** A string of digits and underscores with no sign, exponent or point is
      read as its whole part. */
  lemma UnsignedGrouped(u: string)
    requires WellGrouped(u)
    ensures Unsigned(u) == Some(Literal(GroupedValue(u), 0))
  {
    assert forall j :: 0 <= j < |u| ==> IsDigit(u[j]) || u[j] == '_';
    UnsignedNoExponent(u);
    MantissaGrouped(u);
  }

  lemma MantissaGrouped(u: string)
    requires WellGrouped(u)
    ensures Mantissa(u) == Some(Literal(GroupedValue(u), 0))
  {
    assert forall j :: 0 <= j < |u| ==> IsDigit(u[j]) || u[j] == '_';
    IndexOfNone(u, {'.'});
    var w, f := Ungrouped(u), Ungrouped([]);
    assert f == [] && w + f == w;
  }

  /** Digits with an exponent of digits: the value m * 10^x rounded, then
      truncated ("1e3" gives 1000). */
  lemma FloatIntExponent(a: string, x: string)
    requires AllDigits(a) && a != [] && AllDigits(x) && x != []
    ensures FloatInt(a + "e" + x) == TruncSigned(false, DecValue(a) * Pow10(DecValue(x)), 1)
  {
    var t := a + "e" + x;
    assert t[0] == a[0] && t[|t| - 1] == x[|x| - 1];
    FloatIntUnsigned(t);
    UnsignedExponent(a, x);
  }

  lemma UnsignedExponent(a: string, x: string)
    requires AllDigits(a) && a != [] && AllDigits(x) && x != []
    ensures Unsigned(a + "e" + x) == Some(Literal(DecValue(a), DecValue(x) as int))
  {
    var t := a + "e" + x;
    ExponentAfter(a, x);
    assert t[..|a|] == a && t[|a| + 1..] == x;
    GroupedValueOfDigits(a);
    MantissaGrouped(a);
    GroupedValueOfDigits(x);
    SignedGroupedUnsigned(x);
  }

  lemma {:induction false} ExponentAfter(a: string, x: string)
    requires AllDigits(a)
    ensures IndexOf(a + "e" + x, {'e', 'E'}) == |a|
  {
    if a != [] {
      assert (a + "e" + x)[1..] == a[1..] + "e" + x;
      ExponentAfter(a[1..], x);
    }
  }

  lemma FloatIntGrouped(u: string)
    requires WellGrouped(u)
    ensures FloatInt(u) == TruncSigned(false, GroupedValue(u), 1)
  {
    assert IsDigit(u[0]) && IsDigit(u[|u| - 1]);
    FloatIntUnsigned(u);
    UnsignedGrouped(u);
    assert Pow10(0) == 1;
  }

  /** Without surrounding whitespace or a sign, `float()` reads the unsigned
      literal. */
  lemma FloatIntUnsigned(t: string)
    requires NoOuterSpace(t) && t != [] && t[0] != '+' && t[0] != '-'
    ensures FloatInt(t) == LiteralOpt(false, Unsigned(t))
  {
    StripNoop(t);
  }

  /** A minus sign negates the result, truncation being toward zero. */
  lemma FloatIntNegated(u: string)
    requires NoOuterSpace(u) && u != [] && u[0] != '+' && u[0] != '-'
    ensures FloatInt("-" + u) == Negated(FloatInt(u))
  {
    var t := "-" + u;
    assert t[|t| - 1] == u[|u| - 1];
    FloatIntNoSpace(t);
    SignedLiteralMinus(u);
    FloatIntUnsigned(u);
    LiteralOptNeg(Unsigned(u));
  }

  lemma FloatIntNoSpace(t: string)
    requires NoOuterSpace(t)
    ensures FloatInt(t) == SignedLiteral(t)
  {
    StripNoop(t);
  }

  lemma SignedLiteralMinus(u: string)
    ensures SignedLiteral("-" + u) == LiteralOpt(true, Unsigned(u))
  {
    assert ("-" + u)[1..] == u;
  }

  lemma LiteralOptNeg(o: Option<Literal>)
    ensures LiteralOpt(true, o) == Negated(LiteralOpt(false, o))
  {
    if o.Some? {
      var l := o.value;
      if l.scale >= 0 {
        TruncSignedNeg(l.digits * Pow10(l.scale), 1);
      } else {
        TruncSignedNeg(l.digits, Pow10(-l.scale));
      }
    }
  }

  /** A plain digit string is its value rounded to a double, then truncated. */
  lemma FloatIntOfDigits(s: string)
    requires AllDigits(s) && s != []
    ensures FloatInt(s) == TruncSigned(false, DecValue(s), 1)
    ensures DecValue(s) < P53 ==> FloatInt(s) == Some(DecValue(s) as int)
  {
    GroupedValueOfDigits(s);
    FloatIntGrouped(s);
    if DecValue(s) < P53 {
      TruncNearestExact(DecValue(s));
    }
  }

  /** Underscores between digit groups are ignored. */
  lemma FloatIntUnderscore(a: string, b: string)
    requires AllDigits(a) && a != [] && AllDigits(b) && b != []
    ensures FloatInt(a + "_" + b) == FloatInt(a + b)
  {
    GroupedPair(a, b);
    FloatIntGrouped(a + "_" + b);
    AllDigitsAppend(a, b);
    FloatIntOfDigits(a + b);
  }

  /** Digits, a point and a fraction: the exact value rounded to a double,
      then truncated. Below 2^53 in total digits value this is the whole
      part. */
  lemma FloatIntOfParts(whole: string, frac: string)
    requires AllDigits(whole) && whole != [] && AllDigits(frac)
    ensures AllDigits(whole + frac)
    ensures FloatInt(whole + "." + frac) == TruncSigned(false, DecValue(whole + frac), Pow10(|frac|))
    ensures DecValue(whole + frac) < P53 ==> FloatInt(whole + "." + frac) == Some(DecValue(whole) as int)
  {
    FloatIntParts(whole, frac);
    DecValueAppend(whole, frac);
    DecValueBound(frac);
    var n, d, w, f := DecValue(whole + frac), Pow10(|frac|), DecValue(whole), DecValue(frac);
    if n < P53 {
      WholePart(n, w, d, f);
    }
  }

  lemma FloatIntParts(whole: string, frac: string)
    requires AllDigits(whole) && whole != [] && AllDigits(frac)
    ensures AllDigits(whole + frac)
    ensures FloatInt(whole + "." + frac) == TruncSigned(false, DecValue(whole + frac), Pow10(|frac|))
  {
    AllDigitsAppend(whole, frac);
    var t := whole + "." + frac;
    assert t[0] == whole[0];
    assert t[|t| - 1] == if frac == [] then '.' else frac[|frac| - 1];
    FloatIntUnsigned(t);
    UnsignedParts(whole, frac);
  }

  lemma UnsignedParts(whole: string, frac: string)
    requires AllDigits(whole) && whole != [] && AllDigits(frac)
    ensures AllDigits(whole + frac)
    ensures Unsigned(whole + "." + frac) == Some(Literal(DecValue(whole + frac), -|frac|))
  {
    AllDigitsAppend(whole, frac);
    var t := whole + "." + frac;
    forall j | 0 <= j < |t|
      ensures t[j] != 'e' && t[j] != 'E'
    {
      if j < |whole| {
        assert t[j] == whole[j];
      } else if j > |whole| {
        assert t[j] == frac[j - |whole| - 1];
      }
    }
    UnsignedNoExponent(t);
    MantissaParts(whole, frac);
  }

  lemma MantissaParts(whole: string, frac: string)
    requires AllDigits(whole) && whole != [] && AllDigits(frac)
    ensures AllDigits(whole + frac)
    ensures Mantissa(whole + "." + frac) == Some(Literal(DecValue(whole + frac), -|frac|))
  {
    AllDigitsAppend(whole, frac);
    var t := whole + "." + frac;
    DotAfter(whole, frac);
    assert t[..|whole|] == whole && t[|whole| + 1..] == frac;
    assert Mantissa(t) == MantissaOf(whole, frac);
    MantissaOfDigits(whole, frac);
  }

  lemma MantissaOfDigits(whole: string, frac: string)
    requires AllDigits(whole) && whole != [] && AllDigits(frac)
    ensures AllDigits(whole + frac)
    ensures MantissaOf(whole, frac) == Some(Literal(DecValue(whole + frac), -|frac|))
  {
    GroupedValueOfDigits(whole);
    GroupedValueOfDigits(frac);
    UngroupedOfDigits(frac);
    MantissaOfPlain(whole, frac);
    DecValueAppend(whole, frac);
  }

  lemma MantissaOfPlain(whole: string, frac: string)
    requires AllDigits(whole) && AllDigits(frac) && |Ungrouped(frac)| == |frac|
    requires DigitsOrUnderscores(whole) && GroupedValue(whole) == DecValue(whole)
    requires DigitsOrUnderscores(frac) && GroupedValue(frac) == DecValue(frac)
    requires WellGrouped(whole) && (frac == [] || WellGrouped(frac))
    ensures MantissaOf(whole, frac) == Some(Literal(DecValue(whole) * Pow10(|frac|) + DecValue(frac), -|frac|))
  {
  }

  lemma {:induction false} DotAfter(whole: string, frac: string)
    requires AllDigits(whole)
    ensures IndexOf(whole + "." + frac, {'.'}) == |whole|
  {
    if whole != [] {
      assert (whole + "." + frac)[1..] == whole[1..] + "." + frac;
      DotAfter(whole[1..], frac);
    }
  }

  /** w * d + f with f < d is read as w when below 2^53. */
  lemma WholePart(n: nat, w: nat, d: nat, f: nat)
    requires f < d && n == w * d + f && n < P53
    ensures TruncSigned(false, n, d) == Some(w)
  {
    MulAdd(w, 1, d);
    MulLeq(1, (w + 1) * d - (w * d + f), P53);
    TruncNearestFloor(w * d + f, d, w);
  }

  /** A fraction of at least seventeen nines rounds up to 1 ("0.99999999999999999"
      gives 1, not 0). */
  lemma FloatIntNines(frac: string)
    requires AllDigits(frac) && |frac| >= 17 && DecValue(frac) == Pow10(|frac|) - 1
    ensures FloatInt("0." + frac) == Some(1)
  {
    LeadingZero(frac);
    NinesSigned(|frac|, DecValue("0" + frac));
    FloatIntValue("0", frac, Some(1));
    ZeroPoint(frac);
  }

  /** FloatIntParts, with the rounded value already known. */
  lemma FloatIntValue(whole: string, frac: string, v: Option<int>)
    requires AllDigits(whole) && whole != [] && AllDigits(frac)
    requires AllDigits(whole + frac) && TruncSigned(false, DecValue(whole + frac), Pow10(|frac|)) == v
    ensures FloatInt(whole + "." + frac) == v
  {
    FloatIntParts(whole, frac);
  }

  lemma NinesSigned(k: nat, n: nat)
    requires k >= 17 && n == Pow10(k) - 1
    ensures TruncSigned(false, n, Pow10(k)) == Some(1)
  {
    NinesRoundUp(k);
  }

  lemma LeadingZero(s: string)
    requires AllDigits(s)
    ensures AllDigits("0" + s) && DecValue("0" + s) == DecValue(s)
  {
    DecValueAppend("0", s);
    assert DecValue("0") == 0;
  }

  lemma ZeroPoint(frac: string)
    ensures "0." + frac == "0" + "." + frac
  {
  }

  /** (10^k - 1) / 10^k rounds to 1 from seventeen digits on. */
  lemma NinesRoundUp(k: nat)
    requires k >= 17
    ensures TruncNearest(Pow10(k) - 1, Pow10(k)) == Some(1)
  {
    Pow10Mono(17, k);
    Pow10Known();
    var d := Pow10(k);
    assert (1 * d - (d - 1)) * (2 * P53) <= d - 1;
    TruncNearestRoundUp(d - 1, d, 0);
  }

  /** Nine repeated k times has the value 10^k - 1. */
  lemma {:induction false} NinesValue(k: nat)
    ensures AllDigits(seq(k, _ => '9'))
    ensures DecValue(seq(k, _ => '9')) == Pow10(k) - 1
  {
    if k > 0 {
      var s := seq(k, _ => '9');
      assert s[..k - 1] == seq(k - 1, _ => '9');
      NinesValue(k - 1);
    }
  }

  lemma FloatIntNinesExample()
    ensures FloatInt("0.99999999999999999") == Some(1)
  {
    var f := seq(17, _ => '9');
    NinesValue(17);
    FloatIntNines(f);
    NinesLiteral();
  }

  lemma NinesLiteral()
    ensures "0." + seq(17, _ => '9') == "0.99999999999999999"
  {
  }

  lemma {:induction false} Pow10Add(a: nat, b: nat)
    ensures Pow10(a + b) == Pow10(a) * Pow10(b)
  {
    if b > 0 {
      Pow10Add(a, b - 1);
      assert Pow10(a + b) == 10 * Pow10(a + b - 1);
    }
  }

  lemma Pow10Known()
    ensures Pow10(14) == 100_000_000_000_000
    ensures Pow10(17) == 100_000_000_000_000_000
  {
    assert Pow10(4) == 10_000;
    assert Pow10(3) == 1_000;
    Pow10Add(4, 3);
    Pow10Add(7, 7);
    Pow10Add(14, 3);
  }

  /** 2^93 <= 10^28, the tightest small step from powers of ten to powers of two. */
  lemma Pow2Below28()
    ensures Pow2(93) <= Pow10(28)
  {
    Pow2Known();
    Pow2Add(53, 40);
    Pow10Known();
    Pow10Add(14, 14);
  }

  /** 2^a <= 10^b and 2^p <= 10^q give 2^(a + p) <= 10^(b + q). */
  lemma Pow2BelowSum(a: nat, b: nat, p: nat, q: nat)
    requires Pow2(a) <= Pow10(b) && Pow2(p) <= Pow10(q)
    ensures Pow2(a + p) <= Pow10(b + q)
  {
    var x, y, c, e := Pow2(a), Pow10(b), Pow2(p), Pow10(q);
    Pow2Add(a, p);
    Pow10Add(b, q);
    MulLeq(x, y, c);
    MulLeq(c, e, y);
    assert c * y == y * c && e * y == y * e;
  }

  /** 2^1024 <= 10^309: a value of 310 digits or more is beyond every double. */
  lemma Pow2Below309()
    ensures Pow2(1024) <= Pow10(309)
  {
    Pow2Below28();
    Pow2BelowSum(93, 28, 93, 28);
    Pow2BelowSum(186, 56, 186, 56);
    Pow2BelowSum(372, 112, 372, 112);
    Pow2BelowSum(744, 224, 93, 28);
    Pow2BelowSum(837, 252, 93, 28);
    Pow2BelowSum(930, 280, 93, 28);
    assert Pow2(1024) == 2 * Pow2(1023);
    assert Pow10(309) == 10 * Pow10(308);
  }

  /** A digit string of 310 or more digits, without leading zero, overflows. */
  lemma FloatIntLongDigits(s: string)
    requires AllDigits(s) && |s| >= 310 && s[0] != '0'
    ensures FloatInt(s).None?
  {
    FloatIntOfDigits(s);
    DecValueBound(s);
    Pow10Mono(309, |s| - 1);
    Pow2Below309();
    TruncNearestOverflow(DecValue(s), 1, 1024);
  }
}
