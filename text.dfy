/** Characters, digit strings and the few Python string built-ins the crawler
    relies on: re.sub(r"\D+", "", s), str.strip(), int(s) and str(n). */
module Text {

  datatype Option<+T> = None | Some(value: T)

  /** An ASCII decimal digit (what `\d` and `str.isdigit` accept in this model). */
  predicate IsDigit(c: char) { '0' <= c <= '9' }

  predicate AllDigits(s: string) { forall i :: 0 <= i < |s| ==> IsDigit(s[i]) }

  /** Python's `str.isspace`, which is also what `\s` matches in a `str` pattern. */
  predicate IsSpace(c: char)
  {
    || ('\t' <= c <= '\r')
    || ('\U{1c}' <= c <= '\U{1f}')
    || c == ' ' || c == '\U{85}' || c == '\U{a0}' || c == '\U{1680}'
    || ('\U{2000}' <= c <= '\U{200a}')
    || c == '\U{2028}' || c == '\U{2029}' || c == '\U{202f}' || c == '\U{205f}' || c == '\U{3000}'
  }

  predicate StartsWith(s: string, p: string) { |p| <= |s| && s[..|p|] == p }

  /** `p` occurs in `s` starting at index `i`. */
  predicate OccursAt(s: string, p: string, i: nat)
  {
    i + |p| <= |s| && s[i..i + |p|] == p
  }

  /** `p in s` for strings. */
  predicate Contains(s: string, p: string)
  {
    exists i: nat | i <= |s| :: OccursAt(s, p, i)
  }

  /** `re.sub(r"\D+", "", s)`: the digits of `s`, in order. */
  function DigitsOnly(s: string): (r: string)
    ensures AllDigits(r)
    ensures |r| <= |s|
  {
    if s == [] then []
    else (if IsDigit(s[0]) then [s[0]] else []) + DigitsOnly(s[1..])
  }

  lemma {:induction false} DigitsOnlyOfDigits(s: string)
    requires AllDigits(s)
    ensures DigitsOnly(s) == s
  {
    if s != [] {
      DigitsOnlyOfDigits(s[1..]);
    }
  }

  lemma {:induction false} DigitsOnlyAppend(a: string, b: string)
    ensures DigitsOnly(a + b) == DigitsOnly(a) + DigitsOnly(b)
  {
    if a == [] {
      assert a + b == b;
    } else {
      var h := if IsDigit(a[0]) then [a[0]] else [];
      assert (a + b)[0] == a[0];
      assert (a + b)[1..] == a[1..] + b;
      assert DigitsOnly(a + b) == h + DigitsOnly(a[1..] + b);
      DigitsOnlyAppend(a[1..], b);
      assert DigitsOnly(a) == h + DigitsOnly(a[1..]);
      assert h + (DigitsOnly(a[1..]) + DigitsOnly(b)) == (h + DigitsOnly(a[1..])) + DigitsOnly(b);
    }
  }

  /** `DigitsOnly` is empty exactly when `s` has no digit. */
  lemma {:induction false} DigitsOnlyEmpty(s: string)
    ensures DigitsOnly(s) == [] <==> forall i :: 0 <= i < |s| ==> !IsDigit(s[i])
  {
    if s != [] {
      DigitsOnlyEmpty(s[1..]);
      assert forall i :: 1 <= i < |s| ==> s[i] == s[1..][i - 1];
    }
  }

  /** `str.lstrip()`. */
  function TrimStart(s: string): (r: string)
    ensures |r| <= |s|
  {
    if s != [] && IsSpace(s[0]) then TrimStart(s[1..]) else s
  }

  /** `lstrip` removes a (possibly empty) prefix of whitespace and stops at
      the first other character. */
  lemma {:induction false} TrimStartProps(s: string)
    ensures var r := TrimStart(s);
      && r == s[|s| - |r|..]
      && (forall i :: 0 <= i < |s| - |r| ==> IsSpace(s[i]))
      && (r == [] || !IsSpace(r[0]))
  {
    if s != [] && IsSpace(s[0]) {
      TrimStartProps(s[1..]);
      var r := TrimStart(s);
      assert r == s[1..][|s| - 1 - |r|..];
      assert forall i :: 1 <= i < |s| - |r| ==> s[i] == s[1..][i - 1];
    }
  }

  /** `str.rstrip()`. */
  function TrimEnd(s: string): (r: string)
    ensures |r| <= |s|
  {
    if s != [] && IsSpace(s[|s| - 1]) then TrimEnd(s[..|s| - 1]) else s
  }

  /** `rstrip` removes a (possibly empty) suffix of whitespace and stops at
      the last other character. */
  lemma {:induction false} TrimEndProps(s: string)
    ensures var r := TrimEnd(s);
      && r == s[..|r|]
      && (forall i :: |r| <= i < |s| ==> IsSpace(s[i]))
      && (r == [] || !IsSpace(r[|r| - 1]))
  {
    if s != [] && IsSpace(s[|s| - 1]) {
      TrimEndProps(s[..|s| - 1]);
      var r := TrimEnd(s);
      assert r == s[..|s| - 1][..|r|];
      assert forall i :: |r| <= i < |s| - 1 ==> s[i] == s[..|s| - 1][i];
    }
  }

  /** `str.strip()`. */
  function Strip(s: string): string
  {
    TrimEnd(TrimStart(s))
  }

  /** The stripped string is a slice of the input that neither starts nor ends
      with whitespace, and everything cut off around it is whitespace. */
  lemma StripIsSlice(s: string)
    ensures exists i, j :: (0 <= i <= j <= |s| && Strip(s) == s[i..j]
      && (forall k :: 0 <= k < i ==> IsSpace(s[k]))
      && (forall k :: j <= k < |s| ==> IsSpace(s[k])))
    ensures Strip(s) == [] || (!IsSpace(Strip(s)[0]) && !IsSpace(Strip(s)[|Strip(s)| - 1]))
  {
    var t := TrimStart(s);
    var r := TrimEnd(t);
    TrimStartProps(s);
    TrimEndProps(t);
    var i := |s| - |t|;
    var j := i + |r|;
    assert t == s[i..];
    assert r == t[..|r|];
    assert r == s[i..j];
    forall k | j <= k < |s| ensures IsSpace(s[k]) {
      assert s[k] == t[k - i];
    }
    if r != [] {
      assert r[0] == t[0];
    }
    assert Strip(s) == r;
  }

  /** Neither the first nor the last character is whitespace. */
  predicate NoOuterSpace(s: string)
  {
    s == [] || (!IsSpace(s[0]) && !IsSpace(s[|s| - 1]))
  }

  lemma StripTrimmed(s: string)
    ensures NoOuterSpace(Strip(s))
  {
    StripIsSlice(s);
  }

  /** Stripping cannot introduce a character. */
  lemma StripAvoids(s: string, c: char)
    requires forall k :: 0 <= k < |s| ==> s[k] != c
    ensures forall k :: 0 <= k < |Strip(s)| ==> Strip(s)[k] != c
  {
    StripIsSlice(s);
    var i, j :| 0 <= i <= j <= |s| && Strip(s) == s[i..j];
    assert forall k :: 0 <= k < |Strip(s)| ==> Strip(s)[k] == s[i + k];
  }

  /** A string with no surrounding whitespace is its own strip. */
  lemma StripNoop(s: string)
    requires NoOuterSpace(s)
    ensures Strip(s) == s
  {
  }

  function DigitValue(c: char): nat
    requires IsDigit(c)
  {
    (c - '0') as nat
  }

  function DigitChar(d: nat): (c: char)
    requires d < 10
    ensures IsDigit(c) && DigitValue(c) == d
  {
    ('0' as int + d) as char
  }

  function Pow10(n: nat): (r: nat)
    ensures r >= 1
  {
    if n == 0 then 1 else 10 * Pow10(n - 1)
  }

  /** `int(s)` for a string of decimal digits (leading zeros allowed). */
  function DecValue(s: string): nat
    requires AllDigits(s)
  {
    if s == [] then 0 else 10 * DecValue(s[..|s| - 1]) + DigitValue(s[|s| - 1])
  }

  /** `str(n)` for a natural number. */
  function Decimal(n: nat): (r: string)
    ensures AllDigits(r) && r != []
    ensures r[0] != '0' || n == 0
  {
    if n < 10 then [DigitChar(n)] else Decimal(n / 10) + [DigitChar(n % 10)]
  }

  lemma {:induction false} DecValueBound(s: string)
    requires AllDigits(s)
    ensures DecValue(s) < Pow10(|s|)
    ensures s != [] && s[0] != '0' ==> Pow10(|s| - 1) <= DecValue(s)
  {
    if s != [] {
      var p := s[..|s| - 1];
      DecValueBound(p);
      if |p| > 0 {
        assert p[0] == s[0];
      }
    }
  }

  lemma {:induction false} DecValueAppend(a: string, b: string)
    requires AllDigits(a) && AllDigits(b)
    ensures AllDigits(a + b)
    ensures DecValue(a + b) == DecValue(a) * Pow10(|b|) + DecValue(b)
  {
    AllDigitsAppend(a, b);
    if b == [] {
      assert a + b == a;
    } else {
      var b' := b[..|b| - 1];
      var c := b[|b| - 1];
      assert (a + b)[..|a + b| - 1] == a + b';
      assert (a + b)[|a + b| - 1] == c;
      DecValueAppend(a, b');
      var x, p, y, d := DecValue(a), Pow10(|b'|), DecValue(b'), DigitValue(c);
      assert DecValue(a + b) == 10 * DecValue(a + b') + d;
      assert DecValue(a + b') == x * p + y;
      assert DecValue(b) == 10 * y + d;
      assert Pow10(|b|) == 10 * p;
      ShiftDigit(x, p, y, d);
    }
  }

  lemma AllDigitsAppend(a: string, b: string)
    requires AllDigits(a) && AllDigits(b)
    ensures AllDigits(a + b)
  {
    assert forall i :: 0 <= i < |a + b| ==> (a + b)[i] == if i < |a| then a[i] else b[i - |a|];
  }

  lemma ShiftDigit(x: int, p: int, y: int, d: int)
    ensures 10 * (x * p + y) + d == x * (10 * p) + (10 * y + d)
  {
    MulTen(x, p);
  }

  lemma MulTen(x: int, p: int)
    ensures x * (10 * p) == 10 * (x * p)
  {
  }

  /** `int(str(n)) == n`. */
  lemma {:induction false} DecValueOfDecimal(n: nat)
    ensures DecValue(Decimal(n)) == n
  {
    if n >= 10 {
      DecValueOfDecimal(n / 10);
      var s := Decimal(n);
      assert s[..|s| - 1] == Decimal(n / 10);
    }
  }

  /** `str(int(s)) == s` for a digit string without a leading zero. */
  lemma {:induction false} DecimalOfDecValue(s: string)
    requires AllDigits(s) && s != [] && s[0] != '0'
    ensures Decimal(DecValue(s)) == s
  {
    if |s| == 1 {
      assert DecValue(s) == DigitValue(s[0]);
    } else {
      var p := s[..|s| - 1];
      assert p[0] == s[0];
      DecValueBound(p);
      DecimalOfDecValue(p);
      assert DecValue(s) / 10 == DecValue(p);
      assert DecValue(s) % 10 == DigitValue(s[|s| - 1]);
    }
  }

  /** The value of the twelve-digit phone used in the worked examples. */
  lemma DecValueExample()
    ensures DecValue("380931234567") == 380931234567
  {
    assert Decimal(38) == "38";
    assert Decimal(380) == "380";
    assert Decimal(3809) == "3809";
    assert Decimal(38093) == "38093";
    assert Decimal(380931) == "380931";
    assert Decimal(3809312) == "3809312";
    assert Decimal(38093123) == "38093123";
    assert Decimal(380931234) == "380931234";
    assert Decimal(3809312345) == "3809312345";
    assert Decimal(38093123456) == "38093123456";
    assert Decimal(380931234567) == "380931234567";
    DecValueOfDecimal(380931234567);
  }

  predicate DigitsOrUnderscores(s: string)
  {
    forall i :: 0 <= i < |s| ==> IsDigit(s[i]) || s[i] == '_'
  }

  /** A run of digits in which single underscores may stand between two
      digits, as PEP 515 allows in the strings `int()` and `float()` read. */
  predicate WellGrouped(s: string)
  {
    && s != []
    && DigitsOrUnderscores(s)
    && IsDigit(s[0]) && IsDigit(s[|s| - 1])
    && forall i, j :: 0 <= i < |s| && 0 <= j < |s| && j == i + 1 ==> !(s[i] == '_' && s[j] == '_')
  }

  /** The string with its underscores removed. */
  function Ungrouped(s: string): (r: string)
  {
    if s == [] then []
    else
      assert WellGrouped(s) ==> s[0] != '_';
      (if s[0] == '_' then [] else [s[0]]) + Ungrouped(s[1..])
  }

  /** The value of a run of digits and underscores, the underscores ignored. */
  function GroupedValue(s: string): nat
    requires DigitsOrUnderscores(s)
  {
    UngroupedDigits(s);
    DecValue(Ungrouped(s))
  }

  /** An optional sign, then a well-grouped digit run: the integer it denotes. */
  function SignedGrouped(t: string): Option<int>
  {
    var signed := t != [] && (t[0] == '+' || t[0] == '-');
    var d := if signed then t[1..] else t;
    if WellGrouped(d) then
      var v := GroupedValue(d);
      Some(if signed && t[0] == '-' then -(v as int) else v)
    else None
  }

  /** CPython's default `sys.int_info.default_max_str_digits`: `int()` of a
      string with more digits than this raises ValueError. */
  const MaxStrDigits: nat := 4300

  /** The digits of a stripped `int()` argument once its sign and its
      underscores are set aside: what the digit limit counts. */
  function CountedDigits(t: string): string
  {
    var signed := t != [] && (t[0] == '+' || t[0] == '-');
    Ungrouped(if signed then t[1..] else t)
  }

  /** Python `int(s)` for a string: surrounding whitespace is ignored, then an
      optional sign and a non-empty run of decimal digits, possibly grouped by
      single underscores, of at most `MaxStrDigits` digits; anything else is a
      ValueError, modelled as None. */
  function PyInt(s: string): (r: Option<int>)
    ensures r.Some? ==> Strip(s) != [] && |CountedDigits(Strip(s))| <= MaxStrDigits
  {
    var t := Strip(s);
    if |CountedDigits(t)| > MaxStrDigits then None else SignedGrouped(t)
  }

  lemma {:induction false} UngroupedDigits(s: string)
    requires DigitsOrUnderscores(s)
    ensures AllDigits(Ungrouped(s))
    ensures WellGrouped(s) ==> Ungrouped(s) != []
  {
    if s != [] {
      UngroupedDigits(s[1..]);
      assert WellGrouped(s) ==> s[0] != '_';
    }
  }

  lemma {:induction false} UngroupedOfDigits(s: string)
    requires AllDigits(s)
    ensures Ungrouped(s) == s
    ensures s != [] ==> WellGrouped(s)
  {
    if s != [] {
      UngroupedOfDigits(s[1..]);
      assert [s[0]] + s[1..] == s;
    }
  }

  /** A plain digit string is well grouped and keeps its value. */
  lemma GroupedValueOfDigits(s: string)
    requires AllDigits(s)
    ensures DigitsOrUnderscores(s) && GroupedValue(s) == DecValue(s)
    ensures s != [] ==> WellGrouped(s)
  {
    UngroupedOfDigits(s);
  }

  lemma {:induction false} UngroupedAppend(a: string, b: string)
    ensures Ungrouped(a + b) == Ungrouped(a) + Ungrouped(b)
  {
    if a == [] {
      assert a + b == b;
    } else {
      assert (a + b)[1..] == a[1..] + b;
      UngroupedAppend(a[1..], b);
    }
  }

  /** One underscore between two digit runs is dropped, the runs kept. */
  lemma GroupedPair(a: string, b: string)
    requires AllDigits(a) && a != [] && AllDigits(b) && b != []
    ensures WellGrouped(a + "_" + b)
    ensures Ungrouped(a + "_" + b) == a + b
  {
    GroupedPairWell(a, b);
    UngroupedPair(a, b);
  }

  lemma UngroupedPair(a: string, b: string)
    requires AllDigits(a) && AllDigits(b)
    ensures Ungrouped(a + "_" + b) == a + b
  {
    var u := "_" + b;
    assert a + "_" + b == a + u;
    UngroupedAppend(a, u);
    assert u[0] == '_' && u[1..] == b;
    assert Ungrouped(u) == Ungrouped(b);
    UngroupedOfDigits(a);
    UngroupedOfDigits(b);
  }

  lemma GroupedPairWell(a: string, b: string)
    requires AllDigits(a) && a != [] && AllDigits(b) && b != []
    ensures WellGrouped(a + "_" + b)
  {
    var s := a + "_" + b;
    forall i | 0 <= i < |s| && i != |a| ensures IsDigit(s[i]) {
      if i < |a| {
        assert s[i] == a[i];
      } else {
        assert s[i] == b[i - |a| - 1];
      }
    }
    assert s[|a|] == '_';
  }

  /** A well-grouped run without a sign denotes its digits' value. */
  lemma SignedGroupedUnsigned(t: string)
    requires WellGrouped(t)
    ensures SignedGrouped(t) == Some(GroupedValue(t) as int)
  {
    assert t[0] != '_';
  }

  /** `int()` of a plain digit string is its value up to the digit limit,
      and a ValueError past it. */
  lemma PyIntOfDigits(s: string)
    requires AllDigits(s) && s != []
    ensures |s| <= MaxStrDigits ==> PyInt(s) == Some(DecValue(s) as int)
    ensures |s| > MaxStrDigits ==> PyInt(s).None?
  {
    assert Strip(s) == s by {
      assert !IsSpace(s[0]) && !IsSpace(s[|s| - 1]);
      StripNoop(s);
    }
    assert CountedDigits(s) == s by { UngroupedOfDigits(s); }
    GroupedValueOfDigits(s);
  }

  /** `int()` accepts an underscore between digit groups: `int("1_0") == 10`.
      The underscore does not count towards the digit limit. */
  lemma PyIntUnderscore(a: string, b: string)
    requires AllDigits(a) && a != [] && AllDigits(b) && b != []
    ensures |a| + |b| <= MaxStrDigits ==> PyInt(a + "_" + b) == Some(DecValue(a + b) as int)
    ensures |a| + |b| > MaxStrDigits ==> PyInt(a + "_" + b).None?
  {
    var s := a + "_" + b;
    assert s[0] == a[0] && s[|s| - 1] == b[|b| - 1];
    assert NoOuterSpace(s);
    StripNoop(s);
    GroupedPair(a, b);
    assert CountedDigits(s) == a + b;
    SignedGroupedUnsigned(s);
  }

  lemma {:induction false} Pow10Mono(a: nat, b: nat)
    requires a <= b
    ensures Pow10(a) <= Pow10(b)
  {
    if a < b {
      Pow10Mono(a, b - 1);
    }
  }
}
