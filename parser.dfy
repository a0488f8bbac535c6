/** The listing-card parser: lenient number parsing, choice of the JSON-LD
    `Vehicle` object, per-field fallback chains, the phone-token
    extractor, the reveal-endpoint normaliser and the assembly of one record.

    HTML parsing, JSON decoding and HTTP are replaced by their results: a page
    is given as its raw markup plus what BeautifulSoup would have found in it. */
module Parser {
  import opened Text
  import opened Floats
  import opened Json
  import opened Markup

  // ---------------------------------------------------------------- _safe_int

  /** The string clean-up of `_safe_int`: spaces and NBSP removed, `,` read as `.`. */
  function CleanNumber(s: string): (r: string)
    ensures |r| <= |s|
  {
    if s == [] then []
    else
      var head := if s[0] == ' ' || s[0] == '\U{a0}' then [] else if s[0] == ',' then ['.'] else [s[0]];
      head + CleanNumber(s[1..])
  }

  /** `_safe_int` on a string: the clean-up, then `int(float(.))`. */
  function SafeIntStr(s: string): Option<int>
  {
    FloatInt(CleanNumber(s))
  }

  /** `_safe_int(x)`: None stays None, and anything float() refuses gives None.
      An integer goes through a double, so it is exact only below 2^53 in
      magnitude (SafeIntOfInt) and overflows from 2^1024 on. */
  function SafeInt(x: Option<Json>): (r: Option<int>)
    ensures x.None? ==> r.None?
    ensures x.Some? && (x.value.JArr? || x.value.JObj? || x.value.JNull?) ==> r.None?
  {
    match x
    case None => None
    case Some(JNull) => None
    case Some(JBool(b)) => Some(if b then 1 else 0)
    case Some(JInt(i)) => TruncSigned(i < 0, if i < 0 then -i else i, 1)
    case Some(JStr(s)) => SafeIntStr(s)
    case Some(JArr(_)) => None
    case Some(JObj(_)) => None
  }

  /** An integer below 2^53 in magnitude is returned unchanged; from 2^1024
      on, float() overflows and the result is None. */
  lemma SafeIntOfInt(i: int)
    ensures -(P53 as int) < i < P53 ==> SafeInt(Some(JInt(i))) == Some(i)
    ensures (i >= Pow2(1024) || i <= -(Pow2(1024) as int)) ==> SafeInt(Some(JInt(i))).None?
  {
    if -(P53 as int) < i < P53 {
      SafeIntOfIntExact(i);
    }
    if i >= Pow2(1024) || i <= -(Pow2(1024) as int) {
      SafeIntOfIntOverflow(i);
    }
  }

  lemma SafeIntOfIntExact(i: int)
    requires -(P53 as int) < i < P53
    ensures SafeInt(Some(JInt(i))) == Some(i)
  {
    var n: nat := if i < 0 then -i else i;
    TruncNearestExact(n);
  }

  lemma SafeIntOfIntOverflow(i: int)
    requires i >= Pow2(1024) || i <= -(Pow2(1024) as int)
    ensures SafeInt(Some(JInt(i))).None?
  {
    var n: nat := if i < 0 then -i else i;
    TruncNearestOverflow(n, 1, 1024);
  }

  /** Above 2^53 the double rounds: 12345678901234567 comes back as
      12345678901234568. */
  lemma SafeIntIntRounds()
    ensures SafeInt(Some(JInt(12345678901234567))) == Some(12345678901234568)
  {
    TruncNearestExample();
  }

  lemma {:induction false} CleanNumberOfDigits(s: string)
    requires AllDigits(s)
    ensures CleanNumber(s) == s
  {
    if s != [] {
      CleanNumberOfDigits(s[1..]);
    }
  }

  /** A string without a space, an NBSP or a comma is left as it is. */
  lemma {:induction false} CleanNumberNoop(s: string)
    requires forall k :: 0 <= k < |s| ==> s[k] != ' ' && s[k] != '\U{a0}' && s[k] != ','
    ensures CleanNumber(s) == s
  {
    if s != [] {
      CleanNumberNoop(s[1..]);
    }
  }

  /** A plain digit string reads as its value rounded to a double: exactly
      below 2^53, and None from 310 digits on. */
  lemma SafeIntOfDigits(s: string)
    requires AllDigits(s) && s != []
    ensures SafeIntStr(s) == TruncSigned(false, DecValue(s), 1)
    ensures DecValue(s) < P53 ==> SafeIntStr(s) == Some(DecValue(s) as int)
    ensures |s| >= 310 && s[0] != '0' ==> SafeIntStr(s).None?
  {
    CleanNumberOfDigits(s);
    FloatIntOfDigits(s);
    if |s| >= 310 && s[0] != '0' {
      FloatIntLongDigits(s);
    }
  }

  /** Digits, a separator read as a decimal point, then more digits: the
      value rounded to a double, then truncated; below 2^53 (counting all
      the digits) the fractional part is simply dropped, so "1,5" gives 1. */
  lemma SafeIntTruncates(whole: string, sep: char, frac: string)
    requires AllDigits(whole) && whole != [] && AllDigits(frac)
    requires sep == '.' || sep == ','
    ensures AllDigits(whole + frac)
    ensures SafeIntStr(whole + [sep] + frac) == TruncSigned(false, DecValue(whole + frac), Pow10(|frac|))
    ensures DecValue(whole + frac) < P53 ==> SafeIntStr(whole + [sep] + frac) == Some(DecValue(whole) as int)
  {
    CleanNumberSep(whole, sep, frac);
    FloatIntOfParts(whole, frac);
  }

  lemma CleanNumberSep(whole: string, sep: char, frac: string)
    requires AllDigits(whole) && AllDigits(frac)
    requires sep == '.' || sep == ','
    ensures CleanNumber(whole + [sep] + frac) == whole + "." + frac
  {
    var tail := [sep] + frac;
    assert whole + [sep] + frac == whole + tail;
    CleanNumberAppend(whole, tail);
    CleanNumberOfDigits(whole);
    assert CleanNumber(tail) == "." + frac by {
      assert tail[0] == sep && tail[1..] == frac;
      CleanNumberOfDigits(frac);
    }
    assert whole + ("." + frac) == whole + "." + frac;
  }

  lemma {:induction false} CleanNumberAppend(a: string, b: string)
    ensures CleanNumber(a + b) == CleanNumber(a) + CleanNumber(b)
  {
    if a == [] {
      assert a + b == b;
    } else {
      assert (a + b)[1..] == a[1..] + b;
      CleanNumberAppend(a[1..], b);
    }
  }

  /** A space or an NBSP anywhere is ignored. */
  lemma SafeIntIgnoresSpaces(a: string, sep: char, b: string)
    requires sep == ' ' || sep == '\U{a0}'
    ensures SafeIntStr(a + [sep] + b) == SafeIntStr(a + b)
  {
    CleanNumberSpace(a, sep, b);
  }

  lemma CleanNumberSpace(a: string, sep: char, b: string)
    requires sep == ' ' || sep == '\U{a0}'
    ensures CleanNumber(a + [sep] + b) == CleanNumber(a + b)
  {
    var t := [sep] + b;
    assert a + [sep] + b == a + t;
    CleanNumberAppend(a, t);
    assert t[1..] == b;
    assert CleanNumber(t) == CleanNumber(b);
    CleanNumberAppend(a, b);
  }

  /** An underscore between two digit groups is ignored, as float() allows:
      "1_000" gives 1000. */
  lemma SafeIntUnderscore(a: string, b: string)
    requires AllDigits(a) && a != [] && AllDigits(b) && b != []
    ensures SafeIntStr(a + "_" + b) == SafeIntStr(a + b)
  {
    CleanNumberUnderscore(a, b);
    AllDigitsAppend(a, b);
    CleanNumberOfDigits(a + b);
    FloatIntUnderscore(a, b);
  }

  lemma CleanNumberUnderscore(a: string, b: string)
    requires AllDigits(a) && AllDigits(b)
    ensures CleanNumber(a + "_" + b) == a + "_" + b
  {
    var u := "_" + b;
    assert a + "_" + b == a + u;
    CleanNumberAppend(a, u);
    assert u[1..] == b;
    CleanNumberOfDigits(a);
    CleanNumberOfDigits(b);
    assert CleanNumber(u) == u;
  }

  /** "12 345" reads as 12345. */
  lemma SafeIntExampleGrouped()
    ensures SafeIntStr("12 345") == Some(12345)
  {
    SpacedExample();
    DigitsExample();
  }

  lemma SpacedExample()
    ensures SafeIntStr("12 345") == SafeIntStr("12345")
  {
    var a, b := "12", "345";
    SafeIntIgnoresSpaces(a, ' ', b);
    assert a + [' '] + b == "12 345";
    assert a + b == "12345";
  }

  lemma DigitsExample()
    ensures SafeIntStr("12345") == Some(12345)
  {
    DecValue12345();
    SafeIntOfDigits("12345");
  }

  lemma DecValue12345()
    ensures DecValue("12345") == 12345
  {
    assert DecValue("1") == 1;
    assert "12"[..1] == "1";
    assert DecValue("12") == 12;
    assert "123"[..2] == "12";
    assert DecValue("123") == 123;
    assert "1234"[..3] == "123";
    assert DecValue("1234") == 1234;
    assert "12345"[..4] == "1234";
  }

  /** "1,5" reads as 1. */
  lemma SafeIntExampleComma()
    ensures SafeIntStr("1,5") == Some(1)
  {
    var a, b := "1", "5";
    SafeIntTruncates(a, ',', b);
    assert a + [','] + b == "1,5";
    assert DecValue(a) == 1;
    assert a + b == "15" && DecValue("15") == 15;
  }

  /** A fraction of seventeen or more nines after "0." reads as 1: the
      nearest double is 1.0 ("0.99999999999999999" gives 1). */
  lemma SafeIntNines(frac: string)
    requires AllDigits(frac) && |frac| >= 17 && DecValue(frac) == Pow10(|frac|) - 1
    ensures SafeIntStr("0." + frac) == Some(1)
  {
    CleanNumberZeroPoint(frac);
    FloatIntNines(frac);
  }

  lemma CleanNumberZeroPoint(frac: string)
    requires AllDigits(frac)
    ensures CleanNumber("0." + frac) == "0." + frac
  {
    CleanNumberAppend("0.", frac);
    CleanNumberNoop("0.");
    CleanNumberOfDigits(frac);
  }

  // ---------------------------------------------------- _pick_vehicle_jsonld

  /** A dict whose `@type` is the string "Vehicle". */
  predicate IsVehicle(j: Json)
  {
    j.JObj? && Get(j.fields, "@type") == Some(JStr("Vehicle"))
  }

  /** offers +3, a VIN +2, an odometer reading +2, an image +1. */
  function Score(m: Obj): nat
  {
    (if "offers" in m then 3 else 0)
    + (if "vehicleIdentificationNumber" in m || "vin" in m then 2 else 0)
    + (if "mileageFromOdometer" in m then 2 else 0)
    + (if "image" in m then 1 else 0)
  }

  /** The items of one decoded `ld+json` block: a list is flattened, any other
      value is one item, an empty or undecodable block (None) has none. */
  function BlockItems(b: Option<Json>): seq<Json>
  {
    match b
    case None => []
    case Some(JArr(items)) => items
    case Some(j) => [j]
  }

  /** The Vehicle dicts among the first `j` items, in order. */
  function VehiclesUpTo(items: seq<Json>, j: nat): (r: seq<Obj>)
    requires j <= |items|
    ensures forall k :: 0 <= k < |r| ==> IsVehicle(JObj(r[k]))
  {
    if j == 0 then []
    else VehiclesUpTo(items, j - 1) + (if IsVehicle(items[j - 1]) then [items[j - 1].fields] else [])
  }

  /** Every Vehicle candidate of the first `i` blocks, in document order. */
  function CandidatesUpTo(blocks: seq<Option<Json>>, i: nat): (r: seq<Obj>)
    requires i <= |blocks|
    ensures forall k :: 0 <= k < |r| ==> IsVehicle(JObj(r[k]))
  {
    if i == 0 then []
    else
      var items := BlockItems(blocks[i - 1]);
      CandidatesUpTo(blocks, i - 1) + VehiclesUpTo(items, |items|)
  }

  function Candidates(blocks: seq<Option<Json>>): seq<Obj>
  {
    CandidatesUpTo(blocks, |blocks|)
  }

  lemma {:induction false} VehiclesMembers(items: seq<Json>, j: nat)
    requires j <= |items|
    ensures forall m :: m in VehiclesUpTo(items, j) <==>
      exists k :: 0 <= k < j && IsVehicle(items[k]) && items[k] == JObj(m)
  {
    if j > 0 {
      VehiclesMembers(items, j - 1);
    }
  }

  /** The candidates are exactly the Vehicle dicts found among the items of
      the decoded blocks, list blocks being flattened and undecodable blocks
      contributing nothing. */
  lemma {:induction false} CandidatesMembers(blocks: seq<Option<Json>>, i: nat)
    requires i <= |blocks|
    ensures forall m :: m in CandidatesUpTo(blocks, i) <==> FoundIn(blocks, i, m)
  {
    if i > 0 {
      CandidatesMembers(blocks, i - 1);
      var items := BlockItems(blocks[i - 1]);
      VehiclesMembers(items, |items|);
      var prev, here := CandidatesUpTo(blocks, i - 1), VehiclesUpTo(items, |items|);
      assert CandidatesUpTo(blocks, i) == prev + here;
      forall m | FoundIn(blocks, i, m) ensures m in CandidatesUpTo(blocks, i) {
        var b: nat, k: nat :| b < i && FoundAt(blocks, b, k, m);
        if b < i - 1 {
          assert FoundIn(blocks, i - 1, m);
        } else {
          assert 0 <= k < |items| && IsVehicle(items[k]) && items[k] == JObj(m);
        }
      }
      forall m | m in CandidatesUpTo(blocks, i) ensures FoundIn(blocks, i, m) {
        if m in prev {
          var b: nat, k: nat :| b < i - 1 && FoundAt(blocks, b, k, m);
          assert FoundAt(blocks, b, k, m);
        } else {
          var k :| 0 <= k < |items| && IsVehicle(items[k]) && items[k] == JObj(m);
          assert FoundAt(blocks, i - 1, k, m);
        }
      }
    }
  }

  /** Item `k` of block `b` is the Vehicle dict `m`. */
  predicate FoundAt(blocks: seq<Option<Json>>, b: nat, k: nat, m: Obj)
    requires b < |blocks|
  {
    k < |BlockItems(blocks[b])| && IsVehicle(BlockItems(blocks[b])[k]) && BlockItems(blocks[b])[k] == JObj(m)
  }

  /** Some item of the first `i` blocks is the Vehicle dict `m`. */
  ghost predicate FoundIn(blocks: seq<Option<Json>>, i: nat, m: Obj)
    requires i <= |blocks|
  {
    exists b: nat, k: nat :: b < i && FoundAt(blocks, b, k, m)
  }

  /** The loop state (`best_score`, `best_obj`) after visiting `c` in order. */
  function Best(c: seq<Obj>): (int, Option<Obj>)
  {
    if c == [] then (-1, None)
    else
      var prev := Best(c[..|c| - 1]);
      var m := c[|c| - 1];
      if Score(m) > prev.0 then (Score(m), Some(m)) else prev
  }

  /** The object `_pick_vehicle_jsonld` returns. */
  function VehicleOf(blocks: seq<Option<Json>>): Obj
  {
    match Best(Candidates(blocks)).1
    case None => map[]
    case Some(m) => m
  }

  /** The fold keeps the first candidate of maximal score. */
  lemma {:induction false} BestIsFirstMax(c: seq<Obj>)
    ensures c == [] ==> Best(c) == (-1, None)
    ensures c != [] ==> exists k :: FirstMax(c, k) && Best(c) == (Score(c[k]) as int, Some(c[k]))
  {
    if c != [] {
      var p := c[..|c| - 1];
      var m := c[|c| - 1];
      var last := |c| - 1;
      BestIsFirstMax(p);
      if p == [] {
        assert Best(c) == (Score(m) as int, Some(m));
        assert FirstMax(c, 0);
      } else {
        var k :| FirstMax(p, k) && Best(p) == (Score(p[k]) as int, Some(p[k]));
        assert forall j :: 0 <= j < |p| ==> c[j] == p[j];
        if Score(m) > Score(p[k]) {
          assert Best(c) == (Score(c[last]) as int, Some(c[last]));
          assert FirstMax(c, last);
        } else {
          assert Best(c) == (Score(c[k]) as int, Some(c[k]));
          assert FirstMax(c, k);
        }
      }
    }
  }

  /** `c[k]` has the largest score in `c`, and every earlier element scores
      strictly less. */
  predicate FirstMax(c: seq<Obj>, k: int)
  {
    && 0 <= k < |c|
    && (forall j :: 0 <= j < |c| ==> Score(c[j]) <= Score(c[k]))
    && (forall j :: 0 <= j < k ==> Score(c[j]) < Score(c[k]))
  }

  /** What `_pick_vehicle_jsonld` promises: `{}` when the page has no Vehicle
      candidate, and otherwise a Vehicle candidate whose score no other
      candidate beats and that every earlier candidate scores strictly below. */
  lemma PickedVehicleIsBest(blocks: seq<Option<Json>>)
    ensures Candidates(blocks) == [] <==> VehicleOf(blocks) == map[]
    ensures Candidates(blocks) != [] ==> IsVehicle(JObj(VehicleOf(blocks)))
    ensures Candidates(blocks) != [] ==>
      exists k :: FirstMax(Candidates(blocks), k) && VehicleOf(blocks) == Candidates(blocks)[k]
  {
    var c := Candidates(blocks);
    BestIsFirstMax(c);
    if c != [] {
      var k :| FirstMax(c, k) && Best(c) == (Score(c[k]) as int, Some(c[k]));
      assert IsVehicle(JObj(c[k]));
      assert "@type" in c[k];
    }
  }

  /** Undecodable blocks and non-dict items contribute nothing, a list block
      contributes its Vehicle items, and blocks are visited in order. */
  lemma VehiclesSnoc(items: seq<Json>, j: nat)
    requires j < |items|
    ensures VehiclesUpTo(items, j + 1)
      == VehiclesUpTo(items, j) + (if IsVehicle(items[j]) then [items[j].fields] else [])
  {
  }

  lemma CandidatesSnoc(blocks: seq<Option<Json>>, i: nat)
    requires i < |blocks|
    ensures CandidatesUpTo(blocks, i + 1)
      == CandidatesUpTo(blocks, i) + VehiclesUpTo(BlockItems(blocks[i]), |BlockItems(blocks[i])|)
  {
  }

  lemma BestSnoc(c: seq<Obj>, m: Obj)
    ensures Best(c + [m]) == if Score(m) > Best(c).0 then (Score(m) as int, Some(m)) else Best(c)
  {
    assert (c + [m])[..|c|] == c;
  }

  /** The inner loop of `_pick_vehicle_jsonld` over the items of one block:
      the running best is updated for each Vehicle dict scoring strictly
      higher. */
  method ScanItems(items: seq<Json>, score0: int, obj0: Option<Obj>, ghost seen: seq<Obj>)
    returns (bestScore: int, bestObj: Option<Obj>)
    requires score0 == Best(seen).0 && obj0 == Best(seen).1
    ensures bestScore == Best(seen + VehiclesUpTo(items, |items|)).0
    ensures bestObj == Best(seen + VehiclesUpTo(items, |items|)).1
  {
    bestScore, bestObj := score0, obj0;
    ghost var acc := seen;
    var j := 0;
    assert seen + VehiclesUpTo(items, 0) == acc;
    while j < |items|
      invariant 0 <= j <= |items|
      invariant acc == seen + VehiclesUpTo(items, j)
      invariant bestScore == Best(acc).0 && bestObj == Best(acc).1
    {
      var obj := items[j];
      VehiclesSnoc(items, j);
      if obj.JObj? && IsVehicle(obj) {
        var score := Score(obj.fields);
        BestSnoc(acc, obj.fields);
        acc := acc + [obj.fields];
        if score > bestScore {
          bestScore := score;
          bestObj := Some(obj.fields);
        }
      }
      j := j + 1;
    }
  }

  /** `_pick_vehicle_jsonld`: the loop over the `ld+json` blocks. */
  method PickVehicleJsonLd(blocks: seq<Option<Json>>) returns (vehicle: Obj)
    ensures vehicle == VehicleOf(blocks)
  {
    var bestObj: Option<Obj> := None;
    var bestScore: int := -1;
    var i := 0;
    while i < |blocks|
      invariant 0 <= i <= |blocks|
      invariant (bestScore, bestObj) == Best(CandidatesUpTo(blocks, i))
    {
      CandidatesSnoc(blocks, i);
      bestScore, bestObj := ScanBlock(blocks[i], bestScore, bestObj, CandidatesUpTo(blocks, i));
      i := i + 1;
    }
    vehicle := if bestObj.Some? then bestObj.value else map[];
  }

  /** One `ld+json` block: an empty or undecodable one is skipped, otherwise
      its items are scanned. */
  method ScanBlock(block: Option<Json>, score0: int, obj0: Option<Obj>, ghost seen: seq<Obj>)
    returns (bestScore: int, bestObj: Option<Obj>)
    requires (score0, obj0) == Best(seen)
    ensures (bestScore, bestObj) == Best(seen + VehiclesUpTo(BlockItems(block), |BlockItems(block)|))
  {
    if block.None? {
      assert seen + VehiclesUpTo(BlockItems(block), |BlockItems(block)|) == seen;
      return score0, obj0;
    }
    bestScore, bestObj := ScanItems(BlockItems(block), score0, obj0, seen);
  }

  // --------------------------------------------------- _extract_images_count

  /** The six raw-markup counters, in the order they are tried. */
  const ImageCountPatterns: seq<Pattern> := [
    KeyDigits("countPhotos"), KeyDigits("photosCount"), KeyDigits("countPhoto"),
    KeyDigits("photoCount"), KeyDigits("count_images"), PhotosCount]

  /** The capture of the first pattern in the list that matches anywhere. */
  function FirstPatternMatch(ps: seq<Pattern>, html: string): (r: Option<string>)
    ensures r.Some? ==> exists k :: (0 <= k < |ps| && Search(ps[k], html) == r
      && forall j :: 0 <= j < k ==> Search(ps[j], html).None?)
    ensures r.None? <==> forall k :: 0 <= k < |ps| ==> Search(ps[k], html).None?
  {
    if ps == [] then None
    else match Search(ps[0], html)
      case Some(v) => Some(v)
      case None =>
        var r := FirstPatternMatch(ps[1..], html);
        assert forall k :: 1 <= k < |ps| ==> ps[k] == ps[1..][k - 1];
        r
  }

  /** Every pattern of the list captures a run of digits. */
  predicate DigitPatterns(ps: seq<Pattern>)
  {
    forall k :: 0 <= k < |ps| ==> ps[k].cap == DigitRun
  }

  lemma FirstDigitMatch(ps: seq<Pattern>, html: string)
    requires DigitPatterns(ps)
    ensures FirstPatternMatch(ps, html).Some? ==> IsDigitStr(FirstPatternMatch(ps, html).value)
  {
    var r := FirstPatternMatch(ps, html);
    if r.Some? {
      var k :| 0 <= k < |ps| && Search(ps[k], html) == r && forall j :: 0 <= j < k ==> Search(ps[j], html).None?;
      assert ps[k].cap == DigitRun;
    }
  }

  lemma ImageCountPatternsDigits()
    ensures DigitPatterns(ImageCountPatterns)
  {
  }

  /** The stripped `src` of each `<img>` that points at the listing CDN. */
  function RiaSrcs(srcs: seq<Option<string>>): (r: seq<string>)
    ensures |r| <= |srcs|
  {
    if srcs == [] then []
    else
      var src := Strip(if srcs[|srcs| - 1].Some? then srcs[|srcs| - 1].value else "");
      RiaSrcs(srcs[..|srcs| - 1]) + (if Contains(src, "cdn.riastatic.com") then [src] else [])
  }

  /** The value of the first of the six counters that matches. */
  function CounterValue(html: string): (r: Option<nat>)
    ensures r.None? <==> FirstPatternMatch(ImageCountPatterns, html).None?
  {
    match FirstPatternMatch(ImageCountPatterns, html)
    case Some(d) =>
      ImageCountPatternsDigits();
      FirstDigitMatch(ImageCountPatterns, html);
      Some(DecValue(d))
    case None => None
  }

  /** The number of distinct CDN image sources, None when there is none. */
  function CdnCount(srcs: seq<Option<string>>): (r: Option<nat>)
    ensures r.None? <==> RiaSrcs(srcs) == []
    ensures r.Some? ==> 1 <= r.value <= |RiaSrcs(srcs)|
  {
    var ria := RiaSrcs(srcs);
    if ria != [] then
      DistinctCountBounds(ria);
      Some(|set x | x in ria|)
    else None
  }

  /** The value `_extract_images_count` returns. */
  function ImagesCountOf(vehicle: Obj, html: string, srcs: seq<Option<string>>): Option<nat>
  {
    var img := Get(vehicle, "image");
    if img.Some? && img.value.JArr? && img.value.items != [] then Some(|img.value.items|)
    else if img.Some? && img.value.JStr? && Strip(img.value.s) != [] then Some(1)
    else match CounterValue(html)
      case Some(v) => Some(v)
      case None => CdnCount(srcs)
  }

  lemma DistinctCountBounds(s: seq<string>)
    requires s != []
    ensures 1 <= |set x | x in s| <= |s|
  {
    var st := set x | x in s;
    assert s[0] in st;
    DistinctCountAtMost(s);
  }

  lemma {:induction false} DistinctCountAtMost(s: seq<string>)
    ensures |set x | x in s| <= |s|
  {
    if s != [] {
      var p := s[..|s| - 1];
      DistinctCountAtMost(p);
      assert (set x | x in s) == (set x | x in p) + {s[|s| - 1]};
    }
  }

  /** The strategies of `_extract_images_count`, in priority order: a
      non-empty image list, a non-blank image string, the six counters in
      order, then the number of distinct CDN images (at least one when this
      step is reached with any); otherwise nothing. */
  lemma ImagesCountOrder(vehicle: Obj, html: string, srcs: seq<Option<string>>)
    ensures var img := Get(vehicle, "image");
      && (img.Some? && img.value.JArr? && img.value.items != [] ==>
            ImagesCountOf(vehicle, html, srcs) == Some(|img.value.items|))
      && (img.Some? && img.value.JStr? && Strip(img.value.s) != [] ==>
            ImagesCountOf(vehicle, html, srcs) == Some(1))
      && (!(img.Some? && img.value.JArr? && img.value.items != [])
          && !(img.Some? && img.value.JStr? && Strip(img.value.s) != []) ==>
          (forall k :: (0 <= k < |ImageCountPatterns| && Search(ImageCountPatterns[k], html).Some?
             && (forall j :: 0 <= j < k ==> Search(ImageCountPatterns[j], html).None?)) ==>
             ImagesCountOf(vehicle, html, srcs) == Some(DecValue(Search(ImageCountPatterns[k], html).value)))
          && ((forall k :: 0 <= k < |ImageCountPatterns| ==> Search(ImageCountPatterns[k], html).None?) ==>
             (RiaSrcs(srcs) != [] ==> (ImagesCountOf(vehicle, html, srcs).Some?
                && 1 <= ImagesCountOf(vehicle, html, srcs).value <= |RiaSrcs(srcs)|))
             && (RiaSrcs(srcs) == [] ==> ImagesCountOf(vehicle, html, srcs).None?)))
  {
    var img := Get(vehicle, "image");
    if !(img.Some? && img.value.JArr? && img.value.items != [])
      && !(img.Some? && img.value.JStr? && Strip(img.value.s) != []) {
      ImagesCountFromCounters(vehicle, html, srcs);
      if forall k :: 0 <= k < |ImageCountPatterns| ==> Search(ImageCountPatterns[k], html).None? {
        ImagesCountFromCdn(vehicle, html, srcs);
      }
    }
  }

  /** Without a usable image field, the first counter that matches decides. */
  lemma ImagesCountFromCounters(vehicle: Obj, html: string, srcs: seq<Option<string>>)
    requires var img := Get(vehicle, "image");
      !(img.Some? && img.value.JArr? && img.value.items != [])
      && !(img.Some? && img.value.JStr? && Strip(img.value.s) != [])
    ensures forall k :: (0 <= k < |ImageCountPatterns| && Search(ImageCountPatterns[k], html).Some?
      && (forall j :: 0 <= j < k ==> Search(ImageCountPatterns[j], html).None?)) ==>
      ImagesCountOf(vehicle, html, srcs) == Some(DecValue(Search(ImageCountPatterns[k], html).value))
  {
    forall k | 0 <= k < |ImageCountPatterns| && Search(ImageCountPatterns[k], html).Some?
      && (forall j :: 0 <= j < k ==> Search(ImageCountPatterns[j], html).None?)
      ensures ImagesCountOf(vehicle, html, srcs) == Some(DecValue(Search(ImageCountPatterns[k], html).value))
    {
      FirstPatternAt(ImageCountPatterns, html, k);
    }
  }

  /** Without a usable image field or a counter, the CDN images decide. */
  lemma ImagesCountFromCdn(vehicle: Obj, html: string, srcs: seq<Option<string>>)
    requires var img := Get(vehicle, "image");
      !(img.Some? && img.value.JArr? && img.value.items != [])
      && !(img.Some? && img.value.JStr? && Strip(img.value.s) != [])
    requires forall k :: 0 <= k < |ImageCountPatterns| ==> Search(ImageCountPatterns[k], html).None?
    ensures RiaSrcs(srcs) != [] ==> (ImagesCountOf(vehicle, html, srcs).Some?
      && 1 <= ImagesCountOf(vehicle, html, srcs).value <= |RiaSrcs(srcs)|)
    ensures RiaSrcs(srcs) == [] ==> ImagesCountOf(vehicle, html, srcs).None?
  {
  }

  /** `_extract_images_count`: JSON-LD first, then the counters, then the
      `<img>` loop that collects CDN sources. */
  method ExtractImagesCount(vehicle: Obj, html: string, srcs: seq<Option<string>>)
    returns (count: Option<nat>)
    ensures count == ImagesCountOf(vehicle, html, srcs)
  {
    var img := Get(vehicle, "image");
    if img.Some? && img.value.JArr? && img.value.items != [] {
      return Some(|img.value.items|);
    }
    if img.Some? && img.value.JStr? && Strip(img.value.s) != [] {
      return Some(1);
    }
    var found := FirstMatch(ImageCountPatterns, html);
    if found.Some? {
      ImageCountPatternsDigits();
      FirstDigitMatch(ImageCountPatterns, html);
      return Some(DecValue(found.value));
    }
    var ria := CollectRiaSrcs(srcs);
    if ria != [] {
      return Some(|set x | x in ria|);
    }
    return None;
  }

  /** The `<img>` loop: the stripped sources on the listing CDN, in order. */
  method CollectRiaSrcs(srcs: seq<Option<string>>) returns (ria: seq<string>)
    ensures ria == RiaSrcs(srcs)
  {
    ria := [];
    var i := 0;
    while i < |srcs|
      invariant 0 <= i <= |srcs|
      invariant ria == RiaSrcs(srcs[..i])
    {
      assert srcs[..i + 1][..i] == srcs[..i];
      var src := Strip(if srcs[i].Some? then srcs[i].value else "");
      if Contains(src, "cdn.riastatic.com") {
        ria := ria + [src];
      }
      i := i + 1;
    }
    assert srcs[..|srcs|] == srcs;
  }

  // --------------------------------------------------------- _extract_username

  /** `_extract_username`: the bracket form, else the colon form, stripped. */
  function Username(html: string): (r: Option<string>)
    ensures r.Some? ==> (forall k :: 0 <= k < |r.value| ==> r.value[k] != '"')
    ensures r.Some? ==> NoOuterSpace(r.value)
    ensures Search(UserNameBracket, html).Some? ==> r == Some(Strip(Search(UserNameBracket, html).value))
    ensures Search(UserNameBracket, html).None? && Search(UserNameColon, html).Some? ==>
      r == Some(Strip(Search(UserNameColon, html).value))
    ensures r.None? <==> Search(UserNameBracket, html).None? && Search(UserNameColon, html).None?
  {
    var m := Search(UserNameBracket, html);
    var v := if m.Some? then m else Search(UserNameColon, html);
    if v.Some? then
      StripAvoids(v.value, '"');
      StripTrimmed(v.value);
      Some(Strip(v.value))
    else None
  }

  // ------------------------------------------------------- _extract_price_usd

  const PriceFallbackPatterns: seq<Pattern> := [KeyDigits("priceUsd"), KeyDigits("usdPrice")]

  lemma PriceFallbackDigits()
    ensures DigitPatterns(PriceFallbackPatterns)
  {
  }

  /** The `offers` dict when its `priceCurrency` is the string "USD". */
  function UsdOffers(vehicle: Obj): Option<Obj>
  {
    var offers := AsDict(Get(vehicle, "offers"));
    if offers.Some? && Get(offers.value, "priceCurrency") == Some(JStr("USD")) then offers else None
  }

  /** `_extract_price_usd`. */
  function PriceUsd(vehicle: Obj, html: string): (r: Option<int>)
    ensures UsdOffers(vehicle).Some? ==> r == SafeInt(Get(UsdOffers(vehicle).value, "price"))
    ensures UsdOffers(vehicle).None? && Search(UsdMarker, html).Some? ==>
      r == Some(DecValue(Search(UsdMarker, html).value)) && 0 <= r.value < 10_000_000
    ensures UsdOffers(vehicle).None? && Search(UsdMarker, html).None? ==>
      r == (match FirstPatternMatch(PriceFallbackPatterns, html)
            case Some(d) => Some(DecValue(d) as int)
            case None => None)
  {
    match UsdOffers(vehicle)
    case Some(offers) => SafeInt(Get(offers, "price"))
    case None =>
      match Search(UsdMarker, html)
      case Some(d) =>
        DecValueBound(d);
        assert Pow10(|d|) <= Pow10(7) by { Pow10Mono(|d|, 7); }
        Some(DecValue(d))
      case None =>
        match FirstPatternMatch(PriceFallbackPatterns, html)
        case Some(d) =>
          PriceFallbackDigits();
          FirstDigitMatch(PriceFallbackPatterns, html);
          Some(DecValue(d))
        case None => None
  }

  /** For a USD offer with an integer price, the extracted price is that price
      read through a double, whatever the markup says; below 2^53 in
      magnitude it is the price itself. */
  lemma PriceFromUsdOffer(vehicle: Obj, html: string, offers: Obj, p: int)
    requires Get(vehicle, "offers") == Some(JObj(offers))
    requires Get(offers, "priceCurrency") == Some(JStr("USD")) && Get(offers, "price") == Some(JInt(p))
    ensures PriceUsd(vehicle, html) == SafeInt(Some(JInt(p)))
    ensures -(P53 as int) < p < P53 ==> PriceUsd(vehicle, html) == Some(p)
  {
    assert UsdOffers(vehicle) == Some(offers);
    SafeIntOfInt(p);
  }

  // --------------------------------------------------------- _extract_auto_id

  const AutoIdPattern := KeyDigits("autoId")

  /** `_extract_auto_id`: `"autoId":<digits>` in the markup, else the
      `_<digits>.html` suffix of `@id` (or of `url` when `@id` is falsy). */
  function AutoId(html: string, vehicle: Obj): (r: Option<nat>)
    ensures Search(AutoIdPattern, html).Some? ==> r == Some(DecValue(Search(AutoIdPattern, html).value))
    ensures Search(AutoIdPattern, html).None? && TruthyOpt(Get(vehicle, "@id")) ==>
      r == (if Get(vehicle, "@id").value.JStr? then
              (match Search(IdSuffix, Get(vehicle, "@id").value.s)
               case Some(d) => Some(DecValue(d))
               case None => None)
            else None)
    ensures Search(AutoIdPattern, html).None? && !TruthyOpt(Get(vehicle, "@id")) ==>
      r == (if Get(vehicle, "url").Some? && Get(vehicle, "url").value.JStr? then
              (match Search(IdSuffix, Get(vehicle, "url").value.s)
               case Some(d) => Some(DecValue(d))
               case None => None)
            else None)
  {
    match Search(AutoIdPattern, html)
    case Some(d) => Some(DecValue(d))
    case None =>
      var vid := Or(Get(vehicle, "@id"), Get(vehicle, "url"));
      if vid.Some? && vid.value.JStr? then
        match Search(IdSuffix, vid.value.s)
        case Some(d) => Some(DecValue(d))
        case None => None
      else None
  }

  // ---------------------------------------------------- _extract_expires_hash

  const ExpiresPatterns: seq<Pattern> := [
    KeyDigits("expires"), EscKeyDigits("expires"), KeyDigits("expiresAt"), EscKeyDigits("expiresAt"),
    KeyDigits("expire"), EscKeyDigits("expire"), KeyDigits("exp"), EscKeyDigits("exp")]

  const HashPatterns: seq<Pattern> := [
    KeyQuoted("hash"), EscKeyQuoted("hash"), KeyQuoted("token"), EscKeyQuoted("token"),
    KeyQuoted("signature"), EscKeyQuoted("signature"), KeyQuoted("sign"), EscKeyQuoted("sign"),
    KeyHex("hash"), EscKeyHex("hash")]

  lemma ExpiresPatternsDigits()
    ensures DigitPatterns(ExpiresPatterns)
  {
  }

  /** The (expires, hash) pair for the reveal endpoint; either half may be missing. */
  datatype Token = Token(expires: Option<string>, hash: Option<string>)

  /** Truthiness of an optional Python string. */
  predicate StrTruthy(s: Option<string>) { s.Some? && s.value != [] }

  /** `str.isdigit()`: non-empty and all digits. */
  predicate IsDigitStr(s: string) { s != [] && AllDigits(s) }

  /** The halves found by the direct keys, completed from the query-string
      match `q` only when one of them is falsy, and then only that half. */
  function FillHalves(e: Option<string>, h: Option<string>, q: Option<(string, string)>): (r: Token)
    ensures StrTruthy(e) ==> r.expires == e
    ensures StrTruthy(h) ==> r.hash == h
    ensures q.None? ==> r == Token(e, h)
  {
    if !StrTruthy(e) || !StrTruthy(h) then
      match q
      case Some(p) => Token(if StrTruthy(e) then e else Some(p.0), if StrTruthy(h) then h else Some(p.1))
      case None => Token(e, h)
    else Token(e, h)
  }

  /** The direct keys, then the query-string form for a missing half only. */
  function RawTokenOf(html: string): Token
  {
    FillHalves(FirstPatternMatch(ExpiresPatterns, html), FirstPatternMatch(HashPatterns, html), QueryTokenSearch(html))
  }

  /** The final clean-up: a non-numeric expires and a hash shorter than ten
      characters after stripping are dropped. */
  function Clean(t: Token): (r: Token)
    ensures r.expires.Some? ==> IsDigitStr(r.expires.value)
    ensures r.hash.Some? ==> |r.hash.value| >= 10 && NoOuterSpace(r.hash.value)
  {
    var e := if t.expires.Some? && !IsDigitStr(t.expires.value) then None else t.expires;
    var h := if t.hash.Some? then
      (var s := Strip(t.hash.value); StripTrimmed(t.hash.value); if |s| < 10 then None else Some(s))
      else None;
    Token(e, h)
  }

  /** The pair `_extract_expires_hash` returns. */
  function TokenOf(html: string): Token
  {
    Clean(RawTokenOf(html))
  }

  /** What the extractor promises about expires: None or all digits; a value
      found by a direct key is kept, and the query-string form fills it in
      only when no direct key matched. */
  lemma TokenShape(html: string)
    ensures TokenOf(html).expires.Some? ==> IsDigitStr(TokenOf(html).expires.value)
    ensures TokenOf(html).hash.Some? ==> |TokenOf(html).hash.value| >= 10
    ensures FirstPatternMatch(ExpiresPatterns, html).Some? ==>
      TokenOf(html).expires == FirstPatternMatch(ExpiresPatterns, html)
    ensures FirstPatternMatch(ExpiresPatterns, html).None? && QueryTokenSearch(html).Some? ==>
      TokenOf(html).expires == Some(QueryTokenSearch(html).value.0)
  {
    var e := FirstPatternMatch(ExpiresPatterns, html);
    ExpiresPatternsDigits();
    FirstDigitMatch(ExpiresPatterns, html);
    assert e.Some? ==> RawTokenOf(html).expires == e;
  }

  /** The hash found by a direct key is kept (up to the clean-up), and both
      halves found by direct keys make the query-string form irrelevant. */
  lemma TokenHashSource(html: string)
    ensures FirstPatternMatch(HashPatterns, html).Some? ==>
      TokenOf(html).hash == Clean(Token(None, FirstPatternMatch(HashPatterns, html))).hash
    ensures FirstPatternMatch(ExpiresPatterns, html).Some? && FirstPatternMatch(HashPatterns, html).Some? ==>
      TokenOf(html) == Clean(Token(FirstPatternMatch(ExpiresPatterns, html), FirstPatternMatch(HashPatterns, html)))
  {
    var e := FirstPatternMatch(ExpiresPatterns, html);
    ExpiresPatternsDigits();
    FirstDigitMatch(ExpiresPatterns, html);
    FirstMatchNonEmpty(HashPatterns, html);
  }

  /** Every capture group of these patterns is non-empty. */
  lemma FirstMatchNonEmpty(ps: seq<Pattern>, html: string)
    ensures FirstPatternMatch(ps, html).Some? ==> FirstPatternMatch(ps, html).value != []
  {
    var r := FirstPatternMatch(ps, html);
    if r.Some? {
      var k :| 0 <= k < |ps| && Search(ps[k], html) == r && forall j :: 0 <= j < k ==> Search(ps[j], html).None?;
      assert CapShape(ps[k].cap, r.value, ps[k].ignoreCase);
    }
  }

  /** `for pat in patterns: m = re.search(pat, html); if m: ...; break`:
      the capture of the first pattern that matches. */
  method FirstMatch(ps: seq<Pattern>, html: string) returns (found: Option<string>)
    ensures found == FirstPatternMatch(ps, html)
  {
    found := None;
    var i := 0;
    while i < |ps|
      invariant 0 <= i <= |ps|
      invariant found.None?
      invariant forall j :: 0 <= j < i ==> Search(ps[j], html).None?
    {
      var m := Search(ps[i], html);
      if m.Some? {
        found := m;
        FirstPatternAt(ps, html, i);
        return;
      }
      i := i + 1;
    }
  }

  /** `_extract_expires_hash`: the two pattern loops, the query-string
      fallback for a missing half, then the clean-up. */
  method ExtractExpiresHash(html: string) returns (expires: Option<string>, hash: Option<string>)
    ensures Token(expires, hash) == TokenOf(html)
  {
    expires := FirstMatch(ExpiresPatterns, html);
    hash := FirstMatch(HashPatterns, html);
    expires, hash := FillFromQuery(html, expires, hash);
    expires, hash := CleanToken(expires, hash);
  }

  /** The query-string form, consulted only when a half is missing, fills in
      only the missing halves. */
  method FillFromQuery(html: string, expires0: Option<string>, hash0: Option<string>)
    returns (expires: Option<string>, hash: Option<string>)
    ensures Token(expires, hash) == FillHalves(expires0, hash0, QueryTokenSearch(html))
  {
    expires, hash := expires0, hash0;
    if !StrTruthy(expires) || !StrTruthy(hash) {
      var m := QueryTokenSearch(html);
      if m.Some? {
        expires := if StrTruthy(expires) then expires else Some(m.value.0);
        hash := if StrTruthy(hash) then hash else Some(m.value.1);
      }
    }
  }

  /** The final clean-up of `_extract_expires_hash`. */
  method CleanToken(expires0: Option<string>, hash0: Option<string>) returns (expires: Option<string>, hash: Option<string>)
    ensures Token(expires, hash) == Clean(Token(expires0, hash0))
  {
    expires, hash := expires0, hash0;
    if expires.Some? && !IsDigitStr(expires.value) {
      expires := None;
    }
    if hash.Some? {
      var h := Strip(hash.value);
      hash := if |h| < 10 then None else Some(h);
    }
  }

  /** When pattern `i` matches and none before it does, it is the first match. */
  lemma FirstPatternAt(ps: seq<Pattern>, html: string, i: nat)
    requires i < |ps| && Search(ps[i], html).Some?
    requires forall j :: 0 <= j < i ==> Search(ps[j], html).None?
    ensures FirstPatternMatch(ps, html) == Search(ps[i], html)
  {
    var r := FirstPatternMatch(ps, html);
    var k :| 0 <= k < |ps| && Search(ps[k], html) == r && forall j :: 0 <= j < k ==> Search(ps[j], html).None?;
    assert k == i;
  }

  /** A token written as JSON: `"expires":<d>,"hash":"<h>"`. */
  function TokenMarkup(d: string, h: string): string
  {
    "\"expires\":" + d + ",\"hash\":\"" + h + "\""
  }

  /** No quote of `pre` is followed by `e`, `h` or `H`, so neither the
      expires key nor the hash key can start inside it. */
  predicate NoKeyStart(pre: string)
  {
    forall k :: 0 <= k < |pre| && pre[k] == '"' ==> k + 1 < |pre| && pre[k + 1] != 'e' && Lower(pre[k + 1]) != 'h'
  }

  /** A token written as JSON, after markup where no key starts, is found
      whole by the first expires pattern and the first hash pattern, and
      the clean-up keeps both halves: a numeric expires and a hash of at
      least ten characters without surrounding spaces or quotes. */
  lemma TokenOfMarkup(pre: string, d: string, h: string, rest: string)
    requires NoKeyStart(pre)
    requires IsDigitStr(d) && |h| >= 10 && NoOuterSpace(h) && forall k :: 0 <= k < |h| ==> h[k] != '"'
    ensures TokenOf(pre + TokenMarkup(d, h) + rest) == Token(Some(d), Some(h))
  {
    var t := pre + TokenMarkup(d, h) + rest;
    ExpiresOfMarkup(pre, d, h, rest);
    HashOfMarkup(pre, d, h, rest);
    assert RawTokenOf(t) == Token(Some(d), Some(h));
    StripNoop(h);
  }

  /** The first expires pattern matches at the expires key. */
  lemma ExpiresOfMarkup(pre: string, d: string, h: string, rest: string)
    requires NoKeyStart(pre) && IsDigitStr(d)
    ensures FirstPatternMatch(ExpiresPatterns, pre + TokenMarkup(d, h) + rest) == Some(d)
  {
    var t := pre + TokenMarkup(d, h) + rest;
    var a := |pre|;
    var m := "\"expires\":" + d + ",";
    TokenPieces(pre, d, h, rest);
    OccursChars(t, m, a);
    OccursChars(t, pre, 0);
    assert t[a + 10 + |d|] == m[10 + |d|];
    KeyDigitsAt("expires", t, a, d);
    forall k | 0 <= k < a && k + 1 < |t| && t[k] == '"' ensures !CharEq(t[k + 1], 'e', false) {
      assert t[k] == pre[k] && t[k + 1] == pre[k + 1];
    }
    var s := "\"" + "expires" + "\"";
    assert s[0] == '"' && s[1] == 'e';
    NoQuotedLitBefore(t, a, s, false);
    SearchFirstLit(KeyDigits("expires"), t, a);
    FirstPatternAt(ExpiresPatterns, t, 0);
  }

  /** The first hash pattern matches at the hash key. */
  lemma HashOfMarkup(pre: string, d: string, h: string, rest: string)
    requires NoKeyStart(pre) && AllDigits(d)
    requires h != [] && forall k :: 0 <= k < |h| ==> h[k] != '"'
    ensures FirstPatternMatch(HashPatterns, pre + TokenMarkup(d, h) + rest) == Some(h)
  {
    var t := pre + TokenMarkup(d, h) + rest;
    var a := |pre|;
    var m := "\"expires\":" + d + ",";
    var n := a + |m|;
    TokenPieces(pre, d, h, rest);
    OccursChars(t, m, a);
    OccursChars(t, pre, 0);
    KeyQuotedAt("hash", t, n, h);
    var s := "\"" + "hash" + "\"";
    QuotesBeforeHash(pre, d, h, rest, s[1]);
    NoQuotedLitBefore(t, n, s, true);
    SearchFirstLit(KeyQuoted("hash"), t, n);
    FirstPatternAt(HashPatterns, t, 0);
  }

  /** No quote before the hash key is followed by an `h` in either case. */
  lemma QuotesBeforeHash(pre: string, d: string, h: string, rest: string, c: char)
    requires NoKeyStart(pre) && AllDigits(d) && c == 'h'
    ensures var t := pre + TokenMarkup(d, h) + rest;
      forall k :: 0 <= k < |pre| + 11 + |d| && k + 1 < |t| && t[k] == '"' ==> !CharEq(t[k + 1], c, true)
  {
    var t := pre + TokenMarkup(d, h) + rest;
    var a := |pre|;
    var m := "\"expires\":" + d + ",";
    TokenPieces(pre, d, h, rest);
    OccursChars(t, m, a);
    OccursChars(t, pre, 0);
    MarkupQuotes(d);
    forall k | 0 <= k < a + |m| && k + 1 < |t| && t[k] == '"' ensures !CharEq(t[k + 1], c, true) {
      if k < a {
        assert t[k] == pre[k] && t[k + 1] == pre[k + 1];
      } else {
        assert t[k] == m[k - a] && t[k + 1] == m[k - a + 1];
      }
    }
  }

  /** Where the pieces of the token stand in the markup. */
  lemma TokenPieces(pre: string, d: string, h: string, rest: string)
    ensures var t := pre + TokenMarkup(d, h) + rest;
      var a := |pre|;
      && OccursAt(t, pre, 0)
      && OccursAt(t, "\"expires\":" + d + ",", a)
      && OccursAt(t, "\"" + "expires" + "\":", a)
      && OccursAt(t, d, a + |"expires"| + 3)
      && OccursAt(t, "\"" + "hash" + "\":", a + 11 + |d|)
      && OccursAt(t, "\"" + h + "\"", a + 11 + |d| + |"hash"| + 3)
  {
    var u := TokenMarkup(d, h);
    var t := pre + u + rest;
    assert t[..|pre|] == pre;
    MarkupPieces(d, h);
    OccursShift(pre, u, rest, "\"expires\":" + d + ",", 0);
    OccursShift(pre, u, rest, "\"" + "expires" + "\":", 0);
    OccursShift(pre, u, rest, d, 10);
    OccursShift(pre, u, rest, "\"" + "hash" + "\":", 11 + |d|);
    OccursShift(pre, u, rest, "\"" + h + "\"", 18 + |d|);
  }

  lemma MarkupPieces(d: string, h: string)
    ensures var u := TokenMarkup(d, h);
      && OccursAt(u, "\"expires\":" + d + ",", 0)
      && OccursAt(u, "\"" + "expires" + "\":", 0)
      && OccursAt(u, d, 10)
      && OccursAt(u, "\"" + "hash" + "\":", 11 + |d|)
      && OccursAt(u, "\"" + h + "\"", 18 + |d|)
  {
    var u := TokenMarkup(d, h);
    var e := "\"expires\":";
    var q := "\"hash\":";
    assert u == e + d + "," + q + "\"" + h + "\"";
    assert u[0..11 + |d|] == e + d + ",";
    assert u[0..10] == e;
    assert u[10..10 + |d|] == d;
    assert u[11 + |d|..18 + |d|] == q;
    assert u[18 + |d|..20 + |d| + |h|] == "\"" + h + "\"";
  }

  /** An occurrence inside `u` is one inside any markup around `u`. */
  lemma OccursShift(pre: string, u: string, rest: string, w: string, i: nat)
    requires OccursAt(u, w, i)
    ensures OccursAt(pre + u + rest, w, |pre| + i)
  {
    var t := pre + u + rest;
    assert t[|pre| + i..|pre| + i + |w|] == u[i..i + |w|];
  }

  /** The only quotes before the hash key are the two around `expires`. */
  lemma MarkupQuotes(d: string)
    requires AllDigits(d)
    ensures var m := "\"expires\":" + d + ",";
      forall k :: 0 <= k < |m| && m[k] == '"' ==> (k == 0 && m[1] == 'e') || (k == 8 && m[9] == ':')
  {
    var m := "\"expires\":" + d + ",";
    forall k | 10 <= k < 10 + |d| ensures m[k] == d[k - 10] {
    }
  }

  /** The token `"expires":<d>,"hash":"<h>"` on its own. */
  lemma TokenOfJsonToken(d: string, h: string)
    requires IsDigitStr(d) && |h| >= 10 && NoOuterSpace(h) && forall k :: 0 <= k < |h| ==> h[k] != '"'
    ensures TokenOf("\"expires\":" + d + ",\"hash\":\"" + h + "\"") == Token(Some(d), Some(h))
  {
    TokenOfMarkup("", d, h, "");
    assert "" + TokenMarkup(d, h) + "" == TokenMarkup(d, h);
  }

  // ------------------------------------------------------ _fetch_phone_number

  /** The phone field of a reveal reply: formattedPhoneNumber, then
      phoneNumber, then phone, each only if the previous one is falsy. */
  function RevealField(body: Json): Option<Json>
  {
    if body.JObj? then
      Or(Or(Get(body.fields, "formattedPhoneNumber"), Get(body.fields, "phoneNumber")), Get(body.fields, "phone"))
    else None
  }

  /** The normalisation tail of `_fetch_phone_number`. */
  function NormalizeRevealDigits(d: string): (r: Option<int>)
    requires AllDigits(d)
  {
    if d == [] then None
    else
      var d' := if |d| == 10 && d[0] == '0' then "38" + d else d;
      if |d'| < 10 then None else SafeIntStr(d')
  }

  /** `_fetch_phone_number` from the reply on: None for a non-200 status or
      a body that is not JSON, otherwise the normalised phone field. */
  function RevealPhone(resp: HttpResponse): Option<int>
  {
    if resp.status != 200 || resp.body.None? then None
    else NormalizeRevealDigits(StrDigits(RevealField(resp.body.value)))
  }

  lemma DecValue38()
    ensures DecValue("38") == 38
  {
    assert "38"[..1] == "3";
    assert DecValue("3") == 3;
  }

  /** A ten-digit national number starting with 0 gets the country code 38. */
  lemma RevealDigitsNational(d: string)
    requires AllDigits(d) && |d| == 10 && d[0] == '0'
    ensures NormalizeRevealDigits(d) == Some(380_000_000_000 + DecValue(d))
  {
    var p := "38" + d;
    assert NormalizeRevealDigits(d) == SafeIntStr(p);
    DecValueAppend("38", d);
    DecValue38();
    Pow10Ten();
    DecValueBound(d);
    assert DecValue(p) == 38 * 10_000_000_000 + DecValue(d);
    SafeIntOfDigits(p);
  }

  lemma Pow10Ten()
    ensures Pow10(10) == 10_000_000_000
  {
    assert Pow10(5) == 100_000;
  }

  /** The outcomes of the reveal normalisation: no digits or fewer than ten
      give None; ten digits starting with 0 get the 38 prefix; ten or more
      digits otherwise are read through a double, which is exact up to
      fifteen digits and overflows from 310 digits on. */
  lemma RevealDigitsCases(d: string)
    requires AllDigits(d)
    ensures |d| < 10 ==> NormalizeRevealDigits(d).None?
    ensures |d| == 10 && d[0] == '0' ==> NormalizeRevealDigits(d) == Some(380_000_000_000 + DecValue(d))
    ensures |d| >= 10 && !(|d| == 10 && d[0] == '0') ==> NormalizeRevealDigits(d) == TruncSigned(false, DecValue(d), 1)
    ensures 10 <= |d| <= 15 && !(|d| == 10 && d[0] == '0') ==> NormalizeRevealDigits(d) == Some(DecValue(d) as int)
    ensures |d| >= 310 && d[0] != '0' ==> NormalizeRevealDigits(d).None?
  {
    if |d| == 10 && d[0] == '0' {
      RevealDigitsNational(d);
    } else if |d| >= 10 {
      SafeIntOfDigits(d);
      if |d| <= 15 {
        DigitsBelowP53(d);
      }
    }
  }

  /** Fifteen digits or fewer stay below 2^53. */
  lemma DigitsBelowP53(d: string)
    requires AllDigits(d) && |d| <= 15
    ensures DecValue(d) < P53
  {
    DecValueBound(d);
    Pow10Mono(|d|, 15);
    Pow10Known();
  }

  /** A non-200 reply or a body that is not JSON gives no phone; so does a
      body whose chosen field has no digits. */
  lemma RevealPhoneFailures(resp: HttpResponse)
    ensures resp.status != 200 ==> RevealPhone(resp).None?
    ensures resp.body.None? ==> RevealPhone(resp).None?
    ensures resp.status == 200 && resp.body.Some? && StrDigits(RevealField(resp.body.value)) == [] ==>
      RevealPhone(resp).None?
  {
  }

  /** A truthy formattedPhoneNumber decides the result; phoneNumber is read
      only when it is falsy, and phone only when both are. */
  lemma RevealFieldPreference(m: Obj)
    ensures TruthyOpt(Get(m, "formattedPhoneNumber")) ==> RevealField(JObj(m)) == Get(m, "formattedPhoneNumber")
    ensures !TruthyOpt(Get(m, "formattedPhoneNumber")) && TruthyOpt(Get(m, "phoneNumber")) ==>
      RevealField(JObj(m)) == Get(m, "phoneNumber")
    ensures !TruthyOpt(Get(m, "formattedPhoneNumber")) && !TruthyOpt(Get(m, "phoneNumber")) ==>
      RevealField(JObj(m)) == Get(m, "phone")
  {
  }

  /** A reply whose formattedPhoneNumber has the digits 380931234567 (such
      as "+38 093 123 45 67") gives that number. */
  lemma RevealPhoneExample(raw: string)
    requires DigitsOnly(raw) == "380931234567"
    ensures RevealPhone(HttpResponse(200, Some(JObj(map["formattedPhoneNumber" := JStr(raw)])))) == Some(380931234567)
  {
    var m := map["formattedPhoneNumber" := JStr(raw)];
    assert raw != [];
    assert RevealField(JObj(m)) == Some(JStr(raw));
    RevealDigitsCases("380931234567");
    DecValueExample();
  }

  // --------------------------------------------------------------- parse_card

  /** One listing page: its raw markup and what the HTML parser finds in it. */
  datatype Page = Page(
    html: string,
    ldBlocks: seq<Option<Json>>,  // each `ld+json` script, decoded; None if empty or not JSON
    ogTitle: Option<string>,      // `content` of meta og:title
    ogImage: Option<string>,      // `content` of meta og:image
    imgSrcs: seq<Option<string>>, // `src` of each <img>
    text: string)                 // `soup.get_text(" ", strip=True)`

  /** The record `parse_card` returns. */
  datatype Record = Record(
    title: Option<Json>,
    priceUsd: Option<int>,
    odometer: Option<int>,
    username: Option<string>,
    phoneNumber: Option<int>,
    imageUrl: Option<string>,
    imagesCount: Option<nat>,
    carNumber: Option<string>,
    carVin: Option<Json>)

  /** A call of the reveal endpoint: a reply, or an exception from the client. */
  datatype RevealCall = Replied(resp: HttpResponse) | CallRaised

  /** `parse_card` either returns a record or raises: from the reveal call,
      or from `int()` of a captured digit run past the digit limit. */
  datatype CardOutcome = Card(rec: Record) | CardRaised

  /** `og:title` when it is non-empty, else the JSON-LD `name`. */
  function TitleOf(page: Page, vehicle: Obj): (r: Option<Json>)
    ensures page.ogTitle.Some? && page.ogTitle.value != [] ==> r == Some(JStr(page.ogTitle.value))
    ensures !(page.ogTitle.Some? && page.ogTitle.value != []) ==> r == Get(vehicle, "name")
  {
    Or(if page.ogTitle.Some? then Some(JStr(page.ogTitle.value)) else None, Get(vehicle, "name"))
  }

  /** The odometer reading: `_safe_int` of `value` when `mileageFromOdometer` is a dict. */
  function OdometerOf(vehicle: Obj): (r: Option<int>)
    ensures AsDict(Get(vehicle, "mileageFromOdometer")).None? ==> r.None?
  {
    match AsDict(Get(vehicle, "mileageFromOdometer"))
    case Some(mv) => SafeInt(Get(mv, "value"))
    case None => None
  }

  /** `vehicleIdentificationNumber`, or `vin` when the former is falsy. */
  function VinOf(vehicle: Obj): (r: Option<Json>)
    ensures TruthyOpt(Get(vehicle, "vehicleIdentificationNumber")) ==> r == Get(vehicle, "vehicleIdentificationNumber")
    ensures !TruthyOpt(Get(vehicle, "vehicleIdentificationNumber")) ==> r == Get(vehicle, "vin")
  {
    Or(Get(vehicle, "vehicleIdentificationNumber"), Get(vehicle, "vin"))
  }

  /** `m.group(0).strip()` of the plate search; the strip changes nothing,
      since a plate starts and ends with a letter. */
  function CarNumberOf(text: string): (r: Option<string>)
    ensures r == PlateSearch(text)
  {
    match PlateSearch(text)
    case Some(p) =>
      assert !IsSpace(p[0]) && !IsSpace(p[|p| - 1]);
      StripNoop(p);
      Some(Strip(p))
    case None => None
  }

  /** The endpoint is called only when auto id, expires and hash are all truthy. */
  predicate CanReveal(id: Option<nat>, t: Token)
  {
    id.Some? && id.value != 0 && StrTruthy(t.expires) && StrTruthy(t.hash)
  }

  /** Every field of the record except the phone, which needs the endpoint. */
  function BaseRecord(page: Page): Record
  {
    var vehicle := VehicleOf(page.ldBlocks);
    Record(
      TitleOf(page, vehicle),
      PriceUsd(vehicle, page.html),
      OdometerOf(vehicle),
      Username(page.html),
      None,
      page.ogImage,
      ImagesCountOf(vehicle, page.html, page.imgSrcs),
      CarNumberOf(page.text),
      VinOf(vehicle))
  }

  /** A capture that `int()` refuses: more digits than the limit. */
  predicate OverLimit(d: Option<string>)
  {
    d.Some? && |d.value| > MaxStrDigits
  }

  /** `_extract_images_count` raises when the JSON-LD image gives no count
      and the first counter found is too long for `int()`. */
  predicate ImagesCountRaises(vehicle: Obj, html: string)
  {
    var img := Get(vehicle, "image");
    && !(img.Some? && img.value.JArr? && img.value.items != [])
    && !(img.Some? && img.value.JStr? && Strip(img.value.s) != [])
    && OverLimit(FirstPatternMatch(ImageCountPatterns, html))
  }

  /** `_extract_price_usd` raises only on a price fallback too long for
      `int()`: the USD marker captures at most seven digits. */
  predicate PriceUsdRaises(vehicle: Obj, html: string)
  {
    && UsdOffers(vehicle).None?
    && Search(UsdMarker, html).None?
    && OverLimit(FirstPatternMatch(PriceFallbackPatterns, html))
  }

  /** `_extract_auto_id` raises when the digit run it reads, from the markup
      or from the `_<digits>.html` suffix, is too long for `int()`. */
  predicate AutoIdRaises(html: string, vehicle: Obj)
  {
    match Search(AutoIdPattern, html)
    case Some(d) => |d| > MaxStrDigits
    case None =>
      var vid := Or(Get(vehicle, "@id"), Get(vehicle, "url"));
      vid.Some? && vid.value.JStr? && OverLimit(Search(IdSuffix, vid.value.s))
  }

  /** One of the three extractors run before the reveal call raises. */
  predicate IntRaised(page: Page)
  {
    var vehicle := VehicleOf(page.ldBlocks);
    || ImagesCountRaises(vehicle, page.html)
    || PriceUsdRaises(vehicle, page.html)
    || AutoIdRaises(page.html, vehicle)
  }

  /** `parse_card`; `phones` stands for the request to
      `/users/phones/{auto_id}?expires=...&hash=...`. The image count, the
      price and the auto id are extracted before that request, so a
      ValueError of theirs comes first. */
  function ParseCard(page: Page, phones: (nat, string, string) -> RevealCall): CardOutcome
  {
    if IntRaised(page) then CardRaised else CardWithPhone(page, phones)
  }

  /** What `parse_card` gives once the extractors have read their digits:
      the base record, with the phone of the reveal call when one is made. */
  function CardWithPhone(page: Page, phones: (nat, string, string) -> RevealCall): CardOutcome
  {
    var id := AutoId(page.html, VehicleOf(page.ldBlocks));
    var token := TokenOf(page.html);
    if CanReveal(id, token) then
      match phones(id.value, token.expires.value, token.hash.value)
      case CallRaised => CardRaised
      case Replied(resp) => Card(BaseRecord(page).(phoneNumber := RevealPhone(resp)))
    else Card(BaseRecord(page))
  }

  /** The reveal endpoint is the only source of the phone; `parse_card`
      raises exactly when an extractor's `int()` does or the reveal call
      does; the endpoint is consulted only with a truthy auto id, expires and
      hash, and with exactly the values extracted from the page. */
  lemma ParseCardPhone(page: Page, phones: (nat, string, string) -> RevealCall)
    ensures var id := AutoId(page.html, VehicleOf(page.ldBlocks));
      var t := TokenOf(page.html);
      && (ParseCard(page, phones).CardRaised? <==>
            IntRaised(page) || (CanReveal(id, t) && phones(id.value, t.expires.value, t.hash.value).CallRaised?))
      && (ParseCard(page, phones).Card? && ParseCard(page, phones).rec.phoneNumber.Some? ==>
            CanReveal(id, t) && phones(id.value, t.expires.value, t.hash.value).Replied?
            && ParseCard(page, phones).rec.phoneNumber == RevealPhone(phones(id.value, t.expires.value, t.hash.value).resp))
      && (!IntRaised(page) && !CanReveal(id, t) ==> ParseCard(page, phones) == Card(BaseRecord(page)))
  {
  }

  /** Apart from the phone, the record does not depend on the endpoint. */
  lemma ParseCardIndependent(page: Page, p1: (nat, string, string) -> RevealCall, p2: (nat, string, string) -> RevealCall)
    requires ParseCard(page, p1).Card? && ParseCard(page, p2).Card?
    ensures ParseCard(page, p1).rec.(phoneNumber := None) == ParseCard(page, p2).rec.(phoneNumber := None)
    ensures ParseCard(page, p1).rec.(phoneNumber := None) == BaseRecord(page)
  {
  }

  /** A page whose markup opens with `"autoId":123456,` followed by the
      token `"expires":<d>,"hash":"<h>"` has the endpoint called with
      123456, `d` and `h`; a reply whose formattedPhoneNumber has the digits
      380931234567 puts that number in the record, and only there. */
  lemma ParseCardRevealExample(page: Page, phones: (nat, string, string) -> RevealCall, d: string, h: string, raw: string)
    requires page.html == "\"autoId\":123456," + TokenMarkup(d, h)
    requires IsDigitStr(d) && |h| >= 10 && NoOuterSpace(h) && forall k :: 0 <= k < |h| ==> h[k] != '"'
    requires DigitsOnly(raw) == "380931234567"
    requires phones(123456, d, h) == Replied(HttpResponse(200, Some(JObj(map["formattedPhoneNumber" := JStr(raw)]))))
    ensures ParseCard(page, phones) == Card(BaseRecord(page).(phoneNumber := Some(380931234567)))
  {
    RevealExampleNoRaise(page, d, h);
    RevealExampleCall(page.html, VehicleOf(page.ldBlocks), d, h);
    RevealPhoneExample(raw);
  }

  /** On that page the endpoint is called with 123456, `d` and `h`. */
  lemma RevealExampleCall(html: string, vehicle: Obj, d: string, h: string)
    requires html == "\"autoId\":123456," + TokenMarkup(d, h)
    requires IsDigitStr(d) && |h| >= 10 && NoOuterSpace(h) && forall k :: 0 <= k < |h| ==> h[k] != '"'
    ensures AutoId(html, vehicle) == Some(123456) && TokenOf(html) == Token(Some(d), Some(h))
  {
    var pre := "\"autoId\":123456,";
    AutoIdOfMarkup(TokenMarkup(d, h), vehicle);
    AutoIdPrefixStartsNoKey();
    assert pre + TokenMarkup(d, h) + "" == html;
    TokenOfMarkup(pre, d, h, "");
  }

  /** None of the extractors run before the reveal call raises on that
      page: the auto id has six digits, and neither a counter nor a price
      fallback key occurs in the markup. */
  lemma RevealExampleNoRaise(page: Page, d: string, h: string)
    requires page.html == "\"autoId\":123456," + TokenMarkup(d, h)
    requires AllDigits(d) && |h| >= 10 && forall k :: 0 <= k < |h| ==> h[k] != '"'
    ensures !IntRaised(page)
  {
    AutoIdSearchOfMarkup(TokenMarkup(d, h));
    RevealExampleNoKeys(d, h);
  }

  /** The counter keys and the price fallback keys all start with `c`, `p`
      or `u`, which no quote of the page is followed by, except the opening
      quote of the hash value, whose key could only close on the last quote. */
  lemma RevealExampleNoKeys(d: string, h: string)
    requires AllDigits(d) && |h| >= 10 && forall k :: 0 <= k < |h| ==> h[k] != '"'
    ensures var t := "\"autoId\":123456," + TokenMarkup(d, h);
      FirstPatternMatch(ImageCountPatterns, t).None? && FirstPatternMatch(PriceFallbackPatterns, t).None?
  {
    var t := "\"autoId\":123456," + TokenMarkup(d, h);
    forall k | 0 <= k < |ImageCountPatterns| ensures Search(ImageCountPatterns[k], t).None? {
      var key := ["countPhotos", "photosCount", "countPhoto", "photoCount", "count_images", "photos"][k];
      RevealExampleKeyAbsent(ImageCountPatterns[k], key, d, h);
    }
    forall k | 0 <= k < |PriceFallbackPatterns| ensures Search(PriceFallbackPatterns[k], t).None? {
      RevealExampleKeyAbsent(PriceFallbackPatterns[k], ["priceUsd", "usdPrice"][k], d, h);
    }
  }

  /** One such key. */
  lemma RevealExampleKeyAbsent(p: Pattern, key: string, d: string, h: string)
    requires |p.before| >= 3 && p.before[0] == Lit("\"" + key + "\"") && !p.ignoreCase
    requires p.before[1] == Spaces && p.before[2] == Lit(":")
    requires key != [] && key[0] != 'a' && key[0] != ':' && key[0] != 'e' && key[0] != 'h'
    requires AllDigits(d) && |h| >= 10 && forall k :: 0 <= k < |h| ==> h[k] != '"'
    ensures Search(p, "\"autoId\":123456," + TokenMarkup(d, h)).None?
  {
    RevealExampleQuotes(d, h);
    QuotedKeyAbsent(p, key, "\"autoId\":123456," + TokenMarkup(d, h), 34 + |d|);
  }

  /** Where the quotes of that page stand: before the one that opens the
      hash value, each is followed by `a`, `:`, `e` or `h`; after it, only
      the last character is a quote. */
  lemma RevealExampleQuotes(d: string, h: string)
    requires AllDigits(d) && |h| >= 10 && forall k :: 0 <= k < |h| ==> h[k] != '"'
    ensures var t := "\"autoId\":123456," + TokenMarkup(d, h);
      var n := 34 + |d|;
      && n + 1 < |t| && t[n] == '"' && t[|t| - 1] == '"'
      && (forall k :: n < k < |t| - 1 ==> t[k] != '"')
      && (forall k :: 0 <= k < n && k + 1 < |t| && t[k] == '"' ==>
            t[k + 1] == 'a' || t[k + 1] == ':' || t[k + 1] == 'e' || t[k + 1] == 'h')
  {
    var a := "\"autoId\":123456,\"expires\":";
    var b := ",\"hash\":\"";
    var t := "\"autoId\":123456," + TokenMarkup(d, h);
    var n := 34 + |d|;
    assert t == a + d + b + h + "\"";
    assert |a| == 26 && |b| == 9;
    forall k | 0 <= k < 26 ensures t[k] == a[k] {
    }
    forall k | 26 <= k < 26 + |d| ensures t[k] == d[k - 26] {
    }
    forall k | 26 + |d| <= k < 35 + |d| ensures t[k] == b[k - 26 - |d|] {
    }
    forall k | n < k < |t| - 1 ensures t[k] == h[k - n - 1] {
    }
    forall k | 0 <= k < n && k + 1 < |t| && t[k] == '"'
      ensures t[k + 1] == 'a' || t[k + 1] == ':' || t[k + 1] == 'e' || t[k + 1] == 'h'
    {
      if k < 26 {
        assert a[k] == '"';
      } else if k >= 26 + |d| {
        assert b[k - 26 - |d|] == '"';
      }
    }
  }

  /** A counter longer than `int()` accepts makes `parse_card` raise before
      any reveal call, whatever the endpoint would answer. */
  lemma ParseCardLongCounter(page: Page, phones: (nat, string, string) -> RevealCall, d: string)
    requires page.ldBlocks == [] && page.html == "\"countPhotos\":" + d
    requires AllDigits(d) && |d| > MaxStrDigits
    ensures ParseCard(page, phones) == CardRaised
  {
    var t := page.html;
    var key := "\"" + "countPhotos" + "\":";
    assert t[..14] == key && t[14..] == d;
    KeyDigitsAt("countPhotos", t, 0, d);
    SearchFirstAt(ImageCountPatterns[0], t, 0);
    EmptyVehicle(page.ldBlocks);
    assert ImagesCountRaises(VehicleOf(page.ldBlocks), t);
  }

  /** `"autoId":123456` at the start of the markup is what the key finds. */
  lemma AutoIdSearchOfMarkup(rest: string)
    ensures Search(AutoIdPattern, "\"autoId\":123456," + rest) == Some("123456")
  {
    var t := "\"autoId\":123456," + rest;
    var u := "\"autoId\":123456,";
    assert t[..16] == u;
    assert u[..9] == "\"" + "autoId" + "\":" && u[9..15] == "123456";
    assert t[..9] == u[..9] && t[9..15] == u[9..15];
    assert t[15] == u[15] == ',';
    KeyDigitsAt("autoId", t, 0, "123456");
    SearchFirstAt(AutoIdPattern, t, 0);
  }

  /** `"autoId":123456` at the start of the markup is the auto id. */
  lemma AutoIdOfMarkup(rest: string, vehicle: Obj)
    ensures AutoId("\"autoId\":123456," + rest, vehicle) == Some(123456)
  {
    var t := "\"autoId\":123456," + rest;
    AutoIdSearchOfMarkup(rest);
    DecValue123456();
  }

  lemma DecValue123456()
    ensures DecValue("123456") == 123456
  {
    DecValue12345();
    assert "123456"[..5] == "12345";
  }

  lemma AutoIdPrefixStartsNoKey()
    ensures NoKeyStart("\"autoId\":123456,")
  {
  }

  /** A page without JSON-LD, og:image or a non-empty og:title, where
      none of the markup patterns, no CDN image and no plate is found, gives
      a record with every field absent, without a reveal call. */
  lemma NoDataGivesEmptyRecord(page: Page, phones: (nat, string, string) -> RevealCall)
    requires page.ldBlocks == [] && page.ogImage.None? && (page.ogTitle.None? || page.ogTitle.value == [])
    requires Search(AutoIdPattern, page.html).None?
    requires FirstPatternMatch(ExpiresPatterns, page.html).None? && QueryTokenSearch(page.html).None?
    requires Search(UserNameBracket, page.html).None? && Search(UserNameColon, page.html).None?
    requires Search(UsdMarker, page.html).None? && FirstPatternMatch(PriceFallbackPatterns, page.html).None?
    requires FirstPatternMatch(ImageCountPatterns, page.html).None? && RiaSrcs(page.imgSrcs) == []
    requires PlateSearch(page.text).None?
    ensures ParseCard(page, phones) == Card(Record(None, None, None, None, None, None, None, None, None))
  {
    var v := VehicleOf(page.ldBlocks);
    EmptyVehicle(page.ldBlocks);
    NoAutoId(page.html);
    NoCaptureNoRaise(page);
    assert RawTokenOf(page.html).expires.None?;
    assert ParseCard(page, phones) == Card(BaseRecord(page));
    NoDataFields(page);
  }

  /** Without an auto id key, a counter or a price fallback in the markup,
      and without JSON-LD, no extractor has a digit run to choke on. */
  lemma NoCaptureNoRaise(page: Page)
    requires VehicleOf(page.ldBlocks) == map[] && Search(AutoIdPattern, page.html).None?
    requires FirstPatternMatch(PriceFallbackPatterns, page.html).None?
    requires FirstPatternMatch(ImageCountPatterns, page.html).None?
    ensures !IntRaised(page)
  {
  }

  lemma EmptyCaptures()
    ensures FirstPatternMatch(PriceFallbackPatterns, "").None? && FirstPatternMatch(ImageCountPatterns, "").None?
  {
    assert LiteralStart(PriceFallbackPatterns[0]) && LiteralStart(PriceFallbackPatterns[1]);
    FirstPatternMatchEmpty(PriceFallbackPatterns);
    ImageLiteralStart();
    FirstPatternMatchEmpty(ImageCountPatterns);
  }

  lemma NoAutoId(html: string)
    requires Search(AutoIdPattern, html).None?
    ensures AutoId(html, map[]).None?
  {
  }

  lemma NoDataFields(page: Page)
    requires page.ldBlocks == [] && page.ogImage.None? && (page.ogTitle.None? || page.ogTitle.value == [])
    requires Search(UserNameBracket, page.html).None? && Search(UserNameColon, page.html).None?
    requires Search(UsdMarker, page.html).None? && FirstPatternMatch(PriceFallbackPatterns, page.html).None?
    requires FirstPatternMatch(ImageCountPatterns, page.html).None? && RiaSrcs(page.imgSrcs) == []
    requires PlateSearch(page.text).None?
    ensures BaseRecord(page) == Record(None, None, None, None, None, None, None, None, None)
  {
    var v := VehicleOf(page.ldBlocks);
    EmptyVehicle(page.ldBlocks);
    assert TitleOf(page, v).None? && OdometerOf(v).None? && VinOf(v).None?;
    assert PriceUsd(v, page.html).None?;
    assert ImagesCountOf(v, page.html, page.imgSrcs).None?;
  }

  /** A page with no structured data, no markup and no text gives a record
      with every field absent, without a reveal call. */
  lemma EmptyPageGivesEmptyRecord(page: Page, phones: (nat, string, string) -> RevealCall)
    requires page.html == [] && page.ldBlocks == [] && page.text == [] && page.imgSrcs == []
    requires page.ogTitle.None? && page.ogImage.None?
    ensures ParseCard(page, phones) == Card(Record(None, None, None, None, None, None, None, None, None))
  {
    EmptyVehicle(page.ldBlocks);
    EmptyAutoId();
    EmptyCaptures();
    NoCaptureNoRaise(page);
    assert AutoId(page.html, VehicleOf(page.ldBlocks)).None?;
    assert ParseCard(page, phones) == Card(BaseRecord(page));
    EmptyBaseRecord(page);
  }

  lemma EmptyVehicle(blocks: seq<Option<Json>>)
    requires blocks == []
    ensures VehicleOf(blocks) == map[]
  {
    assert Candidates(blocks) == [];
  }

  lemma EmptyBaseRecord(page: Page)
    requires page.html == [] && page.ldBlocks == [] && page.text == [] && page.imgSrcs == []
    requires page.ogTitle.None? && page.ogImage.None?
    ensures BaseRecord(page) == Record(None, None, None, None, None, None, None, None, None)
  {
    var v := VehicleOf(page.ldBlocks);
    EmptyVehicle(page.ldBlocks);
    EmptyFields();
    assert TitleOf(page, v).None? && OdometerOf(v).None? && VinOf(v).None?;
  }

  lemma EmptyAutoId()
    ensures AutoId("", map[]).None?
  {
    EmptyNoMatch(AutoIdPattern);
  }

  /** No token can be found in empty markup. */
  lemma EmptyToken()
    ensures TokenOf("") == Token(None, None)
  {
    EmptyTokenSearches();
    assert RawTokenOf("") == Token(None, None);
  }

  lemma EmptyTokenSearches()
    ensures FirstPatternMatch(ExpiresPatterns, "").None?
    ensures FirstPatternMatch(HashPatterns, "").None?
    ensures QueryTokenSearch("").None?
  {
    ExpiresLiteralStart();
    FirstPatternMatchEmpty(ExpiresPatterns);
    HashLiteralStart();
    FirstPatternMatchEmpty(HashPatterns);
    EmptyQueryToken();
  }

  lemma EmptyQueryToken()
    ensures QueryTokenSearch("").None?
  {
    assert QueryTokenAt("", 0).None? by { assert AltKeyEnd("", 0, ExpiresKeys).None?; }
  }

  /** No field can be read from empty markup, no image and no JSON-LD. */
  lemma EmptyFields()
    ensures PriceUsd(map[], "").None?
    ensures ImagesCountOf(map[], "", []).None?
    ensures Username("").None?
    ensures CarNumberOf("").None?
  {
    EmptyPrice();
    EmptyImagesCount();
    EmptyNoMatch(UserNameBracket);
    EmptyNoMatch(UserNameColon);
    assert PlateSearch("").None?;
  }

  lemma EmptyPrice()
    ensures PriceUsd(map[], "").None?
  {
    assert LiteralStart(PriceFallbackPatterns[0]) && LiteralStart(PriceFallbackPatterns[1]);
    FirstPatternMatchEmpty(PriceFallbackPatterns);
    EmptyNoMatch(UsdMarker);
  }

  lemma EmptyImagesCount()
    ensures ImagesCountOf(map[], "", []).None?
  {
    ImageLiteralStart();
    FirstPatternMatchEmpty(ImageCountPatterns);
  }

  /** The pattern starts with a non-empty literal, possibly after an optional
      backslash. */
  predicate LiteralStart(p: Pattern)
  {
    && p.before != []
    && ((p.before[0].Lit? && p.before[0].s != [])
        || (p.before[0] == OptBackslash && |p.before| >= 2 && p.before[1].Lit? && p.before[1].s != []))
  }

  /** Such a pattern cannot match the empty string. */
  lemma EmptyNoMatch(p: Pattern)
    requires LiteralStart(p)
    ensures Search(p, "").None?
  {
    assert MatchAt(p, "", 0).None?;
    SearchLeftmost(p, "");
  }

  lemma FirstPatternMatchEmpty(ps: seq<Pattern>)
    requires forall k :: 0 <= k < |ps| ==> LiteralStart(ps[k])
    ensures FirstPatternMatch(ps, "").None?
  {
    forall k | 0 <= k < |ps| ensures Search(ps[k], "").None? {
      EmptyNoMatch(ps[k]);
    }
  }

  lemma ImageLiteralStart()
    ensures forall k :: 0 <= k < |ImageCountPatterns| ==> LiteralStart(ImageCountPatterns[k])
  {
  }

  lemma ExpiresLiteralStart()
    ensures forall k :: 0 <= k < |ExpiresPatterns| ==> LiteralStart(ExpiresPatterns[k])
  {
  }

  lemma HashLiteralStart()
    ensures forall k :: 0 <= k < |HashPatterns| ==> LiteralStart(HashPatterns[k])
  {
  }
}
