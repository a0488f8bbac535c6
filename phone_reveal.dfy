/** The interactive reveal path: the phone normaliser of the browser
    fallback, the click on a "show" control, the polling of the phone
    locators and the last-resort scan of the whole document.

    The browser is replaced by what it reports: for each click target
    whether it exists and whether the click went through, for each polling
    round and locator what `inner_text` gave, and the final page content. */
module PhoneReveal {
  import opened Text
  import opened Markup

  // --------------------------------------------------------- _normalize_phone

  /** `38` followed by ten digits starts at `k` of the digit string `d`. */
  predicate Run38At(d: string, k: nat)
  {
    k + 12 <= |d| && d[k] == '3' && d[k + 1] == '8'
  }

  /** `re.search(r"38\d{10}", d)` on a digit string, scanning from `i`: the
      leftmost start. */
  function Find38(d: string, i: nat): (r: Option<nat>)
    ensures r.Some? ==> i <= r.value && Run38At(d, r.value)
    ensures forall k: nat :: i <= k && (r.None? || k < r.value) ==> !Run38At(d, k)
    decreases |d| - i
  {
    if i + 12 > |d| then None
    else if Run38At(d, i) then Some(i)
    else Find38(d, i + 1)
  }

  /** The digits after the national-number fix: a ten-digit string starting
      with 0 gets the prefix 38. */
  function Prefixed(d: string): (r: string)
    requires AllDigits(d)
    ensures AllDigits(r)
  {
    if |d| == 10 && d[0] == '0' then "38" + d else d
  }

  /** `_normalize_phone`: None without digits; a twelve-digit string starting
      with 38 (after the national fix) as it is; otherwise the first embedded
      `38` + ten digits; otherwise None. */
  function NormalizePhone(raw: string): (r: Option<nat>)
  {
    var digits := DigitsOnly(raw);
    if digits == [] then None
    else
      var d := Prefixed(digits);
      if |d| == 12 && d[0] == '3' && d[1] == '8' then Some(DecValue(d))
      else match Find38(d, 0)
        case Some(k) => Some(DecValue(d[k..k + 12]))
        case None => None
  }

  /** The value of a twelve-digit string starting with 38. */
  lemma Value38(s: string)
    requires AllDigits(s) && |s| == 12 && s[0] == '3' && s[1] == '8'
    ensures 380_000_000_000 <= DecValue(s) < 390_000_000_000
  {
    var b := s[2..];
    assert s == "38" + b;
    PrefixValue(b);
    DecValueBound(b);
    assert Pow10(10) == 10_000_000_000 by { assert Pow10(5) == 100_000; }
  }

  /** Every result is `38` followed by ten digits: a twelve-digit number in
      [380000000000, 390000000000). */
  lemma NormalizePhoneRange(raw: string)
    ensures NormalizePhone(raw).Some? ==> 380_000_000_000 <= NormalizePhone(raw).value < 390_000_000_000
  {
    var digits := DigitsOnly(raw);
    if digits != [] {
      var d := Prefixed(digits);
      if |d| == 12 && d[0] == '3' && d[1] == '8' {
        Value38(d);
      } else if Find38(d, 0).Some? {
        var k := Find38(d, 0).value;
        Value38(d[k..k + 12]);
      }
    }
  }

  /** The twelve-digit string that a result is read from. */
  lemma NormalizePhoneSource(raw: string)
    ensures NormalizePhone(raw).Some? ==>
      exists s :: AllDigits(s) && |s| == 12 && s[0] == '3' && s[1] == '8' && NormalizePhone(raw).value == DecValue(s)
  {
    var digits := DigitsOnly(raw);
    if digits != [] {
      var d := Prefixed(digits);
      if |d| == 12 && d[0] == '3' && d[1] == '8' {
        assert NormalizePhone(raw).value == DecValue(d);
      } else if Find38(d, 0).Some? {
        var k := Find38(d, 0).value;
        var s := d[k..k + 12];
        assert NormalizePhone(raw).value == DecValue(s);
      }
    }
  }

  /** A twelve-digit string starting with 38 normalises to its own value. */
  lemma NormalizeTwelve(s: string)
    requires AllDigits(s) && |s| == 12 && s[0] == '3' && s[1] == '8'
    ensures NormalizePhone(s) == Some(DecValue(s))
  {
    DigitsOnlyOfDigits(s);
  }

  /** Re-normalising the decimal form of a result gives the same result. */
  lemma NormalizePhoneIdempotent(raw: string)
    requires NormalizePhone(raw).Some?
    ensures NormalizePhone(Decimal(NormalizePhone(raw).value)) == NormalizePhone(raw)
  {
    NormalizePhoneSource(raw);
    var s :| AllDigits(s) && |s| == 12 && s[0] == '3' && s[1] == '8' && NormalizePhone(raw).value == DecValue(s);
    DecimalOfDecValue(s);
    NormalizeTwelve(s);
  }

  /** Input without digits gives None. */
  lemma NormalizePhoneNoDigits(raw: string)
    requires forall i :: 0 <= i < |raw| ==> !IsDigit(raw[i])
    ensures NormalizePhone(raw).None?
  {
    DigitsOnlyEmpty(raw);
  }

  /** Twelve digits that do not start with 38 give None: no embedded run fits. */
  lemma NormalizePhoneTwelveOther(raw: string)
    requires |DigitsOnly(raw)| == 12 && !(DigitsOnly(raw)[0] == '3' && DigitsOnly(raw)[1] == '8')
    ensures NormalizePhone(raw).None?
  {
    var d := DigitsOnly(raw);
    assert Prefixed(d) == d;
    assert !Run38At(d, 0);
  }

  /** Longer digit strings give the first embedded `38` + ten digits. */
  lemma NormalizePhoneLonger(raw: string)
    requires |DigitsOnly(raw)| > 12
    ensures var d := DigitsOnly(raw);
      NormalizePhone(raw) == (match Find38(d, 0) case Some(k) => Some(DecValue(d[k..k + 12])) case None => None)
  {
  }

  /** A national number `0XXXXXXXXX` (ten digits) gets the country code. */
  lemma NormalizePhoneNational(raw: string)
    requires |DigitsOnly(raw)| == 10 && DigitsOnly(raw)[0] == '0'
    ensures NormalizePhone(raw) == Some(380_000_000_000 + DecValue(DigitsOnly(raw)))
  {
    var d := DigitsOnly(raw);
    var e := "38" + d;
    assert Prefixed(d) == e;
    assert |e| == 12 && e[0] == '3' && e[1] == '8';
    PrefixValue(d);
  }

  /** Prefixing ten digits with 38 adds 380000000000. */
  lemma PrefixValue(d: string)
    requires AllDigits(d) && |d| == 10
    ensures AllDigits("38" + d) && DecValue("38" + d) == 380_000_000_000 + DecValue(d)
  {
    DecValueAppend("38", d);
    assert "38"[..1] == "3";
    assert DecValue("38") == 38;
    assert Pow10(10) == 10_000_000_000 by { assert Pow10(5) == 100_000; }
  }

  /** Only the digits of the input matter. */
  lemma NormalizePhoneDigitsOnly(raw: string)
    ensures NormalizePhone(raw) == NormalizePhone(DigitsOnly(raw))
  {
    DigitsOnlyOfDigits(DigitsOnly(raw));
  }

  /** The worked examples: a national number, the full international form,
      and any input (such as `tel:+38(093)123-45-67`) whose digits are the
      full international form. */
  lemma NormalizePhoneExamples(link: string)
    requires DigitsOnly(link) == "380931234567"
    ensures NormalizePhone("0931234567") == Some(380931234567)
    ensures NormalizePhone("380931234567") == Some(380931234567)
    ensures NormalizePhone(link) == Some(380931234567)
  {
    ExampleFull();
    ExampleNational();
    NormalizePhoneDigitsOnly(link);
  }

  lemma ExampleFull()
    ensures NormalizePhone("380931234567") == Some(380931234567)
  {
    DecValueExample();
    NormalizeTwelve("380931234567");
  }

  lemma ExampleNational()
    ensures NormalizePhone("0931234567") == Some(380931234567)
  {
    ExampleNationalDigits();
    NationalIsFull("0931234567");
    ExampleFull();
  }

  lemma ExampleNationalDigits()
    ensures AllDigits("0931234567") && "38" + "0931234567" == "380931234567"
  {
  }

  /** A national number normalises like its international form. */
  lemma NationalIsFull(d: string)
    requires AllDigits(d) && |d| == 10 && d[0] == '0'
    ensures NormalizePhone(d) == NormalizePhone("38" + d)
  {
    DigitsOnlyOfDigits(d);
    DigitsOnlyOfDigits("38" + d);
  }

  /** Every result is a non-zero number, so the `if phone:` checks after a
      normalisation never reject one. */
  lemma NormalizedTruthy(raw: string)
    ensures NormalizePhone(raw).Some? ==> NormalizePhone(raw).value != 0
  {
    NormalizePhoneRange(raw);
  }

  /** `_normalize_phone(x)` followed by `if phone:` — None and 0 are rejected. */
  function TruthyPhone(raw: string): (r: Option<nat>)
    ensures r == NormalizePhone(raw)
  {
    NormalizedTruthy(raw);
    var p := NormalizePhone(raw);
    if p.Some? && p.value != 0 then p else None
  }

  // ------------------------------------------------------- the reveal click

  /** What the page reports for one click target: no element
      (`count() == 0`), an element whose scroll or click raised, or a click
      that went through. */
  datatype ClickOutcome = Absent | ClickFails | ClickOk

  /** The primary "show" link next to the masked number. */
  const ShowLink: string := "span.mhide + a"

  /** The fallback "show" controls, in the order they are tried. */
  const ShowFallbacks: seq<string> := [
    "a:has-text('показати')",
    "a:has-text('Показати')",
    "a:has-text('Показать')",
    "button:has-text('Показати телефон')",
    "button:has-text('Показать телефон')"
  ]

  /** Index of the first selector whose click goes through, `|sels|` if none. */
  function FirstOk(click: string -> ClickOutcome, sels: seq<string>): (r: nat)
    ensures r <= |sels|
    ensures forall k :: 0 <= k < r ==> click(sels[k]) != ClickOk
    ensures r < |sels| ==> click(sels[r]) == ClickOk
  {
    if sels == [] then 0
    else if click(sels[0]) == ClickOk then 0
    else 1 + FirstOk(click, sels[1..])
  }

  /** The value of `clicked` after the primary click and the fallbacks. */
  predicate Clicked(click: string -> ClickOutcome)
  {
    click(ShowLink) == ClickOk || FirstOk(click, ShowFallbacks) < |ShowFallbacks|
  }

  /** The selectors the page is queried for, in order: the primary link, then
      (only when it did not click) the fallbacks up to the first that clicks. */
  function Probed(click: string -> ClickOutcome): (r: seq<string>)
    ensures 1 <= |r| <= 1 + |ShowFallbacks| && r[0] == ShowLink
  {
    if click(ShowLink) == ClickOk then [ShowLink]
    else
      var n := FirstOk(click, ShowFallbacks);
      [ShowLink] + ShowFallbacks[..if n < |ShowFallbacks| then n + 1 else n]
  }

  /** The click stage: try the primary link; when it is absent or its click
      raises, try the fallbacks in order and stop at the first click that goes
      through. An exception from a click leaves `clicked` false. */
  method RevealClick(click: string -> ClickOutcome) returns (clicked: bool, probed: seq<string>)
    ensures clicked == Clicked(click)
    ensures probed == Probed(click)
  {
    probed := [ShowLink];
    clicked := false;
    if click(ShowLink) == ClickOk {
      clicked := true;
    }
    if !clicked {
      var i := 0;
      while i < |ShowFallbacks|
        invariant i <= |ShowFallbacks|
        invariant forall k :: 0 <= k < i ==> click(ShowFallbacks[k]) != ClickOk
        invariant probed == [ShowLink] + ShowFallbacks[..i]
      {
        var sel := ShowFallbacks[i];
        probed := probed + [sel];
        if click(sel) == ClickOk {
          clicked := true;
          assert FirstOk(click, ShowFallbacks) == i;
          break;
        }
        i := i + 1;
      }
      if !clicked {
        assert FirstOk(click, ShowFallbacks) == |ShowFallbacks|;
      }
    }
  }

  /** The clicked flag is set exactly when one of the probed controls clicked,
      and that control is the last one probed. */
  lemma ClickedIsLastProbed(click: string -> ClickOutcome)
    ensures Clicked(click) <==> click(Probed(click)[|Probed(click)| - 1]) == ClickOk
    ensures forall k :: 0 <= k < |Probed(click)| - 1 ==> click(Probed(click)[k]) != ClickOk
  {
    var r := Probed(click);
    var n := FirstOk(click, ShowFallbacks);
    if click(ShowLink) != ClickOk {
      assert forall k :: 1 <= k < |r| ==> r[k] == ShowFallbacks[k - 1];
      if n == |ShowFallbacks| {
        assert r[|r| - 1] == ShowFallbacks[n - 1];
      }
    }
  }

  /** Fallbacks are queried only when the primary click did not succeed. */
  lemma FallbacksOnlyAfterPrimary(click: string -> ClickOutcome)
    ensures click(ShowLink) == ClickOk <==> Probed(click) == [ShowLink]
  {
  }

  /** With no successful click every fallback has been tried. */
  lemma NoClickTriesAll(click: string -> ClickOutcome)
    requires !Clicked(click)
    ensures Probed(click) == [ShowLink] + ShowFallbacks
  {
    assert ShowFallbacks[..|ShowFallbacks|] == ShowFallbacks;
  }

  // ------------------------------------------------------------ the polling

  /** What `inner_text` of a phone locator gave in one round: no element, an
      exception (caught and skipped), or the element's text. */
  datatype LocatorRead = Missing | ReadFails | Text(s: string)

  /** The number of polling rounds (`range(24)`, 500 ms apart). */
  const Rounds: nat := 24

  /** The places the revealed number shows up, in the order they are read. */
  const PhoneLocators: seq<string> := [
    "div.list-phone",
    "div.list-phone div",
    "div.list-phone a:nth-of-type(2) + div",
    "div.list-phone strong",
    "a[href^='tel:']"
  ]

  /** The number of probes: each round reads every locator once. */
  const Probes: nat := 120

  /** The `n`-th probe reads locator `n % 5` in round `n / 5`; it yields the
      normalised stripped text when that is a (truthy) phone. */
  function Attempt(read: (nat, string) -> LocatorRead, n: nat): Option<nat>
  {
    match read(n / 5, PhoneLocators[n % 5])
    case Text(s) => TruthyPhone(Strip(s))
    case _ => None
  }

  /** Probe `n` is the first one that yields a phone. */
  predicate FirstHit(read: (nat, string) -> LocatorRead, n: nat)
  {
    n < Probes && Attempt(read, n).Some? && forall m: nat :: m < n ==> Attempt(read, m).None?
  }

  /** Index of the first probe that yields a phone, `Probes` if none does. */
  function FirstHitIndex(read: (nat, string) -> LocatorRead): (r: nat)
    ensures r <= Probes
    ensures r < Probes ==> FirstHit(read, r)
    ensures r == Probes ==> NoHitBelow(read, Probes)
  {
    var f := (m: nat) => Attempt(read, m);
    match FirstFrom(f, 0, Probes - 1)
    case Some(h) =>
      assert forall m: nat :: m < h.0 ==> f(m).None? && f(m) == Attempt(read, m);
      assert f(h.0) == Attempt(read, h.0);
      h.0
    case None =>
      assert forall m: nat :: m < Probes ==> f(m).None? && f(m) == Attempt(read, m);
      Probes
  }

  /** The result of the polling loop: the phone of the first successful
      probe, or None when no probe of any round succeeds. */
  function PollResult(read: (nat, string) -> LocatorRead): (r: Option<nat>)
    ensures r.Some? ==> FirstHit(read, FirstHitIndex(read)) && r == Attempt(read, FirstHitIndex(read))
    ensures r.None? <==> forall n: nat :: n < Probes ==> Attempt(read, n).None?
  {
    var i := FirstHitIndex(read);
    if i < Probes then Attempt(read, i) else None
  }

  /** Probe `j` of round `round` is number `5 * round + j`. */
  lemma ProbeIndex(round: nat, j: nat)
    requires j < 5
    ensures (5 * round + j) / 5 == round && (5 * round + j) % 5 == j
  {
  }

  /** The first hit determines the polling result. */
  lemma PollResultAt(read: (nat, string) -> LocatorRead, n: nat)
    requires FirstHit(read, n)
    ensures PollResult(read) == Attempt(read, n)
  {
    var i := FirstHitIndex(read);
    assert i == n;
  }

  /** One probe: a missing element or a failed read gives nothing, a text is
      stripped and normalised. */
  method ReadLocator(read: (nat, string) -> LocatorRead, round: nat, j: nat) returns (p: Option<nat>)
    requires j < |PhoneLocators|
    ensures p == Attempt(read, 5 * round + j)
  {
    ProbeIndex(round, j);
    p := None;
    match read(round, PhoneLocators[j]) {
      case Missing =>
      case ReadFails =>
      case Text(s) =>
        var txt := Strip(s);
        p := TruthyPhone(txt);
    }
  }

  /** The polling loop: 24 rounds, each reading the five locators in order;
      a missing element or a failed read is skipped, and the first stripped
      text that normalises to a phone ends the loop. */
  method Poll(read: (nat, string) -> LocatorRead) returns (phone: Option<nat>)
    ensures phone == PollResult(read)
  {
    var round := 0;
    while round < Rounds
      invariant round <= Rounds
      invariant NoHitBelow(read, 5 * round)
    {
      phone := PollRound(read, round);
      if phone.Some? {
        return;
      }
      round := round + 1;
    }
    return None;
  }

  /** No probe before `m` yields a phone. */
  predicate NoHitBelow(read: (nat, string) -> LocatorRead, m: nat)
  {
    forall n: nat :: n < m ==> Attempt(read, n).None?
  }

  /** One polling round: the five locators in order, stopping at the first
      that yields a phone. Reached only when every earlier round found none. */
  method PollRound(read: (nat, string) -> LocatorRead, round: nat) returns (phone: Option<nat>)
    requires round < Rounds && NoHitBelow(read, 5 * round)
    ensures phone.Some? ==> phone == PollResult(read)
    ensures phone.None? ==> NoHitBelow(read, 5 * round + 5)
  {
    var j := 0;
    while j < |PhoneLocators|
      invariant j <= 5
      invariant NoHitBelow(read, 5 * round + j)
    {
      var p := ReadLocator(read, round, j);
      if p.Some? {
        PollResultAt(read, 5 * round + j);
        return p;
      }
      j := j + 1;
    }
    return None;
  }

  /** A probe yields only a normalised phone read from a stripped locator text. */
  lemma AttemptSource(read: (nat, string) -> LocatorRead, n: nat)
    requires Attempt(read, n).Some?
    ensures read(n / 5, PhoneLocators[n % 5]).Text?
    ensures Attempt(read, n) == NormalizePhone(Strip(read(n / 5, PhoneLocators[n % 5]).s))
  {
  }

  // -------------------------------------------------- the last-resort scan

  /** `PHONE_RE.search(html)`, then the normaliser on the match. */
  function FinalScan(html: string): (r: Option<nat>)
    ensures r.Some? ==> PhoneReSearch(html).Some? && r == NormalizePhone(PhoneReSearch(html).value)
  {
    match PhoneReSearch(html)
    case Some(m) => TruthyPhone(m)
    case None => None
  }

  // ------------------------------------------------------------ the session

  /** What the browser session reports: whether navigation timed out
      (`PWTimeoutError`), the click targets, the phone locators per round and
      the page content after polling. */
  datatype Browser = Browser(
    navTimeout: bool,
    click: string -> ClickOutcome,
    read: (nat, string) -> LocatorRead,
    html: string)

  /** `get_phone_via_playwright`: None on a navigation timeout or when no
      reveal control could be clicked; otherwise the polled phone, and only
      when polling found nothing, the phone scanned out of the whole page. */
  function Session(b: Browser): (r: Option<nat>)
  {
    if b.navTimeout || !Clicked(b.click) then None
    else match PollResult(b.read)
      case Some(p) => Some(p)
      case None => FinalScan(b.html)
  }

  method GetPhoneViaPlaywright(b: Browser) returns (phone: Option<nat>)
    ensures phone == Session(b)
  {
    if b.navTimeout {
      return None;
    }
    var clicked, _ := RevealClick(b.click);
    if !clicked {
      return None;
    }
    phone := Poll(b.read);
    if phone.None? {
      phone := FinalScan(b.html);
    }
  }

  /** Every phone the session returns is `38` followed by ten digits. */
  lemma SessionRange(b: Browser)
    ensures Session(b).Some? ==> 380_000_000_000 <= Session(b).value < 390_000_000_000
  {
    var r := Session(b);
    if r.Some? {
      var p := PollResult(b.read);
      if p.Some? {
        var n := FirstHitIndex(b.read);
        NormalizePhoneRange(Strip(b.read(n / 5, PhoneLocators[n % 5]).s));
      } else {
        NormalizePhoneRange(PhoneReSearch(b.html).value);
      }
    }
  }

  /** No click means no phone, whatever the page shows. */
  lemma SessionNeedsClick(b: Browser)
    requires !Clicked(b.click)
    ensures Session(b).None?
  {
  }

  /** The page content is consulted only after every probe of every round
      has failed: a polled phone wins regardless of the page. */
  lemma SessionPollWins(b: Browser, html: string)
    requires !b.navTimeout && Clicked(b.click) && PollResult(b.read).Some?
    ensures Session(b) == PollResult(b.read)
    ensures Session(b.(html := html)) == Session(b)
  {
  }

  /** When polling finds nothing the result is the last-resort scan. */
  lemma SessionFallsBackToScan(b: Browser)
    requires !b.navTimeout && Clicked(b.click)
    requires forall n: nat :: n < Probes ==> Attempt(b.read, n).None?
    ensures Session(b) == FinalScan(b.html)
  {
  }
}
