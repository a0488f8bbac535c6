/** The orchestrator: `_hhmm_to_cron`, which turns the configured `HH:MM`
    times into an hour and a minute, and `scrape_job`, which walks the
    discovered card URLs one after another, parses each card, falls back to
    the browser for a missing phone, upserts the record and keeps three
    counters.

    The collaborators are what they report for each URL: the network
    (`net`), `parse_card` on the fetched page (`card`), the browser session
    (`browser`, None when it raises) and the database commit (`commits`).
    The table is a map from URL to record. */
module Run {
  import opened Text
  import Parser
  import PhoneReveal
  import Scraper

  // -------------------------------------------------------- _hhmm_to_cron

  /** Python's `s.split(sep)` for a one-character separator. */
  function Split(s: string, sep: char): (r: seq<string>)
    ensures |r| >= 1
    ensures forall i, k :: 0 <= i < |r| && 0 <= k < |r[i]| ==> r[i][k] != sep
  {
    if s == [] then [[]]
    else
      var rest := Split(s[1..], sep);
      if s[0] == sep then [[]] + rest
      else [[s[0]] + rest[0]] + rest[1..]
  }

  /** `sep.join(parts)`. */
  function Join(parts: seq<string>, sep: char): string
    requires |parts| >= 1
  {
    if |parts| == 1 then parts[0] else parts[0] + [sep] + Join(parts[1..], sep)
  }

  /** Splitting and joining again gives the original string. */
  lemma {:induction false} JoinSplit(s: string, sep: char)
    ensures Join(Split(s, sep), sep) == s
  {
    if s != [] {
      JoinSplit(s[1..], sep);
      var rest := Split(s[1..], sep);
      var r := Split(s, sep);
      assert s == [s[0]] + s[1..];
      if s[0] == sep {
        assert r == [[]] + rest && r[1..] == rest;
        assert Join(r, sep) == [] + [sep] + Join(rest, sep);
      } else {
        var h := [s[0]] + rest[0];
        assert r == [h] + rest[1..] && r[1..] == rest[1..];
        if |rest| > 1 {
          var tail := Join(rest[1..], sep);
          assert Join(r, sep) == h + [sep] + tail;
          assert Join(rest, sep) == rest[0] + [sep] + tail;
          assert h + [sep] + tail == [s[0]] + (rest[0] + [sep] + tail);
        }
      }
    }
  }

  /** Joining pieces free of the separator and splitting again gives the
      pieces back. */
  lemma {:induction false} SplitJoin(parts: seq<string>, sep: char)
    requires |parts| >= 1
    requires forall i, k :: 0 <= i < |parts| && 0 <= k < |parts[i]| ==> parts[i][k] != sep
    ensures Split(Join(parts, sep), sep) == parts
  {
    if |parts| == 1 {
      SplitNoSep(parts[0], sep);
    } else {
      SplitJoin(parts[1..], sep);
      SplitAround(parts[0], Join(parts[1..], sep), sep);
    }
  }

  /** A string without the separator is one piece. */
  lemma {:induction false} SplitNoSep(s: string, sep: char)
    requires forall k :: 0 <= k < |s| ==> s[k] != sep
    ensures Split(s, sep) == [s]
  {
    if s != [] {
      SplitNoSep(s[1..], sep);
      assert [s[0]] + s[1..] == s;
    }
  }

  /** Splitting `a + sep + b`, `a` free of the separator: `a`, then the
      pieces of `b`. */
  lemma {:induction false} SplitAround(a: string, b: string, sep: char)
    requires forall k :: 0 <= k < |a| ==> a[k] != sep
    ensures Split(a + [sep] + b, sep) == [a] + Split(b, sep)
  {
    if a == [] {
      assert a + [sep] + b == [sep] + b;
      assert ([sep] + b)[1..] == b;
    } else {
      SplitAround(a[1..], b, sep);
      var s := a + [sep] + b;
      assert s[0] == a[0];
      assert s[1..] == a[1..] + [sep] + b;
      assert [a[0]] + a[1..] == a;
    }
  }

  /** `hh, mm = time_str.strip().split(":")` and `int(hh), int(mm)`: None
      stands for the ValueError raised when there are not exactly two parts
      or a part is not an integer. */
  function HhmmToCron(timeStr: string): (r: Option<(int, int)>)
    ensures r.Some? ==> |Split(Strip(timeStr), ':')| == 2
  {
    var parts := Split(Strip(timeStr), ':');
    if |parts| != 2 then None
    else
      var hh := PyInt(parts[0]);
      var mm := PyInt(parts[1]);
      if hh.Some? && mm.Some? then Some((hh.value, mm.value)) else None
  }

  /** Two digit strings around a colon give their values: there is no range
      check on the hour or the minute, only `int()`'s own digit limit, past
      which either part raises ValueError. */
  lemma HhmmOfDigits(hh: string, mm: string)
    requires AllDigits(hh) && hh != [] && AllDigits(mm) && mm != []
    ensures |hh| <= MaxStrDigits && |mm| <= MaxStrDigits ==>
      HhmmToCron(hh + ":" + mm) == Some((DecValue(hh) as int, DecValue(mm) as int))
    ensures |hh| > MaxStrDigits || |mm| > MaxStrDigits ==> HhmmToCron(hh + ":" + mm).None?
  {
    var s := hh + ":" + mm;
    assert s[0] == hh[0] && s[|s| - 1] == mm[|mm| - 1];
    StripNoop(s);
    NoColon(hh);
    NoColon(mm);
    SplitNoSep(mm, ':');
    SplitAround(hh, mm, ':');
    assert hh + ":" + mm == hh + [':'] + mm;
    PyIntOfDigits(hh);
    PyIntOfDigits(mm);
  }

  lemma NoColon(d: string)
    requires AllDigits(d)
    ensures forall k :: 0 <= k < |d| ==> d[k] != ':'
  {
    assert forall k :: 0 <= k < |d| ==> IsDigit(d[k]);
  }

  /** The default dump time. */
  lemma HhmmExample()
    ensures HhmmToCron("12:05") == Some((12, 5))
  {
    HhmmExampleParts();
    HhmmOfDigits("12", "05");
  }

  lemma HhmmExampleParts()
    ensures AllDigits("12") && AllDigits("05") && "12" + ":" + "05" == "12:05"
    ensures DecValue("12") == 12 && DecValue("05") == 5
  {
    assert "12"[..1] == "1";
    assert "05"[..1] == "0";
  }

  /** Anything other than exactly one colon after stripping is an error. */
  lemma HhmmNeedsOneColon(timeStr: string)
    requires |Split(Strip(timeStr), ':')| != 2
    ensures HhmmToCron(timeStr).None?
  {
  }

  // ------------------------------------------------------------ scrape_job

  /** What the collaborators report for a card URL. */
  datatype Collab = Collab(
    net: (string, nat) -> Scraper.AttemptOutcome,
    card: (string, string) -> Parser.CardOutcome,
    browser: string -> Option<PhoneReveal.Browser>,
    commits: (string, Parser.Record) -> bool)

  /** `data.get("phone_number")` is truthy. */
  predicate HasPhone(rec: Parser.Record)
  {
    rec.phoneNumber.Some? && rec.phoneNumber.value != 0
  }

  /** The record to save and whether it counts as having a phone; None when
      `get_html`, `parse_card` or the browser raised before any counter
      moved. */
  function Prepared(c: Collab, url: string): Option<(Parser.Record, bool)>
  {
    match Scraper.FetchText(c.net, url)
    case Raised(_) => None
    case Got(html) =>
      match c.card(url, html)
      case CardRaised => None
      case Card(rec) =>
        if HasPhone(rec) then Some((rec, true))
        else match c.browser(url)
          case None => None
          case Some(b) =>
            var phone := PhoneReveal.Session(b);
            if phone.Some? && phone.value != 0 then Some((rec.(phoneNumber := Some(phone.value)), true))
            else Some((rec, false))
  }

  datatype Counters = Counters(withPhone: nat, withoutPhone: nat, errors: nat)

  /** What one URL adds to the counters: a phone or no phone once the record
      is prepared, and an error when anything raised (the commit included). */
  function Delta(c: Collab, url: string): (d: Counters)
    ensures d.withPhone + d.withoutPhone <= 1
    ensures 1 <= d.withPhone + d.withoutPhone + d.errors <= 2
  {
    match Prepared(c, url)
    case None => Counters(0, 0, 1)
    case Some(p) =>
      Counters(if p.1 then 1 else 0, if p.1 then 0 else 1, if c.commits(url, p.0) then 0 else 1)
  }

  function Add(a: Counters, b: Counters): Counters
  {
    Counters(a.withPhone + b.withPhone, a.withoutPhone + b.withoutPhone, a.errors + b.errors)
  }

  /** The counters after processing `urls` in order. */
  function Tally(c: Collab, urls: seq<string>): Counters
  {
    if urls == [] then Counters(0, 0, 0)
    else Add(Tally(c, urls[..|urls| - 1]), Delta(c, urls[|urls| - 1]))
  }

  /** The table after one URL: the upsert keyed on the URL replaces the whole
      row with the new record; a URL whose commit did not happen leaves the
      table as it was. */
  function Upsert(c: Collab, url: string, store: map<string, Parser.Record>): (r: map<string, Parser.Record>)
    ensures forall u :: u != url ==> (u in r <==> u in store) && (u in r ==> r[u] == store[u])
  {
    match Prepared(c, url)
    case None => store
    case Some(p) => if c.commits(url, p.0) then store[url := p.0] else store
  }

  /** The table after processing `urls` in order. */
  function Stored(c: Collab, urls: seq<string>, store: map<string, Parser.Record>): map<string, Parser.Record>
  {
    if urls == [] then store
    else Upsert(c, urls[|urls| - 1], Stored(c, urls[..|urls| - 1], store))
  }

  /** One iteration of the loop: everything inside the `try`, with the
      counters moved as the source moves them and `errors` for whatever
      raised. */
  method ProcessUrl(c: Collab, url: string, counters: Counters, store: map<string, Parser.Record>)
    returns (counters': Counters, store': map<string, Parser.Record>)
    ensures counters' == Add(counters, Delta(c, url))
    ensures store' == Upsert(c, url, store)
  {
    var fetched, _ := Scraper.GetHtml(c.net, url, 3);
    if fetched.Raised? {
      return counters.(errors := counters.errors + 1), store;
    }
    var card := c.card(url, fetched.text);
    if card.CardRaised? {
      return counters.(errors := counters.errors + 1), store;
    }
    var data := card.rec;
    counters' := counters;
    if !HasPhone(data) {
      var session := c.browser(url);
      if session.None? {
        return counters.(errors := counters.errors + 1), store;
      }
      var phone := PhoneReveal.GetPhoneViaPlaywright(session.value);
      if phone.Some? && phone.value != 0 {
        data := data.(phoneNumber := Some(phone.value));
        counters' := counters'.(withPhone := counters'.withPhone + 1);
      } else {
        counters' := counters'.(withoutPhone := counters'.withoutPhone + 1);
      }
    } else {
      counters' := counters'.(withPhone := counters'.withPhone + 1);
    }
    if c.commits(url, data) {
      store' := store[url := data];
    } else {
      store' := store;
      counters' := counters'.(errors := counters'.errors + 1);
    }
  }

  /** The loop of `scrape_job` over the discovered URLs, in order; an error
      on one URL is counted and the loop goes on with the next. */
  method ScrapeUrls(c: Collab, urls: seq<string>, store0: map<string, Parser.Record>)
    returns (counters: Counters, store: map<string, Parser.Record>)
    ensures counters == Tally(c, urls)
    ensures store == Stored(c, urls, store0)
  {
    counters := Counters(0, 0, 0);
    store := store0;
    var i := 0;
    while i < |urls|
      invariant i <= |urls|
      invariant counters == Tally(c, urls[..i])
      invariant store == Stored(c, urls[..i], store0)
    {
      assert urls[..i + 1][..i] == urls[..i];
      counters, store := ProcessUrl(c, urls[i], counters, store);
      i := i + 1;
    }
    assert urls[..|urls|] == urls;
  }

  /** `scrape_job(limit_pages)`: discover the URLs, then process them; when
      discovery raises, the job raises before touching the table. */
  method ScrapeJob(c: Collab, listSoup: string -> Scraper.ListPage, limit: Option<int>, store0: map<string, Parser.Record>)
    returns (listing: Scraper.Listing, counters: Counters, store: map<string, Parser.Record>)
    ensures listing.ListRaised? ==> counters == Counters(0, 0, 0) && store == store0
    ensures listing.Listed? ==> counters == Tally(c, listing.urls) && store == Stored(c, listing.urls, store0)
  {
    ghost var order: seq<string>;
    listing, order := Scraper.ScrapeListPages(c.net, listSoup, limit);
    if listing.ListRaised? {
      return listing, Counters(0, 0, 0), store0;
    }
    counters, store := ScrapeUrls(c, listing.urls, store0);
  }

  /** Each URL is counted once as with or without phone at most, and adds
      one or two to the sum of the counters:
      `with + without <= |urls| <= with + without + errors <= 2 |urls|`. */
  lemma {:induction false} TallyBounds(c: Collab, urls: seq<string>)
    ensures var t := Tally(c, urls);
      t.withPhone + t.withoutPhone <= |urls| <= t.withPhone + t.withoutPhone + t.errors <= 2 * |urls|
  {
    if urls != [] {
      TallyBounds(c, urls[..|urls| - 1]);
    }
  }

  /** The counters of a run are the sums over its parts: what happened at one
      URL does not affect the URLs after it. */
  lemma {:induction false} TallyAppend(c: Collab, a: seq<string>, b: seq<string>)
    ensures Tally(c, a + b) == Add(Tally(c, a), Tally(c, b))
  {
    if b == [] {
      assert a + b == a;
    } else {
      var b', x := b[..|b| - 1], b[|b| - 1];
      var ab, ab' := a + b, a + b';
      assert ab[..|ab| - 1] == ab' && ab[|ab| - 1] == x;
      assert Tally(c, ab) == Add(Tally(c, ab'), Delta(c, x));
      assert Tally(c, b) == Add(Tally(c, b'), Delta(c, x));
      TallyAppend(c, a, b');
      AddAssoc(Tally(c, a), Tally(c, b'), Delta(c, x));
    }
  }

  lemma TallyOne(c: Collab, url: string)
    ensures Tally(c, [url]) == Delta(c, url)
  {
    var one := [url];
    assert one[..0] == [] && one[0] == url;
    var d := Delta(c, url);
    assert Tally(c, one) == Add(Counters(0, 0, 0), d);
    assert d == Counters(d.withPhone, d.withoutPhone, d.errors);
  }

  lemma AddAssoc(x: Counters, y: Counters, z: Counters)
    ensures Add(Add(x, y), z) == Add(x, Add(y, z))
  {
  }

  /** A URL at which everything raises still leaves the rest processed. */
  lemma ErrorDoesNotStop(c: Collab, a: seq<string>, url: string, b: seq<string>)
    requires Prepared(c, url).None?
    ensures Tally(c, a + [url] + b) == Add(Add(Tally(c, a), Counters(0, 0, 1)), Tally(c, b))
  {
    var au := a + [url];
    TallyAppend(c, au, b);
    TallyAppend(c, a, [url]);
    TallyOne(c, url);
    assert Tally(c, au) == Add(Tally(c, a), Counters(0, 0, 1));
  }

  /** A truthy phone from `parse_card` counts as with phone and the browser
      is not consulted. */
  lemma ParsedPhoneSkipsBrowser(c: Collab, url: string, browser: string -> Option<PhoneReveal.Browser>)
    requires Scraper.FetchText(c.net, url).Got?
    requires var card := c.card(url, Scraper.FetchText(c.net, url).text);
      card.Card? && HasPhone(card.rec)
    ensures Prepared(c, url) == Prepared(c.(browser := browser), url)
    ensures Prepared(c, url).Some? && Prepared(c, url).value.1
    ensures Delta(c, url).withPhone == 1
  {
  }

  /** A missing phone calls the browser: a truthy phone from it replaces the
      phone field and counts as with phone; otherwise the record keeps its
      phone field and counts as without phone. */
  lemma BrowserFallback(c: Collab, url: string)
    requires Scraper.FetchText(c.net, url).Got?
    requires var card := c.card(url, Scraper.FetchText(c.net, url).text);
      card.Card? && !HasPhone(card.rec) && c.browser(url).Some?
    ensures var rec := c.card(url, Scraper.FetchText(c.net, url).text).rec;
      var phone := PhoneReveal.Session(c.browser(url).value);
      && (phone.Some? ==> Prepared(c, url) == Some((rec.(phoneNumber := Some(phone.value)), true)))
      && (phone.None? ==> Prepared(c, url) == Some((rec, false)))
  {
    PhoneReveal.SessionRange(c.browser(url).value);
  }

  /** A card without a phone on a page with no clickable reveal control is
      counted as without phone, not as an error, once it is saved. */
  lemma NoControlCountsWithoutPhone(c: Collab, url: string)
    requires Scraper.FetchText(c.net, url).Got?
    requires var card := c.card(url, Scraper.FetchText(c.net, url).text);
      card.Card? && !HasPhone(card.rec) && c.browser(url).Some? && !PhoneReveal.Clicked(c.browser(url).value.click)
    requires c.commits(url, c.card(url, Scraper.FetchText(c.net, url).text).rec)
    ensures Delta(c, url) == Counters(0, 1, 0)
  {
    PhoneReveal.SessionNeedsClick(c.browser(url).value);
  }

  /** After a run, a URL of the table that was not processed keeps its row;
      a processed URL whose last commit succeeded holds that record. */
  lemma {:induction false} StoredFrame(c: Collab, urls: seq<string>, store: map<string, Parser.Record>, u: string)
    requires forall i :: 0 <= i < |urls| ==> urls[i] != u
    ensures (u in Stored(c, urls, store) <==> u in store)
    ensures u in store ==> Stored(c, urls, store)[u] == store[u]
  {
    if urls != [] {
      StoredFrame(c, urls[..|urls| - 1], store, u);
    }
  }

  /** A successful commit writes exactly the record for its URL. */
  lemma UpsertWrites(c: Collab, url: string, store: map<string, Parser.Record>)
    requires Prepared(c, url).Some? && c.commits(url, Prepared(c, url).value.0)
    ensures Upsert(c, url, store) == store[url := Prepared(c, url).value.0]
  {
  }
}
