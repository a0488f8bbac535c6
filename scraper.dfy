/** Listing discovery and page fetching: the retrying `get_html`, the
    post-processing inside `scrape_list_pages` (highest page number, page
    order, href collection, absolute URLs, the used-car filter) and the
    normaliser of `fetch_phone_number`.

    The network is replaced by `net(url, k)`, the outcome of the `k`-th
    attempt to fetch `url`, and the HTML parser by `soup(html)`, the hrefs
    and page-link texts it finds. Delays are integer deciseconds. */
module Scraper {
  import opened Text
  import opened Json

  const Base: string := "https://auto.ria.com"
  const Search: string := "https://auto.ria.com/uk/car/used/"

  // ------------------------------------------------------------ get_html

  /** One request: a reply that passed `raise_for_status`, one of the
      exceptions `get_html` retries on, or any other exception. */
  datatype AttemptOutcome =
    | Response(text: string)
    | ReadTimeout
    | ConnectTimeout
    | RemoteProtocolError
    | HttpStatusError
    | OtherError

  /** The exceptions that are recorded and retried. */
  predicate Retryable(a: AttemptOutcome)
  {
    a.ReadTimeout? || a.ConnectTimeout? || a.RemoteProtocolError? || a.HttpStatusError?
  }

  /** The sleep after failed attempt `k`: 0.5·k s after an HTTP status error,
      0.8·k s after the transport errors. */
  function Backoff(a: AttemptOutcome, k: nat): nat
  {
    if a.HttpStatusError? then 5 * k else 8 * k
  }

  /** The end of `get_html`: the page text, or the exception it raises.
      `Raised(None)` is `raise None` (no attempt was made), which Python turns
      into a TypeError. */
  datatype Fetch = Got(text: string) | Raised(err: Option<AttemptOutcome>)

  /** Attempts `k..retries` of `get_html(url)`, `last` being the error
      recorded so far: the outcome and the sleeps taken. */
  function Retry(net: (string, nat) -> AttemptOutcome, url: string, k: nat, retries: int, last: Option<AttemptOutcome>)
    : (r: (Fetch, seq<nat>))
    ensures k > retries ==> r == (Raised(last), [])
    decreases retries + 1 - k
  {
    if k > retries then (Raised(last), [])
    else
      var a := net(url, k);
      if a.Response? then (Got(a.text), [])
      else if a.OtherError? then (Raised(Some(a)), [])
      else
        var rest := Retry(net, url, k + 1, retries, Some(a));
        (rest.0, [Backoff(a, k)] + rest.1)
  }

  /** Every attempt before the deciding one, number `k + |sleeps|`, failed
      with a retryable error and was followed by its backoff; the decider is
      within the budget or just past it. */
  lemma {:induction false} RetrySleeps(net: (string, nat) -> AttemptOutcome, url: string, k: nat, retries: int,
                                       last: Option<AttemptOutcome>)
    requires last.None? || Retryable(last.value)
    ensures var r := Retry(net, url, k, retries, last);
      && (forall i :: k <= i < k + |r.1| ==> Retryable(net(url, i)))
      && (forall i :: 0 <= i < |r.1| ==> r.1[i] == Backoff(net(url, k + i), k + i))
      && (k <= retries + 1 ==> k + |r.1| <= retries + 1)
    decreases retries + 1 - k
  {
    if k <= retries {
      var a := net(url, k);
      if Retryable(a) {
        RetrySleeps(net, url, k + 1, retries, Some(a));
        var rest := Retry(net, url, k + 1, retries, Some(a));
        var sleeps := [Backoff(a, k)] + rest.1;
        assert Retry(net, url, k, retries, last) == (rest.0, sleeps);
        assert forall i :: 1 <= i < |sleeps| ==> sleeps[i] == rest.1[i - 1] && k + i == (k + 1) + (i - 1);
      }
    }
  }

  /** The deciding attempt, number `k + |sleeps|`: a reply (whose text is
      returned), an exception that is not retried (and propagates), or the
      end of the budget (and the last recorded error is raised). */
  lemma {:induction false} RetryOutcome(net: (string, nat) -> AttemptOutcome, url: string, k: nat, retries: int,
                                        last: Option<AttemptOutcome>)
    requires last.None? || Retryable(last.value)
    ensures var r := Retry(net, url, k, retries, last);
      && (k + |r.1| <= retries ==> !Retryable(net(url, k + |r.1|)))
      && (r.0.Got? <==> k + |r.1| <= retries && net(url, k + |r.1|).Response?)
      && (r.0.Got? ==> r.0.text == net(url, k + |r.1|).text)
      && (r.0 == Raised(Some(OtherError)) <==> k + |r.1| <= retries && net(url, k + |r.1|).OtherError?)
      && (k + |r.1| > retries ==> r.0 == Raised(if r.1 == [] then last else Some(net(url, k + |r.1| - 1))))
    decreases retries + 1 - k
  {
    if k <= retries {
      var a := net(url, k);
      if Retryable(a) {
        RetryOutcome(net, url, k + 1, retries, Some(a));
        var rest := Retry(net, url, k + 1, retries, Some(a));
        var sleeps := [Backoff(a, k)] + rest.1;
        assert Retry(net, url, k, retries, last) == (rest.0, sleeps);
        assert k + |sleeps| == (k + 1) + |rest.1|;
      }
    }
  }

  /** `get_html(client, url, retries)`: up to `retries` attempts; the first
      reply wins; retryable errors are recorded and followed by a sleep;
      any other exception propagates at once; after the last attempt the
      last recorded error is raised. */
  method GetHtml(net: (string, nat) -> AttemptOutcome, url: string, retries: int) returns (res: Fetch, sleeps: seq<nat>)
    ensures (res, sleeps) == Retry(net, url, 1, retries, None)
  {
    var last: Option<AttemptOutcome> := None;
    sleeps := [];
    var attempt: nat := 1;
    assert [] + Retry(net, url, 1, retries, None).1 == Retry(net, url, 1, retries, None).1;
    while attempt <= retries
      invariant 1 <= attempt && (attempt <= retries + 1 || attempt == 1)
      invariant last.None? || Retryable(last.value)
      invariant Retry(net, url, 1, retries, None) ==
        (Retry(net, url, attempt, retries, last).0, sleeps + Retry(net, url, attempt, retries, last).1)
      decreases retries + 1 - attempt
    {
      assert sleeps + [] == sleeps;
      var a := net(url, attempt);
      if a.Response? {
        return Got(a.text), sleeps;
      } else if a.OtherError? {
        return Raised(Some(a)), sleeps;
      }
      var rest := Retry(net, url, attempt + 1, retries, Some(a));
      assert sleeps + ([Backoff(a, attempt)] + rest.1) == (sleeps + [Backoff(a, attempt)]) + rest.1;
      last := Some(a);
      sleeps := sleeps + [Backoff(a, attempt)];
      attempt := attempt + 1;
    }
    assert sleeps + [] == sleeps;
    return Raised(last), sleeps;
  }

  /** When every attempt fails with a retryable error, all `retries`
      attempts are made, each followed by its sleep, and the error of the
      last one is raised. */
  lemma RetryAllFail(net: (string, nat) -> AttemptOutcome, url: string, retries: nat)
    requires retries >= 1
    requires forall k :: 1 <= k <= retries ==> Retryable(net(url, k))
    ensures Retry(net, url, 1, retries, None).0 == Raised(Some(net(url, retries)))
    ensures |Retry(net, url, 1, retries, None).1| == retries
  {
    RetrySleeps(net, url, 1, retries, None);
    RetryOutcome(net, url, 1, retries, None);
  }

  /** With no attempt allowed nothing is fetched and `raise None` follows. */
  lemma RetryNoAttempts(net: (string, nat) -> AttemptOutcome, url: string, retries: int)
    requires retries <= 0
    ensures Retry(net, url, 1, retries, None) == (Raised(None), [])
  {
  }

  /** A reply on attempt `j` after `j - 1` retryable failures is returned,
      after `j - 1` sleeps. */
  lemma RetrySucceedsAt(net: (string, nat) -> AttemptOutcome, url: string, retries: int, j: nat)
    requires 1 <= j <= retries && net(url, j).Response?
    requires forall k :: 1 <= k < j ==> Retryable(net(url, k))
    ensures Retry(net, url, 1, retries, None).0 == Got(net(url, j).text)
    ensures |Retry(net, url, 1, retries, None).1| == j - 1
  {
    RetrySleeps(net, url, 1, retries, None);
    RetryOutcome(net, url, 1, retries, None);
  }

  /** `get_html` with its default of three attempts. */
  function FetchText(net: (string, nat) -> AttemptOutcome, url: string): Fetch
  {
    Retry(net, url, 1, 3, None).0
  }

  // --------------------------------------------------- scrape_list_pages

  /** What the HTML parser finds on a listing page: the `href` of every
      `a.address` (None when missing) and the stripped text of every
      `a.page-link`. */
  datatype ListPage = ListPage(hrefs: seq<Option<string>>, pageLinks: seq<string>)

  /** The truthy hrefs of a page, as a set. */
  function HrefsOf(hrefs: seq<Option<string>>): set<string>
  {
    set i | 0 <= i < |hrefs| && hrefs[i].Some? && hrefs[i].value != [] :: hrefs[i].value
  }

  /** `urls.add(href)` for every truthy href of a page. */
  method AddHrefs(urls: set<string>, hrefs: seq<Option<string>>) returns (r: set<string>)
    ensures r == urls + HrefsOf(hrefs)
  {
    r := urls;
    var i := 0;
    while i < |hrefs|
      invariant i <= |hrefs|
      invariant r == urls + HrefsOf(hrefs[..i])
    {
      var href := hrefs[i];
      assert HrefsOf(hrefs[..i + 1]) == HrefsOf(hrefs[..i]) + (if href.Some? && href.value != [] then {href.value} else {}) by {
        assert hrefs[..i + 1] == hrefs[..i] + [href];
        assert forall k :: 0 <= k < i ==> hrefs[..i + 1][k] == hrefs[..i][k];
      }
      if href.Some? && href.value != [] {
        r := r + {href.value};
      }
      i := i + 1;
    }
    assert hrefs[..|hrefs|] == hrefs;
  }

  /** The highest of the page numbers that were read, and at least 1. */
  function MaxPage(vals: seq<Option<int>>): (r: int)
    ensures r >= 1
  {
    if vals == [] then 1
    else
      var m := MaxPage(vals[..|vals| - 1]);
      var v := vals[|vals| - 1];
      if v.Some? && v.value > m then v.value else m
  }

  /** `MaxPage` bounds every number read and is one of them, or 1. */
  lemma {:induction false} MaxPageIsMax(vals: seq<Option<int>>)
    ensures forall i :: 0 <= i < |vals| && vals[i].Some? ==> vals[i].value <= MaxPage(vals)
    ensures MaxPage(vals) == 1 || exists i :: 0 <= i < |vals| && vals[i] == Some(MaxPage(vals))
  {
    if vals != [] {
      var p := vals[..|vals| - 1];
      MaxPageIsMax(p);
      assert forall i :: 0 <= i < |p| ==> vals[i] == p[i];
    }
  }

  /** `int(text)` of each page-link text, None where it raises. */
  function PageNumbers(texts: seq<string>): (r: seq<Option<int>>)
    ensures |r| == |texts|
  {
    if texts == [] then []
    else PageNumbers(texts[..|texts| - 1]) + [PyInt(texts[|texts| - 1])]
  }

  lemma {:induction false} PageNumbersAt(texts: seq<string>)
    ensures forall i :: 0 <= i < |texts| ==> PageNumbers(texts)[i] == PyInt(texts[i])
  {
    if texts != [] {
      var p := texts[..|texts| - 1];
      PageNumbersAt(p);
      assert forall i :: 0 <= i < |p| ==> texts[i] == p[i];
    }
  }

  /** The highest page number among the page-link texts that `int()`
      accepts, and at least 1. */
  function MaxPageOf(texts: seq<string>): (r: int)
    ensures r >= 1
    ensures forall i :: 0 <= i < |texts| && PyInt(texts[i]).Some? ==> PyInt(texts[i]).value <= r
    ensures r == 1 || exists i :: 0 <= i < |texts| && PyInt(texts[i]) == Some(r)
  {
    PageNumbersAt(texts);
    MaxPageIsMax(PageNumbers(texts));
    MaxPage(PageNumbers(texts))
  }

  /** `max_page = max(max_page, int(text))` over the page links, skipping
      texts that `int()` rejects. */
  method ScanPageLinks(texts: seq<string>) returns (maxPage: int)
    ensures maxPage == MaxPageOf(texts)
  {
    maxPage := 1;
    var i := 0;
    while i < |texts|
      invariant i <= |texts|
      invariant maxPage == MaxPage(PageNumbers(texts[..i]))
    {
      var v := PyInt(texts[i]);
      ScanStep(texts, i, v, maxPage);
      if v.Some? && v.value > maxPage {
        maxPage := v.value;
      }
      i := i + 1;
    }
    assert texts[..|texts|] == texts;
  }

  /** One page link more: the maximum so far, raised by its number if higher. */
  lemma ScanStep(texts: seq<string>, i: nat, v: Option<int>, cur: int)
    requires i < |texts| && v == PyInt(texts[i]) && cur == MaxPage(PageNumbers(texts[..i]))
    ensures MaxPage(PageNumbers(texts[..i + 1])) == if v.Some? && v.value > cur then v.value else cur
  {
    PageNumbersSnoc(texts, i);
    MaxPageSnoc(PageNumbers(texts[..i]), v);
  }

  lemma PageNumbersSnoc(texts: seq<string>, i: nat)
    requires i < |texts|
    ensures PageNumbers(texts[..i + 1]) == PageNumbers(texts[..i]) + [PyInt(texts[i])]
  {
    assert texts[..i + 1][..i] == texts[..i];
  }

  lemma MaxPageSnoc(vals: seq<Option<int>>, v: Option<int>)
    ensures MaxPage(vals + [v]) == if v.Some? && v.value > MaxPage(vals) then v.value else MaxPage(vals)
  {
    assert (vals + [v])[..|vals|] == vals;
  }

  /** The last page to fetch: the highest page number, capped by the limit. */
  function LastPage(first: ListPage, limit: Option<int>): (r: int)
    ensures limit.None? ==> r == MaxPageOf(first.pageLinks)
    ensures limit.Some? ==> r == MaxPageOf(first.pageLinks) || r == limit.value
    ensures limit.Some? ==> r <= limit.value && r <= MaxPageOf(first.pageLinks)
  {
    var m := MaxPageOf(first.pageLinks);
    if limit.Some? && limit.value < m then limit.value else m
  }

  /** `f"{SEARCH}?page={page}"`. */
  function PageUrl(page: nat): string
  {
    Search + "?page=" + Decimal(page)
  }

  /** The pages fetched, in order: the search page, then pages
      2..`lastPage`. */
  function PageUrls(lastPage: int): (r: seq<string>)
    ensures |r| == if lastPage >= 2 then lastPage else 1
    ensures r[0] == Search
    ensures forall p :: 2 <= p <= lastPage ==> r[p - 1] == PageUrl(p)
    decreases if lastPage >= 2 then lastPage else 1
  {
    if lastPage < 2 then [Search] else PageUrls(lastPage - 1) + [PageUrl(lastPage)]
  }

  /** Different page numbers give different page URLs, so no page is fetched
      twice. */
  lemma PageUrlInjective(p: nat, q: nat)
    requires PageUrl(p) == PageUrl(q)
    ensures p == q
  {
    var pre := Search + "?page=";
    assert Decimal(p) == PageUrl(p)[|pre|..];
    assert Decimal(q) == PageUrl(q)[|pre|..];
    DecValueOfDecimal(p);
    DecValueOfDecimal(q);
  }

  /** Index of the first of `urls` whose fetch raises, `|urls|` if none. */
  function FirstFailure(net: (string, nat) -> AttemptOutcome, urls: seq<string>): (n: nat)
    ensures n <= |urls|
    ensures forall i :: 0 <= i < n ==> FetchText(net, urls[i]).Got?
    ensures n < |urls| ==> FetchText(net, urls[n]).Raised?
  {
    if urls == [] then 0
    else if FetchText(net, urls[0]).Raised? then 0
    else 1 + FirstFailure(net, urls[1..])
  }

  /** The truthy hrefs of the fetched pages among `urls`. */
  function HrefsOfUrls(net: (string, nat) -> AttemptOutcome, soup: string -> ListPage, urls: seq<string>): set<string>
  {
    if urls == [] then {}
    else
      var f := FetchText(net, urls[|urls| - 1]);
      HrefsOfUrls(net, soup, urls[..|urls| - 1]) + (if f.Got? then HrefsOf(soup(f.text).hrefs) else {})
  }

  lemma HrefsOfUrlsSnoc(net: (string, nat) -> AttemptOutcome, soup: string -> ListPage, urls: seq<string>, i: nat)
    requires i < |urls| && FetchText(net, urls[i]).Got?
    ensures HrefsOfUrls(net, soup, urls[..i + 1]) ==
      HrefsOfUrls(net, soup, urls[..i]) + HrefsOf(soup(FetchText(net, urls[i]).text).hrefs)
  {
    assert urls[..i + 1][..i] == urls[..i];
  }

  /** Fetch pages `from..|urls|` in order, collecting their hrefs; stop at
      the first fetch that raises. */
  method FetchPages(net: (string, nat) -> AttemptOutcome, soup: string -> ListPage, urls: seq<string>,
                    from: nat, acc: set<string>)
    returns (failed: Option<nat>, err: Option<AttemptOutcome>, hrefs: set<string>)
    requires from <= |urls| && FirstFailure(net, urls) >= from
    requires acc == HrefsOfUrls(net, soup, urls[..from])
    ensures failed.None? ==> FirstFailure(net, urls) == |urls| && hrefs == HrefsOfUrls(net, soup, urls)
    ensures failed.Some? ==> failed.value == FirstFailure(net, urls) < |urls|
    ensures failed.Some? ==> err == FetchText(net, urls[failed.value]).err
  {
    hrefs := acc;
    var i := from;
    while i < |urls|
      invariant from <= i <= |urls| && FirstFailure(net, urls) >= i
      invariant hrefs == HrefsOfUrls(net, soup, urls[..i])
    {
      var res, _ := GetHtml(net, urls[i], 3);
      if res.Raised? {
        return Some(i), res.err, hrefs;
      }
      HrefsOfUrlsSnoc(net, soup, urls, i);
      hrefs := AddHrefs(hrefs, soup(res.text).hrefs);
      i := i + 1;
    }
    assert urls[..|urls|] == urls;
    return None, None, hrefs;
  }

  /** The URL kept for a raw href: as it is when it starts with `http`,
      otherwise prefixed with the site root. */
  function Absolute(href: string): (r: string)
    ensures StartsWith(href, "http") ==> r == href
    ensures !StartsWith(href, "http") ==> r == Base + href
  {
    if StartsWith(href, "http") then href else Base + href
  }

  function Absolutes(hrefs: seq<string>): (r: seq<string>)
    ensures |r| == |hrefs|
    ensures forall i :: 0 <= i < |hrefs| ==> r[i] == Absolute(hrefs[i])
  {
    if hrefs == [] then [] else [Absolute(hrefs[0])] + Absolutes(hrefs[1..])
  }

  lemma {:induction false} AbsolutesSnoc(hrefs: seq<string>, u: string)
    ensures Absolutes(hrefs + [u]) == Absolutes(hrefs) + [Absolute(u)]
  {
    if hrefs != [] {
      AbsolutesSnoc(hrefs[1..], u);
      assert (hrefs + [u])[1..] == hrefs[1..] + [u];
    }
  }

  /** A card of a used car: the URL contains `/uk/auto_` and not `/newauto/`. */
  predicate IsUsedCard(u: string)
  {
    Contains(u, "/uk/auto_") && !Contains(u, "/newauto/")
  }

  /** The final list comprehension: the used-car URLs, in order. */
  function KeepUsed(us: seq<string>): (r: seq<string>)
    ensures |r| <= |us|
    ensures forall x :: x in r <==> x in us && IsUsedCard(x)
  {
    if us == [] then []
    else (if IsUsedCard(us[0]) then [us[0]] else []) + KeepUsed(us[1..])
  }

  predicate Distinct(s: seq<string>)
  {
    forall i, j :: 0 <= i < j < |s| ==> s[i] != s[j]
  }

  /** `order` lists every element of `s` exactly once: a possible iteration
      order of the Python set. */
  ghost predicate Enumerates(order: seq<string>, s: set<string>)
  {
    Distinct(order) && (forall x :: x in order <==> x in s)
  }

  /** `for u in urls: result.append(...)`: one URL per element of the set,
      in the set's (unspecified) iteration order. */
  method AbsoluteAll(urls: set<string>) returns (result: seq<string>, ghost order: seq<string>)
    ensures Enumerates(order, urls) && result == Absolutes(order)
  {
    var rest := urls;
    result := [];
    order := [];
    while rest != {}
      invariant Distinct(order) && (forall x :: x in order <==> x in urls && x !in rest)
      invariant rest <= urls
      invariant result == Absolutes(order)
      decreases |rest|
    {
      var u :| u in rest;
      AbsolutesSnoc(order, u);
      result := result + [Absolute(u)];
      order := order + [u];
      rest := rest - {u};
    }
  }

  /** An enumeration of a set has one entry per element. */
  lemma {:induction false} EnumerationSize(order: seq<string>, s: set<string>)
    requires Enumerates(order, s)
    ensures |order| == |s|
  {
    if order != [] {
      var x := order[|order| - 1];
      var init := order[..|order| - 1];
      assert Enumerates(init, s - {x}) by {
        forall y ensures y in init <==> y in s - {x} {
          if y in init {
            var i :| 0 <= i < |init| && init[i] == y;
            assert order[i] == y && order[|order| - 1] == x;
          }
          if y in s - {x} {
            var i :| 0 <= i < |order| && order[i] == y;
            assert i != |order| - 1;
            assert init[i] == y;
          }
        }
      }
      EnumerationSize(init, s - {x});
    }
  }

  /** What `scrape_list_pages` ends in: the card URLs, or the exception of
      the first page fetch that raised. */
  datatype Listing = Listed(urls: seq<string>) | ListRaised(err: Option<AttemptOutcome>)

  /** `scrape_list_pages(limit_pages)`: fetch the search page, read the last
      page number from it (capped by the limit), fetch pages 2.. in order,
      collect the distinct hrefs, make them absolute and keep the used-car
      cards. A page fetch that raises ends the whole call. */
  method ScrapeListPages(net: (string, nat) -> AttemptOutcome, soup: string -> ListPage, limit: Option<int>)
    returns (result: Listing, ghost order: seq<string>)
    ensures FetchText(net, Search).Raised? ==> result == ListRaised(FetchText(net, Search).err)
    ensures FetchText(net, Search).Got? ==>
      var urls := PageUrls(LastPage(soup(FetchText(net, Search).text), limit));
      var n := FirstFailure(net, urls);
      && (n < |urls| ==> result == ListRaised(FetchText(net, urls[n]).err))
      && (n == |urls| ==> result.Listed? && Enumerates(order, HrefsOfUrls(net, soup, urls))
                          && result.urls == KeepUsed(Absolutes(order)))
  {
    order := [];
    var first, _ := GetHtml(net, Search, 3);
    if first.Raised? {
      return ListRaised(first.err), order;
    }
    var page := soup(first.text);
    var urls0 := AddHrefs({}, page.hrefs);
    var maxPage := ScanPageLinks(page.pageLinks);
    if limit.Some? && limit.value < maxPage {
      maxPage := limit.value;
    }
    var pages := PageUrls(maxPage);
    assert pages[..1] == [Search];
    assert HrefsOfUrls(net, soup, pages[..1]) == urls0 by {
      assert pages[..1][..0] == [];
    }
    var failed, err, urls := FetchPages(net, soup, pages, 1, urls0);
    if failed.Some? {
      return ListRaised(err), order;
    }
    var all;
    all, order := AbsoluteAll(urls);
    result := Listed(KeepUsed(all));
  }

  /** Every returned URL is a used-car card, and every used-car URL built
      from a collected href is returned. */
  lemma ListedAreUsedCards(order: seq<string>, u: string)
    ensures u in KeepUsed(Absolutes(order)) <==> IsUsedCard(u) && exists i :: 0 <= i < |order| && Absolute(order[i]) == u
  {
    if u in Absolutes(order) {
      var i :| 0 <= i < |order| && Absolutes(order)[i] == u;
    }
  }

  /** Duplicates collapse before the URLs are made absolute: a relative href
      and its absolute form are two elements of the set and give the same
      URL twice. */
  lemma RelativeAndAbsoluteBothKept(rel: string)
    requires !StartsWith(rel, "http")
    ensures Enumerates([rel, Base + rel], {rel, Base + rel})
    ensures Absolutes([rel, Base + rel]) == [Base + rel, Base + rel]
  {
    assert (Base + rel)[..4] == Base[..4];
    assert Base[..4] == "http";
    assert StartsWith(Base + rel, "http");
  }

  /** The search page is always fetched first; then pages 2..last, in
      increasing order, each once; a limit caps how many are fetched. */
  lemma PageOrder(lastPage: int, limit: int)
    requires lastPage <= limit
    ensures PageUrls(lastPage)[0] == Search
    ensures |PageUrls(lastPage)| <= if limit >= 1 then limit else 1
    ensures forall i, j :: 1 <= i < j < |PageUrls(lastPage)| ==> PageUrls(lastPage)[i] != PageUrls(lastPage)[j]
  {
    var r := PageUrls(lastPage);
    forall i, j | 1 <= i < j < |r| ensures r[i] != r[j] {
      assert r[i] == PageUrl(i + 1) && r[j] == PageUrl(j + 1);
      if r[i] == r[j] {
        PageUrlInjective(i + 1, j + 1);
      }
    }
  }

  // --------------------------------------------------- fetch_phone_number

  /** What `fetch_phone_number` ends in: the digits, None, or an exception
      (`data.get` on a JSON value that is not an object). */
  datatype PhoneFetch = PhoneDigits(digits: Option<string>) | PhoneRaised

  /** `formattedPhoneNumber or phone or phoneNumber`. */
  function PhoneField(m: Obj): Option<Json>
  {
    Or(Or(Get(m, "formattedPhoneNumber"), Get(m, "phone")), Get(m, "phoneNumber"))
  }

  /** The UA normalisation: a ten-digit national number gets the prefix 38;
      everything else non-empty is returned as it is. */
  function NormalizeDigits(d: string): (r: Option<string>)
    requires AllDigits(d)
  {
    if |d| == 10 && d[0] == '0' then Some("38" + d)
    else if |d| == 12 && d[0] == '3' && d[1] == '8' then Some(d)
    else if d != [] then Some(d)
    else None
  }

  /** `fetch_phone_number` from the reply on. */
  function FetchPhoneNumber(resp: HttpResponse): PhoneFetch
  {
    if resp.status != 200 || resp.body.None? then PhoneDigits(None)
    else if !resp.body.value.JObj? then PhoneRaised
    else
      var phone := PhoneField(resp.body.value.fields);
      if !TruthyOpt(phone) then PhoneDigits(None)
      else PhoneDigits(NormalizeDigits(StrDigits(phone)))
  }

  /** The normaliser returns None exactly for no digits; otherwise a digit
      string that is the input, or the input behind 38 when it is a national
      number. */
  lemma NormalizeDigitsCases(d: string)
    requires AllDigits(d)
    ensures NormalizeDigits(d).None? <==> d == []
    ensures |d| == 10 && d[0] == '0' ==> NormalizeDigits(d) == Some("38" + d)
    ensures d != [] && !(|d| == 10 && d[0] == '0') ==> NormalizeDigits(d) == Some(d)
    ensures NormalizeDigits(d).Some? ==> AllDigits(NormalizeDigits(d).value) && |NormalizeDigits(d).value| >= |d|
  {
    if |d| == 10 && d[0] == '0' {
      AllDigitsAppend("38", d);
    }
  }

  /** Normalising a result again changes nothing unless it is itself a
      ten-digit national number. */
  lemma NormalizeDigitsIdempotent(d: string)
    requires AllDigits(d) && NormalizeDigits(d).Some?
    requires !(|NormalizeDigits(d).value| == 10 && NormalizeDigits(d).value[0] == '0')
    ensures NormalizeDigits(NormalizeDigits(d).value) == NormalizeDigits(d)
  {
    NormalizeDigitsCases(d);
    NormalizeDigitsCases(NormalizeDigits(d).value);
  }

  /** A non-200 status or a non-JSON body gives None, a body that is not an
      object raises, and a falsy phone field gives None. */
  lemma FetchPhoneFailures(resp: HttpResponse)
    ensures resp.status != 200 || resp.body.None? ==> FetchPhoneNumber(resp) == PhoneDigits(None)
    ensures resp.status == 200 && resp.body.Some? ==> (FetchPhoneNumber(resp).PhoneRaised? <==> !resp.body.value.JObj?)
    ensures resp.status == 200 && resp.body.Some? && resp.body.value.JObj? && !TruthyOpt(PhoneField(resp.body.value.fields))
      ==> FetchPhoneNumber(resp) == PhoneDigits(None)
  {
  }

  /** formattedPhoneNumber wins when truthy, then phone, then phoneNumber
      (the reverse of the card parser's order for the last two). */
  lemma PhoneFieldPreference(m: Obj)
    ensures TruthyOpt(Get(m, "formattedPhoneNumber")) ==> PhoneField(m) == Get(m, "formattedPhoneNumber")
    ensures !TruthyOpt(Get(m, "formattedPhoneNumber")) && TruthyOpt(Get(m, "phone")) ==> PhoneField(m) == Get(m, "phone")
    ensures !TruthyOpt(Get(m, "formattedPhoneNumber")) && !TruthyOpt(Get(m, "phone")) ==> PhoneField(m) == Get(m, "phoneNumber")
  {
  }
}
