/** Hand-coded matchers for the fixed regular expressions the crawler runs over
    raw page markup and page text.

    Every keyed pattern of the parser has the shape "literal tokens, one capture
    group, literal tokens". In each of them every optional or repeated element is
    followed by something it cannot itself consume (`\s*` by a non-space, `\\?` by
    a quote, `[^"]+` by a quote, `\d+` by a non-digit), so a greedy match without
    backtracking finds exactly what Python's `re.search` finds. The two patterns
    where backtracking matters (the query-string token and PHONE_RE) are written
    out by hand below. */
module Markup {
  import opened Text

  /** The first index in `i..n` at which `f` gives a value: a leftmost search. */
  function FirstFrom<T>(f: nat -> Option<T>, i: nat, n: nat): (r: Option<(nat, T)>)
    ensures r.Some? ==> i <= r.value.0 <= n && f(r.value.0) == Some(r.value.1)
    ensures forall k: nat :: i <= k <= n && (r.None? || k < r.value.0) ==> f(k).None?
    decreases n + 1 - i
  {
    if i > n then None
    else match f(i)
      case Some(v) => Some((i, v))
      case None => FirstFrom(f, i + 1, n)
  }

  function Lower(c: char): char
  {
    if 'A' <= c <= 'Z' then (c as int + 32) as char else c
  }

  /** Character equality, ASCII-case-insensitive under `re.I`. */
  predicate CharEq(a: char, b: char, ignoreCase: bool)
  {
    a == b || (ignoreCase && Lower(a) == Lower(b))
  }

  /** A literal `s` at index `i` of `t`. */
  predicate LitAt(t: string, i: nat, s: string, ignoreCase: bool)
  {
    i + |s| <= |t| && forall k :: 0 <= k < |s| ==> CharEq(t[i + k], s[k], ignoreCase)
  }

  /** The character classes of the capture groups. */
  datatype CharClass = Digit | NotQuote | NotQuoteNorBackslash | Hex

  predicate InClass(c: char, cls: CharClass, ignoreCase: bool)
  {
    match cls
    case Digit => IsDigit(c)
    case NotQuote => c != '"'
    case NotQuoteNorBackslash => c != '"' && c != '\\'
    case Hex => IsDigit(c) || ('a' <= c <= 'f') || (ignoreCase && 'A' <= c <= 'F')
  }

  /** The end of the longest run of `cls` characters starting at `i`. */
  function RunEnd(t: string, i: nat, cls: CharClass, ignoreCase: bool): (j: nat)
    requires i <= |t|
    ensures i <= j <= |t|
    ensures forall k :: i <= k < j ==> InClass(t[k], cls, ignoreCase)
    ensures j == |t| || !InClass(t[j], cls, ignoreCase)
    decreases |t| - i
  {
    if i < |t| && InClass(t[i], cls, ignoreCase) then RunEnd(t, i + 1, cls, ignoreCase) else i
  }

  /** `\s*`: index after the whitespace run at `i`. */
  function SkipSpaces(t: string, i: nat): (j: nat)
    requires i <= |t|
    ensures i <= j <= |t|
    ensures forall k :: i <= k < j ==> IsSpace(t[k])
    ensures j == |t| || !IsSpace(t[j])
    decreases |t| - i
  {
    if i < |t| && IsSpace(t[i]) then SkipSpaces(t, i + 1) else i
  }

  /** One non-capturing element of a keyed pattern. */
  datatype Tok =
    | Lit(s: string)  // a literal (case-insensitive when the pattern is)
    | Spaces          // \s*
    | OptBackslash    // \\?  (always followed by a quote)
    | OptQuote        // "?
    | ColonOrComma    // [:,]

  /** The capture group of a keyed pattern. */
  datatype Cap =
    | DigitRun           // (\d+)
    | DigitRun2To7       // (\d{2,7})
    | NotQuoteRun        // ([^"]+)
    | NotQuoteNorBsRun   // ([^"\\]+)
    | HexRun16           // ([a-f0-9]{16,})

  datatype Pattern = Pattern(before: seq<Tok>, cap: Cap, after: seq<Tok>, ignoreCase: bool)

  function TokEnd(t: string, i: nat, tok: Tok, ignoreCase: bool): (r: Option<nat>)
    requires i <= |t|
    ensures r.Some? ==> i <= r.value <= |t|
  {
    match tok
    case Lit(s) => if LitAt(t, i, s, ignoreCase) then Some(i + |s|) else None
    case Spaces => Some(SkipSpaces(t, i))
    case OptBackslash => if i < |t| && t[i] == '\\' then Some(i + 1) else Some(i)
    case OptQuote => if i < |t| && t[i] == '"' then Some(i + 1) else Some(i)
    case ColonOrComma => if i < |t| && (t[i] == ':' || t[i] == ',') then Some(i + 1) else None
  }

  function ToksEnd(t: string, i: nat, toks: seq<Tok>, ignoreCase: bool): (r: Option<nat>)
    requires i <= |t|
    ensures r.Some? ==> i <= r.value <= |t|
    decreases |toks|
  {
    if toks == [] then Some(i)
    else match TokEnd(t, i, toks[0], ignoreCase)
      case None => None
      case Some(j) => ToksEnd(t, j, toks[1..], ignoreCase)
  }

  /** What a captured group looks like, by kind. */
  predicate CapShape(cap: Cap, s: string, ignoreCase: bool)
  {
    match cap
    case DigitRun => s != [] && AllDigits(s)
    case DigitRun2To7 => 2 <= |s| <= 7 && AllDigits(s)
    case NotQuoteRun => s != [] && forall k :: 0 <= k < |s| ==> s[k] != '"'
    case NotQuoteNorBsRun => s != [] && forall k :: 0 <= k < |s| ==> s[k] != '"' && s[k] != '\\'
    case HexRun16 => |s| >= 16 && forall k :: 0 <= k < |s| ==> InClass(s[k], Hex, ignoreCase)
  }

  /** End of the capture group starting at `i`. */
  function CapEnd(t: string, i: nat, cap: Cap, ignoreCase: bool): (r: Option<nat>)
    requires i <= |t|
    ensures r.Some? ==> i <= r.value <= |t| && CapShape(cap, t[i..r.value], ignoreCase)
  {
    match cap
    case DigitRun =>
      var j := RunEnd(t, i, Digit, ignoreCase);
      if j > i then Some(j) else None
    case DigitRun2To7 =>
      var j := RunEnd(t, i, Digit, ignoreCase);
      if j - i >= 2 then Some(if j - i > 7 then i + 7 else j) else None
    case NotQuoteRun =>
      var j := RunEnd(t, i, NotQuote, ignoreCase);
      if j > i then Some(j) else None
    case NotQuoteNorBsRun =>
      var j := RunEnd(t, i, NotQuoteNorBackslash, ignoreCase);
      if j > i then Some(j) else None
    case HexRun16 =>
      var j := RunEnd(t, i, Hex, ignoreCase);
      if j - i >= 16 then Some(j) else None
  }

  /** The group captured by a match of `p` starting exactly at `i`, if any. */
  function MatchAt(p: Pattern, t: string, i: nat): (r: Option<string>)
    ensures r.Some? ==> CapShape(p.cap, r.value, p.ignoreCase)
  {
    if i > |t| then None
    else match ToksEnd(t, i, p.before, p.ignoreCase)
      case None => None
      case Some(a) =>
        match CapEnd(t, a, p.cap, p.ignoreCase)
        case None => None
        case Some(e) => if ToksEnd(t, e, p.after, p.ignoreCase).Some? then Some(t[a..e]) else None
  }

  /** `re.search(p, t).group(1)`: the capture of the leftmost match. */
  function Search(p: Pattern, t: string): (r: Option<string>)
    ensures r.Some? ==> CapShape(p.cap, r.value, p.ignoreCase)
  {
    match FirstFrom((k: nat) => MatchAt(p, t, k), 0, |t|)
    case Some(f) => Some(f.1)
    case None => None
  }

  /** `Search` reports the capture at the leftmost index where the pattern
      matches, and nothing exactly when no index matches. */
  lemma SearchLeftmost(p: Pattern, t: string)
    ensures Search(p, t).Some? ==> exists i :: (0 <= i <= |t| && MatchAt(p, t, i) == Search(p, t)
      && forall k :: 0 <= k < i ==> MatchAt(p, t, k).None?)
    ensures Search(p, t).None? <==> forall k :: 0 <= k <= |t| ==> MatchAt(p, t, k).None?
  {
    var g := (k: nat) => MatchAt(p, t, k);
    var f := FirstFrom(g, 0, |t|);
    if f.Some? {
      assert MatchAt(p, t, f.value.0) == g(f.value.0) == Some(f.value.1);
      assert forall k :: 0 <= k < f.value.0 ==> MatchAt(p, t, k) == g(k);
    } else {
      assert forall k :: 0 <= k <= |t| ==> MatchAt(p, t, k) == g(k);
    }
  }

  /** A match at `n` with none before it is the one `Search` reports. */
  lemma SearchFirstAt(p: Pattern, t: string, n: nat)
    requires n <= |t| && MatchAt(p, t, n).Some?
    requires forall k :: 0 <= k < n ==> MatchAt(p, t, k).None?
    ensures Search(p, t) == MatchAt(p, t, n)
  {
    SearchLeftmost(p, t);
    var i :| 0 <= i <= |t| && MatchAt(p, t, i) == Search(p, t) && forall k :: 0 <= k < i ==> MatchAt(p, t, k).None?;
    assert i == n;
  }

  /** A pattern that opens with a literal matches only where that literal stands. */
  lemma LitFirstFails(p: Pattern, t: string, k: nat)
    requires p.before != [] && p.before[0].Lit? && !LitAt(t, k, p.before[0].s, p.ignoreCase)
    ensures MatchAt(p, t, k).None?
  {
  }

  /** The same, when the pattern opens with a literal that stands nowhere before `n`. */
  lemma SearchFirstLit(p: Pattern, t: string, n: nat)
    requires n <= |t| && MatchAt(p, t, n).Some? && p.before != [] && p.before[0].Lit?
    requires forall k :: 0 <= k < n ==> !LitAt(t, k, p.before[0].s, p.ignoreCase)
    ensures Search(p, t) == MatchAt(p, t, n)
  {
    forall k | 0 <= k < n ensures MatchAt(p, t, k).None? {
      LitFirstFails(p, t, k);
    }
    SearchFirstAt(p, t, n);
  }

  /** No literal that opens with a quote followed by `c` starts before `n`
      when no quote before `n` is followed by a character equal to `c`. */
  lemma NoQuotedLitBefore(t: string, n: nat, s: string, ignoreCase: bool)
    requires |s| >= 2 && s[0] == '"'
    requires forall k :: 0 <= k < n && k + 1 < |t| && t[k] == '"' ==> !CharEq(t[k + 1], s[1], ignoreCase)
    ensures forall k :: 0 <= k < n ==> !LitAt(t, k, s, ignoreCase)
  {
    forall k | 0 <= k < n && k + 2 <= |t| ensures !LitAt(t, k, s, ignoreCase) {
      if t[k] == '"' {
        assert !CharEq(t[k + 1], s[1], ignoreCase);
      } else {
        assert !CharEq(t[k], s[0], ignoreCase);
      }
    }
  }

  /** A pattern that opens with `"key"` and then `\s*:` finds nothing in
      markup where no quote before `n` is followed by the key's first
      letter, and from `n` on the text is a quote-free run between two
      quotes that end the markup: the key can only close on the last quote,
      and then no colon follows. */
  lemma QuotedKeyAbsent(p: Pattern, key: string, t: string, n: nat)
    requires |p.before| >= 3 && p.before[0] == Lit("\"" + key + "\"") && !p.ignoreCase
    requires p.before[1] == Spaces && p.before[2] == Lit(":")
    requires key != []
    requires n + 1 < |t| && t[n] == '"' && t[|t| - 1] == '"'
    requires forall k :: n < k < |t| - 1 ==> t[k] != '"'
    requires forall k :: 0 <= k < n && k + 1 < |t| && t[k] == '"' ==> t[k + 1] != key[0]
    ensures Search(p, t).None?
  {
    var s := "\"" + key + "\"";
    assert s[0] == '"' && s[1] == key[0] && s[|s| - 1] == '"';
    NoQuotedLitBefore(t, n, s, false);
    forall k | 0 <= k <= |t| ensures MatchAt(p, t, k).None? {
      if k == n && LitAt(t, k, s, false) {
        var j := k + |s|;
        assert t[j - 1] == s[|s| - 1];
        assert j == |t|;
        var rest := p.before[1..];
        assert ToksEnd(t, k, p.before, false) == ToksEnd(t, j, rest, false);
        assert rest[0] == Spaces && rest[1..][0] == Lit(":");
        assert ToksEnd(t, j, rest, false) == ToksEnd(t, j, rest[1..], false);
        assert ToksEnd(t, j, rest[1..], false).None?;
      } else {
        LitFirstFails(p, t, k);
      }
    }
    SearchLeftmost(p, t);
  }

  /** A run of `cls` characters at `i` that the next character ends. */
  lemma RunEndAt(t: string, i: nat, cls: CharClass, ignoreCase: bool, e: nat)
    requires i <= e <= |t|
    requires forall k :: i <= k < e ==> InClass(t[k], cls, ignoreCase)
    requires e == |t| || !InClass(t[e], cls, ignoreCase)
    ensures RunEnd(t, i, cls, ignoreCase) == e
  {
  }

  /** `s:` at `i`, followed by a non-space, takes `s\s*:\s*` up to the
      character after the colon. */
  lemma KeyHeadAt(t: string, i: nat, s: string, ignoreCase: bool)
    requires OccursAt(t, s + ":", i) && i + |s| + 1 < |t| && !IsSpace(t[i + |s| + 1])
    ensures ToksEnd(t, i, [Lit(s), Spaces, Lit(":"), Spaces], ignoreCase) == Some(i + |s| + 1)
  {
    var w := s + ":";
    var j := i + |s|;
    forall k | 0 <= k < |s| ensures CharEq(t[i + k], s[k], ignoreCase) {
      assert t[i + k] == t[i..i + |w|][k] == w[k];
    }
    assert w[|s|] == ":"[0];
    assert t[j] == t[i..i + |w|][|s|] == ':';
    ToksEndCons(t, i, Lit(s), [Spaces, Lit(":"), Spaces], ignoreCase, j);
    ColonHeadAt(t, j, ignoreCase);
  }

  /** `\s*:\s*` at a colon followed by a non-space takes just the colon. */
  lemma ColonHeadAt(t: string, j: nat, ignoreCase: bool)
    requires j + 1 < |t| && t[j] == ':' && !IsSpace(t[j + 1])
    ensures ToksEnd(t, j, [Spaces, Lit(":"), Spaces], ignoreCase) == Some(j + 1)
  {
    assert LitAt(t, j, ":", ignoreCase);
    ToksEndCons(t, j, Spaces, [Lit(":"), Spaces], ignoreCase, j);
    ToksEndCons(t, j, Lit(":"), [Spaces], ignoreCase, j + 1);
    ToksEndCons(t, j + 1, Spaces, [], ignoreCase, j + 1);
  }

  /** Matching a list of tokens, one token at a time. */
  lemma ToksEndCons(t: string, i: nat, tok: Tok, rest: seq<Tok>, ignoreCase: bool, j: nat)
    requires i <= |t| && TokEnd(t, i, tok, ignoreCase) == Some(j)
    ensures ToksEnd(t, i, [tok] + rest, ignoreCase) == ToksEnd(t, j, rest, ignoreCase)
  {
    assert ([tok] + rest)[1..] == rest;
  }

  /** The characters of an occurrence of `w` at `i`. */
  lemma OccursChars(t: string, w: string, i: nat)
    requires OccursAt(t, w, i)
    ensures forall k :: i <= k < i + |w| ==> t[k] == w[k - i]
  {
    forall k | i <= k < i + |w| ensures t[k] == w[k - i] {
      assert t[k] == t[i..i + |w|][k - i];
    }
  }

  /** `"key":` directly followed by the digit run `d` at `i` is a match of
      `KeyDigits(key)` capturing `d`. */
  lemma KeyDigitsAt(key: string, t: string, i: nat, d: string)
    requires OccursAt(t, "\"" + key + "\":", i) && OccursAt(t, d, i + |key| + 3)
    requires d != [] && AllDigits(d)
    requires i + |key| + 3 + |d| == |t| || !IsDigit(t[i + |key| + 3 + |d|])
    ensures MatchAt(KeyDigits(key), t, i) == Some(d)
  {
    var s := "\"" + key + "\"";
    var j := i + |s| + 1;
    assert s + ":" == "\"" + key + "\":";
    OccursChars(t, d, j);
    assert IsDigit(d[0]);
    KeyHeadAt(t, i, s, false);
    RunEndAt(t, j, Digit, false, j + |d|);
  }

  /** `"key":` followed by the quoted, quote-free text `h` at `i` is a
      match of `KeyQuoted(key)` capturing `h`. */
  lemma KeyQuotedAt(key: string, t: string, i: nat, h: string)
    requires OccursAt(t, "\"" + key + "\":", i) && OccursAt(t, "\"" + h + "\"", i + |key| + 3)
    requires h != [] && forall k :: 0 <= k < |h| ==> h[k] != '"'
    ensures MatchAt(KeyQuoted(key), t, i) == Some(h)
  {
    var s := "\"" + key + "\"";
    var j := i + |s| + 2;
    QuotedAt(t, j - 1, h);
    assert s + ":" == "\"" + key + "\":";
    KeyHeadAt(t, i, s, true);
    var head := [Lit(s), Spaces, Lit(":"), Spaces];
    assert TokEnd(t, j - 1, Lit("\""), true) == Some(j);
    ToksEndSnoc(t, i, head, Lit("\""), true, j - 1);
    var p := KeyQuoted(key);
    assert p.before == head + [Lit("\"")];
    assert TokEnd(t, j + |h|, Lit("\""), true) == Some(j + |h| + 1);
    ToksEndSnoc(t, j + |h|, [], Lit("\""), true, j + |h|);
    assert p.after == [] + [Lit("\"")];
    assert p.cap == NotQuoteRun && p.ignoreCase;
  }

  /** A quoted, quote-free text `h` at `i`: its quotes and its run. */
  lemma QuotedAt(t: string, i: nat, h: string)
    requires OccursAt(t, "\"" + h + "\"", i)
    requires h != [] && forall k :: 0 <= k < |h| ==> h[k] != '"'
    ensures LitAt(t, i, "\"", true) && LitAt(t, i + 1 + |h|, "\"", true)
    ensures CapEnd(t, i + 1, NotQuoteRun, true) == Some(i + 1 + |h|) && t[i + 1..i + 1 + |h|] == h
  {
    var q := "\"" + h + "\"";
    OccursChars(t, q, i);
    assert t[i] == q[0] == '"';
    assert t[i + 1 + |h|] == q[1 + |h|] == '"';
    forall k | i + 1 <= k < i + 1 + |h| ensures InClass(t[k], NotQuote, true) {
      assert t[k] == q[k - i] == h[k - i - 1];
    }
    RunEndAt(t, i + 1, NotQuote, true, i + 1 + |h|);
    assert t[i + 1..i + 1 + |h|] == q[1..1 + |h|] == h;
  }

  /** Matching one more token after a prefix of tokens. */
  lemma {:induction false} ToksEndSnoc(t: string, i: nat, toks: seq<Tok>, tok: Tok, ignoreCase: bool, j: nat)
    requires i <= |t| && ToksEnd(t, i, toks, ignoreCase) == Some(j)
    ensures ToksEnd(t, i, toks + [tok], ignoreCase) == TokEnd(t, j, tok, ignoreCase)
    decreases |toks|
  {
    if toks == [] {
      assert toks + [tok] == [tok];
    } else {
      var k := TokEnd(t, i, toks[0], ignoreCase).value;
      assert (toks + [tok])[1..] == toks[1..] + [tok];
      ToksEndSnoc(t, k, toks[1..], tok, ignoreCase, j);
    }
  }

  // ---- the keyed patterns of the parser ----

  /** `"key"\s*:\s*(\d+)` */
  function KeyDigits(key: string): Pattern
  {
    Pattern([Lit("\"" + key + "\""), Spaces, Lit(":"), Spaces], DigitRun, [], false)
  }

  /** `\\?"key\\?"\s*:\s*(\d+)`: the same key inside an escaped JSON string. */
  function EscKeyDigits(key: string): Pattern
  {
    Pattern([OptBackslash, Lit("\"" + key), OptBackslash, Lit("\""), Spaces, Lit(":"), Spaces], DigitRun, [], false)
  }

  /** `"key"\s*:\s*"([^"]+)"` under `re.I`. */
  function KeyQuoted(key: string): Pattern
  {
    Pattern([Lit("\"" + key + "\""), Spaces, Lit(":"), Spaces, Lit("\"")], NotQuoteRun, [Lit("\"")], true)
  }

  /** `\\?"key\\?"\s*:\s*\\?"([^"\\]+)\\?"` under `re.I`. */
  function EscKeyQuoted(key: string): Pattern
  {
    Pattern([OptBackslash, Lit("\"" + key), OptBackslash, Lit("\""), Spaces, Lit(":"), Spaces, OptBackslash, Lit("\"")],
            NotQuoteNorBsRun, [OptBackslash, Lit("\"")], true)
  }

  /** `"key"\s*:\s*([a-f0-9]{16,})` under `re.I`. */
  function KeyHex(key: string): Pattern
  {
    Pattern([Lit("\"" + key + "\""), Spaces, Lit(":"), Spaces], HexRun16, [], true)
  }

  /** `\\?"key\\?"\s*:\s*([a-f0-9]{16,})` under `re.I`. */
  function EscKeyHex(key: string): Pattern
  {
    Pattern([OptBackslash, Lit("\"" + key), OptBackslash, Lit("\""), Spaces, Lit(":"), Spaces], HexRun16, [], true)
  }

  /** `\["userName"\s*,\s*"([^"]+)"\]` */
  const UserNameBracket := Pattern([Lit("[\"userName\""), Spaces, Lit(","), Spaces, Lit("\"")], NotQuoteRun, [Lit("\"]")], false)

  /** `"userName"\s*:\s*"([^"]+)"` */
  const UserNameColon := Pattern([Lit("\"userName\""), Spaces, Lit(":"), Spaces, Lit("\"")], NotQuoteRun, [Lit("\"")], false)

  /** `"USD"\s*[:,]\s*"?(\d{2,7})"?` */
  const UsdMarker := Pattern([Lit("\"USD\""), Spaces, ColonOrComma, Spaces, OptQuote], DigitRun2To7, [OptQuote], false)

  /** `"photos"\s*:\s*\{\s*"count"\s*:\s*(\d+)` */
  const PhotosCount := Pattern([Lit("\"photos\""), Spaces, Lit(":"), Spaces, Lit("{"), Spaces, Lit("\"count\""), Spaces, Lit(":"), Spaces], DigitRun, [], false)

  /** `_(\d+)\.html` */
  const IdSuffix := Pattern([Lit("_")], DigitRun, [Lit(".html")], false)

  // ---- the query-string token pattern ----
  // (?:expires|expiresAt|expire|exp)=(\d+).*?(?:hash|token|signature|sign)=([a-f0-9]{16,})   under re.I

  const ExpiresKeys: seq<string> := ["expires", "expiresAt", "expire", "exp"]
  const HashKeys: seq<string> := ["hash", "token", "signature", "sign"]

  /** Index after the first alternative `key=` that matches at `i`. */
  function AltKeyEnd(t: string, i: nat, keys: seq<string>): (r: Option<nat>)
    requires i <= |t|
    ensures r.Some? ==> i < r.value <= |t| && t[r.value - 1] == '='
    decreases |keys|
  {
    if keys == [] then None
    else if LitAt(t, i, keys[0] + "=", true) then
      assert CharEq(t[i + |keys[0]|], (keys[0] + "=")[|keys[0]|], true);
      Some(i + |keys[0]| + 1)
    else AltKeyEnd(t, i, keys[1..])
  }

  /** The alternation takes the first key, in the pattern's order, that is
      spelled out (case-insensitively) at `i` followed by `=`. */
  lemma {:induction false} AltKeyFirst(t: string, i: nat, keys: seq<string>)
    requires i <= |t|
    ensures AltKeyEnd(t, i, keys).None? <==> forall k :: 0 <= k < |keys| ==> !LitAt(t, i, keys[k] + "=", true)
    ensures AltKeyEnd(t, i, keys).Some? ==> exists k :: (0 <= k < |keys| && LitAt(t, i, keys[k] + "=", true)
      && AltKeyEnd(t, i, keys).value == i + |keys[k]| + 1
      && forall m :: 0 <= m < k ==> !LitAt(t, i, keys[m] + "=", true))
    decreases |keys|
  {
    if keys != [] && !LitAt(t, i, keys[0] + "=", true) {
      AltKeyFirst(t, i, keys[1..]);
      assert forall k :: 1 <= k < |keys| ==> keys[k] == keys[1..][k - 1];
      if AltKeyEnd(t, i, keys).Some? {
        var k :| 0 <= k < |keys[1..]| && LitAt(t, i, keys[1..][k] + "=", true)
          && AltKeyEnd(t, i, keys).value == i + |keys[1..][k]| + 1
          && forall m :: 0 <= m < k ==> !LitAt(t, i, keys[1..][m] + "=", true);
        assert keys[k + 1] == keys[1..][k];
      }
    }
  }

  /** `(?:hash|token|signature|sign)=([a-f0-9]{16,})` exactly at `j`. */
  function HashPartAt(t: string, j: nat): (r: Option<string>)
    requires j <= |t|
    ensures r.Some? ==> CapShape(HexRun16, r.value, true)
  {
    match AltKeyEnd(t, j, HashKeys)
    case None => None
    case Some(a) => match CapEnd(t, a, HexRun16, true)
      case None => None
      case Some(e) => Some(t[a..e])
  }

  /** The lazy `.*?` followed by the hash part: the nearest `j`, without
      crossing a newline, at which the hash part matches. */
  function LazyHashFrom(t: string, j: nat): (r: Option<string>)
    requires j <= |t|
    ensures r.Some? ==> CapShape(HexRun16, r.value, true)
    decreases |t| - j
  {
    match HashPartAt(t, j)
    case Some(h) => Some(h)
    case None => if j < |t| && t[j] != '\n' then LazyHashFrom(t, j + 1) else None
  }

  /** No newline in `t[j..m]`: the stretch `.` can cross. */
  predicate NoNewline(t: string, j: nat, m: nat)
  {
    forall k :: j <= k < m && k < |t| ==> t[k] != '\n'
  }

  /** The lazy `.*?` stops at the nearest index from `j` on, reached
      without crossing a newline, at which the hash part matches; there is
      nothing exactly when no such index exists. */
  lemma {:induction false} LazyHashNearest(t: string, j: nat)
    requires j <= |t|
    ensures LazyHashFrom(t, j).None? <==> forall m :: j <= m <= |t| && NoNewline(t, j, m) ==> HashPartAt(t, m).None?
    ensures LazyHashFrom(t, j).Some? ==> exists m :: (j <= m <= |t| && NoNewline(t, j, m)
      && HashPartAt(t, m) == LazyHashFrom(t, j)
      && forall m' :: j <= m' < m ==> HashPartAt(t, m').None?)
    decreases |t| - j
  {
    if HashPartAt(t, j).None? && j < |t| && t[j] != '\n' {
      LazyHashNearest(t, j + 1);
      if LazyHashFrom(t, j).Some? {
        var m :| j + 1 <= m <= |t| && NoNewline(t, j + 1, m) && HashPartAt(t, m) == LazyHashFrom(t, j)
          && forall m' :: j + 1 <= m' < m ==> HashPartAt(t, m').None?;
        assert NoNewline(t, j, m);
      } else {
        forall m | j <= m <= |t| && NoNewline(t, j, m)
          ensures HashPartAt(t, m).None?
        {
          if m > j {
            assert NoNewline(t, j + 1, m);
          }
        }
      }
    } else if HashPartAt(t, j).None? {
      forall m | j <= m <= |t| && NoNewline(t, j, m)
        ensures HashPartAt(t, m).None?
      {
      }
    } else {
      assert NoNewline(t, j, j);
    }
  }

  /** The (expires, hash) groups of a query-string token match starting at `i`.
      Shortening the greedy `\d+` cannot help: the positions it would hand to
      `.*?` are digits, where no key can start. */
  function QueryTokenAt(t: string, i: nat): (r: Option<(string, string)>)
    ensures r.Some? ==> CapShape(DigitRun, r.value.0, false) && CapShape(HexRun16, r.value.1, true)
  {
    if i > |t| then None
    else match AltKeyEnd(t, i, ExpiresKeys)
      case None => None
      case Some(a) =>
        match CapEnd(t, a, DigitRun, true)
        case None => None
        case Some(e) =>
          match LazyHashFrom(t, e)
          case None => None
          case Some(h) => Some((t[a..e], h))
  }

  function QueryTokenSearch(t: string): (r: Option<(string, string)>)
    ensures r.Some? ==> CapShape(DigitRun, r.value.0, false) && CapShape(HexRun16, r.value.1, true)
  {
    match FirstFrom(k => QueryTokenAt(t, k), 0, |t|)
    case None => None
    case Some(f) => Some(f.1)
  }

  /** `re.search` on the query-string pattern reports the groups of the
      leftmost match, and nothing exactly when no index starts one. */
  lemma QueryTokenSearchLeftmost(t: string)
    ensures QueryTokenSearch(t).None? <==> forall i :: 0 <= i <= |t| ==> QueryTokenAt(t, i).None?
    ensures QueryTokenSearch(t).Some? ==> exists i :: (0 <= i <= |t| && QueryTokenAt(t, i) == QueryTokenSearch(t)
      && forall k :: 0 <= k < i ==> QueryTokenAt(t, k).None?)
  {
    var g := (k: nat) => QueryTokenAt(t, k);
    var f := FirstFrom(g, 0, |t|);
    if f.Some? {
      assert QueryTokenAt(t, f.value.0) == g(f.value.0);
      assert forall k :: 0 <= k < f.value.0 ==> QueryTokenAt(t, k) == g(k);
    } else {
      assert forall k :: 0 <= k <= |t| ==> QueryTokenAt(t, k) == g(k);
    }
  }

  // ---- PLATE_RE: \b[A-ZА-ЯІЇЄ]{2}\s?\d{4}\s?[A-ZА-ЯІЇЄ]{2}\b ----

  /** The letter class of the plate pattern: Latin A-Z, Cyrillic А-Я, І, Ї, Є. */
  predicate PlateLetter(c: char)
  {
    ('A' <= c <= 'Z') || ('\U{410}' <= c <= '\U{42f}') || c == '\U{406}' || c == '\U{407}' || c == '\U{404}'
  }

  /** A word character for `\b` (alphanumeric or `_`), exact for the
      first 0x250 code points and for the Cyrillic block: ASCII letters and
      digits, `_`; the Latin-1 letters and the numerals ª ² ³ µ ¹ º ¼ ½ ¾
      (not × and ÷); Latin Extended-A and -B; the Cyrillic letters, without
      the sign ҂ and the combining marks U+0483-U+0489. */
  predicate IsWordChar(c: char)
  {
    || ('a' <= c <= 'z') || ('A' <= c <= 'Z') || IsDigit(c) || c == '_'
    || c == '\U{aa}' || c == '\U{b2}' || c == '\U{b3}' || c == '\U{b5}' || c == '\U{b9}' || c == '\U{ba}'
    || ('\U{bc}' <= c <= '\U{be}')
    || ('\U{c0}' <= c <= '\U{24f}' && c != '\U{d7}' && c != '\U{f7}')
    || ('\U{400}' <= c <= '\U{481}') || ('\U{48a}' <= c <= '\U{4ff}')
  }

  function OptSpace(t: string, i: nat): (j: nat)
    requires i <= |t|
    ensures j == i || (j == i + 1 && j <= |t| && IsSpace(t[i]))
  {
    if i < |t| && IsSpace(t[i]) then i + 1 else i
  }

  /** End of a plate match starting at `i`. */
  function PlateAt(t: string, i: nat): (r: Option<nat>)
    ensures r.Some? ==> i + 8 <= r.value <= i + 10 && r.value <= |t|
    ensures r.Some? ==> (PlateLetter(t[i]) && PlateLetter(t[i + 1])
      && PlateLetter(t[r.value - 2]) && PlateLetter(t[r.value - 1]))
  {
    if !(i + 2 <= |t| && PlateLetter(t[i]) && PlateLetter(t[i + 1])) then None
    else if i > 0 && IsWordChar(t[i - 1]) then None
    else
      var j := OptSpace(t, i + 2);
      if !(j + 4 <= |t| && IsDigit(t[j]) && IsDigit(t[j + 1]) && IsDigit(t[j + 2]) && IsDigit(t[j + 3])) then None
      else
        var k := OptSpace(t, j + 4);
        if !(k + 2 <= |t| && PlateLetter(t[k]) && PlateLetter(t[k + 1])) then None
        else if k + 2 < |t| && IsWordChar(t[k + 2]) then None
        else Some(k + 2)
  }

  /** `PLATE_RE.search(text).group(0)`. */
  function PlateSearch(t: string): (r: Option<string>)
    ensures r.Some? ==> 8 <= |r.value| <= 10 && PlateLetter(r.value[0]) && PlateLetter(r.value[|r.value| - 1])
  {
    match FirstFrom(k => PlateAt(t, k), 0, |t|)
    case None => None
    case Some(f) => Some(t[f.0..f.1])
  }

  /** `\b` before index `i`: the pattern's first character is a word
      character, so the previous one must not be. */
  predicate BoundaryBefore(t: string, i: nat)
  {
    i == 0 || (i <= |t| && !IsWordChar(t[i - 1]))
  }

  /** `\b` at index `e`, after the pattern's last (word) character. */
  predicate BoundaryAfter(t: string, e: nat)
  {
    e == |t| || (e < |t| && !IsWordChar(t[e]))
  }

  /** A plate laid out at `i`: two letters, `p` spaces (at most one), four
      digits, `q` spaces (at most one), two letters. */
  predicate PlateLayout(t: string, i: nat, p: nat, q: nat)
  {
    && p <= 1 && q <= 1 && i + 8 + p + q <= |t|
    && PlateLetter(t[i]) && PlateLetter(t[i + 1])
    && (p == 1 ==> IsSpace(t[i + 2]))
    && IsDigit(t[i + 2 + p]) && IsDigit(t[i + 3 + p]) && IsDigit(t[i + 4 + p]) && IsDigit(t[i + 5 + p])
    && (q == 1 ==> IsSpace(t[i + 6 + p]))
    && PlateLetter(t[i + 6 + p + q]) && PlateLetter(t[i + 7 + p + q])
  }

  /** A plate match at `i` has the layout of the pattern, with a word
      boundary on either side. */
  lemma PlateAtSound(t: string, i: nat)
    requires PlateAt(t, i).Some?
    ensures exists p: nat, q: nat :: PlateLayout(t, i, p, q) && PlateAt(t, i).value == i + 8 + p + q
    ensures BoundaryBefore(t, i) && BoundaryAfter(t, PlateAt(t, i).value)
  {
    var j := OptSpace(t, i + 2);
    var k := OptSpace(t, j + 4);
    var p: nat, q: nat := j - (i + 2), k - (j + 4);
    assert PlateLayout(t, i, p, q);
  }

  /** Every such layout between word boundaries is a plate match: where
      the optional spaces stand is fixed by the text, since a space is
      neither a digit nor a letter. */
  lemma PlateAtComplete(t: string, i: nat, p: nat, q: nat)
    requires PlateLayout(t, i, p, q) && BoundaryBefore(t, i) && BoundaryAfter(t, i + 8 + p + q)
    ensures PlateAt(t, i) == Some(i + 8 + p + q)
  {
    assert OptSpace(t, i + 2) == i + 2 + p;
    assert OptSpace(t, i + 6 + p) == i + 6 + p + q;
  }

  /** `PLATE_RE.search` reports the text of the leftmost plate match, and
      nothing exactly when no index starts one. */
  lemma PlateSearchLeftmost(t: string)
    ensures PlateSearch(t).None? <==> forall i :: 0 <= i <= |t| ==> PlateAt(t, i).None?
    ensures PlateSearch(t).Some? ==> exists i :: (0 <= i <= |t| && PlateAt(t, i).Some?
      && PlateSearch(t).value == t[i..PlateAt(t, i).value]
      && forall k :: 0 <= k < i ==> PlateAt(t, k).None?)
  {
    var g := (k: nat) => PlateAt(t, k);
    var f := FirstFrom(g, 0, |t|);
    if f.Some? {
      assert PlateAt(t, f.value.0) == g(f.value.0);
      assert forall k :: 0 <= k < f.value.0 ==> PlateAt(t, k) == g(k);
    } else {
      assert forall k :: 0 <= k <= |t| ==> PlateAt(t, k) == g(k);
    }
  }

  /** The text of a plate match has the layout of the pattern. */
  lemma PlateSearchIsPlate(t: string)
    requires PlateSearch(t).Some?
    ensures exists p: nat, q: nat :: PlateLayout(PlateSearch(t).value, 0, p, q) && |PlateSearch(t).value| == 8 + p + q
  {
    var f := FirstFrom(k => PlateAt(t, k), 0, |t|);
    var i := f.value.0;
    assert PlateAt(t, i).Some?;
    PlateAtSound(t, i);
    var p: nat, q: nat :| PlateLayout(t, i, p, q) && PlateAt(t, i).value == i + 8 + p + q;
    PlateLayoutSlice(t, i, p, q);
    assert PlateSearch(t).value == t[i..i + 8 + p + q];
  }

  lemma PlateLayoutSlice(t: string, i: nat, p: nat, q: nat)
    requires PlateLayout(t, i, p, q)
    ensures PlateLayout(t[i..i + 8 + p + q], 0, p, q)
  {
    var s := t[i..i + 8 + p + q];
    assert forall k :: 0 <= k < |s| ==> s[k] == t[i + k];
  }

  /** "AA 1234 BB" on its own is found whole. */
  lemma PlateSearchExample()
    ensures PlateSearch("AA 1234 BB") == Some("AA 1234 BB")
  {
    var t := "AA 1234 BB";
    PlateAtComplete(t, 0, 1, 1);
    assert t[0..10] == t;
  }

  /** A letter outside the plate class still counts for `\b`: no plate is
      found in "éAA1234BB". */
  lemma PlateSearchAccented()
    ensures PlateSearch("\U{e9}AA1234BB").None?
  {
    var t := "\U{e9}AA1234BB";
    forall i | 0 <= i <= |t| ensures PlateAt(t, i).None? {
      if i == 1 {
        assert IsWordChar(t[0]);
      }
    }
    PlateSearchLeftmost(t);
  }

  // ---- PHONE_RE: (?:\+?38)?0?\d{9} ----

  predicate NineDigitsAt(t: string, i: nat)
  {
    i + 9 <= |t| && forall k :: i <= k < i + 9 ==> IsDigit(t[k])
  }

  /** `0?\d{9}` at `q`: the zero is taken when that still leaves nine digits. */
  function ZeroNineEnd(t: string, q: nat): (r: Option<nat>)
    ensures r.Some? ==> q + 9 <= r.value <= q + 10 && r.value <= |t|
  {
    if q < |t| && t[q] == '0' && NineDigitsAt(t, q + 1) then Some(q + 10)
    else if NineDigitsAt(t, q) then Some(q + 9)
    else None
  }

  /** End of a PHONE_RE match at `i`, trying the alternatives in the order the
      regex engine does: `+38`, then `38`, then no prefix. */
  function PhoneReAt(t: string, i: nat): (r: Option<nat>)
    ensures r.Some? ==> i + 9 <= r.value <= i + 13 && r.value <= |t|
  {
    var plus := if i + 3 <= |t| && t[i] == '+' && t[i + 1] == '3' && t[i + 2] == '8' then ZeroNineEnd(t, i + 3) else None;
    var bare := if i + 2 <= |t| && t[i] == '3' && t[i + 1] == '8' then ZeroNineEnd(t, i + 2) else None;
    if plus.Some? then plus else if bare.Some? then bare else ZeroNineEnd(t, i)
  }

  /** `PHONE_RE.search(t).group(0)`. */
  function PhoneReSearch(t: string): (r: Option<string>)
    ensures r.Some? ==> 9 <= |r.value| <= 13
  {
    match FirstFrom(k => PhoneReAt(t, k), 0, |t|)
    case None => None
    case Some(f) => Some(t[f.0..f.1])
  }

  /** One alternative of PHONE_RE at `i`: a prefix of `pre` characters
      ("+38" when 3, "38" when 2, none when 0), `z` zeros (at most one),
      then nine digits. */
  predicate PhoneLayout(t: string, i: nat, pre: nat, z: nat)
  {
    && (pre == 0 || pre == 2 || pre == 3) && z <= 1
    && (pre == 3 ==> i + 3 <= |t| && t[i] == '+' && t[i + 1] == '3' && t[i + 2] == '8')
    && (pre == 2 ==> i + 2 <= |t| && t[i] == '3' && t[i + 1] == '8')
    && (z == 1 ==> i + pre < |t| && t[i + pre] == '0')
    && NineDigitsAt(t, i + pre + z)
  }

  /** The order in which the regex engine tries the alternatives: the
      optional prefix before none, within it the plus before none, then
      the zero before none. */
  const PhoneOrder: seq<(nat, nat)> := [(3, 1), (3, 0), (2, 1), (2, 0), (0, 1), (0, 0)]

  predicate PhoneAlt(t: string, i: nat, k: nat)
    requires k < |PhoneOrder|
  {
    PhoneLayout(t, i, PhoneOrder[k].0, PhoneOrder[k].1)
  }

  /** A PHONE_RE match at `i` is the first alternative, in the engine's
      order, that fits; there is none exactly when no alternative fits. */
  lemma PhoneReAtFirst(t: string, i: nat)
    ensures PhoneReAt(t, i).None? <==> forall k :: 0 <= k < |PhoneOrder| ==> !PhoneAlt(t, i, k)
    ensures PhoneReAt(t, i).Some? ==> exists k :: (0 <= k < |PhoneOrder| && PhoneAlt(t, i, k)
      && PhoneReAt(t, i).value == i + PhoneOrder[k].0 + PhoneOrder[k].1 + 9
      && forall m :: 0 <= m < k ==> !PhoneAlt(t, i, m))
  {
    var r := PhoneReAt(t, i);
    if PhoneAlt(t, i, 0) {
      assert r.value == i + 13;
    } else if PhoneAlt(t, i, 1) {
      assert r.value == i + 12;
    } else if PhoneAlt(t, i, 2) {
      assert r.value == i + 12;
    } else if PhoneAlt(t, i, 3) {
      assert r.value == i + 11;
    } else if PhoneAlt(t, i, 4) {
      assert r.value == i + 10;
    } else if PhoneAlt(t, i, 5) {
      assert r.value == i + 9;
    }
  }

  /** `PHONE_RE.search` reports the text of the leftmost match, and nothing
      exactly when no index starts one. */
  lemma PhoneReSearchLeftmost(t: string)
    ensures PhoneReSearch(t).None? <==> forall i :: 0 <= i <= |t| ==> PhoneReAt(t, i).None?
    ensures PhoneReSearch(t).Some? ==> exists i :: (0 <= i <= |t| && PhoneReAt(t, i).Some?
      && PhoneReSearch(t).value == t[i..PhoneReAt(t, i).value]
      && forall k :: 0 <= k < i ==> PhoneReAt(t, k).None?)
  {
    var g := (k: nat) => PhoneReAt(t, k);
    var f := FirstFrom(g, 0, |t|);
    if f.Some? {
      assert PhoneReAt(t, f.value.0) == g(f.value.0);
      assert forall k :: 0 <= k < f.value.0 ==> PhoneReAt(t, k) == g(k);
    } else {
      assert forall k :: 0 <= k <= |t| ==> PhoneReAt(t, k) == g(k);
    }
  }
}
