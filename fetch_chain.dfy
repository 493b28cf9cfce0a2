/**
 * The acquisition side of `DataScraper` (scraper.py): the first-number scan
 * applied to each element's text, the per-selector extraction loop shared by
 * the browser and plain-HTTP strategies, and the fixed priority chain of
 * `fetch_monitor_data` (rendered page, then provider API, then plain HTTP).
 *
 * Network and browser I/O are inputs: the browser strategy is given as the
 * page title and the text of the element each CSS selector finds, the API
 * strategy as the readings it returned, the HTTP strategy as the element
 * texts of the static markup.
 */
module FetchChain {
  import opened Wrappers
  import opened Text

  // ---------------------------------------------------------------------
  // The first match of `\d+\.?\d*`

  /** A lexeme of `\d+\.?\d*`: a digit run, an optional point, a digit run. */
  datatype Number = Number(whole: string, point: bool, fraction: string)
  {
    predicate Valid()
    {
      |whole| >= 1 && AllDigits(whole) && AllDigits(fraction) && (!point ==> fraction == [])
    }

    function Lexeme(): string
    {
      whole + (if point then "." else "") + fraction
    }

    /** `float(lexeme)` read as an exact decimal. */
    function Value(): real
      requires Valid()
    {
      DigitsValue(whole) as real + DigitsValue(fraction) as real / Pow10(|fraction|) as real
    }
  }

  /** The position of the first digit of `t`, or `|t|` when there is none. */
  function FirstDigit(t: string): (i: nat)
    ensures i <= |t|
    ensures forall j :: 0 <= j < i ==> !IsDigit(t[j])
    ensures i < |t| ==> IsDigit(t[i])
  {
    if t == [] || IsDigit(t[0]) then 0 else 1 + FirstDigit(t[1..])
  }

  /** The end of the maximal digit run that starts at `i`. */
  function DigitRun(t: string, i: nat): (j: nat)
    requires i <= |t|
    ensures i <= j <= |t|
    ensures forall k :: i <= k < j ==> IsDigit(t[k])
    ensures j == |t| || !IsDigit(t[j])
    decreases |t| - i
  {
    if i < |t| && IsDigit(t[i]) then DigitRun(t, i + 1) else i
  }

  /**
   * `n` is matched greedily at position `p` of `t`: its lexeme is there, and
   * the pattern could not have been extended (no digit follows, nor a point
   * when the lexeme has none).
   */
  predicate GreedyMatchAt(t: string, p: nat, n: Number)
  {
    && n.Valid()
    && p + |n.Lexeme()| <= |t|
    && t[p..p + |n.Lexeme()|] == n.Lexeme()
    && (p + |n.Lexeme()| < |t| ==> !IsDigit(t[p + |n.Lexeme()|]))
    && (p + |n.Lexeme()| < |t| && !n.point ==> t[p + |n.Lexeme()|] != '.')
  }

  /** The leftmost greedy match: `re.findall(r"\d+\.?\d*", t)[0]`. */
  predicate IsFirstMatch(t: string, p: nat, n: Number)
  {
    GreedyMatchAt(t, p, n) && forall j :: 0 <= j < p ==> !IsDigit(t[j])
  }

  /** The first number in an element's text: `float(re.findall(r"\d+\.?\d*", text)[0])`. */
  function FirstNumber(t: string): (r: Option<Number>)
    ensures r.Some? ==> r.value.Valid()
  {
    var p := FirstDigit(t);
    if p == |t| then
      None
    else
      var e := DigitRun(t, p);
      if e < |t| && t[e] == '.' then
        var f := DigitRun(t, e + 1);
        assert AllDigits(t[e + 1..f]);
        Some(Number(t[p..e], true, t[e + 1..f]))
      else
        Some(Number(t[p..e], false, ""))
  }

  /** A text has a first number exactly when it holds a digit. */
  lemma FirstNumberPresent(t: string)
    ensures FirstNumber(t).Some? <==> ContainsDigit(t)
  {
    if FirstDigit(t) == |t| {
      assert forall i :: 0 <= i < |t| ==> !IsDigit(t[i]);
    }
  }

  /** The number read from the digit run at `p` ending at `e` is a greedy match there. */
  lemma RunIsGreedy(t: string, p: nat, e: nat, n: Number)
    requires p < e <= |t| && e == DigitRun(t, p)
    requires n.whole == t[p..e]
    requires n.point ==> e < |t| && t[e] == '.' && n.fraction == t[e + 1..DigitRun(t, e + 1)]
    requires !n.point ==> n.fraction == [] && !(e < |t| && t[e] == '.')
    ensures GreedyMatchAt(t, p, n)
  {
    assert AllDigits(n.whole);
    if n.point {
      var f := DigitRun(t, e + 1);
      assert AllDigits(n.fraction);
      assert n.Lexeme() == t[p..e] + "." + t[e + 1..f];
      assert t[p..f] == t[p..e] + [t[e]] + t[e + 1..f];
      assert p + |n.Lexeme()| == f;
    } else {
      assert n.Lexeme() == t[p..e];
      assert p + |n.Lexeme()| == e;
    }
  }

  /** When present, the first number is the leftmost greedy match of the pattern. */
  lemma FirstNumberMatches(t: string)
    requires FirstNumber(t).Some?
    ensures IsFirstMatch(t, FirstDigit(t), FirstNumber(t).value)
  {
    var p := FirstDigit(t);
    var e := DigitRun(t, p);
    RunIsGreedy(t, p, e, FirstNumber(t).value);
  }

  /** Two greedy matches at the same position are the same lexeme. */
  lemma GreedyMatchUnique(t: string, p: nat, n: Number, m: Number)
    requires GreedyMatchAt(t, p, n) && GreedyMatchAt(t, p, m)
    ensures n == m
  {
    var ln, lm := n.Lexeme(), m.Lexeme();
    assert forall k :: 0 <= k < |n.whole| ==> t[p + k] == n.whole[k] by {
      forall k | 0 <= k < |n.whole| ensures t[p + k] == n.whole[k] {
        assert ln[k] == n.whole[k];
        assert t[p..p + |ln|][k] == ln[k];
      }
    }
    assert forall k :: 0 <= k < |m.whole| ==> t[p + k] == m.whole[k] by {
      forall k | 0 <= k < |m.whole| ensures t[p + k] == m.whole[k] {
        assert lm[k] == m.whole[k];
        assert t[p..p + |lm|][k] == lm[k];
      }
    }
    WholeLength(t, p, n, m);
    WholeLength(t, p, m, n);
    assert n.whole == m.whole;
    if n.point && m.point {
      FractionEqual(t, p, n, m);
    }
  }

  /** The character after the whole-number part of a greedy match is no digit. */
  lemma AfterWhole(t: string, p: nat, n: Number)
    requires GreedyMatchAt(t, p, n)
    ensures p + |n.whole| <= |t|
    ensures p + |n.whole| < |t| ==> !IsDigit(t[p + |n.whole|])
  {
    var ln := n.Lexeme();
    if n.point {
      assert ln[|n.whole|] == '.';
      assert t[p..p + |ln|][|n.whole|] == ln[|n.whole|];
    } else {
      assert ln == n.whole;
    }
  }

  /** The whole-number part of a greedy match is the maximal digit run. */
  lemma WholeLength(t: string, p: nat, n: Number, m: Number)
    requires GreedyMatchAt(t, p, n) && GreedyMatchAt(t, p, m)
    requires forall k :: 0 <= k < |n.whole| ==> t[p + k] == n.whole[k]
    requires forall k :: 0 <= k < |m.whole| ==> t[p + k] == m.whole[k]
    ensures |n.whole| >= |m.whole|
  {
    AfterWhole(t, p, n);
  }

  /** With equal digit runs and both points present, the fractions agree. */
  lemma FractionEqual(t: string, p: nat, n: Number, m: Number)
    requires GreedyMatchAt(t, p, n) && GreedyMatchAt(t, p, m)
    requires n.whole == m.whole && n.point && m.point
    ensures n.fraction == m.fraction
  {
    var ln, lm := n.Lexeme(), m.Lexeme();
    var s := |n.whole| + 1;
    assert forall k :: 0 <= k < |n.fraction| ==> t[p + s + k] == n.fraction[k] by {
      forall k | 0 <= k < |n.fraction| ensures t[p + s + k] == n.fraction[k] {
        assert ln[s + k] == n.fraction[k];
        assert t[p..p + |ln|][s + k] == ln[s + k];
      }
    }
    assert forall k :: 0 <= k < |m.fraction| ==> t[p + s + k] == m.fraction[k] by {
      forall k | 0 <= k < |m.fraction| ensures t[p + s + k] == m.fraction[k] {
        assert lm[s + k] == m.fraction[k];
        assert t[p..p + |lm|][s + k] == lm[s + k];
      }
    }
    DigitsBeforeStop(t, p + s, n.fraction);
    DigitsBeforeStop(t, p + s, m.fraction);
  }

  /** Digits lying at `q` and followed by a non-digit (or the end) are the digit run at `q`. */
  lemma DigitsBeforeStop(t: string, q: nat, d: string)
    requires q + |d| <= |t| && AllDigits(d)
    requires forall k :: 0 <= k < |d| ==> t[q + k] == d[k]
    requires q + |d| < |t| ==> !IsDigit(t[q + |d|])
    ensures d == t[q..DigitRun(t, q)]
  {
    forall k | q <= k < q + |d| ensures IsDigit(t[k]) {
      assert t[q + (k - q)] == d[k - q];
    }
    var e := DigitRun(t, q);
    assert e == q + |d|;
    assert t[q..e] == d;
  }

  /**
   * The leftmost greedy match is unique, so any number that satisfies the
   * pattern's description is the one `FirstNumber` returns.
   */
  lemma FirstNumberIsTheFirstMatch(t: string, p: nat, n: Number)
    requires IsFirstMatch(t, p, n)
    ensures FirstNumber(t) == Some(n)
  {
    FirstNumberPresent(t);
    var ln := n.Lexeme();
    assert t[p..p + |ln|][0] == ln[0] == n.whole[0];
    assert IsDigit(t[p]);
    var q := FirstDigit(t);
    assert q == p;
    FirstNumberMatches(t);
    GreedyMatchUnique(t, p, n, FirstNumber(t).value);
  }

  // ---------------------------------------------------------------------
  // Extraction by selectors

  /** The value a field gets from `page`, when its selector finds a number. */
  function FieldValue(selectors: map<string, string>, page: map<string, string>, k: string): Option<real>
  {
    if k in selectors && selectors[k] in page && FirstNumber(page[selectors[k]]).Some? then
      Some(FirstNumber(page[selectors[k]]).value.Value())
    else
      None
  }

  /** What the per-selector loop collects for the keys in `keys`. */
  function ExtractedFrom(keys: set<string>, selectors: map<string, string>, page: map<string, string>): map<string, real>
  {
    map k | k in keys && FieldValue(selectors, page, k).Some? :: FieldValue(selectors, page, k).value
  }

  function Extracted(selectors: map<string, string>, page: map<string, string>): map<string, real>
  {
    ExtractedFrom(selectors.Keys, selectors, page)
  }

  /** One more key handled by the loop. */
  lemma ExtractStep(keys: set<string>, key: string, selectors: map<string, string>, page: map<string, string>)
    requires key !in keys
    ensures ExtractedFrom(keys + {key}, selectors, page) ==
      (match FieldValue(selectors, page, key)
       case None => ExtractedFrom(keys, selectors, page)
       case Some(v) => ExtractedFrom(keys, selectors, page)[key := v])
  {
  }

  /**
   * The extraction loop of `_fetch_via_requests` and of the browser
   * strategy: each selector that is missing, or whose text holds no digit,
   * is skipped; the others contribute their first number.
   */
  method ExtractFields(selectors: map<string, string>, page: map<string, string>) returns (extracted: map<string, real>)
    ensures extracted == Extracted(selectors, page)
  {
    extracted := map[];
    var todo := selectors.Keys;
    while todo != {}
      invariant todo <= selectors.Keys
      invariant extracted == ExtractedFrom(selectors.Keys - todo, selectors, page)
      decreases |todo|
    {
      var key :| key in todo;
      ExtractStep(selectors.Keys - todo, key, selectors, page);
      assert selectors.Keys - (todo - {key}) == (selectors.Keys - todo) + {key};
      var selector := selectors[key];
      if selector in page {
        var text := page[selector];
        var number := FirstNumber(text);
        if number.Some? {
          extracted := extracted[key := number.value.Value()];
        }
      }
      todo := todo - {key};
    }
    assert selectors.Keys - todo == selectors.Keys;
  }

  /**
   * A field is extracted exactly when its selector found an element whose
   * text holds a digit, and its value is the first number in that text.
   */
  lemma ExtractedFields(selectors: map<string, string>, page: map<string, string>, k: string)
    ensures k in Extracted(selectors, page) <==> k in selectors && selectors[k] in page && ContainsDigit(page[selectors[k]])
    ensures k in Extracted(selectors, page) ==>
      IsFirstMatch(page[selectors[k]], FirstDigit(page[selectors[k]]), FirstNumber(page[selectors[k]]).value)
      && Extracted(selectors, page)[k] == FirstNumber(page[selectors[k]]).value.Value()
  {
    if k in selectors && selectors[k] in page {
      FirstNumberPresent(page[selectors[k]]);
      if FirstNumber(page[selectors[k]]).Some? {
        FirstNumberMatches(page[selectors[k]]);
      }
    }
  }

  // ---------------------------------------------------------------------
  // The strategy chain of fetch_monitor_data

  datatype Strategy = Playwright | Api | Requests

  /** The browser run: any exception (launch, navigation, close) is `BrowserFailed`. */
  datatype BrowserOutcome = BrowserFailed | BrowserLoaded(title: string, page: map<string, string>)

  /** The plain HTTP GET: a network or status error is `HttpFailed`. */
  datatype HttpOutcome = HttpFailed | HttpLoaded(page: map<string, string>)

  /** Everything the network would answer in one fetch. */
  datatype FetchEnv = FetchEnv(browser: BrowserOutcome, apiData: map<string, real>, http: HttpOutcome)

  /** The `{"data": ..., "title": ..., "timestamp": ...}` result. */
  datatype FetchResult = FetchResult(data: map<string, real>, title: Option<string>, timestamp: int)

  /** What each strategy returns when it is run (an empty map is a failure). */
  datatype Yields = Yields(browser: map<string, real>, api: map<string, real>, requests: map<string, real>)

  function YieldsOf(selectors: map<string, string>, env: FetchEnv): Yields
  {
    Yields(
      match env.browser
      case BrowserFailed => map[]
      case BrowserLoaded(_, page) => Extracted(selectors, page),
      env.apiData,
      match env.http
      case HttpFailed => map[]
      case HttpLoaded(page) => Extracted(selectors, page))
  }

  function StrategyData(s: Strategy, y: Yields): map<string, real>
  {
    match s
    case Playwright => y.browser
    case Api => y.api
    case Requests => y.requests
  }

  function Rank(s: Strategy): nat
  {
    match s
    case Playwright => 0
    case Api => 1
    case Requests => 2
  }

  /**
   * The data of the first strategy, in priority order, that is allowed to
   * run and yields something (an empty map when none does).
   */
  function ChainData(browserAllowed: bool, requestsAllowed: bool, y: Yields): map<string, real>
  {
    if browserAllowed && y.browser != map[] then y.browser
    else if y.api != map[] then y.api
    else if requestsAllowed then y.requests
    else map[]
  }

  /**
   * The priority chain itself: the browser only when `browserAllowed`, the
   * API whenever the browser yielded nothing, plain HTTP only when
   * `requestsAllowed` and after the API yielded nothing. The result is the
   * first non-empty yield, or `None` when every attempted strategy came
   * back empty.
   */
  method RunChain(browserAllowed: bool, requestsAllowed: bool, y: Yields, title: Option<string>, now: int)
    returns (result: Option<FetchResult>, attempted: seq<Strategy>)
    ensures Playwright in attempted <==> browserAllowed
    ensures Api in attempted <==> !(browserAllowed && y.browser != map[])
    ensures Requests in attempted <==> Api in attempted && y.api == map[] && requestsAllowed
    ensures forall i, j :: 0 <= i < j < |attempted| ==> Rank(attempted[i]) < Rank(attempted[j])
    ensures forall i :: 0 <= i < |attempted| - 1 ==> StrategyData(attempted[i], y) == map[]
    ensures result.Some? <==> attempted != [] && StrategyData(attempted[|attempted| - 1], y) != map[]
    ensures result.Some? ==> result.value.data == StrategyData(attempted[|attempted| - 1], y)
    ensures result.Some? ==> result.value.timestamp == now
    ensures result.Some? ==> result.value.title == (if attempted[|attempted| - 1] == Playwright then title else None)
    ensures result.Some? <==> ChainData(browserAllowed, requestsAllowed, y) != map[]
    ensures result.Some? ==> result.value.data == ChainData(browserAllowed, requestsAllowed, y)
  {
    if browserAllowed && y.browser != map[] {
      return Some(FetchResult(y.browser, title, now)), [Playwright];
    }
    var before: seq<Strategy> := if browserAllowed then [Playwright] else [];
    if y.api != map[] {
      return Some(FetchResult(y.api, None, now)), before + [Api];
    }
    if requestsAllowed {
      if y.requests != map[] {
        return Some(FetchResult(y.requests, None, now)), before + [Api, Requests];
      }
      return None, before + [Api, Requests];
    }
    return None, before + [Api];
  }

  /**
   * `fetch_monitor_data`: the browser runs only with selectors and without
   * `force_requests`, plain HTTP only with selectors (the
   * `force_requests or selectors` guard adds nothing once selectors are
   * required), and the page title is reported only from the browser.
   */
  method FetchMonitorData(forceRequests: bool, selectors: map<string, string>, env: FetchEnv, now: int)
    returns (result: Option<FetchResult>, attempted: seq<Strategy>)
    ensures Playwright in attempted <==> selectors != map[] && !forceRequests
    ensures Api in attempted <==> !(Playwright in attempted && YieldsOf(selectors, env).browser != map[])
    ensures Requests in attempted <==> Api in attempted && env.apiData == map[] && selectors != map[]
    ensures forall i, j :: 0 <= i < j < |attempted| ==> Rank(attempted[i]) < Rank(attempted[j])
    ensures forall i :: 0 <= i < |attempted| - 1 ==> StrategyData(attempted[i], YieldsOf(selectors, env)) == map[]
    ensures result.Some? <==> attempted != [] && StrategyData(attempted[|attempted| - 1], YieldsOf(selectors, env)) != map[]
    ensures result.Some? ==> result.value.data == StrategyData(attempted[|attempted| - 1], YieldsOf(selectors, env))
    ensures result.Some? ==> result.value.timestamp == now
    ensures result.Some? ==> (result.value.title.Some? <==> attempted[|attempted| - 1] == Playwright)
    ensures result.Some? <==> ChainData(selectors != map[] && !forceRequests, selectors != map[], YieldsOf(selectors, env)) != map[]
    ensures result.Some? ==> result.value.data == ChainData(selectors != map[] && !forceRequests, selectors != map[], YieldsOf(selectors, env))
  {
    var browserData: map<string, real> := map[];
    var title: Option<string> := None;
    if env.browser.BrowserLoaded? {
      browserData := ExtractFields(selectors, env.browser.page);
      title := Some(env.browser.title);
    }
    var requestsData: map<string, real> := map[];
    if env.http.HttpLoaded? {
      requestsData := ExtractFields(selectors, env.http.page);
    }
    var y := Yields(browserData, env.apiData, requestsData);
    assert y == YieldsOf(selectors, env);
    result, attempted := RunChain(selectors != map[] && !forceRequests, selectors != map[], y, title, now);
  }
}
