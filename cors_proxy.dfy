/**
 * The space-weather feed goes through public CORS proxies. A proxy is chosen by
 * index modulo the number of proxies, and the target URL is appended to the
 * proxy's prefix. It is percent-encoded for the proxies whose prefix names
 * `allorigins` or `codetabs`, and appended raw otherwise. A response is refused when:
 * the HTTP status is not ok, the trimmed body begins with `<` (an HTML error page),
 * or the body is not JSON. Each feed tries the proxies in order and keeps the
 * first answer that is accepted, logging one warning per refusal.
 *
 * The network and `JSON.parse` are not modelled: they are oracles passed in
 * as functions.
 */
module CorsProxy {
  import opened Wrappers
  import opened Strings
  import opened UriEncoding

  // The two prefixes that name their service are built around that name by
  // concatenation rather than written as one literal: the value is the same, and
  // the proofs that the name occurs in them (AllOriginsNamed, CodeTabsNamed) then
  // need only the three pieces instead of a search through the whole literal.
  const AllOriginsProxy := "https://api." + "allorigins" + ".win/raw?url="
  const CorsProxyIo := "https://corsproxy.io/?"
  const CodeTabsProxy := "https://api." + "codetabs" + ".com/v1/proxy?quest="

  /** The proxies in the order they are tried. */
  const CorsProxies: seq<string> := [AllOriginsProxy, CorsProxyIo, CodeTabsProxy]

  /** The proxy used for a given index: the index wraps around the list. */
  function ProxyFor(proxyIndex: nat): (proxy: string)
    ensures proxy in CorsProxies
  {
    CorsProxies[proxyIndex % |CorsProxies|]
  }

  /** The URL actually requested for `url` through proxy number `proxyIndex`. */
  function FullUrl(url: string, proxyIndex: nat): (full: string)
    ensures var proxy := ProxyFor(proxyIndex);
      |proxy| <= |full| && full[..|proxy|] == proxy &&
      (full[|proxy|..] == url || full[|proxy|..] == EncodeURIComponent(url))
  {
    var proxy := ProxyFor(proxyIndex);
    if Contains(proxy, "allorigins") then proxy + EncodeURIComponent(url)
    else if Contains(proxy, "codetabs") then proxy + EncodeURIComponent(url)
    else proxy + url
  }

  lemma OccursBetween(p: string, t: string, q: string)
    ensures Contains(p + t + q, t)
  {
    assert (p + t + q)[|p|..|p| + |t|] == t;
    assert OccursAt(p + t + q, t, |p|);
  }

  lemma AllOriginsNamed()
    ensures Contains(AllOriginsProxy, "allorigins")
  {
    OccursBetween("https://api.", "allorigins", ".win/raw?url=");
  }

  lemma CorsProxyIoUnnamed()
    ensures !Contains(CorsProxyIo, "allorigins") && !Contains(CorsProxyIo, "codetabs")
  {
    NotContains(CorsProxyIo, "allorigins", 0);
    NotContains(CorsProxyIo, "codetabs", 2);
  }

  lemma CodeTabsNamed()
    ensures !Contains(CodeTabsProxy, "allorigins") && Contains(CodeTabsProxy, "codetabs")
  {
    NotContains(CodeTabsProxy, "allorigins", 1);
    OccursBetween("https://api.", "codetabs", ".com/v1/proxy?quest=");
  }

  /** Only corsproxy.io (index 1 modulo 3) receives the target URL unencoded. */
  lemma FullUrlByProxy(url: string, proxyIndex: nat)
    ensures FullUrl(url, proxyIndex) ==
      CorsProxies[proxyIndex % 3] + (if proxyIndex % 3 == 1 then url else EncodeURIComponent(url))
  {
    AllOriginsNamed();
    CorsProxyIoUnnamed();
    CodeTabsNamed();
  }

  /**
   * For the encoding proxies the query value holds none of `& = ? # /`, and
   * percent-decoding it gives back exactly the target URL.
   */
  lemma EncodedTargetRecoverable(url: string, proxyIndex: nat)
    requires proxyIndex % 3 != 1
    ensures var full := FullUrl(url, proxyIndex);
      var proxy := CorsProxies[proxyIndex % 3];
      |proxy| <= |full| && full[..|proxy|] == proxy &&
      DecodeURIComponent(full[|proxy|..]) == Some(url) &&
      '&' !in full[|proxy|..] && '#' !in full[|proxy|..] && '?' !in full[|proxy|..]
  {
    FullUrlByProxy(url, proxyIndex);
    var full := FullUrl(url, proxyIndex);
    var proxy := CorsProxies[proxyIndex % 3];
    assert full[|proxy|..] == EncodeURIComponent(url);
    DecodeEncode(url);
    NoDelimiters(url);
  }

  // ----- String.prototype.trim -----

  /** White space and line terminators as `String.prototype.trim` removes them. */
  predicate IsJsWhitespace(c: char)
  {
    var n := c as int;
    (0x09 <= n <= 0x0D) || n == 0x20 || n == 0xA0 || n == 0x1680 || (0x2000 <= n <= 0x200A) ||
    n == 0x2028 || n == 0x2029 || n == 0x202F || n == 0x205F || n == 0x3000 || n == 0xFEFF
  }

  /** Length of the white-space run at the start of s. */
  function LeadingSpace(s: string): (n: nat)
    ensures n <= |s|
    ensures forall j :: 0 <= j < n ==> IsJsWhitespace(s[j])
    ensures n == |s| || !IsJsWhitespace(s[n])
  {
    if s != [] && IsJsWhitespace(s[0]) then 1 + LeadingSpace(s[1..]) else 0
  }

  /** Length of the white-space run at the end of s. */
  function TrailingSpace(s: string): (n: nat)
    ensures n <= |s|
    ensures forall j :: |s| - n <= j < |s| ==> IsJsWhitespace(s[j])
    ensures n == |s| || !IsJsWhitespace(s[|s| - n - 1])
  {
    if s != [] && IsJsWhitespace(s[|s| - 1]) then 1 + TrailingSpace(s[..|s| - 1]) else 0
  }

  /** `String.prototype.trim`: s with its white-space runs at both ends removed. */
  function Trim(s: string): (r: string)
    ensures r == [] || (!IsJsWhitespace(r[0]) && !IsJsWhitespace(r[|r| - 1]))
    ensures var a := LeadingSpace(s);
      a + |r| <= |s| && r == s[a..a + |r|] && forall j :: a + |r| <= j < |s| ==> IsJsWhitespace(s[j])
  {
    var a := LeadingSpace(s);
    if a == |s| then []
    else
      var e := |s| - TrailingSpace(s);
      assert a < e by { assert !IsJsWhitespace(s[a]); }
      s[a..e]
  }

  /** `text.trim().startsWith('<')`. */
  predicate LooksLikeHtml(text: string)
    ensures LooksLikeHtml(text) <==> LeadingSpace(text) < |text| && text[LeadingSpace(text)] == '<'
  {
    var t := Trim(text);
    assert LeadingSpace(text) < |text| ==> |t| > 0 && t[0] == text[LeadingSpace(text)];
    |t| > 0 && t[0] == '<'
  }

  /** The body is taken for HTML exactly when its first character other than white space is `<`. */
  lemma LooksLikeHtmlIff(text: string)
    ensures LooksLikeHtml(text) <==>
      exists k :: 0 <= k < |text| && text[k] == '<' && forall j :: 0 <= j < k ==> IsJsWhitespace(text[j])
  {
    var a := LeadingSpace(text);
    if LooksLikeHtml(text) {
      assert text[a] == '<';
    }
    if exists k :: 0 <= k < |text| && text[k] == '<' && forall j :: 0 <= j < k ==> IsJsWhitespace(text[j]) {
      var k :| 0 <= k < |text| && text[k] == '<' && forall j :: 0 <= j < k ==> IsJsWhitespace(text[j]);
      assert !IsJsWhitespace(text[k]);
      assert a == k;
    }
  }

  // ----- fetchWithProxy -----

  /** What a `fetch` call yields: a rejected promise, or a response with its status and body. */
  datatype HttpResponse = NetworkError | Response(ok: bool, status: int, text: string)

  /** Why one proxy attempt was refused. */
  datatype FetchError = RequestFailed | HttpStatus(status: int) | HtmlBody | InvalidJson

  /**
   * One attempt: request `url` through proxy `proxyIndex`, then check the
   * status, refuse an HTML body, and parse the JSON.
   */
  function FetchWithProxy<J>(url: string, proxyIndex: nat, fetch: string -> HttpResponse, parseJson: string -> Option<J>)
    : (r: Result<J, FetchError>)
    ensures var resp := fetch(FullUrl(url, proxyIndex));
      (r == Failure(RequestFailed) <==> resp.NetworkError?) &&
      (r.Failure? && r.error.HttpStatus? <==> resp.Response? && !resp.ok) &&
      (r == Failure(HtmlBody) <==> resp.Response? && resp.ok && LooksLikeHtml(resp.text)) &&
      (r == Failure(InvalidJson) <==>
         resp.Response? && resp.ok && !LooksLikeHtml(resp.text) && parseJson(resp.text).None?)
  {
    match fetch(FullUrl(url, proxyIndex))
    case NetworkError => Failure(RequestFailed)
    case Response(ok, status, text) =>
      if !ok then Failure(HttpStatus(status))
      else if LooksLikeHtml(text) then Failure(HtmlBody)
      else
        match parseJson(text)
        case Some(v) => Success(v)
        case None => Failure(InvalidJson)
  }

  /**
   * An attempt succeeds exactly when the response is ok, its body does not look like HTML,
   * and the body parses; the value is then the parsed body.
   */
  lemma AcceptedIff<J>(url: string, proxyIndex: nat, fetch: string -> HttpResponse, parseJson: string -> Option<J>)
    ensures var resp := fetch(FullUrl(url, proxyIndex));
      FetchWithProxy(url, proxyIndex, fetch, parseJson).Success? <==>
        (resp.Response? && resp.ok && !LooksLikeHtml(resp.text) && parseJson(resp.text).Some?)
    ensures var resp := fetch(FullUrl(url, proxyIndex));
      FetchWithProxy(url, proxyIndex, fetch, parseJson).Success? ==>
        FetchWithProxy(url, proxyIndex, fetch, parseJson).value == parseJson(resp.text).value
  {
  }

  /** An ok response whose body starts with `<` after white space is refused, even if it would parse. */
  lemma HtmlNeverAccepted<J>(url: string, proxyIndex: nat, fetch: string -> HttpResponse, parseJson: string -> Option<J>, k: nat)
    requires var resp := fetch(FullUrl(url, proxyIndex));
      resp.Response? && resp.ok && k < |resp.text| && resp.text[k] == '<' &&
      forall j :: 0 <= j < k ==> IsJsWhitespace(resp.text[j])
    ensures FetchWithProxy(url, proxyIndex, fetch, parseJson) == Failure(HtmlBody)
  {
    LooksLikeHtmlIff(fetch(FullUrl(url, proxyIndex)).text);
  }

  /** A non-ok response reports its status, whatever its body. */
  lemma StatusReported<J>(url: string, proxyIndex: nat, fetch: string -> HttpResponse, parseJson: string -> Option<J>)
    requires var resp := fetch(FullUrl(url, proxyIndex)); resp.Response? && !resp.ok
    ensures FetchWithProxy(url, proxyIndex, fetch, parseJson) ==
      Failure(HttpStatus(fetch(FullUrl(url, proxyIndex)).status))
  {
  }

  // ----- trying the proxies in turn -----

  /** The outcome each proxy would give for `url`, in the order they are tried. */
  function Attempts<J>(url: string, fetch: string -> HttpResponse, parseJson: string -> Option<J>)
    : (rs: seq<Result<J, FetchError>>)
    ensures |rs| == |CorsProxies|
    ensures forall k :: 0 <= k < |rs| ==> rs[k] == FetchWithProxy(url, k, fetch, parseJson)
  {
    [FetchWithProxy(url, 0, fetch, parseJson), FetchWithProxy(url, 1, fetch, parseJson),
     FetchWithProxy(url, 2, fetch, parseJson)]
  }

  /** The index of the first successful outcome from `from` on; |rs| if there is none. */
  function FirstSuccessIndex<J>(rs: seq<Result<J, FetchError>>, from: nat): (idx: nat)
    requires from <= |rs|
    ensures from <= idx <= |rs|
    ensures forall k :: from <= k < idx ==> rs[k].Failure?
    ensures idx < |rs| ==> rs[idx].Success?
    decreases |rs| - from
  {
    if from == |rs| then from
    else if rs[from].Success? then from
    else FirstSuccessIndex(rs, from + 1)
  }

  /** The value a feed ends up with: the first accepted answer, or none. */
  function FirstSuccess<J>(rs: seq<Result<J, FetchError>>): (r: Option<J>)
    ensures r.None? <==> forall k :: 0 <= k < |rs| ==> rs[k].Failure?
    ensures r.Some? ==> exists k :: 0 <= k < |rs| && rs[k] == Success(r.value)
  {
    var idx := FirstSuccessIndex(rs, 0);
    if idx < |rs| then Some(rs[idx].value) else None
  }

  /** If outcome k is a success and every one before it a failure, the feed takes outcome k's value. */
  lemma FirstAnswerWins<J>(rs: seq<Result<J, FetchError>>, k: nat, v: J)
    requires k < |rs|
    requires rs[k] == Success(v)
    requires forall j :: 0 <= j < k ==> rs[j].Failure?
    ensures FirstSuccessIndex(rs, 0) == k
    ensures FirstSuccess(rs) == Some(v)
  {
    var idx := FirstSuccessIndex(rs, 0);
    assert !(idx < k) by {
      assert idx < |rs| ==> rs[idx].Success?;
    }
  }

  /** Which feed a warning is about. */
  datatype Feed = LatestFlare | FlareForecast

  /** A logged warning: the feed, the proxy index that failed and why. */
  datatype Warning = Warning(feed: Feed, proxyIndex: nat, error: FetchError)

  /** The warnings for the refused attempts rs[0], ..., rs[n - 1], in that order. */
  function Refusals<J>(feed: Feed, rs: seq<Result<J, FetchError>>, n: nat): (ws: seq<Warning>)
    requires n <= |rs| && forall k :: 0 <= k < n ==> rs[k].Failure?
    ensures |ws| == n
    ensures forall k :: 0 <= k < n ==> ws[k] == Warning(feed, k, rs[k].error)
  {
    seq(n, k requires 0 <= k < n => Warning(feed, k, rs[k].error))
  }

  /**
   * The retry loop: tries proxies 0, 1, 2 and stops at the first success.
   * The warnings are exactly the refusals before it, in order.
   */
  method FetchFromFirstProxy<J>(feed: Feed, url: string, fetch: string -> HttpResponse, parseJson: string -> Option<J>)
    returns (value: Option<J>, warnings: seq<Warning>)
    ensures value == FirstSuccess(Attempts(url, fetch, parseJson))
    ensures |warnings| == FirstSuccessIndex(Attempts(url, fetch, parseJson), 0)
    ensures forall k :: 0 <= k < |warnings| ==>
      FetchWithProxy(url, k, fetch, parseJson).Failure? &&
      warnings[k] == Warning(feed, k, FetchWithProxy(url, k, fetch, parseJson).error)
    ensures var rs := Attempts(url, fetch, parseJson);
      warnings == Refusals(feed, rs, FirstSuccessIndex(rs, 0))
  {
    ghost var rs := Attempts(url, fetch, parseJson);
    value := None;
    warnings := [];
    for i := 0 to |CorsProxies|
      invariant |warnings| == i
      invariant forall k :: 0 <= k < i ==> rs[k].Failure? && warnings[k] == Warning(feed, k, rs[k].error)
      invariant FirstSuccessIndex(rs, 0) == FirstSuccessIndex(rs, i)
      invariant value.None?
    {
      var r := FetchWithProxy(url, i, fetch, parseJson);
      assert r == rs[i];
      if r.Success? {
        value := Some(r.value);
        break;
      }
      warnings := warnings + [Warning(feed, i, r.error)];
    }
  }

  /** The NOAA Space Weather Prediction Center's JSON feeds. */
  const SwpcJson := "https://services.swpc.noaa.gov/json/"
  const FlareUrl := SwpcJson + "goes/primary/xray-flares-latest.json"
  const ForecastUrl := SwpcJson + "solar_probabilities.json"

  /** What the space-weather panel is given to display. */
  datatype SpaceWeather<J> = SpaceWeather(latestFlare: Option<J>, flareForecast: Option<J>)

  /**
   * fetchSpaceWeather: nothing happens without the panel's container; otherwise the
   * latest flare and then the forecast are each fetched through the proxy chain.
   */
  method FetchSpaceWeather<J>(hasContainer: bool, fetch: string -> HttpResponse, parseJson: string -> Option<J>)
    returns (shown: Option<SpaceWeather<J>>, warnings: seq<Warning>)
    ensures !hasContainer ==> shown.None? && warnings == []
    ensures hasContainer ==>
      shown == Some(SpaceWeather(FirstSuccess(Attempts(FlareUrl, fetch, parseJson)),
                                 FirstSuccess(Attempts(ForecastUrl, fetch, parseJson))))
    ensures hasContainer ==>
      var flare := Attempts(FlareUrl, fetch, parseJson);
      var forecast := Attempts(ForecastUrl, fetch, parseJson);
      warnings == Refusals(LatestFlare, flare, FirstSuccessIndex(flare, 0)) +
                  Refusals(FlareForecast, forecast, FirstSuccessIndex(forecast, 0))
  {
    if !hasContainer {
      return None, [];
    }
    var latestFlare, flareWarnings := FetchFromFirstProxy(LatestFlare, FlareUrl, fetch, parseJson);
    var flareForecast, forecastWarnings := FetchFromFirstProxy(FlareForecast, ForecastUrl, fetch, parseJson);
    shown := Some(SpaceWeather(latestFlare, flareForecast));
    warnings := flareWarnings + forecastWarnings;
  }
}
