/** The `Fetch` helpers: turning an HTTP response into page text, and
    filtering the result links of a DuckDuckGo search.  The HTTP exchange
    itself happens outside the model: each helper takes the response it
    would have received. */
module Fetch {
  import opened Wrappers
  import opened PyStr

  /** `mcp.ErrorData`. */
  datatype ErrorData = ErrorData(code: int, message: string)

  /** JSON-RPC 2.0, section 5.1: invalid method parameters. */
  const InvalidParams: int := -32602
  /** JSON-RPC 2.0, section 5.1: internal JSON-RPC error. */
  const InternalError: int := -32603

  // ------------------------------------------------------------ fetch_url

  /** What `client.get` gave: an `httpx.HTTPError` (by its `repr`), or a
      response with its status code, its `content-type` header ("" when
      absent) and its body text. */
  datatype Response =
    | TransportError(repr: string)
    | Response(status: int, contentType: string, text: string)

  function RawNotice(contentType: string): string {
    "Content type " + contentType + " cannot be simplified to markdown, but here is the raw content:\n"
  }

  /** `fetch_url(url, user_agent, force_raw)`: the page text and a notice.
      `simplified` stands for what `extract_content_from_html` makes of the
      body, which is not part of this model. */
  function FetchUrl(url: string, response: Response, forceRaw: bool, simplified: string): (r: Result<(string, string), ErrorData>)
    ensures r.Failure? <==> response.TransportError? || response.status >= 400
    ensures r.Failure? ==> r.error.code == InternalError
    ensures r.Success? && Contains(response.contentType, "text/html") && !forceRaw ==>
              r.value == (simplified, "")
    ensures r.Success? && !(Contains(response.contentType, "text/html") && !forceRaw) ==>
              r.value == (response.text, RawNotice(response.contentType))
  {
    match response
    case TransportError(e) =>
      Failure(ErrorData(InternalError, "Failed to fetch " + url + ": " + e))
    case Response(status, contentType, text) =>
      if status >= 400 then
        Failure(ErrorData(InternalError, "Failed to fetch " + url + " - status code " + NatToString(status)))
      else if Contains(contentType, "text/html") && !forceRaw then
        Success((simplified, ""))
      else
        Success((text, RawNotice(contentType)))
  }

  /** Whatever the format, a successful fetch never returns a notice for
      HTML that is simplified, and always returns one otherwise. */
  lemma FetchNotice(url: string, response: Response, forceRaw: bool, simplified: string)
    requires FetchUrl(url, response, forceRaw, simplified).Success?
    ensures var notice := FetchUrl(url, response, forceRaw, simplified).value.1;
            notice == "" <==> Contains(response.contentType, "text/html") && !forceRaw
  {
    var notice := FetchUrl(url, response, forceRaw, simplified).value.1;
    if !(Contains(response.contentType, "text/html") && !forceRaw) {
      assert notice[0] == 'C';
    }
  }

  /** The status code in the error message reads back as the status. */
  lemma FetchStatusMessage(url: string, response: Response, forceRaw: bool, simplified: string)
    requires response.Response? && response.status >= 400
    ensures var prefix := "Failed to fetch " + url + " - status code ";
            var m := FetchUrl(url, response, forceRaw, simplified).error.message;
            |m| > |prefix| && m[..|prefix|] == prefix &&
            (forall i :: |prefix| <= i < |m| ==> '0' <= m[i] <= '9') &&
            DecimalValue(m[|prefix|..]) == response.status
  {
    var prefix := "Failed to fetch " + url + " - status code ";
    var digits := NatToString(response.status);
    var m := FetchUrl(url, response, forceRaw, simplified).error.message;
    assert m == prefix + digits;
    assert m[|prefix|..] == digits;
    NatToStringValue(response.status);
  }

  // -------------------------------------------------- google_search_links

  const SearchEndpoint: string := "https://html.duckduckgo.com/html/?q="
  const SearchFailed: string := "<error>Failed to perform search.</error>"
  const NoResults: string := "<error>No results found.</error>"
  const DefaultNumResults: int := 5

  /** `s.replace(' ', '+')`. */
  function ReplaceSpaces(s: string): (r: string)
    ensures |r| == |s|
    ensures forall i :: 0 <= i < |s| ==> r[i] == (if s[i] == ' ' then '+' else s[i])
  {
    if s == [] then [] else [if s[0] == ' ' then '+' else s[0]] + ReplaceSpaces(s[1..])
  }

  /** The search URL: the endpoint, then the query with every space
      written as '+'; the URL holds no space after the endpoint. */
  function SearchUrl(query: string): (u: string)
    ensures |u| == |SearchEndpoint| + |query| && u[..|SearchEndpoint|] == SearchEndpoint
    ensures forall i :: 0 <= i < |query| ==>
              u[|SearchEndpoint| + i] == (if query[i] == ' ' then '+' else query[i])
    ensures forall i :: |SearchEndpoint| <= i < |u| ==> u[i] != ' '
  {
    SearchEndpoint + ReplaceSpaces(query)
  }

  /** A query without spaces goes into the URL as it is. */
  lemma SearchUrlVerbatim(query: string)
    requires forall i :: 0 <= i < |query| ==> query[i] != ' '
    ensures SearchUrl(query) == SearchEndpoint + query
  {
    assert ReplaceSpaces(query) == query;
  }

  /** The hrefs that contain "http", in their order. */
  function HttpLinks(hrefs: seq<string>): (r: seq<string>)
    ensures |r| <= |hrefs|
    ensures forall i :: 0 <= i < |r| ==> Contains(r[i], "http")
  {
    if hrefs == [] then []
    else (if Contains(hrefs[0], "http") then [hrefs[0]] else []) + HttpLinks(hrefs[1..])
  }

  /** A string is among the links exactly when it is an href that contains
      "http". */
  lemma {:induction false} HttpLinksMembers(hrefs: seq<string>, x: string)
    ensures x in HttpLinks(hrefs) <==> x in hrefs && Contains(x, "http")
    decreases |hrefs|
  {
    if hrefs != [] {
      HttpLinksMembers(hrefs[1..], x);
      assert x in hrefs <==> x == hrefs[0] || x in hrefs[1..];
    }
  }

  lemma {:induction false} HttpLinksAppend(a: seq<string>, b: seq<string>)
    ensures HttpLinks(a + b) == HttpLinks(a) + HttpLinks(b)
    decreases |a|
  {
    if a != [] {
      var head := if Contains(a[0], "http") then [a[0]] else [];
      assert (a + b)[0] == a[0] && (a + b)[1..] == a[1..] + b;
      assert HttpLinks(a + b) == head + HttpLinks(a[1..] + b);
      HttpLinksAppend(a[1..], b);
      assert HttpLinks(a) + HttpLinks(b) == head + (HttpLinks(a[1..]) + HttpLinks(b));
    } else {
      assert a + b == b;
    }
  }

  /** The links the loop keeps from the result anchors.  With a positive
      limit, the first `numResults` hrefs that contain "http".  Because the
      length test follows the append, a limit of zero or less still looks
      at the first href, and keeps it when it contains "http". */
  function KeptLinks(hrefs: seq<string>, numResults: int): seq<string> {
    if numResults >= 1 then
      var all := HttpLinks(hrefs);
      if |all| <= numResults then all else all[..numResults]
    else if hrefs == [] then []
    else HttpLinks(hrefs[..1])
  }

  /** What `google_search_links` returns, given the status of the search
      response and the hrefs of its `a.result__a` anchors in document order. */
  function SearchLinks(status: int, hrefs: seq<string>, numResults: int): seq<string> {
    if status != 200 then [SearchFailed]
    else
      var links := KeptLinks(hrefs, numResults);
      if links == [] then [NoResults] else links
  }

  /** `google_search_links(query, num_results)` after the request: the
      filtering loop over the anchors, with its early exit. */
  method GoogleSearchLinks(status: int, hrefs: seq<string>, numResults: int) returns (links: seq<string>)
    ensures links == SearchLinks(status, hrefs, numResults)
  {
    if status != 200 {
      return [SearchFailed];
    }
    links := [];
    var i := 0;
    while i < |hrefs|
      invariant 0 <= i <= |hrefs|
      invariant links == HttpLinks(hrefs[..i])
      invariant numResults >= 1 ==> |links| < numResults
      invariant numResults < 1 ==> i == 0
    {
      var href := hrefs[i];
      HttpLinksAppend(hrefs[..i], [href]);
      assert hrefs[..i + 1] == hrefs[..i] + [href];
      if Contains(href, "http") {
        links := links + [href];
      }
      i := i + 1;
      if |links| >= numResults {
        KeptAtBreak(hrefs, i, numResults);
        break;
      }
    }
    if i == |hrefs| {
      assert hrefs[..i] == hrefs;
    }
    if links == [] {
      links := [NoResults];
    }
  }

  /** Where the loop breaks, the links so far are exactly `KeptLinks`. */
  lemma KeptAtBreak(hrefs: seq<string>, i: int, numResults: int)
    requires 0 < i <= |hrefs|
    requires |HttpLinks(hrefs[..i])| >= numResults
    requires numResults >= 1 ==> |HttpLinks(hrefs[..i - 1])| < numResults
    requires numResults < 1 ==> i == 1
    ensures HttpLinks(hrefs[..i]) == KeptLinks(hrefs, numResults)
  {
    assert hrefs == hrefs[..i] + hrefs[i..];
    HttpLinksAppend(hrefs[..i], hrefs[i..]);
    if numResults >= 1 {
      assert hrefs[..i] == hrefs[..i - 1] + [hrefs[i - 1]];
      HttpLinksAppend(hrefs[..i - 1], [hrefs[i - 1]]);
    }
  }

  // ---------------------------------------------- properties of the links

  /** Never more links than asked for (one when the limit is not positive),
      never an empty list, and every entry an "http" href of the page or
      one of the two error markers. */
  lemma SearchLinksShape(status: int, hrefs: seq<string>, numResults: int)
    ensures var r := SearchLinks(status, hrefs, numResults);
            r != [] &&
            |r| <= (if numResults >= 1 then numResults else 1) &&
            forall x :: x in r ==> (x in hrefs && Contains(x, "http")) || x == SearchFailed || x == NoResults
  {
    var r := SearchLinks(status, hrefs, numResults);
    forall x | x in r && x != SearchFailed && x != NoResults
      ensures x in hrefs && Contains(x, "http")
    {
      KeptLinksPrefix(hrefs, numResults);
      HttpLinksMembers(hrefs, x);
    }
  }

  /** The links keep the page's order: they are the first "http" hrefs. */
  lemma KeptLinksPrefix(hrefs: seq<string>, numResults: int)
    ensures var kept := KeptLinks(hrefs, numResults);
            var all := HttpLinks(hrefs);
            |kept| <= |all| && kept == all[..|kept|]
  {
    if numResults < 1 && hrefs != [] {
      assert hrefs == hrefs[..1] + hrefs[1..];
      HttpLinksAppend(hrefs[..1], hrefs[1..]);
    }
  }

  lemma {:induction false} NoLinks(hrefs: seq<string>)
    requires forall i :: 0 <= i < |hrefs| ==> !Contains(hrefs[i], "http")
    ensures HttpLinks(hrefs) == []
  {
    if hrefs != [] {
      NoLinks(hrefs[1..]);
    }
  }

  /** `xs` is `ys` with some elements left out, the rest in their order. */
  predicate Subsequence(xs: seq<string>, ys: seq<string>)
    decreases |ys|
  {
    xs == [] || (ys != [] && if xs[0] == ys[0] then Subsequence(xs[1..], ys[1..]) else Subsequence(xs, ys[1..]))
  }

  lemma {:induction false} HttpLinksSubsequence(hrefs: seq<string>)
    ensures Subsequence(HttpLinks(hrefs), hrefs)
    decreases |hrefs|
  {
    if hrefs != [] {
      HttpLinksSubsequence(hrefs[1..]);
      var rest := HttpLinks(hrefs[1..]);
      if Contains(hrefs[0], "http") {
        assert HttpLinks(hrefs) == [hrefs[0]] + rest;
        assert ([hrefs[0]] + rest)[1..] == rest;
      } else {
        assert HttpLinks(hrefs) == rest;
        if rest != [] {
          SubsequenceSkip(rest, hrefs);
        }
      }
    }
  }

  /** A subsequence of the tail is a subsequence of the whole. */
  lemma {:induction false} SubsequenceSkip(xs: seq<string>, ys: seq<string>)
    requires ys != [] && Subsequence(xs, ys[1..])
    ensures Subsequence(xs, ys)
    decreases |ys|, 0
  {
    if xs != [] && xs[0] == ys[0] {
      SubsequenceDrop(xs, ys[1..]);
    }
  }

  /** Dropping the first element keeps a subsequence. */
  lemma {:induction false} SubsequenceDrop(xs: seq<string>, ys: seq<string>)
    requires xs != [] && Subsequence(xs, ys)
    ensures Subsequence(xs[1..], ys)
    decreases |ys|, 1
  {
    if xs[0] != ys[0] {
      SubsequenceDrop(xs, ys[1..]);
    }
    SubsequenceSkip(xs[1..], ys);
  }

  /** A prefix of a subsequence is a subsequence. */
  lemma {:induction false} SubsequencePrefix(xs: seq<string>, ys: seq<string>, k: nat)
    requires k <= |xs| && Subsequence(xs, ys)
    ensures Subsequence(xs[..k], ys)
    decreases |ys|
  {
    if k > 0 {
      if xs[0] == ys[0] {
        assert xs[..k][1..] == xs[1..][..k - 1];
        SubsequencePrefix(xs[1..], ys[1..], k - 1);
      } else {
        SubsequencePrefix(xs, ys[1..], k);
      }
    }
  }

  /** The kept links appear in the page in the same order. */
  lemma KeptLinksInOrder(hrefs: seq<string>, numResults: int)
    ensures Subsequence(KeptLinks(hrefs, numResults), hrefs)
  {
    KeptLinksPrefix(hrefs, numResults);
    HttpLinksSubsequence(hrefs);
    var kept := KeptLinks(hrefs, numResults);
    SubsequencePrefix(HttpLinks(hrefs), hrefs, |kept|);
  }

  /** The search proper succeeded but kept nothing: the one error marker. */
  lemma NothingFound(hrefs: seq<string>, numResults: int)
    requires forall i :: 0 <= i < |hrefs| ==> !Contains(hrefs[i], "http")
    ensures SearchLinks(200, hrefs, numResults) == [NoResults]
  {
    NoLinks(hrefs);
    if hrefs != [] {
      assert hrefs[..1] == [hrefs[0]];
    }
  }

  /** A limit of zero still keeps the first href when it is a link. */
  lemma ZeroLimitKeepsFirst(first: string, rest: seq<string>)
    requires Contains(first, "http")
    ensures SearchLinks(200, [first] + rest, 0) == [first]
  {
    assert ([first] + rest)[..1] == [first];
  }
}
