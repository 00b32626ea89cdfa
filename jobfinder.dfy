/** The `job_finder` tool: analyse a given description, else fetch a given
    URL, else search when the goal asks to look for or find something. */
module JobFinder {
  import opened Wrappers
  import opened PyStr
  import opened Fetch

  /** Which branch answers the call.  A description counts only when it is
      a non-empty string (Python truthiness); any URL counts. */
  datatype Route = Describe | FetchPage | Search | Reject

  predicate IsSearchGoal(goal: string) {
    Contains(Lower(goal), "look for") || Contains(Lower(goal), "find")
  }

  function RouteOf(goal: string, description: Option<string>, url: Option<string>): (route: Route)
    ensures route == Describe <==> description.Some? && description.value != ""
    ensures route == FetchPage <==> (description.None? || description.value == "") && url.Some?
    ensures route == Search <==> (description.None? || description.value == "") && url.None? && IsSearchGoal(goal)
    ensures route == Reject <==>
              (description.None? || description.value == "") && url.None? && !IsSearchGoal(goal)
  {
    if description.Some? && description.value != "" then Describe
    else if url.Some? then FetchPage
    else if IsSearchGoal(goal) then Search
    else Reject
  }

  const RejectMessage: string :=
    "Please provide either a job description, a job URL, or a search query in user_goal."

  function DescriptionReport(goal: string, description: string): string {
    "\U{1F4DD} **Job Description Analysis**\n\n" +
    "---\n" + Strip(description) + "\n---\n\n" +
    "User Goal: **" + goal + "**\n\n" +
    "\U{1F4A1} Suggestions:\n- Tailor your resume.\n- Evaluate skill match.\n- Consider applying if relevant."
  }

  function PageReport(goal: string, url: string, content: string): string {
    "\U{1F517} **Fetched Job Posting from URL**: " + url + "\n\n" +
    "---\n" + Strip(content) + "\n---\n\n" +
    "User Goal: **" + goal + "**"
  }

  function Bullets(links: seq<string>): (r: seq<string>)
    ensures |r| == |links|
    ensures forall i :: 0 <= i < |links| ==> r[i] == "- " + links[i]
  {
    if links == [] then [] else ["- " + links[0]] + Bullets(links[1..])
  }

  function SearchReport(goal: string, links: seq<string>): string {
    "\U{1F50D} **Search Results for**: _" + goal + "_\n\n" + Join("\n", Bullets(links))
  }

  /** `job_finder(user_goal, job_description, job_url, raw)`.  The URL is the
      text of the validated `AnyUrl`; `page` and `simplified` are what
      fetching it gives (see `FetchUrl`), and `searchStatus` and `anchors`
      what the search request gives (see `SearchLinks`).  An `McpError` is
      a `Failure`. */
  function JobFinder(goal: string, description: Option<string>, url: Option<string>, raw: bool,
                     page: Response, simplified: string,
                     searchStatus: int, anchors: seq<string>): (r: Result<string, ErrorData>)
    ensures RouteOf(goal, description, url) == Reject <==> r == Failure(ErrorData(InvalidParams, RejectMessage))
    ensures RouteOf(goal, description, url) == Describe ==> r == Success(DescriptionReport(goal, description.value))
    ensures RouteOf(goal, description, url) == FetchPage ==>
              r.Success? == FetchUrl(url.value, page, raw, simplified).Success?
    ensures RouteOf(goal, description, url) == Search ==>
              r == Success(SearchReport(goal, SearchLinks(searchStatus, anchors, DefaultNumResults)))
  {
    match RouteOf(goal, description, url)
    case Describe => Success(DescriptionReport(goal, description.value))
    case FetchPage =>
      (match FetchUrl(url.value, page, raw, simplified)
       case Success((content, _)) => Success(PageReport(goal, url.value, content))
       case Failure(e) => Failure(e))
    case Search => Success(SearchReport(goal, SearchLinks(searchStatus, anchors, DefaultNumResults)))
    case Reject => Failure(ErrorData(InvalidParams, RejectMessage))
  }

  /** A fetched page appears stripped in the report; a failed fetch is
      the fetch's own error, and is never the invalid-parameters error. */
  lemma FetchedPage(goal: string, description: Option<string>, url: Option<string>, raw: bool,
                    page: Response, simplified: string, searchStatus: int, anchors: seq<string>)
    requires RouteOf(goal, description, url) == FetchPage
    ensures var f := FetchUrl(url.value, page, raw, simplified);
            var r := JobFinder(goal, description, url, raw, page, simplified, searchStatus, anchors);
            (f.Success? ==> r == Success(PageReport(goal, url.value, f.value.0))) &&
            (f.Failure? ==> r == Failure(f.error) && r.error.code == InternalError)
  {
  }

  /** A description wins over everything else: the URL, the page and the
      search results make no difference. */
  lemma DescriptionWins(goal: string, d: string, url1: Option<string>, url2: Option<string>, raw1: bool, raw2: bool,
                        page1: Response, page2: Response, s1: string, s2: string,
                        status1: int, status2: int, anchors1: seq<string>, anchors2: seq<string>)
    requires d != ""
    ensures JobFinder(goal, Some(d), url1, raw1, page1, s1, status1, anchors1) ==
            JobFinder(goal, Some(d), url2, raw2, page2, s2, status2, anchors2)
  {
  }

  /** With a URL and no usable description, the goal is not looked at for
      searching and the search results make no difference. */
  lemma UrlBeforeSearch(goal: string, d: Option<string>, url: string, raw: bool, page: Response, s: string,
                        status1: int, status2: int, anchors1: seq<string>, anchors2: seq<string>)
    requires d.None? || d.value == ""
    ensures JobFinder(goal, d, Some(url), raw, page, s, status1, anchors1) ==
            JobFinder(goal, d, Some(url), raw, page, s, status2, anchors2)
  {
  }

  /** The description is reported stripped: whitespace around it makes
      no difference. */
  lemma DescriptionStripped(goal: string, pre: string, d: string, post: string)
    requires forall k :: 0 <= k < |pre| ==> IsSpace(pre[k])
    requires forall k :: 0 <= k < |post| ==> IsSpace(post[k])
    ensures DescriptionReport(goal, pre + d + post) == DescriptionReport(goal, d)
  {
    StripPadded(pre, d, post);
  }

  /** "find" and "look for" are recognised in any case: a goal and its
      lower case are searches alike. */
  lemma SearchGoalAnyCase(goal: string)
    ensures IsSearchGoal(Lower(goal)) == IsSearchGoal(goal)
  {
    LowerIdempotent(goal);
  }

  /** The search report lists one "- " line per link, so the "No results"
      marker alone is reported as one line. */
  lemma NoResultsReport(goal: string)
    ensures SearchReport(goal, [NoResults]) ==
            "\U{1F50D} **Search Results for**: _" + goal + "_\n\n- " + NoResults
  {
    assert Bullets([NoResults]) == ["- " + NoResults];
  }

  /** A search whose anchors hold no "http" href reports the "No results"
      marker as its one line. */
  lemma EmptySearchReport(goal: string, anchors: seq<string>)
    requires forall i :: 0 <= i < |anchors| ==> !Contains(anchors[i], "http")
    ensures SearchReport(goal, SearchLinks(200, anchors, DefaultNumResults)) ==
            "\U{1F50D} **Search Results for**: _" + goal + "_\n\n- " + NoResults
  {
    NothingFound(anchors, DefaultNumResults);
    NoResultsReport(goal);
  }
}
