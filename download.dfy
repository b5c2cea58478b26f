/**
 * `download_all` of download-data.py: the first request URL, then a loop
 * that fetches a page, appends its array to the output and follows the
 * `next` entry of the page's `Link` header. The HTTP round trip is a given
 * function from a URL to the page it returns; `fuel` bounds the number of
 * requests, since an API that links pages in a cycle is never left.
 */
module DownloadData {
  import opened Wrappers
  import opened JsonValue
  import opened Text
  import opened LinkHeader
  import opened SinceDate

  const RequestUrlPrefix: string := "https://app.fakturoid.cz/api/v2/accounts/"

  /** The `--type` choices. */
  datatype Kind = Invoices | Expenses

  function KindName(kind: Kind): (name: string)
    ensures |name| == 8
  {
    match kind
    case Invoices => "invoices"
    case Expenses => "expenses"
  }

  /** `REQUEST_URL_TEMPLATE.format(slug, '{}.json'.format(type))`. */
  function RequestUrl(slug: string, kind: Kind): string
  {
    RequestUrlPrefix + slug + "/" + KindName(kind) + ".json"
  }

  /** The URL names the account and the resource: neither is lost or confused with another. */
  lemma RequestUrlInjective(slug1: string, kind1: Kind, slug2: string, kind2: Kind)
    ensures RequestUrl(slug1, kind1) == RequestUrl(slug2, kind2) <==> slug1 == slug2 && kind1 == kind2
  {
    var u1, u2 := RequestUrl(slug1, kind1), RequestUrl(slug2, kind2);
    if u1 == u2 {
      var n := |RequestUrlPrefix|;
      assert |slug1| == |slug2|;
      assert slug1 == u1[n..n + |slug1|];
      assert slug2 == u2[n..n + |slug2|];
      var k := n + |slug1| + 1;
      assert KindName(kind1) == u1[k..k + 8];
      assert KindName(kind2) == u2[k..k + 8];
    }
  }

  /**
   * The URL of the first request: the template, and when `since` is given
   * (not `None` and not empty) the query `?since=` with the ISO text of that
   * midnight. `None` stands for the `ValueError` of a `since` that is not a date.
   */
  function InitialUrl(slug: string, kind: Kind, since: Option<string>): (r: Option<string>)
    ensures since.None? || since == Some("") ==> r == Some(RequestUrl(slug, kind))
    ensures since.Some? && since.value != "" ==>
      (r.None? <==> ParseDate(since.value).None?)
  {
    var base := RequestUrl(slug, kind);
    if since.None? || since.value == "" then Some(base)
    else match ParseDate(since.value)
      case None => None
      case Some(d) => Some(base + "?since=" + IsoFormat(d))
  }

  /** A zero-padded date is sent back as given, with the midnight time appended. */
  lemma InitialUrlPaddedSince(slug: string, kind: Kind, since: string)
    requires ParseDate(since).Some? && |since| == 10 && since[8] != ' '
    ensures InitialUrl(slug, kind, Some(since)) == Some(RequestUrl(slug, kind) + "?since=" + since + "T00:00:00")
  {
    PaddedDateText(since);
    var d := ParseDate(since).value;
    var base := RequestUrl(slug, kind);
    assert InitialUrl(slug, kind, Some(since)) == Some(base + "?since=" + IsoFormat(d));
    assert IsoFormat(d) == since + "T00:00:00";
    assert base + "?since=" + IsoFormat(d) == base + "?since=" + since + "T00:00:00";
  }

  /** What the API returns for one request: the page's array and its `Link` header, if any. */
  datatype Response = Response(body: seq<Json>, link: Option<string>)

  /** What the loop does after a page: request `url`, stop, or raise `IndexError` on `entry`. */
  datatype Step = Follow(url: string) | Stop | Crash(entry: string)

  /**
   * `if link_header:` and the scan of its entries, followed by the test
   * `while api_url:`: a missing or empty header, no `next` entry and an empty
   * `next` URL all end the loop.
   */
  function StepAfter(link: Option<string>): (step: Step)
    ensures link.None? || link == Some("") ==> step == Stop
    ensures step.Follow? ==> step.url != "" && link.Some? && NextLink(link.value) == Next(step.url)
    ensures step.Crash? ==> link.Some? && NextLink(link.value) == Malformed(step.entry)
    ensures link.Some? && link.value != "" && NextLink(link.value).Next? && NextLink(link.value).url != "" ==>
      step == Follow(NextLink(link.value).url)
    ensures link.Some? && link.value != "" && NextLink(link.value).Malformed? ==>
      step == Crash(NextLink(link.value).entry)
  {
    if link.None? || link.value == "" then Stop
    else match NextLink(link.value)
      case Next(u) => if u == "" then Stop else Follow(u)
      case NoNext => Stop
      case Malformed(e) => Crash(e)
  }

  datatype Status =
      /** The loop ended normally and `all_data` is printed. */
    | Finished
      /** The `Link` header entry `entry` has no `;`. */
    | LinkError(entry: string)
      /** The request bound was reached with a next page still to fetch. */
    | OutOfFuel
      /** `strptime` rejected the `since` text before any request. */
    | InvalidSince

  /** The status, the pages' contents in order, and the URLs requested in order. */
  datatype Outcome = Outcome(status: Status, data: seq<Json>, requests: seq<string>)

  function Prefixed(data: seq<Json>, requests: seq<string>, rest: Outcome): Outcome
  {
    Outcome(rest.status, data + rest.data, requests + rest.requests)
  }

  /**
   * The reference definition of the loop started at `url`, with at most
   * `fuel` requests. An empty `url` is false for `while api_url:`, so
   * nothing is requested.
   */
  function Crawl(fetch: string -> Response, url: string, fuel: nat): Outcome
    decreases fuel
  {
    if url == "" then Outcome(Finished, [], [])
    else if fuel == 0 then Outcome(OutOfFuel, [], [])
    else
      var page := fetch(url);
      match StepAfter(page.link)
      case Stop => Outcome(Finished, page.body, [url])
      case Crash(e) => Outcome(LinkError(e), page.body, [url])
      case Follow(next) => Prefixed(page.body, [url], Crawl(fetch, next, fuel - 1))
  }

  /** The concatenation of the arrays returned for `requests`, in request order. */
  function Pages(fetch: string -> Response, requests: seq<string>): seq<Json>
  {
    if requests == [] then [] else fetch(requests[0]).body + Pages(fetch, requests[1..])
  }

  /** Each request after the first is the URL the previous page's `Link` header named. */
  predicate Chained(fetch: string -> Response, requests: seq<string>)
  {
    forall i :: 0 <= i < |requests| - 1 ==> StepAfter(fetch(requests[i]).link) == Follow(requests[i + 1])
  }

  /** The output is the concatenation of the fetched pages, in the order they were requested. */
  lemma {:induction false} CrawlPages(fetch: string -> Response, url: string, fuel: nat)
    ensures Crawl(fetch, url, fuel).data == Pages(fetch, Crawl(fetch, url, fuel).requests)
    decreases fuel
  {
    if url != "" && fuel > 0 {
      var page := fetch(url);
      var step := StepAfter(page.link);
      if step.Follow? {
        var rest := Crawl(fetch, step.url, fuel - 1);
        CrawlPages(fetch, step.url, fuel - 1);
        assert ([url] + rest.requests)[1..] == rest.requests;
      } else {
        assert [url][1..] == [];
      }
    }
  }

  /**
   * The requests start at `url`, follow the `Link` headers one page at a
   * time, and number at most `fuel`; there are none only for an empty `url`
   * or no fuel.
   */
  lemma {:induction false} CrawlChain(fetch: string -> Response, url: string, fuel: nat)
    ensures var o := Crawl(fetch, url, fuel);
      && |o.requests| <= fuel
      && (o.requests == [] <==> url == "" || fuel == 0)
      && (o.requests != [] ==> o.requests[0] == url)
      && Chained(fetch, o.requests)
    decreases fuel
  {
    if url != "" && fuel > 0 {
      var page := fetch(url);
      var step := StepAfter(page.link);
      if step.Follow? {
        CrawlChain(fetch, step.url, fuel - 1);
        var rest := Crawl(fetch, step.url, fuel - 1);
        var reqs := [url] + rest.requests;
        assert Crawl(fetch, url, fuel).requests == reqs;
        forall i | 0 <= i < |reqs| - 1
          ensures StepAfter(fetch(reqs[i]).link) == Follow(reqs[i + 1])
        {
          if i > 0 {
            assert reqs[i] == rest.requests[i - 1] && reqs[i + 1] == rest.requests[i];
          }
        }
      }
    }
  }

  /** The status says how the last requested page ended. */
  lemma {:induction false} CrawlStatus(fetch: string -> Response, url: string, fuel: nat)
    ensures var o := Crawl(fetch, url, fuel);
      && (o.status.Finished? ==> o.requests == [] || StepAfter(fetch(o.requests[|o.requests| - 1]).link) == Stop)
      && (o.status.LinkError? ==> o.requests != [] && StepAfter(fetch(o.requests[|o.requests| - 1]).link) == Crash(o.status.entry))
      && (o.status.OutOfFuel? ==> |o.requests| == fuel)
      && !o.status.InvalidSince?
    decreases fuel
  {
    if url != "" && fuel > 0 {
      var page := fetch(url);
      var step := StepAfter(page.link);
      if step.Follow? {
        CrawlStatus(fetch, step.url, fuel - 1);
        var rest := Crawl(fetch, step.url, fuel - 1);
        var reqs := [url] + rest.requests;
        assert Crawl(fetch, url, fuel) == Outcome(rest.status, page.body + rest.data, reqs);
        if rest.requests != [] {
          assert reqs[|reqs| - 1] == rest.requests[|rest.requests| - 1];
        } else {
          assert step.url != "";
          assert rest.status.OutOfFuel?;
        }
      }
    }
  }

  /** A first page with no usable `next` link means exactly one request. */
  lemma SingleRequest(fetch: string -> Response, url: string, fuel: nat)
    requires url != "" && fuel > 0 && !StepAfter(fetch(url).link).Follow?
    ensures Crawl(fetch, url, fuel).requests == [url]
    ensures Crawl(fetch, url, fuel).data == fetch(url).body
    ensures fetch(url).link.None? ==> Crawl(fetch, url, fuel).status == Finished
  {
  }

  /** Once the loop ends within `fuel` requests, more fuel changes nothing. */
  lemma {:induction false} CrawlFuelSuffices(fetch: string -> Response, url: string, fuel: nat, more: nat)
    requires fuel <= more
    requires !Crawl(fetch, url, fuel).status.OutOfFuel?
    ensures Crawl(fetch, url, more) == Crawl(fetch, url, fuel)
    decreases fuel
  {
    var step := StepAfter(fetch(url).link);
    if url != "" && step.Follow? {
      CrawlFuelSuffices(fetch, step.url, fuel - 1, more - 1);
    }
  }

  /** One iteration of the loop: the page at `url`, then whatever its `Link` header leads to. */
  lemma CrawlStep(fetch: string -> Response, url: string, fuel: nat)
    requires url != "" && fuel > 0
    ensures var page := fetch(url);
      Crawl(fetch, url, fuel) == Prefixed(page.body, [url],
        match StepAfter(page.link)
        case Stop => Outcome(Finished, [], [])
        case Crash(e) => Outcome(LinkError(e), [], [])
        case Follow(next) => Crawl(fetch, next, fuel - 1))
  {
    var page := fetch(url);
    assert page.body + [] == page.body && [url] + [] == [url];
  }

  lemma PrefixedTwice(data: seq<Json>, requests: seq<string>, body: seq<Json>, url: string, rest: Outcome)
    ensures Prefixed(data, requests, Prefixed(body, [url], rest)) == Prefixed(data + body, requests + [url], rest)
  {
    assert data + (body + rest.data) == data + body + rest.data;
    assert requests + ([url] + rest.requests) == requests + [url] + rest.requests;
  }

  /** Lines 54-70 of download-data.py: `api_url` for the page after one whose header is `link`. */
  method NextUrl(link: Option<string>) returns (step: Step)
    ensures step == StepAfter(link)
  {
    step := Stop;
    if link.Some? && link.value != "" {
      var next := ParseNextLink(link.value);
      match next
      case Next(u) =>
        if u != "" {
          step := Follow(u);
        }
      case NoNext =>
      case Malformed(e) =>
        step := Crash(e);
    }
  }

  /** The `while api_url:` loop of `download_all`, from `start`. */
  method Download(fetch: string -> Response, start: string, fuel: nat)
    returns (status: Status, data: seq<Json>, requests: seq<string>)
    ensures Outcome(status, data, requests) == Crawl(fetch, start, fuel)
  {
    data, requests := [], [];
    status := Finished;
    var apiUrl: Option<string> := if start == "" then None else Some(start);
    var count := 0;
    while apiUrl.Some?
      invariant count <= fuel
      invariant apiUrl.Some? ==> status == Finished && apiUrl.value != ""
      invariant apiUrl.Some? ==> Crawl(fetch, start, fuel) == Prefixed(data, requests, Crawl(fetch, apiUrl.value, fuel - count))
      invariant apiUrl.None? ==> Crawl(fetch, start, fuel) == Outcome(status, data, requests)
      decreases fuel - count, if apiUrl.Some? then 1 else 0
    {
      if count == fuel {
        status := OutOfFuel;
        break;
      }
      var url := apiUrl.value;
      var result := fetch(url);
      CrawlStep(fetch, url, fuel - count);
      PrefixedTwice(data, requests, result.body, url, match StepAfter(result.link)
        case Stop => Outcome(Finished, [], [])
        case Crash(e) => Outcome(LinkError(e), [], [])
        case Follow(next) => Crawl(fetch, next, fuel - count - 1));
      requests := requests + [url];
      data := data + result.body;
      count := count + 1;
      var step := NextUrl(result.link);
      match step
      case Follow(u) =>
        apiUrl := Some(u);
      case Stop =>
        apiUrl := None;
        assert data + [] == data && requests + [] == requests;
      case Crash(e) =>
        apiUrl := None;
        status := LinkError(e);
        assert data + [] == data && requests + [] == requests;
    }
  }

  /**
   * `download_all(type, since)` for the account `slug`: the request URL,
   * then the loop. A `since` that is not a date stops it before any request.
   */
  method DownloadAll(fetch: string -> Response, slug: string, kind: Kind, since: Option<string>, fuel: nat)
    returns (status: Status, data: seq<Json>, requests: seq<string>)
    ensures InitialUrl(slug, kind, since).None? ==> status == InvalidSince && data == [] && requests == []
    ensures InitialUrl(slug, kind, since).Some? ==>
      Outcome(status, data, requests) == Crawl(fetch, InitialUrl(slug, kind, since).value, fuel)
    ensures data == Pages(fetch, requests)
  {
    var apiUrl := InitialUrl(slug, kind, since);
    if apiUrl.None? {
      return InvalidSince, [], [];
    }
    status, data, requests := Download(fetch, apiUrl.value, fuel);
    CrawlPages(fetch, apiUrl.value, fuel);
  }
}
