/**
  Page-to-record assembly and the orchestration around it:
  `get_absolute_logo_url`, `handle_page_content`, `download_page`, the
  sequential phase of `collect_website_data`, `validate_urls`, and the
  script's main block.
 */
module Scraper {
  import opened Base
  import opened Phones
  import opened Logo

  /** What the scraper reads from a parsed page: images and anchors in
      document order, and the page's visible text. */
  datatype Document = Document(images: seq<Image>, anchors: seq<Anchor>, text: string)

  /** Collaborators outside the model, taken as given functions. */
  datatype Env = Env(
    parse: string -> Document,             // BeautifulSoup(page_text, "html.parser")
    urljoin: (string, string) -> string,   // urllib.parse.urljoin
    matchPhones: string -> seq<string>,    // phonenumbers matches of soup.text, as E.164
    isUrl: string -> bool)                 // is_url: urlparse gives a scheme and a netloc

  /** One entry of the exported JSON array. */
  datatype Record = Record(website: string, logo: Option<string>, phones: set<string>)

  /** What `requests.get` returned. */
  datatype Response = Response(status: int, text: string)

  /** The pair `download_page` returns: the url and the body, or `None`. */
  datatype Fetched = Fetched(url: string, body: Option<string>)

  /** How a run of the script ends. */
  datatype Outcome =
    | NoValidUrls                      // nothing printed to stdout
    | Exported(records: seq<Record>)   // the JSON array printed
    | Raised(error: LookupError)       // get_logo raised; nothing printed

  // ---------------------------------------------------------------------
  // get_absolute_logo_url and the logo branch of handle_page_content

  /** Lines 56-59. The `//` test is made on the page url, not on the logo. */
  function GetAbsoluteLogoUrl(env: Env, url: string, logo: string): (r: string) {
    if StartsWith(url, "//") then url[2..] else env.urljoin(url, logo)
  }

  /** For a protocol-relative page url the resolver returns the page url
      without its leading `//`, whatever the logo is. */
  lemma ResolverIgnoresLogo(env: Env, url: string, logo1: string, logo2: string)
    requires StartsWith(url, "//")
    ensures GetAbsoluteLogoUrl(env, url, logo1) == GetAbsoluteLogoUrl(env, url, logo2)
    ensures "//" + GetAbsoluteLogoUrl(env, url, logo1) == url
  {
    assert url == url[..2] + url[2..];
  }

  /** Lines 91-95: an absent or empty logo is kept as it is, one that
      starts with the page url is kept, any other goes through the
      resolver. */
  function ResolveLogo(env: Env, url: string, logo: Option<string>): (r: Option<string>)
    ensures r.None? <==> logo.None?
    ensures logo.Some? && (logo.value == "" || StartsWith(logo.value, url)) ==> r == logo
    ensures logo.Some? && logo.value != "" && !StartsWith(logo.value, url) ==>
      r == Some(GetAbsoluteLogoUrl(env, url, logo.value))
  {
    match logo
    case None => None
    case Some(l) =>
      if l == "" then logo
      else if !StartsWith(l, url) then Some(GetAbsoluteLogoUrl(env, url, l))
      else logo
  }

  /** A protocol-relative logo on an ordinary page url is handed to
      `urljoin`; its `//` is not stripped. */
  lemma ProtocolRelativeLogoIsJoined(env: Env, url: string, logo: string)
    requires StartsWith(logo, "//") && !StartsWith(url, "//") && !StartsWith(logo, url)
    ensures ResolveLogo(env, url, Some(logo)) == Some(env.urljoin(url, logo))
  {
  }

  // ---------------------------------------------------------------------
  // handle_page_content, lines 86-102

  function PagePhones(env: Env, doc: Document): (r: set<string>) {
    GetPhones(doc.anchors, env.matchPhones(doc.text))
  }

  function HandlePageContent(env: Env, url: string, doc: Document): (r: Result<Record, LookupError>)
    ensures r.Err? <==> GetLogo(doc.images).Err?
    ensures r.Ok? ==> r.value.website == url
    ensures r.Ok? ==> r.value.logo == ResolveLogo(env, url, GetLogo(doc.images).value)
    ensures r.Ok? ==> r.value.phones == PagePhones(env, doc)
    ensures r.Ok? ==> forall q | q in r.value.phones :: IsCleanPhone(q)
  {
    match GetLogo(doc.images)
    case Err(e) => Err(e)
    case Ok(logo) => Ok(Record(url, ResolveLogo(env, url, logo), PagePhones(env, doc)))
  }

  /** A record has no logo exactly when no image has a matching `src` and
      none has a logo class; the phones are those of the two strategies. */
  lemma HandlePageContentSpec(env: Env, url: string, doc: Document)
    requires HandlePageContent(env, url, doc).Ok?
    ensures HandlePageContent(env, url, doc).value.logo.None? <==>
      PassesSrcScan(doc.images, |doc.images|) && NoLogoClassBefore(doc.images, |doc.images|)
    ensures HandlePageContent(env, url, doc).value.phones ==
      CleanPhones(TelCandidates(doc.anchors)) + CleanPhones(env.matchPhones(doc.text))
  {
    GetLogoSpec(doc.images);
    GetPhonesSpec(doc.anchors, env.matchPhones(doc.text));
  }

  // ---------------------------------------------------------------------
  // download_page, lines 75-84

  function DownloadPage(url: string, response: Response): (r: Fetched)
    ensures r.url == url
    ensures r.body.Some? <==> response.status == 200
    ensures r.body.Some? ==> r.body.value == response.text
  {
    if response.status == 200 then Fetched(url, Some(response.text)) else Fetched(url, None)
  }

  /** A response that phase 2 turns into a record: status 200 and a
      non-empty text. */
  predicate Served(response: Response) {
    response.status == 200 && response.text != ""
  }

  /** Phase 1 of `collect_website_data`: `Pool.map` keeps the input order.
      The responses stand for the network. Page `i` keeps url `i`, and it
      passes the `if page_text:` test exactly when response `i` was served. */
  function FetchAll(urls: seq<string>, responses: seq<Response>): (r: seq<Fetched>)
    requires |responses| == |urls|
    ensures |r| == |urls|
    ensures forall i | 0 <= i < |r| :: r[i] == DownloadPage(urls[i], responses[i])
    ensures forall i | 0 <= i < |r| :: r[i].url == urls[i]
    ensures forall i | 0 <= i < |r| :: HasBody(r[i]) <==> Served(responses[i])
  {
    seq(|urls|, i requires 0 <= i < |urls| => DownloadPage(urls[i], responses[i]))
  }

  // ---------------------------------------------------------------------
  // Phase 2 of collect_website_data, lines 113-117

  /** `if page_text:` - a missing body and an empty body are both skipped. */
  predicate HasBody(f: Fetched) {
    f.body.Some? && f.body.value != ""
  }

  function HandleFetched(env: Env, f: Fetched): (r: Result<Record, LookupError>)
    requires f.body.Some?
  {
    HandlePageContent(env, f.url, env.parse(f.body.value))
  }

  /** One record per page with a body, in input order; the first page whose
      logo lookup raises ends the run. */
  function CollectRecords(env: Env, fetched: seq<Fetched>): (r: Result<seq<Record>, LookupError>)
    ensures r.Ok? <==>
      forall i | 0 <= i < |fetched| :: HasBody(fetched[i]) ==> HandleFetched(env, fetched[i]).Ok?
    ensures r.Ok? ==> |r.value| == |Filter(HasBody, fetched)|
  {
    var handle := (f: Fetched) requires f.body.Some? => HandleFetched(env, f);
    FilterThenMapOk(HasBody, handle, fetched);
    MapUntilErr(handle, Filter(HasBody, fetched))
  }

  /** The k-th record is the one built from the k-th page with a body. */
  lemma CollectRecordsSpec(env: Env, fetched: seq<Fetched>)
    requires CollectRecords(env, fetched).Ok?
    ensures forall k | 0 <= k < |CollectRecords(env, fetched).value| ::
      HasBody(Filter(HasBody, fetched)[k]) &&
      HandleFetched(env, Filter(HasBody, fetched)[k]) == Ok(CollectRecords(env, fetched).value[k]) &&
      CollectRecords(env, fetched).value[k].website == Filter(HasBody, fetched)[k].url
  {
    var handle := (f: Fetched) requires f.body.Some? => HandleFetched(env, f);
    FilterThenMapOk(HasBody, handle, fetched);
    MapUntilErrValues(handle, Filter(HasBody, fetched));
  }

  // ---------------------------------------------------------------------
  // validate_urls, lines 130-137

  function ValidateUrls(isUrl: string -> bool, urls: seq<string>): (r: seq<string>)
    ensures forall u :: u in r <==> u in urls && isUrl(u)
    ensures IsSubsequence(r, urls)
    ensures forall u | isUrl(u) :: multiset(r)[u] == multiset(urls)[u]
  {
    FilterIsSubsequence(isUrl, urls);
    forall u | isUrl(u) {
      FilterCounts(isUrl, urls, u);
    }
    Filter(isUrl, urls)
  }

  /** No url is valid exactly when no input passes `is_url`. */
  lemma ValidateUrlsEmpty(isUrl: string -> bool, urls: seq<string>)
    ensures |ValidateUrls(isUrl, urls)| == 0 <==> forall i | 0 <= i < |urls| :: !isUrl(urls[i])
  {
    var r := ValidateUrls(isUrl, urls);
    if |r| > 0 {
      assert r[0] in r;
    }
    forall i | 0 <= i < |urls| && isUrl(urls[i])
      ensures |r| > 0
    {
      assert urls[i] in r;
    }
  }

  // ---------------------------------------------------------------------
  // The main block, lines 139-149

  /** The script on the given input lines, with one response per valid url. */
  function Run(env: Env, lines: seq<string>, responses: seq<Response>): (r: Outcome)
    requires |responses| == |ValidateUrls(env.isUrl, lines)|
    ensures r == NoValidUrls <==> forall i | 0 <= i < |lines| :: !env.isUrl(lines[i])
  {
    var urls := ValidateUrls(env.isUrl, lines);
    ValidateUrlsEmpty(env.isUrl, lines);
    if |urls| == 0 then NoValidUrls
    else
      match CollectRecords(env, FetchAll(urls, responses))
      case Err(e) => Raised(e)
      case Ok(records) => Exported(records)
  }

  /** A run that finishes exports one record per served response. */
  lemma RunRecordCount(env: Env, lines: seq<string>, responses: seq<Response>)
    requires |responses| == |ValidateUrls(env.isUrl, lines)|
    ensures Run(env, lines, responses).Exported? ==>
      |Run(env, lines, responses).records| == |Filter(Served, responses)|
  {
    var urls := ValidateUrls(env.isUrl, lines);
    var fetched := FetchAll(urls, responses);
    FilterSameLength(HasBody, fetched, Served, responses);
  }

  /** The run raises, and exports nothing, exactly when some served page
      has an image without `src` ahead of every `src` match. */
  lemma RunRaises(env: Env, lines: seq<string>, responses: seq<Response>)
    requires |responses| == |ValidateUrls(env.isUrl, lines)|
    ensures Run(env, lines, responses).Raised? <==>
      exists i | 0 <= i < |responses| ::
        Served(responses[i]) && GetLogo(env.parse(responses[i].text).images).Err?
  {
    var urls := ValidateUrls(env.isUrl, lines);
    var fetched := FetchAll(urls, responses);
    forall i | 0 <= i < |responses|
      ensures (HasBody(fetched[i]) && HandleFetched(env, fetched[i]).Err?) <==>
        (Served(responses[i]) && GetLogo(env.parse(responses[i].text).images).Err?)
    {
    }
    assert Run(env, lines, responses).Raised? <==>
      exists i | 0 <= i < |fetched| :: HasBody(fetched[i]) && HandleFetched(env, fetched[i]).Err?;
  }

  /** When every valid url is served, the run exports exactly one record per
      valid url, in input order, each naming its url. */
  lemma RunAllServed(env: Env, lines: seq<string>, responses: seq<Response>)
    requires |responses| == |ValidateUrls(env.isUrl, lines)|
    requires forall i | 0 <= i < |responses| :: Served(responses[i])
    ensures Run(env, lines, responses).Exported? ==>
      |Run(env, lines, responses).records| == |ValidateUrls(env.isUrl, lines)|
    ensures Run(env, lines, responses).Exported? ==>
      forall k | 0 <= k < |ValidateUrls(env.isUrl, lines)| ::
        Run(env, lines, responses).records[k].website == ValidateUrls(env.isUrl, lines)[k]
  {
    if !Run(env, lines, responses).Exported? {
      return;
    }
    var urls := ValidateUrls(env.isUrl, lines);
    var fetched := FetchAll(urls, responses);
    assert Run(env, lines, responses).records == CollectRecords(env, fetched).value;
    RecordsWhenAllHaveBodies(env, fetched);
  }

  /** When every page has a body, phase 2 builds one record per page, in
      order, each naming its page's url. */
  lemma RecordsWhenAllHaveBodies(env: Env, fetched: seq<Fetched>)
    requires forall i | 0 <= i < |fetched| :: HasBody(fetched[i])
    requires CollectRecords(env, fetched).Ok?
    ensures |CollectRecords(env, fetched).value| == |fetched|
    ensures forall k | 0 <= k < |fetched| ::
      CollectRecords(env, fetched).value[k].website == fetched[k].url
  {
    FilterKeepsAll(HasBody, fetched);
    CollectRecordsSpec(env, fetched);
  }

  /** Of the responses 200, 404, 200, two are served. */
  lemma OneFailureServedCount(a: string, b: string)
    requires a != "" && b != ""
    ensures |Filter(Served, [Response(200, a), Response(404, ""), Response(200, b)])| == 2
  {
    var responses := [Response(200, a), Response(404, ""), Response(200, b)];
    assert responses[1..] == [Response(404, ""), Response(200, b)];
    assert responses[1..][1..] == [Response(200, b)];
    assert Filter(Served, [Response(200, b)]) == [Response(200, b)];
  }

  /** Three valid urls, the second answered with 404: two records. */
  lemma RunWithOneFailure(env: Env, lines: seq<string>, a: string, b: string)
    requires |ValidateUrls(env.isUrl, lines)| == 3
    requires a != "" && b != ""
    ensures Run(env, lines, [Response(200, a), Response(404, ""), Response(200, b)]).Exported? ==>
      |Run(env, lines, [Response(200, a), Response(404, ""), Response(200, b)]).records| == 2
  {
    RunRecordCount(env, lines, [Response(200, a), Response(404, ""), Response(200, b)]);
    OneFailureServedCount(a, b);
  }
}
