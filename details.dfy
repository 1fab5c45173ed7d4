/** `get_cesa_details` and the `__main__` block of scrap.py: fetch every
    advisory page, extract its number, title, OS bucket and RPM list, and
    render one YAML file per page, in order, until a page fails. HTTP and HTML
    parsing are outside the model: `fetch` gives, for a URL, the page text and
    the `re.findall` results that the source computes from the parsed tree. */
module Details {
  import opened Errors
  import opened Text
  import opened PyRepr
  import opened Order
  import opened Patterns
  import opened Routing
  import opened Dicts
  import opened Links

  /** One fetched advisory page, as far as the extraction looks at it. */
  datatype Page = Page(
    text: string,                    // str(response)
    packageMatches: seq<string>,     // findall(package_pattern, str(soup.title))
    titleMatches: seq<string>,       // findall(r"CentOS\s[0-9]\s(.*)\sSecurity", str(soup.title))
    rpmMatches: Option<seq<string>>  // findall(prm_pattern, <region>); None when the region element is missing
  )

  /** The argument of `get_cesa_details`: the aggregator's dict or the archive's list. */
  datatype LinkSource = FromDict(links: Dict<string>) | FromList(urls: seq<string>)

  /** What one page contributes before rendering. */
  datatype Advisory = Advisory(
    subject: string,       // cesa_subject, the key of the per-bucket dict
    number: string,        // cesa_number
    packageName: string,   // the template's package_name
    bucket: Bucket,
    rpmMatches: seq<string>
  )

  /** One rendered file: the template used, the path written, and the three
      values handed to the template. */
  datatype Rendered = Rendered(template: string, file: string, number: string, packageName: string, rpms: seq<string>)

  /** The state of one run: the files written so far, the two per-bucket
      dicts `cesa_to_6_template` and `cesa_to_7_template`, and the exception
      that ended the run, if any. */
  datatype Batch = Batch(outputs: seq<Rendered>, to6: map<string, seq<string>>, to7: map<string, seq<string>>, failure: Option<PyError>)

  // ----- the list of links -----

  /** `list(cesa_found.values())` for a dict, `list(cesa_found)` otherwise. */
  function Flatten(src: LinkSource): (urls: seq<string>)
    ensures src.FromDict? ==> |urls| == |src.links.entries|
    ensures src.FromDict? ==> forall i :: 0 <= i < |urls| ==> urls[i] == src.links.entries[i].1
    ensures src.FromList? ==> urls == src.urls
  {
    match src
    case FromDict(d) => Values(d)
    case FromList(us) => us
  }

  /** The pages of the links, one per link, in link order. */
  function Fetched(urls: seq<string>, fetch: string -> Page): seq<Page> {
    seq(|urls|, i requires 0 <= i < |urls| => fetch(urls[i]))
  }

  /** The thread pool's `executor.map(get_it, links)`, read in order into
      `responses`: one response per link, in link order. */
  method FetchAll(urls: seq<string>, fetch: string -> Page) returns (responses: seq<Page>)
    ensures |responses| == |urls|
    ensures forall i :: 0 <= i < |urls| ==> responses[i] == fetch(urls[i])
  {
    responses := [];
    for i := 0 to |urls|
      invariant |responses| == i
      invariant forall j :: 0 <= j < i ==> responses[j] == fetch(urls[j])
    {
      responses := responses + [fetch(urls[i])];
    }
  }

  // ----- titles -----

  /** The aggregator path's title:
      `clean_word(str(findall(...)).replace('(', '').replace(')', ''))`. */
  function PackageTitle(ms: seq<string>): string {
    CleanWord(Delete(Delete(ListStr(ms), '('), ')'))
  }

  /** A character of the package pattern's class `[a-zA-Z0-9-.^\(^\)]`. */
  predicate PackageChar(c: char) {
    ('a' <= c <= 'z') || ('A' <= c <= 'Z') || ('0' <= c <= '9')
    || c == '-' || c == '.' || c == '^' || c == '(' || c == ')'
  }

  /** For matches of the package pattern, the title is the matches without
      their parentheses, joined by ", ": a single match `(name)` gives `name`. */
  lemma PackageTitleJoin(ms: seq<string>)
    requires forall k, i :: 0 <= k < |ms| && 0 <= i < |ms[k]| ==> PackageChar(ms[k][i])
    ensures PackageTitle(ms) == CommaJoin(DeleteEach(DeleteEach(ms, '('), ')'))
  {
    forall k | 0 <= k < |ms| ensures Plain(ms[k]) && '[' !in ms[k] && ']' !in ms[k] {
      PackageWord(ms[k]);
    }
    DeleteListStr(ms, '(');
    var ms1 := DeleteEach(ms, '(');
    DeleteListStr(ms1, ')');
    var ms2 := DeleteEach(ms1, ')');
    forall k | 0 <= k < |ms2| ensures Plain(ms2[k]) && '[' !in ms2[k] && ']' !in ms2[k] {
      DeleteEachAt(ms, '(', k);
      DeleteEachAt(ms1, ')', k);
      DeleteNoBrackets(ms[k], '(');
      DeleteNoBrackets(ms1[k], ')');
    }
    CleanListStr(ms2);
  }

  lemma PackageWord(w: string)
    requires forall i :: 0 <= i < |w| ==> PackageChar(w[i])
    ensures Plain(w) && '[' !in w && ']' !in w
  {
    forall i | 0 <= i < |w| ensures !NonPrintable(w[i]) && w[i] != '\\' && w[i] != '\'' {
      assert PackageChar(w[i]);
    }
  }

  lemma DeleteNoBrackets(s: string, c: char)
    requires '[' !in s && ']' !in s
    ensures '[' !in Delete(s, c) && ']' !in Delete(s, c)
  {
    assert multiset(s)['['] == 0 && multiset(s)[']'] == 0;
  }

  /** The archive path's package name is `clean_word(str(findall(...)))`: one
      plain captured title gives itself, no capture gives the empty name. */
  lemma OfficialTitleOne(x: string)
    requires Plain(x) && '[' !in x && ']' !in x
    ensures CleanWord(ListStr([x])) == x
    ensures CleanWord(ListStr([])) == ""
  {
    CleanListStr([x]);
    CleanListStr([]);
  }

  // ----- one page -----

  /** The per-page body of the loop in `get_cesa_details`, up to rendering.
      The advisory number comes first; the aggregator path (official false)
      then needs the first paragraph; the archive path reads a div, and
      `str(None)` holds no RPM name, so a missing div gives none. */
  function Extract(official: bool, page: Page): Result<Advisory> {
    match CesaNumber(page.text)
    case None => Err(IndexError)
    case Some(number) =>
      var bucket := RouteAsWritten(page.text);
      if official then
        var title := ListStr(page.titleMatches);
        var rpms := match page.rpmMatches case Some(ms) => ms case None => [];
        Ok(Advisory(title + "#" + number, number, CleanWord(title), bucket, rpms))
      else
        var title := PackageTitle(page.packageMatches);
        match page.rpmMatches
        case None => Err(AttributeError)
        case Some(ms) => Ok(Advisory(title + "#" + number, number, title, bucket, ms))
  }

  /** A page fails exactly when it holds no advisory number (IndexError), or,
      on the aggregator path, when it lacks the first paragraph
      (AttributeError); the number is checked first. */
  lemma ExtractFails(official: bool, page: Page)
    ensures Extract(official, page).Err? <==>
              (forall i :: !NumberAt(page.text, i)) || (!official && page.rpmMatches.None?)
    ensures (forall i :: !NumberAt(page.text, i)) ==> Extract(official, page) == Err(IndexError)
    ensures (exists i :: NumberAt(page.text, i)) && !official && page.rpmMatches.None? ==>
              Extract(official, page) == Err(AttributeError)
  {
    var _ := CesaNumberSpec(page.text);
  }

  /** The number of an extracted advisory is the leftmost `CESA-dddd:dddd`
      in the page. */
  lemma ExtractNumber(official: bool, page: Page) returns (i: nat)
    requires Extract(official, page).Ok?
    ensures IsCesaNumber(Extract(official, page).value.number)
    ensures NumberAt(page.text, i) && page.text[i..i + 14] == Extract(official, page).value.number
    ensures forall j :: 0 <= j < i ==> !NumberAt(page.text, j)
  {
    i := CesaNumberSpec(page.text);
    assert Extract(official, page).value.number == CesaNumber(page.text).value;
  }

  /** An advisory goes to the CentOS 6 bucket exactly when a 6 appears in
      `str()` of the page's `CentOS\s[6-7]` matches; in particular every page
      that names "CentOS 6" (any single whitespace between the words) does. */
  lemma ExtractBucket(official: bool, page: Page)
    requires Extract(official, page).Ok?
    ensures Extract(official, page).value.bucket == C6 <==> '6' in ListStr(OsMatches(page.text))
    ensures (exists i :: OsAt(page.text, i) && page.text[i + 7] == '6') ==> Extract(official, page).value.bucket == C6
  {
    RouteAsWrittenSeesSix(page.text);
  }

  /** On a page whose OS mentions avoid U+1680 and U+2006, the bucket is 6
      exactly when the page names "CentOS 6". */
  lemma ExtractBucketIntended(official: bool, page: Page)
    requires Extract(official, page).Ok?
    requires forall i :: OsAt(page.text, i) ==> page.text[i + 6] != '\U{1680}' && page.text[i + 6] != '\U{2006}'
    ensures Extract(official, page).value.bucket == C6 <==> exists i :: OsAt(page.text, i) && page.text[i + 7] == '6'
  {
    RouteAsWrittenAgrees(page.text);
    RouteSpec(page.text);
  }


  /** The subject is the title, "#", and the number; on the archive path the
      title is the uncleaned list text and a missing div gives no RPMs; on the
      aggregator path the title is the cleaned package list and the RPMs are
      those of the first paragraph. */
  lemma ExtractFields(official: bool, page: Page)
    requires Extract(official, page).Ok?
    ensures var a := Extract(official, page).value;
            official ==>
              a.subject == ListStr(page.titleMatches) + "#" + a.number
              && a.packageName == CleanWord(ListStr(page.titleMatches))
              && a.rpmMatches == (if page.rpmMatches.Some? then page.rpmMatches.value else [])
    ensures var a := Extract(official, page).value;
            !official ==>
              a.subject == PackageTitle(page.packageMatches) + "#" + a.number
              && a.packageName == PackageTitle(page.packageMatches)
              && page.rpmMatches == Some(a.rpmMatches)
  {
  }

  /** `template.stream(...).dump(...)`: the bucket's template, the file
      `<bucket dir><number>.yml`, and the sorted RPM list. */
  function Render(a: Advisory): Rendered {
    Rendered(TemplatePath(a.bucket), Dir(a.bucket) + a.number + ".yml", a.number, a.packageName, Sort(a.rpmMatches))
  }

  /** A CentOS 6 advisory is written under C6/ from template6, a CentOS 7
      one under C7/ from template7, with the RPM list ascending and no name
      lost or added. */
  lemma RenderSpec(a: Advisory)
    ensures var r := Render(a);
            (a.bucket == C6 ==> r.template == "templates/template6.yml" && r.file == "C6/" + a.number + ".yml")
            && (a.bucket == C7 ==> r.template == "templates/template7.yml" && r.file == "C7/" + a.number + ".yml")
    ensures Sorted(Render(a).rpms) && multiset(Render(a).rpms) == multiset(a.rpmMatches)
  {
    SortSpec(a.rpmMatches);
  }

  // ----- the whole run -----

  function Start(): Batch {
    Batch([], map[], map[], None)
  }

  /** One iteration of the loop over the responses, given what the page
      yielded; a failed run stays failed. */
  function Step(b: Batch, r: Result<Advisory>): Batch {
    if b.failure.Some? then b
    else
      match r
      case Err(e) => b.(failure := Some(e))
      case Ok(a) =>
        if a.bucket == C6 then
          Batch(b.outputs + [Render(a)], b.to6[a.subject := a.rpmMatches], b.to7, None)
        else
          Batch(b.outputs + [Render(a)], b.to6, b.to7[a.subject := a.rpmMatches], None)
  }

  /** The loop over the responses, in order, given what each page yields. */
  function Run(rs: seq<Result<Advisory>>): Batch {
    if rs == [] then Start()
    else Step(Run(rs[..|rs| - 1]), rs[|rs| - 1])
  }

  /** The per-page work of the second loop, for one kind of advisory. */
  function Extractor(official: bool): Page -> Result<Advisory> {
    page => Extract(official, page)
  }

  /** What each page yields. */
  function Outcomes(extract: Page -> Result<Advisory>, pages: seq<Page>): seq<Result<Advisory>> {
    seq(|pages|, i requires 0 <= i < |pages| => extract(pages[i]))
  }

  /** The second loop of `get_cesa_details`; an exception ends it. */
  method ProcessPages(extract: Page -> Result<Advisory>, pages: seq<Page>) returns (b: Batch)
    ensures b == Run(Outcomes(extract, pages))
  {
    ghost var rs := Outcomes(extract, pages);
    var outputs: seq<Rendered> := [];
    var to6: map<string, seq<string>> := map[];
    var to7: map<string, seq<string>> := map[];
    var i := 0;
    while i < |pages|
      invariant 0 <= i <= |pages|
      invariant Batch(outputs, to6, to7, None) == Run(rs[..i])
    {
      var r := extract(pages[i]);
      RunSnoc(rs, i);
      if r.Err? {
        RunFailurePersists(rs, i + 1);
        return Batch(outputs, to6, to7, Some(r.error));
      }
      var a := r.value;
      if a.bucket == C6 {
        to6 := to6[a.subject := a.rpmMatches];
      } else {
        to7 := to7[a.subject := a.rpmMatches];
      }
      outputs := outputs + [Render(a)];
      i := i + 1;
    }
    assert rs[..i] == rs;
    b := Batch(outputs, to6, to7, None);
  }

  lemma RunSnoc(rs: seq<Result<Advisory>>, i: nat)
    requires i < |rs|
    ensures Run(rs[..i + 1]) == Step(Run(rs[..i]), rs[i])
  {
    assert rs[..i + 1][..i] == rs[..i];
  }

  /** Once a page has failed, later pages change nothing. */
  lemma {:induction false} RunFailurePersists(rs: seq<Result<Advisory>>, n: nat)
    requires n <= |rs| && Run(rs[..n]).failure.Some?
    ensures Run(rs) == Run(rs[..n])
    decreases |rs| - n
  {
    if n < |rs| {
      assert rs[..n + 1][..n] == rs[..n];
      RunFailurePersists(rs, n + 1);
    } else {
      assert rs[..n] == rs;
    }
  }

  /** `get_cesa_details(cesa_found, official)`. */
  method GetCesaDetails(src: LinkSource, official: bool, fetch: string -> Page) returns (b: Batch)
    ensures b == Run(Outcomes(Extractor(official), Fetched(Flatten(src), fetch)))
  {
    var urls := Flatten(src);
    var responses := FetchAll(urls, fetch);
    assert responses == Fetched(urls, fetch);
    b := ProcessPages(Extractor(official), responses);
  }

  /** How far a run gets: with no failure, one file per page; with a
      failure, the page after the last file is the one that raised it. */
  lemma {:induction false} RunLength(rs: seq<Result<Advisory>>)
    ensures |Run(rs).outputs| <= |rs|
    ensures Run(rs).failure.None? ==> |Run(rs).outputs| == |rs|
    ensures Run(rs).failure.Some? ==> |Run(rs).outputs| < |rs| && rs[|Run(rs).outputs|] == Err(Run(rs).failure.value)
  {
    if rs != [] {
      var n := |rs| - 1;
      var init := rs[..n];
      RunLength(init);
      assert Run(rs) == Step(Run(init), rs[n]);
      if Run(init).failure.Some? {
        assert rs[|Run(init).outputs|] == init[|Run(init).outputs|];
      }
    }
  }

  /** What a run writes: the rendered pages, in page order, each from a page
      that succeeded. */
  lemma {:induction false} RunOutputs(rs: seq<Result<Advisory>>)
    ensures |Run(rs).outputs| <= |rs|
    ensures forall k :: 0 <= k < |Run(rs).outputs| ==> rs[k].Ok? && Run(rs).outputs[k] == Render(rs[k].value)
  {
    if rs != [] {
      var n := |rs| - 1;
      var init := rs[..n];
      RunOutputs(init);
      RunLength(init);
      var b0 := Run(init);
      assert Run(rs) == Step(b0, rs[n]);
      StepOutputs(b0, rs[n]);
      forall k | 0 <= k < |b0.outputs| ensures rs[k] == init[k] {
      }
    }
  }

  /** One step adds at most the rendering of a successful page. */
  lemma StepOutputs(b: Batch, r: Result<Advisory>)
    ensures Step(b, r).outputs == b.outputs
      || (b.failure.None? && r.Ok? && Step(b, r).outputs == b.outputs + [Render(r.value)])
  {
  }

  /** The dict of one bucket. */
  function Table(b: Batch, c: Bucket): map<string, seq<string>> {
    if c == C6 then b.to6 else b.to7
  }

  /** The per-bucket dicts: each processed advisory's subject is a key of its
      bucket's dict, and its value is the RPM matches of the last processed
      advisory with that subject and bucket. */
  lemma {:induction false} RunTemplates(rs: seq<Result<Advisory>>, k: nat)
    requires k < |Run(rs).outputs| && k < |rs| && rs[k].Ok?
    requires forall j :: k < j < |Run(rs).outputs| && j < |rs| && rs[j].Ok? ==>
               rs[j].value.subject != rs[k].value.subject || rs[j].value.bucket != rs[k].value.bucket
    ensures rs[k].value.subject in Table(Run(rs), rs[k].value.bucket)
    ensures Table(Run(rs), rs[k].value.bucket)[rs[k].value.subject] == rs[k].value.rpmMatches
  {
    var n := |rs| - 1;
    var init := rs[..n];
    var b0 := Run(init);
    assert Run(rs) == Step(b0, rs[n]);
    RunLength(init);
    if k < |b0.outputs| {
      assert init[k] == rs[k];
      forall j | k < j < |b0.outputs| && j < |init| && init[j].Ok?
        ensures init[j].value.subject != init[k].value.subject || init[j].value.bucket != init[k].value.bucket
      {
        assert init[j] == rs[j];
      }
      RunTemplates(init, k);
      StepTable(b0, rs[n], rs[k].value.bucket, rs[k].value.subject);
    } else {
      assert k == n;
      StepTable(b0, rs[n], rs[k].value.bucket, rs[k].value.subject);
    }
  }

  /** How one step changes the dict of a bucket at one key. */
  lemma StepTable(b: Batch, r: Result<Advisory>, c: Bucket, s: string)
    ensures var b' := Step(b, r);
            if b.failure.None? && r.Ok? && r.value.bucket == c && r.value.subject == s
            then s in Table(b', c) && Table(b', c)[s] == r.value.rpmMatches
            else (s in Table(b', c) <==> s in Table(b, c)) && (s in Table(b, c) ==> Table(b', c)[s] == Table(b, c)[s])
  {
  }

  /** The per-bucket dicts hold no other keys: every key is the subject of a
      processed advisory of that bucket. */
  lemma {:induction false} RunTemplateKeys(rs: seq<Result<Advisory>>, s: string, c: Bucket) returns (k: nat)
    requires s in Table(Run(rs), c)
    ensures k < |Run(rs).outputs| && k < |rs| && rs[k].Ok?
    ensures rs[k].value.subject == s && rs[k].value.bucket == c
  {
    var n := |rs| - 1;
    var init := rs[..n];
    var b0 := Run(init);
    RunLength(init);
    assert Run(rs) == Step(b0, rs[n]);
    if b0.failure.None? && rs[n].Ok? && rs[n].value.subject == s && rs[n].value.bucket == c {
      k := n;
    } else {
      k := RunTemplateKeys(init, s, c);
      assert init[k] == rs[k];
    }
  }

  // ----- the `__main__` block -----

  /** `get_cesa_details(get_cesa_links(100))`: the aggregator's links, then
      the aggregator path over their pages; an exception from collecting the
      links ends the run before any page is fetched. */
  function ScrapeResult(response: Option<seq<Anchor>>, fetch: string -> Page): Batch {
    match AggregatorLinksAsWritten(response)
    case Err(e) => Start().(failure := Some(e))
    case Ok(d) => Run(Outcomes(Extractor(false), Fetched(Values(d), fetch)))
  }

  /** The `__main__` block. Only IndexError is caught (and reported); any
      other exception escapes. Either way nothing runs after it. */
  method Scrape(response: Option<seq<Anchor>>, fetch: string -> Page) returns (b: Batch, caught: bool)
    ensures b == ScrapeResult(response, fetch)
    ensures caught <==> b.failure == Some(IndexError)
  {
    if response.None? {
      // `get_cesa_links` reads `cesas`, never assigned for a falsy response
      b := Start().(failure := Some(NameError));
      caught := false;
      return;
    }
    var links := CollectAggregatorLinks(response);
    AggregatorLinksFix(response);
    if links.Err? {
      b := Start().(failure := Some(links.error));
    } else {
      b := GetCesaDetails(FromDict(links.value), false, fetch);
    }
    caught := b.failure == Some(IndexError);
  }


  /** A listing with no advisory link writes no file and raises nothing. */
  lemma ScrapeNoLinks(anchors: seq<Anchor>, fetch: string -> Page)
    requires forall i :: 0 <= i < |anchors| ==> MatchCesaDashes(anchors[i].text).None?
    ensures ScrapeResult(Some(anchors), fetch) == Start()
  {
    AggregatorHrefsNone(anchors);
    assert Outcomes(Extractor(false), Fetched([], fetch)) == [];
  }

  /** A falsy listing response ends the run with the NameError of the unbound
      `cesas`, which the `__main__` block does not catch; nothing is written. */
  lemma ScrapeNoListing(fetch: string -> Page)
    ensures ScrapeResult(None, fetch).failure == Some(NameError)
    ensures ScrapeResult(None, fetch).outputs == []
  {
  }
}
