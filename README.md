# scrappy: CentOS security advisories to YAML, modelled in Dafny

`scrap.py` collects CentOS security advisories (CESAs) and turns each one
into a YAML file for a template.

- **Links.** The links come from one of two places:
  - the LWN.net alert listing, through `get_cesa_links`: a dict keyed by the third `/`-segment of each href;
  - the CentOS announce archive, through `get_cesa_links_official`: a list of URLs.
- **Pages.** `get_cesa_details` fetches every linked page. For each page, in order, it reads:
  - the advisory number `CESA-dddd:dddd`;
  - a package title;
  - the `CentOS 6` / `CentOS 7` mention that picks the output bucket;
  - the RPM file names.
- **Files.** It records the RPMs in a per-bucket dict keyed by `title#number`. It then writes `C6/<number>.yml` or `C7/<number>.yml` from `templates/template6.yml` or `templates/template7.yml`, with the RPM list sorted.
- **Main.** The `__main__` block runs the LWN path and reports an IndexError.

The model is pure where the source computes values and imperative where it
loops over and fills lists and dicts. It has nine modules:

- `Errors`: the exceptions the core raises (IndexError, AttributeError, NameError), and `Option`/`Result`.
- `Text`: `str.replace(c, '')`, `clean_word`, and `str.split("/")` with its inverse `"/".join`.
- `PyRepr`: Python's `repr` of a string and `str()` of a list of strings, with quote choice and the `\t`, `\xNN`, `\uNNNN` escapes. The routing test and the titles read these.
- `Order`: Python's string order and `sorted()` on a list of strings.
- `Patterns`: hand-written scanners for the four fixed patterns:
  - `.*CESA.*` and `CESA-*`, under `re.match`;
  - `CESA\-[0-9]{4}\:[0-9]{4}` and `CentOS\s[6-7]`, under `re.findall`.
- `Routing`: the choice of bucket, both as written and as intended.
- `Dicts`: an insertion-ordered Python dict with string keys.
- `Links`: both link collectors.
- `Details`: the per-page extraction, rendering, the loop of `get_cesa_details`, and the `__main__` block.

**What is an input.**
- HTTP fetching is a function parameter `fetch` from URL to `Page`.
- A `Page` holds `str(response)` and the match lists that the source computes from the parsed HTML.
- The listing response is an optional sequence of anchors, where `None` is a falsy response.
- Writing a file becomes a returned `Rendered` record: template path, file path, number, package name and sorted RPMs.

**Behaviour of the code that the model keeps:**
- The archive path (`official=True`) reads the RPMs from the `message-text adbayes-content` div; the LWN path (`official=False`) reads them from the first `<p>`.
- The RPM list is sorted, not de-duplicated (`sorted()` keeps duplicates).
- `re.match("CESA-*", text)` accepts every text that starts with `CESA`, because the hyphen is optional.
- The run routes pages as the code does, by `'6' in str(matches)` (`Routing.RouteAsWritten`), and the main block builds the links as the code does, so a falsy listing response raises NameError. The corrected rules (`Routing.Route`, `Links.CollectAggregatorLinks`) are modelled beside them; see "## Findings".

## Model

| member | source | states |
|---|---|---|
| Text.Delete | scrap.py:38 | `replace(c, '')` leaves no c and keeps every other character exactly as often as it occurs |
| Text.DeleteConcat | scrap.py:38 | deleting a character distributes over concatenation, so the survivors keep their order |
| Text.CleanWord | scrap.py:30-38 | `clean_word` leaves no `[`, `]` or `'` and keeps every other character as often as it occurs |
| Text.CleanWordIsFilter | scrap.py:30-38 | `clean_word` equals an independent one-pass, order-keeping filter of the unwanted characters |
| Text.CleanWordIdempotent | scrap.py:30-38 | applying `clean_word` twice equals applying it once |
| Text.CleanWordFixpoint | scrap.py:30-38 | `clean_word` leaves a word unchanged iff it has none of `[`, `]`, `'` |
| Text.CleanWordConcat | scrap.py:30-38 | `clean_word` distributes over concatenation |
| Text.SplitPieces | scrap.py:75 | `split("/")` gives one more piece than there are slashes, none of them holding a slash |
| Text.JoinSplit | scrap.py:75 | joining the pieces of `split("/")` with `/` gives the string back |
| Text.SplitJoin | scrap.py:75 | splitting `/`-joined slash-free pieces gives the pieces back |
| Text.SplitPrefix | scrap.py:75 | splitting `p + "/" + t` puts the slash-free p before the pieces of t |
| Patterns.MatchesAnyCesaSpec | scrap.py:44-49 | `re.match(".*CESA.*", t)` succeeds iff "CESA" occurs in t before the first newline |
| Patterns.MatchCesaDashes | scrap.py:64-69 | `re.match("CESA-*", t)` succeeds iff t starts with "CESA"; the match then runs over all following hyphens |
| Patterns.FirstNumberFrom | scrap.py:103-106 | the scan returns the leftmost position at or after `from` where an advisory number starts, or None when there is none |
| Patterns.CesaNumberSpec | scrap.py:103-106 | `findall(...)[0]` is missing iff no `CESA-dddd:dddd` occurs; otherwise it is the leftmost one |
| Patterns.OsMatchesFrom | scrap.py:102-109 | every `findall` result for `CentOS\s[6-7]` is a mention at some position of the page |
| Patterns.OsMatchesComplete | scrap.py:102-109 | `findall` misses no mention |
| Patterns.OsNoOverlap | scrap.py:102-109 | two mentions never overlap, so the non-overlapping `findall` scan loses none |
| PyRepr.ReprPlain | scrap.py:107-113 | `repr` of a string without escapes or `'` is the string between single quotes |
| PyRepr.ListStrHasDigit | scrap.py:109-111 | a digit occurs in `str(list)` iff it occurs in some element's `repr` |
| PyRepr.SpaceReprSix | scrap.py:109-111 | the `repr` escape of a whitespace character contains a 6 iff it is U+1680 or U+2006 |
| PyRepr.CleanListStr | scrap.py:107-121 | `clean_word(str(xs))` for plain strings without brackets is the elements joined by ", " |
| PyRepr.DeleteListStr | scrap.py:107-108 | removing `(` or `)` from `str(xs)` removes it from each element |
| Order.LeTotal | scrap.py:117 | Python's string order is total |
| Order.LeTrans | scrap.py:117 | Python's string order is transitive |
| Order.LeAntisym | scrap.py:117 | Python's string order is antisymmetric |
| Order.InsertSpec | scrap.py:117 | inserting into an ascending list keeps it ascending and adds exactly that element |
| Order.SortSpec | scrap.py:117 | `sorted(xs)` is ascending and a permutation of xs, duplicates kept |
| Order.SortedUnique | scrap.py:117 | two ascending permutations of one list are equal, so the model's sort agrees with Python's |
| Order.SortSorted | scrap.py:117 | sorting an ascending list changes nothing |
| Routing.RouteSpec | scrap.py:109-111 | the intended routing sends a page to bucket 6 iff it contains "CentOS", one whitespace character, "6" |
| Routing.OsReprSix | scrap.py:109-111 | the `repr` of a mention contains a 6 iff its digit is 6 or its whitespace is U+1680 or U+2006 |
| Routing.RouteAsWritten | scrap.py:109-111 | as written: a 6 anywhere in `str()` of the `CentOS\s[6-7]` matches picks bucket 6; its properties are `RouteAsWrittenSeesSix`, `RouteAsWrittenAgrees`, `RouteAsWrittenMisroutes` |
| Routing.RouteAsWrittenSeesSix | scrap.py:109-111 | as written, every page that names CentOS 6 goes to bucket 6, so the routing only errs towards bucket 6 |
| Routing.RouteAsWrittenAgrees | scrap.py:109-111 | `'6' in str(matches)` routes as intended on every page whose mentions avoid those two spaces |
| Routing.RouteAsWrittenMisroutes | scrap.py:109-111 | "CentOS", U+2006, "7" goes to bucket 6 as written and to bucket 7 as intended |
| Dicts.Empty | scrap.py:70 | `{}` has no keys |
| Dicts.PutSpec | scrap.py:75 | `d[k] = v` keeps keys distinct, maps k to v, changes no other key, keeps a present key's place and appends a new key |
| Dicts.ToMapKeys | scrap.py:75 | a key is in the dict iff it is in its key list |
| Dicts.Values | scrap.py:90 | `d.values()` lists the values in insertion order |
| Links.CollectArchiveLinks | scrap.py:47-52 | the loop returns, in anchor order, `host + href` for every anchor that the `.*CESA.*` filter keeps |
| Links.ArchiveLinksConcat | scrap.py:48-51 | the archive collector works anchor by anchor, keeping order and duplicates |
| Links.ArchiveLinksOne | scrap.py:48-51 | an anchor gives one link `host + href` iff "CESA" occurs before the first newline of its text |
| Links.AggregatorHrefsConcat | scrap.py:68-69 | the LWN filter works anchor by anchor, keeping order and duplicates |
| Links.AggregatorHrefsOne | scrap.py:68-69 | an anchor's href is kept iff its text starts with "CESA" |
| Links.AggregatorHrefsNone | scrap.py:68-69 | a listing with no anchor text starting with "CESA" yields no hrefs |
| Links.LinkKeyFails | scrap.py:75 | `href.split("/")[2]` raises IndexError iff the href has fewer than two slashes; a key holds no slash |
| Links.LinkKeyThird | scrap.py:75 | the key is the text between the second and third slash, or up to the end |
| Links.LinkMap | scrap.py:70-75 | a built link dict never holds a key twice |
| Links.LinkMapFails | scrap.py:74-75 | building the dict fails, with IndexError, iff some kept href has fewer than two slashes |
| Links.LinkMapFailsAt | scrap.py:74-75 | building fails, with IndexError, iff some kept href's key lookup fails |
| Links.LinkMapFailure | scrap.py:74-75 | a failed build names an href whose key lookup failed |
| Links.LinkMapFailsFrom | scrap.py:74-75 | one href without a key makes the whole build fail |
| Links.LinkMapFailurePersists | scrap.py:74-75 | once the loop has raised, later hrefs change nothing |
| Links.LinkMapStep | scrap.py:74-75 | the dict of all hrefs is the dict of all but the last, with the last assignment applied |
| Links.LinkMapKeySource | scrap.py:70-75 | every key comes from a kept href; its value is `"https://lwn.net" + href` for the last href with that key |
| Links.LinkMapKeyPresent | scrap.py:70-75 | every kept href's key is in the dict |
| Links.LinkMapHasKey | scrap.py:70-75 | a key is in the dict iff some kept href has it |
| Links.LinkMapLastWins | scrap.py:70-75 | the last href with a key decides its value, `"https://lwn.net" + href` |
| Links.LinkMapSize | scrap.py:70-75 | the dict has at most as many entries as there are kept hrefs |
| Links.LinkMapKeyOrder | scrap.py:70-90 | the dict's key order, which `values()` follows, is the order in which each key first appears |
| Links.AggregatorLinksAsWritten | scrap.py:65-76 | as written: `get_cesa_links` on a falsy response raises NameError, and otherwise builds the dict; its properties are `AggregatorLinksFix` and the `LinkMap` lemmas |
| Links.AggregatorLinksFix | scrap.py:66-76 | as written, a falsy response raises NameError; as intended, it gives an empty dict; otherwise the two agree |
| Links.CollectAggregatorLinks | scrap.py:65-76 | the loop of `get_cesa_links` returns the dict built href by href, or the IndexError of the first href without a key |
| Details.Flatten | scrap.py:89-92 | a dict input gives its values in insertion order; a list input gives its elements |
| Details.FetchAll | scrap.py:93-96 | one response per link, in link order |
| Details.PackageTitleJoin | scrap.py:107-108 | for package matches, the LWN title is the matches without parentheses, joined by ", " |
| Details.OfficialTitleOne | scrap.py:112-121 | for one title capture that `repr` shows verbatim (no `'`, no `\`, no escaped character, no bracket), the archive's package name is the capture; for no capture it is empty |
| Details.Extract | scrap.py:98-149 | as written (routing included): the per-page body up to rendering; its properties are `ExtractFails`, `ExtractNumber`, `ExtractBucket`, `ExtractFields` |
| Details.ExtractFails | scrap.py:105-149 | a page fails iff it has no advisory number (IndexError) or, on the LWN path, has no first paragraph (AttributeError); the number is checked first |
| Details.ExtractNumber | scrap.py:103-106 | an extracted advisory's number has the form `CESA-dddd:dddd` and is the leftmost in the page |
| Details.ExtractBucket | scrap.py:109-111 | the bucket is 6 iff a 6 occurs in `str()` of the page's `CentOS\s[6-7]` matches, and always 6 when the page names CentOS 6 |
| Details.ExtractBucketIntended | scrap.py:109-111 | on pages whose mentions avoid U+1680 and U+2006, the bucket is 6 iff the page contains "CentOS", one whitespace character, "6" |
| Details.ExtractFields | scrap.py:112-149 | subject is title + "#" + number, and each path's title, package name and RPM source |
| Details.Render | scrap.py:115-154 | one `template.stream(...).dump(...)` as a record; its properties are in `RenderSpec` |
| Details.RenderSpec | scrap.py:115-154 | bucket 6 writes `C6/<number>.yml` from template6 and bucket 7 writes `C7/<number>.yml` from template7; RPMs ascending, none lost or added |
| Details.Step | scrap.py:98-154 | one iteration of the page loop: a page that raised ends the run, a good page adds its file and its bucket's dict entry; its properties are `RunOutputs`, `RunTemplates`, `RunFailurePersists` |
| Details.Run | scrap.py:98-154 | the page loop as a fold of `Step`, in page order; its properties are `RunLength`, `RunOutputs`, `RunTemplates`, `RunTemplateKeys` |
| Details.ProcessPages | scrap.py:98-154 | the loop equals the page-by-page run, which stops at the first failing page |
| Details.RunFailurePersists | scrap.py:98-154 | once a page has raised, later pages change nothing |
| Details.RunLength | scrap.py:98-154 | with no failure, one file per page; with a failure, the page after the last file is the one that raised it |
| Details.RunOutputs | scrap.py:98-154 | the k-th file is the rendering of the k-th page, which succeeded |
| Details.RunTemplates | scrap.py:115-148 | each processed advisory's subject is a key of its bucket's dict, valued by the last such advisory's RPM matches |
| Details.RunTemplateKeys | scrap.py:115-148 | every key of a bucket's dict is the subject of a processed advisory of that bucket |
| Details.GetCesaDetails | scrap.py:87-154 | `get_cesa_details` flattens the links, fetches in order, and runs the as-written extraction loop over the pages |
| Details.Scrape | scrap.py:157-162 | the main block builds the links as written, runs the LWN path over them, and catches exactly IndexError |
| Details.ScrapeNoLinks | scrap.py:157-162 | a listing without advisory links writes nothing and raises nothing |
| Details.ScrapeNoListing | scrap.py:65-76 | a falsy listing response writes nothing and ends with the NameError, which the main block does not catch |

## Left out

- HTTP: `get_it` and `requests.get` are network I/O. Pages come from a `fetch` parameter, and the listings are inputs.
- `max_link` only changes the listing URL, so it is left out with HTTP.
- The thread pool (`ThreadPoolExecutor`) only adds concurrency. It is modelled as a sequential map that keeps order, which is what `executor.map` returns.
- BeautifulSoup is a foreign library. Anchors, `str(response)`, and the match lists taken from the title and the content region are inputs.
- The content region can be missing: `Page.rpmMatches` is None for a missing element.
- General regular expressions. The package, RPM and archive-title patterns have backtracking and odd classes, so their match lists are inputs. The four fixed patterns are modelled as scanners.
- Jinja2 and files: template loading, rendering and writing are a library plus file I/O. A `Rendered` record stands for one written file.
- A later file with the same number overwrites an earlier one on disk, but both stay in the output list.
- The `print` messages in `get_cesa_links` and in the main block are output only.
- The `cesas is None` test in `get_cesa_links` can never be true, so the model has no branch for it.
- PyRepr.Repr: treats every character above U+00FF that is not whitespace as printable. Python also escapes format, private-use and unassigned code points, such as U+200B ZERO WIDTH SPACE. This changes the archive path's subject and package name (both built from `str()` of the title captures) for titles holding such characters; mentions of `CentOS\s[6-7]` are modelled exactly.
- Details.ProcessPages: takes the per-page extraction as a parameter. `GetCesaDetails` and `Scrape` pass `Extract` for their path.
- Dicts.Dict: a dict is a sequence of entries, so the model does not capture update in place or aliasing.
- Details.Batch: the two per-bucket dicts are Dafny maps, because only their contents are ever read (not their order).

## Findings

| source | as written | input that shows it | evidently intended | confidence | as-written member | corrected member |
|---|---|---|---|---|---|---|
| scrap.py:109-111 | the bucket is chosen by `'6' in str(findall(r"(CentOS\s[6-7])", page))`, a search in the repr of the whole match list | page text "CentOS", U+2006 SIX-PER-EM SPACE, "7": the repr shows the space as the escape `\u2006`, so the page goes to bucket 6 (U+1680 behaves the same) | bucket 6 iff some mention's version digit is 6 | not executed | Routing.RouteAsWrittenMisroutes | Routing.RouteSpec |
| scrap.py:66-76 | `cesas` is assigned only when the response is truthy, and is read unconditionally after | a listing request answered with an error status (a falsy `Response`): reading `cesas` raises NameError | no links, which the `None` test and its message aim at | not executed | Links.AggregatorLinksFix | Links.CollectAggregatorLinks |
