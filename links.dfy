/** The two link collectors of scrap.py. The archive collector keeps the
    anchors whose text contains "CESA" on its first line and returns a list of
    absolute URLs; the aggregator collector keeps the anchors whose text starts
    with "CESA" and returns a dict from the third `/`-piece of the href to the
    absolute URL. Fetching and HTML parsing are outside the model: a listing
    page is given as its anchors, in document order. */
module Links {
  import opened Errors
  import opened Text
  import opened Patterns
  import opened Dicts

  /** An `<a href=...>` element: its visible text and its href. */
  datatype Anchor = Anchor(text: string, href: string)

  const ArchiveHost: string := "http://centos-announce.2309468.n4.nabble.com"
  const LwnHost: string := "https://lwn.net"

  // ----- get_cesa_links_official -----

  /** The archive collector's result: for each anchor in order whose text
      matches `.*CESA.*`, the host followed by its href. */
  function ArchiveLinks(anchors: seq<Anchor>): seq<string> {
    if anchors == [] then []
    else
      var last := anchors[|anchors| - 1];
      ArchiveLinks(anchors[..|anchors| - 1])
      + (if MatchesAnyCesa(last.text) then [ArchiveHost + last.href] else [])
  }

  /** The loop of `get_cesa_links_official`, appending one URL per kept anchor. */
  method CollectArchiveLinks(anchors: seq<Anchor>) returns (links: seq<string>)
    ensures links == ArchiveLinks(anchors)
  {
    links := [];
    for i := 0 to |anchors|
      invariant links == ArchiveLinks(anchors[..i])
    {
      assert anchors[..i + 1][..i] == anchors[..i];
      if MatchesAnyCesa(anchors[i].text) {
        links := links + [ArchiveHost + anchors[i].href];
      }
    }
    assert anchors[..|anchors|] == anchors;
  }

  /** The collector works anchor by anchor: the links of a concatenation are
      the links of each part, in order, duplicates kept. */
  lemma {:induction false} ArchiveLinksConcat(a: seq<Anchor>, b: seq<Anchor>)
    ensures ArchiveLinks(a + b) == ArchiveLinks(a) + ArchiveLinks(b)
    decreases |b|
  {
    if b == [] {
      assert a + b == a;
    } else {
      var n := |b| - 1;
      assert (a + b)[..|a + b| - 1] == a + b[..n];
      ArchiveLinksConcat(a, b[..n]);
    }
  }

  /** One anchor gives one link exactly when its first line contains "CESA". */
  lemma ArchiveLinksOne(x: Anchor)
    ensures ArchiveLinks([x]) == if MatchesAnyCesa(x.text) then [ArchiveHost + x.href] else []
    ensures MatchesAnyCesa(x.text) <==> exists i :: At(x.text, i, "CESA") && '\n' !in x.text[..i]
  {
    assert [x][..0] == [];
    MatchesAnyCesaSpec(x.text);
  }

  // ----- get_cesa_links: the filter -----

  /** `[link['href'] for link in anchors if re.match("CESA-*", link.text)]`. */
  function AggregatorHrefs(anchors: seq<Anchor>): seq<string> {
    if anchors == [] then []
    else
      var last := anchors[|anchors| - 1];
      AggregatorHrefs(anchors[..|anchors| - 1])
      + (if MatchCesaDashes(last.text).Some? then [last.href] else [])
  }

  /** The filter works anchor by anchor, keeping order and duplicates. */
  lemma {:induction false} AggregatorHrefsConcat(a: seq<Anchor>, b: seq<Anchor>)
    ensures AggregatorHrefs(a + b) == AggregatorHrefs(a) + AggregatorHrefs(b)
    decreases |b|
  {
    if b == [] {
      assert a + b == a;
    } else {
      var n := |b| - 1;
      assert (a + b)[..|a + b| - 1] == a + b[..n];
      AggregatorHrefsConcat(a, b[..n]);
    }
  }

  /** One anchor is kept exactly when its text starts with "CESA": the
      hyphens of `CESA-*` are optional. */
  lemma AggregatorHrefsOne(x: Anchor)
    ensures AggregatorHrefs([x]) == if |x.text| >= 4 && x.text[..4] == "CESA" then [x.href] else []
  {
    assert [x][..0] == [];
  }

  // ----- get_cesa_links: the dict -----

  /** A listing with no anchor text starting with "CESA" keeps no href. */
  lemma {:induction false} AggregatorHrefsNone(anchors: seq<Anchor>)
    requires forall i :: 0 <= i < |anchors| ==> MatchCesaDashes(anchors[i].text).None?
    ensures AggregatorHrefs(anchors) == []
  {
    if anchors != [] {
      AggregatorHrefsNone(anchors[..|anchors| - 1]);
    }
  }

  /** `href.split("/")[2]`, or the IndexError it raises. */
  function LinkKey(href: string): Result<string> {
    var parts := Split(href);
    if |parts| > 2 then Ok(parts[2]) else Err(IndexError)
  }

  /** The key lookup fails, with IndexError, exactly on hrefs with fewer than
      two slashes; a key holds no slash. */
  lemma LinkKeyFails(href: string)
    ensures LinkKey(href).Err? <==> multiset(href)['/'] < 2
    ensures LinkKey(href).Err? ==> LinkKey(href).error == IndexError
    ensures LinkKey(href).Ok? ==> '/' !in LinkKey(href).value
  {
    SplitPieces(href);
  }

  /** The key is the piece between the second and the third slash (or the end). */
  lemma LinkKeyThird(p: string, q: string, key: string, tail: string)
    requires '/' !in p && '/' !in q && '/' !in key
    requires tail == [] || tail[0] == '/'
    ensures LinkKey(p + "/" + q + "/" + key + tail) == Ok(key)
  {
    var u := key + tail;
    var v := q + "/" + u;
    assert p + "/" + q + "/" + key + tail == p + "/" + v;
    SplitPrefix(p, v);
    SplitPrefix(q, u);
    var rest := Split(u);
    if tail == [] {
      assert u == key;
      SplitSlashFree(key);
    } else {
      assert u == key + "/" + tail[1..];
      SplitPrefix(key, tail[1..]);
    }
    assert rest[0] == key;
    assert Split(p + "/" + v) == [p] + ([q] + rest);
  }

  /** The dict `get_cesa_links` builds from the kept hrefs, one assignment
      `cesa_links[key] = "https://lwn.net" + href` per href in order, or the
      IndexError of the first href without two slashes. */
  function LinkMap(hrefs: seq<string>): (r: Result<Dict<string>>)
    ensures r.Ok? ==> Valid(r.value)
  {
    if hrefs == [] then Ok(Empty())
    else
      var last := hrefs[|hrefs| - 1];
      match LinkMap(hrefs[..|hrefs| - 1])
      case Err(e) => Err(e)
      case Ok(d) =>
        match LinkKey(last)
        case Err(e) => Err(e)
        case Ok(k) =>
          PutSpec(d, k, LwnHost + last);
          Ok(Put(d, k, LwnHost + last))
  }

  /** Building fails, with IndexError, exactly when some href has fewer than
      two slashes. */
  lemma {:induction false} LinkMapFails(hrefs: seq<string>)
    ensures LinkMap(hrefs).Err? <==> exists i :: 0 <= i < |hrefs| && multiset(hrefs[i])['/'] < 2
    ensures LinkMap(hrefs).Err? ==> LinkMap(hrefs).error == IndexError
  {
    LinkMapFailsAt(hrefs);
    forall i | 0 <= i < |hrefs| ensures LinkKey(hrefs[i]).Err? <==> multiset(hrefs[i])['/'] < 2 {
      LinkKeyFails(hrefs[i]);
    }
  }

  lemma LinkMapFailsAt(hrefs: seq<string>)
    ensures LinkMap(hrefs).Err? <==> exists i :: 0 <= i < |hrefs| && LinkKey(hrefs[i]).Err?
    ensures LinkMap(hrefs).Err? ==> LinkMap(hrefs).error == IndexError
  {
    if LinkMap(hrefs).Err? {
      var i := LinkMapFailure(hrefs);
    }
    if exists i :: 0 <= i < |hrefs| && LinkKey(hrefs[i]).Err? {
      var i :| 0 <= i < |hrefs| && LinkKey(hrefs[i]).Err?;
      LinkMapFailsFrom(hrefs, i);
    }
  }

  /** A failed build names an href whose key lookup failed. */
  lemma {:induction false} LinkMapFailure(hrefs: seq<string>) returns (i: int)
    requires LinkMap(hrefs).Err?
    ensures 0 <= i < |hrefs| && LinkKey(hrefs[i]).Err?
    ensures LinkMap(hrefs).error == IndexError
  {
    var n := |hrefs| - 1;
    var init := hrefs[..n];
    if LinkMap(init).Err? {
      i := LinkMapFailure(init);
      assert init[i] == hrefs[i];
    } else {
      i := n;
      LinkKeyFails(hrefs[n]);
    }
  }

  /** An href whose key lookup fails makes the whole build fail. */
  lemma {:induction false} LinkMapFailsFrom(hrefs: seq<string>, i: int)
    requires 0 <= i < |hrefs| && LinkKey(hrefs[i]).Err?
    ensures LinkMap(hrefs).Err?
  {
    var n := |hrefs| - 1;
    if i < n {
      assert hrefs[..n][i] == hrefs[i];
      LinkMapFailsFrom(hrefs[..n], i);
    } else {
      LinkMapLastFails(hrefs);
    }
  }

  lemma LinkMapLastFails(hrefs: seq<string>)
    requires hrefs != [] && LinkKey(hrefs[|hrefs| - 1]).Err?
    ensures LinkMap(hrefs).Err?
  {
  }

  /** Once building has failed on a prefix, it fails on the whole list with
      the same error. */
  lemma {:induction false} LinkMapFailurePersists(hrefs: seq<string>, n: nat)
    requires n <= |hrefs| && LinkMap(hrefs[..n]).Err?
    ensures LinkMap(hrefs) == LinkMap(hrefs[..n])
    decreases |hrefs| - n
  {
    if n < |hrefs| {
      assert hrefs[..n + 1][..n] == hrefs[..n];
      LinkMapFailurePersists(hrefs, n + 1);
    } else {
      assert hrefs[..n] == hrefs;
    }
  }

  /** One step of building: the dict of all hrefs is the dict of all but the
      last, with the last assignment applied. */
  lemma LinkMapStep(hrefs: seq<string>) returns (d: Dict<string>, key: string)
    requires hrefs != [] && LinkMap(hrefs).Ok?
    ensures LinkMap(hrefs[..|hrefs| - 1]) == Ok(d) && Valid(d)
    ensures LinkKey(hrefs[|hrefs| - 1]) == Ok(key)
    ensures ToMap(LinkMap(hrefs).value) == ToMap(d)[key := LwnHost + hrefs[|hrefs| - 1]]
  {
    d := LinkMap(hrefs[..|hrefs| - 1]).value;
    key := LinkKey(hrefs[|hrefs| - 1]).value;
    PutSpec(d, key, LwnHost + hrefs[|hrefs| - 1]);
  }

  /** Every key of the dict comes from a kept href: the last one with that
      key, whose `"https://lwn.net" + href` is the key's value. */
  lemma {:induction false} LinkMapKeySource(hrefs: seq<string>, k: string) returns (i: int)
    requires LinkMap(hrefs).Ok? && k in ToMap(LinkMap(hrefs).value)
    ensures 0 <= i < |hrefs| && LinkKey(hrefs[i]) == Ok(k)
    ensures ToMap(LinkMap(hrefs).value)[k] == LwnHost + hrefs[i]
    ensures forall j :: i < j < |hrefs| ==> LinkKey(hrefs[j]) != Ok(k)
  {
    var n := |hrefs| - 1;
    var d, key := LinkMapStep(hrefs);
    if key == k {
      i := n;
    } else {
      i := LinkMapKeySource(hrefs[..n], k);
      assert hrefs[..n][i] == hrefs[i];
      forall j | i < j < |hrefs| ensures LinkKey(hrefs[j]) != Ok(k) {
        if j < n {
          assert hrefs[..n][j] == hrefs[j];
        }
      }
    }
  }


  /** Every kept href's key is in the dict. */
  lemma {:induction false} LinkMapKeyPresent(hrefs: seq<string>, k: string, i: int)
    requires LinkMap(hrefs).Ok? && 0 <= i < |hrefs| && LinkKey(hrefs[i]) == Ok(k)
    ensures k in ToMap(LinkMap(hrefs).value)
  {
    var n := |hrefs| - 1;
    var d, key := LinkMapStep(hrefs);
    if i < n {
      assert hrefs[..n][i] == hrefs[i];
      LinkMapKeyPresent(hrefs[..n], k, i);
    }
  }

  /** A key is in the dict exactly when some kept href has it. */
  lemma LinkMapHasKey(hrefs: seq<string>, k: string)
    requires LinkMap(hrefs).Ok?
    ensures k in ToMap(LinkMap(hrefs).value) <==> exists i :: 0 <= i < |hrefs| && LinkKey(hrefs[i]) == Ok(k)
  {
    if k in ToMap(LinkMap(hrefs).value) {
      var i := LinkMapKeySource(hrefs, k);
    }
    if exists i :: 0 <= i < |hrefs| && LinkKey(hrefs[i]) == Ok(k) {
      var i :| 0 <= i < |hrefs| && LinkKey(hrefs[i]) == Ok(k);
      LinkMapKeyPresent(hrefs, k, i);
    }
  }

  /** The last href with a given key decides its value: a later href with the
      same key overwrites an earlier one. */
  lemma {:induction false} LinkMapLastWins(hrefs: seq<string>, k: string, i: int)
    requires LinkMap(hrefs).Ok?
    requires 0 <= i < |hrefs| && LinkKey(hrefs[i]) == Ok(k)
    requires forall j :: i < j < |hrefs| ==> LinkKey(hrefs[j]) != Ok(k)
    ensures k in ToMap(LinkMap(hrefs).value)
    ensures ToMap(LinkMap(hrefs).value)[k] == LwnHost + hrefs[i]
  {
    var n := |hrefs| - 1;
    var init := hrefs[..n];
    var d, key := LinkMapStep(hrefs);
    if i < n {
      assert key != k;
      assert init[i] == hrefs[i];
      forall j | i < j < |init| ensures LinkKey(init[j]) != Ok(k) {
        assert init[j] == hrefs[j];
      }
      LinkMapLastWins(init, k, i);
    }
  }

  /** The dict never has more entries than there were kept hrefs. */
  lemma {:induction false} LinkMapSize(hrefs: seq<string>)
    requires LinkMap(hrefs).Ok?
    ensures |LinkMap(hrefs).value.entries| <= |hrefs|
  {
    if hrefs != [] {
      var n := |hrefs| - 1;
      LinkMapSize(hrefs[..n]);
      var d := LinkMap(hrefs[..n]).value;
      var k := LinkKey(hrefs[n]).value;
      PutSpec(d, k, LwnHost + hrefs[n]);
    }
  }

  /** The keys of `seq` in order of first occurrence. */
  function FirstOccurrences(ks: seq<string>): seq<string> {
    if ks == [] then []
    else
      var init := FirstOccurrences(ks[..|ks| - 1]);
      var last := ks[|ks| - 1];
      if last in init then init else init + [last]
  }

  /** The keys of the hrefs, in order; all hrefs must have one. */
  function KeySeq(hrefs: seq<string>): (ks: seq<string>)
    requires forall i :: 0 <= i < |hrefs| ==> LinkKey(hrefs[i]).Ok?
    ensures |ks| == |hrefs|
    ensures forall i :: 0 <= i < |hrefs| ==> ks[i] == LinkKey(hrefs[i]).value
  {
    seq(|hrefs|, i requires 0 <= i < |hrefs| => LinkKey(hrefs[i]).value)
  }

  /** The dict's key order (which `list(d.values())` follows) is the order in
      which each key first appears among the hrefs. */
  lemma {:induction false} LinkMapKeyOrder(hrefs: seq<string>)
    requires LinkMap(hrefs).Ok?
    ensures forall i :: 0 <= i < |hrefs| ==> LinkKey(hrefs[i]).Ok?
    ensures Keys(LinkMap(hrefs).value) == FirstOccurrences(KeySeq(hrefs))
  {
    LinkMapFailsAt(hrefs);
    if hrefs != [] {
      var n := |hrefs| - 1;
      var init := hrefs[..n];
      assert LinkMap(init).Ok?;
      LinkMapKeyOrder(init);
      assert KeySeq(hrefs)[..n] == KeySeq(init);
      var d := LinkMap(init).value;
      var k := LinkKey(hrefs[n]).value;
      PutSpec(d, k, LwnHost + hrefs[n]);
    }
  }

  // ----- get_cesa_links as a whole -----

  /** `get_cesa_links` on a listing response, as written: a falsy response
      (None here) leaves `cesas` unassigned, so the loop raises NameError. */
  function AggregatorLinksAsWritten(response: Option<seq<Anchor>>): Result<Dict<string>> {
    match response
    case None => Err(NameError)
    case Some(anchors) => LinkMap(AggregatorHrefs(anchors))
  }

  /** `get_cesa_links` as intended: a falsy response gives no links. */
  function AggregatorLinks(response: Option<seq<Anchor>>): Result<Dict<string>> {
    match response
    case None => Ok(Empty())
    case Some(anchors) => LinkMap(AggregatorHrefs(anchors))
  }

  /** The two differ on the falsy response only. */
  lemma AggregatorLinksFix(response: Option<seq<Anchor>>)
    ensures response.Some? ==> AggregatorLinksAsWritten(response) == AggregatorLinks(response)
    ensures AggregatorLinksAsWritten(None) == Err(NameError)
    ensures AggregatorLinks(None).Ok? && AggregatorLinks(None).value.entries == []
  {
  }

  /** `get_cesa_links`: filter the anchors, then fill the dict href by href. */
  method CollectAggregatorLinks(response: Option<seq<Anchor>>) returns (r: Result<Dict<string>>)
    ensures r == AggregatorLinks(response)
  {
    if response.None? {
      return Ok(Empty());
    }
    var cesas := AggregatorHrefs(response.value);
    var links := Empty();
    for i := 0 to |cesas|
      invariant LinkMap(cesas[..i]) == Ok(links)
    {
      assert cesas[..i + 1][..i] == cesas[..i];
      var key := LinkKey(cesas[i]);
      if key.Err? {
        LinkMapFailurePersists(cesas, i + 1);
        return Err(key.error);
      }
      links := Put(links, key.value, LwnHost + cesas[i]);
    }
    assert cesas[..|cesas|] == cesas;
    r := Ok(links);
  }
}
