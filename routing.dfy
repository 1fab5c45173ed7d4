/** Routing an advisory to the CentOS 6 or the CentOS 7 bucket. The source
    looks for the character '6' in `str(re.findall(r"(CentOS\s[6-7])", page))`;
    the intended rule is "the page mentions CentOS 6". */
module Routing {
  import opened PyRepr
  import opened Patterns

  datatype Bucket = C6 | C7

  /** The output directory of a bucket. */
  function Dir(b: Bucket): string {
    if b == C6 then "C6/" else "C7/"
  }

  /** The template file of a bucket. */
  function TemplatePath(b: Bucket): string {
    if b == C6 then "templates/template6.yml" else "templates/template7.yml"
  }

  /** Some OS mention in ms ends in the digit 6. */
  predicate SixAmong(ms: seq<string>) {
    exists k :: 0 <= k < |ms| && |ms[k]| == 8 && ms[k][7] == '6'
  }

  /** The intended routing: bucket 6 exactly when one of the page's
      `CentOS\s[6-7]` mentions says 6; bucket 7 otherwise, also when the page
      mentions no CentOS version at all. */
  function Route(t: string): Bucket {
    if SixAmong(OsMatches(t)) then C6 else C7
  }

  /** A page goes to bucket 6 exactly when it mentions CentOS 6. */
  lemma RouteSpec(t: string)
    ensures Route(t) == C6 <==> exists i :: OsAt(t, i) && t[i + 7] == '6'
  {
    SixAmongMentions(t);
  }

  /** The mentions `findall` returns include a 6 exactly when the page has a
      mention of CentOS 6 somewhere. */
  lemma SixAmongMentions(t: string)
    ensures SixAmong(OsMatches(t)) <==> exists i :: OsAt(t, i) && t[i + 7] == '6'
  {
    if exists i :: OsAt(t, i) && t[i + 7] == '6' {
      var i :| OsAt(t, i) && t[i + 7] == '6';
      SixMentionFound(t, i);
    }
    if SixAmong(OsMatches(t)) {
      SixMentionSound(t);
    }
  }

  lemma SixMentionFound(t: string, i: int)
    requires OsAt(t, i) && t[i + 7] == '6'
    ensures SixAmong(OsMatches(t))
  {
    var ms := OsMatches(t);
    OsMatchesComplete(t, 0, i);
    var k :| 0 <= k < |ms| && ms[k] == t[i..i + 8];
    assert ms[k][7] == t[i + 7];
  }

  lemma SixMentionSound(t: string)
    requires SixAmong(OsMatches(t))
    ensures exists i :: OsAt(t, i) && t[i + 7] == '6'
  {
    var ms := OsMatches(t);
    var k :| 0 <= k < |ms| && |ms[k]| == 8 && ms[k][7] == '6';
    assert exists i :: 0 <= i && OsAt(t, i) && ms[k] == t[i..i + 8];
    var i :| 0 <= i && OsAt(t, i) && ms[k] == t[i..i + 8];
    assert t[i + 7] == ms[k][7];
  }

  /** The routing as scrap.py writes it: `'6' in str(matches)`. */
  function RouteAsWritten(t: string): Bucket {
    if '6' in ListStr(OsMatches(t)) then C6 else C7
  }

  /** The source's routing never sends a page that names CentOS 6 to
      bucket 7: its errors all go the other way. */
  lemma RouteAsWrittenSeesSix(t: string)
    ensures (exists i :: OsAt(t, i) && t[i + 7] == '6') ==> RouteAsWritten(t) == C6
  {
    if exists i :: OsAt(t, i) && t[i + 7] == '6' {
      var i :| OsAt(t, i) && t[i + 7] == '6';
      var ms := OsMatches(t);
      OsMatchesComplete(t, 0, i);
      var k :| 0 <= k < |ms| && ms[k] == t[i..i + 8];
      SixMentionRepr(t, i);
      ListStrHasDigit(ms, '6');
    }
  }

  /** The repr of a mention of CentOS 6 holds a 6. */
  lemma SixMentionRepr(t: string, i: int)
    requires OsAt(t, i) && t[i + 7] == '6'
    ensures '6' in Repr(t[i..i + 8])
  {
    var m := t[i..i + 8];
    assert m[..6] == t[i..i + 6];
    OsReprSix(m);
  }

  /** The repr of one OS mention holds a 6 exactly when its digit is 6 or its
      whitespace is one of the two spaces whose escape holds a 6. */
  lemma OsReprSix(m: string)
    requires |m| == 8 && m[..6] == "CentOS" && IsSpace(m[6]) && '6' <= m[7] <= '7'
    ensures '6' in Repr(m) <==> m[7] == '6' || m[6] == '\U{1680}' || m[6] == '\U{2006}'
  {
    var q := '\'';
    MentionQuote(m);
    assert Repr(m) == [q] + Escape(m, q) + [q];
    EscapeHas(m, q, '6');
    SpaceReprSix(m[6], q);
    NameNoSix(m);
    DigitPlain(m[7]);
    if m[7] == '6' {
      assert '6' in ReprChar(m[7], q);
    }
    if m[6] == '\U{1680}' || m[6] == '\U{2006}' {
      assert '6' in ReprChar(m[6], q);
    }
  }

  /** A mention holds no `'`, so `repr` quotes it with `'`. */
  lemma MentionQuote(m: string)
    requires |m| == 8 && m[..6] == "CentOS" && IsSpace(m[6]) && '6' <= m[7] <= '7'
    ensures Quote(m) == '\''
  {
    forall k | 0 <= k < 8 ensures m[k] != '\'' {
      if k < 6 { assert m[k] == m[..6][k]; }
    }
  }

  lemma NameNoSix(m: string)
    requires |m| >= 6 && m[..6] == "CentOS"
    ensures forall k :: 0 <= k < 6 ==> '6' !in ReprChar(m[k], '\'')
  {
    forall k | 0 <= k < 6 ensures '6' !in ReprChar(m[k], '\'') {
      assert m[k] == m[..6][k];
      NamePlain(m[k]);
    }
  }

  /** The letters of "CentOS" are shown as themselves. */
  lemma NamePlain(c: char)
    requires c in "CentOS"
    ensures ReprChar(c, '\'') == [c]
  {
  }

  /** A decimal digit is shown as itself. */
  lemma DigitPlain(c: char)
    requires '0' <= c <= '9'
    ensures ReprChar(c, '\'') == [c]
  {
  }

  /** The source's routing agrees with the intended one on every page whose
      OS mentions do not use U+1680 or U+2006 as their whitespace. */
  lemma RouteAsWrittenAgrees(t: string)
    requires forall i :: OsAt(t, i) ==> t[i + 6] != '\U{1680}' && t[i + 6] != '\U{2006}'
    ensures RouteAsWritten(t) == Route(t)
  {
    var ms := OsMatches(t);
    ListStrHasDigit(ms, '6');
    forall k | 0 <= k < |ms| ensures '6' in Repr(ms[k]) <==> ms[k][7] == '6' {
      var i :| 0 <= i && OsAt(t, i) && ms[k] == t[i..i + 8];
      MentionReprSix(t, i);
    }
  }

  /** One mention's repr holds a 6 exactly when its version digit is 6,
      unless its whitespace is U+1680 or U+2006. */
  lemma MentionReprSix(t: string, i: int)
    requires 0 <= i && OsAt(t, i) && t[i + 6] != '\U{1680}' && t[i + 6] != '\U{2006}'
    ensures '6' in Repr(t[i..i + 8]) <==> t[i + 7] == '6'
  {
    var m := t[i..i + 8];
    assert m[..6] == t[i..i + 6];
    OsReprSix(m);
  }

  /** The page text "CentOS", SIX-PER-EM SPACE, "7": the source files it under
      bucket 6, because `repr` shows that space as `\u2006`. */
  lemma RouteAsWrittenMisroutes()
    ensures RouteAsWritten("CentOS\U{2006}7") == C6
    ensures Route("CentOS\U{2006}7") == C7
  {
    var t := "CentOS\U{2006}7";
    assert OsAt(t, 0);
    assert OsMatchesFrom(t, 8) == [];
    assert t[0..8] == t;
    assert OsMatches(t) == [t[0..8]] + OsMatchesFrom(t, 8);
    OsReprSix(t);
    ListStrHasDigit([t], '6');
    assert [t][0] == t;
  }
}
