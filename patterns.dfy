/** Hand-written scanners for the fixed regular expressions of scrap.py.
    Each scanner is paired with a declarative description of the texts the
    pattern matches, and a lemma or contract that the two agree. */
module Patterns {
  import opened Errors
  import opened PyRepr

  /** w occurs in t at position i. */
  predicate At(t: string, i: int, w: string) {
    0 <= i && i + |w| <= |t| && t[i..i + |w|] == w
  }

  // ----- `re.match(".*CESA.*", text)`: the archive's anchor filter -----

  /** The scanner: walk forward until "CESA" starts here, giving up at the
      first newline (which `.` does not match) or at the end. */
  predicate MatchesAnyCesa(t: string)
    decreases |t|
  {
    if At(t, 0, "CESA") then true
    else if t == [] || t[0] == '\n' then false
    else MatchesAnyCesa(t[1..])
  }

  /** The pattern matches exactly the texts whose first line contains "CESA". */
  lemma {:induction false} MatchesAnyCesaSpec(t: string)
    ensures MatchesAnyCesa(t) <==> exists i :: At(t, i, "CESA") && '\n' !in t[..i]
    decreases |t|
  {
    if At(t, 0, "CESA") {
      assert t[..0] == [];
    } else if t == [] {
    } else if t[0] == '\n' {
      forall i | At(t, i, "CESA") ensures '\n' in t[..i] {
        assert i > 0 && t[..i][0] == '\n';
      }
    } else {
      MatchesAnyCesaSpec(t[1..]);
      if MatchesAnyCesa(t[1..]) {
        var i :| At(t[1..], i, "CESA") && '\n' !in t[1..][..i];
        assert t[i + 1..i + 5] == t[1..][i..i + 4];
        assert t[..i + 1] == [t[0]] + t[1..][..i];
        assert At(t, i + 1, "CESA");
      } else {
        forall i | At(t, i, "CESA") ensures '\n' in t[..i] {
          assert i > 0;
          assert t[1..][i - 1..i + 3] == t[i..i + 4];
          assert At(t[1..], i - 1, "CESA");
          assert t[..i] == [t[0]] + t[1..][..i - 1];
        }
      }
    }
  }

  // ----- `re.match("CESA-*", text)`: the aggregator's anchor filter -----

  /** The number of '-' at the front of t. */
  function DashRun(t: string): (n: nat)
    ensures n <= |t|
    ensures forall k :: 0 <= k < n ==> t[k] == '-'
    ensures n == |t| || t[n] != '-'
  {
    if t != [] && t[0] == '-' then 1 + DashRun(t[1..]) else 0
  }

  /** The scanner: "CESA" then as many '-' as there are; the end of the
      match, or None when the pattern does not match at the start. */
  function MatchCesaDashes(t: string): (r: Option<nat>)
    ensures r.Some? <==> |t| >= 4 && t[..4] == "CESA"
    ensures r.Some? ==> 4 <= r.value <= |t| && (r.value == |t| || t[r.value] != '-')
    ensures r.Some? ==> forall k :: 4 <= k < r.value ==> t[k] == '-'
  {
    if At(t, 0, "CESA") then Some(4 + DashRun(t[4..])) else None
  }

  // ----- `CESA\-[0-9]{4}\:[0-9]{4}`: the advisory number -----

  predicate IsDigit(c: char) {
    '0' <= c <= '9'
  }

  /** A 14-character advisory number `CESA-dddd:dddd`. */
  predicate IsCesaNumber(s: string) {
    |s| == 14 && s[..5] == "CESA-" && s[9] == ':'
    && (forall k :: 5 <= k < 9 ==> IsDigit(s[k]))
    && (forall k :: 10 <= k < 14 ==> IsDigit(s[k]))
  }

  predicate NumberAt(t: string, i: int) {
    0 <= i && i + 14 <= |t| && IsCesaNumber(t[i..i + 14])
  }

  /** The scanner: the first position at or after `from` where an advisory
      number starts. */
  function FirstNumberFrom(t: string, from: nat): (r: Option<nat>)
    ensures r.Some? ==> from <= r.value && NumberAt(t, r.value)
    ensures r.Some? ==> forall j :: from <= j < r.value ==> !NumberAt(t, j)
    ensures r.None? ==> forall j :: from <= j ==> !NumberAt(t, j)
    decreases |t| - from
  {
    if from + 14 > |t| then None
    else if NumberAt(t, from) then Some(from)
    else FirstNumberFrom(t, from + 1)
  }

  /** `re.findall(cesa_number_pattern, t)[0]`, with None where that indexing
      raises IndexError: the leftmost advisory number of the page. */
  function CesaNumber(t: string): Option<string> {
    match FirstNumberFrom(t, 0)
    case None => None
    case Some(i) => Some(t[i..i + 14])
  }

  /** There is a number exactly when the page holds one; it has the form
      `CESA-dddd:dddd` and is the leftmost one. */
  lemma CesaNumberSpec(t: string) returns (i: nat)
    ensures CesaNumber(t).None? <==> forall j :: !NumberAt(t, j)
    ensures CesaNumber(t).Some? ==>
              IsCesaNumber(CesaNumber(t).value) && NumberAt(t, i) && t[i..i + 14] == CesaNumber(t).value
              && forall j :: 0 <= j < i ==> !NumberAt(t, j)
  {
    match FirstNumberFrom(t, 0)
    case None => i := 0;
    case Some(k) => i := k;
  }

  // ----- `re.findall(r"(CentOS\s[6-7])", t)`: the OS mentions -----

  /** "CentOS", one whitespace character, then 6 or 7, at position i. */
  predicate OsAt(t: string, i: int) {
    At(t, i, "CentOS") && i + 8 <= |t| && IsSpace(t[i + 6]) && '6' <= t[i + 7] <= '7'
  }

  /** The scanner behind `findall`: from `from` on, take each match and
      resume after it. */
  function OsMatchesFrom(t: string, from: nat): (r: seq<string>)
    ensures forall k :: 0 <= k < |r| ==>
              exists i :: from <= i && OsAt(t, i) && r[k] == t[i..i + 8]
    decreases |t| - from
  {
    if from + 8 > |t| then []
    else if OsAt(t, from) then
      var rest := OsMatchesFrom(t, from + 8);
      [t[from..from + 8]] + rest
    else OsMatchesFrom(t, from + 1)
  }

  function OsMatches(t: string): seq<string> {
    OsMatchesFrom(t, 0)
  }

  /** Two mentions never overlap: a mention has no 'C' after its first character. */
  lemma OsNoOverlap(t: string, i: int, j: int)
    requires OsAt(t, i) && i < j < i + 8
    ensures !OsAt(t, j)
  {
    assert t[i..i + 6] == "CentOS";
    if j < i + 6 {
      assert t[j] == "CentOS"[j - i];
    }
  }

  /** `findall` misses no mention: every position where the pattern matches
      contributes its text. */
  lemma {:induction false} OsMatchesComplete(t: string, from: nat, i: int)
    requires from <= i && OsAt(t, i)
    ensures t[i..i + 8] in OsMatchesFrom(t, from)
    decreases |t| - from
  {
    if OsAt(t, from) {
      if from != i {
        if i < from + 8 {
          OsNoOverlap(t, from, i);
        }
        OsMatchesComplete(t, from + 8, i);
      }
    } else {
      OsMatchesComplete(t, from + 1, i);
    }
  }
}
