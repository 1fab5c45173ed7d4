/** String helpers that mirror Python's `str` methods used by the scraper:
    `replace(c, '')`, `split("/")`, and the title cleaning `clean_word`. */
module Text {

  /** `s.replace(c, '')`: s with every occurrence of c deleted. Every other
      character is kept, as often as it occurs in s. */
  function Delete(s: string, c: char): (r: string)
    ensures multiset(r) == multiset(s)[c := 0]
    ensures c !in r
  {
    if s == [] then []
    else if s[0] == c then
      assert s == [s[0]] + s[1..];
      Delete(s[1..], c)
    else
      assert s == [s[0]] + s[1..];
      [s[0]] + Delete(s[1..], c)
  }

  /** Deleting a character distributes over concatenation, so the surviving
      characters keep their relative order. */
  lemma {:induction false} DeleteConcat(a: string, b: string, c: char)
    ensures Delete(a + b, c) == Delete(a, c) + Delete(b, c)
  {
    if a == [] {
      assert a + b == b;
    } else {
      assert (a + b)[1..] == a[1..] + b;
      DeleteConcat(a[1..], b, c);
    }
  }

  /** A string without c is left alone. */
  lemma {:induction false} DeleteAbsent(s: string, c: char)
    requires c !in s
    ensures Delete(s, c) == s
  {
    if s != [] {
      DeleteAbsent(s[1..], c);
    }
  }

  /** The characters `clean_word` removes. */
  predicate Unwanted(c: char) {
    c == '[' || c == ']' || c == '\''
  }

  /** `clean_word(word)`: three `replace` calls, in the source's order. */
  function CleanWord(w: string): (r: string)
    ensures '[' !in r && ']' !in r && '\'' !in r
    ensures forall c :: !Unwanted(c) ==> multiset(r)[c] == multiset(w)[c]
  {
    var a := Delete(w, '[');
    var b := Delete(a, ']');
    var r := Delete(b, '\'');
    assert multiset(r)['['] == 0 && multiset(r)[']'] == 0;
    r
  }

  /** A one-pass reference for `clean_word`: keep every character that is not
      unwanted, in order. */
  function KeepWanted(w: string): string {
    if w == [] then [] else (if Unwanted(w[0]) then [] else [w[0]]) + KeepWanted(w[1..])
  }

  /** `clean_word` is exactly the order-preserving filter `KeepWanted`. */
  lemma {:induction false} CleanWordIsFilter(w: string)
    ensures CleanWord(w) == KeepWanted(w)
  {
    if w != [] {
      assert w == [w[0]] + w[1..];
      DeleteConcat([w[0]], w[1..], '[');
      DeleteConcat(Delete([w[0]], '['), Delete(w[1..], '['), ']');
      DeleteConcat(Delete(Delete([w[0]], '['), ']'), Delete(Delete(w[1..], '['), ']'), '\'');
      CleanWordIsFilter(w[1..]);
    }
  }

  /** `clean_word` is idempotent. */
  lemma CleanWordIdempotent(w: string)
    ensures CleanWord(CleanWord(w)) == CleanWord(w)
  {
    var r := CleanWord(w);
    DeleteAbsent(r, '[');
    DeleteAbsent(r, ']');
    DeleteAbsent(r, '\'');
  }

  /** `clean_word` leaves a word unchanged exactly when it holds no unwanted character. */
  lemma CleanWordFixpoint(w: string)
    ensures CleanWord(w) == w <==> ('[' !in w && ']' !in w && '\'' !in w)
  {
    if '[' !in w && ']' !in w && '\'' !in w {
      DeleteAbsent(w, '[');
      DeleteAbsent(w, ']');
      DeleteAbsent(w, '\'');
    }
  }

  /** `clean_word` distributes over concatenation. */
  lemma CleanWordConcat(a: string, b: string)
    ensures CleanWord(a + b) == CleanWord(a) + CleanWord(b)
  {
    DeleteConcat(a, b, '[');
    DeleteConcat(Delete(a, '['), Delete(b, '['), ']');
    DeleteConcat(Delete(Delete(a, '['), ']'), Delete(Delete(b, '['), ']'), '\'');
  }

  /** `s.split("/")`. */
  function Split(s: string): (r: seq<string>)
    ensures |r| >= 1
  {
    if s == [] then [""]
    else
      var rest := Split(s[1..]);
      if s[0] == '/' then [""] + rest
      else [[s[0]] + rest[0]] + rest[1..]
  }

  /** `split("/")` gives one more piece than there are slashes, and no piece
      holds a slash. */
  lemma {:induction false} SplitPieces(s: string)
    ensures |Split(s)| == multiset(s)['/'] + 1
    ensures forall k :: 0 <= k < |Split(s)| ==> '/' !in Split(s)[k]
  {
    if s != [] {
      assert s == [s[0]] + s[1..];
      SplitPieces(s[1..]);
      var rest := Split(s[1..]);
      var r := Split(s);
      if s[0] != '/' {
        forall k | 0 <= k < |r| ensures '/' !in r[k] {
          if k > 0 {
            assert r[k] == rest[k];
          }
        }
      }
    }
  }

  /** `"/".join(parts)`. */
  function Join(parts: seq<string>): string
    requires |parts| >= 1
  {
    if |parts| == 1 then parts[0] else parts[0] + "/" + Join(parts[1..])
  }

  /** Splitting and joining again gives back the string. */
  lemma {:induction false} JoinSplit(s: string)
    ensures Join(Split(s)) == s
    decreases |s|
  {
    if '/' !in s {
      SplitSlashFree(s);
    } else {
      var i := FirstSlash(s);
      var p, t := s[..i], s[i + 1..];
      assert s == p + "/" + t;
      SplitPrefix(p, t);
      JoinSplit(t);
      var parts := [p] + Split(t);
      assert parts[1..] == Split(t);
    }
  }

  /** The position of the first slash of a string that has one. */
  lemma {:induction false} FirstSlash(s: string) returns (i: nat)
    requires '/' in s
    ensures i < |s| && s[i] == '/' && '/' !in s[..i]
  {
    if s[0] == '/' {
      i := 0;
    } else {
      assert '/' in s[1..] by { assert s == [s[0]] + s[1..]; }
      var j := FirstSlash(s[1..]);
      i := j + 1;
      assert s[..i] == [s[0]] + s[1..][..j];
    }
  }

  /** Joining slash-free pieces and splitting again gives back the pieces. */
  lemma {:induction false} SplitJoin(parts: seq<string>)
    requires |parts| >= 1
    requires forall k :: 0 <= k < |parts| ==> '/' !in parts[k]
    ensures Split(Join(parts)) == parts
  {
    if |parts| == 1 {
      SplitSlashFree(parts[0]);
    } else {
      SplitJoin(parts[1..]);
      SplitPrefix(parts[0], Join(parts[1..]));
      assert parts == [parts[0]] + parts[1..];
    }
  }

  /** A slash-free string splits into itself. */
  lemma {:induction false} SplitSlashFree(s: string)
    requires '/' !in s
    ensures Split(s) == [s]
  {
    if s != [] {
      SplitSlashFree(s[1..]);
      assert s == [s[0]] + s[1..];
    }
  }

  /** Splitting `p + "/" + t`, for a slash-free p, puts p before the pieces of t. */
  lemma {:induction false} SplitPrefix(p: string, t: string)
    requires '/' !in p
    ensures Split(p + "/" + t) == [p] + Split(t)
  {
    if p == [] {
      assert p + "/" + t == "/" + t;
      assert ("/" + t)[1..] == t;
    } else {
      assert (p + "/" + t)[1..] == p[1..] + "/" + t;
      SplitPrefix(p[1..], t);
      assert [p[0]] + p[1..] == p;
    }
  }
}
