/** Python's `str()` of a list of strings, as the scraper applies it to the
    result of `re.findall` before looking inside it: `"['a', 'b']"`, where each
    element is shown by `repr`. */
module PyRepr {
  import opened Text

  /** Python's whitespace (`str.isspace`, and `\s` in a `str` pattern). */
  predicate IsSpace(c: char) {
    var n := c as int;
    (9 <= n <= 13) || (28 <= n <= 32) || n == 0x85 || n == 0xA0 || n == 0x1680
    || (0x2000 <= n <= 0x200A) || n == 0x2028 || n == 0x2029 || n == 0x202F
    || n == 0x205F || n == 0x3000
  }

  /** Characters `repr` shows as an escape rather than as themselves: the
      controls, the Latin-1 non-printables, and all whitespace but the space. */
  predicate NonPrintable(c: char) {
    var n := c as int;
    n < 0x20 || (0x7F <= n <= 0xA0) || n == 0xAD || (IsSpace(c) && c != ' ')
  }

  function HexDigit(d: int): (h: char)
    requires 0 <= d < 16
  {
    if d < 10 then ('0' as int + d) as char else ('a' as int + d - 10) as char
  }

  /** The four lower-case hexadecimal digits of n modulo 16^4. */
  function Hex4(n: nat): string {
    [HexDigit(n / 4096 % 16), HexDigit(n / 256 % 16), HexDigit(n / 16 % 16), HexDigit(n % 16)]
  }

  /** `\xNN`, `\uNNNN` or `\UNNNNNNNN`, by the size of the code point. */
  function HexEscape(c: char): string {
    var n := c as int;
    if n < 0x100 then ['\\', 'x', HexDigit(n / 16), HexDigit(n % 16)]
    else if n < 0x10000 then "\\u" + Hex4(n)
    else "\\U" + Hex4(n / 0x10000) + Hex4(n)
  }

  /** The quote `repr` chooses: `"` only when s holds `'` and no `"`. */
  function Quote(s: string): char {
    if '\'' in s && '"' !in s then '"' else '\''
  }

  /** How `repr` shows one character inside quotes q. */
  function ReprChar(c: char, q: char): string {
    if c == '\\' then "\\\\"
    else if c == q then ['\\', q]
    else if c == '\t' then "\\t"
    else if c == '\n' then "\\n"
    else if c == '\r' then "\\r"
    else if NonPrintable(c) then HexEscape(c)
    else [c]
  }

  function Escape(s: string, q: char): string {
    if s == [] then [] else ReprChar(s[0], q) + Escape(s[1..], q)
  }

  /** `repr(s)`. */
  function Repr(s: string): string {
    [Quote(s)] + Escape(s, Quote(s)) + [Quote(s)]
  }

  /** The elements' reprs, separated by `", "`. */
  function ReprJoin(xs: seq<string>): string {
    if xs == [] then "" else if |xs| == 1 then Repr(xs[0]) else Repr(xs[0]) + ", " + ReprJoin(xs[1..])
  }

  /** `str(xs)` for a list of strings. */
  function ListStr(xs: seq<string>): string {
    "[" + ReprJoin(xs) + "]"
  }

  /** `", ".join(xs)`. */
  function CommaJoin(xs: seq<string>): string {
    if xs == [] then "" else if |xs| == 1 then xs[0] else xs[0] + ", " + CommaJoin(xs[1..])
  }

  /** A string `repr` shows verbatim between single quotes. */
  predicate Plain(s: string) {
    forall i :: 0 <= i < |s| ==> !NonPrintable(s[i]) && s[i] != '\\' && s[i] != '\''
  }

  /** A plain string is shown as itself between single quotes. */
  lemma {:induction false} ReprPlain(s: string)
    requires Plain(s)
    ensures Repr(s) == "'" + s + "'"
  {
    assert '\'' !in s;
    EscapePlain(s);
  }

  lemma {:induction false} EscapePlain(s: string)
    requires Plain(s)
    ensures Escape(s, '\'') == s
  {
    if s != [] {
      assert s[0] != '\t' && s[0] != '\n' && s[0] != '\r';
      EscapePlain(s[1..]);
      assert s == [s[0]] + s[1..];
    }
  }

  /** A character occurs in an escaped string iff it occurs in the escape of
      one of its characters. */
  lemma {:induction false} EscapeHas(s: string, q: char, x: char)
    ensures x in Escape(s, q) <==> exists i :: 0 <= i < |s| && x in ReprChar(s[i], q)
  {
    if s != [] {
      EscapeHas(s[1..], q, x);
      if x in Escape(s[1..], q) {
        var i :| 0 <= i < |s[1..]| && x in ReprChar(s[1..][i], q);
        assert x in ReprChar(s[i + 1], q);
      }
      if exists i :: 0 <= i < |s| && x in ReprChar(s[i], q) {
        var i :| 0 <= i < |s| && x in ReprChar(s[i], q);
        if i > 0 {
          assert x in ReprChar(s[1..][i - 1], q);
        }
      }
    }
  }

  /** A digit occurs in `str(xs)` iff it occurs in the repr of one element:
      brackets, commas and spaces are not digits. */
  lemma {:induction false} ListStrHasDigit(xs: seq<string>, x: char)
    requires '0' <= x <= '9'
    ensures x in ListStr(xs) <==> exists k :: 0 <= k < |xs| && x in Repr(xs[k])
  {
    ReprJoinHasDigit(xs, x);
  }

  lemma {:induction false} ReprJoinHasDigit(xs: seq<string>, x: char)
    requires '0' <= x <= '9'
    ensures x in ReprJoin(xs) <==> exists k :: 0 <= k < |xs| && x in Repr(xs[k])
  {
    if |xs| > 1 {
      ReprJoinHasDigit(xs[1..], x);
      if x in ReprJoin(xs[1..]) {
        var k :| 0 <= k < |xs[1..]| && x in Repr(xs[1..][k]);
        assert x in Repr(xs[k + 1]);
      }
      if exists k :: 0 <= k < |xs| && x in Repr(xs[k]) {
        var k :| 0 <= k < |xs| && x in Repr(xs[k]);
        if k > 0 {
          assert x in Repr(xs[1..][k - 1]);
        }
      }
    }
  }

  /** The escape of a whitespace character holds the digit 6 exactly for
      OGHAM SPACE MARK (U+1680) and SIX-PER-EM SPACE (U+2006). */
  lemma SpaceReprSix(c: char, q: char)
    requires IsSpace(c) && (q == '\'' || q == '"')
    ensures '6' in ReprChar(c, q) <==> c == '\U{1680}' || c == '\U{2006}'
  {
    if c as int < 0x100 {
      LatinSpaceRepr(c, q);
    } else {
      WideSpaceRepr(c, q);
    }
  }

  /** Whitespace up to U+00FF is shown as itself, a letter escape or `\xNN`,
      none of which holds a 6. */
  lemma LatinSpaceRepr(c: char, q: char)
    requires IsSpace(c) && c as int < 0x100 && (q == '\'' || q == '"')
    ensures '6' !in ReprChar(c, q)
  {
    var n := c as int;
    if n == 11 || n == 12 || (28 <= n <= 31) || n == 0x85 || n == 0xA0 {
      assert ReprChar(c, q) == ['\\', 'x', HexDigit(n / 16), HexDigit(n % 16)];
    }
  }

  /** Whitespace above U+00FF is shown as `\uNNNN`. */
  lemma WideSpaceRepr(c: char, q: char)
    requires IsSpace(c) && c as int >= 0x100 && (q == '\'' || q == '"')
    ensures '6' in ReprChar(c, q) <==> c == '\U{1680}' || c == '\U{2006}'
  {
    var n := c as int;
    assert ReprChar(c, q) == "\\u" + Hex4(n);
    WideSpaceHex(n);
    assert '6' in "\\u" + Hex4(n) <==> '6' in Hex4(n);
  }

  /** The four hex digits of the code points of whitespace above U+00FF. */
  lemma WideSpaceHex(n: nat)
    requires 0x2000 <= n <= 0x200A || n == 0x1680 || n == 0x2028 || n == 0x2029
      || n == 0x202F || n == 0x205F || n == 0x3000
    ensures '6' in Hex4(n) <==> n == 0x1680 || n == 0x2006
  {
    if 0x2000 <= n <= 0x200A {
      Hex4Of(n, 2, 0, 0, n - 0x2000);
    } else if n == 0x1680 {
      Hex4Of(n, 1, 6, 8, 0);
    } else if n == 0x2028 || n == 0x2029 || n == 0x202F {
      Hex4Of(n, 2, 0, 2, n - 0x2020);
    } else if n == 0x205F {
      Hex4Of(n, 2, 0, 5, 15);
    } else {
      Hex4Of(n, 3, 0, 0, 0);
    }
  }

  lemma Hex4Of(n: nat, a: int, b: int, c: int, d: int)
    requires 0 <= a < 16 && 0 <= b < 16 && 0 <= c < 16 && 0 <= d < 16
    requires n == a * 4096 + b * 256 + c * 16 + d
    ensures Hex4(n) == [HexDigit(a), HexDigit(b), HexDigit(c), HexDigit(d)]
  {
    DivBy(n, 4096, a, b * 256 + c * 16 + d);
    DivBy(n, 256, a * 16 + b, c * 16 + d);
    DivBy(n, 16, a * 256 + b * 16 + c, d);
  }

  /** Euclidean division, from a quotient and remainder. */
  lemma DivBy(n: int, m: int, q: int, r: int)
    requires 0 < m && 0 <= r < m && n == q * m + r
    ensures n / m == q && n % m == r
  {
    var k := n / m - q;
    assert k * m == r - n % m;
    MulBound(k, m);
  }

  /** A nonzero multiple of m is at least m away from zero. */
  lemma MulBound(k: int, m: int)
    requires 0 < m
    ensures k >= 1 ==> k * m >= m
    ensures k <= -1 ==> k * m <= -m
  {
    if k >= 1 {
      assert k * m == m + (k - 1) * m;
    } else if k <= -1 {
      assert k * m == -m + (k + 1) * m;
    }
  }

  /** `str()` of a list of plain strings without brackets, with its brackets
      and quotes removed by `clean_word`, is the elements joined by `", "`. */
  lemma CleanListStr(xs: seq<string>)
    requires forall k :: 0 <= k < |xs| ==> Plain(xs[k]) && '[' !in xs[k] && ']' !in xs[k]
    ensures CleanWord(ListStr(xs)) == CommaJoin(xs)
  {
    var j := ReprJoin(xs);
    CleanWordConcat("[" + j, "]");
    CleanWordConcat("[", j);
    CleanWordChar('[');
    CleanWordChar(']');
    CleanReprJoin(xs);
  }

  /** `clean_word` of one character. */
  lemma CleanWordChar(c: char)
    ensures CleanWord([c]) == if Unwanted(c) then [] else [c]
  {
    CleanWordIsFilter([c]);
    assert [c][1..] == [];
  }

  /** `clean_word` of a quoted plain string without brackets is the string. */
  lemma CleanQuoted(x: string)
    requires Plain(x) && '[' !in x && ']' !in x
    ensures CleanWord(Repr(x)) == x
  {
    ReprPlain(x);
    CleanWordFixpoint(x);
    CleanWordConcat("'" + x, "'");
    CleanWordConcat("'", x);
    CleanWordChar('\'');
  }

  lemma {:induction false} CleanReprJoin(xs: seq<string>)
    requires forall k :: 0 <= k < |xs| ==> Plain(xs[k]) && '[' !in xs[k] && ']' !in xs[k]
    ensures CleanWord(ReprJoin(xs)) == CommaJoin(xs)
  {
    if xs == [] {
      CleanWordFixpoint("");
    } else if |xs| == 1 {
      CleanQuoted(xs[0]);
    } else {
      CleanQuoted(xs[0]);
      CleanReprJoin(xs[1..]);
      CleanSeparated(Repr(xs[0]), ReprJoin(xs[1..]));
    }
  }

  /** `clean_word` leaves the separator `", "` alone. */
  lemma CleanSeparated(r: string, t: string)
    ensures CleanWord(r + ", " + t) == CleanWord(r) + ", " + CleanWord(t)
  {
    CleanWordConcat(r + ", ", t);
    CleanWordConcat(r, ", ");
    CleanWordFixpoint(", ");
  }

  /** `s.replace(c, '')` on each element. */
  function DeleteEach(xs: seq<string>, c: char): (r: seq<string>)
    ensures |r| == |xs|
  {
    if xs == [] then [] else [Delete(xs[0], c)] + DeleteEach(xs[1..], c)
  }

  lemma {:induction false} DeleteEachAt(xs: seq<string>, c: char, k: int)
    requires 0 <= k < |xs|
    ensures DeleteEach(xs, c)[k] == Delete(xs[k], c)
  {
    assert DeleteEach(xs, c) == [Delete(xs[0], c)] + DeleteEach(xs[1..], c);
    if k > 0 {
      DeleteEachAt(xs[1..], c, k - 1);
    }
  }

  /** Deleting a character that `str()` adds nowhere, from the `str()` of a
      list of plain strings, is deleting it from each element. */
  lemma {:induction false} DeleteListStr(xs: seq<string>, c: char)
    requires forall k :: 0 <= k < |xs| ==> Plain(xs[k])
    requires c != '[' && c != ']' && c != '\'' && c != ',' && c != ' '
    ensures forall k :: 0 <= k < |xs| ==> Plain(DeleteEach(xs, c)[k])
    ensures Delete(ListStr(xs), c) == ListStr(DeleteEach(xs, c))
  {
    DeleteConcat("[" + ReprJoin(xs), "]", c);
    DeleteConcat("[", ReprJoin(xs), c);
    DeleteAbsent("[", c);
    DeleteAbsent("]", c);
    DeleteReprJoin(xs, c);
    DeleteEachPlain(xs, c);
  }

  lemma DeleteEachPlain(xs: seq<string>, c: char)
    requires forall k :: 0 <= k < |xs| ==> Plain(xs[k])
    ensures forall k :: 0 <= k < |xs| ==> Plain(DeleteEach(xs, c)[k])
  {
    forall k | 0 <= k < |xs| ensures Plain(DeleteEach(xs, c)[k]) {
      DeleteEachAt(xs, c, k);
      DeletePlain(xs[k], c);
    }
  }

  lemma {:induction false} DeleteReprJoin(xs: seq<string>, c: char)
    requires forall k :: 0 <= k < |xs| ==> Plain(xs[k])
    requires c != '[' && c != ']' && c != '\'' && c != ',' && c != ' '
    ensures Delete(ReprJoin(xs), c) == ReprJoin(DeleteEach(xs, c))
  {
    if xs != [] {
      var ys := DeleteEach(xs, c);
      assert ys == [Delete(xs[0], c)] + DeleteEach(xs[1..], c);
      DeleteQuoted(xs[0], c);
      if |xs| > 1 {
        DeleteReprJoin(xs[1..], c);
        DeleteSeparated(Repr(xs[0]), ReprJoin(xs[1..]), c);
        assert ReprJoin(ys) == Repr(ys[0]) + ", " + ReprJoin(ys[1..]);
      }
    }
  }

  /** Deleting a character other than `,` and space leaves the separator alone. */
  lemma DeleteSeparated(r: string, t: string, c: char)
    requires c != ',' && c != ' '
    ensures Delete(r + ", " + t, c) == Delete(r, c) + ", " + Delete(t, c)
  {
    DeleteConcat(r + ", ", t, c);
    DeleteConcat(r, ", ", c);
    DeleteAbsent(", ", c);
  }

  /** Deleting c from a quoted plain string deletes it inside the quotes. */
  lemma DeleteQuoted(x: string, c: char)
    requires Plain(x) && c != '\''
    ensures Plain(Delete(x, c))
    ensures Delete(Repr(x), c) == Repr(Delete(x, c))
  {
    var d := Delete(x, c);
    DeletePlain(x, c);
    ReprPlain(x);
    ReprPlain(d);
    DeleteConcat("'" + x, "'", c);
    DeleteConcat("'", x, c);
    DeleteAbsent("'", c);
  }

  /** Deleting characters keeps a string plain. */
  lemma DeletePlain(s: string, c: char)
    requires Plain(s)
    ensures Plain(Delete(s, c))
  {
    var d := Delete(s, c);
    forall i | 0 <= i < |d| ensures !NonPrintable(d[i]) && d[i] != '\\' && d[i] != '\'' {
      assert d[i] in multiset(d);
      assert d[i] in s;
    }
  }
}
