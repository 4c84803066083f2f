/** A small Option type shared by the modules below. */
module Wrappers {
  datatype Option<+T> = None | Some(value: T)
}

/** The Python string primitives the resolver relies on, over `string` (= seq<char>). */
module Text {

  /** Python's `str.isspace` on one character. The regex class `\s` of a `str`
      pattern matches exactly these characters too. */
  predicate IsSpace(c: char) {
    c == ' ' || ('\t' <= c <= '\r') || ('\U{1C}' <= c <= '\U{1F}')
    || c == '\U{85}' || c == '\U{A0}' || c == '\U{1680}'
    || ('\U{2000}' <= c <= '\U{200A}') || c == '\U{2028}' || c == '\U{2029}'
    || c == '\U{202F}' || c == '\U{205F}' || c == '\U{3000}'
  }

  /** `not s.strip()`: the string is empty or consists of whitespace only. */
  predicate IsBlank(s: string) {
    forall i :: 0 <= i < |s| ==> IsSpace(s[i])
  }

  /** `s.startswith(p)`: `p` is a prefix of `s`. */
  predicate StartsWith(s: string, p: string) {
    |p| <= |s| && s[..|p|] == p
  }

  /** Two prefixes that differ at some position never both start the same string. */
  lemma PrefixesExclusive(s: string, p: string, q: string, i: nat)
    requires i < |p| && i < |q| && p[i] != q[i]
    ensures !(StartsWith(s, p) && StartsWith(s, q))
  {
    if |p| <= |s| && |q| <= |s| {
      assert s[..|p|][i] == s[..|q|][i];
    }
  }

  /** Number of whitespace characters at the start of `s`. */
  function LeadingSpaces(s: string): (k: nat)
    ensures k <= |s|
    ensures forall j :: 0 <= j < k ==> IsSpace(s[j])
    ensures k < |s| ==> !IsSpace(s[k])
  {
    if s != [] && IsSpace(s[0]) then 1 + LeadingSpaces(s[1..]) else 0
  }

  /** Start of the whitespace run that ends `s`, not before `lo`. */
  function TrailingSpacesFrom(s: string, lo: nat): (k: nat)
    requires lo <= |s|
    ensures lo <= k <= |s|
    ensures forall j :: k <= j < |s| ==> IsSpace(s[j])
    ensures lo < k ==> !IsSpace(s[k - 1])
    decreases |s| - lo
  {
    if lo < |s| && IsSpace(s[|s| - 1]) then
      TrailingSpacesFrom(s[..|s| - 1], lo)
    else |s|
  }

  /** `s.strip()`: `s` without its leading and trailing whitespace. */
  function Strip(s: string): (r: string)
    ensures IsBlank(s) <==> r == []
    ensures r == [] || (!IsSpace(r[0]) && !IsSpace(r[|r| - 1]))
    ensures LeadingSpaces(s) + |r| <= |s| && StrippedAt(s, LeadingSpaces(s), r)
  {
    var a := LeadingSpaces(s);
    var b := TrailingSpacesFrom(s, a);
    var r := s[a..b];
    assert s[a + |r|..] == s[b..];
    r
  }

  /** `r` sits at position `i` of `s` with only whitespace around it. */
  predicate StrippedAt(s: string, i: nat, r: string)
    requires i + |r| <= |s|
  {
    IsBlank(s[..i]) && s[i..i + |r|] == r && IsBlank(s[i + |r|..])
  }

  /** `s.replace(from, to)` for single characters. */
  function Replace(s: string, from: char, to: char): (r: string)
    ensures |r| == |s|
    ensures forall i :: 0 <= i < |s| && s[i] == from ==> r[i] == to
    ensures forall i :: 0 <= i < |s| && s[i] != from ==> r[i] == s[i]
  {
    if s == [] then [] else [if s[0] == from then to else s[0]] + Replace(s[1..], from, to)
  }

  /** `s.split(sep)` for a one-character separator: the pieces between the
      separators, empty pieces included, so that there is always one more piece
      than there are separators. */
  function Split(s: string, sep: char): (r: seq<string>)
    ensures |r| >= 1
    ensures forall i :: 0 <= i < |r| ==> sep !in r[i]
  {
    if s == [] then [[]]
    else
      var rest := Split(s[1..], sep);
      if s[0] == sep then [[]] + rest
      else [[s[0]] + rest[0]] + rest[1..]
  }

  /** `sep.join(ps)` */
  function Join(ps: seq<string>, sep: char): string
    requires |ps| >= 1
  {
    if |ps| == 1 then ps[0] else ps[0] + [sep] + Join(ps[1..], sep)
  }

  /** Joining the pieces of a split gives back the original string. */
  lemma {:induction false} JoinSplit(s: string, sep: char)
    ensures Join(Split(s, sep), sep) == s
  {
    if s != [] {
      var rest := Split(s[1..], sep);
      JoinSplit(s[1..], sep);
      var ps := Split(s, sep);
      assert s == [s[0]] + s[1..];
      if s[0] == sep {
        assert ps == [[]] + rest && ps[1..] == rest;
        assert Join(ps, sep) == [] + [sep] + Join(rest, sep);
      } else if |rest| == 1 {
        assert ps == [[s[0]] + rest[0]];
      } else {
        assert ps == [[s[0]] + rest[0]] + rest[1..] && ps[1..] == rest[1..];
        assert Join(rest, sep) == rest[0] + [sep] + Join(rest[1..], sep);
        assert Join(ps, sep) == ([s[0]] + rest[0]) + [sep] + Join(rest[1..], sep);
      }
    }
  }

  lemma {:induction false} SplitAfterPiece(a: string, b: string, sep: char)
    requires sep !in a
    ensures Split(a + [sep] + b, sep) == [a] + Split(b, sep)
  {
    if a == [] {
      assert [sep] + b == a + [sep] + b;
      assert ([sep] + b)[1..] == b;
    } else {
      assert (a + [sep] + b)[1..] == a[1..] + [sep] + b;
      SplitAfterPiece(a[1..], b, sep);
      assert [a[0]] + a[1..] == a;
    }
  }

  lemma {:induction false} SplitPiece(a: string, sep: char)
    requires sep !in a
    ensures Split(a, sep) == [a]
  {
    if a != [] {
      SplitPiece(a[1..], sep);
      assert [a[0]] + a[1..] == a;
    }
  }

  /** Splitting a join of separator-free pieces gives back the pieces. */
  lemma {:induction false} SplitJoin(ps: seq<string>, sep: char)
    requires |ps| >= 1
    requires forall i :: 0 <= i < |ps| ==> sep !in ps[i]
    ensures Split(Join(ps, sep), sep) == ps
  {
    if |ps| == 1 {
      SplitPiece(ps[0], sep);
    } else {
      SplitJoin(ps[1..], sep);
      SplitAfterPiece(ps[0], Join(ps[1..], sep), sep);
      assert [ps[0]] + ps[1..] == ps;
    }
  }

  /** `s.split(": ", 1)[1]`: the text after the first ": ". A line without the
      separator yields "" (Python raises IndexError there; the resolver only
      asks this of lines that start with a field header). */
  function AfterSeparator(s: string): (r: string)
    ensures |r| <= |s| && r == s[|s| - |r|..]
  {
    if |s| < 2 then "" else if s[0] == ':' && s[1] == ' ' then s[2..] else AfterSeparator(s[1..])
  }

  /** For a line made of a key without ':' then ": ", the value is the rest of the line. */
  lemma {:induction false} AfterSeparatorOfHeader(key: string, rest: string)
    requires ':' !in key
    ensures AfterSeparator(key + ": " + rest) == rest
  {
    var s := key + ": " + rest;
    if key != [] {
      assert s[0] == key[0];
      assert s[1..] == key[1..] + ": " + rest;
      AfterSeparatorOfHeader(key[1..], rest);
    } else {
      assert s == ": " + rest;
      assert s[2..] == rest;
    }
  }

  /** The text after a header prefix `key + ": "` at the start of a line. */
  lemma HeaderValue(line: string, key: string)
    requires ':' !in key && StartsWith(line, key + ": ")
    ensures |key| + 2 <= |line| && AfterSeparator(line) == line[|key| + 2..]
  {
    assert line == key + ": " + line[|key| + 2..];
    AfterSeparatorOfHeader(key, line[|key| + 2..]);
  }
}
