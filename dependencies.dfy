/** Dependency names of a descriptor (app.py:223-249): the `Depends`,
    `Imports` and `LinkingTo` values, newlines turned into spaces, split on
    commas, each piece reduced to a bare package name. */
module DependencyNames {
  import opened Text
  import opened Descriptors

  /** A character of the name group `[^ \(]`. */
  predicate IsNameChar(c: char) {
    c != ' ' && c != '('
  }

  /** The pattern `\s*([^ \(]+)`, anchored at the start of `v`, can put its
      group at position `k`: only whitespace before `k`, a name character at `k`. */
  predicate GroupCanStartAt(v: string, k: nat) {
    k < |v| && IsNameChar(v[k]) && forall j :: 0 <= j < k ==> IsSpace(v[j])
  }

  /** The group matched at `k` is `r`: the longest run of name characters there. */
  predicate GroupAt(v: string, k: nat, r: string) {
    && GroupCanStartAt(v, k)
    && k + |r| <= |v|
    && v[k..k + |r|] == r
    && (forall j :: 0 <= j < |r| ==> IsNameChar(r[j]))
    && (k + |r| == |v| || !IsNameChar(v[k + |r|]))
  }

  /** Length of the run of name characters that starts at `k`. */
  function NameRun(v: string, k: nat): (n: nat)
    requires k <= |v|
    ensures k + n <= |v|
    ensures forall j :: k <= j < k + n ==> IsNameChar(v[j])
    ensures k + n < |v| ==> !IsNameChar(v[k + n])
    decreases |v| - k
  {
    if k < |v| && IsNameChar(v[k]) then 1 + NameRun(v, k + 1) else 0
  }

  /** Where the group starts. The greedy `\s*` first takes all the leading
      whitespace and then gives it back one character at a time until a name
      character follows; -1 when no split works and the match fails. */
  function GroupStart(v: string, k: int): (g: int)
    requires -1 <= k <= LeadingSpaces(v)
    ensures -1 <= g <= k
    ensures g >= 0 ==> GroupCanStartAt(v, g)
    ensures forall j :: g < j <= k ==> !(j < |v| && IsNameChar(v[j]))
    decreases k + 1
  {
    if k < 0 then -1
    else if k < |v| && IsNameChar(v[k]) then k
    else GroupStart(v, k - 1)
  }

  /** `get_package_name`: group 1 of `re.match(r"\s*([^ \(]+).*\s*", v)`, or ""
      when the pattern does not match. The trailing `.*\s*` always matches and
      does not shorten the greedy group. */
  function GetPackageName(v: string): string {
    var g := GroupStart(v, LeadingSpaces(v));
    if g < 0 then "" else v[g..g + NameRun(v, g)]
  }

  /** What the match gives: only name characters; nothing exactly when the
      group can start nowhere; otherwise the maximal run of name characters at
      the last position the group can start at. */
  lemma PackageNameMatch(v: string)
    ensures var r := GetPackageName(v);
      && (forall i :: 0 <= i < |r| ==> IsNameChar(r[i]))
      && (r == [] <==> forall k :: 0 <= k < |v| ==> !GroupCanStartAt(v, k))
      && (r != [] ==> exists k: nat :: GroupAt(v, k, r) && forall j :: k < j < |v| ==> !GroupCanStartAt(v, j))
  {
    var w := LeadingSpaces(v);
    var g := GroupStart(v, w);
    assert forall k :: w < k < |v| ==> !GroupCanStartAt(v, k);
    if g >= 0 {
      assert GroupAt(v, g, GetPackageName(v));
    }
  }

  /** The case the pattern is written for: optional whitespace, then a name that
      does not start with whitespace, then anything that does not continue the
      name. The result is that name. */
  lemma NameAfterSpaces(w: string, n: string, rest: string, v: string)
    requires v == w + n + rest
    requires IsBlank(w)
    requires n != [] && !IsSpace(n[0])
    requires forall i :: 0 <= i < |n| ==> IsNameChar(n[i])
    requires rest == [] || !IsNameChar(rest[0])
    ensures GetPackageName(v) == n
  {
    var k0 := |w|;
    assert v[k0..] == n + rest;
    assert v[k0] == n[0];
    assert GroupCanStartAt(v, k0) by {
      forall j | 0 <= j < k0 ensures IsSpace(v[j]) { assert v[j] == w[j]; }
    }
    var r := GetPackageName(v);
    PackageNameMatch(v);
    var k: nat :| GroupAt(v, k, r) && forall j :: k < j < |v| ==> !GroupCanStartAt(v, j);
    GroupPosition(v, k, k0);
    NameRunOf(v, k0, n, rest);
  }

  /** The group starts at the last place it can: a position that it can take, with
      no whitespace there. */
  lemma GroupPosition(v: string, k: nat, k0: nat)
    requires GroupCanStartAt(v, k) && GroupCanStartAt(v, k0) && !IsSpace(v[k0])
    requires forall j :: k < j < |v| ==> !GroupCanStartAt(v, j)
    ensures k == k0
  {
  }

  lemma NameRunOf(v: string, k: nat, n: string, rest: string)
    requires k + |n| + |rest| == |v| && v[k..] == n + rest
    requires forall i :: 0 <= i < |n| ==> IsNameChar(n[i])
    requires rest == [] || !IsNameChar(rest[0])
    ensures forall r :: GroupAt(v, k, r) ==> r == n
  {
    forall r | GroupAt(v, k, r) ensures r == n {
      assert forall j :: 0 <= j < |n| ==> v[k + j] == n[j];
      assert rest != [] ==> v[k + |n|] == rest[0];
      assert forall j :: 0 <= j < |r| ==> v[k + j] == r[j];
      RunLengthUnique(v, k, |n|, |r|);
      assert v[k..k + |r|] == n;
    }
  }

  /** Two maximal runs of name characters from the same position have the same length. */
  lemma RunLengthUnique(v: string, k: nat, a: nat, b: nat)
    requires k + a <= |v| && k + b <= |v|
    requires forall j :: k <= j < k + a ==> IsNameChar(v[j])
    requires forall j :: k <= j < k + b ==> IsNameChar(v[j])
    requires k + a == |v| || !IsNameChar(v[k + a])
    requires k + b == |v| || !IsNameChar(v[k + b])
    ensures a == b
  {
  }

  /** The regex gives back leading whitespace that is not a space: in "\t(" the
      tab itself becomes the name. */
  lemma TabBeforeParenthesis()
    ensures GetPackageName("\t(") == "\t"
  {
    var v := "\t(";
    assert LeadingSpaces(v) == 1 by {
      assert IsSpace(v[0]) && !IsSpace(v[1]);
    }
    assert NameRun(v, 0) == 1;
  }

  /** The comma-separated pieces of a field, newlines first turned into spaces
      (app.py:225-233); an absent field contributes nothing. */
  function FieldTokens(desc: Descriptor, key: Key): seq<string> {
    if key in desc then Split(Replace(desc[key], '\n', ' '), ',') else []
  }

  /** `deps` as `get_dependencies` builds it: Depends, then Imports, then LinkingTo. */
  function Tokens(desc: Descriptor): seq<string> {
    FieldTokens(desc, Depends) + FieldTokens(desc, Imports) + FieldTokens(desc, LinkingTo)
  }

  /** `f` applied to each string of `ts`, in order. */
  function MapStrings(f: string -> string, ts: seq<string>): seq<string> {
    seq(|ts|, i requires 0 <= i < |ts| => f(ts[i]))
  }

  function Names(tokens: seq<string>): seq<string> {
    MapStrings(GetPackageName, tokens)
  }

  /** What `get_dependencies(desc)` returns. */
  function Dependencies(desc: Descriptor): seq<string> {
    Names(Tokens(desc))
  }

  /** `get_dependencies` (app.py:223-241), without its debug printing. */
  method GetDependencies(desc: Descriptor) returns (names: seq<string>)
    ensures names == Dependencies(desc)
  {
    var deps: seq<string> := [];
    if Depends in desc {
      var v := Replace(desc[Depends], '\n', ' ');
      deps := deps + Split(v, ',');
    }
    assert deps == FieldTokens(desc, Depends);
    if Imports in desc {
      var v := Replace(desc[Imports], '\n', ' ');
      deps := deps + Split(v, ',');
    }
    assert deps == FieldTokens(desc, Depends) + FieldTokens(desc, Imports);
    if LinkingTo in desc {
      var v := Replace(desc[LinkingTo], '\n', ' ');
      deps := deps + Split(v, ',');
    }
    assert deps == Tokens(desc);
    names := PackageNames(deps);
  }

  /** The loop of `get_dependencies` that maps `get_package_name` over the tokens. */
  method PackageNames(deps: seq<string>) returns (names: seq<string>)
    ensures names == Names(deps)
  {
    names := [];
    for i := 0 to |deps|
      invariant names == Names(deps[..i])
    {
      var n := GetPackageName(deps[i]);
      assert deps[..i + 1] == deps[..i] + [deps[i]];
      NamesAppend(deps[..i], [deps[i]]);
      names := names + [n];
    }
    assert deps[..|deps|] == deps;
  }

  /** One token per comma-separated piece of each present field: joined with
      commas, the tokens of a field give back its value (newlines as spaces),
      and no token holds a comma. */
  lemma FieldTokensSplit(desc: Descriptor, key: Key)
    requires key in desc
    ensures Join(FieldTokens(desc, key), ',') == Replace(desc[key], '\n', ' ')
    ensures forall i :: 0 <= i < |FieldTokens(desc, key)| ==> ',' !in FieldTokens(desc, key)[i]
  {
    JoinSplit(Replace(desc[key], '\n', ' '), ',');
  }

  /** The names come field by field, in token order: Depends, Imports, LinkingTo. */
  lemma DependenciesInOrder(desc: Descriptor)
    ensures Dependencies(desc)
         == Names(FieldTokens(desc, Depends)) + Names(FieldTokens(desc, Imports))
            + Names(FieldTokens(desc, LinkingTo))
  {
    var a, b, c := FieldTokens(desc, Depends), FieldTokens(desc, Imports), FieldTokens(desc, LinkingTo);
    NamesAppend(a, b);
    NamesAppend(a + b, c);
  }

  lemma NamesAppend(a: seq<string>, b: seq<string>)
    ensures Names(a + b) == Names(a) + Names(b)
  {
    MapAppend(GetPackageName, a, b);
  }

  lemma MapAppend(f: string -> string, a: seq<string>, b: seq<string>)
    ensures MapStrings(f, a + b) == MapStrings(f, a) + MapStrings(f, b)
  {
    var l, r := MapStrings(f, a + b), MapStrings(f, a) + MapStrings(f, b);
    forall i | 0 <= i < |a + b| ensures l[i] == r[i] {
      if i < |a| {
        assert (a + b)[i] == a[i];
      } else {
        assert (a + b)[i] == b[i - |a|];
      }
    }
  }

  /** `Suggests` is kept in the descriptor but never walked. */
  lemma SuggestsIgnored(desc: Descriptor, v: string)
    ensures Dependencies(desc[Suggests := v]) == Dependencies(desc)
    ensures Dependencies(desc - {Suggests}) == Dependencies(desc)
  {
    assert Tokens(desc[Suggests := v]) == Tokens(desc);
    assert Tokens(desc - {Suggests}) == Tokens(desc);
  }

  /** A descriptor with none of the three fields has no dependencies. */
  lemma NoDependencyFields(desc: Descriptor)
    requires Depends !in desc && Imports !in desc && LinkingTo !in desc
    ensures Dependencies(desc) == []
  {
  }

  /** A dependency name never holds a space, a parenthesis, a comma or a newline. */
  lemma NamesAreBare(desc: Descriptor, i: nat)
    requires i < |Dependencies(desc)|
    ensures var n := Dependencies(desc)[i];
            ' ' !in n && '(' !in n && ',' !in n && '\n' !in n
  {
    var ts := Tokens(desc);
    assert Dependencies(desc)[i] == GetPackageName(ts[i]);
    TokensBare(desc, ts[i]);
    NameOfToken(ts[i]);
  }

  /** No token holds a comma or a newline. */
  lemma TokensBare(desc: Descriptor, t: string)
    requires t in Tokens(desc)
    ensures ',' !in t && '\n' !in t
  {
    var key :| key in [Depends, Imports, LinkingTo] && t in FieldTokens(desc, key);
    SplitPieceOf(Replace(desc[key], '\n', ' '), ',', t);
  }

  /** The name of a token holds none of the characters the token lacks, nor a space or `(`. */
  lemma NameOfToken(t: string)
    ensures var n := GetPackageName(t);
            ' ' !in n && '(' !in n && (forall c :: c in n ==> c in t)
  {
    var n := GetPackageName(t);
    PackageNameMatch(t);
    if n != [] {
      var k: nat :| GroupAt(t, k, n);
      assert n == t[k..k + |n|];
    }
  }

  /** Every piece of a split is a run of characters of the split string. */
  lemma {:induction false} SplitPieceOf(s: string, sep: char, t: string)
    requires t in Split(s, sep)
    ensures forall c :: c in t ==> c in s
  {
    if s != [] {
      var rest := Split(s[1..], sep);
      if s[0] == sep {
        if t != [] { SplitPieceOf(s[1..], sep, t); }
      } else if t == [s[0]] + rest[0] {
        SplitPieceOf(s[1..], sep, rest[0]);
      } else {
        assert t in rest;
        SplitPieceOf(s[1..], sep, t);
      }
    }
  }

  /** A bare package name as it appears in a dependency field. */
  predicate IsBareName(n: string) {
    && n != [] && !IsSpace(n[0])
    && forall i :: 0 <= i < |n| ==> IsNameChar(n[i]) && n[i] != ',' && n[i] != '\n'
  }

  /** A `Depends` value of the form "A, B (version), C", with no `Imports` or
      `LinkingTo`, yields the three names in order; the "A, B (>= 1.0), C"
      example is the instance A, B, C, ">= 1.0". */
  lemma ThreeDependencies(desc: Descriptor, a: string, b: string, c: string, version: string)
    requires IsBareName(a) && IsBareName(b) && IsBareName(c)
    requires ',' !in version && '\n' !in version
    requires Depends in desc && desc[Depends] == a + ", " + b + " (" + version + "), " + c
    requires Imports !in desc && LinkingTo !in desc
    ensures Dependencies(desc) == [a, b, c]
  {
    var rb := " (" + version + ")";
    var ts := [a, " " + b + rb, " " + c];
    ThreeTokens(desc[Depends], a, b, c, version, ts);
    assert Tokens(desc) == ts;
    BareName("", a, "");
    assert GetPackageName(ts[0]) == a by { assert ts[0] == "" + a + ""; }
    BareName(" ", b, rb);
    BareName(" ", c, "");
    assert GetPackageName(ts[2]) == c by { assert ts[2] == " " + c + ""; }
    NamesOfThree(ts, a, b, c);
  }

  /** A bare name after optional whitespace, followed by a space or nothing. */
  lemma BareName(w: string, n: string, rest: string)
    requires IsBlank(w) && IsBareName(n)
    requires rest == [] || rest[0] == ' '
    ensures GetPackageName(w + n + rest) == n
  {
    NameAfterSpaces(w, n, rest, w + n + rest);
  }

  lemma NamesOfThree(ts: seq<string>, a: string, b: string, c: string)
    requires |ts| == 3
    requires GetPackageName(ts[0]) == a && GetPackageName(ts[1]) == b && GetPackageName(ts[2]) == c
    ensures Names(ts) == [a, b, c]
  {
    var ns := Names(ts);
    assert |ns| == 3 && ns[0] == a && ns[1] == b && ns[2] == c;
  }

  lemma ThreeTokens(v: string, a: string, b: string, c: string, version: string, ts: seq<string>)
    requires IsBareName(a) && IsBareName(b) && IsBareName(c)
    requires ',' !in version && '\n' !in version
    requires v == a + ", " + b + " (" + version + "), " + c
    requires ts == [a, " " + b + (" (" + version + ")"), " " + c]
    ensures Split(Replace(v, '\n', ' '), ',') == ts
  {
    ThreeText(a, b, c, version);
    assert '\n' !in v;
    ReplaceAbsent(v, '\n', ' ');
    JoinThree(ts, ',');
    assert ',' !in ts[0] && ',' !in ts[1] && ',' !in ts[2];
    SplitJoin(ts, ',');
  }

  /** The value `a, b (version), c` as its three comma-separated pieces. */
  lemma ThreeText(a: string, b: string, c: string, version: string)
    ensures a + ", " + b + " (" + version + "), " + c
         == a + [','] + ((" " + b + (" (" + version + ")")) + [','] + (" " + c))
  {
    var t1 := " " + b + (" (" + version + ")");
    var t2 := " " + c;
    calc {
      a + ", " + b + " (" + version + "), " + c;
    == { assert ", " == [','] + " "; assert "), " == ")" + [','] + " "; }
      a + ([','] + " ") + b + " (" + version + (")" + [','] + " ") + c;
    ==
      a + [','] + t1 + [','] + t2;
    ==
      a + [','] + (t1 + [','] + t2);
    }
  }

  lemma JoinThree(ts: seq<string>, sep: char)
    requires |ts| == 3
    ensures Join(ts, sep) == ts[0] + [sep] + (ts[1] + [sep] + ts[2])
  {
    var tail := ts[1..];
    assert tail[1..] == [ts[2]];
    assert Join(tail[1..], sep) == ts[2];
    assert Join(tail, sep) == ts[1] + [sep] + ts[2];
  }

  lemma ReplaceAbsent(s: string, from: char, to: char)
    requires from !in s
    ensures Replace(s, from, to) == s
  {
  }
}
