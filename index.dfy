/** Cutting one package's block out of a CRAN `PACKAGES` index (app.py:130-142).
    The index is the sequence of its lines. */
module PackageIndex {
  import opened Text

  /** The line prefix that opens the block of `pkg`. This is a prefix test on
      the whole line, so the header of `foo` also opens on `Package: foobar`. */
  function HeaderPrefix(pkg: string): string {
    "Package: " + pkg
  }

  /** The first line at or after `from` that starts with the header of `pkg`,
      or `|lines|` when there is none. */
  function FirstHeader(lines: seq<string>, pkg: string, from: nat): (k: nat)
    requires from <= |lines|
    ensures from <= k <= |lines|
    ensures forall j :: from <= j < k ==> !StartsWith(lines[j], HeaderPrefix(pkg))
    ensures k < |lines| ==> StartsWith(lines[k], HeaderPrefix(pkg))
    decreases |lines| - from
  {
    if from == |lines| || StartsWith(lines[from], HeaderPrefix(pkg)) then from
    else FirstHeader(lines, pkg, from + 1)
  }

  /** The first blank or whitespace-only line at or after `from`, or `|lines|`. */
  function FirstBlank(lines: seq<string>, from: nat): (k: nat)
    requires from <= |lines|
    ensures from <= k <= |lines|
    ensures forall j :: from <= j < k ==> !IsBlank(lines[j])
    ensures k < |lines| ==> IsBlank(lines[k])
    decreases |lines| - from
  {
    if from == |lines| || IsBlank(lines[from]) then from
    else FirstBlank(lines, from + 1)
  }

  /** The block that opens at line `start`: up to and including the first blank
      line from there, or up to the end of the index. */
  function BlockAt(lines: seq<string>, start: nat): (b: seq<string>)
    requires start <= |lines|
    ensures start + |b| <= |lines| && b == lines[start..start + |b|]
    ensures b == [] <==> start == |lines|
    ensures forall j :: 0 <= j < |b| - 1 ==> !IsBlank(b[j])
    ensures b != [] ==> IsBlank(b[|b| - 1]) || start + |b| == |lines|
    ensures b != [] && start + |b| < |lines| ==> IsBlank(b[|b| - 1])
  {
    if start == |lines| then []
    else
      var e := FirstBlank(lines, start);
      if e == |lines| then lines[start..] else lines[start..e + 1]
  }

  /** Where the block of `pkg` opens: the first line with its header. */
  function BlockStart(lines: seq<string>, pkg: string): (s: nat)
    ensures s <= |lines|
    ensures forall j :: 0 <= j < s ==> !StartsWith(lines[j], HeaderPrefix(pkg))
    ensures s < |lines| ==> StartsWith(lines[s], HeaderPrefix(pkg))
  {
    FirstHeader(lines, pkg, 0)
  }

  /** What `get_package_lines(content, pkg)` returns. */
  function Block(lines: seq<string>, pkg: string): (b: seq<string>)
    ensures b == [] <==> forall j :: 0 <= j < |lines| ==> !StartsWith(lines[j], HeaderPrefix(pkg))
    ensures b != [] ==> StartsWith(b[0], HeaderPrefix(pkg))
    ensures BlockStart(lines, pkg) + |b| <= |lines|
    ensures b == lines[BlockStart(lines, pkg)..BlockStart(lines, pkg) + |b|]
    ensures forall j :: 0 <= j < |b| - 1 ==> !IsBlank(b[j])
    ensures b != [] ==> IsBlank(b[|b| - 1]) || BlockStart(lines, pkg) + |b| == |lines|
  {
    BlockAt(lines, BlockStart(lines, pkg))
  }

  /** `get_package_lines`: the scan with the `in_block` flag and the early exit. */
  method GetPackageLines(lines: seq<string>, pkg: string) returns (results: seq<string>)
    ensures results == Block(lines, pkg)
  {
    var inBlock := false;
    results := [];
    ghost var s := BlockStart(lines, pkg);
    var i := 0;
    while i < |lines|
      invariant 0 <= i <= |lines|
      invariant !inBlock ==> s >= i && results == []
      invariant inBlock ==> s < i && results == lines[s..i]
      invariant inBlock ==> forall j :: s <= j < i ==> !IsBlank(lines[j])
    {
      var line := lines[i];
      if StartsWith(line, HeaderPrefix(pkg)) {
        inBlock := true;
      }
      if inBlock {
        assert s <= i;
        assert lines[s..i + 1] == lines[s..i] + [line];
        results := results + [line];
        if IsBlank(line) {
          assert FirstBlank(lines, s) == i by { BlankIsFirst(lines, s, i); }
          return;
        }
      }
      i := i + 1;
    }
    if inBlock {
      assert FirstBlank(lines, s) == |lines| by { BlankIsFirst(lines, s, |lines|); }
    }
  }

  /** A position with no blank line in `[from, k)` and a blank one at `k` (or
      the end) is the one `FirstBlank` finds. */
  lemma {:induction false} BlankIsFirst(lines: seq<string>, from: nat, k: nat)
    requires from <= k <= |lines|
    requires forall j :: from <= j < k ==> !IsBlank(lines[j])
    requires k < |lines| ==> IsBlank(lines[k])
    ensures FirstBlank(lines, from) == k
    decreases k - from
  {
    if from < k {
      BlankIsFirst(lines, from + 1, k);
    }
  }
}
