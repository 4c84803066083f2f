/** The recursive resolver (app.py:144-221): starting from the requested
    packages, each package's descriptor is built from its block of the index,
    its dependencies are walked depth first, and a name is visited the first
    time it is met. `so_far`, the list of names already met, starts as the
    base R packages and is shared by the whole walk; here it is threaded
    through the calls as a value that each call returns. */
module Resolver {
  import opened Text
  import opened PackageIndex
  import opened Descriptors
  import opened DependencyNames

  /** The packages that ship with R and are never resolved (app.py:145-161). */
  const BaseR: seq<string> := [
    "R", "base", "compiler", "datasets", "graphics", "grDevices", "grid",
    "methods", "parallel", "splines", "stats", "stats4", "tcltk", "utils",
    "tools"
  ]

  const Source := "CRAN"
  const Repository := "http://rspm/default/latest"

  /** The `value` of one result: where the package comes from and its descriptor. */
  datatype Entry = Entry(source: string, repository: string, description: Descriptor)

  /** One result of `get_package`: `{"key": pkg, "value": ...}`. */
  datatype Record = Record(key: string, value: Entry)

  /** The descriptor `get_package` builds for `pkg`. */
  function DescriptorOf(lines: seq<string>, pkg: string): Descriptor {
    Describe(Block(lines, pkg), pkg)
  }

  /** The names `get_dependencies` gives for `pkg`. */
  function Deps(lines: seq<string>, pkg: string): seq<string> {
    Dependencies(DescriptorOf(lines, pkg))
  }

  /** The record `get_package` puts first in its result for `pkg`. */
  function RecordFor(lines: seq<string>, pkg: string): Record {
    Record(pkg, Entry(Source, Repository, DescriptorOf(lines, pkg)))
  }

  function Keys(rs: seq<Record>): seq<string> {
    seq(|rs|, i requires 0 <= i < |rs| => rs[i].key)
  }

  ghost function Elems(s: seq<string>): set<string> {
    set x | x in s
  }

  /** Every dependency name any block of the index can produce. Only these
      names and the requested ones are ever added to `so_far`, which bounds
      the walk. */
  ghost function Pool(lines: seq<string>): set<string> {
    set s, n | 0 <= s <= |lines| && n in Dependencies(Describe(BlockAt(lines, s), "")) :: n
  }

  /** `get_package(content, pkg, more, seen)`: the records and the final `so_far`. */
  function Resolve(lines: seq<string>, pkg: string, more: seq<string>, seen: seq<string>)
    : (r: (seq<Record>, seq<string>))
    ensures seen <= r.1
    decreases |(Pool(lines) + Elems(more)) - Elems(seen)|, 1, 0
  {
    var deps := Deps(lines, pkg) + more;
    DepsInPool(lines, pkg);
    assert Elems(deps) <= Pool(lines) + Elems(more);
    SubsetCard((Pool(lines) + Elems(deps)) - Elems(seen), (Pool(lines) + Elems(more)) - Elems(seen));
    var rest := ResolveList(lines, deps, seen);
    ([RecordFor(lines, pkg)] + rest.0, rest.1)
  }

  /** The loop over `deps` in `get_package`, from `seen` on. */
  function ResolveList(lines: seq<string>, deps: seq<string>, seen: seq<string>)
    : (r: (seq<Record>, seq<string>))
    ensures seen <= r.1
    decreases |(Pool(lines) + Elems(deps)) - Elems(seen)|, 0, |deps|
  {
    if deps == [] then ([], seen)
    else
      var d := deps[0];
      ListMeasure(Pool(lines), deps, seen, seen);
      if d in seen then
        ResolveList(lines, deps[1..], seen)
      else
        var first := Resolve(lines, d, [], seen + [d]);
        ListMeasure(Pool(lines), deps, seen, first.1);
        var rest := ResolveList(lines, deps[1..], first.1);
        (first.0 + rest.0, rest.1)
  }

  /** The walk's measure goes down on each call of the loop over `deps`. */
  lemma ListMeasure(pool: set<string>, deps: seq<string>, seen: seq<string>, after: seq<string>)
    requires deps != []
    ensures |(pool + Elems(deps[1..])) - Elems(seen)| <= |(pool + Elems(deps)) - Elems(seen)|
    ensures deps[0] !in seen ==>
      |(pool + Elems([])) - Elems(seen + [deps[0]])| < |(pool + Elems(deps)) - Elems(seen)|
    ensures deps[0] !in seen && seen + [deps[0]] <= after ==>
      |(pool + Elems(deps[1..])) - Elems(after)| < |(pool + Elems(deps)) - Elems(seen)|
  {
    var d := deps[0];
    var u := (pool + Elems(deps)) - Elems(seen);
    assert Elems(deps[1..]) <= Elems(deps) by {
      forall x | x in deps[1..] ensures x in deps { }
    }
    SubsetCard((pool + Elems(deps[1..])) - Elems(seen), u);
    if d !in seen {
      assert d in u;
      StrictCard((pool + Elems([])) - Elems(seen + [d]), u, d);
      if seen + [d] <= after {
        PrefixElems(seen + [d], after);
        StrictCard((pool + Elems(deps[1..])) - Elems(after), u, d);
      }
    }
  }

  lemma StrictCard(a: set<string>, b: set<string>, d: string)
    requires a <= b && d in b && d !in a
    ensures |a| < |b|
  {
    SubsetCard(a, b - {d});
    assert b == (b - {d}) + {d};
  }

  /** `after` is `seen` with names appended, and each appended name was new
      when it was appended: the only way `get_package` changes `so_far`. */
  predicate Extends(seen: seq<string>, after: seq<string>) {
    seen <= after && forall i :: |seen| <= i < |after| ==> after[i] !in after[..i]
  }

  /** Every name of `ns` is in `names`. */
  predicate Covered(ns: seq<string>, names: seq<string>) {
    forall n :: n in ns ==> n in names
  }

  /** Every record is the one `get_package` builds for its key. */
  predicate Faithful(lines: seq<string>, rs: seq<Record>) {
    forall i :: 0 <= i < |rs| ==> rs[i] == RecordFor(lines, rs[i].key)
  }

  /** The dependencies of every record are among `names`. */
  predicate Closed(lines: seq<string>, rs: seq<Record>, names: seq<string>) {
    forall i :: 0 <= i < |rs| ==> Covered(Deps(lines, rs[i].key), names)
  }

  /** Each name of `names` is in `ns` or is a dependency of one of the records. */
  predicate Explained(lines: seq<string>, rs: seq<Record>, ns: seq<string>, names: seq<string>) {
    forall n :: n in names ==> n in ns || exists i :: 0 <= i < |rs| && n in Deps(lines, rs[i].key)
  }

  /** What one call of `get_package` does: its first record is the one for
      `pkg`; it appends to `so_far` only names that were not there, and emits
      one record for each of them, in the order they were appended; and when
      it returns, every dependency of every record it emitted, and every name
      of `more`, is in `so_far`. Conversely each name it appended is in
      `more` or a dependency of a record it emitted. */
  lemma {:induction false} ResolveFacts(lines: seq<string>, pkg: string, more: seq<string>, seen: seq<string>)
    ensures var r := Resolve(lines, pkg, more, seen);
      && |r.0| >= 1 && r.0[0] == RecordFor(lines, pkg)
      && Extends(seen, r.1)
      && Keys(r.0[1..]) == r.1[|seen|..]
      && Faithful(lines, r.0)
      && Covered(Deps(lines, pkg) + more, r.1)
      && Closed(lines, r.0, r.1)
      && Explained(lines, r.0, more, r.1[|seen|..])
    decreases |(Pool(lines) + Elems(more)) - Elems(seen)|, 1, 0
  {
    var deps := Deps(lines, pkg) + more;
    DepsInPool(lines, pkg);
    assert Elems(deps) <= Pool(lines) + Elems(more);
    SubsetCard((Pool(lines) + Elems(deps)) - Elems(seen), (Pool(lines) + Elems(more)) - Elems(seen));
    ResolveListFacts(lines, deps, seen);
    var rest := ResolveList(lines, deps, seen);
    var r := Resolve(lines, pkg, more, seen);
    assert r == ([RecordFor(lines, pkg)] + rest.0, rest.1);
    ConsFacts(lines, pkg, more, seen, rest.0, rest.1);
  }

  /** The record for `pkg` put in front of the loop's records keeps the loop's facts. */
  lemma ConsFacts(lines: seq<string>, pkg: string, more: seq<string>, seen: seq<string>,
                  rs: seq<Record>, after: seq<string>)
    requires Extends(seen, after) && Keys(rs) == after[|seen|..]
    requires Faithful(lines, rs) && Covered(Deps(lines, pkg) + more, after)
    requires Closed(lines, rs, after)
    requires Explained(lines, rs, Deps(lines, pkg) + more, after[|seen|..])
    ensures var all := [RecordFor(lines, pkg)] + rs;
      && all[0] == RecordFor(lines, pkg) && Keys(all[1..]) == after[|seen|..]
      && Faithful(lines, all) && Closed(lines, all, after)
      && Explained(lines, all, more, after[|seen|..])
  {
    var first := RecordFor(lines, pkg);
    var all := [first] + rs;
    assert all[1..] == rs;
    forall i | 0 <= i < |all| ensures all[i] == RecordFor(lines, all[i].key)
      && Covered(Deps(lines, all[i].key), after) {
      if i > 0 {
        ConsIndex(first, rs, i - 1);
      } else {
        assert Covered(Deps(lines, pkg), after) by {
          forall n | n in Deps(lines, pkg) ensures n in after {
            assert n in Deps(lines, pkg) + more;
          }
        }
      }
    }
    ExplainedByFirst(lines, first, rs, more, after[|seen|..]);
  }

  lemma ConsIndex(first: Record, rs: seq<Record>, i: nat)
    requires i < |rs|
    ensures ([first] + rs)[i + 1] == rs[i]
  {
  }

  lemma ExplainedByFirst(lines: seq<string>, first: Record, rs: seq<Record>, more: seq<string>, names: seq<string>)
    requires Explained(lines, rs, Deps(lines, first.key) + more, names)
    ensures Explained(lines, [first] + rs, more, names)
  {
    forall n | n in names && n !in more
      ensures exists i :: 0 <= i < |[first] + rs| && n in Deps(lines, ([first] + rs)[i].key)
    {
      if n in Deps(lines, first.key) {
        assert ([first] + rs)[0] == first;
      } else {
        var i :| 0 <= i < |rs| && n in Deps(lines, rs[i].key);
        ConsIndex(first, rs, i);
      }
    }
  }

  /** The loop over `deps`: the same facts, every name of `deps` ending up in `so_far`. */
  lemma {:induction false} ResolveListFacts(lines: seq<string>, deps: seq<string>, seen: seq<string>)
    ensures var r := ResolveList(lines, deps, seen);
      && Extends(seen, r.1)
      && Keys(r.0) == r.1[|seen|..]
      && Faithful(lines, r.0)
      && Covered(deps, r.1)
      && Closed(lines, r.0, r.1)
      && Explained(lines, r.0, deps, r.1[|seen|..])
    decreases |(Pool(lines) + Elems(deps)) - Elems(seen)|, 0, |deps|
  {
    var r := ResolveList(lines, deps, seen);
    if deps == [] {
      assert Keys(r.0) == [];
    } else {
      var d := deps[0];
      ListMeasure(Pool(lines), deps, seen, seen);
      if d in seen {
        ResolveListFacts(lines, deps[1..], seen);
        assert r == ResolveList(lines, deps[1..], seen);
        SkipFacts(lines, deps, seen, r.0, r.1);
      } else {
        var first := Resolve(lines, d, [], seen + [d]);
        ResolveFacts(lines, d, [], seen + [d]);
        ListMeasure(Pool(lines), deps, seen, first.1);
        var rest := ResolveList(lines, deps[1..], first.1);
        ResolveListFacts(lines, deps[1..], first.1);
        assert r == (first.0 + rest.0, rest.1);
        VisitFacts(lines, deps, seen, first, rest);
        VisitExplained(lines, deps, seen, first.0, first.1, rest.0, rest.1);
      }
    }
  }

  /** A name already in `so_far` is skipped and still ends up covered. */
  lemma SkipFacts(lines: seq<string>, deps: seq<string>, seen: seq<string>,
                  rs: seq<Record>, after: seq<string>)
    requires deps != [] && deps[0] in seen && seen <= after
    requires Covered(deps[1..], after) && Explained(lines, rs, deps[1..], after[|seen|..])
    ensures Covered(deps, after) && Explained(lines, rs, deps, after[|seen|..])
  {
    PrefixElems(seen, after);
    assert deps == [deps[0]] + deps[1..];
    assert Elems(deps[1..]) <= Elems(deps);
  }

  /** Putting together the visit of `deps[0]` and the rest of the loop. */
  lemma VisitFacts(lines: seq<string>, deps: seq<string>, seen: seq<string>,
                   first: (seq<Record>, seq<string>), rest: (seq<Record>, seq<string>))
    requires deps != [] && deps[0] !in seen
    requires |first.0| >= 1 && first.0[0] == RecordFor(lines, deps[0])
    requires Extends(seen + [deps[0]], first.1)
    requires Keys(first.0[1..]) == first.1[|seen| + 1..]
    requires Faithful(lines, first.0) && Closed(lines, first.0, first.1)
    requires Extends(first.1, rest.1)
    requires Keys(rest.0) == rest.1[|first.1|..]
    requires Faithful(lines, rest.0) && Covered(deps[1..], rest.1) && Closed(lines, rest.0, rest.1)
    ensures Extends(seen, rest.1)
    ensures Keys(first.0 + rest.0) == rest.1[|seen|..]
    ensures Faithful(lines, first.0 + rest.0)
    ensures Covered(deps, rest.1)
    ensures Closed(lines, first.0 + rest.0, rest.1)
  {
    ExtendsTrans(seen, deps[0], first.1, rest.1);
    VisitKeys(seen, deps[0], first.0, first.1, rest.0, rest.1);
    PrefixElems(seen + [deps[0]], rest.1);
    assert deps[0] in seen + [deps[0]];
    assert deps == [deps[0]] + deps[1..];
    ClosedGrow(lines, first.0, first.1, rest.1);
    ClosedAppend(lines, first.0, rest.0, rest.1);
  }

  lemma VisitExplained(lines: seq<string>, deps: seq<string>, seen: seq<string>,
                        rs1: seq<Record>, s1: seq<string>, rs2: seq<Record>, s2: seq<string>)
    requires deps != [] && seen + [deps[0]] <= s1 && s1 <= s2
    requires Explained(lines, rs1, [], s1[|seen| + 1..])
    requires Explained(lines, rs2, deps[1..], s2[|s1|..])
    ensures Explained(lines, rs1 + rs2, deps, s2[|seen|..])
  {
    assert s1 == s2[..|s1|];
    assert s2[|seen|..] == [deps[0]] + s1[|seen| + 1..] + s2[|s1|..];
    forall n | n in s2[|seen|..] && n !in deps
      ensures exists i :: 0 <= i < |rs1 + rs2| && n in Deps(lines, (rs1 + rs2)[i].key)
    {
      if n in s1[|seen| + 1..] {
        var i :| 0 <= i < |rs1| && n in Deps(lines, rs1[i].key);
        assert (rs1 + rs2)[i] == rs1[i];
      } else {
        assert n in s2[|s1|..];
        assert n !in deps[1..];
        var i :| 0 <= i < |rs2| && n in Deps(lines, rs2[i].key);
        assert (rs1 + rs2)[|rs1| + i] == rs2[i];
      }
    }
  }

  lemma ExtendsTrans(seen: seq<string>, d: string, s1: seq<string>, s2: seq<string>)
    requires d !in seen && Extends(seen + [d], s1) && Extends(s1, s2)
    ensures Extends(seen, s2)
  {
    assert s1 == s2[..|s1|];
    forall i | |seen| <= i < |s2| ensures s2[i] !in s2[..i] {
      if i < |s1| {
        assert s2[..i] == s1[..i];
        if i == |seen| {
          assert s1[..i] == seen;
        }
      }
    }
  }

  lemma VisitKeys(seen: seq<string>, d: string, rs1: seq<Record>, s1: seq<string>,
                  rs2: seq<Record>, s2: seq<string>)
    requires |rs1| >= 1 && rs1[0].key == d
    requires seen + [d] <= s1 && s1 <= s2
    requires Keys(rs1[1..]) == s1[|seen| + 1..]
    requires Keys(rs2) == s2[|s1|..]
    ensures Keys(rs1 + rs2) == s2[|seen|..]
  {
    assert rs1 == [rs1[0]] + rs1[1..];
    KeysAppend([rs1[0]], rs1[1..]);
    KeysAppend(rs1, rs2);
    assert s1 == s2[..|s1|];
    assert s2[|seen|..] == [d] + s1[|seen| + 1..] + s2[|s1|..];
  }

  lemma ClosedGrow(lines: seq<string>, rs: seq<Record>, a: seq<string>, b: seq<string>)
    requires Closed(lines, rs, a) && a <= b
    ensures Closed(lines, rs, b)
  {
    PrefixElems(a, b);
    forall i | 0 <= i < |rs| ensures Covered(Deps(lines, rs[i].key), b) {
      assert Covered(Deps(lines, rs[i].key), a);
    }
  }

  lemma ClosedAppend(lines: seq<string>, a: seq<Record>, b: seq<Record>, names: seq<string>)
    requires Closed(lines, a, names) && Closed(lines, b, names)
    ensures Closed(lines, a + b, names)
  {
    forall i | 0 <= i < |a + b| ensures Covered(Deps(lines, (a + b)[i].key), names) {
      if i >= |a| {
        assert (a + b)[i] == b[i - |a|];
      }
    }
  }

  lemma KeysAppend(a: seq<Record>, b: seq<Record>)
    ensures Keys(a + b) == Keys(a) + Keys(b)
  {
  }

  /** `get_package`: the descriptor loop, then the walk over `deps`, whose
      records follow the one for `pkg`. The shared list `so_far` is passed in
      and handed back. */
  method GetPackage(lines: seq<string>, pkg: string, moreDeps: seq<string>, soFar: seq<string>)
    returns (packages: seq<Record>, soFarOut: seq<string>)
    ensures (packages, soFarOut) == Resolve(lines, pkg, moreDeps, soFar)
    decreases |(Pool(lines) + Elems(moreDeps)) - Elems(soFar)|, 1
  {
    var block := GetPackageLines(lines, pkg);
    var desc := BuildDescriptor(block, pkg);
    var names := GetDependencies(desc);
    var deps := names + moreDeps;
    assert names == Deps(lines, pkg);
    DepsInPool(lines, pkg);
    assert Elems(deps) <= Pool(lines) + Elems(moreDeps);
    SubsetCard((Pool(lines) + Elems(deps)) - Elems(soFar), (Pool(lines) + Elems(moreDeps)) - Elems(soFar));
    var sub;
    sub, soFarOut := VisitDeps(lines, deps, soFar);
    packages := [Record(pkg, Entry(Source, Repository, desc))] + sub;
  }

  /** The loop over `deps` in `get_package`: a name already in `so_far` is
      skipped; any other is appended to `so_far` and resolved, and its records
      are appended to the result. */
  method VisitDeps(lines: seq<string>, deps: seq<string>, soFar: seq<string>)
    returns (packages: seq<Record>, soFarOut: seq<string>)
    ensures (packages, soFarOut) == ResolveList(lines, deps, soFar)
    decreases |(Pool(lines) + Elems(deps)) - Elems(soFar)|, 0
  {
    ghost var total := ResolveList(lines, deps, soFar);
    packages, soFarOut := [], soFar;
    assert deps[0..] == deps;
    assert packages + total.0 == total.0;
    for i := 0 to |deps|
      invariant soFar <= soFarOut
      invariant total == (packages + ResolveList(lines, deps[i..], soFarOut).0, ResolveList(lines, deps[i..], soFarOut).1)
    {
      var dep := deps[i];
      if dep !in soFarOut {
        ghost var before := soFarOut;
        soFarOut := soFarOut + [dep];
        WalkMeasure(Pool(lines), deps, deps, soFar, soFarOut, i);
        var sub, after := GetPackage(lines, dep, [], soFarOut);
        LoopVisit(lines, deps, i, before, packages, total, sub, after);
        packages := packages + sub;
        soFarOut := after;
      } else {
        LoopSkip(lines, deps, i, soFarOut, packages, total);
      }
    }
    assert deps[|deps|..] == [];
    assert packages + [] == packages;
  }

  /** The loop of `get_package` skips a name already in `so_far`. */
  lemma LoopSkip(lines: seq<string>, deps: seq<string>, i: nat, seen: seq<string>,
                 done: seq<Record>, total: (seq<Record>, seq<string>))
    requires i < |deps| && deps[i] in seen
    requires total == (done + ResolveList(lines, deps[i..], seen).0, ResolveList(lines, deps[i..], seen).1)
    ensures total == (done + ResolveList(lines, deps[i + 1..], seen).0, ResolveList(lines, deps[i + 1..], seen).1)
  {
    ResolveListStep(lines, deps, i, seen);
  }

  /** The loop of `get_package` appends a new name and resolves it. */
  lemma LoopVisit(lines: seq<string>, deps: seq<string>, i: nat, seen: seq<string>,
                  done: seq<Record>, total: (seq<Record>, seq<string>), sub: seq<Record>, after: seq<string>)
    requires i < |deps| && deps[i] !in seen
    requires total == (done + ResolveList(lines, deps[i..], seen).0, ResolveList(lines, deps[i..], seen).1)
    requires (sub, after) == Resolve(lines, deps[i], [], seen + [deps[i]])
    ensures seen + [deps[i]] <= after
    ensures total == ((done + sub) + ResolveList(lines, deps[i + 1..], after).0, ResolveList(lines, deps[i + 1..], after).1)
  {
    ResolveListStep(lines, deps, i, seen);
    AppendAssoc(done, sub, ResolveList(lines, deps[i + 1..], after).0);
  }

  lemma AppendAssoc(a: seq<Record>, b: seq<Record>, c: seq<Record>)
    ensures a + (b + c) == (a + b) + c
  {
  }

  /** One turn of the loop over `deps`, at position `i`. */
  lemma ResolveListStep(lines: seq<string>, deps: seq<string>, i: nat, seen: seq<string>)
    requires i < |deps|
    ensures ResolveList(lines, deps[i..], seen) ==
      if deps[i] in seen then ResolveList(lines, deps[i + 1..], seen)
      else
        var first := Resolve(lines, deps[i], [], seen + [deps[i]]);
        var rest := ResolveList(lines, deps[i + 1..], first.1);
        (first.0 + rest.0, rest.1)
  {
    assert deps[i..][0] == deps[i];
    assert deps[i..][1..] == deps[i + 1..];
  }

  /** The measure of `get_package` goes down on each recursive call. */
  lemma WalkMeasure(pool: set<string>, more: seq<string>, deps: seq<string>,
                    soFar: seq<string>, cur: seq<string>, i: nat)
    requires i < |deps| && Elems(deps) <= pool + Elems(more)
    requires |cur| >= 1 && cur[|cur| - 1] == deps[i] && soFar <= cur[..|cur| - 1]
    requires deps[i] !in cur[..|cur| - 1]
    ensures |(pool + Elems([])) - Elems(cur)| < |(pool + Elems(more)) - Elems(soFar)|
  {
    var dep := deps[i];
    var pre := cur[..|cur| - 1];
    assert cur == pre + [dep];
    PrefixElems(soFar, pre);
    var u := (pool + Elems(more)) - Elems(soFar);
    assert dep in Elems(deps);
    StrictCard((pool + Elems([])) - Elems(cur), u, dep);
  }

  /** The names `get_packages` passes on with its first package. */
  function MoreDeps(pkgs: seq<string>): seq<string> {
    if |pkgs| > 1 then pkgs[1..] else []
  }

  /** What `get_packages(content, pkgs)` returns. */
  function Packages(lines: seq<string>, pkgs: seq<string>): seq<Record> {
    if |pkgs| == 0 then [] else Resolve(lines, pkgs[0], MoreDeps(pkgs), BaseR).0
  }

  /** `get_packages` (app.py:144-167). */
  method GetPackages(lines: seq<string>, pkgs: seq<string>) returns (result: seq<Record>)
    ensures result == Packages(lines, pkgs)
  {
    var soFar := BaseR;
    if |pkgs| == 0 {
      return [];
    }
    var moreDeps: seq<string> := [];
    if |pkgs| > 1 {
      moreDeps := pkgs[1..];
    }
    var after;
    result, after := GetPackage(lines, pkgs[0], moreDeps, soFar);
  }

  /** The result of `get_packages`: empty exactly when no package is asked
      for; the first record is the first package's; every record is the one
      built for its key; the records after the first have distinct keys, none
      of them a base R package; every other requested package and every
      dependency of every record is a base R package or the key of a record
      after the first; and each of those keys is a requested package or a
      dependency of some record. */
  lemma PackagesFacts(lines: seq<string>, pkgs: seq<string>)
    ensures var r := Packages(lines, pkgs);
      && (r == [] <==> pkgs == [])
      && (pkgs != [] ==> r[0] == RecordFor(lines, pkgs[0]))
      && Faithful(lines, r)
      && (forall i, j :: 1 <= i < j < |r| ==> r[i].key != r[j].key)
      && (forall i :: 1 <= i < |r| ==> r[i].key !in BaseR)
      && (pkgs != [] ==> Covered(pkgs[1..], BaseR + Keys(r[1..])))
      && (pkgs != [] ==> Closed(lines, r, BaseR + Keys(r[1..])))
      && (pkgs != [] ==> Explained(lines, r, pkgs[1..], Keys(r[1..])))
  {
    if pkgs != [] {
      assert MoreDeps(pkgs) == pkgs[1..];
      ResolveFacts(lines, pkgs[0], pkgs[1..], BaseR);
      var res := Resolve(lines, pkgs[0], pkgs[1..], BaseR);
      FreshKeys(BaseR, res.1, res.0[1..]);
      assert Covered(pkgs[1..], res.1) by {
        forall n | n in pkgs[1..] ensures n in res.1 {
          assert n in Deps(lines, pkgs[0]) + pkgs[1..];
        }
      }
      forall i, j | 1 <= i < j < |res.0| ensures res.0[i].key != res.0[j].key {
        assert res.0[1..][i - 1] == res.0[i] && res.0[1..][j - 1] == res.0[j];
      }
      forall i | 1 <= i < |res.0| ensures res.0[i].key !in BaseR {
        assert res.0[1..][i - 1] == res.0[i];
      }
    }
  }

  /** The records after the first have distinct keys that were not in `seen`,
      and `after` is `seen` followed by those keys. */
  lemma FreshKeys(seen: seq<string>, after: seq<string>, rs: seq<Record>)
    requires Extends(seen, after) && Keys(rs) == after[|seen|..]
    ensures forall i, j :: 0 <= i < j < |rs| ==> rs[i].key != rs[j].key
    ensures forall i :: 0 <= i < |rs| ==> rs[i].key !in seen
    ensures after == seen + Keys(rs)
  {
    assert after == after[..|seen|] + after[|seen|..];
    forall i, j | 0 <= i < j < |rs| ensures rs[i].key != rs[j].key && rs[j].key !in seen {
      assert Keys(rs)[i] == rs[i].key && Keys(rs)[j] == rs[j].key;
      var prefix := after[..|seen| + j];
      assert prefix[|seen| + i] == rs[i].key;
      assert prefix[..|seen|] == seen;
    }
    forall i | 0 <= i < |rs| ensures rs[i].key !in seen {
      assert Keys(rs)[i] == rs[i].key;
      assert after[..|seen| + i][..|seen|] == seen;
    }
  }

  /** `get_packages` never puts its first package in `so_far`, so that package
      is resolved a second time when it is needed again: when it is not a base
      R package and it is also among the other requested packages or among its
      own dependencies, a record after the first has its key too. */
  lemma FirstPackageRevisited(lines: seq<string>, pkgs: seq<string>)
    requires pkgs != [] && pkgs[0] !in BaseR
    requires pkgs[0] in pkgs[1..] || pkgs[0] in Deps(lines, pkgs[0])
    ensures var r := Packages(lines, pkgs);
      r[0].key == pkgs[0] && exists i :: 1 <= i < |r| && r[i].key == pkgs[0]
  {
    PackagesFacts(lines, pkgs);
    var r := Packages(lines, pkgs);
    assert Closed(lines, r, BaseR + Keys(r[1..]));
    assert Covered(Deps(lines, r[0].key), BaseR + Keys(r[1..]));
    assert pkgs[0] in Keys(r[1..]);
    var i :| 0 <= i < |Keys(r[1..])| && Keys(r[1..])[i] == pkgs[0];
    assert r[1..][i] == r[i + 1];
  }

  /** A package that has no block in the index still gets a record, with
      only `Package` and `Type` in its descriptor and no dependencies. */
  lemma MissingPackage(lines: seq<string>, pkg: string)
    requires forall j :: 0 <= j < |lines| ==> !StartsWith(lines[j], HeaderPrefix(pkg))
    ensures DescriptorOf(lines, pkg) == map[Package := pkg, Type := PackageType]
    ensures Deps(lines, pkg) == []
  {
    assert Block(lines, pkg) == [];
  }

  /** A package's dependencies are among the names of `Pool`. */
  lemma DepsInPool(lines: seq<string>, pkg: string)
    ensures Elems(Deps(lines, pkg)) <= Pool(lines)
  {
    var s := BlockStart(lines, pkg);
    var b := BlockAt(lines, s);
    DescribeRenames(b, "", pkg);
    assert Tokens(Describe(b, pkg)) == Tokens(Describe(b, ""));
    forall n | n in Deps(lines, pkg) ensures n in Pool(lines) {
      assert n in Dependencies(Describe(BlockAt(lines, s), ""));
    }
  }

  lemma SubsetCard(a: set<string>, b: set<string>)
    requires a <= b
    ensures |a| <= |b|
  {
    assert b == a + (b - a);
  }

  lemma PrefixElems(a: seq<string>, b: seq<string>)
    requires a <= b
    ensures Elems(a) <= Elems(b)
  {
    forall x | x in a ensures x in b {
      var i :| 0 <= i < |a| && a[i] == x;
      assert b[i] == x;
    }
  }
}
