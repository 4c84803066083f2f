/** The deployment manifest built from the resolver's records (app.py:70-92):
    the packages map made from the records, inside a fixed document whose
    other fields are constants. Its JSON rendering is not modelled. */
module Manifests {
  import opened Wrappers
  import opened Descriptors
  import opened Resolver

  /** The packages the app always asks for (app.py:70). */
  const AppPackages: seq<string> := ["tidyverse", "shiny", "bslib", "DT", "duckdb"]

  /** `{e["key"]: e["value"] for e in p}`: one entry per key, and when a key
      occurs more than once the last record wins. */
  function PackagesMap(rs: seq<Record>): (m: map<string, Entry>)
    ensures forall k :: k in m <==> k in Keys(rs)
  {
    if rs == [] then map[]
    else
      var init := rs[..|rs| - 1];
      var m := PackagesMap(init)[rs[|rs| - 1].key := rs[|rs| - 1].value];
      KeysAppend(init, [rs[|rs| - 1]]);
      assert init + [rs[|rs| - 1]] == rs;
      assert Keys([rs[|rs| - 1]]) == [rs[|rs| - 1].key];
      assert Keys(rs) == Keys(init) + [rs[|rs| - 1].key];
      m
  }

  /** The entry of a key is the value of the last record with that key. */
  lemma {:induction false} LastRecordWins(rs: seq<Record>, i: nat)
    requires i < |rs|
    requires forall j :: i < j < |rs| ==> rs[j].key != rs[i].key
    ensures rs[i].key in PackagesMap(rs) && PackagesMap(rs)[rs[i].key] == rs[i].value
    decreases |rs|
  {
    if i < |rs| - 1 {
      var init := rs[..|rs| - 1];
      LastRecordWins(init, i);
    }
  }

  /** Records with distinct keys give a map with one entry per record. */
  lemma {:induction false} DistinctKeysSize(rs: seq<Record>)
    requires forall i, j :: 0 <= i < j < |rs| ==> rs[i].key != rs[j].key
    ensures |PackagesMap(rs)| == |rs|
    decreases |rs|
  {
    if rs != [] {
      var init := rs[..|rs| - 1];
      DistinctKeysSize(init);
      var last := rs[|rs| - 1];
      assert last.key !in Keys(init) by {
        forall k | 0 <= k < |init| ensures Keys(init)[k] != last.key {
          assert init[k] == rs[k];
        }
      }
    }
  }

  /** When every record is the one built for its key, so is every entry. */
  lemma {:induction false} FaithfulMap(lines: seq<string>, rs: seq<Record>)
    requires Faithful(lines, rs)
    ensures forall k :: k in PackagesMap(rs) ==> PackagesMap(rs)[k] == RecordFor(lines, k).value
    decreases |rs|
  {
    if rs != [] {
      var init := rs[..|rs| - 1];
      assert Faithful(lines, init) by {
        forall i | 0 <= i < |init| ensures init[i] == RecordFor(lines, init[i].key) {
          assert init[i] == rs[i];
        }
      }
      FaithfulMap(lines, init);
    }
  }

  /** The `metadata` object of the manifest. */
  datatype Metadata = Metadata(
    appmode: string,
    primaryRmd: Option<string>,
    primaryHtml: Option<string>,
    contentCategory: Option<string>,
    hasParameters: bool)

  /** The manifest document; `files` maps each file to its checksum and `users` is always null. */
  datatype Manifest = Manifest(
    version: int,
    locale: string,
    platform: string,
    metadata: Metadata,
    packages: map<string, Entry>,
    files: map<string, string>,
    users: Option<string>)

  const AppChecksum := "0000000000000000000000000000000"

  /** The manifest `manifest_output` builds before serialising it. */
  function ManifestOf(lines: seq<string>): Manifest {
    Manifest(
      1, "C", "4.4.1",
      Metadata("shiny", None, None, None, false),
      PackagesMap(Packages(lines, AppPackages)),
      map["app.R" := AppChecksum],
      None)
  }

  /** The manifest lists each package the app asks for and every package the
      walk reached; each entry is the record built for its key, so the
      repeated first package collapses into one entry; and it lists nothing else. */
  lemma ManifestPackages(lines: seq<string>)
    ensures var m := ManifestOf(lines).packages;
      && (forall p :: p in AppPackages ==> p in m)
      && (forall k :: k in m ==> m[k] == RecordFor(lines, k).value)
      && (forall k :: k in m <==> k in Keys(Packages(lines, AppPackages)))
  {
    var r := Packages(lines, AppPackages);
    PackagesFacts(lines, AppPackages);
    FaithfulMap(lines, r);
    AppPackagesReached(lines);
  }

  lemma AppPackagesReached(lines: seq<string>)
    ensures forall p :: p in AppPackages ==> p in Keys(Packages(lines, AppPackages))
  {
    var r := Packages(lines, AppPackages);
    PackagesFacts(lines, AppPackages);
    NotBase();
    RequestedReached(AppPackages, r);
  }

  /** When the first record is the first package's and every other package
      is covered by the later keys without being base R, every package is a key. */
  lemma RequestedReached(pkgs: seq<string>, r: seq<Record>)
    requires pkgs != [] && r != [] && r[0].key == pkgs[0]
    requires Covered(pkgs[1..], BaseR + Keys(r[1..]))
    requires forall p :: p in pkgs[1..] ==> p !in BaseR
    ensures forall p :: p in pkgs ==> p in Keys(r)
  {
    assert Keys(r) == [r[0].key] + Keys(r[1..]) by {
      assert r == [r[0]] + r[1..];
      KeysAppend([r[0]], r[1..]);
    }
    forall p | p in pkgs ensures p in Keys(r) {
      if p != pkgs[0] {
        assert p in pkgs[1..];
        assert p in BaseR + Keys(r[1..]);
      }
    }
  }

  /** None of the other packages the app asks for is a base R package. */
  lemma NotBase()
    ensures forall p :: p in AppPackages[1..] ==> p !in BaseR
  {
    assert AppPackages[1..] == ["shiny", "bslib", "DT", "duckdb"];
  }
}
