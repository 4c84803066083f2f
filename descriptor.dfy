/** Building a package descriptor from the lines of its block (app.py:170-203).

    The descriptor is the dictionary the source builds: `Package` and `Type`
    always, then the fields whose header lines appear. `Version`, `License` and
    `NeedsCompilation` take the rest of their header line. `Depends`, `Imports`,
    `LinkingTo` and `Suggests` are multi-value fields: their header opens a
    pending value (`last_key`/`last_value`) that each following line starting
    with a space extends, and that the next line not starting with a space
    stores. A value still pending when the block ends is never stored. */
module Descriptors {
  import opened Wrappers
  import opened Text

  /** The keys a descriptor can have, one per dictionary key the source uses. */
  datatype Key = Package | Type | Version | License | NeedsCompilation
               | Depends | Imports | LinkingTo | Suggests
  {
    /** The key as it is spelled in the dictionary and in the index. */
    function Name(): string {
      match this
      case Package => "Package"
      case Type => "Type"
      case Version => "Version"
      case License => "License"
      case NeedsCompilation => "NeedsCompilation"
      case Depends => "Depends"
      case Imports => "Imports"
      case LinkingTo => "LinkingTo"
      case Suggests => "Suggests"
    }

    /** A field that takes the rest of its header line. */
    predicate IsSingle() {
      Version? || License? || NeedsCompilation?
    }

    /** A field whose value may continue on the following lines. */
    predicate IsMulti() {
      Depends? || Imports? || LinkingTo? || Suggests?
    }

    /** A field read from the block, as opposed to `Package` and `Type`. */
    predicate IsField() {
      IsSingle() || IsMulti()
    }
  }

  type Descriptor = map<Key, string>

  const PackageType := "package"

  /** The header that starts a field's line, e.g. "Depends: ". */
  function Header(key: Key): string {
    key.Name() + ": "
  }

  function Get(d: Descriptor, k: Key): Option<string> {
    if k in d then Some(d[k]) else None
  }

  /** The descriptor before any line is read (app.py:170-174). */
  function Initial(pkg: string): Descriptor {
    map[Package := pkg, Type := PackageType]
  }

  /** The multi-value field being read, if any: `last_key` and `last_value`.
      While `last_key` is None the source's `last_value` is never stored, so
      `NoField` carries no text. */
  datatype Pending = NoField | Open(key: Key, value: string)

  /** The state of the line scan: the descriptor so far and the pending field. */
  datatype Scan = Scan(desc: Descriptor, pending: Pending)

  /** The descriptor with the pending field, if any, stored (app.py:182-183). */
  function Commit(st: Scan): Descriptor {
    match st.pending
    case NoField => st.desc
    case Open(k, v) => st.desc[k := v]
  }

  /** A continuation line extends the pending value; any other line stores it
      and clears it (app.py:179-185). */
  function Continue(st: Scan, line: string): Scan {
    if StartsWith(line, " ") then
      match st.pending
      case NoField => st
      case Open(k, v) => Scan(st.desc, Open(k, v + "\n" + Strip(line)))
    else Scan(Commit(st), NoField)
  }

  /** The fields the loop body tests for, in the order of its tests
      (app.py:186-203). */
  const Fields: seq<Key> := [Version, License, Depends, Imports, LinkingTo, Suggests, NeedsCompilation]

  /** One header test: a single-value header stores the rest of the line at
      once, a multi-value header opens a pending value with it. */
  function Test(st: Scan, line: string, key: Key): Scan {
    if !StartsWith(line, Header(key)) then st
    else if key.IsMulti() then Scan(st.desc, Open(key, AfterSeparator(line)))
    else Scan(st.desc[key := AfterSeparator(line)], st.pending)
  }

  /** The header tests for `keys`, one after the other. */
  function Tests(st: Scan, line: string, keys: seq<Key>): Scan
    decreases |keys|
  {
    if keys == [] then st else Tests(Test(st, line, keys[0]), line, keys[1..])
  }

  /** One iteration of the loop at app.py:178-203: the continuation test,
      then the header tests in the source's order. */
  function Step(st: Scan, line: string): Scan {
    Tests(Continue(st, line), line, Fields)
  }

  /** The scan over a sequence of lines. */
  function Run(lines: seq<string>, st: Scan): Scan
    decreases |lines|
  {
    if lines == [] then st else Run(lines[1..], Step(st, lines[0]))
  }

  /** A scan state that can arise while describing `pkg`. */
  predicate WellFormed(st: Scan, pkg: string) {
    && Get(st.desc, Package) == Some(pkg)
    && Get(st.desc, Type) == Some(PackageType)
    && (forall k :: k in st.desc ==> k == Package || k == Type || k.IsField())
    && (st.pending.Open? ==> st.pending.key.IsMulti())
  }

  lemma {:induction false} RunWellFormed(lines: seq<string>, st: Scan, pkg: string)
    requires WellFormed(st, pkg)
    ensures WellFormed(Run(lines, st), pkg)
    decreases |lines|
  {
    if lines != [] {
      StepWellFormed(st, lines[0], pkg);
      RunWellFormed(lines[1..], Step(st, lines[0]), pkg);
    }
  }

  /** The descriptor of a package whose block is `block`: the scan's final
      descriptor, without the value still pending at the end. */
  function Describe(block: seq<string>, pkg: string): (d: Descriptor)
    ensures Get(d, Package) == Some(pkg) && Get(d, Type) == Some(PackageType)
    ensures forall k :: k in d ==> k == Package || k == Type || k.IsField()
  {
    RunWellFormed(block, Scan(Initial(pkg), NoField), pkg);
    Run(block, Scan(Initial(pkg), NoField)).desc
  }

  /** The descriptor loop of `get_package` (app.py:170-203). */
  method BuildDescriptor(block: seq<string>, pkg: string) returns (desc: Descriptor)
    ensures desc == Describe(block, pkg)
  {
    desc := map[Package := pkg, Type := PackageType];
    var lastKey: Option<Key> := None;
    var lastValue := "";
    for i := 0 to |block|
      invariant Run(block[..i], Scan(Initial(pkg), NoField)) == Scan(desc, PendingOf(lastKey, lastValue))
    {
      var line := block[i];
      RunPrefix(block, i, Scan(Initial(pkg), NoField));
      desc, lastKey, lastValue := ScanLine(desc, lastKey, lastValue, line);
    }
    assert block[..|block|] == block;
  }

  /** The body of the loop over the block: the continuation test, then the
      seven header tests in the order of the source. */
  method ScanLine(desc0: Descriptor, lastKey0: Option<Key>, lastValue0: string, line: string)
    returns (desc: Descriptor, lastKey: Option<Key>, lastValue: string)
    ensures Scan(desc, PendingOf(lastKey, lastValue)) == Step(Scan(desc0, PendingOf(lastKey0, lastValue0)), line)
  {
    desc, lastKey, lastValue := desc0, lastKey0, lastValue0;
    if StartsWith(line, " ") {
      lastValue := lastValue + "\n" + Strip(line);
    } else {
      if lastKey.Some? {
        desc := desc[lastKey.value := lastValue];
      }
      lastKey := None;
      lastValue := "";
    }
    desc, lastKey, lastValue := TestLine(desc, lastKey, lastValue, line);
  }

  /** The seven header tests of one line, in the order of the source. */
  method TestLine(desc0: Descriptor, lastKey0: Option<Key>, lastValue0: string, line: string)
    returns (desc: Descriptor, lastKey: Option<Key>, lastValue: string)
    ensures Scan(desc, PendingOf(lastKey, lastValue)) == Tests(Scan(desc0, PendingOf(lastKey0, lastValue0)), line, Fields)
  {
    desc, lastKey, lastValue := desc0, lastKey0, lastValue0;
    ghost var s0 := Scan(desc, PendingOf(lastKey, lastValue));
    if StartsWith(line, Header(Version)) {
      desc := desc[Version := AfterSeparator(line)];
    }
    ghost var s1 := Scan(desc, PendingOf(lastKey, lastValue));
    if StartsWith(line, Header(License)) {
      desc := desc[License := AfterSeparator(line)];
    }
    ghost var s2 := Scan(desc, PendingOf(lastKey, lastValue));
    if StartsWith(line, Header(Depends)) {
      lastKey, lastValue := Some(Depends), AfterSeparator(line);
    }
    ghost var s3 := Scan(desc, PendingOf(lastKey, lastValue));
    if StartsWith(line, Header(Imports)) {
      lastKey, lastValue := Some(Imports), AfterSeparator(line);
    }
    ghost var s4 := Scan(desc, PendingOf(lastKey, lastValue));
    if StartsWith(line, Header(LinkingTo)) {
      lastKey, lastValue := Some(LinkingTo), AfterSeparator(line);
    }
    ghost var s5 := Scan(desc, PendingOf(lastKey, lastValue));
    if StartsWith(line, Header(Suggests)) {
      lastKey, lastValue := Some(Suggests), AfterSeparator(line);
    }
    ghost var s6 := Scan(desc, PendingOf(lastKey, lastValue));
    if StartsWith(line, Header(NeedsCompilation)) {
      desc := desc[NeedsCompilation := AfterSeparator(line)];
    }
    assert s1 == Test(s0, line, Version) && s2 == Test(s1, line, License);
    assert s3 == Test(s2, line, Depends) && s4 == Test(s3, line, Imports);
    assert s5 == Test(s4, line, LinkingTo) && s6 == Test(s5, line, Suggests);
    assert Scan(desc, PendingOf(lastKey, lastValue)) == Test(s6, line, NeedsCompilation);
    TestsInOrder(s0, line);
  }

  function PendingOf(lastKey: Option<Key>, lastValue: string): Pending {
    match lastKey
    case None => NoField
    case Some(k) => Open(k, lastValue)
  }

  lemma {:induction false} RunAppend(a: seq<string>, b: seq<string>, st: Scan)
    ensures Run(a + b, st) == Run(b, Run(a, st))
    decreases |a|
  {
    if a == [] {
      assert a + b == b;
    } else {
      assert (a + b)[1..] == a[1..] + b;
      RunAppend(a[1..], b, Step(st, a[0]));
    }
  }

  lemma RunSnoc(a: seq<string>, line: string, st: Scan)
    ensures Run(a + [line], st) == Step(Run(a, st), line)
  {
    RunAppend(a, [line], st);
  }

  /** One more line of a block, in terms of its prefixes. */
  lemma RunPrefix(block: seq<string>, i: nat, st: Scan)
    requires i < |block|
    ensures Run(block[..i + 1], st) == Step(Run(block[..i], st), block[i])
  {
    assert block[..i + 1] == block[..i] + [block[i]];
    RunSnoc(block[..i], block[i], st);
  }

  /** The header tests of one step, written out in the source's order. */
  lemma TestsInOrder(st: Scan, line: string)
    ensures Tests(st, line, Fields)
         == Test(Test(Test(Test(Test(Test(Test(st, line, Version), line, License), line, Depends),
              line, Imports), line, LinkingTo), line, Suggests), line, NeedsCompilation)
  {
    var s1 := Test(st, line, Version);
    var s2 := Test(s1, line, License);
    var s3 := Test(s2, line, Depends);
    var s4 := Test(s3, line, Imports);
    var s5 := Test(s4, line, LinkingTo);
    var s6 := Test(s5, line, Suggests);
    var s7 := Test(s6, line, NeedsCompilation);
    assert Fields[1..] == [License, Depends, Imports, LinkingTo, Suggests, NeedsCompilation];
    assert Fields[2..] == [Depends, Imports, LinkingTo, Suggests, NeedsCompilation];
    assert Fields[3..] == [Imports, LinkingTo, Suggests, NeedsCompilation];
    assert Fields[4..] == [LinkingTo, Suggests, NeedsCompilation];
    assert Fields[5..] == [Suggests, NeedsCompilation];
    assert Fields[6..] == [NeedsCompilation];
    assert Tests(s7, line, []) == s7;
    assert Tests(s6, line, Fields[6..]) == s7;
    assert Tests(s5, line, Fields[5..]) == s7;
    assert Tests(s4, line, Fields[4..]) == s7;
    assert Tests(s3, line, Fields[3..]) == s7;
    assert Tests(s2, line, Fields[2..]) == s7;
    assert Tests(s1, line, Fields[1..]) == s7;
  }

  /** Tests whose headers the line does not carry leave the state alone. */
  lemma {:induction false} TestsMiss(st: Scan, line: string, keys: seq<Key>)
    requires forall j :: 0 <= j < |keys| ==> !StartsWith(line, Header(keys[j]))
    ensures Tests(st, line, keys) == st
    decreases |keys|
  {
    if keys != [] {
      TestsMiss(st, line, keys[1..]);
    }
  }

  /** When the line carries only the header of `keys[i]`, the tests for `keys`
      do what that one test does. */
  lemma {:induction false} TestsHit(st: Scan, line: string, keys: seq<Key>, i: nat)
    requires i < |keys| && StartsWith(line, Header(keys[i]))
    requires forall j :: 0 <= j < |keys| && j != i ==> !StartsWith(line, Header(keys[j]))
    ensures Tests(st, line, keys) == Test(st, line, keys[i])
    decreases |keys|
  {
    var rest := keys[1..];
    forall j | 0 <= j < |rest| ensures rest[j] == keys[j + 1] {
    }
    if i == 0 {
      TestsMiss(Test(st, line, keys[0]), line, rest);
    } else {
      TestsHit(st, line, rest, i - 1);
    }
  }

  // ----- Which header a line carries -----

  /** No two field headers start the same line, and no header starts a
      continuation line. */
  lemma HeadersExclusive(line: string, a: Key, b: Key)
    requires a.IsField() && b.IsField() && a != b
    ensures !(StartsWith(line, Header(a)) && StartsWith(line, Header(b)))
  {
    var i := if (a == License && b == LinkingTo) || (a == LinkingTo && b == License) then 2 else 0;
    PrefixesExclusive(line, Header(a), Header(b), i);
  }

  lemma HeaderIsNotContinuation(line: string, key: Key)
    requires key.IsField()
    ensures !(StartsWith(line, " ") && StartsWith(line, Header(key)))
  {
    PrefixesExclusive(line, " ", Header(key), 0);
  }

  lemma KeyHasNoColon(key: Key)
    requires key.IsField()
    ensures ':' !in key.Name()
  {
  }

  /** A line carrying a field header stores the pending field, then stores
      the line's value (a single-value field) or opens a pending value with it
      (a multi-value field). */
  lemma StepHeader(st: Scan, line: string, key: Key)
    requires key.IsField() && StartsWith(line, Header(key))
    ensures Step(st, line) == Test(Scan(Commit(st), NoField), line, key)
  {
    HeaderIsNotContinuation(line, key);
    var i: int := match key
      case Version => 0 case License => 1 case Depends => 2 case Imports => 3
      case LinkingTo => 4 case Suggests => 5 case _ => 6;
    assert 0 <= i < |Fields|;
    assert Fields[i] == key;
    forall j | 0 <= j < |Fields| && j != i ensures !StartsWith(line, Header(Fields[j])) {
      HeadersExclusive(line, key, Fields[j]);
    }
    TestsHit(Continue(st, line), line, Fields, i);
  }

  /** A line carrying no field header only extends or stores the pending field. */
  lemma StepPlain(st: Scan, line: string)
    requires forall k: Key :: k.IsField() ==> !StartsWith(line, Header(k))
    ensures Step(st, line) == Continue(st, line)
  {
    TestsMiss(Continue(st, line), line, Fields);
  }

  /** The step for a line that carries the header of `h`, or no header when
      `h` is None. */
  function StepBy(st: Scan, line: string, h: Option<Key>): Scan {
    match h
    case None => Continue(st, line)
    case Some(k) => Test(Scan(Commit(st), NoField), line, k)
  }

  /** The header a line carries, if any. */
  predicate Carries(line: string, h: Option<Key>) {
    match h
    case None => forall k: Key :: k.IsField() ==> !StartsWith(line, Header(k))
    case Some(k) => k.IsField() && StartsWith(line, Header(k))
  }

  lemma StepIsStepBy(st: Scan, line: string, h: Option<Key>)
    requires Carries(line, h)
    ensures Step(st, line) == StepBy(st, line, h)
  {
    match h
    case None => StepPlain(st, line);
    case Some(k) => StepHeader(st, line, k);
  }

  /** The step of every line is one of the two cases above. */
  lemma StepCase(st: Scan, line: string) returns (h: Option<Key>)
    ensures Carries(line, h)
    ensures Step(st, line) == StepBy(st, line, h)
  {
    if k: Key :| k.IsField() && StartsWith(line, Header(k)) {
      h := Some(k);
    } else {
      h := None;
    }
    StepIsStepBy(st, line, h);
  }

  /** A multi-value header opens its field. */
  lemma StepOpens(st: Scan, line: string, key: Key)
    requires key.IsMulti() && StartsWith(line, Header(key))
    ensures Step(st, line) == Scan(Commit(st), Open(key, AfterSeparator(line)))
  {
    StepHeader(st, line, key);
  }

  /** A continuation line only extends the pending value. */
  lemma StepContinues(st: Scan, line: string)
    requires StartsWith(line, " ")
    ensures Step(st, line) == Continue(st, line)
  {
    forall k: Key | k.IsField() ensures !StartsWith(line, Header(k)) {
      HeaderIsNotContinuation(line, k);
    }
    StepPlain(st, line);
  }

  lemma StepWellFormed(st: Scan, line: string, pkg: string)
    requires WellFormed(st, pkg)
    ensures WellFormed(Step(st, line), pkg)
  {
    var h := StepCase(st, line);
    StepByWellFormed(st, line, pkg, h);
  }

  lemma StepByWellFormed(st: Scan, line: string, pkg: string, h: Option<Key>)
    requires WellFormed(st, pkg) && Carries(line, h)
    ensures WellFormed(StepBy(st, line, h), pkg)
  {
    assert WellFormed(Scan(Commit(st), NoField), pkg);
  }

  /** Everything that a scan step does to the descriptor's entry for `key`
      when the line does not carry `key`'s header and the pending field is not
      `key`'s: it leaves both alone. */
  lemma StepKeepsKey(st: Scan, line: string, key: Key)
    requires key.IsMulti() && !StartsWith(line, Header(key))
    requires st.pending.Open? ==> st.pending.key != key
    ensures Get(Step(st, line).desc, key) == Get(st.desc, key)
    ensures Step(st, line).pending.Open? ==> Step(st, line).pending.key != key
  {
    var h := StepCase(st, line);
    StepByKeepsKey(st, line, key, h);
  }

  lemma StepByKeepsKey(st: Scan, line: string, key: Key, h: Option<Key>)
    requires Carries(line, h) && !StartsWith(line, Header(key))
    requires st.pending.Open? ==> st.pending.key != key
    ensures Get(StepBy(st, line, h).desc, key) == Get(st.desc, key)
    ensures StepBy(st, line, h).pending.Open? ==> StepBy(st, line, h).pending.key != key
  {
  }

  lemma {:induction false} RunKeepsKey(lines: seq<string>, st: Scan, key: Key)
    requires key.IsMulti()
    requires forall i :: 0 <= i < |lines| ==> !StartsWith(lines[i], Header(key))
    requires st.pending.Open? ==> st.pending.key != key
    ensures Get(Run(lines, st).desc, key) == Get(st.desc, key)
    ensures Run(lines, st).pending.Open? ==> Run(lines, st).pending.key != key
    decreases |lines|
  {
    if lines != [] {
      StepKeepsKey(st, lines[0], key);
      RunKeepsKey(lines[1..], Step(st, lines[0]), key);
    }
  }

  // ----- Single-value fields -----

  /** The last line that carries `key`'s header, or -1. */
  function LastHeader(lines: seq<string>, key: Key): (i: int)
    ensures -1 <= i < |lines|
    ensures i >= 0 ==> StartsWith(lines[i], Header(key))
    ensures forall j :: i < j < |lines| ==> !StartsWith(lines[j], Header(key))
  {
    LastStarting(lines, Header(key))
  }

  /** The last line that starts with `p`, or -1. */
  function LastStarting(lines: seq<string>, p: string): (i: int)
    ensures -1 <= i < |lines|
    ensures i >= 0 ==> StartsWith(lines[i], p)
    ensures forall j :: i < j < |lines| ==> !StartsWith(lines[j], p)
  {
    if lines == [] then -1
    else if StartsWith(lines[|lines| - 1], p) then |lines| - 1
    else LastStarting(lines[..|lines| - 1], p)
  }

  lemma StepSingle(st: Scan, line: string, key: Key)
    requires key.IsSingle()
    requires st.pending.Open? ==> st.pending.key.IsMulti()
    ensures Get(Step(st, line).desc, key)
         == if StartsWith(line, Header(key)) then Some(AfterSeparator(line)) else Get(st.desc, key)
    ensures Step(st, line).pending.Open? ==> Step(st, line).pending.key.IsMulti()
  {
    var h := StepCase(st, line);
    StepBySingle(st, line, key, h);
  }

  lemma StepBySingle(st: Scan, line: string, key: Key, h: Option<Key>)
    requires key.IsSingle() && Carries(line, h)
    requires st.pending.Open? ==> st.pending.key.IsMulti()
    ensures Get(StepBy(st, line, h).desc, key)
         == if StartsWith(line, Header(key)) then Some(AfterSeparator(line)) else Get(st.desc, key)
    ensures StepBy(st, line, h).pending.Open? ==> StepBy(st, line, h).pending.key.IsMulti()
  {
    if h.Some? && h.value != key {
      HeadersExclusive(line, h.value, key);
    }
  }

  lemma {:induction false} RunSingle(lines: seq<string>, st: Scan, key: Key)
    requires key.IsSingle()
    requires st.pending.Open? ==> st.pending.key.IsMulti()
    ensures Get(Run(lines, st).desc, key)
         == if LastHeader(lines, key) < 0 then Get(st.desc, key)
            else Some(AfterSeparator(lines[LastHeader(lines, key)]))
    ensures Run(lines, st).pending.Open? ==> Run(lines, st).pending.key.IsMulti()
    decreases |lines|
  {
    if lines != [] {
      var init, last := lines[..|lines| - 1], lines[|lines| - 1];
      assert lines == init + [last];
      RunSingle(init, st, key);
      RunSnoc(init, last, st);
      StepSingle(Run(init, st), last, key);
    }
  }

  /** A single-value field is present exactly when some line of the block
      starts with its header, and then holds the text after ": " on the last
      such line: a later occurrence overwrites an earlier one. */
  lemma SingleField(block: seq<string>, pkg: string, key: Key)
    requires key.IsSingle()
    ensures var i := LastHeader(block, key);
            Get(Describe(block, pkg), key) == if i < 0 then None else Some(block[i][|Header(key)|..])
  {
    var i := LastHeader(block, key);
    DescribeSingle(block, pkg, key);
    if i >= 0 {
      HeaderRest(block[i], key);
    }
  }

  /** `SingleField` with the value left as `split(": ", 1)[1]`. */
  lemma DescribeSingle(block: seq<string>, pkg: string, key: Key)
    requires key.IsSingle()
    ensures var i := LastHeader(block, key);
            Get(Describe(block, pkg), key) == if i < 0 then None else Some(AfterSeparator(block[i]))
  {
    RunSingle(block, Scan(Initial(pkg), NoField), key);
  }

  /** What `split(": ", 1)[1]` gives on a line with a field header. */
  lemma HeaderRest(line: string, key: Key)
    requires key.IsField() && StartsWith(line, Header(key))
    ensures |Header(key)| <= |line| && AfterSeparator(line) == line[|Header(key)|..]
  {
    KeyHasNoColon(key);
    HeaderValue(line, key.Name());
  }

  // ----- Multi-value fields -----

  predicate AllContinuations(lines: seq<string>) {
    forall i :: 0 <= i < |lines| ==> StartsWith(lines[i], " ")
  }

  /** What continuation lines add to a multi-value field: each line stripped,
      after a newline. */
  function ContinuationText(lines: seq<string>): string {
    if lines == [] then "" else ("\n" + Strip(lines[0])) + ContinuationText(lines[1..])
  }

  lemma {:induction false} RunContinuations(conts: seq<string>, d: Descriptor, key: Key, v: string)
    requires AllContinuations(conts)
    ensures Run(conts, Scan(d, Open(key, v))) == Scan(d, Open(key, v + ContinuationText(conts)))
    decreases |conts|
  {
    if conts == [] {
      assert v + ContinuationText(conts) == v;
    } else {
      var line, rest := conts[0], conts[1..];
      var more := "\n" + Strip(line);
      StepExtends(d, key, v, line);
      RunContinuations(rest, d, key, v + more);
      StringAssoc(v, more, ContinuationText(rest));
    }
  }

  /** A continuation line appends its stripped text to the pending value. */
  lemma StepExtends(d: Descriptor, key: Key, v: string, line: string)
    requires StartsWith(line, " ")
    ensures Step(Scan(d, Open(key, v)), line) == Scan(d, Open(key, v + ("\n" + Strip(line))))
  {
    StepContinues(Scan(d, Open(key, v)), line);
    StringAssoc(v, "\n", Strip(line));
  }

  lemma StringAssoc(a: string, b: string, c: string)
    ensures (a + b) + c == a + (b + c)
  {
  }

  /** A line that neither continues the pending field nor carries its header
      stores it, and no later state has it pending. */
  lemma StepStores(st: Scan, line: string, key: Key)
    requires st.pending.Open? && st.pending.key == key
    requires !StartsWith(line, " ") && !StartsWith(line, Header(key))
    ensures Get(Step(st, line).desc, key) == Some(st.pending.value)
    ensures Step(st, line).pending.Open? ==> Step(st, line).pending.key != key
  {
    var h := StepCase(st, line);
    StepByStores(st, line, key, h);
  }

  lemma StepByStores(st: Scan, line: string, key: Key, h: Option<Key>)
    requires Carries(line, h)
    requires st.pending.Open? && st.pending.key == key
    requires !StartsWith(line, " ") && !StartsWith(line, Header(key))
    ensures Get(StepBy(st, line, h).desc, key) == Some(st.pending.value)
    ensures StepBy(st, line, h).pending.Open? ==> StepBy(st, line, h).pending.key != key
  {
  }

  /** A value followed by its continuation lines and then by a line that does
      not start with a space is stored, and keeps its value as long as no later
      line carries the same header. */
  lemma MultiFieldCommitted(pre: seq<string>, h: string, conts: seq<string>, t: string,
                            post: seq<string>, pkg: string, key: Key)
    requires key.IsMulti() && StartsWith(h, Header(key))
    requires AllContinuations(conts) && !StartsWith(t, " ")
    requires !StartsWith(t, Header(key))
    requires forall i :: 0 <= i < |post| ==> !StartsWith(post[i], Header(key))
    ensures |Header(key)| <= |h|
    ensures Get(Describe(pre + [h] + conts + [t] + post, pkg), key)
         == Some(h[|Header(key)|..] + ContinuationText(conts))
  {
    var st0 := Scan(Initial(pkg), NoField);
    var st1 := Run(pre, st0);
    var v := AfterSeparator(h);
    StepOpens(st1, h, key);
    RunContinuations(conts, Commit(st1), key, v);
    var st2 := Scan(Commit(st1), Open(key, v + ContinuationText(conts)));
    assert Run(pre + [h] + conts, st0) == st2 by {
      RunAppend(pre + [h], conts, st0);
      RunSnoc(pre, h, st0);
    }
    var st3 := Step(st2, t);
    StepStores(st2, t, key);
    RunKeepsKey(post, st3, key);
    assert pre + [h] + conts + [t] + post == (pre + [h] + conts + [t]) + post;
    RunAppend(pre + [h] + conts + [t], post, st0);
    RunSnoc(pre + [h] + conts, t, st0);
    KeyHasNoColon(key);
    HeaderValue(h, key.Name());
  }

  /** A multi-value field still open when the block ends is dropped: the
      descriptor is the one the block would give had it ended with a blank
      line where the field's header is. */
  lemma MultiFieldDropped(pre: seq<string>, h: string, conts: seq<string>, pkg: string, key: Key)
    requires key.IsMulti() && StartsWith(h, Header(key))
    requires AllContinuations(conts)
    ensures Describe(pre + [h] + conts, pkg) == Describe(pre + [""], pkg)
  {
    var st0 := Scan(Initial(pkg), NoField);
    var st1 := Run(pre, st0);
    StepOpens(st1, h, key);
    RunContinuations(conts, Commit(st1), key, AfterSeparator(h));
    RunAppend(pre + [h], conts, st0);
    RunSnoc(pre, h, st0);
    RunSnoc(pre, "", st0);
    StepPlain(st1, "");
  }

  /** A multi-value field whose header never starts a line is absent. */
  lemma MultiFieldAbsent(block: seq<string>, pkg: string, key: Key)
    requires key.IsMulti()
    requires forall i :: 0 <= i < |block| ==> !StartsWith(block[i], Header(key))
    ensures key !in Describe(block, pkg)
  {
    var st := Scan(Initial(pkg), NoField);
    assert Get(st.desc, key) == None;
    RunKeepsKey(block, st, key);
    assert Get(Describe(block, pkg), key) == None;
  }

  /** The package name is the only thing the descriptor takes from the caller:
      describing the same block for another name changes the `Package` entry
      and nothing else. */
  lemma {:induction false} RunRenames(lines: seq<string>, st: Scan, pkg: string)
    requires st.pending.Open? ==> st.pending.key != Package
    ensures Run(lines, Scan(st.desc[Package := pkg], st.pending))
         == Scan(Run(lines, st).desc[Package := pkg], Run(lines, st).pending)
    ensures Run(lines, st).pending.Open? ==> Run(lines, st).pending.key != Package
    decreases |lines|
  {
    if lines != [] {
      var line := lines[0];
      StepRenames(st, line, pkg);
      RunRenames(lines[1..], Step(st, line), pkg);
    }
  }

  lemma StepRenames(st: Scan, line: string, pkg: string)
    requires st.pending.Open? ==> st.pending.key != Package
    ensures Step(Scan(st.desc[Package := pkg], st.pending), line)
         == Scan(Step(st, line).desc[Package := pkg], Step(st, line).pending)
    ensures Step(st, line).pending.Open? ==> Step(st, line).pending.key != Package
  {
    var h := StepCase(st, line);
    StepIsStepBy(Scan(st.desc[Package := pkg], st.pending), line, h);
    StepByRenames(st, line, pkg, h);
  }

  lemma StepByRenames(st: Scan, line: string, pkg: string, h: Option<Key>)
    requires Carries(line, h)
    requires st.pending.Open? ==> st.pending.key != Package
    ensures StepBy(Scan(st.desc[Package := pkg], st.pending), line, h)
         == Scan(StepBy(st, line, h).desc[Package := pkg], StepBy(st, line, h).pending)
    ensures StepBy(st, line, h).pending.Open? ==> StepBy(st, line, h).pending.key != Package
  {
    assert Commit(Scan(st.desc[Package := pkg], st.pending)) == Commit(st)[Package := pkg];
    if h.Some? && h.value.IsSingle() {
      var v := AfterSeparator(line);
      assert Commit(st)[Package := pkg][h.value := v] == Commit(st)[h.value := v][Package := pkg];
    }
  }

  lemma DescribeRenames(block: seq<string>, p: string, q: string)
    ensures Describe(block, q) == Describe(block, p)[Package := q]
  {
    var st := Scan(Initial(p), NoField);
    RunRenames(block, st, q);
    assert Initial(p)[Package := q] == Initial(q);
  }
}
