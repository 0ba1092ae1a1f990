/** The persisted package document: four scope-partitioned, append-only
    collections of dependency records (`compileDeps`, `testCompileDeps`,
    `runtimeDeps`, `systemDeps`), filled by `addDependencyToJSONPackage` from
    the strings the output parser extracted. */
module PackageDocument {
  import opened DependencyNormalizer

  /** One JSON object of a collection: the scope is not stored, it is the
      collection the record sits in. */
  datatype Record = Record(groupId: string, artifactId: string, version: string, moduleName: string)

  function ToRecord(dep: Dependency, moduleName: string): Record
  {
    Record(dep.groupId, dep.artifactId, dep.version, moduleName)
  }

  datatype Collection = CompileArtifacts | TestCompileArtifacts | RuntimeArtifacts | TestRuntimeArtifacts

  /** The key of each collection in the JSON document. `testRuntimeArtifacts`
      holds the `system` scope. */
  function Key(c: Collection): (k: string)
    ensures k == "testRuntimeArtifacts" <==> ScopeOf(c) == "system"
  {
    match c
    case CompileArtifacts => "compileArtifacts"
    case TestCompileArtifacts => "testCompileArtifacts"
    case RuntimeArtifacts => "runtimeArtifacts"
    case TestRuntimeArtifacts => "testRuntimeArtifacts"
  }

  /** The scope whose records a collection receives. */
  function ScopeOf(c: Collection): string
  {
    match c
    case CompileArtifacts => "compile"
    case TestCompileArtifacts => "test"
    case RuntimeArtifacts => "runtime"
    case TestRuntimeArtifacts => "system"
  }

  /** Each scope feeds exactly one collection. */
  lemma ScopeOfInjective(c: Collection, d: Collection)
    ensures ScopeOf(c) == ScopeOf(d) ==> c == d
  {
  }

  /** The four collections as a value. */
  datatype Tables = Tables(
    compileDeps: seq<Record>,
    testCompileDeps: seq<Record>,
    runtimeDeps: seq<Record>,
    systemDeps: seq<Record>)
  {
    function Get(c: Collection): seq<Record>
    {
      match c
      case CompileArtifacts => compileDeps
      case TestCompileArtifacts => testCompileDeps
      case RuntimeArtifacts => runtimeDeps
      case TestRuntimeArtifacts => systemDeps
    }

    /** Every collection of `this` is a prefix of the same collection of `other`. */
    predicate PrefixOf(other: Tables)
    {
      forall c: Collection :: Get(c) <= other.Get(c)
    }

    function Size(): nat
    {
      |compileDeps| + |testCompileDeps| + |runtimeDeps| + |systemDeps|
    }
  }

  /** The document `initializeJSONPackage` creates. */
  function EmptyTables(): (r: Tables)
    ensures forall c: Collection :: r.Get(c) == []
  {
    Tables([], [], [], [])
  }

  /** `addDependencyToJSONPackage` on values: four independent exact string
      comparisons of the scope, each appending to its own collection. */
  function Add(t: Tables, dep: Dependency, moduleName: string): (r: Tables)
    ensures forall c: Collection ::
      r.Get(c) == t.Get(c) + (if dep.scope == ScopeOf(c) then [ToRecord(dep, moduleName)] else [])
  {
    var rec := ToRecord(dep, moduleName);
    var t1 := if dep.scope == "compile" then t.(compileDeps := t.compileDeps + [rec]) else t;
    var t2 := if dep.scope == "runtime" then t1.(runtimeDeps := t1.runtimeDeps + [rec]) else t1;
    var t3 := if dep.scope == "system" then t2.(systemDeps := t2.systemDeps + [rec]) else t2;
    if dep.scope == "test" then t3.(testCompileDeps := t3.testCompileDeps + [rec]) else t3
  }

  /** How the mapping loop ended: after every line, or at the first line with
      fewer than six parts, where the source throws. */
  datatype Outcome = Completed | IndexOutOfBounds(line: nat)

  datatype Mapped = Mapped(tables: Tables, dependencies: seq<Dependency>, outcome: Outcome)

  /** `mapExtractedOutputLinesToDependencies` on values: each line in order is
      normalized and added; the first line with too few parts stops the loop,
      keeping what the earlier lines added. */
  function MapLines(t: Tables, lines: seq<string>): (r: Mapped)
    ensures |r.dependencies| <= |lines|
    decreases |lines|
  {
    if |lines| == 0 then
      Mapped(t, [], Completed)
    else
      var last := |lines| - 1;
      var before := MapLines(t, lines[..last]);
      if before.outcome.IndexOutOfBounds? then
        before
      else
        match Normalize(lines[last])
        case TooFewParts(_) => Mapped(before.tables, before.dependencies, IndexOutOfBounds(last))
        case Parsed(moduleName, dep) => Mapped(Add(before.tables, dep, moduleName), before.dependencies + [dep], Completed)
  }

  /** The loop either reads every line or stops at a line with too few parts,
      having returned one dependency per line before it. */
  lemma {:induction false} MapLinesOutcome(t: Tables, lines: seq<string>)
    ensures var r := MapLines(t, lines);
      (r.outcome.Completed? ==> |r.dependencies| == |lines|) &&
      (r.outcome.IndexOutOfBounds? ==>
         r.outcome.line < |lines| && |r.dependencies| == r.outcome.line &&
         Normalize(lines[r.outcome.line]).TooFewParts?)
    decreases |lines|
  {
    if |lines| > 0 {
      var last := |lines| - 1;
      var init := lines[..last];
      MapLinesOutcome(t, init);
      var before := MapLines(t, init);
      if before.outcome.IndexOutOfBounds? {
        assert init[before.outcome.line] == lines[before.outcome.line];
      }
    }
  }

  /** The dependencies returned are the lines read in order: dependency `i`
      is what line `i` splits into, and that line had enough parts. */
  lemma {:induction false} MapLinesReads(t: Tables, lines: seq<string>)
    ensures var r := MapLines(t, lines);
      forall i {:trigger Normalize(lines[i])} :: 0 <= i < |r.dependencies| ==>
        Normalize(lines[i]).Parsed? && Normalize(lines[i]).dependency == r.dependencies[i]
    decreases |lines|
  {
    if |lines| > 0 {
      var last := |lines| - 1;
      var init := lines[..last];
      MapLinesReads(t, init);
      MapLinesOutcome(t, init);
      var before := MapLines(t, init);
      var r := MapLines(t, lines);
      forall i | 0 <= i < |r.dependencies|
        ensures Normalize(lines[i]).Parsed? && Normalize(lines[i]).dependency == r.dependencies[i]
      {
        if i < |before.dependencies| {
          assert init[i] == lines[i];
          assert Normalize(init[i]).Parsed? && Normalize(init[i]).dependency == before.dependencies[i];
          assert r.dependencies[i] == before.dependencies[i];
        } else {
          assert before.outcome.Completed? && i == last;
        }
      }
    }
  }

  /** After the loop has stopped at a line, later lines change nothing. */
  lemma {:induction false} MapLinesStopped(t: Tables, lines: seq<string>, k: nat)
    requires k <= |lines| && MapLines(t, lines[..k]).outcome.IndexOutOfBounds?
    ensures MapLines(t, lines) == MapLines(t, lines[..k])
    decreases |lines| - k
  {
    if k < |lines| {
      var last := |lines| - 1;
      assert lines[..last][..k] == lines[..k];
      MapLinesStopped(t, lines[..last], k);
    } else {
      assert lines[..k] == lines;
    }
  }

  /** Adding keeps every collection as a prefix and grows the document by at most one record. */
  lemma AddGrows(t: Tables, dep: Dependency, moduleName: string)
    ensures t.PrefixOf(Add(t, dep, moduleName))
    ensures t.Size() <= Add(t, dep, moduleName).Size() <= t.Size() + 1
  {
    var r := Add(t, dep, moduleName);
    assert r.Get(CompileArtifacts) == r.compileDeps && r.Get(TestCompileArtifacts) == r.testCompileDeps;
    assert r.Get(RuntimeArtifacts) == r.runtimeDeps && r.Get(TestRuntimeArtifacts) == r.systemDeps;
  }

  lemma PrefixOfTransitive(a: Tables, b: Tables, c: Tables)
    requires a.PrefixOf(b) && b.PrefixOf(c)
    ensures a.PrefixOf(c)
  {
    forall k: Collection
      ensures a.Get(k) <= c.Get(k)
    {
      assert a.Get(k) <= b.Get(k) && b.Get(k) <= c.Get(k);
    }
  }

  /** Mapping only appends: every old collection is a prefix of the new one,
      and the document grows by at most one record per line. */
  lemma {:induction false} MapLinesAppendOnly(t: Tables, lines: seq<string>)
    ensures t.PrefixOf(MapLines(t, lines).tables)
    ensures t.Size() <= MapLines(t, lines).tables.Size() <= t.Size() + |lines|
    decreases |lines|
  {
    if |lines| == 0 {
      assert forall c: Collection :: t.Get(c) <= t.Get(c);
    } else {
      var last := |lines| - 1;
      MapLinesAppendOnly(t, lines[..last]);
      var before := MapLines(t, lines[..last]);
      var p := Normalize(lines[last]);
      if before.outcome.Completed? && p.Parsed? {
        AddGrows(before.tables, p.dependency, p.moduleName);
        PrefixOfTransitive(t, before.tables, Add(before.tables, p.dependency, p.moduleName));
      }
    }
  }

  /** Nothing is deduplicated: the same line mapped twice stores two equal
      records in the collection its scope selects, and no other collection changes. */
  lemma MapLinesDuplicate(t: Tables, line: string, c: Collection)
    requires Normalize(line).Parsed? && Normalize(line).dependency.scope == ScopeOf(c)
    ensures var rec := ToRecord(Normalize(line).dependency, Normalize(line).moduleName);
            MapLines(t, [line, line]).tables.Get(c) == t.Get(c) + [rec, rec]
    ensures forall d: Collection :: d != c ==> MapLines(t, [line, line]).tables.Get(d) == t.Get(d)
  {
    var p := Normalize(line);
    var rec := ToRecord(p.dependency, p.moduleName);
    var once := Add(t, p.dependency, p.moduleName);
    var twice := Add(once, p.dependency, p.moduleName);
    assert MapLines(t, [line]) == Mapped(once, [p.dependency], Completed) by {
      assert [line][..0] == [];
    }
    assert MapLines(t, [line, line]).tables == twice by {
      assert [line, line][..1] == [line];
    }
    assert twice.Get(c) == t.Get(c) + [rec, rec] by {
      assert once.Get(c) == t.Get(c) + [rec];
      assert (t.Get(c) + [rec]) + [rec] == t.Get(c) + [rec, rec];
    }
    forall d: Collection | d != c
      ensures twice.Get(d) == t.Get(d)
    {
      ScopeOfInjective(c, d);
    }
  }

  /** A scope other than the four exact, case-sensitive names stores nothing. */
  lemma {:induction false} MapLinesUnknownScopes(t: Tables, lines: seq<string>)
    requires forall i :: 0 <= i < |lines| ==>
      Normalize(lines[i]).Parsed? && Normalize(lines[i]).dependency.scope !in {"compile", "test", "runtime", "system"}
    ensures MapLines(t, lines).tables == t
    ensures MapLines(t, lines).outcome.Completed?
    decreases |lines|
  {
    if |lines| > 0 {
      var last := |lines| - 1;
      assert forall i :: 0 <= i < last ==> lines[..last][i] == lines[i];
      MapLinesUnknownScopes(t, lines[..last]);
      var p := Normalize(lines[last]);
      var after := Add(t, p.dependency, p.moduleName);
      assert forall c: Collection :: after.Get(c) == t.Get(c);
    }
  }

  /** The object that holds the four collections and updates them in place. */
  class PackageDocument {
    var compileDeps: seq<Record>
    var testCompileDeps: seq<Record>
    var runtimeDeps: seq<Record>
    var systemDeps: seq<Record>

    function Contents(): Tables
      reads this
    {
      Tables(compileDeps, testCompileDeps, runtimeDeps, systemDeps)
    }

    /** `initializeJSONPackage`: a fresh document with four empty collections. */
    constructor Initialize()
      ensures Contents() == EmptyTables()
    {
      compileDeps, testCompileDeps, runtimeDeps, systemDeps := [], [], [], [];
    }

    /** A document read back from a previous run, given as its four collections. */
    constructor Load(compile: seq<Record>, testCompile: seq<Record>, runtime: seq<Record>, system: seq<Record>)
      ensures Contents() == Tables(compile, testCompile, runtime, system)
    {
      compileDeps, testCompileDeps, runtimeDeps, systemDeps := compile, testCompile, runtime, system;
    }

    /** `addDependencyToJSONPackage`: the collection the scope names grows by
        one record; an unrecognized scope changes nothing. */
    method AddDependency(dep: Dependency, moduleName: string)
      modifies this
      ensures Contents() == Add(old(Contents()), dep, moduleName)
      ensures forall c: Collection ::
        Contents().Get(c) == old(Contents()).Get(c) + (if dep.scope == ScopeOf(c) then [ToRecord(dep, moduleName)] else [])
    {
      var jsonDep := Record(dep.groupId, dep.artifactId, dep.version, moduleName);
      if dep.scope == "compile" {
        compileDeps := compileDeps + [jsonDep];
      }
      if dep.scope == "runtime" {
        runtimeDeps := runtimeDeps + [jsonDep];
      }
      if dep.scope == "system" {
        systemDeps := systemDeps + [jsonDep];
      }
      if dep.scope == "test" {
        testCompileDeps := testCompileDeps + [jsonDep];
      }
    }

    /** `mapExtractedOutputLinesToDependencies`: normalizes and adds each line
        in order and returns the dependencies; at a line with fewer than six
        parts it stops with that line's index, the earlier lines' records kept. */
    method MapExtractedOutputLines(lines: seq<string>) returns (dependencies: seq<Dependency>, outcome: Outcome)
      modifies this
      ensures Contents() == MapLines(old(Contents()), lines).tables
      ensures dependencies == MapLines(old(Contents()), lines).dependencies
      ensures outcome == MapLines(old(Contents()), lines).outcome
    {
      dependencies, outcome := [], Completed;
      for i := 0 to |lines|
        invariant MapLines(old(Contents()), lines[..i]) == Mapped(Contents(), dependencies, Completed)
      {
        assert lines[..i + 1][..i] == lines[..i];
        match Normalize(lines[i])
        case TooFewParts(_) =>
          outcome := IndexOutOfBounds(i);
          MapLinesStopped(old(Contents()), lines, i + 1);
          return;
        case Parsed(moduleName, dep) =>
          AddDependency(dep, moduleName);
          dependencies := dependencies + [dep];
      }
      assert lines[..|lines|] == lines;
    }
  }
}
