/** One run of the `dmuncle` goal (`execute`): start from the stored package
    document or a fresh one, scan the captured build output, and map the
    extracted entries into the document. */
module Mojo {
  import opened JavaStrings
  import opened OutputParser
  import opened DependencyNormalizer
  import opened PackageDocument

  /** What the run finds on disk: no package document yet, or the four
      collections of the one a previous run saved. */
  datatype Stored = Absent | Present(tables: Tables)

  function StartOf(stored: Stored): Tables
  {
    match stored
    case Absent => EmptyTables()
    case Present(tables) => tables
  }

  /** The whole run on values: the entries the scan extracts, mapped onto the starting document. */
  function Gather(start: Tables, outputLines: seq<string>): Mapped
  {
    MapLines(start, Run(Initial(), outputLines).dependencies)
  }

  /** `execute` without the file I/O and the external `mvn` process: the
      captured output lines come in; the document, the error-log lines and how
      the mapping loop ended come out. Records from earlier runs are kept. */
  method Execute(stored: Stored, outputLines: seq<string>) returns (doc: PackageDocument, errorLog: seq<string>, outcome: Outcome)
    ensures fresh(doc)
    ensures doc.Contents() == Gather(StartOf(stored), outputLines).tables
    ensures outcome == Gather(StartOf(stored), outputLines).outcome
    ensures errorLog == Run(Initial(), outputLines).errorLog
    ensures StartOf(stored).PrefixOf(doc.Contents())
  {
    if stored.Present? {
      var t := stored.tables;
      doc := new PackageDocument.Load(t.compileDeps, t.testCompileDeps, t.runtimeDeps, t.systemDeps);
    } else {
      doc := new PackageDocument.Initialize();
    }
    var extracted;
    extracted, errorLog := ProcessCommandLineOutput(outputLines);
    var dependencies;
    dependencies, outcome := doc.MapExtractedOutputLines(extracted);
    MapLinesAppendOnly(StartOf(stored), extracted);
  }

  /** Output without a "resolved files" header changes nothing in the document. */
  lemma GatherWithoutBlock(start: Tables, outputLines: seq<string>)
    requires forall k :: 0 <= k < |outputLines| ==> !OpensBlock(outputLines[k])
    ensures Gather(start, outputLines) == Mapped(start, [], Completed)
  {
    OutsideBlockSilent(Initial(), outputLines);
  }

  /** A block seen before any "Building" line files its entry under the module
      name "null", the text Java gives the unset module. */
  lemma GatherBeforeAnyModule(start: Tables, open: string, line: string, close: string, fields: seq<string>)
    requires OpensBlock(open) && !AnnouncesModule(open)
    requires IsBodyLine(line) && IsEntry(Processed(line))
    requires ClosesBlock(close)
    requires |fields| == 5 && fields[4] != "" && forall i :: 0 <= i < 5 ==> ':' !in fields[i]
    requires Processed(line) == Join(fields, ':')
    ensures Gather(start, [open, line, close]).tables
            == Add(start, Dependency(fields[0], fields[1], fields[2], fields[3], fields[4]), "null")
  {
    var entry := Render(Null) + ":" + Join(fields, ':');
    var dep := Dependency(fields[0], fields[1], fields[2], fields[3], fields[4]);
    assert Gather(start, [open, line, close]) == MapLines(start, [entry]) by {
      ScanSingleEntry(open, line, close);
    }
    NullEntry(fields);
    MapSingleLine(start, entry);
  }

  lemma NullEntry(fields: seq<string>)
    requires |fields| == 5 && fields[4] != "" && forall i :: 0 <= i < 5 ==> ':' !in fields[i]
    ensures Normalize(Render(Null) + ":" + Join(fields, ':'))
            == Parsed(Render(Null), Dependency(fields[0], fields[1], fields[2], fields[3], fields[4]))
  {
    NormalizeEntry(Render(Null), fields);
  }

  lemma ScanSingleEntry(open: string, line: string, close: string)
    requires OpensBlock(open) && !AnnouncesModule(open)
    requires IsBodyLine(line) && IsEntry(Processed(line))
    requires ClosesBlock(close)
    ensures Run(Initial(), [open, line, close]).dependencies == [Render(Null) + ":" + Processed(line)]
  {
    DependencyBlock(Initial(), open, [line], close);
    assert [open] + [line] + [close] == [open, line, close];
    assert [line][1..] == [];
    assert Entries(Null, [line]) == EntryOf(Null, line) + Entries(Null, []);
    assert EntryOf(Null, line) == [Render(Null) + ":" + Processed(line)];
  }

  lemma MapSingleLine(t: Tables, line: string)
    requires Normalize(line).Parsed?
    ensures MapLines(t, [line]).tables == Add(t, Normalize(line).dependency, Normalize(line).moduleName)
  {
    assert [line][..0] == [];
  }
}
