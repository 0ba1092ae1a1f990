/** The single forward pass over the captured `mvn dependency:list` output
    (`processCommandLineOutput`): it tracks the module being built, latches a
    build failure, and collects the lines of each "resolved files" block as
    `module:dependency` strings and the failure diagnostics as error-log lines. */
module OutputParser {
  import opened JavaStrings

  const INFO := "[INFO]"
  const BUILDING := "Building"
  const BUILD_FAILURE := "BUILD FAILURE"
  const ERROR := "ERROR"
  const RESOLVED := "The following files have been resolved:"
  const NONE := "none"

  /** The Java `String module`, which starts out null. */
  datatype ModuleName = Null | Name(name: string)

  /** Java string concatenation renders a null reference as the text "null". */
  function Render(m: ModuleName): string
  {
    match m
    case Null => "null"
    case Name(n) => n
  }

  predicate AnnouncesModule(line: string)
  {
    Contains(line, BUILDING)
  }

  predicate AnnouncesFailure(line: string)
  {
    Contains(line, BUILD_FAILURE)
  }

  predicate IsErrorLine(line: string)
  {
    Contains(line, ERROR)
  }

  predicate OpensBlock(line: string)
  {
    Contains(line, RESOLVED)
  }

  /** The block terminator: the line is a single space once `[INFO]` is removed. */
  predicate ClosesBlock(line: string)
  {
    RemoveAll(line, INFO) == " "
  }

  /** The module a "Building" line names: `[INFO]` and `Building` removed, then trimmed. */
  function ModuleOf(line: string): string
  {
    Trim(RemoveAll(RemoveAll(line, INFO), BUILDING))
  }

  /** A line inside a block with `[INFO]` removed and trimmed. */
  function Processed(line: string): string
  {
    Trim(RemoveAll(line, INFO))
  }

  /** Whether a processed block line is a dependency: not the block header and
      not the `none` sentinel of a module without dependencies. */
  predicate IsEntry(processed: string)
  {
    !Contains(processed, RESOLVED) && processed != NONE
  }

  /** The loop's variables, with the two output lists it appends to. */
  datatype ScanState = ScanState(
    moduleName: ModuleName,
    buildFailed: bool,
    dependencyBlock: bool,
    dependencies: seq<string>,
    errorLog: seq<string>)

  function Initial(): ScanState
  {
    ScanState(Null, false, false, [], [])
  }

  /** One iteration of the loop: the four checks in the order the source makes them. */
  function Step(st: ScanState, line: string): ScanState
  {
    var moduleName := if AnnouncesModule(line) then Name(ModuleOf(line)) else st.moduleName;
    var buildFailed := st.buildFailed || AnnouncesFailure(line);
    var announced := if AnnouncesFailure(line) then st.errorLog + [Render(moduleName)] else st.errorLog;
    var errorLog := if buildFailed && IsErrorLine(line) then announced + [line] else announced;
    var dependencyBlock :=
      if OpensBlock(line) then true
      else if ClosesBlock(line) && st.dependencyBlock then false
      else st.dependencyBlock;
    var dependencies :=
      if dependencyBlock && IsEntry(Processed(line))
      then st.dependencies + [Render(moduleName) + ":" + Processed(line)]
      else st.dependencies;
    ScanState(moduleName, buildFailed, dependencyBlock, dependencies, errorLog)
  }

  /** The state after the pass has consumed `lines`, starting from `st`. */
  function Run(st: ScanState, lines: seq<string>): ScanState
    decreases |lines|
  {
    if |lines| == 0 then st else Run(Step(st, lines[0]), lines[1..])
  }

  lemma RunHead(st: ScanState, lines: seq<string>)
    requires |lines| > 0
    ensures Run(st, lines) == Run(Step(st, lines[0]), lines[1..])
  {
  }

  /** `processCommandLineOutput` without the buffer-file I/O: the captured lines
      come in, the dependency strings and the lines appended to the error log
      come out. */
  method ProcessCommandLineOutput(outputLines: seq<string>) returns (dependencies: seq<string>, errorLog: seq<string>)
    ensures dependencies == Run(Initial(), outputLines).dependencies
    ensures errorLog == Run(Initial(), outputLines).errorLog
    ensures |dependencies| <= |outputLines| && |errorLog| <= 2 * |outputLines|
  {
    var moduleName: ModuleName := Null;
    var buildFailed := false;
    var dependencyBlock := false;
    dependencies, errorLog := [], [];
    for i := 0 to |outputLines|
      invariant Run(ScanState(moduleName, buildFailed, dependencyBlock, dependencies, errorLog), outputLines[i..])
                == Run(Initial(), outputLines)
      invariant |dependencies| <= i
    {
      var line := outputLines[i];
      assert outputLines[i..][1..] == outputLines[i + 1..];
      if Contains(line, BUILDING) {
        moduleName := Name(Trim(RemoveAll(RemoveAll(line, INFO), BUILDING)));
      }
      if Contains(line, BUILD_FAILURE) {
        buildFailed := true;
        errorLog := errorLog + [Render(moduleName)];
      }
      if buildFailed {
        if Contains(line, ERROR) {
          errorLog := errorLog + [line];
        }
      }
      if Contains(line, RESOLVED) {
        dependencyBlock := true;
      } else if RemoveAll(line, INFO) == " " && dependencyBlock {
        dependencyBlock := false;
      }
      if dependencyBlock {
        var processedLine := Trim(RemoveAll(line, INFO));
        if !Contains(processedLine, RESOLVED) && processedLine != NONE {
          dependencies := dependencies + [Render(moduleName) + ":" + processedLine];
        }
      }
    }
    RunAppendOnly(Initial(), outputLines);
  }

  /** The pass over `a + b` is the pass over `a` followed by the pass over `b`. */
  lemma {:induction false} RunConcat(st: ScanState, a: seq<string>, b: seq<string>)
    ensures Run(st, a + b) == Run(Run(st, a), b)
    decreases |a|
  {
    if |a| == 0 {
      assert a + b == b;
    } else {
      assert (a + b)[1..] == a[1..] + b;
      RunConcat(Step(st, a[0]), a[1..], b);
    }
  }

  /** Output only grows: earlier entries and log lines stay, in order, and each
      line adds at most one dependency entry and at most two log lines. */
  lemma {:induction false} RunAppendOnly(st: ScanState, lines: seq<string>)
    ensures |st.dependencies| <= |Run(st, lines).dependencies| <= |st.dependencies| + |lines|
    ensures Run(st, lines).dependencies[..|st.dependencies|] == st.dependencies
    ensures |st.errorLog| <= |Run(st, lines).errorLog| <= |st.errorLog| + 2 * |lines|
    ensures Run(st, lines).errorLog[..|st.errorLog|] == st.errorLog
    decreases |lines|
  {
    if |lines| > 0 {
      var next := Step(st, lines[0]);
      RunAppendOnly(next, lines[1..]);
      assert next.dependencies[..|st.dependencies|] == st.dependencies;
      assert next.errorLog[..|st.errorLog|] == st.errorLog;
    }
  }

  /** Without a "Building" line the module stays what it was (null at the start). */
  lemma {:induction false} ModuleKeptWithoutAnnouncement(st: ScanState, lines: seq<string>)
    requires forall k :: 0 <= k < |lines| ==> !AnnouncesModule(lines[k])
    ensures Run(st, lines).moduleName == st.moduleName
    decreases |lines|
  {
    if |lines| > 0 {
      ModuleKeptWithoutAnnouncement(Step(st, lines[0]), lines[1..]);
    }
  }

  /** The module is the one named by the last "Building" line. */
  lemma {:induction false} ModuleIsLastAnnouncement(st: ScanState, lines: seq<string>, j: nat)
    requires j < |lines| && AnnouncesModule(lines[j])
    requires forall k :: j < k < |lines| ==> !AnnouncesModule(lines[k])
    ensures Run(st, lines).moduleName == Name(ModuleOf(lines[j]))
    decreases |lines|
  {
    if j == 0 {
      ModuleKeptWithoutAnnouncement(Step(st, lines[0]), lines[1..]);
    } else {
      ModuleIsLastAnnouncement(Step(st, lines[0]), lines[1..], j - 1);
    }
  }

  /** `buildFailed` holds exactly when it held before or some line announced a
      failure; with no failure, nothing is written to the error log. */
  lemma {:induction false} FailureLatch(st: ScanState, lines: seq<string>)
    ensures Run(st, lines).buildFailed <==>
            st.buildFailed || exists k :: 0 <= k < |lines| && AnnouncesFailure(lines[k])
    ensures !Run(st, lines).buildFailed ==> Run(st, lines).errorLog == st.errorLog
    decreases |lines|
  {
    if |lines| > 0 {
      FailureLatch(Step(st, lines[0]), lines[1..]);
      if exists k :: 0 <= k < |lines| && AnnouncesFailure(lines[k]) {
        var k :| 0 <= k < |lines| && AnnouncesFailure(lines[k]);
        if k > 0 {
          assert AnnouncesFailure(lines[1..][k - 1]);
        }
      }
      if exists k :: 0 <= k < |lines[1..]| && AnnouncesFailure(lines[1..][k]) {
        var k :| 0 <= k < |lines[1..]| && AnnouncesFailure(lines[1..][k]);
        assert AnnouncesFailure(lines[k + 1]);
      }
    }
  }

  /** The lines containing `ERROR`, in order. */
  function ErrorLines(lines: seq<string>): (r: seq<string>)
    ensures |r| <= |lines|
    ensures forall i :: 0 <= i < |r| ==> IsErrorLine(r[i])
    decreases |lines|
  {
    if |lines| == 0 then []
    else (if IsErrorLine(lines[0]) then [lines[0]] else []) + ErrorLines(lines[1..])
  }

  lemma StepAfterFailure(st: ScanState, line: string)
    requires st.buildFailed && !AnnouncesFailure(line)
    ensures Step(st, line).buildFailed
    ensures Step(st, line).errorLog == st.errorLog + (if IsErrorLine(line) then [line] else [])
  {
  }

  /** Every `BUILD FAILURE` line, the first or a later one, latches the flag and
      logs the module name current at that line (after any `Building` on the
      same line), then the line itself when it holds `ERROR`. */
  lemma StepOnFailure(st: ScanState, line: string)
    requires AnnouncesFailure(line)
    ensures Step(st, line).buildFailed
    ensures Step(st, line).errorLog
            == st.errorLog + [Render(Step(st, line).moduleName)] + (if IsErrorLine(line) then [line] else [])
  {
  }

  /** A failure line followed by lines without one, from any state (failed
      before or not): the log gains the module active at the failure line, then
      every `ERROR` line from the failure line on. Runs with several failures
      are cut into such segments with `RunConcat`. */
  lemma FailureSegment(st: ScanState, failure: string, after: seq<string>)
    requires AnnouncesFailure(failure)
    requires forall k :: 0 <= k < |after| ==> !AnnouncesFailure(after[k])
    ensures Run(st, [failure] + after).buildFailed
    ensures Run(st, [failure] + after).errorLog
            == st.errorLog + [Render(Step(st, failure).moduleName)] + ErrorLines([failure] + after)
  {
    var next := Step(st, failure);
    StepOnFailure(st, failure);
    assert Run(st, [failure] + after) == Run(next, after) by {
      RunHead(st, [failure] + after);
      assert ([failure] + after)[1..] == after;
    }
    ErrorsAfterFailure(next, after);
    var e := if IsErrorLine(failure) then [failure] else [];
    var announced := st.errorLog + [Render(next.moduleName)];
    assert ErrorLines([failure] + after) == e + ErrorLines(after) by {
      assert ([failure] + after)[1..] == after;
    }
    AppendAssoc(announced, e, ErrorLines(after));
  }

  /** Once the build has failed, every later `ERROR` line is logged, in order,
      and nothing else is (as long as no further failure is announced). */
  lemma {:induction false} ErrorsAfterFailure(st: ScanState, lines: seq<string>)
    requires st.buildFailed
    requires forall k :: 0 <= k < |lines| ==> !AnnouncesFailure(lines[k])
    ensures Run(st, lines).buildFailed
    ensures Run(st, lines).errorLog == st.errorLog + ErrorLines(lines)
    decreases |lines|
  {
    if |lines| > 0 {
      var next := Step(st, lines[0]);
      var rest := lines[1..];
      StepAfterFailure(st, lines[0]);
      assert forall k :: 0 <= k < |rest| ==> rest[k] == lines[k + 1];
      ErrorsAfterFailure(next, rest);
      RunHead(st, lines);
      var e := if IsErrorLine(lines[0]) then [lines[0]] else [];
      assert ErrorLines(lines) == e + ErrorLines(rest);
      AppendAssoc(st.errorLog, e, ErrorLines(rest));
    }
  }

  /** A run with one failure, from a state that has not failed: the log gains
      the module active at the failure line, then every `ERROR` line from the
      failure line on, in input order. */
  lemma FirstFailureLog(st: ScanState, before: seq<string>, failure: string, after: seq<string>)
    requires !st.buildFailed
    requires forall k :: 0 <= k < |before| ==> !AnnouncesFailure(before[k])
    requires AnnouncesFailure(failure)
    requires forall k :: 0 <= k < |after| ==> !AnnouncesFailure(after[k])
    ensures Run(st, before + [failure] + after).errorLog
            == st.errorLog + [Render(Run(st, before + [failure]).moduleName)] + ErrorLines([failure] + after)
  {
    var pre := Run(st, before);
    assert !pre.buildFailed && pre.errorLog == st.errorLog by {
      FailureLatch(st, before);
    }
    var atFailure := Run(st, before + [failure]);
    assert atFailure == Step(pre, failure) by {
      RunConcat(st, before, [failure]);
      RunHead(pre, [failure]);
    }
    var e := if IsErrorLine(failure) then [failure] else [];
    var announced := st.errorLog + [Render(atFailure.moduleName)];
    assert atFailure.buildFailed && atFailure.errorLog == announced + e;
    assert Run(st, before + [failure] + after) == Run(atFailure, after) by {
      RunConcat(st, before + [failure], after);
    }
    assert Run(atFailure, after).errorLog == atFailure.errorLog + ErrorLines(after) by {
      ErrorsAfterFailure(atFailure, after);
    }
    assert ErrorLines([failure] + after) == e + ErrorLines(after) by {
      assert ([failure] + after)[1..] == after;
    }
    AppendAssoc(announced, e, ErrorLines(after));
  }

  /** The entries a block body yields under `moduleName`: each processed line that
      is neither the header text nor `none`, prefixed with `moduleName:`. */
  function Entries(moduleName: ModuleName, body: seq<string>): (r: seq<string>)
    ensures |r| <= |body|
    decreases |body|
  {
    if |body| == 0 then []
    else EntryOf(moduleName, body[0]) + Entries(moduleName, body[1..])
  }

  /** What one block line yields: its processed form under `moduleName`, unless it is no entry. */
  function EntryOf(moduleName: ModuleName, line: string): (r: seq<string>)
    ensures |r| <= 1
  {
    var p := Processed(line);
    if IsEntry(p) then [Render(moduleName) + ":" + p] else []
  }

  /** A line inside a block that neither reopens nor closes it and names no module. */
  predicate IsBodyLine(line: string)
  {
    !OpensBlock(line) && !ClosesBlock(line) && !AnnouncesModule(line)
  }

  lemma StepInBlock(st: ScanState, line: string)
    requires st.dependencyBlock && IsBodyLine(line)
    ensures Step(st, line).dependencyBlock && Step(st, line).moduleName == st.moduleName
    ensures Step(st, line).dependencies == st.dependencies + EntryOf(st.moduleName, line)
  {
  }

  /** Inside an open block, lines that neither reopen nor close it yield their entries. */
  lemma {:induction false} BlockBody(st: ScanState, body: seq<string>)
    requires st.dependencyBlock
    requires forall k :: 0 <= k < |body| ==> IsBodyLine(body[k])
    ensures Run(st, body).dependencyBlock && Run(st, body).moduleName == st.moduleName
    ensures Run(st, body).dependencies == st.dependencies + Entries(st.moduleName, body)
    decreases |body|
  {
    if |body| > 0 {
      var next := Step(st, body[0]);
      StepInBlock(st, body[0]);
      assert forall k :: 0 <= k < |body[1..]| ==> body[1..][k] == body[k + 1];
      BlockBody(next, body[1..]);
      RunHead(st, body);
      var e, rest := EntryOf(st.moduleName, body[0]), Entries(st.moduleName, body[1..]);
      assert Entries(st.moduleName, body) == e + rest;
      AppendAssoc(st.dependencies, e, rest);
    }
  }

  lemma StepOutsideBlock(st: ScanState, line: string)
    requires !st.dependencyBlock && !OpensBlock(line)
    ensures !Step(st, line).dependencyBlock && Step(st, line).dependencies == st.dependencies
  {
  }

  /** A `Building` line inside an open block switches the module mid-block: the
      line itself and every body line after it are emitted under the new name. */
  lemma ModuleSwitchInBlock(st: ScanState, building: string, body: seq<string>)
    requires st.dependencyBlock && AnnouncesModule(building) && !OpensBlock(building)
    requires forall k :: 0 <= k < |body| ==> IsBodyLine(body[k])
    ensures Run(st, [building] + body).dependencyBlock
    ensures Run(st, [building] + body).moduleName == Name(ModuleOf(building))
    ensures Run(st, [building] + body).dependencies
            == st.dependencies + EntryOf(Name(ModuleOf(building)), building) + Entries(Name(ModuleOf(building)), body)
  {
    if ClosesBlock(building) {
      TerminatorIsPlain(building);
      assert false;
    }
    var next := Step(st, building);
    assert next.dependencyBlock && next.dependencies == st.dependencies + EntryOf(Name(ModuleOf(building)), building);
    BlockBody(next, body);
    assert Run(st, [building] + body) == Run(next, body) by {
      RunHead(st, [building] + body);
      assert ([building] + body)[1..] == body;
    }
  }

  /** Outside a block, lines that do not open one yield nothing. */
  lemma {:induction false} OutsideBlockSilent(st: ScanState, lines: seq<string>)
    requires !st.dependencyBlock
    requires forall k :: 0 <= k < |lines| ==> !OpensBlock(lines[k])
    ensures !Run(st, lines).dependencyBlock
    ensures Run(st, lines).dependencies == st.dependencies
    decreases |lines|
  {
    if |lines| > 0 {
      StepOutsideBlock(st, lines[0]);
      OutsideBlockSilent(Step(st, lines[0]), lines[1..]);
    }
  }

  /** No character of `[INFO]` occurs in the header text, so removing `[INFO]` cannot break it. */
  lemma HeaderAvoidsInfo()
    ensures NoCommonChar(INFO, RESOLVED)
  {
    assert forall j :: 0 <= j < |RESOLVED| ==> RESOLVED[j] !in INFO;
    NoCommonCharAt(INFO, RESOLVED);
  }

  /** No character of `[INFO]` occurs in `Building` (its `i` and `n` are lower case). */
  lemma BuildingAvoidsInfo()
    ensures NoCommonChar(INFO, BUILDING)
  {
    assert forall j :: 0 <= j < |BUILDING| ==> BUILDING[j] !in INFO;
    NoCommonCharAt(INFO, BUILDING);
  }

  /** A text longer than `s` does not occur in it. */
  lemma TooLongToOccur(s: string, q: string)
    requires |s| < |q|
    ensures !Contains(s, q)
  {
    ContainsOccurs(s, q);
  }

  /** The block terminator is a plain line: removing `[INFO]` keeps the header
      text and `Building`, so a line that becomes a single space held neither. */
  lemma TerminatorIsPlain(line: string)
    requires ClosesBlock(line)
    ensures !OpensBlock(line) && !AnnouncesModule(line)
  {
    TooLongToOccur(" ", RESOLVED);
    TooLongToOccur(" ", BUILDING);
    if OpensBlock(line) {
      HeaderAvoidsInfo();
      RemoveAllKeeps(line, RESOLVED, INFO);
      assert false;
    }
    if AnnouncesModule(line) {
      BuildingAvoidsInfo();
      RemoveAllKeeps(line, BUILDING, INFO);
      assert false;
    }
  }

  /** The header line of a block is never emitted as a dependency. */
  lemma OpeningLineNotEntry(line: string)
    requires OpensBlock(line)
    ensures !IsEntry(Processed(line))
  {
    HeaderAvoidsInfo();
    RemoveAllKeeps(line, RESOLVED, INFO);
    assert !IsTrimmed(RESOLVED[0]) && !IsTrimmed(RESOLVED[|RESOLVED| - 1]);
    TrimKeeps(RemoveAll(line, INFO), RESOLVED);
  }

  /** A complete block: the header opens it, each body line yields its entry
      under the current module (`none` and header text yield nothing), the
      terminator closes it, and neither the header nor the terminator is
      emitted. */
  lemma DependencyBlock(st: ScanState, open: string, body: seq<string>, close: string)
    requires OpensBlock(open) && !AnnouncesModule(open)
    requires forall k :: 0 <= k < |body| ==> IsBodyLine(body[k])
    requires ClosesBlock(close)
    ensures Run(st, [open] + body + [close]).dependencies == st.dependencies + Entries(st.moduleName, body)
    ensures !Run(st, [open] + body + [close]).dependencyBlock
    ensures Run(st, [open] + body + [close]).moduleName == st.moduleName
  {
    TerminatorIsPlain(close);
    OpeningLineNotEntry(open);
    var inBlock := Step(st, open);
    assert inBlock.dependencies == st.dependencies && inBlock.dependencyBlock;
    BlockBody(inBlock, body);
    RunConcat(st, [open], body);
    RunConcat(st, [open] + body, [close]);
  }

  /** A block holding only the `none` sentinel yields no entry. */
  lemma NoneBlockEmitsNothing(st: ScanState, open: string, none: string, close: string)
    requires OpensBlock(open) && !AnnouncesModule(open)
    requires Processed(none) == NONE
    requires IsBodyLine(none)
    requires ClosesBlock(close)
    ensures Run(st, [open, none, close]).dependencies == st.dependencies
  {
    DependencyBlock(st, open, [none], close);
    assert [open] + [none] + [close] == [open, none, close];
  }
}
