/** The field splitter of `mapExtractedOutputLinesToDependencies`: each
    extracted `module:group:artifact:type:version:scope` string is split on
    `:` and read positionally into a Maven dependency and its module name. */
module DependencyNormalizer {
  import opened JavaStrings

  /** The fields of `org.apache.maven.model.Dependency` that the splitter sets. */
  datatype Dependency = Dependency(
    groupId: string,
    artifactId: string,
    artifactType: string,
    version: string,
    scope: string)

  /** One extracted string, read: its module name and dependency, or too few
      parts for the positional reads (the source then throws
      `ArrayIndexOutOfBoundsException`). */
  datatype Parsed =
    | Parsed(moduleName: string, dependency: Dependency)
    | TooFewParts(parts: nat)

  /** `line.split(":")` and the reads of parts 0 to 5; parts after the sixth are
      ignored. Every field read is a whole piece, so none holds a colon. */
  function Normalize(line: string): (r: Parsed)
    ensures r.Parsed? ==>
              ':' !in r.moduleName && ':' !in r.dependency.groupId && ':' !in r.dependency.artifactId
              && ':' !in r.dependency.artifactType && ':' !in r.dependency.version && ':' !in r.dependency.scope
  {
    var parts := JavaSplit(line, ':');
    JavaSplitPieces(line, ':');
    if |parts| < 6 then TooFewParts(|parts|)
    else Parsed(parts[0], Dependency(parts[1], parts[2], parts[3], parts[4], parts[5]))
  }

  /** Joining colon-free fields and normalizing gives the fields back: part 0 is
      the module, parts 1 to 5 are group, artifact, type, version and scope,
      and any further parts are dropped. Java's `split` drops only trailing
      empty parts, so it is enough that some field `j` from the sixth on is
      non-empty; later fields may be empty. */
  lemma NormalizeJoin(fields: seq<string>, j: nat)
    requires 5 <= j < |fields| && fields[j] != ""
    requires forall i :: 0 <= i < |fields| ==> ':' !in fields[i]
    ensures Normalize(Join(fields, ':'))
            == Parsed(fields[0], Dependency(fields[1], fields[2], fields[3], fields[4], fields[5]))
  {
    var line := Join(fields, ':');
    SplitOnJoin(fields, ':');
    DropTrailingEmptyPrefix(fields);
    var kept := DropTrailingEmpty(fields);
    assert |kept| > j;
    assert line != "" by {
      assert line == fields[0] + [':'] + Join(fields[1..], ':');
    }
    assert JavaSplit(line, ':') == kept;
    assert kept[..6] == fields[..6];
  }

  /** Fewer than six colon-free fields cannot be read: the source would index out of bounds. */
  lemma NormalizeTooFew(fields: seq<string>)
    requires 1 <= |fields| < 6
    requires forall i :: 0 <= i < |fields| ==> ':' !in fields[i]
    ensures Normalize(Join(fields, ':')).TooFewParts?
  {
    SplitOnJoin(fields, ':');
    JavaSplitPieces(Join(fields, ':'), ':');
  }

  /** An empty scope is dropped by Java's `split` with the other trailing
      empties, so six fields ending in an empty scope are too few. */
  lemma NormalizeEmptyScope(fields: seq<string>)
    requires |fields| == 6 && fields[5] == ""
    requires forall i :: 0 <= i < |fields| ==> ':' !in fields[i]
    ensures Normalize(Join(fields, ':')).TooFewParts?
  {
    SplitOnJoin(fields, ':');
    DropTrailingEmptyPrefix(fields);
  }

  /** An empty scope followed by a non-empty part survives Java's `split`: the
      line is read, with the empty string as its scope. */
  lemma NormalizeEmptyScopeKept(fields: seq<string>, j: nat)
    requires 6 <= j < |fields| && fields[5] == "" && fields[j] != ""
    requires forall i :: 0 <= i < |fields| ==> ':' !in fields[i]
    ensures Normalize(Join(fields, ':')).Parsed?
    ensures Normalize(Join(fields, ':')).dependency.scope == ""
  {
    NormalizeJoin(fields, j);
  }

  /** An extracted entry is its module, a colon and the processed line; when
      the module name has no colon, the entry reads back as that module and
      the five dependency fields of the line. */
  lemma NormalizeEntry(moduleName: string, fields: seq<string>)
    requires ':' !in moduleName
    requires |fields| == 5 && fields[4] != ""
    requires forall i :: 0 <= i < 5 ==> ':' !in fields[i]
    ensures Normalize(moduleName + ":" + Join(fields, ':'))
            == Parsed(moduleName, Dependency(fields[0], fields[1], fields[2], fields[3], fields[4]))
  {
    var all := [moduleName] + fields;
    assert all[1..] == fields;
    assert Join(all, ':') == moduleName + ":" + Join(fields, ':');
    NormalizeJoin(all, 5);
  }
}
