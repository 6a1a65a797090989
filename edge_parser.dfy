/**
 * The edge parser of go_depts_counter.py: `log_parser` turns one line of
 * `go mod graph` output, `source[@version] target@version`, into a `Token`.
 * A line the tuple unpacking of the source rejects with `ValueError` is an
 * `Err` here.
 */
module EdgeParser {
  import opened PyStr

  datatype Option<T> = None | Some(value: T)

  /** The two `ValueError`s `log_parser` can raise, with the count the unpacking saw. */
  datatype ParseError =
    | FieldCount(fields: nat)     // the line does not split into exactly two fields
    | TargetPieces(pieces: nat)   // the target does not split on '@' into exactly two pieces

  datatype Result<T> = Ok(value: T) | Err(error: ParseError)

  /**
   * One edge of the module graph. Both versions are optional in the
   * dataclass; the parser always fills in `dependencyVersion`.
   */
  datatype Token = Token(
    package: string,
    dependency: string,
    packageVersion: Option<string>,
    dependencyVersion: Option<string>)

  const VersionSep := '@'

  /** `log_parser(string)`: split the line into its two fields, then read them. */
  function ParseLine(line: string): (r: Result<Token>)
    ensures r.Ok? ==> r.value.dependencyVersion.Some?
  {
    var fields := Fields(line);
    if |fields| != 2 then Err(FieldCount(|fields|))
    else ParseEdge(fields[0], fields[1])
  }

  /** Lines 37-45 of `log_parser`: the source and target fields into a `Token`. */
  function ParseEdge(source: string, target: string): (r: Result<Token>)
    ensures r.Ok? ==> r.value.dependencyVersion.Some?
  {
    var packageWithVer := Split(source, VersionSep);
    var packageName := packageWithVer[0];
    var packageVersion := if |packageWithVer| > 1 then Some(packageWithVer[1]) else None;
    var dependencyParts := Split(target, VersionSep);
    if |dependencyParts| != 2 then Err(TargetPieces(|dependencyParts|))
    else Ok(Token(packageName, dependencyParts[0], packageVersion, Some(dependencyParts[1])))
  }

  /** A line is rejected exactly when it has other than two fields or its target other than one '@'. */
  lemma ParseLineOutcome(line: string)
    ensures |Fields(line)| != 2 ==> ParseLine(line) == Err(FieldCount(|Fields(line)|))
    ensures |Fields(line)| == 2 && Count(Fields(line)[1], VersionSep) != 1 ==>
              ParseLine(line) == Err(TargetPieces(Count(Fields(line)[1], VersionSep) + 1))
    ensures ParseLine(line).Ok? <==> |Fields(line)| == 2 && Count(Fields(line)[1], VersionSep) == 1
  {
    var fields := Fields(line);
    if |fields| == 2 {
      SplitCount(fields[1], VersionSep);
    }
  }

  /** On success the target field is `dependency@dependencyVersion`, neither part holding an '@'. */
  lemma ParseLineTarget(line: string)
    requires ParseLine(line).Ok?
    ensures var t := ParseLine(line).value;
            && t.dependencyVersion.Some?
            && Fields(line)[1] == t.dependency + [VersionSep] + t.dependencyVersion.value
            && VersionSep !in t.dependency
            && VersionSep !in t.dependencyVersion.value
  {
    var target := Fields(line)[1];
    var pieces := Split(target, VersionSep);
    JoinSplit(target, VersionSep);
    assert Join(pieces, VersionSep) == pieces[0] + [VersionSep] + pieces[1];
  }

  /** An unversioned source (the root module) is the whole package name, with no version. */
  lemma ParseLineUnversionedSource(line: string)
    requires ParseLine(line).Ok?
    requires VersionSep !in Fields(line)[0]
    ensures ParseLine(line).value.package == Fields(line)[0]
    ensures ParseLine(line).value.packageVersion == None
  {
    var source := Fields(line)[0];
    IndexOfAfterFree(source, VersionSep, []);
    assert source + [] == source;
  }

  /**
   * A versioned source: the package is the text before the first '@', and the
   * version is the text from there up to the second '@' or the end of the
   * field; anything after a second '@' is dropped.
   */
  lemma ParseLineVersionedSource(line: string)
    requires ParseLine(line).Ok?
    requires VersionSep in Fields(line)[0]
    ensures var t := ParseLine(line).value;
            var source := Fields(line)[0];
            && t.packageVersion.Some?
            && VersionSep !in t.package
            && VersionSep !in t.packageVersion.value
            && var k := |t.package| + 1 + |t.packageVersion.value|;
               && k <= |source|
               && source[..k] == t.package + [VersionSep] + t.packageVersion.value
               && (k == |source| || source[k] == VersionSep)
  {
    var source := Fields(line)[0];
    SplitCount(source, VersionSep);
    assert Count(source, VersionSep) > 0;
    SplitFirstTwo(source, VersionSep);
  }

  /** Whitespace around a line, including its newline, does not change what it parses to. */
  lemma ParseLineIgnoresSurroundingSpace(before: string, line: string, after: string)
    requires AllSpace(before) && AllSpace(after)
    ensures ParseLine(before + line + after) == ParseLine(line)
  {
    FieldsSkipLeadingSpace(before, line + after);
    FieldsSkipTrailingSpace(line, after);
    assert before + line + after == before + (line + after);
  }

  /** The `source` field of an edge line: the package, with `@version` when it has one. */
  function SourceField(t: Token): string {
    match t.packageVersion
    case None => t.package
    case Some(v) => t.package + [VersionSep] + v
  }

  /** The `target` field of an edge line: the dependency and its version. */
  function TargetField(t: Token): string
    requires t.dependencyVersion.Some?
  {
    t.dependency + [VersionSep] + t.dependencyVersion.value
  }

  /** The line `go mod graph` prints for an edge, without its newline. */
  function Format(t: Token): string
    requires t.dependencyVersion.Some?
  {
    SourceField(t) + " " + TargetField(t)
  }

  /** A name or version that can stand in an edge line as it is: no whitespace and no '@'. */
  predicate Clean(s: string) {
    NoSpace(s) && VersionSep !in s
  }

  /** Clean names and versions, a target version, and a non-empty source field. */
  predicate WellFormed(t: Token) {
    && t.dependencyVersion.Some?
    && SourceField(t) != []
    && Clean(t.package)
    && Clean(t.dependency)
    && Clean(t.dependencyVersion.value)
    && (t.packageVersion.Some? ==> Clean(t.packageVersion.value))
  }

  /** A line whose fields are known is read field by field. */
  lemma ParseLineOfFields(line: string, source: string, target: string)
    requires Fields(line) == [source, target]
    ensures ParseLine(line) == ParseEdge(source, target)
  {
  }

  /** The printed line of a well-formed edge has its source and target as fields. */
  lemma FormatFields(t: Token)
    requires WellFormed(t)
    ensures Fields(Format(t)) == [SourceField(t), TargetField(t)]
  {
    assert !IsSpace(VersionSep);
    assert NoSpace(SourceField(t));
    assert NoSpace(TargetField(t));
    FieldsOfTwoWords(SourceField(t), TargetField(t));
  }

  /** The fields of a well-formed edge read back as that edge. */
  lemma ParseEdgeOfFields(t: Token)
    requires WellFormed(t)
    ensures ParseEdge(SourceField(t), TargetField(t)) == Ok(t)
  {
    SplitTwo(t.dependency, t.dependencyVersion.value, VersionSep);
    match t.packageVersion {
      case None =>
        SplitNone(t.package, VersionSep);
      case Some(v) =>
        SplitTwo(t.package, v, VersionSep);
    }
  }

  /** Parsing the printed line of a well-formed edge, with or without its newline, gives the edge back. */
  lemma FormatRoundTrip(t: Token)
    requires WellFormed(t)
    ensures ParseLine(Format(t)) == Ok(t)
    ensures ParseLine(Format(t) + "\n") == Ok(t)
  {
    FormatFields(t);
    ParseEdgeOfFields(t);
    ParseLineOfFields(Format(t), SourceField(t), TargetField(t));
    assert AllSpace("\n");
    ParseLineIgnoresSurroundingSpace([], Format(t), "\n");
    assert [] + Format(t) + "\n" == Format(t) + "\n";
  }

  /** A line of words, one space apart, is rejected unless there are exactly two of them. */
  lemma WrongFieldCountRejected(words: seq<string>)
    requires forall i | 0 <= i < |words| :: Word(words[i])
    requires |words| != 2
    ensures ParseLine(Join(words, ' ')) == Err(FieldCount(|words|))
  {
    FieldsJoin(words);
  }

  /** A line with a third field, such as `a@1 b@2 c@3`, is rejected: it unpacks into three fields. */
  lemma ThreeFieldsRejected(a: string, b: string, c: string)
    requires Word(a) && Word(b) && Word(c)
    ensures ParseLine(a + " " + b + " " + c) == Err(FieldCount(3))
  {
    var words := [a, b, c];
    assert Join(words, ' ') == a + " " + b + " " + c by {
      assert words[1..][1..] == [c];
      assert Join(words[1..], ' ') == b + " " + c;
    }
    WrongFieldCountRejected(words);
  }

  /** Two words whose target does not split into exactly two pieces are rejected with that count. */
  lemma RejectedTarget(source: string, target: string)
    requires Word(source) && Word(target)
    requires |Split(target, VersionSep)| != 2
    ensures ParseLine(source + " " + target) == Err(TargetPieces(|Split(target, VersionSep)|))
  {
    FieldsOfTwoWords(source, target);
    ParseLineOfFields(source + " " + target, source, target);
  }

  /** A target without '@', such as `a@1 b`, is rejected: it unpacks into one piece. */
  lemma TargetWithoutVersionRejected(source: string, target: string)
    requires Word(source) && Word(target)
    requires VersionSep !in target
    ensures ParseLine(source + " " + target) == Err(TargetPieces(1))
  {
    SplitNone(target, VersionSep);
    RejectedTarget(source, target);
  }

  /** A target with two '@', such as `a@1 b@2@3`, is rejected: it unpacks into three pieces. */
  lemma TargetWithTwoVersionsRejected(source: string, name: string, v1: string, v2: string)
    requires Word(source)
    requires VersionSep !in name && VersionSep !in v1 && VersionSep !in v2
    requires NoSpace(name) && NoSpace(v1) && NoSpace(v2)
    ensures var target := name + [VersionSep] + v1 + [VersionSep] + v2;
            ParseLine(source + " " + target) == Err(TargetPieces(3))
  {
    var target := name + [VersionSep] + v1 + [VersionSep] + v2;
    assert Split(target, VersionSep) == [name, v1, v2] by {
      SplitThree(name, v1, v2, VersionSep);
    }
    assert Word(target) by {
      assert !IsSpace(VersionSep);
      NoSpaceConcat(name, [VersionSep]);
      NoSpaceConcat(name + [VersionSep], v1);
      NoSpaceConcat(name + [VersionSep] + v1, [VersionSep]);
      NoSpaceConcat(name + [VersionSep] + v1 + [VersionSep], v2);
    }
    RejectedTarget(source, target);
  }

  /** A source with two '@', such as `a@1@2 b@3`, keeps the first version and drops the rest. */
  lemma SourceWithTwoVersions(name: string, v1: string, v2: string, dependency: string, dv: string)
    requires VersionSep !in name && VersionSep !in v1 && VersionSep !in v2
    requires VersionSep !in dependency && VersionSep !in dv
    requires NoSpace(name) && NoSpace(v1) && NoSpace(v2) && NoSpace(dependency) && NoSpace(dv)
    ensures var source := name + [VersionSep] + v1 + [VersionSep] + v2;
            var target := dependency + [VersionSep] + dv;
            ParseLine(source + " " + target) == Ok(Token(name, dependency, Some(v1), Some(dv)))
  {
    var source := name + [VersionSep] + v1 + [VersionSep] + v2;
    var target := dependency + [VersionSep] + dv;
    assert Fields(source + " " + target) == [source, target] by {
      VersionedWord(name, v1 + [VersionSep] + v2);
      assert source == name + [VersionSep] + (v1 + [VersionSep] + v2);
      VersionedWord(dependency, dv);
      FieldsOfTwoWords(source, target);
    }
    ParseLineOfFields(source + " " + target, source, target);
    assert Split(source, VersionSep) == [name, v1, v2] by {
      SplitThree(name, v1, v2, VersionSep);
    }
    assert Split(target, VersionSep) == [dependency, dv] by {
      SplitTwo(dependency, dv, VersionSep);
    }
  }

  /** `name@version` is a single word when neither part holds whitespace. */
  lemma VersionedWord(name: string, version: string)
    requires NoSpace(name) && NoSpace(version)
    ensures Word(name + [VersionSep] + version)
  {
    assert !IsSpace(VersionSep);
    assert (name + [VersionSep] + version)[|name|] == VersionSep;
  }
}
