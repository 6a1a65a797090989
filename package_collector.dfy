/**
 * The package collector of go_depts_counter.py: the loop of its `__main__`
 * block, taken out as a method over the lines of the `go mod graph` log. It
 * parses each line, keeps the names that do not contain the exclusion
 * pattern in a set, and reports that set with its size. A malformed line
 * aborts the whole run: no package list and no total are produced.
 */
module PackageCollector {
  import opened PyStr
  import opened EdgeParser

  /** `GOLANG_PATTERN`, the default exclusion pattern. */
  const GolangPattern := "github.com/golang/"

  /** What the run reports: the distinct package names and the `Total:` count. */
  datatype Report = Report(packages: set<string>, total: nat)

  /**
   * The tokens of all lines in order, or the error of the first line that
   * does not parse.
   */
  function ParseAll(lines: seq<string>): (r: Result<seq<Token>>)
    ensures r.Ok? ==> |r.value| == |lines|
    ensures r.Ok? ==> forall i | 0 <= i < |lines| :: ParseLine(lines[i]) == Ok(r.value[i])
  {
    if lines == [] then Ok([])
    else
      var last := |lines| - 1;
      match ParseAll(lines[..last])
      case Err(e) => Err(e)
      case Ok(tokens) =>
        match ParseLine(lines[last])
        case Err(e) => Err(e)
        case Ok(t) => Ok(tokens + [t])
  }

  /**
   * The log parses exactly when every line does; otherwise its error is that
   * of the first line that does not.
   */
  lemma {:induction false} ParseAllFails(lines: seq<string>)
    ensures ParseAll(lines).Ok? <==> forall i | 0 <= i < |lines| :: ParseLine(lines[i]).Ok?
    ensures ParseAll(lines).Err? ==> exists k | 0 <= k < |lines| ::
              && ParseLine(lines[k]) == Err(ParseAll(lines).error)
              && forall i | 0 <= i < k :: ParseLine(lines[i]).Ok?
    decreases |lines|
  {
    if lines != [] {
      var last := |lines| - 1;
      var init := lines[..last];
      ParseAllFails(init);
      assert forall i | 0 <= i < last :: init[i] == lines[i];
      if ParseAll(init).Err? {
        var k :| 0 <= k < |init| && ParseLine(init[k]) == Err(ParseAll(init).error)
                 && forall i | 0 <= i < k :: ParseLine(init[i]).Ok?;
        assert ParseLine(lines[k]) == Err(ParseAll(lines).error);
      } else if ParseLine(lines[last]).Err? {
        assert ParseLine(lines[last]) == Err(ParseAll(lines).error);
      }
    }
  }

  /** Once a prefix of the log fails to parse, the whole log fails with the same error. */
  lemma {:induction false} ParseAllFailsFromPrefix(lines: seq<string>, k: nat)
    requires k <= |lines|
    requires ParseAll(lines[..k]).Err?
    ensures ParseAll(lines) == ParseAll(lines[..k])
    decreases |lines| - k
  {
    if k < |lines| {
      var next := lines[..k + 1];
      assert next[..|next| - 1] == lines[..k];
      assert ParseAll(next) == ParseAll(lines[..k]);
      ParseAllFailsFromPrefix(lines, k + 1);
    } else {
      assert lines[..k] == lines;
    }
  }

  /** The log `go mod graph` writes for the given edges: one printed edge per line. */
  function PrintedLog(edges: seq<Token>): (log: seq<string>)
    requires forall i | 0 <= i < |edges| :: WellFormed(edges[i])
  {
    seq(|edges|, i requires 0 <= i < |edges| => assert WellFormed(edges[i]); Format(edges[i]) + "\n")
  }

  /** Reading back the log printed for well-formed edges gives those edges, in order. */
  lemma PrintedLogParses(edges: seq<Token>)
    requires forall i | 0 <= i < |edges| :: WellFormed(edges[i])
    ensures ParseAll(PrintedLog(edges)) == Ok(edges)
  {
    var log := PrintedLog(edges);
    forall i | 0 <= i < |edges|
      ensures ParseLine(log[i]) == Ok(edges[i])
    {
      FormatRoundTrip(edges[i]);
    }
    ParseAllFails(log);
    assert ParseAll(log).value == edges;
  }

  /** One pass of the loop body: the source, and then the dependency, if neither contains the pattern. */
  function Step(packages: set<string>, t: Token, pattern: string): (r: set<string>)
    ensures forall name :: name in r <==> name in packages || AdmittedBy(t, name, pattern)
  {
    if !Contains(t.package, pattern) then
      if !Contains(t.dependency, pattern) then packages + {t.package, t.dependency}
      else packages + {t.package}
    else packages
  }

  /** The set the loop has built after the given tokens, starting from the empty set. */
  function Collected(tokens: seq<Token>, pattern: string): (r: set<string>)
    ensures forall name | name in r :: !Contains(name, pattern)
  {
    if tokens == [] then {}
    else Step(Collected(tokens[..|tokens| - 1], pattern), tokens[|tokens| - 1], pattern)
  }

  /** A name enters the package set through edge `t`. */
  predicate AdmittedBy(t: Token, name: string, pattern: string) {
    && !Contains(t.package, pattern)
    && (name == t.package || (name == t.dependency && !Contains(name, pattern)))
  }

  /**
   * The lines 55-61 and 64 of go_depts_counter.py: fold the parsed lines into
   * a set of package names and report it with its size; the first malformed
   * line aborts with its error.
   */
  method CountPackages(lines: seq<string>, pattern: string := GolangPattern) returns (r: Result<Report>)
    ensures ParseAll(lines).Err? ==> r == Err(ParseAll(lines).error)
    ensures ParseAll(lines).Ok? ==>
              && r.Ok?
              && r.value.packages == Collected(ParseAll(lines).value, pattern)
              && r.value.total == |r.value.packages|
  {
    var packages: set<string> := {};
    ghost var tokens: seq<Token> := [];
    for i := 0 to |lines|
      invariant ParseAll(lines[..i]) == Ok(tokens)
      invariant packages == Collected(tokens, pattern)
    {
      assert lines[..i + 1][..i] == lines[..i];
      var parsed := ParseLine(lines[i]);
      if parsed.Err? {
        ParseAllFailsFromPrefix(lines, i + 1);
        return Err(parsed.error);
      }
      var token := parsed.value;
      if !Contains(token.package, pattern) {
        packages := packages + {token.package};
        if !Contains(token.dependency, pattern) {
          packages := packages + {token.dependency};
        }
      }
      tokens := tokens + [token];
      assert tokens[..|tokens| - 1] == tokens[..i];
    }
    assert lines[..|lines|] == lines;
    return Ok(Report(packages, |packages|));
  }

  /**
   * Exactly the names some edge admits are collected: the source of an edge
   * whose source does not contain the pattern, and the dependency of such an
   * edge when the dependency does not contain it either.
   */
  lemma {:induction false} CollectedMembers(tokens: seq<Token>, pattern: string, name: string)
    ensures name in Collected(tokens, pattern) <==>
              exists i | 0 <= i < |tokens| :: AdmittedBy(tokens[i], name, pattern)
    decreases |tokens|
  {
    if tokens != [] {
      var init := tokens[..|tokens| - 1];
      CollectedMembers(init, pattern, name);
      if name in Collected(tokens, pattern) && name !in Collected(init, pattern) {
        assert AdmittedBy(tokens[|tokens| - 1], name, pattern);
      }
      if exists i | 0 <= i < |tokens| :: AdmittedBy(tokens[i], name, pattern) {
        var i :| 0 <= i < |tokens| && AdmittedBy(tokens[i], name, pattern);
        if i < |init| {
          assert AdmittedBy(init[i], name, pattern);
        }
      }
    }
  }

  /** No collected name contains the exclusion pattern. */
  lemma CollectedExcludesPattern(tokens: seq<Token>, pattern: string, name: string)
    requires name in Collected(tokens, pattern)
    ensures !Contains(name, pattern)
  {
    CollectedMembers(tokens, pattern, name);
  }

  /** An edge's source name is collected exactly when it does not contain the pattern. */
  lemma SourceCollected(tokens: seq<Token>, pattern: string, i: nat)
    requires i < |tokens|
    ensures tokens[i].package in Collected(tokens, pattern) <==> !Contains(tokens[i].package, pattern)
  {
    CollectedMembers(tokens, pattern, tokens[i].package);
  }

  /** An edge whose source and dependency both avoid the pattern puts the dependency in the set. */
  lemma DependencyCollected(tokens: seq<Token>, pattern: string, i: nat)
    requires i < |tokens|
    requires !Contains(tokens[i].package, pattern) && !Contains(tokens[i].dependency, pattern)
    ensures tokens[i].dependency in Collected(tokens, pattern)
  {
    CollectedMembers(tokens, pattern, tokens[i].dependency);
    assert AdmittedBy(tokens[i], tokens[i].dependency, pattern);
  }

  /**
   * An edge whose source contains the pattern adds nothing: the set is the
   * same as without that edge, so its dependency is not recorded through it.
   */
  lemma ExcludedSourceAddsNothing(tokens: seq<Token>, pattern: string, i: nat)
    requires i < |tokens|
    requires Contains(tokens[i].package, pattern)
    ensures Collected(tokens, pattern) == Collected(tokens[..i] + tokens[i + 1..], pattern)
  {
    var t := tokens[i];
    assert tokens == tokens[..i] + ([t] + tokens[i + 1..]);
    CollectedAppend(tokens[..i], [t] + tokens[i + 1..], pattern);
    CollectedAppend([t], tokens[i + 1..], pattern);
    CollectedAppend(tokens[..i], tokens[i + 1..], pattern);
    assert [t][..0] == [];
    assert Collected([t], pattern) == {};
  }

  /** The set of a log is the union of the sets of its two halves. */
  lemma {:induction false} CollectedAppend(a: seq<Token>, b: seq<Token>, pattern: string)
    ensures Collected(a + b, pattern) == Collected(a, pattern) + Collected(b, pattern)
    decreases |b|
  {
    if b == [] {
      assert a + b == a;
    } else {
      var last := |b| - 1;
      CollectedAppend(a, b[..last], pattern);
      assert (a + b)[..|a + b| - 1] == a + b[..last];
      assert (a + b)[|a + b| - 1] == b[last];
      StepAddsOnly(Collected(a + b[..last], pattern), b[last], pattern);
      StepAddsOnly(Collected(b[..last], pattern), b[last], pattern);
    }
  }

  /** A step adds to the set what it adds to the empty set, and removes nothing. */
  lemma StepAddsOnly(packages: set<string>, t: Token, pattern: string)
    ensures Step(packages, t, pattern) == packages + Step({}, t, pattern)
  {
  }

  /**
   * Logs with the same edges give the same set, however the edges are
   * ordered and however often each is repeated.
   */
  lemma CollectedSameEdges(a: seq<Token>, b: seq<Token>, pattern: string)
    requires forall t :: t in a <==> t in b
    ensures Collected(a, pattern) == Collected(b, pattern)
  {
    forall name | name in Collected(a, pattern)
      ensures name in Collected(b, pattern)
    {
      CollectedMembers(a, pattern, name);
      var i :| 0 <= i < |a| && AdmittedBy(a[i], name, pattern);
      assert a[i] in b;
      var j :| 0 <= j < |b| && b[j] == a[i];
      CollectedMembers(b, pattern, name);
    }
    forall name | name in Collected(b, pattern)
      ensures name in Collected(a, pattern)
    {
      CollectedMembers(b, pattern, name);
      var j :| 0 <= j < |b| && AdmittedBy(b[j], name, pattern);
      assert b[j] in a;
      var i :| 0 <= i < |a| && a[i] == b[j];
      CollectedMembers(a, pattern, name);
    }
  }

  /** The set only grows as more lines are processed. */
  lemma CollectedGrows(tokens: seq<Token>, k: nat, pattern: string)
    requires k <= |tokens|
    ensures Collected(tokens[..k], pattern) <= Collected(tokens, pattern)
  {
    CollectedAppend(tokens[..k], tokens[k..], pattern);
    assert tokens[..k] + tokens[k..] == tokens;
  }

  /** Swapping the two halves of a log, or reading the same log twice, changes nothing. */
  lemma CollectedOrderAndRepeat(a: seq<Token>, b: seq<Token>, pattern: string)
    ensures Collected(a + b, pattern) == Collected(b + a, pattern)
    ensures Collected(a + a, pattern) == Collected(a, pattern)
  {
    CollectedAppend(a, b, pattern);
    CollectedAppend(b, a, pattern);
    CollectedAppend(a, a, pattern);
  }

  /** Versions play no part: logs with the same names edge by edge give the same set. */
  lemma {:induction false} CollectedIgnoresVersions(a: seq<Token>, b: seq<Token>, pattern: string)
    requires |a| == |b|
    requires forall i | 0 <= i < |a| :: a[i].package == b[i].package && a[i].dependency == b[i].dependency
    ensures Collected(a, pattern) == Collected(b, pattern)
    decreases |a|
  {
    if a != [] {
      CollectedIgnoresVersions(a[..|a| - 1], b[..|b| - 1], pattern);
    }
  }

  /** Each edge adds at most two names, so the total is at most twice the number of lines. */
  lemma {:induction false} CollectedSize(tokens: seq<Token>, pattern: string)
    ensures |Collected(tokens, pattern)| <= 2 * |tokens|
    decreases |tokens|
  {
    if tokens != [] {
      var init := tokens[..|tokens| - 1];
      var t := tokens[|tokens| - 1];
      CollectedSize(init, pattern);
      var before := Collected(init, pattern);
      assert |before + {t.package, t.dependency}| <= |before| + |{t.package, t.dependency}|;
      assert |before + {t.package}| <= |before| + 1;
    }
  }

  /** The empty pattern occurs in every name, so nothing is collected. */
  lemma EmptyPatternCollectsNothing(tokens: seq<Token>)
    ensures Collected(tokens, []) == {}
  {
  }
}
