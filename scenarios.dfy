/**
 * Concrete runs of the edge parser and the package collector on small
 * `go mod graph` logs, derived from the general lemmas.
 */
module Scenarios {
  import opened PyStr
  import opened EdgeParser
  import opened PackageCollector

  /**
   * A root module that depends on `dep1`, which depends on `dep2` and on a
   * platform `tool`: the log
   *   root dep1@v1
   *   dep1@v1 dep2@v2
   *   dep1@v1 tool@v3
   * is read back edge by edge, and exactly `root`, `dep1` and `dep2` are
   * collected, because only the tool contains the pattern.
   */
  lemma RootDepsAndTool(root: string, dep1: string, dep2: string, tool: string,
                        v1: string, v2: string, v3: string, pattern: string)
    requires root != [] && Clean(root) && Clean(dep1) && Clean(dep2) && Clean(tool)
    requires Clean(v1) && Clean(v2) && Clean(v3)
    requires !Contains(root, pattern) && !Contains(dep1, pattern) && !Contains(dep2, pattern)
    requires Contains(tool, pattern)
    ensures var edges := [Token(root, dep1, None, Some(v1)),
                          Token(dep1, dep2, Some(v1), Some(v2)),
                          Token(dep1, tool, Some(v1), Some(v3))];
            && ParseAll(PrintedLog(edges)) == Ok(edges)
            && Collected(edges, pattern) == {root, dep1, dep2}
  {
    var edges := [Token(root, dep1, None, Some(v1)),
                  Token(dep1, dep2, Some(v1), Some(v2)),
                  Token(dep1, tool, Some(v1), Some(v3))];
    assert forall i | 0 <= i < |edges| :: WellFormed(edges[i]);
    PrintedLogParses(edges);
    assert Collected(edges, pattern) == {root, dep1, dep2} by {
      CollectedOfThree(edges, pattern);
    }
  }

  /**
   * The whole run on the printed log of that graph, from its three text lines
   * to the report: the root and the two dependencies, and `Total:` three when
   * the three names differ.
   */
  method CountRootDepsAndTool(root: string, dep1: string, dep2: string, tool: string,
                              v1: string, v2: string, v3: string, pattern: string)
    returns (r: Result<Report>)
    requires root != [] && Clean(root) && Clean(dep1) && Clean(dep2) && Clean(tool)
    requires Clean(v1) && Clean(v2) && Clean(v3)
    requires !Contains(root, pattern) && !Contains(dep1, pattern) && !Contains(dep2, pattern)
    requires Contains(tool, pattern)
    ensures r == Ok(Report({root, dep1, dep2}, |{root, dep1, dep2}|))
    ensures root != dep1 && root != dep2 && dep1 != dep2 ==> r.Ok? && r.value.total == 3
  {
    var edges := [Token(root, dep1, None, Some(v1)),
                  Token(dep1, dep2, Some(v1), Some(v2)),
                  Token(dep1, tool, Some(v1), Some(v3))];
    assert forall i | 0 <= i < |edges| :: WellFormed(edges[i]);
    var lines := PrintedLog(edges);
    assert ParseAll(lines) == Ok(edges) && Collected(edges, pattern) == {root, dep1, dep2} by {
      RootDepsAndTool(root, dep1, dep2, tool, v1, v2, v3, pattern);
    }
    r := CountPackages(lines, pattern);
    if root != dep1 && root != dep2 && dep1 != dep2 {
      DistinctThree(root, dep1, dep2);
    }
  }

  /** Three different names make a set of three. */
  lemma DistinctThree(a: string, b: string, c: string)
    requires a != b && a != c && b != c
    ensures |{a, b, c}| == 3
  {
    assert {a, b, c} == {a, b} + {c};
    assert c !in {a, b};
  }

  /** The fold over three edges, one step at a time. */
  lemma CollectedOfThree(edges: seq<Token>, pattern: string)
    requires |edges| == 3
    ensures Collected(edges, pattern)
            == Step(Step(Step({}, edges[0], pattern), edges[1], pattern), edges[2], pattern)
  {
    assert edges[..1][..0] == [];
    assert Collected(edges[..1], pattern) == Step({}, edges[0], pattern);
    assert edges[..2][..1] == edges[..1];
    assert Collected(edges[..2], pattern) == Step(Collected(edges[..1], pattern), edges[1], pattern);
  }

  const Root := "example.com/root"
  const Dep1 := "example.com/dep1"
  const Dep2 := "example.com/dep2"
  const Tools := "github.com/golang/x/tools"

  /**
   * With the default pattern, the example.com modules are counted and the
   * golang tool is not: three packages.
   */
  lemma ThreePackagesCounted()
    ensures var edges := [Token(Root, Dep1, None, Some("v1.0.0")),
                          Token(Dep1, Dep2, Some("v1.0.0"), Some("v2.0.0")),
                          Token(Dep1, Tools, Some("v1.0.0"), Some("v0.1.0"))];
            && Collected(edges, GolangPattern) == {Root, Dep1, Dep2}
            && |Collected(edges, GolangPattern)| == 3
  {
    var edges := [Token(Root, Dep1, None, Some("v1.0.0")),
                  Token(Dep1, Dep2, Some("v1.0.0"), Some("v2.0.0")),
                  Token(Dep1, Tools, Some("v1.0.0"), Some("v0.1.0"))];
    assert !Contains(Root, GolangPattern) && !Contains(Dep1, GolangPattern) && !Contains(Dep2, GolangPattern);
    assert OccursAt(Tools, GolangPattern, 0);
    CollectedOfThree(edges, GolangPattern);
    assert Root != Dep1 && Root != Dep2 && Dep1 != Dep2 by {
      assert Root[12] != Dep1[12] && Root[12] != Dep2[12] && Dep1[15] != Dep2[15];
    }
  }
}
