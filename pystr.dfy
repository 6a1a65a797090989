/**
 * The three pieces of Python's `str` that the dependency counter relies on:
 * `s.split()` with no argument (split on runs of whitespace), `s.split(c)`
 * for a one-character separator, and the substring test `sub in s`.
 */
module PyStr {

  /** `c.isspace()` in CPython: the characters `str.split()` separates on. */
  predicate IsSpace(c: char) {
    var n := c as int;
    || 0x09 <= n <= 0x0D
    || 0x1C <= n <= 0x20
    || n == 0x85 || n == 0xA0 || n == 0x1680
    || 0x2000 <= n <= 0x200A
    || n == 0x2028 || n == 0x2029 || n == 0x202F || n == 0x205F || n == 0x3000
  }

  predicate NoSpace(s: string) {
    forall k | 0 <= k < |s| :: !IsSpace(s[k])
  }

  /** Gluing two strings without whitespace gives one without whitespace. */
  lemma NoSpaceConcat(a: string, b: string)
    requires NoSpace(a) && NoSpace(b)
    ensures NoSpace(a + b)
  {
    forall k | 0 <= k < |a + b|
      ensures !IsSpace((a + b)[k])
    {
      if k >= |a| {
        assert (a + b)[k] == b[k - |a|];
      }
    }
  }

  predicate AllSpace(s: string) {
    forall k | 0 <= k < |s| :: IsSpace(s[k])
  }

  /** A field of `split()`: non-empty, without whitespace. */
  predicate Word(s: string) {
    s != [] && NoSpace(s)
  }

  /** Length of the run of non-whitespace characters that starts `s`. */
  function WordLength(s: string): (n: nat)
    ensures n <= |s|
    ensures NoSpace(s[..n])
    ensures n < |s| ==> IsSpace(s[n])
  {
    if s == [] || IsSpace(s[0]) then 0 else 1 + WordLength(s[1..])
  }

  /**
   * `s.split()`: the maximal runs of non-whitespace characters, in order.
   * Leading and trailing whitespace produce no empty fields.
   */
  function Fields(s: string): (fields: seq<string>)
    ensures forall f | f in fields :: f != [] && NoSpace(f)
    decreases |s|
  {
    if s == [] then []
    else if IsSpace(s[0]) then Fields(s[1..])
    else
      var n := WordLength(s);
      [s[..n]] + Fields(s[n..])
  }

  /** The word at the head of `s + t` is the word at the head of `s`, unless `s` has no whitespace. */
  lemma {:induction false} WordLengthAppend(s: string, t: string)
    ensures WordLength(s + t) == if WordLength(s) < |s| then WordLength(s) else |s| + WordLength(t)
    decreases |s|
  {
    if s != [] && !IsSpace(s[0]) {
      assert (s + t)[1..] == s[1..] + t;
      WordLengthAppend(s[1..], t);
    } else if s == [] {
      assert s + t == t;
    }
  }

  /** Whitespace in front of a line is ignored by `split()`. */
  lemma {:induction false} FieldsSkipLeadingSpace(w: string, s: string)
    requires AllSpace(w)
    ensures Fields(w + s) == Fields(s)
    decreases |w|
  {
    if w == [] {
      assert w + s == s;
    } else {
      assert (w + s)[1..] == w[1..] + s;
      FieldsSkipLeadingSpace(w[1..], s);
    }
  }

  /** Whitespace after a line, such as its newline, is ignored by `split()`. */
  lemma {:induction false} FieldsSkipTrailingSpace(s: string, w: string)
    requires AllSpace(w)
    ensures Fields(s + w) == Fields(s)
    decreases |s|
  {
    if s == [] {
      assert s + w == w + [];
      FieldsSkipLeadingSpace(w, []);
    } else if IsSpace(s[0]) {
      assert (s + w)[1..] == s[1..] + w;
      FieldsSkipTrailingSpace(s[1..], w);
    } else {
      var n := WordLength(s);
      WordLengthAppend(s, w);
      assert WordLength(s + w) == n;
      assert (s + w)[..n] == s[..n];
      assert (s + w)[n..] == s[n..] + w;
      FieldsSkipTrailingSpace(s[n..], w);
    }
  }

  /** A word followed by whitespace (or nothing) is the first field. */
  lemma FieldsWordThen(w: string, s: string)
    requires w != [] && NoSpace(w)
    requires s == [] || IsSpace(s[0])
    ensures Fields(w + s) == [w] + Fields(s)
  {
    WordLengthAppend(w, s);
    assert (w + s)[0] == w[0];
    assert (w + s)[..|w|] == w;
    assert (w + s)[|w|..] == s;
  }

  /** Two words joined by one space split back into those two words. */
  lemma FieldsOfTwoWords(a: string, b: string)
    requires a != [] && NoSpace(a)
    requires b != [] && NoSpace(b)
    ensures Fields(a + " " + b) == [a, b]
  {
    assert IsSpace(' ');
    FieldsWordThen(b, []);
    assert b + [] == b;
    FieldsSkipLeadingSpace(" ", b);
    FieldsWordThen(a, " " + b);
    assert a + " " + b == a + (" " + b);
  }

  /**
   * Words joined by single spaces split back into those words: `Fields` undoes
   * `" ".join(words)`, so the field count of such a line is its word count.
   */
  lemma {:induction false} FieldsJoin(words: seq<string>)
    requires forall i | 0 <= i < |words| :: Word(words[i])
    ensures Fields(Join(words, ' ')) == words
    decreases |words|
  {
    if |words| == 1 {
      FieldsWordThen(words[0], []);
      assert words[0] + [] == words[0];
    } else if |words| > 1 {
      FieldsJoin(words[1..]);
      FieldsWordSpaceThen(words[0], Join(words[1..], ' '));
      assert words == [words[0]] + words[1..];
    }
  }

  /** A word, a space, then any text: the word is the first field. */
  lemma FieldsWordSpaceThen(w: string, rest: string)
    requires Word(w)
    ensures Fields(w + [' '] + rest) == [w] + Fields(rest)
  {
    assert IsSpace(' ');
    FieldsSkipLeadingSpace([' '], rest);
    FieldsWordThen(w, [' '] + rest);
    assert w + [' '] + rest == w + ([' '] + rest);
  }

  /** Index of the first `c` in `s`, or `|s|` when `s` has none. */
  function IndexOf(s: string, c: char): (i: nat)
    ensures i <= |s|
    ensures c !in s[..i]
    ensures i < |s| ==> s[i] == c
  {
    if s == [] || s[0] == c then 0 else 1 + IndexOf(s[1..], c)
  }

  /** `s.split(sep)` for a one-character separator: empty pieces are kept. */
  function Split(s: string, sep: char): (pieces: seq<string>)
    ensures |pieces| >= 1
    ensures forall p | p in pieces :: sep !in p
    decreases |s|
  {
    var i := IndexOf(s, sep);
    if i == |s| then [s] else [s[..i]] + Split(s[i + 1..], sep)
  }

  /** `sep.join(pieces)`, the inverse of `Split`. */
  function Join(pieces: seq<string>, sep: char): string
    decreases |pieces|
  {
    if pieces == [] then []
    else if |pieces| == 1 then pieces[0]
    else pieces[0] + [sep] + Join(pieces[1..], sep)
  }

  /** Number of occurrences of `c` in `s`. */
  function Count(s: string, c: char): nat {
    multiset(s)[c]
  }

  /** Joining the pieces with the separator gives back the original string. */
  lemma {:induction false} JoinSplit(s: string, sep: char)
    ensures Join(Split(s, sep), sep) == s
    decreases |s|
  {
    var i := IndexOf(s, sep);
    if i < |s| {
      var rest := s[i + 1..];
      var pieces := Split(s, sep);
      assert pieces == [s[..i]] + Split(rest, sep);
      assert Join(pieces, sep) == s[..i] + [sep] + Join(Split(rest, sep), sep) by {
        assert pieces[1..] == Split(rest, sep);
      }
      JoinSplit(rest, sep);
      assert s == s[..i] + [sep] + rest;
    }
  }

  /** Splitting yields one piece more than there are separators. */
  lemma {:induction false} SplitCount(s: string, sep: char)
    ensures |Split(s, sep)| == Count(s, sep) + 1
    decreases |s|
  {
    var i := IndexOf(s, sep);
    if i == |s| {
      assert s[..i] == s;
    } else {
      SplitCount(s[i + 1..], sep);
      assert s == s[..i] + [sep] + s[i + 1..];
      assert multiset(s) == multiset(s[..i]) + multiset{sep} + multiset(s[i + 1..]);
    }
  }

  /** Splitting a join of separator-free pieces gives back those pieces. */
  lemma {:induction false} SplitJoin(pieces: seq<string>, sep: char)
    requires |pieces| >= 1
    requires forall p | p in pieces :: sep !in p
    ensures Split(Join(pieces, sep), sep) == pieces
    decreases |pieces|
  {
    var p := pieces[0];
    if |pieces| == 1 {
      IndexOfAfterFree(p, sep, []);
      assert p + [] == p;
    } else {
      var rest := Join(pieces[1..], sep);
      var s := p + [sep] + rest;
      IndexOfAfterFree(p, sep, [sep] + rest);
      assert s == p + ([sep] + rest);
      assert s[..|p|] == p;
      assert s[|p| + 1..] == rest;
      SplitJoin(pieces[1..], sep);
    }
  }

  /** A prefix free of the separator is skipped whole by the search for it. */
  lemma {:induction false} IndexOfAfterFree(p: string, sep: char, rest: string)
    requires sep !in p
    ensures IndexOf(p + rest, sep) == |p| + IndexOf(rest, sep)
    decreases |p|
  {
    if p == [] {
      assert p + rest == rest;
    } else {
      assert (p + rest)[1..] == p[1..] + rest;
      IndexOfAfterFree(p[1..], sep, rest);
    }
  }

  /** A string without the separator is one piece. */
  lemma SplitNone(s: string, sep: char)
    requires sep !in s
    ensures Split(s, sep) == [s]
  {
    IndexOfAfterFree(s, sep, []);
    assert s + [] == s;
  }

  /** Two separator-free strings joined by the separator split back into the two. */
  lemma SplitTwo(a: string, b: string, sep: char)
    requires sep !in a && sep !in b
    ensures Split(a + [sep] + b, sep) == [a, b]
  {
    SplitAfterFree(a, b, sep);
    SplitNone(b, sep);
  }

  /** Three separator-free strings joined by the separator split back into the three. */
  lemma SplitThree(a: string, b: string, c: string, sep: char)
    requires sep !in a && sep !in b && sep !in c
    ensures Split(a + [sep] + b + [sep] + c, sep) == [a, b, c]
  {
    var rest := b + [sep] + c;
    assert a + [sep] + b + [sep] + c == a + [sep] + rest;
    SplitAfterFree(a, rest, sep);
    SplitTwo(b, c, sep);
  }

  /** A separator-free prefix and its separator split off as the first piece. */
  lemma SplitAfterFree(a: string, rest: string, sep: char)
    requires sep !in a
    ensures Split(a + [sep] + rest, sep) == [a] + Split(rest, sep)
  {
    var s := a + [sep] + rest;
    IndexOfAfterFree(a, sep, [sep] + rest);
    assert s == a + ([sep] + rest);
    assert s[..|a|] == a;
    assert s[|a| + 1..] == rest;
  }

  /**
   * With at least one separator, the first two pieces and the separator
   * between them make up the start of `s`, and what follows is either the
   * end of `s` or a second separator.
   */
  lemma {:induction false} SplitFirstTwo(s: string, sep: char)
    requires |Split(s, sep)| >= 2
    ensures var pieces := Split(s, sep);
            var k := |pieces[0]| + 1 + |pieces[1]|;
            && k <= |s|
            && s[..k] == pieces[0] + [sep] + pieces[1]
            && (k == |s| || s[k] == sep)
  {
    var i := IndexOf(s, sep);
    var rest := s[i + 1..];
    var j := IndexOf(rest, sep);
    SplitFirstPieces(s, sep);
    TwoPiecesPrefix(s, sep, i, j, Split(s, sep)[0], Split(s, sep)[1]);
  }

  /** The first two pieces, cut at the first separator and at the one after it. */
  lemma SplitFirstPieces(s: string, sep: char)
    requires |Split(s, sep)| >= 2
    ensures var i := IndexOf(s, sep);
            && i < |s|
            && Split(s, sep)[0] == s[..i]
            && Split(s, sep)[1] == s[i + 1..][..IndexOf(s[i + 1..], sep)]
  {
    var i := IndexOf(s, sep);
    SplitUnfold(s, sep);
    SplitHead(s[i + 1..], sep);
  }

  /** One step of `Split`: the text before the first separator, then the split of the rest. */
  lemma SplitUnfold(s: string, sep: char)
    ensures var i := IndexOf(s, sep);
            && (i == |s| ==> Split(s, sep) == [s])
            && (i < |s| ==> Split(s, sep) == [s[..i]] + Split(s[i + 1..], sep))
  {
  }

  /** Two pieces cut at separator `s[i]` and `j` characters after it make up the start of `s`. */
  lemma TwoPiecesPrefix(s: string, sep: char, i: nat, j: nat, p0: string, p1: string)
    requires i < |s| && s[i] == sep && j <= |s| - i - 1
    requires p0 == s[..i] && p1 == s[i + 1..][..j]
    requires j < |s| - i - 1 ==> s[i + 1..][j] == sep
    ensures var k := |p0| + 1 + |p1|;
            && k <= |s|
            && s[..k] == p0 + [sep] + p1
            && (k == |s| || s[k] == sep)
  {
    assert s[..i + 1 + j] == s[..i] + [s[i]] + s[i + 1..][..j];
  }

  /** The first piece is everything before the first separator. */
  lemma SplitHead(s: string, sep: char)
    ensures Split(s, sep)[0] == s[..IndexOf(s, sep)]
  {
    if IndexOf(s, sep) == |s| {
      assert s[..|s|] == s;
    }
  }

  /** `sub` occurs in `s` starting at index `i`. */
  predicate OccursAt(s: string, sub: string, i: nat) {
    i + |sub| <= |s| && s[i..i + |sub|] == sub
  }

  /** Python's `sub in s`: `sub` occurs as a contiguous piece of `s`. */
  predicate Contains(s: string, sub: string)
    ensures Contains(s, sub) ==> |sub| <= |s|
    ensures sub == [] ==> Contains(s, sub)
  {
    assert sub == [] ==> OccursAt(s, sub, 0);
    exists i: nat | i <= |s| :: OccursAt(s, sub, i)
  }

  /** `sub in s` exactly when `s` is some text, then `sub`, then some more text. */
  lemma ContainsIffSurrounded(s: string, sub: string)
    ensures Contains(s, sub) <==> exists before, after :: s == before + sub + after
  {
    if Contains(s, sub) {
      var i: nat :| i <= |s| && OccursAt(s, sub, i);
      assert s == s[..i] + sub + s[i + |sub|..];
    }
    if exists before, after :: s == before + sub + after {
      var before, after :| s == before + sub + after;
      assert OccursAt(s, sub, |before|);
    }
  }
}
