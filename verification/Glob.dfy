/** The shell's wildcard matcher: a table of two rows, swapped after each pattern character. */
module Glob {

  /** What a pattern means: `*` stands for any characters, `?` for any one, every other character for itself. */
  predicate Matches(p: string, n: string)
    decreases |p| + |n|
  {
    if p == [] then n == []
    else if p[0] == '*' then Matches(p[1..], n) || (n != [] && Matches(p, n[1..]))
    else n != [] && (p[0] == '?' || p[0] == n[0]) && Matches(p[1..], n[1..])
  }

  // ---------------------------------------------------------------- patterns in two parts

  /** A match of two patterns in a row splits the name between them. */
  lemma {:induction false} SplitMatch(p: string, q: string, n: string) returns (k: nat)
    requires Matches(p + q, n)
    ensures k <= |n| && Matches(p, n[..k]) && Matches(q, n[k..])
    decreases |p| + |n|
  {
    if p == [] {
      assert p + q == q && n[0..] == n;
      return 0;
    }
    assert (p + q)[1..] == p[1..] + q;
    if p[0] == '*' && Matches(p[1..] + q, n) {
      k := SplitMatch(p[1..], q, n);
    } else {
      var p' := if p[0] == '*' then p else p[1..];
      k := SplitMatch(p', q, n[1..]);
      assert n[1..][k..] == n[k + 1..] && n[..k + 1][1..] == n[1..][..k];
      k := k + 1;
    }
  }

  /** Matches of two patterns join to a match of both in a row. */
  lemma {:induction false} JoinMatch(p: string, q: string, n: string, k: nat)
    requires k <= |n| && Matches(p, n[..k]) && Matches(q, n[k..])
    ensures Matches(p + q, n)
    decreases |p| + k
  {
    if p == [] {
      assert p + q == q && n[k..] == n;
    } else {
      assert (p + q)[1..] == p[1..] + q;
      if p[0] == '*' && Matches(p[1..], n[..k]) {
        JoinMatch(p[1..], q, n, k);
      } else {
        assert n[..k][1..] == n[1..][..k - 1] && n[1..][k - 1..] == n[k..];
        JoinMatch(if p[0] == '*' then p else p[1..], q, n[1..], k - 1);
      }
    }
  }

  lemma {:induction false} StarMatchesAll(n: string)
    ensures Matches("*", n)
  {
    if n != [] { StarMatchesAll(n[1..]); }
  }

  /** A name matched up to the last character of the pattern, without its own last character. */
  lemma WithoutLast(p: string, c: char, n: string)
    requires Matches(p + [c], n)
    ensures if c == '*' then Matches(p, n) || (n != [] && Matches(p + [c], n[..|n| - 1]))
            else n != [] && (c == '?' || c == n[|n| - 1]) && Matches(p, n[..|n| - 1])
  {
    var k := SplitMatch(p, [c], n);
    if c == '*' {
      if k < |n| {
        StarMatchesAll(n[..|n| - 1][k..]);
        assert n[..|n| - 1][..k] == n[..k];
        JoinMatch(p, [c], n[..|n| - 1], k);
      } else {
        assert n[..k] == n;
      }
    } else {
      assert n[k..][1..] == [];
    }
  }

  /** Matching by the last character instead of the first. */
  lemma LastCharacter(p: string, c: char, n: string)
    ensures Matches(p + [c], n) <==>
            if c == '*' then Matches(p, n) || (n != [] && Matches(p + [c], n[..|n| - 1]))
            else n != [] && (c == '?' || c == n[|n| - 1]) && Matches(p, n[..|n| - 1])
  {
    if Matches(p + [c], n) {
      WithoutLast(p, c, n);
    } else if c == '*' && Matches(p, n) {
      assert n[..|n|] == n && n[|n|..] == [];
      JoinMatch(p, [c], n, |n|);
    } else if c == '*' && n != [] && Matches(p + [c], n[..|n| - 1]) {
      var k := SplitMatch(p, [c], n[..|n| - 1]);
      assert n[..|n| - 1][..k] == n[..k];
      StarMatchesAll(n[k..]);
      JoinMatch(p, [c], n, k);
    } else if c != '*' && n != [] && (c == '?' || c == n[|n| - 1]) && Matches(p, n[..|n| - 1]) {
      assert n[|n| - 1..] == [n[|n| - 1]];
      JoinMatch(p, [c], n, |n| - 1);
    }
  }

  // ---------------------------------------------------------------- the pieces of a name

  function Concat(pieces: seq<string>): string
    decreases |pieces|
  {
    if pieces == [] then "" else pieces[0] + Concat(pieces[1..])
  }

  /** The name in pieces, one for each character of the pattern: any text for a star, else one character. */
  ghost predicate InPieces(p: string, n: string, pieces: seq<string>) {
    && |pieces| == |p| && Concat(pieces) == n
    && forall k | 0 <= k < |p| :: p[k] != '*' ==> |pieces[k]| == 1 && (p[k] == '?' || pieces[k][0] == p[k])
  }

  lemma OneCharacter(c: char, n: string)
    ensures Matches([c], n) <==> c == '*' || (|n| == 1 && (c == '?' || c == n[0]))
  {
    if c == '*' {
      StarMatchesAll(n);
    } else if n != [] {
      assert [c][1..] == [];
      assert Matches([], n[1..]) <==> n[1..] == [];
    }
  }

  lemma {:induction false} MatchInPieces(p: string, n: string) returns (pieces: seq<string>)
    requires Matches(p, n)
    ensures InPieces(p, n, pieces)
  {
    if p == [] {
      pieces := [];
    } else {
      assert p == [p[0]] + p[1..];
      var k := SplitMatch([p[0]], p[1..], n);
      OneCharacter(p[0], n[..k]);
      var rest := MatchInPieces(p[1..], n[k..]);
      pieces := [n[..k]] + rest;
      assert pieces[1..] == rest;
    }
  }

  lemma {:induction false} PiecesMatch(p: string, n: string, pieces: seq<string>)
    requires InPieces(p, n, pieces)
    ensures Matches(p, n)
  {
    if p != [] {
      var k := |pieces[0]|;
      assert n[..k] == pieces[0] && n[k..] == Concat(pieces[1..]);
      OneCharacter(p[0], n[..k]);
      PiecesMatch(p[1..], n[k..], pieces[1..]);
      assert p == [p[0]] + p[1..];
      JoinMatch([p[0]], p[1..], n, k);
    }
  }

  /** A pattern matches a name exactly if the name falls into such pieces. */
  lemma MatchesExactly(p: string, n: string)
    ensures Matches(p, n) <==> exists pieces :: InPieces(p, n, pieces)
  {
    if Matches(p, n) { var pieces := MatchInPieces(p, n); }
    if pieces :| InPieces(p, n, pieces) { PiecesMatch(p, n, pieces); }
  }

  // ---------------------------------------------------------------- the table

  /** The row of the table for the first `i` characters of the pattern, as far as column `m`. */
  ghost predicate Row(row: array<bool>, p: string, n: string, i: nat, m: int)
    requires i <= |p| && row.Length == |n| + 1 && m <= |n|
    reads row
  {
    forall j | 0 <= j <= m :: row[j] == Matches(p[..i], n[..j])
  }

  /** One entry from its left neighbour and the row above. */
  lemma Entry(p: string, n: string, i: nat, j: nat)
    requires 0 < i <= |p| && j <= |n|
    ensures Matches(p[..i], n[..j]) ==
            if p[i - 1] == '*' then Matches(p[..i - 1], n[..j]) || (j > 0 && Matches(p[..i], n[..j - 1]))
            else j > 0 && (p[i - 1] == '?' || p[i - 1] == n[j - 1]) && Matches(p[..i - 1], n[..j - 1])
  {
    assert p[..i] == p[..i - 1] + [p[i - 1]];
    if j > 0 { assert n[..j][..j - 1] == n[..j - 1]; }
    LastCharacter(p[..i - 1], p[i - 1], n[..j]);
  }

  method FillRow(p: string, n: string, i: nat, prev: array<bool>, curr: array<bool>)
    requires 0 < i <= |p| && prev.Length == curr.Length == |n| + 1 && prev != curr
    requires Row(prev, p, n, i - 1, |n|)
    modifies curr
    ensures Row(curr, p, n, i, |n|)
  {
    Entry(p, n, i, 0);
    curr[0] := if p[i - 1] == '*' then prev[0] else false;
    for j := 1 to |n| + 1
      invariant Row(curr, p, n, i, j - 1)
      invariant Row(prev, p, n, i - 1, |n|)
    {
      Entry(p, n, i, j);
      if p[i - 1] == '*' {
        curr[j] := prev[j] || curr[j - 1];
      } else if p[i - 1] == '?' || p[i - 1] == n[j - 1] {
        curr[j] := prev[j - 1];
      } else {
        curr[j] := false;
      }
    }
  }

  /** The shell's matcher decides exactly the meaning of the pattern. */
  method GlobMatch(p: string, n: string) returns (r: bool)
    ensures r == Matches(p, n)
  {
    var prev := new bool[|n| + 1](_ => false);
    var curr := new bool[|n| + 1](_ => false);
    prev[0] := true;
    assert p[..0] == [];
    for i := 1 to |p| + 1
      invariant prev.Length == curr.Length == |n| + 1 && prev != curr && fresh(prev) && fresh(curr)
      invariant Row(prev, p, n, i - 1, |n|)
    {
      FillRow(p, n, i, prev, curr);
      prev, curr := curr, prev;
      forall j | 0 <= j < curr.Length { curr[j] := false; }
    }
    assert p[..|p|] == p && n[..|n|] == n;
    r := prev[|n|];
  }
}

/** The `find` program's matcher, compared with the shell's. */
module Find {
  import opened Glob

  predicate StartsWith(s: string, t: string) { t <= s }

  predicate EndsWith(s: string, t: string) { |t| <= |s| && s[|s| - |t|..] == t }

  predicate Occurs(t: string, s: string) { exists k | 0 <= k <= |s| :: StartsWith(s[k..], t) }

  predicate SimpleMatch(name: string, p: string) {
    if p == "*" then true
    else if StartsWith(p, "*") && EndsWith(p, "*") then Occurs(p[1..|p| - 1], name)
    else if StartsWith(p, "*") then EndsWith(name, p[1..])
    else if EndsWith(p, "*") then StartsWith(name, p[..|p| - 1])
    else name == p
  }

  // ---------------------------------------------------------------- stars at the ends

  predicate Literal(p: string) { '*' !in p && '?' !in p }

  lemma {:induction false} LiteralMatchesItself(p: string, n: string)
    requires Literal(p)
    ensures Matches(p, n) <==> n == p
  {
    if p != [] && n != [] {
      LiteralMatchesItself(p[1..], n[1..]);
      assert p == [p[0]] + p[1..] && n == [n[0]] + n[1..];
    }
  }

  /** A leading star: some end of the name matches the rest. */
  lemma {:induction false} LeadingStar(p: string, n: string) returns (k: nat)
    requires Matches("*" + p, n)
    ensures k <= |n| && Matches(p, n[k..])
  {
    k := SplitMatch("*", p, n);
  }

  lemma LeadingStarBack(p: string, n: string, k: nat)
    requires k <= |n| && Matches(p, n[k..])
    ensures Matches("*" + p, n)
  {
    StarMatchesAll(n[..k]);
    JoinMatch("*", p, n, k);
  }

  lemma TrailingStarBack(p: string, n: string, k: nat)
    requires k <= |n| && Matches(p, n[..k])
    ensures Matches(p + "*", n)
  {
    StarMatchesAll(n[k..]);
    JoinMatch(p, "*", n, k);
  }

  /** The pattern without the star at each end that the program takes off. */
  function Core(p: string): string {
    if p == "*" then []
    else if StartsWith(p, "*") && EndsWith(p, "*") then p[1..|p| - 1]
    else if StartsWith(p, "*") then p[1..]
    else if EndsWith(p, "*") then p[..|p| - 1]
    else p
  }

  lemma CoreParts(p: string)
    ensures p == (if StartsWith(p, "*") then "*" else "") + Core(p) + (if EndsWith(p, "*") && p != "*" then "*" else "")
  {
  }

  /** If no wildcard is left in the core, both matchers agree on every name. */
  lemma AgreeOnLiteralCore(p: string, n: string)
    requires Literal(Core(p))
    ensures SimpleMatch(n, p) <==> Matches(p, n)
  {
    var core := Core(p);
    CoreParts(p);
    if p == "*" {
      StarMatchesAll(n);
    } else if StartsWith(p, "*") && EndsWith(p, "*") {
      StarBothEnds(core, n);
      assert p == "*" + core + "*";
    } else if StartsWith(p, "*") {
      StarInFront(core, n);
      assert p == "*" + core;
    } else if EndsWith(p, "*") {
      StarBehind(core, n);
      assert p == core + "*";
    } else {
      LiteralMatchesItself(p, n);
    }
  }

  lemma StarInFront(core: string, n: string)
    requires Literal(core)
    ensures Matches("*" + core, n) <==> EndsWith(n, core)
  {
    if Matches("*" + core, n) {
      var k := LeadingStar(core, n);
      LiteralMatchesItself(core, n[k..]);
    }
    if EndsWith(n, core) {
      LiteralMatchesItself(core, core);
      LeadingStarBack(core, n, |n| - |core|);
    }
  }

  lemma StarBehind(core: string, n: string)
    requires Literal(core)
    ensures Matches(core + "*", n) <==> StartsWith(n, core)
  {
    if Matches(core + "*", n) {
      var k := SplitMatch(core, "*", n);
      LiteralMatchesItself(core, n[..k]);
    }
    if StartsWith(n, core) {
      LiteralMatchesItself(core, core);
      assert n[..|core|] == core;
      TrailingStarBack(core, n, |core|);
    }
  }

  lemma StarBothEnds(core: string, n: string)
    requires Literal(core)
    ensures Matches("*" + core + "*", n) <==> Occurs(core, n)
  {
    assert "*" + core + "*" == "*" + (core + "*");
    if Matches("*" + core + "*", n) {
      var k := LeadingStar(core + "*", n);
      StarBehind(core, n[k..]);
    }
    if Occurs(core, n) {
      var k :| 0 <= k <= |n| && StartsWith(n[k..], core);
      StarBehind(core, n[k..]);
      LeadingStarBack(core + "*", n, k);
    }
  }

  // ---------------------------------------------------------------- anywhere else they differ

  /** A pattern matches any name of its own length that differs from it only where it has a wildcard. */
  lemma {:induction false} MatchesCharByChar(p: string, n: string)
    requires |p| == |n| && forall i | 0 <= i < |p| :: n[i] == p[i] || p[i] in "*?"
    ensures Matches(p, n)
  {
    if p != [] {
      MatchesCharByChar(p[1..], n[1..]);
      if p[0] == '*' { assert Matches(p, n[1..]); }
    }
  }

  /** A wildcard left in the core: the shell accepts the core with that character replaced, `find` does not. */
  lemma DifferOnWildcardCore(p: string, i: nat)
    requires i < |Core(p)| && Core(p)[i] in "*?"
    ensures Matches(p, Core(p)[i := 'x']) && !SimpleMatch(Core(p)[i := 'x'], p)
  {
    var core := Core(p);
    var n := core[i := 'x'];
    MatchesCharByChar(core, n);
    CoreParts(p);
    assert n[0..] == n && n[..|n|] == n;
    LeadingStarBack(core, n, 0);
    TrailingStarBack(core, n, |n|);
    TrailingStarBack("*" + core, n, |n|);
    assert n[i] != core[i];
    assert p == "*" + core + "*" || p == "*" + core || p == core + "*" || p == core;
  }

  /** No question mark, and a star at most as the first or last character. */
  predicate PlainPattern(p: string) {
    forall i | 0 <= i < |p| :: p[i] != '?' && (p[i] == '*' ==> i == 0 || i == |p| - 1)
  }

  lemma StarAtEnd(p: string)
    requires p != []
    ensures StartsWith(p, "*") <==> p[0] == '*'
    ensures EndsWith(p, "*") <==> p[|p| - 1] == '*'
  {
    assert p[|p| - 1..] == [p[|p| - 1]];
  }

  /** The core is the pattern from here to there; a star, and nothing else, may stand outside it. */
  lemma CoreEnds(p: string) returns (from: nat, to: nat)
    ensures from <= to <= |p| && Core(p) == p[from..to] && from <= 1 && |p| - 1 <= to
    ensures from == 1 <==> p != [] && p[0] == '*'
    ensures to == |p| - 1 <==> p != [] && p != "*" && p[|p| - 1] == '*'
  {
    if p == [] || p == "*" {
      from, to := |p|, |p|;
    } else {
      StarAtEnd(p);
      from := if p[0] == '*' then 1 else 0;
      to := if p[|p| - 1] == '*' then |p| - 1 else |p|;
    }
  }

  predicate Around(name: string, a: string, core: string, b: string) { name == a + core + b }

  /** What the program's matcher accepts: the core, with any text before it or after it where the star was. */
  lemma SimpleMatchExactly(name: string, p: string)
    ensures SimpleMatch(name, p) <==>
            exists a, b :: && Around(name, a, Core(p), b)
                           && (a != "" ==> p != "" && p[0] == '*') && (b != "" ==> p != "" && p[|p| - 1] == '*')
  {
    if SimpleMatch(name, p) {
      var a, b := SplitAround(name, p);
    }
    if a, b :| && Around(name, a, Core(p), b)
               && (a != "" ==> p != "" && p[0] == '*') && (b != "" ==> p != "" && p[|p| - 1] == '*') {
      JoinAround(name, p, a, b);
    }
  }

  lemma SplitAround(name: string, p: string) returns (a: string, b: string)
    requires SimpleMatch(name, p)
    ensures Around(name, a, Core(p), b)
    ensures (a != "" ==> p != "" && p[0] == '*') && (b != "" ==> p != "" && p[|p| - 1] == '*')
  {
    a, b := "", "";
    if p == "*" {
      a := name;
    } else if p != "" {
      StarAtEnd(p);
      if p[0] == '*' && p[|p| - 1] == '*' {
        assert Occurs(Core(p), name);
        a, b := SplitOccurrence(name, Core(p));
      } else if p[0] == '*' {
        assert EndsWith(name, Core(p));
        a := SplitEnd(name, Core(p));
      } else if p[|p| - 1] == '*' {
        assert StartsWith(name, Core(p));
        b := SplitStart(name, Core(p));
      } else {
        assert name == Core(p);
      }
    }
  }

  lemma SplitOccurrence(name: string, core: string) returns (a: string, b: string)
    requires Occurs(core, name)
    ensures Around(name, a, core, b)
  {
    var k :| 0 <= k <= |name| && StartsWith(name[k..], core);
    a := name[..k];
    b := SplitStart(name[k..], core);
    assert name == a + name[k..];
  }

  lemma SplitStart(name: string, core: string) returns (b: string)
    requires StartsWith(name, core)
    ensures name == core + b && Around(name, "", core, b)
  {
    b := name[|core|..];
  }

  lemma SplitEnd(name: string, core: string) returns (a: string)
    requires EndsWith(name, core)
    ensures Around(name, a, core, "")
  {
    a := name[..|name| - |core|];
    assert name == a + core;
  }

  lemma JoinAround(name: string, p: string, a: string, b: string)
    requires Around(name, a, Core(p), b)
    requires (a != "" ==> p != "" && p[0] == '*') && (b != "" ==> p != "" && p[|p| - 1] == '*')
    ensures SimpleMatch(name, p)
  {
    if p != "" && p != "*" {
      StarAtEnd(p);
      assert name[|a|..] == Core(p) + b;
      assert StartsWith(name[|a|..], Core(p));
    }
  }

  lemma PlainIsLiteralCore(p: string)
    ensures PlainPattern(p) <==> Literal(Core(p))
  {
    var from, to := CoreEnds(p);
    if PlainPattern(p) {
      forall i | 0 <= i < to - from ensures p[from..to][i] !in "*?" { assert p[from..to][i] == p[from + i]; }
    }
    if Literal(Core(p)) {
      forall i | 0 <= i < |p| ensures p[i] != '?' && (p[i] == '*' ==> i == 0 || i == |p| - 1) {
        if from <= i < to { assert p[from..to][i - from] == p[i]; }
      }
    }
  }

  /** The two programs agree on every name exactly for the plain patterns. */
  lemma AgreeExactly(p: string)
    ensures PlainPattern(p) <==> forall n :: SimpleMatch(n, p) <==> Matches(p, n)
  {
    PlainIsLiteralCore(p);
    if Literal(Core(p)) {
      forall n ensures SimpleMatch(n, p) <==> Matches(p, n) { AgreeOnLiteralCore(p, n); }
    } else {
      var i :| 0 <= i < |Core(p)| && Core(p)[i] in "*?";
      DifferOnWildcardCore(p, i);
    }
  }
}
