/**
 `strspn`, `strpbrk` and the tokenizer `strtok_r` over one shared byte memory.

 Positions are pointers into that memory, so a string and the tokens cut out of it are the same bytes.
 */
module CTokens {
  import opened Bytes

  // ---------------------------------------------------------------- strings in memory

  /** There is a NUL at or after `p`. */
  predicate Terminated(mem: seq<byte>, p: nat)
    decreases |mem| - p
  {
    p < |mem| && (mem[p] == 0 || Terminated(mem, p + 1))
  }

  /** The bytes from `p` up to the first NUL. */
  function StringAt(mem: seq<byte>, p: nat): seq<byte>
    requires Terminated(mem, p)
    decreases |mem| - p
  {
    if mem[p] == 0 then [] else [mem[p]] + StringAt(mem, p + 1)
  }

  /** The position of the NUL that ends the string at `p`. */
  function EndOf(mem: seq<byte>, p: nat): nat
    requires Terminated(mem, p)
    decreases |mem| - p
  {
    if mem[p] == 0 then p else EndOf(mem, p + 1)
  }

  /** The bytes of the string at `p`, as a set. */
  function Members(mem: seq<byte>, p: nat): set<byte>
    requires Terminated(mem, p)
    decreases |mem| - p
  {
    if mem[p] == 0 then {} else {mem[p]} + Members(mem, p + 1)
  }

  /** The set holds exactly the bytes of the string. */
  lemma {:induction false} MembersExactly(mem: seq<byte>, p: nat)
    requires Terminated(mem, p)
    ensures forall b: byte :: b in Members(mem, p) <==> b in StringAt(mem, p)
    decreases |mem| - p
  {
    if mem[p] != 0 { MembersExactly(mem, p + 1); }
  }

  lemma {:induction false} EndIsNul(mem: seq<byte>, p: nat)
    requires Terminated(mem, p)
    ensures p <= EndOf(mem, p) < |mem| && mem[EndOf(mem, p)] == 0
    ensures forall k | p <= k < EndOf(mem, p) :: mem[k] != 0
    decreases |mem| - p
  {
    if mem[p] != 0 { EndIsNul(mem, p + 1); }
  }

  /** A string is known by the NUL that ends it and the bytes before. */
  lemma {:induction false} StringUpTo(mem: seq<byte>, p: nat, e: nat)
    requires p <= e < |mem| && mem[e] == 0 && forall k | p <= k < e :: mem[k] != 0
    ensures Terminated(mem, p) && EndOf(mem, p) == e && StringAt(mem, p) == mem[p..e]
    decreases e - p
  {
    if p < e {
      StringUpTo(mem, p + 1, e);
      assert mem[p..e] == [mem[p]] + mem[p + 1..e];
    }
  }

  lemma {:induction false} SameEnd(was: seq<byte>, f: nat, e: nat)
    requires f <= e && Terminated(was, e) && forall k | f <= k < e :: was[k] != 0
    ensures Terminated(was, f) && EndOf(was, f) == EndOf(was, e)
    decreases e - f
  {
    if f < e { SameEnd(was, f + 1, e); }
  }

  // ---------------------------------------------------------------- spans

  /** The first position from `i` on that is NUL or whose membership in `delims` is not `cmp`. */
  function Stop(mem: seq<byte>, delims: set<byte>, cmp: bool, i: nat): nat
    requires Terminated(mem, i)
    decreases |mem| - i
  {
    if mem[i] != 0 && (mem[i] in delims) == cmp then Stop(mem, delims, cmp, i + 1) else i
  }

  lemma {:induction false} StopIsFirst(mem: seq<byte>, delims: set<byte>, cmp: bool, i: nat)
    requires Terminated(mem, i)
    ensures var e := Stop(mem, delims, cmp, i);
            && i <= e && Terminated(mem, e)
            && (forall k | i <= k < e :: mem[k] != 0 && (mem[k] in delims) == cmp)
            && (mem[e] == 0 || (mem[e] in delims) != cmp)
    decreases |mem| - i
  {
    if mem[i] != 0 && (mem[i] in delims) == cmp { StopIsFirst(mem, delims, cmp, i + 1); }
  }

  /** Counts the leading bytes that are (`cmp`) or are not (`!cmp`) in the other string. */
  method InnerStrspn(mem: array<byte>, s1: nat, s2: nat, cmp: bool) returns (n: nat)
    requires Terminated(mem[..], s1) && Terminated(mem[..], s2)
    ensures s1 + n == Stop(mem[..], Members(mem[..], s2), cmp, s1)
  {
    ghost var m := mem[..];
    var bits: set<byte> := {};
    var q := s2;
    while mem[q] != 0
      invariant Terminated(m, q) && bits + Members(m, q) == Members(m, s2)
      decreases mem.Length - q
    {
      bits := bits + {mem[q]};
      q := q + 1;
    }
    var p := s1;
    n := 0;
    while mem[p] != 0
      invariant p == s1 + n && Terminated(m, p) && Stop(m, bits, cmp, s1) == Stop(m, bits, cmp, p)
      decreases mem.Length - p
    {
      if (mem[p] in bits) != cmp { return; }
      n := n + 1;
      p := p + 1;
    }
  }

  /** The length of the longest start of the string made of bytes of the other string. */
  method Strspn(mem: array<byte>, s1: nat, s2: nat) returns (n: nat)
    requires Terminated(mem[..], s1) && Terminated(mem[..], s2)
    ensures s1 + n == Stop(mem[..], Members(mem[..], s2), true, s1)
    ensures s1 + n < mem.Length && forall k | s1 <= k < s1 + n :: mem[k] != 0 && mem[k] in StringAt(mem[..], s2)
    ensures mem[s1 + n] == 0 || mem[s1 + n] !in StringAt(mem[..], s2)
  {
    n := InnerStrspn(mem, s1, s2, true);
    StopIsFirst(mem[..], Members(mem[..], s2), true, s1);
    MembersExactly(mem[..], s2);
  }

  /** The length of the longest start of the string without a byte of the other string. */
  method Strcspn(mem: array<byte>, s1: nat, s2: nat) returns (n: nat)
    requires Terminated(mem[..], s1) && Terminated(mem[..], s2)
    ensures s1 + n == Stop(mem[..], Members(mem[..], s2), false, s1)
    ensures s1 + n < mem.Length && forall k | s1 <= k < s1 + n :: mem[k] != 0 && mem[k] !in StringAt(mem[..], s2)
    ensures mem[s1 + n] == 0 || mem[s1 + n] in StringAt(mem[..], s2)
  {
    n := InnerStrspn(mem, s1, s2, false);
    StopIsFirst(mem[..], Members(mem[..], s2), false, s1);
    MembersExactly(mem[..], s2);
  }

  /** The first byte of the string that is in the other string, or null. */
  method Strpbrk(mem: array<byte>, s1: nat, s2: nat) returns (p: Option<nat>)
    requires Terminated(mem[..], s1) && Terminated(mem[..], s2)
    ensures var e := Stop(mem[..], Members(mem[..], s2), false, s1);
            e < mem.Length && p == if mem[e] != 0 then Some(e) else None
    ensures p.Some? ==> s1 <= p.value < mem.Length && mem[p.value] in StringAt(mem[..], s2)
    ensures p.Some? ==> forall k | s1 <= k < p.value :: mem[k] != 0 && mem[k] !in StringAt(mem[..], s2)
    ensures p.None? ==> forall b | b in StringAt(mem[..], s1) :: b !in StringAt(mem[..], s2)
  {
    StopIsFirst(mem[..], Members(mem[..], s2), false, s1);
    EndIsNul(mem[..], s1);
    StringUpTo(mem[..], s1, EndOf(mem[..], s1));
    var n := Strcspn(mem, s1, s2);
    var e := s1 + n;
    p := if mem[e] != 0 then Some(e) else None;
  }

  // ---------------------------------------------------------------- tokens

  /** A token occupies the positions from `start` up to, not including, `end`. */
  datatype Span = Span(start: nat, end: nat)

  /** A run of non-delimiters of the string at `p` that cannot be extended on either side. */
  predicate MaximalRun(mem: seq<byte>, delims: set<byte>, p: nat, t: Span) {
    && p <= t.start < t.end < |mem|
    && (forall k | t.start <= k < t.end :: mem[k] != 0 && mem[k] !in delims)
    && (t.start > p ==> mem[t.start - 1] in delims) && (mem[t.end] == 0 || mem[t.end] in delims)
  }

  /** The tokens from `i` on: skip delimiters, take what is not one, continue after the next delimiter. */
  function Spans(mem: seq<byte>, delims: set<byte>, i: nat): seq<Span>
    requires Terminated(mem, i)
    decreases |mem| - i
  {
    StopIsFirst(mem, delims, true, i);
    var b := Stop(mem, delims, true, i);
    if mem[b] == 0 then []
    else
      StopIsFirst(mem, delims, false, b);
      var e := Stop(mem, delims, false, b);
      [Span(b, e)] + if mem[e] == 0 then [] else Spans(mem, delims, e + 1)
  }

  /** Maximal runs in increasing order, the first not before `i`. */
  ghost predicate RunsInOrder(mem: seq<byte>, delims: set<byte>, p: nat, i: nat, ts: seq<Span>) {
    && (forall k | 0 <= k < |ts| :: i <= ts[k].start && MaximalRun(mem, delims, p, ts[k]))
    && (forall k, l | 0 <= k < l < |ts| :: ts[k].end < ts[l].start)
  }

  lemma RunsCons(mem: seq<byte>, delims: set<byte>, p: nat, i: nat, first: Span, rest: seq<Span>)
    requires i <= first.start && MaximalRun(mem, delims, p, first)
    requires RunsInOrder(mem, delims, p, first.end + 1, rest)
    ensures RunsInOrder(mem, delims, p, i, [first] + rest)
  {
    var ts := [first] + rest;
    assert forall k | 0 < k < |ts| :: ts[k] == rest[k - 1];
  }

  ghost predicate SpansAt(mem: seq<byte>, delims: set<byte>, i: nat, ts: seq<Span>) {
    Terminated(mem, i) && Spans(mem, delims, i) == ts
  }

  /** `ts` are the tokens from `i` on, kept folded. */
  ghost predicate SpansAre(mem: seq<byte>, delims: set<byte>, i: nat, ts: seq<Span>) {
    forall j: nat | j == i :: SpansAt(mem, delims, j, ts)
  }

  lemma {:induction false} SpansOver(mem: seq<byte>, delims: set<byte>, i: nat, b: nat)
    requires Terminated(mem, i) && b == Stop(mem, delims, true, i) < |mem| && mem[b] == 0
    ensures Spans(mem, delims, i) == []
  {
  }

  /** One step of the definition. */
  lemma {:induction false} SpansFrom(mem: seq<byte>, delims: set<byte>, i: nat, b: nat, e: nat)
    requires Terminated(mem, i) && b == Stop(mem, delims, true, i) < |mem| && mem[b] != 0
    requires Terminated(mem, b) && e == Stop(mem, delims, false, b) < |mem|
    requires mem[e] != 0 ==> Terminated(mem, e + 1)
    ensures Spans(mem, delims, i) == [Span(b, e)] + if mem[e] == 0 then [] else Spans(mem, delims, e + 1)
  {
    StopIsFirst(mem, delims, true, i);
    StopIsFirst(mem, delims, false, b);
    if mem[e] == 0 {
      assert Spans(mem, delims, i) == [Span(b, e)] + [];
    } else {
      assert Spans(mem, delims, i) == [Span(b, e)] + Spans(mem, delims, e + 1);
    }
  }

  /** The stops from `i` on delimit a maximal run, unless only delimiters are left. */
  lemma {:induction false} NextRun(mem: seq<byte>, delims: set<byte>, p: nat, i: nat) returns (b: nat, e: nat)
    requires Terminated(mem, i) && p <= i && (i > p ==> mem[i - 1] in delims)
    ensures b == Stop(mem, delims, true, i) && i <= b < |mem|
    ensures mem[b] != 0 ==> Terminated(mem, b) && e == Stop(mem, delims, false, b)
    ensures mem[b] != 0 ==> MaximalRun(mem, delims, p, Span(b, e)) && (mem[e] != 0 ==> Terminated(mem, e + 1))
  {
    StopIsFirst(mem, delims, true, i);
    b, e := Stop(mem, delims, true, i), 0;
    if mem[b] != 0 {
      StopIsFirst(mem, delims, false, b);
      e := Stop(mem, delims, false, b);
    }
  }

  /** The first token is the first maximal run; the others are the tokens after the delimiter that ends it. */
  lemma {:induction false} FirstSpan(mem: seq<byte>, delims: set<byte>, p: nat, i: nat, ts: seq<Span>)
    requires SpansAre(mem, delims, i, ts) && p <= i && (i > p ==> i <= |mem| && mem[i - 1] in delims) && ts != []
    ensures i <= ts[0].start && MaximalRun(mem, delims, p, ts[0])
    ensures if mem[ts[0].end] == 0 then |ts| == 1
            else mem[ts[0].end] in delims && SpansAre(mem, delims, ts[0].end + 1, ts[1..])
  {
    assert SpansAt(mem, delims, i, ts);
    var b, e := NextRun(mem, delims, p, i);
    SpansFrom(mem, delims, i, b, e);
    assert ts[0] == Span(b, e);
  }

  /** The tokens from `i` on, with a maximal run ahead: the run is the first of them, or starts after it. */
  lemma {:induction false} RunAhead(mem: seq<byte>, delims: set<byte>, p: nat, i: nat, t: Span, ts: seq<Span>)
    requires SpansAre(mem, delims, i, ts) && MaximalRun(mem, delims, p, t) && p <= i <= t.start
    requires forall k | i <= k < t.start :: mem[k] != 0
    ensures ts != [] && (ts[0] == t || (ts[0].end < t.start && i <= ts[0].end && mem[ts[0].end] != 0))
  {
    assert SpansAt(mem, delims, i, ts);
    var b := SkipStopsBefore(mem, delims, p, i, t);
    var e := RunStopsBefore(mem, delims, p, b, t);
    SpansFrom(mem, delims, i, b, e);
    assert ts[0] == Span(b, e);
  }

  lemma {:induction false} TheseAreRuns(mem: seq<byte>, delims: set<byte>, p: nat, i: nat, ts: seq<Span>)
    requires SpansAre(mem, delims, i, ts) && p <= i && (i > p ==> i <= |mem| && mem[i - 1] in delims)
    ensures RunsInOrder(mem, delims, p, i, ts)
    decreases |ts|
  {
    if ts != [] {
      FirstSpan(mem, delims, p, i, ts);
      if mem[ts[0].end] != 0 { TheseAreRuns(mem, delims, p, ts[0].end + 1, ts[1..]); }
      RunsCons(mem, delims, p, i, ts[0], ts[1..]);
      assert ts == [ts[0]] + ts[1..];
    }
  }

  /** The tokens are maximal runs, in increasing order. */
  lemma SpansAreRuns(mem: seq<byte>, delims: set<byte>, p: nat, i: nat)
    requires Terminated(mem, i) && p <= i && (i > p ==> mem[i - 1] in delims)
    ensures RunsInOrder(mem, delims, p, i, Spans(mem, delims, i))
  {
    TheseAreRuns(mem, delims, p, i, Spans(mem, delims, i));
  }

  /** Skipping delimiters from `i` on does not skip past the start of a run. */
  lemma {:induction false} SkipStopsBefore(mem: seq<byte>, delims: set<byte>, p: nat, i: nat, t: Span) returns (b: nat)
    requires Terminated(mem, i) && MaximalRun(mem, delims, p, t) && i <= t.start
    requires forall k | i <= k < t.start :: mem[k] != 0
    ensures b == Stop(mem, delims, true, i) && i <= b <= t.start && Terminated(mem, b)
    ensures mem[b] != 0 && mem[b] !in delims
  {
    StopIsFirst(mem, delims, true, i);
    b := Stop(mem, delims, true, i);
    assert mem[t.start] !in delims && mem[t.start] != 0;
  }

  /** From there, a run that starts later is still to come; one that starts there ends where it should. */
  lemma {:induction false} RunStopsBefore(mem: seq<byte>, delims: set<byte>, p: nat, b: nat, t: Span) returns (e: nat)
    requires Terminated(mem, b) && MaximalRun(mem, delims, p, t) && p <= b <= t.start && mem[b] !in delims
    requires forall k | b <= k < t.start :: mem[k] != 0
    ensures e == Stop(mem, delims, false, b) && b <= e < |mem|
    ensures if b == t.start then e == t.end else e < t.start && mem[e] in delims
    ensures mem[e] != 0 ==> Terminated(mem, e + 1)
  {
    StopIsFirst(mem, delims, false, b);
    e := Stop(mem, delims, false, b);
    if b < t.start { assert mem[t.start - 1] in delims; }
  }

  lemma {:induction false} RunIsAmong(mem: seq<byte>, delims: set<byte>, p: nat, i: nat, t: Span, ts: seq<Span>)
    requires SpansAre(mem, delims, i, ts) && p <= i && (i > p ==> i <= |mem| && mem[i - 1] in delims)
    requires MaximalRun(mem, delims, p, t) && i <= t.start && forall k | i <= k < t.start :: mem[k] != 0
    ensures t in ts
    decreases |ts|
  {
    RunAhead(mem, delims, p, i, t, ts);
    if ts[0] != t {
      FirstSpan(mem, delims, p, i, ts);
      RunIsAmong(mem, delims, p, ts[0].end + 1, t, ts[1..]);
    }
  }

  /** And every maximal run of the string is among them. */
  lemma EveryRunIsASpan(mem: seq<byte>, delims: set<byte>, p: nat, i: nat, t: Span)
    requires Terminated(mem, i) && p <= i && (i > p ==> mem[i - 1] in delims)
    requires MaximalRun(mem, delims, p, t) && i <= t.start && forall k | i <= k < t.start :: mem[k] != 0
    ensures t in Spans(mem, delims, i)
  {
    RunIsAmong(mem, delims, p, i, t, Spans(mem, delims, i));
  }

  lemma {:induction false} FirstAndRest(was: seq<byte>, delims: set<byte>, f: nat, b: nat, e: nat, ts: seq<Span>)
    requires SpansAre(was, delims, f, ts) && Terminated(was, f)
    requires b == Stop(was, delims, true, f) < |was| && was[b] != 0
    requires Terminated(was, b) && e == Stop(was, delims, false, b) < |was|
    requires was[e] != 0 ==> Terminated(was, e + 1)
    ensures ts != [] && ts[0] == Span(b, e)
    ensures if was[e] == 0 then ts[1..] == [] else SpansAre(was, delims, e + 1, ts[1..])
  {
    var rest := if was[e] == 0 then [] else Spans(was, delims, e + 1);
    assert SpansAt(was, delims, f, ts);
    assert ts == [Span(b, e)] + rest by { SpansFrom(was, delims, f, b, e); }
    assert ts[1..] == rest;
  }

  /** Skipping delimiters and then others stays within the string. */
  lemma {:induction false} StopsInTime(mem: seq<byte>, delims: set<byte>, i: nat) returns (b: nat, e: nat)
    requires Terminated(mem, i)
    ensures b == Stop(mem, delims, true, i) && i <= b < |mem| && Terminated(mem, b)
    ensures e == Stop(mem, delims, false, b) && b <= e <= EndOf(mem, i) < |mem|
    ensures mem[e] == 0 ==> e == EndOf(mem, i)
    ensures mem[e] != 0 ==> e < EndOf(mem, i) && Terminated(mem, e + 1) && EndOf(mem, e + 1) == EndOf(mem, i)
  {
    StopIsFirst(mem, delims, true, i);
    b := Stop(mem, delims, true, i);
    StopIsFirst(mem, delims, false, b);
    e := Stop(mem, delims, false, b);
    SameEnd(mem, i, e);
    EndIsNul(mem, e);
  }

  lemma {:induction false} NotOver(mem: seq<byte>, delims: set<byte>, i: nat, b: nat, ts: seq<Span>)
    requires SpansAre(mem, delims, i, ts) && Terminated(mem, i) && b == Stop(mem, delims, true, i) < |mem| && ts != []
    ensures mem[b] != 0
  {
    assert SpansAt(mem, delims, i, ts);
  }

  /** The first token ends within the string, and the others are those of the rest of the same string. */
  lemma {:induction false} FirstInTime(mem: seq<byte>, delims: set<byte>, i: nat, end: nat, ts: seq<Span>)
    returns (next: nat)
    requires SpansAre(mem, delims, i, ts) && Terminated(mem, i) && EndOf(mem, i) == end && ts != []
    ensures ts[0].end <= end
    ensures |ts| > 1 ==> Terminated(mem, next) && EndOf(mem, next) == end && SpansAre(mem, delims, next, ts[1..])
  {
    var b, e := StopsInTime(mem, delims, i);
    NotOver(mem, delims, i, b, ts);
    FirstAndRest(mem, delims, i, b, e, ts);
    if mem[e] == 0 {
      assert |ts| == 1;
      next := e;
    } else {
      next := e + 1;
    }
  }

  lemma {:induction false} SpansEndInTime(mem: seq<byte>, delims: set<byte>, i: nat, end: nat, ts: seq<Span>, k: nat)
    requires SpansAre(mem, delims, i, ts) && Terminated(mem, i) && EndOf(mem, i) == end && k < |ts|
    ensures ts[k].end <= end
    decreases k
  {
    var next := FirstInTime(mem, delims, i, end, ts);
    if k > 0 { SpansEndInTime(mem, delims, next, end, ts[1..], k - 1); }
  }

  /** From `start` to `end` the string at `p` has no byte of the other string, and goes no further either way. */
  ghost predicate UndelimitedRun(mem: seq<byte>, p: nat, delim: nat, t: Span)
    requires Terminated(mem, p) && Terminated(mem, delim)
  {
    && p <= t.start < t.end <= EndOf(mem, p) < |mem|
    && (forall k | t.start <= k < t.end :: mem[k] !in StringAt(mem, delim))
    && (t.start > p ==> mem[t.start - 1] in StringAt(mem, delim))
    && (t.end < EndOf(mem, p) ==> mem[t.end] in StringAt(mem, delim))
  }

  /** The tokens, in the bytes of the two strings. */
  lemma {:induction false} TokensExactly(mem: seq<byte>, p: nat, delim: nat, t: Span)
    requires Terminated(mem, p) && Terminated(mem, delim)
    ensures t in Spans(mem, Members(mem, delim), p) <==> UndelimitedRun(mem, p, delim, t)
  {
    var delims, ts := Members(mem, delim), Spans(mem, Members(mem, delim), p);
    RunsOfTheString(mem, p, delim, t);
    if UndelimitedRun(mem, p, delim, t) {
      EveryRunIsASpan(mem, delims, p, p, t);
    }
    if t in ts {
      SpansAreRuns(mem, delims, p, p);
      var k :| 0 <= k < |ts| && ts[k] == t;
      SpansEndInTime(mem, delims, p, EndOf(mem, p), ts, k);
    }
  }

  /** The runs of the string are the maximal runs of memory that end with it or before. */
  lemma {:induction false} RunsOfTheString(mem: seq<byte>, p: nat, delim: nat, t: Span)
    requires Terminated(mem, p) && Terminated(mem, delim)
    ensures UndelimitedRun(mem, p, delim, t) <==>
            MaximalRun(mem, Members(mem, delim), p, t) && t.end <= EndOf(mem, p)
    ensures UndelimitedRun(mem, p, delim, t) ==> forall k | p <= k < t.start :: mem[k] != 0
  {
    MembersExactly(mem, delim);
    EndIsNul(mem, p);
  }

  /** What one call does when it starts looking at `from`. */
  ghost predicate TokenCall(mem: seq<byte>, delims: set<byte>, from: nat,
                            token: Option<nat>, lasts: Option<nat>, mem': seq<byte>)
    requires Terminated(mem, from)
  {
    StopIsFirst(mem, delims, true, from);
    var b := Stop(mem, delims, true, from);
    if mem[b] == 0 then token.None? && lasts.None? && mem' == mem
    else
      StopIsFirst(mem, delims, false, b);
      var e := Stop(mem, delims, false, b);
      token == Some(b) && lasts == (if mem[e] == 0 then None else Some(e + 1)) && mem' == mem[e := 0]
  }

  /** What one call means, in the bytes of the two strings. */
  lemma {:induction false} TokenCallExactly(mem: seq<byte>, delim: nat, from: nat, token: Option<nat>,
                                            lasts: Option<nat>, mem': seq<byte>) returns (e: nat)
    requires Terminated(mem, from) && Terminated(mem, delim)
    requires TokenCall(mem, Members(mem, delim), from, token, lasts, mem')
    ensures token.None? ==>
              mem' == mem && lasts.None? && forall b | b in StringAt(mem, from) :: b in StringAt(mem, delim)
    ensures token.Some? ==>
              && from <= token.value < e <= EndOf(mem, from) < |mem|
              && (forall k | from <= k < token.value :: mem[k] in StringAt(mem, delim))
              && (forall k | token.value <= k < e :: mem[k] !in StringAt(mem, delim))
              && (e < EndOf(mem, from) ==> mem[e] in StringAt(mem, delim))
              && mem' == mem[e := 0] && lasts == if e < EndOf(mem, from) then Some(e + 1) else None
  {
    var delims, b := Members(mem, delim), 0;
    b, e := StopsInTime(mem, delims, from);
    assert (forall k | from <= k < b :: mem[k] in StringAt(mem, delim)) && (mem[b] == 0 || mem[b] !in delims) by {
      StopIsFirst(mem, delims, true, from);
      MembersExactly(mem, delim);
    }
    if mem[b] == 0 {
      assert forall k | from <= k < b :: mem[k] != 0 by { StopIsFirst(mem, delims, true, from); }
      StringUpTo(mem, from, b);
    } else {
      assert (forall k | b <= k < e :: mem[k] !in StringAt(mem, delim)) && b < e
             && (mem[e] == 0 || mem[e] in StringAt(mem, delim)) by {
        StopIsFirst(mem, delims, false, b);
        MembersExactly(mem, delim);
      }
    }
  }

  /** One call: the token it returns, where it will go on, and the one byte it overwrites. */
  method StrtokR(mem: array<byte>, s: Option<nat>, delim: nat, lasts: Option<nat>)
    returns (token: Option<nat>, lasts': Option<nat>)
    requires Terminated(mem[..], delim)
    requires s.Some? ==> Terminated(mem[..], s.value)
    requires s.None? && lasts.Some? ==> Terminated(mem[..], lasts.value)
    modifies mem
    ensures s.None? && lasts.None? ==> token.None? && lasts'.None? && mem[..] == old(mem[..])
    ensures s.Some? || lasts.Some? ==>
              TokenCall(old(mem[..]), Members(old(mem[..]), delim), if s.Some? then s.value else lasts.value,
                        token, lasts', mem[..])
  {
    if s.None? && lasts.None? { return None, None; }
    var haystack := if s.Some? then s.value else lasts.value;
    ghost var m, delims := mem[..], Members(mem[..], delim);

    // skip past delimiters left over from the previous call
    StopIsFirst(m, delims, true, haystack);
    var skipped := Strspn(mem, haystack, delim);
    haystack := haystack + skipped;
    if mem[haystack] == 0 { return None, None; }

    // end the token by overwriting the delimiter after it
    token := Some(haystack);
    StopIsFirst(m, delims, false, haystack);
    var cut := Strpbrk(mem, haystack, delim);
    if cut.Some? {
      mem[cut.value] := 0;
      lasts' := Some(cut.value + 1);
    } else {
      lasts' := None;
    }
  }

  // ---------------------------------------------------------------- a whole tokenization

  /** Memory with a NUL at the end of each token. */
  function CutAll(mem: seq<byte>, ts: seq<Span>): (r: seq<byte>)
    ensures |r| == |mem|
    decreases |ts|
  {
    if ts == [] then mem
    else CutAll(if ts[0].end < |mem| then mem[ts[0].end := 0] else mem, ts[1..])
  }

  function StartsOf(ts: seq<Span>): seq<nat>
    decreases |ts|
  {
    if ts == [] then [] else [ts[0].start] + StartsOf(ts[1..])
  }

  /** Before `p` and from `lim` on, memory is as it was. */
  ghost predicate Untouched(was: seq<byte>, mem: seq<byte>, p: nat, lim: nat) {
    |mem| == |was| && forall j | 0 <= j < |was| && (j < p || lim <= j) :: mem[j] == was[j]
  }

  /** The tokens still to come when the next call looks at `f`, and how far memory may have changed. */
  function Rest(was: seq<byte>, delims: set<byte>, f: Option<nat>): seq<Span>
    requires f.Some? ==> Terminated(was, f.value)
  {
    if f.Some? then Spans(was, delims, f.value) else []
  }

  lemma {:induction false} StopFrame(was: seq<byte>, mem: seq<byte>, delims: set<byte>, cmp: bool,
                                     p: nat, lim: nat, i: nat)
    requires Untouched(was, mem, p, lim) && lim <= i && Terminated(was, i)
    ensures Terminated(mem, i) && Stop(mem, delims, cmp, i) == Stop(was, delims, cmp, i)
    decreases |was| - i
  {
    if was[i] != 0 { StopFrame(was, mem, delims, cmp, p, lim, i + 1); }
  }

  lemma {:induction false} MembersFrame(was: seq<byte>, mem: seq<byte>, p: nat, lim: nat, d: nat)
    requires Untouched(was, mem, p, lim) && Terminated(was, d) && (EndOf(was, d) < p || lim <= d)
    ensures Terminated(mem, d) && Members(mem, d) == Members(was, d)
    decreases |was| - d
  {
    EndIsNul(was, d);
    if was[d] != 0 { MembersFrame(was, mem, p, lim, d + 1); }
  }

  /** Where the next token starts and ends is the same in the original. */
  lemma {:induction false} NextStops(was: seq<byte>, mem: seq<byte>, delims: set<byte>, p: nat, f: nat)
    returns (b: nat, e: nat)
    requires Untouched(was, mem, p, f) && Terminated(was, f)
    ensures Terminated(mem, f) && f <= b < |was| && mem[b] == was[b]
    ensures b == Stop(mem, delims, true, f) == Stop(was, delims, true, f)
    ensures was[b] != 0 ==>
              && Terminated(mem, b) && Terminated(was, b)
              && e == Stop(mem, delims, false, b) == Stop(was, delims, false, b) && b <= e < |was| && mem[e] == was[e]
              && Terminated(was, e) && (was[e] != 0 ==> Terminated(was, e + 1))
              && (forall k | f <= k < e :: was[k] != 0)
  {
    StopFrame(was, mem, delims, true, p, f, f);
    StopIsFirst(was, delims, true, f);
    b, e := Stop(was, delims, true, f), 0;
    if was[b] != 0 {
      StopFrame(was, mem, delims, false, p, f, b);
      StopIsFirst(was, delims, false, b);
      e := Stop(was, delims, false, b);
    }
  }

  /** Memory after the byte at `e` was overwritten. */
  lemma {:induction false} CutOne(was: seq<byte>, mem: seq<byte>, p: nat, f: nat, e: nat)
    requires Untouched(was, mem, p, f) && p <= f <= e < |was| && Terminated(was, e)
    requires forall k | f <= k < e :: was[k] != 0
    ensures Terminated(was, f) && EndOf(was, f) == EndOf(was, e)
    ensures Untouched(was, mem[e := 0], p, e + 1)
    ensures was[e] == 0 ==> EndOf(was, f) == e && Untouched(was, mem[e := 0], p, e)
    ensures was[e] != 0 ==> Terminated(was, e + 1) && EndOf(was, e + 1) == EndOf(was, f)
  {
    SameEnd(was, f, e);
  }

  /** The call's outcome, in terms of the tokens of the original string. */
  lemma {:induction false} CallOnOriginal(was: seq<byte>, mem: seq<byte>, delims: set<byte>, p: nat, f: nat,
                       token: Option<nat>, lasts: Option<nat>, mem': seq<byte>)
    requires Untouched(was, mem, p, f) && p <= f && Terminated(was, f) && Terminated(mem, f)
    requires TokenCall(mem, delims, f, token, lasts, mem')
    ensures var ts := Spans(was, delims, f);
            if ts == [] then token.None? && lasts.None? && mem' == mem
            else
              && token == Some(ts[0].start) && ts[0].end < |mem| && mem' == mem[ts[0].end := 0]
              && (lasts.Some? ==>
                    && f < lasts.value && Terminated(was, lasts.value) && EndOf(was, lasts.value) == EndOf(was, f)
                    && Untouched(was, mem', p, lasts.value))
              && (lasts.None? ==> Untouched(was, mem', p, EndOf(was, f)))
              && ts[1..] == Rest(was, delims, lasts)
  {
    var b, e := NextStops(was, mem, delims, p, f);
    if was[b] == 0 {
      SpansOver(was, delims, f, b);
    } else {
      CutOne(was, mem, p, f, e);
      FirstAndRest(was, delims, f, b, e, Spans(was, delims, f));
    }
  }

  /** The string goes on at `f`, where memory is still as it was; or it is over. */
  ghost predicate Going(was: seq<byte>, mem: seq<byte>, p: nat, f: Option<nat>)
    requires Terminated(was, p)
  {
    match f
    case Some(i) =>
      p <= i <= EndOf(was, p) && Untouched(was, mem, p, i) && Terminated(was, i) && EndOf(was, i) == EndOf(was, p)
    case None => Untouched(was, mem, p, EndOf(was, p))
  }

  /** With `rest` still to come, the tokens and cuts so far lead to those of `all`. */
  ghost predicate Pending(was: seq<byte>, all: seq<Span>, tokens: seq<nat>, rest: seq<Span>, mem: seq<byte>) {
    tokens + StartsOf(rest) == StartsOf(all) && CutAll(mem, rest) == CutAll(was, all)
  }

  lemma OneLessPending(was: seq<byte>, all: seq<Span>, tokens: seq<nat>, rest: seq<Span>, mem: seq<byte>)
    requires Pending(was, all, tokens, rest, mem) && rest != [] && rest[0].end < |mem|
    ensures Pending(was, all, tokens + [rest[0].start], rest[1..], mem[rest[0].end := 0])
  {
  }

  /** One call of `strtok_r` in the middle of a tokenization: the next token, or none and nothing changes. */
  method NextToken(mem: array<byte>, s: Option<nat>, delim: nat, lasts: Option<nat>,
                   ghost was: seq<byte>, ghost p: nat, ghost f: Option<nat>)
    returns (token: Option<nat>, lasts': Option<nat>)
    requires Terminated(was, p) && Terminated(was, delim) && Going(was, mem[..], p, f)
    requires EndOf(was, delim) < p || EndOf(was, p) <= delim
    requires f == if s.Some? then s else lasts
    modifies mem
    ensures Going(was, mem[..], p, lasts')
    ensures var delims := Members(was, delim);
            var rest := Rest(was, delims, f);
            if rest == [] then token.None? && lasts'.None? && mem[..] == old(mem[..])
            else && token == Some(rest[0].start) && rest[1..] == Rest(was, delims, lasts')
                 && rest[0].end < mem.Length && mem[..] == old(mem[..])[rest[0].end := 0]
  {
    ghost var m, delims := mem[..], Members(was, delim);
    MembersFrame(was, m, p, if f.Some? then f.value else EndOf(was, p), delim);
    if f.Some? { StopFrame(was, m, delims, true, p, f.value, f.value); }
    token, lasts' := StrtokR(mem, s, delim, lasts);
    if f.Some? {
      CallOnOriginal(was, m, delims, p, f.value, token, lasts', mem[..]);
      if lasts'.Some? { EndIsNul(was, lasts'.value); }
    }
  }

  lemma {:induction false} CutKeepsNul(mem: seq<byte>, ts: seq<Span>, i: nat)
    requires i < |mem| && mem[i] == 0
    ensures CutAll(mem, ts)[i] == 0
    decreases |ts|
  {
    if ts != [] { CutKeepsNul(if ts[0].end < |mem| then mem[ts[0].end := 0] else mem, ts[1..], i); }
  }

  lemma {:induction false} CutHits(mem: seq<byte>, ts: seq<Span>, k: nat)
    requires k < |ts| && ts[k].end < |mem|
    ensures CutAll(mem, ts)[ts[k].end] == 0
    decreases |ts|
  {
    var mem' := if ts[0].end < |mem| then mem[ts[0].end := 0] else mem;
    if k == 0 {
      CutKeepsNul(mem', ts[1..], ts[0].end);
    } else {
      CutHits(mem', ts[1..], k - 1);
    }
  }

  lemma {:induction false} CutMisses(mem: seq<byte>, ts: seq<Span>, i: nat)
    requires i < |mem| && forall k | 0 <= k < |ts| :: ts[k].end != i
    ensures CutAll(mem, ts)[i] == mem[i]
    decreases |ts|
  {
    if ts != [] {
      CutMisses(if ts[0].end < |mem| then mem[ts[0].end := 0] else mem, ts[1..], i);
    }
  }

  lemma {:induction false} StartsAt(ts: seq<Span>)
    ensures |StartsOf(ts)| == |ts| && forall k | 0 <= k < |ts| :: StartsOf(ts)[k] == ts[k].start
    decreases |ts|
  {
    if ts != [] { StartsAt(ts[1..]); }
  }

  /** A byte after a whole tokenization: NUL if a token ends there, else as before. */
  lemma {:induction false} CutExactly(mem: seq<byte>, p: nat, delim: nat, i: nat)
    requires Terminated(mem, p) && Terminated(mem, delim) && i < |mem|
    ensures CutAll(mem, Spans(mem, Members(mem, delim), p))[i] ==
            if exists b :: UndelimitedRun(mem, p, delim, Span(b, i)) then 0 else mem[i]
  {
    var ts := Spans(mem, Members(mem, delim), p);
    if b :| UndelimitedRun(mem, p, delim, Span(b, i)) {
      TokensExactly(mem, p, delim, Span(b, i));
      var k :| 0 <= k < |ts| && ts[k] == Span(b, i);
      CutHits(mem, ts, k);
    } else {
      forall k | 0 <= k < |ts| ensures ts[k].end != i {
        TokensExactly(mem, p, delim, ts[k]);
        assert !UndelimitedRun(mem, p, delim, Span(ts[k].start, i));
      }
      CutMisses(mem, ts, i);
    }
  }

  lemma {:induction false} StartsInOrder(mem: seq<byte>, delims: set<byte>, p: nat, ts: seq<Span>)
    requires RunsInOrder(mem, delims, p, p, ts)
    ensures forall i, j | 0 <= i < j < |StartsOf(ts)| :: StartsOf(ts)[i] < StartsOf(ts)[j]
  {
    StartsAt(ts);
    forall i, j | 0 <= i < j < |ts| ensures ts[i].start < ts[j].start {
      assert MaximalRun(mem, delims, p, ts[i]) && ts[i].end < ts[j].start;
    }
  }

  /** A pointer a whole tokenization returns is the start of a run, and every run is returned. */
  lemma {:induction false} StartExactly(mem: seq<byte>, p: nat, delim: nat, b: nat)
    requires Terminated(mem, p) && Terminated(mem, delim)
    ensures b in StartsOf(Spans(mem, Members(mem, delim), p)) <==> exists e :: UndelimitedRun(mem, p, delim, Span(b, e))
  {
    var ts := Spans(mem, Members(mem, delim), p);
    StartsAt(ts);
    if b in StartsOf(ts) {
      var k :| 0 <= k < |ts| && StartsOf(ts)[k] == b;
      TokensExactly(mem, p, delim, ts[k]);
      assert ts[k] == Span(b, ts[k].end);
    }
    if e :| UndelimitedRun(mem, p, delim, Span(b, e)) {
      TokensExactly(mem, p, delim, Span(b, e));
      var k :| 0 <= k < |ts| && ts[k] == Span(b, e);
      assert StartsOf(ts)[k] == b;
    }
  }

  /** The client's loop, against the expected tokens. */
  method TokenizeToTheEnd(mem: array<byte>, p: nat, delim: nat) returns (tokens: seq<nat>, lasts: Option<nat>)
    requires Terminated(mem[..], p) && Terminated(mem[..], delim)
    requires EndOf(mem[..], delim) < p || EndOf(mem[..], p) <= delim  // the two strings do not overlap
    modifies mem
    ensures tokens == StartsOf(Spans(old(mem[..]), Members(old(mem[..]), delim), p))
    ensures mem[..] == CutAll(old(mem[..]), Spans(old(mem[..]), Members(old(mem[..]), delim), p))
    ensures lasts.None?
  {
    ghost var was, delims := mem[..], Members(mem[..], delim);
    ghost var all := Spans(was, delims, p);
    EndIsNul(was, p);
    tokens, lasts := [], None;
    var s := Some(p);
    ghost var f := s;
    while true
      invariant f == (if s.Some? then s else lasts) && Going(was, mem[..], p, f)
      invariant Pending(was, all, tokens, Rest(was, delims, f), mem[..])
      decreases |Rest(was, delims, f)|
    {
      ghost var rest, m := Rest(was, delims, f), mem[..];
      var token;
      token, lasts := NextToken(mem, s, delim, lasts, was, p, f);
      s, f := None, lasts;
      if token.None? { return; }
      OneLessPending(was, all, tokens, rest, m);
      tokens := tokens + [token.value];
    }
  }

  /**
   A client that tokenizes a string to the end: `strtok_r` on the string, then on null until it
   returns null. The pointers it gets are the starts of the tokens, in order, and memory changes only
   where a NUL ends a token. A token is a longest run without a byte of the delimiter string.
   */
  method TokenizeAll(mem: array<byte>, p: nat, delim: nat) returns (tokens: seq<nat>, lasts: Option<nat>)
    requires Terminated(mem[..], p) && Terminated(mem[..], delim)
    requires EndOf(mem[..], delim) < p || EndOf(mem[..], p) <= delim  // the two strings do not overlap
    modifies mem
    ensures tokens == StartsOf(Spans(old(mem[..]), Members(old(mem[..]), delim), p)) && lasts.None?
    ensures mem[..] == CutAll(old(mem[..]), Spans(old(mem[..]), Members(old(mem[..]), delim), p))
    ensures forall i, j | 0 <= i < j < |tokens| :: tokens[i] < tokens[j]
    ensures forall b: nat :: b in tokens <==> exists e :: UndelimitedRun(old(mem[..]), p, delim, Span(b, e))
    ensures forall i: nat | i < |mem[..]| ::
              mem[..][i] ==
              if exists b :: UndelimitedRun(old(mem[..]), p, delim, Span(b, i)) then 0 else old(mem[..])[i]
  {
    ghost var was := mem[..];
    tokens, lasts := TokenizeToTheEnd(mem, p, delim);
    SpansAreRuns(was, Members(was, delim), p, p);
    StartsInOrder(was, Members(was, delim), p, Spans(was, Members(was, delim), p));
    forall b: nat { StartExactly(was, p, delim, b); }
    forall i: nat | i < |was| { CutExactly(was, p, delim, i); }
  }

  /** No byte inside one of the runs is overwritten. */
  lemma {:induction false} RunStaysUncut(mem: seq<byte>, delims: set<byte>, p: nat, ts: seq<Span>, k: nat, i: nat)
    requires RunsInOrder(mem, delims, p, p, ts) && k < |ts| && ts[k].start <= i < ts[k].end
    ensures i < |mem| && CutAll(mem, ts)[i] == mem[i]
  {
    assert MaximalRun(mem, delims, p, ts[k]);
    forall j | 0 <= j < |ts| ensures ts[j].end != i { assert MaximalRun(mem, delims, p, ts[j]); }
    CutMisses(mem, ts, i);
  }

  lemma {:induction false} RunReadsBack(mem: seq<byte>, delims: set<byte>, p: nat, ts: seq<Span>, k: nat)
    requires RunsInOrder(mem, delims, p, p, ts) && k < |ts|
    ensures MaximalRun(mem, delims, p, ts[k]) && Terminated(CutAll(mem, ts), ts[k].start)
    ensures StringAt(CutAll(mem, ts), ts[k].start) == mem[ts[k].start..ts[k].end]
  {
    var t, cut := ts[k], CutAll(mem, ts);
    assert MaximalRun(mem, delims, p, t);
    forall i | t.start <= i < t.end ensures cut[i] == mem[i] { RunStaysUncut(mem, delims, p, ts, k, i); }
    CutHits(mem, ts, k);
    StringUpTo(cut, t.start, t.end);
    assert cut[t.start..t.end] == mem[t.start..t.end];
  }

  /** After a whole tokenization, each returned pointer is the C string of one maximal run. */
  lemma {:induction false} TokensReadBack(mem: seq<byte>, delims: set<byte>, p: nat, k: nat)
    requires Terminated(mem, p) && k < |Spans(mem, delims, p)|
    ensures var ts := Spans(mem, delims, p);
            && MaximalRun(mem, delims, p, ts[k]) && Terminated(CutAll(mem, ts), ts[k].start)
            && StringAt(CutAll(mem, ts), ts[k].start) == mem[ts[k].start..ts[k].end]
  {
    SpansAreRuns(mem, delims, p, p);
    RunReadsBack(mem, delims, p, Spans(mem, delims, p), k);
  }

  /** A whole tokenization overwrites nothing but the delimiter right after a token. */
  lemma {:induction false} OnlyDelimitersAreCut(mem: seq<byte>, delims: set<byte>, p: nat, i: nat)
    requires Terminated(mem, p) && i < |mem| && CutAll(mem, Spans(mem, delims, p))[i] != mem[i]
    ensures mem[i] in delims && exists k :: 0 <= k < |Spans(mem, delims, p)| && Spans(mem, delims, p)[k].end == i
  {
    var ts := Spans(mem, delims, p);
    SpansAreRuns(mem, delims, p, p);
    if forall k | 0 <= k < |ts| :: ts[k].end != i {
      CutMisses(mem, ts, i);
    } else {
      var k :| 0 <= k < |ts| && ts[k].end == i;
      assert MaximalRun(mem, delims, p, ts[k]);
      CutHits(mem, ts, k);
    }
  }
}
