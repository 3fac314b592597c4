/** The iterator that consolidates the UEFI memory map. */
module MemoryMap {
  import opened Bytes

  datatype Region = Region(start: nat, len: nat, kind: int)

  /** The second region continues the first: same kind, and it starts where the first ends. */
  predicate Joins(r: Region, next: Region) { r.kind == next.kind && r.start + r.len == next.start }

  function Joined(r: Region, next: Region): Region { r.(len := r.len + next.len) }

  /** The consolidated list. */
  function Merge(rs: seq<Region>): seq<Region>
    decreases |rs|
  {
    if |rs| <= 1 then rs
    else if Joins(rs[0], rs[1]) then Merge([Joined(rs[0], rs[1])] + rs[2..])
    else [rs[0]] + Merge(rs[1..])
  }

  // ---------------------------------------------------------------- what consolidating keeps

  predicate Covers(r: Region, kind: int, address: nat) { r.kind == kind && r.start <= address < r.start + r.len }

  /** How many regions of the kind cover the address. */
  function Count(rs: seq<Region>, kind: int, address: nat): nat {
    if rs == [] then 0 else (if Covers(rs[0], kind, address) then 1 else 0) + Count(rs[1..], kind, address)
  }

  function Total(rs: seq<Region>): nat {
    if rs == [] then 0 else rs[0].len + Total(rs[1..])
  }

  /** No two neighbours could still be merged. */
  ghost predicate Consolidated(rs: seq<Region>) {
    forall i | 0 <= i < |rs| - 1 :: !Joins(rs[i], rs[i + 1])
  }

  lemma TwoInFront(rs: seq<Region>, r: Region)
    requires |rs| > 1
    ensures rs[1..][1..] == rs[2..] && ([r] + rs[2..])[1..] == rs[2..]
  {
  }

  /** Each address is covered as often and with the same kinds. */
  lemma {:induction false} MergeKeepsCoverage(rs: seq<Region>, kind: int, address: nat)
    ensures Count(Merge(rs), kind, address) == Count(rs, kind, address)
    decreases |rs|
  {
    if |rs| > 1 {
      if Joins(rs[0], rs[1]) {
        var r := Joined(rs[0], rs[1]);
        TwoInFront(rs, r);
        MergeKeepsCoverage([r] + rs[2..], kind, address);
      } else {
        MergeKeepsCoverage(rs[1..], kind, address);
        assert ([rs[0]] + Merge(rs[1..]))[1..] == Merge(rs[1..]);
      }
    }
  }

  lemma {:induction false} MergeKeepsTotal(rs: seq<Region>)
    ensures Total(Merge(rs)) == Total(rs)
    decreases |rs|
  {
    if |rs| > 1 {
      if Joins(rs[0], rs[1]) {
        var r := Joined(rs[0], rs[1]);
        TwoInFront(rs, r);
        MergeKeepsTotal([r] + rs[2..]);
      } else {
        MergeKeepsTotal(rs[1..]);
        assert ([rs[0]] + Merge(rs[1..]))[1..] == Merge(rs[1..]);
      }
    }
  }

  /** The first region keeps its start and kind, so it cannot join what came before it. */
  lemma {:induction false} FirstOfMerge(rs: seq<Region>)
    requires rs != []
    ensures Merge(rs) != [] && Merge(rs)[0].start == rs[0].start && Merge(rs)[0].kind == rs[0].kind
    decreases |rs|
  {
    if |rs| > 1 && Joins(rs[0], rs[1]) {
      FirstOfMerge([Joined(rs[0], rs[1])] + rs[2..]);
    }
  }

  /** No two neighbours of the result are of one kind with the second starting where the first ends. */
  lemma {:induction false} MergeConsolidates(rs: seq<Region>)
    ensures Consolidated(Merge(rs))
    ensures var out := Merge(rs);
            forall i | 0 <= i < |out| - 1 ::
              !(out[i].kind == out[i + 1].kind && out[i].start + out[i].len == out[i + 1].start)
    decreases |rs|
  {
    if |rs| > 1 {
      if Joins(rs[0], rs[1]) {
        MergeConsolidates([Joined(rs[0], rs[1])] + rs[2..]);
      } else {
        MergeConsolidates(rs[1..]);
        FirstOfMerge(rs[1..]);
      }
    }
  }

  /** Consolidating changes a list exactly when two neighbours join. */
  lemma {:induction false} MergeChanges(rs: seq<Region>)
    ensures Merge(rs) == rs <==> Consolidated(rs)
    ensures Consolidated(rs) <==> forall i | 0 <= i < |rs| - 1 ::
              !(rs[i].kind == rs[i + 1].kind && rs[i].start + rs[i].len == rs[i + 1].start)
    decreases |rs|
  {
    if Consolidated(rs) {
      if |rs| > 1 {
        assert Consolidated(rs[1..]) by {
          forall i | 0 <= i < |rs[1..]| - 1 ensures !Joins(rs[1..][i], rs[1..][i + 1]) {
            assert !Joins(rs[i + 1], rs[i + 2]);
          }
        }
        MergeChanges(rs[1..]);
        assert !Joins(rs[0], rs[1]);
        assert rs == [rs[0]] + rs[1..];
      }
    } else {
      MergeConsolidates(rs);
    }
  }

  /** Consolidating again changes nothing. */
  lemma MergeIdempotent(rs: seq<Region>)
    ensures Merge(Merge(rs)) == Merge(rs)
  {
    MergeConsolidates(rs);
    MergeChanges(Merge(rs));
  }

  // ---------------------------------------------------------------- what the result is made of

  /** The regions from `i` up to, not including, `j` are of one kind and follow one another without a gap. */
  predicate Chained(rs: seq<Region>, i: nat, j: nat) {
    && i < j <= |rs|
    && forall k | i <= k < j - 1 :: rs[k].kind == rs[k + 1].kind && rs[k].start + rs[k].len == rs[k + 1].start
  }

  /** `r` spans the regions from `i` up to, not including, `j`. */
  predicate Spans(r: Region, rs: seq<Region>, i: nat, j: nat) {
    && Chained(rs, i, j) && r.start == rs[i].start && r.kind == rs[i].kind
    && r.start + r.len == rs[j - 1].start + rs[j - 1].len
  }

  /** The regions of `out` span `rs` piece by piece, cut at these positions. */
  ghost predicate IsGrouping(rs: seq<Region>, out: seq<Region>, cuts: seq<nat>) {
    && |cuts| == |out| + 1 && cuts[0] == 0 && cuts[|out|] == |rs|
    && forall k | 0 <= k < |out| :: Spans(out[k], rs, cuts[k], cuts[k + 1])
  }

  lemma ShiftSpan(r: Region, rs: seq<Region>, i: nat, j: nat)
    requires rs != [] && Spans(r, rs[1..], i, j)
    ensures Spans(r, rs, i + 1, j + 1)
  {
    var rest := rs[1..];
    forall k | i + 1 <= k < j
      ensures rs[k].kind == rs[k + 1].kind && rs[k].start + rs[k].len == rs[k + 1].start
    {
      assert rest[k - 1].kind == rest[k].kind && rest[k - 1].start + rest[k - 1].len == rest[k].start;
    }
  }

  lemma ShiftJoined(r: Region, rs: seq<Region>, i: nat, j: nat)
    requires |rs| > 1 && Joins(rs[0], rs[1]) && Spans(r, [Joined(rs[0], rs[1])] + rs[2..], i, j)
    ensures Spans(r, rs, if i == 0 then 0 else i + 1, j + 1)
  {
    var all := [Joined(rs[0], rs[1])] + rs[2..];
    forall k | (if i == 0 then 0 else i + 1) <= k < j
      ensures rs[k].kind == rs[k + 1].kind && rs[k].start + rs[k].len == rs[k + 1].start
    {
      if k > 0 {
        assert all[k - 1].kind == all[k].kind && all[k - 1].start + all[k - 1].len == all[k].start;
      }
    }
  }

  lemma {:induction false} CutsGrow(rs: seq<Region>, out: seq<Region>, cuts: seq<nat>, k: nat)
    requires IsGrouping(rs, out, cuts) && k <= |out|
    ensures cuts[k] >= k
  {
    if k > 0 {
      CutsGrow(rs, out, cuts, k - 1);
      assert Spans(out[k - 1], rs, cuts[k - 1], cuts[k]);
    }
  }

  lemma GroupJoined(rs: seq<Region>, out: seq<Region>, c: seq<nat>) returns (cuts: seq<nat>)
    requires |rs| > 1 && Joins(rs[0], rs[1]) && IsGrouping([Joined(rs[0], rs[1])] + rs[2..], out, c)
    ensures IsGrouping(rs, out, cuts)
  {
    var all := [Joined(rs[0], rs[1])] + rs[2..];
    cuts := seq(|c|, k requires 0 <= k < |c| => if k == 0 then 0 else c[k] + 1);
    forall k | 0 <= k < |out| ensures Spans(out[k], rs, cuts[k], cuts[k + 1]) {
      assert Spans(out[k], all, c[k], c[k + 1]);
      ShiftJoined(out[k], rs, c[k], c[k + 1]);
      CutsGrow(all, out, c, k);
    }
    CutsGrow(all, out, c, |out|);
  }

  lemma GroupAfter(rs: seq<Region>, out: seq<Region>, c: seq<nat>) returns (cuts: seq<nat>)
    requires rs != [] && IsGrouping(rs[1..], out, c)
    ensures IsGrouping(rs, [rs[0]] + out, cuts)
  {
    cuts := [0] + seq(|c|, k requires 0 <= k < |c| => c[k] + 1);
    var all := [rs[0]] + out;
    forall k | 0 <= k < |all| ensures Spans(all[k], rs, cuts[k], cuts[k + 1]) {
      if k > 0 {
        assert Spans(out[k - 1], rs[1..], c[k - 1], c[k]);
        ShiftSpan(out[k - 1], rs, c[k - 1], c[k]);
      }
    }
  }

  /** Each region of the result spans a stretch of the list, stretch after stretch, and nothing is left out. */
  lemma {:induction false} MergeGroups(rs: seq<Region>) returns (cuts: seq<nat>)
    ensures IsGrouping(rs, Merge(rs), cuts)
    decreases |rs|
  {
    if |rs| <= 1 {
      cuts := if rs == [] then [0] else [0, 1];
    } else if Joins(rs[0], rs[1]) {
      cuts := MergeGroups([Joined(rs[0], rs[1])] + rs[2..]);
      cuts := GroupJoined(rs, Merge(rs), cuts);
    } else {
      cuts := MergeGroups(rs[1..]);
      cuts := GroupAfter(rs, Merge(rs[1..]), cuts);
    }
  }

  // ---------------------------------------------------------------- the iterator

  class MemoryRegions {
    const regions: seq<Region>
    var pos: nat

    ghost predicate Valid()
      reads this
    {
      pos <= |regions|
    }

    constructor (rs: seq<Region>)
      ensures Valid() && regions == rs && pos == 0
    {
      regions, pos := rs, 0;
    }

    /** The next consolidated region: takes in neighbours while they join. */
    method Next() returns (r: Option<Region>)
      requires Valid()
      modifies this
      ensures Valid() && (r.None? <==> old(pos) == |regions|)
      ensures r.None? ==> pos == old(pos)
      ensures r.Some? ==> old(pos) < pos && Merge(regions[old(pos)..]) == [r.value] + Merge(regions[pos..])
    {
      if pos == |regions| { return None; }
      var region := regions[pos];
      pos := pos + 1;
      assert [region] + regions[pos..] == regions[old(pos)..];
      while pos < |regions| && Joins(region, regions[pos])
        invariant old(pos) < pos <= |regions|
        invariant Merge([region] + regions[pos..]) == Merge(regions[old(pos)..])
      {
        MergeStep(region, regions, pos);
        region := Joined(region, regions[pos]);
        pos := pos + 1;
      }
      MergeStep(region, regions, pos);
      return Some(region);
    }

    /** Collecting the iterator. */
    method Collect() returns (out: seq<Region>)
      requires Valid()
      modifies this
      ensures out == Merge(regions[old(pos)..])
    {
      out := [];
      while pos < |regions|
        invariant Valid() && out + Merge(regions[pos..]) == Merge(regions[old(pos)..])
        decreases |regions| - pos
      {
        var r := Next();
        out := out + [r.value];
      }
    }
  }

  lemma MergeStep(r: Region, rs: seq<Region>, p: nat)
    requires p <= |rs|
    ensures Merge([r] + rs[p..]) ==
            if p < |rs| && Joins(r, rs[p]) then Merge([Joined(r, rs[p])] + rs[p + 1..]) else [r] + Merge(rs[p..])
  {
    var all := [r] + rs[p..];
    assert all[1..] == rs[p..];
    if p < |rs| {
      assert all[1] == rs[p] && all[2..] == rs[p + 1..];
    }
  }
}
