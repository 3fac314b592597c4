/**
 The fixed-size block allocator as a transition system.

 Free blocks of each size class form a list whose next-pointers are stored in the blocks themselves,
 in the same memory that clients write to. The fallback heap is any heap that hands out non-null,
 aligned, disjoint regions, or fails.
 */
module BlockAllocatorRuns {
  import opened Runs
  import opened Bytes
  import opened Arithmetic

  const BLOCK_SIZES: seq<nat> := [8, 16, 32, 64, 128, 256, 512, 1024, 2048]
  const WORD: nat := 8  // size and alignment of a list node

  /** The word an address lies in. */
  function WordOf(addr: nat): (w: nat)
    ensures w <= addr < w + WORD
  {
    addr - addr % WORD
  }

  /** A layout's alignment is a power of two, as the standard library guarantees. */
  datatype Layout = Layout(size: nat, align: nat)

  predicate PowerOfTwo(n: nat) {
    n == 1 || (n > 1 && n % 2 == 0 && PowerOfTwo(n / 2))
  }

  function Required(l: Layout): nat { if l.size >= l.align then l.size else l.align }

  /** The first size class from `i` on that can hold the layout. */
  function ClassFrom(l: Layout, i: nat): Option<nat>
    requires i <= |BLOCK_SIZES|
    decreases |BLOCK_SIZES| - i
  {
    if i == |BLOCK_SIZES| then None
    else if BLOCK_SIZES[i] >= Required(l) then Some(i)
    else ClassFrom(l, i + 1)
  }

  function ClassOf(l: Layout): Option<nat> { ClassFrom(l, 0) }

  /** What the allocator asks the fallback heap for when it needs a region for `l`. */
  function Backing(l: Layout): Layout {
    match ClassOf(l)
    case Some(i) => Layout(BLOCK_SIZES[i], BLOCK_SIZES[i])
    case None => l
  }

  lemma {:induction false} ClassFromBounds(l: Layout, i: nat)
    requires i <= |BLOCK_SIZES|
    ensures match ClassFrom(l, i)
            case Some(k) => i <= k < |BLOCK_SIZES| && BLOCK_SIZES[k] >= Required(l)
                            && forall j | i <= j < k :: BLOCK_SIZES[j] < Required(l)
            case None => forall j | i <= j < |BLOCK_SIZES| :: BLOCK_SIZES[j] < Required(l)
    decreases |BLOCK_SIZES| - i
  {
    if i < |BLOCK_SIZES| && BLOCK_SIZES[i] < Required(l) { ClassFromBounds(l, i + 1); }
  }

  /** A layout belongs to the smallest block that is as large as its size and its alignment; a larger one has none. */
  lemma ClassExactly(l: Layout, i: nat)
    ensures var sizes := [8, 16, 32, 64, 128, 256, 512, 1024, 2048];
            ClassOf(l) == Some(i) <==>
            && i < 9 && l.size <= sizes[i] && l.align <= sizes[i]
            && forall j | 0 <= j < i :: sizes[j] < l.size || sizes[j] < l.align
    ensures ClassOf(l).None? <==> l.size > 2048 || l.align > 2048
  {
    ClassFromBounds(l, 0);
    assert BLOCK_SIZES[8] == 2048;
  }

  // ---------------------------------------------------------------- states and actions

  /** Who holds a region obtained from the fallback heap. */
  datatype Owner = Client(layout: Layout) | FreeList(index: nat)

  datatype Region = Region(size: nat, align: nat, owner: Owner)

  datatype State = State(
    heads: seq<nat>,            // first free block of each class; 0 is null
    mem: map<nat, nat>,         // memory words, by word-aligned address
    regions: map<nat, Region>,  // what the fallback heap has handed out, by address
    lists: seq<seq<nat>>)       // the free lists, spelled out

  datatype Action =
    | Pop(layout: Layout, p: nat)              // the first free block is handed to the client
    | Carve(layout: Layout, p: nat)            // the fallback heap provides a region
    | Refuse(layout: Layout)                   // the fallback heap has no room: null
    | Push(p: nat, layout: Layout)             // a client's block goes to its free list
    | Return(p: nat, layout: Layout)           // a client's large region goes back to the heap
    | Scribble(p: nat, addr: nat, word: nat)   // the client writes inside its live allocation `p`

  predicate Apart(p: nat, psize: nat, q: nat, qsize: nat) { p + psize <= q || q + qsize <= p }

  /** What the fallback heap promises of a region it hands out. */
  predicate FreshRegion(regions: map<nat, Region>, p: nat, l: Layout) {
    && p > 0 && l.align > 0 && p % l.align == 0 && p !in regions
    && forall q | q in regions :: Apart(p, l.size, q, regions[q].size)
  }

  predicate LiveAs(s: State, p: nat, l: Layout) {
    p in s.regions && s.regions[p].owner == Client(l)
  }

  /** `p` is a pointer some client holds. */
  predicate Held(s: State, p: nat) { p in s.regions && s.regions[p].owner.Client? }

  /** The first free block of the layout's class; null if there is none or the layout has no class. */
  function HeadFor(s: State, l: Layout): nat {
    if ClassOf(l).Some? && ClassOf(l).value < |s.heads| then s.heads[ClassOf(l).value] else 0
  }

  /** A client frees each live pointer once, with its own layout, and writes only inside what it holds. */
  predicate Enabled(s: State, a: Action) {
    |s.heads| == |BLOCK_SIZES| == |s.lists| &&
    match a
    case Pop(l, p) => ClassOf(l).Some? && PowerOfTwo(l.align) && p == s.heads[ClassOf(l).value] && p in s.mem
                      && p in s.regions && s.lists[ClassOf(l).value] != []
    case Carve(l, p) => PowerOfTwo(l.align) && HeadFor(s, l) == 0 && FreshRegion(s.regions, p, Backing(l))
    case Refuse(l) => PowerOfTwo(l.align) && HeadFor(s, l) == 0
    case Push(p, l) => LiveAs(s, p, l) && ClassOf(l).Some?
    case Return(p, l) => LiveAs(s, p, l) && ClassOf(l).None?
    case Scribble(p, addr, _) =>
      p in s.regions && s.regions[p].owner.Client? && p <= addr < p + s.regions[p].owner.layout.size
  }

  function Apply(s: State, a: Action): State {
    if !Enabled(s, a) then s else
    match a
    case Pop(l, p) =>
      var i := ClassOf(l).value;
      s.(heads := s.heads[i := s.mem[p]], mem := s.mem[p := 0],
         regions := s.regions[p := s.regions[p].(owner := Client(l))],
         lists := s.lists[i := s.lists[i][1..]])
    case Carve(l, p) =>
      s.(regions := s.regions[p := Region(Backing(l).size, Backing(l).align, Client(l))])
    case Refuse(l) => s
    case Push(p, l) =>
      var i := ClassOf(l).value;
      s.(mem := s.mem[p := s.heads[i]], heads := s.heads[i := p],
         regions := s.regions[p := s.regions[p].(owner := FreeList(i))],
         lists := s.lists[i := [p] + s.lists[i]])
    case Return(p, l) => s.(regions := s.regions - {p})
    case Scribble(_, addr, word) => s.(mem := s.mem[WordOf(addr) := word])
  }

  function Allocator(): Machine<State, Action> { Machine(Enabled, Apply) }

  type History = Run<State, Action>

  // ---------------------------------------------------------------- the invariant

  /** Following next-pointers through memory from `head` visits exactly `nodes`, then null. */
  predicate Chain(mem: map<nat, nat>, head: nat, nodes: seq<nat>)
    decreases |nodes|
  {
    if nodes == [] then head == 0
    else head != 0 && head == nodes[0] && head in mem && Chain(mem, mem[head], nodes[1..])
  }

  predicate NoDuplicates(nodes: seq<nat>) {
    forall i, j | 0 <= i < j < |nodes| :: nodes[i] != nodes[j]
  }

  /** Every region handed out fits its owner and is aligned; no two overlap. */
  predicate Separated(regions: map<nat, Region>) {
    && (forall p | p in regions :: p > 0 && FitsOwner(p, regions[p]))
    && (forall p, q | p in regions && q in regions && p != q ::
          Apart(p, regions[p].size, q, regions[q].size))
  }

  predicate FitsOwner(p: nat, r: Region) {
    && r.align > 0 && p % r.align == 0
    && (match r.owner
        case Client(l) => PowerOfTwo(l.align) && Layout(r.size, r.align) == Backing(l)
        case FreeList(i) => i < |BLOCK_SIZES| && r.size == r.align == BLOCK_SIZES[i])
  }

  /** List `i` is the chain in memory from its head, and holds exactly the regions it owns, once each. */
  predicate ListOk(s: State, i: nat)
    requires i < |s.heads| && i < |s.lists|
  {
    && Chain(s.mem, s.heads[i], s.lists[i]) && NoDuplicates(s.lists[i])
    && (forall p | p in s.lists[i] :: p in s.regions && s.regions[p].owner == FreeList(i))
    && (forall p | p in s.regions && s.regions[p].owner == FreeList(i) :: p in s.lists[i])
  }

  predicate Inv(s: State) {
    && |s.heads| == |BLOCK_SIZES| == |s.lists|
    && Separated(s.regions)
    && forall i | 0 <= i < |BLOCK_SIZES| :: ListOk(s, i)
  }

  lemma {:induction false} ChainFrame(mem: map<nat, nat>, head: nat, nodes: seq<nat>, addr: nat, word: nat)
    requires Chain(mem, head, nodes) && addr !in nodes
    ensures Chain(mem[addr := word], head, nodes)
    decreases |nodes|
  {
    if nodes != [] { ChainFrame(mem, mem[head], nodes[1..], addr, word); }
  }

  /** The block allocated for a layout is large enough for it. */
  lemma BackingFits(l: Layout)
    ensures Backing(l).size >= l.size && Backing(l).align >= l.align
    ensures ClassOf(l).Some? ==>
              ClassOf(l).value < |BLOCK_SIZES| && Backing(l).size == Backing(l).align == BLOCK_SIZES[ClassOf(l).value]
  {
    ClassFromBounds(l, 0);
  }

  lemma BlockSizesHoldANode(i: nat)
    requires i < |BLOCK_SIZES|
    ensures WORD <= BLOCK_SIZES[i]
  {
  }

  lemma KeepsSeparated(s: State, a: Action)
    requires Inv(s) && Enabled(s, a)
    ensures Separated(Apply(s, a).regions)
  {
    match a
    case Pop(l, p) =>
      BackingFits(l);
      assert ListOk(s, ClassOf(l).value) && p in s.lists[ClassOf(l).value];
    case Carve(l, p) => BackingFits(l);
    case Refuse(l) =>
    case Push(p, l) => BackingFits(l);
    case Return(p, l) =>
    case Scribble(_, _, _) =>
  }

  /** A client's write cannot hit the word in which a free block keeps its next-pointer. */
  lemma WritesMissNodes(s: State, a: Action, i: nat)
    requires Inv(s) && Enabled(s, a) && a.Scribble? && i < |BLOCK_SIZES|
    ensures WordOf(a.addr) !in s.lists[i]
  {
    var q, l := WordOf(a.addr), s.regions[a.p].owner.layout;
    BackingFits(l);
    BlockSizesHoldANode(i);
    assert ListOk(s, i);
  }

  lemma PopKeepsList(s: State, l: Layout, p: nat, j: nat)
    requires Inv(s) && Enabled(s, Pop(l, p)) && j < |BLOCK_SIZES|
    ensures ListOk(Apply(s, Pop(l, p)), j)
  {
    var i := ClassOf(l).value;
    BackingFits(l);
    assert ListOk(s, i) && ListOk(s, j);
    var t := Apply(s, Pop(l, p));
    assert s.lists[i] == [p] + s.lists[i][1..];
    ChainFrame(s.mem, t.heads[j], t.lists[j], p, 0);
    if i == j {
      forall q | q in t.regions && t.regions[q].owner == FreeList(j) ensures q in t.lists[j] {
        assert q != p && q in s.lists[i];
      }
    }
  }

  lemma PushKeepsList(s: State, p: nat, l: Layout, j: nat)
    requires Inv(s) && Enabled(s, Push(p, l)) && j < |BLOCK_SIZES|
    ensures ListOk(Apply(s, Push(p, l)), j)
  {
    var i := ClassOf(l).value;
    BackingFits(l);
    assert ListOk(s, i) && ListOk(s, j);
    ChainFrame(s.mem, s.heads[j], s.lists[j], p, s.heads[i]);
    var t := Apply(s, Push(p, l));
    if i == j {
      assert t.lists[j][1..] == s.lists[j];
    }
  }

  lemma OthersKeepList(s: State, a: Action, j: nat)
    requires Inv(s) && Enabled(s, a) && j < |BLOCK_SIZES| && (a.Carve? || a.Refuse? || a.Return?)
    ensures ListOk(Apply(s, a), j)
  {
    assert ListOk(s, j);
    match a
    case Carve(l, p) =>
    case Refuse(l) =>
    case Return(p, l) =>
  }

  lemma WriteKeepsList(s: State, a: Action, j: nat)
    requires Inv(s) && Enabled(s, a) && j < |BLOCK_SIZES| && a.Scribble?
    ensures ListOk(Apply(s, a), j)
  {
    assert ListOk(s, j);
    WritesMissNodes(s, a, j);
    ChainFrame(s.mem, s.heads[j], s.lists[j], WordOf(a.addr), a.word);
  }

  lemma KeepsList(s: State, a: Action, j: nat)
    requires Inv(s) && Enabled(s, a) && j < |BLOCK_SIZES|
    ensures ListOk(Apply(s, a), j)
  {
    match a
    case Pop(l, p) => PopKeepsList(s, l, p, j);
    case Push(p, l) => PushKeepsList(s, p, l, j);
    case Scribble(_, _, _) => WriteKeepsList(s, a, j);
    case _ => OthersKeepList(s, a, j);
  }

  lemma ApplyKeepsInv(s: State, a: Action)
    requires Inv(s) && Enabled(s, a)
    ensures Inv(Apply(s, a))
  {
    KeepsSeparated(s, a);
    forall j | 0 <= j < |BLOCK_SIZES| ensures ListOk(Apply(s, a), j) {
      KeepsList(s, a, j);
    }
  }

  // ---------------------------------------------------------------- every run

  /** An allocator just created. */
  predicate Empty(s: State) {
    && s.heads == seq(|BLOCK_SIZES|, _ => 0) && s.lists == seq(|BLOCK_SIZES|, _ => [])
    && s.regions == map[]
  }

  lemma {:induction false} RunKeepsInv(run: History)
    requires Empty(Origin(run)) && Legal(Allocator(), run)
    ensures Inv(run.state)
  {
    if run.Then? {
      LastStep(Allocator(), run);
      RunKeepsInv(run.prev);
      ApplyKeepsInv(run.prev.state, run.act);
    } else {
      forall i | 0 <= i < |BLOCK_SIZES| ensures ListOk(run.state, i) {
      }
    }
  }

  /** The run is legal, began with an empty allocator, and kept the invariant at every moment. */
  ghost predicate Reached(run: History) {
    Empty(Origin(run)) && Legal(Allocator(), run) && forall p | Within(p, run) :: Inv(p.state)
  }

  lemma Now(run: History)
    requires Reached(run)
    ensures Inv(run.state)
  {
    assert Within(run, run);
  }

  lemma OneMore(run: History, a: Action)
    requires Reached(run) && Enabled(run.state, a)
    ensures Reached(Then(run, a, Apply(run.state, a)))
  {
    Now(run);
    Extend(Allocator(), run, a);
    ApplyKeepsInv(run.state, a);
  }

  /** What its owner uses of a region: the bytes the client asked for, or a block of the list's size. */
  function Extent(r: Region): nat {
    match r.owner
    case Client(l) => l.size
    case FreeList(i) => if i < |BLOCK_SIZES| then BLOCK_SIZES[i] else 0
  }

  lemma ExtentFits(p: nat, r: Region)
    requires FitsOwner(p, r)
    ensures Extent(r) <= r.size && (r.owner.FreeList? ==> r.owner.index < |BLOCK_SIZES|)
  {
    if r.owner.Client? { BackingFits(r.owner.layout); }
  }

  /** Live allocations and free blocks never overlap one another. */
  lemma AllocationsStayApart(run: History, p: nat, q: nat)
    requires Empty(Origin(run)) && Legal(Allocator(), run)
    requires p in run.state.regions && q in run.state.regions && p != q
    ensures Apart(p, Extent(run.state.regions[p]), q, Extent(run.state.regions[q]))
  {
    RunKeepsInv(run);
    var regions := run.state.regions;
    assert Apart(p, regions[p].size, q, regions[q].size) && FitsOwner(p, regions[p]) && FitsOwner(q, regions[q]);
    ExtentFits(p, regions[p]);
    ExtentFits(q, regions[q]);
  }

  /** The regions held from the fallback heap are exactly the clients' and those in the free lists. */
  lemma RegionsAreLiveOrFree(run: History, p: nat, i: nat)
    requires Empty(Origin(run)) && Legal(Allocator(), run) && i < |BLOCK_SIZES|
    ensures |run.state.lists| == |BLOCK_SIZES|
    ensures p in run.state.lists[i] <==> p in run.state.regions && run.state.regions[p].owner == FreeList(i)
    ensures p in run.state.regions ==>
              run.state.regions[p].owner.Client? || run.state.regions[p].owner.index < |BLOCK_SIZES|
  {
    RunKeepsInv(run);
    assert ListOk(run.state, i);
    if p in run.state.regions {
      assert FitsOwner(p, run.state.regions[p]);
    }
  }

  // ---------------------------------------------------------------- alignment

  lemma {:induction false} PowersDivide(a: nat, b: nat)
    requires PowerOfTwo(a) && PowerOfTwo(b) && a <= b
    ensures exists k: nat :: b == k * a
  {
    if a == 1 {
      assert b == b * 1;
    } else {
      PowersDivide(a / 2, b / 2);
      var k: nat :| b / 2 == k * (a / 2);
      assert b == k * a by {
        assert a == 2 * (a / 2) && b == 2 * (b / 2);
      }
    }
  }

  lemma MultipleOfMultiple(p: nat, b: nat, a: nat, k: nat)
    requires a > 0 && b > 0 && p % b == 0 && b == k * a
    ensures p % a == 0
  {
    var n := p / b;
    assert p == n * b == (n * k) * a;
    DivModUnique(p, a, n * k, 0);
  }

  lemma BlockSizesArePowers(i: nat)
    requires i < |BLOCK_SIZES|
    ensures PowerOfTwo(BLOCK_SIZES[i])
  {
    assert PowerOfTwo(2) && PowerOfTwo(4) && PowerOfTwo(8);
    assert PowerOfTwo(16) && PowerOfTwo(32) && PowerOfTwo(64);
    assert PowerOfTwo(128) && PowerOfTwo(256) && PowerOfTwo(512);
    assert PowerOfTwo(1024) && PowerOfTwo(2048);
  }

  lemma RegionFits(s: State, p: nat, l: Layout)
    requires Inv(s) && LiveAs(s, p, l)
    ensures p > 0 && l.align > 0 && p % l.align == 0 && l.size <= s.regions[p].size
  {
    var r := s.regions[p];
    assert FitsOwner(p, r);
    BackingFits(l);
    if ClassOf(l).Some? {
      BlockSizesArePowers(ClassOf(l).value);
      PowersDivide(l.align, r.align);
      var k: nat :| r.align == k * l.align;
      MultipleOfMultiple(p, r.align, l.align, k);
    }
  }

  /**
   Every pointer a client holds, whether carved for it or recycled from another layout of the same
   class, is non-null, aligned as requested and backed by at least the requested size.
   */
  lemma EveryPointerFits(run: History, p: nat, l: Layout)
    requires Empty(Origin(run)) && Legal(Allocator(), run) && LiveAs(run.state, p, l)
    ensures p > 0 && l.align > 0 && p % l.align == 0
    ensures l.size <= run.state.regions[p].size
  {
    RunKeepsInv(run);
    RegionFits(run.state, p, l);
  }

  // ---------------------------------------------------------------- the lists in memory

  /** The block reached from `head` after following `k` next-pointers, if memory leads that far. */
  function Walk(mem: map<nat, nat>, head: nat, k: nat): Option<nat>
    decreases k
  {
    if k == 0 then Some(head)
    else if head != 0 && head in mem then Walk(mem, mem[head], k - 1)
    else None
  }

  lemma {:induction false} ChainWalk(mem: map<nat, nat>, head: nat, nodes: seq<nat>, k: nat)
    requires Chain(mem, head, nodes) && k <= |nodes|
    ensures Walk(mem, head, k) == Some(if k < |nodes| then nodes[k] else 0)
    decreases k
  {
    if k > 0 { ChainWalk(mem, mem[head], nodes[1..], k - 1); }
  }

  /**
   In every reachable state, following the next-pointers stored in freed memory visits the blocks of
   the list, all different, and then reaches null: the lists are finite and acyclic.
   */
  lemma FreeListsAreFinite(run: History, i: nat, k: nat)
    requires Empty(Origin(run)) && Legal(Allocator(), run) && i < |BLOCK_SIZES|
    ensures |run.state.lists| == |run.state.heads| == |BLOCK_SIZES|
    ensures var list := run.state.lists[i];
            && (k < |list| ==> Walk(run.state.mem, run.state.heads[i], k) == Some(list[k]) && list[k] != 0)
            && Walk(run.state.mem, run.state.heads[i], |list|) == Some(0)
            && forall j | 0 <= j < |list| && j != k && k < |list| :: list[j] != list[k]
  {
    RunKeepsInv(run);
    assert ListOk(run.state, i);
    var list := run.state.lists[i];
    ChainWalk(run.state.mem, run.state.heads[i], list, |list|);
    if k < |list| {
      ChainWalk(run.state.mem, run.state.heads[i], list, k);
      assert list[k] in list;
    }
  }

  /** A client's write changes no list, no head, and no region; the lists still read the same. */
  lemma ClientWritesLeaveLists(run: History, a: Action, i: nat)
    requires Empty(Origin(run)) && Legal(Allocator(), run)
    requires Enabled(run.state, a) && a.Scribble? && i < |BLOCK_SIZES|
    ensures Inv(run.state) && Chain(Apply(run.state, a).mem, run.state.heads[i], run.state.lists[i])
    ensures Apply(run.state, a) == run.state.(mem := Apply(run.state, a).mem)
  {
    RunKeepsInv(run);
    KeepsList(run.state, a, i);
  }

  /** A block can be popped exactly when it is a non-null head, and then it belongs to its free list. */
  lemma HeadIsFirstNode(s: State, l: Layout, p: nat)
    requires Inv(s) && PowerOfTwo(l.align)
    ensures Enabled(s, Pop(l, p)) <==> p == HeadFor(s, l) != 0
    ensures p == HeadFor(s, l) != 0 ==> p in s.regions && s.regions[p].owner == FreeList(ClassOf(l).value)
  {
    BackingFits(l);
    if ClassOf(l).Some? {
      assert ListOk(s, ClassOf(l).value);
    }
  }

  /** A list has a block to give, its head, exactly when the head is not null. */
  lemma PopNeedsOnlyAHead(run: History, l: Layout, p: nat)
    requires Empty(Origin(run)) && Legal(Allocator(), run) && PowerOfTwo(l.align)
    ensures |run.state.heads| == |BLOCK_SIZES| && (ClassOf(l).Some? ==> ClassOf(l).value < |BLOCK_SIZES|)
    ensures Enabled(run.state, Pop(l, p)) <==> p != 0 && ClassOf(l).Some? && p == run.state.heads[ClassOf(l).value]
  {
    RunKeepsInv(run);
    BackingFits(l);
    HeadIsFirstNode(run.state, l, p);
  }

  /** Freeing a block and allocating the same class again gives that block back and restores the lists. */
  lemma PushThenPop(s: State, p: nat, l: Layout, m: Layout)
    requires Inv(s) && Enabled(s, Push(p, l)) && PowerOfTwo(m.align) && ClassOf(m) == ClassOf(l)
    ensures Enabled(Apply(s, Push(p, l)), Pop(m, p))
    ensures var t := Apply(Apply(s, Push(p, l)), Pop(m, p));
            LiveAs(t, p, m) && t.heads == s.heads && t.lists == s.lists && t.regions.Keys == s.regions.Keys
  {
    BackingFits(l);
    assert ([p] + s.lists[ClassOf(l).value])[1..] == s.lists[ClassOf(l).value];
  }

  // ---------------------------------------------------------------- what a client can rely on

  /** Nobody held the pointer handed out, it is now the client's, and what others hold stays theirs. */
  lemma HandsOut(s: State, a: Action)
    requires Inv(s) && Enabled(s, a) && (a.Pop? || a.Carve?)
    ensures !Held(s, a.p) && LiveAs(Apply(s, a), a.p, a.layout)
    ensures forall q | q != a.p :: Held(s, q) <==> Held(Apply(s, a), q)
    ensures forall q | Held(s, q) :: Apply(s, a).regions[q] == s.regions[q]
  {
    if a.Pop? { HeadIsFirstNode(s, a.layout, a.p); }
  }

  /**
   In every run a pointer handed out, recycled or carved, was held by nobody before, and lies apart from
   every allocation that was live: two allocations live at the same time never share a byte.
   */
  lemma EveryAllocationIsNew(run: History, q: nat)
    requires Empty(Origin(run)) && Legal(Allocator(), run) && run.Then? && (run.act.Pop? || run.act.Carve?)
    ensures !Held(run.prev.state, run.act.p) && LiveAs(run.state, run.act.p, run.act.layout)
    ensures Held(run.prev.state, q) ==>
              && Held(run.state, q) && run.state.regions[q] == run.prev.state.regions[q]
              && Apart(run.act.p, run.act.layout.size, q, run.state.regions[q].owner.layout.size)
  {
    LastStep(Allocator(), run);
    RunKeepsInv(run.prev);
    HandsOut(run.prev.state, run.act);
    if Held(run.prev.state, q) {
      AllocationsStayApart(run, run.act.p, q);
    }
  }

  /** The word at `w` has a byte in common with the allocation. */
  predicate Overlaps(w: nat, p: nat, l: Layout) { !Apart(w, WORD, p, l.size) }

  function WordAt(s: State, w: nat): Option<nat> { if w in s.mem then Some(s.mem[w]) else None }

  /** The one word an action stores to, if any. */
  function StoresTo(a: Action): Option<nat> {
    match a
    case Pop(_, p) => Some(p)
    case Push(p, _) => Some(p)
    case Scribble(_, addr, _) => Some(WordOf(addr))
    case _ => None
  }

  lemma OnlyOneWord(s: State, a: Action, w: nat)
    requires Enabled(s, a) && StoresTo(a) != Some(w)
    ensures WordAt(Apply(s, a), w) == WordAt(s, w)
  {
  }

  /** The block whose node is stored is no client's after a free, or was none before an allocation. */
  lemma StoresMissClients(s: State, a: Action, q: nat, l: Layout, w: nat)
    requires Inv(s) && Enabled(s, a) && !a.Scribble?
    requires LiveAs(s, q, l) && LiveAs(Apply(s, a), q, l) && Overlaps(w, q, l)
    ensures StoresTo(a) != Some(w)
  {
    BackingFits(l);
    if a.Pop? || a.Push? {
      BackingFits(a.layout);
      BlockSizesHoldANode(ClassOf(a.layout).value);
      if a.Pop? { HeadIsFirstNode(s, a.layout, a.p); }
      assert a.p != q && FitsOwner(a.p, s.regions[a.p]) && FitsOwner(q, s.regions[q]);
      assert Apart(a.p, s.regions[a.p].size, q, s.regions[q].size);
    }
  }

  /** From `base` on the client has kept the allocation, and no client has written the word. */
  ghost predicate KeptUnwritten(base: History, run: History, q: nat, l: Layout, w: nat) {
    LiveAs(run.state, q, l) &&
    (|| run == base
     || (&& run.Then? && !(run.act.Scribble? && StoresTo(run.act) == Some(w))
         && KeptUnwritten(base, run.prev, q, l, w)))
  }

  /** In every run the allocator never touches what a live allocation holds. */
  lemma {:induction false} ClientDataSurvives(base: History, run: History, q: nat, l: Layout, w: nat)
    requires Empty(Origin(run)) && Legal(Allocator(), run)
    requires KeptUnwritten(base, run, q, l, w) && Overlaps(w, q, l)
    ensures WordAt(run.state, w) == WordAt(base.state, w)
  {
    if run != base {
      LastStep(Allocator(), run);
      RunKeepsInv(run.prev);
      ClientDataSurvives(base, run.prev, q, l, w);
      if !run.act.Scribble? { StoresMissClients(run.prev.state, run.act, q, l, w); }
      OnlyOneWord(run.prev.state, run.act, w);
    }
  }

  /** A client write changes memory only. */
  lemma ScribbleEffect(s: State, a: Action)
    requires Enabled(s, a) && a.Scribble?
    ensures Apply(s, a) == s.(mem := s.mem[WordOf(a.addr) := a.word])
  {
  }
}
