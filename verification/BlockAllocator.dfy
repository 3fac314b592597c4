/** The fixed-size block allocator as the object the kernel uses. */
module BlockAllocator {
  import opened Bytes
  import opened Runs
  import opened BlockAllocatorRuns

  /** Main memory, by word; the allocator's list nodes and the clients' data share it. */
  class Memory {
    var words: map<nat, nat>

    constructor ()
      ensures words == map[]
    {
      words := map[];
    }
  }

  /** Any heap that hands out non-null, aligned, disjoint regions, or fails. */
  class FallbackHeap {
    var held: map<nat, Layout>
    ghost var refused: nat  // how many requests had no room

    constructor ()
      ensures held == map[]
    {
      held := map[];
    }

    method AllocateFirstFit(l: Layout) returns (p: nat)
      requires l.align > 0
      modifies this
      ensures refused == old(refused) + if p == 0 then 1 else 0
      ensures p == 0 ==> held == old(held)
      ensures p != 0 ==>
                && p % l.align == 0 && p !in old(held) && held == old(held)[p := l]
                && forall q | q in old(held) :: Apart(p, l.size, q, old(held)[q].size)
    {
      p := *;
      if p != 0 && p % l.align == 0 && p !in held && (forall q | q in held :: Apart(p, l.size, q, held[q].size)) {
        held := held[p := l];
      } else {
        p, refused := 0, refused + 1;
      }
    }

    method Deallocate(p: nat, l: Layout)
      requires p in held && held[p] == l
      modifies this`held
      ensures held == old(held) - {p}
    {
      held := held - {p};
    }
  }

  /** What the heap holds is what the run says it handed out. */
  ghost predicate Holds(held: map<nat, Layout>, regions: map<nat, Region>) {
    && held.Keys == regions.Keys
    && forall p | p in held :: held[p] == Layout(regions[p].size, regions[p].align)
  }

  /** The index of the first block size that fits, if any. */
  method ListIndex(l: Layout) returns (r: Option<nat>)
    ensures r == ClassOf(l)
    ensures r.Some? ==>
              && r.value < |BLOCK_SIZES| && l.size <= BLOCK_SIZES[r.value] && l.align <= BLOCK_SIZES[r.value]
              && forall j | 0 <= j < r.value :: BLOCK_SIZES[j] < l.size || BLOCK_SIZES[j] < l.align
    ensures r.None? <==> l.size > 2048 || l.align > 2048
  {
    var i := 0;
    ClassFromBounds(l, 0);
    ClassExactly(l, 0);
    while i < |BLOCK_SIZES|
      invariant i <= |BLOCK_SIZES| && ClassOf(l) == ClassFrom(l, i)
    {
      if BLOCK_SIZES[i] >= Required(l) { return Some(i); }
      i := i + 1;
    }
    r := None;
  }

  class FixedSizeBlockAllocator {
    var listHeads: seq<nat>
    const fallback: FallbackHeap
    const memory: Memory
    ghost var log: History

    ghost predicate Valid()
      reads this, fallback, memory
    {
      && Reached(log) && listHeads == log.state.heads && memory.words == log.state.mem
      && Holds(fallback.held, log.state.regions)
    }

    constructor (fallback: FallbackHeap, memory: Memory)
      requires fallback.held == map[]
      ensures Valid() && this.fallback == fallback && this.memory == memory && log.Start?
      ensures listHeads == seq(9, _ => 0) && memory.words == old(memory.words)
    {
      this.fallback := fallback;
      this.memory := memory;
      listHeads := seq(|BLOCK_SIZES|, _ => 0);
      log := Start(State(seq(|BLOCK_SIZES|, _ => 0), memory.words, map[], seq(|BLOCK_SIZES|, _ => [])));
    }

    /** Adds to the log the action whose effect the fields already show. */
    ghost method Record(act: Action)
      requires Reached(log) && Enabled(log.state, act)
      requires listHeads == Apply(log.state, act).heads && memory.words == Apply(log.state, act).mem
      requires Holds(fallback.held, Apply(log.state, act).regions)
      modifies this`log
      ensures Valid() && log == Then(old(log), act, Apply(old(log).state, act))
    {
      OneMore(log, act);
      log := Then(log, act, Apply(log.state, act));
    }

    /** Unlinks the first free block of a class; taking its next-pointer leaves null in its place. */
    method TakeFirst(l: Layout, i: nat) returns (p: nat)
      requires Valid() && PowerOfTwo(l.align) && ClassOf(l) == Some(i) && i < |listHeads| && listHeads[i] != 0
      modifies this, memory
      ensures Valid() && p == old(listHeads)[i] && p != 0
      ensures log == Then(old(log), Pop(l, p), Apply(old(log).state, Pop(l, p)))
      ensures p in old(memory.words) && listHeads == old(listHeads)[i := old(memory.words)[p]]
      ensures memory.words == old(memory.words)[p := 0]
    {
      Now(log);
      p := listHeads[i];
      HeadIsFirstNode(log.state, l, p);
      listHeads := listHeads[i := memory.words[p]];
      memory.words := memory.words[p := 0];
      Record(Pop(l, p));
    }

    /** Asks the fallback heap for a region. */
    method FallbackAlloc(l: Layout) returns (p: nat)
      requires Valid() && PowerOfTwo(l.align) && HeadFor(log.state, l) == 0
      modifies this`log, fallback
      ensures Valid() && listHeads == old(listHeads)
      ensures log == Then(old(log), if p == 0 then Refuse(l) else Carve(l, p), log.state)
      ensures p != 0 ==> LiveAs(log.state, p, l) && p !in old(log).state.regions
      ensures fallback.refused == old(fallback.refused) + if p == 0 then 1 else 0
      ensures fallback.held == if p == 0 then old(fallback.held) else old(fallback.held)[p := Backing(l)]
    {
      Now(log);
      BackingFits(l);
      var request := Backing(l);
      ghost var held := fallback.held;
      p := fallback.AllocateFirstFit(request);
      if p == 0 {
        Record(Refuse(l));
      } else {
        assert FreshRegion(log.state.regions, p, request) by {
          forall q | q in log.state.regions ensures Apart(p, request.size, q, log.state.regions[q].size) {
            assert q in held;
          }
        }
        Record(Carve(l, p));
      }
    }

    /** A free block of the layout's class if there is one, else a region from the fallback heap, else null. */
    method Allocate(l: Layout) returns (p: nat)
      requires Valid() && PowerOfTwo(l.align)
      modifies this, fallback, memory
      ensures Valid() && log.Then? && log.prev == old(log)
      ensures log.act == if HeadFor(old(log).state, l) != 0 then Pop(l, p)
                         else if p != 0 then Carve(l, p) else Refuse(l)
      ensures HeadFor(old(log).state, l) != 0 ==> p == HeadFor(old(log).state, l)
      ensures p != 0 ==> !Held(old(log).state, p) && LiveAs(log.state, p, l) && p % l.align == 0
      ensures fallback.refused == old(fallback.refused) + if p == 0 then 1 else 0
      ensures ClassOf(l).Some? ==> ClassOf(l).value < |BLOCK_SIZES| == |old(listHeads)| == |listHeads|
      ensures if ClassOf(l).Some? && old(listHeads)[ClassOf(l).value] != 0 then
                && p == old(listHeads)[ClassOf(l).value] && p in old(memory.words)
                && listHeads == old(listHeads)[ClassOf(l).value := old(memory.words)[p]]
                && memory.words == old(memory.words)[p := 0] && fallback.held == old(fallback.held)
              else
                && listHeads == old(listHeads) && memory.words == old(memory.words)
                && fallback.held ==
                   if p == 0 then old(fallback.held)
                   else if ClassOf(l).None? then old(fallback.held)[p := l]
                   else var size := BLOCK_SIZES[ClassOf(l).value]; old(fallback.held)[p := Layout(size, size)]
    {
      Now(log);
      BackingFits(l);
      var index := ListIndex(l);
      if index.Some? && listHeads[index.value] != 0 {
        p := TakeFirst(l, index.value);
        HandsOut(old(log).state, Pop(l, p));
      } else {
        p := FallbackAlloc(l);
      }
      if p != 0 {
        Now(log);
        RegionFits(log.state, p, l);
      }
    }

    /** Frees a live allocation, given with the layout it was requested under. */
    method Deallocate(p: nat, l: Layout)
      requires Valid() && LiveAs(log.state, p, l)
      modifies this, fallback, memory
      ensures Valid()
      ensures log == Then(old(log), if ClassOf(l).Some? then Push(p, l) else Return(p, l), log.state)
      ensures ClassOf(l).Some? ==> ClassOf(l).value < |BLOCK_SIZES| == |old(listHeads)|
      ensures if ClassOf(l).Some? then
                && listHeads == old(listHeads)[ClassOf(l).value := p] && fallback.held == old(fallback.held)
                && memory.words == old(memory.words)[p := old(listHeads)[ClassOf(l).value]]
              else
                && listHeads == old(listHeads) && memory.words == old(memory.words)
                && fallback.held == old(fallback.held) - {p}
    {
      Now(log);
      BackingFits(l);
      var index := ListIndex(l);
      if index.Some? {
        assert WORD <= BLOCK_SIZES[index.value];  // the block can store a node
        memory.words := memory.words[p := listHeads[index.value]];
        listHeads := listHeads[index.value := p];
        Record(Push(p, l));
      } else {
        assert FitsOwner(p, log.state.regions[p]);
        fallback.Deallocate(p, l);
        Record(Return(p, l));
      }
    }

    /** A client writes a word somewhere inside an allocation it holds. */
    method ClientWrite(ghost p: nat, addr: nat, word: nat)
      requires Valid() && Enabled(log.state, Scribble(p, addr, word))
      modifies this`log, memory
      ensures Valid() && log == Then(old(log), Scribble(p, addr, word), log.state)
      ensures log.state.lists == old(log).state.lists && log.state.regions == old(log).state.regions
    {
      ScribbleEffect(log.state, Scribble(p, addr, word));
      memory.words := memory.words[WordOf(addr) := word];
      Record(Scribble(p, addr, word));
    }
  }
}
