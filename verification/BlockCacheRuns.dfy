/**
 The write-back block cache as a transition system.

 Every call on the cache is a sequence of the actions below. Whatever the device does (a read that
 fails, a write that fails after damaging the block it was aimed at) is an action too, so a theorem
 about every legal sequence of actions is a theorem about every run of the cache.
 */
module BlockCacheRuns {
  import opened Bytes
  import opened Runs
  import opened Arithmetic

  type Block = seq<byte>

  datatype LineState = Modified | Shared | Invalid

  datatype Line = Line(data: Block, state: LineState, lruTick: nat)

  datatype State = State(
    blockSize: nat, capacity: nat,
    lines: map<nat, Line>, disk: map<nat, Block>,
    tick: nat, hits: nat, misses: nat, evictions: nat, dirtyFlushes: nat)

  datatype Action =
    | BeginAccess                        // a read or write call starts: the tick advances
    | Hit(block: nat)                    // a read is served from the cache
    | Fill(block: nat)                   // a read is served from the device and cached
    | ReadFault(block: nat)              // the device refuses a read
    | Put(block: nat, data: Block)       // a write is accepted
    | Evict(block: nat)                  // the least recently used clean line is removed
    | WriteBack(block: nat)              // a modified line reaches the device
    | TornWrite(block: nat, junk: Block) // the device fails a write, and may damage that block
    | Drop(block: nat)                   // the line is invalidated, modified or not
    | Clear                              // all lines are removed

  predicate Dirty(s: State, b: nat) { b in s.lines && s.lines[b].state == Modified }

  predicate Clean(s: State, b: nat) { b in s.lines && s.lines[b].state != Modified }

  function DirtySet(s: State): set<nat> { set b | b in s.lines && Dirty(s, b) }

  /** What a client should see at a block: the line not yet written back, else the device's block. */
  function At(s: State, b: nat): Option<Block> {
    if Dirty(s, b) then Some(s.lines[b].data)
    else if b in s.disk then Some(s.disk[b])
    else None
  }

  function Logical(s: State): map<nat, Block> {
    map b | b in s.disk.Keys + s.lines.Keys && At(s, b).Some? :: At(s, b).value
  }

  function Lookup(m: map<nat, Block>, b: nat): Option<Block> {
    if b in m then Some(m[b]) else None
  }

  /** A cache of capacity 0 still holds one line. */
  function Room(s: State): nat { if s.capacity == 0 then 1 else s.capacity }

  /** No line carries the current tick: the call that advanced it has not accessed anything yet. */
  predicate Fresh(s: State) { forall b | b in s.lines :: s.lines[b].lruTick < s.tick }

  predicate Victim(s: State, b: nat) {
    Clean(s, b) && forall c | c in s.lines && Clean(s, c) :: s.lines[b].lruTick <= s.lines[c].lruTick
  }

  predicate Enabled(s: State, a: Action) {
    match a
    case BeginAccess => true
    case Hit(b) => b in s.lines && s.lines[b].state != Invalid && Fresh(s)
    case Fill(b) =>
      && b in s.disk && Fresh(s)
      && (if b in s.lines then s.lines[b].state == Invalid else |s.lines| < Room(s))
    case ReadFault(b) => true
    case Put(b, data) => |data| == s.blockSize && Fresh(s) && (b in s.lines || |s.lines| < Room(s))
    case Evict(b) => Victim(s, b)
    case WriteBack(b) => Dirty(s, b) && b in s.disk
    case TornWrite(b, junk) => Dirty(s, b) && |junk| == s.blockSize
    case Drop(b) => true
    case Clear => DirtySet(s) == {}
  }

  function SetState(s: State, b: nat, st: LineState): map<nat, Line>
    requires b in s.lines
  {
    s.lines[b := s.lines[b].(state := st)]
  }

  function Apply(s: State, a: Action): State {
    if !Enabled(s, a) then s else
    match a
    case BeginAccess => s.(tick := s.tick + 1)
    case Hit(b) => s.(lines := s.lines[b := s.lines[b].(lruTick := s.tick)], hits := s.hits + 1)
    case Fill(b) => s.(lines := s.lines[b := Line(s.disk[b], Shared, s.tick)], misses := s.misses + 1)
    case ReadFault(b) => s
    case Put(b, data) => s.(lines := s.lines[b := Line(data, Modified, s.tick)])
    case Evict(b) => s.(lines := s.lines - {b}, evictions := s.evictions + 1)
    case WriteBack(b) =>
      s.(lines := SetState(s, b, Shared), disk := s.disk[b := s.lines[b].data],
         dirtyFlushes := s.dirtyFlushes + 1)
    case TornWrite(b, junk) => if b in s.disk then s.(disk := s.disk[b := junk]) else s
    case Drop(b) => if b in s.lines then s.(lines := SetState(s, b, Invalid)) else s
    case Clear => s.(lines := map[])
  }

  function Cache(): Machine<State, Action> { Machine(Enabled, Apply) }

  /** What caching a block read from the device does. */
  lemma FillEffect(s: State, b: nat)
    requires Enabled(s, Fill(b))
    ensures Apply(s, Fill(b)) == s.(lines := s.lines[b := Line(s.disk[b], Shared, s.tick)], misses := s.misses + 1)
  {
  }

  type History = Run<State, Action>

  // ---------------------------------------------------------------- the invariant

  /** Shared lines agree with the device; every block has the device's block size. */
  predicate Coherent(s: State) {
    && (forall b | b in s.disk :: |s.disk[b]| == s.blockSize)
    && (forall b | b in s.lines && s.lines[b].state == Shared ::
          b in s.disk && s.lines[b].data == s.disk[b])
    && (forall b | b in s.lines && s.lines[b].state == Modified :: |s.lines[b].data| == s.blockSize)
  }

  /** Ticks are in the past and pairwise distinct. */
  predicate Ordered(s: State) {
    && (forall b | b in s.lines :: s.lines[b].lruTick <= s.tick)
    && (forall b, c | b in s.lines && c in s.lines && b != c :: s.lines[b].lruTick != s.lines[c].lruTick)
  }

  predicate Inv(s: State) {
    s.blockSize > 0 && Coherent(s) && Ordered(s) && |s.lines| <= Room(s)
  }

  /** A cache just created. */
  predicate Empty(s: State) {
    s.lines == map[] && s.tick == s.hits == s.misses == s.evictions == s.dirtyFlushes == 0
  }

  /** `s` is where a legal run that began with an empty cache stands. */
  ghost predicate Reached(run: History, s: State) {
    run.state == s && s.blockSize > 0 && forall r | r == run :: Lived(r)
  }

  ghost predicate Lived(run: History) {
    Legal(Cache(), run) && Always(run) && Empty(Origin(run))
  }

  /** The invariant held at every moment. */
  ghost predicate Always(run: History) {
    forall p | Within(p, run) :: Inv(p.state)
  }

  lemma Now(run: History)
    requires Always(run)
    ensures Inv(run.state) && Inv(Origin(run))
  {
    assert Within(run, run);
    AtOrigin(run, run);
  }

  /** What the invariant says where a run stands, as the single steps need it. */
  lemma Standing(run: History, s: State)
    requires Reached(run, s)
    ensures |s.lines| <= Room(s)
    ensures forall b | b in s.lines :: s.lines[b].lruTick <= s.tick
    ensures forall b | Dirty(s, b) :: |s.lines[b].data| == s.blockSize
  {
    assert Lived(run);
    Now(run);
  }

  lemma {:induction false} AtOrigin(p: History, run: History)
    requires Always(run) && Within(p, run)
    ensures Inv(Origin(p))
    decreases p
  {
    if p.Then? {
      EarlierWithin(p, run);
      AtOrigin(p.prev, run);
    }
  }

  lemma SizeOfUpdate(m: map<nat, Line>, b: nat, l: Line)
    ensures |m[b := l]| == if b in m then |m| else |m| + 1
  {
    assert m[b := l].Keys == m.Keys + {b};
    if b in m {
      assert m[b := l].Keys == m.Keys;
    }
  }

  lemma SizeOfRemove(m: map<nat, Line>, b: nat)
    requires b in m
    ensures |m - {b}| == |m| - 1
  {
    assert (m - {b}).Keys == m.Keys - {b};
  }

  lemma KeepsCoherent(s: State, a: Action)
    requires Coherent(s) && Enabled(s, a)
    ensures Coherent(Apply(s, a))
  {
    match a
    case BeginAccess =>
    case Hit(_) =>
    case Fill(_) =>
    case ReadFault(_) =>
    case Put(_, _) =>
    case Evict(_) =>
    case WriteBack(_) =>
    case TornWrite(_, _) =>
    case Drop(_) =>
    case Clear =>
  }

  lemma KeepsOrdered(s: State, a: Action)
    requires Ordered(s) && Enabled(s, a)
    ensures Ordered(Apply(s, a))
  {
    match a
    case BeginAccess =>
    case Hit(_) =>
    case Fill(_) =>
    case ReadFault(_) =>
    case Put(_, _) =>
    case Evict(_) =>
    case WriteBack(_) =>
    case TornWrite(_, _) =>
    case Drop(_) =>
    case Clear =>
  }

  lemma ApplyKeepsInv(s: State, a: Action)
    requires Inv(s) && Enabled(s, a)
    ensures Inv(Apply(s, a))
  {
    KeepsCoherent(s, a);
    KeepsOrdered(s, a);
    LinesAfter(s, a);
  }

  /** A run extended by one action. */
  lemma OneMore(run: History, a: Action)
    requires Reached(run, run.state) && Enabled(run.state, a)
    ensures Reached(Then(run, a, Apply(run.state, a)), Apply(run.state, a))
  {
    assert Lived(run);
    Now(run);
    Extend(Cache(), run, a);
    ApplyKeepsInv(run.state, a);
  }

  /** In every reachable state: coherent lines, distinct ticks, at most max(capacity, 1) lines. */
  lemma {:induction false} RunKeepsInv(run: History)
    requires Inv(Origin(run)) && Legal(Cache(), run)
    ensures Inv(run.state)
  {
    if run.Then? {
      LastStep(Cache(), run);
      RunKeepsInv(run.prev);
      ApplyKeepsInv(run.prev.state, run.act);
    }
  }

  // ---------------------------------------------------------------- agreement with a plain block array

  /** The block array the cache stands for, after one more action. */
  function PlainStep(m: map<nat, Block>, s: State, a: Action): map<nat, Block> {
    match a
    case Put(b, data) => m[b := data]
    case Drop(b) =>
      if !Dirty(s, b) then m
      else if b in s.disk then m[b := s.disk[b]]
      else m - {b}
    case _ => m
  }

  /** The plain block array after a run: accepted writes, and reverts of invalidated dirty lines. */
  function Plain(run: History): map<nat, Block> {
    match run
    case Start(s) => Logical(s)
    case Then(prev, a, _) => PlainStep(Plain(prev), prev.state, a)
  }

  function PlainStepAt(s: State, a: Action, b: nat): Option<Block> {
    if a.Put? && a.block == b then Some(a.data)
    else if a.Drop? && a.block == b then (if b in s.disk then Some(s.disk[b]) else None)
    else At(s, b)
  }

  lemma ContentsAt(s: State, a: Action, b: nat)
    requires Coherent(s) && Enabled(s, a)
    ensures At(Apply(s, a), b) == PlainStepAt(s, a, b)
  {
    match a
    case BeginAccess =>
    case Hit(_) =>
    case Fill(_) =>
    case ReadFault(_) =>
    case Put(_, _) =>
    case Evict(_) =>
    case WriteBack(_) =>
    case TornWrite(_, _) =>
    case Drop(_) =>
    case Clear => assert Dirty(s, b) ==> b in DirtySet(s);
  }

  lemma LogicalAt(s: State, b: nat)
    ensures Lookup(Logical(s), b) == At(s, b)
  {
  }

  /** Two block arrays that agree at every block are the same. */
  lemma SameContents(m: map<nat, Block>, n: map<nat, Block>)
    requires forall b :: Lookup(m, b) == Lookup(n, b)
    ensures m == n
  {
    forall b ensures b in m <==> b in n {
      assert Lookup(m, b) == Lookup(n, b);
    }
    forall b | b in m ensures m[b] == n[b] {
      assert Lookup(m, b) == Lookup(n, b);
    }
  }

  lemma PlainStepLookup(s: State, a: Action, b: nat)
    ensures Lookup(PlainStep(Logical(s), s, a), b) == PlainStepAt(s, a, b)
  {
    LogicalAt(s, b);
  }

  lemma ApplyContents(s: State, a: Action)
    requires Coherent(s) && Enabled(s, a)
    ensures Logical(Apply(s, a)) == PlainStep(Logical(s), s, a)
  {
    var after, plain := Logical(Apply(s, a)), PlainStep(Logical(s), s, a);
    forall b ensures Lookup(after, b) == Lookup(plain, b) {
      ContentsAt(s, a, b);
      LogicalAt(Apply(s, a), b);
      PlainStepLookup(s, a, b);
    }
    SameContents(after, plain);
  }

  /** Caching, eviction, write-back and device failures never change the logical contents. */
  lemma {:induction false} RunContents(run: History)
    requires Inv(Origin(run)) && Legal(Cache(), run)
    ensures Logical(run.state) == Plain(run)
  {
    if run.Then? {
      LastStep(Cache(), run);
      RunContents(run.prev);
      RunKeepsInv(run.prev);
      ApplyContents(run.prev.state, run.act);
    }
  }

  /** The block a read hands out is the cached one, right after the hit or the fill. */
  function Delivered(run: History): Option<Block>
    requires run.Then?
  {
    if (run.act.Hit? || run.act.Fill?) && run.act.block in run.state.lines
    then Some(run.state.lines[run.act.block].data) else None
  }

  lemma ReadAgrees(s: State, a: Action)
    requires Coherent(s) && Enabled(s, a) && (a.Hit? || a.Fill?)
    ensures a.block in Logical(s) && a.block in Apply(s, a).lines
    ensures Apply(s, a).lines[a.block].data == Logical(s)[a.block]
  {
    assert At(s, a.block).Some?;
  }

  lemma ReadDelivers(run: History, a: Action)
    requires Reached(run, run.state) && Enabled(run.state, a) && (a.Hit? || a.Fill?)
    ensures a.block in Apply(run.state, a).lines
    ensures Lookup(Plain(run), a.block) == Some(Apply(run.state, a).lines[a.block].data)
    ensures |Apply(run.state, a).lines[a.block].data| == run.state.blockSize
  {
    assert Lived(run);
    Now(run);
    RunContents(run);
    ReadAgrees(run.state, a);
    LogicalSize(run.state, a.block);
  }

  /** Every successful read, at any moment of any run, returns what the plain block array then holds. */
  lemma EveryReadAgrees(run: History, p: History)
    requires Inv(Origin(run)) && Legal(Cache(), run)
    requires Within(p, run) && p.Then? && (p.act.Hit? || p.act.Fill?)
    ensures p.act.block in Plain(p.prev)
    ensures Delivered(p) == Some(Plain(p.prev)[p.act.block])
  {
    LegalWithin(Cache(), p, run);
    OriginWithin(p, run);
    LastStep(Cache(), p);
    RunContents(p.prev);
    RunKeepsInv(p.prev);
    ReadAgrees(p.prev.state, p.act);
  }

  /** The last write accepted for a block, if any. */
  function LastPut(run: History, b: nat): Option<Block> {
    match run
    case Start(_) => None
    case Then(prev, a, _) => if a.Put? && a.block == b then Some(a.data) else LastPut(prev, b)
  }

  predicate NoDrop(run: History) {
    run.Then? ==> !run.act.Drop? && NoDrop(run.prev)
  }

  /** Without invalidations the block array is just "last accepted write, else the original block". */
  lemma {:induction false} LastWriteWins(run: History, b: nat)
    requires Inv(Origin(run)) && Legal(Cache(), run) && NoDrop(run)
    ensures Lookup(Logical(run.state), b) ==
            if LastPut(run, b).Some? then LastPut(run, b) else Lookup(Logical(Origin(run)), b)
  {
    if run.Then? {
      LastStep(Cache(), run);
      LastWriteWins(run.prev, b);
      RunKeepsInv(run.prev);
      ApplyContents(run.prev.state, run.act);
    }
  }

  lemma LogicalSize(s: State, b: nat)
    requires Inv(s) && b in Logical(s)
    ensures |Logical(s)[b]| == s.blockSize
  {
    assert At(s, b).Some?;
  }

  lemma AllClean(s: State)
    requires DirtySet(s) == {}
    ensures forall b | b in s.lines :: Clean(s, b)
  {
    forall b | b in s.lines ensures Clean(s, b) {
      assert Dirty(s, b) ==> b in DirtySet(s);
    }
  }

  /** With nothing left to write back, the device itself holds the logical contents. */
  lemma CleanCacheIsTheDevice(s: State)
    requires DirtySet(s) == {}
    ensures Logical(s) == s.disk
  {
    assert forall b :: Dirty(s, b) ==> b in DirtySet(s);
    assert forall b :: b in Logical(s) <==> At(s, b).Some?;
  }

  // ---------------------------------------------------------------- eviction order

  predicate Accesses(a: Action, b: nat) { (a.Hit? || a.Fill? || a.Put?) && a.block == b }

  /** When in the run a block was last read or written; 0 if never. */
  function LastAccess(run: History, b: nat): nat {
    match run
    case Start(_) => 0
    case Then(prev, a, _) => if Accesses(a, b) then Length(run) else LastAccess(prev, b)
  }

  lemma {:induction false} LastAccessInRange(run: History, b: nat)
    ensures LastAccess(run, b) <= Length(run)
  {
    if run.Then? { LastAccessInRange(run.prev, b); }
  }

  lemma StampAfter(s: State, a: Action, b: nat)
    requires Enabled(s, a) && b in Apply(s, a).lines
    ensures !Accesses(a, b) ==> b in s.lines && Apply(s, a).lines[b].lruTick == s.lines[b].lruTick
    ensures Accesses(a, b) ==> Fresh(s) && Apply(s, a).lines[b].lruTick == s.tick
  {
  }

  /** Ticks order the cached blocks exactly as their last accesses are ordered in the run. */
  lemma {:induction false} TicksOrderAccesses(run: History, b: nat, c: nat)
    requires Empty(Origin(run)) && Legal(Cache(), run)
    requires b in run.state.lines && c in run.state.lines
    ensures 0 < LastAccess(run, b)
    ensures run.state.lines[b].lruTick < run.state.lines[c].lruTick <==> LastAccess(run, b) < LastAccess(run, c)
  {
    if run.Then? {
      LastStep(Cache(), run);
      var prev, a := run.prev, run.act;
      StampAfter(prev.state, a, b);
      StampAfter(prev.state, a, c);
      LastAccessInRange(prev, b);
      LastAccessInRange(prev, c);
      if !Accesses(a, b) && !Accesses(a, c) {
        TicksOrderAccesses(prev, b, c);
      } else if !Accesses(a, b) {
        TicksOrderAccesses(prev, b, b);
      } else if !Accesses(a, c) {
        TicksOrderAccesses(prev, c, c);
      }
    }
  }

  /**
   Every evicted line is clean and was accessed before every other clean line; the choice therefore
   does not depend on the order in which the cache's hash table is walked.
   */
  lemma EvictsLeastRecentlyUsed(run: History, p: History, c: nat)
    requires Inv(Origin(run)) && Empty(Origin(run)) && Legal(Cache(), run)
    requires Within(p, run) && p.Then? && p.act.Evict?
    requires Clean(p.prev.state, c) && c != p.act.block
    ensures Clean(p.prev.state, p.act.block)
    ensures LastAccess(p.prev, p.act.block) < LastAccess(p.prev, c)
    ensures !Victim(p.prev.state, c)
  {
    LegalWithin(Cache(), p, run);
    OriginWithin(p, run);
    LastStep(Cache(), p);
    RunKeepsInv(p.prev);
    TicksOrderAccesses(p.prev, p.act.block, c);
  }

  /** The victim is an invalid line exactly when some invalid line is older than every shared one. */
  lemma InvalidVictim(s: State, v: nat)
    requires Inv(s) && Victim(s, v)
    ensures s.lines[v].state == Invalid <==>
            exists i | i in s.lines && s.lines[i].state == Invalid ::
              forall c | c in s.lines && s.lines[c].state == Shared :: s.lines[i].lruTick < s.lines[c].lruTick
  {
  }

  /** The states of a cache of two lines over two blocks, both read, the second then invalidated. */
  function SecondInvalidated(n: nat): State {
    var s := State(1, 2, map[], map[0 := [7], 1 := [7]], 0, 0, 0, 0, 0);
    var first := Line([7], Shared, 1);
    if n == 0 then s
    else if n == 1 then s.(tick := 1)
    else if n == 2 then s.(tick := 1, lines := map[0 := first], misses := 1)
    else if n == 3 then s.(tick := 2, lines := map[0 := first], misses := 1)
    else if n == 4 then s.(tick := 2, lines := map[0 := first, 1 := Line([7], Shared, 2)], misses := 2)
    else s.(tick := 2, lines := map[0 := first, 1 := Line([7], Invalid, 2)], misses := 2)
  }

  function ReadBothDropSecond(n: nat): Action {
    if n == 0 || n == 2 then BeginAccess else if n == 1 then Fill(0) else if n == 3 then Fill(1) else Drop(1)
  }

  lemma OneStep(n: nat)
    requires n < 5
    ensures Enabled(SecondInvalidated(n), ReadBothDropSecond(n))
    ensures Apply(SecondInvalidated(n), ReadBothDropSecond(n)) == SecondInvalidated(n + 1)
  {
    if n == 4 {
      assert Apply(SecondInvalidated(4), Drop(1)).lines == SecondInvalidated(5).lines;
    }
  }

  lemma {:induction false} Replay(n: nat) returns (run: History)
    requires n <= 5
    ensures Legal(Cache(), run) && Origin(run) == SecondInvalidated(0) && run.state == SecondInvalidated(n)
  {
    if n == 0 {
      run := Start(SecondInvalidated(0));
    } else {
      run := Replay(n - 1);
      OneStep(n - 1);
      Extend(Cache(), run, ReadBothDropSecond(n - 1));
      run := Extended(Cache(), run, ReadBothDropSecond(n - 1));
    }
  }

  /** The shared line is the only victim, although the other one is invalid. */
  ghost predicate PassesOverInvalid(s: State) {
    && s.lines.Keys == {0, 1} && s.lines[0].state == Shared && s.lines[1].state == Invalid
    && (forall v :: Victim(s, v) <==> v == 0)
    && Apply(s, Evict(0)).lines.Keys == {1}
  }

  lemma TheSharedLineIsOlder(s: State)
    requires s == SecondInvalidated(5)
    ensures PassesOverInvalid(s)
  {
    assert s.lines.Keys == {0, 1};
    assert Victim(s, 0);
    assert !Victim(s, 1);
    assert Apply(s, Evict(0)).lines.Keys == s.lines.Keys - {0};
  }

  /** Invalid lines do not always go first: a run after which the shared line is evicted and the invalid one stays. */
  lemma SharedGoesBeforeInvalid() returns (run: History)
    ensures Legal(Cache(), run) && Empty(Origin(run)) && Inv(Origin(run)) && PassesOverInvalid(run.state)
  {
    run := Replay(5);
    TheSharedLineIsOlder(run.state);
  }

  // ---------------------------------------------------------------- statistics

  /** What a client could count while watching a run. */
  datatype Ledger = Ledger(
    cached: nat,     // reads served from the cache
    loaded: nat,     // reads served from the device
    writes: nat,     // accepted writes
    inserted: nat,   // blocks that entered the cache while absent
    cleared: nat,    // lines removed by clearing
    coalesced: nat,  // writes over a line that was already modified
    discarded: nat)  // modified lines that were invalidated

  function LedgerStep(l: Ledger, s: State, a: Action): Ledger {
    match a
    case Hit(b) => l.(cached := l.cached + 1)
    case Fill(b) => l.(loaded := l.loaded + 1, inserted := l.inserted + if b in s.lines then 0 else 1)
    case Put(b, _) =>
      l.(writes := l.writes + 1, inserted := l.inserted + (if b in s.lines then 0 else 1),
         coalesced := l.coalesced + if Dirty(s, b) then 1 else 0)
    case Drop(b) => l.(discarded := l.discarded + if Dirty(s, b) then 1 else 0)
    case Clear => l.(cleared := l.cleared + |s.lines|)
    case _ => l
  }

  function LedgerOf(run: History): Ledger {
    match run
    case Start(_) => Ledger(0, 0, 0, 0, 0, 0, 0)
    case Then(prev, a, _) => LedgerStep(LedgerOf(prev), prev.state, a)
  }

  lemma DirtyAt(s: State, a: Action, b: nat)
    requires Enabled(s, a)
    ensures Dirty(Apply(s, a), b) <==>
            if a.Put? && a.block == b then true
            else if (a.WriteBack? || a.Drop?) && a.block == b then false
            else Dirty(s, b)
  {
    match a
    case BeginAccess =>
    case Hit(_) =>
    case Fill(_) =>
    case ReadFault(_) =>
    case Put(_, _) =>
    case Evict(_) =>
    case WriteBack(_) =>
    case TornWrite(_, _) =>
    case Drop(_) =>
    case Clear => assert Dirty(s, b) ==> b in DirtySet(s);
  }

  lemma DirtySetAfter(s: State, a: Action)
    requires Enabled(s, a)
    ensures DirtySet(Apply(s, a)) ==
            if a.Put? then DirtySet(s) + {a.block}
            else if a.WriteBack? || a.Drop? then DirtySet(s) - {a.block}
            else DirtySet(s)
  {
    forall b ensures b in DirtySet(Apply(s, a)) <==> Dirty(Apply(s, a), b) {
    }
    forall b { DirtyAt(s, a, b); }
  }

  lemma DirtyAfter(s: State, a: Action)
    requires Enabled(s, a)
    ensures |DirtySet(Apply(s, a))| ==
            if a.Put? && !Dirty(s, a.block) then |DirtySet(s)| + 1
            else if (a.WriteBack? || a.Drop?) && Dirty(s, a.block) then |DirtySet(s)| - 1
            else |DirtySet(s)|
  {
    DirtySetAfter(s, a);
  }

  /** Writing back touches neither which blocks are cached nor their ticks. */
  lemma FlushEffect(s: State, a: Action)
    requires Enabled(s, a) && (a.WriteBack? || a.TornWrite?)
    ensures Apply(s, a).lines.Keys == s.lines.Keys
    ensures forall b | b in s.lines :: Apply(s, a).lines[b].lruTick == s.lines[b].lruTick
    ensures DirtySet(Apply(s, a)) == if a.WriteBack? then DirtySet(s) - {a.block} else DirtySet(s)
  {
    assert forall b :: b in DirtySet(Apply(s, a)) <==> Dirty(s, b) && !(a.WriteBack? && b == a.block);
  }

  lemma LinesAfter(s: State, a: Action)
    requires Enabled(s, a)
    ensures |Apply(s, a).lines| ==
            if (a.Put? || a.Fill?) && a.block !in s.lines then |s.lines| + 1
            else if a.Evict? then |s.lines| - 1
            else if a.Clear? then 0
            else |s.lines|
  {
    match a
    case Hit(b) => SizeOfUpdate(s.lines, b, s.lines[b].(lruTick := s.tick));
    case Fill(b) => SizeOfUpdate(s.lines, b, Line(s.disk[b], Shared, s.tick));
    case Put(b, data) => SizeOfUpdate(s.lines, b, Line(data, Modified, s.tick));
    case Evict(b) => SizeOfRemove(s.lines, b);
    case WriteBack(b) => SizeOfUpdate(s.lines, b, s.lines[b].(state := Shared));
    case Drop(b) => if b in s.lines { SizeOfUpdate(s.lines, b, s.lines[b].(state := Invalid)); }
    case _ =>
  }

  predicate Balanced(s: State, l: Ledger) {
    && s.hits == l.cached && s.misses == l.loaded
    && |DirtySet(s)| + s.dirtyFlushes + l.coalesced + l.discarded == l.writes
    && |s.lines| + s.evictions + l.cleared == l.inserted
  }

  lemma StepBalanced(s: State, l: Ledger, a: Action)
    requires Balanced(s, l) && Enabled(s, a)
    ensures Balanced(Apply(s, a), LedgerStep(l, s, a))
  {
    DirtyAfter(s, a);
    LinesAfter(s, a);
  }

  /** Every run that starts with an empty cache and zeroed counters keeps the books balanced. */
  lemma {:induction false} StatisticsBalance(run: History)
    requires Empty(Origin(run)) && Legal(Cache(), run)
    ensures Balanced(run.state, LedgerOf(run))
  {
    if run.Then? {
      LastStep(Cache(), run);
      StatisticsBalance(run.prev);
      StepBalanced(run.prev.state, LedgerOf(run.prev), run.act);
    }
  }

  // ---------------------------------------------------------------- transfers of several blocks

  /** Where block `i` of a buffer starts: `i * size`, written so that it only ever grows by `size`. */
  function BlockStart(i: nat, size: nat): nat {
    if i == 0 then 0 else BlockStart(i - 1, size) + size
  }

  lemma {:induction false} StartIsProduct(i: nat, size: nat)
    ensures BlockStart(i, size) == i * size
  {
    if i > 0 {
      StartIsProduct(i - 1, size);
      assert i * size == (i - 1) * size + size;
    }
  }

  /** How many whole blocks a buffer holds: `length / size`. */
  function BlockCount(length: nat, size: nat): nat
    requires size > 0
  {
    if length < size then 0 else BlockCount(length - size, size) + 1
  }

  lemma CountIsQuotient(length: nat, size: nat)
    requires size > 0
    ensures BlockCount(length, size) == length / size
  {
    CountRemainder(length, size);
    var n := BlockCount(length, size);
    DivModUnique(length, size, n, length - n * size);
  }

  lemma {:induction false} CountRemainder(length: nat, size: nat)
    requires size > 0
    ensures BlockCount(length, size) * size <= length < BlockCount(length, size) * size + size
  {
    if length >= size { CountRemainder(length - size, size); }
  }

  lemma {:induction false} CountFits(n: nat, length: nat, size: nat)
    requires size > 0 && n <= BlockCount(length, size)
    ensures BlockStart(n, size) <= length
  {
    if n > 0 { CountFits(n - 1, length - size, size); }
  }

  /** Block `i` of a buffer. */
  function Chunk(buffer: seq<byte>, i: nat, size: nat): Block
    requires BlockStart(i + 1, size) <= |buffer|
  {
    buffer[BlockStart(i, size)..BlockStart(i + 1, size)]
  }

  /** All `n` blocks from `offset` on exist. */
  predicate Present(m: map<nat, Block>, offset: nat, n: nat) {
    forall b | offset <= b < offset + n :: b in m
  }

  /** The bytes of `n` consecutive blocks. */
  function Image(m: map<nat, Block>, offset: nat, n: nat): seq<byte>
    requires Present(m, offset, n)
  {
    if n == 0 then [] else Image(m, offset, n - 1) + m[offset + n - 1]
  }

  /** The block array after the first `n` whole blocks of a buffer are stored from `offset` on. */
  function Stored(m: map<nat, Block>, offset: nat, buffer: seq<byte>, n: nat, size: nat): map<nat, Block>
    requires BlockStart(n, size) <= |buffer|
  {
    if n == 0 then m
    else
      Stored(m, offset, buffer, n - 1, size)[offset + n - 1 := Chunk(buffer, n - 1, size)]
  }

  lemma {:induction false} ImageLength(m: map<nat, Block>, offset: nat, n: nat, size: nat)
    requires Present(m, offset, n) && forall b | b in m :: |m[b]| == size
    ensures |Image(m, offset, n)| == BlockStart(n, size)
  {
    if n > 0 { ImageLength(m, offset, n - 1, size); }
  }

  lemma {:induction false} StoredElsewhere(m: map<nat, Block>, offset: nat, buffer: seq<byte>, n: nat, size: nat,
                                           b: nat)
    requires BlockStart(n, size) <= |buffer| && !(offset <= b < offset + n)
    ensures b in Stored(m, offset, buffer, n, size) <==> b in m
    ensures b in m ==> Stored(m, offset, buffer, n, size)[b] == m[b]
  {
    if n > 0 {
      StoredElsewhere(m, offset, buffer, n - 1, size, b);
    }
  }

  /** Block `i` of the range holds its part of the buffer. */
  predicate HoldsChunk(m: map<nat, Block>, offset: nat, buffer: seq<byte>, size: nat, i: nat) {
    BlockStart(i + 1, size) <= |buffer| && offset + i in m && m[offset + i] == Chunk(buffer, i, size)
  }

  lemma {:induction false} StoredChunk(m: map<nat, Block>, offset: nat, buffer: seq<byte>, n: nat, size: nat, i: nat)
    requires BlockStart(n, size) <= |buffer| && i < n
    ensures HoldsChunk(Stored(m, offset, buffer, n, size), offset, buffer, size, i)
  {
    if i < n - 1 { StoredChunk(m, offset, buffer, n - 1, size, i); }
  }

  /** Blocks that hold the parts of a buffer make up the buffer. */
  lemma {:induction false} ImageOfChunks(m: map<nat, Block>, offset: nat, buffer: seq<byte>, n: nat, size: nat)
    requires BlockStart(n, size) <= |buffer| && Present(m, offset, n)
    requires forall i: nat | i < n :: HoldsChunk(m, offset, buffer, size, i)
    ensures Image(m, offset, n) == buffer[..BlockStart(n, size)]
  {
    if n > 0 {
      ImageOfChunks(m, offset, buffer, n - 1, size);
      assert HoldsChunk(m, offset, buffer, size, n - 1);
    }
  }

  /** Blocks read back from where a buffer was written are that buffer. */
  lemma StoredThenImage(m: map<nat, Block>, offset: nat, buffer: seq<byte>, n: nat, size: nat)
    requires BlockStart(n, size) <= |buffer|
    ensures Present(Stored(m, offset, buffer, n, size), offset, n)
    ensures Image(Stored(m, offset, buffer, n, size), offset, n) == buffer[..BlockStart(n, size)]
  {
    var after := Stored(m, offset, buffer, n, size);
    forall i: nat | i < n ensures HoldsChunk(after, offset, buffer, size, i) {
      StoredChunk(m, offset, buffer, n, size, i);
    }
    forall b | offset <= b < offset + n ensures b in after {
      StoredChunk(m, offset, buffer, n, size, b - offset);
    }
    ImageOfChunks(after, offset, buffer, n, size);
  }

  function Overwrite(buffer: seq<byte>, at: nat, data: seq<byte>): seq<byte> {
    if at + |data| <= |buffer| then buffer[..at] + data + buffer[at + |data|..] else buffer
  }

  /** A buffer after the first `n` blocks from `offset` on have been copied into it, one by one. */
  function Filled(m: map<nat, Block>, offset: nat, n: nat, size: nat, buffer: seq<byte>): seq<byte> {
    if n == 0 then buffer
    else
      var before := Filled(m, offset, n - 1, size, buffer);
      if offset + n - 1 in m then Overwrite(before, BlockStart(n - 1, size), m[offset + n - 1]) else before
  }

  /** What the copies add up to: the bytes of those blocks, then the buffer's own tail. */
  lemma {:induction false} FilledIsImage(m: map<nat, Block>, offset: nat, n: nat, size: nat, buffer: seq<byte>)
    requires Present(m, offset, n) && BlockStart(n, size) <= |buffer|
    requires forall b | b in m :: |m[b]| == size
    ensures Filled(m, offset, n, size, buffer) == Image(m, offset, n) + buffer[BlockStart(n, size)..]
  {
    if n > 0 {
      FilledIsImage(m, offset, n - 1, size, buffer);
      ImageLength(m, offset, n - 1, size);
      OverwriteTail(Filled(m, offset, n - 1, size, buffer), Image(m, offset, n - 1), buffer,
                    BlockStart(n - 1, size), BlockStart(n, size), m[offset + n - 1]);
    }
  }

  lemma OverwriteTail(filled: seq<byte>, head: seq<byte>, buffer: seq<byte>, at: nat, end: nat, data: seq<byte>)
    requires |head| == at && at + |data| == end <= |buffer| && filled == head + buffer[at..]
    ensures Overwrite(filled, at, data) == head + data + buffer[end..]
  {
    assert filled[..at] == head && filled[end..] == buffer[end..];
  }

  lemma FillOneMore(m: map<nat, Block>, offset: nat, n: nat, b: nat, size: nat, buffer: seq<byte>)
    requires Present(m, offset, n) && b in m && b == offset + n
    ensures Present(m, offset, n + 1)
    ensures Filled(m, offset, n + 1, size, buffer) ==
            Overwrite(Filled(m, offset, n, size, buffer), BlockStart(n, size), m[b])
  {
  }

  /** `now` is the block array after the first `n` blocks of the buffer were stored; kept folded. */
  ghost predicate StoredTo(m: map<nat, Block>, offset: nat, buffer: seq<byte>, n: nat, size: nat,
                           now: map<nat, Block>) {
    forall k: nat | k == n :: BlockStart(k, size) <= |buffer| && now == Stored(m, offset, buffer, k, size)
  }

  lemma StoredNone(m: map<nat, Block>, offset: nat, buffer: seq<byte>, size: nat)
    ensures StoredTo(m, offset, buffer, 0, size, m)
  {
  }

  lemma StoreOneMore(m: map<nat, Block>, offset: nat, buffer: seq<byte>, n: nat, size: nat, b: nat,
                     now: map<nat, Block>)
    requires StoredTo(m, offset, buffer, n, size, now) && BlockStart(n + 1, size) <= |buffer| && b == offset + n
    ensures StoredTo(m, offset, buffer, n + 1, size, now[b := Chunk(buffer, n, size)])
  {
    assert now == Stored(m, offset, buffer, n, size);
  }

  lemma StoredNow(m: map<nat, Block>, offset: nat, buffer: seq<byte>, n: nat, size: nat, now: map<nat, Block>)
    requires StoredTo(m, offset, buffer, n, size, now)
    ensures BlockStart(n, size) <= |buffer| && now == Stored(m, offset, buffer, n, size)
  {
  }
}
