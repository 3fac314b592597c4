/** The block cache as the object the kernel uses, over a device that may fail at any call. */
module BlockCache {
  import opened Bytes
  import opened Runs
  import opened Arithmetic
  import opened BlockCacheRuns

  datatype Result<+T> = Ok(value: T) | DeviceError | SizeMismatch

  /** What a call adds to the number of failures. */
  function Failures(ok: bool): nat { if ok then 0 else 1 }

  /** A device of fixed-size blocks. Any call may fail; a failed write may damage its block. */
  class StorageDevice {
    const blockSize: nat
    var blocks: map<nat, Block>
    ghost var refused: nat  // how many calls have failed

    constructor (blockSize: nat, blocks: map<nat, Block>)
      ensures this.blockSize == blockSize && this.blocks == blocks
    {
      this.blockSize := blockSize;
      this.blocks := blocks;
    }

    method ReadBlock(b: nat) returns (r: Option<Block>)
      modifies this`refused
      ensures r.Some? ==> b in blocks && r.value == blocks[b]
      ensures refused == old(refused) + Failures(r.Some?)
    {
      var fault: bool := *;
      if b in blocks && !fault { r := Some(blocks[b]); } else { r := None; }
      refused := refused + Failures(r.Some?);
    }

    method WriteBlock(b: nat, data: Block) returns (ok: bool, ghost junk: Block)
      requires |data| == blockSize
      modifies this
      ensures refused == old(refused) + Failures(ok)
      ensures ok ==> b in old(blocks) && blocks == old(blocks)[b := data]
      ensures !ok ==> |junk| == blockSize
      ensures !ok ==> blocks == if b in old(blocks) then old(blocks)[b := junk] else old(blocks)
    {
      var fault: bool := *;
      ok := b in blocks && !fault;
      var damaged: Block := *;
      if |damaged| != blockSize { damaged := data; }
      junk := damaged;
      refused := refused + Failures(ok);
      if ok {
        blocks := blocks[b := data];
      } else if b in blocks {
        blocks := blocks[b := damaged];
      }
    }
  }

  /** From `base` on, only write-backs happened. */
  ghost predicate WroteBack(base: History, run: History) {
    run == base || (run.Then? && run.act.WriteBack? && WroteBack(base, run.prev))
  }

  /** From `base` on, write-backs happened, the last of which failed unless `ok`. */
  ghost predicate Flushing(base: History, run: History, ok: bool) {
    if ok then WroteBack(base, run)
    else run.Then? && run.act.TornWrite? && WroteBack(base, run.prev)
  }

  /** How one line is freed: the clean victim if there is one, else everything is flushed first. */
  ghost predicate Reclaiming(base: History, run: History, ok: bool) {
    if exists b :: Clean(base.state, b) then
      ok && run.Then? && run.act.Evict? && run.prev == base
    else if !ok then
      Flushing(base, run, false)
    else if base.state.lines == map[] then
      run == base
    else
      run.Then? && run.act.Evict? && WroteBack(base, run.prev) && DirtySet(run.prev.state) == {}
  }

  /** Write-backs are no accesses, and leave the same blocks cached. */
  lemma {:induction false} WriteBacksKeepOrder(base: History, run: History, b: nat)
    requires Legal(Cache(), run) && WroteBack(base, run)
    ensures LastAccess(run, b) == LastAccess(base, b)
    ensures run.state.lines.Keys == base.state.lines.Keys
  {
    if run != base {
      LastStep(Cache(), run);
      WriteBacksKeepOrder(base, run.prev, b);
      FlushEffect(run.prev.state, run.act);
    }
  }

  /**
   The line freed was accessed before every other line that could have been: before every other clean
   line, or, when no line was clean, before every other line of the cache.
   */
  lemma ReclaimsLeastRecentlyUsed(base: History, run: History, c: nat)
    requires Empty(Origin(run)) && Inv(Origin(run)) && Legal(Cache(), run)
    requires Reclaiming(base, run, true) && base.state.lines != map[]
    ensures run.Then? && run.act.Evict? && run.act.block in base.state.lines
    ensures && c in base.state.lines && c != run.act.block
            && (Clean(base.state, c) || !exists b :: Clean(base.state, b)) ==>
              LastAccess(base, run.act.block) < LastAccess(base, c)
    ensures Clean(base.state, run.act.block) <==> exists b :: Clean(base.state, b)
  {
    LastStep(Cache(), run);
    var v := run.act.block;
    WriteBacksKeepOrder(base, run.prev, v);
    WriteBacksKeepOrder(base, run.prev, c);
    if c in base.state.lines && c != v && Clean(run.prev.state, c) {
      EvictsLeastRecentlyUsed(run, run, c);
    }
    if !exists b :: Clean(base.state, b) {
      AllClean(run.prev.state);
    }
  }

  /** What happens before an absent block can enter: nothing, or one line is freed. */
  ghost predicate MakingRoom(base: History, run: History, b: nat, ok: bool) {
    if b !in base.state.lines && |base.state.lines| >= base.state.capacity
    then Reclaiming(base, run, ok) else ok && run == base
  }

  /** A block leaves the device for the cache, or the device refuses, or no room could be made. */
  ghost predicate Loading(base: History, run: History, b: nat, ok: bool) {
    || (!ok && MakingRoom(base, run, b, false))
    || (run.Then? && run.act == (if ok then Fill(b) else ReadFault(b)) && MakingRoom(base, run.prev, b, true))
  }

  /** A read or write call has begun. */
  function Begun(base: History): History { Extended(Cache(), base, BeginAccess) }

  /** A read call: one tick, then a hit, or a load that may first free a line. */
  ghost predicate ReadCall(base: History, run: History, b: nat, ok: bool) {
    if b in base.state.lines && base.state.lines[b].state != Invalid
    then ok && run.Then? && run.act == Hit(b) && run.prev == Begun(base)
    else Loading(Begun(base), run, b, ok)
  }

  /** A write call: one tick, then room if needed, then the line. */
  ghost predicate WriteCall(base: History, run: History, b: nat, data: Block, r: Result<()>) {
    if |data| != base.state.blockSize then r == SizeMismatch && run == Begun(base)
    else if r.Ok? then run.Then? && run.act == Put(b, data) && MakingRoom(Begun(base), run.prev, b, true)
    else r == DeviceError && MakingRoom(Begun(base), run, b, false)
  }

  // ---------------------------------------------------------------- what a call does to the counters and the device

  /** Write-backs leave the tick and all counters but their own. */
  lemma {:induction false} WriteBacksCount(base: History, run: History)
    requires Legal(Cache(), run) && WroteBack(base, run)
    ensures run.state.tick == base.state.tick && run.state.capacity == base.state.capacity
    ensures run.state.hits == base.state.hits && run.state.misses == base.state.misses
    ensures run.state.evictions == base.state.evictions
  {
    if run != base {
      LastStep(Cache(), run);
      WriteBacksCount(base, run.prev);
    }
  }

  /** Freeing a line: one eviction if it succeeds and there is one; with a clean line the device is left alone. */
  lemma ReclaimEffect(base: History, run: History, ok: bool)
    requires Legal(Cache(), run) && Reclaiming(base, run, ok)
    ensures run.state.tick == base.state.tick && run.state.hits == base.state.hits
    ensures run.state.misses == base.state.misses
    ensures run.state.evictions == base.state.evictions + if ok && base.state.lines != map[] then 1 else 0
    ensures (exists c :: Clean(base.state, c)) ==> ok && run.state.disk == base.state.disk
    ensures run.state.lines.Keys <= base.state.lines.Keys
  {
    if run != base { LastStep(Cache(), run); }
    if !exists c :: Clean(base.state, c) {
      if ok && base.state.lines == map[] {
      } else {
        WriteBacksCount(base, run.prev);
        WriteBacksKeepOrder(base, run.prev, 0);
        if !ok { FlushEffect(run.prev.state, run.act); }
      }
    }
  }

  /** The same, if room has to be made at all. */
  lemma RoomEffect(base: History, run: History, b: nat, ok: bool)
    requires Legal(Cache(), run) && MakingRoom(base, run, b, ok)
    ensures run.state.tick == base.state.tick && run.state.hits == base.state.hits
    ensures run.state.misses == base.state.misses
    ensures Crowded(base.state, b) ==>
              run.state.evictions == base.state.evictions + if ok && base.state.lines != map[] then 1 else 0
    ensures Crowded(base.state, b) && (exists c :: Clean(base.state, c)) ==> ok && run.state.disk == base.state.disk
    ensures !Crowded(base.state, b) ==> ok && run == base
    ensures run.state.lines.Keys <= base.state.lines.Keys
  {
    if Crowded(base.state, b) { ReclaimEffect(base, run, ok); }
  }

  /** The block is absent and the cache is full. */
  predicate Crowded(s: State, b: nat) { b !in s.lines && |s.lines| >= s.capacity }

  /** The block is in the cache and not invalidated. */
  predicate Usable(s: State, b: nat) { b in s.lines && s.lines[b].state != Invalid }

  /**
   A read call: a hit exactly if the block is in the cache and not invalidated. Served, it is there as the newest
   line. Only with the cache full is a line evicted, and only with every line modified does the device change.
   */
  lemma ReadCallEffect(base: History, run: History, b: nat, ok: bool)
    requires Legal(Cache(), run) && ReadCall(base, run, b, ok)
    ensures var s, t := base.state, run.state;
            && t.tick == s.tick + 1
            && (Usable(s, b) ==> ok)
            && t.hits == s.hits + (if Usable(s, b) then 1 else 0)
            && t.misses == s.misses + (if ok && !Usable(s, b) then 1 else 0)
            && (ok ==> Usable(t, b) && t.lines[b].lruTick == t.tick)
            && (ok ==> t.evictions == s.evictions + if Crowded(s, b) && s.lines != map[] then 1 else 0)
            && (!Crowded(s, b) ==> t.evictions == s.evictions)
            && (!Crowded(s, b) || (exists c :: Clean(s, c)) ==> t.disk == s.disk)
  {
    LastStep(Cache(), run);
    if !Usable(base.state, b) {
      if !ok && MakingRoom(Begun(base), run, b, false) {
        RoomEffect(Begun(base), run, b, false);
      } else {
        RoomEffect(Begun(base), run.prev, b, true);
      }
    }
    if exists c :: Clean(base.state, c) {
      var c :| Clean(base.state, c);
      assert Clean(Begun(base).state, c);
    }
  }

  /** A write call: accepted, the block is in the cache as a modified line, the newest; room is made as for a read. */
  lemma WriteCallEffect(base: History, run: History, b: nat, data: Block, r: Result<()>)
    requires Legal(Cache(), run) && WriteCall(base, run, b, data, r)
    ensures var s, t := base.state, run.state;
            && t.tick == s.tick + 1 && t.hits == s.hits && t.misses == s.misses
            && (r.Ok? ==> b in t.lines && t.lines[b] == Line(data, Modified, t.tick))
            && (r.Ok? ==> t.evictions == s.evictions + if Crowded(s, b) && s.lines != map[] then 1 else 0)
            && (!r.Ok? || !Crowded(s, b) ==> t.evictions == s.evictions)
            && (!Crowded(s, b) || (exists c :: Clean(s, c)) ==> t.disk == s.disk && r != DeviceError)
  {
    LastStep(Cache(), run);
    if r == DeviceError {
      RoomEffect(Begun(base), run, b, false);
    } else if r.Ok? {
      RoomEffect(Begun(base), run.prev, b, true);
    }
    if exists c :: Clean(base.state, c) {
      var c :| Clean(base.state, c);
      assert Clean(Begun(base).state, c);
    }
  }

  method CopyInto(buffer: array<byte>, at: nat, data: seq<byte>)
    requires at + |data| <= buffer.Length
    modifies buffer
    ensures buffer[..] == Overwrite(old(buffer[..]), at, data)
  {
    forall k | 0 <= k < |data| { buffer[at + k] := data[k]; }
  }

  method CountBlocks(length: nat, size: nat) returns (n: nat)
    requires size > 0
    ensures n == BlockCount(length, size)
  {
    n := length / size;
    CountIsQuotient(length, size);
  }

  datatype CacheStats = CacheStats(
    hits: nat, misses: nat, hitRate: nat, evictions: nat, dirtyFlushes: nat,
    entries: nat, capacity: nat, dirtyEntries: nat)

  /** `rate` is the share of `part` in `total`, in per cent, rounded down; 0 of nothing. */
  predicate IsPercentage(rate: nat, part: nat, total: nat) {
    if total == 0 then rate == 0
    else rate <= 100 && rate * total <= part * 100 < rate * total + total && (rate == 100 <==> part == total)
  }

  /** The hit rate of all reads served. */
  ghost predicate IsHitRate(rate: nat, hits: nat, misses: nat) {
    forall total: nat | total == hits + misses :: IsPercentage(rate, hits, total)
  }

  lemma WholePercent(part: nat, total: nat)
    requires part <= total && total > 0
    ensures IsPercentage(part * 100 / total, part, total)
  {
    var rate := part * 100 / total;
    Quotient(part * 100, total);
    assert total * rate == rate * total;
    if rate > 100 {
      ProductMono(101, rate, total);
    } else if rate < 100 {
      ProductMono(rate, 99, total);
    }
  }

  method HitRate(hits: nat, misses: nat) returns (rate: nat)
    ensures IsHitRate(rate, hits, misses)
  {
    var total := hits + misses;
    rate := 0;
    if total > 0 {
      rate := hits * 100 / total;
      WholePercent(hits, total);
    }
  }

  /** `now` are the lines once all modified ones but those in `todo` have been written back. */
  ghost predicate WrittenExcept(was: map<nat, Line>, todo: set<nat>, now: map<nat, Line>) {
    now.Keys == was.Keys &&
    forall b | b in was ::
      now[b] == if b !in todo && was[b].state == Modified then was[b].(state := Shared) else was[b]
  }

  /** The same, kept folded. */
  ghost predicate WrittenBack(was: map<nat, Line>, todo: set<nat>, now: map<nat, Line>) {
    forall t | t == todo :: WrittenExcept(was, t, now)
  }

  lemma NoneWritten(lines: map<nat, Line>, todo: set<nat>)
    requires forall b | b in lines && lines[b].state == Modified :: b in todo
    ensures WrittenBack(lines, todo, lines)
  {
  }

  lemma OneWritten(was: map<nat, Line>, todo: set<nat>, now: map<nat, Line>, b: nat)
    requires WrittenBack(was, todo, now) && b in todo && b in now && now[b].state == Modified
    ensures WrittenBack(was, todo - {b}, now[b := now[b].(state := Shared)])
  {
    assert WrittenExcept(was, todo, now);
    assert WrittenExcept(was, todo - {b}, now[b := now[b].(state := Shared)]);
  }

  lemma LinesWritten(was: map<nat, Line>, todo: set<nat>, now: map<nat, Line>)
    requires WrittenBack(was, todo, now)
    ensures now.Keys == was.Keys
    ensures forall b | b in now :: now[b].(state := Shared) == was[b].(state := Shared)
    ensures todo == {} ==> forall b | b in now ::
              now[b].state == if was[b].state == Modified then Shared else was[b].state
  {
    assert WrittenExcept(was, todo, now);
  }

  class BlockCache {
    var cache: map<nat, Line>
    const device: StorageDevice
    const capacity: nat
    var tick: nat
    var hits: nat
    var misses: nat
    var evictions: nat
    var dirtyFlushes: nat
    // Everything that has happened since the cache was created.
    ghost var log: History

    ghost function Snap(): State
      reads this, device
    {
      State(device.blockSize, capacity, cache, device.blocks, tick, hits, misses, evictions, dirtyFlushes)
    }

    /** The object has run legally since it was created with an empty cache. */
    ghost predicate Valid()
      reads this, device
    {
      Reached(log, Snap())
    }

    constructor (device: StorageDevice, capacity: nat)
      requires device.blockSize > 0
      requires forall b | b in device.blocks :: |device.blocks[b]| == device.blockSize
      ensures Valid() && fresh(this) && this.device == device
      ensures log == Start(State(device.blockSize, capacity, map[], device.blocks, 0, 0, 0, 0, 0))
    {
      this.device := device;
      this.capacity := capacity;
      cache := map[];
      tick, hits, misses, evictions, dirtyFlushes := 0, 0, 0, 0, 0;
      log := Start(State(device.blockSize, capacity, map[], device.blocks, 0, 0, 0, 0, 0));
    }

    /** The whole life of the object is one legal run, so every theorem about runs is about it. */
    lemma LifeIsARun()
      requires Valid()
      ensures Logical(Snap()) == Plain(log)
      ensures Balanced(Snap(), LedgerOf(log))
    {
      assert Lived(log);
      Now(log);
      RunContents(log);
      StatisticsBalance(log);
    }

    /** Adds to the log the action whose effect the fields already show. */
    ghost method Record(act: Action)
      requires Reached(log, log.state)
      requires Enabled(log.state, act) && Snap() == Apply(log.state, act)
      modifies this`log
      ensures Valid() && log == Then(old(log), act, Snap())
      ensures Plain(log) == PlainStep(Plain(old(log)), old(log).state, act)
    {
      OneMore(log, act);
      log := Then(log, act, Snap());
    }

    /** Walks the table for the line with the smallest tick, among the clean ones if asked to. */
    method FindVictim(cleanOnly: bool) returns (v: Option<nat>)
      ensures v.None? ==> forall b | b in cache :: cleanOnly && cache[b].state == Modified
      ensures v.Some? ==> v.value in cache && (cleanOnly ==> cache[v.value].state != Modified)
      ensures v.Some? ==> forall b | b in cache && (cleanOnly ==> cache[b].state != Modified) ::
                            cache[v.value].lruTick <= cache[b].lruTick
    {
      v := None;
      var todo := cache.Keys;
      while todo != {}
        invariant todo <= cache.Keys
        invariant v.None? ==> forall b | b in cache && b !in todo :: cleanOnly && cache[b].state == Modified
        invariant v.Some? ==> v.value in cache && (cleanOnly ==> cache[v.value].state != Modified)
        invariant v.Some? ==> forall b | b in cache && b !in todo && (cleanOnly ==> cache[b].state != Modified) ::
                                cache[v.value].lruTick <= cache[b].lruTick
      {
        var b :| b in todo;
        todo := todo - {b};
        if !(cleanOnly && cache[b].state == Modified)
           && (v.None? || cache[b].lruTick < cache[v.value].lruTick) {
          v := Some(b);
        }
      }
    }

    /** Writes one modified line to the device and marks it shared, or fails and leaves it modified. */
    method WriteBackLine(b: nat) returns (ok: bool, ghost act: Action)
      requires Valid() && Dirty(Snap(), b)
      modifies this`cache, this`dirtyFlushes, this`log, device
      ensures Valid() && log == Then(old(log), act, Snap())
      ensures if ok then act == WriteBack(b) else act.TornWrite? && act.block == b
      ensures DirtySet(Snap()) == if ok then DirtySet(old(Snap())) - {b} else DirtySet(old(Snap()))
      ensures Plain(log) == Plain(old(log)) && device.refused == old(device.refused) + Failures(ok)
      ensures cache == if ok then old(cache)[b := old(cache)[b].(state := Shared)] else old(cache)
      ensures ok ==> device.blocks == old(device.blocks)[b := old(cache)[b].data]
    {
      ghost var s := Snap();
      ghost var junk: Block;
      Standing(log, s);
      ok, junk := device.WriteBlock(b, cache[b].data);
      act := if ok then WriteBack(b) else TornWrite(b, junk);
      if ok {
        cache := cache[b := cache[b].(state := Shared)];
        dirtyFlushes := dirtyFlushes + 1;
      }
      assert Snap() == Apply(s, act);
      Record(act);
      FlushEffect(s, act);
    }

    method FlushBlock(b: nat) returns (ok: bool)
      requires Valid()
      modifies this`cache, this`dirtyFlushes, this`log, device
      ensures Valid() && Flushing(old(log), log, ok)
      ensures ok ==> !Dirty(Snap(), b)
      ensures if !Dirty(old(Snap()), b) then ok && log == old(log)
              else && log.Then? && log.prev == old(log)
                   && if ok then log.act == WriteBack(b) else log.act.TornWrite? && log.act.block == b
      ensures Plain(log) == Plain(old(log)) && device.refused == old(device.refused) + Failures(ok)
      ensures cache == if !ok || !Dirty(old(Snap()), b) then old(cache)
                       else old(cache)[b := old(cache)[b].(state := Shared)]
      ensures ok && Dirty(old(Snap()), b) ==> device.blocks == old(device.blocks)[b := old(cache)[b].data]
    {
      ok := true;
      if b in cache && cache[b].state == Modified {
        ghost var act;
        ok, act := WriteBackLine(b);
        assert ok ==> b !in DirtySet(Snap());
      }
    }

    /** Writes back every modified line, in whatever order the table lists them. */
    method FlushAll() returns (ok: bool)
      requires Valid()
      modifies this`cache, this`dirtyFlushes, this`log, device
      ensures Valid() && Flushing(old(log), log, ok)
      ensures ok ==> DirtySet(Snap()) == {}
      ensures ok ==> device.blocks == Plain(log)
      ensures old(DirtySet(Snap())) == {} ==> log == old(log)
      ensures Plain(log) == Plain(old(log)) && device.refused == old(device.refused) + Failures(ok)
      ensures cache.Keys == old(cache).Keys
      ensures forall b | b in cache :: cache[b].(state := Shared) == old(cache)[b].(state := Shared)
      ensures ok ==> forall b | b in cache ::
                cache[b].state == if old(cache)[b].state == Modified then Shared else old(cache)[b].state
    {
      ghost var s0 := Snap();
      var todo := set b | b in cache && cache[b].state == Modified;
      assert todo == DirtySet(s0);
      NoneWritten(cache, todo);
      while todo != {}
        invariant Valid() && WroteBack(old(log), log) && todo == DirtySet(Snap())
        invariant DirtySet(s0) == {} ==> log == old(log)
        invariant Plain(log) == Plain(old(log)) && device.refused == old(device.refused)
        invariant WrittenBack(s0.lines, todo, cache)
      {
        var b :| b in todo;
        ghost var act;
        assert Dirty(Snap(), b);
        OneWritten(s0.lines, todo, cache, b);
        ok, act := WriteBackLine(b);
        if !ok {
          LinesWritten(s0.lines, todo, cache);
          return;
        }
        todo := todo - {b};
      }
      ok := true;
      LinesWritten(s0.lines, todo, cache);
      CleanCacheIsTheDevice(Snap());
      LifeIsARun();
    }

    method RemoveVictim(v: nat) returns (ghost act: Action)
      requires Valid() && Victim(Snap(), v)
      modifies this`cache, this`evictions, this`log
      ensures Valid() && act == Evict(v) && log == Then(old(log), act, Snap())
      ensures Plain(log) == Plain(old(log))
      ensures cache == old(cache) - {v} && |cache| < Room(Snap())
    {
      act := Evict(v);
      ghost var s := Snap();
      Standing(log, s);
      SizeOfRemove(cache, v);
      cache := cache - {v};
      evictions := evictions + 1;
      assert Snap() == Apply(s, act);
      Record(act);
    }

    /** With every line modified: flushes them all, then removes the one accessed least recently. */
    method FlushAndEvict() returns (ok: bool)
      requires Valid() && forall b | b in cache :: cache[b].state == Modified
      modifies this`cache, this`evictions, this`dirtyFlushes, this`log, device
      ensures Valid() && Reclaiming(old(log), log, ok)
      ensures Plain(log) == Plain(old(log)) && device.refused == old(device.refused) + Failures(ok)
      ensures ok ==> |cache| < Room(Snap())
      ensures cache.Keys <= old(cache).Keys
      ensures forall b | b in cache :: cache[b].lruTick == old(cache)[b].lruTick
    {
      assert forall b :: !Clean(log.state, b);
      ok := FlushAll();
      if !ok { return; }
      var victim := FindVictim(false);
      if victim.Some? {
        AllClean(Snap());
        ghost var act := RemoveVictim(victim.value);
      } else {
        assert cache.Keys == {};
      }
    }

    method EvictOne() returns (ok: bool)
      requires Valid()
      modifies this`cache, this`evictions, this`dirtyFlushes, this`log, device
      ensures Valid() && Reclaiming(old(log), log, ok)
      ensures Plain(log) == Plain(old(log)) && device.refused == old(device.refused) + Failures(ok)
      ensures ok ==> |cache| < Room(Snap())
      ensures cache.Keys <= old(cache).Keys
      ensures forall b | b in cache :: cache[b].lruTick == old(cache)[b].lruTick
    {
      ghost var s0 := Snap();
      var victim := FindVictim(true);
      ghost var act;
      if victim.Some? {
        assert Clean(s0, victim.value);
        act := RemoveVictim(victim.value);
        return true;
      }
      ok := FlushAndEvict();
    }

    method MakeRoom(b: nat) returns (ok: bool)
      requires Valid()
      modifies this`cache, this`evictions, this`dirtyFlushes, this`log, device
      ensures Valid() && MakingRoom(old(log), log, b, ok)
      ensures Plain(log) == Plain(old(log)) && device.refused == old(device.refused) + Failures(ok)
      ensures ok ==> b in cache || |cache| < Room(Snap())
      ensures b in old(cache) ==> cache == old(cache)
      ensures cache.Keys <= old(cache).Keys
      ensures forall c | c in cache :: cache[c].lruTick == old(cache)[c].lruTick
    {
      ok := true;
      if b !in cache && |cache| >= capacity {
        ok := EvictOne();
      }
    }

    method ServeHit(b: nat) returns (ghost act: Action)
      requires Valid() && Enabled(Snap(), Hit(b))
      modifies this`cache, this`hits, this`log
      ensures Valid() && act == Hit(b) && log == Then(old(log), act, Snap())
      ensures Plain(log) == Plain(old(log))
      ensures b in cache && Lookup(Plain(log), b) == Some(cache[b].data) && |cache[b].data| == device.blockSize
    {
      ghost var s := Snap();
      act := Hit(b);
      ReadDelivers(log, act);
      cache := cache[b := cache[b].(lruTick := tick)];
      hits := hits + 1;
      assert Snap() == Apply(s, act);
      Record(act);
    }

    method AcceptLoad(b: nat, data: Block) returns (ghost act: Action)
      requires Valid() && Enabled(Snap(), Fill(b)) && device.blocks[b] == data
      modifies this`cache, this`misses, this`log
      ensures Valid() && act == Fill(b) && log == Then(old(log), act, Snap())
      ensures Plain(log) == Plain(old(log))
      ensures b in cache && Lookup(Plain(log), b) == Some(cache[b].data) && |cache[b].data| == device.blockSize
    {
      ghost var s := Snap();
      act := Fill(b);
      FillEffect(s, b);
      ReadDelivers(log, act);
      misses := misses + 1;
      cache := cache[b := Line(data, Shared, tick)];
      assert Snap() == Apply(s, act);
      Record(act);
    }

    method AcceptWrite(b: nat, data: Block) returns (ghost act: Action)
      requires Valid() && Enabled(Snap(), Put(b, data))
      modifies this`cache, this`log
      ensures Valid() && act == Put(b, data) && log == Then(old(log), act, Snap())
      ensures Plain(log) == Plain(old(log))[b := data]
    {
      ghost var s := Snap();
      act := Put(b, data);
      cache := cache[b := Line(data, Modified, tick)];
      assert Snap() == Apply(s, act);
      Record(act);
    }

    method RecordFault(b: nat) returns (ghost act: Action)
      requires Valid()
      modifies this`log
      ensures Valid() && act == ReadFault(b) && log == Then(old(log), act, Snap())
    {
      act := ReadFault(b);
      Record(act);
    }

    method LoadFromDevice(b: nat) returns (ok: bool)
      requires Valid() && Fresh(Snap())
      requires b in cache ==> cache[b].state == Invalid
      modifies this`cache, this`misses, this`evictions, this`dirtyFlushes, this`log, device
      ensures Valid() && Loading(old(log), log, b, ok)
      ensures Plain(log) == Plain(old(log)) && device.refused == old(device.refused) + Failures(ok)
      ensures ok ==> b in cache && Lookup(Plain(log), b) == Some(cache[b].data) && |cache[b].data| == device.blockSize
    {
      ok := MakeRoom(b);
      if !ok { return; }
      var r := device.ReadBlock(b);
      ghost var act;
      ok := r.Some?;
      if ok {
        act := AcceptLoad(b, r.value);
      } else {
        act := RecordFault(b);
      }
    }

    method BeginCall()
      requires Valid()
      modifies this`tick, this`log
      ensures Valid() && Fresh(Snap()) && log == Begun(old(log))
      ensures Plain(log) == Plain(old(log))
    {
      ghost var s := Snap();
      Standing(log, s);
      tick := tick + 1;
      assert Snap() == Apply(s, BeginAccess);
      Record(BeginAccess);
    }

    /** The read itself, with what it did in the log. */
    method Fetch(b: nat) returns (r: Result<Block>)
      requires Valid()
      modifies this, device
      ensures Valid() && Legal(Cache(), log) && ReadCall(old(log), log, b, r.Ok?)
      ensures Plain(log) == Plain(old(log)) && r != SizeMismatch
      ensures device.refused == old(device.refused) + Failures(r.Ok?)
      ensures r.Ok? ==> Lookup(Plain(old(log)), b) == Some(r.value) && |r.value| == device.blockSize
    {
      BeginCall();
      if b in cache && cache[b].state != Invalid {
        ghost var act := ServeHit(b);
        r := Ok(cache[b].data);
      } else {
        var ok := LoadFromDevice(b);
        r := if ok then Ok(cache[b].data) else DeviceError;
      }
      assert Lived(log);
    }

    /** A read returns the block's logical contents; it fails exactly when the device refuses a call. */
    method ReadBlock(b: nat) returns (r: Result<Block>)
      requires Valid()
      modifies this, device
      ensures Valid() && ReadCall(old(log), log, b, r.Ok?)
      ensures Plain(log) == Plain(old(log)) && r != SizeMismatch
      ensures device.refused == old(device.refused) + Failures(r.Ok?)
      ensures tick == old(tick) + 1 && (old(b in cache && cache[b].state != Invalid) ==> r.Ok?)
      ensures hits == old(hits) + if old(b in cache && cache[b].state != Invalid) then 1 else 0
      ensures misses == old(misses) + if r.Ok? && !old(b in cache && cache[b].state != Invalid) then 1 else 0
      ensures r.Ok? ==> b in cache && cache[b].state != Invalid && cache[b].lruTick == tick
      ensures r.Ok? ==>
                evictions == old(evictions) + if old(b !in cache && |cache| >= capacity && cache != map[]) then 1 else 0
      ensures old(b in cache || |cache| < capacity) ==> evictions == old(evictions)
      ensures old(b in cache || |cache| < capacity) || (exists c :: Clean(old(Snap()), c)) ==>
                device.blocks == old(device.blocks)
      ensures r.Ok? ==> Lookup(Plain(old(log)), b) == Some(r.value) && |r.value| == device.blockSize
    {
      r := Fetch(b);
      ReadCallEffect(old(log), log, b, r.Ok?);
    }

    /** The write itself, with what it did in the log. */
    method Store(b: nat, data: Block) returns (r: Result<()>)
      requires Valid()
      modifies this, device
      ensures Valid() && Legal(Cache(), log) && WriteCall(old(log), log, b, data, r)
      ensures Plain(log) == if r.Ok? then Plain(old(log))[b := data] else Plain(old(log))
      ensures r == SizeMismatch <==> |data| != device.blockSize
      ensures device.refused == old(device.refused) + Failures(r != DeviceError)
    {
      BeginCall();
      if |data| != device.blockSize {
        r := SizeMismatch;
      } else {
        var ok := MakeRoom(b);
        if ok {
          ghost var act := AcceptWrite(b, data);
        }
        r := if ok then Ok(()) else DeviceError;
      }
      assert Lived(log);
    }

    /** An accepted write changes the logical contents of one block; a refused one changes nothing. */
    method WriteBlock(b: nat, data: Block) returns (r: Result<()>)
      requires Valid()
      modifies this, device
      ensures Valid() && WriteCall(old(log), log, b, data, r)
      ensures r.Ok? ==> Plain(log) == Plain(old(log))[b := data]
      ensures !r.Ok? ==> Plain(log) == Plain(old(log))
      ensures r == SizeMismatch <==> |data| != device.blockSize
      ensures device.refused == old(device.refused) + Failures(r != DeviceError)
      ensures tick == old(tick) + 1 && hits == old(hits) && misses == old(misses)
      ensures r.Ok? ==> b in cache && cache[b] == Line(data, Modified, tick)
      ensures evictions == old(evictions) +
                if r.Ok? && old(b !in cache && |cache| >= capacity && cache != map[]) then 1 else 0
      ensures old(b in cache || |cache| < capacity) || (exists c :: Clean(old(Snap()), c)) ==>
                device.blocks == old(device.blocks) && r != DeviceError
    {
      r := Store(b, data);
      WriteCallEffect(old(log), log, b, data, r);
    }

    /** Forgets a line, so the next read sees the device; an unwritten modification is lost. */
    method Invalidate(b: nat) returns (ghost act: Action)
      requires Valid()
      modifies this`cache, this`log
      ensures Valid() && act == Drop(b) && log == Then(old(log), act, Snap())
      ensures Plain(log) == PlainStep(Plain(old(log)), old(log).state, Drop(b))
      ensures cache == if b in old(cache) then old(cache)[b := old(cache)[b].(state := Invalid)] else old(cache)
    {
      ghost var s := Snap();
      act := Drop(b);
      if b in cache {
        cache := cache[b := cache[b].(state := Invalid)];
      }
      assert Snap() == Apply(s, act);
      Record(act);
    }

    method ClearLines()
      requires Valid() && DirtySet(Snap()) == {}
      modifies this`cache, this`log
      ensures Valid() && log == Then(old(log), Clear, Snap())
      ensures cache == map[] && Plain(log) == Plain(old(log))
    {
      ghost var s := Snap();
      cache := map[];
      assert Snap() == Apply(s, Clear);
      Record(Clear);
    }

    method FlushAndClear() returns (ok: bool)
      requires Valid()
      modifies this`cache, this`dirtyFlushes, this`log, device
      ensures Valid() && Plain(log) == Plain(old(log)) && device.refused == old(device.refused) + Failures(ok)
      ensures if ok then log.Then? && log.act == Clear && WroteBack(old(log), log.prev)
              else Flushing(old(log), log, false)
      ensures ok ==> cache == map[] && device.blocks == Plain(old(log))
      ensures !ok ==> cache.Keys == old(cache).Keys
    {
      ok := FlushAll();
      if !ok { return; }
      ClearLines();
    }

    method CountDirty() returns (n: nat)
      ensures n == |DirtySet(Snap())|
    {
      var dirty := set b | b in cache && cache[b].state == Modified;
      assert dirty == DirtySet(Snap());
      n := |dirty|;
    }

    /** The counters, the hit rate in whole per cent of the reads served, and the two entry counts. */
    method Stats() returns (r: CacheStats)
      requires Valid()
      ensures r.hits == hits == LedgerOf(log).cached && r.misses == misses == LedgerOf(log).loaded
      ensures IsHitRate(r.hitRate, r.hits, r.misses)
      ensures r.evictions == evictions && r.dirtyFlushes == dirtyFlushes && r.capacity == capacity
      ensures r.entries == |Snap().lines| && r.dirtyEntries == |DirtySet(Snap())|
    {
      LifeIsARun();
      var hitRate := HitRate(hits, misses);
      var dirtyEntries := CountDirty();
      r := CacheStats(hits, misses, hitRate, evictions, dirtyFlushes, |cache|, capacity, dirtyEntries);
    }

    /** Reads the next block of a transfer into place. */
    method ReadNext(buffer: array<byte>, at: nat, b: nat, ghost m: map<nat, Block>) returns (ok: bool)
      requires Valid() && Plain(log) == m && at + device.blockSize <= buffer.Length
      modifies this, device, buffer
      ensures Valid() && Plain(log) == m && device.refused == old(device.refused) + Failures(ok)
      ensures ok ==> b in m && buffer[..] == Overwrite(old(buffer[..]), at, m[b])
      ensures !ok ==> buffer[..] == old(buffer[..])
    {
      var src := ReadBlock(b);
      ok := src.Ok?;
      if ok {
        CopyInto(buffer, at, src.value);
      }
    }

    /**
     Fills the buffer with whole blocks. On an error at block `done`, the blocks before it are in
     place and the rest of the buffer is untouched; the logical contents never change.
     */
    method ReadBlocks(buffer: array<byte>, offset: nat) returns (ok: bool, done: nat)
      requires Valid()
      modifies this, device, buffer
      ensures Valid() && Plain(log) == Plain(old(log))
      ensures device.refused == old(device.refused) + Failures(ok)
      ensures done <= BlockCount(buffer.Length, device.blockSize)
      ensures ok <==> done == BlockCount(buffer.Length, device.blockSize)
      ensures Present(Plain(old(log)), offset, done)
      ensures buffer[..] == Filled(Plain(old(log)), offset, done, device.blockSize, old(buffer[..]))
    {
      ghost var m, was := Plain(log), buffer[..];
      var bs := device.blockSize;
      var count := CountBlocks(buffer.Length, bs);
      done := 0;
      while done < count
        invariant done <= count && device.refused == old(device.refused)
        invariant Valid() && Plain(log) == m
        invariant Present(m, offset, done) && buffer[..] == Filled(m, offset, done, bs, was)
      {
        CountFits(done + 1, buffer.Length, bs);
        var at, b := BlockStart(done, bs), offset + done;
        ok := ReadNext(buffer, at, b, m);
        if !ok { return; }
        FillOneMore(m, offset, done, b, bs, was);
        done := done + 1;
      }
      ok := true;
    }

    /** Writes the next block of a transfer. */
    method WriteNext(buffer: seq<byte>, offset: nat, n: nat, ghost m: map<nat, Block>) returns (ok: bool)
      requires Valid() && StoredTo(m, offset, buffer, n, device.blockSize, Plain(log))
      requires BlockStart(n + 1, device.blockSize) <= |buffer|
      modifies this, device
      ensures Valid() && device.refused == old(device.refused) + Failures(ok)
      ensures StoredTo(m, offset, buffer, if ok then n + 1 else n, device.blockSize, Plain(log))
    {
      var b, chunk := offset + n, Chunk(buffer, n, device.blockSize);
      StoreOneMore(m, offset, buffer, n, device.blockSize, b, Plain(log));
      var r := WriteBlock(b, chunk);
      ok := r.Ok?;
    }

    /**
     Stores the whole blocks of the buffer. On an error at block `done`, exactly the blocks before it
     are part of the logical contents.
     */
    method WriteBlocks(buffer: seq<byte>, offset: nat) returns (ok: bool, done: nat)
      requires Valid()
      modifies this, device
      ensures Valid() && device.refused == old(device.refused) + Failures(ok)
      ensures done <= BlockCount(|buffer|, device.blockSize) && (ok <==> done == BlockCount(|buffer|, device.blockSize))
      ensures BlockStart(done, device.blockSize) <= |buffer|
      ensures Plain(log) == Stored(Plain(old(log)), offset, buffer, done, device.blockSize)
    {
      ghost var m := Plain(log);
      var bs := device.blockSize;
      var count := CountBlocks(|buffer|, bs);
      done := 0;
      ok := true;
      StoredNone(m, offset, buffer, bs);
      while done < count
        invariant device.refused == old(device.refused)
        invariant done <= count && Valid() && StoredTo(m, offset, buffer, done, bs, Plain(log))
      {
        CountFits(done + 1, |buffer|, bs);
        ok := WriteNext(buffer, offset, done, m);
        if !ok { break; }
        done := done + 1;
      }
      ok := done == count;
      StoredNow(m, offset, buffer, done, bs, Plain(log));
    }
  }
}
