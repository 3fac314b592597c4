/** The framebuffer compositor: sixteen source rows at a time, with a record of the blocks already drawn. */
module FrameCompositor {
  import opened Compositing
  import opened Compositor
  import opened DrawnBlocks

  // ---------------------------------------------------------------- sixteen rows at a time

  function ChunkOf(y: int): int { y / CACHE_BLOCK_HEIGHT }

  function ChunkRows(k: nat): Rows { Rows(CACHE_BLOCK_HEIGHT * k, CACHE_BLOCK_HEIGHT * k + CACHE_BLOCK_HEIGHT) }

  /** The rectangle covered in the chunks that were drawn, untouched in the others. */
  ghost function InChunks(fmt: Format, dst: Picture, src: Picture, offset: Coord, rect: Rectangle,
                          drawn: set<nat>): Picture {
    imap c | c in dst ::
      if InRect(rect, c) && Minus(c, offset) in src && ChunkOf(c.y - offset.y) in drawn
      then Over(fmt, src[Minus(c, offset)], dst[c]) else dst[c]
  }

  lemma NoChunks(fmt: Format, dst: Picture, src: Picture, offset: Coord, rect: Rectangle)
    ensures InChunks(fmt, dst, src, offset, rect, {}) == dst
  {
  }

  /** The coordinates of one chunk of the rectangle. */
  lemma InChunk(rect: Rectangle, offset: Coord, k: nat, c: Coord)
    ensures InRect(Region(rect, offset, ChunkRows(k)), c) <==> InRect(rect, c) && ChunkOf(c.y - offset.y) == k
  {
  }

  /** Covering a second region, apart from the first, covers both. */
  lemma CoverBoth(fmt: Format, dst: Picture, src: Picture, offset: Coord, rect: Rectangle,
                  drawn: set<nat>, k: nat, r: Rectangle)
    requires k !in drawn
    requires forall c | c in dst :: InRect(r, c) <==> InRect(rect, c) && ChunkOf(c.y - offset.y) == k
    ensures Covered(fmt, InChunks(fmt, dst, src, offset, rect, drawn), src, offset, r)
            == InChunks(fmt, dst, src, offset, rect, drawn + {k})
  {
  }

  /** Blending one more chunk adds it to the chunks drawn, and touches no pixel a second time. */
  lemma OneMoreChunk(fmt: Format, dst: Picture, src: Picture, offset: Coord, rect: Rectangle, drawn: set<nat>, k: nat)
    requires k !in drawn
    ensures Covered(fmt, InChunks(fmt, dst, src, offset, rect, drawn), src, offset, Region(rect, offset, ChunkRows(k)))
            == InChunks(fmt, dst, src, offset, rect, drawn + {k})
  {
    var r := Region(rect, offset, ChunkRows(k));
    forall c | c in dst ensures InRect(r, c) <==> InRect(rect, c) && ChunkOf(c.y - offset.y) == k {
      InChunk(rect, offset, k, c);
    }
    CoverBoth(fmt, dst, src, offset, rect, drawn, k, r);
  }

  /** `get_cache_row_range`: the rows of the box, widened to whole chunks. */
  function CacheRows(offset: Coord, rect: Rectangle, height: nat): Rows {
    var start := Max(rect.topLeft.y - offset.y, 0);
    var end := Min(rect.bottomRight.y - offset.y, height);
    if start >= end then Rows(0, 0)
    else Rows(start / CACHE_BLOCK_HEIGHT * CACHE_BLOCK_HEIGHT,
              Min(((end - 1) / CACHE_BLOCK_HEIGHT + 1) * CACHE_BLOCK_HEIGHT, height))
  }

  /** A chunk starts inside the widened row range exactly when one of its rows is a row of the box. */
  lemma CacheRowsExact(offset: Coord, rect: Rectangle, height: nat, k: nat)
    ensures var rows := CacheRows(offset, rect, height);
            rows.start <= ChunkRows(k).start < rows.end <==>
            exists y :: 0 <= y < height && rect.topLeft.y <= y + offset.y < rect.bottomRight.y && ChunkOf(y) == k
  {
    var start := Max(rect.topLeft.y - offset.y, 0);
    var end := Min(rect.bottomRight.y - offset.y, height);
    var rows := CacheRows(offset, rect, height);
    if rows.start <= ChunkRows(k).start < rows.end {
      assert ChunkOf(Max(start, CACHE_BLOCK_HEIGHT * k)) == k;
    }
  }

  /** No chunk of the widened row range leaves a gap to the rectangle, so only its x can be inside out. */
  lemma ChunksMeet(offset: Coord, rect: Rectangle, height: nat, k: nat)
    requires var rows := CacheRows(offset, rect, height); rows.start <= ChunkRows(k).start < rows.end
    ensures rect.topLeft.x <= rect.bottomRight.x ==> Meets(rect, offset, ChunkRows(k))
  {
    CacheRowsExact(offset, rect, height, k);
  }

  /** The rectangle covered except in the chunks that were found in the cache. */
  ghost function CoveredExcept(fmt: Format, dst: Picture, src: Picture, offset: Coord, rect: Rectangle,
                               cached: set<nat>): Picture {
    imap c | c in dst ::
      if InRect(rect, c) && Minus(c, offset) in src && ChunkOf(c.y - offset.y) !in cached
      then Over(fmt, src[Minus(c, offset)], dst[c]) else dst[c]
  }

  /** With a cold cache the whole rectangle is covered, each pixel once. */
  lemma ColdCacheCovers(fmt: Format, dst: Picture, src: Picture, offset: Coord, rect: Rectangle)
    ensures CoveredExcept(fmt, dst, src, offset, rect, {}) == Covered(fmt, dst, src, offset, rect)
  {
  }

  /** Every chunk that has a row of the box was drawn, unless the cache had it. */
  ghost predicate AllDrawn(offset: Coord, rect: Rectangle, height: nat, drawn: set<nat>, cached: set<nat>) {
    forall y | 0 <= y < height && rect.topLeft.y <= y + offset.y < rect.bottomRight.y ::
      ChunkOf(y) in drawn <==> ChunkOf(y) !in cached
  }

  lemma AllDrawnCovers(fmt: Format, dst: Picture, src: Picture, height: nat, offset: Coord, rect: Rectangle,
                       drawn: set<nat>, cached: set<nat>)
    requires AllDrawn(offset, rect, height, drawn, cached)
    requires forall c | c in src :: 0 <= c.y < height
    ensures InChunks(fmt, dst, src, offset, rect, drawn) == CoveredExcept(fmt, dst, src, offset, rect, cached)
  {
    forall c | c in dst
      ensures InChunks(fmt, dst, src, offset, rect, drawn)[c] == CoveredExcept(fmt, dst, src, offset, rect, cached)[c]
    {
      if InRect(rect, c) && Minus(c, offset) in src {
        assert ChunkOf(Minus(c, offset).y) in drawn <==> ChunkOf(Minus(c, offset).y) !in cached;
      }
    }
  }

  /** Blending chunk `k` would underflow. */
  predicate Underflows(src: Framebuffer, dst: Framebuffer, offset: Coord, rect: Rectangle, k: nat) {
    Clip(rect, offset, ChunkRows(k), dst.width, dst.height, src.width, src.height).Underflow?
  }

  method BlendChunk(fmt: Format, src: Framebuffer, dst: Framebuffer, offset: Coord, rect: Rectangle, k: nat,
                    ghost shown: Picture, ghost drawn: set<nat>) returns (ok: bool)
    requires src.Valid() && dst.Valid() && src.buffer != dst.buffer
    requires k !in drawn && dst.Shown() == InChunks(fmt, shown, src.Shown(), offset, rect, drawn)
    modifies dst.buffer
    ensures ok <==> !Underflows(src, dst, offset, rect, k)
    ensures dst.Shown() == InChunks(fmt, shown, src.Shown(), offset, rect, if ok then drawn + {k} else drawn)
  {
    ok := BlendRectangle(fmt, rect, src, dst, offset, ChunkRows(k));
    OneMoreChunk(fmt, shown, src.Shown(), offset, rect, drawn, k);
  }

  /** The chunks before `k`, from the first of the widened row range on, were either drawn or found. */
  ghost predicate DrawnUpTo(rows: Rows, k: nat, drawn: set<nat>, cached: set<nat>) {
    && (forall j | j in drawn || j in cached :: j < k)
    && (forall j: nat | rows.start <= CACHE_BLOCK_HEIGHT * j && j < k :: j in drawn <==> j !in cached)
  }

  lemma DrawOrFind(rows: Rows, k: nat, drawn: set<nat>, cached: set<nat>)
    requires DrawnUpTo(rows, k, drawn, cached)
    ensures DrawnUpTo(rows, k + 1, drawn + {k}, cached) && DrawnUpTo(rows, k + 1, drawn, cached + {k})
    ensures k !in drawn
  {
  }

  lemma DrawnToTheEnd(offset: Coord, rect: Rectangle, height: nat, k: nat, drawn: set<nat>, cached: set<nat>)
    requires DrawnUpTo(CacheRows(offset, rect, height), k, drawn, cached)
    requires CacheRows(offset, rect, height).end <= CACHE_BLOCK_HEIGHT * k
    ensures AllDrawn(offset, rect, height, drawn, cached)
  {
    forall y | 0 <= y < height && rect.topLeft.y <= y + offset.y < rect.bottomRight.y
      ensures ChunkOf(y) in drawn <==> ChunkOf(y) !in cached
    {
      CacheRowsExact(offset, rect, height, ChunkOf(y));
    }
  }

  // ---------------------------------------------------------------- what is found and what is drawn

  /** The chunks of the widened row range: from the first up to, not including, the second. */
  function FirstChunk(offset: Coord, rect: Rectangle, height: nat): nat {
    CacheRows(offset, rect, height).start / CACHE_BLOCK_HEIGHT
  }

  function EndChunk(offset: Coord, rect: Rectangle, height: nat): nat {
    (CacheRows(offset, rect, height).end + 15) / CACHE_BLOCK_HEIGHT
  }

  lemma ChunksOfRange(offset: Coord, rect: Rectangle, height: nat)
    ensures FirstChunk(offset, rect, height) <= EndChunk(offset, rect, height)
    ensures CACHE_BLOCK_HEIGHT * FirstChunk(offset, rect, height) == CacheRows(offset, rect, height).start
    ensures forall k: nat ::
              k < EndChunk(offset, rect, height) <==> CACHE_BLOCK_HEIGHT * k < CacheRows(offset, rect, height).end
    ensures CacheRows(offset, rect, height).end <= height
  {
  }

  /** An empty record has nothing to find. */
  lemma NothingRecorded(offset: Coord, hashes: seq<nat>, width: nat, from: nat, to: nat, found: set<nat>)
    ensures FoundIn(map[], offset, hashes, width, from, to, found) ==> found == {}
  {
  }

  /** When every chunk with a row of the box is found, nothing is drawn. */
  lemma AllFoundDrawsNothing(fmt: Format, dst: Picture, src: Picture, height: nat, offset: Coord, rect: Rectangle,
                             found: set<nat>)
    requires forall c | c in src :: 0 <= c.y < height
    requires forall k: nat | FirstChunk(offset, rect, height) <= k < EndChunk(offset, rect, height) :: k in found
    ensures CoveredExcept(fmt, dst, src, offset, rect, found) == dst
  {
    ChunksOfRange(offset, rect, height);
    forall c | c in dst && InRect(rect, c) && Minus(c, offset) in src ensures ChunkOf(c.y - offset.y) in found {
      var y := Minus(c, offset).y;
      CacheRowsExact(offset, rect, height, ChunkOf(y));
    }
  }

  /**
   A pass records whole chunks, whatever box it drew. So after a pass over one box, a pass over any other
   box in the same chunks draws nothing; repeating the same pass is one case.
   */
  lemma LaterBoxDrawsNothing(was: Cache, now: Cache, later: Cache, offset: Coord, box: Rectangle, box': Rectangle,
                             hashes: seq<nat>, width: nat, height: nat, found: set<nat>, found': set<nat>,
                             fmt: Format, dst: Picture, src: Picture)
    requires forall c | c in src :: 0 <= c.y < height
    requires Passed(was, now, offset, hashes, width, true,
                    FirstChunk(offset, box, height), EndChunk(offset, box, height), found)
    requires Passed(now, later, offset, hashes, width, true,
                    FirstChunk(offset, box', height), EndChunk(offset, box', height), found')
    requires FirstChunk(offset, box, height) <= FirstChunk(offset, box', height)
    requires EndChunk(offset, box', height) <= EndChunk(offset, box, height)
    ensures CoveredExcept(fmt, dst, src, offset, box', found') == dst
  {
    forall k: nat | FirstChunk(offset, box', height) <= k < EndChunk(offset, box', height) ensures k in found' {
      AllCachedAt(now, offset, hashes, width, FirstChunk(offset, box, height), EndChunk(offset, box, height), k);
    }
    AllFoundDrawsNothing(fmt, dst, src, height, offset, box', found');
  }

  /** The destination pixel shows the source pixel already: drawing it again would change nothing. */
  predicate ShowsAlready(fmt: Format, s: Pixel, d: Pixel) {
    if fmt.Rgb? || s.alpha == 0 then d == s else s.alpha == 255 || Blend(fmt, s, d) == d
  }

  /** The pixel is skipped although drawing it would change it. */
  ghost predicate Stale(fmt: Format, dst: Picture, src: Picture, offset: Coord, box: Rectangle, found: set<nat>,
                        c: Coord) {
    && c in dst && InRect(box, c) && Minus(c, offset) in src && ChunkOf(c.y - offset.y) in found
    && !ShowsAlready(fmt, src[Minus(c, offset)], dst[c])
  }

  lemma StaleAt(fmt: Format, dst: Picture, src: Picture, offset: Coord, box: Rectangle, found: set<nat>, c: Coord)
    requires c in dst
    ensures CoveredExcept(fmt, dst, src, offset, box, found)[c] == Covered(fmt, dst, src, offset, box)[c] <==>
            !Stale(fmt, dst, src, offset, box, found, c)
  {
    if Minus(c, offset) in src { DrawnAgain(fmt, src[Minus(c, offset)], dst[c]); }
  }

  /** Skipping the chunks found is harmless exactly when all their pixels in the box are shown already. */
  lemma SkippingIsHarmless(fmt: Format, dst: Picture, src: Picture, offset: Coord, box: Rectangle, found: set<nat>)
    ensures CoveredExcept(fmt, dst, src, offset, box, found) == Covered(fmt, dst, src, offset, box) <==>
            forall c | c in dst && InRect(box, c) && Minus(c, offset) in src && ChunkOf(c.y - offset.y) in found ::
              ShowsAlready(fmt, src[Minus(c, offset)], dst[c])
  {
    var skipped, drawn := CoveredExcept(fmt, dst, src, offset, box, found), Covered(fmt, dst, src, offset, box);
    forall c | c in dst ensures skipped[c] == drawn[c] <==> !Stale(fmt, dst, src, offset, box, found, c) {
      StaleAt(fmt, dst, src, offset, box, found, c);
    }
    SameWhenEqual(dst, skipped, drawn);
    NothingStale(fmt, dst, src, offset, box, found);
  }

  lemma NothingStale(fmt: Format, dst: Picture, src: Picture, offset: Coord, box: Rectangle, found: set<nat>)
    ensures (forall c | c in dst :: !Stale(fmt, dst, src, offset, box, found, c)) <==>
            forall c | c in dst && InRect(box, c) && Minus(c, offset) in src && ChunkOf(c.y - offset.y) in found ::
              ShowsAlready(fmt, src[Minus(c, offset)], dst[c])
  {
    if forall c | c in dst :: !Stale(fmt, dst, src, offset, box, found, c) {
      forall c | c in dst && InRect(box, c) && Minus(c, offset) in src && ChunkOf(c.y - offset.y) in found
        ensures ShowsAlready(fmt, src[Minus(c, offset)], dst[c])
      {
        assert !Stale(fmt, dst, src, offset, box, found, c);
      }
    }
  }

  lemma SameWhenEqual(dst: Picture, a: Picture, b: Picture)
    requires a.Keys == dst.Keys && b.Keys == dst.Keys
    ensures a == b <==> forall c | c in dst :: a[c] == b[c]
  {
  }

  lemma DrawnAgain(fmt: Format, s: Pixel, d: Pixel)
    ensures Over(fmt, s, d) == d <==> ShowsAlready(fmt, s, d)
  {
  }

  /** A row of four pixels. */
  ghost function FourPixels(p: Pixel): Picture { imap c: Coord | 0 <= c.x < 4 && c.y == 0 :: p }

  /** A source of one row, its left half drawn first: the right half is then taken to be drawn, and never is. */
  lemma RightHalfNeverDrawn(was: Cache, now: Cache, later: Cache, hashes: seq<nat>, found: set<nat>, found': set<nat>,
                            p: Pixel, q: Pixel)
    requires p != q
    requires var left := Box(Coord(0, 0), 2, 1);
             Passed(was, now, Coord(0, 0), hashes, 4, true,
                    FirstChunk(Coord(0, 0), left, 1), EndChunk(Coord(0, 0), left, 1), found)
    requires var right := Box(Coord(2, 0), 2, 1);
             Passed(now, later, Coord(0, 0), hashes, 4, true,
                    FirstChunk(Coord(0, 0), right, 1), EndChunk(Coord(0, 0), right, 1), found')
    ensures var right, dst := Box(Coord(2, 0), 2, 1), FourPixels(q);
            && CoveredExcept(Rgb, dst, FourPixels(p), Coord(0, 0), right, found') == dst
            && Covered(Rgb, dst, FourPixels(p), Coord(0, 0), right) != dst
  {
    var left, right, dst := Box(Coord(0, 0), 2, 1), Box(Coord(2, 0), 2, 1), FourPixels(q);
    LaterBoxDrawsNothing(was, now, later, Coord(0, 0), left, right, hashes, 4, 1, found, found',
                         Rgb, dst, FourPixels(p));
    assert Covered(Rgb, dst, FourPixels(p), Coord(0, 0), right)[Coord(2, 0)] == p;
  }

  // ---------------------------------------------------------------- failures

  const USIZE_LIMIT: nat := 0x1_0000_0000_0000_0000

  /** The cast of a signed difference to a 64-bit unsigned number. */
  function AsUsize(n: int): nat { n % USIZE_LIMIT }

  function Size(rect: Rectangle): nat {
    AsUsize(rect.bottomRight.x - rect.topLeft.x) * AsUsize(rect.bottomRight.y - rect.topLeft.y)
  }

  /** The size of a rectangle; a negative difference becomes a very large number. */
  lemma SizeExactly(rect: Rectangle)
    requires -0x8000_0000_0000_0000 <= rect.bottomRight.x - rect.topLeft.x < 0x8000_0000_0000_0000
    requires -0x8000_0000_0000_0000 <= rect.bottomRight.y - rect.topLeft.y < 0x8000_0000_0000_0000
    ensures var dx, dy := rect.bottomRight.x - rect.topLeft.x, rect.bottomRight.y - rect.topLeft.y;
            Size(rect) == (if dx >= 0 then dx else dx + 0x1_0000_0000_0000_0000) *
                          (if dy >= 0 then dy else dy + 0x1_0000_0000_0000_0000)
  {
    CastExactly(rect.bottomRight.x - rect.topLeft.x);
    CastExactly(rect.bottomRight.y - rect.topLeft.y);
  }

  lemma CastExactly(n: int)
    requires -0x8000_0000_0000_0000 <= n < 0x8000_0000_0000_0000
    ensures AsUsize(n) == if n >= 0 then n else n + 0x1_0000_0000_0000_0000
  {
  }

  /** Chunk `k` is found in the record, or its blend does not underflow; a lookup does not divide by zero. */
  predicate PassableAt(record: Cache, src: Framebuffer, dst: Framebuffer, offset: Coord, rect: Rectangle,
                       hashes: seq<nat>, useCache: bool, k: nat) {
    && (useCache ==> src.width > 0)
    && ((useCache && CachedAt(record, offset, hashes, src.width, k)) || !Underflows(src, dst, offset, rect, k))
  }

  /** So for every chunk of the range. */
  ghost predicate Passable(record: Cache, src: Framebuffer, dst: Framebuffer, offset: Coord, rect: Rectangle,
                           hashes: seq<nat>, useCache: bool, from: nat, to: nat) {
    forall k: nat | from <= k < to :: PassableAt(record, src, dst, offset, rect, hashes, useCache, k)
  }

  /** A box that is not inside out in x never underflows. */
  lemma NeverUnderflows(src: Framebuffer, dst: Framebuffer, offset: Coord, rect: Rectangle, k: nat)
    requires rect.topLeft.x <= rect.bottomRight.x
    requires FirstChunk(offset, rect, src.height) <= k < EndChunk(offset, rect, src.height)
    ensures !Underflows(src, dst, offset, rect, k)
  {
    ChunksOfRange(offset, rect, src.height);
    ChunksMeet(offset, rect, src.height, k);
    ClipNeverUnderflows(rect, offset, ChunkRows(k), dst.width, dst.height, src.width, src.height);
  }

  lemma WellFormedIsPassable(record: Cache, src: Framebuffer, dst: Framebuffer, offset: Coord, rect: Rectangle,
                             hashes: seq<nat>, useCache: bool)
    requires rect.topLeft.x <= rect.bottomRight.x && (src.width > 0 || !useCache)
    ensures Passable(record, src, dst, offset, rect, hashes, useCache,
                     FirstChunk(offset, rect, src.height), EndChunk(offset, rect, src.height))
  {
    forall k: nat | FirstChunk(offset, rect, src.height) <= k < EndChunk(offset, rect, src.height)
      ensures PassableAt(record, src, dst, offset, rect, hashes, useCache, k)
    {
      NeverUnderflows(src, dst, offset, rect, k);
    }
  }

  lemma NoColumnsNotPassable(record: Cache, src: Framebuffer, dst: Framebuffer, offset: Coord, rect: Rectangle,
                             hashes: seq<nat>, from: nat, to: nat)
    requires src.width == 0 && from < to
    ensures !Passable(record, src, dst, offset, rect, hashes, true, from, to)
  {
    assert !PassableAt(record, src, dst, offset, rect, hashes, true, from);
  }

  // ---------------------------------------------------------------- how far the loop has come

  /** The chunks before `k` could be passed, and were each drawn or found. */
  ghost predicate Looping(was: Cache, now: Cache, src: Framebuffer, dst: Framebuffer, offset: Coord, rect: Rectangle,
                          hashes: seq<nat>, useCache: bool, k: nat, drawn: set<nat>, found: set<nat>) {
    var from := FirstChunk(offset, rect, src.height);
    && from <= k <= EndChunk(offset, rect, src.height)
    && Passed(was, now, offset, hashes, src.width, useCache, from, k, found)
    && DrawnUpTo(CacheRows(offset, rect, src.height), k, drawn, found)
    && Passable(was, src, dst, offset, rect, hashes, useCache, from, k)
  }

  /** The same, kept folded. */
  ghost predicate LoopAt(was: Cache, now: Cache, src: Framebuffer, dst: Framebuffer, offset: Coord, rect: Rectangle,
                         hashes: seq<nat>, useCache: bool, k: nat, drawn: set<nat>, found: set<nat>) {
    forall d: nat | d == k :: Looping(was, now, src, dst, offset, rect, hashes, useCache, d, drawn, found)
  }

  lemma LoopStarts(was: Cache, src: Framebuffer, dst: Framebuffer, offset: Coord, rect: Rectangle, hashes: seq<nat>,
                   useCache: bool)
    ensures LoopAt(was, was, src, dst, offset, rect, hashes, useCache, FirstChunk(offset, rect, src.height), {}, {})
  {
    ChunksOfRange(offset, rect, src.height);
    PassStarts(was, offset, hashes, src.width, useCache, FirstChunk(offset, rect, src.height));
  }

  /** What the next turn finds in the record was there at the start; it is no chunk drawn before. */
  lemma LoopNext(was: Cache, now: Cache, src: Framebuffer, dst: Framebuffer, offset: Coord, rect: Rectangle,
                 hashes: seq<nat>, useCache: bool, k: nat, drawn: set<nat>, found: set<nat>)
    requires LoopAt(was, now, src, dst, offset, rect, hashes, useCache, k, drawn, found)
    ensures k !in drawn
    ensures PassableAt(was, src, dst, offset, rect, hashes, useCache, k) <==>
            PassableAt(now, src, dst, offset, rect, hashes, useCache, k)
  {
    assert Looping(was, now, src, dst, offset, rect, hashes, useCache, k, drawn, found);
    NextAsAtStart(was, now, offset, hashes, src.width, useCache, FirstChunk(offset, rect, src.height), k, found);
  }

  lemma LoopOn(was: Cache, mid: Cache, now: Cache, src: Framebuffer, dst: Framebuffer, offset: Coord, rect: Rectangle,
               hashes: seq<nat>, useCache: bool, k: nat, drawn: set<nat>, found: set<nat>, hit: bool)
    requires LoopAt(was, mid, src, dst, offset, rect, hashes, useCache, k, drawn, found)
    requires k < |hashes| && k < EndChunk(offset, rect, src.height)
    requires PassableAt(was, src, dst, offset, rect, hashes, useCache, k)
    requires LookedUp(mid, now, offset, k, hashes[k], src.width, useCache, hit)
    ensures LoopAt(was, now, src, dst, offset, rect, hashes, useCache, k + 1,
                   if hit then drawn else drawn + {k}, if hit then found + {k} else found)
  {
    assert Looping(was, mid, src, dst, offset, rect, hashes, useCache, k, drawn, found);
    var from := FirstChunk(offset, rect, src.height);
    PassOn(was, mid, now, offset, hashes, src.width, useCache, from, k, found, hit);
    PassEnds(was, now, offset, hashes, src.width, useCache, from, k + 1, if hit then found + {k} else found);
    DrawOrFind(CacheRows(offset, rect, src.height), k, drawn, found);
  }

  lemma LoopFails(record: Cache, src: Framebuffer, dst: Framebuffer, offset: Coord, rect: Rectangle,
                  hashes: seq<nat>, useCache: bool, k: nat)
    requires FirstChunk(offset, rect, src.height) <= k < EndChunk(offset, rect, src.height)
    requires !PassableAt(record, src, dst, offset, rect, hashes, useCache, k)
    ensures !Passable(record, src, dst, offset, rect, hashes, useCache,
                      FirstChunk(offset, rect, src.height), EndChunk(offset, rect, src.height))
  {
  }

  lemma LoopEnds(was: Cache, now: Cache, src: Framebuffer, dst: Framebuffer, offset: Coord, rect: Rectangle,
                 hashes: seq<nat>, useCache: bool, k: nat, drawn: set<nat>, found: set<nat>)
    requires LoopAt(was, now, src, dst, offset, rect, hashes, useCache, k, drawn, found)
    requires k == EndChunk(offset, rect, src.height)
    ensures Passed(was, now, offset, hashes, src.width, useCache, FirstChunk(offset, rect, src.height), k, found)
    ensures Passable(was, src, dst, offset, rect, hashes, useCache, FirstChunk(offset, rect, src.height), k)
    ensures AllDrawn(offset, rect, src.height, drawn, found)
  {
    assert Looping(was, now, src, dst, offset, rect, hashes, useCache, k, drawn, found);
    ChunksOfRange(offset, rect, src.height);
    DrawnToTheEnd(offset, rect, src.height, k, drawn, found);
  }

  // ---------------------------------------------------------------- the compositor

  class FrameCompositor {
    var caches: Cache
    // The hash of the sampled pixels, whatever it is.
    const digest: seq<Pixel> -> nat

    ghost predicate Valid()
      reads this
    {
      Filed(caches)
    }

    constructor (digest: seq<Pixel> -> nat)
      ensures Valid() && caches == map[] && this.digest == digest
    {
      this.digest, caches := digest, map[];
    }

    function HashOf(buf: seq<Pixel>, width: nat, height: nat, k: nat): nat
      requires |buf| == width * height && CACHE_BLOCK_HEIGHT * k <= height
    {
      digest(Sampled(ChunkPixels(buf, width, height, k)))
    }

    /** The hashes of all chunks of a source. */
    function Hashes(src: Framebuffer): seq<nat>
      requires src.Valid()
      reads src.buffer
    {
      seq(src.height / CACHE_BLOCK_HEIGHT + 1,
          k requires 0 <= k < src.height / CACHE_BLOCK_HEIGHT + 1 && src.Valid() reads src.buffer =>
            HashOf(src.buffer[..], src.width, src.height, k))
    }

    /** Takes out the entries on the new block's grid that overlap it. */
    method Prune(added: Rectangle)
      modifies this`caches
      ensures caches == Pruned(old(caches), added)
    {
      var y := AlignedStart(added.topLeft.y);
      PruneNone(caches, added);
      while y <= added.bottomRight.y
        invariant AlignedStart(added.topLeft.y) <= y && PrunedTo(old(caches), added, y, caches)
        decreases added.bottomRight.y - y
      {
        var key := Coord(added.topLeft.x, y);
        PruneOne(old(caches), added, y, caches);
        if key in caches && OverlapsWith(caches[key].block, added) {
          caches := caches - {key};
        }
        y := y + CACHE_BLOCK_HEIGHT;
      }
      PruneAll(old(caches), added, y, caches);
    }

    /**
     Looks a chunk up; on a miss it is recorded in place of what it overlaps. Not `ok` is the division
     by zero for a source without columns.
     */
    method CheckAndCache(src: Framebuffer, offset: Coord, k: nat) returns (ok: bool, hit: bool)
      requires Valid() && src.Valid() && CACHE_BLOCK_HEIGHT * k < src.height
      modifies this`caches
      ensures Valid() && (ok <==> src.width > 0)
      ensures ok ==> LookedUp(old(caches), caches, offset, k, HashOf(src.buffer[..], src.width, src.height, k),
                              src.width, true, hit)
      ensures !ok || hit ==> caches == old(caches)
      ensures var hash := digest(Sampled(ChunkPixels(src.buffer[..], src.width, src.height, k)));
              var block := Box(Coord(offset.x, offset.y + 16 * k), src.width, Min(16, src.height - 16 * k));
              && (ok ==> (hit <==> && block.topLeft in old(caches) && old(caches)[block.topLeft].contentHash == hash
                                   && var was := old(caches)[block.topLeft].block;
                                      was.bottomRight.x - was.topLeft.x == src.width))
              && (ok && !hit ==> caches == Entered(old(caches), CacheBlock(block, hash)))
    {
      var pixels := ChunkPixels(src.buffer[..], src.width, src.height, k);
      var place, hash := Place(offset, k), digest(Sampled(pixels));
      if IsCached(caches, place, hash, src.width) {
        assert WellFiled(place, caches[place]);
        return true, true;
      }
      if src.width == 0 { return false, false; }
      ChunkHeight(src.buffer[..], src.width, src.height, k);
      var added := CacheBlock(Box(place, src.width, |pixels| / src.width), hash);
      EnterKeepsFiled(caches, added);
      forall j: nat | j != k ensures SameAt(caches, Entered(caches, added), Place(offset, j)) {
        EnterLeavesOthers(caches, added, offset, k, j);
      }
      Prune(added.block);
      caches := caches[place := added];
      return true, false;
    }

    /** One turn of the chunk loop. */
    method VisitChunk(fmt: Format, src: Framebuffer, dst: Framebuffer, offset: Coord, rect: Rectangle, useCache: bool,
                      k: nat, ghost shown: Picture, ghost drawn: set<nat>) returns (ok: bool, hit: bool)
      requires Valid() && src.Valid() && dst.Valid() && src.buffer != dst.buffer && CACHE_BLOCK_HEIGHT * k < src.height
      requires k !in drawn && dst.Shown() == InChunks(fmt, shown, src.Shown(), offset, rect, drawn)
      modifies this`caches, dst.buffer
      ensures Valid()
      ensures ok <==> PassableAt(old(caches), src, dst, offset, rect, Hashes(src), useCache, k)
      ensures ok ==> dst.Shown() == InChunks(fmt, shown, src.Shown(), offset, rect, if hit then drawn else drawn + {k})
      ensures ok ==> LookedUp(old(caches), caches, offset, k, Hashes(src)[k], src.width, useCache, hit)
    {
      hit := false;
      assert k < |Hashes(src)| && Hashes(src)[k] == HashOf(src.buffer[..], src.width, src.height, k);
      if useCache {
        ok, hit := CheckAndCache(src, offset, k);
        if !ok || hit { return; }
      }
      ok := BlendChunk(fmt, src, dst, offset, rect, k, shown, drawn);
    }

    /** The chunk loop for one source and one rectangle. */
    method CompositeChunks(fmt: Format, src: Framebuffer, dst: Framebuffer, offset: Coord, rect: Rectangle,
                           useCache: bool) returns (ok: bool, ghost found: set<nat>)
      requires Valid() && src.Valid() && dst.Valid() && src.buffer != dst.buffer
      modifies this`caches, dst.buffer
      ensures Valid()
      ensures ok <==> Passable(old(caches), src, dst, offset, rect, Hashes(src), useCache,
                               FirstChunk(offset, rect, src.height), EndChunk(offset, rect, src.height))
      ensures ok ==> dst.Shown() == CoveredExcept(fmt, old(dst.Shown()), src.Shown(), offset, rect, found)
      ensures ok ==> Passed(old(caches), caches, offset, Hashes(src), src.width, useCache,
                            FirstChunk(offset, rect, src.height), EndChunk(offset, rect, src.height), found)
    {
      ghost var shown, hashes := dst.Shown(), Hashes(src);
      ChunksOfRange(offset, rect, src.height);
      var rows := CacheRows(offset, rect, src.height);
      var k := rows.start / CACHE_BLOCK_HEIGHT;
      ghost var drawn: set<nat> := {};
      found := {};
      NoChunks(fmt, shown, src.Shown(), offset, rect);
      LoopStarts(caches, src, dst, offset, rect, hashes, useCache);
      while CACHE_BLOCK_HEIGHT * k < rows.end
        invariant Valid() && Hashes(src) == hashes
        invariant FirstChunk(offset, rect, src.height) <= k <= EndChunk(offset, rect, src.height)
        invariant dst.Shown() == InChunks(fmt, shown, src.Shown(), offset, rect, drawn)
        invariant LoopAt(old(caches), caches, src, dst, offset, rect, hashes, useCache, k, drawn, found)
      {
        ghost var mid := caches;
        LoopNext(old(caches), mid, src, dst, offset, rect, hashes, useCache, k, drawn, found);
        var hit;
        ok, hit := VisitChunk(fmt, src, dst, offset, rect, useCache, k, shown, drawn);
        if !ok {
          LoopFails(old(caches), src, dst, offset, rect, hashes, useCache, k);
          return;
        }
        LoopOn(old(caches), mid, caches, src, dst, offset, rect, hashes, useCache, k, drawn, found, hit);
        if hit { found := found + {k}; } else { drawn := drawn + {k}; }
        k := k + 1;
      }
      LoopEnds(old(caches), caches, src, dst, offset, rect, hashes, useCache, k, drawn, found);
      AllDrawnCovers(fmt, shown, src.Shown(), src.height, offset, rect, drawn, found);
      ok := true;
    }

    /**
     A bounding box: the record is used unless the box is a single pixel. The size is worked out when there
     is a chunk to look up; it fails when the product leaves 64 bits.
     */
    method CompositeBox(fmt: Format, src: Framebuffer, dst: Framebuffer, offset: Coord, rect: Rectangle)
      returns (ok: bool, ghost found: set<nat>)
      requires Valid() && src.Valid() && dst.Valid() && src.buffer != dst.buffer
      modifies this`caches, dst.buffer
      ensures Valid()
      ensures var from, to := FirstChunk(offset, rect, src.height), EndChunk(offset, rect, src.height);
              ok <==> && (from < to ==> Size(rect) < USIZE_LIMIT)
                      && Passable(old(caches), src, dst, offset, rect, Hashes(src), Size(rect) > 1, from, to)
      ensures rect.topLeft.x <= rect.bottomRight.x && Size(rect) < USIZE_LIMIT && (src.width > 0 || Size(rect) <= 1)
              ==> ok
      ensures ok ==> dst.Shown() == CoveredExcept(fmt, old(dst.Shown()), src.Shown(), offset, rect, found)
      ensures ok ==> Passed(old(caches), caches, offset, Hashes(src), src.width, Size(rect) > 1,
                            FirstChunk(offset, rect, src.height), EndChunk(offset, rect, src.height), found)
      ensures ok && (old(caches) == map[] || Size(rect) <= 1) ==>
                dst.Shown() == Covered(fmt, old(dst.Shown()), src.Shown(), offset, rect)
    {
      ghost var from, to := FirstChunk(offset, rect, src.height), EndChunk(offset, rect, src.height);
      ChunksOfRange(offset, rect, src.height);
      var rows := CacheRows(offset, rect, src.height);
      if rows.start < rows.end && Size(rect) >= USIZE_LIMIT { return false, {}; }
      if rect.topLeft.x <= rect.bottomRight.x && (src.width > 0 || Size(rect) <= 1) {
        WellFormedIsPassable(caches, src, dst, offset, rect, Hashes(src), Size(rect) > 1);
      }
      ok, found := CompositeChunks(fmt, src, dst, offset, rect, Size(rect) > 1);
      NothingRecorded(offset, Hashes(src), src.width, from, to, found);
      ColdCacheCovers(fmt, old(dst.Shown()), src.Shown(), offset, rect);
    }

    /** No bounding box: the whole source, through the record. */
    method CompositeAll(fmt: Format, src: Framebuffer, dst: Framebuffer, offset: Coord)
      returns (ok: bool, ghost found: set<nat>)
      requires Valid() && src.Valid() && dst.Valid() && src.buffer != dst.buffer
      modifies this`caches, dst.buffer
      ensures Valid()
      ensures ok <==> src.width > 0 || src.height == 0
      ensures ok ==> dst.Shown() == CoveredExcept(fmt, old(dst.Shown()), src.Shown(), offset,
                                                  Box(offset, src.width, src.height), found)
      ensures ok ==> Passed(old(caches), caches, offset, Hashes(src), src.width, true,
                            0, (src.height + 15) / CACHE_BLOCK_HEIGHT, found)
    {
      var area := Box(offset, src.width, src.height);
      assert CacheRows(offset, area, src.height) == Rows(0, src.height);
      if src.width > 0 {
        WellFormedIsPassable(caches, src, dst, offset, area, Hashes(src), true);
      } else if src.height > 0 {
        NoColumnsNotPassable(caches, src, dst, offset, area, Hashes(src), 0, EndChunk(offset, area, src.height));
      }
      ok, found := CompositeChunks(fmt, src, dst, offset, area, true);
    }
  }
}
