/** The compositor's record of which blocks of rows it has drawn where. */
module DrawnBlocks {
  import opened Arithmetic
  import opened Compositing

  const CACHE_BLOCK_HEIGHT: nat := 16
  const SAMPLE_RATE: nat := 4

  /** Where a block of rows was drawn, and the hash of its pixels. */
  datatype CacheBlock = CacheBlock(block: Rectangle, contentHash: nat)

  type Cache = map<Coord, CacheBlock>

  // ---------------------------------------------------------------- the hash looks at every fourth pixel

  function Sampled(pixels: seq<Pixel>): seq<Pixel> {
    seq((|pixels| + 3) / SAMPLE_RATE, i requires 0 <= i < (|pixels| + 3) / SAMPLE_RATE => pixels[SAMPLE_RATE * i])
  }

  /** Whatever the hash does with them, it is given the same pixels exactly when every fourth one is the same. */
  lemma SampledSame(a: seq<Pixel>, b: seq<Pixel>)
    requires |a| == |b|
    ensures Sampled(a) == Sampled(b) <==> forall i | 0 <= i < |a| && i % 4 == 0 :: a[i] == b[i]
  {
    if Sampled(a) == Sampled(b) {
      forall i | 0 <= i < |a| && i % SAMPLE_RATE == 0 ensures a[i] == b[i] {
        assert Sampled(a)[i / SAMPLE_RATE] == Sampled(b)[i / SAMPLE_RATE];
      }
    }
  }

  /** Two rows that differ, and that no hash of the sampled pixels can tell apart. */
  lemma DifferenceNotSampled(p: Pixel, q: Pixel)
    requires p != q
    ensures [p, p] != [p, q] && Sampled([p, p]) == Sampled([p, q])
  {
    SampledSame([p, p], [p, q]);
    assert [p, p][1] != [p, q][1];
  }

  // ---------------------------------------------------------------- overlap

  predicate NonEmpty(r: Rectangle) { r.topLeft.x < r.bottomRight.x && r.topLeft.y < r.bottomRight.y }

  /** One of the four corner pixels of `other` is in `r`. */
  predicate ContainsCorner(r: Rectangle, other: Rectangle) {
    var left, top := other.topLeft.x, other.topLeft.y;
    var right, bottom := other.bottomRight.x - 1, other.bottomRight.y - 1;
    || InRect(r, Coord(left, top)) || InRect(r, Coord(right, top))
    || InRect(r, Coord(left, bottom)) || InRect(r, Coord(right, bottom))
  }

  /** The corner test for overlap. */
  predicate OverlapsWith(r: Rectangle, other: Rectangle) { ContainsCorner(r, other) || ContainsCorner(other, r) }

  ghost predicate Meet(r: Rectangle, other: Rectangle) {
    exists c :: InRect(r, c) && InRect(other, c)
  }

  /** The first rectangle sticks out of the second to both sides, and lies between its top and bottom. */
  predicate Crosses(r: Rectangle, other: Rectangle) {
    && r.topLeft.x < other.topLeft.x && other.bottomRight.x < r.bottomRight.x
    && other.topLeft.y < r.topLeft.y && r.bottomRight.y < other.bottomRight.y
  }

  lemma MeetIsOverlap(r: Rectangle, other: Rectangle)
    requires NonEmpty(r) && NonEmpty(other)
    ensures Meet(r, other) <==>
            && r.topLeft.x < other.bottomRight.x && other.topLeft.x < r.bottomRight.x
            && r.topLeft.y < other.bottomRight.y && other.topLeft.y < r.bottomRight.y
  {
    var c := Coord(Max(r.topLeft.x, other.topLeft.x), Max(r.topLeft.y, other.topLeft.y));
    assert InRect(r, c) && InRect(other, c) <==>
           && r.topLeft.x < other.bottomRight.x && other.topLeft.x < r.bottomRight.x
           && r.topLeft.y < other.bottomRight.y && other.topLeft.y < r.bottomRight.y;
  }

  /** The corner test finds that two rectangles share a pixel exactly unless they cross. */
  lemma CornerTestExactly(r: Rectangle, other: Rectangle)
    requires NonEmpty(r) && NonEmpty(other)
    ensures OverlapsWith(r, other) <==> Meet(r, other) && !Crosses(r, other) && !Crosses(other, r)
  {
    MeetIsOverlap(r, other);
  }

  /** The test is only made on blocks with the same left edge, and there it is exact. */
  lemma CornerTestAtSameEdge(r: Rectangle, other: Rectangle)
    requires NonEmpty(r) && NonEmpty(other) && r.topLeft.x == other.topLeft.x
    ensures OverlapsWith(r, other) <==> Meet(r, other)
  {
    CornerTestExactly(r, other);
  }

  // ---------------------------------------------------------------- looking up and recording

  lemma MultipleOf16(q: int)
    ensures 16 * q % 16 == 0
  {
  }

  /** Rounded towards zero to a multiple of the block height: the quotient truncates. */
  function AlignedStart(y: int): (r: int)
    ensures r % CACHE_BLOCK_HEIGHT == 0 && y - CACHE_BLOCK_HEIGHT < r < y + CACHE_BLOCK_HEIGHT
    ensures if y >= 0 then 0 <= r <= y else y <= r <= 0
  {
    var quotient := if y >= 0 then y / 16 else -(-y / 16);
    MultipleOf16(quotient);
    CACHE_BLOCK_HEIGHT * quotient
  }

  /** An entry as it is filed under its top-left corner: some width, and at most sixteen rows. */
  predicate WellFiled(c: Coord, b: CacheBlock) {
    b.block.topLeft == c && NonEmpty(b.block) && b.block.bottomRight.y <= c.y + CACHE_BLOCK_HEIGHT
  }

  ghost predicate Filed(caches: Cache) {
    forall c | c in caches :: WellFiled(c, caches[c])
  }

  /** The entry at the place has this hash and width. */
  predicate IsCached(caches: Cache, place: Coord, hash: nat, width: nat) {
    && place in caches && caches[place].contentHash == hash
    && caches[place].block.bottomRight.x - caches[place].block.topLeft.x == width
  }

  /** The keys the removal loop looks at: the new block's left edge, at multiples of the block height. */
  predicate OnGrid(c: Coord, added: Rectangle) {
    && c.x == added.topLeft.x && c.y % CACHE_BLOCK_HEIGHT == 0
    && AlignedStart(added.topLeft.y) <= c.y <= added.bottomRight.y
  }

  /** The record without the entries the removal loop takes out. */
  function Pruned(caches: Cache, added: Rectangle): Cache {
    map c | c in caches && !(OnGrid(c, added) && OverlapsWith(caches[c].block, added)) :: caches[c]
  }

  predicate OnGridBelow(c: Coord, added: Rectangle, y: int) { OnGrid(c, added) && c.y < y }

  /** A key the removal loop has looked at before `y`; kept folded. */
  ghost predicate Seen(c: Coord, added: Rectangle, y: int) {
    forall z | z == y :: OnGridBelow(c, added, z)
  }

  /** The same as far as the removal loop has come. */
  ghost function PrunedBelow(caches: Cache, added: Rectangle, y: int): Cache {
    map c | c in caches && !(Seen(c, added, y) && OverlapsWith(caches[c].block, added)) :: caches[c]
  }

  /** The removal loop has come to `y`; kept folded. */
  ghost predicate PrunedTo(was: Cache, added: Rectangle, y: int, now: Cache) {
    forall z | z == y :: z % CACHE_BLOCK_HEIGHT == 0 && now == PrunedBelow(was, added, z)
  }

  lemma PruneNone(caches: Cache, added: Rectangle)
    ensures PrunedTo(caches, added, AlignedStart(added.topLeft.y), caches)
  {
    var y := AlignedStart(added.topLeft.y);
    forall c ensures !Seen(c, added, y) {
      assert Seen(c, added, y) <==> OnGridBelow(c, added, y);
    }
    assert PrunedBelow(caches, added, y) == caches;
  }

  /** The next key is the only one on the grid among the next sixteen rows. */
  lemma OneKey(added: Rectangle, y: int, c: Coord)
    requires y % CACHE_BLOCK_HEIGHT == 0 && AlignedStart(added.topLeft.y) <= y <= added.bottomRight.y
    ensures Seen(c, added, y + CACHE_BLOCK_HEIGHT) <==> Seen(c, added, y) || c == Coord(added.topLeft.x, y)
    ensures c == Coord(added.topLeft.x, y) ==> !Seen(c, added, y)
  {
    assert Seen(c, added, y) <==> OnGridBelow(c, added, y);
    var next := y + CACHE_BLOCK_HEIGHT;
    assert Seen(c, added, next) <==> OnGridBelow(c, added, next);
  }

  lemma PruneOne(was: Cache, added: Rectangle, y: int, now: Cache)
    requires PrunedTo(was, added, y, now) && AlignedStart(added.topLeft.y) <= y <= added.bottomRight.y
    ensures var key := Coord(added.topLeft.x, y);
            PrunedTo(was, added, y + CACHE_BLOCK_HEIGHT,
                     if key in now && OverlapsWith(now[key].block, added) then now - {key} else now)
  {
    assert now == PrunedBelow(was, added, y);
    var key := Coord(added.topLeft.x, y);
    var next := if key in now && OverlapsWith(now[key].block, added) then now - {key} else now;
    forall c | c in was
      ensures c in next <==> !(Seen(c, added, y + CACHE_BLOCK_HEIGHT) && OverlapsWith(was[c].block, added))
    {
      OneKey(added, y, c);
    }
    assert next == PrunedBelow(was, added, y + CACHE_BLOCK_HEIGHT);
  }

  lemma PruneAll(was: Cache, added: Rectangle, y: int, now: Cache)
    requires PrunedTo(was, added, y, now) && y > added.bottomRight.y
    ensures now == Pruned(was, added)
  {
    assert now == PrunedBelow(was, added, y);
    forall c ensures Seen(c, added, y) <==> OnGrid(c, added) {
      assert Seen(c, added, y) <==> OnGridBelow(c, added, y);
    }
  }

  /** The record after a block has been entered. */
  function Entered(caches: Cache, added: CacheBlock): Cache {
    Pruned(caches, added.block)[added.block.topLeft := added]
  }

  /**
   Which of the blocks that share a pixel with a new one it replaces: the one at its own corner, and those
   with its left edge whose top is a multiple of sixteen, but not one above it when it starts off the top of the
   screen. One filed anywhere else stays.
   */
  lemma StaleEntryStays(caches: Cache, added: CacheBlock, c: Coord)
    requires Filed(caches) && NonEmpty(added.block) && c in caches && Meet(caches[c].block, added.block)
    ensures (c in Entered(caches, added) && Entered(caches, added)[c] == caches[c]) <==>
            var corner := added.block.topLeft;
            if c == corner then caches[c] == added
            else !(c.x == corner.x && c.y % 16 == 0 && (corner.y >= 0 || c.y >= corner.y))
  {
    assert WellFiled(c, caches[c]);
    OnGridExactly(caches[c].block, added.block);
    if OnGrid(c, added.block) { CornerTestAtSameEdge(caches[c].block, added.block); }
  }

  lemma OnGridExactly(r: Rectangle, added: Rectangle)
    requires NonEmpty(r) && NonEmpty(added) && r.bottomRight.y <= r.topLeft.y + 16 && Meet(r, added)
    ensures OnGrid(r.topLeft, added) <==>
            && r.topLeft.x == added.topLeft.x && r.topLeft.y % 16 == 0
            && (added.topLeft.y >= 0 || r.topLeft.y >= added.topLeft.y)
  {
    MeetIsOverlap(r, added);
  }

  /** Everything else stays as it was, and the new block is recorded. */
  lemma EnteredElsewhere(caches: Cache, added: CacheBlock, c: Coord)
    requires Filed(caches) && NonEmpty(added.block)
    requires c in caches ==> !Meet(caches[c].block, added.block)
    ensures c != added.block.topLeft ==> SameAt(caches, Entered(caches, added), c)
    ensures added.block.topLeft in Entered(caches, added) && Entered(caches, added)[added.block.topLeft] == added
  {
    if c in caches {
      assert WellFiled(c, caches[c]);
      CornerTestExactly(caches[c].block, added.block);
    }
  }

  /** A block recorded further right is not found, although its pixels are drawn over. */
  lemma OverlapNotFound()
    ensures var was, added := CacheBlock(Box(Coord(1, 0), 2, 1), 0), CacheBlock(Box(Coord(0, 0), 2, 1), 0);
            var caches := map[Coord(1, 0) := was];
            Filed(caches) && Meet(was.block, added.block) && Coord(1, 0) in Entered(caches, added)
  {
    var c := Coord(1, 0);
    assert InRect(Box(Coord(1, 0), 2, 1), c) && InRect(Box(Coord(0, 0), 2, 1), c);
  }

  // ---------------------------------------------------------------- the chunks of one source

  /** Where chunk `k` of a source drawn at `offset` goes. */
  function Place(offset: Coord, k: nat): Coord { Coord(offset.x, offset.y + CACHE_BLOCK_HEIGHT * k) }

  /** The record says the same about this place. */
  predicate SameAt(was: Cache, now: Cache, c: Coord) {
    (c in now <==> c in was) && (c in was ==> now[c] == was[c])
  }

  /** Entering one chunk leaves what is recorded about the others. */
  lemma EnterLeavesOthers(caches: Cache, added: CacheBlock, offset: Coord, k: nat, j: nat)
    requires Filed(caches) && WellFiled(Place(offset, k), added) && j != k
    ensures SameAt(caches, Entered(caches, added), Place(offset, j))
  {
    var c := Place(offset, j);
    if c in caches {
      assert WellFiled(c, caches[c]);
      CornerTestExactly(caches[c].block, added.block);
      MeetIsOverlap(caches[c].block, added.block);
      if j < k { assert c.y + CACHE_BLOCK_HEIGHT <= Place(offset, k).y; }
      else { assert Place(offset, k).y + CACHE_BLOCK_HEIGHT <= c.y; }
    }
  }

  lemma EnterKeepsFiled(caches: Cache, added: CacheBlock)
    requires Filed(caches) && WellFiled(added.block.topLeft, added)
    ensures Filed(Entered(caches, added))
  {
  }

  /** The pixels of chunk `k`. */
  function ChunkPixels(buf: seq<Pixel>, width: nat, height: nat, k: nat): seq<Pixel>
    requires |buf| == width * height && CACHE_BLOCK_HEIGHT * k <= height
  {
    ProductMono(CACHE_BLOCK_HEIGHT * k, height, width);
    ProductMono(CACHE_BLOCK_HEIGHT * k, CACHE_BLOCK_HEIGHT * k + CACHE_BLOCK_HEIGHT, width);
    buf[CACHE_BLOCK_HEIGHT * k * width..Min((CACHE_BLOCK_HEIGHT * k + CACHE_BLOCK_HEIGHT) * width, |buf|)]
  }

  /** The pixels of a chunk are those of its rows, in order. */
  lemma ChunkExactly(buf: seq<Pixel>, width: nat, height: nat, k: nat)
    requires |buf| == width * height && 16 * k <= height
    ensures var rows, pixels := Min(16, height - 16 * k), ChunkPixels(buf, width, height, k);
            16 * k * width + rows * width <= |buf| && pixels == buf[16 * k * width..16 * k * width + rows * width]
  {
    var start, rows := CACHE_BLOCK_HEIGHT * k, Min(CACHE_BLOCK_HEIGHT, height - CACHE_BLOCK_HEIGHT * k);
    if rows == CACHE_BLOCK_HEIGHT {
      ProductMono(start + rows, height, width);
    } else {
      ProductMono(height, start + CACHE_BLOCK_HEIGHT, width);
    }
    assert (start + rows) * width == start * width + rows * width;
  }

  /** A chunk is sixteen rows, or what is left of the source. */
  lemma ChunkHeight(buf: seq<Pixel>, width: nat, height: nat, k: nat)
    requires |buf| == width * height && CACHE_BLOCK_HEIGHT * k <= height && width > 0
    ensures |ChunkPixels(buf, width, height, k)| / width == Min(CACHE_BLOCK_HEIGHT, height - CACHE_BLOCK_HEIGHT * k)
  {
    var start, rows := CACHE_BLOCK_HEIGHT * k, Min(CACHE_BLOCK_HEIGHT, height - CACHE_BLOCK_HEIGHT * k);
    if rows == CACHE_BLOCK_HEIGHT {
      ProductMono(start + rows, height, width);
    } else {
      ProductMono(height, start + CACHE_BLOCK_HEIGHT, width);
    }
    assert (start + rows) * width == start * width + rows * width;
    DivModUnique(|ChunkPixels(buf, width, height, k)|, width, rows, 0);
  }

  // ---------------------------------------------------------------- a pass over the chunks

  /** Looking one chunk up, if the record is used at all: found, or recorded now; nothing else changed. */
  ghost predicate LookedUp(was: Cache, now: Cache, offset: Coord, k: nat, hash: nat, width: nat, useCache: bool,
                           hit: bool) {
    && (hit <==> useCache && IsCached(was, Place(offset, k), hash, width))
    && (if useCache then IsCached(now, Place(offset, k), hash, width) else now == was)
    && forall j: nat | j != k :: SameAt(was, now, Place(offset, j))
  }

  /** The record has chunk `k` of a source with these hashes. */
  predicate CachedAt(record: Cache, offset: Coord, hashes: seq<nat>, width: nat, k: nat) {
    k < |hashes| && IsCached(record, Place(offset, k), hashes[k], width)
  }

  /** It has all chunks from `from` to before `to`. */
  ghost predicate AllCached(record: Cache, offset: Coord, hashes: seq<nat>, width: nat, from: nat, to: nat) {
    forall k: nat | from <= k < to :: CachedAt(record, offset, hashes, width, k)
  }

  /** The chunks found are exactly those the record had. */
  ghost predicate FoundIn(record: Cache, offset: Coord, hashes: seq<nat>, width: nat, from: nat, to: nat,
                          found: set<nat>) {
    forall k: nat :: k in found <==> from <= k < to && CachedAt(record, offset, hashes, width, k)
  }

  /** A pass over the chunks has come to `k`. */
  ghost predicate Passed(was: Cache, now: Cache, offset: Coord, hashes: seq<nat>, width: nat, useCache: bool,
                         from: nat, k: nat, found: set<nat>) {
    && (forall j: nat | j >= k :: SameAt(was, now, Place(offset, j)))
    && (if useCache
        then AllCached(now, offset, hashes, width, from, k) && FoundIn(was, offset, hashes, width, from, k, found)
        else now == was && found == {})
  }

  /** The same, kept folded. */
  ghost predicate PassedTo(was: Cache, now: Cache, offset: Coord, hashes: seq<nat>, width: nat, useCache: bool,
                           from: nat, k: nat, found: set<nat>) {
    forall d: nat | d == k :: Passed(was, now, offset, hashes, width, useCache, from, d, found)
  }

  lemma PassStarts(was: Cache, offset: Coord, hashes: seq<nat>, width: nat, useCache: bool, from: nat)
    ensures PassedTo(was, was, offset, hashes, width, useCache, from, from, {})
  {
  }

  lemma PassOn(was: Cache, mid: Cache, now: Cache, offset: Coord, hashes: seq<nat>, width: nat, useCache: bool,
               from: nat, k: nat, found: set<nat>, hit: bool)
    requires PassedTo(was, mid, offset, hashes, width, useCache, from, k, found) && from <= k < |hashes|
    requires LookedUp(mid, now, offset, k, hashes[k], width, useCache, hit)
    ensures PassedTo(was, now, offset, hashes, width, useCache, from, k + 1, if hit then found + {k} else found)
  {
    assert Passed(was, mid, offset, hashes, width, useCache, from, k, found);
    assert SameAt(was, mid, Place(offset, k));
    forall j: nat | j >= k + 1 ensures SameAt(was, now, Place(offset, j)) {
      assert SameAt(was, mid, Place(offset, j)) && SameAt(mid, now, Place(offset, j));
    }
    if useCache {
      forall j: nat | from <= j < k + 1 ensures CachedAt(now, offset, hashes, width, j) {
        if j < k { assert CachedAt(mid, offset, hashes, width, j) && SameAt(mid, now, Place(offset, j)); }
      }
    }
  }

  lemma PassEnds(was: Cache, now: Cache, offset: Coord, hashes: seq<nat>, width: nat, useCache: bool,
                 from: nat, k: nat, found: set<nat>)
    requires PassedTo(was, now, offset, hashes, width, useCache, from, k, found)
    ensures Passed(was, now, offset, hashes, width, useCache, from, k, found)
  {
  }

  /** The chunk that comes next is in the record exactly if it was at the start. */
  lemma NextAsAtStart(was: Cache, now: Cache, offset: Coord, hashes: seq<nat>, width: nat, useCache: bool,
                      from: nat, k: nat, found: set<nat>)
    requires PassedTo(was, now, offset, hashes, width, useCache, from, k, found)
    ensures CachedAt(now, offset, hashes, width, k) <==> CachedAt(was, offset, hashes, width, k)
  {
    assert Passed(was, now, offset, hashes, width, useCache, from, k, found);
    assert SameAt(was, now, Place(offset, k));
  }

  lemma AllCachedAt(record: Cache, offset: Coord, hashes: seq<nat>, width: nat, from: nat, to: nat, k: nat)
    requires AllCached(record, offset, hashes, width, from, to) && from <= k < to
    ensures CachedAt(record, offset, hashes, width, k)
  {
  }
}
