# A verified model of the kernel and shell core

This project models, in Dafny 4.11, the parts of the operating system whose behaviour is hardest to see from
any one function, and proves what they promise: the write-back block cache, the block allocator with its
intrusive free lists, the C library's memory and token routines, the framebuffer compositor, percent
encoding, the shell's matcher, tokenizer, history and job table, ATA programmed I/O, and the UEFI memory map.
`dafny verify dfyconfig.toml` checks all of it.

How it is put together:

- Code that updates state is modelled by classes, arrays and loops. Each such method is tied to a
  specification function, and what the code promises is proved about that function.
- The block cache, the block allocator and the job table are also transition systems over the generic runs of
  `Runs.dfy`. What is nondeterministic is written into the actions (a device that fails, the address the
  fallback heap picks, which tasks have exited), so a statement about every legal run is about every
  behaviour. The cache and allocator classes carry a ghost log of their actions. Their invariant says that the
  log is a legal run from an empty start that ends in the present state, so every theorem about runs holds of
  the objects.
- `BlockCacheRuns`/`BlockCache`, `BlockAllocatorRuns`/`BlockAllocator` and `JobRuns`/`Jobs` are pairs of
  transition system and code. `Compositing`/`Compositor`, `DrawnBlocks`/`FrameCompositor`, `CommandLines`/`Tokenizer`
  and `AtaDevice`/`Ata` are pairs of meaning and code.
- The storage device, the fallback heap and the ATA bus keep a ghost count of the calls they refused or the errors
  they reported. An operation on them is proved to fail exactly when one of them did.
- What a specification function means is stated once more in plain terms, by a lemma whose name ends in `Exactly`.

What became a parameter or a free choice: whether a storage-device call succeeds and what a failed write
leaves in its block; the fallback heap's answer; client writes into live allocations; the hash the
compositor takes of the pixels it samples; the status the ATA device reports at each poll; task ids, exit
and block states, and the result of unblocking a task. Hash order in the cache is left open: the loops take
the entries in any order.

Integers are unbounded except where the width matters: bytes, pixel channels, the ATA registers and the
truncating casts that fill them are written out. In the compositor an unsigned subtraction or product that
leaves its range is a failure of the call, as in a build with overflow checks. Bit patterns whose parts do not overlap are added instead of
or-ed. C memory is one byte array and pointers are indices into it.

Where the model settles something the documentation leaves open or says differently:

- The comment on the cache's eviction says invalid entries go first. The code takes the least recently used
  entry that is not modified, and the model follows the code. `BlockCacheRuns.InvalidVictim` states exactly when
  an invalid entry goes, and `BlockCacheRuns.SharedGoesBeforeInvalid` gives a run after which a shared one does.
- `read_block` stamps an entry with the same tick twice. The second stamp changes nothing and is not repeated.
- The row-at-a-time blend equals the per-pixel blend except where a fully transparent source pixel falls on a
  destination pixel that is not fully transparent. There the row routine skips the pixel and the single-pixel
  blend sets its alpha to 255. `Compositing.FastIsSlow` states the exact condition.
- A job leaves the table with its queues at end of file exactly if it had a task or its input had been ended.
  A command line can come to no task at all: typing `'""'` leaves `""` after the first pass, which has no token
  in the second. `JobRuns.TasklessJobLeavesOpen` gives that case.
- The ATA driver checks only that the offset is not beyond the size. An offset equal to the size passes, and
  the end of the transfer is not checked. `Ata.AtaDrive.AcceptsPastTheEnd` gives the request that reaches the
  sector past the end, and `Ata.AtaDrive.AcceptedStaysInside` states exactly which accepted requests stay inside.
- The compositor's record of drawn blocks is said to drop every old block that a new one overlaps. The code looks
  only at multiples of sixteen rows along the new block's left edge, and rounds the first of them towards zero, so it
  passes over a block above one that starts off the top of the screen. `DrawnBlocks.StaleEntryStays` states exactly
  which of the blocks that share a pixel with the new one stay, and `DrawnBlocks.OverlapNotFound` gives one. The
  corner test would miss blocks that cross, but it is only made on blocks with the same left edge, where
  `DrawnBlocks.CornerTestAtSameEdge` shows it exact.
- A pass over a bounding box records whole chunks of sixteen rows although only the box was drawn, so a pass over
  another box in those chunks draws nothing (`FrameCompositor.LaterBoxDrawsNothing`).
  `FrameCompositor.RightHalfNeverDrawn` gives two boxes of which the second is never drawn, and
  `FrameCompositor.SkippingIsHarmless` states exactly when skipping leaves the screen as drawing would.
- A block with the recorded hash and width is taken to be the recorded one. The hash sees every fourth pixel:
  `DrawnBlocks.SampledSame` states exactly what it can tell apart, `DrawnBlocks.DifferenceNotSampled` gives two
  rows it cannot.
- Looking up a source without columns divides by zero. `FrameCompositor.FrameCompositor.CompositeAll` fails
  exactly for a source that has rows and no columns.

## Model

| member | source | states |
|---|---|---|
| `BlockCacheRuns.RunKeepsInv` | kernel/block_cache/src/lib.rs:124-308 | in every run: clean entries equal the device, ticks are pairwise distinct and at most the clock, and the entry count is at most max(capacity, 1) |
| `BlockCacheRuns.RunContents` | kernel/block_cache/src/lib.rs:124-308 | in every run, with device faults at any point, the cache's logical contents are those of a plain block array that saw only the accepted writes and the discards |
| `BlockCacheRuns.EveryReadAgrees` | kernel/block_cache/src/lib.rs:124-157 | every successful read of a run delivers what the plain block array held at that moment |
| `BlockCacheRuns.LastWriteWins` | kernel/block_cache/src/lib.rs:124-187 | without discards, a block's contents are its last accepted write, else what it held at the start |
| `BlockCacheRuns.CleanCacheIsTheDevice` | kernel/block_cache/src/lib.rs:199-226 | with no modified entry the device holds exactly the logical contents |
| `BlockCacheRuns.TicksOrderAccesses` | kernel/block_cache/src/lib.rs:125-154 | in every run the order of two entries' ticks is the order of their last accesses |
| `BlockCacheRuns.EvictsLeastRecentlyUsed` | kernel/block_cache/src/lib.rs:283-292 | every eviction of a run takes the one clean entry accessed least recently, so hash order cannot matter |
| `BlockCache.ReclaimsLeastRecentlyUsed` | kernel/block_cache/src/lib.rs:281-308 | in every run a freed line was accessed before every other clean line, or, when no line was clean, before every other line of the cache |
| `BlockCacheRuns.InvalidVictim` | kernel/block_cache/src/lib.rs:275-287 | the victim is an invalid line if and only if some invalid line is older than every shared one |
| `BlockCacheRuns.SharedGoesBeforeInvalid` | kernel/block_cache/src/lib.rs:275-292 | a run after which a shared line is evicted and an invalid one stays |
| `BlockCacheRuns.StatisticsBalance` | kernel/block_cache/src/lib.rs:236-248 | in every run the hits are the reads served from the cache and the misses those served from the device; dirty entries + dirty flushes + writes merged into a dirty entry or discarded = writes accepted; entries + evictions + cleared = insertions |
| `BlockCacheRuns.StoredThenImage` | kernel/block_cache/src/lib.rs:342-364 | storing a buffer block by block and reading the range back gives the buffer |
| `BlockCacheRuns.StoredElsewhere` | kernel/block_cache/src/lib.rs:355-364 | storing a buffer leaves every block outside its range as it was |
| `BlockCacheRuns.FilledIsImage` | kernel/block_cache/src/lib.rs:342-351 | the buffer a range read fills is the blocks' bytes followed by the buffer's old tail |
| `BlockCache.BlockCache.constructor` | kernel/block_cache/src/lib.rs:106-117 | a new cache stands at the start of a legal run |
| `BlockCache.BlockCache.LifeIsARun` | kernel/block_cache/src/lib.rs:124-308 | the object's contents and counters are those of its run |
| `BlockCache.BlockCache.FindVictim` | kernel/block_cache/src/lib.rs:281-304 | the least tick among the entries, or among those not modified; none only if there is none |
| `BlockCache.BlockCache.FlushBlock` | kernel/block_cache/src/lib.rs:199-213 | writes back just that block and only if it is modified, and marks it shared; never changes the logical contents; fails exactly when the device refuses the write |
| `BlockCache.BlockCache.FlushAll` | kernel/block_cache/src/lib.rs:214-226 | a full flush never changes the logical contents, even when a device write fails midway; if it succeeds every modified line is shared and the device equals the logical contents; it fails exactly when the device refuses a write |
| `BlockCache.BlockCache.EvictOne` | kernel/block_cache/src/lib.rs:281-308 | the oldest clean line goes; with none, every line is flushed first and the oldest of all goes; the logical contents never change; if it succeeds there is room; nothing is restamped; it fails exactly when the device refuses a write |
| `BlockCache.BlockCache.LoadFromDevice` | kernel/block_cache/src/lib.rs:253-273 | loading a block keeps the logical contents and leaves the block's logical bytes in the cache; it fails exactly when the device refuses a call |
| `BlockCache.BlockCache.ReadBlock` | kernel/block_cache/src/lib.rs:124-157 | a read returns the logical contents of the block, and fails exactly when the device refuses a call; it is a hit exactly if the block was cached and not invalidated; a line is evicted only with the cache full and the block absent, and the device changes only if then every line was modified; failed or not, the contents stay |
| `BlockCache.ReadCallEffect` | kernel/block_cache/src/lib.rs:124-157 | what a read call does to tick, counters, lines and device, in every run |
| `BlockCache.BlockCache.WriteBlock` | kernel/block_cache/src/lib.rs:162-187 | a successful write changes just that block, which is then the newest line, modified; a failed one changes nothing; the size check is exact, and any other failure is a write the device refused; nothing reaches the device unless the cache is full of modified lines |
| `BlockCache.WriteCallEffect` | kernel/block_cache/src/lib.rs:162-187 | the same for a write call |
| `BlockCache.BlockCache.Invalidate` | kernel/block_cache/src/lib.rs:190-194 | marks the line invalid whatever its state; that discards a modified block's unsaved bytes and otherwise changes no contents |
| `BlockCache.BlockCache.FlushAndClear` | kernel/block_cache/src/lib.rs:229-233 | if it succeeds the cache is empty and the device holds the contents; it fails exactly when the device refuses a write, and then no entry is lost |
| `BlockCache.BlockCache.Stats` | kernel/block_cache/src/lib.rs:236-248 | the hits and misses, which are the reads served from the cache and from the device; the hit rate in whole per cent, rounded down, 100 exactly if nothing missed; the other counters, the entry count and the number of modified entries |
| `BlockCache.BlockCache.ReadBlocks` | kernel/block_cache/src/lib.rs:342-351 | fills the buffer with the logical contents of the whole blocks it has room for, up to the first call the device refuses |
| `BlockCache.BlockCache.WriteBlocks` | kernel/block_cache/src/lib.rs:355-364 | stores the buffer's whole blocks in order, up to the first call the device refuses |
| `BlockAllocatorRuns.ClassExactly` | kernel/block_allocator/src/lib.rs:32-40 | the class is i if and only if block i is at least the size and the alignment and no smaller block is; there is none if and only if either is above 2048 |
| `BlockAllocatorRuns.RunKeepsInv` | kernel/block_allocator/src/lib.rs:86-133 | in every run by a client that frees each live pointer once with its own layout: regions are apart and fit their owners, and each free list is its chain in memory |
| `BlockAllocatorRuns.AllocationsStayApart` | kernel/block_allocator/src/lib.rs:86-133 | in every run live allocations and free-list blocks are pairwise disjoint |
| `BlockAllocatorRuns.EveryAllocationIsNew` | kernel/block_allocator/src/lib.rs:86-106 | in every run a pointer handed out, recycled or carved, was held by nobody, and lies apart from every allocation live before, which all stay |
| `BlockAllocatorRuns.ClientDataSurvives` | kernel/block_allocator/src/lib.rs:86-133 | in every run a word of a live allocation keeps its value until a client writes it: storing list nodes never touches clients' data |
| `BlockAllocatorRuns.RegionsAreLiveOrFree` | kernel/block_allocator/src/lib.rs:86-133 | in every run the regions held from the fallback heap are exactly the live ones and those in the free lists |
| `BlockAllocatorRuns.EveryPointerFits` | kernel/block_allocator/src/lib.rs:32-40 | in every run each live pointer, recycled from another layout or not, is non-null, aligned as asked and backed by enough bytes |
| `BlockAllocatorRuns.FreeListsAreFinite` | kernel/block_allocator/src/lib.rs:42-44 | in every run following the next pointers stored in freed memory visits each block of the list once and ends at null |
| `BlockAllocatorRuns.ClientWritesLeaveLists` | kernel/block_allocator/src/lib.rs:86-133 | no client write inside a live allocation changes any free list |
| `BlockAllocatorRuns.PopNeedsOnlyAHead` | kernel/block_allocator/src/lib.rs:86-106 | a block can be recycled exactly when it is the head of the layout's list and not null |
| `BlockAllocatorRuns.PushThenPop` | kernel/block_allocator/src/lib.rs:86-133 | freeing a block and allocating in the same class returns that block and restores every list |
| `BlockAllocator.ListIndex` | kernel/block_allocator/src/lib.rs:37-40 | the search loop finds the first block at least the size and the alignment; none exactly if either is above 2048 |
| `BlockAllocator.FixedSizeBlockAllocator.constructor` | kernel/block_allocator/src/lib.rs:54-61 | a new allocator stands at the start of a legal run |
| `BlockAllocator.FixedSizeBlockAllocator.TakeFirst` | kernel/block_allocator/src/lib.rs:90-95 | the head leaves its list, the next-pointer it held becomes the head, and it is the pointer handed out |
| `BlockAllocator.FixedSizeBlockAllocator.FallbackAlloc` | kernel/block_allocator/src/lib.rs:73-78 | the heap's answer, null exactly when the heap refuses; the pointer is new to the allocator and live for the layout |
| `BlockAllocator.FixedSizeBlockAllocator.Allocate` | kernel/block_allocator/src/lib.rs:86-106 | hands out the head of the class's list exactly when there is one, and then does not ask the heap; else asks it for a block of the class's size and alignment, or for the layout itself; null exactly when the heap refuses; nobody held the pointer before, and it is live and aligned |
| `BlockAllocator.FixedSizeBlockAllocator.Deallocate` | kernel/block_allocator/src/lib.rs:115-133 | the block becomes the head of its class's list with the old head as its next-pointer, or goes back to the heap if it has no class |
| `CMemory.LoadStore` | tlibc/src/string.rs:76-87 | storing a loaded word gives back its bytes |
| `CMemory.Memmove` | tlibc/src/string.rs:90-107 | for every overlap the destination gets the source's original bytes and nothing else changes |
| `CMemory.Memcpy` | tlibc/src/string.rs:76-87 | the word-then-tail copy equals the byte copy for every length |
| `CMemory.CompareMeaning` | tlibc/src/string.rs:44-73 | the comparison is zero exactly for equal strings, else the difference at the first byte that differs |
| `CMemory.CompareWords` | tlibc/src/string.rs:48-58 | two different words differ in some byte, so the loop over their bytes always returns |
| `CMemory.Memcmp` | tlibc/src/string.rs:44-73 | the word-then-tail comparison equals the byte comparison for every length |
| `CTokens.StopIsFirst` | tlibc/src/string.rs:172-197 | the stop is the first byte that is NUL or not of the wanted sort |
| `CTokens.MembersExactly` | tlibc/src/string.rs:182-185 | the set holds exactly the bytes of the delimiter string |
| `CTokens.InnerStrspn` | tlibc/src/string.rs:172-197 | the bitmap scan finds the stop |
| `CTokens.Strspn` | tlibc/src/string.rs:377-379 | the length of the longest start of the string made of bytes of the other string |
| `CTokens.Strcspn` | tlibc/src/string.rs:200-202 | the length of the longest start of the string without a byte of the other string |
| `CTokens.Strpbrk` | tlibc/src/string.rs:342-349 | the first byte of the string that is in the other string; null exactly if there is none |
| `CTokens.SpansAreRuns` | tlibc/src/string.rs:421-454 | the expected tokens are maximal delimiter-free runs, in order |
| `CTokens.EveryRunIsASpan` | tlibc/src/string.rs:421-454 | every maximal delimiter-free run of the string is one of the expected tokens |
| `CTokens.TokensExactly` | tlibc/src/string.rs:421-454 | the expected tokens are exactly the longest runs of the string without a byte of the delimiter string |
| `CTokens.StrtokR` | tlibc/src/string.rs:421-454 | one call: the next token, where to go on, and the one byte overwritten; null for ever once exhausted |
| `CTokens.TokenCallExactly` | tlibc/src/string.rs:421-454 | one call in the bytes of the two strings: what is skipped, what the token is, where it is cut and where the next call goes on |
| `CTokens.TokenizeAll` | tlibc/src/string.rs:421-454 | calling until null terminates and returns, in order, exactly the starts of the longest runs without a byte of the delimiter string; a byte changes, to NUL, exactly where such a run ends |
| `CTokens.TokensReadBack` | tlibc/src/string.rs:421-454 | afterwards each token reads as its run of the original string |
| `CTokens.OnlyDelimitersAreCut` | tlibc/src/string.rs:421-454 | every byte overwritten was a delimiter that ended a token |
| `Compositing.MixBounded` | kernel/framebuffer/src/pixel.rs:116-118 | the weighted sum of a channel fits sixteen bits |
| `Compositing.MixExactly` | kernel/framebuffer/src/pixel.rs:116-118 | the mixed channel is the mean of both weighted by the transparency, rounded down, for every transparency |
| `Compositing.BlendExactly` | kernel/framebuffer/src/pixel.rs:106-126 | each channel is that mean of the same channel of both pixels, the new pixel's transparency stays, and plain colours replace |
| `Compositing.OverExactly` | kernel/framebuffer/src/pixel.rs:82-104 | the row routine: opaque replaces, fully transparent leaves, any other transparency blends |
| `Compositing.MixExtremes` | kernel/framebuffer/src/pixel.rs:106-126 | alpha 0 gives the front channel, alpha 255 the back channel |
| `Compositing.OverIsBlend` | kernel/framebuffer/src/pixel.rs:82-126 | the row routine's effect on a pixel equals the single-pixel blend except for a fully transparent source on another destination |
| `Compositing.RowReplaced` | kernel/framebuffer/src/lib.rs:157-161 | replacing a stretch of the row-major buffer replaces just that stretch of one row of the picture |
| `Compositing.PictureAt` | kernel/framebuffer/src/lib.rs:195-213 | the buffer is the picture row by row from the top |
| `Compositing.CoveredAt` | kernel/compositor/src/lib.rs:131-198 | the source pixel (x, y) goes over the destination pixel at the offset plus (x, y), if the rectangle has that, and no other pixel changes |
| `Compositing.RegionExactly` | kernel/compositor/src/lib.rs:141-142 | the part of a rectangle drawn is its coordinates whose source row is in the row range |
| `Compositing.FastIsSlow` | kernel/compositor/src/lib.rs:105-198 | covering a rectangle equals blending each of its coordinates once, in any order, if and only if no fully transparent source pixel falls on another destination pixel |
| `Compositing.FastDiffersFromSlow` | kernel/framebuffer/src/pixel.rs:82-126 | a pixel on which the two differ |
| `Compositor.ClipNeverUnderflows` | kernel/compositor/src/lib.rs:138-176 | a rectangle that is not inside out and meets the row range never underflows, for any offset |
| `Compositor.UnderflowExactly` | kernel/compositor/src/lib.rs:138-176 | exactly when the unsigned subtractions underflow |
| `Compositor.ClipIsExact` | kernel/compositor/src/lib.rs:138-176 | the clipped block is exactly the region's coordinates that both framebuffers have |
| `Compositor.BlockFits` | kernel/compositor/src/lib.rs:169-194 | every slice taken for the block is in range in both framebuffers |
| `Compositor.CompositeAlpha` | kernel/framebuffer/src/pixel.rs:82-104 | the run-copying loop applies the row routine's effect to each pixel of the row and touches no other |
| `Compositor.CompositeRgb` | kernel/framebuffer/src/pixel.rs:40-42 | the copy does the same for plain colours |
| `Compositor.Framebuffer.IndexOf` | kernel/framebuffer/src/lib.rs:195-213 | an index exactly for the coordinates inside, and it is in range |
| `Compositor.BlendCoord` | kernel/compositor/src/lib.rs:105-117 | the picture with the one coordinate blended, or unchanged when either framebuffer lacks it |
| `Compositor.BlendRectangle` | kernel/compositor/src/lib.rs:131-198 | without underflow the destination is the old picture covered on exactly the rectangle's part in the row range |
| `FrameCompositor.CacheRowsExact` | kernel/framebuffer_compositor/src/lib.rs:182-205 | a chunk is in the widened row range exactly when one of its rows is a row of the box |
| `FrameCompositor.ChunksMeet` | kernel/framebuffer_compositor/src/lib.rs:252-273 | no chunk of the loop leaves a gap to the box |
| `DrawnBlocks.SampledSame` | kernel/framebuffer_compositor/src/lib.rs:282-304 | the hash is given the same pixels if and only if every fourth pixel is the same |
| `DrawnBlocks.DifferenceNotSampled` | kernel/framebuffer_compositor/src/lib.rs:282-304 | two different rows it cannot tell apart |
| `DrawnBlocks.CornerTestExactly` | kernel/framebuffer_compositor/src/lib.rs:60-80 | the corner test finds that two blocks share a pixel if and only if neither crosses the other |
| `DrawnBlocks.CornerTestAtSameEdge` | kernel/framebuffer_compositor/src/lib.rs:159-165 | on two blocks with the same left edge, as at its only call, the corner test is exact |
| `DrawnBlocks.StaleEntryStays` | kernel/framebuffer_compositor/src/lib.rs:149-169 | of the entries that share a pixel with the new block, the one at its corner is replaced, and another goes if and only if it has the same left edge, starts at a multiple of sixteen rows, and, if the new block starts at a negative row, not above it |
| `DrawnBlocks.EnteredElsewhere` | kernel/framebuffer_compositor/src/lib.rs:149-169 | every entry that shares no pixel with the new block stays as it was, and the new block is recorded |
| `DrawnBlocks.OverlapNotFound` | kernel/framebuffer_compositor/src/lib.rs:149-169 | an overlapped block that stays |
| `DrawnBlocks.EnterLeavesOthers` | kernel/framebuffer_compositor/src/lib.rs:149-169 | recording one chunk of a source leaves what is recorded about its other chunks |
| `DrawnBlocks.ChunkExactly` | kernel/framebuffer_compositor/src/lib.rs:122-132 | the pixels of a chunk are those of its sixteen rows, or of the rows left, in order |
| `DrawnBlocks.ChunkHeight` | kernel/framebuffer_compositor/src/lib.rs:122-147 | the rows recorded for a chunk are sixteen, or what is left of the source |
| `FrameCompositor.FrameCompositor.Prune` | kernel/framebuffer_compositor/src/lib.rs:156-167 | the loop takes out exactly the overlapping entries on the new block's grid |
| `FrameCompositor.FrameCompositor.CheckAndCache` | kernel/framebuffer_compositor/src/lib.rs:96-172 | a hit exactly if the place has an entry with the hash of the chunk's sampled pixels and the source's width; on a miss exactly the chunk's block with that hash is entered; it fails exactly for a source without columns |
| `FrameCompositor.FrameCompositor.CompositeChunks` | kernel/framebuffer_compositor/src/lib.rs:252-273 | the box is covered, each pixel once, except in the chunks the record had before the call; afterwards it has them all; it fails if and only if a source without columns is looked up or the blend of a chunk the record did not have underflows |
| `FrameCompositor.SizeExactly` | kernel/compositor/src/lib.rs:126-129 | the size is the product of the two extents, a negative one taken modulo 2^64 |
| `FrameCompositor.FrameCompositor.CompositeBox` | kernel/framebuffer_compositor/src/lib.rs:244-275 | the same for a bounding box; a single pixel bypasses the record; with an empty record the whole box is covered; it also fails if there is a chunk to visit and the box's size leaves 64 bits, and in no other case; a box that is not inside out in x and whose size fits cannot fail on a source with columns |
| `FrameCompositor.FrameCompositor.CompositeAll` | kernel/framebuffer_compositor/src/lib.rs:216-242 | the same for the whole source; it fails exactly for a source with rows and no columns |
| `FrameCompositor.LaterBoxDrawsNothing` | kernel/framebuffer_compositor/src/lib.rs:244-275 | after a pass over one box of a source, a pass over the same or any other box in the same chunks draws nothing |
| `FrameCompositor.SkippingIsHarmless` | kernel/framebuffer_compositor/src/lib.rs:260-263 | skipping the chunks found gives the same screen as drawing the whole box if and only if every pixel of those chunks in the box is shown already |
| `FrameCompositor.RightHalfNeverDrawn` | kernel/framebuffer_compositor/src/lib.rs:244-275 | a row of four pixels drawn as two boxes: the second pass changes nothing although its pixels differ |
| `PercentEncoding.TheSets` | libs/percent_encoding/lib.rs:118-168 | all five sets hold every non-ASCII byte and no hexadecimal digit, and only the path-segment set holds the percent sign |
| `PercentEncoding.StandsForItself` | libs/percent_encoding/lib.rs:118-168 | for each of the five sets, a byte stands for itself if and only if it is printable ASCII and not one of the characters that set names |
| `PercentEncoding.EncodeByte` | libs/percent_encoding/lib.rs:182-202 | three bytes that decode to the byte |
| `PercentEncoding.EncodeByteExactly` | libs/percent_encoding/lib.rs:182-202 | an escape is the percent sign and two upper-case hexadecimal digits |
| `PercentEncoding.DigitExactly` | libs/percent_encoding/lib.rs:347-350 | which characters are hexadecimal digits, of either case, and their values |
| `PercentEncoding.EncodeAppend` | libs/percent_encoding/lib.rs:257-281 | the encoding of two strings in a row is their encodings in a row |
| `PercentEncoding.EncodingIsPlain` | libs/percent_encoding/lib.rs:257-281 | in an encoding every byte stands for itself, except percent signs that start an escape |
| `PercentEncoding.DecodeEncode` | libs/percent_encoding/lib.rs:257-369 | decoding the encoding gives the input if the set has the percent sign, else the decoded input |
| `PercentEncoding.DecodeChanges` | libs/percent_encoding/lib.rs:347-369 | decoding changes a string exactly when it has a percent sign followed by two hexadecimal digits |
| `PercentEncoding.RoundTrip` | libs/percent_encoding/lib.rs:118-168 | encode-then-decode is the identity on every string for the path-segment set, and for the other four exactly on strings without an escape |
| `PercentEncoding.PercentEncode.Next` | libs/percent_encoding/lib.rs:257-281 | each chunk is one escape or the longest run that stands for itself, is ASCII, and starts the encoding of what is left |
| `PercentEncoding.PercentEncode.Collect` | libs/percent_encoding/lib.rs:292-299 | the chunks in order are the encoding |
| `PercentEncoding.PercentEncode.Into` | libs/percent_encoding/lib.rs:301-317 | the encoding; borrowed exactly when there is at most one chunk |
| `PercentEncoding.PercentDecode.AfterPercentSign` | libs/percent_encoding/lib.rs:347-357 | the byte of the escape, or nothing and the iterator backed up |
| `PercentEncoding.PercentDecode.Next` | libs/percent_encoding/lib.rs:359-371 | each byte starts the decoding of what is left |
| `PercentEncoding.PercentDecode.Collect` | libs/percent_encoding/lib.rs:359-371 | the iterator yields the decoding |
| `PercentEncoding.IfAny` | libs/percent_encoding/lib.rs:389-406 | nothing exactly when decoding changes nothing, else the decoding |
| `Glob.SplitMatch` | applications/shell/src/lib.rs:914-939 | a match of two patterns in a row splits the name between them |
| `Glob.JoinMatch` | applications/shell/src/lib.rs:914-939 | and the converse |
| `Glob.MatchesExactly` | applications/shell/src/lib.rs:914-939 | a pattern matches a name if and only if the name falls into one piece for each character of the pattern: any text for a star, one character for a question mark, else that character |
| `Glob.LastCharacter` | applications/shell/src/lib.rs:925-933 | the meaning of a pattern read from its last character, which is the recurrence of the table |
| `Glob.FillRow` | applications/shell/src/lib.rs:924-934 | one row of the table from the row above |
| `Glob.GlobMatch` | applications/shell/src/lib.rs:915-939 | the two swapped rows decide the recursive definition for all patterns and names |
| `Find.SimpleMatchExactly` | applications/find/src/lib.rs:110-127 | the program's matcher accepts exactly the names that are the pattern's text with any text in place of a star at either end |
| `Find.AgreeOnLiteralCore` | applications/find/src/lib.rs:110-127 | the two matchers agree on every name if no wildcard is left after taking a star off each end |
| `Find.DifferOnWildcardCore` | applications/find/src/lib.rs:110-127 | else a name on which they differ |
| `Find.AgreeExactly` | applications/find/src/lib.rs:110-127 | the matchers agree on all names if and only if the pattern has no question mark and a star only first or last |
| `Tokenizer.ReadDouble` | applications/shell/src/lib.rs:778-797 | the look-ahead loop does what the automaton without look-ahead does |
| `Tokenizer.ReadSingle` | applications/shell/src/lib.rs:798-807 | everything up to the closing quote is literal |
| `Tokenizer.TokenizeCmdline` | applications/shell/src/lib.rs:771-819 | the nested loops compute the tokens of the automaton |
| `CommandLines.LineReads` | applications/shell/src/lib.rs:769-819 | the tokens of a line written in blanks, bare characters, quoted parts and perhaps an open quote are the texts between its blanks, without the empty ones |
| `CommandLines.EveryLine` | applications/shell/src/lib.rs:769-819 | every line can be written so: its tokens are always those texts, with unclosed quotes, tabs and stray backslashes |
| `Tokenizer.TokenizeWritten` | applications/shell/src/lib.rs:769-819 | words written in any mix of bare, single-quoted and double-quoted parts come back as their texts, empty ones dropped |
| `Tokenizer.QuoteRoundTrip` | applications/shell/src/lib.rs:769-819 | double-quoting, joining and tokenizing gives the list without its empty strings, so the list itself exactly if it has none |
| `Tokenizer.NoEmptyTokens` | applications/shell/src/lib.rs:808-817 | no token is empty |
| `History.Shell.GotoPreviousCommand` | applications/shell/src/lib.rs:399-417 | Up keeps the walk's invariant: what is shown is the entry that far back, and only a non-empty draft is recorded |
| `History.Shell.GotoNextCommand` | applications/shell/src/lib.rs:420-438 | Down keeps it, and at the prompt the recorded draft is gone from the history again |
| `History.Shell.Walk` | applications/shell/src/lib.rs:399-438 | after any keys the index is in range and the entry that far back is shown, with only a non-empty draft recorded, and back at the prompt history and draft are as at the start |
| `History.DownsReturn` | applications/shell/src/lib.rs:420-438 | enough Downs after any keys lead back to the prompt, and no fewer |
| `JobRuns.RunKeepsInv` | applications/shell/src/lib.rs:1044-1137 | in every run the map from tasks to jobs is exactly the inverse of the jobs' task lists, a set foreground names an existing job, and N tasks have N + 1 pipe queues and N error queues |
| `JobRuns.NewestNumber` | applications/shell/src/lib.rs:1120-1136 | in every run a new job gets the smallest positive number no job has |
| `JobRuns.CreateExactly` | applications/shell/src/lib.rs:1044-1137 | a new job: the smallest free number, which queues are at end of file, the task map and the foreground |
| `JobRuns.ForegroundExactly` | applications/shell/src/lib.rs:1899-1925 | `fg` brings the job to the foreground and leaves it stopped exactly if its last task could not be unblocked; an unknown number changes nothing |
| `JobRuns.EndInputExactly` | applications/shell/src/lib.rs:527-535 | Ctrl+D brings the first queue of the foreground job, and nothing else, to end of file |
| `JobRuns.PollJobExactly` | applications/shell/src/lib.rs:1398-1512 | a job stays if and only if a task has not exited; a pipe queue is at end of file after the handler if and only if it was or a task next to it has exited, an error queue likewise; the job is stopped if and only if it was or a task is blocked |
| `JobRuns.PollRestExactly` | applications/shell/src/lib.rs:1398-1582 | a job keeps the foreground if and only if it stays and has not just stopped; the map keeps exactly the tasks of the jobs that stay |
| `JobRuns.EofExactly` | applications/shell/src/lib.rs:1044-1582 | in every run a pipe queue is at end of file if and only if, since its job was created, the job was created with its input ended, Ctrl+D was typed while it was in the foreground (both for the first queue), or the handler found a task next to the queue exited |
| `JobRuns.RemovedAtEof` | applications/shell/src/lib.rs:1398-1582 | in every run a job leaves only when all its tasks are found exited, and its queues are then all at end of file if and only if it had a task or its input had been ended |
| `JobRuns.TasklessJobLeavesOpen` | applications/shell/src/lib.rs:1003-1005 | the job without tasks, which leaves with an open queue |
| `JobRuns.EofIsForGood` | applications/shell/src/lib.rs:1440-1466 | in every run a job keeps its tasks while it is in the table, and no pipe or error queue comes back from end of file |
| `Jobs.NewJobNumber` | applications/shell/src/lib.rs:1120-1129 | counting along the sorted keys finds the smallest free number |
| `Jobs.NewQueues` | applications/shell/src/lib.rs:1049-1078 | the queues of a new job |
| `Jobs.EndQueues` | applications/shell/src/lib.rs:1440-1466 | walking the three lists together ends the pipe queues on both sides of the exited task and its error queue, and no other |
| `Jobs.PollJob` | applications/shell/src/lib.rs:1398-1512 | one job: ended queues, whether a task is alive, whether it has just stopped |
| `Jobs.Shell.BuildNewJob` | applications/shell/src/lib.rs:1044-1137 | the step of the job table for a new job, with the number chosen |
| `Jobs.Shell.ExecuteInternalFg` | applications/shell/src/lib.rs:1899-1925 | the step for `fg`; an unknown number changes nothing |
| `Jobs.Shell.EndForegroundInput` | applications/shell/src/lib.rs:527-535 | the step for Ctrl+D |
| `Jobs.Shell.TaskHandler` | applications/shell/src/lib.rs:1391-1582 | the two passes over the jobs make up one step of the job table |
| `AtaDevice.StoredAt` | kernel/ata/src/lib.rs:339-405 | storing sectors changes just those sectors of the drive addressed |
| `AtaDevice.ImageOfStored` | kernel/ata/src/lib.rs:271-405 | what was stored is what is read |
| `Ata.Decodes28` | kernel/ata/src/lib.rs:287-297 | a device reads back drive, address and count from the 28-bit sequence exactly for addresses below 2^28 and 1 to 256 sectors |
| `Ata.Decodes48` | kernel/ata/src/lib.rs:298-314 | and from the 48-bit sequence, with two-deep registers, exactly for addresses below 2^48 and 1 to 65536 sectors |
| `Ata.Bytes28` | kernel/ata/src/lib.rs:287-297 | the bytes of the 28-bit sequence, register by register |
| `Ata.Bytes48` | kernel/ata/src/lib.rs:298-314 | the bytes of the 48-bit sequence, the two written to each register |
| `Ata.Issue` | kernel/ata/src/lib.rs:281-315 | the register writes in order, then one command, start a transfer of exactly the sectors asked for |
| `Ata.BusReadPio` | kernel/ata/src/lib.rs:271-332 | the buffer holds the sectors delivered before any error, the rest of it is as before, and the error tells how far it came; it fails exactly when the status told of an error; the command code, and the number of times the status is polled |
| `Ata.BusWritePio` | kernel/ata/src/lib.rs:339-405 | the disk holds the sectors sent before any error and is otherwise as before; it fails exactly when the status told of an error; the write command and the cache flush after the data, by their codes, and the number of times the status is polled |
| `Ata.AtaDrive.ReadPio` | kernel/ata/src/lib.rs:610-633 | each refusal exactly for its requests, with nothing sent; an accepted request fails exactly when the device reports an error, and tells how far it came |
| `Ata.AtaDrive.WritePio` | kernel/ata/src/lib.rs:646-669 | each refusal exactly for its requests, with nothing sent; an accepted request fails exactly when the device reports an error, and tells how far it came; no other sector and not the other drive changes; a completed write stores a sector at or beyond the size if and only if it is not empty and ends beyond it |
| `Ata.AtaDrive.AcceptsPastTheEnd` | kernel/ata/src/lib.rs:646-669 | one sector at the offset equal to the size is accepted and stored past the end |
| `Ata.AtaDrive.AcceptedStaysInside` | kernel/ata/src/lib.rs:610-633 | an accepted non-empty request stays on the drive if and only if offset plus sectors is at most the size |
| `Ata.AtaDrive.WriteThenRead` | kernel/ata/src/lib.rs:610-669 | a write and a read at the same offset that both succeed give back the bytes |
| `MemoryMap.MergeKeepsCoverage` | kernel/boot_info/src/uefi.rs:35-53 | each address is covered as often and by the same kinds as before |
| `MemoryMap.MergeKeepsTotal` | kernel/boot_info/src/uefi.rs:35-53 | the total length is kept |
| `MemoryMap.MergeGroups` | kernel/boot_info/src/uefi.rs:38-53 | each region of the result spans a stretch of regions of one kind without a gap, stretch after stretch, and together they are the whole list |
| `MemoryMap.MergeConsolidates` | kernel/boot_info/src/uefi.rs:35-53 | no two neighbours of the result are of one kind with the second starting where the first ends |
| `MemoryMap.MergeChanges` | kernel/boot_info/src/uefi.rs:35-53 | consolidating changes a list if and only if two neighbours are of one kind with the second starting where the first ends |
| `MemoryMap.MergeIdempotent` | kernel/boot_info/src/uefi.rs:35-53 | consolidating again changes nothing |
| `MemoryMap.MemoryRegions.Next` | kernel/boot_info/src/uefi.rs:38-53 | the peeking loop yields the first region of the consolidated rest |
| `MemoryMap.MemoryRegions.Collect` | kernel/boot_info/src/uefi.rs:35-53 | the iterator yields the consolidated list |

## Left out

- Machine-integer wrap-around: addresses, lengths, ticks, counters and screen coordinates are unbounded, so overflow of `usize`, `u64` and `isize` is not modelled, except for the compositor's unsigned subtractions and the size of a bounding box.
- The cache's locking, and its sharing between file systems.
- The hash's own arithmetic: the statements about the record hold for every function of the sampled pixels.
- The loop over several sources and several bounding boxes, which repeats the modelled step.
- Weighted blending of pixels, drawing primitives, windows and the terminal.
- PercentEncoding.EncodeByte: gives the 256-entry table by its rule, because the table is that rule written out.
- Decoding percent-encoded bytes as UTF-8.
- Glob expansion against directories, redirections, variable and alias expansion, completion, and every internal shell command but `fg`.
- History across Enter and Ctrl+C, and terminal output that fails between two updates.
- What becomes of a job's redirected output, exit codes, and messages to the user.
- Ata.AtaDrive.ReadPio: the device does not check its own capacity and takes a 28-bit request across the 28-bit limit as consecutive sectors, because the code relies on the status port for both.
- ATA identification, software reset, DMA and the polling loops' waiting.
- The fallback heap's own algorithm, growing the heap, and allocation statistics.
- The C library's other string routines.
- The rest of the kernel: scheduling, paging, drivers for other devices, networking and file systems.
