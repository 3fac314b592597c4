/** The row-at-a-time rectangle blend. */
module Compositor {
  import opened Bytes
  import opened Compositing

  // ---------------------------------------------------------------- clipping

  /** What the clipping arithmetic comes to. */
  datatype Clipped =
    | Skip                                            // nothing to draw
    | Underflow                                       // an unsigned subtraction would go below zero
    | Block(x: nat, y: nat, width: nat, height: nat)  // the part of the source to draw

  function Clip(rect: Rectangle, offset: Coord, rows: Rows, dw: nat, dh: nat, sw: nat, sh: nat): Clipped {
    var startY := Max(rows.start + offset.y, rect.topLeft.y);
    var endY := Min(rows.end + offset.y, rect.bottomRight.y);
    var destStart := Coord(Max(0, rect.topLeft.x), Max(0, startY));
    var destEnd := Coord(Min(dw, rect.bottomRight.x), Min(dh, endY));
    if destEnd.x < 0 || destStart.x > dw || destEnd.y < 0 || destStart.y > dh then Skip
    else
      var from, to := Minus(destStart, offset), Minus(destEnd, offset);
      if to.x < 0 || from.x > sw || to.y < 0 || from.y > sh then Skip
      else
        var x, y := Max(0, from.x), Max(0, from.y);
        var width, height := Min(to.x, sw) - x, Min(to.y, sh) - y;
        if width < 0 || height < 0 then Underflow else Block(x, y, width, height)
  }

  /** The rectangle is not inside out, and its rows meet the row range. */
  predicate Meets(rect: Rectangle, offset: Coord, rows: Rows) {
    && rect.topLeft.x <= rect.bottomRight.x && rect.topLeft.y <= rect.bottomRight.y
    && rows.start <= rows.end
    && rows.start + offset.y <= rect.bottomRight.y && rect.topLeft.y <= rows.end + offset.y
  }

  /** A rectangle that is not inside out and meets the row range never underflows. */
  lemma ClipNeverUnderflows(rect: Rectangle, offset: Coord, rows: Rows, dw: nat, dh: nat, sw: nat, sh: nat)
    requires Meets(rect, offset, rows)
    ensures !Clip(rect, offset, rows, dw, dh, sw, sh).Underflow?
  {
  }

  /**
   When it does underflow: the box of the rectangle and the row range is not off either picture's edge, and
   the rectangle is inside out in x or its rows and the row range leave a gap.
   */
  lemma UnderflowExactly(rect: Rectangle, offset: Coord, rows: Rows, dw: nat, dh: nat, sw: nat, sh: nat)
    ensures var startY := Max(rows.start + offset.y, rect.topLeft.y);
            var endY := Min(rows.end + offset.y, rect.bottomRight.y);
            Clip(rect, offset, rows, dw, dh, sw, sh).Underflow? <==>
            && 0 <= rect.bottomRight.x && rect.topLeft.x <= dw && 0 <= endY && startY <= dh
            && offset.x <= dw && offset.x <= rect.bottomRight.x && offset.y <= dh && offset.y <= endY
            && 0 <= sw + offset.x && rect.topLeft.x <= sw + offset.x && 0 <= sh + offset.y && startY <= sh + offset.y
            && (rect.topLeft.x > rect.bottomRight.x || startY > endY)
  {
  }

  predicate InBlock(b: Clipped, offset: Coord, c: Coord)
    requires b.Block?
  {
    b.x <= c.x - offset.x < b.x + b.width && b.y <= c.y - offset.y < b.y + b.height
  }

  /** The block is exactly the region's coordinates that exist in both pictures, and lies inside both. */
  lemma ClipIsExact(rect: Rectangle, offset: Coord, rows: Rows, dw: nat, dh: nat, sw: nat, sh: nat, c: Coord)
    requires !Clip(rect, offset, rows, dw, dh, sw, sh).Underflow?
    ensures var b := Clip(rect, offset, rows, dw, dh, sw, sh);
            InRect(Region(rect, offset, rows), c) && InBounds(dw, dh, c) && InBounds(sw, sh, Minus(c, offset))
            <==> b.Block? && InBlock(b, offset, c)
  {
  }

  lemma BlockFits(rect: Rectangle, offset: Coord, rows: Rows, dw: nat, dh: nat, sw: nat, sh: nat)
    ensures match Clip(rect, offset, rows, dw, dh, sw, sh)
            case Block(x, y, width, height) =>
              && x + width <= sw && y + height <= sh
              && 0 <= x + offset.x && x + width + offset.x <= dw
              && 0 <= y + offset.y && y + height + offset.y <= dh
            case _ => true
  {
  }

  // ---------------------------------------------------------------- one row

  /** A buffer after the first `n` pixels of `src` have been composited at `at`. */
  function RowDone(fmt: Format, buf: seq<Pixel>, at: nat, src: seq<Pixel>, n: nat): (r: seq<Pixel>)
    requires n <= |src| && at + |src| <= |buf|
    ensures |r| == |buf|
  {
    buf[..at] + RowOver(fmt, src[..n], buf[at..at + n]) + buf[at + n..]
  }

  lemma RowDoneStep(fmt: Format, buf: seq<Pixel>, at: nat, src: seq<Pixel>, n: nat)
    requires n < |src| && at + |src| <= |buf|
    ensures RowDone(fmt, buf, at, src, n)[at + n] == buf[at + n]
    ensures RowDone(fmt, buf, at, src, n + 1) == RowDone(fmt, buf, at, src, n)[at + n := Over(fmt, src[n], buf[at + n])]
  {
    var before, after := RowDone(fmt, buf, at, src, n), RowDone(fmt, buf, at, src, n + 1);
    forall k | 0 <= k < |buf| ensures after[k] == before[at + n := Over(fmt, src[n], buf[at + n])][k] {
    }
  }

  /** Copies a run of opaque pixels. */
  method CopyRun(buffer: array<Pixel>, at: nat, src: seq<Pixel>, from: nat, to: nat, ghost was: seq<Pixel>)
    requires from <= to <= |src| && at + |src| <= buffer.Length == |was|
    requires forall k | from <= k < to :: src[k].alpha == 0
    requires buffer[..] == RowDone(Alpha, was, at, src, from)
    modifies buffer
    ensures buffer[..] == RowDone(Alpha, was, at, src, to)
  {
    var i := from;
    while i < to
      invariant from <= i <= to && buffer[..] == RowDone(Alpha, was, at, src, i)
    {
      RowDoneStep(Alpha, was, at, src, i);
      buffer[at + i] := src[i];
      i := i + 1;
    }
  }

  /** The end of the run of opaque pixels that starts at `start`. */
  method OpaqueRun(src: seq<Pixel>, start: nat) returns (i: nat)
    requires start < |src| && src[start].alpha == 0
    ensures start < i <= |src| && forall k | start <= k < i :: src[k].alpha == 0
  {
    i := start + 1;
    while i < |src| && src[i].alpha == 0
      invariant start < i <= |src| && forall k | start <= k < i :: src[k].alpha == 0
    {
      i := i + 1;
    }
  }

  /** One pixel that is not opaque: a fully transparent one is skipped. */
  method CompositePixel(buffer: array<Pixel>, at: nat, src: seq<Pixel>, i: nat, ghost was: seq<Pixel>)
    requires i < |src| && at + |src| <= buffer.Length == |was| && src[i].alpha != 0
    requires buffer[..] == RowDone(Alpha, was, at, src, i)
    modifies buffer
    ensures buffer[..] == RowDone(Alpha, was, at, src, i + 1)
  {
    RowDoneStep(Alpha, was, at, src, i);
    if src[i].alpha != 255 {
      buffer[at + i] := Blend(Alpha, src[i], buffer[at + i]);
    }
  }

  /** The row routine for pixels with transparency: opaque runs are copied, transparent pixels skipped. */
  method CompositeAlpha(buffer: array<Pixel>, at: nat, src: seq<Pixel>)
    requires at + |src| <= buffer.Length
    modifies buffer
    ensures buffer[..] == RowDone(Alpha, old(buffer[..]), at, src, |src|)
  {
    ghost var was := buffer[..];
    var i := 0;
    while i < |src|
      invariant i <= |src| && buffer[..] == RowDone(Alpha, was, at, src, i)
    {
      if src[i].alpha == 0 {
        var start := i;
        i := OpaqueRun(src, start);
        CopyRun(buffer, at, src, start, i, was);
      } else {
        CompositePixel(buffer, at, src, i, was);
        i := i + 1;
      }
    }
  }

  /** The row routine for plain colours: a copy. */
  method CompositeRgb(buffer: array<Pixel>, at: nat, src: seq<Pixel>)
    requires at + |src| <= buffer.Length
    modifies buffer
    ensures buffer[..] == RowDone(Rgb, old(buffer[..]), at, src, |src|)
  {
    ghost var was := buffer[..];
    forall k | 0 <= k < |src| { buffer[at + k] := src[k]; }
  }

  // ---------------------------------------------------------------- framebuffers

  class Framebuffer {
    const width: nat
    const height: nat
    const buffer: array<Pixel>

    ghost predicate Valid() { buffer.Length == width * height }

    ghost function Shown(): Picture
      requires Valid()
      reads buffer
    {
      PictureOf(buffer[..], width, height)
    }

    /** Row-major position of a coordinate, if the framebuffer has it. */
    method IndexOf(c: Coord) returns (r: Option<nat>)
      requires Valid()
      ensures r.Some? <==> 0 <= c.x < width && 0 <= c.y < height
      ensures r.Some? ==> r.value == Index(width, c) == width * c.y + c.x < buffer.Length
    {
      if InBounds(width, height, c) {
        IndexInRange(width, height, c);
        r := Some(width * c.y + c.x);
      } else {
        r := None;
      }
    }
  }

  /** `Coord::blend_buffers`: one coordinate. */
  method BlendCoord(fmt: Format, c: Coord, src: Framebuffer, dst: Framebuffer, offset: Coord)
    requires src.Valid() && dst.Valid() && src.buffer != dst.buffer
    modifies dst.buffer
    ensures dst.Shown() == DrawOne(fmt, old(dst.Shown()), src.Shown(), offset, c)
  {
    var from := src.IndexOf(Minus(c, offset));
    var to := dst.IndexOf(c);
    if from.Some? && to.Some? {
      ghost var was := dst.buffer[..];
      var pixel := Blend(fmt, src.buffer[from.value], dst.buffer[to.value]);
      dst.buffer[to.value] := pixel;
      RowReplaced(was, dst.width, dst.height, c, [pixel], 1, to.value);
      assert dst.buffer[..] == was[..to.value] + [pixel] + was[to.value + 1..];
    }
  }

  method CompositeRow(fmt: Format, src: seq<Pixel>, dst: Framebuffer, at: nat)
    requires at + |src| <= dst.buffer.Length
    modifies dst.buffer
    ensures dst.buffer[..] == RowDone(fmt, old(dst.buffer[..]), at, src, |src|)
  {
    match fmt
    case Rgb => CompositeRgb(dst.buffer, at, src);
    case Alpha => CompositeAlpha(dst.buffer, at, src);
  }

  /** Compositing one row of the source in place covers that row's box of the picture. */
  lemma RowCovers(fmt: Format, buf: seq<Pixel>, dw: nat, dh: nat, from: seq<Pixel>, sw: nat, sh: nat,
                  offset: Coord, at: Coord, n: nat, j: nat, k: nat)
    requires |buf| == dw * dh && |from| == sw * sh
    requires InBounds(sw, sh, at) && at.x + n <= sw
    requires InBounds(dw, dh, Plus(at, offset)) && at.x + offset.x + n <= dw
    requires j == Index(sw, at) && k == Index(dw, Plus(at, offset))
    ensures j + n <= |from| && k + n <= |buf|
    ensures PictureOf(RowDone(fmt, buf, k, from[j..j + n], n), dw, dh) ==
            Covered(fmt, PictureOf(buf, dw, dh), PictureOf(from, sw, sh), offset, Box(Plus(at, offset), n, 1))
  {
    var start := Plus(at, offset);
    assert Minus(start, offset) == at;
    assert j + n <= |from| && Reads(PictureOf(from, sw, sh), at, from[j..j + n]) by { RowAt(from, sw, sh, at, n, j); }
    assert k + n <= |buf| && Reads(PictureOf(buf, dw, dh), start, buf[k..k + n]) by { RowAt(buf, dw, dh, start, n, k); }
    var row := from[j..j + n];
    var over := RowOver(fmt, row, buf[k..k + n]);
    assert RowDone(fmt, buf, k, row, n) == buf[..k] + over + buf[k + n..] by { assert row[..n] == row; }
    assert PictureOf(buf[..k] + over + buf[k + n..], dw, dh) == Painted(PictureOf(buf, dw, dh), start, over) by {
      RowReplaced(buf, dw, dh, start, over, n, k);
    }
    PaintedCovers(fmt, PictureOf(buf, dw, dh), buf[k..k + n], PictureOf(from, sw, sh), row, offset, start);
  }

  /** One row of the block. */
  method BlendRow(fmt: Format, src: Framebuffer, dst: Framebuffer, offset: Coord, at: Coord, width: nat)
    requires src.Valid() && dst.Valid() && src.buffer != dst.buffer
    requires 0 <= at.x && 0 <= at.y < src.height && at.x + width <= src.width
    requires 0 <= at.x + offset.x && at.x + offset.x + width <= dst.width && 0 <= at.y + offset.y < dst.height
    modifies dst.buffer
    ensures dst.Shown() == Covered(fmt, old(dst.Shown()), src.Shown(), offset, Box(Plus(at, offset), width, 1))
  {
    var from := src.IndexOf(at);
    var to := dst.IndexOf(Plus(at, offset));
    if from.None? || to.None? {
      CoveredNothing(fmt, dst.Shown(), src.Shown(), offset, Box(Plus(at, offset), width, 1));
      return;
    }
    BlendRowAt(fmt, src, dst, offset, at, width, from.value, to.value);
  }

  /** The same once the two indices are known. */
  method BlendRowAt(fmt: Format, src: Framebuffer, dst: Framebuffer, offset: Coord, at: Coord, width: nat,
                    from: nat, to: nat)
    requires src.Valid() && dst.Valid() && src.buffer != dst.buffer
    requires InBounds(src.width, src.height, at) && at.x + width <= src.width && from == Index(src.width, at)
    requires InBounds(dst.width, dst.height, Plus(at, offset)) && at.x + offset.x + width <= dst.width
    requires to == Index(dst.width, Plus(at, offset))
    modifies dst.buffer
    ensures dst.Shown() == Covered(fmt, old(dst.Shown()), src.Shown(), offset, Box(Plus(at, offset), width, 1))
  {
    ghost var was, pixels := dst.buffer[..], src.buffer[..];
    RowCovers(fmt, was, dst.width, dst.height, pixels, src.width, src.height, offset, at, width, from, to);
    var row := src.buffer[from..from + width];
    assert row == pixels[from..from + width];
    CompositeRow(fmt, row, dst, to);
    assert dst.buffer[..] == RowDone(fmt, was, to, pixels[from..from + width], width);
  }

  method BlendBlock(fmt: Format, src: Framebuffer, dst: Framebuffer, offset: Coord, at: Coord, width: nat, height: nat)
    requires src.Valid() && dst.Valid() && src.buffer != dst.buffer
    requires 0 <= at.x && 0 <= at.y && at.x + width <= src.width && at.y + height <= src.height
    requires 0 <= at.x + offset.x && at.x + offset.x + width <= dst.width
    requires 0 <= at.y + offset.y && at.y + offset.y + height <= dst.height
    modifies dst.buffer
    ensures dst.Shown() == Covered(fmt, old(dst.Shown()), src.Shown(), offset, Box(Plus(at, offset), width, height))
  {
    ghost var shown, from, target := dst.Shown(), src.Shown(), Plus(at, offset);
    CoveredNothing(fmt, shown, from, offset, Box(target, width, 0));
    for i := 0 to height
      invariant dst.Shown() == Covered(fmt, shown, from, offset, Box(target, width, i))
    {
      var row := Coord(at.x, at.y + i);
      assert Plus(row, offset) == Coord(target.x, target.y + i);
      BlendRow(fmt, src, dst, offset, row, width);
      OneMoreRow(fmt, shown, from, offset, target, width, i);
    }
  }

  /** `Rectangle::blend_buffers`; the result is false when an unsigned subtraction would underflow. */
  method BlendRectangle(fmt: Format, rect: Rectangle, src: Framebuffer, dst: Framebuffer, offset: Coord, rows: Rows)
    returns (ok: bool)
    requires src.Valid() && dst.Valid() && src.buffer != dst.buffer
    modifies dst.buffer
    ensures ok <==> !Clip(rect, offset, rows, dst.width, dst.height, src.width, src.height).Underflow?
    ensures ok ==> dst.Shown() == Covered(fmt, old(dst.Shown()), src.Shown(), offset, Region(rect, offset, rows))
    ensures !ok ==> dst.buffer[..] == old(dst.buffer[..])
  {
    var block := Clip(rect, offset, rows, dst.width, dst.height, src.width, src.height);
    if block.Underflow? { return false; }
    ghost var shown, from := dst.Shown(), src.Shown();
    SameAsBlock(fmt, rect, offset, rows, shown, dst.width, dst.height, from, src.width, src.height);
    if block.Skip? { return true; }
    BlockFits(rect, offset, rows, dst.width, dst.height, src.width, src.height);
    BlendBlock(fmt, src, dst, offset, Coord(block.x, block.y), block.width, block.height);
    return true;
  }

  /** The region covers what its block covers, or nothing. */
  lemma SameAsBlock(fmt: Format, rect: Rectangle, offset: Coord, rows: Rows,
                    dst: Picture, dw: nat, dh: nat, src: Picture, sw: nat, sh: nat)
    requires forall c :: c in dst <==> InBounds(dw, dh, c)
    requires forall c :: c in src <==> InBounds(sw, sh, c)
    requires !Clip(rect, offset, rows, dw, dh, sw, sh).Underflow?
    ensures Covered(fmt, dst, src, offset, Region(rect, offset, rows)) ==
            match Clip(rect, offset, rows, dw, dh, sw, sh)
            case Block(x, y, width, height) =>
              Covered(fmt, dst, src, offset, Box(Plus(Coord(x, y), offset), width, height))
            case _ => dst
  {
    var b := Clip(rect, offset, rows, dw, dh, sw, sh);
    var r := if b.Block? then Box(Plus(Coord(b.x, b.y), offset), b.width, b.height) else Box(offset, 0, 0);
    forall c | c in dst && Minus(c, offset) in src ensures InRect(Region(rect, offset, rows), c) <==> InRect(r, c) {
      ClipIsExact(rect, offset, rows, dw, dh, sw, sh, c);
    }
    CoveredSame(fmt, dst, src, offset, Region(rect, offset, rows), r);
    if !b.Block? { CoveredNothing(fmt, dst, src, offset, r); }
  }
}
