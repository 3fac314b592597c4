/** What compositing means, coordinate by coordinate. */
module Compositing {
  import opened Bytes
  import opened Arithmetic

  datatype Pixel = Pixel(blue: byte, green: byte, red: byte, alpha: byte)

  /** The two pixel formats: plain colours, and colours with a transparency channel. */
  datatype Format = Rgb | Alpha

  datatype Coord = Coord(x: int, y: int)

  datatype Rectangle = Rectangle(topLeft: Coord, bottomRight: Coord)

  function Plus(a: Coord, b: Coord): Coord { Coord(a.x + b.x, a.y + b.y) }

  function Minus(a: Coord, b: Coord): Coord { Coord(a.x - b.x, a.y - b.y) }

  // ---------------------------------------------------------------- pixels

  /** One channel mixed: transparency 0 shows the new colour, 255 the old one. */
  function Mix(front: byte, back: byte, alpha: byte): byte {
    assert 0 <= front * (255 - alpha) + back * alpha <= 255 * 255 by { MixBounded(front, back, alpha); }
    (front * (255 - alpha) + back * alpha) / 255
  }

  lemma MixBounded(front: byte, back: byte, alpha: byte)
    ensures 0 <= front * (255 - alpha) + back * alpha <= 255 * 255
  {
    ProductMono(front, 255, 255 - alpha);
    ProductMono(back, 255, alpha);
    ProductMono(0, front, 255 - alpha);
    ProductMono(0, back, alpha);
  }

  /** Blending one pixel onto another. */
  function Blend(fmt: Format, src: Pixel, dst: Pixel): Pixel {
    match fmt
    case Rgb => src
    case Alpha =>
      Pixel(Mix(src.blue, dst.blue, src.alpha), Mix(src.green, dst.green, src.alpha),
            Mix(src.red, dst.red, src.alpha), src.alpha)
  }

  /** What the row routine does to one pixel: opaque replaces, transparent skips, else blend. */
  function Over(fmt: Format, src: Pixel, dst: Pixel): Pixel {
    if fmt.Rgb? || src.alpha == 0 then src
    else if src.alpha == 255 then dst
    else Blend(fmt, src, dst)
  }

  /** The channel mixed is the weighted mean, rounded down. */
  lemma MixExactly(front: byte, back: byte, alpha: byte)
    ensures 255 * Mix(front, back, alpha) <= front * (255 - alpha) + back * alpha < 255 * Mix(front, back, alpha) + 255
  {
    MixBounded(front, back, alpha);
    Quotient(front * (255 - alpha) + back * alpha, 255);
  }

  /** The single-pixel blend, channel by channel: it keeps the new pixel's transparency. Plain colours replace. */
  lemma BlendExactly(src: Pixel, dst: Pixel)
    ensures Blend(Rgb, src, dst) == src
    ensures var p, a := Blend(Alpha, src, dst), src.alpha;
            && p.alpha == a
            && 255 * p.blue <= src.blue * (255 - a) + dst.blue * a < 255 * p.blue + 255
            && 255 * p.green <= src.green * (255 - a) + dst.green * a < 255 * p.green + 255
            && 255 * p.red <= src.red * (255 - a) + dst.red * a < 255 * p.red + 255
  {
    MixExactly(src.blue, dst.blue, src.alpha);
    MixExactly(src.green, dst.green, src.alpha);
    MixExactly(src.red, dst.red, src.alpha);
  }

  /** The row routine: an opaque pixel replaces, a fully transparent one leaves, any other is blended. */
  lemma OverExactly(src: Pixel, dst: Pixel)
    ensures Over(Rgb, src, dst) == src
    ensures src.alpha == 0 ==> Over(Alpha, src, dst) == src
    ensures src.alpha == 255 ==> Over(Alpha, src, dst) == dst
    ensures 0 < src.alpha < 255 ==> Over(Alpha, src, dst) == Blend(Alpha, src, dst)
  {
  }

  lemma MixExtremes(front: byte, back: byte)
    ensures Mix(front, back, 0) == front && Mix(front, back, 255) == back
  {
  }

  /**
   The row routine and the single-pixel blend agree on a pixel exactly unless a fully transparent
   pixel falls on one that is not: the blend then marks the destination transparent, the row does not.
   */
  lemma OverIsBlend(fmt: Format, src: Pixel, dst: Pixel)
    ensures Over(fmt, src, dst) == Blend(fmt, src, dst) <==> !(fmt.Alpha? && src.alpha == 255 && dst.alpha != 255)
  {
    MixExtremes(src.blue, dst.blue);
    MixExtremes(src.green, dst.green);
    MixExtremes(src.red, dst.red);
  }

  // ---------------------------------------------------------------- pictures

  type Picture = imap<Coord, Pixel>

  predicate InBounds(w: nat, h: nat, c: Coord) { 0 <= c.x < w && 0 <= c.y < h }

  function Index(w: nat, c: Coord): int { w * c.y + c.x }

  lemma IndexInRange(w: nat, h: nat, c: Coord)
    requires InBounds(w, h, c)
    ensures 0 <= Index(w, c) < w * h && Index(w, c) + (w - c.x) <= w * h
  {
    assert w * c.y + w == w * (c.y + 1);
    ProductMono(c.y + 1, h, w);
  }

  /** Row-major order: positions in different rows are a row apart. */
  lemma IndexOrder(w: nat, c: Coord, d: Coord)
    requires 0 <= c.x < w && 0 <= d.x && 0 <= c.y < d.y
    ensures Index(w, c) + (w - c.x) <= w * d.y <= Index(w, d)
  {
    assert w * c.y + w == w * (c.y + 1);
    ProductMono(c.y + 1, d.y, w);
  }

  /** The picture a row-major buffer shows. */
  ghost function PictureOf(buf: seq<Pixel>, w: nat, h: nat): Picture
    requires |buf| == w * h
  {
    imap c | InBounds(w, h, c) :: (IndexInRange(w, h, c); buf[Index(w, c)])
  }

  /** Row by row from the top, each from the left. */
  lemma PictureAt(buf: seq<Pixel>, w: nat, h: nat, x: nat, y: nat)
    requires |buf| == w * h
    ensures Coord(x, y) in PictureOf(buf, w, h) <==> x < w && y < h
    ensures x < w && y < h ==> w * y + x < |buf| && PictureOf(buf, w, h)[Coord(x, y)] == buf[w * y + x]
  {
    if x < w && y < h { IndexInRange(w, h, Coord(x, y)); }
  }

  function Right(at: Coord, i: int): Coord { Coord(at.x + i, at.y) }

  /** The pixels of the picture from `at` to the right are `row`. */
  ghost predicate Reads(pic: Picture, at: Coord, row: seq<Pixel>) {
    forall i | 0 <= i < |row| :: Right(at, i) in pic && pic[Right(at, i)] == row[i]
  }

  /** A row of the picture lies side by side in the buffer. */
  lemma RowAt(buf: seq<Pixel>, w: nat, h: nat, at: Coord, n: nat, k: nat)
    requires |buf| == w * h && InBounds(w, h, at) && at.x + n <= w && k == Index(w, at)
    ensures k + n <= |buf| && Reads(PictureOf(buf, w, h), at, buf[k..k + n])
  {
    IndexInRange(w, h, at);
    forall i | 0 <= i < n
      ensures Right(at, i) in PictureOf(buf, w, h) && PictureOf(buf, w, h)[Right(at, i)] == buf[k..k + n][i]
    {
      IndexInRange(w, h, Right(at, i));
    }
  }

  /** A picture with a stretch of one row replaced. */
  ghost function Painted(dst: Picture, at: Coord, row: seq<Pixel>): Picture {
    imap c | c in dst :: if c.y == at.y && at.x <= c.x < at.x + |row| then row[c.x - at.x] else dst[c]
  }

  /** Replacing a stretch of one row of the buffer replaces just that stretch of the picture. */
  lemma RowReplaced(buf: seq<Pixel>, w: nat, h: nat, at: Coord, row: seq<Pixel>, n: nat, k: nat)
    requires |buf| == w * h && InBounds(w, h, at) && |row| == n && at.x + n <= w && k == Index(w, at)
    ensures k + n <= |buf|
    ensures PictureOf(buf[..k] + row + buf[k + n..], w, h) == Painted(PictureOf(buf, w, h), at, row)
  {
    IndexInRange(w, h, at);
    var buf' := buf[..k] + row + buf[k + n..];
    var dst := PictureOf(buf, w, h);
    forall c | InBounds(w, h, c) ensures PictureOf(buf', w, h)[c] == Painted(dst, at, row)[c] {
      IndexInRange(w, h, c);
      if c.y < at.y {
        IndexOrder(w, c, at);
      } else if at.y < c.y {
        IndexOrder(w, at, c);
      }
    }
  }

  // ---------------------------------------------------------------- the slow path

  /** `Coord::blend_buffers`: blends the source pixel, if there is one, onto one destination coordinate. */
  function DrawOne(fmt: Format, dst: Picture, src: Picture, offset: Coord, c: Coord): Picture {
    if Minus(c, offset) in src && c in dst then dst[c := Blend(fmt, src[Minus(c, offset)], dst[c])] else dst
  }

  /** The single-pixel blend applied to one coordinate after the other. */
  function DrawEach(fmt: Format, dst: Picture, src: Picture, offset: Coord, cs: seq<Coord>): Picture
    decreases |cs|
  {
    if cs == [] then dst else DrawEach(fmt, DrawOne(fmt, dst, src, offset, cs[0]), src, offset, cs[1..])
  }

  predicate NoRepeats(cs: seq<Coord>) { forall i, j | 0 <= i < j < |cs| :: cs[i] != cs[j] }

  /** Drawn one by one, every coordinate of the list is blended once with what was there before. */
  lemma {:induction false} DrawEachAt(fmt: Format, dst: Picture, src: Picture, offset: Coord, cs: seq<Coord>, c: Coord)
    requires NoRepeats(cs) && c in dst
    ensures DrawEach(fmt, dst, src, offset, cs).Keys == dst.Keys
    ensures DrawEach(fmt, dst, src, offset, cs)[c] ==
            if c in cs && Minus(c, offset) in src then Blend(fmt, src[Minus(c, offset)], dst[c]) else dst[c]
    decreases |cs|
  {
    if cs != [] {
      var next := DrawOne(fmt, dst, src, offset, cs[0]);
      assert next.Keys == dst.Keys;
      DrawEachAt(fmt, next, src, offset, cs[1..], c);
      assert c in cs <==> c == cs[0] || c in cs[1..];
    }
  }

  // ---------------------------------------------------------------- the fast path's result

  /** A half-open range of source rows. */
  datatype Rows = Rows(start: nat, end: nat)

  function Box(at: Coord, width: nat, height: nat): Rectangle {
    Rectangle(at, Coord(at.x + width, at.y + height))
  }

  predicate InRect(r: Rectangle, c: Coord) {
    r.topLeft.x <= c.x < r.bottomRight.x && r.topLeft.y <= c.y < r.bottomRight.y
  }

  function Max(a: int, b: int): int { if a >= b then a else b }

  function Min(a: int, b: int): int { if a <= b then a else b }

  /** The part of the rectangle whose source rows are in the range. */
  function Region(rect: Rectangle, offset: Coord, rows: Rows): Rectangle {
    Rectangle(Coord(rect.topLeft.x, Max(rows.start + offset.y, rect.topLeft.y)),
              Coord(rect.bottomRight.x, Min(rows.end + offset.y, rect.bottomRight.y)))
  }

  /** The destination once every coordinate of the rectangle has had the row routine's effect. */
  ghost function Covered(fmt: Format, dst: Picture, src: Picture, offset: Coord, r: Rectangle): Picture {
    imap c | c in dst ::
      if InRect(r, c) && Minus(c, offset) in src then Over(fmt, src[Minus(c, offset)], dst[c]) else dst[c]
  }

  /** Which pixels are covered: the source pixel at (x, y) goes to the offset plus (x, y), if the rectangle has that. */
  lemma CoveredAt(fmt: Format, dst: Picture, src: Picture, offset: Coord, r: Rectangle, x: int, y: int)
    requires Coord(offset.x + x, offset.y + y) in dst
    ensures var c := Coord(offset.x + x, offset.y + y);
            && c in Covered(fmt, dst, src, offset, r)
            && Covered(fmt, dst, src, offset, r)[c] ==
               if && r.topLeft.x <= offset.x + x < r.bottomRight.x && r.topLeft.y <= offset.y + y < r.bottomRight.y
                  && Coord(x, y) in src
               then Over(fmt, src[Coord(x, y)], dst[c]) else dst[c]
  {
    assert Minus(Coord(offset.x + x, offset.y + y), offset) == Coord(x, y);
  }

  /** The part of a rectangle in a row range, by coordinates. */
  lemma RegionExactly(rect: Rectangle, offset: Coord, rows: Rows, c: Coord)
    ensures InRect(Region(rect, offset, rows), c) <==>
            && rect.topLeft.x <= c.x < rect.bottomRight.x && rect.topLeft.y <= c.y < rect.bottomRight.y
            && rows.start <= c.y - offset.y < rows.end
  {
  }

  /** No fully transparent source pixel of the rectangle falls on a destination pixel that is not. */
  ghost predicate NoStamp(fmt: Format, dst: Picture, src: Picture, offset: Coord, r: Rectangle) {
    forall c | c in dst && InRect(r, c) && Minus(c, offset) in src ::
      !(fmt.Alpha? && src[Minus(c, offset)].alpha == 255 && dst[c].alpha != 255)
  }

  /**
   For any order of the region's coordinates, the fast result is the slow result exactly when no
   fully transparent pixel falls on one that is not. Plain colours always agree.
   */
  lemma FastIsSlow(fmt: Format, dst: Picture, src: Picture, offset: Coord, r: Rectangle, cs: seq<Coord>)
    requires NoRepeats(cs) && forall c | c in dst && Minus(c, offset) in src :: c in cs <==> InRect(r, c)
    ensures Covered(fmt, dst, src, offset, r) == DrawEach(fmt, dst, src, offset, cs)
            <==> NoStamp(fmt, dst, src, offset, r)
    ensures fmt.Rgb? ==> NoStamp(fmt, dst, src, offset, r)
  {
    var fast, slow := Covered(fmt, dst, src, offset, r), DrawEach(fmt, dst, src, offset, cs);
    forall c | c in dst
      ensures slow.Keys == dst.Keys
      ensures fast[c] == slow[c] <==>
              !(&& InRect(r, c) && Minus(c, offset) in src
                && fmt.Alpha? && src[Minus(c, offset)].alpha == 255 && dst[c].alpha != 255)
    {
      DrawEachAt(fmt, dst, src, offset, cs, c);
      if InRect(r, c) && Minus(c, offset) in src { OverIsBlend(fmt, src[Minus(c, offset)], dst[c]); }
    }
    DrawEachKeys(fmt, dst, src, offset, cs);
  }

  lemma {:induction false} DrawEachKeys(fmt: Format, dst: Picture, src: Picture, offset: Coord, cs: seq<Coord>)
    ensures DrawEach(fmt, dst, src, offset, cs).Keys == dst.Keys
    decreases |cs|
  {
    if cs != [] {
      var next := DrawOne(fmt, dst, src, offset, cs[0]);
      assert next.Keys == dst.Keys;
      DrawEachKeys(fmt, next, src, offset, cs[1..]);
    }
  }

  /** Only coordinates that exist in both pictures matter. */
  lemma CoveredSame(fmt: Format, dst: Picture, src: Picture, offset: Coord, r: Rectangle, r': Rectangle)
    requires forall c | c in dst && Minus(c, offset) in src :: InRect(r, c) <==> InRect(r', c)
    ensures Covered(fmt, dst, src, offset, r) == Covered(fmt, dst, src, offset, r')
  {
  }

  lemma CoveredNothing(fmt: Format, dst: Picture, src: Picture, offset: Coord, r: Rectangle)
    requires forall c | c in dst && Minus(c, offset) in src :: !InRect(r, c)
    ensures Covered(fmt, dst, src, offset, r) == dst
  {
  }

  /** Covering a box and then the row below it covers the taller box. */
  lemma OneMoreRow(fmt: Format, dst: Picture, src: Picture, offset: Coord, at: Coord, width: nat, height: nat)
    ensures Covered(fmt, Covered(fmt, dst, src, offset, Box(at, width, height)), src, offset,
                    Box(Coord(at.x, at.y + height), width, 1))
            == Covered(fmt, dst, src, offset, Box(at, width, height + 1))
  {
  }

  /** A row after the row routine: each source pixel over its destination pixel. */
  function RowOver(fmt: Format, src: seq<Pixel>, dst: seq<Pixel>): (r: seq<Pixel>)
    requires |src| == |dst|
  {
    seq(|src|, i requires 0 <= i < |src| => Over(fmt, src[i], dst[i]))
  }

  /** A row of source pixels over their destination pixels covers a box one row high. */
  lemma PaintedCovers(fmt: Format, dst: Picture, d: seq<Pixel>, src: Picture, s: seq<Pixel>, offset: Coord, at: Coord)
    requires |d| == |s| && Reads(dst, at, d) && Reads(src, Minus(at, offset), s)
    ensures Painted(dst, at, RowOver(fmt, s, d)) == Covered(fmt, dst, src, offset, Box(at, |s|, 1))
  {
    var row, box := RowOver(fmt, s, d), Box(at, |s|, 1);
    forall c | c in dst ensures Painted(dst, at, row)[c] == Covered(fmt, dst, src, offset, box)[c] {
      if InRect(box, c) {
        var i := c.x - at.x;
        InTheRow(dst, d, src, s, offset, at, i);
        assert c == Right(at, i) && row[i] == Over(fmt, s[i], d[i]);
      }
    }
  }

  lemma InTheRow(dst: Picture, d: seq<Pixel>, src: Picture, s: seq<Pixel>, offset: Coord, at: Coord, i: nat)
    requires i < |d| == |s| && Reads(dst, at, d) && Reads(src, Minus(at, offset), s)
    ensures var c := Right(at, i);
            c in dst && dst[c] == d[i] && Minus(c, offset) in src && src[Minus(c, offset)] == s[i]
  {
    assert Right(Minus(at, offset), i) == Minus(Right(at, i), offset);
  }

  /** How they differ: over a fully transparent pixel only the blend changes the transparency channel. */
  lemma TransparentPixel(src: Pixel, dst: Pixel)
    requires src.alpha == 255
    ensures Over(Alpha, src, dst) == dst && Blend(Alpha, src, dst) == dst.(alpha := 255)
  {
    MixExtremes(src.blue, dst.blue);
    MixExtremes(src.green, dst.green);
    MixExtremes(src.red, dst.red);
  }

  /** They do differ: a transparent pixel drawn over an opaque one. */
  lemma FastDiffersFromSlow(src: Pixel, dst: Pixel)
    requires src == Pixel(0, 0, 0, 255) && dst == Pixel(1, 2, 3, 0)
    ensures Over(Alpha, src, dst) == Pixel(1, 2, 3, 0) && Blend(Alpha, src, dst) == Pixel(1, 2, 3, 255)
  {
    TransparentPixel(src, dst);
  }
}
