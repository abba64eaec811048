/** `genericBlitCopy`: row by row between two images in memory. */
module Blit {
  import opened Words
  import opened Clipping
  import opened Products

  /** An image in memory: where its bytes lie, how far apart its rows are, and by how much the pixels of a
      region are moved to find them in the image. */
  datatype Image = Image(base: nat, size: nat, pitch: Word, dx: int, dy: int)

  predicate InMemory(dst: Image, src: Image, bytes: nat) {
    dst.base + dst.size <= bytes && src.base + src.size <= bytes
  }

  /** The two images lie in memory and have no byte in common. */
  predicate Placed(dst: Image, src: Image, bytes: nat) {
    && InMemory(dst, src, bytes)
    && (dst.base + dst.size <= src.base || src.base + src.size <= dst.base)
  }

  predicate InWindow(img: Image, addr: int, l: nat) {
    img.base <= addr && addr + l <= img.base + img.size
  }

  /** Where the first row of `r` begins in the image. The row offset is a 32-bit product. */
  function RowStart(img: Image, r: Bounds, bpp: nat): int {
    img.base + (r.y + img.dy) * img.pitch % WORD_LIMIT + (r.x + img.dx) * bpp
  }

  function RowBytes(r: Bounds, bpp: nat): nat {
    if r.w <= 0 then 0 else r.w * bpp
  }

  /** Where row `j` of `r` begins. */
  function Row(img: Image, r: Bounds, bpp: nat, j: nat): int {
    RowStart(img, r, bpp) + j * img.pitch
  }

  predicate RowInWindows(dst: Image, src: Image, r: Bounds, bpp: nat, j: nat) {
    InWindow(dst, Row(dst, r, bpp, j), RowBytes(r, bpp)) && InWindow(src, Row(src, r, bpp, j), RowBytes(r, bpp))
  }

  /** The rows of `r` before the first one that does not lie wholly in both images. */
  function LeadingRows(dst: Image, src: Image, r: Bounds, bpp: nat, from: nat): (n: nat)
    ensures forall j: nat | from <= j < n :: RowInWindows(dst, src, r, bpp, j)
    ensures from <= n <= r.h || n == from
    ensures n < r.h ==> !RowInWindows(dst, src, r, bpp, n)
    decreases r.h - from
  {
    if from < r.h && RowInWindows(dst, src, r, bpp, from) then LeadingRows(dst, src, r, bpp, from + 1) else from
  }

  /** How many rows of `r` are copied. */
  function Rows(dst: Image, src: Image, r: Bounds, bpp: nat): nat {
    if r.w <= 0 || r.h <= 0 then 0 else LeadingRows(dst, src, r, bpp, 0)
  }

  /** `memcpy`. */
  function CopyRow(mem: seq<bv8>, to: int, from: int, l: nat): (r: seq<bv8>)
    ensures |r| == |mem|
  {
    seq(|mem|, a requires 0 <= a < |mem| =>
      if to <= a < to + l && 0 <= from + (a - to) < |mem| then mem[from + (a - to)] else mem[a])
  }

  function CopyRows(mem: seq<bv8>, dst: Image, src: Image, r: Bounds, bpp: nat, n: nat): (m: seq<bv8>)
    ensures |m| == |mem|
  {
    if n == 0 then mem
    else CopyRow(CopyRows(mem, dst, src, r, bpp, n - 1), Row(dst, r, bpp, n - 1), Row(src, r, bpp, n - 1), RowBytes(r, bpp))
  }

  function BlitAll(mem: seq<bv8>, dst: Image, src: Image, rects: seq<Bounds>, bpp: nat): (m: seq<bv8>)
    ensures |m| == |mem|
  {
    if rects == [] then mem
    else
      var r := rects[|rects| - 1];
      CopyRows(BlitAll(mem, dst, src, rects[..|rects| - 1], bpp), dst, src, r, bpp, Rows(dst, src, r, bpp))
  }

  method Memcpy(mem: array<bv8>, to: nat, from: nat, l: nat)
    requires to + l <= mem.Length && from + l <= mem.Length && (to + l <= from || from + l <= to)
    modifies mem
    ensures mem[..] == CopyRow(old(mem[..]), to, from, l)
  {
    forall i | 0 <= i < l {
      mem[to + i] := mem[from + i];
    }
    assert forall a | 0 <= a < mem.Length ::
        mem[a] == if to <= a < to + l then old(mem[from + (a - to)]) else old(mem[a]);
  }

  lemma FirstRow(img: Image, r: Bounds, bpp: nat)
    ensures Row(img, r, bpp, 0) == RowStart(img, r, bpp)
  {
  }

  lemma NextRow(img: Image, r: Bounds, bpp: nat, j: nat)
    ensures Row(img, r, bpp, j + 1) == Row(img, r, bpp, j) + img.pitch
  {
    hide RowStart;
  }

  /** What `memcpy` asks of row `j`: its two places do not overlap. */
  predicate RowApart(dst: Image, src: Image, r: Bounds, bpp: nat, j: nat) {
    var to, from, l := Row(dst, r, bpp, j), Row(src, r, bpp, j), RowBytes(r, bpp);
    to + l <= from || from + l <= to
  }

  predicate RowsApart(dst: Image, src: Image, r: Bounds, bpp: nat) {
    forall j: nat | j < Rows(dst, src, r, bpp) :: RowApart(dst, src, r, bpp, j)
  }

  /** The row loop. A row outside either image is skipped without moving on, so that none of the rows
      after it is copied either. */
  method CopyRect(mem: array<bv8>, dst: Image, src: Image, rect: Bounds, bpp: nat)
    requires InMemory(dst, src, mem.Length) && rect.w > 0 && rect.h > 0 && RowsApart(dst, src, rect, bpp)
    modifies mem
    ensures mem[..] == CopyRows(old(mem[..]), dst, src, rect, bpp, Rows(dst, src, rect, bpp))
  {
    hide CopyRow, Row;
    ghost var was := mem[..];
    var addr1, addr2 := RowStart(dst, rect, bpp), RowStart(src, rect, bpp);
    FirstRow(dst, rect, bpp);
    FirstRow(src, rect, bpp);
    hide RowStart;
    var l := rect.w * bpp;
    ghost var n := Rows(dst, src, rect, bpp);
    ghost var done: nat := 0;
    for j := 0 to rect.h
      invariant done == if j < n then j else n
      invariant addr1 == Row(dst, rect, bpp, done) && addr2 == Row(src, rect, bpp, done)
      invariant mem[..] == CopyRows(was, dst, src, rect, bpp, done)
    {
      assert done < n <==> RowInWindows(dst, src, rect, bpp, done);
      if addr1 < dst.base || addr1 + l > dst.base + dst.size || addr2 < src.base || addr2 + l > src.base + src.size {
        continue;
      }
      assert RowApart(dst, src, rect, bpp, done);
      NextRow(dst, rect, bpp, done);
      NextRow(src, rect, bpp, done);
      Memcpy(mem, addr1, addr2, l);
      addr1 := addr1 + dst.pitch;
      addr2 := addr2 + src.pitch;
      done := done + 1;
    }
  }

  /** `genericBlitCopy`. */
  method GenericBlitCopy(mem: array<bv8>, dst: Image, src: Image, region: seq<Bounds>, bytesPerPixel: nat)
    requires InMemory(dst, src, mem.Length)
    requires forall i | 0 <= i < |region| :: RowsApart(dst, src, region[i], bytesPerPixel)
    modifies mem
    ensures mem[..] == BlitAll(old(mem[..]), dst, src, region, bytesPerPixel)
  {
    hide CopyRows, RowsApart;
    assert region[..0] == [];
    for i := 0 to |region|
      invariant mem[..] == BlitAll(old(mem[..]), dst, src, region[..i], bytesPerPixel)
    {
      assert region[..i + 1][..i] == region[..i];
      var rect := region[i];
      if rect.w <= 0 || rect.h <= 0 {
        NoRows(mem[..], dst, src, rect, bytesPerPixel);
        continue;
      }
      CopyRect(mem, dst, src, rect, bytesPerPixel);
    }
    assert region[..|region|] == region;
  }

  lemma CopiedRowInWindows(dst: Image, src: Image, r: Bounds, bpp: nat, j: nat)
    requires j < Rows(dst, src, r, bpp)
    ensures r.w > 0 && RowInWindows(dst, src, r, bpp, j)
  {
    hide RowInWindows;
  }

  /** Images with no byte in common satisfy `memcpy` whatever the rectangles are. */
  lemma DisjointImagesApart(dst: Image, src: Image, r: Bounds, bpp: nat, bytes: nat)
    requires Placed(dst, src, bytes)
    ensures RowsApart(dst, src, r, bpp)
  {
    hide Row, Rows;
    forall j: nat | j < Rows(dst, src, r, bpp)
      ensures RowApart(dst, src, r, bpp, j)
    {
      CopiedRowInWindows(dst, src, r, bpp, j);
    }
  }

  // ----- what the skipped rows cost -----

  /** Every row that lies in both images is copied. */
  ghost predicate NoRowMissed(dst: Image, src: Image, r: Bounds, bpp: nat) {
    forall j: nat | j < r.h && RowInWindows(dst, src, r, bpp, j) :: j < Rows(dst, src, r, bpp)
  }

  /** The rows in a window follow one another without a gap. */
  lemma RowsConvex(img: Image, r: Bounds, bpp: nat, i: nat, j: nat, k: nat)
    requires i <= j <= k && InWindow(img, Row(img, r, bpp, i), RowBytes(r, bpp))
    requires InWindow(img, Row(img, r, bpp, k), RowBytes(r, bpp))
    ensures InWindow(img, Row(img, r, bpp, j), RowBytes(r, bpp))
  {
    hide RowStart;
    TimesMonotone(i, j, img.pitch);
    TimesMonotone(j, k, img.pitch);
  }

  /** The row loop misses no row that it should copy if and only if the first row lies in both images, or
      no row does. */
  lemma RowLoopExact(dst: Image, src: Image, r: Bounds, bpp: nat)
    requires r.w > 0 && r.h > 0
    ensures NoRowMissed(dst, src, r, bpp) <==>
            RowInWindows(dst, src, r, bpp, 0) || forall j: nat | j < r.h :: !RowInWindows(dst, src, r, bpp, j)
  {
    hide Row, RowBytes;
    var n := Rows(dst, src, r, bpp);
    if RowInWindows(dst, src, r, bpp, 0) {
      forall j: nat | j < r.h && RowInWindows(dst, src, r, bpp, j)
        ensures j < n
      {
        forall i: nat | i <= j
          ensures RowInWindows(dst, src, r, bpp, i)
        {
          RowsConvex(dst, r, bpp, 0, i, j);
          RowsConvex(src, r, bpp, 0, i, j);
        }
      }
    } else {
      assert n == 0;
    }
  }

  /** A rectangle that begins one pixel to the left of the destination: only its first row sticks out, and
      no row is copied. */
  lemma LeftOverhangCopiesNothing()
    ensures var dst, src, r := Image(100, 100, 10, -1, 0), Image(1000, 100, 10, 0, 0), Bounds(0, 0, 5, 3);
            && Rows(dst, src, r, 1) == 0
            && RowInWindows(dst, src, r, 1, 1) && RowInWindows(dst, src, r, 1, 2)
  {
  }

  // ----- where rows belong -----

  /** Where row `j` of `r` belongs, without the wrap of the 32-bit product. */
  function TrueRow(img: Image, r: Bounds, bpp: nat, j: nat): int {
    img.base + (r.y + img.dy + j) * img.pitch + (r.x + img.dx) * bpp
  }

  predicate TrueIn(dst: Image, src: Image, r: Bounds, bpp: nat, j: nat) {
    InWindow(dst, TrueRow(dst, r, bpp, j), RowBytes(r, bpp)) && InWindow(src, TrueRow(src, r, bpp, j), RowBytes(r, bpp))
  }

  /** The row offset fits 32 bits. */
  predicate NoWrap(img: Image, r: Bounds) {
    0 <= (r.y + img.dy) * img.pitch < WORD_LIMIT
  }

  /** All rows are off by the same distance, and by none exactly if the offset fits. */
  lemma RowsShifted(img: Image, r: Bounds, bpp: nat, j: nat)
    ensures Row(img, r, bpp, j) == TrueRow(img, r, bpp, j) <==> NoWrap(img, r)
  {
    var y, p := r.y + img.dy, img.pitch;
    assert (y + j) * p == y * p + j * p;
  }

  /** Every row that belongs into both images is copied, and every row that is copied is copied from and to
      where it belongs. */
  ghost predicate RowsRight(dst: Image, src: Image, r: Bounds, bpp: nat) {
    && (forall j: nat | j < r.h && TrueIn(dst, src, r, bpp, j) :: j < Rows(dst, src, r, bpp))
    && (forall j: nat | j < Rows(dst, src, r, bpp) :: InPlace(dst, src, r, bpp, j))
  }

  predicate InPlace(dst: Image, src: Image, r: Bounds, bpp: nat, j: nat) {
    Row(dst, r, bpp, j) == TrueRow(dst, r, bpp, j) && Row(src, r, bpp, j) == TrueRow(src, r, bpp, j)
  }

  /** A rectangle is copied right if and only if neither offset wraps and its first row belongs into both
      images, or no row belongs there and the first is not taken to be there either. */
  lemma RowsRightExact(dst: Image, src: Image, r: Bounds, bpp: nat)
    requires r.w > 0 && r.h > 0
    ensures RowsRight(dst, src, r, bpp) <==>
            || (NoWrap(dst, r) && NoWrap(src, r) && TrueIn(dst, src, r, bpp, 0))
            || (!RowInWindows(dst, src, r, bpp, 0) && forall j: nat | j < r.h :: !TrueIn(dst, src, r, bpp, j))
  {
    var n := Rows(dst, src, r, bpp);
    RowLoopExact(dst, src, r, bpp);
    hide Row, TrueRow, RowBytes, NoWrap;
    RowsShifted(dst, r, bpp, 0);
    RowsShifted(src, r, bpp, 0);
    if NoWrap(dst, r) && NoWrap(src, r) && TrueIn(dst, src, r, bpp, 0) {
      forall j: nat
        ensures InPlace(dst, src, r, bpp, j) && (TrueIn(dst, src, r, bpp, j) <==> RowInWindows(dst, src, r, bpp, j))
      {
        RowsShifted(dst, r, bpp, j);
        RowsShifted(src, r, bpp, j);
      }
    }
    if RowsRight(dst, src, r, bpp) && n > 0 {
      assert InPlace(dst, src, r, bpp, 0);
    }
  }

  /** One row above the destination: the offset wraps, and the two rows that belong there are not copied. */
  lemma TopOverhangWraps()
    ensures var dst, src, r := Image(100, 100, 10, 0, -1), Image(1000, 100, 10, 0, 0), Bounds(0, 0, 10, 3);
            && Rows(dst, src, r, 1) == 0 && !NoWrap(dst, r)
            && TrueIn(dst, src, r, 1, 1) && TrueIn(dst, src, r, 1, 2)
  {
  }

  /** Exactly 4 GB above: the offset wraps to 0, and three rows that do not belong there are copied. */
  lemma FarAboveIsMisplaced()
    ensures var dst, src := Image(0x1000, 0x4000, 4096, 0, -0x100000), Image(0x10000, 0x4000, 4096, 0, 0);
            var r := Bounds(0, 0, 10, 3);
            && Rows(dst, src, r, 4) == 3
            && forall j: nat | j < 3 :: TrueRow(dst, r, 4, j) == Row(dst, r, 4, j) - WORD_LIMIT
  {
    var dst, src := Image(0x1000, 0x4000, 4096, 0, -0x100000), Image(0x10000, 0x4000, 4096, 0, 0);
    var r := Bounds(0, 0, 10, 3);
    assert RowInWindows(dst, src, r, 4, 0) && RowInWindows(dst, src, r, 4, 1) && RowInWindows(dst, src, r, 4, 2);
  }

  lemma NoRows(mem: seq<bv8>, dst: Image, src: Image, r: Bounds, bpp: nat)
    ensures CopyRows(mem, dst, src, r, bpp, 0) == mem
  {
  }

  // ----- what is copied, byte by byte -----

  lemma {:induction false} RowsStayInside(mem: seq<bv8>, dst: Image, src: Image, r: Bounds, bpp: nat, n: nat, a: nat)
    requires n <= Rows(dst, src, r, bpp) && a < |mem| && !(dst.base <= a < dst.base + dst.size)
    ensures CopyRows(mem, dst, src, r, bpp, n)[a] == mem[a]
  {
    if n > 0 {
      RowsStayInside(mem, dst, src, r, bpp, n - 1, a);
      CopiedRowInWindows(dst, src, r, bpp, n - 1);
    }
  }

  /** No byte outside the destination image is touched, whatever the rectangles are. */
  lemma {:induction false} BlitStaysInside(mem: seq<bv8>, dst: Image, src: Image, rects: seq<Bounds>, bpp: nat, a: nat)
    requires a < |mem| && !(dst.base <= a < dst.base + dst.size)
    ensures BlitAll(mem, dst, src, rects, bpp)[a] == mem[a]
  {
    if rects != [] {
      var front, r := rects[..|rects| - 1], rects[|rects| - 1];
      BlitStaysInside(mem, dst, src, front, bpp, a);
      RowsStayInside(BlitAll(mem, dst, src, front, bpp), dst, src, r, bpp, Rows(dst, src, r, bpp), a);
    }
  }

  /** Where the last copied row of `r`, among its first `n`, that covers byte `a` takes it from. */
  function RowWriter(dst: Image, src: Image, r: Bounds, bpp: nat, n: nat, a: int): Option<int> {
    if n == 0 then None
    else
      var to := Row(dst, r, bpp, n - 1);
      if to <= a < to + RowBytes(r, bpp) then Some(Row(src, r, bpp, n - 1) + (a - to))
      else RowWriter(dst, src, r, bpp, n - 1, a)
  }

  function Writer(dst: Image, src: Image, rects: seq<Bounds>, bpp: nat, a: int): Option<int> {
    if rects == [] then None
    else
      var r := rects[|rects| - 1];
      match RowWriter(dst, src, r, bpp, Rows(dst, src, r, bpp), a)
      case Some(from) => Some(from)
      case None => Writer(dst, src, rects[..|rects| - 1], bpp, a)
  }

  /** `from` is where byte `a` of `now` comes from; without it the byte is as it was. */
  ghost predicate Brought(was: seq<bv8>, now: seq<bv8>, src: Image, from: Option<int>, a: nat)
    requires a < |was| == |now|
  {
    match from
    case None => now[a] == was[a]
    case Some(s) => InWindow(src, s, 1) && s < |was| && now[a] == was[s]
  }

  /** One more row that is copied. */
  lemma RowBrought(was: seq<bv8>, mem: seq<bv8>, src: Image, to: int, from: int, l: nat, w: Option<int>, a: nat)
    requires a < |was| == |mem| && Brought(was, mem, src, w, a)
    requires InWindow(src, from, l) && src.base + src.size <= |mem|
    requires to <= a < to + l ==> mem[from + (a - to)] == was[from + (a - to)]
    ensures Brought(was, CopyRow(mem, to, from, l), src, if to <= a < to + l then Some(from + (a - to)) else w, a)
  {
  }

  lemma {:induction false} RowsBytes(mem: seq<bv8>, dst: Image, src: Image, r: Bounds, bpp: nat, n: nat, a: nat)
    requires Placed(dst, src, |mem|) && n <= Rows(dst, src, r, bpp) && a < |mem|
    ensures Brought(mem, CopyRows(mem, dst, src, r, bpp, n), src, RowWriter(dst, src, r, bpp, n, a), a)
  {
    if n > 0 {
      RowsBytes(mem, dst, src, r, bpp, n - 1, a);
      CopiedRowInWindows(dst, src, r, bpp, n - 1);
      var to, from, l := Row(dst, r, bpp, n - 1), Row(src, r, bpp, n - 1), RowBytes(r, bpp);
      hide Row, Rows, RowBytes, CopyRow, Brought;
      if to <= a < to + l {
        RowsStayInside(mem, dst, src, r, bpp, n - 1, from + (a - to));
      }
      RowBrought(mem, CopyRows(mem, dst, src, r, bpp, n - 1), src, to, from, l, RowWriter(dst, src, r, bpp, n - 1, a), a);
    }
  }

  /** For all rectangles, strides and deltas: every byte ends as the last copied row that covers it brought
      it from the source as it was at the beginning, and every byte that no copied row covers stays. */
  lemma {:induction false} BlitBytes(mem: seq<bv8>, dst: Image, src: Image, rects: seq<Bounds>, bpp: nat, a: nat)
    requires Placed(dst, src, |mem|) && a < |mem|
    ensures Brought(mem, BlitAll(mem, dst, src, rects, bpp), src, Writer(dst, src, rects, bpp, a), a)
  {
    if rects != [] {
      var front, r := rects[..|rects| - 1], rects[|rects| - 1];
      var mid, n := BlitAll(mem, dst, src, front, bpp), Rows(dst, src, r, bpp);
      BlitBytes(mem, dst, src, front, bpp, a);
      RowsBytes(mid, dst, src, r, bpp, n, a);
      var from := RowWriter(dst, src, r, bpp, n, a);
      if from.Some? {
        BlitStaysInside(mem, dst, src, front, bpp, from.value);
      }
    }
  }

  // ----- the same as pixels, where rows of the region lie within rows of the image -----

  /** The row and the column of the destination that byte `a` belongs to. */
  function PixelRow(dst: Image, a: int): int
    requires dst.pitch > 0
  {
    (a - dst.base) / dst.pitch
  }

  function PixelColumn(dst: Image, bpp: nat, a: int): int
    requires dst.pitch > 0 && bpp > 0
  {
    (a - dst.base) % dst.pitch / bpp
  }

  /** The byte of the source that corresponds to byte `a` of the destination: the same byte of the same
      pixel of the region. */
  function SourceOf(dst: Image, src: Image, bpp: nat, a: int): int
    requires dst.pitch > 0 && bpp > 0
  {
    var y, x := PixelRow(dst, a) - dst.dy, PixelColumn(dst, bpp, a) - dst.dx;
    src.base + (y + src.dy) * src.pitch + (x + src.dx) * bpp + (a - dst.base) % dst.pitch % bpp
  }

  /** Rows of `r` begin within rows of the destination and do not run into the next; offsets fit 32 bits. */
  predicate Plain(dst: Image, src: Image, r: Bounds, bpp: nat) {
    && 0 <= r.x + dst.dx && (r.x + dst.dx + r.w) * bpp <= dst.pitch
    && 0 <= (r.y + dst.dy) * dst.pitch < WORD_LIMIT
    && 0 <= (r.y + src.dy) * src.pitch < WORD_LIMIT
  }

  /** Byte `a` of the destination belongs to a pixel in the columns of `r` and in row `j` of it. */
  predicate InRow(dst: Image, r: Bounds, bpp: nat, j: int, a: int)
    requires dst.pitch > 0 && bpp > 0
  {
    PixelRow(dst, a) == r.y + dst.dy + j && InSpan(Span(r.x, r.w), PixelColumn(dst, bpp, a) - dst.dx)
  }

  lemma DivideAt(n: int, d: nat, at: int)
    requires d > 0
    ensures at * d <= n <==> at <= n / d
  {
    var q := n / d;
    assert q * d <= n < q * d + d;
    if at <= q {
      TimesMonotone(at, q, d);
    } else {
      TimesMonotone(q + 1, at, d);
      assert (q + 1) * d == q * d + d;
    }
  }

  lemma RowAddress(img: Image, r: Bounds, bpp: nat, j: nat)
    requires 0 <= (r.y + img.dy) * img.pitch < WORD_LIMIT
    ensures Row(img, r, bpp, j) == img.base + (r.y + img.dy + j) * img.pitch + (r.x + img.dx) * bpp
  {
    assert (r.y + img.dy + j) * img.pitch == (r.y + img.dy) * img.pitch + j * img.pitch;
  }

  /** A row is the bytes `from` to `to` of row `y`, and `column` is the place of byte `off` in its own row. */
  lemma PlaceInRow(off: int, p: nat, y: int, from: int, to: int)
    requires p > 0 && 0 <= from && to <= p
    ensures y * p + from <= off < y * p + to <==> off / p == y && from <= off % p < to
  {
    DivideAt(off, p, y);
    DivideAt(off, p, y + 1);
    assert (y + 1) * p == y * p + p;
    assert off == off / p * p + off % p;
  }

  lemma RowByte(dst: Image, src: Image, r: Bounds, bpp: nat, j: nat, a: int)
    requires Plain(dst, src, r, bpp) && dst.pitch > 0 && bpp > 0 && r.w > 0
    ensures Row(dst, r, bpp, j) <= a < Row(dst, r, bpp, j) + RowBytes(r, bpp) <==> InRow(dst, r, bpp, j, a)
  {
    RowAddress(dst, r, bpp, j);
    hide Row;
    var off, y, x, p := a - dst.base, r.y + dst.dy + j, r.x + dst.dx, dst.pitch;
    var from, to := x * bpp, (x + r.w) * bpp;
    assert to == from + r.w * bpp;
    TimesMonotone(0, x, bpp);
    PlaceInRow(off, p, y, from, to);
    DivideAt(off % p, bpp, x);
    DivideAt(off % p, bpp, x + r.w);
  }

  lemma RowByteSource(dst: Image, src: Image, r: Bounds, bpp: nat, j: nat, a: int)
    requires Plain(dst, src, r, bpp) && dst.pitch > 0 && bpp > 0 && InRow(dst, r, bpp, j, a)
    ensures Row(src, r, bpp, j) + (a - Row(dst, r, bpp, j)) == SourceOf(dst, src, bpp, a)
  {
    RowAddress(dst, r, bpp, j);
    RowAddress(src, r, bpp, j);
    hide Row;
    var off, p, cx := a - dst.base, dst.pitch, PixelColumn(dst, bpp, a);
    assert off == off / p * p + off % p;
    assert off % p == cx * bpp + off % p % bpp;
    ColumnShift(cx, dst.dx, src.dx, r.x, bpp);
  }

  lemma ColumnShift(c: int, d: int, s: int, x: int, bpp: nat)
    ensures (c - d + s) * bpp == c * bpp - (x + d) * bpp + (x + s) * bpp
  {
    assert (c - d + s) * bpp == c * bpp - d * bpp + s * bpp;
    assert (x + d) * bpp == x * bpp + d * bpp;
    assert (x + s) * bpp == x * bpp + s * bpp;
  }

  // ----- the result as pixels -----

  /** Byte `a` of the destination belongs to a pixel of `r` that is copied. */
  predicate InRows(dst: Image, r: Bounds, bpp: nat, rows: nat, a: int)
    requires dst.pitch > 0 && bpp > 0
  {
    && 0 <= PixelRow(dst, a) - dst.dy - r.y < rows
    && InSpan(Span(r.x, r.w), PixelColumn(dst, bpp, a) - dst.dx)
  }

  /** What copying row `j` does to byte `a`. */
  lemma RowPixel(mem: seq<bv8>, dst: Image, src: Image, r: Bounds, bpp: nat, j: nat, a: nat)
    requires Placed(dst, src, |mem|) && Plain(dst, src, r, bpp) && dst.pitch > 0 && bpp > 0
    requires RowInWindows(dst, src, r, bpp, j) && r.w > 0 && a < |mem|
    ensures InRow(dst, r, bpp, j, a) ==> InWindow(src, SourceOf(dst, src, bpp, a), 1)
    ensures CopyRow(mem, Row(dst, r, bpp, j), Row(src, r, bpp, j), RowBytes(r, bpp))[a] ==
            if InRow(dst, r, bpp, j, a) then mem[SourceOf(dst, src, bpp, a)] else mem[a]
  {
    hide Row, PixelRow, PixelColumn, SourceOf, Plain, InRow, RowBytes;
    RowByte(dst, src, r, bpp, j, a);
    if InRow(dst, r, bpp, j, a) {
      RowByteSource(dst, src, r, bpp, j, a);
    }
  }

  lemma InRowsStep(dst: Image, r: Bounds, bpp: nat, n: nat, a: int)
    requires dst.pitch > 0 && bpp > 0
    ensures InRows(dst, r, bpp, n + 1, a) <==> InRows(dst, r, bpp, n, a) || InRow(dst, r, bpp, n, a)
  {
    hide PixelRow, PixelColumn;
  }

  lemma NothingInNoRows(dst: Image, r: Bounds, bpp: nat, a: int)
    requires dst.pitch > 0 && bpp > 0
    ensures !InRows(dst, r, bpp, 0, a)
  {
    hide PixelRow, PixelColumn;
  }

  lemma {:induction false} RowsPixels(mem: seq<bv8>, dst: Image, src: Image, r: Bounds, bpp: nat, n: nat, a: nat)
    requires Placed(dst, src, |mem|) && Plain(dst, src, r, bpp) && dst.pitch > 0 && bpp > 0
    requires n <= Rows(dst, src, r, bpp) && a < |mem|
    ensures InRows(dst, r, bpp, n, a) ==> InWindow(src, SourceOf(dst, src, bpp, a), 1)
    ensures CopyRows(mem, dst, src, r, bpp, n)[a] ==
            if InRows(dst, r, bpp, n, a) then mem[SourceOf(dst, src, bpp, a)] else mem[a]
  {
    hide Row, PixelRow, PixelColumn, SourceOf, Plain, Rows, InRow, InRows, RowInWindows, CopyRow, RowBytes;
    if n == 0 {
      NothingInNoRows(dst, r, bpp, a);
    } else {
      var prev, s := CopyRows(mem, dst, src, r, bpp, n - 1), SourceOf(dst, src, bpp, a);
      CopiedRowInWindows(dst, src, r, bpp, n - 1);
      RowsPixels(mem, dst, src, r, bpp, n - 1, a);
      RowPixel(prev, dst, src, r, bpp, n - 1, a);
      InRowsStep(dst, r, bpp, n - 1, a);
      if InRow(dst, r, bpp, n - 1, a) {
        RowsStayInside(mem, dst, src, r, bpp, n - 1, s);
      }
    }
  }

  ghost predicate CopiedByte(dst: Image, src: Image, rects: seq<Bounds>, bpp: nat, a: int)
    requires dst.pitch > 0 && bpp > 0
  {
    exists i: nat :: i < |rects| && InRows(dst, rects[i], bpp, Rows(dst, src, rects[i], bpp), a)
  }

  predicate EmptyOrPlain(dst: Image, src: Image, r: Bounds, bpp: nat) {
    Rows(dst, src, r, bpp) == 0 || Plain(dst, src, r, bpp)
  }

  /** Of every rectangle exactly the rows before the first one outside either image are copied, each pixel
      from its own place in the source; every other byte stays. The order of the rectangles, and pixels
      that lie in several of them, make no difference. */
  lemma {:induction false} BlitPixels(mem: seq<bv8>, dst: Image, src: Image, rects: seq<Bounds>, bpp: nat, a: nat)
    requires Placed(dst, src, |mem|) && dst.pitch > 0 && bpp > 0 && a < |mem|
    requires forall i | 0 <= i < |rects| :: EmptyOrPlain(dst, src, rects[i], bpp)
    ensures CopiedByte(dst, src, rects, bpp, a) ==> InWindow(src, SourceOf(dst, src, bpp, a), 1)
    ensures BlitAll(mem, dst, src, rects, bpp)[a] ==
            if CopiedByte(dst, src, rects, bpp, a) then mem[SourceOf(dst, src, bpp, a)] else mem[a]
  {
    if rects != [] {
      var front, r := rects[..|rects| - 1], rects[|rects| - 1];
      BlitPixels(mem, dst, src, front, bpp, a);
      var mid, n, s := BlitAll(mem, dst, src, front, bpp), Rows(dst, src, r, bpp), SourceOf(dst, src, bpp, a);
      hide PixelRow, PixelColumn, SourceOf, Plain, Rows;
      CopiedLast(dst, src, rects, bpp, a);
      if n == 0 {
        NothingInNoRows(dst, r, bpp, a);
        NoRows(mid, dst, src, r, bpp);
      } else {
        RowsPixels(mid, dst, src, r, bpp, n, a);
        if InRows(dst, r, bpp, n, a) {
          BlitStaysInside(mem, dst, src, front, bpp, s);
        }
      }
    }
  }

  lemma CopiedLast(dst: Image, src: Image, rects: seq<Bounds>, bpp: nat, a: int)
    requires dst.pitch > 0 && bpp > 0 && rects != []
    ensures CopiedByte(dst, src, rects, bpp, a) <==>
            || CopiedByte(dst, src, rects[..|rects| - 1], bpp, a)
            || InRows(dst, rects[|rects| - 1], bpp, Rows(dst, src, rects[|rects| - 1], bpp), a)
  {
    hide InRows, Rows;
    var front := rects[..|rects| - 1];
    if CopiedByte(dst, src, front, bpp, a) {
      var i: nat :| i < |front| && InRows(dst, front[i], bpp, Rows(dst, src, front[i], bpp), a);
      assert rects[i] == front[i];
    }
    if CopiedByte(dst, src, rects, bpp, a) {
      var i: nat :| i < |rects| && InRows(dst, rects[i], bpp, Rows(dst, src, rects[i], bpp), a);
      assert i < |front| ==> rects[i] == front[i];
    }
  }

  // ----- clip, then blit -----

  /** The destination holds a buffer of w x h pixels; its row offsets fit 32 bits. */
  predicate HoldsBuffer(dst: Image, bpp: nat, w: Int16, h: Int16) {
    && dst.pitch > 0 && bpp > 0 && 0 <= w && w * bpp <= dst.pitch
    && 0 <= h && (h > 0 ==> (h - 1) * dst.pitch + w * bpp <= dst.size) && dst.size < WORD_LIMIT
  }

  /** All rows of `r` lie in the source image. */
  predicate InSource(src: Image, r: Bounds, bpp: nat) {
    && 0 <= (r.y + src.dy) * src.pitch < WORD_LIMIT
    && forall j: nat | j < r.h :: InWindow(src, Row(src, r, bpp, j), RowBytes(r, bpp))
  }

  lemma ClippedInBuffer(r: Bounds, deltaX: int, deltaY: int, w: Int16, h: Int16)
    requires RectFits(r, deltaX, deltaY, w, h)
    ensures var c := ClipRect(r, deltaX, deltaY, w, h);
            c.w > 0 && c.h > 0 ==> 0 <= c.x + deltaX && c.x + deltaX + c.w <= w && 0 <= c.y + deltaY && c.y + deltaY + c.h <= h
  {
    var c := ClipRect(r, deltaX, deltaY, w, h);
    ClipRectExact(r, deltaX, deltaY, w, h);
    hide ClipRect, RectFits;
    if c.w > 0 && c.h > 0 {
      assert InRect(c, c.x, c.y) && InRect(c, c.x + c.w - 1, c.y + c.h - 1);
      assert KeptPixel(r, deltaX, deltaY, w, h, c.x, c.y);
      assert KeptPixel(r, deltaX, deltaY, w, h, c.x + c.w - 1, c.y + c.h - 1);
    }
  }

  ghost predicate InBuffer(dst: Image, c: Bounds, w: Int16, h: Int16) {
    0 <= c.x + dst.dx && c.x + dst.dx + c.w <= w && 0 <= c.y + dst.dy && c.y + dst.dy + c.h <= h
  }

  lemma InBufferPlain(dst: Image, src: Image, c: Bounds, bpp: nat, w: Int16, h: Int16)
    requires HoldsBuffer(dst, bpp, w, h) && c.w > 0 && c.h > 0 && InSource(src, c, bpp) && InBuffer(dst, c, w, h)
    ensures Plain(dst, src, c, bpp)
  {
    TimesMonotone(c.x + dst.dx + c.w, w, bpp);
    TimesMonotone(0, w, bpp);
    TimesMonotone(c.y + dst.dy, h - 1, dst.pitch);
    TimesMonotone(0, c.y + dst.dy, dst.pitch);
    hide Row, RowBytes;
  }

  lemma RowInBuffer(dst: Image, src: Image, c: Bounds, bpp: nat, w: Int16, h: Int16, j: nat)
    requires HoldsBuffer(dst, bpp, w, h) && c.w > 0 && j < c.h && InSource(src, c, bpp) && InBuffer(dst, c, w, h)
    ensures InWindow(dst, Row(dst, c, bpp, j), RowBytes(c, bpp))
  {
    var y, x, p := c.y + dst.dy + j, c.x + dst.dx, dst.pitch;
    InBufferPlain(dst, src, c, bpp, w, h);
    RowAddress(dst, c, bpp, j);
    hide Row, InSource, Plain;
    TimesMonotone(y, h - 1, p);
    TimesMonotone(0, y, p);
    TimesMonotone(0, x, bpp);
    TimesMonotone(x + c.w, w, bpp);
    assert (x + c.w) * bpp == x * bpp + c.w * bpp;
  }

  /** A rectangle inside the buffer is copied whole. */
  lemma WholeRectCopied(dst: Image, src: Image, c: Bounds, bpp: nat, w: Int16, h: Int16)
    requires HoldsBuffer(dst, bpp, w, h) && c.w > 0 && c.h > 0 && InSource(src, c, bpp) && InBuffer(dst, c, w, h)
    ensures Plain(dst, src, c, bpp) && Rows(dst, src, c, bpp) == c.h
  {
    InBufferPlain(dst, src, c, bpp, w, h);
    hide Row, HoldsBuffer, InBuffer;
    forall j: nat | j < c.h
      ensures RowInWindows(dst, src, c, bpp, j)
    {
      RowInBuffer(dst, src, c, bpp, w, h, j);
    }
  }

  /** Some rectangle has this pixel, and it falls into the buffer. */
  ghost predicate KeptByRegion(region: seq<Bounds>, deltaX: int, deltaY: int, w: Int16, h: Int16, px: int, py: int) {
    exists i: nat :: i < |region| && KeptPixel(region[i], deltaX, deltaY, w, h, px, py)
  }

  /** What a clipped rectangle contributes is exactly what it has inside the buffer. */
  lemma ClippedRectCopied(r: Bounds, dst: Image, src: Image, bpp: nat, w: Int16, h: Int16, a: int)
    requires HoldsBuffer(dst, bpp, w, h) && RectFits(r, dst.dx, dst.dy, w, h)
    requires var c := ClipRect(r, dst.dx, dst.dy, w, h); c.w > 0 && c.h > 0 ==> InSource(src, c, bpp)
    ensures var c := ClipRect(r, dst.dx, dst.dy, w, h);
            && EmptyOrPlain(dst, src, c, bpp)
            && (InRows(dst, c, bpp, Rows(dst, src, c, bpp), a) <==>
                KeptPixel(r, dst.dx, dst.dy, w, h, PixelColumn(dst, bpp, a) - dst.dx, PixelRow(dst, a) - dst.dy))
  {
    var c := ClipRect(r, dst.dx, dst.dy, w, h);
    var px, py := PixelColumn(dst, bpp, a) - dst.dx, PixelRow(dst, a) - dst.dy;
    ClipRectExact(r, dst.dx, dst.dy, w, h);
    assert InRect(c, px, py) <==> KeptPixel(r, dst.dx, dst.dy, w, h, px, py);
    ClippedInBuffer(r, dst.dx, dst.dy, w, h);
    hide ClipRect, RectFits, KeptPixel, PixelColumn, PixelRow;
    if c.w > 0 && c.h > 0 {
      WholeRectCopied(dst, src, c, bpp, w, h);
    }
  }

  function ClippedRegion(region: seq<Bounds>, deltaX: int, deltaY: int, w: Int16, h: Int16): seq<Bounds> {
    seq(|region|, i requires 0 <= i < |region| => ClipRect(region[i], deltaX, deltaY, w, h))
  }

  /** What the copy asks for: the numbers fit 16 bits, and the rows that are left lie in the source. */
  predicate Copyable(region: seq<Bounds>, dst: Image, src: Image, bpp: nat, w: Int16, h: Int16) {
    forall i: nat | i < |region| ::
      && RectFits(region[i], dst.dx, dst.dy, w, h)
      && var c := ClipRect(region[i], dst.dx, dst.dy, w, h);
         c.w > 0 && c.h > 0 ==> InSource(src, c, bpp)
  }

  /** Byte `a` after the copy: a pixel of the region that falls into the buffer comes from the source, every
      other byte of memory is as it was. */
  ghost predicate PixelCopied(was: seq<bv8>, now: seq<bv8>, region: seq<Bounds>, dst: Image, src: Image, bpp: nat,
                              w: Int16, h: Int16, a: nat)
    requires dst.pitch > 0 && bpp > 0 && a < |was| == |now|
  {
    if KeptByRegion(region, dst.dx, dst.dy, w, h, PixelColumn(dst, bpp, a) - dst.dx, PixelRow(dst, a) - dst.dy) then
      InWindow(src, SourceOf(dst, src, bpp, a), 1) && SourceOf(dst, src, bpp, a) < |was|
      && now[a] == was[SourceOf(dst, src, bpp, a)]
    else now[a] == was[a]
  }

  /** Clipping and then blitting copies exactly the pixels of the region that fall into the buffer. */
  lemma ClipThenBlit(mem: seq<bv8>, region: seq<Bounds>, dst: Image, src: Image, bpp: nat, w: Int16, h: Int16, a: nat)
    requires Placed(dst, src, |mem|) && HoldsBuffer(dst, bpp, w, h) && a < |mem|
    requires Copyable(region, dst, src, bpp, w, h)
    ensures PixelCopied(mem, BlitAll(mem, dst, src, ClippedRegion(region, dst.dx, dst.dy, w, h), bpp),
                        region, dst, src, bpp, w, h, a)
  {
    var px, py := PixelColumn(dst, bpp, a) - dst.dx, PixelRow(dst, a) - dst.dy;
    var clipped := ClippedRegion(region, dst.dx, dst.dy, w, h);
    hide ClipRect, RectFits, KeptPixel, PixelColumn, PixelRow, SourceOf, InRows, Rows, InSource, Plain, EmptyOrPlain, BlitAll;
    forall i: nat | i < |region|
      ensures EmptyOrPlain(dst, src, clipped[i], bpp)
      ensures InRows(dst, clipped[i], bpp, Rows(dst, src, clipped[i], bpp), a) <==>
              KeptPixel(region[i], dst.dx, dst.dy, w, h, px, py)
    {
      ClippedRectCopied(region[i], dst, src, bpp, w, h, a);
    }
    assert CopiedByte(dst, src, clipped, bpp, a) <==> KeptByRegion(region, dst.dx, dst.dy, w, h, px, py);
    BlitPixels(mem, dst, src, clipped, bpp, a);
  }

  /** The part of `copy_surface_region_to_self` that moves pixels. */
  method CopyRegion(mem: array<bv8>, region: array<Bounds>, dst: Image, src: Image, bpp: nat, bufferW: Int16, bufferH: Int16)
    requires Placed(dst, src, mem.Length) && HoldsBuffer(dst, bpp, bufferW, bufferH)
    requires Copyable(region[..], dst, src, bpp, bufferW, bufferH) && mem as object != region
    modifies mem, region
    ensures forall a: nat | a < mem.Length ::
              PixelCopied(old(mem[..]), mem[..], old(region[..]), dst, src, bpp, bufferW, bufferH, a)
  {
    hide ClipRect, Copyable, PixelCopied, BlitAll;
    ghost var was, rects := mem[..], region[..];
    ClipRegionToBuffer(region, dst.dx, dst.dy, bufferW, bufferH);
    assert region[..] == ClippedRegion(rects, dst.dx, dst.dy, bufferW, bufferH);
    assert mem[..] == was;
    forall i | 0 <= i < region.Length
      ensures RowsApart(dst, src, region[i], bpp)
    {
      DisjointImagesApart(dst, src, region[i], bpp, mem.Length);
    }
    GenericBlitCopy(mem, dst, src, region[..], bpp);
    assert mem[..] == BlitAll(was, dst, src, ClippedRegion(rects, dst.dx, dst.dy, bufferW, bufferH), bpp);
    forall a: nat | a < mem.Length
      ensures PixelCopied(was, mem[..], rects, dst, src, bpp, bufferW, bufferH, a)
    {
      ClipThenBlit(was, rects, dst, src, bpp, bufferW, bufferH, a);
    }
  }
}
