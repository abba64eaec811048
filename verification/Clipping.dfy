/** `clipRegionToBuffer`: 16-bit rectangles cut down to what falls into a buffer. */
module Clipping {

  type Int16 = x: int | -0x8000 <= x < 0x8000

  /** What an `int16_t` keeps of a value stored in it. */
  function Wrap16(x: int): Int16 {
    (x + 0x8000) % 0x10000 - 0x8000
  }

  /** `IOAccelBounds`. */
  datatype Bounds = Bounds(x: Int16, y: Int16, w: Int16, h: Int16)

  /** One axis of a rectangle. */
  datatype Span = Span(start: Int16, len: Int16)

  predicate InSpan(s: Span, p: int) {
    s.start <= p < s.start + s.len
  }

  predicate InRect(r: Bounds, px: int, py: int) {
    InSpan(Span(r.x, r.w), px) && InSpan(Span(r.y, r.h), py)
  }

  /** `p` lies in the span, and in the buffer once it is moved by `delta`. */
  predicate Kept(s: Span, delta: int, limit: Int16, p: int) {
    InSpan(s, p) && 0 <= p + delta < limit
  }

  /** What the source computes for one axis, 16-bit stores included. */
  function ClipAxis(s: Span, delta: int, limit: Int16): Span {
    var p := s.start + delta;
    var front := if p < 0 then Span(Wrap16(-delta), Wrap16(s.len + p)) else s;
    var q := if p < 0 then 0 else p;
    var len := if q + front.len > limit then Wrap16(limit - q) else front.len;
    Span(front.start, if len < 0 then 0 else len)
  }

  function ClipRect(r: Bounds, deltaX: int, deltaY: int, bufferW: Int16, bufferH: Int16): Bounds {
    var x, y := ClipAxis(Span(r.x, r.w), deltaX, bufferW), ClipAxis(Span(r.y, r.h), deltaY, bufferH);
    Bounds(x.start, y.start, x.len, y.len)
  }

  /** The body of the loop. */
  method ClipBounds(rect0: Bounds, deltaX: int, deltaY: int, bufferW: Int16, bufferH: Int16) returns (rect: Bounds)
    ensures rect == ClipRect(rect0, deltaX, deltaY, bufferW, bufferH)
  {
    hide Wrap16;
    rect := rect0;
    var x, y := rect.x + deltaX, rect.y + deltaY;
    if x < 0 {
      rect := rect.(x := Wrap16(-deltaX), w := Wrap16(rect.w + x));
      x := 0;
    }
    if y < 0 {
      rect := rect.(y := Wrap16(-deltaY), h := Wrap16(rect.h + y));
      y := 0;
    }
    if x + rect.w > bufferW {
      rect := rect.(w := Wrap16(bufferW - x));
    }
    if y + rect.h > bufferH {
      rect := rect.(h := Wrap16(bufferH - y));
    }
    if rect.w < 0 {
      rect := rect.(w := 0);
    }
    if rect.h < 0 {
      rect := rect.(h := 0);
    }
  }

  // ----- when 16 bits are enough -----

  /** The stores on one axis lose nothing that matters: a span that begins before the buffer and reaches
      into it has its new start in range, and a span that misses the buffer does not wrap to a positive length. */
  predicate Fits(s: Span, delta: int, limit: Int16) {
    var p := s.start + delta;
    if p < 0 then limit <= 0 || (if s.len + p > 0 then -delta < 0x8000 else Wrap16(s.len + p) <= 0)
    else p + s.len <= limit || limit > p || Wrap16(limit - p) <= 0
  }

  /** The clipped span has exactly the pixels that fall into the buffer if and only if it fits. */
  lemma ClipAxisExact(s: Span, delta: int, limit: Int16)
    ensures Fits(s, delta, limit) <==> forall p :: InSpan(ClipAxis(s, delta, limit), p) <==> Kept(s, delta, limit, p)
    ensures !Fits(s, delta, limit) ==>
              var c := ClipAxis(s, delta, limit); InSpan(c, c.start) && !Kept(s, delta, limit, c.start)
  {
    var c := ClipAxis(s, delta, limit);
    if Fits(s, delta, limit) {
      forall p
        ensures InSpan(c, p) <==> Kept(s, delta, limit, p)
      {
      }
    } else {
      assert c.len > 0;
      assert InSpan(c, c.start);
      assert !Kept(s, delta, limit, c.start);
    }
  }

  /** Plain sufficient bounds: no sum leaves the 16-bit range. */
  lemma SmallNumbersFit(s: Span, delta: int, limit: Int16)
    requires -0x8000 <= s.len + s.start + delta && -delta < 0x8000 && s.start + delta <= limit + 0x8000
    ensures Fits(s, delta, limit)
  {
  }

  /** Outside that range pixels can appear from nowhere: this span lies 40000 pixels to the left of the
      buffer, and yet 25636 pixels of width remain. */
  lemma FarLeftWraps()
    ensures ClipAxis(Span(-20000, 100), -20000, 0x7FFF) == Span(20000, 25636)
    ensures forall p :: !Kept(Span(-20000, 100), -20000, 0x7FFF, p)
  {
  }

  predicate NothingKept(s: Span, delta: int, limit: Int16) {
    s.len <= 0 || limit <= 0 || s.start + s.len + delta <= 0 || s.start + delta >= limit
  }

  /** A pixel that is kept, if there is one. */
  function AnyKept(s: Span, delta: int, limit: Int16): int {
    if s.start + delta < 0 then -delta else s.start
  }

  lemma NothingKeptMeaning(s: Span, delta: int, limit: Int16)
    ensures NothingKept(s, delta, limit) <==> forall p :: !Kept(s, delta, limit, p)
    ensures !NothingKept(s, delta, limit) ==> Kept(s, delta, limit, AnyKept(s, delta, limit))
  {
    if !NothingKept(s, delta, limit) {
      assert Kept(s, delta, limit, AnyKept(s, delta, limit));
    }
  }

  /** A pixel of a rectangle that falls into the buffer. */
  predicate KeptPixel(r: Bounds, deltaX: int, deltaY: int, bufferW: Int16, bufferH: Int16, px: int, py: int) {
    Kept(Span(r.x, r.w), deltaX, bufferW, px) && Kept(Span(r.y, r.h), deltaY, bufferH, py)
  }

  predicate RectFits(r: Bounds, deltaX: int, deltaY: int, bufferW: Int16, bufferH: Int16) {
    var x, y := Span(r.x, r.w), Span(r.y, r.h);
    && (Fits(x, deltaX, bufferW) || Fits(y, deltaY, bufferH))
    && (Fits(x, deltaX, bufferW) || NothingKept(y, deltaY, bufferH))
    && (Fits(y, deltaY, bufferH) || NothingKept(x, deltaX, bufferW))
  }

  /** The clipped rectangle has exactly the pixels that fall into the buffer if and only if both axes fit,
      or one does and leaves nothing. */
  lemma ClipRectExact(r: Bounds, deltaX: int, deltaY: int, bufferW: Int16, bufferH: Int16)
    ensures RectFits(r, deltaX, deltaY, bufferW, bufferH) <==>
            forall px, py :: InRect(ClipRect(r, deltaX, deltaY, bufferW, bufferH), px, py) <==>
                             KeptPixel(r, deltaX, deltaY, bufferW, bufferH, px, py)
  {
    var x, y := Span(r.x, r.w), Span(r.y, r.h);
    var c := ClipRect(r, deltaX, deltaY, bufferW, bufferH);
    ClipAxisExact(x, deltaX, bufferW);
    ClipAxisExact(y, deltaY, bufferH);
    NothingKeptMeaning(x, deltaX, bufferW);
    NothingKeptMeaning(y, deltaY, bufferH);
    hide ClipAxis, Fits, Kept, NothingKept;
    var cx, cy := ClipAxis(x, deltaX, bufferW), ClipAxis(y, deltaY, bufferH);
    if !RectFits(r, deltaX, deltaY, bufferW, bufferH) {
      // a pixel that the clipped rectangle has and should not have
      var qx := if Fits(x, deltaX, bufferW) then AnyKept(x, deltaX, bufferW) else cx.start;
      var qy := if Fits(y, deltaY, bufferH) then AnyKept(y, deltaY, bufferH) else cy.start;
      assert InRect(c, qx, qy) && !KeptPixel(r, deltaX, deltaY, bufferW, bufferH, qx, qy);
    } else {
      forall px, py
        ensures InRect(c, px, py) <==> KeptPixel(r, deltaX, deltaY, bufferW, bufferH, px, py)
      {
        assert InSpan(cx, px) && InSpan(cy, py) <==> InRect(c, px, py);
      }
    }
  }

  // ----- how large the clipped rectangle is -----

  /** The pixels of a span that fall into the buffer. */
  function KeptPixels(s: Span, delta: int, limit: Int16): set<int> {
    set p | s.start <= p < s.start + s.len && Kept(s, delta, limit, p)
  }

  predicate Between(from: int, past: int, p: int) {
    from <= p < past
  }

  function Interval(from: int, past: int): set<int> {
    set p | from <= p < past && Between(from, past, p)
  }

  lemma {:induction false} IntervalSize(from: int, past: int)
    ensures |Interval(from, past)| == if from < past then past - from else 0
    decreases past - from
  {
    if from < past {
      IntervalSize(from, past - 1);
      assert Interval(from, past) == Interval(from, past - 1) + {past - 1};
    } else {
      assert Interval(from, past) == {};
    }
  }

  /** A clipped span is never of negative length; where it fits it has as many pixels as fall into the buffer,
      and so none where none do. */
  lemma ClippedLength(s: Span, delta: int, limit: Int16)
    ensures ClipAxis(s, delta, limit).len >= 0
    ensures ClipAxis(s, delta, limit).start == if s.start + delta < 0 then Wrap16(-delta) else s.start
    ensures Fits(s, delta, limit) ==> ClipAxis(s, delta, limit).len == |KeptPixels(s, delta, limit)|
    ensures NothingKept(s, delta, limit) <==> KeptPixels(s, delta, limit) == {}
  {
    var from := if s.start < -delta then -delta else s.start;
    var past := if s.start + s.len < limit - delta then s.start + s.len else limit - delta;
    assert KeptPixels(s, delta, limit) == Interval(from, past);
    IntervalSize(from, past);
    if from < past {
      assert from in Interval(from, past);
    }
  }

  /** The corner of a clipped rectangle moves only to where the buffer begins, its size is never negative, and an
      axis on which the stores lose nothing is as long as the part of it that falls into the buffer. */
  ghost predicate ClippedTo(r: Bounds, c: Bounds, deltaX: int, deltaY: int, bufferW: Int16, bufferH: Int16) {
    && c.w >= 0 && c.h >= 0
    && c.x == (if r.x + deltaX < 0 then Wrap16(-deltaX) else r.x)
    && c.y == (if r.y + deltaY < 0 then Wrap16(-deltaY) else r.y)
    && (Fits(Span(r.x, r.w), deltaX, bufferW) ==> c.w == |KeptPixels(Span(r.x, r.w), deltaX, bufferW)|)
    && (Fits(Span(r.y, r.h), deltaY, bufferH) ==> c.h == |KeptPixels(Span(r.y, r.h), deltaY, bufferH)|)
  }

  lemma ClippedSize(r: Bounds, deltaX: int, deltaY: int, bufferW: Int16, bufferH: Int16)
    ensures ClippedTo(r, ClipRect(r, deltaX, deltaY, bufferW, bufferH), deltaX, deltaY, bufferW, bufferH)
  {
    ClippedLength(Span(r.x, r.w), deltaX, bufferW);
    ClippedLength(Span(r.y, r.h), deltaY, bufferH);
  }

  /** `clipRegionToBuffer`. */
  method ClipRegionToBuffer(region: array<Bounds>, deltaX: int, deltaY: int, bufferW: Int16, bufferH: Int16)
    modifies region
    ensures forall i | 0 <= i < region.Length :: region[i] == ClipRect(old(region[i]), deltaX, deltaY, bufferW, bufferH)
    ensures forall i | 0 <= i < region.Length :: region[i].w >= 0 && region[i].h >= 0
    ensures forall i | 0 <= i < region.Length :: ClippedTo(old(region[i]), region[i], deltaX, deltaY, bufferW, bufferH)
  {
    hide ClipRect, Fits, KeptPixels;
    for i := 0 to region.Length
      invariant forall k | 0 <= k < region.Length ::
                  region[k] == if k < i then ClipRect(old(region[k]), deltaX, deltaY, bufferW, bufferH) else old(region[k])
    {
      region[i] := ClipBounds(region[i], deltaX, deltaY, bufferW, bufferH);
    }
    forall i | 0 <= i < region.Length
      ensures ClippedTo(old(region[i]), region[i], deltaX, deltaY, bufferW, bufferH)
    {
      ClippedSize(old(region[i]), deltaX, deltaY, bufferW, bufferH);
    }
  }
}
