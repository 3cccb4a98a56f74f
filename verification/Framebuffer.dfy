/**
  gui_fill_rect and mark of gui/framebuffer.c: clipping, two-pixel stores and dirty bands,
  against a pointwise description of the picture.
*/
module Framebuffer {
  const LCD_W: int := 480
  const LCD_H: int := 800
  const BANDS: int := LCD_H / 16 + 1

  type uint16 = n: int | 0 <= n < 0x1_0000
  type int16 = n: int | -0x8000 <= n < 0x8000

  /** Conversion of an int to int16_t. */
  function ToInt16(n: int): int16 {
    var m := n % 0x1_0000;
    if m < 0x8000 then m else m - 0x1_0000
  }

  // ---------- clipping ----------

  datatype Rect = Rect(x: int, y: int, w: int, h: int) {
    predicate Contains(px: int, py: int) {
      x <= px < x + w && y <= py < y + h
    }

    predicate OnScreen() {
      0 <= x && 0 <= y && 0 < w && 0 < h && x + w <= LCD_W && y + h <= LCD_H
    }
  }

  const NOTHING := Rect(0, 0, 0, 0)

  /** One axis: a start below zero is moved to zero and the extent shortened, in int16_t arithmetic. */
  function ClipLow(at: int16, len: int16): (r: (int16, int16)) {
    if at < 0 then (0, ToInt16(len + at)) else (at, len)
  }

  function ClipHigh(at: int16, len: int16, limit: int16): int16
    requires 0 <= at && 0 < limit
  {
    if at + len > limit then limit - at else len
  }

  /** The rectangle gui_fill_rect goes on to write, or NOTHING. */
  function Clip(x: int16, y: int16, w: int16, h: int16): Rect {
    var (x', w') := ClipLow(x, w);
    var (y', h') := ClipLow(y, h);
    var cw, ch := ClipHigh(x', w', LCD_W), ClipHigh(y', h', LCD_H);
    if cw <= 0 || ch <= 0 then NOTHING else Rect(x', y', cw, ch)
  }

  /** The pixels asked for: the rectangle's intersection with the screen. */
  ghost predicate Asked(x: int, y: int, w: int, h: int, px: int, py: int) {
    Rect(x, y, w, h).Contains(px, py) && 0 <= px < LCD_W && 0 <= py < LCD_H
  }

  ghost predicate ClipIsExact(x: int16, y: int16, w: int16, h: int16) {
    forall px, py :: Clip(x, y, w, h).Contains(px, py) <==> Asked(x, y, w, h, px, py)
  }

  /** The sum len + at falls below int16_t and comes back positive. */
  predicate Wraps(at: int16, len: int16) {
    at < 0 && len + at < -0x8000 && len + at != -0x1_0000
  }

  /** Part of [at, at + len) as the code sees it lies below limit, starting at or above zero. */
  predicate Visible(at: int16, len: int16, limit: int16)
  {
    Wraps(at, len) || (at < limit && 0 < len && 0 < at + len)
  }

  lemma AxisMeets(at: int16, len: int16, limit: int16, p: int)
    requires 0 < limit && !Wraps(at, len)
    ensures var (a, l) := ClipLow(at, len);
      a <= p < a + ClipHigh(a, l, limit) <==> at <= p < at + len && 0 <= p < limit
  {
  }

  lemma AxisVisible(at: int16, len: int16, limit: int16)
    requires 0 < limit
    ensures var (a, l) := ClipLow(at, len);
      ClipHigh(a, l, limit) > 0 <==> Visible(at, len, limit)
  {
  }

  /**
    The clipped rectangle is exactly the intersection asked for, unless a negative extent wraps
    around on one axis while the other axis is visible.
  */
  lemma ClipExactIff(x: int16, y: int16, w: int16, h: int16)
    ensures ClipIsExact(x, y, w, h)
       <==> !(Wraps(x, w) && Visible(y, h, LCD_H)) && !(Wraps(y, h) && Visible(x, w, LCD_W))
  {
    AxisVisible(x, w, LCD_W);
    AxisVisible(y, h, LCD_H);
    var r := Clip(x, y, w, h);
    if (Wraps(x, w) && Visible(y, h, LCD_H)) || (Wraps(y, h) && Visible(x, w, LCD_W)) {
      // a negative extent asks for nothing, yet the top left corner of r would be painted
      assert r.Contains(r.x, r.y);
      assert !Asked(x, y, w, h, r.x, r.y);
    } else if !Wraps(x, w) && !Wraps(y, h) {
      forall px, py ensures r.Contains(px, py) <==> Asked(x, y, w, h, px, py) {
        AxisMeets(x, w, LCD_W, px);
        AxisMeets(y, h, LCD_H, py);
      }
    }
  }

  /** Callers that pass no negative extent always get the intersection. */
  lemma NonNegativeIsExact(x: int16, y: int16, w: int16, h: int16)
    requires 0 <= w && 0 <= h
    ensures ClipIsExact(x, y, w, h)
  {
  }

  /** A rectangle of width -1 starting at -32768 paints the whole first row of the screen. */
  lemma NegativeWidthPaints()
    ensures Clip(-32768, 0, -1, 1) == Rect(0, 0, 480, 1)
    ensures forall px, py :: !Asked(-32768, 0, -1, 1, px, py)
  {
  }

  // ---------- the picture ----------

  function Index(px: int, py: int): int { py * LCD_W + px }

  /** Pixel k of the buffer lies in r. */
  ghost predicate Covered(r: Rect, k: int) {
    r.Contains(k % LCD_W, k / LCD_W)
  }

  /** Some row of r lies in band b. */
  ghost predicate BandMeets(r: Rect, b: int) {
    exists py {:trigger py / 16} :: r.y <= py < r.y + r.h && py / 16 == b
  }

  class Screen {
    const fb: array<uint16>
    const dirty: array<bool>

    ghost predicate Valid() {
      fb.Length == LCD_W * LCD_H && dirty.Length == BANDS
    }

    constructor ()
      ensures Valid() && fresh(fb) && fresh(dirty)
    {
      fb := new uint16[LCD_W * LCD_H];
      dirty := new bool[BANDS];
    }

    method Mark(y: int, h: int)
      requires Valid() && 0 <= y && 0 < h
      modifies dirty
      ensures forall b | 0 <= b < BANDS :: dirty[b] == (old(dirty[b]) || y / 16 <= b <= (y + h - 1) / 16)
    {
      var a, z := y / 16, (y + h - 1) / 16;
      var i := a;
      while i <= z && i < BANDS
        invariant a <= i && (i <= z + 1 || i == a)
        invariant forall b | 0 <= b < BANDS :: dirty[b] == (old(dirty[b]) || (a <= b < i && b <= z))
      {
        dirty[i] := true;
        i := i + 1;
      }
    }

    /** One row of w pixels from d on: pairs first, then the odd one. */
    method FillRow(d: int, w: int, c: uint16)
      requires Valid() && 0 <= d && 0 < w && d + w <= LCD_W * LCD_H
      modifies fb
      ensures forall k | 0 <= k < fb.Length :: fb[k] == if d <= k < d + w then c else old(fb[k])
    {
      for i := 0 to w / 2
        invariant forall k | 0 <= k < fb.Length :: fb[k] == if d <= k < d + 2 * i then c else old(fb[k])
      {
        fb[d + 2 * i] := c;
        fb[d + 2 * i + 1] := c;
      }
      if w % 2 == 1 {
        fb[d + w - 1] := c;
      }
    }

    method FillRect(x0: int16, y0: int16, w0: int16, h0: int16, c: uint16)
      requires Valid()
      modifies fb, dirty
      ensures forall k | 0 <= k < fb.Length ::
                fb[k] == if Covered(Clip(x0, y0, w0, h0), k) then c else old(fb[k])
      ensures forall b | 0 <= b < BANDS ::
                dirty[b] == (old(dirty[b]) || BandMeets(Clip(x0, y0, w0, h0), b))
    {
      var x: int16, y: int16, w: int16, h: int16 := x0, y0, w0, h0;
      if x < 0 {
        w := ToInt16(w + x);
        x := 0;
      }
      if y < 0 {
        h := ToInt16(h + y);
        y := 0;
      }
      if x + w > LCD_W {
        w := LCD_W - x;
      }
      if y + h > LCD_H {
        h := LCD_H - y;
      }
      ghost var r := Clip(x0, y0, w0, h0);
      if w <= 0 || h <= 0 {
        return;
      }
      assert r == Rect(x, y, w, h) && r.OnScreen();
      Mark(y, h);
      MarkedBands(r);
      var d := Index(x, y);
      for i := 0 to h
        invariant d == Index(x, y + i)
        invariant forall b | 0 <= b < BANDS :: dirty[b] == (old(dirty[b]) || BandMeets(r, b))
        invariant forall k | 0 <= k < fb.Length ::
                    fb[k] == if Covered(Rect(x, y, w, i), k) then c else old(fb[k])
      {
        RowJoins(x, y, w, i);
        FillRow(d, w, c);
        d := d + LCD_W;
      }
    }
  }

  /** The stretch of w pixels starting at column x of row y is the pixels of that row. */
  lemma RowOf(x: int, y: int, w: int, k: int)
    requires 0 <= x && 0 < w && x + w <= LCD_W && 0 <= y && 0 <= k
    ensures Index(x, y) <= k < Index(x, y) + w <==> x <= k % LCD_W < x + w && k / LCD_W == y
  {
    var q, p := k / LCD_W, k % LCD_W;
    assert k == q * LCD_W + p;
  }

  /** One more row of a rectangle is one more stretch of w pixels. */
  lemma RowJoins(x: int, y: int, w: int, i: int)
    requires 0 <= x && 0 < w && x + w <= LCD_W && 0 <= y && 0 <= i
    ensures forall k | 0 <= k ::
      Covered(Rect(x, y, w, i + 1), k) <==> Covered(Rect(x, y, w, i), k) || Index(x, y + i) <= k < Index(x, y + i) + w
  {
    forall k | 0 <= k
      ensures Covered(Rect(x, y, w, i + 1), k) <==>
              Covered(Rect(x, y, w, i), k) || Index(x, y + i) <= k < Index(x, y + i) + w
    {
      RowOf(x, y + i, w, k);
    }
  }

  lemma MarkedBands(r: Rect)
    requires r.OnScreen()
    ensures forall b :: r.y / 16 <= b <= (r.y + r.h - 1) / 16 <==> BandMeets(r, b)
  {
    forall b | r.y / 16 <= b <= (r.y + r.h - 1) / 16 ensures BandMeets(r, b) {
      var py := if 16 * b < r.y then r.y else 16 * b;
      assert py / 16 == b;
    }
  }

  // ---------- what the caller sees ----------

  /**
    For extents that are not negative, a picture painted over Clip is the picture the caller asked
    for: exactly the pixels of the intersection, each at its own place in the buffer.
  */
  lemma PaintedPicture(before: seq<uint16>, after: seq<uint16>, x: int16, y: int16, w: int16, h: int16, c: uint16)
    requires |before| == |after| == LCD_W * LCD_H
    requires 0 <= w && 0 <= h
    requires forall k | 0 <= k < |after| :: after[k] == if Covered(Clip(x, y, w, h), k) then c else before[k]
    ensures |after| == 480 * 800
    ensures forall px, py | 0 <= px < 480 && 0 <= py < 800 ::
              0 <= Index(px, py) < |after| &&
              after[Index(px, py)] == if Rect(x, y, w, h).Contains(px, py) then c else before[Index(px, py)]
  {
    NonNegativeIsExact(x, y, w, h);
    forall px, py | 0 <= px < LCD_W && 0 <= py < LCD_H
      ensures 0 <= Index(px, py) < |after|
      ensures after[Index(px, py)] == if Rect(x, y, w, h).Contains(px, py) then c else before[Index(px, py)]
    {
      PixelAt(px, py);
      assert Clip(x, y, w, h).Contains(px, py) <==> Asked(x, y, w, h, px, py);
      assert Covered(Clip(x, y, w, h), Index(px, py)) <==> Clip(x, y, w, h).Contains(px, py);
    }
  }

  /** A fill marks a band exactly when it paints a pixel in it; a fill that paints nothing marks nothing. */
  lemma MarkedIffPainted(x: int16, y: int16, w: int16, h: int16, b: int)
    ensures BandMeets(Clip(x, y, w, h), b) <==> exists px, py :: Clip(x, y, w, h).Contains(px, py) && py / 16 == b
  {
    var r := Clip(x, y, w, h);
    if BandMeets(r, b) {
      var py :| r.y <= py < r.y + r.h && py / 16 == b;
      assert r.Contains(r.x, py);
    }
    if px, py :| r.Contains(px, py) && py / 16 == b {
      assert py / 16 == b;
    }
  }

  lemma PixelAt(px: int, py: int)
    requires 0 <= px < LCD_W && 0 <= py < LCD_H
    ensures 0 <= Index(px, py) < LCD_W * LCD_H && Index(px, py) % LCD_W == px && Index(px, py) / LCD_W == py
  {
  }
}
