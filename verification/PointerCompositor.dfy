// PointerCompositor: the mouse pointer drawn into a frame of four bytes a pixel, in place.
module PointerCompositing {
  import opened Machine
  import Bits

  const OPAQUE_BITS: int := 0xFF00_0000
  const RGB_RANGE: int := 0x100_0000

  datatype Kind = Color | MaskedColor | Monochrome

  // A pointer shape and where it is; a position may lie anywhere, off the frame included.
  datatype Pointer = Pointer(kind: Kind, width: nat, height: nat, pitch: nat, shape: Text, x: int, y: int) {
    // The rows of pixels that are drawn: a monochrome shape holds its two masks one above the other.
    function Rows(): nat
    {
      if kind == Monochrome then height / 2 else height
    }

    // The shape has all its rows, and a row has all its pixels.
    predicate Complete() { |shape| >= pitch * height }
    predicate WideEnough() { if kind == Monochrome then width <= pitch * 8 else width * 4 <= pitch }
  }

  // ---------------------------------------------------------------------------------------------
  // One pixel.

  function LoadPixel(p: Text): (w: Word32)
    requires |p| == 4
  {
    p[0] as int + p[1] as int * 0x100 + p[2] as int * 0x1_0000 + p[3] as int * RGB_RANGE
  }

  function StoredPixel(w: Word32): (p: Text)
    ensures |p| == 4
  {
    [w % 0x100, w / 0x100 % 0x100, w / 0x1_0000 % 0x100, w / RGB_RANGE]
  }

  function Blend(src: Byte, dst: Byte, alpha: Byte): Byte
  {
    BlendFits(src, dst, alpha);
    (src as int * alpha + dst as int * (255 - alpha as int) + 127) / 255
  }

  lemma BlendFits(src: int, dst: int, alpha: int)
    requires 0 <= src < 0x100 && 0 <= dst < 0x100 && 0 <= alpha < 0x100
    ensures 0 <= (src * alpha + dst * (255 - alpha) + 127) / 255 < 0x100
  {
    Scaled(0, src, alpha);
    Scaled(src, 255, alpha);
    Scaled(0, dst, 255 - alpha);
    Scaled(dst, 255, 255 - alpha);
  }

  function MaskBit(row: Text, x: nat): bool
    requires x / 8 < |row|
  {
    row[x / 8] as int / Bits.Pow2(7 - x % 8) % 2 == 1
  }

  // A word with its top byte set, as `| kOpaque` leaves it.
  function Opaque(w: Word32): Word32
  {
    w % RGB_RANGE + OPAQUE_BITS
  }

  function XorWords(a: Word32, b: Word32): Word32
  {
    WordRange();
    Bits.XorFits(a, b, 32);
    Bits.Xor(a, b)
  }

  lemma WordRange()
    ensures Bits.Pow2(32) == TWO32 && Bits.Pow2(8) == 0x100 && Bits.Pow2(16) == 0x1_0000 && Bits.Pow2(24) == RGB_RANGE
  {
    assert Bits.Pow2(4) == 16 && Bits.Pow2(12) == 4096;
    assert Bits.Pow2(20) == 0x10_0000 && Bits.Pow2(28) == 0x1000_0000;
  }

  function MaskedWord(src: Word32, screen: Word32): Word32
  {
    Opaque(if src / RGB_RANGE != 0 then XorWords(screen, src) % RGB_RANGE else src % RGB_RANGE)
  }

  // andMask keeps the screen or clears its colour, xorMask flips the colour or leaves it.
  function MonochromeWord(screen: Word32, keep: bool, flip: bool): Word32
  {
    var kept: Word32 := if keep then screen else screen - screen % RGB_RANGE;
    Opaque(if flip then XorWords(kept, RGB_RANGE - 1) else kept)
  }

  // The pixel (sx, sy) of a coloured shape, and the two mask bits of a monochrome one.
  function ShapePixel(p: Pointer, sx: nat, sy: nat): (px: Text)
    requires p.Complete() && p.WideEnough() && sx < p.width && sy < p.Rows() && p.kind != Monochrome
    ensures |px| == 4
  {
    ShapeIsInside(p, sx, sy);
    p.shape[sy * p.pitch + sx * 4..][..4]
  }

  function Keeps(p: Pointer, sx: nat, sy: nat): bool
    requires p.Complete() && p.WideEnough() && sx < p.width && sy < p.Rows() && p.kind == Monochrome
  {
    ShapeIsInside(p, sx, sy);
    MaskBit(p.shape[sy * p.pitch..], sx)
  }

  function Flips(p: Pointer, sx: nat, sy: nat): bool
    requires p.Complete() && p.WideEnough() && sx < p.width && sy < p.Rows() && p.kind == Monochrome
  {
    ShapeIsInside(p, sx, sy);
    MaskBit(p.shape[(sy + p.Rows()) * p.pitch..], sx)
  }

  function Blended(src: Text, screen: Text): (px: Text)
    requires |src| == 4 && |screen| == 4
    ensures |px| == 4
  {
    [Blend(src[0], screen[0], src[3]), Blend(src[1], screen[1], src[3]), Blend(src[2], screen[2], src[3]), 0xFF]
  }

  // What becomes of a pixel of the frame under the pixel (sx, sy) of the shape.
  function Combined(p: Pointer, sx: nat, sy: nat, screen: Text): (px: Text)
    requires p.Complete() && p.WideEnough() && sx < p.width && sy < p.Rows() && |screen| == 4
    ensures |px| == 4
  {
    match p.kind
    case Color => Blended(ShapePixel(p, sx, sy), screen)
    case MaskedColor => StoredPixel(MaskedWord(LoadPixel(ShapePixel(p, sx, sy)), LoadPixel(screen)))
    case Monochrome => StoredPixel(MonochromeWord(LoadPixel(screen), Keeps(p, sx, sy), Flips(p, sx, sy)))
  }

  // Every access to the shape is inside it.
  lemma ShapeIsInside(p: Pointer, sx: nat, sy: nat)
    requires p.Complete() && p.WideEnough() && sx < p.width && sy < p.Rows()
    ensures p.kind != Monochrome ==> sy * p.pitch + sx * 4 + 4 <= |p.shape|
    ensures p.kind == Monochrome ==>
              && sy * p.pitch + sx / 8 < |p.shape|
              && (sy + p.Rows()) * p.pitch + sx / 8 < |p.shape|
  {
    Scaled(sy + 1, p.height, p.pitch);
    assert (sy + 1) * p.pitch == sy * p.pitch + p.pitch;
    if p.kind == Monochrome {
      var t := sy + p.Rows();
      Scaled(t + 1, p.height, p.pitch);
      assert (t + 1) * p.pitch == t * p.pitch + p.pitch;
    }
  }

  // ---------------------------------------------------------------------------------------------
  // The frame.

  function PixelAt(buf: Text, k: nat): (px: Text)
    requires 4 * k + 4 <= |buf|
    ensures |px| == 4
  {
    buf[4 * k..4 * k + 4]
  }

  // Pixel k of a frame of this width lies under the pointer.
  predicate Covered(p: Pointer, width: nat, k: nat)
    requires width > 0
  {
    0 <= k % width - p.x < p.width && 0 <= k / width - p.y < p.Rows()
  }

  // What pixel k is to become.
  function Wanted(p: Pointer, width: nat, k: nat, screen: Text): Text
    requires p.Complete() && p.WideEnough() && width > 0 && |screen| == 4
  {
    if Covered(p, width, k) then Combined(p, k % width - p.x, k / width - p.y, screen) else screen
  }

  // The whole effect of drawing: every pixel under the pointer is combined once, everything else in
  // the buffer stays.
  ghost predicate IsDrawn(p: Pointer, width: nat, height: nat, before: Text, after: Text)
    requires p.Complete() && p.WideEnough() && 4 * (width * height) <= |before|
  {
    && |after| == |before|
    && after[4 * (width * height)..] == before[4 * (width * height)..]
    && (width > 0 ==>
        forall k | 0 <= k < width * height :: PixelAt(after, k) == Wanted(p, width, k, PixelAt(before, k)))
  }

  function Replaced(buf: Text, k: nat, px: Text): (r: Text)
    requires |px| == 4 && 4 * k + 4 <= |buf|
    ensures |r| == |buf|
  {
    buf[..4 * k] + px + buf[4 * k + 4..]
  }

  lemma ReplacedPixel(buf: Text, k: nat, px: Text, j: nat)
    requires |px| == 4 && 4 * k + 4 <= |buf| && 4 * j + 4 <= |buf|
    ensures PixelAt(Replaced(buf, k, px), j) == if j == k then px else PixelAt(buf, j)
  {
  }

  // The pixels of the frame that the loops have come to when they stand at (sx, sy) of the shape.
  predicate Passed(p: Pointer, width: nat, k: nat, sx: nat, sy: nat)
    requires width > 0
  {
    Covered(p, width, k) && (k / width - p.y < sy || (k / width - p.y == sy && k % width - p.x < sx))
  }

  ghost predicate DrawnUpTo(p: Pointer, width: nat, height: nat, before: Text, now: Text, sx: nat, sy: nat)
    requires p.Complete() && p.WideEnough() && width > 0 && 4 * (width * height) <= |before|
  {
    && |now| == |before|
    && now[4 * (width * height)..] == before[4 * (width * height)..]
    && forall k | 0 <= k < width * height ::
         PixelAt(now, k) ==
         if Passed(p, width, k, sx, sy) then Wanted(p, width, k, PixelAt(before, k)) else PixelAt(before, k)
  }

  class PointerCompositor {
    var visible: bool
    var kind: Option<Kind>
    var width: nat
    var height: nat
    var pitch: nat
    var shape: Text
    var x: int
    var y: int

    constructor ()
      ensures !visible && shape == []
    {
      visible, kind, width, height, pitch, shape, x, y := false, None, 0, 0, 0, [], 0, 0;
    }

    method UpdatePosition(nowVisible: bool, newX: int, newY: int)
      modifies this`visible, this`x, this`y
      ensures visible == nowVisible && x == newX && y == newY
    {
      visible := nowVisible;
      x, y := newX, newY;
    }

    method UpdateShape(newKind: Option<Kind>, newWidth: nat, newHeight: nat, newPitch: nat, newShape: Text)
      modifies this`kind, this`width, this`height, this`pitch, this`shape
      ensures kind == newKind && width == newWidth && height == newHeight && pitch == newPitch && shape == newShape
    {
      kind, width, height, pitch, shape := newKind, newWidth, newHeight, newPitch, newShape;
    }

    function Shown(): Option<Pointer>
      reads this
    {
      match kind
      case Some(k) => Some(Pointer(k, width, height, pitch, shape, x, y))
      case None => None
    }

    // Is anything drawn at all?
    predicate Draws(bytes: nat, w: nat, h: nat)
      reads this
    {
      visible && shape != [] && bytes >= w * h * 4 && Shown().Some? && Shown().value.Complete()
    }

    // Exactly when the pointer is visible, its shape is there, known and complete, and the frame is all there.
    lemma DrawsIff(bytes: nat, w: nat, h: nat)
      ensures Draws(bytes, w, h) <==>
                visible && |shape| > 0 && kind.Some? && bytes >= 4 * (w * h) && |shape| >= pitch * height
      ensures kind.Some? ==> Shown() == Some(Pointer(kind.value, width, height, pitch, shape, x, y))
    {
    }

    method DrawOnto(bgra: array<Byte>, w: nat, h: nat)
      requires Shown().Some? ==> Shown().value.WideEnough()
      modifies bgra
      ensures Draws(bgra.Length, w, h) ==> IsDrawn(Shown().value, w, h, old(bgra[..]), bgra[..])
      ensures !Draws(bgra.Length, w, h) ==> bgra[..] == old(bgra[..])
    {
      if !visible || shape == [] || bgra.Length < w * h * 4 {
        return;
      }
      match kind {
        case None =>
        case Some(k) =>
          var p := Pointer(k, width, height, pitch, shape, x, y);
          if |shape| < pitch * height {
            return;
          }
          ForEachCovered(p, bgra, w, h);
      }
    }
  }

  // The double loop over the shape that all three ways of drawing share.
  method ForEachCovered(p: Pointer, bgra: array<Byte>, width: nat, height: nat)
    requires p.Complete() && p.WideEnough() && 4 * (width * height) <= bgra.Length
    modifies bgra
    ensures IsDrawn(p, width, height, old(bgra[..]), bgra[..])
  {
    hide Combined, Replaced, PixelAt, Covered, Passed, DrawnUpTo, IsDrawn;
    ghost var before := bgra[..];
    if width > 0 {
      NothingDrawnYet(p, width, height, before);
      var sy := 0;
      while sy < p.Rows()
        invariant 0 <= sy <= p.Rows()
        invariant DrawnUpTo(p, width, height, before, bgra[..], 0, sy)
      {
        var y := p.y + sy;
        if 0 <= y < height {
          var sx := 0;
          while sx < p.width
            invariant 0 <= sx <= p.width
            invariant DrawnUpTo(p, width, height, before, bgra[..], sx, sy)
          {
            var x := p.x + sx;
            if 0 <= x < width {
              PixelIndex(x, y, width, height);
              DrawOne(p, width, height, before, bgra[..], sx, sy, y * width + x);
              PutPixel(p, bgra, y * width + x, sx, sy);
            } else {
              NothingUnder(p, width, height, before, bgra[..], sx, sy);
            }
            sx := sx + 1;
          }
        } else {
          NoRowUnder(p, width, height, before, bgra[..], sy);
        }
        NextRow(p, width, height, before, bgra[..], sy);
        sy := sy + 1;
      }
      AllDrawn(p, width, height, before, bgra[..]);
    } else {
      NoWidth(p, width, height, before, bgra[..]);
    }
  }

  // One pixel, channel by channel or as a word.
  method PutPixel(p: Pointer, bgra: array<Byte>, k: nat, sx: nat, sy: nat)
    requires p.Complete() && p.WideEnough() && sx < p.width && sy < p.Rows()
    requires 4 * k + 4 <= bgra.Length
    modifies bgra
    ensures bgra[..] == Replaced(old(bgra[..]), k, Combined(p, sx, sy, PixelAt(old(bgra[..]), k)))
  {
    hide Blended, MaskedWord, MonochromeWord, LoadPixel, StoredPixel, ShapePixel, Keeps, Flips;
    var at := 4 * k;
    assert bgra[at..at + 4] == PixelAt(bgra[..], k);
    match p.kind {
      case Color =>
        BlendPixel(bgra, at, ShapePixel(p, sx, sy));
      case MaskedColor =>
        var src := LoadPixel(ShapePixel(p, sx, sy));
        StorePixel(bgra, at, MaskedWord(src, LoadPixel(bgra[at..at + 4])));
      case Monochrome =>
        var keep := Keeps(p, sx, sy);
        var flip := Flips(p, sx, sy);
        StorePixel(bgra, at, MonochromeWord(LoadPixel(bgra[at..at + 4]), keep, flip));
    }
  }

  method BlendPixel(bgra: array<Byte>, at: nat, src: Text)
    requires at + 4 <= bgra.Length && |src| == 4
    modifies bgra
    ensures bgra[..] == old(bgra[..])[..at] + Blended(src, old(bgra[at..at + 4])) + old(bgra[..])[at + 4..]
  {
    hide Blend;
    ghost var was := bgra[..];
    ghost var screen := bgra[at..at + 4];
    var alpha := src[3];
    var c := 0;
    while c < 3
      invariant 0 <= c <= 3
      invariant forall i | 0 <= i < bgra.Length ::
                  bgra[i] == if at <= i < at + c then Blend(src[i - at], old(bgra[i]), alpha) else old(bgra[i])
    {
      bgra[at + c] := Blend(src[c], bgra[at + c], alpha);
      c := c + 1;
    }
    bgra[at + 3] := 0xFF;
    assert bgra[at] == Blend(src[0], screen[0], alpha) && bgra[at + 1] == Blend(src[1], screen[1], alpha);
    assert bgra[at + 2] == Blend(src[2], screen[2], alpha);
    assert bgra[at..at + 4] == Blended(src, screen);
    assert bgra[..at] == was[..at] && bgra[at + 4..] == was[at + 4..];
    assert bgra[..] == bgra[..at] + bgra[at..at + 4] + bgra[at + 4..];
  }

  method StorePixel(bgra: array<Byte>, at: nat, w: Word32)
    requires at + 4 <= bgra.Length
    modifies bgra
    ensures bgra[..] == old(bgra[..])[..at] + StoredPixel(w) + old(bgra[..])[at + 4..]
  {
    bgra[at] := w % 0x100;
    bgra[at + 1] := w / 0x100 % 0x100;
    bgra[at + 2] := w / 0x1_0000 % 0x100;
    bgra[at + 3] := w / RGB_RANGE;
  }

  // ---------------------------------------------------------------------------------------------
  // The steps of the double loop.

  lemma PixelIndex(x: nat, y: nat, width: nat, height: nat)
    requires x < width && y < height
    ensures (y * width + x) % width == x && (y * width + x) / width == y
    ensures y * width + x < width * height
  {
    Scaled(y + 1, height, width);
    assert (y + 1) * width == y * width + width;
    var k := y * width + x;
    var q := k / width;
    assert k == q * width + k % width && (q + 1) * width == q * width + width;
    if q > y { Scaled(y + 1, q, width); }
    if q < y { Scaled(q + 1, y, width); }
  }

  lemma NothingDrawnYet(p: Pointer, width: nat, height: nat, before: Text)
    requires p.Complete() && p.WideEnough() && width > 0 && 4 * (width * height) <= |before|
    ensures DrawnUpTo(p, width, height, before, before, 0, 0)
  {
    hide Wanted;
  }

  lemma AllDrawn(p: Pointer, width: nat, height: nat, before: Text, now: Text)
    requires p.Complete() && p.WideEnough() && width > 0 && 4 * (width * height) <= |before|
    requires DrawnUpTo(p, width, height, before, now, 0, p.Rows())
    ensures IsDrawn(p, width, height, before, now)
  {
    hide Combined, PixelAt;
    forall k | 0 <= k < width * height
      ensures PixelAt(now, k) == Wanted(p, width, k, PixelAt(before, k)) {
      assert Passed(p, width, k, 0, p.Rows()) == Covered(p, width, k);
    }
  }

  lemma NoWidth(p: Pointer, width: nat, height: nat, before: Text, now: Text)
    requires p.Complete() && p.WideEnough() && width == 0 && now == before
    requires 4 * (width * height) <= |before|
    ensures IsDrawn(p, width, height, before, now)
  {
  }

  lemma DrawOne(p: Pointer, width: nat, height: nat, before: Text, now: Text, sx: nat, sy: nat, k: nat)
    requires p.Complete() && p.WideEnough() && 4 * (width * height) <= |before|
    requires sx < p.width && sy < p.Rows() && 0 <= p.x + sx < width && 0 <= p.y + sy < height
    requires DrawnUpTo(p, width, height, before, now, sx, sy)
    requires k == (p.y + sy) * width + p.x + sx && k < width * height
    ensures DrawnUpTo(p, width, height, before, Replaced(now, k, Combined(p, sx, sy, PixelAt(now, k))), sx + 1, sy)
  {
    hide Combined, PixelAt, Replaced;
    PixelIndex(p.x + sx, p.y + sy, width, height);
    var px := Combined(p, sx, sy, PixelAt(now, k));
    var next := Replaced(now, k, px);
    assert !Passed(p, width, k, sx, sy);
    forall j | 0 <= j < width * height
      ensures PixelAt(next, j) ==
              if Passed(p, width, j, sx + 1, sy) then Wanted(p, width, j, PixelAt(before, j)) else PixelAt(before, j) {
      ReplacedPixel(now, k, px, j);
      OneMorePassed(p, width, height, j, sx, sy);
    }
    TailStays(now, k, px, width * height);
  }

  lemma TailStays(buf: Text, k: nat, px: Text, n: nat)
    requires |px| == 4 && k < n && 4 * n <= |buf|
    ensures Replaced(buf, k, px)[4 * n..] == buf[4 * n..]
  {
  }

  lemma OneMorePassed(p: Pointer, width: nat, height: nat, j: nat, sx: nat, sy: nat)
    requires width > 0 && sx < p.width && sy < p.Rows() && 0 <= p.x + sx < width && 0 <= p.y + sy
    ensures Passed(p, width, j, sx + 1, sy) <==> Passed(p, width, j, sx, sy) || j == (p.y + sy) * width + p.x + sx
  {
    PixelIndex(p.x + sx, p.y + sy, width, p.y + sy + 1);
    assert j == j / width * width + j % width;
  }

  lemma NothingUnder(p: Pointer, width: nat, height: nat, before: Text, now: Text, sx: nat, sy: nat)
    requires p.Complete() && p.WideEnough() && width > 0 && 4 * (width * height) <= |before|
    requires !(0 <= p.x + sx < width) && DrawnUpTo(p, width, height, before, now, sx, sy)
    ensures DrawnUpTo(p, width, height, before, now, sx + 1, sy)
  {
    hide Wanted, PixelAt;
    forall k | 0 <= k < width * height ensures Passed(p, width, k, sx + 1, sy) == Passed(p, width, k, sx, sy) {
    }
  }

  lemma NoRowUnder(p: Pointer, width: nat, height: nat, before: Text, now: Text, sy: nat)
    requires p.Complete() && p.WideEnough() && width > 0 && 4 * (width * height) <= |before|
    requires !(0 <= p.y + sy < height) && DrawnUpTo(p, width, height, before, now, 0, sy)
    ensures DrawnUpTo(p, width, height, before, now, p.width, sy)
  {
    hide DrawnUpTo;
    forall k | 0 <= k < width * height ensures Passed(p, width, k, p.width, sy) == Passed(p, width, k, 0, sy) {
      RowIsInside(k, width, height);
    }
    SamePassed(p, width, height, before, now, 0, sy, p.width, sy);
  }

  lemma SamePassed(p: Pointer, width: nat, height: nat, before: Text, now: Text, sx: nat, sy: nat, tx: nat, ty: nat)
    requires p.Complete() && p.WideEnough() && width > 0 && 4 * (width * height) <= |before|
    requires DrawnUpTo(p, width, height, before, now, sx, sy)
    requires forall k | 0 <= k < width * height :: Passed(p, width, k, tx, ty) == Passed(p, width, k, sx, sy)
    ensures DrawnUpTo(p, width, height, before, now, tx, ty)
  {
    hide Wanted, PixelAt, Passed;
  }

  lemma RowIsInside(k: nat, width: nat, height: nat)
    requires width > 0 && k < width * height
    ensures k / width < height
  {
    var q := k / width;
    assert k == q * width + k % width;
    if q >= height { Scaled(height, q, width); }
  }

  lemma NextRow(p: Pointer, width: nat, height: nat, before: Text, now: Text, sy: nat)
    requires p.Complete() && p.WideEnough() && width > 0 && 4 * (width * height) <= |before|
    requires DrawnUpTo(p, width, height, before, now, p.width, sy)
    ensures DrawnUpTo(p, width, height, before, now, 0, sy + 1)
  {
    hide Wanted, PixelAt;
    forall k | 0 <= k < width * height ensures Passed(p, width, k, 0, sy + 1) == Passed(p, width, k, p.width, sy) {
    }
  }

  // ---------------------------------------------------------------------------------------------
  // What the combinations mean.

  // Blending rounds to the nearest byte and stays between the two it blends.
  lemma BlendIsNearest(src: Byte, dst: Byte, alpha: Byte)
    ensures var exact := src as int * alpha + dst as int * (255 - alpha as int);
            && -127 <= 255 * Blend(src, dst, alpha) as int - exact <= 127
            && Min(src, dst) <= Blend(src, dst, alpha) <= Max(src, dst)
  {
    var s: int, d: int, a: int := src, dst, alpha;
    var lo, hi := Min(s, d), Max(s, d);
    Scaled(lo, s, a);
    Scaled(s, hi, a);
    Scaled(lo, d, 255 - a);
    Scaled(d, hi, 255 - a);
    assert lo * a + lo * (255 - a) == 255 * lo && hi * a + hi * (255 - a) == 255 * hi;
  }

  function XorBytes(a: Byte, b: Byte): Byte
  {
    WordRange();
    Bits.XorFits(a, b, 8);
    Bits.Xor(a, b)
  }

  // Words are combined byte by byte.
  lemma XorByChannel(p: Text, q: Text)
    requires |p| == 4 && |q| == 4
    ensures XorWords(LoadPixel(p), LoadPixel(q))
            == LoadPixel([XorBytes(p[0], q[0]), XorBytes(p[1], q[1]), XorBytes(p[2], q[2]), XorBytes(p[3], q[3])])
  {
    hide Bits.Xor;
    WordRange();
    var a1 := p[1] as int + p[2] as int * 0x100 + p[3] as int * 0x1_0000;
    var b1 := q[1] as int + q[2] as int * 0x100 + q[3] as int * 0x1_0000;
    var a2, b2 := p[2] as int + p[3] as int * 0x100, q[2] as int + q[3] as int * 0x100;
    Bits.XorOfParts(a1, b1, p[0], q[0], 8);
    Bits.XorOfParts(a2, b2, p[1], q[1], 8);
    Bits.XorOfParts(p[3], q[3], p[2], q[2], 8);
  }

  lemma StoreUndoesLoad(p: Text)
    requires |p| == 4
    ensures StoredPixel(LoadPixel(p)) == p
  {
    var w := LoadPixel(p);
    assert w / 0x100 == p[1] as int + p[2] as int * 0x100 + p[3] as int * 0x1_0000;
    assert w / 0x1_0000 == p[2] as int + p[3] as int * 0x100;
  }

  lemma OpaquePixel(p: Text)
    requires |p| == 4
    ensures StoredPixel(Opaque(LoadPixel(p))) == [p[0], p[1], p[2], 0xFF]
    ensures StoredPixel(Opaque(LoadPixel(p) % RGB_RANGE)) == [p[0], p[1], p[2], 0xFF]
  {
    var q := [p[0], p[1], p[2], 0xFF];
    var rgb := p[0] as int + p[1] as int * 0x100 + p[2] as int * 0x1_0000;
    assert LoadPixel(p) % RGB_RANGE == rgb && rgb % RGB_RANGE == rgb;
    assert Opaque(LoadPixel(p)) == LoadPixel(q);
    StoreUndoesLoad(q);
  }

  // A masked-colour pixel: with a mask it is flipped by the shape, without one it is the shape; either
  // way it becomes opaque.
  lemma MaskedColorByChannel(src: Text, screen: Text)
    requires |src| == 4 && |screen| == 4
    ensures StoredPixel(MaskedWord(LoadPixel(src), LoadPixel(screen))) ==
              if src[3] != 0
              then [XorBytes(screen[0], src[0]), XorBytes(screen[1], src[1]), XorBytes(screen[2], src[2]), 0xFF]
              else [src[0], src[1], src[2], 0xFF]
  {
    hide XorBytes, XorWords, Opaque, StoredPixel;
    TopByte(src);
    if src[3] != 0 {
      XorByChannel(screen, src);
      OpaquePixel([XorBytes(screen[0], src[0]), XorBytes(screen[1], src[1]),
                   XorBytes(screen[2], src[2]), XorBytes(screen[3], src[3])]);
    } else {
      OpaquePixel(src);
    }
  }

  lemma TopByte(p: Text)
    requires |p| == 4
    ensures LoadPixel(p) / RGB_RANGE == p[3]
  {
  }

  // A monochrome pixel: the screen, black, white, or the screen inverted, and opaque.
  lemma MonochromeByChannel(screen: Text, keep: bool, flip: bool)
    requires |screen| == 4
    ensures StoredPixel(MonochromeWord(LoadPixel(screen), keep, flip)) ==
              var c := (b: Byte) => if !keep then if flip then 0xFF else 0 else if flip then XorBytes(b, 0xFF) else b;
              [c(screen[0]), c(screen[1]), c(screen[2]), 0xFF]
  {
    hide XorWords, Opaque, StoredPixel, Bits.Xor;
    var kept := if keep then screen else [0, 0, 0, screen[3]];
    assert LoadPixel([0, 0, 0, screen[3]]) == LoadPixel(screen) - LoadPixel(screen) % RGB_RANGE;
    var all := [0xFF, 0xFF, 0xFF, 0];
    assert LoadPixel(all) == RGB_RANGE - 1;
    XorByChannel(kept, all);
    OpaquePixel([XorBytes(kept[0], 0xFF), XorBytes(kept[1], 0xFF), XorBytes(kept[2], 0xFF), XorBytes(kept[3], 0)]);
    OpaquePixel(kept);
    ZeroFlipped();
  }

  lemma ZeroFlipped()
    ensures XorBytes(0, 0xFF) == 0xFF
  {
    assert Bits.Xor(0, 15) == 15;
  }

  // Whatever the kind, a pixel under the pointer becomes opaque.
  lemma CoveredIsOpaque(p: Pointer, sx: nat, sy: nat, screen: Text)
    requires p.Complete() && p.WideEnough() && sx < p.width && sy < p.Rows() && |screen| == 4
    ensures Combined(p, sx, sy, screen)[3] == 0xFF
  {
    hide MaskedWord, MonochromeWord, ShapePixel, Keeps, Flips, Blend, LoadPixel, StoredPixel, XorBytes;
    match p.kind
    case Color =>
    case MaskedColor =>
      MaskedColorByChannel(ShapePixel(p, sx, sy), screen);
    case Monochrome =>
      MonochromeByChannel(screen, Keeps(p, sx, sy), Flips(p, sx, sy));
  }

  lemma CombinedTwice(p: Pointer, sx: nat, sy: nat, screen: Text)
    requires p.Complete() && p.WideEnough() && sx < p.width && sy < p.Rows() && |screen| == 4
    requires p.kind == MaskedColor && ShapePixel(p, sx, sy)[3] != 0
    ensures Combined(p, sx, sy, Combined(p, sx, sy, screen))[..3] == screen[..3]
  {
    hide MaskedWord, LoadPixel, StoredPixel, ShapePixel;
    var src := ShapePixel(p, sx, sy);
    MaskedColorByChannel(src, screen);
    MaskedColorByChannel(src, Combined(p, sx, sy, screen));
    Bits.XorTwice(screen[0], src[0]);
    Bits.XorTwice(screen[1], src[1]);
    Bits.XorTwice(screen[2], src[2]);
  }

  lemma CombinedUnmasked(p: Pointer, sx: nat, sy: nat, screen: Text)
    requires p.Complete() && p.WideEnough() && sx < p.width && sy < p.Rows() && |screen| == 4
    requires p.kind == MaskedColor && ShapePixel(p, sx, sy)[3] == 0
    ensures Combined(p, sx, sy, screen)[..3] == ShapePixel(p, sx, sy)[..3]
  {
    hide MaskedWord, LoadPixel, StoredPixel, ShapePixel;
    MaskedColorByChannel(ShapePixel(p, sx, sy), screen);
  }

  // Drawing a masked-colour pointer a second time gives a pixel its colour back wherever the pointer
  // is not, or carries the mask, or has that very colour; and nowhere else.
  lemma DrawingTwiceRestoresIff(p: Pointer, width: nat, height: nat, a: Text, b: Text, c: Text)
    requires p.Complete() && p.WideEnough() && p.kind == MaskedColor
    requires width > 0 && 4 * (width * height) <= |a|
    requires IsDrawn(p, width, height, a, b) && IsDrawn(p, width, height, b, c)
    ensures forall k | 0 <= k < width * height ::
              PixelAt(c, k)[..3] == PixelAt(a, k)[..3] <==>
                (Covered(p, width, k) ==>
                 var px := ShapePixel(p, k % width - p.x, k / width - p.y);
                 px[3] != 0 || px[..3] == PixelAt(a, k)[..3])
  {
    hide Combined, ShapePixel;
    forall k | 0 <= k < width * height
      ensures PixelAt(c, k)[..3] == PixelAt(a, k)[..3] <==>
                (Covered(p, width, k) ==>
                 var px := ShapePixel(p, k % width - p.x, k / width - p.y);
                 px[3] != 0 || px[..3] == PixelAt(a, k)[..3]) {
      if Covered(p, width, k) {
        var sx, sy := k % width - p.x, k / width - p.y;
        assert PixelAt(b, k) == Combined(p, sx, sy, PixelAt(a, k));
        assert PixelAt(c, k) == Combined(p, sx, sy, PixelAt(b, k));
        if ShapePixel(p, sx, sy)[3] != 0 {
          CombinedTwice(p, sx, sy, PixelAt(a, k));
        } else {
          CombinedUnmasked(p, sx, sy, PixelAt(b, k));
        }
      } else {
        assert PixelAt(b, k) == PixelAt(a, k) && PixelAt(c, k) == PixelAt(b, k);
      }
    }
  }

  // ---------------------------------------------------------------------------------------------
  // The drawing, said in bytes.

  // The bits of a mask are those of its bytes, the highest first.
  lemma MaskBitsHighestFirst(row: Text, j: nat, i: nat)
    requires j < |row| && i < 8
    ensures (8 * j + i) / 8 == j
    ensures var w := if i == 0 then 128 else if i == 1 then 64 else if i == 2 then 32 else if i == 3 then 16
                     else if i == 4 then 8 else if i == 5 then 4 else if i == 6 then 2 else 1;
            MaskBit(row, 8 * j + i) <==> row[j] as int / w % 2 == 1
  {
    assert (8 * j + i) / 8 == j && (8 * j + i) % 8 == i;
    assert Bits.Pow2(3) == 8 && Bits.Pow2(7) == 16 * Bits.Pow2(3) && Bits.Pow2(6) == 8 * Bits.Pow2(3);
  }

  // A coloured pixel: each channel of the frame is blended with the same channel of the shape, by the alpha
  // of the shape, and rounded to the nearest.
  lemma ColorIsBlended(p: Pointer, sx: nat, sy: nat, screen: Text)
    requires p.Complete() && p.WideEnough() && sx < p.width && sy < p.height && |screen| == 4 && p.kind == Color
    ensures var at, r := sy * p.pitch + 4 * sx, Combined(p, sx, sy, screen);
            && at + 3 < |p.shape| && r[3] == 255
            && forall c | 0 <= c < 3 ::
                 var alpha: int := p.shape[at + 3];
                 -127 <= 255 * r[c] as int - (p.shape[at + c] as int * alpha + screen[c] as int * (255 - alpha)) <= 127
  {
    ShapeIsInside(p, sx, sy);
    var at := sy * p.pitch + 4 * sx;
    ShapeBytes(p, sx, sy);
    hide Blend, ShapePixel;
    forall c | 0 <= c < 3 ensures Combined(p, sx, sy, screen)[c] == Blend(p.shape[at + c], screen[c], p.shape[at + 3]) {
    }
    BlendIsNearest(p.shape[at], screen[0], p.shape[at + 3]);
    BlendIsNearest(p.shape[at + 1], screen[1], p.shape[at + 3]);
    BlendIsNearest(p.shape[at + 2], screen[2], p.shape[at + 3]);
  }

  lemma ShapeBytes(p: Pointer, sx: nat, sy: nat)
    requires p.Complete() && p.WideEnough() && sx < p.width && sy < p.Rows() && p.kind != Monochrome
    ensures var at := sy * p.pitch + 4 * sx;
            at + 3 < |p.shape|
            && ShapePixel(p, sx, sy) == [p.shape[at], p.shape[at + 1], p.shape[at + 2], p.shape[at + 3]]
  {
    ShapeIsInside(p, sx, sy);
  }

  // A masked pixel: XOR where the fourth byte of the shape is set, and the colour of the shape where it is not.
  lemma MaskedColorIs(p: Pointer, sx: nat, sy: nat, screen: Text)
    requires p.Complete() && p.WideEnough() && sx < p.width && sy < p.height && |screen| == 4 && p.kind == MaskedColor
    ensures var at := sy * p.pitch + 4 * sx;
            && at + 3 < |p.shape|
            && Combined(p, sx, sy, screen) ==
                 if p.shape[at + 3] != 0
                 then [XorBytes(screen[0], p.shape[at]), XorBytes(screen[1], p.shape[at + 1]),
                       XorBytes(screen[2], p.shape[at + 2]), 255]
                 else [p.shape[at], p.shape[at + 1], p.shape[at + 2], 255]
  {
    ShapeBytes(p, sx, sy);
    hide XorBytes, LoadPixel, StoredPixel, MaskedWord, ShapePixel;
    MaskedColorByChannel(ShapePixel(p, sx, sy), screen);
  }

  // A monochrome pixel: the bit in the upper half of the shape keeps the screen or makes it black, and the
  // one in the lower half turns the outcome over.
  lemma MonochromeIs(p: Pointer, sx: nat, sy: nat, screen: Text)
    requires p.Complete() && p.WideEnough() && p.kind == Monochrome
    requires sx < p.width && sy < p.height / 2 && |screen| == 4
    ensures sy * p.pitch + sx / 8 < |p.shape| && (sy + p.height / 2) * p.pitch + sx / 8 < |p.shape|
    ensures var keep := MaskBit(p.shape[sy * p.pitch..], sx);
            var flip := MaskBit(p.shape[(sy + p.height / 2) * p.pitch..], sx);
            var r := Combined(p, sx, sy, screen);
            && r[3] == 255
            && forall c | 0 <= c < 3 ::
                 r[c] as int == if keep then if flip then 255 - screen[c] as int else screen[c] as int
                                else if flip then 255 else 0
  {
    ShapeIsInside(p, sx, sy);
    MonochromeByChannel(screen, Keeps(p, sx, sy), Flips(p, sx, sy));
    TurnedOver(screen[0]);
    TurnedOver(screen[1]);
    TurnedOver(screen[2]);
    hide XorBytes, LoadPixel, StoredPixel, MonochromeWord, MaskBit;
  }

  lemma TurnedOver(b: Byte)
    ensures XorBytes(b, 0xFF) as int == 255 - b as int
  {
    WordRange();
    Bits.XorOnes(b, 8);
  }

  // Where a pixel of the frame is drawn over, and with what.
  lemma PixelIsDrawn(p: Pointer, width: nat, height: nat, before: Text, after: Text, x: nat, y: nat)
    requires p.Complete() && p.WideEnough() && 4 * (width * height) <= |before|
    requires IsDrawn(p, width, height, before, after) && x < width && y < height
    ensures var k := y * width + x;
            var rows := if p.kind == Monochrome then p.height / 2 else p.height;
            && 4 * k + 4 <= |before| == |after|
            && after[4 * k..4 * k + 4] ==
                 if p.x <= x < p.x + p.width && p.y <= y < p.y + rows
                 then Combined(p, x - p.x, y - p.y, before[4 * k..4 * k + 4])
                 else before[4 * k..4 * k + 4]
  {
    PixelIndex(x, y, width, height);
    hide Combined;
    assert PixelAt(after, y * width + x) == Wanted(p, width, y * width + x, PixelAt(before, y * width + x));
  }
}
