/**
 * Reconstruction of a 32x32 icon image from its tiled 4-bit bitmap.
 *
 * The bitmap stores 16 tiles of 8x8 pixels, tiles in row-major order, pixels of a
 * tile in row-major order, two pixels per byte with the left pixel in the low
 * nibble.  Each nibble selects one of 16 palette colours; index 0 is transparent.
 * The renderer walks the tiles and hands every pixel to a drawing callback, after
 * optionally mirroring its position horizontally and/or vertically.
 *
 * The callback is modelled by the sequence of calls it receives (`Blit`), and the
 * image the caller draws with it by painting those calls, in order, onto a blank
 * 32x32 raster (`Paint`, `Render`).
 */
module Tiles {
  import opened ByteReader
  import opened Arith
  import opened Color
  import opened Icon

  /** How one frame is drawn: mirroring, and (for animations) which frame, palette and delay. */
  datatype IconAnimation = IconAnimation(flipVert: bool, flipHoriz: bool, palette: u8, bitmap: u8, duration: u8)

  /** The settings used for the still icon: no mirroring, everything zero. */
  const Still := IconAnimation(false, false, 0, 0, 0)

  /** Side length of an icon in pixels. */
  const Side: nat := 32

  datatype Point = Point(x: nat, y: nat)

  /** One call of the drawing callback: put `color` at (`x`, `y`). */
  datatype Blit = Blit(x: nat, y: nat, color: Rgba)

  predicate InGrid(p: Point)
  {
    p.x < Side && p.y < Side
  }

  /** The `n`-th pixel index of the bitmap: low nibble of a byte first, then high nibble. */
  function NibbleAt(bitmap: seq<u8>, n: nat): (v: nat)
    requires n < 2 * |bitmap|
    ensures v < 16
  {
    if n % 2 == 0 then bitmap[n / 2] % 16 else bitmap[n / 2] / 16
  }

  /** Each byte is the pair of pixel indices it holds, low nibble first. */
  lemma NibblesRebuildByte(bitmap: seq<u8>, i: nat)
    requires i < |bitmap|
    ensures bitmap[i] == NibbleAt(bitmap, 2 * i) + 16 * NibbleAt(bitmap, 2 * i + 1)
  {
  }

  /**
   * Where the pixel at `p` is stored in the tiled layout: tile (p.x / 8, p.y / 8)
   * of a 4-tile-wide grid, row p.y % 8 and column p.x % 8 within the tile.
   */
  function NibbleIndex(p: Point): (n: nat)
    requires InGrid(p)
    ensures n < 1024
  {
    64 * (4 * (p.y / 8) + p.x / 8) + 8 * (p.y % 8) + p.x % 8
  }

  /** The colour drawn for pixel index `index`: transparent for 0, else the widened palette colour. */
  function ColorOf(palette: IconPalette, index: nat): (c: Rgba)
    requires palette.Valid() && index < 16
    ensures c.a == 0 <==> index == 0
    ensures index == 0 ==> c == Transparent
    ensures index != 0 ==> c == Expand(palette.colors[index])
  {
    if index == 0 then Transparent else Expand(palette.colors[index])
  }

  /** `v` mirrored across the icon when `flip` is set. */
  function Mirror(flip: bool, v: nat): (m: nat)
    requires v < Side
    ensures m < Side
    ensures flip ==> m + v == Side - 1
    ensures !flip ==> m == v
  {
    if flip then Side - 1 - v else v
  }

  /** Mirroring twice gives the position back. */
  lemma MirrorInvolution(flip: bool, v: nat)
    requires v < Side
    ensures Mirror(flip, Mirror(flip, v)) == v
  {
  }

  /**
   * The image the renderer is meant to produce, stated directly: the pixel at `p`
   * shows the stored pixel at the mirror image of `p`.
   */
  function PixelAt(bitmap: seq<u8>, palette: IconPalette, anim: IconAnimation, p: Point): (c: Rgba)
    requires |bitmap| == 512 && palette.Valid() && InGrid(p)
  {
    var source := Point(Mirror(anim.flipHoriz, p.x), Mirror(anim.flipVert, p.y));
    ColorOf(palette, NibbleAt(bitmap, NibbleIndex(source)))
  }

  /**
   * The unmirrored pixel visited at step `e` of the walk: tile rows outermost, then
   * tiles, then columns within the tile, then rows within the column.
   */
  function EmitOrder(e: nat): (p: Point)
    requires e < 1024
    ensures InGrid(p)
  {
    var ty, inTile := e / 256, e % 256;
    var tx, inColumn := inTile / 64, inTile % 64;
    var ix, iy := inColumn / 8, inColumn % 8;
    Point(8 * tx + ix, 8 * ty + iy)
  }

  /** The step at which the walk visits `p`. */
  function OrderIndex(p: Point): (e: nat)
    requires InGrid(p)
    ensures e < 1024
  {
    256 * (p.y / 8) + 64 * (p.x / 8) + 8 * (p.x % 8) + p.y % 8
  }

  /** Where step (ty, tx, ix, iy) of the four nested loops lands, and which nibble it reads. */
  lemma WalkStep(ty: nat, tx: nat, ix: nat, iy: nat)
    requires ty < 4 && tx < 4 && ix < 8 && iy < 8
    ensures EmitOrder(256 * ty + 64 * tx + 8 * ix + iy) == Point(8 * tx + ix, 8 * ty + iy)
    ensures NibbleIndex(Point(8 * tx + ix, 8 * ty + iy)) == 64 * (4 * ty + tx) + 8 * iy + ix
  {
    var e := 256 * ty + 64 * tx + 8 * ix + iy;
    DigitSplit(64 * tx + 8 * ix + iy, ty, 256);
    DigitSplit(8 * ix + iy, tx, 64);
    DigitSplit(iy, ix, 8);
    DigitSplit(ix, tx, 8);
    DigitSplit(iy, ty, 8);
  }

  /** Every step visits a different pixel: `OrderIndex` undoes `EmitOrder` ... */
  lemma OrderIndexOfEmitOrder(e: nat)
    requires e < 1024
    ensures OrderIndex(EmitOrder(e)) == e
  {
    var ty, inTile := e / 256, e % 256;
    var tx, inColumn := inTile / 64, inTile % 64;
    var ix, iy := inColumn / 8, inColumn % 8;
    WalkStep(ty, tx, ix, iy);
    DigitSplit(ix, tx, 8);
    DigitSplit(iy, ty, 8);
  }

  /** ... and every pixel of the grid is visited: `EmitOrder` undoes `OrderIndex`. */
  lemma EmitOrderOfOrderIndex(p: Point)
    requires InGrid(p)
    ensures EmitOrder(OrderIndex(p)) == p
  {
    WalkStep(p.y / 8, p.x / 8, p.x % 8, p.y % 8);
  }

  /** The call made at step `e` of the walk. */
  function Emitted(bitmap: seq<u8>, palette: IconPalette, anim: IconAnimation, e: nat): (b: Blit)
    requires |bitmap| == 512 && palette.Valid() && e < 1024
  {
    var p := EmitOrder(e);
    Blit(Mirror(anim.flipHoriz, p.x), Mirror(anim.flipVert, p.y), ColorOf(palette, NibbleAt(bitmap, NibbleIndex(p))))
  }

  /** All 1024 calls, in the order they are made. */
  function Schedule(bitmap: seq<u8>, palette: IconPalette, anim: IconAnimation): (s: seq<Blit>)
    requires |bitmap| == 512 && palette.Valid()
    ensures |s| == 1024
  {
    seq(1024, e requires 0 <= e < 1024 => Emitted(bitmap, palette, anim, e))
  }

  /** Splits every byte of the bitmap into its two pixel indices, low nibble first. */
  method NibbleStream(bitmap: seq<u8>) returns (img: seq<nat>)
    ensures |img| == 2 * |bitmap|
    ensures forall n | 0 <= n < |img| :: img[n] == NibbleAt(bitmap, n)
  {
    img := [];
    for i := 0 to |bitmap|
      invariant |img| == 2 * i
      invariant forall n | 0 <= n < |img| :: img[n] == NibbleAt(bitmap, n)
    {
      img := img + [bitmap[i] % 16, bitmap[i] / 16];
    }
  }

  /** `blits` are the first calls of the walk. */
  ghost predicate WalkPrefix(bitmap: seq<u8>, palette: IconPalette, anim: IconAnimation, blits: seq<Blit>)
    requires |bitmap| == 512 && palette.Valid()
  {
    |blits| <= 1024 && forall e | 0 <= e < |blits| :: blits[e] == Emitted(bitmap, palette, anim, e)
  }

  /**
   * Walks the 16 tiles and reports every pixel to the drawing callback: tile rows
   * outermost, then the tiles of a row.
   */
  method DumpIconFrame(bitmap: seq<u8>, palette: IconPalette, anim: IconAnimation) returns (blits: seq<Blit>)
    requires |bitmap| == 512 && palette.Valid()
    ensures blits == Schedule(bitmap, palette, anim)
  {
    var img := NibbleStream(bitmap);
    blits := [];
    var start := 0;
    for ty := 0 to 4
      invariant start == 256 * ty && |blits| == start
      invariant WalkPrefix(bitmap, palette, anim, blits)
    {
      for tx := 0 to 4
        invariant start == 256 * ty + 64 * tx && |blits| == start
        invariant WalkPrefix(bitmap, palette, anim, blits)
      {
        var tile := img[start..start + 64];
        blits := DumpTile(bitmap, palette, anim, tile, ty, tx, blits);
        start := start + 64;
      }
    }
  }

  /** Reports the 64 pixels of tile (`tx`, `ty`): columns outermost, then rows. */
  method DumpTile(bitmap: seq<u8>, palette: IconPalette, anim: IconAnimation, tile: seq<nat>,
                  ty: nat, tx: nat, before: seq<Blit>) returns (blits: seq<Blit>)
    requires |bitmap| == 512 && palette.Valid() && ty < 4 && tx < 4
    requires |tile| == 64 && forall k | 0 <= k < 64 :: tile[k] == NibbleAt(bitmap, 64 * (4 * ty + tx) + k)
    requires |before| == 256 * ty + 64 * tx && WalkPrefix(bitmap, palette, anim, before)
    ensures |blits| == |before| + 64 && WalkPrefix(bitmap, palette, anim, blits)
  {
    blits := before;
    for ix := 0 to 8
      invariant |blits| == |before| + 8 * ix
      invariant WalkPrefix(bitmap, palette, anim, blits)
    {
      for iy := 0 to 8
        invariant |blits| == |before| + 8 * ix + iy
        invariant WalkPrefix(bitmap, palette, anim, blits)
      {
        blits := DumpPixel(bitmap, palette, anim, tile, ty, tx, ix, iy, blits);
      }
    }
  }

  /**
   * Reports pixel (`ix`, `iy`) of tile (`tx`, `ty`): its colour index, looked up
   * in the palette, at its mirrored position.
   */
  method DumpPixel(bitmap: seq<u8>, palette: IconPalette, anim: IconAnimation, tile: seq<nat>,
                   ty: nat, tx: nat, ix: nat, iy: nat, before: seq<Blit>) returns (blits: seq<Blit>)
    requires |bitmap| == 512 && palette.Valid() && ty < 4 && tx < 4 && ix < 8 && iy < 8
    requires |tile| == 64 && forall k | 0 <= k < 64 :: tile[k] == NibbleAt(bitmap, 64 * (4 * ty + tx) + k)
    requires |before| == 256 * ty + 64 * tx + 8 * ix + iy && WalkPrefix(bitmap, palette, anim, before)
    ensures |blits| == |before| + 1 && WalkPrefix(bitmap, palette, anim, blits)
  {
    var me := tile[iy * 8 + ix];
    var px, py := ix + 8 * tx, iy + 8 * ty;
    blits := before + [Blit(Mirror(anim.flipHoriz, px), Mirror(anim.flipVert, py), ColorOf(palette, me))];
    ExtendWalk(bitmap, palette, anim, before, blits, ty, tx, ix, iy, me);
  }

  /** The call for step (ty, tx, ix, iy) continues the walk. */
  lemma ExtendWalk(bitmap: seq<u8>, palette: IconPalette, anim: IconAnimation, blits: seq<Blit>, after: seq<Blit>,
                   ty: nat, tx: nat, ix: nat, iy: nat, me: nat)
    requires |bitmap| == 512 && palette.Valid() && ty < 4 && tx < 4 && ix < 8 && iy < 8
    requires |blits| == 256 * ty + 64 * tx + 8 * ix + iy && WalkPrefix(bitmap, palette, anim, blits)
    requires me == NibbleAt(bitmap, 64 * (4 * ty + tx) + 8 * iy + ix)
    requires after == blits + [Blit(Mirror(anim.flipHoriz, ix + 8 * tx), Mirror(anim.flipVert, iy + 8 * ty), ColorOf(palette, me))]
    ensures WalkPrefix(bitmap, palette, anim, after)
  {
    var b := Blit(Mirror(anim.flipHoriz, ix + 8 * tx), Mirror(anim.flipVert, iy + 8 * ty), ColorOf(palette, me));
    EmittedAtStep(bitmap, palette, anim, ty, tx, ix, iy);
    WalkPrefixAppend(bitmap, palette, anim, blits, b);
  }

  /** Step (ty, tx, ix, iy) of the walk draws nibble `8 * iy + ix` of tile `4 * ty + tx`. */
  lemma EmittedAtStep(bitmap: seq<u8>, palette: IconPalette, anim: IconAnimation, ty: nat, tx: nat, ix: nat, iy: nat)
    requires |bitmap| == 512 && palette.Valid() && ty < 4 && tx < 4 && ix < 8 && iy < 8
    ensures Emitted(bitmap, palette, anim, 256 * ty + 64 * tx + 8 * ix + iy)
         == Blit(Mirror(anim.flipHoriz, ix + 8 * tx), Mirror(anim.flipVert, iy + 8 * ty),
                 ColorOf(palette, NibbleAt(bitmap, 64 * (4 * ty + tx) + 8 * iy + ix)))
  {
    WalkStep(ty, tx, ix, iy);
  }

  lemma WalkPrefixAppend(bitmap: seq<u8>, palette: IconPalette, anim: IconAnimation, blits: seq<Blit>, b: Blit)
    requires |bitmap| == 512 && palette.Valid() && WalkPrefix(bitmap, palette, anim, blits)
    requires |blits| < 1024 && b == Emitted(bitmap, palette, anim, |blits|)
    ensures WalkPrefix(bitmap, palette, anim, blits + [b])
  {
  }

  /** An image: a colour for every pixel it covers. */
  type Raster = map<Point, Rgba>

  /** The pixels of a 32x32 image. */
  function GridPoints(): (ps: set<Point>)
    ensures forall p :: p in ps <==> InGrid(p)
  {
    set x: nat, y: nat | x < Side && y < Side :: Point(x, y)
  }

  /** A freshly created 32x32 image: every pixel transparent black. */
  function Blank(): (r: Raster)
    ensures r.Keys == GridPoints()
    ensures forall p | p in r :: r[p] == Transparent
  {
    map p | p in GridPoints() :: Transparent
  }

  function Target(b: Blit): Point
  {
    Point(b.x, b.y)
  }

  /** Carries out the calls in order, each overwriting the pixel it names. */
  function Paint(r: Raster, blits: seq<Blit>): (out: Raster)
    ensures (forall i | 0 <= i < |blits| :: Target(blits[i]) in r) ==> out.Keys == r.Keys
    decreases |blits|
  {
    if |blits| == 0 then r
    else Paint(r[Target(blits[0]) := blits[0].color], blits[1..])
  }

  /** A pixel no call names keeps its colour. */
  lemma {:induction false} PaintUntouched(r: Raster, blits: seq<Blit>, p: Point)
    requires p in r
    requires forall i | 0 <= i < |blits| :: Target(blits[i]) != p
    ensures p in Paint(r, blits) && Paint(r, blits)[p] == r[p]
    decreases |blits|
  {
    if |blits| > 0 {
      PaintUntouched(r[Target(blits[0]) := blits[0].color], blits[1..], p);
    }
  }

  /** A pixel shows the colour of the last call that names it. */
  lemma {:induction false} LastWriteWins(r: Raster, blits: seq<Blit>, e: nat, p: Point)
    requires e < |blits| && Target(blits[e]) == p
    requires forall i | e < i < |blits| :: Target(blits[i]) != p
    ensures p in Paint(r, blits) && Paint(r, blits)[p] == blits[e].color
    decreases |blits|
  {
    var r' := r[Target(blits[0]) := blits[0].color];
    if e == 0 {
      PaintUntouched(r', blits[1..], p);
    } else {
      LastWriteWins(r', blits[1..], e - 1, p);
    }
  }

  /** The image the callback draws onto a fresh 32x32 image. */
  function Render(bitmap: seq<u8>, palette: IconPalette, anim: IconAnimation): (r: Raster)
    requires |bitmap| == 512 && palette.Valid()
    ensures r.Keys == GridPoints()
  {
    var s := Schedule(bitmap, palette, anim);
    assert forall i | 0 <= i < |s| :: InGrid(Target(s[i]));
    Paint(Blank(), s)
  }

  /** Pixel `p` is named by exactly one call of the walk, the one at `e`. */
  lemma OnlyWriter(bitmap: seq<u8>, palette: IconPalette, anim: IconAnimation, p: Point) returns (e: nat)
    requires |bitmap| == 512 && palette.Valid() && InGrid(p)
    ensures e < 1024
    ensures Target(Emitted(bitmap, palette, anim, e)) == p
    ensures EmitOrder(e) == Point(Mirror(anim.flipHoriz, p.x), Mirror(anim.flipVert, p.y))
    ensures forall i | 0 <= i < 1024 && i != e :: Target(Emitted(bitmap, palette, anim, i)) != p
  {
    var source := Point(Mirror(anim.flipHoriz, p.x), Mirror(anim.flipVert, p.y));
    e := OrderIndex(source);
    EmitOrderOfOrderIndex(source);
    MirrorInvolution(anim.flipHoriz, p.x);
    MirrorInvolution(anim.flipVert, p.y);
    forall i | 0 <= i < 1024 && Target(Emitted(bitmap, palette, anim, i)) == p
      ensures i == e
    {
      var q := EmitOrder(i);
      MirrorInvolution(anim.flipHoriz, q.x);
      MirrorInvolution(anim.flipVert, q.y);
      assert q == source;
      OrderIndexOfEmitOrder(i);
    }
  }

  /**
   * The 1024 calls of a walk name every pixel of the 32x32 grid exactly once and
   * nothing outside it, with or without mirroring.
   */
  lemma ScheduleCoversGridOnce(bitmap: seq<u8>, palette: IconPalette, anim: IconAnimation)
    requires |bitmap| == 512 && palette.Valid()
    ensures forall e | 0 <= e < 1024 :: InGrid(Target(Schedule(bitmap, palette, anim)[e]))
    ensures forall p | InGrid(p) :: exists e :: 0 <= e < 1024 && Target(Schedule(bitmap, palette, anim)[e]) == p
    ensures forall i, j | 0 <= i < j < 1024 :: Target(Schedule(bitmap, palette, anim)[i]) != Target(Schedule(bitmap, palette, anim)[j])
  {
    var s := Schedule(bitmap, palette, anim);
    forall p | InGrid(p)
      ensures exists e :: 0 <= e < 1024 && Target(s[e]) == p
    {
      var e := OnlyWriter(bitmap, palette, anim, p);
      assert Target(s[e]) == p;
    }
    forall i, j | 0 <= i < j < 1024
      ensures Target(s[i]) != Target(s[j])
    {
      if Target(s[i]) == Target(s[j]) {
        var e := OnlyWriter(bitmap, palette, anim, Target(s[i]));
      }
    }
  }

  /**
   * The walk draws exactly the intended image: every pixel of the 32x32 grid shows
   * the stored pixel at its mirror image.
   */
  lemma RenderMatchesPixelAt(bitmap: seq<u8>, palette: IconPalette, anim: IconAnimation, p: Point)
    requires |bitmap| == 512 && palette.Valid() && InGrid(p)
    ensures p in Render(bitmap, palette, anim)
    ensures Render(bitmap, palette, anim)[p] == PixelAt(bitmap, palette, anim, p)
  {
    var s := Schedule(bitmap, palette, anim);
    var e := OnlyWriter(bitmap, palette, anim, p);
    LastWriteWins(Blank(), s, e, p);
  }

  /** `r` covers exactly the grid and holds, at every point, the pixel `PixelAt` assigns it. */
  ghost predicate Shows(r: Raster, bitmap: seq<u8>, palette: IconPalette, anim: IconAnimation)
    requires |bitmap| == 512 && palette.Valid()
  {
    && r.Keys == GridPoints()
    && forall p | p in r :: r[p] == PixelAt(bitmap, palette, anim, p)
  }

  /** `RenderMatchesPixelAt` for every pixel at once. */
  lemma RenderIsPixelAt(bitmap: seq<u8>, palette: IconPalette, anim: IconAnimation)
    requires |bitmap| == 512 && palette.Valid()
    ensures Shows(Render(bitmap, palette, anim), bitmap, palette, anim)
  {
    forall p | p in Render(bitmap, palette, anim)
      ensures Render(bitmap, palette, anim)[p] == PixelAt(bitmap, palette, anim, p)
    {
      RenderMatchesPixelAt(bitmap, palette, anim, p);
    }
  }

  /** Mirroring horizontally shows the unmirrored image reflected left to right. */
  lemma RenderFlipHoriz(bitmap: seq<u8>, palette: IconPalette, anim: IconAnimation, p: Point)
    requires |bitmap| == 512 && palette.Valid() && InGrid(p)
    ensures Render(bitmap, palette, anim.(flipHoriz := true))[p]
         == Render(bitmap, palette, anim.(flipHoriz := false))[Point(Side - 1 - p.x, p.y)]
  {
    RenderMatchesPixelAt(bitmap, palette, anim.(flipHoriz := true), p);
    RenderMatchesPixelAt(bitmap, palette, anim.(flipHoriz := false), Point(Side - 1 - p.x, p.y));
  }

  /** Mirroring vertically shows the unmirrored image reflected top to bottom. */
  lemma RenderFlipVert(bitmap: seq<u8>, palette: IconPalette, anim: IconAnimation, p: Point)
    requires |bitmap| == 512 && palette.Valid() && InGrid(p)
    ensures Render(bitmap, palette, anim.(flipVert := true))[p]
         == Render(bitmap, palette, anim.(flipVert := false))[Point(p.x, Side - 1 - p.y)]
  {
    RenderMatchesPixelAt(bitmap, palette, anim.(flipVert := true), p);
    RenderMatchesPixelAt(bitmap, palette, anim.(flipVert := false), Point(p.x, Side - 1 - p.y));
  }

  /** A pixel is transparent exactly when its stored index is 0. */
  lemma RenderTransparency(bitmap: seq<u8>, palette: IconPalette, anim: IconAnimation, p: Point)
    requires |bitmap| == 512 && palette.Valid() && InGrid(p)
    ensures Render(bitmap, palette, anim)[p].a == 0
        <==> NibbleAt(bitmap, NibbleIndex(Point(Mirror(anim.flipHoriz, p.x), Mirror(anim.flipVert, p.y)))) == 0
    ensures Render(bitmap, palette, anim)[p] == Transparent
        <==> NibbleAt(bitmap, NibbleIndex(Point(Mirror(anim.flipHoriz, p.x), Mirror(anim.flipVert, p.y)))) == 0
  {
    RenderMatchesPixelAt(bitmap, palette, anim, p);
  }

  /** An all-zero bitmap draws a fully transparent icon whatever the palette. */
  lemma RenderZeroBitmap(palette: IconPalette, anim: IconAnimation)
    requires palette.Valid()
    ensures Render(seq(512, _ => 0), palette, anim) == Blank()
  {
    var bitmap: seq<u8> := seq(512, _ => 0);
    var r := Render(bitmap, palette, anim);
    forall p | p in r
      ensures r[p] == Transparent
    {
      RenderMatchesPixelAt(bitmap, palette, anim, p);
    }
  }

  /** Palette entry 0 is never consulted. */
  lemma RenderIgnoresEntryZero(bitmap: seq<u8>, palette: IconPalette, c: u16, anim: IconAnimation)
    requires |bitmap| == 512 && palette.Valid()
    ensures Render(bitmap, palette.(colors := palette.colors[0 := c]), anim) == Render(bitmap, palette, anim)
  {
    var other := palette.(colors := palette.colors[0 := c]);
    var r1, r2 := Render(bitmap, other, anim), Render(bitmap, palette, anim);
    forall p | p in r1
      ensures r1[p] == r2[p]
    {
      RenderMatchesPixelAt(bitmap, other, anim, p);
      RenderMatchesPixelAt(bitmap, palette, anim, p);
    }
  }
}
