/**
 * The DSi animated icon.
 *
 * A DSi icon carries eight bitmaps, eight palettes and a sequence of 64 16-bit
 * entries.  Each entry names the bitmap and palette of one animation frame, its
 * mirroring and its duration in 1/60 s ticks:
 *
 *   bit 15 vertical flip, bit 14 horizontal flip, bits 11-13 palette,
 *   bits 8-10 bitmap, bits 0-7 duration.
 *
 * The sequence ends at the first zero entry (or after all 64 entries).
 */
module Animation {
  import opened Wrappers
  import opened ByteReader
  import opened Arith
  import opened Icon
  import opened Tiles

  /** Splits a sequence entry into its fields. */
  function DecodeEntry(v: u16): (a: IconAnimation)
    ensures a.palette < 8 && a.bitmap < 8
  {
    IconAnimation(
      flipVert := v / 0x8000 % 2 == 1,
      flipHoriz := v / 0x4000 % 2 == 1,
      palette := v / 0x800 % 8,
      bitmap := v / 0x100 % 8,
      duration := v % 0x100)
  }

  /** Packs the fields of a frame back into a sequence entry. */
  function EncodeEntry(a: IconAnimation): (v: u16)
    requires a.palette < 8 && a.bitmap < 8
  {
    (if a.flipVert then 0x8000 else 0) + (if a.flipHoriz then 0x4000 else 0)
      + 0x800 * a.palette + 0x100 * a.bitmap + a.duration
  }

  /** Decoding an encoded entry gives the fields back. */
  lemma DecodeEncodeEntry(a: IconAnimation)
    requires a.palette < 8 && a.bitmap < 8
    ensures DecodeEntry(EncodeEntry(a)) == a
  {
    var v := EncodeEntry(a);
    var fv, fh := (if a.flipVert then 1 else 0), (if a.flipHoriz then 1 else 0);
    assert v == a.duration + 0x100 * (a.bitmap + 8 * (a.palette + 8 * (fh + 2 * fv)));
    DigitSplit(a.duration, a.bitmap + 8 * (a.palette + 8 * (fh + 2 * fv)), 0x100);
    DigitSplit(a.duration + 0x100 * a.bitmap, a.palette + 8 * (fh + 2 * fv), 0x800);
    DigitSplit(a.duration + 0x100 * a.bitmap + 0x800 * a.palette, fh + 2 * fv, 0x4000);
    DigitSplit(a.duration + 0x100 * a.bitmap + 0x800 * a.palette + 0x4000 * fh, fv, 0x8000);
    DigitSplit(a.bitmap, a.palette + 8 * (fh + 2 * fv), 8);
    DigitSplit(a.palette, fh + 2 * fv, 8);
    DigitSplit(fh, fv, 2);
  }

  /** Every 16-bit entry is the encoding of its fields: no bit is ignored. */
  lemma EncodeDecodeEntry(v: u16)
    ensures EncodeEntry(DecodeEntry(v)) == v
  {
    var h := v / 0x100;
    assert v == v % 0x100 + 0x100 * h && h < 0x100;
    var h2 := h / 8;
    assert h == h % 8 + 8 * h2 && h2 < 32;
    var h3 := h2 / 8;
    assert h2 == h2 % 8 + 8 * h3 && h3 < 4;
    var a := IconAnimation(h3 / 2 == 1, h3 % 2 == 1, h2 % 8, h % 8, v % 0x100);
    assert EncodeEntry(a) == v;
    DecodeEncodeEntry(a);
  }

  /** The entries up to, not including, the first zero. */
  function ActiveEntries(sequence: seq<u16>): (active: seq<u16>)
    ensures active <= sequence
    ensures forall i | 0 <= i < |active| :: active[i] != 0
    ensures |active| < |sequence| ==> sequence[|active|] == 0
  {
    if |sequence| == 0 || sequence[0] == 0 then []
    else [sequence[0]] + ActiveEntries(sequence[1..])
  }

  /** One frame of the animated icon: its image and how long it is shown, in 1/60 s ticks. */
  datatype AnimFrame = AnimFrame(image: Raster, duration: u8)

  /** The frame an entry stands for. */
  function FrameFor(dsi: DsiIcon, entry: u16): (f: AnimFrame)
    requires dsi.Valid()
  {
    var anim := DecodeEntry(entry);
    AnimFrame(Render(dsi.frames[anim.bitmap].data, dsi.framePalettes[anim.palette], anim), anim.duration)
  }

  /** The frames of the animation, one per active entry. */
  function AnimationFrames(dsi: DsiIcon): (frames: seq<AnimFrame>)
    requires dsi.Valid()
    ensures |frames| == |ActiveEntries(dsi.sequence)| <= 64
    ensures forall i | 0 <= i < |frames| :: frames[i] == FrameFor(dsi, dsi.sequence[i])
  {
    var active := ActiveEntries(dsi.sequence);
    seq(|active|, i requires 0 <= i < |active| => FrameFor(dsi, active[i]))
  }

  /** The animation of an icon record: none unless it carries the DSi block. */
  function IconFrames(icon: NdsIcon): (frames: seq<AnimFrame>)
    requires icon.Valid()
    ensures icon.dsiIcon.None? ==> frames == []
  {
    match icon.dsiIcon
    case None => []
    case Some(dsi) => AnimationFrames(dsi)
  }

  /**
   * Interprets the sequence: stops at the first zero entry, otherwise draws the
   * chosen bitmap with the chosen palette and mirroring onto a fresh image.
   */
  method DumpAnimation(dsi: DsiIcon) returns (frames: seq<AnimFrame>)
    requires dsi.Valid()
    ensures frames == AnimationFrames(dsi)
  {
    frames := [];
    for i := 0 to |dsi.sequence|
      invariant i <= |AnimationFrames(dsi)| && frames == AnimationFrames(dsi)[..i]
    {
      var entry := dsi.sequence[i];
      if entry == 0 {
        StopsAtZero(dsi, i);
        return;
      }
      ContinuesPastNonZero(dsi, i);
      var frame := DumpFrame(dsi, entry);
      PrefixGrows(AnimationFrames(dsi), i);
      frames := frames + [frame];
    }
    assert frames == AnimationFrames(dsi)[..|AnimationFrames(dsi)|];
  }

  lemma PrefixGrows<T>(s: seq<T>, i: nat)
    requires i < |s|
    ensures s[..i + 1] == s[..i] + [s[i]]
  {
  }

  /** Reaching a zero entry after `i` frames means all frames are done. */
  lemma StopsAtZero(dsi: DsiIcon, i: nat)
    requires dsi.Valid() && i < |dsi.sequence| && dsi.sequence[i] == 0
    requires i <= |AnimationFrames(dsi)|
    ensures AnimationFrames(dsi)[..i] == AnimationFrames(dsi)
  {
  }

  /** A nonzero entry reached after `i` frames stands for frame `i`. */
  lemma ContinuesPastNonZero(dsi: DsiIcon, i: nat)
    requires dsi.Valid() && i < |dsi.sequence| && dsi.sequence[i] != 0
    requires i <= |AnimationFrames(dsi)|
    ensures i < |AnimationFrames(dsi)| && AnimationFrames(dsi)[i] == FrameFor(dsi, dsi.sequence[i])
  {
  }

  /** Draws the frame one sequence entry stands for. */
  method DumpFrame(dsi: DsiIcon, entry: u16) returns (frame: AnimFrame)
    requires dsi.Valid()
    ensures frame == FrameFor(dsi, entry)
  {
    var anim := DecodeEntry(entry);
    var bitmap := dsi.frames[anim.bitmap];
    var palette := dsi.framePalettes[anim.palette];
    var blits := DumpIconFrame(bitmap.data, palette, anim);
    frame := AnimFrame(Paint(Blank(), blits), anim.duration);
  }

  /** Entry 0x803C: shown for 60 ticks, mirrored vertically, bitmap 0 with palette 0. */
  lemma ExampleEntry()
    ensures DecodeEntry(0x803C) == IconAnimation(true, false, 0, 0, 60)
  {
  }

  /** A sequence that starts with zero has no frames. */
  lemma LeadingZeroNoFrames(dsi: DsiIcon)
    requires dsi.Valid() && dsi.sequence[0] == 0
    ensures AnimationFrames(dsi) == []
  {
  }

  /** Whatever follows the first zero entry is never looked at. */
  lemma {:induction false} ActiveEntriesUpToZero(s: seq<u16>, t: seq<u16>, k: nat)
    requires k < |s| && k < |t| && s[k] == 0 && s[..k + 1] == t[..k + 1]
    ensures ActiveEntries(s) == ActiveEntries(t)
  {
    assert s[0] == s[..k + 1][0] == t[..k + 1][0] == t[0];
    if k > 0 && s[0] != 0 {
      assert s[1..][..k] == s[..k + 1][1..];
      assert t[1..][..k] == t[..k + 1][1..];
      ActiveEntriesUpToZero(s[1..], t[1..], k - 1);
    }
  }

  /** Two DSi icons whose sequences agree up to a zero entry animate identically. */
  lemma AnimationIgnoresEntriesAfterZero(d1: DsiIcon, d2: DsiIcon, k: nat)
    requires d1.Valid() && d2.Valid()
    requires d1.frames == d2.frames && d1.framePalettes == d2.framePalettes
    requires k < 64 && d1.sequence[k] == 0 && d1.sequence[..k + 1] == d2.sequence[..k + 1]
    ensures AnimationFrames(d1) == AnimationFrames(d2)
  {
    ActiveEntriesUpToZero(d1.sequence, d2.sequence, k);
  }
}
