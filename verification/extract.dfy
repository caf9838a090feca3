/**
 * The extraction pipeline: decode the cartridge header from the start of the
 * image, cut out the ARM9 and ARM7 executables, decode the icon/title record at
 * the offset the header gives, draw the still icon and, for DSi records, the
 * animation frames.
 *
 * Writing the ELF, PNG and GIF files and printing the records are left out; the
 * pipeline returns what it would have written.
 */
module Extract {
  import opened Wrappers
  import opened ByteReader
  import opened Header
  import opened Icon
  import opened Tiles
  import opened Animation

  /** What extraction produces from one image. */
  datatype Extracted = Extracted(
    header: NdsHeader,
    arm9: seq<u8>,
    arm7: seq<u8>,
    icon: NdsIcon,
    still: Raster,
    animation: seq<AnimFrame>)

  /**
   * Skips `offset` bytes, then keeps at most `size` bytes: the executable is cut
   * short by the end of the image and is empty when it starts beyond it.
   */
  function ArmSlice(content: seq<u8>, offset: nat, size: nat): (bs: seq<u8>)
    ensures offset >= |content| ==> bs == []
    ensures offset < |content| ==> |bs| == if offset + size <= |content| then size else |content| - offset
    ensures forall i | 0 <= i < |bs| :: offset + i < |content| && bs[i] == content[offset + i]
  {
    if offset >= |content| then []
    else if offset + size <= |content| then content[offset..offset + size]
    else content[offset..]
  }

  /** Decodes the icon/title record starting `offset` bytes into the image. */
  function DecodeIconAt(content: seq<u8>, offset: nat): (r: Decoded<NdsIcon>)
    ensures offset > |content| ==> r == Err(InvalidOffset(offset, |content|))
    ensures r.Ok? <==> offset <= |content| && |content| - offset >= CommonSize
                       && |content| - offset >= IconSize(LE(content[offset..offset + 2]))
    ensures offset <= |content| ==> r == DecodeIcon(content[offset..])
    ensures r.Ok? ==> IconAt(r.value, content[offset..]) && r.value.Valid()
  {
    if offset > |content| then Err(InvalidOffset(offset, |content|))
    else
      var rest := content[offset..];
      assert |rest| >= 2 ==> rest[..2] == content[offset..offset + 2];
      DecodeIcon(rest)
  }

  /**
   * Decodes the icon record the header points at, draws the still icon unmirrored
   * and, when the DSi block is present, every animation frame.
   */
  method DumpIcon(header: NdsHeader, content: seq<u8>) returns (r: Decoded<(NdsIcon, Raster, seq<AnimFrame>)>)
    ensures r.Ok? <==> DecodeIconAt(content, header.iconBannerOffset).Ok?
    ensures header.iconBannerOffset > |content| ==> r == Err(InvalidOffset(header.iconBannerOffset, |content|))
    ensures r.Err? ==> r.error == DecodeIconAt(content, header.iconBannerOffset).error
    ensures r.Ok? ==> IconAt(r.value.0, content[header.iconBannerOffset..])
    ensures r.Ok? ==> r.value.0.Valid() && Shows(r.value.1, r.value.0.bitmap, r.value.0.palette, Still)
    ensures r.Ok? ==> r.value.2 == IconFrames(r.value.0)
  {
    var decoded := DecodeIconAt(content, header.iconBannerOffset);
    if decoded.Err? {
      return Err(decoded.error);
    }
    var icon := decoded.value;
    var still, frames := DumpImages(icon);
    return Ok((icon, still, frames));
  }

  /** Draws the still icon and, when the DSi block is present, every animation frame. */
  method DumpImages(icon: NdsIcon) returns (still: Raster, frames: seq<AnimFrame>)
    requires icon.Valid()
    ensures Shows(still, icon.bitmap, icon.palette, Still)
    ensures frames == IconFrames(icon)
  {
    still := DumpStill(icon);
    frames := [];
    if icon.dsiIcon.Some? {
      frames := DumpAnimation(icon.dsiIcon.value);
    }
  }

  /** Draws the still icon: the record's bitmap and palette, unmirrored. */
  method DumpStill(icon: NdsIcon) returns (still: Raster)
    requires icon.Valid()
    ensures Shows(still, icon.bitmap, icon.palette, Still)
  {
    var blits := DumpIconFrame(icon.bitmap, icon.palette, Still);
    still := Paint(Blank(), blits);
    RenderIsPixelAt(icon.bitmap, icon.palette, Still);
  }

  /**
   * Runs the whole pipeline on an image held in memory.  It fails when the image
   * is shorter than a header, when the icon offset lies beyond the image, or when
   * the icon record runs past the end of the image.
   */
  method Extract(content: seq<u8>) returns (r: Decoded<Extracted>)
    ensures |content| < HeaderSize ==> r.Err? && r.error.UnexpectedEnd?
    ensures r.Ok? <==> DecodeHeader(content).Ok?
                       && DecodeIconAt(content, DecodeHeader(content).value.iconBannerOffset).Ok?
    ensures DecodeHeader(content).Err? ==> r == Err(DecodeHeader(content).error)
    ensures DecodeHeader(content).Ok? && DecodeIconAt(content, DecodeHeader(content).value.iconBannerOffset).Err?
            ==> r == Err(DecodeIconAt(content, DecodeHeader(content).value.iconBannerOffset).error)
    ensures r.Ok? ==> HeaderAt(r.value.header, content)
    ensures r.Ok? ==> r.value.arm9 == ArmSlice(content, r.value.header.arm9Offset, r.value.header.arm9Size)
    ensures r.Ok? ==> r.value.arm7 == ArmSlice(content, r.value.header.arm7Offset, r.value.header.arm7Size)
    ensures r.Ok? ==> IconAt(r.value.icon, content[r.value.header.iconBannerOffset..])
    ensures r.Ok? ==> r.value.icon.Valid() && Shows(r.value.still, r.value.icon.bitmap, r.value.icon.palette, Still)
    ensures r.Ok? ==> r.value.animation == IconFrames(r.value.icon)
  {
    var decoded := DecodeHeader(content);
    if decoded.Err? {
      return Err(decoded.error);
    }
    var header := decoded.value;
    var arm9 := ArmSlice(content, header.arm9Offset, header.arm9Size);
    var arm7 := ArmSlice(content, header.arm7Offset, header.arm7Size);
    var dumped := DumpIcon(header, content);
    if dumped.Err? {
      return Err(dumped.error);
    }
    var (icon, still, frames) := dumped.value;
    return Ok(Extracted(header, arm9, arm7, icon, still, frames));
  }

  /** The executable is exactly the bytes it names when they lie inside the image. */
  lemma ArmSliceInside(content: seq<u8>, offset: nat, size: nat)
    requires offset + size <= |content|
    ensures ArmSlice(content, offset, size) == content[offset..offset + size]
  {
  }

  /** With an icon offset of 0 the icon record is read from the very start of the image. */
  lemma IconAtOffsetZero(content: seq<u8>)
    ensures DecodeIconAt(content, 0) == DecodeIcon(content)
  {
    assert content[0..] == content;
  }
}
