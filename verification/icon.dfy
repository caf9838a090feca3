/**
 * The icon/banner record (src/nds.rs, `NDSIcon`, `DSIIcon`, `NDSIconPalette`,
 * `DSIIconFrame`), read from the image at the header's icon/banner offset.
 *
 * The record starts with a 16-bit version.  The 0x1240-byte common part (legacy
 * bitmap, palette, eight titles) is always read; the 0x1180-byte DSi block (eight
 * animation bitmaps, eight palettes, a 64-entry sequence) is read only when the
 * version is at least 259, and is otherwise absent.  `NDSIconPalette`, `DSIIcon`
 * and `NDSIcon` carry no byte-order attribute, so their multi-byte fields are read
 * in the parser's default order; the model reads them little-endian, as the DSi
 * stores them.  `DSIIconFrame` is declared little-endian, and holds only bytes.
 */
module Icon {
  import opened Wrappers
  import opened ByteReader
  import opened BoundedStrings

  /** The first version that carries the DSi animated-icon block. */
  const DsiVersion: nat := 259
  /** Size of the part of the record every version has. */
  const CommonSize: nat := 0x1240
  /** Size of the DSi block that follows it. */
  const DsiBlockSize: nat := 0x1180

  /** Sixteen 15-bit colours; entry 0 is never drawn. */
  datatype IconPalette = IconPalette(colors: seq<u16>) {
    predicate Valid() {
      |colors| == 16
    }
  }

  /** One 32x32 bitmap: 512 bytes of packed 4-bit palette indices. */
  datatype IconFrame = IconFrame(data: seq<u8>) {
    predicate Valid() {
      |data| == 0x200
    }
  }

  /** The DSi animated icon. */
  datatype DsiIcon = DsiIcon(frames: seq<IconFrame>, framePalettes: seq<IconPalette>, sequence: seq<u16>) {
    predicate Valid() {
      && |frames| == 8 && (forall i | 0 <= i < 8 :: frames[i].Valid())
      && |framePalettes| == 8 && (forall i | 0 <= i < 8 :: framePalettes[i].Valid())
      && |sequence| == 64
    }
  }

  datatype NdsIcon = NdsIcon(
    version: u16,
    crc1: u16,
    crc2: u16,
    crc3: u16,
    crc4: u16,
    reserved: seq<u8>,
    bitmap: seq<u8>,
    palette: IconPalette,
    titleJp: BoundedUtf16String,
    titleEn: BoundedUtf16String,
    titleFr: BoundedUtf16String,
    titleDe: BoundedUtf16String,
    titleIt: BoundedUtf16String,
    titleEs: BoundedUtf16String,
    titleZh: BoundedUtf16String,
    titleKr: BoundedUtf16String,
    zerofilled: seq<u8>,
    dsiIcon: Option<DsiIcon>
  ) {
    predicate Valid() {
      && |bitmap| == 0x200
      && palette.Valid()
      && (dsiIcon.Some? ==> dsiIcon.value.Valid())
    }
  }

  /** The number of bytes a record of version `version` occupies. */
  function IconSize(version: nat): nat
  {
    if version >= DsiVersion then CommonSize + DsiBlockSize else CommonSize
  }

  ghost predicate PaletteAt(p: IconPalette, data: seq<u8>, pos: nat)
  {
    p.Valid() && ValuesAt(p.colors, data, pos, 2)
  }

  ghost predicate TitleAt(t: BoundedUtf16String, data: seq<u8>, pos: nat)
  {
    t.Valid() && ValuesAt(t.data, data, pos, 2)
  }

  /** The DSi block layout, relative to `pos`. */
  ghost predicate DsiIconAt(d: DsiIcon, data: seq<u8>, pos: nat)
  {
    && d.Valid()
    && (forall i | 0 <= i < 8 :: BytesAt(d.frames[i].data, data, pos + 0x200 * i))
    && (forall i | 0 <= i < 8 :: PaletteAt(d.framePalettes[i], data, pos + 0x1000 + 0x20 * i))
    && ValuesAt(d.sequence, data, pos + 0x1100, 2)
  }

  /** The record layout: every field of `icon` is stored in `data` at its fixed offset. */
  ghost predicate IconAt(icon: NdsIcon, data: seq<u8>)
  {
    && ValueAt(icon.version, data, 0x00, 2)
    && ValueAt(icon.crc1, data, 0x02, 2)
    && ValueAt(icon.crc2, data, 0x04, 2)
    && ValueAt(icon.crc3, data, 0x06, 2)
    && ValueAt(icon.crc4, data, 0x08, 2)
    && |icon.reserved| == 22 && BytesAt(icon.reserved, data, 0x0A)
    && |icon.bitmap| == 0x200 && BytesAt(icon.bitmap, data, 0x20)
    && PaletteAt(icon.palette, data, 0x220)
    && TitleAt(icon.titleJp, data, 0x240)
    && TitleAt(icon.titleEn, data, 0x340)
    && TitleAt(icon.titleFr, data, 0x440)
    && TitleAt(icon.titleDe, data, 0x540)
    && TitleAt(icon.titleIt, data, 0x640)
    && TitleAt(icon.titleEs, data, 0x740)
    && TitleAt(icon.titleZh, data, 0x840)
    && TitleAt(icon.titleKr, data, 0x940)
    && |icon.zerofilled| == 2048 && BytesAt(icon.zerofilled, data, 0xA40)
    && (icon.dsiIcon.Some? <==> icon.version >= DsiVersion)
    && (icon.dsiIcon.Some? ==> DsiIconAt(icon.dsiIcon.value, data, CommonSize))
  }

  /** The palette stored in the 32 bytes `raw`. */
  function PaletteOf(raw: seq<u8>): (p: IconPalette)
    requires |raw| == 0x20
    ensures PaletteAt(p, raw, 0)
  {
    IconPalette(U16sOf(raw))
  }

  function ReadPalette(c: Cursor): (r: Decoded<Got<IconPalette>>)
    ensures r.Ok? <==> c.pos + 0x20 <= |c.data|
    ensures r.Ok? ==> PaletteAt(r.value.value, c.data, c.pos)
    ensures r.Ok? ==> r.value.rest == Position(c.data, c.pos + 0x20)
    ensures r.Err? ==> Overran(r.error, c.data)
  {
    var colors :- ReadU16s(c, 16);
    Ok(Got(IconPalette(colors.value), colors.rest))
  }

  /** Reads `n` consecutive 512-byte bitmaps. */
  function ReadFrames(c: Cursor, n: nat): (r: Decoded<Got<seq<IconFrame>>>)
    ensures r.Ok? <==> c.pos + 0x200 * n <= |c.data|
    ensures r.Ok? ==> |r.value.value| == n
    ensures r.Ok? ==> forall i | 0 <= i < n ::
      r.value.value[i].Valid() && BytesAt(r.value.value[i].data, c.data, c.pos + 0x200 * i)
    ensures r.Ok? ==> r.value.rest == Position(c.data, c.pos + 0x200 * n)
    ensures r.Err? ==> Overran(r.error, c.data)
  {
    var raw :- ReadBytes(c, 0x200 * n);
    var frames := seq(n, i requires 0 <= i < n => IconFrame(raw.value[0x200 * i..0x200 * i + 0x200]));
    assert forall i | 0 <= i < n :: BytesAt(frames[i].data, c.data, c.pos + 0x200 * i) by {
      forall i | 0 <= i < n
        ensures BytesAt(frames[i].data, c.data, c.pos + 0x200 * i)
      {
        SliceOfSlice(c.data, c.pos, c.pos + 0x200 * n, 0x200 * i, 0x200 * i + 0x200);
      }
    }
    Ok(Got(frames, raw.rest))
  }

  /** Reads `n` consecutive palettes. */
  function ReadPalettes(c: Cursor, n: nat): (r: Decoded<Got<seq<IconPalette>>>)
    ensures r.Ok? <==> c.pos + 0x20 * n <= |c.data|
    ensures r.Ok? ==> |r.value.value| == n
    ensures r.Ok? ==> forall i | 0 <= i < n :: PaletteAt(r.value.value[i], c.data, c.pos + 0x20 * i)
    ensures r.Ok? ==> r.value.rest == Position(c.data, c.pos + 0x20 * n)
    ensures r.Err? ==> Overran(r.error, c.data)
  {
    var raw :- ReadBytes(c, 0x20 * n);
    var palettes := seq(n, i requires 0 <= i < n => PaletteOf(raw.value[0x20 * i..0x20 * i + 0x20]));
    assert forall i | 0 <= i < n :: PaletteAt(palettes[i], c.data, c.pos + 0x20 * i) by {
      forall i | 0 <= i < n
        ensures PaletteAt(palettes[i], c.data, c.pos + 0x20 * i)
      {
        SliceOfSlice(c.data, c.pos, c.pos + 0x20 * n, 0x20 * i, 0x20 * i + 0x20);
        ValuesAtShift(palettes[i].colors, c.data, c.pos + 0x20 * i, 2);
      }
    }
    Ok(Got(palettes, raw.rest))
  }

  /** Reads `n` consecutive UTF-16 title fields. */
  function ReadTitles(c: Cursor, n: nat): (r: Decoded<Got<seq<BoundedUtf16String>>>)
    ensures r.Ok? <==> c.pos + 0x100 * n <= |c.data|
    ensures r.Ok? ==> |r.value.value| == n
    ensures r.Ok? ==> forall i | 0 <= i < n :: TitleAt(r.value.value[i], c.data, c.pos + 0x100 * i)
    ensures r.Ok? ==> r.value.rest == Position(c.data, c.pos + 0x100 * n)
    ensures r.Err? ==> Overran(r.error, c.data)
  {
    var raw :- ReadBytes(c, 0x100 * n);
    var titles := seq(n, i requires 0 <= i < n => BoundedUtf16String(U16sOf(raw.value[0x100 * i..0x100 * i + 0x100])));
    assert forall i | 0 <= i < n :: TitleAt(titles[i], c.data, c.pos + 0x100 * i) by {
      forall i | 0 <= i < n
        ensures TitleAt(titles[i], c.data, c.pos + 0x100 * i)
      {
        SliceOfSlice(c.data, c.pos, c.pos + 0x100 * n, 0x100 * i, 0x100 * i + 0x100);
        ValuesAtShift(titles[i].data, c.data, c.pos + 0x100 * i, 2);
      }
    }
    Ok(Got(titles, raw.rest))
  }

  /** Reads the 0x1180-byte DSi block. */
  function ReadDsiIcon(c: Cursor): (r: Decoded<Got<DsiIcon>>)
    ensures r.Ok? <==> c.pos + DsiBlockSize <= |c.data|
    ensures r.Ok? ==> DsiIconAt(r.value.value, c.data, c.pos)
    ensures r.Ok? ==> r.value.rest == Position(c.data, c.pos + DsiBlockSize)
    ensures r.Err? ==> Overran(r.error, c.data)
  {
    var frames :- ReadFrames(c, 8);
    var palettes :- ReadPalettes(frames.rest, 8);
    var sequence :- ReadU16s(palettes.rest, 64);
    DsiBlockLayout(frames.value, palettes.value, sequence.value, c.data, c.pos);
    Ok(Got(DsiIcon(frames.value, palettes.value, sequence.value), sequence.rest))
  }

  /** The three arrays read one after another form the DSi block at `pos`. */
  lemma DsiBlockLayout(frames: seq<IconFrame>, palettes: seq<IconPalette>, sequence: seq<u16>, data: seq<u8>, pos: nat)
    requires |frames| == 8 && forall i | 0 <= i < 8 :: frames[i].Valid() && BytesAt(frames[i].data, data, pos + 0x200 * i)
    requires |palettes| == 8 && forall i | 0 <= i < 8 :: PaletteAt(palettes[i], data, pos + 0x1000 + 0x20 * i)
    requires |sequence| == 64 && ValuesAt(sequence, data, pos + 0x1100, 2)
    ensures DsiIconAt(DsiIcon(frames, palettes, sequence), data, pos)
  {
  }

  /** Reads the version, checksums, reserved bytes, legacy bitmap and palette (bytes 0x00..0x240). */
  function ReadPreamble(c: Cursor): (r: Decoded<Got<(u16, u16, u16, u16, u16, seq<u8>, seq<u8>, IconPalette)>>)
    ensures r.Ok? <==> c.pos + 0x240 <= |c.data|
    ensures r.Ok? ==> r.value.rest == Position(c.data, c.pos + 0x240)
    ensures r.Ok? ==>
      var (version, crc1, crc2, crc3, crc4, reserved, bitmap, palette) := r.value.value;
      && ValueAt(version, c.data, c.pos, 2)
      && ValueAt(crc1, c.data, c.pos + 0x02, 2)
      && ValueAt(crc2, c.data, c.pos + 0x04, 2)
      && ValueAt(crc3, c.data, c.pos + 0x06, 2)
      && ValueAt(crc4, c.data, c.pos + 0x08, 2)
      && |reserved| == 22 && BytesAt(reserved, c.data, c.pos + 0x0A)
      && |bitmap| == 0x200 && BytesAt(bitmap, c.data, c.pos + 0x20)
      && PaletteAt(palette, c.data, c.pos + 0x220)
    ensures r.Err? ==> Overran(r.error, c.data)
  {
    var version :- ReadU16(c);
    var crc1 :- ReadU16(version.rest);
    var crc2 :- ReadU16(crc1.rest);
    var crc3 :- ReadU16(crc2.rest);
    var crc4 :- ReadU16(crc3.rest);
    var reserved :- ReadBytes(crc4.rest, 22);
    var bitmap :- ReadBytes(reserved.rest, 0x200);
    var palette :- ReadPalette(bitmap.rest);
    Ok(Got((version.value, crc1.value, crc2.value, crc3.value, crc4.value,
            reserved.value, bitmap.value, palette.value), palette.rest))
  }

  /**
   * Decodes an icon/banner record from the front of `data`.  It succeeds exactly
   * when the common part is present and, for a DSi version, the DSi block as well;
   * the DSi block is present in the result exactly when the version calls for it.
   */
  function DecodeIcon(data: seq<u8>): (r: Decoded<NdsIcon>)
    ensures r.Ok? <==> |data| >= CommonSize && |data| >= IconSize(LE(data[..2]))
    ensures r.Ok? ==> IconAt(r.value, data) && r.value.Valid()
    ensures r.Err? ==> Overran(r.error, data)
  {
    var pre :- ReadPreamble(Start(data));
    var titles :- ReadTitles(pre.rest, 8);
    var zerofilled :- ReadBytes(titles.rest, 2048);
    var (version, crc1, crc2, crc3, crc4, reserved, bitmap, palette) := pre.value;
    var t := titles.value;
    var dsi :- if version >= DsiVersion then
                 var block :- ReadDsiIcon(zerofilled.rest);
                 Ok(Some(block.value))
               else Ok(None);
    Ok(NdsIcon(version, crc1, crc2, crc3, crc4, reserved, bitmap, palette,
               t[0], t[1], t[2], t[3], t[4], t[5], t[6], t[7], zerofilled.value, dsi))
  }

  /** The layout determines the record: equal bytes over its extent give equal records. */
  lemma IconAtUnique(i1: NdsIcon, i2: NdsIcon, d1: seq<u8>, d2: seq<u8>)
    requires IconAt(i1, d1) && IconAt(i2, d2)
    requires IconSize(i1.version) <= |d1| && IconSize(i1.version) <= |d2|
    requires forall a: nat, b: nat | a <= b <= IconSize(i1.version) :: d1[a..b] == d2[a..b]
    ensures i1 == i2
  {
    assert i1.version == i2.version by {
      assert d1[0..2] == d2[0..2];
    }
    ValuesAtUnique(i1.palette.colors, i2.palette.colors, d1, d2, 0x220, 2);
    ValuesAtUnique(i1.titleJp.data, i2.titleJp.data, d1, d2, 0x240, 2);
    ValuesAtUnique(i1.titleEn.data, i2.titleEn.data, d1, d2, 0x340, 2);
    ValuesAtUnique(i1.titleFr.data, i2.titleFr.data, d1, d2, 0x440, 2);
    ValuesAtUnique(i1.titleDe.data, i2.titleDe.data, d1, d2, 0x540, 2);
    ValuesAtUnique(i1.titleIt.data, i2.titleIt.data, d1, d2, 0x640, 2);
    ValuesAtUnique(i1.titleEs.data, i2.titleEs.data, d1, d2, 0x740, 2);
    ValuesAtUnique(i1.titleZh.data, i2.titleZh.data, d1, d2, 0x840, 2);
    ValuesAtUnique(i1.titleKr.data, i2.titleKr.data, d1, d2, 0x940, 2);
    if i1.dsiIcon.Some? {
      DsiIconAtUnique(i1.dsiIcon.value, i2.dsiIcon.value, d1, d2);
    }
  }

  lemma DsiIconAtUnique(x1: DsiIcon, x2: DsiIcon, d1: seq<u8>, d2: seq<u8>)
    requires DsiIconAt(x1, d1, CommonSize) && DsiIconAt(x2, d2, CommonSize)
    requires CommonSize + DsiBlockSize <= |d1| && CommonSize + DsiBlockSize <= |d2|
    requires forall a: nat, b: nat | a <= b <= CommonSize + DsiBlockSize :: d1[a..b] == d2[a..b]
    ensures x1 == x2
  {
    forall i | 0 <= i < 8
      ensures x1.frames[i] == x2.frames[i]
    {
      assert d1[CommonSize + 0x200 * i..CommonSize + 0x200 * i + 0x200] == d2[CommonSize + 0x200 * i..CommonSize + 0x200 * i + 0x200];
    }
    forall i | 0 <= i < 8
      ensures x1.framePalettes[i] == x2.framePalettes[i]
    {
      ValuesAtUnique(x1.framePalettes[i].colors, x2.framePalettes[i].colors, d1, d2, CommonSize + 0x1000 + 0x20 * i, 2);
    }
    ValuesAtUnique(x1.sequence, x2.sequence, d1, d2, CommonSize + 0x1100, 2);
  }

  /**
   * Bytes past the end of the record never influence the decoded icon: a record
   * without the DSi block ignores everything after 0x1240 bytes, a DSi record
   * everything after 0x23C0.
   */
  lemma IconIgnoresTrailingBytes(d1: seq<u8>, d2: seq<u8>, n: nat)
    requires DecodeIcon(d1).Ok?
    requires n == IconSize(DecodeIcon(d1).value.version)
    requires n <= |d2| && d1[..n] == d2[..n]
    ensures DecodeIcon(d2) == DecodeIcon(d1)
  {
    SamePrefixSlices(d1, d2, n);
    var r1 := DecodeIcon(d1);
    assert d1[..2] == d2[..2] by {
      assert d1[0..2] == d2[0..2];
    }
    var r2 := DecodeIcon(d2);
    assert r2.Ok?;
    IconAtUnique(r1.value, r2.value, d1, d2);
  }
}
