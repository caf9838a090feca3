/**
 * The fixed 0x180-byte cartridge header (src/nds.rs, `NDSHeader`), read from the
 * start of the image.  The decoder reads the fields one after another exactly as the
 * record declares them; `HeaderAt` states independently where each field lives.
 */
module Header {
  import opened Wrappers
  import opened ByteReader
  import opened BoundedStrings

  /** Size of the header record in bytes. */
  const HeaderSize: nat := 0x180

  datatype NdsHeader = NdsHeader(
    title: BoundedString,
    gamecode: BoundedString,
    makercode: u16,
    unitcode: u8,
    encryptionSeed: u8,
    deviceCapacity: u8,
    reserved1: seq<u8>,
    gamerevision: u16,
    romversion: u8,
    autostart: u8,
    arm9Offset: u32,
    arm9Entry: u32,
    arm9Load: u32,
    arm9Size: u32,
    arm7Offset: u32,
    arm7Entry: u32,
    arm7Load: u32,
    arm7Size: u32,
    fntOffset: u32,
    fntSize: u32,
    fatOffset: u32,
    fatSize: u32,
    arm9OverlayOffset: u32,
    arm9OverlaySize: u32,
    arm7OverlayOffset: u32,
    arm7OverlayLength: u32,
    unknown1: u32,
    unknown2: u32,
    iconBannerOffset: u32,
    secureAreaCrc: u16,
    secureTfrTimeout: u16,
    arm9Autoload: u32,
    arm7Autoload: u32,
    secureDisable: u64,
    ntrRegionSize: u32,
    headerSize: u32,
    reserved2: seq<u8>,
    logo: seq<u8>,
    logoCrc: u16,
    headerCrc: u16,
    debuggerReserved: seq<u8>
  )

  /** The header layout: every field of `h` is stored in `data` at its fixed offset. */
  ghost predicate HeaderAt(h: NdsHeader, data: seq<u8>)
  {
    && |h.title.data| == 12 && BytesAt(h.title.data, data, 0x00)
    && |h.gamecode.data| == 4 && BytesAt(h.gamecode.data, data, 0x0C)
    && ValueAt(h.makercode, data, 0x10, 2)
    && ValueAt(h.unitcode, data, 0x12, 1)
    && ValueAt(h.encryptionSeed, data, 0x13, 1)
    && ValueAt(h.deviceCapacity, data, 0x14, 1)
    && |h.reserved1| == 7 && BytesAt(h.reserved1, data, 0x15)
    && ValueAt(h.gamerevision, data, 0x1C, 2)
    && ValueAt(h.romversion, data, 0x1E, 1)
    && ValueAt(h.autostart, data, 0x1F, 1)
    && ValueAt(h.arm9Offset, data, 0x20, 4)
    && ValueAt(h.arm9Entry, data, 0x24, 4)
    && ValueAt(h.arm9Load, data, 0x28, 4)
    && ValueAt(h.arm9Size, data, 0x2C, 4)
    && ValueAt(h.arm7Offset, data, 0x30, 4)
    && ValueAt(h.arm7Entry, data, 0x34, 4)
    && ValueAt(h.arm7Load, data, 0x38, 4)
    && ValueAt(h.arm7Size, data, 0x3C, 4)
    && ValueAt(h.fntOffset, data, 0x40, 4)
    && ValueAt(h.fntSize, data, 0x44, 4)
    && ValueAt(h.fatOffset, data, 0x48, 4)
    && ValueAt(h.fatSize, data, 0x4C, 4)
    && ValueAt(h.arm9OverlayOffset, data, 0x50, 4)
    && ValueAt(h.arm9OverlaySize, data, 0x54, 4)
    && ValueAt(h.arm7OverlayOffset, data, 0x58, 4)
    && ValueAt(h.arm7OverlayLength, data, 0x5C, 4)
    && ValueAt(h.unknown1, data, 0x60, 4)
    && ValueAt(h.unknown2, data, 0x64, 4)
    && ValueAt(h.iconBannerOffset, data, 0x68, 4)
    && ValueAt(h.secureAreaCrc, data, 0x6C, 2)
    && ValueAt(h.secureTfrTimeout, data, 0x6E, 2)
    && ValueAt(h.arm9Autoload, data, 0x70, 4)
    && ValueAt(h.arm7Autoload, data, 0x74, 4)
    && ValueAt(h.secureDisable, data, 0x78, 8)
    && ValueAt(h.ntrRegionSize, data, 0x80, 4)
    && ValueAt(h.headerSize, data, 0x84, 4)
    && |h.reserved2| == 56 && BytesAt(h.reserved2, data, 0x88)
    && |h.logo| == 156 && BytesAt(h.logo, data, 0xC0)
    && ValueAt(h.logoCrc, data, 0x15C, 2)
    && ValueAt(h.headerCrc, data, 0x15E, 2)
    && |h.debuggerReserved| == 32 && BytesAt(h.debuggerReserved, data, 0x160)
  }

  /** Reads the 0x20 bytes of identification and unit fields (header bytes 0x00..0x20). */
  function ReadIdentification(c: Cursor)
    : (r: Decoded<Got<(BoundedString, BoundedString, u16, u8, u8, u8, seq<u8>, u16, u8, u8)>>)
    ensures r.Ok? <==> c.pos + 0x20 <= |c.data|
    ensures r.Ok? ==> r.value.rest == Position(c.data, c.pos + 0x20)
    ensures r.Ok? ==>
      var (title, gamecode, makercode, unitcode, seed, capacity, reserved, revision, romversion, autostart) := r.value.value;
      && |title.data| == 12 && BytesAt(title.data, c.data, c.pos)
      && |gamecode.data| == 4 && BytesAt(gamecode.data, c.data, c.pos + 0x0C)
      && ValueAt(makercode, c.data, c.pos + 0x10, 2)
      && ValueAt(unitcode, c.data, c.pos + 0x12, 1)
      && ValueAt(seed, c.data, c.pos + 0x13, 1)
      && ValueAt(capacity, c.data, c.pos + 0x14, 1)
      && |reserved| == 7 && BytesAt(reserved, c.data, c.pos + 0x15)
      && ValueAt(revision, c.data, c.pos + 0x1C, 2)
      && ValueAt(romversion, c.data, c.pos + 0x1E, 1)
      && ValueAt(autostart, c.data, c.pos + 0x1F, 1)
    ensures r.Err? ==> Overran(r.error, c.data)
  {
    var title :- ReadBoundedString(c, 12);
    var gamecode :- ReadBoundedString(title.rest, 4);
    var makercode :- ReadU16(gamecode.rest);
    var unitcode :- ReadU8(makercode.rest);
    var seed :- ReadU8(unitcode.rest);
    var capacity :- ReadU8(seed.rest);
    var reserved :- ReadBytes(capacity.rest, 7);
    var revision :- ReadU16(reserved.rest);
    var romversion :- ReadU8(revision.rest);
    var autostart :- ReadU8(romversion.rest);
    Ok(Got((title.value, gamecode.value, makercode.value, unitcode.value, seed.value, capacity.value,
            reserved.value, revision.value, romversion.value, autostart.value), autostart.rest))
  }

  /** Reads the secure-area, autoload and size fields (header bytes 0x6C..0x88). */
  function ReadSecureArea(c: Cursor): (r: Decoded<Got<(u16, u16, u32, u32, u64, u32, u32)>>)
    ensures r.Ok? <==> c.pos + 0x1C <= |c.data|
    ensures r.Ok? ==> r.value.rest == Position(c.data, c.pos + 0x1C)
    ensures r.Ok? ==>
      var (crc, timeout, arm9Autoload, arm7Autoload, disable, ntrSize, headerSize) := r.value.value;
      && ValueAt(crc, c.data, c.pos, 2)
      && ValueAt(timeout, c.data, c.pos + 0x02, 2)
      && ValueAt(arm9Autoload, c.data, c.pos + 0x04, 4)
      && ValueAt(arm7Autoload, c.data, c.pos + 0x08, 4)
      && ValueAt(disable, c.data, c.pos + 0x0C, 8)
      && ValueAt(ntrSize, c.data, c.pos + 0x14, 4)
      && ValueAt(headerSize, c.data, c.pos + 0x18, 4)
    ensures r.Err? ==> Overran(r.error, c.data)
  {
    var crc :- ReadU16(c);
    var timeout :- ReadU16(crc.rest);
    var arm9Autoload :- ReadU32(timeout.rest);
    var arm7Autoload :- ReadU32(arm9Autoload.rest);
    var disable :- ReadU64(arm7Autoload.rest);
    var ntrSize :- ReadU32(disable.rest);
    var headerSize :- ReadU32(ntrSize.rest);
    Ok(Got((crc.value, timeout.value, arm9Autoload.value, arm7Autoload.value, disable.value,
            ntrSize.value, headerSize.value), headerSize.rest))
  }

  /** Reads the reserved area, the logo, both checksums and the debugger area (bytes 0x88..0x180). */
  function ReadLogoArea(c: Cursor): (r: Decoded<Got<(seq<u8>, seq<u8>, u16, u16, seq<u8>)>>)
    ensures r.Ok? <==> c.pos + 0xF8 <= |c.data|
    ensures r.Ok? ==> r.value.rest == Position(c.data, c.pos + 0xF8)
    ensures r.Ok? ==>
      var (reserved, logo, logoCrc, headerCrc, debugger) := r.value.value;
      && |reserved| == 56 && BytesAt(reserved, c.data, c.pos)
      && |logo| == 156 && BytesAt(logo, c.data, c.pos + 0x38)
      && ValueAt(logoCrc, c.data, c.pos + 0xD4, 2)
      && ValueAt(headerCrc, c.data, c.pos + 0xD6, 2)
      && |debugger| == 32 && BytesAt(debugger, c.data, c.pos + 0xD8)
    ensures r.Err? ==> Overran(r.error, c.data)
  {
    var reserved :- ReadBytes(c, 56);
    var logo :- ReadBytes(reserved.rest, 156);
    var logoCrc :- ReadU16(logo.rest);
    var headerCrc :- ReadU16(logoCrc.rest);
    var debugger :- ReadBytes(headerCrc.rest, 32);
    Ok(Got((reserved.value, logo.value, logoCrc.value, headerCrc.value, debugger.value), debugger.rest))
  }

  /**
   * Decodes the header from the front of the image.  It succeeds exactly when the
   * image holds the whole record; otherwise the error names the read that overran.
   */
  function DecodeHeader(data: seq<u8>): (r: Decoded<NdsHeader>)
    ensures r.Ok? <==> |data| >= HeaderSize
    ensures r.Ok? ==> HeaderAt(r.value, data)
    ensures r.Err? ==> Overran(r.error, data)
  {
    var id :- ReadIdentification(Start(data));
    // arm9 and arm7 descriptors, file tables, overlay tables, two unknown words, icon offset
    var words :- ReadU32s(id.rest, 19);
    var secure :- ReadSecureArea(words.rest);
    var tail :- ReadLogoArea(secure.rest);
    var (title, gamecode, makercode, unitcode, seed, capacity, reserved1, revision, romversion, autostart) := id.value;
    var w := words.value;
    var (secureAreaCrc, timeout, arm9Autoload, arm7Autoload, disable, ntrSize, headerSize) := secure.value;
    var (reserved2, logo, logoCrc, headerCrc, debugger) := tail.value;
    Ok(NdsHeader(
      title, gamecode, makercode, unitcode, seed, capacity, reserved1, revision, romversion, autostart,
      w[0], w[1], w[2], w[3], w[4], w[5], w[6], w[7],
      w[8], w[9], w[10], w[11], w[12], w[13], w[14], w[15], w[16], w[17], w[18],
      secureAreaCrc, timeout, arm9Autoload, arm7Autoload, disable, ntrSize, headerSize,
      reserved2, logo, logoCrc, headerCrc, debugger))
  }

  /** Bytes after the first 0x180 never influence the decoded header. */
  lemma HeaderIgnoresTrailingBytes(d1: seq<u8>, d2: seq<u8>)
    requires |d1| >= HeaderSize && |d2| >= HeaderSize
    requires d1[..HeaderSize] == d2[..HeaderSize]
    ensures DecodeHeader(d1) == DecodeHeader(d2)
  {
    SamePrefixSlices(d1, d2, HeaderSize);
    var r1, r2 := DecodeHeader(d1), DecodeHeader(d2);
    assert HeaderAt(r1.value, d1) && HeaderAt(r2.value, d2);
    HeaderAtUnique(r1.value, r2.value, d1, d2);
  }

  /** The layout determines the header: equal first 0x180 bytes give equal headers. */
  lemma HeaderAtUnique(h1: NdsHeader, h2: NdsHeader, d1: seq<u8>, d2: seq<u8>)
    requires HeaderAt(h1, d1) && HeaderAt(h2, d2)
    requires forall a: nat, b: nat | a <= b <= HeaderSize :: d1[a..b] == d2[a..b]
    ensures h1 == h2
  {
    assert h1.title == h2.title;
    assert h1.gamecode == h2.gamecode;
  }
}
