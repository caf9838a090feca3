# nds-extract, modelled in Dafny

nds-extract reads a Nintendo DS / DSi cartridge image held in memory. It does five things:

1. Decodes the fixed 0x180-byte cartridge header.
2. Cuts the ARM9 and ARM7 executables out of the image.
3. Decodes the icon/title record at the offset the header gives. DSi records carry an extra animation block.
4. Redraws the 32x32 icon from its tiled 4-bit bitmap and 15-bit palette.
5. For DSi records, redraws one animation frame for each entry of the 64-entry animation sequence, up to the first zero entry.

This project models all of that as pure functions and small methods over byte sequences, and proves what each step promises. Every module's doc comments give that module's details.

- `Wrappers`: `Option` and `Result`.
- `Arith`: a few division facts.
- `ByteReader`: a cursor-based little-endian byte reader. A read past the end fails with `UnexpectedEnd(offset, length)`.
  - `ValueAt`, `BytesAt` and `ValuesAt` state "this value sits at this offset". They are the independent layout statements the decoders are proved against.
- `BoundedStrings`: the zero-padded text fields and their display views.
  - A view drops every zero unit and passes the rest, in order, to a lossy decoder.
  - The lossy UTF-8 and UTF-16 decoders are function parameters.
- `Header`: the cartridge header decoder.
  - `HeaderAt` states every field at its fixed offset, from `title` at 0x00 to `debugger_reserved` at 0x160.
- `Icon`: the icon/title record decoder.
  - The common part is 0x1240 bytes.
  - The 0x1180-byte DSi block (8 bitmaps, 8 palettes, 64 sequence entries) is present exactly when `version >= 259`.
  - `IconAt` states the layout.
- `Color`: widening a 5-bit channel to 8 bits (`conv`), and expanding a palette colour to an RGBA pixel.
- `Tiles`: the frame renderer (`dump_icon_frame`).
  - The drawing callback is modelled by the sequence of calls it receives (`Blit`).
  - The image the caller draws is modelled by painting those calls in order onto a blank 32x32 raster (`Paint`, `Render`).
  - `PixelAt` is the reference definition: the pixel at (x, y) shows the stored pixel at the mirror image of (x, y), read from the DS tiled 4bpp layout.
- `Animation`: decoding sequence entries and interpreting the sequence up to the first zero entry.
- `Extract`: the whole pipeline (`extract`, `dump_icon`, and the slicing half of `dump_elf`).

Behaviour of the code worth spelling out:

- **Channel order.** The code widens bits 0-4 of a palette colour into the first byte of the RGBA pixel, which is red, as in the BGR555 layout of the GBATEK documentation that `src/nds.rs` cites at line 152 (`Color.Expand`).
- **Executable bounds.** Nothing rejects an executable that lies outside the image. The code skips and takes, so an out-of-range executable is cut short or comes back empty (`Extract.ArmSlice`).
- **Icon offset.** An icon offset past the end of the image makes `split_at` panic. The model returns an `InvalidOffset` error instead. An icon offset of 0 is not rejected: the record is read from the start of the image (`Extract.IconAtOffsetZero`).
- **Icon byte order.** `NDSIconPalette`, `DSIIcon` and `NDSIcon` (src/nds.rs lines 162-212) carry no byte-order attribute, so the decoder's host default applies to their 16-bit fields. They are modelled as little-endian. `DSIIconFrame` is declared little-endian (line 156); it holds only bytes, so its byte order does not matter.

## Model

| member | source | states |
|---|---|---|
| ByteReader.EncodeLEOfLE | src/nds.rs:85 | Re-encoding a little-endian value in its width gives back exactly the bytes it was read from, so each field's bytes are determined by its value. |
| ByteReader.EncodeLE | src/nds.rs:85 | A value below 256^n is written as exactly n bytes whose little-endian reading is the value. |
| ByteReader.LEInjective | src/nds.rs:85 | Two byte strings of one width with the same little-endian value are the same bytes. |
| ByteReader.ReadBytes | src/nds.rs:95-97 | n raw bytes are read iff n bytes remain. They are exactly the next n bytes, and the cursor advances by n. Otherwise the error is `UnexpectedEnd` at the cursor for n bytes. |
| ByteReader.ReadU8 | src/nds.rs:92-94 | A byte is read iff one remains. It is the byte at the cursor, which advances by 1. Otherwise the error is `UnexpectedEnd` for 1 byte. |
| ByteReader.ReadU16 | src/nds.rs:91 | A 16-bit field is read iff 2 bytes remain. Its value is the little-endian value of those bytes, and the cursor advances by 2. Otherwise the error is `UnexpectedEnd` for 2 bytes. |
| ByteReader.ReadU32 | src/nds.rs:102-105 | A 32-bit field is read iff 4 bytes remain. Its value is the little-endian value of those bytes, and the cursor advances by 4. Otherwise the error is `UnexpectedEnd` for 4 bytes. |
| ByteReader.ReadU64 | src/nds.rs:133 | A 64-bit field is read iff 8 bytes remain. Its value is the little-endian value of those bytes, and the cursor advances by 8. Otherwise the error is `UnexpectedEnd` for 8 bytes. |
| ByteReader.ReadU16s | src/nds.rs:164-166 | An array of n 16-bit values is read iff 2n bytes remain. Element j is the little-endian value of bytes pos+2j and pos+2j+1. The cursor advances by 2n. A short read reports an offset/length that overruns the buffer. |
| ByteReader.ReadU32s | src/nds.rs:102-126 | The 19 consecutive 32-bit header fields from `arm9_offset` to `icon_banner_offset` are read iff 76 bytes remain. Field j is the little-endian value of the 4 bytes at pos+4j. The cursor advances by 76. A short read overruns the buffer. |
| ByteReader.ValuesAtUnique | src/nds.rs:164-166 | Two arrays of one length laid out at the same offset of two buffers that agree there are equal. |
| BoundedStrings.RemoveAll | src/nds.rs:36-46 | The filtered field is never longer than the field and holds no zero unit. |
| BoundedStrings.RemoveAllKeepsOrder | src/nds.rs:63-73 | The survivors of the filter are the non-zero units in their original order: each comes from an increasing list of source positions, and every non-zero position is listed. |
| BoundedStrings.RemoveAllAppend | src/nds.rs:38-42 | Filtering a concatenation is concatenating the filtered parts. |
| BoundedStrings.RemoveAllIdempotent | src/nds.rs:36-46 | Stripping zeros twice is stripping them once. |
| BoundedStrings.RemoveAllClean | src/nds.rs:36-46 | A field with no zero unit passes the filter unchanged. |
| BoundedStrings.ZeroDropsOut | src/nds.rs:41 | A zero unit inserted anywhere is dropped by the filter. |
| BoundedStrings.StrIgnoresZeros | src/nds.rs:36-46 | Inserting a zero byte anywhere in a single-byte text field never changes its display text. |
| BoundedStrings.Utf16StrIgnoresZeros | src/nds.rs:62-73 | Inserting a zero unit anywhere in a UTF-16 text field never changes its display text. |
| BoundedStrings.StrDependsOnlyOnNonZero | src/nds.rs:36-46 | `BoundedString::str`: two fields with the same non-zero bytes, in the same order, have the same display text. |
| BoundedStrings.StrOfStripped | src/nds.rs:36-46 | `BoundedString::str`: stripping the zeros from a field first never changes its display text. |
| BoundedStrings.Utf16StrDependsOnlyOnNonZero | src/nds.rs:62-73 | `BoundedUTF16String::str`: two fields with the same non-zero units, in the same order, have the same display text. |
| BoundedStrings.Utf16StrOfStripped | src/nds.rs:62-73 | `BoundedUTF16String::str`: stripping the zeros from a field first never changes its display text. |
| BoundedStrings.ReadBoundedString | src/nds.rs:14-33 | A field of n bytes is read iff n bytes remain. Its data is exactly those bytes. |
| BoundedStrings.ReadBoundedUtf16String | src/nds.rs:55-60 | A UTF-16 field is read iff 256 bytes remain. Its 128 units are the little-endian pairs at consecutive offsets. |
| Header.ReadIdentification | src/nds.rs:87-100 | The first 0x20 header bytes are read iff they are present. Title (12 bytes), game code (4 bytes), maker code, unit code, seed, capacity, the 7 reserved bytes, revision, ROM version and autostart each sit at their fixed offset. A short read overruns the buffer. |
| Header.ReadSecureArea | src/nds.rs:127-135 | The 0x1C bytes from the secure-area checksum to the header size are read iff they are present. Each field sits at its fixed offset with its own width (2, 2, 4, 4, 8, 4, 4). A short read overruns the buffer. |
| Header.ReadLogoArea | src/nds.rs:137-149 | The last 0xF8 header bytes are read iff they are present. The 56 reserved bytes, the 156 logo bytes, both checksums and the 32 debugger bytes each sit at their fixed offset. A short read overruns the buffer. |
| Header.DecodeHeader | src/nds.rs:83-150 | The header decodes iff the image holds at least 0x180 bytes. Every field equals the bytes or little-endian value at its fixed offset (for example `icon_banner_offset` is the 32-bit value at 0x68). A shorter image fails with an overrunning `UnexpectedEnd`. |
| Header.HeaderIgnoresTrailingBytes | src/nds.rs:86-150 | Two images that agree on their first 0x180 bytes decode to the same header: bytes past the header never matter. |
| Header.HeaderAtUnique | src/nds.rs:86-150 | The header layout determines the record: equal header bytes give equal headers. |
| Icon.ReadDsiIcon | src/nds.rs:169-178 | The DSi block is read iff 0x1180 bytes remain. Bitmap i is at +0x200·i, palette i at +0x1000+0x20·i, and the 64-entry sequence at +0x1100. |
| Icon.ReadPreamble | src/nds.rs:183-197 | The first 0x240 record bytes are read iff they are present. Version, four checksums, 22 reserved bytes, the 512-byte bitmap and the palette each sit at their fixed offset. A short read overruns the buffer. |
| Icon.ReadPalette | src/nds.rs:162-167 | A palette is read iff 0x20 bytes remain. Colour k is the little-endian 16-bit value at +2k. A short read overruns the buffer. |
| Icon.ReadPalettes | src/nds.rs:175 | n palettes are read iff 0x20·n bytes remain. Palette i is laid out at +0x20·i. |
| Icon.ReadFrames | src/nds.rs:157-160 | n bitmaps are read iff 0x200·n bytes remain. Bitmap i is the 512 bytes at +0x200·i. |
| Icon.ReadTitles | src/nds.rs:199-206 | n UTF-16 titles are read iff 0x100·n bytes remain. Title i is laid out at +0x100·i. |
| Icon.DsiIconAtUnique | src/nds.rs:169-178 | The DSi block layout determines the block: equal bytes over its 0x1180 bytes give equal blocks. |
| Icon.DecodeIcon | src/nds.rs:180-212 | The record decodes iff at least 0x1240 bytes are present and, when `version >= 259`, 0x23C0. The DSi block is present iff `version >= 259`. Every field sits at its fixed offset. Any shortfall is an overrunning `UnexpectedEnd`. |
| Icon.IconAtUnique | src/nds.rs:182-212 | The icon layout determines the record: equal bytes over the record's extent give equal records. |
| Icon.IconIgnoresTrailingBytes | src/nds.rs:182-212 | Bytes past the end of the record (0x1240, or 0x23C0 for DSi records) never change the decoded icon. |
| Color.Conv | src/nds.rs:268-271 | For a channel c ≤ 31 the result is the integer nearest to 255·c/31 (within 15/31). For c ≥ 31 the result saturates at 255. |
| Color.ConvMonotone | src/nds.rs:269-271 | Widening never reverses the order of two channel values. |
| Color.ConvEndpoints | src/nds.rs:269-271 | Channel 0 widens to 0 and channel 31 to 255. |
| Color.ConvInjective | src/nds.rs:269-271 | Distinct 5-bit channel values widen to distinct bytes. |
| Color.Expand | src/nds.rs:308-315 | A palette colour becomes an opaque pixel whose first, second and third bytes are the widened bits 0-4, 5-9 and 10-14. |
| Color.ExpandOfPack | src/nds.rs:310-314 | Each 5-bit channel packed into a colour comes back, widened, in its own byte. |
| Color.ExpandInjective | src/nds.rs:310-314 | Two colours below bit 15 that expand to the same pixel are equal. |
| Color.ChannelsOfPack | src/nds.rs:311-313 | Masking and shifting a packed colour by 0, 5 and 10 bits gives back the three 5-bit channels. |
| Color.PackOfChannels | src/nds.rs:311-313 | A colour below bit 15 is the sum of its three 5-bit channels in place: no bit is lost. |
| Tiles.NibbleStream | src/nds.rs:288-291 | The nibble stream is twice as long as the bitmap. Entry n is the low nibble of byte n/2 for even n and its high nibble for odd n. |
| Tiles.NibblesRebuildByte | src/nds.rs:288-291 | The two nibbles of a byte, low first, put back together give the byte. |
| Tiles.ColorOf | src/nds.rs:306-316 | Index 0 gives the all-zero pixel [0, 0, 0, 0], whatever palette entry 0 holds. Any other index gives the expanded palette colour. The alpha is 0 iff the index is 0. |
| Tiles.Mirror | src/nds.rs:304-305 | A mirrored coordinate stays inside 0..31. Mirroring maps v to the coordinate v′ with v + v′ = 31; no mirroring keeps v. |
| Tiles.MirrorInvolution | src/nds.rs:304-305 | Mirroring a coordinate twice gives it back. |
| Tiles.OrderIndexOfEmitOrder | src/nds.rs:293-300 | Distinct steps of the tile walk visit distinct pixels: the step number can be recovered from the pixel. |
| Tiles.EmitOrderOfOrderIndex | src/nds.rs:293-300 | Every pixel of the 32x32 grid is visited by some step of the walk. |
| Tiles.WalkStep | src/nds.rs:293-302 | Step 256·ty+64·tx+8·ix+iy of the walk visits pixel (8·tx+ix, 8·ty+iy), which is nibble 8·iy+ix of tile 4·ty+tx. |
| Tiles.EmittedAtStep | src/nds.rs:301-317 | The call made at that step draws that nibble, looked up in the palette, at the mirrored pixel. |
| Tiles.DumpIconFrame | src/nds.rs:282-324 | The four nested loops (tile rows, tiles, columns, rows) make exactly the 1024 calls of the schedule. Call number 256·ty+64·tx+8·ix+iy draws the nibble at tile 4·ty+tx, row iy, column ix, at its mirrored position. |
| Tiles.DumpTile | src/nds.rs:296-320 | One tile contributes 64 calls that continue the schedule. |
| Tiles.DumpPixel | src/nds.rs:301-317 | One pixel of a tile adds exactly one call, and that call continues the schedule. |
| Tiles.ExtendWalk | src/nds.rs:301-317 | Appending the call for the next step to a prefix of the schedule gives a longer prefix. |
| Tiles.ScheduleCoversGridOnce | src/nds.rs:293-305 | With or without mirroring, the 1024 calls name only pixels in 0..31 × 0..31, name every such pixel, and never name one twice. |
| Tiles.LastWriteWins | src/nds.rs:335 | After painting the calls in order, a pixel shows the colour of the last call that names it. |
| Tiles.PaintUntouched | src/nds.rs:330 | A pixel no call names keeps its initial colour. |
| Tiles.Paint | src/nds.rs:335 | Painting calls that all name pixels of the image keeps the set of pixels the same. |
| Tiles.Render | src/nds.rs:330-337 | Drawing the schedule onto a fresh 32x32 image gives an image covering exactly the grid. |
| Tiles.OnlyWriter | src/nds.rs:293-305 | Every pixel of the grid is named by exactly one of the 1024 calls: the step at its mirrored position. |
| Tiles.RenderMatchesPixelAt | src/nds.rs:282-324 | The drawn image equals the reference everywhere: pixel (x, y) shows the palette colour of the nibble ((y'/8)·4 + x'/8)·64 + (y'%8)·8 + x'%8, where (x', y') is (x, y) mirrored as requested. |
| Tiles.RenderIsPixelAt | src/nds.rs:330-337 | The drawn image covers the grid and equals the reference at every pixel. |
| Tiles.RenderFlipHoriz | src/nds.rs:304 | The horizontally mirrored image at (x, y) is the unmirrored image at (31−x, y). |
| Tiles.RenderFlipVert | src/nds.rs:305 | The vertically mirrored image at (x, y) is the unmirrored image at (x, 31−y). |
| Tiles.RenderTransparency | src/nds.rs:306-307 | A drawn pixel is the all-zero pixel iff its stored nibble is 0, and likewise its alpha is 0 iff the nibble is 0. |
| Tiles.RenderZeroBitmap | src/nds.rs:306-307 | An all-zero bitmap draws a fully transparent icon, whatever the palette. |
| Tiles.RenderIgnoresEntryZero | src/nds.rs:306-309 | Palette entry 0 is never consulted: changing it never changes the image. |
| Animation.DecodeEntry | src/nds.rs:360-366 | The palette and bitmap indices of an entry are below 8, so selecting the frame and palette is always in bounds. |
| Animation.DecodeEncodeEntry | src/nds.rs:360-366 | Packing the fields back into an entry and decoding it gives the same fields. |
| Animation.EncodeDecodeEntry | src/nds.rs:360-366 | The five fields together rebuild the original 16-bit entry: no bit is ignored. |
| Animation.ExampleEntry | src/nds.rs:360-366 | Entry 0x803C means vertical flip, no horizontal flip, palette 0, bitmap 0, 60 ticks. |
| Animation.ActiveEntries | src/nds.rs:353-357 | The active entries are a prefix of the sequence with no zero in them. When the prefix is shorter than the sequence, it is followed by a zero. |
| Animation.AnimationFrames | src/nds.rs:353-377 | There is one frame per active entry, in table order, at most 64. Frame i is bitmap and palette of entry i drawn with its mirroring, with its duration. |
| Animation.IconFrames | src/nds.rs:344 | A record without the DSi block has no animation frames. |
| Animation.DumpAnimation | src/nds.rs:352-387 | The loop that stops at the first zero entry produces exactly the frames of the active entries. |
| Animation.DumpFrame | src/nds.rs:358-377 | One entry is drawn onto a fresh image with the bitmap, palette and mirroring it names. |
| Animation.StopsAtZero | src/nds.rs:353-356 | When the loop meets a zero entry the frames produced so far are the whole animation. |
| Animation.ContinuesPastNonZero | src/nds.rs:353-387 | A non-zero entry at the loop position yields the next frame, the one that entry names. |
| Animation.LeadingZeroNoFrames | src/nds.rs:353-356 | A sequence whose first entry is 0 has no frames. |
| Animation.ActiveEntriesUpToZero | src/nds.rs:353-356 | Sequences that agree up to and including a zero entry have the same active entries. |
| Animation.AnimationIgnoresEntriesAfterZero | src/nds.rs:353-377 | Entries after the first zero never influence the animation. |
| Extract.ArmSlice | src/nds.rs:216-228 | Skipping `offset` bytes and taking at most `size` gives the image bytes from `offset` on, cut short by the end of the image. It is empty when `offset` lies beyond the image. |
| Extract.ArmSliceInside | src/nds.rs:216-228 | When the executable lies inside the image it is exactly the bytes it names. |
| Extract.DecodeIconAt | src/nds.rs:327 | An icon offset beyond the image fails with `InvalidOffset`. Otherwise the result, error included, is exactly the record decoder's result on the bytes from that offset, so it succeeds iff enough bytes follow it. |
| Extract.IconAtOffsetZero | src/nds.rs:327 | An icon offset of 0 reads the icon record from the very start of the image. |
| Extract.DumpStill | src/nds.rs:330-337 | The still image covers the grid and equals the unmirrored reference image of the record's bitmap and palette. |
| Extract.DumpImages | src/nds.rs:330-387 | The still image equals the unmirrored reference image, and the animation is the record's frames (none without the DSi block). |
| Extract.DumpIcon | src/nds.rs:326-393 | It succeeds iff the icon record decodes at the header's offset; on failure it passes that decode error on unchanged. The still image covers the 32x32 grid and equals the unmirrored reference image of the record's bitmap and palette. The animation is the record's frames. |
| Extract.Extract | src/nds.rs:395-407 | It fails on an image shorter than a header. It succeeds iff the header and then the icon decode; otherwise it passes on the header decoder's error or, when the header decodes, the icon decoder's error. The returned header, executables, icon, still image and animation are those the layout and the renderer define. |

## Left out

- Reading the file (`read_to_end`), every `println!` and the `Debug` implementations. These are I/O and formatting.
- `dump_elf`'s construction and writing of the two ELF files through the object-file library. Only the byte slicing is modelled.
- Writing the PNG and GIF files, and the game-code-based file names. The pipeline returns the still image and the frames instead of encoding them.
- The conversion of a frame's duration to milliseconds in floating point (`Delay`). Frames carry the raw duration in 1/60 s ticks.
- The internals of the lossy UTF-8 and UTF-16 decoders. They are arbitrary total functions passed as parameters.
- The derive-based parser's generic passthrough reader for `BoundedString`. The explicit cursor reader replaces it.
- Error values: the derived parser's own error, which names only the size the failing primitive read needed, is replaced by `UnexpectedEnd(offset, length)` for the whole field being read, or `InvalidOffset` for the icon offset that makes `split_at` panic. Only the fact of failure and its cause correspond to the code; the payload is the model's own.
- CRC checks. The code reads the CRC fields but never checks them, and so does the model.
- The command-line front end (`src/main.rs`) is not part of this model.
- Color.Conv: the f64 arithmetic is replaced by the integer expression `min(255, (255·c + 15) / 31)`. The two agree because 255·c/31 is never exactly halfway between two integers, and the cast to a byte saturates.
