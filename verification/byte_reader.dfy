/**
 * The primitive byte reader that the record decoders are built from.
 *
 * The repository reads its records with a declarative derive-based parser that
 * consumes fields one after another from the front of a byte slice and hands back
 * the unread rest.  This module re-expresses that as an explicit cursor: every read
 * checks that enough bytes remain, returns the value together with the advanced
 * cursor, and fails with `UnexpectedEnd` otherwise.  Integers are little-endian.
 */
module ByteReader {
  import opened Wrappers
  import opened Arith

  type u8 = x: int | 0 <= x < 0x100
  type u16 = x: int | 0 <= x < 0x1_0000
  type u32 = x: int | 0 <= x < 0x1_0000_0000
  type u64 = x: int | 0 <= x < 0x1_0000_0000_0000_0000

  /** Why a decode stopped. */
  datatype DecodeError =
    /** A read of `length` bytes at `offset` ran past the end of the buffer. */
    | UnexpectedEnd(offset: nat, length: nat)
    /** A record offset taken from the header lies beyond the end of the image. */
    | InvalidOffset(offset: nat, available: nat)

  type Decoded<T> = Result<T, DecodeError>

  /** A position in an in-memory buffer. */
  datatype Position = Position(data: seq<u8>, pos: nat)

  /** A read position never lies past the end of its buffer. */
  type Cursor = c: Position | c.pos <= |c.data| witness Position([], 0)

  /** The cursor at the first byte of `data`. */
  function Start(data: seq<u8>): Cursor
  {
    Position(data, 0)
  }

  /** A value read from a cursor, with the cursor just past it. */
  datatype Got<+T> = Got(value: T, rest: Cursor)

  function Pow256(n: nat): (p: nat)
    ensures p >= 1
  {
    if n == 0 then 1 else 256 * Pow256(n - 1)
  }

  /** The unsigned value of `bs` read little-endian (least significant byte first). */
  function LE(bs: seq<u8>): (v: nat)
    ensures v < Pow256(|bs|)
  {
    if |bs| == 0 then 0 else bs[0] + 256 * LE(bs[1..])
  }

  /** The `n` little-endian bytes of `v`. */
  function EncodeLE(v: nat, n: nat): (bs: seq<u8>)
    requires v < Pow256(n)
    ensures |bs| == n
    ensures LE(bs) == v
  {
    if n == 0 then [] else [v % 256] + EncodeLE(v / 256, n - 1)
  }

  /** Re-encoding a decoded value gives back exactly the bytes it was read from. */
  lemma {:induction false} EncodeLEOfLE(bs: seq<u8>)
    ensures EncodeLE(LE(bs), |bs|) == bs
  {
    if |bs| > 0 {
      EncodeLEOfLE(bs[1..]);
      assert LE(bs) % 256 == bs[0];
      assert LE(bs) / 256 == LE(bs[1..]);
    }
  }

  /** Two byte strings of one width with the same value are the same bytes. */
  lemma LEInjective(a: seq<u8>, b: seq<u8>)
    requires |a| == |b| && LE(a) == LE(b)
    ensures a == b
  {
    EncodeLEOfLE(a);
    EncodeLEOfLE(b);
  }

  /** Reads `n` raw bytes. */
  function ReadBytes(c: Cursor, n: nat): (r: Decoded<Got<seq<u8>>>)
    ensures r.Ok? <==> c.pos + n <= |c.data|
    ensures r.Ok? ==> |r.value.value| == n && r.value.value == c.data[c.pos..c.pos + n]
    ensures r.Ok? ==> r.value.rest == Position(c.data, c.pos + n)
    ensures r.Err? ==> r.error == UnexpectedEnd(c.pos, n)
  {
    if c.pos + n <= |c.data| then Ok(Got(c.data[c.pos..c.pos + n], Position(c.data, c.pos + n)))
    else Err(UnexpectedEnd(c.pos, n))
  }

  function ReadU8(c: Cursor): (r: Decoded<Got<u8>>)
    ensures r.Ok? <==> c.pos + 1 <= |c.data|
    ensures r.Ok? ==> r.value.value == c.data[c.pos] && r.value.rest == Position(c.data, c.pos + 1)
    ensures r.Err? ==> r.error == UnexpectedEnd(c.pos, 1)
  {
    var b :- ReadBytes(c, 1);
    Ok(Got(b.value[0], b.rest))
  }

  function ReadU16(c: Cursor): (r: Decoded<Got<u16>>)
    ensures r.Ok? <==> c.pos + 2 <= |c.data|
    ensures r.Ok? ==> r.value.value == LE(c.data[c.pos..c.pos + 2]) && r.value.rest == Position(c.data, c.pos + 2)
    ensures r.Err? ==> r.error == UnexpectedEnd(c.pos, 2)
  {
    var b :- ReadBytes(c, 2);
    assert Pow256(2) == 0x1_0000;
    var v: u16 := LE(b.value);
    Ok(Got(v, b.rest))
  }

  function ReadU32(c: Cursor): (r: Decoded<Got<u32>>)
    ensures r.Ok? <==> c.pos + 4 <= |c.data|
    ensures r.Ok? ==> r.value.value == LE(c.data[c.pos..c.pos + 4]) && r.value.rest == Position(c.data, c.pos + 4)
    ensures r.Err? ==> r.error == UnexpectedEnd(c.pos, 4)
  {
    var b :- ReadBytes(c, 4);
    assert Pow256(4) == 0x1_0000_0000;
    var v: u32 := LE(b.value);
    Ok(Got(v, b.rest))
  }

  function ReadU64(c: Cursor): (r: Decoded<Got<u64>>)
    ensures r.Ok? <==> c.pos + 8 <= |c.data|
    ensures r.Ok? ==> r.value.value == LE(c.data[c.pos..c.pos + 8]) && r.value.rest == Position(c.data, c.pos + 8)
    ensures r.Err? ==> r.error == UnexpectedEnd(c.pos, 8)
  {
    var b :- ReadBytes(c, 8);
    assert Pow256(8) == 0x1_0000_0000_0000_0000;
    var v: u64 := LE(b.value);
    Ok(Got(v, b.rest))
  }

  /** The 16-bit value of two little-endian bytes. */
  function LE16(bs: seq<u8>): (v: u16)
    requires |bs| == 2
    ensures v == LE(bs)
  {
    assert Pow256(2) == 0x1_0000;
    LE(bs)
  }

  /** The 32-bit value of four little-endian bytes. */
  function LE32(bs: seq<u8>): (v: u32)
    requires |bs| == 4
    ensures v == LE(bs)
  {
    assert Pow256(4) == 0x1_0000_0000;
    LE(bs)
  }

  /** `raw` viewed as an array of little-endian 16-bit values. */
  function U16sOf(raw: seq<u8>): (vs: seq<u16>)
    requires |raw| % 2 == 0
    ensures |vs| == |raw| / 2 && ValuesAt(vs, raw, 0, 2)
  {
    seq(|raw| / 2, j requires 0 <= j < |raw| / 2 => LE16(raw[2 * j..2 * j + 2]))
  }

  /** `raw` viewed as an array of little-endian 32-bit values. */
  function U32sOf(raw: seq<u8>): (vs: seq<u32>)
    requires |raw| % 4 == 0
    ensures |vs| == |raw| / 4 && ValuesAt(vs, raw, 0, 4)
  {
    seq(|raw| / 4, j requires 0 <= j < |raw| / 4 => LE32(raw[4 * j..4 * j + 4]))
  }

  /** Reads an array of `n` little-endian 16-bit values. */
  function ReadU16s(c: Cursor, n: nat): (r: Decoded<Got<seq<u16>>>)
    ensures r.Ok? <==> c.pos + 2 * n <= |c.data|
    ensures r.Ok? ==> |r.value.value| == n && ValuesAt(r.value.value, c.data, c.pos, 2)
    ensures r.Ok? ==> r.value.rest == Position(c.data, c.pos + 2 * n)
    ensures r.Err? ==> Overran(r.error, c.data)
  {
    var raw :- ReadBytes(c, 2 * n);
    var vs := U16sOf(raw.value);
    ValuesAtShift(vs, c.data, c.pos, 2);
    Ok(Got(vs, raw.rest))
  }

  /** Reads an array of `n` little-endian 32-bit values. */
  function ReadU32s(c: Cursor, n: nat): (r: Decoded<Got<seq<u32>>>)
    ensures r.Ok? <==> c.pos + 4 * n <= |c.data|
    ensures r.Ok? ==> |r.value.value| == n && ValuesAt(r.value.value, c.data, c.pos, 4)
    ensures r.Ok? ==> r.value.rest == Position(c.data, c.pos + 4 * n)
    ensures r.Err? ==> Overran(r.error, c.data)
  {
    var raw :- ReadBytes(c, 4 * n);
    var vs := U32sOf(raw.value);
    ValuesAtShift(vs, c.data, c.pos, 4);
    Ok(Got(vs, raw.rest))
  }

  /** A slice of a slice is a slice of the original buffer. */
  lemma SliceOfSlice(data: seq<u8>, a: nat, b: nat, i: nat, j: nat)
    requires a <= b <= |data| && i <= j <= b - a
    ensures data[a..b][i..j] == data[a + i..a + j]
  {
    assert forall k | 0 <= k < j - i :: data[a..b][i..j][k] == data[a + i + k];
  }

  /** Values laid out in the slice of `data` starting at `pos` are laid out in `data` at `pos`. */
  lemma ValuesAtShift(vs: seq<nat>, data: seq<u8>, pos: nat, width: nat)
    requires pos + width * |vs| <= |data|
    requires ValuesAt(vs, data[pos..pos + width * |vs|], 0, width)
    ensures ValuesAt(vs, data, pos, width)
  {
    var raw := data[pos..pos + width * |vs|];
    forall j | 0 <= j < |vs|
      ensures ValueAt(vs[j], data, pos + width * j, width)
    {
      assert ValueAt(vs[j], raw, width * j, width);
      SlotFits(width, j, |vs|);
      SliceOfSlice(data, pos, pos + width * |vs|, width * j, width * j + width);
    }
  }

  /** Instantiates an agreement on every slice of a window at one slice. */
  lemma SliceAgrees(d1: seq<u8>, d2: seq<u8>, lo: nat, hi: nat, a: nat, b: nat)
    requires lo <= a <= b <= hi <= |d1| && hi <= |d2|
    requires forall x: nat, y: nat | lo <= x <= y <= hi :: d1[x..y] == d2[x..y]
    ensures d1[a..b] == d2[a..b]
  {
  }

  /** The read failed because it ran past the end of `data`. */
  ghost predicate Overran(e: DecodeError, data: seq<u8>)
  {
    e.UnexpectedEnd? && e.offset <= |data| < e.offset + e.length
  }

  /** `v` is the little-endian integer of `width` bytes stored at `pos`. */
  ghost predicate ValueAt(v: nat, data: seq<u8>, pos: nat, width: nat)
  {
    pos + width <= |data| && v == LE(data[pos..pos + width])
  }

  /** `bs` are the `|bs|` raw bytes stored at `pos`. */
  ghost predicate BytesAt(bs: seq<u8>, data: seq<u8>, pos: nat)
  {
    pos + |bs| <= |data| && bs == data[pos..pos + |bs|]
  }

  /** `vs` are consecutive little-endian integers of `width` bytes each, the first at `pos`. */
  ghost predicate ValuesAt(vs: seq<nat>, data: seq<u8>, pos: nat, width: nat)
  {
    && pos + width * |vs| <= |data|
    && forall j | 0 <= j < |vs| :: ValueAt(vs[j], data, pos + width * j, width)
  }

  /** Buffers that agree on their first `n` bytes agree on every slice inside them. */
  lemma SamePrefixSlices(d1: seq<u8>, d2: seq<u8>, n: nat)
    requires n <= |d1| && n <= |d2| && d1[..n] == d2[..n]
    ensures forall a: nat, b: nat | a <= b <= n :: d1[a..b] == d2[a..b]
  {
    forall a: nat, b: nat | a <= b <= n
      ensures d1[a..b] == d2[a..b]
    {
      assert d1[a..b] == d1[..n][a..b];
      assert d2[a..b] == d2[..n][a..b];
    }
  }

  /** Equal bytes hold equal value arrays. */
  lemma ValuesAtUnique(vs1: seq<nat>, vs2: seq<nat>, d1: seq<u8>, d2: seq<u8>, pos: nat, width: nat)
    requires |vs1| == |vs2| && ValuesAt(vs1, d1, pos, width) && ValuesAt(vs2, d2, pos, width)
    requires pos + width * |vs1| <= |d1| && pos + width * |vs1| <= |d2|
    requires forall a: nat, b: nat | pos <= a <= b <= pos + width * |vs1| :: d1[a..b] == d2[a..b]
    ensures vs1 == vs2
  {
    forall j | 0 <= j < |vs1|
      ensures vs1[j] == vs2[j]
    {
      var at := pos + width * j;
      assert at + width <= pos + width * |vs1| by {
        SlotFits(width, j, |vs1|);
      }
      assert d1[at..at + width] == d2[at..at + width] by {
        SliceAgrees(d1, d2, pos, pos + width * |vs1|, at, at + width);
      }
      assert ValueAt(vs1[j], d1, at, width) && ValueAt(vs2[j], d2, at, width);
    }
  }
}
