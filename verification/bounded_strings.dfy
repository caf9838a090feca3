/**
 * The two fixed-capacity, zero-padded text fields of the format and their display
 * views (src/nds.rs, `BoundedString` and `BoundedUTF16String`).
 *
 * A view drops every zero unit, wherever it sits, and hands the remaining units in
 * their original order to a lossy decoder.  The lossy decoders (UTF-8 for the
 * single-byte field, UTF-16 for the wide one) are total and are taken as function
 * parameters: the model fixes what reaches them, not how they map invalid input.
 */
module BoundedStrings {
  import opened Wrappers
  import opened ByteReader

  /** `s` with every occurrence of `zero` removed. */
  function RemoveAll<T(==)>(s: seq<T>, zero: T): (r: seq<T>)
    ensures |r| <= |s|
    ensures forall i | 0 <= i < |r| :: r[i] != zero
  {
    if |s| == 0 then []
    else
      assert s == [s[0]] + s[1..];
      (if s[0] == zero then [] else [s[0]]) + RemoveAll(s[1..], zero)
  }

  /** Removal works piecewise, so the surviving units keep their relative order. */
  lemma {:induction false} RemoveAllAppend<T>(a: seq<T>, b: seq<T>, zero: T)
    ensures RemoveAll(a + b, zero) == RemoveAll(a, zero) + RemoveAll(b, zero)
  {
    if |a| == 0 {
      assert a + b == b;
    } else {
      assert (a + b)[0] == a[0];
      assert (a + b)[1..] == a[1..] + b;
      RemoveAllAppend(a[1..], b, zero);
    }
  }

  /** `idx[k]` is a position of `s` holding `r[k]`, for every `k`. */
  ghost predicate Sources<T>(idx: seq<nat>, s: seq<T>, r: seq<T>)
  {
    |idx| == |r| && forall k | 0 <= k < |idx| :: idx[k] < |s| && s[idx[k]] == r[k]
  }

  ghost predicate Increasing(idx: seq<nat>)
  {
    forall k, l | 0 <= k < l < |idx| :: idx[k] < idx[l]
  }

  /** Every position from `from` on that holds a non-zero unit is listed in `idx`. */
  ghost predicate ListsNonZero<T>(idx: seq<nat>, s: seq<T>, zero: T, from: nat)
  {
    forall i | from <= i < |s| && s[i] != zero :: i in idx
  }

  /**
   * `idx` lists, increasingly, the position in `s` each unit of `RemoveAll(s, zero)`
   * came from, and lists every non-zero position of `s`.
   */
  ghost predicate SurvivorIndexes<T>(idx: seq<nat>, s: seq<T>, zero: T)
  {
    Sources(idx, s, RemoveAll(s, zero)) && Increasing(idx) && ListsNonZero(idx, s, zero, 0)
  }

  /** The survivors are exactly the non-zero units of `s`, in their original order. */
  lemma {:induction false} RemoveAllKeepsOrder<T>(s: seq<T>, zero: T) returns (idx: seq<nat>)
    ensures SurvivorIndexes(idx, s, zero)
  {
    if |s| == 0 {
      idx := [];
    } else {
      var tail := RemoveAllKeepsOrder(s[1..], zero);
      var shifted := ShiftIndexes(s, zero, tail);
      if s[0] == zero {
        idx := shifted;
        SkipZeroIndexes(s, zero, shifted);
      } else {
        idx := seq(|shifted| + 1, k requires 0 <= k <= |shifted| => if k == 0 then 0 else shifted[k - 1]);
        PrependSources(s, zero, shifted, idx);
        PrependIncreasing(shifted, idx);
        PrependListsNonZero(s, zero, shifted, idx);
      }
    }
  }

  /** Positions in `s[1..]` moved to positions in `s`. */
  lemma ShiftIndexes<T>(s: seq<T>, zero: T, tail: seq<nat>) returns (shifted: seq<nat>)
    requires |s| > 0 && SurvivorIndexes(tail, s[1..], zero)
    ensures Sources(shifted, s, RemoveAll(s[1..], zero)) && Increasing(shifted) && ListsNonZero(shifted, s, zero, 1)
    ensures forall k | 0 <= k < |shifted| :: shifted[k] >= 1
  {
    shifted := seq(|tail|, k requires 0 <= k < |tail| => tail[k] + 1);
    assert Sources(shifted, s, RemoveAll(s[1..], zero)) by {
      forall k | 0 <= k < |shifted|
        ensures shifted[k] < |s| && s[shifted[k]] == RemoveAll(s[1..], zero)[k]
      {
        assert s[1..][tail[k]] == s[shifted[k]];
      }
    }
    assert Increasing(shifted) by {
      assert Increasing(tail);
    }
    assert ListsNonZero(shifted, s, zero, 1) by {
      forall i | 1 <= i < |s| && s[i] != zero
        ensures i in shifted
      {
        assert s[1..][i - 1] == s[i];
        var k :| 0 <= k < |tail| && tail[k] == i - 1;
        assert shifted[k] == i;
      }
    }
  }

  /** A leading zero adds no survivor and no position. */
  lemma SkipZeroIndexes<T>(s: seq<T>, zero: T, shifted: seq<nat>)
    requires |s| > 0 && s[0] == zero
    requires Sources(shifted, s, RemoveAll(s[1..], zero)) && Increasing(shifted) && ListsNonZero(shifted, s, zero, 1)
    ensures SurvivorIndexes(shifted, s, zero)
  {
    assert RemoveAll(s, zero) == [] + RemoveAll(s[1..], zero);
  }

  lemma PrependSources<T>(s: seq<T>, zero: T, shifted: seq<nat>, idx: seq<nat>)
    requires |s| > 0 && s[0] != zero && Sources(shifted, s, RemoveAll(s[1..], zero))
    requires |idx| == |shifted| + 1 && idx[0] == 0
    requires forall k | 0 < k < |idx| :: idx[k] == shifted[k - 1]
    ensures Sources(idx, s, RemoveAll(s, zero))
  {
    var r, rest := RemoveAll(s, zero), RemoveAll(s[1..], zero);
    assert r == [s[0]] + rest;
    forall k | 0 < k < |idx|
      ensures s[idx[k]] == r[k]
    {
      assert r[k] == rest[k - 1];
    }
  }

  lemma PrependIncreasing(shifted: seq<nat>, idx: seq<nat>)
    requires Increasing(shifted) && forall k | 0 <= k < |shifted| :: shifted[k] >= 1
    requires |idx| == |shifted| + 1 && idx[0] == 0
    requires forall k | 0 < k < |idx| :: idx[k] == shifted[k - 1]
    ensures Increasing(idx)
  {
    forall k, l | 0 <= k < l < |idx|
      ensures idx[k] < idx[l]
    {
      if k > 0 {
        assert idx[k] == shifted[k - 1] && idx[l] == shifted[l - 1];
      }
    }
  }

  lemma PrependListsNonZero<T>(s: seq<T>, zero: T, shifted: seq<nat>, idx: seq<nat>)
    requires ListsNonZero(shifted, s, zero, 1)
    requires |idx| == |shifted| + 1 && idx[0] == 0
    requires forall k | 0 < k < |idx| :: idx[k] == shifted[k - 1]
    ensures ListsNonZero(idx, s, zero, 0)
  {
    forall i | 0 <= i < |s| && s[i] != zero
      ensures i in idx
    {
      if i == 0 {
        assert idx[0] == i;
      } else {
        var k :| 0 <= k < |shifted| && shifted[k] == i;
        assert idx[k + 1] == i;
      }
    }
  }

  /** A sequence without zeros is left as it is. */
  lemma {:induction false} RemoveAllClean<T>(s: seq<T>, zero: T)
    requires forall i | 0 <= i < |s| :: s[i] != zero
    ensures RemoveAll(s, zero) == s
  {
    if |s| > 0 {
      RemoveAllClean(s[1..], zero);
    }
  }

  /** Stripping twice is stripping once. */
  lemma RemoveAllIdempotent<T>(s: seq<T>, zero: T)
    ensures RemoveAll(RemoveAll(s, zero), zero) == RemoveAll(s, zero)
  {
    RemoveAllClean(RemoveAll(s, zero), zero);
  }

  /** A zero-padded single-byte text field (title, game code). */
  datatype BoundedString = BoundedString(data: seq<u8>) {
    /** The display text: the non-zero bytes, in order, decoded lossily. */
    function Str(lossyUtf8: seq<u8> -> string): string
    {
      lossyUtf8(RemoveAll(data, 0))
    }
  }

  /** A zero-padded field of 128 little-endian UTF-16 code units (icon titles). */
  datatype BoundedUtf16String = BoundedUtf16String(data: seq<u16>) {
    predicate Valid() {
      |data| == 128
    }

    /** The display text: the non-zero code units, in order, decoded lossily. */
    function Str(lossyUtf16: seq<u16> -> string): string
    {
      lossyUtf16(RemoveAll(data, 0))
    }
  }

  /** The display text depends only on the non-zero bytes, in order. */
  lemma StrDependsOnlyOnNonZero(a: seq<u8>, b: seq<u8>, lossyUtf8: seq<u8> -> string)
    requires RemoveAll(a, 0) == RemoveAll(b, 0)
    ensures BoundedString(a).Str(lossyUtf8) == BoundedString(b).Str(lossyUtf8)
  {
  }

  /** Stripping the zeros from a field first never changes its display text. */
  lemma StrOfStripped(a: seq<u8>, lossyUtf8: seq<u8> -> string)
    ensures BoundedString(RemoveAll(a, 0)).Str(lossyUtf8) == BoundedString(a).Str(lossyUtf8)
  {
    RemoveAllIdempotent(a, 0);
  }

  /** The display text of a UTF-16 field depends only on its non-zero units, in order. */
  lemma Utf16StrDependsOnlyOnNonZero(a: seq<u16>, b: seq<u16>, lossyUtf16: seq<u16> -> string)
    requires RemoveAll(a, 0) == RemoveAll(b, 0)
    ensures BoundedUtf16String(a).Str(lossyUtf16) == BoundedUtf16String(b).Str(lossyUtf16)
  {
  }

  /** Stripping the zeros from a UTF-16 field first never changes its display text. */
  lemma Utf16StrOfStripped(a: seq<u16>, lossyUtf16: seq<u16> -> string)
    ensures BoundedUtf16String(RemoveAll(a, 0)).Str(lossyUtf16) == BoundedUtf16String(a).Str(lossyUtf16)
  {
    RemoveAllIdempotent(a, 0);
  }

  /** Where the zero units of a text field sit never changes its display text. */
  lemma StrIgnoresZeros(a: seq<u8>, b: seq<u8>, lossyUtf8: seq<u8> -> string)
    ensures BoundedString(a + [0] + b).Str(lossyUtf8) == BoundedString(a + b).Str(lossyUtf8)
  {
    ZeroDropsOut(a, b, 0);
  }

  /** The same for the UTF-16 view. */
  lemma Utf16StrIgnoresZeros(a: seq<u16>, b: seq<u16>, lossyUtf16: seq<u16> -> string)
    ensures BoundedUtf16String(a + [0] + b).Str(lossyUtf16) == BoundedUtf16String(a + b).Str(lossyUtf16)
  {
    ZeroDropsOut(a, b, 0);
  }

  lemma ZeroDropsOut<T>(a: seq<T>, b: seq<T>, zero: T)
    ensures RemoveAll(a + [zero] + b, zero) == RemoveAll(a + b, zero)
  {
    assert RemoveAll([zero], zero) == [] by {
      assert [zero][1..] == [];
    }
    calc {
      RemoveAll(a + [zero] + b, zero);
    == { RemoveAllAppend(a + [zero], b, zero); }
      RemoveAll(a + [zero], zero) + RemoveAll(b, zero);
    == { RemoveAllAppend(a, [zero], zero); }
      RemoveAll(a, zero) + [] + RemoveAll(b, zero);
    == { assert RemoveAll(a, zero) + [] == RemoveAll(a, zero); }
      RemoveAll(a, zero) + RemoveAll(b, zero);
    == { RemoveAllAppend(a, b, zero); }
      RemoveAll(a + b, zero);
    }
  }

  /** Reads a single-byte text field of `n` bytes. */
  function ReadBoundedString(c: Cursor, n: nat): (r: Decoded<Got<BoundedString>>)
    ensures r.Ok? <==> c.pos + n <= |c.data|
    ensures r.Ok? ==> r.value.value.data == c.data[c.pos..c.pos + n] && r.value.rest.pos == c.pos + n
    ensures r.Ok? ==> r.value.rest.data == c.data
    ensures r.Err? ==> r.error == UnexpectedEnd(c.pos, n)
  {
    var b :- ReadBytes(c, n);
    Ok(Got(BoundedString(b.value), b.rest))
  }

  /** Reads a UTF-16 text field: 128 little-endian code units. */
  function ReadBoundedUtf16String(c: Cursor): (r: Decoded<Got<BoundedUtf16String>>)
    ensures r.Ok? <==> c.pos + 256 <= |c.data|
    ensures r.Ok? ==> r.value.value.Valid() && ValuesAt(r.value.value.data, c.data, c.pos, 2)
    ensures r.Ok? ==> r.value.rest == Position(c.data, c.pos + 256)
    ensures r.Err? ==> r.error.UnexpectedEnd? && r.error.offset <= |c.data| < r.error.offset + r.error.length
  {
    var units :- ReadU16s(c, 128);
    Ok(Got(BoundedUtf16String(units.value), units.rest))
  }
}
