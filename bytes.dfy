/** Big-endian conversion between byte strings and integers, as Python's
    `int.from_bytes(b, "big")` and `int.to_bytes(length, "big")` do it. */
module Bytes {
  import opened Wrappers
  import opened Arith

  type Byte = b: nat | b < 256

  /** `int.from_bytes(bs, byteorder="big")`. */
  function FromBytes(bs: seq<Byte>): (v: nat)
    ensures v < Pow(256, |bs|)
  {
    if |bs| == 0 then 0
    else
      var prefix := FromBytes(bs[..|bs| - 1]);
      AppendBound(prefix, bs[|bs| - 1], Pow(256, |bs| - 1));
      prefix * 256 + bs[|bs| - 1]
  }

  lemma AppendBound(v: nat, b: nat, bound: nat)
    requires v < bound && b < 256
    ensures v * 256 + b < bound * 256
  {
    MulMonotone(v + 1, bound, 256);
  }

  /** The `len` big-endian digits base 256 of `v`. */
  function Encode(v: nat, len: nat): (r: seq<Byte>)
    requires v < Pow(256, len)
    ensures |r| == len && FromBytes(r) == v
  {
    if len == 0 then []
    else
      var q := v / 256;
      assert q < Pow(256, len - 1);
      var r := Encode(q, len - 1) + [v % 256];
      assert r[..len - 1] == Encode(q, len - 1);
      r
  }

  datatype OverflowError = IntTooBigToConvert

  /** `v.to_bytes(len, byteorder="big")`: the `len`-byte encoding, or an
      `OverflowError` when `v` needs more than `len` bytes. */
  function ToBytes(v: nat, len: nat): (r: Result<seq<Byte>, OverflowError>)
    ensures r.Ok? <==> v < Pow(256, len)
    ensures r.Ok? ==> |r.value| == len && FromBytes(r.value) == v
  {
    if v < Pow(256, len) then Ok(Encode(v, len)) else Err(IntTooBigToConvert)
  }

  /** A byte string is the fixed-width encoding of its own value. */
  lemma {:induction false} EncodeFromBytes(bs: seq<Byte>)
    ensures Encode(FromBytes(bs), |bs|) == bs
    decreases |bs|
  {
    if |bs| > 0 {
      var k := |bs|;
      var prefix := bs[..k - 1];
      var v := FromBytes(bs);
      ModUnique(v, 256, FromBytes(prefix), bs[k - 1]);
      EncodeFromBytes(prefix);
      assert bs == prefix + [bs[k - 1]];
    }
  }

  /** Decoding and fixed-width encoding are inverse on byte strings of the
      chosen width. */
  lemma ToBytesFromBytes(bs: seq<Byte>)
    ensures ToBytes(FromBytes(bs), |bs|) == Ok(bs)
  {
    EncodeFromBytes(bs);
  }

  /** The value of a byte string is its first byte's weight plus the value
      of the rest. */
  lemma {:induction false} FromBytesCons(b: Byte, rest: seq<Byte>)
    ensures FromBytes([b] + rest) == b * Pow(256, |rest|) + FromBytes(rest)
    decreases |rest|
  {
    var s := [b] + rest;
    if |rest| > 0 {
      var k := |rest|;
      var init, last := rest[..k - 1], rest[k - 1];
      assert s[..|s| - 1] == [b] + init && s[|s| - 1] == last;
      FromBytesCons(b, init);
      var x, y := Pow(256, k - 1), FromBytes(init);
      assert FromBytes(s) == FromBytes([b] + init) * 256 + last;
      assert FromBytes(rest) == y * 256 + last;
      ShiftByte(b, x, y, last, Pow(256, k));
    }
  }

  /** Shifting `b * x + y` up one byte and appending `r`. */
  lemma ShiftByte(b: nat, x: nat, y: nat, r: nat, p: nat)
    requires p == 256 * x
    ensures (b * x + y) * 256 + r == b * p + (y * 256 + r)
  {
  }

  /** A byte string starting with a zero byte has the value of its tail;
      one starting with a non-zero byte has at least the weight of that
      byte's position. */
  lemma LeadingByte(bs: seq<Byte>)
    requires |bs| >= 1
    ensures bs[0] == 0 ==> FromBytes(bs) < Pow(256, |bs| - 1)
    ensures bs[0] != 0 ==> FromBytes(bs) >= Pow(256, |bs| - 1)
  {
    assert bs == [bs[0]] + bs[1..];
    FromBytesCons(bs[0], bs[1..]);
    if bs[0] != 0 {
      MulMonotone(1, bs[0], Pow(256, |bs| - 1));
    }
  }

  /** `v.to_bytes((v.bit_length() + 7) // 8, byteorder="big")`: the
      shortest big-endian encoding, which never overflows. */
  function MinimalBytes(v: nat): (r: seq<Byte>)
    ensures |r| == (BitLength(v) + 7) / 8
    ensures FromBytes(r) == v
  {
    var len := (BitLength(v) + 7) / 8;
    assert v < Pow(256, len) by {
      WidthFits(v, len);
    }
    ToBytes(v, len).value
  }

  lemma WidthFits(v: nat, len: nat)
    requires len == (BitLength(v) + 7) / 8
    ensures v < Pow(256, len)
  {
    var l := BitLength(v);
    PowPow(2, 8, len);
    assert Pow(2, 8) == 256;
    if l < 8 * len {
      PowStrictExponent(2, l, 8 * len);
    }
  }

  /** `Pow(256, k)` is `2^(8k)`. */
  lemma ByteWeight(k: nat)
    ensures Pow(256, k) == Pow(2, 8 * k)
  {
    PowPow(2, 8, k);
    assert Pow(2, 8) == 256;
  }

  /** The minimal encoding has no leading zero byte. */
  lemma MinimalBytesNoLeadingZero(v: nat)
    ensures |MinimalBytes(v)| > 0 ==> MinimalBytes(v)[0] != 0
    ensures v == 0 <==> MinimalBytes(v) == []
  {
    var r := MinimalBytes(v);
    var l := BitLength(v);
    if |r| > 0 {
      // v >= 2^(l-1) >= 2^(8(|r| - 1)) = 256^(|r| - 1)
      ByteWeight(|r| - 1);
      if 8 * (|r| - 1) < l - 1 {
        PowStrictExponent(2, 8 * (|r| - 1), l - 1);
      }
      LeadingByte(r);
    }
  }

  /** Minimal encoding is inverse to decoding exactly on byte strings
      without a leading zero byte. */
  lemma MinimalBytesFromBytes(bs: seq<Byte>)
    ensures MinimalBytes(FromBytes(bs)) == bs <==> (|bs| == 0 || bs[0] != 0)
  {
    MinimalBytesNoLeadingZero(FromBytes(bs));
    if |bs| > 0 && bs[0] != 0 {
      MinimalBytesUnpadded(bs);
    }
  }

  /** A byte string without a leading zero is its value's minimal
      encoding. */
  lemma MinimalBytesUnpadded(bs: seq<Byte>)
    requires |bs| > 0 && bs[0] != 0
    ensures MinimalBytes(FromBytes(bs)) == bs
  {
    var v, k := FromBytes(bs), |bs|;
    UnpaddedBits(bs);
    CeilEighth(BitLength(v), k);
    MinimalBytesWidth(v, k);
    EncodeFromBytes(bs);
  }

  /** A byte string without a leading zero has a value of more than
      `8(k - 1)` and at most `8k` bits, for `k` bytes. */
  lemma UnpaddedBits(bs: seq<Byte>)
    requires |bs| > 0 && bs[0] != 0
    ensures var k := |bs|; 8 * (k - 1) < BitLength(FromBytes(bs)) <= 8 * k
  {
    var v, k := FromBytes(bs), |bs|;
    LeadingByte(bs);
    ByteWeight(k - 1);
    ByteWeight(k);
    BitLengthRange(v, 8 * (k - 1), 8 * k);
  }

  lemma CeilEighth(l: nat, k: nat)
    requires 8 * (k - 1) < l <= 8 * k
    ensures (l + 7) / 8 == k
  {
  }

  /** The minimal encoding is the fixed-width one at its own width. */
  lemma MinimalBytesWidth(v: nat, k: nat)
    requires (BitLength(v) + 7) / 8 == k
    ensures v < Pow(256, k) && MinimalBytes(v) == Encode(v, k)
  {
    WidthFits(v, k);
  }

  /** A value in `[2^lo, 2^hi)` has between `lo + 1` and `hi` bits. */
  lemma BitLengthRange(v: nat, lo: nat, hi: nat)
    requires Pow(2, lo) <= v < Pow(2, hi)
    ensures lo < BitLength(v) <= hi
  {
    PowPositive(2, lo);
  }

  /** The byte string without its leading zero bytes. */
  function DropLeadingZeros(bs: seq<Byte>): (r: seq<Byte>)
    ensures |r| <= |bs|
    ensures r == bs <==> |bs| == 0 || bs[0] != 0
  {
    if |bs| > 0 && bs[0] == 0 then DropLeadingZeros(bs[1..]) else bs
  }

  /** Re-encoding the value of a byte string minimally drops exactly its
      leading zero bytes. */
  lemma {:induction false} MinimalBytesDropsZeros(bs: seq<Byte>)
    ensures MinimalBytes(FromBytes(bs)) == DropLeadingZeros(bs)
    decreases |bs|
  {
    if |bs| > 0 && bs[0] == 0 {
      assert bs == [0] + bs[1..];
      FromBytesCons(0, bs[1..]);
      MinimalBytesDropsZeros(bs[1..]);
    } else {
      MinimalBytesFromBytes(bs);
    }
  }
}
