/** Variable-byte integer coding and the "Double-VByte" (docgap, freq)
    packing of src/compress.rs.

    A `VecDeque<u8>` buffer is a `seq<Byte>`: `push_back` appends and
    `pop_front` takes the head. Rust `u32` arithmetic is checked (a debug
    build panics on overflow and on a shift by 32 or more); each such panic
    is an `Err` value here. */
module Compress {
  import opened Wrappers
  import opened Words
  import opened Seqs

  const MAGIC_F: nat := 4

  type Byte = x: nat | x < 256

  datatype CodecError =
    | ShiftOverflow       // `<<` by 32 or more in `vbyte_decode`
    | ArithmeticOverflow  // `u32` addition, subtraction or multiplication out of range

  function Pow2(n: nat): (p: nat)
    ensures p >= 1
  {
    if n == 0 then 1 else 2 * Pow2(n - 1)
  }

  lemma Pow2Add(a: nat, b: nat)
    ensures Pow2(a + b) == Pow2(a) * Pow2(b)
  {
    if a > 0 {
      Pow2Add(a - 1, b);
    }
  }

  lemma Pow2Seven(k: nat)
    ensures Pow2(7 * k + 7) == 128 * Pow2(7 * k)
  {
    Pow2Add(7 * k, 7);
  }

  /** The smallest power 2^(7k) that exceeds `value`, i.e. 128^k. */
  function Pow128(k: nat): (p: nat)
    ensures p == Pow2(7 * k)
  {
    if k == 0 then 1 else Pow2Seven(k - 1); 128 * Pow128(k - 1)
  }

  /** Number of 7-bit groups needed to write `value`: the least n >= 1
      with value < 128^n. */
  function BytesRequired(value: U32): (n: nat)
    ensures 1 <= n <= 5
    ensures value < Pow128(n)
    ensures n == 1 || Pow128(n - 1) <= value
  {
    if value < 0x80 then 1
    else if value < 0x4000 then 2
    else if value < 0x20_0000 then 3
    else if value < 0x1000_0000 then 4
    else 5
  }

  /** The bytes `vbyte_encode` appends for `value`: little-endian 7-bit
      groups, every byte but the last carrying the 0x80 continuation bit. */
  function VbyteBytes(value: nat): seq<Byte>
    decreases value
  {
    if value < 128 then [value] else [value % 128 + 128] + VbyteBytes(value / 128)
  }

  /** Continuation bits: set on every byte but the last, clear on the last. */
  lemma {:induction false} VbyteBytesShape(value: nat)
    ensures |VbyteBytes(value)| >= 1
    ensures forall i :: 0 <= i < |VbyteBytes(value)| - 1 ==> VbyteBytes(value)[i] >= 128
    ensures VbyteBytes(value)[|VbyteBytes(value)| - 1] < 128
    decreases value
  {
    if value >= 128 {
      VbyteBytesShape(value / 128);
    }
  }

  /** The encoding of a value below 128^k takes at most k bytes, and of a
      value at least 128^k more than k bytes. */
  lemma {:induction false} VbyteBytesLength(value: nat, k: nat)
    ensures value < Pow128(k) ==> |VbyteBytes(value)| <= k || (k == 0)
    ensures Pow128(k) <= value ==> |VbyteBytes(value)| > k
    decreases value
  {
    if value >= 128 {
      if k > 0 {
        VbyteBytesLength(value / 128, k - 1);
      }
    } else if k > 0 {
      assert Pow128(k) >= 128 by { Pow128AtLeast(k); }
    }
  }

  lemma {:induction false} Pow128AtLeast(k: nat)
    requires k >= 1
    ensures Pow128(k) >= 128
  {
    if k > 1 {
      Pow128AtLeast(k - 1);
    }
  }

  /** `vbyte_encode` writes exactly `bytes_required(value)` bytes. */
  lemma VbyteLengthIsBytesRequired(value: U32)
    ensures |VbyteBytes(value)| == BytesRequired(value)
  {
    var n := BytesRequired(value);
    VbyteBytesLength(value, n);
    if n > 1 {
      VbyteBytesLength(value, n - 1);
    }
  }

  /** `vbyte_encode`: the source loop, appending to `buffer` and counting
      the bytes written. */
  method VbyteEncode(value: U32, buffer: seq<Byte>) returns (out: seq<Byte>, written: nat)
    ensures out == buffer + VbyteBytes(value)
    ensures written == BytesRequired(value) == |out| - |buffer|
    ensures forall i :: |buffer| <= i < |out| - 1 ==> out[i] >= 128
    ensures out[|out| - 1] < 128
  {
    out := buffer;
    written := 0;
    var writeByte: nat := value % 128;
    var v: nat := value / 128;
    while v > 0
      invariant writeByte < 128
      invariant out + VbyteBytes(writeByte + 128 * v) == buffer + VbyteBytes(value)
      invariant written == |out| - |buffer|
      decreases v
    {
      assert VbyteBytes(writeByte + 128 * v) == [writeByte + 128] + VbyteBytes(v);
      out := out + [writeByte + 128];
      written := written + 1;
      writeByte := v % 128;
      v := v / 128;
    }
    out := out + [writeByte];
    written := written + 1;
    VbyteLengthIsBytesRequired(value);
    VbyteBytesShape(value);
    assert out[|buffer|..] == VbyteBytes(value);
  }

  /** The loop of `vbyte_decode` from the point where `read` bytes have been
      consumed and `value` holds their groups. The `|=` of the source is a
      `+` here: each group lands on bits [shift, shift + 7) above all bits
      already set. */
  function DecodeFrom(buffer: seq<Byte>, shift: nat, value: U32, read: nat)
    : Result<(U32, nat, seq<Byte>), CodecError>
    decreases |buffer|
  {
    if |buffer| == 0 then Ok((value, read, []))
    else if shift >= 32 then Err(ShiftOverflow)
    else
      var b := buffer[0];
      var value' := (value + (b % 128) * Pow2(shift)) % U32_LIMIT;
      if b < 128 then Ok((value', read + 1, buffer[1..]))
      else DecodeFrom(buffer[1..], shift + 7, value', read + 1)
  }

  /** `vbyte_decode`: the decoded value, the number of bytes consumed and
      what is left in the buffer. */
  function VbyteDecode(buffer: seq<Byte>): (r: Result<(U32, nat, seq<Byte>), CodecError>)
    ensures |buffer| == 0 ==> r == Ok((0, 0, []))
    ensures r.Ok? ==> r.value.1 + |r.value.2| == |buffer| && r.value.2 == buffer[r.value.1..]
  {
    DecodeFromConsumes(buffer, 0, 0, 0);
    DecodeFrom(buffer, 0, 0, 0)
  }

  lemma {:induction false} DecodeFromConsumes(buffer: seq<Byte>, shift: nat, value: U32, read: nat)
    ensures var r := DecodeFrom(buffer, shift, value, read);
      r.Ok? ==> (r.value.1 >= read && r.value.1 - read + |r.value.2| == |buffer|
                 && r.value.2 == buffer[r.value.1 - read..])
    decreases |buffer|
  {
    if |buffer| > 0 && shift < 32 && buffer[0] >= 128 {
      var value' := (value + (buffer[0] % 128) * Pow2(shift)) % U32_LIMIT;
      DecodeFromConsumes(buffer[1..], shift + 7, value', read + 1);
    }
  }

  lemma MulDistributes(a: nat, b: nat, p: nat)
    ensures (a + b) * p == a * p + b * p
  {
  }

  lemma MulAssociates(a: nat, b: nat, c: nat)
    ensures (a * b) * c == a * (b * c)
  {
  }

  lemma MulMonotone(a: nat, b: nat, p: nat)
    requires a <= b
    ensures a * p <= b * p
  {
  }

  lemma GroupSplit(x: nat, p: nat)
    ensures x * p == (x % 128) * p + (x / 128) * (128 * p)
    ensures (x % 128) * p <= x * p
    ensures (x % 128) * p + p <= 128 * p
  {
    var low := x % 128;
    var high := x / 128;
    assert x == low + 128 * high;
    MulDistributes(low, 128 * high, p);
    MulAssociates(128, high, p);
    MulAssociates(high, 128, p);
    MulMonotone(low, x, p);
    MulMonotone(low + 1, 128, p);
    MulDistributes(low, 1, p);
  }

  lemma DecodeFromHead(bs: seq<Byte>, shift: nat, value: U32, read: nat)
    requires |bs| > 0 && shift < 32
    requires value + (bs[0] % 128) * Pow2(shift) < U32_LIMIT
    ensures var value' := value + (bs[0] % 128) * Pow2(shift);
      DecodeFrom(bs, shift, value, read)
        == if bs[0] < 128 then Ok((value', read + 1, bs[1..]))
           else DecodeFrom(bs[1..], shift + 7, value', read + 1)
  {
  }

  lemma VbyteBytesHead(x: nat, rest: seq<Byte>)
    ensures |VbyteBytes(x) + rest| > 0
    ensures (VbyteBytes(x) + rest)[0] % 128 == x % 128
    ensures (VbyteBytes(x) + rest)[0] < 128 <==> x < 128
    ensures x < 128 ==> (VbyteBytes(x) + rest)[1..] == rest
    ensures x >= 128 ==> (VbyteBytes(x) + rest)[1..] == VbyteBytes(x / 128) + rest
  {
    var bs := VbyteBytes(x) + rest;
    if x >= 128 {
      var tail := VbyteBytes(x / 128);
      assert VbyteBytes(x) == [x % 128 + 128] + tail;
      assert bs == [x % 128 + 128] + (tail + rest);
      assert bs[0] == x % 128 + 128;
    } else {
      assert bs == [x] + rest;
    }
  }

  lemma {:induction false} DecodeFromEncoding(x: nat, k: nat, value: U32, read: nat, rest: seq<Byte>)
    requires value < Pow128(k)
    requires value + x * Pow128(k) < U32_LIMIT
    requires k + |VbyteBytes(x)| <= 5
    ensures DecodeFrom(VbyteBytes(x) + rest, 7 * k, value, read)
         == Ok((value + x * Pow128(k), read + |VbyteBytes(x)|, rest))
    decreases x
  {
    if x >= 128 {
      var value' := DecodeGroupStep(x, k, value, read, rest);
      DecodeFromEncoding(x / 128, k + 1, value', read + 1, rest);
    } else {
      DecodeLastGroup(x, k, value, read, rest);
    }
  }

  /** A continued group adds its seven bits at `7 * k` and passes on to the
      next group. */
  lemma DecodeGroupStep(x: nat, k: nat, value: U32, read: nat, rest: seq<Byte>) returns (value': U32)
    requires x >= 128 && value < Pow128(k)
    requires value + x * Pow128(k) < U32_LIMIT
    requires k + |VbyteBytes(x)| <= 5
    ensures value' == value + (x % 128) * Pow128(k)
    ensures
      && value' < Pow128(k + 1)
      && value' + (x / 128) * Pow128(k + 1) == value + x * Pow128(k)
      && |VbyteBytes(x)| == 1 + |VbyteBytes(x / 128)|
      && k + 1 + |VbyteBytes(x / 128)| <= 5
      && DecodeFrom(VbyteBytes(x) + rest, 7 * k, value, read)
         == DecodeFrom(VbyteBytes(x / 128) + rest, 7 * (k + 1), value', read + 1)
  {
    var p := Pow128(k);
    var bs := VbyteBytes(x) + rest;
    VbyteBytesHead(x, rest);
    GroupSplit(x, p);
    value' := value + (x % 128) * p;
    assert |VbyteBytes(x)| == 1 + |VbyteBytes(x / 128)|;
    assert 7 * k < 32;
    DecodeFromHead(bs, 7 * k, value, read);
    assert 7 * k + 7 == 7 * (k + 1);
  }

  /** The last group adds its bits at `7 * k` and ends the value. */
  lemma DecodeLastGroup(x: nat, k: nat, value: U32, read: nat, rest: seq<Byte>)
    requires x < 128 && value < Pow128(k)
    requires value + x * Pow128(k) < U32_LIMIT
    requires k + |VbyteBytes(x)| <= 5
    ensures |VbyteBytes(x)| == 1
    ensures DecodeFrom(VbyteBytes(x) + rest, 7 * k, value, read) == Ok((value + x * Pow128(k), read + 1, rest))
  {
    var bs := VbyteBytes(x) + rest;
    VbyteBytesHead(x, rest);
    assert |VbyteBytes(x)| == 1;
    assert 7 * k < 32;
    DecodeFromHead(bs, 7 * k, value, read);
  }

  /** Round trip: decoding the bytes `vbyte_encode` wrote gives the value
      back, the count of bytes written, and leaves the rest of the buffer. */
  lemma VbyteRoundTrip(value: U32, rest: seq<Byte>)
    ensures VbyteDecode(VbyteBytes(value) + rest) == Ok((value, BytesRequired(value), rest))
  {
    VbyteLengthIsBytesRequired(value);
    DecodeFromEncoding(value, 0, 0, 0, rest);
  }

  /** `encode_magic`: the buffer after appending and the number of bytes
      appended. A frequency below MAGIC_F is folded into one vbyte with the
      gap; otherwise the gap times MAGIC_F and then `freq - MAGIC_F + 1`
      are written as two vbytes. */
  function EncodeMagic(docgap: U32, freq: U32, buffer: seq<Byte>)
    : (r: Result<(seq<Byte>, nat), CodecError>)
    ensures r.Ok? && freq < MAGIC_F ==>
      exists m: U32 :: r.value.0 == buffer + VbyteBytes(m) && r.value.1 == BytesRequired(m)
    ensures r.Ok? && freq >= MAGIC_F ==>
      exists m1: U32, m2: U32 :: r.value.0 == buffer + VbyteBytes(m1) + VbyteBytes(m2)
        && r.value.1 == BytesRequired(m1) + BytesRequired(m2)
    ensures r.Ok? ==> r.value.1 == |r.value.0| - |buffer| && r.value.0[..|buffer|] == buffer
    ensures r.Err? <==> ((freq < MAGIC_F && (docgap == 0 || (docgap - 1) * MAGIC_F + freq >= U32_LIMIT))
                         || (freq >= MAGIC_F && docgap * MAGIC_F >= U32_LIMIT))
  {
    if freq < MAGIC_F then
      if docgap == 0 || (docgap - 1) * MAGIC_F + freq >= U32_LIMIT then Err(ArithmeticOverflow)
      else
        var m: U32 := (docgap - 1) * MAGIC_F + freq;
        VbyteLengthIsBytesRequired(m);
        Ok((buffer + VbyteBytes(m), BytesRequired(m)))
    else
      if docgap * MAGIC_F >= U32_LIMIT then Err(ArithmeticOverflow)
      else
        var m1: U32 := docgap * MAGIC_F;
        var m2: U32 := freq - MAGIC_F + 1;
        VbyteLengthIsBytesRequired(m1);
        VbyteLengthIsBytesRequired(m2);
        assert (buffer + VbyteBytes(m1) + VbyteBytes(m2))[..|buffer|] == buffer;
        Ok((buffer + VbyteBytes(m1) + VbyteBytes(m2), BytesRequired(m1) + BytesRequired(m2)))
  }

  /** `decode_magic` as written: `MAGIC_F + freq - 1` is evaluated left to
      right in `u32`, so the addition overflows when the second vbyte holds
      a value of u32::MAX - 3 or more. */
  function DecodeMagic(buffer: seq<Byte>): Result<(U32, U32, seq<Byte>), CodecError>
  {
    var (decoded, _, rest) :- VbyteDecode(buffer);
    if decoded % MAGIC_F > 0 then
      Ok((1 + decoded / MAGIC_F, decoded % MAGIC_F, rest))
    else
      var (f, _, rest') :- VbyteDecode(rest);
      if MAGIC_F + f >= U32_LIMIT then Err(ArithmeticOverflow)
      else Ok((decoded / MAGIC_F, MAGIC_F + f - 1, rest'))
  }

  /** `decode_magic` with the last step written `freq + (MAGIC_F - 1)`,
      which cannot overflow on anything `encode_magic` produces. */
  function DecodeMagicFixed(buffer: seq<Byte>): Result<(U32, U32, seq<Byte>), CodecError>
  {
    var (decoded, _, rest) :- VbyteDecode(buffer);
    if decoded % MAGIC_F > 0 then
      Ok((1 + decoded / MAGIC_F, decoded % MAGIC_F, rest))
    else
      var (f, _, rest') :- VbyteDecode(rest);
      if f + (MAGIC_F - 1) >= U32_LIMIT then Err(ArithmeticOverflow)
      else Ok((decoded / MAGIC_F, f + (MAGIC_F - 1), rest'))
  }

  /** The pairs `encode_magic` accepts: the folded vbyte needs a positive
      gap and `(docgap - 1) * MAGIC_F + freq` in u32, the two-vbyte form
      needs `docgap * MAGIC_F` in u32. */
  predicate MagicEncodable(docgap: U32, freq: U32) {
    if freq < MAGIC_F then docgap >= 1 && (docgap - 1) * MAGIC_F + freq < U32_LIMIT
    else docgap * MAGIC_F < U32_LIMIT
  }

  /** The written encoding of an encodable (docgap, freq) pair. */
  lemma EncodeMagicOk(docgap: U32, freq: U32, rest: seq<Byte>)
    requires MagicEncodable(docgap, freq)
    ensures EncodeMagic(docgap, freq, []).Ok?
    ensures freq < MAGIC_F ==>
      EncodeMagic(docgap, freq, []).value.0 == VbyteBytes((docgap - 1) * MAGIC_F + freq)
    ensures freq >= MAGIC_F ==>
      EncodeMagic(docgap, freq, []).value.0 == VbyteBytes(docgap * MAGIC_F) + VbyteBytes(freq - MAGIC_F + 1)
  {
  }

  lemma DivModMagic(q: nat, r: nat)
    requires r < MAGIC_F
    ensures (q * MAGIC_F + r) % MAGIC_F == r
    ensures (q * MAGIC_F + r) / MAGIC_F == q
  {
  }

  lemma DecodeOneVbyte(m: U32, rest: seq<Byte>)
    requires m % MAGIC_F > 0
    ensures DecodeMagic(VbyteBytes(m) + rest) == Ok((1 + m / MAGIC_F, m % MAGIC_F, rest))
    ensures DecodeMagicFixed(VbyteBytes(m) + rest) == Ok((1 + m / MAGIC_F, m % MAGIC_F, rest))
  {
    VbyteRoundTrip(m, rest);
  }

  lemma DecodeTwoVbytes(m1: U32, m2: U32, rest: seq<Byte>)
    requires m1 % MAGIC_F == 0
    ensures MAGIC_F + m2 < U32_LIMIT ==>
      DecodeMagic(VbyteBytes(m1) + VbyteBytes(m2) + rest) == Ok((m1 / MAGIC_F, MAGIC_F + m2 - 1, rest))
    ensures MAGIC_F + m2 >= U32_LIMIT ==>
      DecodeMagic(VbyteBytes(m1) + VbyteBytes(m2) + rest) == Err(ArithmeticOverflow)
    ensures m2 + (MAGIC_F - 1) < U32_LIMIT ==>
      DecodeMagicFixed(VbyteBytes(m1) + VbyteBytes(m2) + rest) == Ok((m1 / MAGIC_F, m2 + (MAGIC_F - 1), rest))
  {
    AppendAssoc(VbyteBytes(m1), VbyteBytes(m2), rest);
    VbyteRoundTrip(m1, VbyteBytes(m2) + rest);
    VbyteRoundTrip(m2, rest);
  }

  /** Double-VByte round trip (corrected decoder): every encodable pair with
      freq >= 1 comes back, and the rest of the buffer is left in place. */
  lemma MagicRoundTrip(docgap: U32, freq: U32, rest: seq<Byte>)
    requires freq >= 1 && MagicEncodable(docgap, freq)
    ensures EncodeMagic(docgap, freq, []).Ok?
    ensures DecodeMagicFixed(EncodeMagic(docgap, freq, []).value.0 + rest) == Ok((docgap, freq, rest))
  {
    EncodeMagicOk(docgap, freq, rest);
    var enc := EncodeMagic(docgap, freq, []).value.0;
    if freq < MAGIC_F {
      MagicOneVbyte(docgap, freq, enc, rest);
    } else {
      MagicTwoVbytes(docgap, freq, enc, rest);
    }
  }

  /** The decoder as written round-trips too, except at freq == u32::MAX. */
  lemma MagicRoundTripAsWritten(docgap: U32, freq: U32, rest: seq<Byte>)
    requires freq >= 1 && MagicEncodable(docgap, freq)
    ensures EncodeMagic(docgap, freq, []).Ok?
    ensures freq < U32_LIMIT - 1 ==>
      DecodeMagic(EncodeMagic(docgap, freq, []).value.0 + rest) == Ok((docgap, freq, rest))
    ensures freq == U32_LIMIT - 1 ==>
      DecodeMagic(EncodeMagic(docgap, freq, []).value.0 + rest) == Err(ArithmeticOverflow)
  {
    EncodeMagicOk(docgap, freq, rest);
    var enc := EncodeMagic(docgap, freq, []).value.0;
    if freq < MAGIC_F {
      MagicOneVbyte(docgap, freq, enc, rest);
    } else {
      MagicTwoVbytes(docgap, freq, enc, rest);
    }
  }

  /** The one-vbyte branch: `enc` holds the gap and the frequency folded
      into `(docgap - 1) * MAGIC_F + freq`. */
  lemma MagicOneVbyte(docgap: U32, freq: U32, enc: seq<Byte>, rest: seq<Byte>)
    requires 1 <= freq < MAGIC_F && docgap >= 1 && (docgap - 1) * MAGIC_F + freq < U32_LIMIT
    requires enc == VbyteBytes((docgap - 1) * MAGIC_F + freq)
    ensures DecodeMagic(enc + rest) == Ok((docgap, freq, rest))
    ensures DecodeMagicFixed(enc + rest) == Ok((docgap, freq, rest))
  {
    var m: U32 := (docgap - 1) * MAGIC_F + freq;
    DivModMagic(docgap - 1, freq);
    DecodeOneVbyte(m, rest);
  }

  /** The two-vbyte branch: `enc` holds the gap times MAGIC_F and then
      `freq - MAGIC_F + 1`. */
  lemma MagicTwoVbytes(docgap: U32, freq: U32, enc: seq<Byte>, rest: seq<Byte>)
    requires freq >= MAGIC_F && docgap * MAGIC_F < U32_LIMIT
    requires enc == VbyteBytes(docgap * MAGIC_F) + VbyteBytes(freq - MAGIC_F + 1)
    ensures freq < U32_LIMIT - 1 ==> DecodeMagic(enc + rest) == Ok((docgap, freq, rest))
    ensures freq == U32_LIMIT - 1 ==> DecodeMagic(enc + rest) == Err(ArithmeticOverflow)
    ensures DecodeMagicFixed(enc + rest) == Ok((docgap, freq, rest))
  {
    var m1: U32 := docgap * MAGIC_F;
    var m2: U32 := freq - MAGIC_F + 1;
    DivModMagic(docgap, 0);
    DecodeTwoVbytes(m1, m2, rest);
  }

  /** The test pair of the source (docgap 1234, freq 5) round-trips. */
  lemma MagicTestPair()
    ensures DecodeMagic(EncodeMagic(1234, 5, []).value.0) == Ok((1234, 5, []))
  {
    MagicRoundTripAsWritten(1234, 5, []);
    var enc := EncodeMagic(1234, 5, []).value.0;
    assert enc + [] == enc;
  }

  /** With freq == 0 the single vbyte is a multiple of MAGIC_F, so the
      decoder takes the two-vbyte branch: the gap comes back one too small
      and the frequency is read from whatever follows. */
  lemma MagicZeroFreqDoesNotRoundTrip(docgap: U32, rest: seq<Byte>)
    requires MagicEncodable(docgap, 0)
    ensures EncodeMagic(docgap, 0, []).Ok?
    ensures var d := DecodeMagic(EncodeMagic(docgap, 0, []).value.0 + rest);
      d.Ok? ==> d.value.0 == docgap - 1 && d.value != (docgap, 0, rest)
  {
    var m: U32 := (docgap - 1) * MAGIC_F;
    DivModMagic(docgap - 1, 0);
    VbyteRoundTrip(m, rest);
  }
}
