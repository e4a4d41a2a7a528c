/**
  Byte strings as both boards and the viewer handle them: `bytes` values,
  the ASCII text carried on the serial link, and the `FR` frame marker.
 */
module Bytes {
  import opened Wrappers

  /** One octet of a Python `bytes` / `bytearray`. */
  type byte = bv8

  /** `b'FR'`, the two bytes that open every video message. */
  const FrameMarker: seq<byte> := [0x46, 0x52]

  /** Every character is 7-bit ASCII. */
  predicate IsAscii(s: string)
  {
    forall i :: 0 <= i < |s| ==> s[i] as int < 0x80
  }

  /** The byte whose value is `n`, built from its binary digits. */
  function ByteOf(n: nat): (b: byte)
    requires n < 256
    ensures b as int == n
  {
    if n < 2 then (if n == 0 then 0 else 1)
    else
      var high, low := ByteOf(n / 2), ByteOf(n % 2);
      ByteDouble(high, low);
      high * 2 + low
  }

  /** Doubling a byte below 128 and adding a bit adds up as numbers. */
  lemma ByteDouble(x: byte, y: byte)
    requires x as int < 128 && y as int < 2
    ensures (x * 2 + y) as int == x as int * 2 + y as int
  {
  }

  /** Two bytes with the same value are the same byte. */
  lemma ByteInjective(a: byte, b: byte)
    requires a as int == b as int
    ensures a == b
  {
    ByteOfInt(a);
    ByteOfInt(b);
  }

  /** A byte survives the trip through a number. */
  lemma ByteOfInt(b: byte)
    ensures (b as int) as byte == b
  {
  }

  /** `s.encode()` for ASCII text: one byte per character, same code. */
  function Encode(s: string): (bs: seq<byte>)
    requires IsAscii(s)
    ensures |bs| == |s|
    ensures forall i :: 0 <= i < |s| ==> bs[i] as int == s[i] as int
  {
    seq(|s|, i requires 0 <= i < |s| => ByteOf(s[i] as int))
  }

  /**
    `bs.decode()` restricted to ASCII: a byte of 0x80 or more (which UTF-8 would
    need to combine with its neighbours) counts as a decoding failure.
   */
  function Decode(bs: seq<byte>): (r: Option<string>)
    ensures r.None? <==> exists i :: 0 <= i < |bs| && bs[i] >= 0x80
    ensures r.Some? ==> |r.value| == |bs| && IsAscii(r.value)
    ensures r.Some? ==> forall i :: 0 <= i < |bs| ==> r.value[i] as int == bs[i] as int
  {
    if exists i :: 0 <= i < |bs| && bs[i] >= 0x80 then None
    else Some(seq(|bs|, i requires 0 <= i < |bs| => (bs[i] as int) as char))
  }

  /** Decoding undoes encoding. */
  lemma DecodeEncode(s: string)
    requires IsAscii(s)
    ensures Decode(Encode(s)) == Some(s)
  {
    var bs := Encode(s);
    assert forall i :: 0 <= i < |bs| ==> bs[i] as int < 0x80;
    assert Decode(bs).value == s;
  }

  /** Encoding undoes a successful decoding. */
  lemma EncodeDecode(bs: seq<byte>)
    requires Decode(bs).Some?
    ensures Encode(Decode(bs).value) == bs
  {
    var s := Decode(bs).value;
    assert forall i :: 0 <= i < |bs| ==> Encode(s)[i] as int == bs[i] as int;
  }
}
