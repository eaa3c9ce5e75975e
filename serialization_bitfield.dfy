/** The bitfield codec of the older `serialization` package. Its code is the
    same algorithm as the current one (indices are `uint16`), so each member
    here runs the shared codec in module Bitfield at the `uint16` range. */
module SerializationBitfield {
  import opened Common
  import opened Bitfield

  /** EncodeBitField: last/8 + 1 bytes holding exactly the listed indices. */
  method EncodeBitField(s: seq<nat>) returns (r: seq<byte>)
    requires Encodable(s)
    ensures |r| == Last(s) / 8 + 1
    ensures forall p :: 0 <= p < 8 * |r| ==> (GetBit(r, p) <==> p in s)
  {
    r := Bitfield.EncodeBitField(s);
  }

  /** DecodeBitField: the set positions over 8 * |b| bits, ascending, each
      cast to `uint16`. */
  method DecodeBitField(b: seq<byte>) returns (r: seq<nat>)
    ensures r == Decoded(b, 8 * |b|, Uint16Span)
    ensures |b| <= Uint16Span / 8 ==> StrictlyIncreasing(r)
    ensures |b| <= Uint16Span / 8 ==> forall x: nat :: x in r <==> x < 8 * |b| && GetBit(b, x)
  {
    r := Bitfield.DecodeBitField(b, Uint16Span);
  }

  /** Decode after Encode is the identity on non-empty strictly increasing
      lists of `uint16` indices. */
  lemma DecodeEncodeUint16(s: seq<nat>)
    requires |s| > 0 && StrictlyIncreasing(s) && Last(s) < Uint16Span
    ensures Encodable(s)
    ensures Decoded(Encoded(s), 8 * |Encoded(s)|, Uint16Span) == s
  {
    DecodeEncode(s, Uint16Span);
  }

  /** Setting bits 0, 5 and 10 of a ten-byte buffer, one after another, leaves
      each of them reading back as set. */
  lemma SetBitsThenGetBits()
    ensures var b := SetBitValue(SetBitValue(SetBitValue(Zeros(10), 0), 5), 10);
            GetBit(b, 0) && GetBit(b, 5) && GetBit(b, 10)
  {
    var b0 := Zeros(10);
    var b1 := SetBitValue(b0, 0);
    var b2 := SetBitValue(b1, 5);
    var b3 := SetBitValue(b2, 10);
    GetAfterSet(b0, 0, 0);
    GetAfterSet(b1, 5, 5);
    GetAfterSet(b1, 5, 0);
    GetAfterSet(b2, 10, 10);
    GetAfterSet(b2, 10, 5);
    GetAfterSet(b2, 10, 0);
  }
}
