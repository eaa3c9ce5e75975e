/** The availability bitfield codec: a list of chunk indices packed into bytes,
    bit i living in byte i/8 at bit 7 - i%8 (most significant bit first).

    The codec appears three times in the repository with the same algorithm;
    the only difference is the integer type of an index, which decides where
    decoded positions wrap around. That range is the parameter `span`
    (65536 for `uint16` indices, 256 for `uint8` indices). */
module Bitfield {
  import opened Common

  /** The mask `1 << (7 - k)` selecting bit k of a byte, counted from the most
      significant bit. */
  function Mask(k: nat): (m: byte)
    requires k < 8
  {
    (1 as byte) << (7 - k)
  }

  lemma MaskOr(v: byte, i: nat, j: nat)
    requires i < 8 && j < 8
    ensures ((v | Mask(j)) & Mask(i) == Mask(i)) <==> (i == j || v & Mask(i) == Mask(i))
  {
    if i == 0 { assert Mask(i) == 0x80; } else if i == 1 { assert Mask(i) == 0x40; }
    else if i == 2 { assert Mask(i) == 0x20; } else if i == 3 { assert Mask(i) == 0x10; }
    else if i == 4 { assert Mask(i) == 0x08; } else if i == 5 { assert Mask(i) == 0x04; }
    else if i == 6 { assert Mask(i) == 0x02; } else { assert Mask(i) == 0x01; }
    if j == 0 { assert Mask(j) == 0x80; } else if j == 1 { assert Mask(j) == 0x40; }
    else if j == 2 { assert Mask(j) == 0x20; } else if j == 3 { assert Mask(j) == 0x10; }
    else if j == 4 { assert Mask(j) == 0x08; } else if j == 5 { assert Mask(j) == 0x04; }
    else if j == 6 { assert Mask(j) == 0x02; } else { assert Mask(j) == 0x01; }
  }

  /** Whether bit `pos` of the buffer is set. */
  function GetBit(b: seq<byte>, pos: nat): bool
    requires pos / 8 < |b|
  {
    b[pos / 8] & Mask(pos % 8) == Mask(pos % 8)
  }

  /** The buffer after setting bit `pos`: a bitwise OR into byte pos/8. */
  function SetBitValue(b: seq<byte>, pos: nat): (r: seq<byte>)
    requires pos / 8 < |b|
    ensures |r| == |b|
  {
    b[pos / 8 := b[pos / 8] | Mask(pos % 8)]
  }

  /** Setting bit q makes bit q read back as set and leaves every other bit of
      the buffer as it was. */
  lemma GetAfterSet(b: seq<byte>, q: nat, p: nat)
    requires q / 8 < |b| && p / 8 < |b|
    ensures |SetBitValue(b, q)| == |b|
    ensures GetBit(SetBitValue(b, q), p) <==> (p == q || GetBit(b, p))
  {
    var b' := SetBitValue(b, q);
    if p / 8 == q / 8 {
      MaskOr(b[p / 8], p % 8, q % 8);
      assert p % 8 == q % 8 <==> p == q;
    } else {
      assert b'[p / 8] == b[p / 8];
    }
  }

  /** Setting a bit writes only byte pos/8, and within it only bit pos%8. */
  lemma SetBitOnlyTouchesItsBit(b: seq<byte>, pos: nat)
    requires pos / 8 < |b|
    ensures |SetBitValue(b, pos)| == |b|
    ensures forall i :: 0 <= i < |b| && i != pos / 8 ==> SetBitValue(b, pos)[i] == b[i]
    ensures forall p :: 0 <= p < 8 * |b| ==>
              (GetBit(SetBitValue(b, pos), p) <==> (p == pos || GetBit(b, p)))
  {
    forall p | 0 <= p < 8 * |b|
      ensures GetBit(SetBitValue(b, pos), p) <==> (p == pos || GetBit(b, p))
    {
      GetAfterSet(b, pos, p);
    }
  }

  /** SetBit is a bitwise OR: setting a bit twice is setting it once ... */
  lemma SetBitIdempotent(b: seq<byte>, pos: nat)
    requires pos / 8 < |b|
    ensures SetBitValue(SetBitValue(b, pos), pos) == SetBitValue(b, pos)
  {
    var m := Mask(pos % 8);
    assert (b[pos / 8] | m) | m == b[pos / 8] | m;
  }

  /** ... and the order in which two bits are set does not matter. */
  lemma SetBitCommutes(b: seq<byte>, p: nat, q: nat)
    requires p / 8 < |b| && q / 8 < |b|
    ensures SetBitValue(SetBitValue(b, p), q) == SetBitValue(SetBitValue(b, q), p)
  {
    if p / 8 == q / 8 {
      SameByteCommutes(b, p, q);
    } else {
      SetTwoBytes(b, p, q);
      SetTwoBytes(b, q, p);
      UpdatesCommute(b, p / 8, q / 8, b[p / 8] | Mask(p % 8), b[q / 8] | Mask(q % 8));
    }
  }

  lemma SetTwoBytes(b: seq<byte>, p: nat, q: nat)
    requires p / 8 < |b| && q / 8 < |b| && p / 8 != q / 8
    ensures SetBitValue(SetBitValue(b, p), q) == b[p / 8 := b[p / 8] | Mask(p % 8)][q / 8 := b[q / 8] | Mask(q % 8)]
  {
  }

  lemma SameByteCommutes(b: seq<byte>, p: nat, q: nat)
    requires p / 8 < |b| && q / 8 == p / 8
    ensures SetBitValue(SetBitValue(b, p), q) == SetBitValue(SetBitValue(b, q), p)
  {
    var i, mp, mq := p / 8, Mask(p % 8), Mask(q % 8);
    SetSameByte(b, p, q);
    SetSameByte(b, q, p);
    OrTwice(b, i, mp, mq);
  }

  lemma SetSameByte(b: seq<byte>, p: nat, q: nat)
    requires p / 8 < |b| && q / 8 == p / 8
    ensures SetBitValue(SetBitValue(b, p), q) == b[p / 8 := (b[p / 8] | Mask(p % 8)) | Mask(q % 8)]
  {
  }

  lemma OrTwice(b: seq<byte>, i: nat, x: byte, y: byte)
    requires i < |b|
    ensures b[i := (b[i] | x) | y] == b[i := (b[i] | y) | x]
  {
    OrSwap(b[i], x, y);
  }

  lemma UpdatesCommute<T>(s: seq<T>, i: nat, j: nat, x: T, y: T)
    requires i < |s| && j < |s| && i != j
    ensures s[i := x][j := y] == s[j := y][i := x]
  {
    var l, r := s[i := x][j := y], s[j := y][i := x];
    assert forall k :: 0 <= k < |s| ==> l[k] == r[k];
  }

  lemma OrSwap(v: byte, x: byte, y: byte)
    ensures (v | x) | y == (v | y) | x
  {
  }

  /** SetBit on a byte slice, in place. */
  method SetBit(b: array<byte>, pos: nat)
    requires pos / 8 < b.Length
    modifies b
    ensures b[..] == SetBitValue(old(b[..]), pos)
  {
    var offset := pos / 8;
    var value := b[offset];
    var index := pos - 8 * offset;
    var mask := Mask(index);
    b[offset] := value | mask;
  }

  /** The last element of a non-empty list: it decides the encoded size. */
  function Last(s: seq<nat>): nat
    requires |s| > 0
  {
    s[|s| - 1]
  }

  /** EncodeBitField reads the last element (so the list must be non-empty)
      and sizes its buffer by it; every index must then fall inside that
      buffer, i.e. in a byte no later than the last element's byte. */
  predicate Encodable(s: seq<nat>)
  {
    |s| > 0 && forall i :: 0 <= i < |s| ==> s[i] / 8 <= Last(s) / 8
  }

  /** The buffer after setting, in order, every index of s. */
  function Fill(b: seq<byte>, s: seq<nat>): (r: seq<byte>)
    requires forall i :: 0 <= i < |s| ==> s[i] / 8 < |b|
    ensures |r| == |b|
  {
    if s == [] then b else SetBitValue(Fill(b, s[..|s| - 1]), s[|s| - 1])
  }

  lemma {:induction false} FillBits(b: seq<byte>, s: seq<nat>)
    requires forall i :: 0 <= i < |s| ==> s[i] / 8 < |b|
    ensures |Fill(b, s)| == |b|
    ensures forall p :: 0 <= p < 8 * |b| ==> (GetBit(Fill(b, s), p) <==> (p in s || GetBit(b, p)))
  {
    if s != [] {
      var s' := s[..|s| - 1];
      FillBits(b, s');
      forall p | 0 <= p < 8 * |b|
        ensures GetBit(Fill(b, s), p) <==> (p in s || GetBit(b, p))
      {
        GetAfterSet(Fill(b, s'), s[|s| - 1], p);
        assert s == s' + [s[|s| - 1]];
        assert p in s <==> p in s' || p == s[|s| - 1];
      }
    }
  }

  /** The bytes EncodeBitField produces for s. */
  function Encoded(s: seq<nat>): seq<byte>
    requires Encodable(s)
  {
    Fill(Zeros(Last(s) / 8 + 1), s)
  }

  /** The encoding has last/8 + 1 bytes, and among its 8 * that many bit
      positions exactly the elements of s are set. */
  lemma EncodedBits(s: seq<nat>)
    requires Encodable(s)
    ensures |Encoded(s)| == Last(s) / 8 + 1
    ensures forall p :: 0 <= p < 8 * |Encoded(s)| ==> (GetBit(Encoded(s), p) <==> p in s)
  {
    var z := Zeros(Last(s) / 8 + 1);
    FillBits(z, s);
    forall p | 0 <= p < 8 * |z| ensures !GetBit(z, p) {
      assert z[p / 8] == 0;
    }
  }

  /** EncodeBitField: a fresh zero buffer of last/8 + 1 bytes with SetBit
      applied to every index, in list order. */
  method EncodeBitField(s: seq<nat>) returns (r: seq<byte>)
    requires Encodable(s)
    ensures r == Encoded(s)
    ensures |r| == Last(s) / 8 + 1
    ensures forall p :: 0 <= p < 8 * |r| ==> (GetBit(r, p) <==> p in s)
  {
    var size := Last(s) / 8 + 1;
    var buffer := new byte[size](_ => 0);
    assert buffer[..] == Zeros(size);
    var i := 0;
    while i < |s|
      invariant 0 <= i <= |s|
      invariant buffer.Length == size
      invariant buffer[..] == Fill(Zeros(size), s[..i])
    {
      assert s[..i + 1][..i] == s[..i];
      SetBit(buffer, s[i]);
      i := i + 1;
    }
    assert s[..i] == s;
    r := buffer[..];
    EncodedBits(s);
  }

  /** The indices DecodeBitField appends while scanning bits 0 .. n-1, each cast
      to the index type (a reduction modulo span). */
  function Decoded(b: seq<byte>, n: nat, span: nat): seq<nat>
    requires n <= 8 * |b| && span > 0
  {
    if n == 0 then []
    else Decoded(b, n - 1, span) + (if GetBit(b, n - 1) then [(n - 1) % span] else [])
  }

  /** DecodeBitField: every set bit among 8 * |b| positions, ascending. */
  method DecodeBitField(b: seq<byte>, span: nat) returns (r: seq<nat>)
    requires span > 0
    ensures r == Decoded(b, 8 * |b|, span)
    ensures 8 * |b| <= span ==> StrictlyIncreasing(r)
    ensures 8 * |b| <= span ==> forall x: nat :: x in r <==> x < 8 * |b| && GetBit(b, x)
  {
    r := [];
    var size := |b|;
    var i := 0;
    while i < size * 8
      invariant 0 <= i <= size * 8
      invariant r == Decoded(b, i, span)
    {
      if GetBit(b, i) {
        r := r + [i % span];
      }
      i := i + 1;
    }
    if 0 < 8 * |b| <= span {
      DecodedExact(b, 8 * |b|, span);
    }
  }

  predicate StrictlyIncreasing(s: seq<nat>)
  {
    forall i, j :: 0 <= i < j < |s| ==> s[i] < s[j]
  }

  lemma ModOfSmaller(x: nat, m: nat)
    requires x < m
    ensures x % m == x
  {
  }

  /** Without wrap-around, the decoded list is strictly ascending, below n,
      and contains exactly the set positions. */
  lemma {:induction false} DecodedExact(b: seq<byte>, n: nat, span: nat)
    requires n <= 8 * |b| && 0 < n <= span
    ensures StrictlyIncreasing(Decoded(b, n, span))
    ensures forall x: nat :: x in Decoded(b, n, span) <==> x < n && GetBit(b, x)
  {
    var prev := Decoded(b, n - 1, span);
    if n > 1 {
      DecodedExact(b, n - 1, span);
    }
    assert forall x: nat :: x in prev <==> x < n - 1 && GetBit(b, x);
    if GetBit(b, n - 1) {
      ModOfSmaller(n - 1, span);
      var d := prev + [n - 1];
      assert Decoded(b, n, span) == d;
      forall i, j | 0 <= i < j < |d| ensures d[i] < d[j] {
        if j == |prev| {
          assert d[i] in prev by { assert d[i] == prev[i]; }
        }
      }
      assert forall x: nat :: x in d <==> x in prev || x == n - 1;
    } else {
      assert Decoded(b, n, span) == prev;
    }
  }

  /** The first element of a strictly ascending list is its least. */
  lemma HeadIsLeast(s: seq<nat>)
    requires StrictlyIncreasing(s) && s != []
    ensures forall x :: x in s ==> s[0] <= x
  {
    forall x | x in s ensures s[0] <= x {
      var k :| 0 <= k < |s| && s[k] == x;
      if k > 0 {
        assert s[0] < s[k];
      }
    }
  }

  /** Two strictly ascending lists with the same elements are the same list. */
  lemma {:induction false} AscendingUnique(s: seq<nat>, t: seq<nat>)
    requires StrictlyIncreasing(s) && StrictlyIncreasing(t)
    requires forall x :: x in s <==> x in t
    ensures s == t
  {
    assert |s| > 0 ==> s[0] in t;
    assert |t| > 0 ==> t[0] in s;
    if s != [] && t != [] {
      assert s[0] == t[0] by {
        HeadIsLeast(s);
        HeadIsLeast(t);
      }
      TailWithin(s, t);
      TailWithin(t, s);
      AscendingUnique(s[1..], t[1..]);
      assert s == [s[0]] + s[1..] && t == [t[0]] + t[1..];
    }
  }

  /** With equal heads, what follows the head of one ascending list lies in
      what follows the head of the other. */
  lemma TailWithin(s: seq<nat>, t: seq<nat>)
    requires StrictlyIncreasing(s) && StrictlyIncreasing(t) && s != [] && t != [] && s[0] == t[0]
    requires forall x :: x in s ==> x in t
    ensures forall x :: x in s[1..] ==> x in t[1..]
  {
    forall x | x in s[1..] ensures x in t[1..] {
      var k :| 0 <= k < |s[1..]| && s[1..][k] == x;
      assert s[0] < s[k + 1] && x in s;
      var m :| 0 <= m < |t| && t[m] == x;
      assert m != 0;
      assert t[1..][m - 1] == x;
    }
  }

  /** Round trip: decoding an encoding gives back any non-empty strictly
      ascending list whose indices fit the index type (span a multiple of 8,
      as 256 and 65536 are). */
  lemma DecodeEncode(s: seq<nat>, span: nat)
    requires |s| > 0 && StrictlyIncreasing(s) && Last(s) < span && span % 8 == 0
    ensures Encodable(s)
    ensures Decoded(Encoded(s), 8 * |Encoded(s)|, span) == s
  {
    assert forall i :: 0 <= i < |s| ==> s[i] <= Last(s) by {
      forall i | 0 <= i < |s| ensures s[i] <= Last(s) {
        if i < |s| - 1 { assert s[i] < s[|s| - 1]; }
      }
    }
    assert Encodable(s);
    var e := Encoded(s);
    EncodedBits(s);
    var n := 8 * |e|;
    assert n <= span;
    DecodedExact(e, n, span);
    var d := Decoded(e, n, span);
    forall x ensures x in d <==> x in s {
      if x in s {
        var k :| 0 <= k < |s| && s[k] == x;
        assert x <= Last(s);
      }
    }
    AscendingUnique(d, s);
  }

  /** The index range of `uint16`, the index type of the current protocol
      package and of the older serialization package. */
  const Uint16Span: nat := 65536

  /** Chunks 0..6 of a seven-chunk file pack into the single byte 0xFE. */
  lemma SevenChunksEncodeToFE()
    ensures Encodable([0, 1, 2, 3, 4, 5, 6])
    ensures Encoded([0, 1, 2, 3, 4, 5, 6]) == [0xFE]
  {
    assert Zeros(1) == [0];
    FourChunksFill();
    FillStep([0, 1, 2, 3], 4, 0xF0, 0xF8);
    assert [0, 1, 2, 3] + [4] == [0, 1, 2, 3, 4];
    FillStep([0, 1, 2, 3, 4], 5, 0xF8, 0xFC);
    assert [0, 1, 2, 3, 4] + [5] == [0, 1, 2, 3, 4, 5];
    FillStep([0, 1, 2, 3, 4, 5], 6, 0xFC, 0xFE);
    assert [0, 1, 2, 3, 4, 5] + [6] == [0, 1, 2, 3, 4, 5, 6];
  }

  /** Chunks 0..3 set the four high bits. */
  lemma FourChunksFill()
    ensures Fill([0], [0, 1, 2, 3]) == [0xF0]
  {
    FillStep([], 0, 0, 0x80);
    assert [] + [0] == [0];
    FillStep([0], 1, 0x80, 0xC0);
    assert [0] + [1] == [0, 1];
    FillStep([0, 1], 2, 0xC0, 0xE0);
    assert [0, 1] + [2] == [0, 1, 2];
    FillStep([0, 1, 2], 3, 0xE0, 0xF0);
    assert [0, 1, 2] + [3] == [0, 1, 2, 3];
  }

  /** Setting one more bit of a one-byte buffer. */
  lemma FillStep(s: seq<nat>, x: nat, before: byte, after: byte)
    requires (forall i :: 0 <= i < |s| ==> s[i] < 8) && x < 8
    requires Fill([0], s) == [before] && before | Mask(x) == after
    ensures Fill([0], s + [x]) == [after]
  {
    var t := s + [x];
    assert t[..|t| - 1] == s && t[|t| - 1] == x;
    assert x / 8 == 0 && x % 8 == x;
    assert Fill([0], t) == SetBitValue([before], x);
  }
}
