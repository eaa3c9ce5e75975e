/** Shared vocabulary: bytes, optional values and network addresses. */
module Common {

  /** One octet, as Go's `byte`/`uint8`. */
  type byte = bv8

  /** A 20-byte SHA-1 digest is carried as a byte sequence. */
  type Digest = seq<byte>

  const DigestSize: nat := 20

  datatype Option<+T> = None | Some(value: T)

  /** A UDP or TCP endpoint: IPv4 address bytes and a port. Two endpoints are
      the same exactly when both parts agree. Where the tracker compares the
      remote addresses of two connections, the endpoint stands for the
      connection: equal endpoints mean the same connection. */
  datatype Addr = Addr(ip: seq<byte>, port: nat)

  /** The largest value of an unsigned integer of `bytes` octets, plus one. */
  function Pow256(bytes: nat): (r: nat)
    ensures r >= 1
  {
    if bytes == 0 then 1 else 256 * Pow256(bytes - 1)
  }

  const U16: nat := 0x1_0000
  const U32: nat := 0x1_0000_0000
  const U64: nat := 0x1_0000_0000_0000_0000

  /** All-zero buffer of length n, as Go's `make([]byte, n)`. */
  function Zeros(n: nat): (r: seq<byte>)
    ensures |r| == n && forall i :: 0 <= i < n ==> r[i] == 0
  {
    seq(n, _ => 0)
  }

  /** A number below 256 survives the trip through a byte. */
  lemma ByteValue(x: nat)
    requires x < 256
    ensures (x as byte) as nat == x
  {
    assert x % 256 == x;
  }

  lemma ByteBound(b: byte)
    ensures b as nat < 256
  {
  }

  lemma ByteInjective(a: byte, b: byte)
    requires a as nat == b as nat
    ensures a == b
  {
  }

  lemma SmallMod(n: nat)
    requires n < 256
    ensures n % 256 == n
  {
  }

  /** A byte survives the trip through a number taken modulo 256, as Go's
      uint8(uint64(b)) does. */
  lemma ByteOfNat(b: byte)
    ensures ((b as nat) % 256) as byte == b
  {
    var n := b as nat;
    ByteBound(b);
    SmallMod(n);
    ByteValue(n);
    ByteInjective(n as byte, b);
  }

  /** A sequence without repeated elements. */
  ghost predicate Distinct<T>(s: seq<T>)
  {
    forall i, j :: 0 <= i < j < |s| ==> s[i] != s[j]
  }
}
