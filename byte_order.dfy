/** Little-endian byte order: the conversion that get_buffer_endian applies to
    2-, 4- and 8-byte fields, stated once as a pure function, together with a
    model of what a host CPU of either byte order sees when it loads those bytes
    and applies le16toh/le32toh/le64toh. */
module ByteOrder {

  /** One octet of the input or output stream. */
  newtype byte = b: int | 0 <= b < 256

  /** Number of distinct values an n-byte unsigned field can hold. */
  function Pow256(n: nat): (p: nat)
    ensures p >= 1
  {
    if n == 0 then 1 else 256 * Pow256(n - 1)
  }

  /** The bytes read as a little-endian unsigned integer: the sum of b[k] * 256^k. */
  function LeDecode(b: seq<byte>): (v: nat)
    ensures v < Pow256(|b|)
  {
    if |b| == 0 then 0 else b[0] as nat + 256 * LeDecode(b[1..])
  }

  /** The n little-endian bytes of v. */
  function LeEncode(v: nat, n: nat): (b: seq<byte>)
    requires v < Pow256(n)
    ensures |b| == n
  {
    if n == 0 then [] else [(v % 256) as byte] + LeEncode(v / 256, n - 1)
  }

  /** Encoding a value and decoding the bytes gives the value back. */
  lemma {:induction false} DecodeEncode(v: nat, n: nat)
    requires v < Pow256(n)
    ensures LeDecode(LeEncode(v, n)) == v
  {
    if n > 0 {
      var q, r := v / 256, v % 256;
      assert v == 256 * q + r;
      assert q < Pow256(n - 1);
      DecodeEncode(q, n - 1);
      var b := LeEncode(v, n);
      assert b[0] == r as byte && b[1..] == LeEncode(q, n - 1);
    }
  }

  /** Decoding bytes and encoding the value at the same width gives the bytes back. */
  lemma {:induction false} EncodeDecode(b: seq<byte>)
    ensures LeEncode(LeDecode(b), |b|) == b
  {
    if |b| > 0 {
      var v, rest := LeDecode(b), LeDecode(b[1..]);
      DivMod256(rest, b[0] as nat);
      EncodeDecode(b[1..]);
      assert LeEncode(v, |b|) == [b[0]] + LeEncode(rest, |b| - 1);
      assert [b[0]] + b[1..] == b;
    }
  }

  lemma DivMod256(q: nat, r: nat)
    requires r < 256
    ensures (256 * q + r) / 256 == q && (256 * q + r) % 256 == r
  {
  }

  /** The bytes in the opposite order. */
  function Reverse(b: seq<byte>): (r: seq<byte>)
    ensures |r| == |b|
    ensures forall k :: 0 <= k < |b| ==> r[k] == b[|b| - 1 - k]
  {
    if |b| == 0 then [] else Reverse(b[1..]) + [b[0]]
  }

  lemma ReverseReverse(b: seq<byte>)
    ensures Reverse(Reverse(b)) == b
  {
  }

  /** The byte order of the machine the extractor runs on. */
  datatype Endianness = LittleEndian | BigEndian

  /** The integer a host of the given byte order sees when it loads the bytes
      b from memory as one unsigned |b|-byte word. */
  function HostLoad(b: seq<byte>, host: Endianness): (x: nat)
    ensures x < Pow256(|b|)
  {
    match host
    case LittleEndian => LeDecode(b)
    case BigEndian => LeDecode(Reverse(b))
  }

  /** The integer whose n bytes are those of x in the opposite order (bswap). */
  function ByteSwap(x: nat, n: nat): (y: nat)
    requires x < Pow256(n)
    ensures y < Pow256(n)
  {
    LeDecode(Reverse(LeEncode(x, n)))
  }

  /** le16toh, le32toh, le64toh: the identity on a little-endian host and a
      byte swap on a big-endian one. */
  function LeToHost(x: nat, n: nat, host: Endianness): (y: nat)
    requires x < Pow256(n)
    ensures y < Pow256(n)
  {
    match host
    case LittleEndian => x
    case BigEndian => ByteSwap(x, n)
  }

  /** Loading a field from memory and converting it with leNNtoh yields the
      little-endian value of its bytes whatever the host's byte order. */
  lemma LeToHostIndependent(b: seq<byte>, host: Endianness)
    ensures LeToHost(HostLoad(b, host), |b|, host) == LeDecode(b)
  {
    if host == BigEndian {
      var x := LeDecode(Reverse(b));
      EncodeDecode(Reverse(b));
      assert LeEncode(x, |b|) == Reverse(b);
      ReverseReverse(b);
    }
  }

  /** A one-byte field is the byte itself on either host. */
  lemma SingleByteUnchanged(c: byte, host: Endianness)
    ensures HostLoad([c], host) == c as nat
  {
    assert Reverse([c]) == [c];
  }
}
