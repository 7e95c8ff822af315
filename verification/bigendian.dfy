/** The `struct.pack('>I', n)` encoding: an unsigned 32-bit integer as four
    bytes, most significant first. */
module BigEndian {
  import opened Types

  const UINT32_LIMIT: nat := 0x1_0000_0000

  /** `struct.pack('>I', n)`; only defined where Python does not raise. */
  function Uint32ToBytes(n: nat): (r: Bytes)
    requires n < UINT32_LIMIT
    ensures |r| == 4
  {
    [n / 0x100_0000, (n / 0x1_0000) % 0x100, (n / 0x100) % 0x100, n % 0x100]
  }

  /** `struct.unpack('>I', b)[0]`. */
  function BytesToUint32(b: Bytes): (n: nat)
    requires |b| == 4
    ensures n < UINT32_LIMIT
  {
    (b[0] as int) * 0x100_0000 + (b[1] as int) * 0x1_0000 + (b[2] as int) * 0x100 + b[3]
  }

  /** The most significant byte comes first. */
  lemma Uint32ByteOrder()
    ensures Uint32ToBytes(0x01020304) == [0x01, 0x02, 0x03, 0x04]
    ensures BytesToUint32([0x01, 0x02, 0x03, 0x04]) == 0x01020304
  {
  }

  /** Decoding the four bytes of an encoded number gives the number back. */
  lemma DecodeEncode(n: nat)
    requires n < UINT32_LIMIT
    ensures BytesToUint32(Uint32ToBytes(n)) == n
  {
    var b := Uint32ToBytes(n);
    assert n == (n / 0x100) * 0x100 + n % 0x100;
    assert n / 0x100 == (n / 0x1_0000) * 0x100 + (n / 0x100) % 0x100;
    assert n / 0x1_0000 == (n / 0x100_0000) * 0x100 + (n / 0x1_0000) % 0x100;
  }

  /** Encoding the value of four bytes gives the same four bytes. */
  lemma EncodeDecode(b: Bytes)
    requires |b| == 4
    ensures Uint32ToBytes(BytesToUint32(b)) == b
  {
    var n := BytesToUint32(b);
    assert n % 0x100 == b[3] && n / 0x100 == (b[0] as int) * 0x1_0000 + (b[1] as int) * 0x100 + b[2];
    var n1 := n / 0x100;
    assert n1 % 0x100 == b[2] && n1 / 0x100 == (b[0] as int) * 0x100 + b[1];
    assert n / 0x1_0000 == n1 / 0x100;
    var n2 := n1 / 0x100;
    assert n2 % 0x100 == b[1] && n2 / 0x100 == b[0];
    assert n / 0x100_0000 == n2 / 0x100;
  }

  /** The encoding is injective: distinct sequence numbers never share a header. */
  lemma EncodingInjective(m: nat, n: nat)
    requires m < UINT32_LIMIT && n < UINT32_LIMIT
    ensures Uint32ToBytes(m) == Uint32ToBytes(n) <==> m == n
  {
    if Uint32ToBytes(m) == Uint32ToBytes(n) {
      DecodeEncode(m);
      DecodeEncode(n);
    }
  }
}
