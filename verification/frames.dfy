/** The packet wire format built by `packetize_data`: a 4-byte big-endian
    sequence number, the 32-byte digest of the payload, then the payload,
    with no delimiters. Parsing is the inverse used to state what a
    packet carries; the sender itself never parses. */
module Frames {
  import opened Types
  import opened BigEndian
  import Chunking

  const SEQUENCE_WIDTH: nat := 4
  const DIGEST_WIDTH: nat := 32
  /** Offset of the payload: 4 + 32. */
  const HEADER_WIDTH: nat := SEQUENCE_WIDTH + DIGEST_WIDTH

  datatype Frame = Frame(sequence: nat, digest: Bytes, payload: Bytes)

  /** The fields fit the fixed widths of the header. */
  predicate WellFormed(f: Frame)
  {
    f.sequence < UINT32_LIMIT && |f.digest| == DIGEST_WIDTH
  }

  /** The digest field is the digest of the payload. */
  predicate Verifies(f: Frame, hash: Hasher)
  {
    f.digest == hash(f.payload)
  }

  /** `struct.pack('>I', sequence) + checksum + packet_data`. */
  function Serialize(f: Frame): (p: Bytes)
    requires WellFormed(f)
    ensures |p| == HEADER_WIDTH + |f.payload|
  {
    Uint32ToBytes(f.sequence) + f.digest + f.payload
  }

  /** Splits a packet at offsets 4 and 36; a packet shorter than the header
      is rejected. */
  function Parse(p: Bytes): (r: Option<Frame>)
    ensures r.Some? <==> |p| >= HEADER_WIDTH
    ensures r.Some? ==> WellFormed(r.value) && |r.value.payload| == |p| - HEADER_WIDTH
  {
    if |p| < HEADER_WIDTH then None
    else Some(Frame(BytesToUint32(p[..SEQUENCE_WIDTH]), p[SEQUENCE_WIDTH..HEADER_WIDTH], p[HEADER_WIDTH..]))
  }

  /** Splitting a serialized frame at offsets 4 and 36 recovers its
      sequence number, digest and payload. */
  lemma ParseSerialize(f: Frame)
    requires WellFormed(f)
    ensures Parse(Serialize(f)) == Some(f)
  {
    var p := Serialize(f);
    assert p[..SEQUENCE_WIDTH] == Uint32ToBytes(f.sequence);
    assert p[SEQUENCE_WIDTH..HEADER_WIDTH] == f.digest;
    assert p[HEADER_WIDTH..] == f.payload;
    DecodeEncode(f.sequence);
  }

  /** Every packet at least as long as the header is the serialization of
      the frame it parses to. */
  lemma SerializeParse(p: Bytes)
    requires |p| >= HEADER_WIDTH
    ensures Parse(p).Some? && Serialize(Parse(p).value) == p
  {
    var f := Parse(p).value;
    EncodeDecode(p[..SEQUENCE_WIDTH]);
    assert p == p[..SEQUENCE_WIDTH] + p[SEQUENCE_WIDTH..HEADER_WIDTH] + p[HEADER_WIDTH..];
  }

  /** Concatenation of the payloads of a list of packets, in list order;
      `None` when some packet is shorter than the header. */
  function Reassemble(packets: seq<Bytes>): (r: Option<Bytes>)
    ensures r.Some? <==> forall k :: 0 <= k < |packets| ==> |packets[k]| >= HEADER_WIDTH
  {
    if |packets| == 0 then Some([])
    else
      match (Parse(packets[0]), Reassemble(packets[1..]))
      case (Some(f), Some(rest)) => Some(f.payload + rest)
      case _ => None
  }

  /** Reassembling the serializations of well-formed frames yields their
      payloads concatenated in order. */
  lemma {:induction false} ReassembleFrames(frames: seq<Frame>, packets: seq<Bytes>)
    requires |packets| == |frames|
    requires forall k :: 0 <= k < |frames| ==> WellFormed(frames[k]) && packets[k] == Serialize(frames[k])
    ensures Reassemble(packets) == Some(Chunking.Flatten(seq(|frames|, k requires 0 <= k < |frames| => frames[k].payload)))
  {
    var payloads := seq(|frames|, k requires 0 <= k < |frames| => frames[k].payload);
    if |frames| > 0 {
      ParseSerialize(frames[0]);
      ReassembleFrames(frames[1..], packets[1..]);
      assert payloads[1..] == seq(|frames| - 1, k requires 0 <= k < |frames| - 1 => frames[1..][k].payload);
    }
  }
}
