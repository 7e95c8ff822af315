/** `packetize_data` (ende.py): the image bytes cut into packets of
    `packet_size` payload bytes, each prefixed by its index and the digest of
    its payload. */
module Packetizer {
  import opened Types
  import opened BigEndian
  import opened Chunking
  import opened Frames

  /** Payload bytes per packet used by the transmitter. */
  const PACKET_SIZE: nat := 1024

  datatype PacketizeError =
    | ZeroPacketSize    // `range(0, n, 0)` raises ValueError
    | SequenceOverflow  // `struct.pack('>I', k)` raises for k >= 2^32

  /** The packet built for the slice starting at offset `k * size`. */
  function PacketAt(data: Bytes, size: nat, hash: Hasher, k: nat): (p: Bytes)
    requires k < UINT32_LIMIT
    ensures |p| == HEADER_WIDTH + |PySlice(data, k * size, k * size + size)|
    ensures BytesToUint32(p[..SEQUENCE_WIDTH]) == k
    ensures p[HEADER_WIDTH..] == PySlice(data, k * size, k * size + size)
    ensures p[SEQUENCE_WIDTH..HEADER_WIDTH] == hash(p[HEADER_WIDTH..])
  {
    var slice := PySlice(data, k * size, k * size + size);
    var f := Frame(k, hash(slice), slice);
    ParseSerialize(f);
    Serialize(f)
  }

  /** The packet at offset `k * size` carries slice `k` of the reference slicing. */
  lemma PacketAtIsChunk(data: Bytes, size: nat, hash: Hasher, k: nat)
    requires size > 0 && k < |Chunks(data, size)| && k < UINT32_LIMIT
    ensures PacketAt(data, size, hash, k) == Serialize(Frame(k, hash(Chunks(data, size)[k]), Chunks(data, size)[k]))
  {
    var lo := k * size;
    var slice := PySlice(data, lo, lo + size);
    assert PacketAt(data, size, hash, k) == Serialize(Frame(k, hash(slice), slice));
    ChunkAt(data, size, k);
    var c := Chunks(data, size)[k];
    assert lo < |data| && c == data[lo..Min(lo + size, |data|)];
    if lo + size <= |data| {
      assert slice == data[lo..lo + size];
    } else {
      assert slice == data[lo..];
    }
  }

  /** One packet per offset of `range(0, len(data), packetSize)`. A negative
      size gives an empty range, a zero size raises, and an index that does
      not fit in 32 bits makes `struct.pack` raise. The packets are those of
      the reference slicing `Chunks`, each tagged with its index and the
      digest of its payload. */
  function PacketizeData(data: Bytes, packetSize: int, hash: Hasher): (r: Result<seq<Bytes>, PacketizeError>)
    ensures packetSize == 0 ==> r == Failure(ZeroPacketSize)
    ensures packetSize < 0 ==> r == Success([])
    ensures packetSize > 0 ==> (r.Failure? <==> |Chunks(data, packetSize)| > UINT32_LIMIT)
    ensures packetSize > 0 && r.Failure? ==> r.error == SequenceOverflow
    ensures packetSize > 0 && r.Success? ==>
      var cs := Chunks(data, packetSize);
      && |r.value| == |cs|
      && forall k :: 0 <= k < |cs| ==> r.value[k] == Serialize(Frame(k, hash(cs[k]), cs[k]))
  {
    if packetSize == 0 then Failure(ZeroPacketSize)
    else if packetSize < 0 then Success([])
    else
      var count := CeilDiv(|data|, packetSize);
      ChunksCount(data, packetSize);
      if count > UINT32_LIMIT then Failure(SequenceOverflow)
      else
        var packets := seq(count, k requires 0 <= k < count => PacketAt(data, packetSize, hash, k));
        assert forall k :: 0 <= k < count ==> packets[k] == Serialize(Frame(k, hash(Chunks(data, packetSize)[k]), Chunks(data, packetSize)[k])) by {
          forall k | 0 <= k < count
            ensures packets[k] == Serialize(Frame(k, hash(Chunks(data, packetSize)[k]), Chunks(data, packetSize)[k]))
          {
            PacketAtIsChunk(data, packetSize, hash, k);
          }
        }
        Success(packets)
  }

  /** The payload of a packet: everything after the 36-byte header. */
  function Payload(p: Bytes): Bytes
  {
    if |p| < HEADER_WIDTH then [] else p[HEADER_WIDTH..]
  }

  /** An empty input yields no packets, whatever the (non-zero) size. */
  lemma EmptyInputNoPackets(packetSize: int, hash: Hasher)
    requires packetSize != 0
    ensures PacketizeData([], packetSize, hash) == Success([])
  {
  }

  /** A non-empty input yields `ceil(|data| / packetSize)` packets. */
  lemma PacketCount(data: Bytes, packetSize: int, hash: Hasher)
    requires packetSize > 0 && PacketizeData(data, packetSize, hash).Success?
    ensures |PacketizeData(data, packetSize, hash).value| == CeilDiv(|data|, packetSize)
  {
    ChunksCount(data, packetSize);
  }

  /** Packet `k` is 36 bytes longer than its payload, bytes 0..4 decode to
      `k`, and bytes 4..36 are the digest of the payload. */
  lemma PacketHeader(data: Bytes, packetSize: int, hash: Hasher, k: nat)
    requires packetSize > 0 && PacketizeData(data, packetSize, hash).Success?
    requires k < |PacketizeData(data, packetSize, hash).value|
    ensures var p := PacketizeData(data, packetSize, hash).value[k];
      && |p| == HEADER_WIDTH + |Payload(p)|
      && p[..SEQUENCE_WIDTH] == Uint32ToBytes(k)
      && BytesToUint32(p[..SEQUENCE_WIDTH]) == k
      && p[SEQUENCE_WIDTH..HEADER_WIDTH] == hash(Payload(p))
      && Parse(p) == Some(Frame(k, hash(Payload(p)), Payload(p)))
  {
    var cs := Chunks(data, packetSize);
    var f := Frame(k, hash(cs[k]), cs[k]);
    ParseSerialize(f);
    DecodeEncode(k);
  }

  /** Every payload but the last has exactly `packetSize` bytes; the last
      has between 1 and `packetSize` bytes. */
  lemma PayloadSizes(data: Bytes, packetSize: int, hash: Hasher)
    requires packetSize > 0 && PacketizeData(data, packetSize, hash).Success?
    ensures var ps := PacketizeData(data, packetSize, hash).value;
      && (forall k :: 0 <= k < |ps| - 1 ==> |Payload(ps[k])| == packetSize)
      && (|ps| > 0 ==> 0 < |Payload(ps[|ps| - 1])| <= packetSize)
  {
    var ps := PacketizeData(data, packetSize, hash).value;
    var cs := Chunks(data, packetSize);
    ChunksSizes(data, packetSize);
    forall k | 0 <= k < |ps|
      ensures Payload(ps[k]) == cs[k]
    {
      ParseSerialize(Frame(k, hash(cs[k]), cs[k]));
    }
  }

  /** Concatenating the payloads of the packets in list order reconstructs
      the input exactly. */
  lemma PacketizeReassembles(data: Bytes, packetSize: int, hash: Hasher)
    requires packetSize > 0 && PacketizeData(data, packetSize, hash).Success?
    ensures Reassemble(PacketizeData(data, packetSize, hash).value) == Some(data)
  {
    var ps := PacketizeData(data, packetSize, hash).value;
    var cs := Chunks(data, packetSize);
    var frames := seq(|cs|, k requires 0 <= k < |cs| => Frame(k, hash(cs[k]), cs[k]));
    ReassembleFrames(frames, ps);
    assert seq(|frames|, k requires 0 <= k < |frames| => frames[k].payload) == cs;
    ChunksFlatten(data, packetSize);
  }

  /** A chunk size at least the input length gives exactly one packet,
      carrying the whole input. */
  lemma OnePacketWhenSizeCoversInput(data: Bytes, packetSize: int, hash: Hasher)
    requires 0 < |data| <= packetSize
    ensures PacketizeData(data, packetSize, hash) == Success([Serialize(Frame(0, hash(data), data))])
  {
    assert data[..|data|] == data;
    assert data[|data|..] == [];
    assert Chunks(data, packetSize) == [data];
    var r := PacketizeData(data, packetSize, hash);
    assert r.Success? && |r.value| == 1;
    assert r.value == [r.value[0]];
  }

  /** 2600 bytes at the default size give three packets, numbered 0, 1, 2,
      with payloads of 1024, 1024 and 552 bytes. */
  lemma Packetize2600(data: Bytes, hash: Hasher)
    requires |data| == 2600
    ensures var r := PacketizeData(data, PACKET_SIZE, hash);
      && r.Success? && |r.value| == 3
      && (forall k :: 0 <= k < 3 ==> Parse(r.value[k]).Some? && Parse(r.value[k]).value.sequence == k)
      && |Payload(r.value[0])| == 1024 && |Payload(r.value[1])| == 1024 && |Payload(r.value[2])| == 552
  {
    var cs := Chunks(data, PACKET_SIZE);
    ChunksCount(data, PACKET_SIZE);
    assert CeilDiv(2600, 1024) == 3;
    var r := PacketizeData(data, PACKET_SIZE, hash);
    forall k | 0 <= k < 3
      ensures Parse(r.value[k]) == Some(Frame(k, hash(cs[k]), cs[k]))
    {
      ParseSerialize(Frame(k, hash(cs[k]), cs[k]));
    }
    ChunkAt(data, PACKET_SIZE, 0);
    ChunkAt(data, PACKET_SIZE, 1);
    ChunkAt(data, PACKET_SIZE, 2);
  }
}
