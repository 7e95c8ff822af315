/** `transmit_data_to_esp32` (ende.py), reduced to what it writes: the
    image bytes are packetized at `PACKET_SIZE`, the ESP32 port is looked
    up, and every packet is written to that port in order. */
module Transmitter {
  import opened Types
  import opened Chunking
  import opened Frames
  import opened Packetizer
  import opened Locator

  /** How a transmission ends, with the `write` calls made on the bound port. */
  datatype Transmission =
    | PacketizeFailed(error: PacketizeError)  // raised before any port is probed
    | NotDetected(probed: nat)                // "ESP32 not detected", no packet written
    | Sent(device: string, probed: nat, writes: seq<Bytes>)
  {
    function Writes(): seq<Bytes>
    {
      if Sent? then writes else []
    }
  }

  /** The image bytes are packetized first, then the port is looked up; a
      result that Python treats as false (`None` or an empty device name)
      aborts. Otherwise one `write` per packet, in packet order. */
  function TransmitDataToEsp32(image: Bytes, hash: Hasher, ports: seq<Port>): (t: Transmission)
    ensures t.Sent? <==>
      && PacketizeData(image, PACKET_SIZE, hash).Success?
      && FindEsp32Port(ports).device.Some? && FindEsp32Port(ports).device.value != ""
    ensures t.Sent? ==> FindEsp32Port(ports) == Scan(Some(t.device), t.probed)
    ensures t.NotDetected? ==> FindEsp32Port(ports).device in {None, Some("")}
    ensures t.PacketizeFailed? <==> PacketizeData(image, PACKET_SIZE, hash).Failure?
  {
    match PacketizeData(image, PACKET_SIZE, hash)
    case Failure(e) => PacketizeFailed(e)
    case Success(packets) =>
      var scan := FindEsp32Port(ports);
      if scan.device.None? || scan.device.value == "" then NotDetected(scan.probed)
      else Sent(scan.device.value, scan.probed, packets)
  }

  /** When no port answers the handshake, no packet is written. */
  lemma NoPortNoWrites(image: Bytes, hash: Hasher, ports: seq<Port>)
    requires forall i :: 0 <= i < |ports| ==> !Answers(ports[i])
    ensures TransmitDataToEsp32(image, hash, ports).Writes() == []
    ensures !TransmitDataToEsp32(image, hash, ports).Sent?
  {
    NotFoundIffNoAnswer(ports);
  }

  /** When the locator returns a (non-empty) device, the write trace is the
      packet list itself: one write per packet, in order. */
  lemma WritesArePackets(image: Bytes, hash: Hasher, ports: seq<Port>)
    requires PacketizeData(image, PACKET_SIZE, hash).Success?
    requires FindEsp32Port(ports).device.Some? && FindEsp32Port(ports).device.value != ""
    ensures var t := TransmitDataToEsp32(image, hash, ports);
      && t.Sent?
      && t.Writes() == PacketizeData(image, PACKET_SIZE, hash).value
  {
  }

  /** What reaches the port carries the image: `ceil(|image| / 1024)` writes,
      write `k` parses to a frame numbered `k` whose digest is the digest of
      its payload, and the payloads in write order are the image. */
  lemma SentWritesCarryImage(image: Bytes, hash: Hasher, ports: seq<Port>)
    requires TransmitDataToEsp32(image, hash, ports).Sent?
    ensures var ws := TransmitDataToEsp32(image, hash, ports).writes;
      && |ws| == CeilDiv(|image|, PACKET_SIZE)
      && Reassemble(ws) == Some(image)
      && forall k :: 0 <= k < |ws| ==>
           Parse(ws[k]).Some? && Parse(ws[k]).value.sequence == k && Verifies(Parse(ws[k]).value, hash)
  {
    var ws := TransmitDataToEsp32(image, hash, ports).writes;
    PacketCount(image, PACKET_SIZE, hash);
    PacketizeReassembles(image, PACKET_SIZE, hash);
    forall k | 0 <= k < |ws|
      ensures Parse(ws[k]).Some? && Parse(ws[k]).value.sequence == k && Verifies(Parse(ws[k]).value, hash)
    {
      PacketHeader(image, PACKET_SIZE, hash, k);
    }
  }
}
