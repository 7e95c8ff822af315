/** `find_esp32_port` (ende.py): probe the enumerated serial ports in order
    and return the device name of the first one whose stripped reply line is
    `ESP32`. Opening the port, writing `hello` and reading a line are folded
    into one probe outcome per port. */
module Locator {
  import opened Types
  import opened AsciiStrip

  /** The handshake reply `b'ESP32'`. */
  const ESP32_REPLY: Bytes := [0x45, 0x53, 0x50, 0x33, 0x32]

  /** What probing one port gives: an exception from open, write, readline
      or close, or the line read back. */
  datatype Probe = Throws | Reply(line: Bytes)

  /** One entry of `comports()` with the outcome of probing it. */
  datatype Port = Port(device: string, probe: Probe)

  /** The outcome of a scan: the device found, and how many ports were
      probed before the scan returned. */
  datatype Scan = Scan(device: Option<string>, probed: nat)

  /** The port answers the handshake: its reply, stripped, is `ESP32`. */
  predicate Answers(p: Port)
  {
    p.probe.Reply? && Strip(p.probe.line) == ESP32_REPLY
  }

  /** First-match scan: a port that throws or gives another reply is passed
      over; the first port that answers ends the scan. */
  function FindEsp32Port(ports: seq<Port>): (r: Scan)
    ensures r.probed <= |ports|
    ensures r.device.None? ==> r.probed == |ports| && forall i :: 0 <= i < |ports| ==> !Answers(ports[i])
    ensures r.device.Some? ==>
      && 0 < r.probed
      && Answers(ports[r.probed - 1])
      && r.device.value == ports[r.probed - 1].device
      && forall i :: 0 <= i < r.probed - 1 ==> !Answers(ports[i])
  {
    if |ports| == 0 then Scan(None, 0)
    else if Answers(ports[0]) then Scan(Some(ports[0].device), 1)
    else
      var rest := FindEsp32Port(ports[1..]);
      Scan(rest.device, rest.probed + 1)
  }

  /** The scan finds nothing exactly when no port answers. */
  lemma NotFoundIffNoAnswer(ports: seq<Port>)
    ensures FindEsp32Port(ports).device.None? <==> forall i :: 0 <= i < |ports| ==> !Answers(ports[i])
  {
    var r := FindEsp32Port(ports);
    if r.device.Some? {
      assert Answers(ports[r.probed - 1]);
    }
  }

  /** When port `i` is the first that answers, the scan returns its device
      and never probes a port after it. */
  lemma {:induction false} FirstAnswerWins(ports: seq<Port>, i: nat)
    requires i < |ports| && Answers(ports[i])
    requires forall j :: 0 <= j < i ==> !Answers(ports[j])
    ensures FindEsp32Port(ports) == Scan(Some(ports[i].device), i + 1)
    decreases i
  {
    if i > 0 {
      assert !Answers(ports[0]);
      var rest := ports[1..];
      assert rest[i - 1] == ports[i];
      forall j | 0 <= j < i - 1
        ensures !Answers(rest[j])
      {
        assert rest[j] == ports[j + 1];
      }
      FirstAnswerWins(rest, i - 1);
    }
  }

  /** A port that does not answer, in particular one whose probe throws, is
      skipped: taking it out of the list does not change which device is
      found, and costs one probe only when the scan gets that far. */
  lemma {:induction false} NonAnsweringPortSkipped(before: seq<Port>, p: Port, after: seq<Port>)
    requires !Answers(p)
    ensures var with := FindEsp32Port(before + [p] + after);
      var without := FindEsp32Port(before + after);
      && with.device == without.device
      && with.probed == (if without.probed <= |before| && without.device.Some? then without.probed else without.probed + 1)
    decreases |before|
  {
    var with := before + [p] + after;
    var without := before + after;
    if |before| == 0 {
      assert with == [p] + after && with[1..] == after;
      assert without == after;
      assert !Answers(with[0]);
      assert FindEsp32Port(with) == Scan(FindEsp32Port(after).device, FindEsp32Port(after).probed + 1);
    } else {
      assert with[1..] == before[1..] + [p] + after;
      assert without[1..] == before[1..] + after;
      assert with[0] == before[0] == without[0];
      if Answers(before[0]) {
        assert FindEsp32Port(with) == Scan(Some(before[0].device), 1);
        assert FindEsp32Port(without) == Scan(Some(before[0].device), 1);
      } else {
        NonAnsweringPortSkipped(before[1..], p, after);
        var w' := FindEsp32Port(before[1..] + [p] + after);
        var o' := FindEsp32Port(before[1..] + after);
        assert FindEsp32Port(with) == Scan(w'.device, w'.probed + 1);
        assert FindEsp32Port(without) == Scan(o'.device, o'.probed + 1);
      }
    }
  }

  /** A reply is accepted whatever ASCII whitespace surrounds `ESP32`, such
      as the line terminator `readline` keeps. */
  lemma ReplyWithWhitespaceAccepted(device: string, lead: Bytes, trail: Bytes)
    requires AllSpace(lead) && AllSpace(trail)
    ensures Answers(Port(device, Reply(lead + ESP32_REPLY + trail)))
  {
    StripSurrounded(lead, ESP32_REPLY, trail);
  }

  /** Ports A (wrong reply), B (`ESP32\r\n`) and C (unreachable): the scan
      returns B after two probes, without attempting C. */
  lemma ScanExample()
    ensures FindEsp32Port([
        Port("A", Reply([0x4e, 0x4f, 0x0d, 0x0a])),
        Port("B", Reply(ESP32_REPLY + [0x0d, 0x0a])),
        Port("C", Throws)
      ]) == Scan(Some("B"), 2)
  {
    var ports := [
        Port("A", Reply([0x4e, 0x4f, 0x0d, 0x0a])),
        Port("B", Reply(ESP32_REPLY + [0x0d, 0x0a])),
        Port("C", Throws)
      ];
    StripSurrounded([], [0x4e, 0x4f], [0x0d, 0x0a]);
    assert [] + [0x4e, 0x4f] + [0x0d, 0x0a] == [0x4e, 0x4f, 0x0d, 0x0a];
    assert !Answers(ports[0]);
    ReplyWithWhitespaceAccepted("B", [], [0x0d, 0x0a]);
    assert [] + ESP32_REPLY + [0x0d, 0x0a] == ESP32_REPLY + [0x0d, 0x0a];
    FirstAnswerWins(ports, 1);
  }
}
