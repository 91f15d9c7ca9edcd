/**
 * The TC egress program of host h1 (`edt_delay_packet`): for an IPv4
 * TCP or UDP frame to or from port 2112 it stamps the socket buffer's
 * earliest departure time with the current time plus the next delay of
 * the trace held in the array map `delay_map_1`, and moves its static
 * `packet_index` on by one, cyclically over `TRACE_LEN` entries.  It
 * never drops: every path returns `TC_ACT_OK`.
 *
 * The map is an array whose length is left open, so the model keeps the
 * branch where the lookup finds no entry; with the declared `TRACE_LEN`
 * entries that branch is never taken (`FullMapNeverMisses`).  The kernel
 * clock is the parameter `now`.
 */
module EdtDelay {
  import opened Wrappers
  import opened Frames

  const TRACE_LEN: nat := 10000
  const TC_ACT_OK: int := 0

  /** Offset of the ports: the IPv4 header is taken to be exactly 20 bytes long. */
  const PORTS_OFFSET: nat := ETH_HLEN + IP_HLEN

  /** The ports the program compares, or `None` on each path that returns before reading them. */
  function EdtPorts(frame: seq<uint8>): Option<Ports>
  {
    if |frame| < ETH_HLEN then None
    else if !IsIPv4(frame) then None
    else if |frame| < ETH_HLEN + IP_HLEN then None
    else if !IsTcpOrUdp(IpProtocol(frame)) then None
    else if |frame| < PORTS_OFFSET + 4 then None
    else Some(PortsAt(frame, PORTS_OFFSET))
  }

  /** The frames whose departure time the program sets, byte by byte. */
  predicate Selected(frame: seq<uint8>)
  {
    |frame| >= 38 && frame[12] == 0x08 && frame[13] == 0x00 &&
    (frame[23] == 6 || frame[23] == 17) &&
    (0x100 * frame[34] as int + frame[35] as int == 2112 || 0x100 * frame[36] as int + frame[37] as int == 2112)
  }

  /**
   * The ports are read exactly from a frame of at least 38 bytes with
   * EtherType 0x0800 and protocol TCP or UDP, at bytes 34 to 37 whatever
   * the IHL field says, in network order; the filter then passes exactly
   * the `Selected` frames.
   */
  lemma EdtPortsSpec(frame: seq<uint8>)
    ensures EdtPorts(frame).Some? <==>
      |frame| >= 38 && frame[12] == 0x08 && frame[13] == 0x00 && (frame[23] == 6 || frame[23] == 17)
    ensures EdtPorts(frame).Some? ==>
      EdtPorts(frame).value == Ports(0x100 * frame[34] as int + frame[35] as int, 0x100 * frame[36] as int + frame[37] as int)
    ensures (EdtPorts(frame).Some? && PortMatches(EdtPorts(frame).value.sport, EdtPorts(frame).value.dport)) <==> Selected(frame)
  {
    if |frame| >= ETH_HLEN {
      IsIPv4Bytes(frame);
    }
    if |frame| >= 38 {
      LoadNet16BigEndian(frame, 34);
      LoadNet16BigEndian(frame, 36);
    }
  }

  /** `packet_index++` on a `__u32`, then back to 0 on reaching `TRACE_LEN`. */
  function NextIndex(i: uint32): (j: uint32)
    ensures j < TRACE_LEN
  {
    var k := (i + 1) % 0x1_0000_0000;
    if k >= TRACE_LEN then 0 else k
  }

  /** From inside the trace, increment-and-reset is a step modulo `TRACE_LEN`. */
  lemma NextIndexCycles(i: uint32)
    requires i < TRACE_LEN
    ensures NextIndex(i) == (i + 1) % TRACE_LEN
  {
  }

  /** What one frame leaves in `packet_index` and in its buffer's `tstamp`. */
  datatype Outcome = Outcome(index: uint32, tstamp: uint64)

  /**
   * The effect of the program on one frame: a selected frame whose key
   * `index % TRACE_LEN` is in the map gets `now` plus that delay (wrapping
   * as a `__u64`) and moves the index on; every other frame leaves index
   * and `tstamp` as they were.
   */
  function Step(index: uint32, tstamp: uint64, frame: seq<uint8>, delays: seq<uint32>, now: uint64): (r: Outcome)
    ensures r == if Selected(frame) && index % TRACE_LEN < |delays|
      then Outcome(NextIndex(index), (now + delays[index % TRACE_LEN]) % 0x1_0000_0000_0000_0000)
      else Outcome(index, tstamp)
  {
    EdtPortsSpec(frame);
    match EdtPorts(frame)
    case None => Outcome(index, tstamp)
    case Some(p) =>
      if !PortMatches(p.sport, p.dport) then Outcome(index, tstamp)
      else
        match Lookup(delays, index % TRACE_LEN)
        case None => Outcome(index, tstamp)
        case Some(d) => Outcome(NextIndex(index), (now + d) % 0x1_0000_0000_0000_0000)
  }

  /**
   * A selected frame whose delay is present departs at `now` plus that
   * delay (wrapping as a `__u64`) and moves the index on by one modulo
   * `TRACE_LEN`; every other frame leaves both as they were.
   */
  lemma StepSpec(index: uint32, tstamp: uint64, frame: seq<uint8>, delays: seq<uint32>, now: uint64)
    requires index < TRACE_LEN
    ensures Step(index, tstamp, frame, delays, now) ==
      if Selected(frame) && index < |delays|
      then Outcome((index + 1) % TRACE_LEN, (now + delays[index]) % 0x1_0000_0000_0000_0000)
      else Outcome(index, tstamp)
  {
    NextIndexCycles(index);
  }

  /** With the map's declared `TRACE_LEN` entries, every key the program forms is present. */
  lemma FullMapNeverMisses(index: uint32, delays: seq<uint32>)
    requires |delays| == TRACE_LEN
    ensures Lookup(delays, index % TRACE_LEN).Some?
  {
  }

  /** The socket buffer: the frame the program reads and the departure time it may set. */
  class SkBuff {
    const data: seq<uint8>
    var tstamp: uint64

    constructor (data: seq<uint8>, tstamp: uint64)
      ensures this.data == data && this.tstamp == tstamp
    {
      this.data := data;
      this.tstamp := tstamp;
    }
  }

  /** The loaded program: its static `packet_index` and the map `delay_map_1`. */
  class DelayStamper {
    var packetIndex: uint32
    const delayMap: array<uint32>

    /** The program as loaded, before the first packet. */
    constructor (delayMap: array<uint32>)
      ensures this.delayMap == delayMap && packetIndex == 0
    {
      this.delayMap := delayMap;
      packetIndex := 0;
    }

    /** `edt_delay_packet`: always `TC_ACT_OK`; index and timestamp change as `Step` says. */
    method EdtDelayPacket(skb: SkBuff, now: uint64) returns (action: int)
      modifies this, skb
      ensures action == TC_ACT_OK
      ensures Outcome(packetIndex, skb.tstamp) == Step(old(packetIndex), old(skb.tstamp), skb.data, delayMap[..], now)
    {
      var data := skb.data;
      if |data| < ETH_HLEN {
        return TC_ACT_OK;
      }
      if LoadHost16(data, 12) == ByteSwap16(ETH_P_IP) {
        if |data| < ETH_HLEN + IP_HLEN {
          return TC_ACT_OK;
        }
        var protocol := data[ETH_HLEN + 9];
        if protocol == IPPROTO_TCP || protocol == IPPROTO_UDP {
          var off := ETH_HLEN + IP_HLEN;
          if off + 4 > |data| {
            return TC_ACT_OK;
          }
          var srcPort := ByteSwap16(LoadHost16(data, off));
          var dstPort := ByteSwap16(LoadHost16(data, off + 2));
          if srcPort == FILTER_PORT_1 || srcPort == FILTER_PORT_2 || dstPort == FILTER_PORT_1 || dstPort == FILTER_PORT_2 {
            var key := packetIndex % TRACE_LEN;
            if key < delayMap.Length {
              var delayNs := delayMap[key];
              skb.tstamp := (now + delayNs) % 0x1_0000_0000_0000_0000;
              packetIndex := (packetIndex + 1) % 0x1_0000_0000;
              if packetIndex >= TRACE_LEN {
                packetIndex := 0;
              }
            }
          }
        }
      }
      return TC_ACT_OK;
    }
  }

  // ---------------------------------------------------------------------
  // A run of packets

  /** One packet reaching the program: its frame, the clock reading and its buffer's prior `tstamp`. */
  datatype Arrival = Arrival(frame: seq<uint8>, now: uint64, tstamp: uint64)

  /** The final index and each packet's `tstamp` after the program has seen `arrivals` in order. */
  datatype RunResult = RunResult(index: uint32, tstamps: seq<uint64>)

  function Run(index: uint32, arrivals: seq<Arrival>, delays: seq<uint32>): (r: RunResult)
    ensures |r.tstamps| == |arrivals|
  {
    if |arrivals| == 0 then RunResult(index, [])
    else
      var prev := Run(index, arrivals[..|arrivals| - 1], delays);
      var a := arrivals[|arrivals| - 1];
      var o := Step(prev.index, a.tstamp, a.frame, delays, a.now);
      RunResult(o.index, prev.tstamps + [o.tstamp])
  }

  /** How many of the arrivals are selected frames. */
  function CountSelected(arrivals: seq<Arrival>): nat
  {
    if |arrivals| == 0 then 0
    else CountSelected(arrivals[..|arrivals| - 1]) + (if Selected(arrivals[|arrivals| - 1].frame) then 1 else 0)
  }

  /** With a full map, exactly the selected frames move the index on. */
  lemma StepIndex(index: uint32, tstamp: uint64, frame: seq<uint8>, delays: seq<uint32>, now: uint64)
    requires index < TRACE_LEN && |delays| == TRACE_LEN
    ensures Step(index, tstamp, frame, delays, now).index == if Selected(frame) then (index + 1) % TRACE_LEN else index
  {
    NextIndexCycles(index);
  }

  /** With a full map, the index ends `CountSelected` entries further on, modulo `TRACE_LEN`. */
  lemma {:induction false} RunIndex(start: uint32, arrivals: seq<Arrival>, delays: seq<uint32>)
    requires start < TRACE_LEN && |delays| == TRACE_LEN
    ensures Run(start, arrivals, delays).index == (start + CountSelected(arrivals)) % TRACE_LEN
  {
    if |arrivals| > 0 {
      var n := |arrivals| - 1;
      var init := arrivals[..n];
      RunIndex(start, init, delays);
      var prev := Run(start, init, delays);
      var a := arrivals[n];
      StepIndex(prev.index, a.tstamp, a.frame, delays, a.now);
      ModSucc(start + CountSelected(init), TRACE_LEN);
    }
  }

  /**
   * The timestamp a packet leaves when `before` selected packets came
   * ahead of it in the run: its clock reading plus the next trace entry,
   * wrapped to 64 bits, if selected, its own `tstamp` otherwise.
   */
  function Replayed(start: uint32, a: Arrival, before: nat, delays: seq<uint32>): uint64
    requires |delays| == TRACE_LEN
  {
    if Selected(a.frame)
    then (a.now + delays[(start + before) % TRACE_LEN]) % 0x1_0000_0000_0000_0000
    else a.tstamp
  }

  /** The timestamp the last of `arrivals` leaves, once the ones before it have moved the index on. */
  lemma RunLast(start: uint32, arrivals: seq<Arrival>, delays: seq<uint32>)
    requires start < TRACE_LEN && |delays| == TRACE_LEN && |arrivals| > 0
    ensures var n := |arrivals| - 1;
      Run(start, arrivals, delays).tstamps[n] == Replayed(start, arrivals[n], CountSelected(arrivals[..n]), delays)
  {
    var n := |arrivals| - 1;
    var init := arrivals[..n];
    RunIndex(start, init, delays);
    var prev := Run(start, init, delays);
    var a := arrivals[n];
    StepSpec(prev.index, a.tstamp, a.frame, delays, a.now);
  }

  /** The timestamp packet `k` leaves does not depend on the packets after it. */
  lemma {:induction false} RunTstampAt(start: uint32, arrivals: seq<Arrival>, delays: seq<uint32>, k: nat)
    requires start < TRACE_LEN && |delays| == TRACE_LEN && k < |arrivals|
    ensures Run(start, arrivals, delays).tstamps[k] == Replayed(start, arrivals[k], CountSelected(arrivals[..k]), delays)
  {
    var n := |arrivals| - 1;
    if k == n {
      RunLast(start, arrivals, delays);
    } else {
      var init := arrivals[..n];
      RunTstampAt(start, init, delays, k);
      assert Run(start, arrivals, delays).tstamps[k] == Run(start, init, delays).tstamps[k];
      assert arrivals[..k] == init[..k] && arrivals[k] == init[k];
    }
  }

  /**
   * With a full map the program replays the delay trace cyclically: packet
   * `k` of a run, when selected and preceded by `c` selected packets,
   * departs at its `now` plus entry `(start + c) % TRACE_LEN`; otherwise it
   * keeps its `tstamp`.
   */
  lemma RunReplaysTrace(start: uint32, arrivals: seq<Arrival>, delays: seq<uint32>, k: nat)
    requires start < TRACE_LEN && |delays| == TRACE_LEN && k < |arrivals|
    ensures Run(start, arrivals, delays).tstamps[k] ==
      if Selected(arrivals[k].frame)
      then (arrivals[k].now + delays[(start + CountSelected(arrivals[..k])) % TRACE_LEN]) % 0x1_0000_0000_0000_0000
      else arrivals[k].tstamp
  {
    RunTstampAt(start, arrivals, delays, k);
  }
}
