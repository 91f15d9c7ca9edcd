/**
 * The XDP ingress program of host h2 (`xdp_drop_packet`): for an IPv4
 * TCP or UDP frame to or from port 2112 it reads the next entry of the
 * loss trace held in the array map `loss_map_2`, drops the frame when the
 * entry is nonzero, and moves its static `packet_index` on by one modulo
 * `TRACE_LEN` whether it dropped or not.  Every other frame passes and
 * leaves the index alone.  Unlike the delay program it finds the ports
 * after an IPv4 header of `ihl * 4` bytes.
 *
 * The map is an array whose length is left open, so the model keeps the
 * branch where the lookup finds no entry; with the declared `TRACE_LEN`
 * entries that branch is never taken.
 */
module XdpDrop {
  import opened Wrappers
  import opened Frames

  const TRACE_LEN: nat := 10000
  const XDP_DROP: int := 1
  const XDP_PASS: int := 2

  /** Offset of the transport header: Ethernet header, then `ihl` 32-bit words of IPv4 header. */
  function TransportOffset(frame: seq<uint8>): nat
    requires ETH_HLEN + IP_HLEN <= |frame|
  {
    ETH_HLEN + Ihl(frame) * 4
  }

  /** The ports the program compares, or `None` on each path that returns before reading them. */
  function XdpPorts(frame: seq<uint8>): Option<Ports>
  {
    if |frame| < ETH_HLEN || !IsIPv4(frame) then None
    else if |frame| < ETH_HLEN + IP_HLEN then None
    else if !IsTcpOrUdp(IpProtocol(frame)) then None
    else if TransportOffset(frame) + 4 > |frame| then None
    else Some(PortsAt(frame, TransportOffset(frame)))
  }

  /** The frames that consume a trace entry, byte by byte. */
  predicate Selected(frame: seq<uint8>)
  {
    |frame| >= 34 && frame[12] == 0x08 && frame[13] == 0x00 &&
    (frame[23] == 6 || frame[23] == 17) &&
    var off := 14 + (frame[14] % 16) * 4;
    off + 4 <= |frame| &&
    (0x100 * frame[off] as int + frame[off + 1] as int == 2112 ||
     0x100 * frame[off + 2] as int + frame[off + 3] as int == 2112)
  }

  /**
   * The ports are read exactly from a frame of at least 34 bytes with
   * EtherType 0x0800 and protocol TCP or UDP whose transport header, at
   * `14 + 4 * ihl`, holds four bytes; they are read there in network
   * order, and the filter then passes exactly the `Selected` frames.
   */
  lemma XdpPortsSpec(frame: seq<uint8>)
    ensures XdpPorts(frame).Some? <==>
      |frame| >= 34 && frame[12] == 0x08 && frame[13] == 0x00 && (frame[23] == 6 || frame[23] == 17) &&
      14 + (frame[14] % 16) * 4 + 4 <= |frame|
    ensures XdpPorts(frame).Some? ==>
      var off := 14 + (frame[14] % 16) * 4;
      XdpPorts(frame).value == Ports(0x100 * frame[off] as int + frame[off + 1] as int, 0x100 * frame[off + 2] as int + frame[off + 3] as int)
    ensures (XdpPorts(frame).Some? && PortMatches(XdpPorts(frame).value.sport, XdpPorts(frame).value.dport)) <==> Selected(frame)
  {
    if |frame| >= ETH_HLEN {
      IsIPv4Bytes(frame);
    }
    if |frame| >= ETH_HLEN + IP_HLEN {
      var off := TransportOffset(frame);
      if off + 4 <= |frame| {
        LoadNet16BigEndian(frame, off);
        LoadNet16BigEndian(frame, off + 2);
      }
    }
  }

  /** `packet_index = (packet_index + 1) % TRACE_LEN` on a `__u32`. */
  function NextIndex(i: uint32): (j: uint32)
    ensures j < TRACE_LEN
  {
    ((i + 1) % 0x1_0000_0000) % TRACE_LEN
  }

  /** What one frame leaves: the action returned and `packet_index`. */
  datatype Outcome = Outcome(action: int, index: uint32)

  /**
   * The effect of the program on one frame: a selected frame whose key
   * `index % TRACE_LEN` is in the map moves the index on and is dropped
   * exactly when its entry is nonzero; every other frame passes with the
   * index unchanged.  So only selected frames are ever dropped.
   */
  function Step(index: uint32, frame: seq<uint8>, losses: seq<int32>): (r: Outcome)
    ensures r == if Selected(frame) && index % TRACE_LEN < |losses|
      then Outcome(if losses[index % TRACE_LEN] != 0 then XDP_DROP else XDP_PASS, NextIndex(index))
      else Outcome(XDP_PASS, index)
    ensures r.action == XDP_DROP ==> Selected(frame)
  {
    XdpPortsSpec(frame);
    match XdpPorts(frame)
    case None => Outcome(XDP_PASS, index)
    case Some(p) =>
      if !PortMatches(p.sport, p.dport) then Outcome(XDP_PASS, index)
      else
        match Lookup(losses, index % TRACE_LEN)
        case None => Outcome(XDP_PASS, index)
        case Some(v) => Outcome(if v != 0 then XDP_DROP else XDP_PASS, NextIndex(index))
  }

  /**
   * A selected frame whose trace entry is present advances the index by
   * one modulo `TRACE_LEN` and is dropped exactly when the entry is
   * nonzero; every other frame passes with the index unchanged.
   */
  lemma StepSpec(index: uint32, frame: seq<uint8>, losses: seq<int32>)
    requires index < TRACE_LEN
    ensures Step(index, frame, losses) ==
      if Selected(frame) && index < |losses|
      then Outcome(if losses[index] != 0 then XDP_DROP else XDP_PASS, (index + 1) % TRACE_LEN)
      else Outcome(XDP_PASS, index)
  {
  }

  /** The XDP context: the frame between `data` and `data_end`. */
  class XdpMd {
    const data: seq<uint8>

    constructor (data: seq<uint8>)
      ensures this.data == data
    {
      this.data := data;
    }
  }

  /** The loaded program: its static `packet_index` and the map `loss_map_2`. */
  class PacketDropper {
    var packetIndex: uint32
    const lossMap: array<int32>

    /** The program as loaded, before the first packet. */
    constructor (lossMap: array<int32>)
      ensures this.lossMap == lossMap && packetIndex == 0
    {
      this.lossMap := lossMap;
      packetIndex := 0;
    }

    /** `xdp_drop_packet`: the action and the new index are as `Step` says. */
    method XdpDropPacket(ctx: XdpMd) returns (action: int)
      modifies this
      ensures Outcome(action, packetIndex) == Step(old(packetIndex), ctx.data, lossMap[..])
    {
      var data := ctx.data;
      if |data| < ETH_HLEN || LoadHost16(data, 12) != ByteSwap16(ETH_P_IP) {
        return XDP_PASS;
      }
      if |data| < ETH_HLEN + IP_HLEN {
        return XDP_PASS;
      }
      var protocol := data[ETH_HLEN + 9];
      if protocol != IPPROTO_TCP && protocol != IPPROTO_UDP {
        return XDP_PASS;
      }
      var offset := ETH_HLEN + (data[ETH_HLEN] % 16) * 4;
      var sport: uint16, dport: uint16 := 0, 0;
      if protocol == IPPROTO_TCP || protocol == IPPROTO_UDP {
        if offset + 4 > |data| {
          return XDP_PASS;
        }
        sport := ByteSwap16(LoadHost16(data, offset));
        dport := ByteSwap16(LoadHost16(data, offset + 2));
      }
      if sport == FILTER_PORT_1 || sport == FILTER_PORT_2 || dport == FILTER_PORT_1 || dport == FILTER_PORT_2 {
        var key := packetIndex % TRACE_LEN;
        if key >= lossMap.Length {
          return XDP_PASS;
        }
        var traceValue := lossMap[key];
        if traceValue != 0 {
          packetIndex := ((packetIndex + 1) % 0x1_0000_0000) % TRACE_LEN;
          return XDP_DROP;
        } else {
          packetIndex := ((packetIndex + 1) % 0x1_0000_0000) % TRACE_LEN;
        }
      }
      return XDP_PASS;
    }
  }

  // ---------------------------------------------------------------------
  // A run of packets

  /** The final index and the action taken on each frame, for `frames` seen in order. */
  datatype RunResult = RunResult(index: uint32, actions: seq<int>)

  function Run(index: uint32, frames: seq<seq<uint8>>, losses: seq<int32>): (r: RunResult)
    ensures |r.actions| == |frames|
  {
    if |frames| == 0 then RunResult(index, [])
    else
      var prev := Run(index, frames[..|frames| - 1], losses);
      var o := Step(prev.index, frames[|frames| - 1], losses);
      RunResult(o.index, prev.actions + [o.action])
  }

  /** How many of the frames are selected. */
  function CountSelected(frames: seq<seq<uint8>>): nat
  {
    if |frames| == 0 then 0
    else CountSelected(frames[..|frames| - 1]) + (if Selected(frames[|frames| - 1]) then 1 else 0)
  }

  /** With a full map, the index ends `CountSelected` entries further on, modulo `TRACE_LEN`. */
  lemma {:induction false} RunIndex(start: uint32, frames: seq<seq<uint8>>, losses: seq<int32>)
    requires start < TRACE_LEN && |losses| == TRACE_LEN
    ensures Run(start, frames, losses).index == (start + CountSelected(frames)) % TRACE_LEN
  {
    if |frames| > 0 {
      var n := |frames| - 1;
      var init := frames[..n];
      RunIndex(start, init, losses);
      StepSpec(Run(start, init, losses).index, frames[n], losses);
      ModSucc(start + CountSelected(init), TRACE_LEN);
    }
  }

  /** The action on frame `k` does not depend on the frames after it. */
  lemma {:induction false} RunActionAt(start: uint32, frames: seq<seq<uint8>>, losses: seq<int32>, k: nat)
    requires start < TRACE_LEN && |losses| == TRACE_LEN && k < |frames|
    ensures Run(start, frames, losses).actions[k] ==
      if Selected(frames[k]) && losses[(start + CountSelected(frames[..k])) % TRACE_LEN] != 0
      then XDP_DROP else XDP_PASS
  {
    var n := |frames| - 1;
    var init := frames[..n];
    if k == n {
      RunIndex(start, init, losses);
      StepSpec(Run(start, init, losses).index, frames[n], losses);
    } else {
      RunActionAt(start, init, losses, k);
      assert Run(start, frames, losses).actions[k] == Run(start, init, losses).actions[k];
      assert frames[..k] == init[..k] && frames[k] == init[k];
    }
  }

  /**
   * With a full map the program replays the loss trace cyclically: the
   * selected frame that has `c` selected frames before it is dropped
   * exactly when entry `(start + c) % TRACE_LEN` is nonzero, and every
   * other frame passes.
   */
  lemma RunReplaysTrace(start: uint32, frames: seq<seq<uint8>>, losses: seq<int32>)
    requires start < TRACE_LEN && |losses| == TRACE_LEN
    ensures forall k :: 0 <= k < |frames| ==>
      Run(start, frames, losses).actions[k] ==
        if Selected(frames[k]) && losses[(start + CountSelected(frames[..k])) % TRACE_LEN] != 0
        then XDP_DROP else XDP_PASS
  {
    forall k | 0 <= k < |frames| {
      RunActionAt(start, frames, losses, k);
    }
  }
}
