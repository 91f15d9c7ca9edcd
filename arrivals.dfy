/**
 * The delay-trace stages of traces/make_trace_file.py: `convert_to_ns`
 * (milliseconds to nanoseconds), `write_data` (one `packet_id,value` line per
 * value, the value printed with `:.0f`), and `process_loss_trace`, which
 * re-reads those lines, simulates each packet's arrival under a fixed send
 * cadence with carry-forward of the last known delay, orders the packets by
 * arrival time and emits the loss log and the final delay trace.
 */
module TraceArrivals {
  import opened Wrappers
  import opened Text
  import TraceRounds

  /** Interval between two consecutive synthetic packet sends, in nanoseconds. */
  const SEND_INTERVAL_NS: nat := 10 * 1000000

  // ---------------------------------------------------------------------
  // convert_to_ns

  /**
   * Milliseconds to nanoseconds, element by element: scaling each result
   * back down recovers the input value in the same place, so the conversion
   * loses nothing.
   */
  function ConvertToNs(data: seq<real>): (r: seq<real>)
    ensures |r| == |data|
    ensures forall i :: 0 <= i < |data| ==> r[i] / 1000000.0 == data[i]
  {
    seq(|data|, i requires 0 <= i < |data| => data[i] * 1000000.0)
  }

  /**
   * `convert_to_ns` undoes the division `process_data` applies: the
   * nanosecond RTT of every delivered round is the capture's own value, and
   * that of every lost round is 0.
   */
  lemma ConvertRecoversCapture(rounds: seq<TraceRounds.RoundTrip>, e: TraceRounds.Extracted)
    requires TraceRounds.Extract(rounds) == Ok(e)
    ensures |ConvertToNs(e.rtt)| == |rounds|
    ensures forall i :: 0 <= i < |rounds| ==>
      (rounds[i].lost == TraceRounds.Delivered ==>
         rounds[i].delay.Some? && ConvertToNs(e.rtt)[i] == rounds[i].delay.value.rtt) &&
      (rounds[i].lost != TraceRounds.Delivered ==> ConvertToNs(e.rtt)[i] == 0.0)
  {
    TraceRounds.RoundListsAligned(rounds, e);
    forall i | 0 <= i < |rounds| {
      ConvertRecoversRound(rounds, e, i);
    }
  }

  /** `ConvertRecoversCapture` for one round. */
  lemma ConvertRecoversRound(rounds: seq<TraceRounds.RoundTrip>, e: TraceRounds.Extracted, i: nat)
    requires TraceRounds.Extract(rounds) == Ok(e) && i < |rounds|
    ensures |e.rtt| == |rounds|
    ensures rounds[i].lost == TraceRounds.Delivered ==>
      rounds[i].delay.Some? && ConvertToNs(e.rtt)[i] == rounds[i].delay.value.rtt
    ensures rounds[i].lost != TraceRounds.Delivered ==> ConvertToNs(e.rtt)[i] == 0.0
  {
    TraceRounds.RoundListsAligned(rounds, e);
    var x := e.rtt[i];
    assert ConvertToNs(e.rtt)[i] == x * 1000000.0;
  }

  // ---------------------------------------------------------------------
  // write_data: the `:.0f` format and the line it writes

  /** Nearest integer, ties to the even neighbour: what `:.0f` prints. */
  function RoundHalfEven(x: real): (n: int)
    ensures -0.5 <= x - n as real <= 0.5
    ensures (x - n as real == 0.5 || n as real - x == 0.5) ==> n % 2 == 0
  {
    var f := x.Floor;
    var frac := x - f as real;
    if frac < 0.5 then f
    else if frac > 0.5 then f + 1
    else if f % 2 == 0 then f
    else f + 1
  }

  /** The two properties of `RoundHalfEven` determine it: no other integer has both. */
  lemma RoundHalfEvenUnique(x: real, m: int)
    requires -0.5 <= x - m as real <= 0.5
    requires (x - m as real == 0.5 || m as real - x == 0.5) ==> m % 2 == 0
    ensures m == RoundHalfEven(x)
  {
  }

  /** Rounding commutes with negation, so `:.0f` prints `-x` as `-` before the print of `x`. */
  lemma RoundHalfEvenNegate(x: real)
    ensures RoundHalfEven(-x) == -RoundHalfEven(x)
  {
    var n := RoundHalfEven(x);
    RoundHalfEvenUnique(-x, -n);
  }

  /** `f"{x:.0f}"`: a minus sign for a negative value, then the rounded magnitude (so -0.4 prints as `-0`). */
  function FormatFixed0(x: real): string
  {
    if x < 0.0 then "-" + NatToString(RoundHalfEven(-x)) else NatToString(RoundHalfEven(x))
  }

  /** The line `write_data` writes for one value: `f"{packet_id},{value:.0f}"`. */
  function TraceLine(packetId: nat, value: real): string
  {
    NatToString(packetId) + "," + FormatFixed0(value)
  }

  /** One row of the re-read trace: the `packet_id` and `delay` columns. */
  datatype TraceRow = TraceRow(packetId: int, delay: int)

  /** How the CSV reader turns one `packet_id,delay` line into a row. */
  function ParseTraceLine(line: string): Option<TraceRow>
  {
    var parts := Split(line, ',');
    if |parts| != 2 then None
    else
      match (ParseInt(parts[0]), ParseInt(parts[1]))
      case (Some(id), Some(d)) => Some(TraceRow(id, d))
      case _ => None
  }

  /** Reading a whole trace file back; `None` if some line does not parse. */
  function ReadTrace(lines: seq<string>): (r: Option<seq<TraceRow>>)
    ensures r.Some? ==> |r.value| == |lines|
  {
    if |lines| == 0 then Some([])
    else
      match ReadTrace(lines[..|lines| - 1])
      case None => None
      case Some(rows) =>
        match ParseTraceLine(lines[|lines| - 1])
        case None => None
        case Some(row) => Some(rows + [row])
  }

  /** The printed value parses back as the rounded value, `-0` included. */
  lemma FormatFixed0RoundTrip(x: real)
    ensures ',' !in FormatFixed0(x)
    ensures ParseInt(FormatFixed0(x)) == Some(RoundHalfEven(x))
  {
    if x < 0.0 {
      RoundHalfEvenNegate(x);
      var m := RoundHalfEven(-x);
      assert FormatFixed0(x)[1..] == NatToString(m);
      NatRoundTrip(m);
    } else {
      NatRoundTrip(RoundHalfEven(x));
    }
  }

  /** A written trace line reads back as its packet id and its rounded value. */
  lemma TraceLineRoundTrip(packetId: nat, value: real)
    ensures ParseTraceLine(TraceLine(packetId, value)) == Some(TraceRow(packetId, RoundHalfEven(value)))
  {
    var a, b := NatToString(packetId), FormatFixed0(value);
    FormatFixed0RoundTrip(value);
    assert ',' !in a;
    JoinTwo(a, b, ',');
    SplitJoin([a, b], ',');
    NatRoundTrip(packetId);
  }

  /** The rows `process_loss_trace` reads back from what `write_data` wrote. */
  function RoundedRows(data: seq<real>): (rows: seq<TraceRow>)
    ensures |rows| == |data|
  {
    seq(|data|, i requires 0 <= i < |data| => TraceRow(i, RoundHalfEven(data[i])))
  }

  /** The content of the file `write_data` writes: value `i` on line `i`. */
  function TraceLines(data: seq<real>): (lines: seq<string>)
    ensures |lines| == |data|
  {
    seq(|data|, i requires 0 <= i < |data| => TraceLine(i, data[i]))
  }

  lemma TraceLinesPrefix(data: seq<real>, n: nat)
    requires n <= |data|
    ensures TraceLines(data)[..n] == TraceLines(data[..n])
  {
  }

  lemma RoundedRowsSnoc(data: seq<real>)
    requires |data| > 0
    ensures RoundedRows(data) == RoundedRows(data[..|data| - 1]) + [TraceRow(|data| - 1, RoundHalfEven(data[|data| - 1]))]
  {
  }

  /** Re-reading the written file gives packet ids 0, 1, 2, ... and the rounded values. */
  lemma {:induction false} ReadBackTrace(data: seq<real>)
    ensures ReadTrace(TraceLines(data)) == Some(RoundedRows(data))
  {
    if |data| > 0 {
      var n := |data| - 1;
      var lines := TraceLines(data);
      ReadBackTrace(data[..n]);
      TraceLinesPrefix(data, n);
      TraceLineRoundTrip(n, data[n]);
      RoundedRowsSnoc(data);
    }
  }

  lemma PrefixSnoc<T>(s: seq<T>, n: nat)
    requires n < |s|
    ensures s[..n + 1] == s[..n] + [s[n]]
  {
  }

  /** `write_data`: one line per value, numbered by its position. */
  method WriteData(data: seq<real>) returns (lines: seq<string>)
    ensures lines == TraceLines(data)
    ensures ReadTrace(lines) == Some(RoundedRows(data))
  {
    lines := [];
    var packetId := 0;
    while packetId < |data|
      invariant 0 <= packetId <= |data|
      invariant lines == TraceLines(data)[..packetId]
    {
      PrefixSnoc(TraceLines(data), packetId);
      lines := lines + [TraceLine(packetId, data[packetId])];
      packetId := packetId + 1;
    }
    assert lines == TraceLines(data);
    ReadBackTrace(data);
  }

  // ---------------------------------------------------------------------
  // process_loss_trace: the arrival simulation

  function SendTime(row: TraceRow, interval: nat): int
  {
    row.packetId * interval
  }

  /**
   * Carry-forward: a packet's own delay when positive; otherwise the delay its
   * predecessor ended up with, and the send interval for the first packet.
   */
  function Effective(rows: seq<TraceRow>, i: nat, interval: nat): (r: int)
    requires i < |rows|
    ensures r > 0 || r == interval
  {
    if rows[i].delay > 0 then rows[i].delay
    else if i == 0 then interval
    else Effective(rows, i - 1, interval)
  }

  /**
   * The effective delay of packet `i` is the delay of the latest packet at or
   * before `i` whose delay is positive, or the send interval when there is none.
   */
  lemma {:induction false} EffectiveIsLastKnown(rows: seq<TraceRow>, i: nat, interval: nat)
    requires i < |rows|
    ensures (exists j :: 0 <= j <= i && rows[j].delay > 0) ==>
      exists j :: 0 <= j <= i && rows[j].delay > 0 && Effective(rows, i, interval) == rows[j].delay &&
        forall k :: j < k <= i ==> rows[k].delay <= 0
    ensures (forall k :: 0 <= k <= i ==> rows[k].delay <= 0) ==> Effective(rows, i, interval) == interval
  {
    if rows[i].delay <= 0 && i > 0 {
      EffectiveIsLastKnown(rows, i - 1, interval);
      if exists j :: 0 <= j <= i && rows[j].delay > 0 {
        var j :| 0 <= j <= i && rows[j].delay > 0;
        assert j <= i - 1;
      }
    }
  }

  /**
   * The loop of `process_loss_trace`: the arrival time and the delay each
   * packet ends up with, computed left to right from the previous arrival.
   */
  method SimulateArrivals(rows: seq<TraceRow>, interval: nat) returns (arrival: seq<int>, original: seq<int>)
    ensures |arrival| == |rows| && |original| == |rows|
    ensures forall i :: 0 <= i < |rows| ==> original[i] == Effective(rows, i, interval)
    ensures forall i :: 0 <= i < |rows| ==> arrival[i] == SendTime(rows[i], interval) + original[i]
  {
    arrival, original := [], [];
    var i := 0;
    while i < |rows|
      invariant 0 <= i <= |rows| && |arrival| == i && |original| == i
      invariant forall k :: 0 <= k < i ==> original[k] == Effective(rows, k, interval)
      invariant forall k :: 0 <= k < i ==> arrival[k] == SendTime(rows[k], interval) + original[k]
    {
      var sendTime := SendTime(rows[i], interval);
      var arrivalTime;
      if rows[i].delay > 0 {
        arrivalTime := sendTime + rows[i].delay;
        original := original + [rows[i].delay];
      } else {
        var previousDelay := if i > 0 then arrival[|arrival| - 1] - SendTime(rows[i - 1], interval) else interval;
        arrivalTime := sendTime + previousDelay;
        original := original + [previousDelay];
      }
      arrival := arrival + [arrivalTime];
      i := i + 1;
    }
  }

  // ---------------------------------------------------------------------
  // process_loss_trace: ordering by arrival

  /** One row of the simulated trace: the columns of the data frame. */
  datatype Packet = Packet(packetId: int, delay: int, sendTime: int, arrival: int, original: int)

  /** The data frame the simulation builds, in file order. */
  function Packets(rows: seq<TraceRow>, interval: nat): (ps: seq<Packet>)
    ensures |ps| == |rows|
    ensures forall i :: 0 <= i < |rows| ==> ps[i].packetId == rows[i].packetId && ps[i].delay == rows[i].delay
  {
    seq(|rows|, i requires 0 <= i < |rows| =>
      var e := Effective(rows, i, interval);
      Packet(rows[i].packetId, rows[i].delay, SendTime(rows[i], interval), SendTime(rows[i], interval) + e, e))
  }

  predicate ArrivalOrdered(ps: seq<Packet>)
  {
    forall i, j :: 0 <= i < j < |ps| ==> ps[i].arrival <= ps[j].arrival
  }

  /**
   * `sort_values(by='arrival_time')`: some permutation of the packets in
   * nondecreasing arrival order.  The sort is not stable, so packets that
   * arrive at the same time may come out in either order.
   */
  predicate IsArrivalSort(input: seq<Packet>, output: seq<Packet>)
  {
    multiset(output) == multiset(input) && ArrivalOrdered(output)
  }

  /** Inserts `p` before the first packet of `s` that does not arrive earlier. */
  function InsertByArrival(p: Packet, s: seq<Packet>): (r: seq<Packet>)
    ensures multiset(r) == multiset(s) + multiset{p}
  {
    if |s| == 0 then [p]
    else if p.arrival <= s[0].arrival then [p] + s
    else
      assert s == [s[0]] + s[1..];
      [s[0]] + InsertByArrival(p, s[1..])
  }

  /** Inserting into an arrival-ordered sequence keeps it ordered. */
  lemma {:induction false} InsertKeepsOrder(p: Packet, s: seq<Packet>)
    requires ArrivalOrdered(s)
    ensures ArrivalOrdered(InsertByArrival(p, s))
  {
    if |s| > 0 && p.arrival > s[0].arrival {
      var rest := InsertByArrival(p, s[1..]);
      InsertKeepsOrder(p, s[1..]);
      InsertLowerBound(p, s[1..], s[0].arrival);
      OrderedCons(s[0], rest);
    }
  }

  /** A bound below `p` and below every packet of `s` is below every packet after inserting `p`. */
  lemma {:induction false} InsertLowerBound(p: Packet, s: seq<Packet>, b: int)
    requires b <= p.arrival && forall k :: 0 <= k < |s| ==> b <= s[k].arrival
    ensures forall k :: 0 <= k < |InsertByArrival(p, s)| ==> b <= InsertByArrival(p, s)[k].arrival
  {
    if |s| > 0 && p.arrival > s[0].arrival {
      InsertLowerBound(p, s[1..], b);
    }
  }

  /** A packet no later than every packet of an ordered sequence can go in front of it. */
  lemma OrderedCons(x: Packet, s: seq<Packet>)
    requires ArrivalOrdered(s) && forall k :: 0 <= k < |s| ==> x.arrival <= s[k].arrival
    ensures ArrivalOrdered([x] + s)
  {
    var t := [x] + s;
    forall i, j | 0 <= i < j < |t| ensures t[i].arrival <= t[j].arrival {
      if i == 0 {
        assert t[j] == s[j - 1];
      } else {
        assert t[i] == s[i - 1] && t[j] == s[j - 1];
      }
    }
  }

  /** One arrival ordering of the packets (an insertion sort). */
  function SortByArrival(ps: seq<Packet>): (r: seq<Packet>)
    ensures IsArrivalSort(ps, r)
  {
    if |ps| == 0 then []
    else
      var rest := SortByArrival(ps[1..]);
      InsertKeepsOrder(ps[0], rest);
      assert ps == [ps[0]] + ps[1..];
      InsertByArrival(ps[0], rest)
  }

  /** A sequence is the element at `i` together with the rest. */
  lemma MultisetSplit<T>(s: seq<T>, i: nat)
    requires i < |s|
    ensures multiset(s) == multiset(s[..i] + s[i + 1..]) + multiset{s[i]}
  {
    assert s == s[..i] + [s[i]] + s[i + 1..];
    assert multiset(s[..i] + s[i + 1..]) == multiset(s[..i]) + multiset(s[i + 1..]);
  }

  /** Taking one equal element out of two permutations of each other leaves permutations. */
  lemma MultisetRemoveAt<T>(s: seq<T>, t: seq<T>, i: nat, j: nat)
    requires i < |s| && j < |t| && s[i] == t[j] && multiset(s) == multiset(t)
    ensures multiset(s[..i] + s[i + 1..]) == multiset(t[..j] + t[j + 1..])
  {
    MultisetSplit(s, i);
    MultisetSplit(t, j);
    var left, right := multiset(s[..i] + s[i + 1..]), multiset(t[..j] + t[j + 1..]);
    forall y ensures left[y] == right[y] {
      assert (left + multiset{s[i]})[y] == (right + multiset{s[i]})[y];
    }
  }

  predicate DistinctArrivals(ps: seq<Packet>)
  {
    forall i, j :: 0 <= i < j < |ps| ==> ps[i].arrival != ps[j].arrival
  }

  lemma MultisetDropHead<T>(s: seq<T>, t: seq<T>)
    requires |s| > 0 && |t| > 0 && s[0] == t[0] && multiset(s) == multiset(t)
    ensures multiset(s[1..]) == multiset(t[1..])
  {
    MultisetRemoveAt(s, t, 0, 0);
    assert s[..0] + s[1..] == s[1..];
    assert t[..0] + t[1..] == t[1..];
  }

  /** Two arrival orderings of the same packets, with distinct arrivals, start with the same packet. */
  lemma SortedHeadsEqual(s: seq<Packet>, t: seq<Packet>)
    requires |s| > 0 && multiset(s) == multiset(t) && ArrivalOrdered(s) && ArrivalOrdered(t) && DistinctArrivals(s)
    ensures |t| > 0 && s[0] == t[0]
  {
    assert s[0] in multiset(t);
    var j :| 0 <= j < |t| && t[j] == s[0];
    assert t[0] in multiset(s);
    var i :| 0 <= i < |s| && s[i] == t[0];
    assert t[0].arrival <= t[j].arrival;
    assert s[0].arrival <= s[i].arrival;
  }

  /** When no two packets arrive at the same time, the arrival order is unique. */
  lemma {:induction false} ArrivalSortUnique(s: seq<Packet>, t: seq<Packet>)
    requires IsArrivalSort(s, t) && ArrivalOrdered(s) && DistinctArrivals(s)
    ensures s == t
  {
    assert |s| == |multiset(s)| == |multiset(t)| == |t|;
    if |s| > 0 {
      SortedHeadsEqual(s, t);
      MultisetDropHead(s, t);
      ArrivalSortUnique(s[1..], t[1..]);
      assert s == [s[0]] + s[1..];
      assert t == [t[0]] + t[1..];
    }
  }

  // ---------------------------------------------------------------------
  // process_loss_trace: the two files it writes

  /** `lost` is 1 exactly when the delay read from the file is 0. */
  function LostFlag(p: Packet): string
  {
    if p.delay == 0 then "1" else "0"
  }

  /** The line `id,flag` as `loss_temp.log` writes it. */
  function LossLine(p: Packet): string
  {
    IntToString(p.packetId) + "," + LostFlag(p)
  }

  /** A CSV line of two fields, the first an integer `id`, the second `flag`. */
  predicate ReadsAs(line: string, id: int, flag: string)
  {
    var fields := Split(line, ',');
    |fields| == 2 && ParseInt(fields[0]) == Some(id) && fields[1] == flag
  }

  /** A loss line reads back as the packet's id and its flag. */
  lemma LossLineReadsBack(p: Packet)
    ensures ReadsAs(LossLine(p), p.packetId, LostFlag(p))
  {
    var a, f := IntToString(p.packetId), LostFlag(p);
    IntToStringNoComma(p.packetId);
    JoinTwo(a, f, ',');
    SplitJoin([a, f], ',');
    IntRoundTrip(p.packetId);
  }

  lemma LossLinesReadBack(sorted: seq<Packet>)
    ensures forall k :: 0 <= k < |sorted| ==> ReadsAs(LossLine(sorted[k]), sorted[k].packetId, LostFlag(sorted[k]))
  {
    forall k | 0 <= k < |sorted| {
      LossLineReadsBack(sorted[k]);
    }
  }

  /**
   * `loss_temp.log`: the `packet_id,lost` header, then, for the packet in
   * each place of the arrival order, a line that reads back as its id and
   * its loss flag.
   */
  function LossLog(sorted: seq<Packet>): (lines: seq<string>)
    ensures |lines| == |sorted| + 1 && lines[0] == "packet_id,lost"
    ensures forall k :: 0 <= k < |sorted| ==> ReadsAs(lines[k + 1], sorted[k].packetId, LostFlag(sorted[k]))
  {
    LossLinesReadBack(sorted);
    ["packet_id,lost"] + seq(|sorted|, k requires 0 <= k < |sorted| => LossLine(sorted[k]))
  }

  lemma DelayLinesReadBack(sorted: seq<Packet>)
    ensures forall k :: 0 <= k < |sorted| ==> ParseInt(IntToString(sorted[k].original)) == Some(sorted[k].original)
  {
    forall k | 0 <= k < |sorted| {
      IntRoundTrip(sorted[k].original);
    }
  }

  /**
   * The final delay trace, no header: the line in each place of the arrival
   * order reads back as that packet's effective delay.
   */
  function DelayLines(sorted: seq<Packet>): (lines: seq<string>)
    ensures |lines| == |sorted|
    ensures forall k :: 0 <= k < |sorted| ==> ParseInt(lines[k]) == Some(sorted[k].original)
  {
    DelayLinesReadBack(sorted);
    seq(|sorted|, k requires 0 <= k < |sorted| => IntToString(sorted[k].original))
  }

  /**
   * `process_loss_trace`: simulate, order by arrival, and return the loss log
   * and the delay trace together with the ordered frame they were written from.
   */
  method ProcessLossTrace(rows: seq<TraceRow>, interval: nat)
    returns (lossLog: seq<string>, delayTrace: seq<string>, sorted: seq<Packet>)
    ensures IsArrivalSort(Packets(rows, interval), sorted)
    ensures lossLog == LossLog(sorted) && delayTrace == DelayLines(sorted)
  {
    var arrival, original := SimulateArrivals(rows, interval);
    var frame := seq(|rows|, i requires 0 <= i < |rows| =>
      Packet(rows[i].packetId, rows[i].delay, SendTime(rows[i], interval), arrival[i], original[i]));
    assert frame == Packets(rows, interval);
    sorted := SortByArrival(frame);
    lossLog := LossLog(sorted);
    delayTrace := DelayLines(sorted);
  }

  // ---------------------------------------------------------------------
  // Properties of the ordered trace

  /** Number of elements of `s` for which `p` holds. */
  function Count<T>(s: seq<T>, p: T -> bool): nat
  {
    if |s| == 0 then 0 else Count(s[..|s| - 1], p) + (if p(s[|s| - 1]) then 1 else 0)
  }

  lemma {:induction false} CountAppend<T>(a: seq<T>, b: seq<T>, p: T -> bool)
    ensures Count(a + b, p) == Count(a, p) + Count(b, p)
  {
    if |b| > 0 {
      assert (a + b)[..|a + b| - 1] == a + b[..|b| - 1];
      CountAppend(a, b[..|b| - 1], p);
    } else {
      assert a + b == a;
    }
  }

  /** Taking out element `j` takes out its share of the count. */
  lemma CountRemove<T>(t: seq<T>, j: nat, p: T -> bool)
    requires j < |t|
    ensures Count(t, p) == Count(t[..j] + t[j + 1..], p) + (if p(t[j]) then 1 else 0)
  {
    var a, x, b := t[..j], t[j], t[j + 1..];
    assert t == (a + [x]) + b;
    CountAppend(a + [x], b, p);
    assert (a + [x])[..|a|] == a;
    CountAppend(a, b, p);
  }

  /** Reordering does not change how many elements satisfy a property. */
  lemma {:induction false} CountPermutation<T>(s: seq<T>, t: seq<T>, p: T -> bool)
    requires multiset(s) == multiset(t)
    ensures Count(s, p) == Count(t, p)
  {
    if |s| == 0 {
      assert |t| == |multiset(t)| == 0;
    } else {
      var x := s[|s| - 1];
      assert x in multiset(t);
      var j :| 0 <= j < |t| && t[j] == x;
      var rest := t[..j] + t[j + 1..];
      MultisetRemoveAt(s, t, |s| - 1, j);
      assert s[..|s| - 1] + s[|s|..] == s[..|s| - 1];
      CountPermutation(s[..|s| - 1], rest, p);
      CountRemove(t, j, p);
    }
  }

  predicate HasZeroDelay(p: Packet) { p.delay == 0 }

  predicate ZeroDelayRow(r: TraceRow) { r.delay == 0 }

  lemma {:induction false} CountZeroPackets(rows: seq<TraceRow>, interval: nat)
    ensures Count(Packets(rows, interval), HasZeroDelay) == Count(rows, ZeroDelayRow)
  {
    if |rows| > 0 {
      var init := rows[..|rows| - 1];
      CountZeroPackets(init, interval);
      PacketsPrefix(rows, init, interval);
    }
  }

  /** The packets of a prefix of the rows are the same prefix of the packets. */
  lemma PacketsPrefix(rows: seq<TraceRow>, init: seq<TraceRow>, interval: nat)
    requires |rows| > 0 && init == rows[..|rows| - 1]
    ensures Packets(rows, interval)[..|init|] == Packets(init, interval)
  {
    forall k | 0 <= k < |init| ensures Effective(init, k, interval) == Effective(rows, k, interval) {
      EffectivePrefix(rows, init, k, interval);
    }
  }

  /** Effective delays depend only on the packets up to and including their own. */
  lemma {:induction false} EffectivePrefix(rows: seq<TraceRow>, prefix: seq<TraceRow>, i: nat, interval: nat)
    requires i < |prefix| <= |rows| && prefix == rows[..|prefix|]
    ensures Effective(prefix, i, interval) == Effective(rows, i, interval)
  {
    if rows[i].delay <= 0 && i > 0 {
      EffectivePrefix(rows, prefix, i - 1, interval);
    }
  }

  /**
   * `p` is the packet of input row `i`: that row's id and delay, its
   * effective delay, and its send time plus that delay as arrival time.
   */
  predicate PacketOfRow(rows: seq<TraceRow>, interval: nat, p: Packet, i: int)
  {
    0 <= i < |rows| &&
    p.packetId == rows[i].packetId && p.delay == rows[i].delay &&
    p.original == Effective(rows, i, interval) &&
    p.arrival == SendTime(rows[i], interval) + p.original
  }

  /** `p` is the packet of one of the input rows. */
  predicate FromSomeRow(rows: seq<TraceRow>, interval: nat, p: Packet)
  {
    exists i :: 0 <= i < |rows| && PacketOfRow(rows, interval, p, i)
  }

  /**
   * The arrival-ordered frame holds every packet once: its length is the
   * input's, each entry is the packet of some input row with that row's id,
   * delay and effective delay, and the number of lost packets (delay exactly
   * 0) is the number of zero delays in the input.  A negative delay is
   * extrapolated like a missing one but is not counted as lost.
   */
  lemma OrderedTraceContents(rows: seq<TraceRow>, interval: nat, sorted: seq<Packet>)
    requires IsArrivalSort(Packets(rows, interval), sorted)
    ensures |sorted| == |rows|
    ensures forall k :: 0 <= k < |sorted| ==> FromSomeRow(rows, interval, sorted[k])
    ensures Count(sorted, HasZeroDelay) == Count(rows, ZeroDelayRow)
  {
    var ps := Packets(rows, interval);
    assert |sorted| == |multiset(sorted)| == |multiset(ps)| == |rows|;
    EntriesOfRows(rows, interval, sorted);
    CountPermutation(sorted, ps, HasZeroDelay);
    CountZeroPackets(rows, interval);
  }

  /** The input row an entry of the simulated frame comes from. */
  ghost function RowOf(rows: seq<TraceRow>, interval: nat, p: Packet): (i: nat)
    requires p in multiset(Packets(rows, interval))
    ensures PacketOfRow(rows, interval, p, i)
  {
    var ps := Packets(rows, interval);
    var i :| 0 <= i < |ps| && ps[i] == p;
    i
  }

  /** Every entry of an arrival ordering is the packet of some input row. */
  lemma EntriesOfRows(rows: seq<TraceRow>, interval: nat, sorted: seq<Packet>)
    requires multiset(sorted) == multiset(Packets(rows, interval))
    ensures forall k :: 0 <= k < |sorted| ==> FromSomeRow(rows, interval, sorted[k])
  {
    forall k | 0 <= k < |sorted| {
      EntryOfRow(rows, interval, sorted, k);
    }
  }

  lemma EntryOfRow(rows: seq<TraceRow>, interval: nat, sorted: seq<Packet>, k: nat)
    requires multiset(sorted) == multiset(Packets(rows, interval)) && k < |sorted|
    ensures FromSomeRow(rows, interval, sorted[k])
  {
    assert sorted[k] in multiset(sorted);
    var i := RowOf(rows, interval, sorted[k]);
    assert PacketOfRow(rows, interval, sorted[k], i);
  }

  /** Every delay in the final trace is positive: carry-forward never emits 0. */
  lemma DelayTracePositive(rows: seq<TraceRow>, interval: nat, sorted: seq<Packet>)
    requires interval > 0 && IsArrivalSort(Packets(rows, interval), sorted)
    ensures forall k :: 0 <= k < |sorted| ==> sorted[k].original > 0
  {
    forall k | 0 <= k < |sorted| ensures sorted[k].original > 0 {
      assert sorted[k] in multiset(sorted);
      var i := RowOf(rows, interval, sorted[k]);
      assert sorted[k].original == Effective(rows, i, interval);
    }
  }

  /** Delays 50, 0, 0, 5 for packets 0 to 3. */
  const ExampleRows := [TraceRow(0, 50), TraceRow(1, 0), TraceRow(2, 0), TraceRow(3, 5)]

  /**
   * Sent every 10 ns, the two missing delays carry 50 forward and the
   * packets arrive at 50, 60, 70 and 35.
   */
  lemma CarryForwardExample()
    ensures Packets(ExampleRows, 10) ==
      [Packet(0, 50, 0, 50, 50), Packet(1, 0, 10, 60, 50), Packet(2, 0, 20, 70, 50), Packet(3, 5, 30, 35, 5)]
  {
    assert Effective(ExampleRows, 1, 10) == 50;
    assert Effective(ExampleRows, 2, 10) == 50;
  }

  /**
   * Delays 50, 0, 0, 30 sent every 10 ns: the effective delays are 50, 50,
   * 50, 30 and the last packet, sent at 30, arrives at 60, together with
   * packet 1.
   */
  lemma CarryForwardTie()
    ensures Packets([TraceRow(0, 50), TraceRow(1, 0), TraceRow(2, 0), TraceRow(3, 30)], 10) ==
      [Packet(0, 50, 0, 50, 50), Packet(1, 0, 10, 60, 50), Packet(2, 0, 20, 70, 50), Packet(3, 30, 30, 60, 30)]
  {
    var rows := [TraceRow(0, 50), TraceRow(1, 0), TraceRow(2, 0), TraceRow(3, 30)];
    assert Effective(rows, 1, 10) == 50;
    assert Effective(rows, 2, 10) == 50;
  }

  /** Moving the head of a sequence to its end keeps its elements. */
  lemma RotateHead<T>(x: T, s: seq<T>)
    ensures multiset([x] + s) == multiset(s + [x])
  {
    assert multiset([x] + s) == multiset([x]) + multiset(s);
    assert multiset(s + [x]) == multiset(s) + multiset([x]);
  }

  /** The only arrival order of that example is packets 3, 0, 1, 2. */
  lemma ExampleArrivalOrder(sorted: seq<Packet>)
    requires IsArrivalSort(Packets(ExampleRows, 10), sorted)
    ensures |sorted| == 4 && [sorted[0].packetId, sorted[1].packetId, sorted[2].packetId, sorted[3].packetId] == [3, 0, 1, 2]
  {
    CarryForwardExample();
    ExampleOrderUnique(sorted);
  }

  /** Arrival times that rise from each packet to the next are ordered and distinct. */
  lemma {:induction false} StrictlyIncreasing(t: seq<Packet>)
    requires forall i :: 0 <= i < |t| - 1 ==> t[i].arrival < t[i + 1].arrival
    ensures forall i, j :: 0 <= i < j < |t| ==> t[i].arrival < t[j].arrival
    ensures ArrivalOrdered(t) && DistinctArrivals(t)
  {
    if |t| > 1 {
      var u := t[1..];
      forall i | 0 <= i < |u| - 1 ensures u[i].arrival < u[i + 1].arrival {
        assert u[i] == t[i + 1] && u[i + 1] == t[i + 2];
      }
      StrictlyIncreasing(u);
      forall i, j | 0 <= i < j < |t| ensures t[i].arrival < t[j].arrival {
        if i > 0 {
          assert u[i - 1] == t[i] && u[j - 1] == t[j];
        } else if j > 1 {
          assert u[0] == t[1] && u[j - 1] == t[j];
        }
      }
    }
  }

  lemma ExampleOrderUnique(sorted: seq<Packet>)
    requires IsArrivalSort([Packet(0, 50, 0, 50, 50), Packet(1, 0, 10, 60, 50), Packet(2, 0, 20, 70, 50), Packet(3, 5, 30, 35, 5)], sorted)
    ensures |sorted| == 4 && [sorted[0].packetId, sorted[1].packetId, sorted[2].packetId, sorted[3].packetId] == [3, 0, 1, 2]
  {
    var p0, p1, p2, p3 := Packet(0, 50, 0, 50, 50), Packet(1, 0, 10, 60, 50), Packet(2, 0, 20, 70, 50), Packet(3, 5, 30, 35, 5);
    var t := [p3, p0, p1, p2];
    RotateHead(p3, [p0, p1, p2]);
    assert t == [p3] + [p0, p1, p2] && [p0, p1, p2] + [p3] == [p0, p1, p2, p3];
    StrictlyIncreasing(t);
    ArrivalSortUnique(t, sorted);
  }
}
