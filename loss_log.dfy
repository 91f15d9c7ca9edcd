/**
 * The loss-trace normalizer of traces/make_trace_file.py (`transform_log`):
 * it reads the loss log line by line, keeps the second field of every line
 * that splits on ',' into exactly two fields, and drops the first such field
 * that is `1`.  Lines are modelled without their terminators; the `strip()`
 * the source applies to each line is modelled.
 */
module TraceLossLog {
  import opened Text
  import TraceArrivals

  /** The second field of a line that has exactly two comma-separated fields. */
  function SecondField(line: string): (r: seq<string>)
    ensures |r| <= 1
  {
    var parts := Split(Strip(line), ',');
    if |parts| == 2 then [parts[1]] else []
  }

  /** The fields `f` takes from each line, in order. */
  function Gather(lines: seq<string>, f: string -> seq<string>): seq<string>
  {
    if |lines| == 0 then [] else Gather(lines[..|lines| - 1], f) + f(lines[|lines| - 1])
  }

  /** The second fields of all two-field lines, in order; other lines contribute nothing. */
  function SecondFields(lines: seq<string>): seq<string>
  {
    Gather(lines, SecondField)
  }

  lemma SecondFieldsSnoc(lines: seq<string>, i: nat)
    requires i < |lines|
    ensures SecondFields(lines[..i + 1]) == SecondFields(lines[..i]) + SecondField(lines[i])
  {
    assert lines[..i + 1][..i] == lines[..i];
  }

  /** `s` without the first occurrence of `x`; `s` itself when `x` does not occur. */
  function RemoveFirst(s: seq<string>, x: string): seq<string>
  {
    if |s| == 0 then []
    else if s[0] == x then s[1..]
    else [s[0]] + RemoveFirst(s[1..], x)
  }

  /** Removing the first `x` shortens `s` by one when `x` occurs and leaves it as it is otherwise. */
  lemma {:induction false} RemoveFirstLength(s: seq<string>, x: string)
    ensures x in s ==> |RemoveFirst(s, x)| == |s| - 1
    ensures x !in s ==> RemoveFirst(s, x) == s
  {
    if |s| > 0 && s[0] != x {
      RemoveFirstLength(s[1..], x);
      assert x in s <==> x in s[1..] by {
        assert s == [s[0]] + s[1..];
      }
      if x !in s {
        assert s == [s[0]] + s[1..];
      }
    }
  }

  /** Removing the first `x` deletes exactly one position: the first where `x` occurs. */
  lemma {:induction false} RemoveFirstAt(s: seq<string>, x: string, j: nat)
    requires j < |s| && s[j] == x && x !in s[..j]
    ensures RemoveFirst(s, x) == s[..j] + s[j + 1..]
  {
    if j > 0 {
      assert s[0] in s[..j];
      assert s[1..][..j - 1] == s[..j][1..];
      RemoveFirstAt(s[1..], x, j - 1);
      assert s[..j] == [s[0]] + s[1..][..j - 1];
    }
  }

  lemma {:induction false} RemoveFirstSnoc(s: seq<string>, x: string, y: string)
    ensures RemoveFirst(s + [y], x) ==
      if x in s then RemoveFirst(s, x) + [y] else if y == x then s else s + [y]
  {
    if |s| > 0 {
      assert (s + [y])[1..] == s[1..] + [y];
      RemoveFirstSnoc(s[1..], x, y);
      if s[0] != x {
        assert x in s <==> x in s[1..] by {
          assert s == [s[0]] + s[1..];
        }
      }
    } else {
      assert s + [y] == [y];
    }
  }

  /** `transform_log`: copy the second fields, skipping the first `1`. */
  method TransformLog(lines: seq<string>) returns (output: seq<string>)
    ensures output == RemoveFirst(SecondFields(lines), "1")
  {
    output := [];
    var skippedFirstLost := false;
    ghost var seen: seq<string> := [];
    var i := 0;
    assert lines[..0] == [];
    while i < |lines|
      invariant i <= |lines| && seen == SecondFields(lines[..i])
      invariant skippedFirstLost <==> "1" in seen
      invariant output == RemoveFirst(seen, "1")
    {
      var parts := Split(Strip(lines[i]), ',');
      SecondFieldsSnoc(lines, i);
      RemoveFirstLength(seen, "1");
      if |parts| == 2 {
        RemoveFirstSnoc(seen, "1", parts[1]);
        if parts[1] == "1" && !skippedFirstLost {
          skippedFirstLost := true;
        } else {
          output := output + [parts[1]];
        }
        seen := seen + [parts[1]];
      } else {
        assert SecondFields(lines[..i + 1]) == seen;
      }
      i := i + 1;
    }
    assert lines[..i] == lines;
  }

  // ---------------------------------------------------------------------
  // The loss log that process_loss_trace writes, after transform_log

  /** The `lost` column of the ordered frame, as written. */
  function Flags(sorted: seq<TraceArrivals.Packet>): (r: seq<string>)
    ensures |r| == |sorted|
  {
    seq(|sorted|, k requires 0 <= k < |sorted| => TraceArrivals.LostFlag(sorted[k]))
  }

  /** A `packet_id,lost` data line yields its flag. */
  lemma LossLineField(p: TraceArrivals.Packet)
    ensures SecondField(TraceArrivals.LossLine(p)) == [TraceArrivals.LostFlag(p)]
  {
    var a, f := IntToString(p.packetId), TraceArrivals.LostFlag(p);
    IntToStringNoComma(p.packetId);
    var line := a + "," + f;
    StripNoSpace(line);
    JoinTwo(a, f, ',');
    SplitJoin([a, f], ',');
  }

  /** The header line `packet_id,lost` yields `lost`. */
  lemma HeaderField()
    ensures SecondField("packet_id,lost") == ["lost"]
  {
    StripNoSpace("packet_id,lost");
    JoinTwo("packet_id", "lost", ',');
    assert "packet_id" + [','] + "lost" == "packet_id,lost";
    SplitJoin(["packet_id", "lost"], ',');
  }

  lemma FlagsSnoc(sorted: seq<TraceArrivals.Packet>)
    requires |sorted| > 0
    ensures Flags(sorted) == Flags(sorted[..|sorted| - 1]) + [TraceArrivals.LostFlag(sorted[|sorted| - 1])]
  {
  }

  lemma {:induction false} GatherAppend(a: seq<string>, b: seq<string>, f: string -> seq<string>)
    ensures Gather(a + b, f) == Gather(a, f) + Gather(b, f)
  {
    if |b| == 0 {
      assert a + b == a;
    } else {
      var n, ab := |b| - 1, a + b;
      GatherAppend(a, b[..n], f);
      assert ab[..|ab| - 1] == a + b[..n] && ab[|ab| - 1] == b[n];
      calc {
        Gather(ab, f);
        Gather(a + b[..n], f) + f(b[n]);
        Gather(a, f) + Gather(b[..n], f) + f(b[n]);
        Gather(a, f) + (Gather(b[..n], f) + f(b[n]));
      }
    }
  }

  /** Lines from which `f` takes exactly one field each give those fields in order. */
  lemma {:induction false} GatherEach(lines: seq<string>, fields: seq<string>, f: string -> seq<string>)
    requires |lines| == |fields| && forall k :: 0 <= k < |lines| ==> f(lines[k]) == [fields[k]]
    ensures Gather(lines, f) == fields
  {
    if |lines| > 0 {
      var n := |lines| - 1;
      GatherEach(lines[..n], fields[..n], f);
      assert fields == fields[..n] + [fields[n]];
    }
  }

  /** The second fields of the loss log are the header's `lost`, then the packets' flags in order. */
  lemma LossLogFields(sorted: seq<TraceArrivals.Packet>)
    ensures SecondFields(TraceArrivals.LossLog(sorted)) == ["lost"] + Flags(sorted)
  {
    var log := TraceArrivals.LossLog(sorted);
    var header, body := ["packet_id,lost"], log[1..];
    assert log == header + body;
    GatherAppend(header, body, SecondField);
    HeaderField();
    assert SecondFields(header) == SecondField("packet_id,lost") by {
      assert header[..0] == [];
    }
    forall k | 0 <= k < |body|
      ensures SecondField(body[k]) == [Flags(sorted)[k]]
    {
      LossLineField(sorted[k]);
    }
    GatherEach(body, Flags(sorted), SecondField);
  }

  lemma {:induction false} FlagsHoldOne(sorted: seq<TraceArrivals.Packet>)
    ensures "1" in Flags(sorted) <==> TraceArrivals.Count(sorted, TraceArrivals.HasZeroDelay) > 0
  {
    if |sorted| > 0 {
      var n := |sorted| - 1;
      FlagsHoldOne(sorted[..n]);
      FlagsSnoc(sorted);
    }
  }

  /**
   * The final loss trace of one direction: the header's `lost`, then the
   * ordered flags with the first `1` removed.
   */
  lemma FinalLossTrace(sorted: seq<TraceArrivals.Packet>)
    ensures RemoveFirst(SecondFields(TraceArrivals.LossLog(sorted)), "1") == ["lost"] + RemoveFirst(Flags(sorted), "1")
  {
    LossLogFields(sorted);
    var flags := Flags(sorted);
    assert (["lost"] + flags)[0] == "lost" != "1";
    assert (["lost"] + flags)[1..] == flags;
  }

  /** The flags part of the final loss trace is one line shorter than the input exactly when some delay was 0. */
  lemma FinalLossTraceLength(rows: seq<TraceArrivals.TraceRow>, interval: nat, sorted: seq<TraceArrivals.Packet>)
    requires TraceArrivals.IsArrivalSort(TraceArrivals.Packets(rows, interval), sorted)
    ensures |RemoveFirst(Flags(sorted), "1")| ==
      |rows| - (if TraceArrivals.Count(rows, TraceArrivals.ZeroDelayRow) > 0 then 1 else 0)
  {
    RemoveFirstLength(Flags(sorted), "1");
    TraceArrivals.OrderedTraceContents(rows, interval, sorted);
    FlagsHoldOne(sorted);
  }

  /** The first `1` goes wherever it stands: 1,0,1,0 becomes 0,1,0 and 0,1,0,1 becomes 0,0,1. */
  lemma FirstLossDropped()
    ensures RemoveFirst(["1", "0", "1", "0"], "1") == ["0", "1", "0"]
    ensures RemoveFirst(["0", "1", "0", "1"], "1") == ["0", "0", "1"]
  {
    assert ["0", "1", "0", "1"][1..] == ["1", "0", "1"];
    assert ["1", "0", "1"][1..] == ["0", "1"];
  }
}
