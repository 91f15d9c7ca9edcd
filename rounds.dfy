/**
 * The round extractor of traces/make_trace_file.py (`process_data`): it walks
 * the capture's round trips and appends to six lists, RTT, receive delay,
 * send delay and the downlink, uplink and round loss indicators.  Not every
 * list grows on every round: `receive` only on delivered and downlink-lost
 * rounds, `send` only on delivered and uplink-lost rounds, and the two
 * directional loss lists only on rounds whose tag is one of the three known
 * ones.
 */
module TraceRounds {
  import opened Wrappers

  /** The delay block of a delivered round, in the capture's unit. */
  datatype Delay = Delay(rtt: real, receive: real, send: real)

  /**
   * One entry of `round_trips`: its `lost` tag (`"false"`, `"true_down"`,
   * `"true_up"` or anything else) and its delay block, which lost rounds may lack.
   */
  datatype RoundTrip = RoundTrip(lost: string, delay: Option<Delay>)

  /** The six lists `process_data` returns. */
  datatype Extracted = Extracted(
    rtt: seq<real>, receive: seq<real>, send: seq<real>,
    lossDown: seq<int>, lossUp: seq<int>, lossRound: seq<int>)

  /** Reading `round["delay"]` of a delivered round that has none raises. */
  datatype RoundError = MissingDelay(round: nat)

  const Delivered := "false"
  const LostDown := "true_down"
  const LostUp := "true_up"

  /** The capture's unit divided by 1,000,000, as each delivered delay is. */
  function Scale(x: real): real { x / 1000000.0 }

  /** A round the loop can process without raising. */
  predicate Readable(r: RoundTrip) { r.lost == Delivered ==> r.delay.Some? }

  /** The six lists after the loop body has handled one more round. */
  function Step(e: Extracted, r: RoundTrip): Extracted
    requires Readable(r)
  {
    if r.lost == Delivered then
      var d := r.delay.value;
      e.(rtt := e.rtt + [Scale(d.rtt)], receive := e.receive + [Scale(d.receive)],
         send := e.send + [Scale(d.send)], lossDown := e.lossDown + [0],
         lossUp := e.lossUp + [0], lossRound := e.lossRound + [0])
    else
      var e1 := e.(rtt := e.rtt + [0.0], lossRound := e.lossRound + [1]);
      var e2 := if r.lost == LostDown
        then e1.(lossDown := e1.lossDown + [1], lossUp := e1.lossUp + [0], receive := e1.receive + [0.0])
        else e1;
      if r.lost == LostUp
      then e2.(lossUp := e2.lossUp + [1], lossDown := e2.lossDown + [0], send := e2.send + [0.0])
      else e2
  }

  /** What `process_data` returns for the rounds, or the first round that makes it raise. */
  function Extract(rounds: seq<RoundTrip>): Result<Extracted, RoundError>
  {
    if |rounds| == 0 then Ok(Extracted([], [], [], [], [], []))
    else
      match Extract(rounds[..|rounds| - 1])
      case Err(err) => Err(err)
      case Ok(e) =>
        var r := rounds[|rounds| - 1];
        if Readable(r) then Ok(Step(e, r)) else Err(MissingDelay(|rounds| - 1))
  }

  /** `process_data`: one pass over the rounds, appending to six lists. */
  method ProcessData(rounds: seq<RoundTrip>) returns (result: Result<Extracted, RoundError>)
    ensures result == Extract(rounds)
  {
    var rtt: seq<real>, receive: seq<real>, send: seq<real> := [], [], [];
    var lossDown: seq<int>, lossUp: seq<int>, lossRound: seq<int> := [], [], [];
    var i := 0;
    while i < |rounds|
      invariant 0 <= i <= |rounds|
      invariant Extract(rounds[..i]) == Ok(Extracted(rtt, receive, send, lossDown, lossUp, lossRound))
    {
      var r := rounds[i];
      assert rounds[..i + 1][..i] == rounds[..i];
      if r.lost == Delivered {
        if r.delay.None? {
          ErrorStops(rounds, i + 1);
          return Err(MissingDelay(i));
        }
        var d := r.delay.value;
        rtt := rtt + [Scale(d.rtt)];
        receive := receive + [Scale(d.receive)];
        send := send + [Scale(d.send)];
        lossDown := lossDown + [0];
        lossUp := lossUp + [0];
        lossRound := lossRound + [0];
      } else {
        rtt := rtt + [0.0];
        lossRound := lossRound + [1];
        if r.lost == LostDown {
          lossDown := lossDown + [1];
          lossUp := lossUp + [0];
          receive := receive + [0.0];
        }
        if r.lost == LostUp {
          lossUp := lossUp + [1];
          lossDown := lossDown + [0];
          send := send + [0.0];
        }
      }
      i := i + 1;
    }
    assert rounds[..i] == rounds;
    result := Ok(Extracted(rtt, receive, send, lossDown, lossUp, lossRound));
  }

  // ---------------------------------------------------------------------
  // Properties of the extraction

  /** Once a prefix of the rounds makes the extraction raise, later rounds change nothing. */
  lemma {:induction false} ErrorStops(rounds: seq<RoundTrip>, k: nat)
    requires k <= |rounds| && Extract(rounds[..k]).Err?
    ensures Extract(rounds) == Extract(rounds[..k])
    decreases |rounds| - k
  {
    if k < |rounds| {
      var init := rounds[..|rounds| - 1];
      assert init[..k] == rounds[..k];
      ErrorStops(init, k);
    } else {
      assert rounds[..k] == rounds;
    }
  }

  /** Round `i` is delivered but carries no delay block. */
  predicate Unreadable(rounds: seq<RoundTrip>, i: int)
  {
    0 <= i < |rounds| && !Readable(rounds[i])
  }

  /** The extraction fails exactly when some delivered round lacks its delay block, and names the first. */
  lemma {:induction false} ExtractFails(rounds: seq<RoundTrip>)
    ensures Extract(rounds).Err? <==> exists i :: Unreadable(rounds, i)
    ensures Extract(rounds).Err? ==>
      var k := Extract(rounds).error.round;
      Unreadable(rounds, k) && forall j :: 0 <= j < k ==> !Unreadable(rounds, j)
  {
    if |rounds| > 0 {
      var init := rounds[..|rounds| - 1];
      ExtractFails(init);
      forall j | 0 <= j < |init| ensures Unreadable(init, j) == Unreadable(rounds, j) { }
      if exists i :: Unreadable(rounds, i) {
        var i :| Unreadable(rounds, i);
        if i < |init| {
          assert Unreadable(init, i);
        } else {
          assert !Readable(rounds[|rounds| - 1]);
        }
        assert Extract(rounds).Err?;
      }
      if Extract(rounds).Err? {
        if Extract(init).Err? {
          assert Unreadable(rounds, Extract(init).error.round);
        } else {
          assert Unreadable(rounds, |rounds| - 1);
        }
      }
    }
  }

  /** Number of rounds whose tag is in `tags`. */
  function CountTags(rounds: seq<RoundTrip>, tags: set<string>): nat
  {
    if |rounds| == 0 then 0
    else CountTags(rounds[..|rounds| - 1], tags) + (if rounds[|rounds| - 1].lost in tags then 1 else 0)
  }

  function Sum(s: seq<int>): int
  {
    if |s| == 0 then 0 else Sum(s[..|s| - 1]) + s[|s| - 1]
  }

  lemma SumAppend(s: seq<int>, x: int)
    ensures Sum(s + [x]) == Sum(s) + x
  {
    assert (s + [x])[..|s|] == s;
  }

  /**
   * `rtt` and `loss_round` get one entry per round: a lost round contributes
   * RTT 0 and loss 1, a delivered round its scaled RTT and loss 0.
   */
  lemma {:induction false} RoundListsAligned(rounds: seq<RoundTrip>, e: Extracted)
    requires Extract(rounds) == Ok(e)
    ensures |e.rtt| == |rounds| && |e.lossRound| == |rounds|
    ensures forall i :: 0 <= i < |rounds| ==>
      (e.lossRound[i] == 1 <==> rounds[i].lost != Delivered) &&
      (e.lossRound[i] == 0 <==> rounds[i].lost == Delivered) &&
      (rounds[i].lost == Delivered ==> rounds[i].delay.Some? && e.rtt[i] == Scale(rounds[i].delay.value.rtt)) &&
      (rounds[i].lost != Delivered ==> e.rtt[i] == 0.0)
  {
    if |rounds| > 0 {
      var init := rounds[..|rounds| - 1];
      var e0 :| Extract(init) == Ok(e0);
      RoundListsAligned(init, e0);
      var r := rounds[|rounds| - 1];
      StepAligned(e0, r);
      assert e == Step(e0, r);
      forall i | 0 <= i < |init| ensures rounds[i] == init[i] && e.rtt[i] == e0.rtt[i] && e.lossRound[i] == e0.lossRound[i] {
      }
    }
  }

  /** One round appends exactly one entry to `rtt` and to `loss_round`. */
  lemma StepAligned(e: Extracted, r: RoundTrip)
    requires Readable(r)
    ensures Step(e, r).rtt == e.rtt + [if r.lost == Delivered then Scale(r.delay.value.rtt) else 0.0]
    ensures Step(e, r).lossRound == e.lossRound + [if r.lost == Delivered then 0 else 1]
  {
  }

  /** The tags on which `receive`, `send` and the two directional loss lists grow. */
  const DownTags: set<string> := {Delivered, LostDown}
  const UpTags: set<string> := {Delivered, LostUp}
  const KnownTags: set<string> := {Delivered, LostDown, LostUp}

  /** The entry a round adds to `receive`: its scaled receive delay when delivered, 0 when lost downlink. */
  function ReceiveEntry(r: RoundTrip): real
  {
    if r.lost == Delivered && r.delay.Some? then Scale(r.delay.value.receive) else 0.0
  }

  /** The entry a round adds to `send`: its scaled send delay when delivered, 0 when lost uplink. */
  function SendEntry(r: RoundTrip): real
  {
    if r.lost == Delivered && r.delay.Some? then Scale(r.delay.value.send) else 0.0
  }

  /** The entry a round with a known tag adds to `loss_down`. */
  function LossDownEntry(r: RoundTrip): int
  {
    if r.lost == LostDown then 1 else 0
  }

  /** The entry a round with a known tag adds to `loss_up`. */
  function LossUpEntry(r: RoundTrip): int
  {
    if r.lost == LostUp then 1 else 0
  }

  lemma {:induction false} PositionBound(rounds: seq<RoundTrip>, i: nat, tags: set<string>)
    requires i < |rounds|
    ensures CountTags(rounds[..i], tags) + (if rounds[i].lost in tags then 1 else 0) <= CountTags(rounds, tags)
  {
    var n := |rounds| - 1;
    var init := rounds[..n];
    if i < n {
      PositionBound(init, i, tags);
      assert init[..i] == rounds[..i] && init[i] == rounds[i];
    } else {
      assert rounds[..i] == init;
    }
  }

  /** Where round `i`'s entry sits in a list that grows on the rounds tagged `tags`. */
  function Position(rounds: seq<RoundTrip>, i: nat, tags: set<string>): (p: nat)
    requires i < |rounds|
    ensures rounds[i].lost in tags ==> p < CountTags(rounds, tags)
  {
    PositionBound(rounds, i, tags);
    CountTags(rounds[..i], tags)
  }

  /**
   * `list` holds one entry per round tagged `tags`, in round order, and
   * the entry of round `i` is `entry(rounds[i])`.
   */
  ghost predicate Tracks<T>(rounds: seq<RoundTrip>, list: seq<T>, tags: set<string>, entry: RoundTrip -> T)
  {
    |list| == CountTags(rounds, tags) &&
    forall i :: 0 <= i < |rounds| && rounds[i].lost in tags ==> list[Position(rounds, i, tags)] == entry(rounds[i])
  }

  /** A round tagged `tags` appends its entry; any other round leaves the list alone. */
  lemma TracksSnoc<T>(init: seq<RoundTrip>, r: RoundTrip, list: seq<T>, tags: set<string>, entry: RoundTrip -> T)
    requires Tracks(init, list, tags, entry)
    ensures Tracks(init + [r], list + (if r.lost in tags then [entry(r)] else []), tags, entry)
  {
    var rounds, longer := init + [r], list + (if r.lost in tags then [entry(r)] else []);
    assert rounds[..|init|] == init;
    forall i | 0 <= i < |rounds| && rounds[i].lost in tags
      ensures longer[Position(rounds, i, tags)] == entry(rounds[i])
    {
      if i < |init| {
        assert rounds[..i] == init[..i] && rounds[i] == init[i];
        assert Position(rounds, i, tags) == Position(init, i, tags);
      }
    }
  }

  /** How one round extends the four directional lists. */
  lemma StepDirectional(e: Extracted, r: RoundTrip)
    requires Readable(r)
    ensures Step(e, r).receive == e.receive + (if r.lost in DownTags then [ReceiveEntry(r)] else [])
    ensures Step(e, r).send == e.send + (if r.lost in UpTags then [SendEntry(r)] else [])
    ensures Step(e, r).lossDown == e.lossDown + (if r.lost in KnownTags then [LossDownEntry(r)] else [])
    ensures Step(e, r).lossUp == e.lossUp + (if r.lost in KnownTags then [LossUpEntry(r)] else [])
  {
  }

  /**
   * `receive` holds, in round order, one entry per delivered or
   * downlink-lost round: the scaled receive delay, or 0.  `send` likewise
   * for delivered and uplink-lost rounds.  `loss_down` and `loss_up` hold
   * one entry per round with a known tag, 1 exactly on the rounds lost in
   * their direction.
   */
  lemma {:induction false} DirectionalLists(rounds: seq<RoundTrip>, e: Extracted)
    requires Extract(rounds) == Ok(e)
    ensures Tracks(rounds, e.receive, DownTags, ReceiveEntry)
    ensures Tracks(rounds, e.send, UpTags, SendEntry)
    ensures Tracks(rounds, e.lossDown, KnownTags, LossDownEntry)
    ensures Tracks(rounds, e.lossUp, KnownTags, LossUpEntry)
  {
    if |rounds| > 0 {
      var init, r := rounds[..|rounds| - 1], rounds[|rounds| - 1];
      var e0 :| Extract(init) == Ok(e0);
      DirectionalLists(init, e0);
      assert rounds == init + [r];
      StepDirectional(e0, r);
      TracksSnoc(init, r, e0.receive, DownTags, ReceiveEntry);
      TracksSnoc(init, r, e0.send, UpTags, SendEntry);
      TracksSnoc(init, r, e0.lossDown, KnownTags, LossDownEntry);
      TracksSnoc(init, r, e0.lossUp, KnownTags, LossUpEntry);
    } else {
      assert rounds[..0] == [];
    }
  }

  /** `loss_down` and `loss_up` sum to the number of rounds lost in their direction. */
  lemma {:induction false} LossCounts(rounds: seq<RoundTrip>, e: Extracted)
    requires Extract(rounds) == Ok(e)
    ensures Sum(e.lossDown) == CountTags(rounds, {LostDown})
    ensures Sum(e.lossUp) == CountTags(rounds, {LostUp})
  {
    if |rounds| > 0 {
      var init := rounds[..|rounds| - 1];
      var e0 :| Extract(init) == Ok(e0);
      LossCounts(init, e0);
      SumAppend(e0.lossDown, 0);
      SumAppend(e0.lossDown, 1);
      SumAppend(e0.lossUp, 0);
      SumAppend(e0.lossUp, 1);
    } else {
      assert rounds[..0] == [];
    }
  }

  /**
   * A round with an unknown tag appends to `rtt` and `loss_round` only:
   * the other four lists are as they were.
   */
  lemma UnknownTagRound(rounds: seq<RoundTrip>, r: RoundTrip, e: Extracted)
    requires Extract(rounds) == Ok(e)
    requires r.lost !in {Delivered, LostDown, LostUp}
    ensures Extract(rounds + [r]) == Ok(e.(rtt := e.rtt + [0.0], lossRound := e.lossRound + [1]))
  {
    assert (rounds + [r])[..|rounds|] == rounds;
  }

  /**
   * One delivered round with an RTT of 1,000,000 followed by one
   * downlink-lost round: the RTT and round loss lists are aligned, the send
   * list is one entry short.
   */
  lemma DeliveredThenLostDown(d: Delay)
    requires d.rtt == 1000000.0
    ensures Extract([RoundTrip(Delivered, Some(d)), RoundTrip(LostDown, None)])
      == Ok(Extracted([1.0, 0.0], [Scale(d.receive), 0.0], [Scale(d.send)], [0, 1], [0, 0], [0, 1]))
  {
    var rounds := [RoundTrip(Delivered, Some(d)), RoundTrip(LostDown, None)];
    assert rounds[..1][..0] == [];
    assert rounds[..1] == [RoundTrip(Delivered, Some(d))];
    var empty := Extracted([], [], [], [], [], []);
    assert Extract(rounds[..1][..0]) == Ok(empty);
    assert Scale(d.rtt) == 1.0;
    var e1 := Extracted([1.0], [Scale(d.receive)], [Scale(d.send)], [0], [0], [0]);
    assert Step(empty, rounds[0]) == e1;
    assert Extract(rounds[..1]) == Ok(e1);
    assert LostDown != Delivered && LostDown != LostUp;
    assert Step(e1, rounds[1]) == Extracted([1.0, 0.0], [Scale(d.receive), 0.0], [Scale(d.send)], [0, 1], [0, 0], [0, 1]);
  }
}
