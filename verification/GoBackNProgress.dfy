/** Exactly when the protocol can still get an acknowledgement through. The receiver does not acknowledge
    a packet twice, so losing the last acknowledgement of a full window stops the transfer for good. */
module GoBackNProgress {
  import opened GoBackNMachines
  import opened GoBackNProtocol

  /** An undamaged acknowledgement in flight that frees packets. */
  ghost predicate NewsInFlight(s: Net) {
    exists i :: 0 <= i < |s.acks| && !s.acks[i].hasBitError && s.acks[i].seqNoExpected > s.sender.lastAckSeqNo
  }

  ghost predicate CanAdvance(cfg: Config, s: Net) {
    Awaited(s) < s.sender.lastAckSeqNo + cfg.window || NewsInFlight(s)
  }

  /** Neither channel loses or damages anything. */
  ghost predicate LossFree(steps: seq<Step>) {
    forall i :: 0 <= i < |steps| ==>
      steps[i].SendTimer? || steps[i].ExpirationTimer? || steps[i].DeliverData? || steps[i].DeliverAck?
  }

  // ---------- stuck for good ----------

  lemma StuckStep(cfg: Config, s: Net, step: Step)
    requires NetInv(cfg, s) && !CanAdvance(cfg, s) && Enabled(s, step)
    ensures var s' := Next(cfg, s, step); !CanAdvance(cfg, s') && s'.sender.lastAckSeqNo == s.sender.lastAckSeqNo
  {
    var s' := Next(cfg, s, step);
    assert Awaited(s) == s.sender.lastAckSeqNo + cfg.window;
    match step {
      case DeliverData(_) =>
        assert s.data[0].seqNo < Awaited(s);
        assert s'.acks == s.acks;
      case DeliverAck(_) =>
        assert s.acks[0].hasBitError || s.acks[0].seqNoExpected == s.sender.lastAckSeqNo;
        assert forall i :: 0 <= i < |s'.acks| ==> s'.acks[i] == s.acks[i + 1];
      case LoseAck(k) =>
        assert forall i :: 0 <= i < |s'.acks| ==> s'.acks[i] == s.acks[if i < k then i else i + 1];
      case DamageAck(k) =>
        assert forall i :: 0 <= i < |s'.acks| ==> s'.acks[i].hasBitError || s'.acks[i] == s.acks[i];
      case _ =>
    }
  }

  lemma {:induction false} StuckForever(cfg: Config, s: Net, steps: seq<Step>)
    requires NetInv(cfg, s) && !CanAdvance(cfg, s) && Executable(cfg, s, steps)
    ensures Execute(cfg, s, steps).sender.lastAckSeqNo == s.sender.lastAckSeqNo
    decreases |steps|
  {
    hide NetInv, Next, Enabled, CanAdvance;
    if steps != [] {
      StepInv(cfg, s, steps[0]);
      StuckStep(cfg, s, steps[0]);
      StuckForever(cfg, Next(cfg, s, steps[0]), steps[1..]);
    }
  }

  // ---------- a continuation that advances ----------

  lemma {:induction false} Concatenate(cfg: Config, s: Net, first: seq<Step>, second: seq<Step>)
    requires Executable(cfg, s, first) && Executable(cfg, Execute(cfg, s, first), second)
    ensures Executable(cfg, s, first + second)
    ensures Execute(cfg, s, first + second) == Execute(cfg, Execute(cfg, s, first), second)
    decreases |first|
  {
    hide Next, Enabled;
    if first == [] {
      assert first + second == second;
    } else {
      Concatenate(cfg, Next(cfg, s, first[0]), first[1..], second);
      assert (first + second)[1..] == first[1..] + second;
    }
  }

  lemma OneStep(cfg: Config, s: Net, step: Step, rest: seq<Step>)
    requires Enabled(s, step) && Executable(cfg, Next(cfg, s, step), rest)
    ensures Executable(cfg, s, [step] + rest)
    ensures Execute(cfg, s, [step] + rest) == Execute(cfg, Next(cfg, s, step), rest)
  {
    assert ([step] + rest)[1..] == rest;
  }

  /** Deliver every acknowledgement in flight. */
  lemma {:induction false} DrainAcks(cfg: Config, s: Net) returns (steps: seq<Step>, end: Net)
    requires NetInv(cfg, s)
    ensures Executable(cfg, s, steps) && LossFree(steps) && end == Execute(cfg, s, steps) && NetInv(cfg, end)
    ensures end.acks == [] && end.data == s.data && Awaited(end) == Awaited(s)
    ensures end.sender.lastAckSeqNo >= s.sender.lastAckSeqNo
    ensures forall i :: 0 <= i < |s.acks| && !s.acks[i].hasBitError ==> end.sender.lastAckSeqNo >= s.acks[i].seqNoExpected
    decreases |s.acks|
  {
    if s.acks == [] {
      steps, end := [], s;
    } else {
      var s1 := AckDelivered(cfg, s);
      hide NetInv, Next, OnAck;
      steps, end := DrainAcks(cfg, s1);
      OneStep(cfg, s, DeliverAck(s.now), steps);
      steps := [DeliverAck(s.now)] + steps;
      forall i | 0 <= i < |s.acks| && !s.acks[i].hasBitError
        ensures end.sender.lastAckSeqNo >= s.acks[i].seqNoExpected
      {
        assert i > 0 ==> s1.acks[i - 1] == s.acks[i];
      }
    }
  }

  lemma AckDelivered(cfg: Config, s: Net) returns (s1: Net)
    requires NetInv(cfg, s) && s.acks != []
    ensures s1 == Next(cfg, s, DeliverAck(s.now)) && NetInv(cfg, s1)
    ensures s1.acks == s.acks[1..] && s1.data == s.data && s1.receiver == s.receiver
    ensures s1.sender.lastAckSeqNo >= s.sender.lastAckSeqNo
    ensures !s.acks[0].hasBitError ==> s1.sender.lastAckSeqNo == s.acks[0].seqNoExpected
  {
    s1 := Next(cfg, s, DeliverAck(s.now));
    StepInv(cfg, s, DeliverAck(s.now));
  }

  /** Deliver every data packet in flight. The awaited packet, if it is among them, is accepted and its
      acknowledgement is left in flight. */
  lemma {:induction false} DrainData(cfg: Config, s: Net) returns (steps: seq<Step>, end: Net)
    requires NetInv(cfg, s)
    ensures Executable(cfg, s, steps) && LossFree(steps) && end == Execute(cfg, s, steps) && NetInv(cfg, end)
    ensures end.data == [] && end.sender == s.sender && Awaited(end) >= Awaited(s)
    ensures Awaited(end) > Awaited(s) ==> Acknowledged(end, Awaited(end))
    ensures Awaited(end) == Awaited(s) ==> forall i :: 0 <= i < |s.data| ==> s.data[i] != Data(Awaited(s), false)
    ensures s.acks <= end.acks
    decreases |s.data|
  {
    if s.data == [] {
      steps, end := [], s;
    } else {
      var s1 := DataDelivered(cfg, s);
      hide NetInv, Next, OnData;
      steps, end := DrainData(cfg, s1);
      OneStep(cfg, s, DeliverData(s.now), steps);
      steps := [DeliverData(s.now)] + steps;
      if Awaited(end) == Awaited(s) {
        forall i | 0 <= i < |s.data|
          ensures s.data[i] != Data(Awaited(s), false)
        {
          assert i > 0 ==> s1.data[i - 1] == s.data[i];
        }
      }
    }
  }

  ghost predicate Acknowledged(s: Net, n: int) {
    exists i :: 0 <= i < |s.acks| && s.acks[i] == Ack(n, false)
  }

  lemma DataDelivered(cfg: Config, s: Net) returns (s1: Net)
    requires NetInv(cfg, s) && s.data != []
    ensures s1 == Next(cfg, s, DeliverData(s.now)) && NetInv(cfg, s1)
    ensures s1.data == s.data[1..] && s1.sender == s.sender && s.acks <= s1.acks
    ensures Awaited(s1) == if s.data[0] == Data(Awaited(s), false) then Awaited(s) + 1 else Awaited(s)
    ensures Awaited(s1) > Awaited(s) ==> Acknowledged(s1, Awaited(s1))
  {
    s1 := Next(cfg, s, DeliverData(s.now));
    StepInv(cfg, s, DeliverData(s.now));
    if s.data[0] == Data(Awaited(s), false) {
      assert s1.acks[|s1.acks| - 1] == Ack(Awaited(s1), false);
    }
  }

  /** Time out, if need be, so that the next packet sent is not past the awaited one. */
  lemma GoBack(cfg: Config, s: Net) returns (steps: seq<Step>, end: Net)
    requires NetInv(cfg, s)
    ensures Executable(cfg, s, steps) && LossFree(steps) && end == Execute(cfg, s, steps) && NetInv(cfg, end)
    ensures end.sender.nextSendSeqNo <= Awaited(end) && end.receiver == s.receiver
    ensures end.sender.lastAckSeqNo == s.sender.lastAckSeqNo
  {
    steps, end := [], s;
    if s.sender.nextSendSeqNo > Awaited(s) {
      var step := ExpirationTimer(s.now);
      StepInv(cfg, s, step);
      end := Next(cfg, s, step);
      OneStep(cfg, s, step, []);
      steps := [step];
    }
  }

  lemma Sent(cfg: Config, s: Net) returns (s1: Net)
    requires NetInv(cfg, s) && s.sender.nextSendSeqNo < s.sender.lastAckSeqNo + cfg.window
    ensures Enabled(s, SendTimer(s.now)) && s1 == Next(cfg, s, SendTimer(s.now)) && NetInv(cfg, s1)
    ensures s1.data == s.data + [Data(s.sender.nextSendSeqNo, false)] && s1.receiver == s.receiver
    ensures s1.sender.nextSendSeqNo == s.sender.nextSendSeqNo + 1 && s1.sender.lastAckSeqNo == s.sender.lastAckSeqNo
  {
    s1 := Next(cfg, s, SendTimer(s.now));
    StepInv(cfg, s, SendTimer(s.now));
  }

  /** Send from the next number up to the awaited one. */
  lemma {:induction false} SendUpToAwaited(cfg: Config, s: Net) returns (steps: seq<Step>, end: Net)
    requires NetInv(cfg, s) && s.sender.nextSendSeqNo <= Awaited(s) < s.sender.lastAckSeqNo + cfg.window
    ensures Executable(cfg, s, steps) && LossFree(steps) && end == Execute(cfg, s, steps) && NetInv(cfg, end)
    ensures end.receiver == s.receiver && end.sender.lastAckSeqNo == s.sender.lastAckSeqNo && s.data <= end.data
    ensures exists i :: 0 <= i < |end.data| && end.data[i] == Data(Awaited(s), false)
    decreases Awaited(s) - s.sender.nextSendSeqNo
  {
    hide NetInv, Next, FireSend;
    var s1 := Sent(cfg, s);
    if s.sender.nextSendSeqNo == Awaited(s) {
      steps, end := [], s1;
      assert end.data[|s.data|] == Data(Awaited(s), false);
    } else {
      steps, end := SendUpToAwaited(cfg, s1);
    }
    OneStep(cfg, s, SendTimer(s.now), steps);
    steps := [SendTimer(s.now)] + steps;
  }

  /** Deliver what is in flight: acknowledgements, data, and the acknowledgements that the data causes. */
  lemma Flush(cfg: Config, s: Net) returns (steps: seq<Step>, end: Net)
    requires NetInv(cfg, s)
    ensures Executable(cfg, s, steps) && LossFree(steps) && end == Execute(cfg, s, steps) && NetInv(cfg, end)
    ensures Awaited(end) > Awaited(s) ==> end.sender.lastAckSeqNo > Awaited(s)
    ensures Awaited(end) == Awaited(s) ==> forall i :: 0 <= i < |s.data| ==> s.data[i] != Data(Awaited(s), false)
    ensures Awaited(end) >= Awaited(s) && end.sender.lastAckSeqNo >= s.sender.lastAckSeqNo
    ensures forall i :: 0 <= i < |s.acks| && !s.acks[i].hasBitError ==> end.sender.lastAckSeqNo >= s.acks[i].seqNoExpected
  {
    hide NetInv, Next, Enabled;
    var a, s1 := DrainAcks(cfg, s);
    var b, s2 := DrainData(cfg, s1);
    var c, s3 := DrainAcks(cfg, s2);
    Concatenate(cfg, s1, b, c);
    Concatenate(cfg, s, a, b + c);
    steps, end := a + (b + c), s3;
  }

  /** While the awaited number is inside the window, some continuation without loss gets it acknowledged. */
  lemma AwaitedGetsThrough(cfg: Config, s: Net) returns (steps: seq<Step>)
    requires NetInv(cfg, s) && Awaited(s) < s.sender.lastAckSeqNo + cfg.window
    ensures Executable(cfg, s, steps) && LossFree(steps)
    ensures Execute(cfg, s, steps).sender.lastAckSeqNo > Awaited(s)
  {
    hide NetInv, Next, Enabled;
    var a, s1 := Flush(cfg, s);
    steps := a;
    if Awaited(s1) == Awaited(s) {
      var b, s2 := GoBack(cfg, s1);
      var c, s3 := SendUpToAwaited(cfg, s2);
      var d, s4 := Flush(cfg, s3);
      Concatenate(cfg, s2, c, d);
      Concatenate(cfg, s1, b, c + d);
      Concatenate(cfg, s, a, b + (c + d));
      steps := a + (b + (c + d));
    }
  }

  /** The exact condition for progress, in every reachable state. */
  lemma ProgressExactlyWhen(cfg: Config, past: seq<Step>)
    requires cfg.Valid() && Executable(cfg, INITIAL_NET, past)
    ensures var s := Execute(cfg, INITIAL_NET, past);
      CanAdvance(cfg, s) <==>
        exists more :: Executable(cfg, s, more) && LossFree(more)
          && Execute(cfg, s, more).sender.lastAckSeqNo > s.sender.lastAckSeqNo
    ensures var s := Execute(cfg, INITIAL_NET, past);
      !CanAdvance(cfg, s) ==> forall more :: Executable(cfg, s, more) ==>
        Execute(cfg, s, more).sender.lastAckSeqNo == s.sender.lastAckSeqNo
  {
    InitialInv(cfg);
    ExecuteInv(cfg, INITIAL_NET, past);
    var s := Execute(cfg, INITIAL_NET, past);
    if CanAdvance(cfg, s) {
      var more := Advance(cfg, s);
    } else {
      forall more | Executable(cfg, s, more)
        ensures Execute(cfg, s, more).sender.lastAckSeqNo == s.sender.lastAckSeqNo
      {
        StuckForever(cfg, s, more);
      }
    }
  }

  lemma Advance(cfg: Config, s: Net) returns (steps: seq<Step>)
    requires NetInv(cfg, s) && CanAdvance(cfg, s)
    ensures Executable(cfg, s, steps) && LossFree(steps)
    ensures Execute(cfg, s, steps).sender.lastAckSeqNo > s.sender.lastAckSeqNo
  {
    if Awaited(s) < s.sender.lastAckSeqNo + cfg.window {
      steps := AwaitedGetsThrough(cfg, s);
    } else {
      var end;
      steps, end := Flush(cfg, s);
    }
  }

  /** Send, deliver and lose the acknowledgement, `k` times over. */
  lemma {:induction false} LoseTheFirst(cfg: Config, k: nat) returns (steps: seq<Step>)
    requires cfg.Valid() && k <= cfg.window
    ensures Executable(cfg, INITIAL_NET, steps)
    ensures var s := Execute(cfg, INITIAL_NET, steps);
      && NetInv(cfg, s) && s.sender.lastAckSeqNo == 0 && s.sender.nextSendSeqNo == Awaited(s) == k
      && s.data == [] && s.acks == []
  {
    if k == 0 {
      InitialInv(cfg);
      steps := [];
    } else {
      steps := LoseTheFirst(cfg, k - 1);
      var s := Execute(cfg, INITIAL_NET, steps);
      hide NetInv, Next, Enabled;
      var more := LoseOne(cfg, s);
      Concatenate(cfg, INITIAL_NET, steps, more);
      steps := steps + more;
    }
  }

  lemma LoseOne(cfg: Config, s: Net) returns (steps: seq<Step>)
    requires NetInv(cfg, s) && s.sender.lastAckSeqNo == 0 && s.data == [] && s.acks == []
    requires s.sender.nextSendSeqNo == Awaited(s) < cfg.window
    ensures Executable(cfg, s, steps)
    ensures var end := Execute(cfg, s, steps);
      && NetInv(cfg, end) && end.sender.lastAckSeqNo == 0 && end.data == [] && end.acks == []
      && end.sender.nextSendSeqNo == Awaited(end) == Awaited(s) + 1
  {
    hide NetInv;
    var s1 := Sent(cfg, s);
    var s2 := DataDelivered(cfg, s1);
    assert |s2.acks| == 1;
    StepInv(cfg, s2, LoseAck(0));
    var s3 := Next(cfg, s2, LoseAck(0));
    OneStep(cfg, s2, LoseAck(0), []);
    OneStep(cfg, s1, DeliverData(s1.now), [LoseAck(0)]);
    OneStep(cfg, s, SendTimer(s.now), [DeliverData(s1.now), LoseAck(0)]);
    steps := [SendTimer(s.now)] + ([DeliverData(s1.now)] + ([LoseAck(0)] + []));
    assert steps == [SendTimer(s.now)] + [DeliverData(s1.now), LoseAck(0)];
  }

  /** Whatever the window, losing the acknowledgements of one full window is enough to get stuck. */
  lemma StuckIsReachable(cfg: Config) returns (steps: seq<Step>)
    requires cfg.Valid()
    ensures Executable(cfg, INITIAL_NET, steps) && !CanAdvance(cfg, Execute(cfg, INITIAL_NET, steps))
  {
    steps := LoseTheFirst(cfg, cfg.window);
  }
}
