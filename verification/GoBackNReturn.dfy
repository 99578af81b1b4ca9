/** Going back: what a reject, an expiry and an acknowledgement do to the sender, and that a lost packet is sent again
    because of them. */
module GoBackNReturn {
  import opened GoBackNMachines
  import opened GoBackNProtocol
  import opened GoBackNProgress
  import opened GoBackNTimers

  /** A transmission is pending, at its old time or, if there was none, at once. */
  predicate Awake(before: SenderState, after: SenderState, at: real) {
    after.sendTimer == after.nextSendTime == if before.sendTimer.At? then before.sendTimer else At(at)
  }

  // ---------- one event ----------

  /** A reject makes the oldest unacknowledged packet the next one to be sent, and touches nothing else. */
  lemma RejectGoesBack(cfg: Config, steps: seq<Step>, at: real)
    requires cfg.Valid() && Executable(cfg, INITIAL_NET, steps)
    requires var s := Execute(cfg, INITIAL_NET, steps);
      s.acks != [] && s.acks[0] == Ack(s.sender.lastAckSeqNo, false)
    ensures var s := Execute(cfg, INITIAL_NET, steps); var s' := Next(cfg, s, DeliverAck(at));
      var (a, b) := (s.sender, s'.sender);
      && b.nextSendSeqNo == b.lastAckSeqNo == a.lastAckSeqNo && Awake(a, b, at)
      && b.buffer == a.buffer && b.timerExpiration == a.timerExpiration && b.expirationTimer == a.expirationTimer
      && b.sentBytes == a.sentBytes && b.ackBytes == a.ackBytes
      && s'.data == s.data && s'.receiver == s.receiver && s'.acks == s.acks[1..]
  {
    InitialInv(cfg);
    ExecuteInv(cfg, INITIAL_NET, steps);
  }

  /** So does an expiry, which also forgets all timeouts. */
  lemma ExpiryGoesBack(cfg: Config, steps: seq<Step>, at: real)
    requires cfg.Valid() && Executable(cfg, INITIAL_NET, steps)
    requires Execute(cfg, INITIAL_NET, steps).sender.expirationTimer.At?
    ensures var s := Execute(cfg, INITIAL_NET, steps); var s' := Next(cfg, s, ExpirationTimer(at));
      var (a, b) := (s.sender, s'.sender);
      && b.nextSendSeqNo == b.lastAckSeqNo == a.lastAckSeqNo && Awake(a, b, at)
      && b.buffer.Keys == a.buffer.Keys && (forall k :: k in b.buffer ==> b.buffer[k] == Never)
      && b.timerExpiration == b.expirationTimer == Never
      && b.sentBytes == a.sentBytes && b.ackBytes == a.ackBytes
      && s'.data == s.data && s'.receiver == s.receiver && s'.acks == s.acks
  {
    InitialInv(cfg);
    ExecuteInv(cfg, INITIAL_NET, steps);
  }

  /** An acknowledgement of something new moves the window, never the next transmission back. Even a reject does no
      more than that, if the acknowledgements before it were lost. */
  lemma AckMovesOn(cfg: Config, steps: seq<Step>, at: real)
    requires cfg.Valid() && Executable(cfg, INITIAL_NET, steps)
    requires var s := Execute(cfg, INITIAL_NET, steps);
      s.acks != [] && !s.acks[0].hasBitError && s.acks[0].seqNoExpected != s.sender.lastAckSeqNo
    ensures var s := Execute(cfg, INITIAL_NET, steps); var (a, b) := (s.sender, Next(cfg, s, DeliverAck(at)).sender);
      var x := s.acks[0].seqNoExpected;
      && b.lastAckSeqNo == x > a.lastAckSeqNo && Awake(a, b, at)
      && b.nextSendSeqNo == (if a.nextSendSeqNo > x then a.nextSendSeqNo else x)
      && (forall k :: k in b.buffer <==> k in a.buffer && k >= x)
      && (forall k :: k in b.buffer ==> b.buffer[k] == a.buffer[k])
      && b.ackBytes == a.ackBytes + cfg.PacketBytes() * (x - a.lastAckSeqNo)
      && (a.nextSendSeqNo > x ==> x in a.buffer && b.timerExpiration == b.expirationTimer == a.buffer[x])
      && (a.nextSendSeqNo <= x ==> b.timerExpiration == b.expirationTimer == Never)
  {
    InitialInv(cfg);
    ExecuteInv(cfg, INITIAL_NET, steps);
  }

  /** A transmission sends the next number, gives it a timeout, keeps the earlier of the two expirations, and plans the
      next transmission one interval later if the window has room for it. */
  lemma SendsTheNext(cfg: Config, steps: seq<Step>, at: real)
    requires cfg.Valid() && Executable(cfg, INITIAL_NET, steps) && Execute(cfg, INITIAL_NET, steps).sender.sendTimer.At?
    ensures var s := Execute(cfg, INITIAL_NET, steps); var s' := Next(cfg, s, SendTimer(at));
      var (a, b) := (s.sender, s'.sender);
      var due := at + cfg.timeout;
      && s'.data == s.data + [Data(a.nextSendSeqNo, false)] && s'.acks == s.acks && s'.receiver == s.receiver
      && b.nextSendSeqNo == a.nextSendSeqNo + 1 && b.lastAckSeqNo == a.lastAckSeqNo && b.ackBytes == a.ackBytes
      && b.buffer == a.buffer[a.nextSendSeqNo := At(due)] && b.sentBytes == a.sentBytes + cfg.PacketBytes()
      && b.expirationTimer == b.timerExpiration
      && b.expirationTimer == (if a.expirationTimer.At? && a.expirationTimer.t <= due then a.expirationTimer else At(due))
      && b.sendTimer == b.nextSendTime
      && b.sendTimer == (if b.nextSendSeqNo < b.lastAckSeqNo + cfg.window then At(at + cfg.interval) else Never)
  {
    InitialInv(cfg);
    ExecuteInv(cfg, INITIAL_NET, steps);
  }

  /** What the receiver answers, and when it is silent: never for anything older than the awaited packet. */
  lemma AnswersOnlyTwo(cfg: Config, steps: seq<Step>, at: real)
    requires cfg.Valid() && Executable(cfg, INITIAL_NET, steps) && Execute(cfg, INITIAL_NET, steps).data != []
    ensures var s := Execute(cfg, INITIAL_NET, steps); var s' := Next(cfg, s, DeliverData(at)); var d := s.data[0];
      && (s'.acks == s.acks <==>
            d.hasBitError || (d.seqNo != Awaited(s) && !(cfg.sendNack && d.seqNo == Awaited(s) + 1)))
      && (s'.acks != s.acks ==> s'.acks == s.acks + [Ack(Awaited(s'), false)])
      && (Awaited(s') == Awaited(s) + 1 <==> !d.hasBitError && d.seqNo == Awaited(s))
      && (Awaited(s') != Awaited(s) + 1 ==> s'.receiver.accepted == s.receiver.accepted && Awaited(s') == Awaited(s))
  {
    hide Executable, Execute;
    var s := Execute(cfg, INITIAL_NET, steps);
    assert |Next(cfg, s, DeliverData(at)).acks| <= |s.acks| ==> Next(cfg, s, DeliverData(at)).acks == s.acks;
    assert s.acks + [] == s.acks;
  }

  // ---------- a lost packet ----------

  ghost predicate NoExpiry(steps: seq<Step>) {
    forall i :: 0 <= i < |steps| ==> !steps[i].ExpirationTimer?
  }

  /** The first `k` acknowledgements in flight arrive. */
  lemma {:induction false} DeliverAcks(cfg: Config, s: Net, k: nat) returns (steps: seq<Step>, end: Net)
    requires NetInv(cfg, s) && k <= |s.acks|
    ensures Executable(cfg, s, steps) && NoExpiry(steps) && LossFree(steps)
    ensures end == Execute(cfg, s, steps) && NetInv(cfg, end)
    ensures end.acks == s.acks[k..] && end.data == s.data
    ensures end.receiver == s.receiver && end.transmissions == s.transmissions
    ensures end.sender.lastAckSeqNo >= s.sender.lastAckSeqNo
    ensures forall i :: 0 <= i < k && !s.acks[i].hasBitError ==> end.sender.lastAckSeqNo >= s.acks[i].seqNoExpected
    decreases k
  {
    if k == 0 {
      steps, end := [], s;
    } else {
      var s1 := AckDelivered(cfg, s);
      assert s1.transmissions == s.transmissions;
      hide NetInv, Next, OnAck;
      steps, end := DeliverAcks(cfg, s1, k - 1);
      OneStep(cfg, s, DeliverAck(s.now), steps);
      steps := [DeliverAck(s.now)] + steps;
      assert s.acks[1..][k - 1..] == s.acks[k..];
      forall i | 0 <= i < k && !s.acks[i].hasBitError
        ensures end.sender.lastAckSeqNo >= s.acks[i].seqNoExpected
      {
        assert i > 0 ==> s1.acks[i - 1] == s.acks[i];
      }
    }
  }

  /** The sender knows, or will know from an acknowledgement in flight, what the receiver waits for. */
  ghost predicate CaughtUp(s: Net) {
    s.sender.lastAckSeqNo == Awaited(s) || exists i :: 0 <= i < |s.acks| && s.acks[i] == Ack(Awaited(s), false)
  }

  lemma SuccessorIsRejected(cfg: Config, s: Net) returns (s1: Net)
    requires NetInv(cfg, s) && cfg.sendNack && s.data != [] && s.data[0] == Data(Awaited(s) + 1, false)
    ensures Enabled(s, DeliverData(s.now)) && s1 == Next(cfg, s, DeliverData(s.now)) && NetInv(cfg, s1)
    ensures s1 == s.(data := s.data[1..], receiver := s1.receiver, acks := s.acks + [Ack(Awaited(s), false)],
                     arrivals := s1.arrivals)
    ensures Awaited(s1) == Awaited(s)
  {
    StepInv(cfg, s, DeliverData(s.now));
    s1 := Next(cfg, s, DeliverData(s.now));
  }

  lemma RejectedIsSent(cfg: Config, s: Net) returns (steps: seq<Step>, end: Net)
    requires NetInv(cfg, s) && s.acks == [Ack(s.sender.lastAckSeqNo, false)]
    ensures Executable(cfg, s, steps) && NoExpiry(steps) && LossFree(steps) && end == Execute(cfg, s, steps)
    ensures end.data == s.data + [Data(s.sender.lastAckSeqNo, false)] && end.receiver == s.receiver
    ensures end.transmissions == s.transmissions + 1
  {
    var s1 := AckDelivered(cfg, s);
    assert s1.sender.nextSendSeqNo == s1.sender.lastAckSeqNo && s1.transmissions == s.transmissions;
    var s2 := Sent(cfg, s1);
    OneStep(cfg, s1, SendTimer(s1.now), []);
    OneStep(cfg, s, DeliverAck(s.now), [SendTimer(s1.now)]);
    steps, end := [DeliverAck(s.now)] + [SendTimer(s1.now)], s2;
  }

  /** When the successor of a lost packet arrives, the lost one can be sent again without waiting for its timeout: the
      reject alone brings it about, and it is the very next transmission. */
  lemma LossIsRejected(cfg: Config, past: seq<Step>) returns (steps: seq<Step>)
    requires cfg.Valid() && cfg.sendNack && Executable(cfg, INITIAL_NET, past)
    requires var s := Execute(cfg, INITIAL_NET, past);
      s.data != [] && s.data[0] == Data(Awaited(s) + 1, false) && CaughtUp(s)
    ensures var s := Execute(cfg, INITIAL_NET, past);
      && Executable(cfg, s, steps) && NoExpiry(steps) && LossFree(steps)
      && var end := Execute(cfg, s, steps);
         && end.data == s.data[1..] + [Data(Awaited(s), false)] && end.transmissions == s.transmissions + 1
         && Awaited(end) == Awaited(s)
  {
    InitialInv(cfg);
    ExecuteInv(cfg, INITIAL_NET, past);
    hide NetInv, Next, Execute, Executable, Enabled, OnAck, LossFree, NoExpiry;
    var s := Execute(cfg, INITIAL_NET, past);
    var s1 := SuccessorIsRejected(cfg, s);
    var k := |s.acks|;
    var a, s2 := DeliverAcks(cfg, s1, k);
    Caught(cfg, s, s1, s2);
    assert s1.acks[k..] == [Ack(Awaited(s), false)];
    var b, s3 := RejectedIsSent(cfg, s2);
    Concatenate(cfg, s1, a, b);
    OneStep(cfg, s, DeliverData(s.now), a + b);
    steps := [DeliverData(s.now)] + (a + b);
    Unexpired(a, b, DeliverData(s.now));
  }

  lemma Unexpired(a: seq<Step>, b: seq<Step>, step: Step)
    requires NoExpiry(a) && NoExpiry(b) && LossFree(a) && LossFree(b) && step.DeliverData?
    ensures NoExpiry([step] + (a + b)) && LossFree([step] + (a + b))
  {
  }

  lemma Caught(cfg: Config, s: Net, s1: Net, s2: Net)
    requires CaughtUp(s) && NetInv(cfg, s2) && s1.acks == s.acks + [Ack(Awaited(s), false)] && s1.sender == s.sender
    requires s2.receiver == s1.receiver && Awaited(s1) == Awaited(s)
    requires s2.sender.lastAckSeqNo >= s.sender.lastAckSeqNo
    requires forall i :: 0 <= i < |s.acks| && !s1.acks[i].hasBitError ==> s2.sender.lastAckSeqNo >= s1.acks[i].seqNoExpected
    ensures s2.sender.lastAckSeqNo == Awaited(s)
  {
    if s.sender.lastAckSeqNo != Awaited(s) {
      var i :| 0 <= i < |s.acks| && s.acks[i] == Ack(Awaited(s), false);
      assert s1.acks[i] == s.acks[i];
    }
  }

  // ---------- under the clock ----------

  /** The first packet is lost, the second one rejected, and the first one sent again. */
  function LossAndReject(cfg: Config): (seq<Step>, seq<Step>) {
    var t := cfg.interval;
    ([SendTimer(0.0), SendTimer(t), LoseData(0), DeliverData(t), DeliverAck(t)],
     [SendTimer(if cfg.window > 2 then t + t else t)])
  }

  lemma TwoSent(cfg: Config) returns (s: Net)
    requires Sane(cfg) && cfg.window >= 2 && cfg.timeout >= cfg.interval + cfg.interval
    ensures var steps := [SendTimer(0.0)] + [SendTimer(cfg.interval)];
      && TimelyRun(cfg, INITIAL_NET, steps) && Executable(cfg, INITIAL_NET, steps)
      && s == Execute(cfg, INITIAL_NET, steps)
    ensures s.data == [Data(0, false), Data(1, false)] && s.acks == [] && s.now == cfg.interval
    ensures s.sender.lastAckSeqNo == 0 == Awaited(s) && s.sender.expirationTimer == At(cfg.timeout) && s.transmissions == 2
    ensures s.sender.sendTimer == s.sender.nextSendTime == if cfg.window > 2 then At(cfg.interval + cfg.interval) else Never
  {
    hide TimelyRun, Executable, Execute;
    var s1 := Next(cfg, INITIAL_NET, SendTimer(0.0));
    s := Next(cfg, s1, SendTimer(cfg.interval));
    TimelyNone(cfg, s);
    TimelyFirst(cfg, s1, SendTimer(cfg.interval), []);
    assert [SendTimer(cfg.interval)] + [] == [SendTimer(cfg.interval)];
    TimelyFirst(cfg, INITIAL_NET, SendTimer(0.0), [SendTimer(cfg.interval)]);
  }

  lemma FirstIsLost(cfg: Config, s: Net) returns (end: Net)
    requires cfg.Valid() && cfg.sendNack && s.now == cfg.interval
    requires s.data == [Data(0, false), Data(1, false)] && s.acks == [] && s.sender.lastAckSeqNo == 0 == Awaited(s)
    requires NotBefore(s.sender.sendTimer, s.now) && NotBefore(s.sender.expirationTimer, s.now)
    ensures var t := cfg.interval; var steps := [LoseData(0)] + ([DeliverData(t)] + ([DeliverAck(t)] + []));
      && TimelyRun(cfg, s, steps) && Executable(cfg, s, steps) && end == Execute(cfg, s, steps)
    ensures end == s.(sender := Reject(s.sender, s.now), data := [], receiver := end.receiver, arrivals := end.arrivals)
    ensures Awaited(end) == 0
  {
    hide TimelyRun, Executable, Execute, Reject;
    var t := cfg.interval;
    var s1 := Next(cfg, s, LoseData(0));
    assert s1.data == [Data(1, false)];
    var s2 := Next(cfg, s1, DeliverData(t));
    assert s2.acks == [Ack(0, false)] && s2.data == [];
    end := Next(cfg, s2, DeliverAck(t));
    TimelyNone(cfg, end);
    TimelyFirst(cfg, s2, DeliverAck(t), []);
    TimelyFirst(cfg, s1, DeliverData(t), [DeliverAck(t)] + []);
    TimelyFirst(cfg, s, LoseData(0), [DeliverData(t)] + ([DeliverAck(t)] + []));
  }

  /** Whatever the window, and with a timeout of two intervals or more: on schedule, the lost packet is sent again when
      the next transmission is due, and no timer has expired. */
  lemma LostPacketComesAgain(cfg: Config)
    requires Sane(cfg) && cfg.sendNack && cfg.window >= 2 && cfg.timeout >= cfg.interval + cfg.interval
    ensures var (before, again) := LossAndReject(cfg); var steps := before + again;
      && NoExpiry(steps) && LoseData(0) in steps
      && TimelyRun(cfg, INITIAL_NET, steps) && Executable(cfg, INITIAL_NET, steps)
      && var end := Execute(cfg, INITIAL_NET, steps);
         end.data == [Data(0, false)] && end.transmissions == 3 && end.sender.nextSendSeqNo == 1
  {
    hide TimelyRun, Executable, Execute;
    var t := cfg.interval;
    var (before, again) := LossAndReject(cfg);
    var s := TwoSent(cfg);
    var s1 := FirstIsLost(cfg, s);
    var first := [SendTimer(0.0)] + [SendTimer(t)];
    var second := [LoseData(0)] + ([DeliverData(t)] + ([DeliverAck(t)] + []));
    TimelyChain(cfg, INITIAL_NET, first, second);
    assert first + second == before;
    var step := again[0];
    var end := Next(cfg, s1, step);
    TimelyNone(cfg, end);
    TimelyFirst(cfg, s1, step, []);
    assert [step] + [] == again;
    TimelyChain(cfg, INITIAL_NET, before, again);
    assert (before + again)[2] == LoseData(0);
  }
}
