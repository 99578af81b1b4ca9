/** The protocol under the clock of the simulation: events happen in time order, and a timer fires at the
    moment it was set for. */
module GoBackNTimers {
  import opened GoBackNMachines
  import opened GoBackNProtocol

  predicate NotBefore(x: Time, now: real) {
    x.At? ==> now <= x.t
  }

  function When(s: Net, step: Step): real {
    if step.SendTimer? || step.ExpirationTimer? || step.DeliverData? || step.DeliverAck? then step.at else s.now
  }

  /** No event is handled after a timer that was due before it. */
  predicate Timely(s: Net, step: Step) {
    var at := When(s, step);
    && Enabled(s, step) && s.now <= at
    && NotBefore(s.sender.sendTimer, at) && NotBefore(s.sender.expirationTimer, at)
    && (step.SendTimer? ==> s.sender.sendTimer == At(at))
    && (step.ExpirationTimer? ==> s.sender.expirationTimer == At(at))
  }

  ghost predicate TimelyRun(cfg: Config, s: Net, steps: seq<Step>)
    decreases |steps|
  {
    steps == [] || (Timely(s, steps[0]) && TimelyRun(cfg, Next(cfg, s, steps[0]), steps[1..]))
  }

  /** A timed run is a run. */
  lemma {:induction false} TimelyIsExecutable(cfg: Config, s: Net, steps: seq<Step>)
    requires TimelyRun(cfg, s, steps)
    ensures Executable(cfg, s, steps)
    decreases |steps|
  {
    if steps != [] {
      TimelyIsExecutable(cfg, Next(cfg, s, steps[0]), steps[1..]);
    }
  }

  /** The packets sent and not acknowledged. */
  predicate Outstanding(s: SenderState, k: int) {
    s.lastAckSeqNo <= k < s.nextSendSeqNo && k in s.buffer
  }

  /** The timeouts of outstanding packets never decrease, none lies before the expiration timer, and no
      timer lies in the past or further off than one timeout. */
  ghost predicate Clocked(cfg: Config, s: SenderState, now: real) {
    && NotBefore(s.sendTimer, now) && NotBefore(s.timerExpiration, now)
    && (s.timerExpiration.At? ==> s.timerExpiration.t <= now + cfg.timeout)
    && (forall k :: Outstanding(s, k) ==>
          && s.buffer[k].At? && s.timerExpiration.At? && s.timerExpiration.t <= s.buffer[k].t <= now + cfg.timeout)
    && (forall j, k :: Outstanding(s, j) && Outstanding(s, k) && j <= k && s.buffer[j].At? && s.buffer[k].At? ==>
          s.buffer[j].t <= s.buffer[k].t)
  }

  ghost predicate Sane(cfg: Config) {
    cfg.Valid() && cfg.timeout >= 0.0 && cfg.interval >= 0.0
  }

  lemma ClockedLater(cfg: Config, s: SenderState, now: real, at: real)
    requires Clocked(cfg, s, now) && now <= at && NotBefore(s.sendTimer, at) && NotBefore(s.timerExpiration, at)
    ensures Clocked(cfg, s, at)
  {
  }

  lemma FireSendClocked(cfg: Config, s: SenderState, at: real)
    requires Sane(cfg) && SenderInv(cfg, s) && Clocked(cfg, s, at) && s.sendTimer.At?
    ensures Clocked(cfg, FireSend(cfg, s, at).0, at)
  {
    var s' := FireSend(cfg, s, at).0;
    assert forall k :: Outstanding(s', k) ==> k == s.nextSendSeqNo || Outstanding(s, k);
  }

  lemma FireExpirationClocked(cfg: Config, s: SenderState, at: real)
    requires Sane(cfg) && SenderInv(cfg, s) && Clocked(cfg, s, at)
    ensures Clocked(cfg, FireExpiration(s, at), at)
  {
  }

  lemma AckClocked(cfg: Config, s: SenderState, ack: Ack, at: real)
    requires Sane(cfg) && SenderInv(cfg, s) && Clocked(cfg, s, at)
    requires !ack.hasBitError ==> s.lastAckSeqNo <= ack.seqNoExpected <= BufferEnd(s)
    ensures Clocked(cfg, OnAck(cfg, s, ack, at), at)
  {
    var s' := OnAck(cfg, s, ack, at);
    if !ack.hasBitError && ack.seqNoExpected != s.lastAckSeqNo {
      assert forall k :: Outstanding(s', k) ==> Outstanding(s, k) && s'.buffer[k] == s.buffer[k];
      if s.nextSendSeqNo > ack.seqNoExpected {
        assert Outstanding(s, ack.seqNoExpected);
      }
    }
  }

  lemma StepClocked(cfg: Config, s: Net, step: Step)
    requires Sane(cfg) && NetInv(cfg, s) && Clocked(cfg, s.sender, s.now) && Timely(s, step)
    ensures Clocked(cfg, Next(cfg, s, step).sender, Next(cfg, s, step).now)
  {
    var at := When(s, step);
    ClockedLater(cfg, s.sender, s.now, at);
    hide Clocked, SenderInv;
    match step
    case SendTimer(_) => FireSendClocked(cfg, s.sender, at);
    case ExpirationTimer(_) => FireExpirationClocked(cfg, s.sender, at);
    case DeliverAck(_) => AckClocked(cfg, s.sender, s.acks[0], at);
    case _ =>
  }

  lemma {:induction false} RunClocked(cfg: Config, s: Net, steps: seq<Step>)
    requires Sane(cfg) && NetInv(cfg, s) && Clocked(cfg, s.sender, s.now) && TimelyRun(cfg, s, steps)
    requires Executable(cfg, s, steps)
    ensures Clocked(cfg, Execute(cfg, s, steps).sender, Execute(cfg, s, steps).now)
    decreases |steps|
  {
    hide NetInv, Clocked, Next;
    if steps != [] {
      StepInv(cfg, s, steps[0]);
      StepClocked(cfg, s, steps[0]);
      RunClocked(cfg, Next(cfg, s, steps[0]), steps[1..]);
    }
  }

  /** In every state of every timed run one of the two timers is pending; the send timer is missing only
      when the window is exhausted; and while packets are outstanding the expiration timer is set, no
      later than any of their timeouts, which never decrease. */
  lemma TimersAlwaysRun(cfg: Config, steps: seq<Step>)
    requires Sane(cfg) && TimelyRun(cfg, INITIAL_NET, steps)
    ensures Executable(cfg, INITIAL_NET, steps)
    ensures var s := Execute(cfg, INITIAL_NET, steps).sender;
      && (s.sendTimer.At? || s.expirationTimer.At?)
      && (s.sendTimer.Never? <==> s.nextSendSeqNo == s.lastAckSeqNo + cfg.window)
      && (s.nextSendSeqNo > s.lastAckSeqNo ==> s.expirationTimer.At? && s.expirationTimer == s.timerExpiration)
      && (forall k :: s.lastAckSeqNo <= k < s.nextSendSeqNo ==>
            k in s.buffer && s.buffer[k].At? && s.timerExpiration.At? && s.timerExpiration.t <= s.buffer[k].t)
      && (forall j, k :: s.lastAckSeqNo <= j <= k < s.nextSendSeqNo ==>
            j in s.buffer && k in s.buffer && s.buffer[j].At? && s.buffer[k].At? && s.buffer[j].t <= s.buffer[k].t)
  {
    TimelyIsExecutable(cfg, INITIAL_NET, steps);
    InitialInv(cfg);
    ExecuteInv(cfg, INITIAL_NET, steps);
    RunClocked(cfg, INITIAL_NET, steps);
    var s := Execute(cfg, INITIAL_NET, steps).sender;
    assert forall k :: s.lastAckSeqNo <= k < s.nextSendSeqNo ==> Outstanding(s, k);
  }

  /** After an acknowledgement that leaves packets outstanding the sender asserts that the expiration
      timer lies ahead. */
  predicate RearmsAhead(s: Net, at: real)
    requires s.acks != []
  {
    var x := s.acks[0].seqNoExpected;
    s.acks[0].hasBitError || x == s.sender.lastAckSeqNo || x >= s.sender.nextSendSeqNo || x !in s.sender.buffer
    || Earlier(At(at), s.sender.buffer[x])
  }

  /** The assertion holds exactly when the packet that becomes the oldest is not timing out at that very
      moment. */
  lemma RearmsAheadExactlyWhen(cfg: Config, steps: seq<Step>, at: real)
    requires Sane(cfg) && TimelyRun(cfg, INITIAL_NET, steps) && Executable(cfg, INITIAL_NET, steps)
    requires var s := Execute(cfg, INITIAL_NET, steps); Timely(s, DeliverAck(at)) && !s.acks[0].hasBitError
    ensures var s := Execute(cfg, INITIAL_NET, steps); var x := s.acks[0].seqNoExpected;
      RearmsAhead(s, at) <==>
        !(s.sender.lastAckSeqNo < x < s.sender.nextSendSeqNo && x in s.sender.buffer && s.sender.buffer[x] == At(at))
  {
    InitialInv(cfg);
    ExecuteInv(cfg, INITIAL_NET, steps);
    RunClocked(cfg, INITIAL_NET, steps);
    var s := Execute(cfg, INITIAL_NET, steps);
    var x := s.acks[0].seqNoExpected;
    if s.sender.lastAckSeqNo < x < s.sender.nextSendSeqNo {
      assert Outstanding(s.sender, x);
    }
  }

  /** A caller can see it coming: the assertion holds whenever the expiration timer is set for later. It fails only
      if that timer is due at this very moment and the old and the new oldest packet, and all between them, went out
      at one moment. */
  lemma RearmsAheadBeforeExpiry(cfg: Config, steps: seq<Step>, at: real)
    requires Sane(cfg) && TimelyRun(cfg, INITIAL_NET, steps) && Executable(cfg, INITIAL_NET, steps)
    requires var s := Execute(cfg, INITIAL_NET, steps); Timely(s, DeliverAck(at))
    ensures var s := Execute(cfg, INITIAL_NET, steps); var x := s.acks[0].seqNoExpected;
      && (Earlier(At(at), s.sender.expirationTimer) ==> RearmsAhead(s, at))
      && (!RearmsAhead(s, at) ==>
            && s.sender.expirationTimer == At(at)
            && forall k :: s.sender.lastAckSeqNo <= k <= x ==> k in s.sender.buffer && s.sender.buffer[k] == At(at))
  {
    InitialInv(cfg);
    ExecuteInv(cfg, INITIAL_NET, steps);
    RunClocked(cfg, INITIAL_NET, steps);
    var s := Execute(cfg, INITIAL_NET, steps);
    var x := s.acks[0].seqNoExpected;
    if !RearmsAhead(s, at) {
      assert Outstanding(s.sender, x);
      forall k | s.sender.lastAckSeqNo <= k <= x
        ensures k in s.sender.buffer && s.sender.buffer[k] == At(at)
      {
        assert Outstanding(s.sender, k);
      }
    }
  }

  lemma TimelyFirst(cfg: Config, s: Net, step: Step, rest: seq<Step>)
    requires Timely(s, step) && TimelyRun(cfg, Next(cfg, s, step), rest) && Executable(cfg, Next(cfg, s, step), rest)
    ensures TimelyRun(cfg, s, [step] + rest) && Executable(cfg, s, [step] + rest)
    ensures Execute(cfg, s, [step] + rest) == Execute(cfg, Next(cfg, s, step), rest)
  {
    hide Next;
    assert ([step] + rest)[1..] == rest;
  }

  lemma TimelyNone(cfg: Config, s: Net)
    ensures TimelyRun(cfg, s, []) && Executable(cfg, s, []) && Execute(cfg, s, []) == s
  {
  }

  /** One packet out and through at time 0, another one at 0.25. */
  lemma TwoPackets(cfg: Config) returns (steps: seq<Step>, s: Net)
    requires cfg == Config(8, 1.0, 0.25, 2, false)
    ensures steps == [SendTimer(0.0)] + ([DeliverData(0.0)] + ([SendTimer(0.25)] + ([DeliverData(0.25)] + [])))
    ensures TimelyRun(cfg, INITIAL_NET, steps) && Executable(cfg, INITIAL_NET, steps)
    ensures s == Execute(cfg, INITIAL_NET, steps)
    ensures s.acks == [Ack(1, false), Ack(2, false)] && s.data == [] && s.now == 0.25
    ensures s.sender == SenderState(0, 2, map[0 := At(1.0), 1 := At(1.25)], Never, Never, At(1.0), At(1.0), 2, 0)
  {
    hide TimelyRun, Executable, Execute;
    var s1 := Next(cfg, INITIAL_NET, SendTimer(0.0));
    assert s1.sender == SenderState(0, 1, map[0 := At(1.0)], At(0.25), At(0.25), At(1.0), At(1.0), 1, 0);
    assert s1.data == [Data(0, false)];
    var s2 := Next(cfg, s1, DeliverData(0.0));
    assert s2.acks == [Ack(1, false)] && s2.data == [];
    var s3 := Next(cfg, s2, SendTimer(0.25));
    assert s3.sender == SenderState(0, 2, map[0 := At(1.0), 1 := At(1.25)], Never, Never, At(1.0), At(1.0), 2, 0);
    assert s3.data == [Data(1, false)];
    s := Next(cfg, s3, DeliverData(0.25));
    TimelyNone(cfg, s);
    TimelyFirst(cfg, s3, DeliverData(0.25), []);
    steps := [DeliverData(0.25)] + [];
    TimelyFirst(cfg, s2, SendTimer(0.25), steps);
    steps := [SendTimer(0.25)] + steps;
    TimelyFirst(cfg, s1, DeliverData(0.0), steps);
    steps := [DeliverData(0.0)] + steps;
    TimelyFirst(cfg, INITIAL_NET, SendTimer(0.0), steps);
    steps := [SendTimer(0.0)] + steps;
  }

  lemma {:induction false} TimelyChain(cfg: Config, s: Net, first: seq<Step>, second: seq<Step>)
    requires TimelyRun(cfg, s, first) && Executable(cfg, s, first)
    requires TimelyRun(cfg, Execute(cfg, s, first), second) && Executable(cfg, Execute(cfg, s, first), second)
    ensures TimelyRun(cfg, s, first + second) && Executable(cfg, s, first + second)
    ensures Execute(cfg, s, first + second) == Execute(cfg, Execute(cfg, s, first), second)
    decreases |first|
  {
    hide Timely, Next;
    if first == [] {
      assert [] + second == second;
    } else {
      TimelyChain(cfg, Next(cfg, s, first[0]), first[1..], second);
      assert (first + second)[1..] == first[1..] + second;
    }
  }

  /** It can fail. Two acknowledgements are on their way at 0.25, the expiration timer still being set for 1.0. The
      first one arrives, sets the timer for 1.25 and lets a third packet out at once, so that two packets time out
      then. The second one arrives at 1.25: it was on its way before the timer was set. */
  lemma RearmsAheadCanFail() returns (cfg: Config, first: seq<Step>, steps: seq<Step>)
    ensures Sane(cfg) && cfg.interval > 0.0 && steps == first + [DeliverAck(0.25), SendTimer(0.25)]
    ensures TimelyRun(cfg, INITIAL_NET, steps) && Executable(cfg, INITIAL_NET, steps) && Executable(cfg, INITIAL_NET, first)
    ensures var s0 := Execute(cfg, INITIAL_NET, first);
      && s0.acks == [Ack(1, false), Ack(2, false)] && s0.sender.expirationTimer == At(1.0) && Enabled(s0, DeliverAck(0.25))
      && Next(cfg, s0, DeliverAck(0.25)).sender.expirationTimer == At(1.25)
    ensures var s := Execute(cfg, INITIAL_NET, steps);
      s.acks == [Ack(2, false)] && Timely(s, DeliverAck(1.25)) && !RearmsAhead(s, 1.25)
  {
    hide TimelyRun, Executable, Execute;
    cfg := Config(8, 1.0, 0.25, 2, false);
    var s0, last;
    first, s0 := TwoPackets(cfg);
    var s1 := Next(cfg, s0, DeliverAck(0.25));
    assert s1.sender == SenderState(1, 2, map[1 := At(1.25)], At(0.25), At(0.25), At(1.25), At(1.25), 2, 1);
    assert s1.acks == [Ack(2, false)];
    var s2 := Next(cfg, s1, SendTimer(0.25));
    assert s2.sender.buffer == map[1 := At(1.25), 2 := At(1.25)];
    TimelyNone(cfg, s2);
    TimelyFirst(cfg, s1, SendTimer(0.25), []);
    TimelyFirst(cfg, s0, DeliverAck(0.25), [SendTimer(0.25)] + []);
    last := [DeliverAck(0.25)] + ([SendTimer(0.25)] + []);
    assert last == [DeliverAck(0.25), SendTimer(0.25)];
    TimelyChain(cfg, INITIAL_NET, first, last);
    steps := first + last;
  }
}
