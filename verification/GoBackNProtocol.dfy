/** Sender, receiver and the two channels between them. A channel is FIFO; it may lose or damage any
    packet in it, and never duplicates one. */
module GoBackNProtocol {
  import opened GoBackNMachines

  /** `transmissions` and `arrivals` count data packets put into, and taken out of, the data channel by
      the two machines; they are history. */
  datatype Net = Net(
    sender: SenderState,
    receiver: ReceiverState,
    data: seq<Data>,
    acks: seq<Ack>,
    now: real,
    transmissions: nat,
    arrivals: nat)

  datatype Step =
    | SendTimer(at: real)
    | ExpirationTimer(at: real)
    | DeliverData(at: real)
    | DeliverAck(at: real)
    | LoseData(i: nat)
    | LoseAck(i: nat)
    | DamageData(i: nat)
    | DamageAck(i: nat)

  const INITIAL_NET := Net(INITIAL_SENDER, INITIAL_RECEIVER, [], [], 0.0, 0, 0)

  /** The untimed step model: a pending timer may fire at any moment. */
  predicate Enabled(s: Net, step: Step) {
    match step
    case SendTimer(_) => s.sender.sendTimer.At?
    case ExpirationTimer(_) => s.sender.expirationTimer.At?
    case DeliverData(_) => s.data != []
    case DeliverAck(_) => s.acks != []
    case LoseData(i) => i < |s.data|
    case LoseAck(i) => i < |s.acks|
    case DamageData(i) => i < |s.data|
    case DamageAck(i) => i < |s.acks|
  }

  function Remove<T>(q: seq<T>, i: nat): seq<T>
    requires i < |q|
  {
    q[..i] + q[i + 1..]
  }

  ghost function Next(cfg: Config, s: Net, step: Step): Net
    requires Enabled(s, step)
  {
    match step
    case SendTimer(at) =>
      var (sender, d) := FireSend(cfg, s.sender, at);
      s.(sender := sender, data := s.data + [d], now := at, transmissions := s.transmissions + 1)
    case ExpirationTimer(at) => s.(sender := FireExpiration(s.sender, at), now := at)
    case DeliverData(at) =>
      var (receiver, acks) := OnData(cfg, s.receiver, s.data[0]);
      s.(receiver := receiver, data := s.data[1..], acks := s.acks + acks, now := at, arrivals := s.arrivals + 1)
    case DeliverAck(at) => s.(sender := OnAck(cfg, s.sender, s.acks[0], at), acks := s.acks[1..], now := at)
    case LoseData(i) => s.(data := Remove(s.data, i))
    case LoseAck(i) => s.(acks := Remove(s.acks, i))
    case DamageData(i) => s.(data := s.data[i := s.data[i].(hasBitError := true)])
    case DamageAck(i) => s.(acks := s.acks[i := s.acks[i].(hasBitError := true)])
  }

  ghost predicate Executable(cfg: Config, s: Net, steps: seq<Step>)
    decreases |steps|
  {
    steps == [] || (Enabled(s, steps[0]) && Executable(cfg, Next(cfg, s, steps[0]), steps[1..]))
  }

  ghost function Execute(cfg: Config, s: Net, steps: seq<Step>): Net
    requires Executable(cfg, s, steps)
    decreases |steps|
  {
    if steps == [] then s else Execute(cfg, Next(cfg, s, steps[0]), steps[1..])
  }

  // ---------- safety ----------

  /** The number the receiver waits for. */
  function Awaited(s: Net): int {
    s.receiver.lastReceivedSeqNo + 1
  }

  /** Numbers in flight lie in `[lo, hi]` and never go backwards. */
  ghost predicate Rising(acks: seq<Ack>, lo: int, hi: int) {
    && (forall i :: 0 <= i < |acks| ==> lo <= acks[i].seqNoExpected <= hi)
    && (forall i, j :: 0 <= i < j < |acks| ==> acks[i].seqNoExpected <= acks[j].seqNoExpected)
  }

  ghost predicate Below(data: seq<Data>, end: int) {
    forall i :: 0 <= i < |data| ==> 0 <= data[i].seqNo < end
  }

  /** The byte counters are packet counters, scaled. */
  ghost predicate Counted(cfg: Config, s: Net) {
    && s.sender.ackBytes == cfg.PacketBytes() * s.sender.lastAckSeqNo
    && s.receiver.goodBytes == cfg.PacketBytes() * Awaited(s)
    && s.receiver.totalBytes == cfg.PacketBytes() * s.arrivals
    && s.sender.sentBytes == cfg.PacketBytes() * s.transmissions
    && Awaited(s) <= s.arrivals && s.arrivals + |s.data| <= s.transmissions
  }

  ghost predicate NetInv(cfg: Config, s: Net) {
    && SenderInv(cfg, s.sender) && ReceiverInv(s.receiver)
    && s.sender.lastAckSeqNo <= Awaited(s) <= BufferEnd(s.sender)
    && Below(s.data, BufferEnd(s.sender))
    && Rising(s.acks, s.sender.lastAckSeqNo, Awaited(s))
    && Counted(cfg, s)
  }

  lemma SendTimerInv(cfg: Config, s: Net, at: real)
    requires NetInv(cfg, s) && Enabled(s, SendTimer(at))
    ensures NetInv(cfg, Next(cfg, s, SendTimer(at)))
  {
    FireSendInv(cfg, s.sender, at);
    FireSendEnd(cfg, s.sender, at);
    hide SenderInv, FireSend;
    Distribute(cfg.PacketBytes(), s.transmissions, 1);
  }

  lemma FireSendEnd(cfg: Config, s: SenderState, now: real)
    requires SenderInv(cfg, s) && s.sendTimer.At?
    ensures var (s', d) := FireSend(cfg, s, now);
      && d == Data(s.nextSendSeqNo, false) && 0 <= s.nextSendSeqNo < BufferEnd(s') && BufferEnd(s) <= BufferEnd(s')
      && s'.lastAckSeqNo == s.lastAckSeqNo && s'.ackBytes == s.ackBytes && s'.sentBytes == s.sentBytes + cfg.PacketBytes()
  {
  }

  lemma Distribute(bytes: int, n: int, k: int)
    ensures bytes * (n + k) == bytes * n + bytes * k
  {
  }

  lemma ExpirationTimerInv(cfg: Config, s: Net, at: real)
    requires NetInv(cfg, s) && Enabled(s, ExpirationTimer(at))
    ensures NetInv(cfg, Next(cfg, s, ExpirationTimer(at)))
  {
    FireExpirationInv(cfg, s.sender, at);
    hide SenderInv;
  }

  lemma DeliverDataInv(cfg: Config, s: Net, at: real)
    requires NetInv(cfg, s) && Enabled(s, DeliverData(at))
    ensures NetInv(cfg, Next(cfg, s, DeliverData(at)))
  {
    hide SenderInv;
    DataInv(cfg, s.receiver, s.data[0]);
    Distribute(cfg.PacketBytes(), s.arrivals, 1);
    Distribute(cfg.PacketBytes(), Awaited(s), 1);
  }

  lemma DeliverAckInv(cfg: Config, s: Net, at: real)
    requires NetInv(cfg, s) && Enabled(s, DeliverAck(at))
    ensures NetInv(cfg, Next(cfg, s, DeliverAck(at)))
  {
    hide SenderInv, OnAck;
    AckInv(cfg, s.sender, s.acks[0], at);
    AckCounts(cfg, s.sender, s.acks[0], at);
  }

  lemma AckCounts(cfg: Config, s: SenderState, ack: Ack, now: real)
    requires s.ackBytes == cfg.PacketBytes() * s.lastAckSeqNo
    ensures var s' := OnAck(cfg, s, ack, now);
      && s'.lastAckSeqNo == (if ack.hasBitError then s.lastAckSeqNo else ack.seqNoExpected)
      && s'.ackBytes == cfg.PacketBytes() * s'.lastAckSeqNo && s'.sentBytes == s.sentBytes
  {
    Distribute(cfg.PacketBytes(), s.lastAckSeqNo, ack.seqNoExpected - s.lastAckSeqNo);
  }

  lemma ChannelInv(cfg: Config, s: Net, step: Step)
    requires NetInv(cfg, s) && Enabled(s, step) && (step.LoseData? || step.LoseAck? || step.DamageData? || step.DamageAck?)
    ensures NetInv(cfg, Next(cfg, s, step))
  {
    hide SenderInv, ReceiverInv;
  }

  /** The invariant survives every step. */
  lemma StepInv(cfg: Config, s: Net, step: Step)
    requires NetInv(cfg, s) && Enabled(s, step)
    ensures NetInv(cfg, Next(cfg, s, step))
  {
    hide NetInv, Next;
    match step
    case SendTimer(at) => SendTimerInv(cfg, s, at);
    case ExpirationTimer(at) => ExpirationTimerInv(cfg, s, at);
    case DeliverData(at) => DeliverDataInv(cfg, s, at);
    case DeliverAck(at) => DeliverAckInv(cfg, s, at);
    case LoseData(_) => ChannelInv(cfg, s, step);
    case LoseAck(_) => ChannelInv(cfg, s, step);
    case DamageData(_) => ChannelInv(cfg, s, step);
    case DamageAck(_) => ChannelInv(cfg, s, step);
  }

  lemma {:induction false} ExecuteInv(cfg: Config, s: Net, steps: seq<Step>)
    requires NetInv(cfg, s) && Executable(cfg, s, steps)
    ensures NetInv(cfg, Execute(cfg, s, steps))
    decreases |steps|
  {
    hide NetInv, Next, Enabled;
    if steps != [] {
      StepInv(cfg, s, steps[0]);
      ExecuteInv(cfg, Next(cfg, s, steps[0]), steps[1..]);
    }
  }

  lemma InitialInv(cfg: Config)
    requires cfg.Valid()
    ensures NetInv(cfg, INITIAL_NET)
  {
  }

  /** Whatever is lost or damaged: the packets accepted are 0, 1, 2, ..., in order and once each, and the
      two machines' numbers never part by more than the window. */
  lemma GoBackNSafety(cfg: Config, steps: seq<Step>)
    requires cfg.Valid() && Executable(cfg, INITIAL_NET, steps)
    ensures var s := Execute(cfg, INITIAL_NET, steps);
      && |s.receiver.accepted| == Awaited(s) && (forall i :: 0 <= i < Awaited(s) ==> s.receiver.accepted[i] == i)
      && 0 <= s.sender.lastAckSeqNo <= Awaited(s) <= BufferEnd(s.sender) <= s.sender.lastAckSeqNo + cfg.window
      && (forall k :: k in s.sender.buffer <==> s.sender.lastAckSeqNo <= k < BufferEnd(s.sender))
  {
    InitialInv(cfg);
    ExecuteInv(cfg, INITIAL_NET, steps);
  }

  /** The sequence number assertions of the handlers, before the given step. */
  ghost predicate AssertionsHold(cfg: Config, s: Net, step: Step)
    requires Enabled(s, step)
  {
    var snd := s.sender;
    match step
    case SendTimer(_) =>
      && snd.nextSendSeqNo < snd.lastAckSeqNo + cfg.window
      && (forall k :: k in snd.buffer ==>
            exists oldest :: oldest in snd.buffer && oldest <= k && oldest <= snd.nextSendSeqNo)
      && |snd.buffer[snd.nextSendSeqNo := Never]| <= cfg.window
    case DeliverAck(_) =>
      var x := s.acks[0].seqNoExpected;
      s.acks[0].hasBitError || x == snd.lastAckSeqNo
      || (x > snd.lastAckSeqNo && forall k :: snd.lastAckSeqNo <= k <= x - 1 ==> k in snd.buffer)
    case _ => true
  }

  /** None of them ever fails. */
  lemma AssertionsNeverFail(cfg: Config, steps: seq<Step>, step: Step)
    requires cfg.Valid() && Executable(cfg, INITIAL_NET, steps) && Enabled(Execute(cfg, INITIAL_NET, steps), step)
    ensures AssertionsHold(cfg, Execute(cfg, INITIAL_NET, steps), step)
  {
    InitialInv(cfg);
    ExecuteInv(cfg, INITIAL_NET, steps);
    var snd := Execute(cfg, INITIAL_NET, steps).sender;
    assert snd.buffer != map[] ==> snd.lastAckSeqNo in snd.buffer;
  }

  /** No byte is acknowledged that was not accepted, accepted that did not arrive, or arrives unsent. */
  lemma BytesAreConserved(cfg: Config, steps: seq<Step>)
    requires cfg.Valid() && Executable(cfg, INITIAL_NET, steps)
    ensures var s := Execute(cfg, INITIAL_NET, steps);
      s.sender.ackBytes <= s.receiver.goodBytes <= s.receiver.totalBytes <= s.sender.sentBytes
  {
    InitialInv(cfg);
    ExecuteInv(cfg, INITIAL_NET, steps);
    var s := Execute(cfg, INITIAL_NET, steps);
    Scale(cfg.PacketBytes(), s.sender.lastAckSeqNo, Awaited(s));
    Scale(cfg.PacketBytes(), Awaited(s), s.arrivals);
    Scale(cfg.PacketBytes(), s.arrivals, s.transmissions);
  }

  lemma Scale(bytes: int, n: int, m: int)
    requires 0 <= bytes && n <= m
    ensures bytes * n <= bytes * m
  {
  }
}
