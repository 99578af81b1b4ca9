/** The Go-Back-N sender and receiver: their state, and what each event does to it. */
module GoBackNMachines {

  /** Simulation time, with INFINITY. */
  datatype Time = At(t: real) | Never

  predicate Earlier(x: Time, y: Time) {
    x.At? && (y.At? ==> x.t < y.t)
  }

  datatype Data = Data(seqNo: int, hasBitError: bool)
  datatype Ack = Ack(seqNoExpected: int, hasBitError: bool)

  /** The parameters of a sender; without a packet size it is disabled. */
  datatype Config = Config(packetSize: int, timeout: real, interval: real, window: int, sendNack: bool) {
    predicate Disabled() {
      packetSize <= 0
    }

    predicate Valid() {
      !Disabled() && window > 0
    }

    function PacketBytes(): int {
      packetSize / 8
    }
  }

  // ---------- sender ----------

  /** `buffer` maps each stored sequence number to the timeout of its packet. `nextSendTime` and
      `timerExpiration` are the sender's own record of its timers, `sendTimer` and `expirationTimer` what
      the scheduler holds. */
  datatype SenderState = SenderState(
    lastAckSeqNo: int,
    nextSendSeqNo: int,
    buffer: map<int, Time>,
    nextSendTime: Time,
    sendTimer: Time,
    timerExpiration: Time,
    expirationTimer: Time,
    sentBytes: int,
    ackBytes: int)

  /** Simulations start at time zero, with the first transmission due at once. */
  const INITIAL_SENDER := SenderState(0, 0, map[], At(0.0), At(0.0), Never, Never, 0, 0)

  ghost function Freed(buffer: map<int, Time>, start: int, end: int): map<int, Time> {
    map k | k in buffer && !(start <= k <= end) :: buffer[k]
  }

  ghost function AllNever(buffer: map<int, Time>): map<int, Time> {
    map k | k in buffer :: Never
  }

  /** The send timer fires: transmit the packet with the next number and arm the timers. */
  function FireSend(cfg: Config, s: SenderState, now: real): (SenderState, Data) {
    var n := s.nextSendSeqNo;
    var nextTimer := At(now + cfg.timeout);
    var sooner := Earlier(nextTimer, s.timerExpiration);
    var nextSend := if n + 1 >= s.lastAckSeqNo + cfg.window then Never else At(now + cfg.interval);
    (s.(buffer := s.buffer[n := nextTimer],
        nextSendSeqNo := n + 1,
        sentBytes := s.sentBytes + cfg.PacketBytes(),
        timerExpiration := if sooner then nextTimer else s.timerExpiration,
        expirationTimer := if sooner then nextTimer else s.expirationTimer,
        nextSendTime := nextSend,
        sendTimer := nextSend),
     Data(n, false))
  }

  /** Make sure a transmission is scheduled. */
  function WakeUp(s: SenderState, now: real): SenderState {
    if s.nextSendTime == Never then s.(nextSendTime := At(now), sendTimer := At(now)) else s
  }

  /** The expiration timer fires: go back to the oldest unacknowledged packet. */
  ghost function FireExpiration(s: SenderState, now: real): SenderState {
    var w := WakeUp(s, now);
    w.(nextSendSeqNo := w.lastAckSeqNo, buffer := AllNever(w.buffer), timerExpiration := Never, expirationTimer := Never)
  }

  function Reject(s: SenderState, now: real): SenderState {
    WakeUp(s, now).(nextSendSeqNo := s.lastAckSeqNo)
  }

  ghost function Accept(cfg: Config, s: SenderState, x: int, now: real): SenderState {
    var buffer := Freed(s.buffer, s.lastAckSeqNo, x - 1);
    var expiration := if s.nextSendSeqNo > x && x in buffer then buffer[x] else Never;
    WakeUp(s.(buffer := buffer,
              ackBytes := s.ackBytes + cfg.PacketBytes() * (x - s.lastAckSeqNo),
              lastAckSeqNo := x,
              timerExpiration := expiration,
              expirationTimer := expiration,
              nextSendSeqNo := if s.nextSendSeqNo < x then x else s.nextSendSeqNo), now)
  }

  /** A damaged acknowledgement is ignored, a repeated one is a reject. */
  ghost function OnAck(cfg: Config, s: SenderState, ack: Ack, now: real): SenderState {
    if ack.hasBitError then s
    else if ack.seqNoExpected == s.lastAckSeqNo then Reject(s, now)
    else Accept(cfg, s, ack.seqNoExpected, now)
  }

  /** One past the highest sequence number ever handed out. */
  ghost function BufferEnd(s: SenderState): int {
    s.lastAckSeqNo + |s.buffer|
  }

  /** The stored packets are the contiguous interval that starts at the oldest unacknowledged one. */
  ghost predicate Contiguous(cfg: Config, s: SenderState) {
    && (forall k :: k in s.buffer <==> s.lastAckSeqNo <= k < BufferEnd(s))
    && s.lastAckSeqNo <= s.nextSendSeqNo <= BufferEnd(s) <= s.lastAckSeqNo + cfg.window
  }

  /** The timers of the scheduler are the ones the sender believes in. A missing send timer means the
      window is exhausted; packets outstanding mean the expiration timer runs. */
  ghost predicate TimersRun(cfg: Config, s: SenderState) {
    && s.sendTimer == s.nextSendTime && s.expirationTimer == s.timerExpiration
    && (s.sendTimer.At? <==> s.nextSendSeqNo < s.lastAckSeqNo + cfg.window)
    && (s.nextSendSeqNo > s.lastAckSeqNo ==> s.timerExpiration.At?)
    && (forall k :: s.lastAckSeqNo <= k < s.nextSendSeqNo && k in s.buffer ==> s.buffer[k].At?)
  }

  ghost predicate SenderInv(cfg: Config, s: SenderState) {
    cfg.Valid() && 0 <= s.lastAckSeqNo && Contiguous(cfg, s) && TimersRun(cfg, s)
  }

  // ---------- receiver ----------

  /** `accepted` lists the sequence numbers passed on, in order; it is history. */
  datatype ReceiverState = ReceiverState(lastReceivedSeqNo: int, totalBytes: int, goodBytes: int, accepted: seq<int>)

  const INITIAL_RECEIVER := ReceiverState(-1, 0, 0, [])

  predicate Expected(s: ReceiverState, d: Data) {
    !d.hasBitError && d.seqNo == s.lastReceivedSeqNo + 1
  }

  function OnData(cfg: Config, s: ReceiverState, d: Data): (ReceiverState, seq<Ack>) {
    var bytes := cfg.PacketBytes();
    var counted := s.(totalBytes := s.totalBytes + bytes);
    if Expected(s, d) then
      (counted.(goodBytes := s.goodBytes + bytes, lastReceivedSeqNo := d.seqNo, accepted := s.accepted + [d.seqNo]),
       [Ack(d.seqNo + 1, false)])
    else if !d.hasBitError && cfg.sendNack && d.seqNo == s.lastReceivedSeqNo + 2 then
      (counted, [Ack(s.lastReceivedSeqNo + 1, false)])
    else
      (counted, [])
  }

  /** `accepted` is exactly 0, 1, 2, ... up to the last number received. */
  ghost predicate ReceiverInv(s: ReceiverState) {
    && s.lastReceivedSeqNo >= -1 && |s.accepted| == s.lastReceivedSeqNo + 1
    && forall i :: 0 <= i < |s.accepted| ==> s.accepted[i] == i
  }

  class GoBackNReceiver {
    const cfg: Config
    var lastReceivedSeqNo: int
    var totalBytes: int
    var goodBytes: int
    ghost var accepted: seq<int>

    ghost function View(): ReceiverState
      reads this
    {
      ReceiverState(lastReceivedSeqNo, totalBytes, goodBytes, accepted)
    }

    constructor (cfg: Config)
      ensures View() == INITIAL_RECEIVER && this.cfg == cfg
    {
      this.cfg := cfg;
      lastReceivedSeqNo, totalBytes, goodBytes, accepted := -1, 0, 0, [];
    }

    /** Count every packet; accept and acknowledge the expected one; reject a packet just past it when
        rejects are on; ignore everything else, old packets included. */
    method HandleMessage(data: Data) returns (acks: seq<Ack>)
      modifies this
      ensures (View(), acks) == OnData(cfg, old(View()), data)
    {
      acks := [];
      totalBytes := totalBytes + cfg.PacketBytes();
      if !data.hasBitError {
        if data.seqNo == lastReceivedSeqNo + 1 {
          goodBytes := goodBytes + cfg.PacketBytes();
          lastReceivedSeqNo := data.seqNo;
          accepted := accepted + [data.seqNo];
          acks := [Ack(data.seqNo + 1, false)];
        } else if data.seqNo > lastReceivedSeqNo + 1 {
          if cfg.sendNack && data.seqNo == lastReceivedSeqNo + 2 {
            acks := [Ack(lastReceivedSeqNo + 1, false)];
          }
        }
      }
    }
  }

  class GoBackNSender {
    const cfg: Config
    var lastAckSeqNo: int
    var nextSendSeqNo: int
    var packetBuffer: map<int, Time>
    var nextSendTime: Time
    var nextSendTimer: Time
    var timerExpiration: Time
    var expirationTimer: Time
    var sentBytes: int
    var ackBytes: int

    ghost function View(): SenderState
      reads this
    {
      SenderState(lastAckSeqNo, nextSendSeqNo, packetBuffer, nextSendTime, nextSendTimer,
                  timerExpiration, expirationTimer, sentBytes, ackBytes)
    }

    constructor (cfg: Config)
      requires cfg.window > 0
      ensures this.cfg == cfg
      ensures View() == if cfg.Disabled() then INITIAL_SENDER.(sendTimer := Never) else INITIAL_SENDER
      ensures !cfg.Disabled() ==> SenderInv(cfg, View())
    {
      this.cfg := cfg;
      lastAckSeqNo, nextSendSeqNo := 0, 0;
      packetBuffer := map[];
      nextSendTime := At(0.0);
      nextSendTimer := if cfg.Disabled() then Never else At(0.0);
      timerExpiration, expirationTimer := Never, Never;
      sentBytes, ackBytes := 0, 0;
    }

    /** The stored packet, or a new one when the number is used for the first time. */
    method GetDataPacket(seqNo: int) returns (data: Data)
      requires SenderInv(cfg, View()) && lastAckSeqNo <= seqNo <= BufferEnd(View()) && seqNo < lastAckSeqNo + cfg.window
      modifies this`packetBuffer
      ensures packetBuffer == if seqNo in old(packetBuffer) then old(packetBuffer) else old(packetBuffer)[seqNo := At(-1.0)]
      ensures data == Data(seqNo, false) && |packetBuffer| <= cfg.window
    {
      // Packets older than the oldest one stored are never asked for.
      assert packetBuffer == map[] || (lastAckSeqNo in packetBuffer && lastAckSeqNo <= seqNo);
      if seqNo !in packetBuffer {
        packetBuffer := packetBuffer[seqNo := At(-1.0)];
      }
      data := Data(seqNo, false);
    }

    /** Drop the packets from `start` to `end`; each of them is there to be dropped. */
    method FreeBuffers(start: int, end: int)
      requires start <= end && forall k :: start <= k <= end ==> k in packetBuffer
      modifies this`packetBuffer
      ensures packetBuffer == Freed(old(packetBuffer), start, end)
    {
      var i := start;
      while i <= end
        invariant start <= i <= end + 1
        invariant packetBuffer == Freed(old(packetBuffer), start, i - 1)
      {
        assert i in packetBuffer;
        packetBuffer := packetBuffer - {i};
        i := i + 1;
      }
    }

    /** Walk the stored packets, which are numbered upwards from the oldest unacknowledged one. */
    method ResetTimers()
      requires Contiguous(cfg, View())
      modifies this`packetBuffer, this`timerExpiration, this`expirationTimer
      ensures packetBuffer == AllNever(old(packetBuffer))
      ensures timerExpiration == Never && expirationTimer == Never
    {
      timerExpiration := Never;
      for i := lastAckSeqNo to lastAckSeqNo + |packetBuffer|
        invariant timerExpiration == Never && packetBuffer.Keys == old(packetBuffer).Keys
        invariant forall k :: k in packetBuffer ==> packetBuffer[k] == if k < i then Never else old(packetBuffer)[k]
      {
        packetBuffer := packetBuffer[i := Never];
      }
      expirationTimer := Never;
    }

    method ScheduleNow(now: real)
      modifies this`nextSendTime, this`nextSendTimer
      ensures View() == WakeUp(old(View()), now)
    {
      if nextSendTime == Never {
        nextSendTime := At(now);
        nextSendTimer := nextSendTime;
      }
    }

    method HandleSendTimer(now: real) returns (data: Data)
      requires SenderInv(cfg, View()) && nextSendTimer == At(now)
      modifies this
      ensures (View(), data) == FireSend(cfg, old(View()), now)
    {
      assert nextSendTime == At(now);
      assert nextSendSeqNo < lastAckSeqNo + cfg.window;
      data := GetDataPacket(nextSendSeqNo);
      sentBytes := sentBytes + cfg.PacketBytes();
      var nextTimer := At(now + cfg.timeout);
      packetBuffer := packetBuffer[nextSendSeqNo := nextTimer];
      assert packetBuffer == old(packetBuffer)[nextSendSeqNo := nextTimer];
      nextSendSeqNo := nextSendSeqNo + 1;
      if Earlier(nextTimer, timerExpiration) {
        timerExpiration := nextTimer;
        expirationTimer := timerExpiration;
      }
      if nextSendSeqNo >= lastAckSeqNo + cfg.window {
        nextSendTime, nextSendTimer := Never, Never;
      } else {
        nextSendTime := At(now + cfg.interval);
        nextSendTimer := nextSendTime;
      }
    }

    method HandleExpirationTimer(now: real)
      requires SenderInv(cfg, View()) && expirationTimer == At(now)
      modifies this
      ensures View() == FireExpiration(old(View()), now)
    {
      assert timerExpiration == At(now);
      ScheduleNow(now);
      nextSendSeqNo := lastAckSeqNo;
      assert Contiguous(cfg, View());
      ResetTimers();
    }

    /** `timerAhead` reports the assertion that the rearmed expiration timer lies in the future. */
    method HandleAck(ack: Ack, now: real) returns (timerAhead: bool)
      requires SenderInv(cfg, View())
      requires !ack.hasBitError ==> lastAckSeqNo <= ack.seqNoExpected <= BufferEnd(View())
      modifies this
      ensures View() == OnAck(cfg, old(View()), ack, now)
      ensures !timerAhead <==>
        && !ack.hasBitError && old(lastAckSeqNo) < ack.seqNoExpected < old(nextSendSeqNo)
        && !Earlier(At(now), old(packetBuffer)[ack.seqNoExpected])
    {
      timerAhead := true;
      if !ack.hasBitError {
        if ack.seqNoExpected == lastAckSeqNo {
          ScheduleNow(now);
          nextSendSeqNo := lastAckSeqNo;
        } else {
          assert ack.seqNoExpected > lastAckSeqNo;
          FreeBuffers(lastAckSeqNo, ack.seqNoExpected - 1);
          ackBytes := ackBytes + cfg.PacketBytes() * (ack.seqNoExpected - lastAckSeqNo);
          lastAckSeqNo := ack.seqNoExpected;
          expirationTimer := Never;
          if nextSendSeqNo > lastAckSeqNo {
            timerExpiration := packetBuffer[lastAckSeqNo];
            timerAhead := Earlier(At(now), timerExpiration);
            expirationTimer := timerExpiration;
          } else {
            timerExpiration := Never;
            if nextSendSeqNo < lastAckSeqNo {
              nextSendSeqNo := lastAckSeqNo;
            }
          }
          ScheduleNow(now);
        }
      }
    }
  }

  // ---------- what every event keeps ----------

  lemma FreedPrefix(buffer: map<int, Time>, start: int, x: int)
    requires start <= x && forall k :: start <= k < x ==> k in buffer
    ensures |Freed(buffer, start, x - 1)| == |buffer| - (x - start)
    decreases x - start
  {
    if start == x {
      assert Freed(buffer, start, x - 1) == buffer;
    } else {
      FreedPrefix(buffer, start, x - 1);
      assert Freed(buffer, start, x - 1) == Freed(buffer, start, x - 2) - {x - 1};
    }
  }

  lemma FireSendInv(cfg: Config, s: SenderState, now: real)
    requires SenderInv(cfg, s) && s.sendTimer.At?
    ensures SenderInv(cfg, FireSend(cfg, s, now).0)
  {
  }

  lemma FireExpirationInv(cfg: Config, s: SenderState, now: real)
    requires SenderInv(cfg, s)
    ensures SenderInv(cfg, FireExpiration(s, now)) && BufferEnd(FireExpiration(s, now)) == BufferEnd(s)
  {
    assert AllNever(s.buffer).Keys == s.buffer.Keys;
    assert |AllNever(s.buffer)| == |s.buffer|;
  }

  lemma AckInv(cfg: Config, s: SenderState, ack: Ack, now: real)
    requires SenderInv(cfg, s) && (!ack.hasBitError ==> s.lastAckSeqNo <= ack.seqNoExpected <= BufferEnd(s))
    ensures SenderInv(cfg, OnAck(cfg, s, ack, now)) && BufferEnd(OnAck(cfg, s, ack, now)) == BufferEnd(s)
  {
    if !ack.hasBitError {
      FreedPrefix(s.buffer, s.lastAckSeqNo, ack.seqNoExpected);
    }
  }

  lemma DataInv(cfg: Config, s: ReceiverState, d: Data)
    requires ReceiverInv(s)
    ensures ReceiverInv(OnData(cfg, s, d).0)
  {
  }
}
