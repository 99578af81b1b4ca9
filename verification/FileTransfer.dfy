/** Sending a file: cutting it into packets, damage on the way, and the receiver that writes it again. */
module FileTransfer {
  import opened Common
  import opened DataBuffer

  const DEFAULT_PAYLOAD_SIZE: nat := 1024
  const MAX_FILE_SIZE: nat := 1024

  function Min(a: nat, b: nat): nat {
    if a < b then a else b
  }

  // ---------- cutting the file ----------

  /** The payloads of a file: full ones, perhaps a shorter one, and an empty one as the end mark. */
  function Chunks(file: seq<Octet>): (c: seq<seq<Octet>>)
    ensures |c| > 0
  {
    var n := Min(|file|, DEFAULT_PAYLOAD_SIZE);
    if n == 0 then [[]] else [file[..n]] + Chunks(file[n..])
  }

  function Join(chunks: seq<seq<Octet>>): seq<Octet> {
    if chunks == [] then [] else chunks[0] + Join(chunks[1..])
  }

  /** Nothing is lost or added by cutting, and only the end mark is empty. */
  lemma {:induction false} ChunksJoin(file: seq<Octet>)
    ensures Join(Chunks(file)) == file
    ensures forall k :: 0 <= k < |Chunks(file)| ==> (Chunks(file)[k] == [] <==> k == |Chunks(file)| - 1)
  {
    var n := Min(|file|, DEFAULT_PAYLOAD_SIZE);
    if n > 0 {
      ChunksJoin(file[n..]);
      assert Chunks(file)[1..] == Chunks(file[n..]);
    } else {
      assert Join([[]]) == [] + Join([]);
    }
  }

  lemma {:induction false} ChunkCount(file: seq<Octet>)
    ensures (|Chunks(file)| - 2) * DEFAULT_PAYLOAD_SIZE < |file| <= (|Chunks(file)| - 1) * DEFAULT_PAYLOAD_SIZE
      || (file == [] && |Chunks(file)| == 1)
  {
    var n := Min(|file|, DEFAULT_PAYLOAD_SIZE);
    if n > 0 {
      ChunkCount(file[n..]);
    }
  }

  /** The number of packets is within the limit exactly when the file is. */
  lemma FitsExactly(file: seq<Octet>)
    ensures |Chunks(file)| <= MAX_FILE_SIZE <==> |file| <= (MAX_FILE_SIZE - 1) * DEFAULT_PAYLOAD_SIZE
  {
    hide Chunks;
    ChunkCount(file);
  }

  function Numbered(chunks: seq<seq<Octet>>): (p: seq<Packet>)
    ensures |p| == |chunks|
  {
    seq(|chunks|, k requires 0 <= k < |chunks| => Packet(k, false, chunks[k]))
  }

  /** The packets that carry a file. */
  function Packets(file: seq<Octet>): seq<Packet> {
    Numbered(Chunks(file))
  }

  /** A file open for reading. */
  class InputFile {
    const bytes: seq<Octet>
    var pos: nat

    constructor (bytes: seq<Octet>)
      ensures this.bytes == bytes && pos == 0
    {
      this.bytes, pos := bytes, 0;
    }

    method Read(n: nat) returns (chunk: seq<Octet>)
      requires pos <= |bytes|
      modifies this
      ensures pos == old(pos) + |chunk| <= |bytes| && chunk == bytes[old(pos)..pos] && |chunk| == Min(n, |bytes| - old(pos))
    {
      var end := Min(pos + n, |bytes|);
      chunk := bytes[pos..end];
      pos := end;
    }
  }

  function PacketsOf(s: seq<DataPacket>): (p: seq<Packet>)
    ensures |p| == |s|
  {
    seq(|s|, k requires 0 <= k < |s| => s[k].packet)
  }

  /** Read one packet. `ok` is false if an assertion of the buffer fails. */
  method ReadIntoBuffer(file: InputFile, buffer: DataBuffer, seqNo: int) returns (ok: bool, more: bool)
    requires file.pos <= |file.bytes| && buffer.Valid() && seqNo == buffer.minSeqNo + buffer.count
    modifies file, buffer, buffer.data
    ensures buffer.Valid() && buffer.minSeqNo == old(buffer.minSeqNo) && (ok ==> buffer.count == old(buffer.count) + 1)
    ensures ok <==> old(buffer.count) < buffer.maxCount
    ensures old(file.pos) <= file.pos <= |file.bytes|
    ensures file.pos - old(file.pos) == Min(DEFAULT_PAYLOAD_SIZE, |file.bytes| - old(file.pos))
    ensures more <==> file.pos > old(file.pos)
    ensures var packet := Packet(seqNo, false, file.bytes[old(file.pos)..file.pos]);
      ok ==> PacketsOf(buffer.Contents()) == PacketsOf(old(buffer.Contents())) + [packet]
  {
    hide Place;
    var chunk := file.Read(DEFAULT_PAYLOAD_SIZE);
    var p := new DataPacket(Packet(seqNo, false, chunk), Never);
    ok := buffer.Put(p);
    more := |chunk| > 0;
  }

  lemma FirstChunk(left: seq<Octet>)
    ensures var n := Min(|left|, DEFAULT_PAYLOAD_SIZE);
      Chunks(left) == [left[..n]] + if n == 0 then [] else Chunks(left[n..])
  {
  }

  lemma NumberOneMore(done: seq<seq<Octet>>, chunk: seq<Octet>)
    ensures Numbered(done) + [Packet(|done|, false, chunk)] == Numbered(done + [chunk])
  {
  }

  lemma Cut(file: seq<Octet>, pos: nat, end: nat)
    requires pos <= end <= |file|
    ensures file[pos..][..end - pos] == file[pos..end] && file[pos..][end - pos..] == file[end..]
  {
  }

  lemma NextChunk(all: seq<seq<Octet>>, done: seq<seq<Octet>>, left: seq<Octet>)
    requires all == done + Chunks(left)
    ensures var n := Min(|left|, DEFAULT_PAYLOAD_SIZE);
      all == done + [left[..n]] + if n == 0 then [] else Chunks(left[n..])
  {
    hide Chunks;
    FirstChunk(left);
  }

  /** What reading one chunk does to what has been read and what is left. */
  lemma ChunkRead(file: seq<Octet>, done: seq<seq<Octet>>, pos: nat, end: nat)
    requires pos <= end <= |file| && end - pos == Min(DEFAULT_PAYLOAD_SIZE, |file| - pos)
    requires Chunks(file) == done + Chunks(file[pos..])
    ensures var now := done + [file[pos..end]];
      && Chunks(file) == (if end == pos then now else now + Chunks(file[end..])) && |Chunks(file)| > |done|
      && Numbered(done) + [Packet(|done|, false, file[pos..end])] == Numbered(now)
  {
    hide Chunks, Numbered;
    NextChunk(Chunks(file), done, file[pos..]);
    Cut(file, pos, end);
    NumberOneMore(done, file[pos..end]);
    assert done + [file[pos..end]] + [] == done + [file[pos..end]];
  }

  /** The whole file, packet by packet. It fits if the buffer has room for its payloads and the end mark. */
  method ReadFileIntoBuffer(bytes: seq<Octet>) returns (ok: bool, buffer: DataBuffer, veryLastSeqNo: int)
    ensures ok <==> |bytes| <= (MAX_FILE_SIZE - 1) * DEFAULT_PAYLOAD_SIZE
    ensures ok ==> buffer.Valid() && buffer.minSeqNo == 0 && PacketsOf(buffer.Contents()) == Packets(bytes)
    ensures ok ==> veryLastSeqNo == |Packets(bytes)| - 1
  {
    hide Place, Join, Chunks, Numbered, PacketsOf, Packets, Min;
    var file := new InputFile(bytes);
    buffer := new DataBuffer(MAX_FILE_SIZE);
    veryLastSeqNo := 0;
    ghost var done: seq<seq<Octet>> := [];
    FitsExactly(bytes);
    PacketsAre(bytes);
    assert bytes[0..] == bytes;
    NothingYet();
    while true
      invariant buffer.Valid() && fresh(buffer) && fresh(buffer.data) && fresh(file)
      invariant buffer.maxCount == MAX_FILE_SIZE && buffer.minSeqNo == 0
      invariant file.bytes == bytes && file.pos <= |bytes| && veryLastSeqNo == buffer.count == |done|
      invariant Chunks(bytes) == done + Chunks(bytes[file.pos..]) && PacketsOf(buffer.Contents()) == Numbered(done)
      decreases |bytes| - file.pos
    {
      ghost var pos := file.pos;
      var more;
      ok, more := ReadIntoBuffer(file, buffer, veryLastSeqNo);
      ChunkRead(bytes, done, pos, file.pos);
      if !ok {
        return;
      }
      done := done + [bytes[pos..file.pos]];
      if !more {
        return;
      }
      veryLastSeqNo := veryLastSeqNo + 1;
    }
  }

  lemma PacketsAre(file: seq<Octet>)
    ensures Packets(file) == Numbered(Chunks(file))
  {
  }

  lemma NothingYet()
    ensures PacketsOf([]) == Numbered([]) == []
  {
  }

  // ---------- damage on the way ----------

  /** seqNo ^ 0xff on a 32-bit number. */
  function FlipLowByte(n: int): int {
    n + 255 - 2 * (n % 256)
  }

  lemma FlipBits(n: bv32)
    ensures n ^ 0xff == n + 255 - 2 * (n % 256)
  {
  }

  /** What comes out of the simulated network: with bit errors, the first byte of the payload or, if there is
      none, the number is damaged, and the packet says so. */
  function Proxied(p: Packet, bitError: bool): Packet {
    if !bitError then p.(hasErrors := false)
    else if p.data != [] then p.(hasErrors := true, data := [p.data[0] ^ 0xff] + p.data[1..])
    else p.(hasErrors := true, seqNo := FlipLowByte(p.seqNo))
  }

  /** A damaged packet says so and differs from the one sent, in one byte of its payload or, if it has none, in the
      low byte of its number; the same damage again would restore it. */
  lemma DamageShows(p: Packet)
    ensures var q := Proxied(p, true);
      && q.hasErrors && |q.data| == |p.data|
      && (q.data == p.data <==> p.data == []) && (q.seqNo == p.seqNo <==> p.data != [])
      && (forall i :: 1 <= i < |p.data| ==> q.data[i] == p.data[i])
      && q.seqNo / 256 == p.seqNo / 256 && (p.data == [] ==> q.seqNo % 256 == 255 - p.seqNo % 256)
      && (p.data != [] ==> q.data[0] & p.data[0] == 0 && q.data[0] | p.data[0] == 0xff)
      && Proxied(q, true) == p.(hasErrors := true)
  {
    if p.data != [] {
      var b := p.data[0];
      FlippedByte(b);
      assert p.data == [b] + p.data[1..];
      assert Proxied(p, true).data[1..] == p.data[1..];
    }
  }

  lemma FlippedByte(b: bv8)
    ensures b ^ 0xff != b && (b ^ 0xff) ^ 0xff == b
    ensures (b ^ 0xff) & b == 0 && (b ^ 0xff) | b == 0xff
  {
  }

  /** A packet in a flat buffer. */
  class MessageStruct {
    var seqNo: int
    var seqNoExpected: int
    var hasErrors: bool
    const data: array<Octet>

    constructor (seqNo: int, data: array<Octet>)
      ensures this.seqNo == seqNo && this.data == data && !hasErrors
    {
      this.seqNo, this.seqNoExpected, this.hasErrors, this.data := seqNo, -1, false, data;
    }

    function Value(): Packet
      reads this, data
    {
      Packet(seqNo, hasErrors, data[..])
    }

    /** Hand over a packet that the network delivers, and play evil if it arrived with bit errors. */
    method Deliver(bitError: bool)
      modifies this, data
      ensures Value() == Proxied(old(Value()), bitError)
      ensures seqNoExpected == if bitError && data.Length == 0 then FlipLowByte(-1) else -1
    {
      seqNoExpected := -1;
      hasErrors := bitError;
      if bitError {
        if data.Length > 0 {
          data[0] := data[0] ^ 0xff;
        } else {
          seqNo := FlipLowByte(seqNo);
          seqNoExpected := FlipLowByte(seqNoExpected);
        }
      }
    }
  }

  // ---------- the receiver ----------

  datatype Receiver = Receiver(lastReceivedSeqNo: int, goodBytes: int, totalBytes: int, output: seq<Octet>, closed: bool)

  const FRESH_RECEIVER := Receiver(-1, 0, 0, [], false)

  predicate Expected(r: Receiver, p: Packet) {
    !p.hasErrors && p.seqNo == r.lastReceivedSeqNo + 1
  }

  /** The state after a packet. */
  function OnPacket(r: Receiver, p: Packet): Receiver {
    var counted := r.(totalBytes := r.totalBytes + |p.data|);
    if !Expected(r, p) then counted
    else counted.(lastReceivedSeqNo := p.seqNo, output := r.output + p.data, goodBytes := r.goodBytes + |p.data|,
                  closed := r.closed || p.data == [])
  }

  /** The number that the acknowledgement of a packet asks for. */
  function AckFor(r: Receiver, p: Packet): Option<int> {
    if Expected(r, p) then Some(p.seqNo + 1) else None
  }

  class FileReceiver {
    var lastReceivedSeqNo: int
    var goodBytes: int
    var totalBytes: int
    var output: seq<Octet>
    var closed: bool

    constructor ()
      ensures State() == FRESH_RECEIVER
    {
      lastReceivedSeqNo, goodBytes, totalBytes, output, closed := -1, 0, 0, [], false;
    }

    function State(): Receiver
      reads this
    {
      Receiver(lastReceivedSeqNo, goodBytes, totalBytes, output, closed)
    }

    /** One round of the receive loop. */
    method Handle(data: Packet) returns (ack: Option<int>)
      modifies this
      ensures State() == OnPacket(old(State()), data) && ack == AckFor(old(State()), data)
    {
      ack := None;
      totalBytes := totalBytes + |data.data|;
      if data.hasErrors {
        return;
      }
      if data.seqNo != lastReceivedSeqNo + 1 {
        return;
      }
      lastReceivedSeqNo := data.seqNo;
      ack := Some(lastReceivedSeqNo + 1);
      output := output + data.data;
      goodBytes := goodBytes + |data.data|;
      if |data.data| == 0 {
        closed := true;
      }
    }
  }

  // ---------- whole transfers ----------

  /** The k-th packet of the file arrives, damaged or not. Packets may be lost, repeated and out of order. */
  datatype Arrival = Arrival(k: nat, bitError: bool)

  predicate FromFile(file: seq<Octet>, arrivals: seq<Arrival>) {
    forall i :: 0 <= i < |arrivals| ==> arrivals[i].k < |Packets(file)|
  }

  function Run(file: seq<Octet>, arrivals: seq<Arrival>): Receiver
    requires FromFile(file, arrivals)
  {
    if arrivals == [] then FRESH_RECEIVER
    else
      var n := |arrivals| - 1;
      OnPacket(Run(file, arrivals[..n]), Proxied(Packets(file)[arrivals[n].k], arrivals[n].bitError))
  }

  /** The acknowledgements sent meanwhile. */
  function Acks(file: seq<Octet>, arrivals: seq<Arrival>): seq<int>
    requires FromFile(file, arrivals)
  {
    if arrivals == [] then []
    else
      var n := |arrivals| - 1;
      var ack := AckFor(Run(file, arrivals[..n]), Proxied(Packets(file)[arrivals[n].k], arrivals[n].bitError));
      Acks(file, arrivals[..n]) + if ack.Some? then [ack.value] else []
  }

  lemma {:induction false} JoinOneMore(chunks: seq<seq<Octet>>, k: nat)
    requires k < |chunks|
    ensures Join(chunks[..k + 1]) == Join(chunks[..k]) + chunks[k]
  {
    if k > 0 {
      JoinOneMore(chunks[1..], k - 1);
      assert chunks[..k + 1][1..] == chunks[1..][..k] && chunks[..k][1..] == chunks[1..][..k - 1];
      assert chunks[0] + (Join(chunks[1..][..k - 1]) + chunks[k]) == chunks[0] + Join(chunks[1..][..k - 1]) + chunks[k];
    } else {
      assert chunks[..1] == [chunks[0]] && chunks[..0] == [];
      assert Join([chunks[0]]) == chunks[0] + Join([]);
    }
  }

  lemma {:induction false} JoinPrefix(chunks: seq<seq<Octet>>, k: nat)
    requires k <= |chunks|
    ensures Join(chunks[..k]) <= Join(chunks)
    decreases |chunks| - k
  {
    if k < |chunks| {
      JoinOneMore(chunks, k);
      JoinPrefix(chunks, k + 1);
    } else {
      assert chunks[..k] == chunks;
    }
  }

  function CountUp(m: nat): seq<int> {
    seq(m, i => i + 1)
  }

  /** Exactly the undamaged packet with the awaited number is accepted. */
  lemma WhatIsExpected(file: seq<Octet>, r: Receiver, a: Arrival)
    requires a.k < |Packets(file)|
    ensures var p := Proxied(Packets(file)[a.k], a.bitError);
      Expected(r, p) <==> !a.bitError && a.k == r.lastReceivedSeqNo + 1
    ensures !a.bitError ==> Proxied(Packets(file)[a.k], a.bitError) == Packet(a.k, false, Chunks(file)[a.k])
  {
    hide Chunks;
  }

  /** One more arrival either continues the sequence, or only adds to the bytes counted. */
  lemma RunStep(file: seq<Octet>, arrivals: seq<Arrival>)
    requires FromFile(file, arrivals) && arrivals != []
    ensures var (n, a) := (|arrivals| - 1, arrivals[|arrivals| - 1]);
      var (r, acks, next) := (Run(file, arrivals[..n]), Acks(file, arrivals[..n]), Run(file, arrivals));
      if !a.bitError && a.k == r.lastReceivedSeqNo + 1 then
        var chunk := Chunks(file)[a.k];
        && next == Receiver(a.k, r.goodBytes + |chunk|, r.totalBytes + |chunk|, r.output + chunk, r.closed || chunk == [])
        && Acks(file, arrivals) == acks + [a.k + 1]
      else
        && next.totalBytes >= r.totalBytes && next == r.(totalBytes := next.totalBytes) && Acks(file, arrivals) == acks
  {
    hide Chunks, Proxied, Expected;
    var n := |arrivals| - 1;
    WhatIsExpected(file, Run(file, arrivals[..n]), arrivals[n]);
  }

  /** The invariant of a transfer. */
  predicate Sound(file: seq<Octet>, r: Receiver, acks: seq<int>) {
    var m := r.lastReceivedSeqNo + 1;
    && 0 <= m <= |Packets(file)| && r.output == Join(Chunks(file)[..m]) && (r.closed <==> m == |Packets(file)|)
    && r.goodBytes == |r.output| <= r.totalBytes && acks == CountUp(m)
  }

  lemma {:induction false} RunInv(file: seq<Octet>, arrivals: seq<Arrival>)
    requires FromFile(file, arrivals)
    ensures Sound(file, Run(file, arrivals), Acks(file, arrivals))
  {
    if arrivals == [] {
      NothingJoined(Chunks(file));
    } else {
      RunInv(file, arrivals[..|arrivals| - 1]);
      RunInvStep(file, arrivals);
    }
  }

  lemma RunInvStep(file: seq<Octet>, arrivals: seq<Arrival>)
    requires FromFile(file, arrivals) && arrivals != []
    requires Sound(file, Run(file, arrivals[..|arrivals| - 1]), Acks(file, arrivals[..|arrivals| - 1]))
    ensures Sound(file, Run(file, arrivals), Acks(file, arrivals))
  {
    hide Chunks, Join, Run, Acks;
    RunStep(file, arrivals);
    ChunksJoin(file);
    var a := arrivals[|arrivals| - 1];
    if !a.bitError && a.k == Run(file, arrivals[..|arrivals| - 1]).lastReceivedSeqNo + 1 {
      JoinOneMore(Chunks(file), a.k);
      assert CountUp(a.k) + [a.k + 1] == CountUp(a.k + 1);
    }
  }

  lemma NothingJoined(chunks: seq<seq<Octet>>)
    ensures Join(chunks[..0]) == []
  {
  }

  /** Whatever arrives, the file written is a prefix of the file sent, and the whole of it once the end mark has
      been accepted. */
  lemma WrittenIsPrefix(file: seq<Octet>, arrivals: seq<Arrival>)
    requires FromFile(file, arrivals)
    ensures var r := Run(file, arrivals);
      r.output <= file && (r.closed ==> r.output == file) && r.goodBytes == |r.output| <= r.totalBytes
  {
    RunInv(file, arrivals);
    ChunksJoin(file);
    var m := Run(file, arrivals).lastReceivedSeqNo + 1;
    JoinPrefix(Chunks(file), m);
    if m == |Chunks(file)| {
      assert Chunks(file)[..m] == Chunks(file);
    }
  }

  /** Nothing is written or acknowledged after the end mark. */
  lemma NothingAfterClose(file: seq<Octet>, arrivals: seq<Arrival>, a: Arrival)
    requires FromFile(file, arrivals) && a.k < |Packets(file)| && Run(file, arrivals).closed
    ensures var (r, p) := (Run(file, arrivals), Proxied(Packets(file)[a.k], a.bitError));
      AckFor(r, p) == None && OnPacket(r, p) == r.(totalBytes := r.totalBytes + |p.data|)
  {
    hide Chunks, Proxied;
    RunInv(file, arrivals);
    WhatIsExpected(file, Run(file, arrivals), a);
  }

  /** The payload bytes of everything that arrived, accepted or not. */
  function Arrived(file: seq<Octet>, arrivals: seq<Arrival>): nat
    requires FromFile(file, arrivals)
  {
    if arrivals == [] then 0 else |Chunks(file)[arrivals[0].k]| + Arrived(file, arrivals[1..])
  }

  lemma {:induction false} ArrivedOneMore(file: seq<Octet>, arrivals: seq<Arrival>)
    requires FromFile(file, arrivals) && arrivals != []
    ensures var n := |arrivals| - 1;
      Arrived(file, arrivals) == Arrived(file, arrivals[..n]) + |Chunks(file)[arrivals[n].k]|
  {
    hide Chunks;
    if |arrivals| > 1 {
      ArrivedOneMore(file, arrivals[1..]);
      assert arrivals[1..][..|arrivals| - 2] == arrivals[..|arrivals| - 1][1..];
    }
  }

  /** All of them are counted. */
  lemma {:induction false} TotalCountsAll(file: seq<Octet>, arrivals: seq<Arrival>)
    requires FromFile(file, arrivals)
    ensures Run(file, arrivals).totalBytes == Arrived(file, arrivals)
  {
    hide Chunks, Expected;
    if arrivals != [] {
      TotalCountsAll(file, arrivals[..|arrivals| - 1]);
      ArrivedOneMore(file, arrivals);
    }
  }

  // ---------- when a transfer completes ----------

  /** At these rising positions the packets 0, 1, 2, ... arrive undamaged. */
  predicate InOrder(arrivals: seq<Arrival>, at: seq<nat>) {
    && (forall i :: 0 <= i < |at| ==> at[i] < |arrivals| && arrivals[at[i]] == Arrival(i, false))
    && (forall i, j :: 0 <= i < j < |at| ==> at[i] < at[j])
  }

  /** The number of packets accepted. */
  function Accepted(file: seq<Octet>, arrivals: seq<Arrival>): int
    requires FromFile(file, arrivals)
  {
    Run(file, arrivals).lastReceivedSeqNo + 1
  }

  /** What is accepted did arrive in order. */
  lemma {:induction false} AcceptedArrived(file: seq<Octet>, arrivals: seq<Arrival>) returns (at: seq<nat>)
    requires FromFile(file, arrivals)
    ensures InOrder(arrivals, at) && |at| == Accepted(file, arrivals)
  {
    hide Chunks, Proxied, Expected;
    if arrivals == [] {
      at := [];
    } else {
      var n := |arrivals| - 1;
      at := AcceptedArrived(file, arrivals[..n]);
      WhatIsExpected(file, Run(file, arrivals[..n]), arrivals[n]);
      if arrivals[n] == Arrival(|at|, false) {
        at := at + [n];
      }
    }
  }

  /** What arrives in order is accepted. */
  lemma {:induction false} ArrivedIsAccepted(file: seq<Octet>, arrivals: seq<Arrival>, at: seq<nat>)
    requires FromFile(file, arrivals) && InOrder(arrivals, at)
    ensures Accepted(file, arrivals) >= |at|
    decreases |arrivals|
  {
    hide Chunks, Proxied, Expected;
    if at != [] {
      var (n, m) := (|arrivals| - 1, |at| - 1);
      assert at[m] < |arrivals|;
      WhatIsExpected(file, Run(file, arrivals[..n]), arrivals[n]);
      if at[m] == n {
        ArrivedIsAccepted(file, arrivals[..n], at[..m]);
      } else {
        ArrivedIsAccepted(file, arrivals[..n], at);
      }
    } else {
      RunInv(file, arrivals);
    }
  }

  /** A transfer completes exactly when undamaged copies of all packets are among the arrivals in order, however
      many losses, repeats and damaged copies there are between them. */
  lemma CompletesExactlyWhen(file: seq<Octet>, arrivals: seq<Arrival>)
    requires FromFile(file, arrivals)
    ensures Run(file, arrivals).closed <==> exists at :: |at| == |Packets(file)| && InOrder(arrivals, at)
  {
    hide Run, FromFile, Chunks;
    RunInv(file, arrivals);
    var at := AcceptedArrived(file, arrivals);
    forall at | |at| == |Packets(file)| && InOrder(arrivals, at)
      ensures Accepted(file, arrivals) >= |at|
    {
      ArrivedIsAccepted(file, arrivals, at);
    }
  }
}
