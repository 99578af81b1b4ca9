/** What clients of the store may rely on, told by the requests alone: which of them set a key, which deleted it, and
    in what order. */
module StoreLaws {
  import opened Common
  import opened RingArithmetic
  import opened StringHash
  import opened ChordProtocol
  import opened ChordRuns
  import opened DistributedStore

  type Work = seq<(Id, Request)>

  predicate Deletes(req: Request) {
    req.action & DELETE_MASK != 0
  }

  predicate Sets(req: Request) {
    req.action & SET_MASK != 0
  }

  predicate Gets(req: Request) {
    req.action & GET_MASK != 0
  }

  /** Request `j` is what the first `n` requests leave of `key`: it sets the key, and no later one of them sets or
      deletes it. Within one request deleting comes before setting. */
  ghost predicate LastSet(work: Work, n: nat, key: Bytes, j: int) {
    && 0 <= j < n <= |work| && work[j].1.key == key && Sets(work[j].1)
    && forall i :: j < i < n && work[i].1.key == key ==> !Sets(work[i].1) && !Deletes(work[i].1)
  }

  ghost predicate Present(work: Work, n: nat, key: Bytes) {
    exists j :: LastSet(work, n, key, j)
  }

  /** The reply to request `i`. */
  ghost predicate RightReply(work: Work, i: nat, reply: Reply)
    requires i < |work|
  {
    var req := work[i].1;
    && reply.transaction == req.transaction
    // The acknowledgement bit is flipped, and all but three bits are as they were.
    && reply.action & ACKNOWLEDGMENT_MASK == (req.action & ACKNOWLEDGMENT_MASK) ^ 8
    && reply.action & 0xF2 == req.action & 0xF2
    // A delete is confirmed if there was something to delete.
    && (reply.action & DELETE_MASK != 0 <==> Deletes(req) && Present(work, i, req.key))
    // A get is confirmed if there is something to get, and then answered with the last value set.
    && (reply.action & GET_MASK != 0 <==> Gets(req) && Present(work, i + 1, req.key))
    && (reply.action & GET_MASK != 0 ==>
          && reply.key == req.key
          && forall j :: LastSet(work, i + 1, req.key, j) ==> reply.value == work[j].1.value)
    && (reply.action & GET_MASK == 0 ==> reply.key == [] && reply.value == [])
  }

  // ---------- one map ----------

  /** The map after the first `n` requests. */
  ghost function After(work: Work, n: nat): Table
    requires n <= |work|
  {
    if n == 0 then map[] else Serve(After(work, n - 1), work[n - 1].1).0
  }

  /** It holds exactly the keys that are present, with the values last set. */
  ghost predicate HoldsLast(work: Work, n: nat, m: Table, key: Bytes) {
    && (key in m <==> Present(work, n, key))
    && forall j :: LastSet(work, n, key, j) ==> key in m && m[key] == work[j].1.value
  }

  lemma LastSetBounds(work: Work, n: nat, key: Bytes, j: int)
    requires LastSet(work, n, key, j)
    ensures 0 <= j < n <= |work|
  {
  }

  lemma LastSetStep(work: Work, n: nat, key: Bytes, j: int)
    requires 0 < n <= |work|
    ensures LastSet(work, n, key, j) <==>
      if work[n - 1].1.key != key || (!Sets(work[n - 1].1) && !Deletes(work[n - 1].1)) then LastSet(work, n - 1, key, j)
      else Sets(work[n - 1].1) && j == n - 1
  {
    hide Sets, Deletes;
  }

  lemma PresentStep(work: Work, n: nat, key: Bytes)
    requires 0 < n <= |work|
    ensures Present(work, n, key) <==>
      if work[n - 1].1.key != key || (!Sets(work[n - 1].1) && !Deletes(work[n - 1].1)) then Present(work, n - 1, key)
      else Sets(work[n - 1].1)
  {
    hide LastSet, Sets, Deletes;
    var req := work[n - 1].1;
    LastSetStep(work, n, key, n - 1);
    if Present(work, n, key) {
      var j :| LastSet(work, n, key, j);
      LastSetStep(work, n, key, j);
    }
    if Present(work, n - 1, key) {
      var j :| LastSet(work, n - 1, key, j);
      LastSetStep(work, n, key, j);
    }
  }

  /** The effect of one request on one key. */
  lemma ServeKey(m: Table, req: Request, key: Bytes)
    ensures var m' := Serve(m, req).0;
      && (key in m' <==> if req.key != key || (!Sets(req) && !Deletes(req)) then key in m else Sets(req))
      && (key in m' ==> m'[key] == if req.key == key && Sets(req) then req.value else if key in m then m[key] else [])
  {
  }

  lemma {:induction false} AfterHolds(work: Work, n: nat, key: Bytes)
    requires n <= |work|
    ensures HoldsLast(work, n, After(work, n), key)
  {
    hide LastSet, Sets, Deletes, Serve;
    if n > 0 {
      AfterHolds(work, n - 1, key);
      ServeKey(After(work, n - 1), work[n - 1].1, key);
      PresentStep(work, n, key);
      forall j | LastSet(work, n, key, j)
        ensures 0 <= j < |work| && key in After(work, n) && After(work, n)[key] == work[j].1.value
      {
        LastSetBounds(work, n, key, j);
        LastSetStep(work, n, key, j);
      }
    } else {
      assert forall j :: !LastSet(work, 0, key, j) by {
        NoneBefore(work, key);
      }
    }
  }

  lemma NoneBefore(work: Work, key: Bytes)
    ensures forall j :: !LastSet(work, 0, key, j)
  {
  }

  /** The bits of a reply. */
  lemma ReplyBits(m: Table, req: Request)
    ensures var (m', reply) := Serve(m, req);
      && reply.transaction == req.transaction
      && reply.action & ACKNOWLEDGMENT_MASK == (req.action & ACKNOWLEDGMENT_MASK) ^ 8
      && reply.action & 0xF2 == req.action & 0xF2
      && (reply.action & DELETE_MASK != 0 <==> Deletes(req) && req.key in m)
      && (reply.action & GET_MASK != 0 <==> Gets(req) && req.key in m')
      && (reply.action & GET_MASK != 0 ==> req.key in m' && reply.key == req.key && reply.value == m'[req.key])
      && (reply.action & GET_MASK == 0 ==> reply.key == [] && reply.value == [])
  {
  }

  lemma AfterReplies(work: Work, i: nat)
    requires i < |work|
    ensures RightReply(work, i, Serve(After(work, i), work[i].1).1)
  {
    hide Serve, LastSet, Present, Sets, Gets, Deletes, DELETE_MASK, GET_MASK, ACKNOWLEDGMENT_MASK;
    AfterHolds(work, i, work[i].1.key);
    AfterHolds(work, i + 1, work[i].1.key);
    ReplyBits(After(work, i), work[i].1);
  }

  /** The replies of the one map, from any point on. */
  lemma {:induction false} RepliesFrom(work: Work, n: nat)
    requires n <= |work|
    ensures var (m, replies) := ServeOne(After(work, n), work[n..]);
      && m == After(work, |work|) && |replies| == |work| - n
      && forall i :: 0 <= i < |replies| ==> replies[i] == Serve(After(work, n + i), work[n + i].1).1
    decreases |work| - n
  {
    hide Serve;
    if n < |work| {
      RepliesFrom(work, n + 1);
      assert work[n..][1..] == work[n + 1..];
      var (m, replies) := ServeOne(After(work, n), work[n..]);
      forall i | 0 <= i < |replies|
        ensures replies[i] == Serve(After(work, n + i), work[n + i].1).1
      {
        if i > 0 {
          assert replies[i] == ServeOne(After(work, n + 1), work[n + 1..]).1[i - 1];
          assert n + i == n + 1 + (i - 1);
        }
      }
    }
  }

  ghost predicate RightReplies(work: Work, replies: seq<Reply>) {
    |replies| == |work| && forall i :: 0 <= i < |work| ==> RightReply(work, i, replies[i])
  }

  lemma OneMapIsRight(work: Work)
    ensures ServeOne(map[], work).0 == After(work, |work|) && RightReplies(work, ServeOne(map[], work).1)
  {
    hide ServeOne, RightReply, Serve;
    RepliesFrom(work, 0);
    assert work[0..] == work;
    forall i | 0 <= i < |work|
      ensures RightReply(work, i, ServeOne(map[], work).1[i])
    {
      AfterReplies(work, i);
      assert 0 + i == i;
    }
  }

  // ---------- the ring ----------

  /** Every key that is present stands at its owner, with the value last set, and nowhere else. */
  ghost predicate RightTables(ring: set<Id>, work: Work, tables: map<Id, Table>) {
    && tables.Keys == ring
    && (forall n, key :: n in ring ==> (key in tables[n] <==> Owns(ring, n, Hash(key)) && Present(work, |work|, key)))
    && (forall n, key, j :: n in ring && key in tables[n] && LastSet(work, |work|, key, j) ==>
          tables[n][key] == work[j].1.value)
  }

  lemma TablesAreRight(ring: set<Id>, work: Work, tables: map<Id, Table>)
    requires Agree(ring, tables, After(work, |work|))
    ensures RightTables(ring, work, tables)
  {
    hide Serve, LastSet, Present, Hash, Owns, After;
    forall n, key | n in ring
      ensures key in tables[n] <==> Owns(ring, n, Hash(key)) && Present(work, |work|, key)
    {
      AfterHolds(work, |work|, key);
    }
    forall n, key, j | n in ring && key in tables[n] && LastSet(work, |work|, key, j)
      ensures 0 <= j < |work| && tables[n][key] == work[j].1.value
    {
      LastSetBounds(work, |work|, key, j);
      AfterHolds(work, |work|, key);
    }
  }

  /** Whatever joins a run has carried out: once no message is in flight, every reply to every sequence of requests is
      right, and so are the tables afterwards. */
  lemma StoreKeepsItsPromise(creator: Id, steps: seq<Step>, work: Work)
    requires Executable(Created(creator), steps) && Execute(Created(creator), steps).net == multiset{}
    requires Enters(Execute(Created(creator), steps).nodes.Keys, work)
    ensures var r := Execute(Created(creator), steps); var empty: map<Id, Table> := map n | n in r.nodes :: map[];
      && Quiet(r) && r.members == r.nodes.Keys
      && RightReplies(work, FollowAll(r, empty, work).1) && RightTables(r.members, work, FollowAll(r, empty, work).0)
  {
    hide Quiet, FollowAll, ServeOne, Agree, RightReplies, RightTables, After, Execute, Executable, Enters;
    JoinedRingIsOneMap(creator, steps, work);
    OneMapIsRight(work);
    var r := Execute(Created(creator), steps);
    var empty: map<Id, Table> := map n | n in r.nodes :: map[];
    TablesAreRight(r.members, work, FollowAll(r, empty, work).0);
  }
}
