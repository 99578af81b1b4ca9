/** Client requests on a complete ring: forwarded clockwise to the owner of the key, served there. */
module DistributedStore {
  import opened Common
  import opened RingArithmetic
  import opened StringHash
  import opened ChordNode
  import opened ChordProtocol
  import opened ChordRuns
  import HashTable

  const DELETE_MASK: bv8 := 1
  const SET_MASK: bv8 := 2
  const GET_MASK: bv8 := 4
  const ACKNOWLEDGMENT_MASK: bv8 := 8

  datatype Request = Request(action: bv8, transaction: Byte, key: Bytes, value: Bytes)
  datatype Reply = Reply(action: bv8, transaction: Byte, key: Bytes, value: Bytes)

  type Table = map<Bytes, Bytes>

  // ---------- one node ----------

  /** What serving a request does to a map: delete, then set, then get, each if its bit is set. A delete
      or get of a missing key clears its bit in the reply. */
  function Serve(table: Table, req: Request): (Table, Reply) {
    var deleting := req.action & DELETE_MASK != 0;
    var action1 := if deleting && req.key !in table then req.action ^ DELETE_MASK else req.action;
    var table1 := if deleting then table - {req.key} else table;
    var table2 := if req.action & SET_MASK != 0 then table1[req.key := req.value] else table1;
    if req.action & GET_MASK == 0 then
      (table2, Reply(action1 ^ ACKNOWLEDGMENT_MASK, req.transaction, [], []))
    else if req.key in table2 then
      (table2, Reply(action1 ^ ACKNOWLEDGMENT_MASK, req.transaction, req.key, table2[req.key]))
    else
      (table2, Reply(action1 ^ GET_MASK ^ ACKNOWLEDGMENT_MASK, req.transaction, [], []))
  }

  /** The key belongs to the arc from this node to its successor. */
  predicate IsKeyInRange(self: Id, next: Option<Id>, hash: Id) {
    next.None? || InRange(self, next.value, hash)
  }

  datatype Outcome = Answer(reply: Reply) | Forward(dest: Id)

  class Server {
    const self: Id
    var next: Option<Id>
    const table: HashTable.HashTable

    constructor (id: Id)
      ensures self == id && next == None && table.Valid() && table.Model() == map[]
    {
      self, next := id, None;
      table := new HashTable.HashTable();
    }

    /** Carry out one request on the local table. */
    method Process(req: Request) returns (reply: Reply)
      requires table.Valid()
      modifies table, table.elems, table.repr
      ensures table.Valid() && (table.Model(), reply) == Serve(old(table.Model()), req)
    {
      hide HashTable.HashTable.Valid, HashTable.HashTable.Model;
      DeleteKeepsTheOtherBits(req.action);
      var action := req.action;
      if action & DELETE_MASK != 0 {
        var found := table.DeleteKey(req.key);
        if !found {
          action := action ^ DELETE_MASK;
        }
      }
      if action & SET_MASK != 0 {
        table.SetValue(req.key, req.value);
      }
      var key, value: Bytes := [], [];
      if action & GET_MASK != 0 {
        var got := table.GetValue(req.key);
        if got.None? {
          action := action ^ GET_MASK;
        } else {
          key, value := req.key, got.value;
        }
      }
      reply := Reply(action ^ ACKNOWLEDGMENT_MASK, req.transaction, key, value);
    }

    /** Serve the request if the key is in range, else name the node to forward it to. */
    method HandleExtMsg(req: Request) returns (r: Outcome)
      requires table.Valid()
      modifies table, table.elems, table.repr
      ensures table.Valid()
      ensures r.Answer? <==> IsKeyInRange(self, next, Hash(req.key))
      ensures r.Answer? ==> (table.Model(), r.reply) == Serve(old(table.Model()), req)
      ensures r.Forward? ==> Some(r.dest) == next && table.Model() == old(table.Model())
    {
      hide HashTable.HashTable.Valid, HashTable.HashTable.Model, Serve;
      var hash := StringHash.StringHash(req.key);
      if IsKeyInRange(self, next, hash) {
        var reply := Process(req);
        r := Answer(reply);
      } else {
        r := Forward(next.value);
      }
    }
  }

  lemma DeleteKeepsTheOtherBits(action: bv8)
    ensures (action ^ DELETE_MASK) & SET_MASK == action & SET_MASK
    ensures (action ^ DELETE_MASK) & GET_MASK == action & GET_MASK
  {
  }

  // ---------- routing ----------

  /** The successor of a member on a complete ring; a node alone has none. */
  ghost function NextOf(ring: set<Id>, n: Id): Option<Id>
    requires n in ring
  {
    if |ring| >= 2 then Some(Successor(ring, n)) else None
  }

  ghost predicate Owns(ring: set<Id>, n: Id, hash: Id)
    requires n in ring
  {
    IsKeyInRange(n, NextOf(ring, n), hash)
  }

  lemma LoneNode(r: Ring, n: Id)
    requires WellFormed(r) && n in r.members && n in r.nodes && |r.members| < 2
    ensures r.nodes[n].next.None?
  {
    assert LinksInside(r, n);
    if r.nodes[n].next.Some? {
      SubsetSize({n, r.nodes[n].next.value}, r.members);
    }
  }

  /** On a ring that has become complete, every node's own `next` is the one used here, and it grants a
      join request exactly when it owns the newcomer's identifier. */
  lemma CompleteRingLinks(r: Ring, n: Id, src: Id)
    requires Inv(r) && r.net == multiset{} && n in r.nodes
    ensures n in r.members && NextOf(r.members, n) == r.nodes[n].next
    ensures Admits(n, r.nodes[n], src) <==> Owns(r.members, n, src)
  {
    hide WellFormed, JoinsTravel, LinksRight, LinksAnnounced, Offset;
    QuietIsComplete(r);
    if |r.members| < 2 {
      LoneNode(r, n);
    } else {
      assert |{n}| == 1;
      assert CompleteAt(r, n);
      SuccessorUnique(r.members, n, r.nodes[n].next.value, Successor(r.members, n));
    }
  }

  lemma OwnerExists(ring: set<Id>, hash: Id) returns (n: Id)
    requires ring != {}
    ensures n in ring && Owns(ring, n, hash)
  {
    n :| n in ring;
    var rest := ring - {n};
    while rest != {}
      invariant rest <= ring && n in ring
      invariant forall m :: m in ring - rest ==> Offset(n, hash) <= Offset(m, hash)
    {
      var m :| m in rest;
      if Offset(m, hash) < Offset(n, hash) {
        n := m;
      }
      rest := rest - {m};
    }
    if |ring| >= 2 {
      var x := Successor(ring, n);
      assert x in ring - rest && Offset(n, hash) <= Offset(x, hash);
    }
  }

  lemma OwnerUnique(ring: set<Id>, n: Id, m: Id, hash: Id)
    requires n in ring && m in ring && Owns(ring, n, hash) && Owns(ring, m, hash)
    ensures n == m
  {
    if |ring| >= 2 {
      var x, y := Successor(ring, n), Successor(ring, m);
      assert n != m ==> Offset(n, x) <= Offset(n, m) && Offset(m, y) <= Offset(m, n);
    } else if n != m {
      SubsetSize({n, m}, ring);
    }
  }

  /** Every 16-bit hash has exactly one owner. */
  lemma ExactlyOneOwner(ring: set<Id>, hash: Id)
    requires ring != {}
    ensures exists n :: n in ring && Owns(ring, n, hash)
    ensures forall n, m :: n in ring && m in ring && Owns(ring, n, hash) && Owns(ring, m, hash) ==> n == m
  {
    var n := OwnerExists(ring, hash);
    forall n, m | n in ring && m in ring && Owns(ring, n, hash) && Owns(ring, m, hash)
      ensures n == m
    {
      OwnerUnique(ring, n, m, hash);
    }
  }

  /** It is the last member at or before the hash, clockwise. */
  lemma OwnerIsNearest(ring: set<Id>, n: Id, hash: Id)
    requires n in ring
    ensures Owns(ring, n, hash) <==> forall m :: m in ring ==> Offset(n, hash) <= Offset(m, hash)
  {
    if |ring| >= 2 {
      var x := Successor(ring, n);
      if Owns(ring, n, hash) {
        forall m | m in ring && m != n
          ensures Offset(n, hash) <= Offset(m, hash)
        {
          assert Offset(n, x) <= Offset(n, m);
        }
      } else {
        assert Offset(x, hash) < Offset(n, hash);
      }
    } else {
      forall m | m in ring
        ensures m == n
      {
        SubsetSize({n, m}, ring);
      }
    }
  }

  /** Where a request, or a join, for `hash` that enters at `n` ends up, and after how many forwards. */
  ghost function Route(ring: set<Id>, n: Id, hash: Id): (r: (Id, nat))
    requires n in ring
    ensures r.0 in ring && Owns(ring, r.0, hash)
    decreases Offset(n, hash)
  {
    if Owns(ring, n, hash) then (n, 0) else
      var x := NextOf(ring, n).value;
      ForwardComesCloser(n, x, hash);
      var (owner, hops) := Route(ring, x, hash);
      (owner, hops + 1)
  }

  ghost function Closer(ring: set<Id>, n: Id, hash: Id): set<Id> {
    set m | m in ring && Offset(m, hash) < Offset(n, hash)
  }

  /** Every forward leaves fewer members that are closer to the target, so the owner is reached in fewer
      hops than there are members. */
  lemma {:induction false} RouteIsShort(ring: set<Id>, n: Id, hash: Id)
    requires n in ring
    ensures Route(ring, n, hash).1 <= |Closer(ring, n, hash)| < |ring|
    decreases Offset(n, hash)
  {
    assert n !in Closer(ring, n, hash);
    SubsetSize(Closer(ring, n, hash), ring - {n});
    if !Owns(ring, n, hash) {
      var x := NextOf(ring, n).value;
      ForwardComesCloser(n, x, hash);
      RouteIsShort(ring, x, hash);
      SubsetSize(Closer(ring, x, hash), Closer(ring, n, hash) - {x});
    }
  }

  // ---------- the store as one map ----------

  /** Each node holds exactly the part of `m` whose keys it owns: the union of the tables is `m`, and a
      key lives nowhere but at its owner. */
  ghost predicate Agree(ring: set<Id>, tables: map<Id, Table>, m: Table) {
    && tables.Keys == ring
    && forall n :: n in ring ==> tables[n] == Part(ring, n, m)
  }

  ghost function Part(ring: set<Id>, n: Id, m: Table): Table
    requires n in ring
  {
    map k | k in m && Owns(ring, n, Hash(k)) :: m[k]
  }

  /** One request that enters at `entry`, served by the owner of its key. */
  ghost function ServeAt(ring: set<Id>, tables: map<Id, Table>, entry: Id, req: Request): (map<Id, Table>, Reply)
    requires entry in ring && tables.Keys == ring
  {
    var owner := Route(ring, entry, Hash(req.key)).0;
    var (table, reply) := Serve(tables[owner], req);
    (tables[owner := table], reply)
  }

  /** Serving touches no key but the one of the request. */
  lemma ServeIsLocal(a: Table, b: Table, req: Request)
    requires req.key in a <==> req.key in b
    requires req.key in a ==> a[req.key] == b[req.key]
    ensures Serve(a, req).1 == Serve(b, req).1
    ensures req.key in Serve(a, req).0 <==> req.key in Serve(b, req).0
    ensures req.key in Serve(a, req).0 ==> Serve(a, req).0[req.key] == Serve(b, req).0[req.key]
    ensures forall k :: k != req.key ==> (k in Serve(a, req).0 <==> k in a)
    ensures forall k :: k != req.key && k in a ==> Serve(a, req).0[k] == a[k]
  {
  }

  lemma ServeAgrees(ring: set<Id>, tables: map<Id, Table>, m: Table, entry: Id, req: Request)
    requires entry in ring && Agree(ring, tables, m)
    ensures ServeAt(ring, tables, entry, req).1 == Serve(m, req).1
    ensures Agree(ring, ServeAt(ring, tables, entry, req).0, Serve(m, req).0)
  {
    var hash := Hash(req.key);
    var owner := Route(ring, entry, hash).0;
    var m' := Serve(m, req).0;
    OwnerPart(ring, owner, m, req);
    hide Serve, Part, Owns, Hash;
    forall n | n in ring
      ensures ServeAt(ring, tables, entry, req).0[n] == Part(ring, n, m')
    {
      if n == owner {
        OwnerPart(ring, n, m, req);
      } else {
        OtherPart(ring, n, owner, m, req);
      }
    }
  }

  lemma OwnerPart(ring: set<Id>, n: Id, m: Table, req: Request)
    requires n in ring && Owns(ring, n, Hash(req.key))
    ensures Serve(Part(ring, n, m), req).0 == Part(ring, n, Serve(m, req).0)
    ensures Serve(Part(ring, n, m), req).1 == Serve(m, req).1
  {
    hide Serve, Owns, Hash;
    ServeIsLocal(Part(ring, n, m), m, req);
    ServeIsLocal(m, m, req);
  }

  lemma OtherPart(ring: set<Id>, n: Id, owner: Id, m: Table, req: Request)
    requires n in ring && owner in ring && n != owner && Owns(ring, owner, Hash(req.key))
    ensures Part(ring, n, Serve(m, req).0) == Part(ring, n, m)
  {
    hide Serve, Hash, Successor, IsSuccessor, Offset, NextOf;
    ServeIsLocal(m, m, req);
    if Owns(ring, n, Hash(req.key)) {
      OwnerUnique(ring, n, owner, Hash(req.key));
    }
  }

  ghost predicate Enters(ring: set<Id>, work: seq<(Id, Request)>) {
    forall i :: 0 <= i < |work| ==> work[i].0 in ring
  }

  ghost function ServeAll(ring: set<Id>, tables: map<Id, Table>, work: seq<(Id, Request)>): (map<Id, Table>, seq<Reply>)
    requires Enters(ring, work) && tables.Keys == ring
    decreases |work|
  {
    if work == [] then (tables, []) else
      var (tables1, reply) := ServeAt(ring, tables, work[0].0, work[0].1);
      var (tables2, replies) := ServeAll(ring, tables1, work[1..]);
      (tables2, [reply] + replies)
  }

  ghost function ServeOne(m: Table, work: seq<(Id, Request)>): (Table, seq<Reply>)
    decreases |work|
  {
    if work == [] then (m, []) else
      var (m1, reply) := Serve(m, work[0].1);
      var (m2, replies) := ServeOne(m1, work[1..]);
      (m2, [reply] + replies)
  }

  lemma {:induction false} RingIsOneMapFrom(ring: set<Id>, tables: map<Id, Table>, m: Table, work: seq<(Id, Request)>)
    requires Enters(ring, work) && Agree(ring, tables, m)
    ensures ServeAll(ring, tables, work).1 == ServeOne(m, work).1
    ensures Agree(ring, ServeAll(ring, tables, work).0, ServeOne(m, work).0)
    decreases |work|
  {
    if work != [] {
      hide Agree, ServeAt, Serve;
      AgreeKeys(ring, tables, m);
      ServeAgrees(ring, tables, m, work[0].0, work[0].1);
      var tables1, m1 := ServeAt(ring, tables, work[0].0, work[0].1).0, Serve(m, work[0].1).0;
      AgreeKeys(ring, tables1, m1);
      RingIsOneMapFrom(ring, tables1, m1, work[1..]);
    }
  }

  lemma AgreeKeys(ring: set<Id>, tables: map<Id, Table>, m: Table)
    requires Agree(ring, tables, m)
    ensures tables.Keys == ring
  {
  }

  /** Any sequence of requests, entering anywhere, is answered as one single map would answer it. */
  lemma RingIsOneMap(ring: set<Id>, work: seq<(Id, Request)>)
    requires Enters(ring, work)
    ensures var empty := map n | n in ring :: map[];
      && ServeAll(ring, empty, work).1 == ServeOne(map[], work).1
      && Agree(ring, ServeAll(ring, empty, work).0, ServeOne(map[], work).0)
  {
    var empty: map<Id, Table> := map n | n in ring :: map[];
    RingIsOneMapFrom(ring, empty, map[], work);
  }

  // ---------- over the links the protocol makes ----------

  ghost predicate Quiet(r: Ring) {
    Inv(r) && r.net == multiset{}
  }

  lemma QuietLinks(r: Ring, n: Id)
    requires Quiet(r) && n in r.nodes
    ensures r.nodes.Keys == r.members
    ensures NextOf(r.members, n) == r.nodes[n].next
    ensures forall hash :: IsKeyInRange(n, r.nodes[n].next, hash) <==> Owns(r.members, n, hash)
    ensures r.nodes[n].next.Some? ==> r.nodes[n].next.value in r.nodes && r.nodes[n].next.value != n
  {
    hide LinksRight, LinksAnnounced, JoinsTravel, IsSuccessor, InRange, Offset;
    QuietMembers(r);
    CompleteRingLinks(r, n, n);
    assert LinksInside(r, n);
  }

  /** The node that serves a request which every node before it has sent to its own `next`. */
  ghost function Follow(r: Ring, n: Id, hash: Id): (owner: Id)
    requires Quiet(r) && n in r.nodes
    ensures owner in r.nodes && IsKeyInRange(owner, r.nodes[owner].next, hash)
    decreases Offset(n, hash)
  {
    if IsKeyInRange(n, r.nodes[n].next, hash) then n else
      var x := r.nodes[n].next.value;
      QuietLinks(r, n);
      ForwardComesCloser(n, x, hash);
      Follow(r, x, hash)
  }

  lemma {:induction false} FollowIsRoute(r: Ring, n: Id, hash: Id)
    requires Quiet(r) && n in r.nodes
    ensures r.nodes.Keys == r.members && Follow(r, n, hash) == Route(r.members, n, hash).0
    decreases Offset(n, hash)
  {
    hide Quiet, Owns, Successor;
    QuietLinks(r, n);
    if !IsKeyInRange(n, r.nodes[n].next, hash) {
      ForwardComesCloser(n, r.nodes[n].next.value, hash);
      FollowIsRoute(r, r.nodes[n].next.value, hash);
    }
  }

  /** Requests served one after the other, each at the node its own trip over the links ends at. */
  ghost function FollowAll(r: Ring, tables: map<Id, Table>, work: seq<(Id, Request)>): (map<Id, Table>, seq<Reply>)
    requires Quiet(r) && Enters(r.nodes.Keys, work) && tables.Keys == r.nodes.Keys
    decreases |work|
  {
    if work == [] then (tables, []) else
      var owner := Follow(r, work[0].0, Hash(work[0].1.key));
      var (table, reply) := Serve(tables[owner], work[0].1);
      var (tables2, replies) := FollowAll(r, tables[owner := table], work[1..]);
      (tables2, [reply] + replies)
  }

  lemma {:induction false} FollowAllServes(r: Ring, tables: map<Id, Table>, work: seq<(Id, Request)>)
    requires Quiet(r) && r.nodes.Keys == r.members && Enters(r.members, work) && tables.Keys == r.members
    ensures FollowAll(r, tables, work) == ServeAll(r.members, tables, work)
    decreases |work|
  {
    hide Quiet, Serve, Hash, Follow, Route;
    if work != [] {
      FollowIsRoute(r, work[0].0, Hash(work[0].1.key));
      FollowAllServes(r, ServeAt(r.members, tables, work[0].0, work[0].1).0, work[1..]);
    }
  }

  /** Whatever joins a run has carried out: once no message is in flight, the nodes answer any requests over
      their own links as one single map would. */
  lemma JoinedRingIsOneMap(creator: Id, steps: seq<Step>, work: seq<(Id, Request)>)
    requires Executable(Created(creator), steps) && Execute(Created(creator), steps).net == multiset{}
    requires Enters(Execute(Created(creator), steps).nodes.Keys, work)
    ensures var r := Execute(Created(creator), steps); var empty := map n | n in r.nodes :: map[];
      && Quiet(r) && r.members == r.nodes.Keys
      && FollowAll(r, empty, work).1 == ServeOne(map[], work).1
      && Agree(r.nodes.Keys, FollowAll(r, empty, work).0, ServeOne(map[], work).0)
  {
    hide JoinsTravel, LinksRight, LinksAnnounced, Agree, Serve;
    CreatedInv(creator);
    ExecuteInv(Created(creator), steps);
    var r := Execute(Created(creator), steps);
    QuietMembers(r);
    var empty: map<Id, Table> := map n | n in r.nodes :: map[];
    assert empty == map n | n in r.members :: map[];
    FollowAllServes(r, empty, work);
    RingIsOneMap(r.members, work);
  }
}
