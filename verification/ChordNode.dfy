/** One server of the ring: its two links and its three internal message handlers. */
module ChordNode {
  import opened Common
  import opened RingArithmetic

  /** Internal messages. `dest` is the addressee; the payload is one server's identity. */
  datatype Msg =
    | Join(dest: Id, src: Id)
    | Notify(dest: Id, srv: Id)
    | Stabilize(dest: Id, src: Id)

  datatype Links = Links(prev: Option<Id>, next: Option<Id>)

  /** What handling one message does: the new links and the messages sent. */
  datatype Reaction = Reaction(links: Links, sent: multiset<Msg>)

  /** A node without a successor takes itself to be alone. */
  predicate Admits(self: Id, links: Links, src: Id) {
    links.next.None? || InRange(self, links.next.value, src) || links.next.value == self
  }

  function OnJoin(self: Id, links: Links, src: Id): Reaction {
    if links.next.None? then
      Reaction(links.(next := Some(src)), multiset{Notify(src, self), Stabilize(src, self)})
    else if Admits(self, links, src) then
      Reaction(links.(next := Some(src)), multiset{Notify(src, links.next.value), Stabilize(src, self)})
    else
      Reaction(links, multiset{Join(links.next.value, src)})
  }

  function OnNotify(self: Id, links: Links, srv: Id): Reaction {
    if links.next.None? || (InRange(self, links.next.value, srv) && srv != self) then
      Reaction(links.(next := Some(srv)), multiset{Stabilize(srv, self)})
    else
      Reaction(links, multiset{})
  }

  function OnStabilize(self: Id, links: Links, src: Id): Reaction {
    if links.prev.None? || InRange(links.prev.value, self, src) then
      Reaction(links.(prev := Some(src)), multiset{Notify(src, src)})
    else
      Reaction(links, multiset{Notify(src, links.prev.value)})
  }

  function React(self: Id, links: Links, m: Msg): Reaction {
    match m
    case Join(_, src) => OnJoin(self, links, src)
    case Notify(_, srv) => OnNotify(self, links, srv)
    case Stabilize(_, src) => OnStabilize(self, links, src)
  }

  class DhtNode {
    const self: Id
    var prev: Option<Id>
    var next: Option<Id>

    ghost function View(): Links
      reads this
    {
      Links(prev, next)
    }

    constructor (id: Id)
      ensures self == id && View() == Links(None, None)
    {
      self := id;
      prev, next := None, None;
    }

    method SetNext(srv: Id) returns (sent: multiset<Msg>)
      modifies this`next
      ensures View() == old(View()).(next := Some(srv))
      ensures sent == multiset{Stabilize(srv, self)}
    {
      next := Some(srv);
      sent := multiset{Stabilize(srv, self)};
    }

    method HandleJoin(src: Id) returns (sent: multiset<Msg>)
      modifies this
      ensures Reaction(View(), sent) == OnJoin(self, old(View()), src)
    {
      if next.None? {
        sent := SetNext(src);
        sent := multiset{Notify(src, self)} + sent;
      } else if InRange(self, next.value, src) || next.value == self {
        var notify := multiset{Notify(src, next.value)};
        sent := SetNext(src);
        sent := notify + sent;
      } else {
        sent := multiset{Join(next.value, src)};
      }
    }

    method HandleNotify(srv: Id) returns (sent: multiset<Msg>)
      modifies this
      ensures Reaction(View(), sent) == OnNotify(self, old(View()), srv)
    {
      sent := multiset{};
      if next.None? || (InRange(self, next.value, srv) && srv != self) {
        sent := SetNext(srv);
      }
    }

    method HandleStabilize(src: Id) returns (sent: multiset<Msg>)
      modifies this
      ensures Reaction(View(), sent) == OnStabilize(self, old(View()), src)
    {
      if prev.None? || InRange(prev.value, self, src) {
        prev := Some(src);
      }
      sent := multiset{Notify(src, prev.value)};
    }

    /** Dispatch on the message type. */
    method Handle(m: Msg) returns (sent: multiset<Msg>)
      modifies this
      ensures Reaction(View(), sent) == React(self, old(View()), m)
    {
      match m
      case Join(_, src) => sent := HandleJoin(src);
      case Notify(_, srv) => sent := HandleNotify(srv);
      case Stabilize(_, src) => sent := HandleStabilize(src);
    }
  }
}
