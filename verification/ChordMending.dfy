/** What the answer to a stabilize is for: on a ring whose links are not right, it hands a node the nearer successor
    that its link misses. Nothing here assumes the invariant, except where a run is named. */
module ChordMending {
  import opened Common
  import opened RingArithmetic
  import opened ChordNode
  import opened ChordProtocol
  import opened ChordRuns

  // ---------- a missed node is found ----------

  /** `n` points to `d` past `p`, which `d` knows. */
  ghost predicate Misses(r: Ring, n: Id, d: Id, p: Id) {
    && n in r.nodes && d in r.nodes && r.nodes[n].next == Some(d) && r.nodes[d].prev == Some(p)
    && p != n && InRange(n, d, p)
  }

  /** The stabilize of `n` is answered with the node it misses, and that answer corrects its link and announces the
      new one. */
  lemma StabilizeMends(r: Ring, n: Id, d: Id, p: Id)
    requires Misses(r, n, d, p) && Stabilize(d, n) in r.net
    ensures var r1 := Next(r, Deliver(Stabilize(d, n)));
      && r1.nodes == r.nodes && r1.net == r.net - multiset{Stabilize(d, n)} + multiset{Notify(n, p)}
      && var r2 := Next(r1, Deliver(Notify(n, p)));
         && r2.nodes == r.nodes[n := r.nodes[n].(next := Some(p))]
         && r2.net == r.net - multiset{Stabilize(d, n)} + multiset{Stabilize(p, n)}
         && Offset(n, p) < Offset(n, d)
  {
    hide Offset;
    PastIsOutside(n, d, p);
    var r1 := Next(r, Deliver(Stabilize(d, n)));
    assert r.nodes[d := r.nodes[d]] == r.nodes;
    var r2 := Next(r1, Deliver(Notify(n, p)));
    assert r2.net == r1.net - multiset{Notify(n, p)} + multiset{Stabilize(p, n)};
  }

  /** One answer after the other corrects the link of `n` until no node that its successor knows lies between them. */
  lemma {:induction false} AnswersMend(r: Ring, n: Id, d: Id) returns (steps: seq<Step>)
    requires n in r.nodes && r.nodes[n].next == Some(d) && d in r.nodes && Stabilize(d, n) in r.net
    requires forall x :: x in r.nodes && r.nodes[x].prev.Some? ==> r.nodes[x].prev.value in r.nodes
    ensures Executable(r, steps) && forall step :: step in steps ==> step.Deliver?
    ensures var end := Execute(r, steps);
      && end.nodes.Keys == r.nodes.Keys && (forall x :: x in r.nodes && x != n ==> end.nodes[x] == r.nodes[x])
      && end.nodes[n].next.Some? && Offset(n, end.nodes[n].next.value) <= Offset(n, d)
      && forall p :: !Misses(end, n, end.nodes[n].next.value, p)
    decreases Offset(n, d)
  {
    hide Offset, InRange, Next, Enabled, Execute, Executable;
    NoSteps(r);
    if p :| Misses(r, n, d, p) {
      StabilizeMends(r, n, d, p);
      var (one, two) := (Deliver(Stabilize(d, n)), Deliver(Notify(n, p)));
      BothEnabled(r, n, d, p);
      var r2 := Next(Next(r, one), two);
      var rest := AnswersMend(r2, n, p);
      steps := [one] + ([two] + rest);
      RunFirst(Next(r, one), two, rest);
      RunFirst(r, one, [two] + rest);
    } else {
      steps := [];
    }
  }

  lemma NoSteps(r: Ring)
    ensures Executable(r, []) && Execute(r, []) == r
  {
  }

  lemma BothEnabled(r: Ring, n: Id, d: Id, p: Id)
    requires Misses(r, n, d, p) && Stabilize(d, n) in r.net
    ensures Enabled(r, Deliver(Stabilize(d, n))) && Enabled(Next(r, Deliver(Stabilize(d, n))), Deliver(Notify(n, p)))
  {
    hide Offset;
    StabilizeMends(r, n, d, p);
  }

  lemma RunFirst(r: Ring, step: Step, rest: seq<Step>)
    requires Enabled(r, step) && Executable(Next(r, step), rest)
    ensures Executable(r, [step] + rest) && Execute(r, [step] + rest) == Execute(Next(r, step), rest)
  {
    assert ([step] + rest)[1..] == rest;
  }

  lemma PastIsOutside(n: Id, d: Id, p: Id)
    requires p != n && InRange(n, d, p)
    ensures !InRange(p, d, n) && n != d && p != d
  {
  }

  // ---------- links only get nearer ----------

  /** No step ever moves a link away from its node, or takes one back. A node linked to itself, the farthest link
      there is, is excepted: the first newcomer replaces it. */
  lemma LinksOnlyShorten(r: Ring, step: Step, n: Id, x: Id)
    requires Enabled(r, step) && n in r.nodes && r.nodes[n].next == Some(x) && x != n
    ensures var r' := Next(r, step);
      n in r'.nodes && r'.nodes[n].next.Some? && Offset(n, r'.nodes[n].next.value) <= Offset(n, x)
  {
  }

  lemma PrevsOnlyShorten(r: Ring, step: Step, n: Id, p: Id)
    requires Enabled(r, step) && n in r.nodes && r.nodes[n].prev == Some(p)
    ensures var r' := Next(r, step);
      n in r'.nodes && r'.nodes[n].prev.Some? && Offset(r'.nodes[n].prev.value, n) <= Offset(p, n)
  {
  }

  /** A node that is linked to itself takes in whoever asks. */
  lemma LoopAdmitsAll(r: Ring, n: Id, src: Id)
    requires n in r.nodes && r.nodes[n].next == Some(n) && Join(n, src) in r.net
    ensures var r' := Next(r, Deliver(Join(n, src)));
      && r'.nodes[n].next == Some(src) && src in r'.members
      && r'.net == r.net - multiset{Join(n, src)} + multiset{Notify(src, n), Stabilize(src, n)}
  {
  }

  /** A notify with the node's own name is dropped once it has a link. */
  lemma OwnNameIsIgnored(r: Ring, n: Id)
    requires n in r.nodes && r.nodes[n].next.Some? && Notify(n, n) in r.net
    ensures Next(r, Deliver(Notify(n, n))) == r.(net := r.net - multiset{Notify(n, n)})
  {
    assert r.nodes[n := r.nodes[n]] == r.nodes;
  }

  // ---------- every stabilize is answered ----------

  /** The nearer of the old `prev` and the sender, seen backwards from `d`. */
  ghost predicate IsNearer(was: Option<Id>, src: Id, d: Id, p: Id) {
    && (Some(p) == was || p == src) && Offset(p, d) <= Offset(src, d)
    && (was.Some? ==> Offset(p, d) <= Offset(was.value, d))
  }

  /** In every reachable state a stabilize is answered by one notify, which names the node that `prev` then is: the
      nearer of the one it was and the sender. */
  lemma StabilizeIsAnswered(creator: Id, steps: seq<Step>, d: Id, src: Id) returns (p: Id)
    requires Executable(Created(creator), steps) && Stabilize(d, src) in Execute(Created(creator), steps).net
    ensures var r := Execute(Created(creator), steps);
      && d in r.nodes
      && IsNearer(r.nodes[d].prev, src, d, p)
      && Next(r, Deliver(Stabilize(d, src))) == r.(nodes := r.nodes[d := r.nodes[d].(prev := Some(p))],
                                                  net := r.net - multiset{Stabilize(d, src)} + multiset{Notify(src, p)})
  {
    CreatedInv(creator);
    ExecuteInv(Created(creator), steps);
    var r := Execute(Created(creator), steps);
    assert MsgInside(r, Stabilize(d, src)) && LinksInside(r, d);
    p := NearerAnswers(r, d, src);
  }

  lemma NearerAnswers(r: Ring, d: Id, src: Id) returns (p: Id)
    requires d in r.nodes && src != d && r.nodes[d].prev != Some(d)
    ensures IsNearer(r.nodes[d].prev, src, d, p)
    ensures Next(r, Deliver(Stabilize(d, src))) == r.(nodes := r.nodes[d := r.nodes[d].(prev := Some(p))],
                                                     net := r.net - multiset{Stabilize(d, src)} + multiset{Notify(src, p)})
  {
    p := Next(r, Deliver(Stabilize(d, src))).nodes[d].prev.value;
  }
}
