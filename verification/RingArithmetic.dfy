/** 16-bit identifiers on a circle, read clockwise, with the wrap-around of uint16_t subtraction. */
module RingArithmetic {
  const MODULUS := 0x1_0000

  type Id = x: int | 0 <= x < MODULUS

  /** The clockwise distance from `start` to `x`: what `x - start` is in uint16_t. */
  function Offset(start: Id, x: Id): (r: Id)
    ensures r == (x - start) % MODULUS
  {
    if start <= x then x - start else x - start + MODULUS
  }

  /** `val` lies on the half-open arc [start, end). The arc of a node to itself is empty. */
  predicate InRange(start: Id, end: Id, val: Id) {
    Offset(start, val) < Offset(start, end)
  }

  /** `x` is the first other member met clockwise from `n`. */
  ghost predicate IsSuccessor(ring: set<Id>, n: Id, x: Id) {
    && x in ring && x != n
    && forall m :: m in ring && m != n ==> Offset(n, x) <= Offset(n, m)
  }

  /** Admitting `s` on the arc (d, x) splits it in two and leaves every other arc alone. */
  lemma Admit(ring: set<Id>, d: Id, x: Id, s: Id)
    requires d in ring && s !in ring && IsSuccessor(ring, d, x) && InRange(d, x, s)
    ensures IsSuccessor(ring + {s}, d, s)
    ensures IsSuccessor(ring + {s}, s, x)
    ensures forall n, y :: n in ring && n != d && IsSuccessor(ring, n, y) ==> IsSuccessor(ring + {s}, n, y)
  {
    forall n, y | n in ring && n != d && IsSuccessor(ring, n, y)
      ensures IsSuccessor(ring + {s}, n, y)
    {
      assert Offset(n, y) <= Offset(n, d) && Offset(d, x) <= Offset(d, n);
    }
    forall m | m in ring
      ensures Offset(s, x) <= Offset(s, m)
    {
      if m != d {
        assert Offset(d, x) <= Offset(d, m);
      }
    }
  }

  /** Every member of a ring of two or more has a successor. */
  lemma SuccessorExists(ring: set<Id>, n: Id) returns (x: Id)
    requires exists m :: m in ring && m != n
    ensures IsSuccessor(ring, n, x)
  {
    x :| x in ring && x != n;
    var rest := ring - {n, x};
    while rest != {}
      invariant rest <= ring - {n}
      invariant x in ring && x != n
      invariant forall m :: m in ring - rest && m != n ==> Offset(n, x) <= Offset(n, m)
    {
      var m :| m in rest;
      if Offset(n, m) < Offset(n, x) {
        x := m;
      }
      rest := rest - {m};
    }
  }

  lemma SuccessorUnique(ring: set<Id>, n: Id, x: Id, y: Id)
    requires IsSuccessor(ring, n, x) && IsSuccessor(ring, n, y)
    ensures x == y
  {
    assert Offset(n, x) == Offset(n, y);
  }

  /** Different members of a ring have different successors. */
  lemma SuccessorInjective(ring: set<Id>, n: Id, m: Id, x: Id)
    requires n in ring && m in ring && IsSuccessor(ring, n, x) && IsSuccessor(ring, m, x)
    ensures n == m
  {
    var there, back := Offset(n, m), Offset(m, n);
  }

  /** Every member of a ring of two or more is the successor of some member. */
  lemma PredecessorExists(ring: set<Id>, x: Id) returns (n: Id)
    requires x in ring && exists m :: m in ring && m != x
    ensures n in ring && IsSuccessor(ring, n, x)
  {
    n :| n in ring && n != x;
    var rest := ring - {n, x};
    while rest != {}
      invariant rest <= ring - {x}
      invariant n in ring && n != x
      invariant forall m :: m in ring - rest && m != x ==> Offset(n, x) <= Offset(m, x)
    {
      var m :| m in rest;
      if Offset(m, x) < Offset(n, x) {
        n := m;
      }
      rest := rest - {m};
    }
    forall m | m in ring && m != n
      ensures Offset(n, x) <= Offset(n, m)
    {
      if m != x {
        assert Offset(n, x) <= Offset(m, x);
      }
    }
  }
}
