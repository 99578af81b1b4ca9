/** How far a buffer grows: to a power of two, computed with shifts. */
module PowersOfTwo {

  predicate IsPowerOfTwo(n: nat) {
    n == 1 || (n > 1 && n % 2 == 0 && IsPowerOfTwo(n / 2))
  }

  /** The size to grow to. */
  function Pow2gt(x: nat): (r: nat)
    requires x >= 1
    ensures IsPowerOfTwo(r) && x <= r
  {
    if x == 1 then 1 else 2 * Pow2gt((x + 1) / 2)
  }

  /** No smaller power of two would do. */
  lemma {:induction false} Pow2gtIsLeast(x: nat, q: nat)
    requires 1 <= x <= q && IsPowerOfTwo(q)
    ensures Pow2gt(x) <= q
  {
    if x > 1 {
      Pow2gtIsLeast((x + 1) / 2, q / 2);
    }
  }

  /** The bits below the highest one, all set. */
  function Smear(x: bv32): bv32 {
    var a := x | (x >> 1);
    var b := a | (a >> 2);
    var c := b | (b >> 4);
    var d := c | (c >> 8);
    d | (d >> 16)
  }

  /** Between a number and its double there is one power of two. */
  lemma {:induction false} OnePower(a: nat, b: nat)
    requires IsPowerOfTwo(a) && IsPowerOfTwo(b) && a <= b < 2 * a
    ensures a == b
  {
    if a > 1 {
      OnePower(a / 2, b / 2);
    }
  }

  /** The powers of two that are C ints. */
  const POWERS: seq<nat> := [
    0x1, 0x2, 0x4, 0x8, 0x10, 0x20, 0x40, 0x80, 0x100, 0x200, 0x400, 0x800, 0x1000, 0x2000, 0x4000,
    0x8000, 0x10000, 0x20000, 0x40000, 0x80000, 0x100000, 0x200000, 0x400000, 0x800000, 0x1000000,
    0x2000000, 0x4000000, 0x8000000, 0x10000000, 0x20000000, 0x40000000
  ]

  lemma {:induction false} PowersArePowers(k: nat)
    requires k < |POWERS|
    ensures IsPowerOfTwo(POWERS[k]) && (k > 0 ==> POWERS[k] == 2 * POWERS[k - 1])
  {
    if k > 0 {
      PowersArePowers(k - 1);
      assert POWERS[k] == 2 * POWERS[k - 1];
    }
  }

  // The shifts, one range of numbers after the other.

  lemma SmearFrom0(x: bv32) returns (k: nat)
    requires 1 <= x <= 0x100
    ensures k < |POWERS| && (Smear(x - 1) + 1) as nat == POWERS[k]
    ensures x as nat <= POWERS[k] && (k > 0 ==> POWERS[k - 1] < x as nat)
  {
    if x <= 0x1 {
      k := 0;
      assert Smear(x - 1) + 1 == 0x1;
    } else if x <= 0x2 {
      k := 1;
      assert Smear(x - 1) + 1 == 0x2;
    } else if x <= 0x4 {
      k := 2;
      assert Smear(x - 1) + 1 == 0x4;
    } else if x <= 0x8 {
      k := 3;
      assert Smear(x - 1) + 1 == 0x8;
    } else if x <= 0x10 {
      k := 4;
      assert Smear(x - 1) + 1 == 0x10;
    } else if x <= 0x20 {
      k := 5;
      assert Smear(x - 1) + 1 == 0x20;
    } else if x <= 0x40 {
      k := 6;
      assert Smear(x - 1) + 1 == 0x40;
    } else if x <= 0x80 {
      k := 7;
      assert Smear(x - 1) + 1 == 0x80;
    } else {
      k := 8;
      assert Smear(x - 1) + 1 == 0x100;
    }
  }

  lemma SmearFrom9(x: bv32) returns (k: nat)
    requires 0x100 < x <= 0x8000
    ensures k < |POWERS| && (Smear(x - 1) + 1) as nat == POWERS[k]
    ensures x as nat <= POWERS[k] && (k > 0 ==> POWERS[k - 1] < x as nat)
  {
    if x <= 0x200 {
      k := 9;
      assert Smear(x - 1) + 1 == 0x200;
    } else if x <= 0x400 {
      k := 10;
      assert Smear(x - 1) + 1 == 0x400;
    } else if x <= 0x800 {
      k := 11;
      assert Smear(x - 1) + 1 == 0x800;
    } else if x <= 0x1000 {
      k := 12;
      assert Smear(x - 1) + 1 == 0x1000;
    } else if x <= 0x2000 {
      k := 13;
      assert Smear(x - 1) + 1 == 0x2000;
    } else if x <= 0x4000 {
      k := 14;
      assert Smear(x - 1) + 1 == 0x4000;
    } else {
      k := 15;
      assert Smear(x - 1) + 1 == 0x8000;
    }
  }

  lemma SmearFrom16(x: bv32) returns (k: nat)
    requires 0x8000 < x <= 0x100000
    ensures k < |POWERS| && (Smear(x - 1) + 1) as nat == POWERS[k]
    ensures x as nat <= POWERS[k] && (k > 0 ==> POWERS[k - 1] < x as nat)
  {
    if x <= 0x10000 {
      k := 16;
      assert Smear(x - 1) + 1 == 0x10000;
    } else if x <= 0x20000 {
      k := 17;
      assert Smear(x - 1) + 1 == 0x20000;
    } else if x <= 0x40000 {
      k := 18;
      assert Smear(x - 1) + 1 == 0x40000;
    } else if x <= 0x80000 {
      k := 19;
      assert Smear(x - 1) + 1 == 0x80000;
    } else {
      k := 20;
      assert Smear(x - 1) + 1 == 0x100000;
    }
  }

  lemma SmearFrom21(x: bv32) returns (k: nat)
    requires 0x100000 < x <= 0x1000000
    ensures k < |POWERS| && (Smear(x - 1) + 1) as nat == POWERS[k]
    ensures x as nat <= POWERS[k] && (k > 0 ==> POWERS[k - 1] < x as nat)
  {
    if x <= 0x200000 {
      k := 21;
      assert Smear(x - 1) + 1 == 0x200000;
    } else if x <= 0x400000 {
      k := 22;
      assert Smear(x - 1) + 1 == 0x400000;
    } else if x <= 0x800000 {
      k := 23;
      assert Smear(x - 1) + 1 == 0x800000;
    } else {
      k := 24;
      assert Smear(x - 1) + 1 == 0x1000000;
    }
  }

  lemma SmearFrom25(x: bv32) returns (k: nat)
    requires 0x1000000 < x <= 0x8000000
    ensures k < |POWERS| && (Smear(x - 1) + 1) as nat == POWERS[k]
    ensures x as nat <= POWERS[k] && (k > 0 ==> POWERS[k - 1] < x as nat)
  {
    if x <= 0x2000000 {
      k := 25;
      assert Smear(x - 1) + 1 == 0x2000000;
    } else if x <= 0x4000000 {
      k := 26;
      assert Smear(x - 1) + 1 == 0x4000000;
    } else {
      k := 27;
      assert Smear(x - 1) + 1 == 0x8000000;
    }
  }

  lemma SmearFrom28(x: bv32) returns (k: nat)
    requires 0x8000000 < x <= 0x40000000
    ensures k < |POWERS| && (Smear(x - 1) + 1) as nat == POWERS[k]
    ensures x as nat <= POWERS[k] && (k > 0 ==> POWERS[k - 1] < x as nat)
  {
    if x <= 0x10000000 {
      k := 28;
      assert Smear(x - 1) + 1 == 0x10000000;
    } else if x <= 0x20000000 {
      k := 29;
      assert Smear(x - 1) + 1 == 0x20000000;
    } else {
      k := 30;
      assert Smear(x - 1) + 1 == 0x40000000;
    }
  }

  lemma WhichPower(x: bv32) returns (k: nat)
    requires 1 <= x <= 0x40000000
    ensures k < |POWERS| && (Smear(x - 1) + 1) as nat == POWERS[k]
    ensures x as nat <= POWERS[k] && (k > 0 ==> POWERS[k - 1] < x as nat)
  {
    hide Smear, POWERS;
    if x <= 0x100 {
      k := SmearFrom0(x);
    } else if x <= 0x8000 {
      k := SmearFrom9(x);
    } else if x <= 0x100000 {
      k := SmearFrom16(x);
    } else if x <= 0x1000000 {
      k := SmearFrom21(x);
    } else if x <= 0x8000000 {
      k := SmearFrom25(x);
    } else {
      k := SmearFrom28(x);
    }
  }

  lemma BetweenPowers(n: nat, k: nat)
    requires k < |POWERS| && 1 <= n <= POWERS[k] && (k > 0 ==> POWERS[k - 1] < n)
    ensures Pow2gt(n) == POWERS[k]
  {
    hide IsPowerOfTwo;
    assert POWERS[0] == 1;
    PowersArePowers(k);
    Pow2gtIsLeast(n, POWERS[k]);
    OnePower(Pow2gt(n), POWERS[k]);
  }

  /** The shifts of the source compute that power of two. */
  lemma SmearIsPow2gt(x: bv32)
    requires 1 <= x <= 0x40000000
    ensures x as nat >= 1 && (Smear(x - 1) + 1) as nat == Pow2gt(x as nat)
  {
    hide Smear, POWERS;
    AtLeastOne(x);
    var k := WhichPower(x);
    BetweenPowers(x as nat, k);
  }

  lemma AtLeastOne(x: bv32)
    requires x >= 1
    ensures x as nat >= 1
  {
  }

  /** Past this size the next power of two is no int, and the allocation is refused. */
  const LIMIT: nat := 0x4000_0000

  lemma GrowthIsLimited(x: nat)
    requires 1 <= x <= LIMIT
    ensures Pow2gt(x) <= LIMIT
  {
    assert POWERS[30] == LIMIT;
    PowersArePowers(30);
    Pow2gtIsLeast(x, LIMIT);
  }
}
