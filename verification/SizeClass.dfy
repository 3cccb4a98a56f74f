/** tlsf_map of mm/allocator.c: which of the 19 times 8 size classes a size belongs to. */
module SizeClass {
  import opened Multiplication

  const MAX_FL: nat := 19
  const MAX_SL: nat := 8
  const CLASSES: nat := 152

  function Pow2(n: nat): (p: nat)
    ensures p > 0
  {
    if n == 0 then 1 else 2 * Pow2(n - 1)
  }

  /** 31 - __builtin_clz(n) */
  function Log2(n: nat): nat
    requires n > 0
  {
    if n < 2 then 0 else 1 + Log2(n / 2)
  }

  lemma {:induction false} Log2Bounds(n: nat)
    requires n > 0
    ensures Pow2(Log2(n)) <= n < 2 * Pow2(Log2(n))
  {
    if n < 2 {
    } else {
      Log2Bounds(n / 2);
    }
  }

  lemma {:induction false} Pow2Mono(a: nat, b: nat)
    requires a <= b
    ensures Pow2(a) <= Pow2(b)
    decreases b
  {
    if a == b {
    } else {
      Pow2Mono(a, b - 1);
    }
  }

  lemma {:induction false} Log2Is(n: nat, f: nat)
    requires n > 0 && Pow2(f) <= n < 2 * Pow2(f)
    ensures Log2(n) == f
    decreases f
  {
    if f == 0 {
    } else {
      Log2Is(n / 2, f - 1);
    }
  }

  datatype Class = Class(f: nat, s: nat)

  /** First and second level of size sz. */
  function Map(sz: nat): (c: Class)
    requires sz > 0
    ensures c.f < MAX_FL && c.s < MAX_SL
  {
    var f := if Log2(sz) < 3 then 3 else Log2(sz);
    var s := sz / Pow2(f - 3) % 8;
    if f >= MAX_FL then Class(MAX_FL - 1, MAX_SL - 1) else Class(f, s)
  }

  /** The table position of a class. */
  function Index(c: Class): nat { c.f * MAX_SL + c.s }

  function Slot(sz: nat): (q: nat)
    requires sz > 0
    ensures q < CLASSES
  {
    Index(Map(sz))
  }

  /** The least size of at least eight that maps to position q, for q from 24 on. */
  function Lower(q: nat): nat {
    (8 + q % 8) * Pow2(if q < 24 then 0 else q / 8 - 3)
  }

  predicate IsLowerBound(sz: nat)
    requires sz > 0
  {
    sz == Lower(Slot(sz))
  }

  lemma DivFacts(n: nat, p: nat)
    requires 0 < p
    ensures n / p * p <= n < (n / p + 1) * p
    ensures n % p == 0 <==> n == n / p * p
  {
    var q := n / p;
    assert n == q * p + n % p;
    assert (q + 1) * p == q * p + p;
  }

  lemma DivAtLeast(n: nat, p: nat, k: nat)
    requires 0 < p && k * p <= n
    ensures k <= n / p
  {
    DivFacts(n, p);
    if n / p < k {
      MulLe(n / p + 1, k, p);
      assert false;
    }
  }

  lemma DivBelow(n: nat, p: nat, k: nat)
    requires 0 < p && n < k * p
    ensures n / p < k
  {
    DivFacts(n, p);
    if k <= n / p {
      MulLe(k, n / p, p);
      assert false;
    }
  }

  /** The power of two that the second level of sz counts in. */
  function Step(sz: nat): (p: nat)
    requires sz > 0
    ensures p > 0
  {
    Pow2(if Log2(sz) < 3 then 0 else Log2(sz) - 3)
  }

  lemma PowerOfLog(sz: nat)
    requires sz >= 8
    ensures Log2(sz) >= 3 && 8 * Step(sz) <= sz < 16 * Step(sz)
  {
    Log2Bounds(sz);
    var f := Log2(sz);
    if f < 3 {
      Pow2Mono(f, 2);
      SmallPowers();
      assert false;
    }
    assert Pow2(f) == 2 * Pow2(f - 1) && Pow2(f - 1) == 2 * Pow2(f - 2) && Pow2(f - 2) == 2 * Pow2(f - 3);
  }

  lemma MapShape(sz: nat)
    requires sz >= 8
    ensures Log2(sz) >= 3 && 8 * Step(sz) <= sz < 16 * Step(sz) && 8 <= sz / Step(sz) < 16
    ensures sz / Step(sz) * Step(sz) <= sz < (sz / Step(sz) + 1) * Step(sz)
  {
    PowerOfLog(sz);
    DivAtLeast(sz, Step(sz), 8);
    DivBelow(sz, Step(sz), 16);
    DivFacts(sz, Step(sz));
  }

  lemma SmallPowers()
    ensures Pow2(0) == 1 && Pow2(1) == 2 && Pow2(2) == 4 && Pow2(3) == 8 && Pow2(4) == 16
  {
    assert Pow2(1) == 2 * Pow2(0);
    assert Pow2(2) == 2 * Pow2(1);
    assert Pow2(3) == 2 * Pow2(2);
    assert Pow2(4) == 2 * Pow2(3);
  }

  /** A size lies between the bounds of its class; only the last class has no upper bound. */
  lemma SlotBounds(sz: nat)
    requires sz >= 8
    ensures 24 <= Slot(sz) && Lower(Slot(sz)) <= sz
    ensures Slot(sz) < CLASSES - 1 ==> sz < Lower(Slot(sz) + 1)
  {
    MapShape(sz);
    if Log2(sz) >= MAX_FL {
      LastClass(Log2(sz) - 3);
    } else {
      InnerClass(sz);
    }
  }

  lemma InnerClass(sz: nat)
    requires sz >= 8 && 3 <= Log2(sz) < MAX_FL
    ensures 24 <= Slot(sz) && Lower(Slot(sz)) == sz / Step(sz) * Step(sz) &&
            Lower(Slot(sz) + 1) == (sz / Step(sz) + 1) * Step(sz)
  {
    MapShape(sz);
    var f, q := Log2(sz), sz / Step(sz);
    MapIs(sz, f, q);
    ClassStep(f, q);
  }

  lemma MapIs(sz: nat, f: nat, q: nat)
    requires sz > 0 && f == Log2(sz) && 3 <= f < MAX_FL && q == sz / Pow2(f - 3) && 8 <= q < 16
    ensures Map(sz) == Class(f, q - 8) && Slot(sz) == 8 * f + q - 8
  {
  }

  /** The first class of level f. */
  lemma FirstOfLevel(sz: nat, f: nat)
    requires 3 <= f < MAX_FL && Pow2(f) <= sz < Pow2(f) + Pow2(f - 3)
    ensures Slot(sz) == 8 * f
  {
    NextPower(f - 1);
    NextPower(f - 2);
    NextPower(f - 3);
    Log2Is(sz, f);
    DivAtLeast(sz, Pow2(f - 3), 8);
    DivBelow(sz, Pow2(f - 3), 9);
    MapIs(sz, f, 8);
  }

  lemma LastClass(n: nat)
    requires n >= 16
    ensures Lower(CLASSES - 1) <= 8 * Pow2(n)
  {
    Pow2Mono(16, n);
    ClassStep(18, 15);
    assert Pow2(16) == 2 * Pow2(15);
  }

  /** Level f counts in steps of Pow2(f - 3), from eight of them to fifteen. */
  lemma ClassStep(f: nat, q: nat)
    requires 3 <= f && 8 <= q < 16
    ensures Lower(8 * f + q - 8) == q * Pow2(f - 3)
    ensures Lower(8 * f + q - 7) == (q + 1) * Pow2(f - 3)
  {
    LowerOf(f, q - 8);
    if q < 15 {
      LowerOf(f, q - 7);
    } else {
      LowerOf(f + 1, 0);
      NextPower(f - 3);
    }
  }

  lemma LowerOf(f: nat, s: nat)
    requires 3 <= f && s < 8
    ensures Lower(8 * f + s) == (8 + s) * Pow2(f - 3)
  {
    assert (8 * f + s) / 8 == f && (8 * f + s) % 8 == s;
  }

  lemma NextPower(n: nat)
    ensures Pow2(n + 1) == 2 * Pow2(n)
  {
  }

  lemma {:induction false} LowerMono(q: nat, r: nat)
    requires 24 <= q <= r
    ensures Lower(q) <= Lower(r)
    decreases r
  {
    if q == r {
    } else {
      LowerMono(q, r - 1);
      LowerGrows(r - 1);
    }
  }

  /** From eight bytes on the map is monotone. */
  lemma MapMonotone(a: nat, b: nat)
    requires 8 <= a <= b
    ensures Slot(a) <= Slot(b)
  {
    SlotBounds(a);
    SlotBounds(b);
    if Slot(b) < Slot(a) {
      LowerMono(Slot(b) + 1, Slot(a));
      assert false;
    }
  }

  /** The first sixteen sizes wrap around the classes of the first level in use. */
  lemma FirstSizes(n: nat)
    requires 0 < n < 16
    ensures Slot(n) == 24 + n % 8
  {
    SmallPowers();
    if n >= 8 {
      Log2Is(n, 3);
    } else {
      assert Log2(n) < 3 by {
        assert n / 2 < 4 && n / 2 / 2 < 2;
      }
    }
    assert n / Pow2(0) == n;
  }

  /** A larger size lands in an earlier class only when it is at least 8 and less than 8 above a size below 8. */
  lemma MapMonotoneIff(a: nat, b: nat)
    requires 0 < a <= b
    ensures Slot(a) <= Slot(b) <==> !(a < 8 <= b < a + 8)
  {
    if a >= 8 {
      MapMonotone(a, b);
    } else {
      FirstSizes(a);
      if b < 16 {
        FirstSizes(b);
      } else {
        BehindFirst(b);
      }
    }
  }

  /** Sizes from 16 on lie behind the first level in use. */
  lemma BehindFirst(b: nat)
    requires b >= 16
    ensures Slot(b) >= 32
  {
    SmallPowers();
    FirstOfLevel(16, 4);
    MapMonotone(16, b);
  }

  /**
    Every size in the class of sz, or in a later one, is at least sz exactly when sz is the lower
    bound of its class.
  */
  lemma ClassFitsIff(sz: nat)
    requires sz >= 8
    ensures IsLowerBound(sz) <==> forall b | b >= 8 && Slot(b) >= Slot(sz) :: b >= sz
  {
    SlotBounds(sz);
    if IsLowerBound(sz) {
      forall b | b >= 8 && Slot(b) >= Slot(sz) ensures b >= sz {
        SlotBounds(b);
        LowerMono(Slot(sz), Slot(b));
      }
    } else {
      LowerInClass(Slot(sz));
      assert Slot(Lower(Slot(sz))) >= Slot(sz) && Lower(Slot(sz)) < sz;
    }
  }

  /** The lower bound of a class is in the class. */
  lemma LowerInClass(q: nat)
    requires 24 <= q < CLASSES
    ensures Lower(q) >= 8 && Slot(Lower(q)) == q
  {
    var sz := Lower(q);
    LowerMono(24, q);
    LowerGrows(q);
    SlotBounds(sz);
    if Slot(sz) < q {
      LowerMono(Slot(sz) + 1, q);
    } else if Slot(sz) > q {
      LowerMono(q + 1, Slot(sz));
    }
  }

  lemma LowerGrows(q: nat)
    requires q >= 24
    ensures Lower(24) == 8 && Lower(q) < Lower(q + 1)
  {
    var f, k := q / 8, q % 8 + 8;
    ClassStep(f, k);
    Distinguish(k, Pow2(f - 3));
  }

  lemma Distinguish(k: nat, p: nat)
    requires p > 0
    ensures k * p < (k + 1) * p
  {
  }

  /** Below the last class, the lower bounds are the multiples of the step. */
  lemma BoundIffMultiple(sz: nat)
    requires sz >= 8 && Log2(sz) < MAX_FL
    ensures IsLowerBound(sz) <==> sz % Step(sz) == 0
  {
    PowerOfLog(sz);
    InnerClass(sz);
    DivFacts(sz, Step(sz));
  }

  lemma SmallStep(sz: nat)
    requires 8 <= sz < 256
    ensures Log2(sz) < MAX_FL && (Step(sz) == 1 || Step(sz) == 2 || Step(sz) == 4 || Step(sz) == 8 || Step(sz) == 16)
  {
    PowerOfLog(sz);
    SmallPowers();
    NextPower(4);
    var n := Log2(sz) - 3;
    if n >= 5 {
      Pow2Mono(5, n);
      assert false;
    }
  }

  /** Every multiple of sixteen below 256 is the lower bound of its class. */
  lemma SmallSizesAreBounds(sz: nat)
    requires 16 <= sz < 256 && sz % 16 == 0
    ensures IsLowerBound(sz)
  {
    SmallStep(sz);
    MultipleOf16(sz, Step(sz));
    BoundIffMultiple(sz);
  }

  lemma MultipleOf16(n: nat, p: nat)
    requires n % 16 == 0 && (p == 1 || p == 2 || p == 4 || p == 8 || p == 16)
    ensures n % p == 0
  {
    var m := n / 16;
    assert n == 16 * m;
    assert (16 * m) % 16 == 0 && (8 * (2 * m)) % 8 == 0 && (4 * (4 * m)) % 4 == 0 && (2 * (8 * m)) % 2 == 0;
  }
}
