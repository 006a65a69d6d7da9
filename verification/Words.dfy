/** 64-bit words as sets of flags. The bit operations are named so that clients
    reason with the laws below instead of bit by bit. */
module Words {

  type Word = bv64

  function Or(a: Word, b: Word): Word { a | b }

  function And(a: Word, b: Word): Word { a & b }

  predicate Overlap(a: Word, b: Word) { a & b != 0 }

  /** Every bit of `a` is a bit of `b`. */
  predicate Within(a: Word, b: Word) { And(a, b) == a }

  /** The mask, if it has a bit in common with `bits`. */
  function Pick(bits: Word, m: Word): Word { if Overlap(bits, m) then m else 0 }

  predicate IsSingleBit(m: Word) { m != 0 && m & (m - 1) == 0 }

  /** The word without its lowest set bit. */
  function ClearLowest(w: Word): Word { w & (w - 1) }

  lemma OrAssociates(a: Word, b: Word, c: Word)
    ensures Or(Or(a, b), c) == Or(a, Or(b, c))
  {
  }

  lemma OrCommutes(a: Word, b: Word)
    ensures Or(a, b) == Or(b, a)
  {
  }

  lemma OrUnit(a: Word)
    ensures Or(a, 0) == a && Or(0, a) == a && Or(a, a) == a
  {
  }

  lemma OverlapGrows(a: Word, b: Word, m: Word)
    requires Overlap(a, m)
    ensures Overlap(Or(a, b), m)
  {
  }

  lemma NoOverlapOfOr(a: Word, b: Word, m: Word)
    requires !Overlap(a, m) && !Overlap(b, m)
    ensures !Overlap(Or(a, b), m)
  {
  }

  lemma OverlapOfOr(a: Word, b: Word, m: Word)
    ensures Overlap(Or(a, b), m) <==> Overlap(a, m) || Overlap(b, m)
  {
    if Overlap(a, m) {
      OverlapGrows(a, b, m);
    } else if Overlap(b, m) {
      OrCommutes(a, b);
      OverlapGrows(b, a, m);
    } else {
      NoOverlapOfOr(a, b, m);
    }
  }

  lemma Distributes(m: Word, a: Word, b: Word)
    ensures m & (a | b) == (m & a) | (m & b)
  {
  }

  lemma AndOfOr(bits: Word, a: Word, b: Word)
    ensures And(bits, Or(a, b)) == Or(And(bits, a), And(bits, b))
  {
    calc {
      And(bits, Or(a, b));
      And(bits, a | b);
      bits & (a | b);
      { Distributes(bits, a, b); }
      (bits & a) | (bits & b);
      Or(bits & a, bits & b);
      Or(And(bits, a), And(bits, b));
    }
  }

  lemma OrWithin(a: Word, b: Word, c: Word)
    requires Within(a, c) && Within(b, c)
    ensures Within(Or(a, b), c)
  {
  }

  lemma WithinAntisymmetric(a: Word, b: Word)
    requires Within(a, b) && Within(b, a)
    ensures a == b
  {
  }

  lemma AndWithin(bits: Word, m: Word)
    ensures Within(And(bits, m), m)
    ensures !Overlap(bits, m) ==> And(bits, m) == 0
  {
  }

  lemma NothingIsWithin(bound: Word)
    ensures Within(0, bound)
  {
  }

  lemma WithinRefl(a: Word)
    ensures Within(a, a)
  {
  }

  lemma PickIsBetween(bits: Word, m: Word)
    ensures Within(And(bits, m), Pick(bits, m))
    ensures Within(Pick(bits, m), m)
  {
    AndWithin(bits, m);
    if Overlap(bits, m) {
      WithinRefl(m);
    } else {
      NothingIsWithin(m);
      NothingIsWithin(0);
    }
  }

  lemma OrMonotone(a: Word, b: Word, c: Word, d: Word)
    requires Within(a, c) && Within(b, d)
    ensures Within(Or(a, b), Or(c, d))
  {
  }

  lemma OrPartsWithin(a: Word, b: Word, bound: Word)
    requires Within(Or(a, b), bound)
    ensures Within(a, bound) && Within(b, bound)
  {
  }

  /** A union lies within a bound when both parts do. */
  lemma OrIsLeast(a: Word, b: Word, bound: Word)
    ensures Within(Or(a, b), bound) <==> Within(a, bound) && Within(b, bound)
  {
    if Within(a, bound) && Within(b, bound) {
      OrWithin(a, b, bound);
    }
    if Within(Or(a, b), bound) {
      OrPartsWithin(a, b, bound);
    }
  }

  lemma PickSingleBit(bits: Word, m: Word)
    requires IsSingleBit(m)
    ensures Pick(bits, m) == And(bits, m)
  {
  }

  lemma DistinctSingleBits(m: Word, n: Word)
    requires IsSingleBit(m) && IsSingleBit(n) && m != n
    ensures !Overlap(m, n)
  {
  }

  lemma AndCommutes(a: Word, b: Word)
    ensures And(a, b) == And(b, a) && Overlap(a, b) == Overlap(b, a)
  {
  }

  lemma NothingOutside(bits: Word, all: Word)
    requires bits & !all == 0
    ensures Within(bits, all)
  {
  }

  lemma SomethingOutside(bits: Word, all: Word)
    requires bits & !all != 0
    ensures !Within(bits, all)
  {
  }

  // ---------------------------------------------------------------------
  // Counting
  // ---------------------------------------------------------------------

  function Half(w: Word): Word { w >> 1 }

  function LowBit(w: Word): nat { if w & 1 == 1 then 1 else 0 }

  lemma HalfIsLess(w: Word)
    requires w != 0
    ensures Half(w) < w
  {
  }

  /** Number of one bits. */
  function Ones(w: Word): nat
    decreases w
  {
    if w == 0 then 0
    else
      HalfIsLess(w);
      LowBit(w) + Ones(Half(w))
  }

  lemma ClearLowestIsLess(w: Word)
    requires w != 0
    ensures ClearLowest(w) < w
  {
  }

  lemma ClearLowestOdd(w: Word)
    requires LowBit(w) == 1
    ensures LowBit(ClearLowest(w)) == 0 && Half(ClearLowest(w)) == Half(w)
  {
  }

  lemma ClearLowestEven(w: Word)
    requires LowBit(w) == 0 && w != 0
    ensures Half(w) != 0
    ensures LowBit(ClearLowest(w)) == 0
    ensures Half(ClearLowest(w)) == ClearLowest(Half(w))
  {
  }

  lemma OnesStep(w: Word)
    ensures Ones(w) == LowBit(w) + Ones(Half(w))
  {
  }

  /** Clearing the lowest set bit removes one bit. */
  lemma {:induction false} ClearLowestRemovesOne(w: Word)
    requires w != 0
    ensures Ones(ClearLowest(w)) == Ones(w) - 1
    decreases w
  {
    OnesStep(ClearLowest(w));
    if LowBit(w) == 1 {
      ClearLowestOdd(w);
    } else {
      ClearLowestEven(w);
      HalfIsLess(w);
      ClearLowestRemovesOne(Half(w));
    }
  }

  lemma HalvesOfUnion(a: Word, b: Word)
    requires !Overlap(a, b)
    ensures !Overlap(Half(a), Half(b))
    ensures Half(Or(a, b)) == Or(Half(a), Half(b))
    ensures LowBit(Or(a, b)) == LowBit(a) + LowBit(b)
  {
  }

  /** Words without a common bit count separately. */
  lemma {:induction false} OnesOfUnion(a: Word, b: Word)
    requires !Overlap(a, b)
    ensures Ones(Or(a, b)) == Ones(a) + Ones(b)
    decreases a
  {
    if a == 0 {
      OrUnit(b);
    } else {
      HalvesOfUnion(a, b);
      HalfIsLess(a);
      OnesStep(a);
      OnesStep(b);
      OnesStep(Or(a, b));
      OnesOfUnion(Half(a), Half(b));
    }
  }

  lemma OnesOfSingleBit(m: Word)
    requires IsSingleBit(m)
    ensures Ones(m) == 1
  {
  }
}
