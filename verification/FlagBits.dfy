/** 32-bit flag words and the few laws of their bits that the wait for thread flags needs. */
module FlagBits {
  function Or(a: bv32, b: bv32): bv32 {
    a | b
  }

  function And(a: bv32, b: bv32): bv32 {
    a & b
  }

  /** a without the bits of b. */
  function Minus(a: bv32, b: bv32): bv32 {
    a & !b
  }

  predicate HasOption(options: bv32, option: bv32) {
    options & option == option
  }

  predicate AtMostOneBit(a: bv32) {
    a & (a - 1) == 0
  }

  lemma OrZero(a: bv32)
    ensures Or(0, a) == a && And(a, 0) == 0 && Minus(a, 0) == a
  {
  }

  lemma Swaps(a: bv32, b: bv32)
    ensures Or(a, b) == Or(b, a) && And(a, b) == And(b, a)
  {
  }

  lemma DistributesBits(flags: bv32, a: bv32, b: bv32)
    ensures flags & (a | b) == (flags & a) | (flags & b)
  {
  }

  lemma IsOr(a: bv32, b: bv32)
    ensures Or(a, b) == a | b
  {
  }

  lemma IsAnd(a: bv32, b: bv32)
    ensures And(a, b) == a & b
  {
  }

  lemma Distributes(flags: bv32, a: bv32, b: bv32)
    ensures And(flags, Or(a, b)) == Or(And(flags, a), And(flags, b))
  {
    hide Or, And;
    IsOr(a, b);
    IsAnd(flags, a | b);
    IsAnd(flags, a);
    IsAnd(flags, b);
    IsOr(flags & a, flags & b);
    DistributesBits(flags, a, b);
  }

  lemma MasksOnce(flags: bv32, b: bv32)
    ensures And(flags, And(flags, b)) == And(flags, b)
  {
  }

  lemma MaskedOr(flags: bv32, a: bv32, b: bv32)
    ensures And(flags, Or(a, And(flags, b))) == And(flags, Or(b, a))
  {
    hide And, Or;
    Distributes(flags, a, And(flags, b));
    MasksOnce(flags, b);
    Distributes(flags, a, b);
    Swaps(a, b);
  }

  lemma MaskAgain(flags: bv32, a: bv32, b: bv32, n: bv32)
    ensures Or(And(Or(a, And(flags, b)), flags), n) == Or(n, And(flags, Or(b, a)))
  {
    hide And, Or;
    Swaps(Or(a, And(flags, b)), flags);
    MaskedOr(flags, a, b);
    Swaps(And(flags, Or(b, a)), n);
  }

  lemma MaskZero(flags: bv32, a: bv32)
    ensures Or(And(0, flags), a) == Or(a, And(flags, 0))
  {
    hide And, Or;
    Swaps(0, flags);
    Swaps(And(flags, 0), a);
  }

  lemma PartOf(flags: bv32, a: bv32, b: bv32)
    requires Or(a, b) == flags
    ensures And(flags, a) == a && And(flags, flags) == flags && Minus(Minus(a, flags), b) == 0
  {
  }

  /** If v keeps all of w, and w all of u, then v together with its own bits keeps u and v. */
  lemma KeepsBoth(u: bv32, w: bv32, v: bv32)
    requires Minus(u, w) == 0 && Minus(w, v) == 0
    ensures Minus(Or(u, v), v) == 0
  {
  }

  lemma KeepsItself(v: bv32)
    ensures Minus(v, v) == 0
  {
  }

  lemma HoldsFlags(flags: bv32, u: bv32, v: bv32)
    requires Minus(u, v) == 0 && And(flags, u) == flags
    ensures And(flags, v) == flags
  {
  }

  lemma OneBitBits(flags: bv32, u: bv32, v: bv32)
    requires flags & (flags - 1) == 0 && (u == 0 || flags & u != flags) && flags & (u | v) == flags
    ensures flags & v == flags
  {
  }

  /** A single flag arrives whole; before the first wake-up nothing has arrived. */
  lemma OneBitArrives(flags: bv32, u: bv32, v: bv32)
    requires AtMostOneBit(flags) && (u == 0 || And(flags, u) != flags) && And(flags, Or(u, v)) == flags
    ensures And(flags, v) == flags
  {
    OneBitBits(flags, u, v);
  }

  lemma LowestBit(flags: bv32)
    requires flags & (flags - 1) != 0
    ensures (flags & (flags - 1)) | (flags & !(flags - 1)) == flags
    ensures flags & (flags - 1) != flags && flags & (flags & !(flags - 1)) != flags
  {
  }

  /** Two flags or more can arrive in two parts. */
  lemma TwoParts(flags: bv32) returns (a: bv32, b: bv32)
    requires !AtMostOneBit(flags)
    ensures Or(a, b) == flags && a != flags && And(flags, b) != flags
  {
    a, b := flags & (flags - 1), flags & !(flags - 1);
    LowestBit(flags);
  }

  lemma OneAndTwo()
    ensures Or(1, 2) == 3 && And(3, 1) != 3 && And(3, 2) != 3 && Or(2, 1) == 3
  {
  }

  // ----- Single bits -----

  predicate OneBit(m: bv32) {
    m != 0 && m & (m - 1) == 0
  }

  predicate Share(a: bv32, b: bv32) {
    a & b != 0
  }

  lemma OrIsNonZero(x: bv32, y: bv32)
    ensures x | y != 0 <==> x != 0 || y != 0
  {
  }

  lemma ShareOr(m: bv32, a: bv32, b: bv32)
    ensures Share(m, Or(a, b)) <==> Share(m, a) || Share(m, b)
  {
    hide Or;
    IsOr(a, b);
    DistributesBits(m, a, b);
    OrIsNonZero(m & a, m & b);
  }

  lemma ShareZero(m: bv32)
    ensures !Share(m, 0)
  {
  }

  lemma AllOrNothing(m: bv32, x: bv32)
    requires OneBit(m)
    ensures And(m, x) == 0 || And(m, x) == m
  {
  }

  lemma Regroup(m: bv32, a: bv32, b: bv32)
    ensures And(m, And(a, b)) == And(And(m, a), b) && And(0, b) == 0
  {
  }

  lemma ShareIs(a: bv32, b: bv32)
    ensures Share(a, b) <==> And(a, b) != 0
  {
  }

  lemma ShareAnd(m: bv32, a: bv32, b: bv32)
    requires OneBit(m)
    ensures Share(m, And(a, b)) <==> Share(m, a) && Share(m, b)
  {
    hide *;
    ShareIs(m, And(a, b));
    ShareIs(m, a);
    ShareIs(m, b);
    AllOrNothing(m, a);
    Regroup(m, a, b);
  }

  /** A bit of `flags` that u has not. */
  lemma MissingBit(flags: bv32, u: bv32) returns (m: bv32)
    requires And(flags, u) != flags
    ensures OneBit(m) && Share(m, flags) && !Share(m, u)
  {
    var d := flags & !u;
    m := d & (!d + 1);
    LowestOf(d);
    InBoth(m, flags, u);
  }

  lemma LowestOf(d: bv32)
    requires d != 0
    ensures OneBit(d & (!d + 1)) && d & (!d + 1) & !d == 0
  {
  }

  lemma InBoth(m: bv32, flags: bv32, u: bv32)
    requires m != 0 && m & !(flags & !u) == 0
    ensures Share(m, flags) && !Share(m, u)
  {
  }

  lemma HasBit(flags: bv32, u: bv32, m: bv32)
    requires And(flags, u) == flags && OneBit(m) && Share(m, flags)
    ensures Share(m, u)
  {
  }

  /** Words with the same bits are the same. */
  lemma SameFlags(a: bv32, b: bv32)
    requires forall m :: OneBit(m) ==> (Share(m, a) <==> Share(m, b))
    ensures a == b
  {
    hide OneBit, Share;
    if And(a, b) != a {
      var m := MissingBit(a, b);
    } else if And(b, a) != b {
      var m := MissingBit(b, a);
    }
  }

  lemma MinusOut(m: bv32, a: bv32, b: bv32)
    ensures And(m, Minus(a, b)) == Minus(And(m, a), b) && Minus(0, b) == 0
  {
  }

  lemma MinusParts(m: bv32, b: bv32)
    ensures And(m, b) == 0 ==> Minus(m, b) == m
    ensures And(m, b) == m ==> Minus(m, b) == 0
  {
  }

  lemma MinusBit(m: bv32, b: bv32)
    requires OneBit(m)
    ensures Minus(m, b) == 0 <==> Share(m, b)
  {
    hide And, Minus, Share;
    AllOrNothing(m, b);
    MinusParts(m, b);
    ShareIs(m, b);
  }

  lemma ShareMinus(m: bv32, a: bv32, b: bv32)
    requires OneBit(m)
    ensures Share(m, Minus(a, b)) <==> Share(m, a) && !Share(m, b)
  {
    hide *;
    ShareIs(m, Minus(a, b));
    ShareIs(m, a);
    AllOrNothing(m, a);
    MinusOut(m, a, b);
    MinusBit(m, b);
  }
}
