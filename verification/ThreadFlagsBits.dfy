/** Which wake-up of a wait for thread flags returns, and with which bits, said of single bits of
    the notification values. */
module ThreadFlagsBits {
  import opened FlagBits
  import opened Words
  import opened ThreadFlags
  import opened ThreadFlagsPromises

  // ----- What came -----

  /** One of the bits of m was in one of the first k values. */
  predicate Came(m: bv32, wakes: seq<Wake>, k: nat)
    requires k <= |wakes|
  {
    exists j :: 0 <= j < k && Share(m, wakes[j].nval)
  }

  lemma {:induction false} CameIff(m: bv32, wakes: seq<Wake>, k: nat)
    requires k <= |wakes|
    ensures Share(m, Union(wakes, k)) <==> Came(m, wakes, k)
  {
    hide Or;
    if k == 0 {
      ShareZero(m);
    } else {
      CameIff(m, wakes, k - 1);
      ShareOr(m, Union(wakes, k - 1), wakes[k - 1].nval);
      CameStep(m, wakes, k);
      hide Came, Share;
    }
  }

  lemma CameStep(m: bv32, wakes: seq<Wake>, k: nat)
    requires 0 < k <= |wakes|
    ensures Came(m, wakes, k) <==> Came(m, wakes, k - 1) || Share(m, wakes[k - 1].nval)
  {
    hide Share;
  }

  /** Every single bit of the flags was in one of the first k values. */
  ghost predicate AllCame(flags: bv32, wakes: seq<Wake>, k: nat)
    requires k <= |wakes|
  {
    forall m: bv32 :: OneBit(m) && Share(m, flags) ==> Came(m, wakes, k)
  }

  lemma AllCameIff(flags: bv32, wakes: seq<Wake>, k: nat)
    requires k <= |wakes|
    ensures And(flags, Union(wakes, k)) == flags <==> AllCame(flags, wakes, k)
  {
    hide OneBit, And, Union, Came, Share;
    if And(flags, Union(wakes, k)) == flags {
      forall m: bv32 | OneBit(m) && Share(m, flags)
        ensures Came(m, wakes, k)
      {
        HasBit(flags, Union(wakes, k), m);
        CameIff(m, wakes, k);
      }
    } else {
      var m := MissingBit(flags, Union(wakes, k));
      CameIff(m, wakes, k);
    }
  }

  // ----- What a call returns -----

  /** v has a bit exactly if the last of k values has it, or it is a flag and an earlier value had it. */
  ghost predicate Collected(flags: bv32, wakes: seq<Wake>, k: nat, v: bv32)
    requires 0 < k <= |wakes|
  {
    forall m: bv32 :: OneBit(m) ==>
      (Share(m, v) <==> Share(m, wakes[k - 1].nval) || (Share(m, flags) && Came(m, wakes, k - 1)))
  }

  lemma SeenIsCollected(flags: bv32, wakes: seq<Wake>, k: nat)
    requires 0 < k <= |wakes|
    ensures Collected(flags, wakes, k, Seen(flags, wakes, k))
  {
    hide OneBit, Share, Came, Union, Or, And;
    var n, u := wakes[k - 1].nval, Union(wakes, k - 1);
    forall m: bv32 | OneBit(m)
      ensures Share(m, Seen(flags, wakes, k)) <==> Share(m, n) || (Share(m, flags) && Came(m, wakes, k - 1))
    {
      ShareOr(m, n, And(flags, u));
      ShareAnd(m, flags, u);
      CameIff(m, wakes, k - 1);
    }
  }

  lemma CollectedIff(flags: bv32, wakes: seq<Wake>, k: nat, v: bv32)
    requires 0 < k <= |wakes|
    ensures Collected(flags, wakes, k, v) <==> v == Seen(flags, wakes, k)
  {
    SeenIsCollected(flags, wakes, k);
    hide OneBit, Share, Came, Seen;
    if Collected(flags, wakes, k, v) {
      SameFlags(v, Seen(flags, wakes, k));
    }
  }

  /** k notifications reach the call, which does not wait again when it was not to wait at all. */
  predicate Arrive(timeout: nat, wakes: seq<Wake>, k: nat)
    requires k <= |wakes|
  {
    (forall j :: 0 <= j < k ==> Delivered(timeout, wakes, j)) && (k > 1 ==> timeout > 0)
  }

  /** The test after the k-th wake-up. */
  predicate MetBy(flags: bv32, options: bv32, wakes: seq<Wake>, k: nat)
    requires k <= |wakes|
  {
    Met(flags, options, Union(wakes, k))
  }

  lemma WokenIs(flags: bv32, options: bv32, timeout: nat, wakes: seq<Wake>, k: nat)
    requires k <= |wakes|
    ensures Woken(flags, options, timeout, wakes, k) <==>
            Arrive(timeout, wakes, k) && forall j :: 0 < j < k ==> !MetBy(flags, options, wakes, j)
  {
    hide Met, Union, Delivered;
    if Woken(flags, options, timeout, wakes, k) {
      forall j | 0 < j < k
        ensures !MetBy(flags, options, wakes, j)
      {
        assert !Met(flags, options, Union(wakes, j));
      }
    } else if Arrive(timeout, wakes, k) {
      var j :| 0 < j < k && Met(flags, options, Union(wakes, j));
      assert MetBy(flags, options, wakes, j);
    }
  }

  lemma CallIs(flags: bv32, options: bv32, timeout: nat, wakes: seq<Wake>, k: nat, v: bv32)
    requires 0 < k <= |wakes|
    ensures Call(flags, options, timeout, wakes, k, Flags(v)) <==>
            && Arrive(timeout, wakes, k) && v == Seen(flags, wakes, k)
            && (forall j :: 0 < j < k ==> !MetBy(flags, options, wakes, j)) && MetBy(flags, options, wakes, k)
  {
    WokenIs(flags, options, timeout, wakes, k);
    hide Met, Union, Seen, Delivered, Woken, Arrive;
  }

  lemma MetAll(flags: bv32, options: bv32, wakes: seq<Wake>, k: nat)
    requires options & 1 == 1 && k <= |wakes|
    ensures MetBy(flags, options, wakes, k) <==> AllCame(flags, wakes, k)
  {
    hide And, Union, AllCame;
    AllCameIff(flags, wakes, k);
  }

  lemma MetAny(flags: bv32, options: bv32, wakes: seq<Wake>, k: nat)
    requires options & 1 == 0 && k <= |wakes|
    ensures MetBy(flags, options, wakes, k) <==> Came(flags, wakes, k)
  {
    hide And, Union, Came;
    CameIff(flags, wakes, k);
    ShareIs(flags, Union(wakes, k));
  }

  /** A wait for all flags returns exactly at the first wake-up by which every one of them has come,
      with the bits of its value and the flags of the earlier ones. */
  lemma WaitAllIff(flags: bv32, options: bv32, timeout: nat, wakes: seq<Wake>, k: nat, v: bv32)
    requires options & 1 == 1 && 0 < k <= |wakes|
    ensures Call(flags, options, timeout, wakes, k, Flags(v)) <==>
            && Arrive(timeout, wakes, k) && Collected(flags, wakes, k, v)
            && AllCame(flags, wakes, k) && (forall j :: 0 < j < k ==> !AllCame(flags, wakes, j))
  {
    hide *;
    CallIs(flags, options, timeout, wakes, k, v);
    CollectedIff(flags, wakes, k, v);
    forall j | 0 < j <= k
      ensures MetBy(flags, options, wakes, j) <==> AllCame(flags, wakes, j)
    {
      MetAll(flags, options, wakes, j);
    }
  }

  /** A wait for any flag returns exactly at the first wake-up whose value has one of them, with that
      value as it is. */
  lemma WaitAnyIff(flags: bv32, options: bv32, timeout: nat, wakes: seq<Wake>, k: nat, v: bv32)
    requires options & 1 == 0 && 0 < k <= |wakes|
    ensures Call(flags, options, timeout, wakes, k, Flags(v)) <==>
            && Arrive(timeout, wakes, k) && v == wakes[k - 1].nval
            && Share(flags, wakes[k - 1].nval) && (forall j :: 0 <= j < k - 1 ==> !Share(flags, wakes[j].nval))
  {
    hide *;
    CallIs(flags, options, timeout, wakes, k, v);
    MetAny(flags, options, wakes, k);
    forall j | 0 < j < k
      ensures MetBy(flags, options, wakes, j) <==> Came(flags, wakes, j)
    {
      MetAny(flags, options, wakes, j);
    }
    FirstCame(flags, wakes, k);
    NothingEarlier(flags, wakes, k);
  }

  lemma FirstCame(flags: bv32, wakes: seq<Wake>, k: nat)
    requires 0 < k <= |wakes|
    ensures !Came(flags, wakes, k - 1) <==> forall j :: 0 <= j < k - 1 ==> !Share(flags, wakes[j].nval)
    ensures Came(flags, wakes, k) <==> Came(flags, wakes, k - 1) || Share(flags, wakes[k - 1].nval)
    ensures !Came(flags, wakes, k - 1) <==> forall j :: 0 < j < k ==> !Came(flags, wakes, j)
  {
    hide Share;
    if k > 1 && !Came(flags, wakes, k - 1) {
      forall j | 0 < j < k
        ensures !Came(flags, wakes, j)
      {
      }
    }
  }

  /** Where no earlier value has a flag, the k-th is seen as it is. */
  lemma NothingEarlier(flags: bv32, wakes: seq<Wake>, k: nat)
    requires 0 < k <= |wakes|
    ensures !Came(flags, wakes, k - 1) ==> Seen(flags, wakes, k) == wakes[k - 1].nval
  {
    hide Came, Share, Union, Or, And;
    CameIff(flags, wakes, k - 1);
    ShareIs(flags, Union(wakes, k - 1));
    Swaps(wakes[k - 1].nval, 0);
    OrZero(wakes[k - 1].nval);
  }

  /** A call that returns no flags got none that satisfy it: one that was not to wait looks once and
      reports a missing resource, one with a limit reports a timeout. */
  lemma NotMet(flags: bv32, options: bv32, timeout: Uint32, wakes: seq<Wake>, k: nat, r: Outcome)
    requires Call(flags, options, timeout, wakes, k, r) && !r.Flags?
    ensures options & 1 == 0 ==> !Came(flags, wakes, k)
    ensures options & 1 == 1 && k > 0 ==> !AllCame(flags, wakes, k)
    ensures timeout == 0 ==> r == Failed(ErrorResource) && k <= 1
    ensures 0 < timeout < WAIT_FOREVER ==> r == Failed(ErrorTimeout) && !Delivered(timeout, wakes, k)
  {
    BudgetAtMost(timeout, wakes, k);
    if options & 1 == 0 {
      MetAny(flags, options, wakes, k);
    } else if options & 1 == 1 {
      MetAll(flags, options, wakes, k);
    }
    hide Met, Union, Came, AllCame, Budget, Woken;
  }

  /** What the task is left with: without a wake-up what it had, otherwise the last value, without
      the flags unless the caller asked not to clear them. */
  lemma Left(before: bv32, flags: bv32, options: bv32, wakes: seq<Wake>, k: nat, m: bv32)
    requires k <= |wakes| && OneBit(m)
    ensures Share(m, Remaining(before, wakes, k, ClearMask(flags, options))) <==>
              if k == 0 then Share(m, before)
              else Share(m, wakes[k - 1].nval) && (options & 2 == 2 || !Share(m, flags))
  {
    hide Share, OneBit, Minus;
    ShareZero(m);
    if k > 0 {
      ShareMinus(m, wakes[k - 1].nval, ClearMask(flags, options));
    }
  }
}
