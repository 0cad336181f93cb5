/** What the documentation promises of rhs_thread_flags_wait, where the code keeps it, and the
    inputs on which it does not. */
module ThreadFlagsPromises {
  import opened FlagBits
  import opened Words
  import opened ThreadFlags

  /** A call that is woken k times ends with r. */
  ghost predicate Call(flags: bv32, options: bv32, timeout: nat, wakes: seq<Wake>, k: nat, r: Outcome) {
    k <= |wakes| && Woken(flags, options, timeout, wakes, k) && Ends(flags, options, timeout, wakes, k, r)
  }

  // ----- The timeout -----

  lemma TwoTimes(wakes: seq<Wake>)
    requires |wakes| >= 2
    ensures Elapsed(wakes, 1) == wakes[0].delay + wakes[0].lag
    ensures Elapsed(wakes, 2) == wakes[0].delay + wakes[0].lag + wakes[1].delay + wakes[1].lag
    ensures Blocked(wakes, 1) == wakes[0].delay && Blocked(wakes, 2) == wakes[0].delay + wakes[1].delay
  {
    assert Elapsed(wakes, 0) == 0 && Blocked(wakes, 0) == 0;
    assert Elapsed(wakes, 1) == Elapsed(wakes, 0) + wakes[0].delay + wakes[0].lag;
    assert Blocked(wakes, 1) == Blocked(wakes, 0) + wakes[0].delay;
  }

  lemma TwoBudgets(timeout: nat, wakes: seq<Wake>)
    requires |wakes| >= 2
    ensures Budget(timeout, wakes, 0) == timeout
    ensures Budget(timeout, wakes, 1) == Max0(timeout - Elapsed(wakes, 1) % 0x1_0000_0000)
    ensures Budget(timeout, wakes, 2) == Max0(Budget(timeout, wakes, 1) - Elapsed(wakes, 2) % 0x1_0000_0000)
  {
    hide Elapsed;
    assert Budget(timeout, wakes, 0) == timeout;
  }

  lemma OneUnion(wakes: seq<Wake>)
    requires |wakes| >= 1
    ensures Union(wakes, 0) == 0 && Union(wakes, 1) == wakes[0].nval
  {
    hide Or;
    assert Union(wakes, 0) == 0;
    OrZero(wakes[0].nval);
  }

  lemma TwoUnions(wakes: seq<Wake>)
    requires |wakes| >= 2
    ensures Union(wakes, 1) == wakes[0].nval && Union(wakes, 2) == Or(wakes[0].nval, wakes[1].nval)
  {
    hide Or;
    OneUnion(wakes);
    assert Union(wakes, 2) == Or(Union(wakes, 1), wakes[1].nval);
  }

  lemma NothingMet()
    ensures !Met(1, 0, 0) && Or(0, 0) == 0
  {
  }

  /** A call with a timeout of 10 gives up after 7 ticks, although its flag arrives at tick 9. */
  lemma GivesUpEarly()
    ensures var wakes := [Wake(3, 0, 0), Wake(3, 0, 0), Wake(3, 0, 1)];
            && Call(1, 0, 10, wakes, 2, Failed(ErrorTimeout))
            && BlockedInAll(10, wakes, 2, Failed(ErrorTimeout)) == 7
            && Elapsed(wakes, 3) == 9 && wakes[2].nval == 1
  {
    var wakes := [Wake(3, 0, 0), Wake(3, 0, 0), Wake(3, 0, 1)];
    TwoTimes(wakes);
    TwoBudgets(10, wakes);
    TwoUnions(wakes);
    NothingMet();
    assert Elapsed(wakes, 3) == Elapsed(wakes, 2) + 3;
    hide Elapsed, Budget, Blocked, Union, Met, Or;
    assert Budget(10, wakes, 1) == 7 && Budget(10, wakes, 2) == 1;
    assert Delivered(10, wakes, 0) && Delivered(10, wakes, 1) && !Delivered(10, wakes, 2);
  }

  /** A call that times out used its whole timeout exactly when it was never woken, or was woken
      last at the very end, or no time had passed before that. */
  lemma UsesWholeTimeoutIff(flags: bv32, options: bv32, timeout: Uint32, wakes: seq<Wake>, k: nat)
    requires Call(flags, options, timeout, wakes, k, Failed(ErrorTimeout)) && Elapsed(wakes, k) <= timeout
    ensures Elapsed(wakes, k) + Budget(timeout, wakes, k) == timeout <==>
            k == 0 || Elapsed(wakes, k) == timeout || Elapsed(wakes, k - 1) == 0
  {
    if k > 0 {
      BudgetExactIff(timeout, wakes, k);
    }
  }

  lemma OneTime(timeout: nat, wakes: seq<Wake>)
    requires |wakes| == 1
    ensures Elapsed(wakes, 1) == wakes[0].delay + wakes[0].lag && Blocked(wakes, 1) == wakes[0].delay
    ensures Budget(timeout, wakes, 0) == timeout
    ensures Budget(timeout, wakes, 1) == Max0(timeout - (wakes[0].delay + wakes[0].lag) % 0x1_0000_0000)
  {
    assert Elapsed(wakes, 0) == 0 && Blocked(wakes, 0) == 0 && Budget(timeout, wakes, 0) == timeout;
  }

  /** A wake-up at the very end of the timeout that is read when the counter has gone a full round
      gives the call its whole timeout again. At the largest finite timeout a lag of two ticks does it. */
  lemma LateReading(timeout: Uint32)
    requires 0 < timeout < WAIT_FOREVER
    ensures var wakes := [Wake(timeout, U32 - timeout, 0)];
            && Call(1, 0, timeout, wakes, 1, Failed(ErrorTimeout))
            && BlockedInAll(timeout, wakes, 1, Failed(ErrorTimeout)) == 2 * timeout
  {
    var wakes := [Wake(timeout, U32 - timeout, 0)];
    OneTime(timeout, wakes);
    OneUnion(wakes);
    NothingMet();
    assert U32 % 0x1_0000_0000 == 0;
    hide Elapsed, Budget, Blocked, Union, Met, Or;
    assert Delivered(timeout, wakes, 0);
  }

  /** For every finite timeout: no call in which the task reads the counter within `lag` ticks of
      each wake-up blocks longer, exactly when lag and timeout together do not fill the counter. */
  lemma NeverBlocksLongerIff(timeout: Uint32, lag: nat)
    requires 0 < timeout < WAIT_FOREVER
    ensures (forall flags: bv32, options: bv32, wakes: seq<Wake>, k: nat, r: Outcome ::
               Call(flags, options, timeout, wakes, k, r) && LagsWithin(wakes, k, lag) ==>
                 BlockedInAll(timeout, wakes, k, r) <= timeout)
       <==> lag + timeout < U32
  {
    if lag + timeout < U32 {
      forall flags: bv32, options: bv32, wakes: seq<Wake>, k: nat, r: Outcome
        | Call(flags, options, timeout, wakes, k, r) && LagsWithin(wakes, k, lag)
        ensures BlockedInAll(timeout, wakes, k, r) <= timeout
      {
        NeverBlocksLonger(flags, options, timeout, wakes, k, r, lag);
      }
    } else {
      LateReading(timeout);
      var wakes := [Wake(timeout, U32 - timeout, 0)];
      hide Call, BlockedInAll;
      assert LagsWithin(wakes, 1, lag);
    }
  }

  // ----- Waiting without end -----

  /** A call that is to wait without end, woken once after one tick, times out. */
  lemma ForeverTimesOut()
    ensures var wakes := [Wake(1, 0, 0)];
            && Call(1, 0, WAIT_FOREVER, wakes, 1, Failed(ErrorTimeout))
            && BlockedInAll(WAIT_FOREVER, wakes, 1, Failed(ErrorTimeout)) == WAIT_FOREVER
  {
    var wakes := [Wake(1, 0, 0)];
    OneTime(WAIT_FOREVER, wakes);
    OneUnion(wakes);
    NothingMet();
    hide Elapsed, Budget, Blocked, Union, Met, Or;
    assert Delivered(WAIT_FOREVER, wakes, 0);
  }

  /** A call that is to wait without end and gets no flags does wait without end exactly when the
      counter showed no time at any wake-up; otherwise it times out. */
  lemma ForeverEndsIff(flags: bv32, options: bv32, wakes: seq<Wake>, k: nat, r: Outcome)
    requires Call(flags, options, WAIT_FOREVER, wakes, k, r) && !r.Flags?
    ensures r == BlockedForever <==> forall j :: 0 < j <= k ==> ShowsNoTime(wakes, j)
    ensures r == BlockedForever || r == Failed(ErrorTimeout)
  {
    ForeverIff(wakes, k);
    hide Budget, ShowsNoTime, Met, Union, Woken;
  }

  // ----- All flags at once -----

  /** While the task waits others only set bits: what a wake-up left is still there at the next. */
  predicate OnlySet(wakes: seq<Wake>, clear: bv32) {
    forall j :: 0 < j < |wakes| ==> Minus(Cleared(wakes[j - 1].nval, clear), wakes[j].nval) == 0
  }

  ghost predicate Returns(flags: bv32, options: bv32, timeout: nat, wakes: seq<Wake>, k: nat, v: bv32) {
    k > 0 && Call(flags, options, timeout, wakes, k, Flags(v))
  }

  /** The value the k-th wake-up found has all the flags. */
  predicate AllAt(flags: bv32, wakes: seq<Wake>, k: nat) {
    0 < k <= |wakes| && And(flags, wakes[k - 1].nval) == flags
  }

  /** A wait for all of two flags returns although neither value it saw held both. */
  lemma BitsCollected()
    ensures var wakes := [Wake(0, 0, 1), Wake(0, 0, 2)];
            && OnlySet(wakes, ClearMask(3, WAIT_ALL))
            && Returns(3, WAIT_ALL, 10, wakes, 2, 3)
            && !AllAt(3, wakes, 1) && !AllAt(3, wakes, 2)
  {
    OneAndTwo();
    WaitAllOnly();
    hide Or, And, HasOption, OnlySet, Returns;
    SplitReturns(3, WAIT_ALL, 1, 2);
  }

  lemma WaitAllOnly()
    ensures HasOption(WAIT_ALL, WAIT_ALL) && !HasOption(WAIT_ALL, NO_CLEAR)
  {
  }

  /** Flags that arrive in two parts satisfy a clearing wait for all of them. */
  lemma SplitReturns(flags: bv32, options: bv32, a: bv32, b: bv32)
    requires HasOption(options, WAIT_ALL) && !HasOption(options, NO_CLEAR)
    requires Or(a, b) == flags && a != flags
    ensures var wakes := [Wake(0, 0, a), Wake(0, 0, b)];
            OnlySet(wakes, ClearMask(flags, options)) && Returns(flags, options, 10, wakes, 2, Or(b, a))
  {
    hide Or, And, Minus, HasOption;
    var wakes := [Wake(0, 0, a), Wake(0, 0, b)];
    PartOf(flags, a, b);
    TwoTimes(wakes);
    TwoBudgets(10, wakes);
    TwoUnions(wakes);
    hide Elapsed, Budget, Union;
    assert Delivered(10, wakes, 0) && Delivered(10, wakes, 1);
  }

  /** Without clearing, the last value holds everything seen before. */
  lemma {:induction false} LastHoldsAll(wakes: seq<Wake>, k: nat)
    requires 0 < k <= |wakes| && OnlySet(wakes, 0)
    ensures Minus(Union(wakes, k), wakes[k - 1].nval) == 0
  {
    hide Or, Minus;
    var v := wakes[k - 1].nval;
    if k > 1 {
      var w := wakes[k - 2].nval;
      LastHoldsAll(wakes, k - 1);
      OrZero(w);
      assert Minus(Cleared(w, 0), v) == 0;
      KeepsBoth(Union(wakes, k - 1), w, v);
    } else {
      OneUnion(wakes);
      KeepsItself(v);
    }
  }

  lemma AllAtOnceKept(flags: bv32, options: bv32, timeout: nat, wakes: seq<Wake>, k: nat, v: bv32)
    requires HasOption(options, WAIT_ALL) && HasOption(options, NO_CLEAR)
    requires OnlySet(wakes, ClearMask(flags, options)) && Returns(flags, options, timeout, wakes, k, v)
    ensures AllAt(flags, wakes, k)
  {
    hide And, Minus, Or, HasOption, OnlySet, Union, Budget, Woken, Seen;
    LastHoldsAll(wakes, k);
    HoldsFlags(flags, Union(wakes, k), wakes[k - 1].nval);
  }

  lemma AllAtOnceSingle(flags: bv32, options: bv32, timeout: nat, wakes: seq<Wake>, k: nat, v: bv32)
    requires HasOption(options, WAIT_ALL) && AtMostOneBit(flags)
    requires Returns(flags, options, timeout, wakes, k, v)
    ensures AllAt(flags, wakes, k)
  {
    hide And, Or, HasOption, AtMostOneBit, Budget, Seen, Delivered;
    OneUnion(wakes);
    OneBitArrives(flags, Union(wakes, k - 1), wakes[k - 1].nval);
  }

  /** The documented wait for all flags at the same time: whatever the wake-ups and the timeout,
      a returning call finds all of them in its last value, exactly when the caller asks not to
      clear the flags or waits for one flag at most. */
  lemma AllAtOnceIff(flags: bv32, options: bv32)
    requires HasOption(options, WAIT_ALL)
    ensures (forall timeout: nat, wakes: seq<Wake>, k: nat, v: bv32 ::
               Returns(flags, options, timeout, wakes, k, v) && OnlySet(wakes, ClearMask(flags, options)) ==>
                 AllAt(flags, wakes, k))
       <==> HasOption(options, NO_CLEAR) || AtMostOneBit(flags)
  {
    hide OnlySet, AtMostOneBit, ClearMask, Returns, HasOption, Or, And;
    if HasOption(options, NO_CLEAR) || AtMostOneBit(flags) {
      forall timeout: nat, wakes: seq<Wake>, k: nat, v: bv32
        | Returns(flags, options, timeout, wakes, k, v) && OnlySet(wakes, ClearMask(flags, options))
        ensures AllAt(flags, wakes, k)
      {
        if AtMostOneBit(flags) {
          AllAtOnceSingle(flags, options, timeout, wakes, k, v);
        } else {
          AllAtOnceKept(flags, options, timeout, wakes, k, v);
        }
      }
    } else {
      var a, b := TwoParts(flags);
      SplitReturns(flags, options, a, b);
      var wakes := [Wake(0, 0, a), Wake(0, 0, b)];
      assert !AllAt(flags, wakes, 2);
    }
  }
}
