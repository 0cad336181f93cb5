/** rhs_thread_flags_wait of core/thread.c: a wait for notification bits that is restarted
    after every wake-up that does not satisfy it, with the time left recomputed each time.
    The environment is the sequence of wake-ups the task would receive. */
module ThreadFlags {
  import opened FlagBits
  import opened Words

  const WAIT_FOREVER: nat := 0xFFFF_FFFF
  const WAIT_ALL: bv32 := 0x1
  const NO_CLEAR: bv32 := 0x2
  const INVALID_BITS: bv32 := 0x8000_0000

  /** A notification arrives `delay` ticks after the task blocked, it finds the notification value
      `nval`, and `lag` more ticks pass before it reads the tick counter. */
  datatype Wake = Wake(delay: nat, lag: nat, nval: bv32)

  datatype Error = ErrorIsr | ErrorParameter | ErrorResource | ErrorTimeout

  datatype Outcome = Flags(rflags: bv32) | Failed(error: Error) | BlockedForever

  function Max0(x: int): nat {
    if x < 0 then 0 else x
  }

  /** Ticks from the call until the k-th wake-up has read the tick counter. */
  function Elapsed(wakes: seq<Wake>, k: nat): nat
    requires k <= |wakes|
  {
    if k == 0 then 0 else Elapsed(wakes, k - 1) + wakes[k - 1].delay + wakes[k - 1].lag
  }

  /** Ticks the task was blocked until the k-th wake-up. */
  function Blocked(wakes: seq<Wake>, k: nat): nat
    requires k <= |wakes|
  {
    if k == 0 then 0 else Blocked(wakes, k - 1) + wakes[k - 1].delay
  }

  /** The time limit of the wait after the k-th wake-up: the code takes all the time since
      the call, as the 32-bit tick counter shows it, off what was left before. */
  function Budget(timeout: nat, wakes: seq<Wake>, k: nat): nat
    requires k <= |wakes|
  {
    if k == 0 then timeout else Max0(Budget(timeout, wakes, k - 1) - Elapsed(wakes, k) % 0x1_0000_0000)
  }

  /** All bits of the first k notification values. */
  function Union(wakes: seq<Wake>, k: nat): bv32
    requires k <= |wakes|
  {
    if k == 0 then 0 else Or(Union(wakes, k - 1), wakes[k - 1].nval)
  }

  predicate Met(flags: bv32, options: bv32, v: bv32) {
    if HasOption(options, WAIT_ALL) then And(flags, v) == flags else And(flags, v) != 0
  }

  /** rflags at the k-th test: the k-th value and the requested bits of the earlier ones. */
  function Seen(flags: bv32, wakes: seq<Wake>, k: nat): bv32
    requires 0 < k <= |wakes|
  {
    Or(wakes[k - 1].nval, And(flags, Union(wakes, k - 1)))
  }

  /** A notification after `delay` ticks reaches a wait with that limit. */
  predicate InTime(delay: nat, tout: nat) {
    tout == WAIT_FOREVER || delay <= tout
  }

  /** The (k+1)-st wait ends with a notification. */
  predicate Delivered(timeout: nat, wakes: seq<Wake>, k: nat)
    requires k <= |wakes|
  {
    k < |wakes| && InTime(wakes[k].delay, Budget(timeout, wakes, k))
  }

  /** k waits ended with a notification, and only the last of these values may satisfy the caller. */
  predicate Woken(flags: bv32, options: bv32, timeout: nat, wakes: seq<Wake>, k: nat)
    requires k <= |wakes|
  {
    && (forall j :: 0 <= j < k ==> Delivered(timeout, wakes, j))
    && (forall j :: 0 < j < k ==> !Met(flags, options, Union(wakes, j)))
    && (k > 1 ==> timeout > 0)
  }

  /** What the call returns when it was woken k times. */
  predicate Ends(flags: bv32, options: bv32, timeout: nat, wakes: seq<Wake>, k: nat, r: Outcome)
    requires k <= |wakes|
  {
    var met := k > 0 && Met(flags, options, Union(wakes, k));
    match r
    case Flags(rflags) => met && rflags == Seen(flags, wakes, k)
    case Failed(ErrorResource) => timeout == 0 && !met && (k == 0 ==> !Delivered(timeout, wakes, 0)) && k <= 1
    case Failed(ErrorTimeout) => && timeout > 0 && !met && !Delivered(timeout, wakes, k)
                                 && Budget(timeout, wakes, k) < WAIT_FOREVER
    case BlockedForever => !met && k == |wakes| && Budget(timeout, wakes, k) == WAIT_FOREVER
    case _ => false
  }

  /** Ticks the call was blocked when it returns. */
  function BlockedInAll(timeout: nat, wakes: seq<Wake>, k: nat, r: Outcome): nat
    requires k <= |wakes|
  {
    Blocked(wakes, k) + if r == Failed(ErrorTimeout) then Budget(timeout, wakes, k) else 0
  }

  lemma {:induction false} ElapsedMonotone(wakes: seq<Wake>, j: nat, k: nat)
    requires j <= k <= |wakes|
    ensures Elapsed(wakes, j) <= Elapsed(wakes, k)
  {
    if j < k {
      ElapsedMonotone(wakes, j, k - 1);
    }
  }

  lemma {:induction false} BudgetAtMost(timeout: nat, wakes: seq<Wake>, k: nat)
    requires k <= |wakes|
    ensures Budget(timeout, wakes, k) <= timeout
  {
    if k > 0 {
      BudgetAtMost(timeout, wakes, k - 1);
    }
  }

  /** At every wake-up the time blocked so far and the time still allowed stay within the timeout,
      as long as the call has not taken a full round of the tick counter. */
  lemma {:induction false} NeverLonger(timeout: Uint32, wakes: seq<Wake>, k: nat)
    requires k <= |wakes| && Elapsed(wakes, k) < U32
    requires forall j :: 0 <= j < k ==> Delivered(timeout, wakes, j)
    ensures Blocked(wakes, k) + Budget(timeout, wakes, k) <= timeout
  {
    if k > 0 {
      NeverLonger(timeout, wakes, k - 1);
      assert Delivered(timeout, wakes, k - 1);
    }
  }

  /** The task reads the counter at most `lag` ticks after each of the first k wake-ups. */
  predicate LagsWithin(wakes: seq<Wake>, k: nat, lag: nat)
    requires k <= |wakes|
  {
    forall j :: 0 <= j < k ==> wakes[j].lag <= lag
  }

  /** With small enough lags the same holds however long the call takes: as long as time is left,
      the counter has not gone a full round, and once none is left none comes back. */
  lemma {:induction false} SmallLags(timeout: Uint32, wakes: seq<Wake>, k: nat, lag: nat)
    requires k <= |wakes| && timeout < WAIT_FOREVER && lag + timeout < 0x1_0000_0000
    requires (forall j :: 0 <= j < k ==> Delivered(timeout, wakes, j)) && LagsWithin(wakes, k, lag)
    ensures Blocked(wakes, k) + Budget(timeout, wakes, k) <= timeout
    ensures Budget(timeout, wakes, k) > 0 ==> Elapsed(wakes, k) + Budget(timeout, wakes, k) <= timeout
  {
    if k > 0 {
      SmallLags(timeout, wakes, k - 1, lag);
      BudgetAtMost(timeout, wakes, k - 1);
      assert Delivered(timeout, wakes, k - 1);
      var left, shown := Budget(timeout, wakes, k - 1), Elapsed(wakes, k) % 0x1_0000_0000;
      if left > 0 {
        assert Elapsed(wakes, k) <= timeout + lag;
        SmallMod(Elapsed(wakes, k), 0x1_0000_0000);
      }
      assert Budget(timeout, wakes, k) == Max0(left - shown);
    }
  }

  lemma {:induction false} BudgetUntouched(timeout: nat, wakes: seq<Wake>, k: nat)
    requires k <= |wakes| && Elapsed(wakes, k) < U32
    ensures Budget(timeout, wakes, k) <= timeout
    ensures Budget(timeout, wakes, k) == timeout <==> timeout == 0 || Elapsed(wakes, k) == 0
  {
    if k > 0 {
      BudgetUntouched(timeout, wakes, k - 1);
    }
  }

  /** The time allowed after the k-th wake-up is what truly remains of the timeout exactly when
      nothing remains or no time had passed before that wake-up; otherwise it is less, because
      earlier waits are subtracted again. */
  lemma {:induction false} BudgetExactIff(timeout: Uint32, wakes: seq<Wake>, k: nat)
    requires 0 < k <= |wakes| && Elapsed(wakes, k) <= timeout
    ensures Budget(timeout, wakes, k) <= timeout - Elapsed(wakes, k)
    ensures Budget(timeout, wakes, k) == timeout - Elapsed(wakes, k) <==>
            Elapsed(wakes, k) == timeout || Elapsed(wakes, k - 1) == 0
  {
    ElapsedMonotone(wakes, k - 1, k);
    BudgetUntouched(timeout, wakes, k - 1);
  }

  /** The tick counter reads the same as at the call. */
  predicate ShowsNoTime(wakes: seq<Wake>, k: nat)
    requires k <= |wakes|
  {
    Elapsed(wakes, k) % 0x1_0000_0000 == 0
  }

  /** A wait without end stays one exactly as long as the counter shows no time at any wake-up. */
  lemma {:induction false} ForeverIff(wakes: seq<Wake>, k: nat)
    requires k <= |wakes|
    ensures Budget(WAIT_FOREVER, wakes, k) == WAIT_FOREVER <==> forall j :: 0 < j <= k ==> ShowsNoTime(wakes, j)
  {
    if k > 0 {
      ForeverIff(wakes, k - 1);
      BudgetAtMost(WAIT_FOREVER, wakes, k - 1);
      assert Budget(WAIT_FOREVER, wakes, k) == WAIT_FOREVER <==>
             Budget(WAIT_FOREVER, wakes, k - 1) == WAIT_FOREVER && ShowsNoTime(wakes, k);
      hide ShowsNoTime, Budget;
    }
  }

  /** The test of rflags is a test of all bits received so far. */
  lemma TestIsOfUnion(flags: bv32, options: bv32, wakes: seq<Wake>, k: nat)
    requires 0 < k <= |wakes|
    ensures Met(flags, options, Seen(flags, wakes, k)) == Met(flags, options, Union(wakes, k))
  {
    hide And, Or, HasOption;
    MaskedOr(flags, wakes[k - 1].nval, Union(wakes, k - 1));
  }

  /** rflags &= flags; rflags |= nval */
  function Merged(rflags: bv32, flags: bv32, nval: bv32): bv32 {
    Or(And(rflags, flags), nval)
  }

  lemma NextSeen(flags: bv32, wakes: seq<Wake>, k: nat)
    requires 0 < k < |wakes|
    ensures Merged(Seen(flags, wakes, k), flags, wakes[k].nval) == Seen(flags, wakes, k + 1)
  {
    hide And, Or;
    MaskAgain(flags, wakes[k - 1].nval, Union(wakes, k - 1), wakes[k].nval);
  }

  lemma FirstSeen(flags: bv32, wakes: seq<Wake>)
    requires wakes != []
    ensures Merged(0, flags, wakes[0].nval) == Seen(flags, wakes, 1)
  {
    hide And, Or;
    MaskZero(flags, wakes[0].nval);
  }

  /** The call as a whole never blocks longer than the timeout, if it takes less than a full round
      of the tick counter, or if lag and timeout together are less than that. */
  lemma NeverBlocksLonger(flags: bv32, options: bv32, timeout: Uint32, wakes: seq<Wake>, k: nat, r: Outcome, lag: nat)
    requires k <= |wakes| && Woken(flags, options, timeout, wakes, k) && Ends(flags, options, timeout, wakes, k, r)
    requires || Elapsed(wakes, k) < U32
             || (timeout < WAIT_FOREVER && LagsWithin(wakes, k, lag) && lag + timeout < U32)
    ensures BlockedInAll(timeout, wakes, k, r) <= timeout
  {
    if Elapsed(wakes, k) < U32 {
      NeverLonger(timeout, wakes, k);
    } else {
      SmallLags(timeout, wakes, k, lag);
    }
  }

  /** A call that ends after k wake-ups is not woken more often. */
  lemma NotWokenAgain(flags: bv32, options: bv32, timeout: nat, wakes: seq<Wake>, k: nat, r: Outcome, more: nat)
    requires k < more <= |wakes| && Ends(flags, options, timeout, wakes, k, r)
    ensures !Woken(flags, options, timeout, wakes, more)
  {
    hide Met, Seen, Union, Budget;
  }

  /** Nothing but the wake-ups decides how a call ends. */
  lemma OneEnding(flags: bv32, options: bv32, timeout: nat, wakes: seq<Wake>, k: nat, r: Outcome, k': nat, r': Outcome)
    requires k <= |wakes| && Woken(flags, options, timeout, wakes, k) && Ends(flags, options, timeout, wakes, k, r)
    requires k' <= |wakes| && Woken(flags, options, timeout, wakes, k') && Ends(flags, options, timeout, wakes, k', r')
    ensures k == k' && r == r'
  {
    BudgetAtMost(timeout, wakes, k);
    hide Met, Seen, Union, Budget, Woken;
    if k < k' {
      NotWokenAgain(flags, options, timeout, wakes, k, r, k');
    } else if k' < k {
      NotWokenAgain(flags, options, timeout, wakes, k', r', k);
    }
  }

  /** The notification value after the bits in `clear` were cleared. */
  function Cleared(nval: bv32, clear: bv32): bv32 {
    Minus(nval, clear)
  }

  function ClearMask(flags: bv32, options: bv32): bv32 {
    if HasOption(options, NO_CLEAR) then 0 else flags
  }

  /** The notification value the task is left with after k wake-ups. */
  function Remaining(before: bv32, wakes: seq<Wake>, k: nat, clear: bv32): bv32
    requires k <= |wakes|
  {
    if k == 0 then before else Cleared(wakes[k - 1].nval, clear)
  }

  function SeenSoFar(flags: bv32, wakes: seq<Wake>, k: nat): bv32
    requires k <= |wakes|
  {
    if k == 0 then 0 else Seen(flags, wakes, k)
  }

  /** The update of rflags by one wake-up, and what its test then says. */
  lemma FlagsStep(flags: bv32, options: bv32, wakes: seq<Wake>, i: nat, rflags: bv32)
    requires i < |wakes|
    requires rflags == SeenSoFar(flags, wakes, i)
    ensures Merged(rflags, flags, wakes[i].nval) == Seen(flags, wakes, i + 1) == SeenSoFar(flags, wakes, i + 1)
    ensures Met(flags, options, Seen(flags, wakes, i + 1)) == Met(flags, options, Union(wakes, i + 1))
  {
    hide Met, Seen;
    TestIsOfUnion(flags, options, wakes, i + 1);
    if i > 0 {
      NextSeen(flags, wakes, i);
    } else {
      FirstSeen(flags, wakes);
    }
  }

  lemma RemainingIs(before: bv32, wakes: seq<Wake>, i: nat, clear: bv32)
    requires i < |wakes|
    ensures Remaining(before, wakes, i + 1, clear) == Cleared(wakes[i].nval, clear)
  {
  }

  /** The tick counter d ticks after it read t. */
  function Counter(t: nat, d: nat): Uint32 {
    (t + d) % 0x1_0000_0000
  }

  /** The code's new time limit, from two readings of the tick counter. */
  function Recomputed(tout: nat, now: Uint32, t0: Uint32): nat {
    var td := (now - t0) % 0x1_0000_0000;
    if td > tout then 0 else tout - td
  }

  lemma CounterAdd(t: nat, e: nat, d: nat)
    ensures Counter(Counter(t, e), d) == Counter(t, e + d)
  {
  }

  /** The difference of two readings of the tick counter is the time between them, across its
      wrap, up to full rounds. */
  lemma RecomputedIs(tout: nat, t0: Uint32, e: nat)
    ensures Recomputed(tout, Counter(t0, e), t0) == Max0(tout - e % 0x1_0000_0000)
  {
    var c := t0 + e;
    assert (c % 0x1_0000_0000 - t0) % 0x1_0000_0000 == (c - t0) % 0x1_0000_0000;
  }

  lemma AtTheCall(flags: bv32, options: bv32, timeout: nat, wakes: seq<Wake>, before: bv32, clear: bv32)
    ensures SeenSoFar(flags, wakes, 0) == 0 && Remaining(before, wakes, 0, clear) == before
    ensures Woken(flags, options, timeout, wakes, 0)
    ensures Elapsed(wakes, 0) == 0 && Budget(timeout, wakes, 0) == timeout
    ensures forall t: Uint32 :: Counter(t, 0) == t
  {
  }

  /** The budget and the tick counter after one more wake-up. */
  lemma TimesStep(timeout: nat, wakes: seq<Wake>, i: nat, t0: Uint32)
    requires i < |wakes|
    ensures var now := Counter(Counter(Counter(t0, Elapsed(wakes, i)), wakes[i].delay), wakes[i].lag);
            && now == Counter(t0, Elapsed(wakes, i + 1))
            && Recomputed(Budget(timeout, wakes, i), now, t0) == Budget(timeout, wakes, i + 1)
  {
    hide Counter, Recomputed;
    CounterAdd(t0, Elapsed(wakes, i), wakes[i].delay);
    CounterAdd(t0, Elapsed(wakes, i) + wakes[i].delay, wakes[i].lag);
    RecomputedIs(Budget(timeout, wakes, i), t0, Elapsed(wakes, i + 1));
  }

  lemma WaitIs(timeout: nat, wakes: seq<Wake>, i: nat)
    requires i <= |wakes|
    ensures Delivered(timeout, wakes, i) <==> wakes[i..] != [] && InTime(wakes[i..][0].delay, Budget(timeout, wakes, i))
    ensures i < |wakes| ==> wakes[i..][0] == wakes[i]
  {
  }

  lemma WokenOnceMore(flags: bv32, options: bv32, timeout: nat, wakes: seq<Wake>, i: nat)
    requires i < |wakes| && Woken(flags, options, timeout, wakes, i) && Delivered(timeout, wakes, i)
    requires i > 0 ==> timeout > 0 && !Met(flags, options, Union(wakes, i))
    ensures Woken(flags, options, timeout, wakes, i + 1)
  {
    hide Met, Union, Delivered;
  }

  /** A wait that ends without a notification ends the call. */
  lemma EndsWithout(flags: bv32, options: bv32, timeout: Uint32, wakes: seq<Wake>, k: nat, r: Outcome)
    requires k <= |wakes| && (k > 0 ==> timeout > 0)
    requires !Delivered(timeout, wakes, k) && (k > 0 ==> !Met(flags, options, Union(wakes, k)))
    requires r == if Budget(timeout, wakes, k) == WAIT_FOREVER then BlockedForever
                  else Failed(if timeout == 0 then ErrorResource else ErrorTimeout)
    ensures Ends(flags, options, timeout, wakes, k, r)
  {
    hide Met, Union;
    BudgetAtMost(timeout, wakes, k);
  }

  /** A wake-up that satisfies the caller, or finds it unwilling to wait, ends the call. */
  lemma EndsAtTest(flags: bv32, options: bv32, timeout: nat, wakes: seq<Wake>, k: nat)
    requires 0 < k <= |wakes| && (k > 1 ==> timeout > 0)
    ensures if Met(flags, options, Union(wakes, k))
            then Ends(flags, options, timeout, wakes, k, Flags(Seen(flags, wakes, k)))
            else timeout == 0 ==> Ends(flags, options, timeout, wakes, k, Failed(ErrorResource))
  {
    hide Met, Union, Seen;
  }

  datatype Waited = Pass | Fail | Never

  class Task {
    var notified: bv32
    var ticks: Uint32

    constructor (notified: bv32, ticks: Uint32) {
      this.notified, this.ticks := notified, ticks;
    }

    /** xTaskNotifyWaitIndexed, with `next` the notification the task would get, if any. */
    method NotifyWait(clear: bv32, tout: nat, next: seq<Wake>) returns (rval: Waited, nval: bv32)
      modifies this
      ensures rval == Pass <==> next != [] && InTime(next[0].delay, tout)
      ensures rval == Pass ==> nval == next[0].nval && notified == Cleared(nval, clear)
      ensures rval == Pass ==> ticks == Counter(old(ticks), next[0].delay)
      ensures rval != Pass ==> notified == old(notified)
      ensures rval == Never <==> next == [] && tout == WAIT_FOREVER
    {
      nval := 0;
      if next != [] && InTime(next[0].delay, tout) {
        nval := next[0].nval;
        notified := Cleared(nval, clear);
        ticks := (ticks + next[0].delay) % U32;
        rval := Pass;
      } else if tout == WAIT_FOREVER {
        rval := Never;
      } else {
        ticks := (ticks + tout) % U32;
        rval := Fail;
      }
    }

    /** The time left after wake-up i and the ticks until it reads the counter. */
    method UpdateTimeout(t0: Uint32, tout: nat, ghost timeout: nat, wakes: seq<Wake>, i: nat) returns (left: nat)
      requires i < |wakes|
      requires ticks == Counter(Counter(t0, Elapsed(wakes, i)), wakes[i].delay) && tout == Budget(timeout, wakes, i)
      modifies this`ticks
      ensures ticks == Counter(t0, Elapsed(wakes, i + 1)) && left == Budget(timeout, wakes, i + 1)
    {
      hide Counter, Recomputed, Elapsed, Budget;
      TimesStep(timeout, wakes, i, t0);
      ticks := Counter(ticks, wakes[i].lag);
      left := Recomputed(tout, ticks, t0);
    }

    /** The loop of rhs_thread_flags_wait; k is the number of wake-ups it took. */
    method WaitLoop(flags: bv32, options: bv32, timeout: Uint32, wakes: seq<Wake>) returns (r: Outcome, ghost k: nat)
      modifies this
      ensures k <= |wakes|
      ensures Woken(flags, options, timeout, wakes, k)
      ensures Ends(flags, options, timeout, wakes, k, r)
      ensures notified == Remaining(old(notified), wakes, k, ClearMask(flags, options))
    {
      k := 0;
      hide Met, Seen, Union, Delivered, Elapsed, Budget, Woken, Merged, Cleared, ClearMask, Counter, Recomputed, Ends,
        Remaining, SeenSoFar;
      var clear := ClearMask(flags, options);
      var rflags: bv32 := 0;
      var tout: nat := timeout;
      var t0 := ticks;
      var i := 0;
      AtTheCall(flags, options, timeout, wakes, notified, clear);
      while true
        invariant k == i <= |wakes|
        invariant i > 0 ==> timeout > 0
        invariant rflags == SeenSoFar(flags, wakes, i)
        invariant tout == Budget(timeout, wakes, i)
        invariant ticks == Counter(t0, Elapsed(wakes, i))
        invariant Woken(flags, options, timeout, wakes, i)
        invariant i > 0 ==> !Met(flags, options, Union(wakes, i))
        invariant notified == Remaining(old(notified), wakes, i, clear)
        decreases |wakes| - i
      {
        var rval, nval := NotifyWait(clear, tout, wakes[i..]);
        WaitIs(timeout, wakes, i);
        if rval == Fail {
          r := Failed(if timeout == 0 then ErrorResource else ErrorTimeout);
          EndsWithout(flags, options, timeout, wakes, i, r);
          return;
        }
        if rval == Never {
          r := BlockedForever;
          EndsWithout(flags, options, timeout, wakes, i, r);
          return;
        }
        WokenOnceMore(flags, options, timeout, wakes, i);
        RemainingIs(old(notified), wakes, i, clear);
        FlagsStep(flags, options, wakes, i, rflags);
        rflags := Merged(rflags, flags, nval);
        i := i + 1;
        k := i;
        EndsAtTest(flags, options, timeout, wakes, i);
        if Met(flags, options, rflags) {
          r := Flags(rflags);
          return;
        }
        if timeout == 0 {
          r := Failed(ErrorResource);
          return;
        }
        tout := UpdateTimeout(t0, tout, timeout, wakes, i - 1);
      }
    }

    /** rhs_thread_flags_wait */
    method FlagsWait(irq: bool, flags: bv32, options: bv32, timeout: Uint32, wakes: seq<Wake>)
      returns (r: Outcome, ghost k: nat)
      modifies this
      ensures irq ==> r == Failed(ErrorIsr) && unchanged(this)
      ensures !irq && flags & 0x8000_0000 != 0 ==> r == Failed(ErrorParameter) && unchanged(this)
      ensures !irq && flags & 0x8000_0000 == 0 ==>
                && k <= |wakes|
                && Woken(flags, options, timeout, wakes, k)
                && Ends(flags, options, timeout, wakes, k, r)
                && notified == Remaining(old(notified), wakes, k, ClearMask(flags, options))
    {
      k := 0;
      if irq {
        r := Failed(ErrorIsr);
      } else if flags & INVALID_BITS != 0 {
        r := Failed(ErrorParameter);
      } else {
        hide *;
        r, k := WaitLoop(flags, options, timeout, wakes);
      }
    }
  }
}
