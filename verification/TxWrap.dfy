// The hardware TX scheduler when its tick register wraps.  Time is counted by
// `b`, which never wraps; the register holds b % ticks.
module TxWrap {
  import opened Arith
  import opened BusTypes
  import opened TxScheduler
  import opened TxLatency

  /** The state after `n` edges at times b, b + 1, ... */
  function Wrapping(p: Params, s: State, b: nat, n: nat): (r: State)
    requires Shaped(p, s)
    ensures Shaped(p, r)
    decreases n
  {
    if n == 0 then s else
    var t := Wrapping(p, s, b, n - 1);
    Cycle(p, t, (b + n - 1) % p.ticks)
  }

  lemma TicksLast(p: Params, s: State, b: nat, n: nat)
    requires Shaped(p, s) && n > 0
    ensures Ticks(p, s, b, n) == Cycle(p, Ticks(p, s, b, n - 1), b + n - 1)
  {
    TicksConcat(p, s, b, n - 1, 1);
    var t := Ticks(p, s, b, n - 1);
    assert Ticks(p, t, b + n - 1, 1) == Ticks(p, Cycle(p, t, b + n - 1), b + n, 0);
  }

  /** Up to the wrap this is the run of the other theorems. */
  lemma {:induction false} SameBeforeTheWrap(p: Params, s: State, b: nat, n: nat)
    requires Shaped(p, s) && b + n <= p.ticks
    ensures Wrapping(p, s, b, n) == Ticks(p, s, b, n)
    decreases n
  {
    if n > 0 {
      SameBeforeTheWrap(p, s, b, n - 1);
      TicksLast(p, s, b, n);
      SameCycle(p, Ticks(p, s, b, n - 1), b + n - 1);
    }
  }

  lemma SameCycle(p: Params, s: State, b: nat)
    requires Shaped(p, s) && b < p.ticks
    ensures Cycle(p, s, b % p.ticks) == Cycle(p, s, b)
  {
    DivModUnique(p.ticks, b, 0, b);
  }

  // ----- a lone slot: when scan and deadline meet -----

  /** Where the scan stands after `i` edges that dispatch nothing. */
  function ScanAfter(p: Params, scan: nat, i: nat): nat
    requires Sane(p)
  {
    (scan + i) % Turn(p)
  }

  /** At edge `i` the scan is at slot k and the tick register at or past the
      deadline. */
  ghost predicate Meets(p: Params, s: State, k: nat, b: nat, i: nat)
    requires Shaped(p, s) && k < p.slots
  {
    ScanAfter(p, s.scan, i) == k && (b + i) % p.ticks >= s.next[k]
  }

  lemma ScanAdvances(p: Params, scan: nat, i: nat)
    requires Sane(p) && scan < Turn(p)
    ensures ScanAfter(p, scan, 0) == scan && ScanAfter(p, scan, i) < Turn(p)
    ensures var v := ScanAfter(p, scan, i);
            ScanAfter(p, scan, i + 1) == if v + 1 < Turn(p) then v + 1 else 0
  {
    var m, v := Turn(p), ScanAfter(p, scan, i);
    DivModUnique(m, scan, 0, scan);
    DivMod(m, scan + i);
    var q := (scan + i) / m;
    if v + 1 < m {
      DivModUnique(m, scan + i + 1, q, v + 1);
    } else {
      MulDistributes(m, q, 1);
      DivModUnique(m, scan + i + 1, q + 1, 0);
    }
  }

  /** Until they meet, the scan just goes round. */
  lemma {:induction false} GoesRound(p: Params, s: State, k: nat, b: nat, n: nat)
    requires Shaped(p, s) && Alone(s, k) && !s.pulse
    requires forall i: nat | i < n :: !Meets(p, s, k, b, i)
    ensures Wrapping(p, s, b, n) == s.(scan := ScanAfter(p, s.scan, n))
    decreases n
  {
    ScanAdvances(p, s.scan, 0);
    if n > 0 {
      GoesRound(p, s, k, b, n - 1);
      ScanAdvances(p, s.scan, n - 1);
      assert !Meets(p, s, k, b, n - 1);
    }
  }

  lemma MeetingDispatches(p: Params, s: State, k: nat, b: nat, n: nat)
    requires Shaped(p, s) && Alone(s, k) && !s.pulse
    requires Meets(p, s, k, b, n) && forall i: nat | i < n :: !Meets(p, s, k, b, i)
    ensures Pending(Wrapping(p, s, b, n + 1), k)
  {
    GoesRound(p, s, k, b, n);
    ScanAdvances(p, s.scan, n);
  }

  lemma {:induction false} FirstMeeting(p: Params, s: State, k: nat, b: nat, i: nat) returns (n: nat)
    requires Shaped(p, s) && k < p.slots && Meets(p, s, k, b, i)
    ensures n <= i && Meets(p, s, k, b, n) && forall j: nat | j < n :: !Meets(p, s, k, b, j)
    decreases i
  {
    if j: nat :| j < i && Meets(p, s, k, b, j) {
      n := FirstMeeting(p, s, k, b, j);
    } else {
      n := i;
    }
  }

  ghost predicate DispatchedWithin(p: Params, s: State, b: nat, w: nat)
    requires Shaped(p, s)
  {
    exists n: nat :: n <= w && Wrapping(p, s, b, n).pulse
  }

  ghost predicate MeetsWithin(p: Params, s: State, k: nat, b: nat, w: nat)
    requires Shaped(p, s) && k < p.slots
  {
    exists i: nat :: i < w && Meets(p, s, k, b, i)
  }

  /** Exactly when a lone slot is dispatched within `w` edges, over any number of
      wraps: when scan and deadline meet at one of them. */
  lemma DispatchedWithinIff(p: Params, s: State, k: nat, b: nat, w: nat)
    requires Shaped(p, s) && Alone(s, k) && !s.pulse
    ensures DispatchedWithin(p, s, b, w) <==> MeetsWithin(p, s, k, b, w)
  {
    if MeetsWithin(p, s, k, b, w) {
      var i: nat :| i < w && Meets(p, s, k, b, i);
      var n := FirstMeeting(p, s, k, b, i);
      MeetingDispatches(p, s, k, b, n);
      assert Wrapping(p, s, b, n + 1).pulse;
    } else {
      forall n: nat | n <= w
        ensures !Wrapping(p, s, b, n).pulse
      {
        GoesRound(p, s, k, b, n);
      }
    }
  }

  // ----- before the wrap -----

  /** The scan is at slot k at some tick from the deadline to the last one, the
      scan being at `s.scan` at tick `b`. */
  ghost predicate SeenBeforeTheEnd(p: Params, s: State, k: nat, b: nat)
    requires Shaped(p, s) && k < p.slots
  {
    exists v: nat :: s.next[k] <= v < p.ticks && InPhase(p, s.scan, k, b, v)
  }

  predicate InPhase(p: Params, scan: nat, k: nat, b: nat, v: nat)
    requires Sane(p)
  {
    (scan + v - b) % Turn(p) == k
  }

  /** A lone slot whose deadline is still ahead is dispatched before the tick
      wraps if and only if the scan comes by between the deadline and the end. */
  lemma DispatchedBeforeTheWrapIff(p: Params, s: State, k: nat, b: nat)
    requires Shaped(p, s) && Alone(s, k) && !s.pulse && b <= s.next[k] && b < p.ticks
    ensures DispatchedWithin(p, s, b, p.ticks - b) <==> SeenBeforeTheEnd(p, s, k, b)
  {
    DispatchedWithinIff(p, s, k, b, p.ticks - b);
    if MeetsWithin(p, s, k, b, p.ticks - b) {
      var i: nat :| i < p.ticks - b && Meets(p, s, k, b, i);
      DivModUnique(p.ticks, b + i, 0, b + i);
      assert InPhase(p, s.scan, k, b, b + i);
    }
    if SeenBeforeTheEnd(p, s, k, b) {
      var v: nat :| s.next[k] <= v < p.ticks && InPhase(p, s.scan, k, b, v);
      DivModUnique(p.ticks, v, 0, v);
      assert Meets(p, s, k, b, v - b);
    }
  }

  /** With a turn to spare it always does. */
  lemma SeenWithATurnToSpare(p: Params, s: State, k: nat, b: nat)
    requires Shaped(p, s) && k < p.slots && s.next[k] + Turn(p) <= p.ticks
    ensures SeenBeforeTheEnd(p, s, k, b)
  {
    var m, x := Turn(p), s.scan + s.next[k] - b;
    var d := (k - x) % m;
    DivMod(m, k - x);
    ModOfShift(m, 0 - (k - x) / m, k);
    assert x + d == m * (0 - (k - x) / m) + k;
    DivModUnique(m, k, 0, k);
    assert InPhase(p, s.scan, k, b, s.next[k] + d);
  }

  // ----- for ever -----

  /** The tick range is a whole number of turns, as 2^32 is of 16: the scan is
      then at the same slot at the same tick in every pass. */
  ghost predicate Locked(p: Params) {
    Sane(p) && p.ticks % Turn(p) == 0
  }

  lemma PhaseIsKept(p: Params, s: State, k: nat, b: nat, i: nat)
    requires Shaped(p, s) && Locked(p)
    ensures InPhase(p, s.scan, k, b, (b + i) % p.ticks) <==> ScanAfter(p, s.scan, i) == k
  {
    var m, v := Turn(p), (b + i) % p.ticks;
    var q, r := (b + i) / p.ticks, p.ticks / m;
    DivMod(p.ticks, b + i);
    DivMod(m, p.ticks);
    MulAssoc(m, r, q);
    ModOfShift(m, 0 - r * q, s.scan + i);
    assert s.scan + v - b == m * (0 - r * q) + (s.scan + i);
  }

  lemma TimeOfTick(p: Params, b: nat, v: nat) returns (i: nat)
    requires v < p.ticks
    ensures (b + i) % p.ticks == v
  {
    i := (v - b) % p.ticks;
    DivMod(p.ticks, v - b);
    ModOfShift(p.ticks, 0 - (v - b) / p.ticks, v);
    assert b + i == p.ticks * (0 - (v - b) / p.ticks) + v;
    DivModUnique(p.ticks, v, 0, v);
  }

  /** Exactly when a lone slot is ever dispatched: when the scan comes by between
      its deadline and the end of the tick range.  Otherwise it is lost, however
      often the tick wraps. */
  lemma EverDispatchedIff(p: Params, s: State, k: nat, b: nat)
    requires Shaped(p, s) && Alone(s, k) && !s.pulse && Locked(p)
    ensures (exists w: nat :: DispatchedWithin(p, s, b, w)) <==> SeenBeforeTheEnd(p, s, k, b)
  {
    if w: nat :| DispatchedWithin(p, s, b, w) {
      DispatchedWithinIff(p, s, k, b, w);
      var i: nat :| i < w && Meets(p, s, k, b, i);
      PhaseIsKept(p, s, k, b, i);
      assert InPhase(p, s.scan, k, b, (b + i) % p.ticks);
    }
    if SeenBeforeTheEnd(p, s, k, b) {
      var v: nat :| s.next[k] <= v < p.ticks && InPhase(p, s.scan, k, b, v);
      var i := TimeOfTick(p, b, v);
      PhaseIsKept(p, s, k, b, i);
      assert Meets(p, s, k, b, i);
      DispatchedWithinIff(p, s, k, b, i + 1);
    }
  }

  /** An input that loses its dispatches, with the parameters of the board: slot
      1, written once at tick 0 with the longest period.  No deadline wraps and
      the slot is on time, but the scan is never at it at the last tick. */
  lemma LongestPeriodIsLost(n: nat)
    ensures var p := Params(16, 16, TWO_32);
            var s := Step(p, ResetState(p), 0, false, Write(1, TWO_32 - 1));
            && Shaped(p, s) && Alone(s, 1) && OnTime(p, s, 1, 1) && s.next[1] == TWO_32 - 1
            && !DeadlineWraps(p, Start(p), Configure(0, 1, TWO_32 - 1))
            && !Wrapping(p, s, 1, n).pulse
  {
    var p := Params(16, 16, TWO_32);
    var s := Step(p, ResetState(p), 0, false, Write(1, TWO_32 - 1));
    EverDispatchedIff(p, s, 1, 1);
    forall v: nat | s.next[1] <= v < p.ticks ensures !InPhase(p, s.scan, 1, 1, v) {
      assert v == TWO_32 - 1;
    }
    assert !DispatchedWithin(p, s, 1, n);
  }
}
