// When the hardware TX scheduler dispatches: it is work-conserving, and a slot
// that runs alone keeps up exactly when its period covers its scan distance.
module TxLatency {
  import opened Arith
  import opened TxScheduler

  /** The closed loop over clock edges at the given tick values. */
  function After(p: Params, s: State, bases: seq<nat>): (r: State)
    requires Shaped(p, s)
    ensures Shaped(p, r)
    decreases |bases|
  {
    if bases == [] then s else After(p, Step(p, s, bases[0], s.pulse, NoConfig), bases[1..])
  }

  /** Edges before slot k is examined, if nothing is dispatched first. */
  function Away(p: Params, scan: nat, k: nat): nat
    requires scan < Turn(p)
  {
    if scan <= k then k - scan else Turn(p) - scan + k
  }

  lemma ScanMovesCloser(p: Params, s: State, base: nat, k: nat)
    requires Shaped(p, s) && 1 <= k < p.slots && !s.pulse
    ensures var r := Step(p, s, base, false, NoConfig);
            && r.next == s.next && r.period == s.period
            && (s.scan == k && Due(s, k, base) ==> r.pulse && r.slot == k)
            && (!r.pulse && s.scan != k ==> Away(p, r.scan, k) == Away(p, s.scan, k) - 1)
            && (!r.pulse && s.scan == k ==> Away(p, r.scan, k) == Turn(p) - 1)
  {
  }

  /** As long as slot k stays due, a pulse comes before it is passed over. */
  lemma {:induction false} PulseComes(p: Params, s: State, k: nat, bases: seq<nat>) returns (n: nat)
    requires Shaped(p, s) && 1 <= k < p.slots && s.period[k] != 0 && !s.pulse
    requires |bases| > Away(p, s.scan, k)
    requires forall i | 0 <= i <= Away(p, s.scan, k) :: bases[i] >= s.next[k]
    ensures 1 <= n <= Away(p, s.scan, k) + 1 && After(p, s, bases[..n]).pulse
    decreases Away(p, s.scan, k)
  {
    var r := Step(p, s, bases[0], false, NoConfig);
    ScanMovesCloser(p, s, bases[0], k);
    if r.pulse {
      n := 1;
      assert After(p, r, bases[..1][1..]) == r;
    } else {
      var m := PulseComes(p, r, k, bases[1..]);
      n := m + 1;
      assert bases[..n][1..] == bases[1..][..m];
    }
  }

  /** The deadlines once a pending acknowledge has landed. */
  function Acknowledged(p: Params, s: State): seq<nat>
    requires Shaped(p, s)
  {
    if s.pulse then s.next[s.slot := (s.next[s.slot] + s.period[s.slot]) % p.ticks] else s.next
  }

  /** Work-conserving: whenever some slot other than 0 stays due for one turn
      of the scan (SLOTS cycles for a full-width scan register), a slot is
      dispatched within that turn.  Right after a dispatch the slot need only be
      due from the edge after the acknowledge. */
  lemma WorkConserving(p: Params, s: State, k: nat, bases: seq<nat>)
    requires Shaped(p, s) && PulseInv(s) && 1 <= k < p.slots && s.period[k] != 0
    requires |bases| == Turn(p)
    requires forall i | (if s.pulse then 1 else 0) <= i < |bases| :: bases[i] >= Acknowledged(p, s)[k]
    ensures exists n :: 1 <= n <= Turn(p) && After(p, s, bases[..n]).pulse
  {
    if s.pulse {
      var r := Step(p, s, bases[0], true, NoConfig);
      assert r.scan == 1 && !r.pulse && r.next == Acknowledged(p, s);
      var m := PulseComes(p, r, k, bases[1..]);
      assert bases[..m + 1][1..] == bases[1..][..m];
      assert After(p, s, bases[..m + 1]).pulse;
    } else {
      var n := PulseComes(p, s, k, bases);
    }
  }

  /** So in every reachable state. */
  lemma ReachableWorkConserving(p: Params, es: seq<Edge>, l: Loop, k: nat, bases: seq<nat>)
    requires Reaches(p, es, l) && LoopShaped(p, l) && 1 <= k < p.slots && l.s.period[k] != 0
    requires |bases| == Turn(p)
    requires forall i | (if l.s.pulse then 1 else 0) <= i < |bases| :: bases[i] >= Acknowledged(p, l.s)[k]
    ensures exists n :: 1 <= n <= Turn(p) && After(p, l.s, bases[..n]).pulse
  {
    ReachableInv(p, es, l);
    WorkConserving(p, l.s, k, bases);
  }

  // ----- one slot alone, under a tick that advances every cycle -----

  ghost predicate Alone(s: State, k: nat)
    requires |s.period| == |s.next|
  {
    && 1 <= k < |s.period| && s.period[k] > 0
    && (forall j | 0 <= j < |s.period| && j != k :: s.period[j] == 0)
  }

  /** One edge of the closed loop. */
  function Cycle(p: Params, s: State, b: nat): (r: State)
    requires Shaped(p, s)
    ensures Shaped(p, r)
  {
    Step(p, s, b, s.pulse, NoConfig)
  }

  /** The state after `n` edges at ticks b, b + 1, ... */
  function Ticks(p: Params, s: State, b: nat, n: nat): (r: State)
    requires Shaped(p, s)
    ensures Shaped(p, r)
    decreases n
  {
    if n == 0 then s else Ticks(p, Cycle(p, s, b), b + 1, n - 1)
  }

  /** `b` is the tick of the coming edge. */
  ghost predicate OnTime(p: Params, s: State, k: nat, b: nat) {
    && Shaped(p, s) && Alone(s, k)
    && (if s.pulse then s.slot == k && s.scan == 0 && s.next[k] < b <= s.next[k] + Turn(p)
        else b + Away(p, s.scan, k) <= s.next[k] + Turn(p) - 1)
  }

  lemma StaysOnTime(p: Params, s: State, k: nat, b: nat)
    requires OnTime(p, s, k, b) && s.period[k] >= k + 1 && b + s.period[k] < p.ticks
    ensures OnTime(p, Cycle(p, s, b), k, b + 1) && Cycle(p, s, b).period == s.period
  {
    if s.pulse {
      DivModUnique(p.ticks, s.next[k] + s.period[k], 0, s.next[k] + s.period[k]);
    } else {
      ScanMovesCloser(p, s, b, k);
    }
  }

  lemma {:induction false} TicksOnTime(p: Params, s: State, k: nat, b: nat, n: nat)
    requires OnTime(p, s, k, b) && s.period[k] >= k + 1 && b + n + s.period[k] < p.ticks
    ensures OnTime(p, Ticks(p, s, b, n), k, b + n) && Ticks(p, s, b, n).period == s.period
    decreases n
  {
    if n > 0 {
      StaysOnTime(p, s, k, b);
      TicksOnTime(p, Cycle(p, s, b), k, b + 1, n - 1);
    }
  }

  /** Bounded lateness: a slot k alone, not overdue to begin with, whose period
      is at least k + 1 cycles, is never left waiting a turn of the scan past its
      deadline; lateness does not accumulate. */
  lemma LatenessBounded(p: Params, s: State, k: nat, b: nat, n: nat)
    requires Shaped(p, s) && Alone(s, k) && !s.pulse && b <= s.next[k]
    requires s.period[k] >= k + 1 && b + n + s.period[k] < p.ticks
    ensures var t := Ticks(p, s, b, n);
            && (!t.pulse ==> b + n < t.next[k] + Turn(p))
            && (Cycle(p, t, b + n).pulse ==> t.next[k] <= b + n < t.next[k] + Turn(p))
  {
    TicksOnTime(p, s, k, b, n);
    var t := Ticks(p, s, b, n);
    if Cycle(p, t, b + n).pulse {
      assert !t.pulse && t.scan == k;
    }
  }

  lemma {:induction false} ScanThrough(p: Params, s: State, k: nat, b: nat, n: nat)
    requires Shaped(p, s) && Alone(s, k) && !s.pulse && 1 <= s.scan && s.scan + n <= k
    ensures Ticks(p, s, b, n) == s.(scan := s.scan + n)
    decreases n
  {
    if n > 0 {
      assert Cycle(p, s, b) == s.(scan := s.scan + 1);
      ScanThrough(p, s.(scan := s.scan + 1), k, b + 1, n - 1);
    }
  }

  lemma {:induction false} TicksConcat(p: Params, s: State, b: nat, m: nat, n: nat)
    requires Shaped(p, s)
    ensures Ticks(p, s, b, m + n) == Ticks(p, Ticks(p, s, b, m), b + m, n)
    decreases m
  {
    if m > 0 {
      TicksConcat(p, Cycle(p, s, b), b + 1, m - 1, n);
    }
  }

  /** From one dispatch of an overdue slot to its next: k + 1 cycles. */
  lemma BackToBack(p: Params, s: State, k: nat, b: nat)
    requires Shaped(p, s) && Alone(s, k) && s.pulse && s.slot == k && s.scan == 0
    requires s.next[k] + s.period[k] <= b + k && s.next[k] + s.period[k] < p.ticks
    ensures Ticks(p, s, b, k + 1) == s.(next := s.next[k := s.next[k] + s.period[k]])
    ensures forall n | 1 <= n <= k :: !Ticks(p, s, b, n).pulse
  {
    DivModUnique(p.ticks, s.next[k] + s.period[k], 0, s.next[k] + s.period[k]);
    var t := Cycle(p, s, b);
    assert t == s.(next := s.next[k := s.next[k] + s.period[k]], scan := 1, pulse := false);
    forall n | 1 <= n <= k
      ensures Ticks(p, s, b, n) == t.(scan := n)
    {
      ScanThrough(p, t, k, b + 1, n - 1);
    }
    TicksConcat(p, s, b, k, 1);
    LastEdge(p, t.(scan := k), k, b + k);
  }

  lemma LastEdge(p: Params, s: State, k: nat, b: nat)
    requires Shaped(p, s) && Alone(s, k) && s.scan == k && s.slot == k && s.next[k] <= b && !s.pulse
    ensures Ticks(p, s, b, 1) == s.(scan := 0, pulse := true)
  {
    assert Ticks(p, s, b, 1) == Ticks(p, Cycle(p, s, b), b + 1, 0);
  }

  /** `m` dispatches of an overdue slot, k + 1 cycles apart. */
  lemma {:induction false} Rounds(p: Params, s: State, k: nat, b: nat, m: nat)
    requires Shaped(p, s) && Alone(s, k) && s.pulse && s.slot == k && s.scan == 0
    requires s.next[k] < b && s.period[k] <= k && b + Sum(m, k + 1) < p.ticks
    ensures Ticks(p, s, b, Sum(m, k + 1)) == s.(next := s.next[k := s.next[k] + Sum(m, s.period[k])])
    decreases m
  {
    if m > 0 {
      var r := s.(next := s.next[k := s.next[k] + s.period[k]]);
      BackToBack(p, s, k, b);
      TicksConcat(p, s, b, k + 1, Sum(m - 1, k + 1));
      Rounds(p, r, k, b + k + 1, m - 1);
    } else {
      assert s.next[k := s.next[k]] == s.next;
    }
  }

  /** The bound k + 1 is sharp: with a shorter period the slot is dispatched
      every k + 1 cycles and falls behind by k + 1 - period each time. */
  lemma LatenessGrows(p: Params, s: State, k: nat, b: nat, m: nat)
    requires Shaped(p, s) && Alone(s, k) && s.pulse && s.slot == k && s.scan == 0
    requires s.next[k] < b && s.period[k] <= k && b + m * (k + 1) < p.ticks
    ensures var t := Ticks(p, s, b, m * (k + 1));
            && t.pulse && t.slot == k
            && b + m * (k + 1) - t.next[k] == b - s.next[k] + m * (k + 1 - s.period[k])
  {
    var per := s.period[k];
    SumIsProduct(m, k + 1);
    SumIsProduct(m, per);
    Rounds(p, s, k, b, m);
    assert m * (k + 1) - m * per == m * (k + 1 - per);
  }

  /** A lone slot that is not late yet, its deadline a turn of the scan away from
      the end of the tick range, is dispatched with the deadline untouched. */
  lemma {:induction false} FirstDispatch(p: Params, s: State, k: nat, b: nat) returns (n: nat)
    requires OnTime(p, s, k, b) && !s.pulse && s.next[k] + Turn(p) <= p.ticks
    ensures n >= 1 && s.next[k] < b + n <= s.next[k] + Turn(p)
    ensures var t := Ticks(p, s, b, n);
            t.pulse && t.slot == k && t.scan == 0 && t.next == s.next && t.period == s.period
    decreases s.next[k] + Turn(p) - b
  {
    var r := Cycle(p, s, b);
    ScanMovesCloser(p, s, b, k);
    if r.pulse {
      n := 1;
      assert Ticks(p, r, b + 1, 0) == r;
    } else {
      var m := FirstDispatch(p, r, k, b + 1);
      n := m + 1;
    }
  }

  lemma {:induction false} PulseHasScanZero(p: Params, s: State, b: nat, n: nat)
    requires Shaped(p, s) && PulseInv(s)
    ensures PulseInv(Ticks(p, s, b, n))
    decreases n
  {
    if n > 0 { PulseHasScanZero(p, Cycle(p, s, b), b + 1, n - 1); }
  }

  /** The dispatch that ends a run of ticks, seen as its last edge. */
  lemma LastDispatch(p: Params, s: State, b: nat, n: nat)
    requires Shaped(p, s) && PulseInv(s) && n >= 1 && Ticks(p, s, b, n).pulse
    ensures var t := Ticks(p, s, b, n - 1);
            && Cycle(p, t, b + n - 1).pulse && t.next == Ticks(p, s, b, n).next
            && t.period == Ticks(p, s, b, n).period
  {
    TicksConcat(p, s, b, n - 1, 1);
    var t := Ticks(p, s, b, n - 1);
    PulseHasScanZero(p, s, b, n - 1);
    assert Ticks(p, t, b + n - 1, 1) == Ticks(p, Cycle(p, t, b + n - 1), b + n, 0);
  }

  /** Every dispatch within the tick range comes less than one turn of the scan
      after its deadline. */
  ghost predicate AlwaysWithinATurn(p: Params, s: State, k: nat, b: nat)
    requires Shaped(p, s) && k < |s.period|
  {
    forall n: nat | b + n + s.period[k] < p.ticks && Cycle(p, Ticks(p, s, b, n), b + n).pulse ::
      b + n < Ticks(p, s, b, n).next[k] + Turn(p)
  }

  /** With a shorter period a slot that starts on time ends up a whole turn late. */
  lemma ShortPeriodFallsBehind(p: Params, s: State, k: nat, b: nat) returns (n: nat)
    requires Shaped(p, s) && Alone(s, k) && !s.pulse && b <= s.next[k] && s.period[k] <= k
    requires s.next[k] + Turn(p) * (k + 3) < p.ticks
    ensures b + n + s.period[k] < p.ticks && Cycle(p, Ticks(p, s, b, n), b + n).pulse
    ensures b + n >= Ticks(p, s, b, n).next[k] + Turn(p)
  {
    var first := FirstDispatch(p, s, k, b);
    var cycles := Turn(p) * (k + 1);
    RoomForRounds(Turn(p), k);
    TurnOfRounds(p, Ticks(p, s, b, first), k, b + first, cycles);
    TicksConcat(p, s, b, first, cycles);
    LastDispatch(p, s, b, first + cycles);
    n := first + cycles - 1;
  }

  lemma RoomForRounds(m: nat, k: nat)
    requires m > 0
    ensures m * (k + 3) == m * (k + 1) + 2 * m && m * (k + 1) >= 1
  {
  }

  /** A turn's worth of dispatches makes an overdue slot a turn later. */
  lemma TurnOfRounds(p: Params, s: State, k: nat, b: nat, cycles: nat)
    requires Shaped(p, s) && Alone(s, k) && s.pulse && s.slot == k && s.scan == 0
    requires s.next[k] < b && s.period[k] <= k && cycles == Turn(p) * (k + 1) && b + cycles < p.ticks
    ensures var t := Ticks(p, s, b, cycles);
            t.pulse && t.period == s.period && b + cycles > t.next[k] + Turn(p)
  {
    SumIsProduct(Turn(p), k + 1);
    SumIsProduct(Turn(p), s.period[k]);
    Rounds(p, s, k, b, Turn(p));
    GainPerRound(Turn(p), k, s.period[k]);
  }

  lemma GainPerRound(m: nat, k: nat, per: nat)
    requires per <= k
    ensures m * (k + 1) - m * per >= m
  {
    assert m * (k + 1) - m * per == m * (k + 1 - per);
  }

  /** The bound k + 1 is exact: a lone slot that starts on time is always
      dispatched within one turn of its deadline if and only if its period is at
      least k + 1, given a tick range with room for a turn's worth of rounds. */
  lemma LatenessBoundedIff(p: Params, s: State, k: nat, b: nat)
    requires Shaped(p, s) && Alone(s, k) && !s.pulse && b <= s.next[k]
    requires s.next[k] + Turn(p) * (k + 3) < p.ticks
    ensures AlwaysWithinATurn(p, s, k, b) <==> s.period[k] >= k + 1
  {
    if s.period[k] >= k + 1 {
      forall n: nat | b + n + s.period[k] < p.ticks && Cycle(p, Ticks(p, s, b, n), b + n).pulse
        ensures b + n < Ticks(p, s, b, n).next[k] + Turn(p)
      {
        LatenessBounded(p, s, k, b, n);
      }
    } else {
      var n := ShortPeriodFallsBehind(p, s, k, b);
    }
  }

  // ----- several slots: the scan restarts, so low slots come first -----

  /** Slot k will be due when the scan reaches it, tick `b` being the coming
      edge's, and nothing above it will be examined first. */
  ghost predicate DueWhenReached(p: Params, s: State, k: nat, b: nat) {
    && Shaped(p, s) && PulseInv(s) && 1 <= k < p.slots && s.scan <= k && s.period[k] != 0
    && (s.pulse ==> s.slot <= k)
    && (if Pending(s, k) then s.next[k] + s.period[k] <= b + k else s.next[k] + s.scan <= b + k)
  }

  lemma StaysDueWhenReached(p: Params, s: State, k: nat, b: nat)
    requires DueWhenReached(p, s, k, b) && s.period[k] <= k + 1 && b + k < p.ticks
    ensures var r := Cycle(p, s, b); DueWhenReached(p, r, k, b + 1) && r.period == s.period
  {
    if Pending(s, k) { DivModUnique(p.ticks, s.next[k] + s.period[k], 0, s.next[k] + s.period[k]); }
  }

  /** Fixed priority: once slot k, with a period of at most k + 1 cycles, has
      been dispatched, no slot above it ever is, whatever the other slots are. */
  lemma {:induction false} HighSlotsStarve(p: Params, s: State, k: nat, b: nat, n: nat)
    requires DueWhenReached(p, s, k, b) && s.period[k] <= k + 1 && b + n + k < p.ticks
    ensures var t := Ticks(p, s, b, n); DueWhenReached(p, t, k, b + n) && (t.pulse ==> t.slot <= k)
    decreases n
  {
    if n > 0 {
      StaysDueWhenReached(p, s, k, b);
      HighSlotsStarve(p, Cycle(p, s, b), k, b + 1, n - 1);
    }
  }

  /** The dispatch that starts it. */
  lemma DispatchMakesDue(p: Params, s: State, k: nat, b: nat)
    requires Shaped(p, s) && PulseInv(s) && 1 <= k < p.slots && 0 < s.period[k] <= k + 1
    requires Cycle(p, s, b).pulse && Cycle(p, s, b).slot == k
    ensures DueWhenReached(p, Cycle(p, s, b), k, b + 1)
  {
  }
}
