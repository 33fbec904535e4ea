// How long slots of the hardware TX scheduler wait when several are enabled.
// The scan restarts at slot 0 after every dispatch, so a dispatch of slot j
// costs j + 1 cycles and lower slots go first: the scan gets past slot k exactly
// when the demand of slots 1 to k has been met.
module TxResponse {
  import opened Arith
  import opened TxScheduler
  import opened TxLatency

  // ----- cycles taken by dispatches -----

  /** Cycles taken by `c[j]` dispatches of each slot j. */
  function Cost(c: seq<nat>): nat
    decreases |c|
  {
    if c == [] then 0 else Cost(c[..|c| - 1]) + Times(|c|, c[|c| - 1])
  }

  function Times(a: nat, b: nat): nat {
    a * b
  }

  lemma TimesStep(a: nat, b: nat)
    ensures Times(a, b + 1) == Times(a, b) + a
  {
  }

  lemma TimesMonotone(a: nat, b: nat, c: nat)
    requires b <= c
    ensures Times(a, b) <= Times(a, c)
  {
    MulMonotone(b, c, a);
  }

  lemma {:induction false} CostOfOneMore(c: seq<nat>, j: nat)
    requires j < |c|
    ensures Cost(c[j := c[j] + 1]) == Cost(c) + j + 1
    decreases |c|
  {
    var front, more := c[..|c| - 1], c[j := c[j] + 1];
    if j == |c| - 1 {
      assert more[..|c| - 1] == front;
      TimesStep(|c|, c[j]);
    } else {
      assert more[..|c| - 1] == front[j := front[j] + 1];
      CostOfOneMore(front, j);
    }
  }

  ghost predicate AtMost(c: seq<nat>, d: seq<nat>) {
    |c| == |d| && forall j | 0 <= j < |c| :: c[j] <= d[j]
  }

  lemma {:induction false} CostMonotone(c: seq<nat>, d: seq<nat>)
    requires AtMost(c, d)
    ensures Cost(c) <= Cost(d)
    decreases |c|
  {
    if c != [] {
      CostMonotone(c[..|c| - 1], d[..|c| - 1]);
      TimesMonotone(|c|, c[|c| - 1], d[|c| - 1]);
    }
  }

  lemma {:induction false} CostOfNone(n: nat)
    ensures Cost(seq(n, _ => 0)) == 0
  {
    if n > 0 {
      CostOfNone(n - 1);
      assert seq(n, _ => 0)[..n - 1] == seq(n - 1, _ => 0);
    }
  }

  // ----- demand -----

  /** How many of the deadlines `due`, `due + per`, ... come before `end`. */
  function Claims(due: nat, per: nat, end: nat): nat
    requires per > 0
  {
    if due >= end then 0 else (end - 1 - due) / per + 1
  }

  /** The deadline after `c` dispatches. */
  function NextDue(due: nat, per: nat, c: nat): nat {
    due + c * per
  }

  /** `Claims` counts exactly: the c-th deadline has come iff c < Claims. */
  lemma ClaimsCount(due: nat, per: nat, end: nat, c: nat)
    requires per > 0
    ensures c < Claims(due, per, end) <==> NextDue(due, per, c) < end
  {
    if due < end {
      var x := end - 1 - due;
      DivModUnique(per, c * per, c, 0);
      if c * per <= x {
        DivMonotone(per, c * per, x);
      } else {
        DivBounds(per, x);
        if c <= x / per { MulMonotone(c, x / per, per); }
      }
    } else {
      MulMonotone(0, c, per);
    }
  }

  /** A turn of the scan that starts at tick b + t examines slot j at tick
      b + t + j: the dispatches slots 1 to k have asked for by then. */
  function Demand(p: Params, s: State, k: nat, b: nat, t: nat): (c: seq<nat>)
    requires Shaped(p, s)
    ensures |c| == p.slots
  {
    seq(p.slots, j requires 0 <= j < p.slots =>
      if 1 <= j <= k && s.period[j] > 0 then Claims(Acknowledged(p, s)[j], s.period[j], b + t + j + 1) else 0)
  }

  /** By a turn starting `t` cycles on, all that was asked of slots 1 to k fits
      into those cycles. */
  ghost predicate Met(p: Params, s: State, k: nat, b: nat, t: nat)
    requires Shaped(p, s)
  {
    Cost(Demand(p, s, k, b, t)) <= t
  }

  // ----- the scan while it has not got past slot k -----

  /** The state `n` edges after `s`: the scan has not got past slot k, `c` counts
      the dispatches since, and every cycle is one of a dispatch or of the turn
      in progress, which started at tick b + Cost(c). */
  ghost predicate Busy(p: Params, s: State, k: nat, b: nat, n: nat, t: State, c: seq<nat>) {
    && Shaped(p, s) && Shaped(p, t) && PulseInv(t) && t.period == s.period && |c| == p.slots
    && t.scan <= k < p.slots && n == Cost(c) + t.scan
    && (forall j | 0 <= j < p.slots :: SlotBusy(p, s, k, b, Cost(c), t, c, j))
  }

  /** Slot j: its deadline has moved one period per dispatch, each had come when
      it was taken, and if it was passed in this turn its next one had not. */
  ghost predicate SlotBusy(p: Params, s: State, k: nat, b: nat, start: nat, t: State, c: seq<nat>, j: nat)
    requires Shaped(p, s) && Shaped(p, t) && |c| == p.slots && j < p.slots
  {
    var due, per := Acknowledged(p, s)[j], s.period[j];
    && Acknowledged(p, t)[j] == NextDue(due, per, c[j])
    && (c[j] > 0 ==> 1 <= j <= k && per > 0 && NextDue(due, per, c[j] - 1) < b + start)
    && (1 <= j < t.scan && per > 0 ==> NextDue(due, per, c[j]) > b + start + j)
  }

  ghost predicate Room(p: Params, s: State, end: nat) {
    forall j | 0 <= j < |s.period| :: end + s.period[j] < p.ticks
  }

  function Counted(c: seq<nat>, r: State): seq<nat>
    requires r.slot < |c|
  {
    if r.pulse then c[r.slot := c[r.slot] + 1] else c
  }

  lemma NextDueStep(due: nat, per: nat, c: nat)
    ensures NextDue(due, per, c + 1) == NextDue(due, per, c) + per && NextDue(due, per, 0) == due
  {
  }

  /** One cycle at the slots: r follows t, the scan still not past slot k. */
  lemma SlotStaysBusy(p: Params, s: State, k: nat, b: nat, n: nat, t: State, c: seq<nat>, r: State, d: seq<nat>,
                      start: nat, j: nat)
    requires Busy(p, s, k, b, n, t, c) && Room(p, s, b + n) && j < p.slots
    requires r == Cycle(p, t, b + n) && d == Counted(c, r)
    requires start == if r.pulse then n + 1 else Cost(c)
    requires r.pulse || t.scan < k
    ensures SlotBusy(p, s, k, b, start, r, d, j)
  {
    assert SlotBusy(p, s, k, b, Cost(c), t, c, j);
    assert r.next == Acknowledged(p, t);
    if r.pulse && r.slot == j {
      assert !t.pulse && Due(t, j, b + n);
      NextDueStep(Acknowledged(p, s)[j], s.period[j], c[j]);
      DivModUnique(p.ticks, r.next[j] + s.period[j], 0, r.next[j] + s.period[j]);
    }
  }

  lemma StaysBusy(p: Params, s: State, k: nat, b: nat, n: nat, t: State, c: seq<nat>, r: State, d: seq<nat>)
    requires Busy(p, s, k, b, n, t, c) && Room(p, s, b + n)
    requires r == Cycle(p, t, b + n) && d == Counted(c, r)
    requires r.pulse || t.scan < k
    ensures Busy(p, s, k, b, n + 1, r, d)
    ensures Cost(d) == if r.pulse then n + 1 else Cost(c)
  {
    if r.pulse {
      assert r.slot == t.scan && !t.pulse;
      CostOfOneMore(c, r.slot);
    }
    var start := Cost(d);
    forall j | 0 <= j < p.slots
      ensures SlotBusy(p, s, k, b, start, r, d, j)
    {
      SlotStaysBusy(p, s, k, b, n, t, c, r, d, start, j);
    }
  }

  /** What has been dispatched was asked for by the start of the turn. */
  lemma DispatchedWasAsked(p: Params, s: State, k: nat, b: nat, n: nat, t: State, c: seq<nat>, later: nat)
    requires Busy(p, s, k, b, n, t, c) && later >= Cost(c)
    ensures AtMost(c, Demand(p, s, k, b, later))
  {
    forall j | 0 <= j < p.slots
      ensures c[j] <= Demand(p, s, k, b, later)[j]
    {
      assert SlotBusy(p, s, k, b, Cost(c), t, c, j);
      if c[j] > 0 { ClaimsCount(Acknowledged(p, s)[j], s.period[j], b + later + j + 1, c[j] - 1); }
    }
  }

  /** A dispatch in the turn: also what it takes was asked for. */
  lemma DispatchWasAsked(p: Params, s: State, k: nat, b: nat, n: nat, t: State, c: seq<nat>, r: State, later: nat)
    requires Busy(p, s, k, b, n, t, c) && r == Cycle(p, t, b + n) && r.pulse
    requires later >= Cost(c)
    ensures AtMost(Counted(c, r), Demand(p, s, k, b, later))
  {
    var j := r.slot;
    DispatchedWasAsked(p, s, k, b, n, t, c, later);
    assert SlotBusy(p, s, k, b, Cost(c), t, c, j);
    assert !t.pulse && j == t.scan && Due(t, j, b + n);
    ClaimsCount(Acknowledged(p, s)[j], s.period[j], b + later + j + 1, c[j]);
  }

  /** No turn that starts before `start` finds the demand met. */
  ghost predicate NeverMet(p: Params, s: State, k: nat, b: nat, start: nat)
    requires Shaped(p, s)
  {
    forall t: nat | t < start :: !Met(p, s, k, b, t)
  }

  lemma DispatchLeavesUnmet(p: Params, s: State, k: nat, b: nat, n: nat, t: State, c: seq<nat>, r: State)
    requires Busy(p, s, k, b, n, t, c) && NeverMet(p, s, k, b, Cost(c))
    requires r == Cycle(p, t, b + n) && r.pulse
    ensures NeverMet(p, s, k, b, n + 1)
  {
    assert r.slot == t.scan && !t.pulse;
    CostOfOneMore(c, r.slot);
    forall u: nat | u < n + 1
      ensures !Met(p, s, k, b, u)
    {
      if u >= Cost(c) {
        DispatchWasAsked(p, s, k, b, n, t, c, r, u);
        CostMonotone(Counted(c, r), Demand(p, s, k, b, u));
      }
    }
  }

  /** The scan is at slot k and goes on past it. */
  ghost predicate GetsPast(p: Params, t: State, k: nat, tick: nat)
    requires Shaped(p, t)
  {
    t.scan == k && !Cycle(p, t, tick).pulse
  }

  /** It does so only when nothing asked for is left. */
  lemma PastMeansMet(p: Params, s: State, k: nat, b: nat, n: nat, t: State, c: seq<nat>)
    requires Busy(p, s, k, b, n, t, c) && GetsPast(p, t, k, b + n)
    ensures Met(p, s, k, b, n - k)
  {
    var start := Cost(c);
    var most := Demand(p, s, k, b, start);
    forall j | 0 <= j < p.slots
      ensures most[j] <= c[j]
    {
      assert SlotBusy(p, s, k, b, start, t, c, j);
      if 1 <= j <= k && s.period[j] > 0 {
        ClaimsCount(Acknowledged(p, s)[j], s.period[j], b + start + j + 1, c[j]);
      }
    }
    CostMonotone(most, c);
  }

  lemma BusyAtFirst(p: Params, s: State, k: nat, b: nat)
    requires Shaped(p, s) && PulseInv(s) && s.scan == 0 && k < p.slots
    ensures Busy(p, s, k, b, 0, s, seq(p.slots, _ => 0))
    ensures Cost(seq(p.slots, _ => 0)) == 0
  {
    CostOfNone(p.slots);
    var c := seq(p.slots, _ => 0);
    forall j | 0 <= j < p.slots ensures SlotBusy(p, s, k, b, 0, s, c, j) {
      NextDueStep(Acknowledged(p, s)[j], s.period[j], 0);
    }
  }

  lemma TicksStep(p: Params, s: State, b: nat, n: nat)
    requires Shaped(p, s)
    ensures Ticks(p, s, b, n + 1) == Cycle(p, Ticks(p, s, b, n), b + n)
  {
    TicksConcat(p, s, b, n, 1);
    assert Ticks(p, Ticks(p, s, b, n), b + n, 1) == Ticks(p, Cycle(p, Ticks(p, s, b, n), b + n), b + n + 1, 0);
  }

  /** How it stands after `n` edges: at edge `past` the scan got past slot k for
      the first time, or it is still busy and no demand has been met. */
  datatype Outcome = Past(at: nat) | StillBusy(c: seq<nat>)

  ghost predicate Stands(p: Params, s: State, k: nat, b: nat, n: nat, o: Outcome)
    requires Shaped(p, s)
  {
    match o
    case Past(at) =>
      && k <= at < n && GetsPast(p, Ticks(p, s, b, at), k, b + at) && Met(p, s, k, b, at - k)
      && NeverMet(p, s, k, b, at - k) && NotPast(p, s, k, b, at)
    case StillBusy(c) =>
      && Busy(p, s, k, b, n, Ticks(p, s, b, n), c) && NeverMet(p, s, k, b, Cost(c)) && NotPast(p, s, k, b, n)
  }

  ghost predicate NotPast(p: Params, s: State, k: nat, b: nat, n: nat)
    requires Shaped(p, s)
  {
    forall i: nat | i < n :: !GetsPast(p, Ticks(p, s, b, i), k, b + i)
  }

  lemma OneMoreEdge(p: Params, s: State, k: nat, b: nat, n: nat, c: seq<nat>) returns (o: Outcome)
    requires Shaped(p, s) && Stands(p, s, k, b, n, StillBusy(c)) && Room(p, s, b + n)
    ensures Stands(p, s, k, b, n + 1, o)
  {
    var t := Ticks(p, s, b, n);
    var r := Cycle(p, t, b + n);
    TicksStep(p, s, b, n);
    if GetsPast(p, t, k, b + n) {
      PastMeansMet(p, s, k, b, n, t, c);
      o := Past(n);
    } else {
      if r.pulse { DispatchLeavesUnmet(p, s, k, b, n, t, c, r); }
      StaysBusy(p, s, k, b, n, t, c, r, Counted(c, r));
      o := StillBusy(Counted(c, r));
    }
  }

  lemma {:induction false} WhereItStands(p: Params, s: State, k: nat, b: nat, n: nat) returns (o: Outcome)
    requires Shaped(p, s) && PulseInv(s) && s.scan == 0 && k < p.slots && Room(p, s, b + n)
    ensures Stands(p, s, k, b, n, o)
    decreases n
  {
    if n == 0 {
      BusyAtFirst(p, s, k, b);
      o := StillBusy(seq(p.slots, _ => 0));
    } else {
      o := WhereItStands(p, s, k, b, n - 1);
      if o.StillBusy? { o := OneMoreEdge(p, s, k, b, n - 1, o.c); }
    }
  }

  // ----- what follows -----

  ghost predicate MetBy(p: Params, s: State, k: nat, b: nat, w: nat)
    requires Shaped(p, s)
  {
    exists t: nat :: t <= w && Met(p, s, k, b, t)
  }

  /** Exactly when the scan gets past slot k in a turn starting within `w`
      cycles: when the demand of slots 1 to k is met by the start of one. */
  lemma ScanGetsPastIff(p: Params, s: State, k: nat, b: nat, w: nat)
    requires Shaped(p, s) && PulseInv(s) && s.scan == 0 && k < p.slots && Room(p, s, b + w + k + 1)
    ensures !NotPast(p, s, k, b, w + k + 1) <==> MetBy(p, s, k, b, w)
  {
    var o := WhereItStands(p, s, k, b, w + k + 1);
    match o
    case Past(at) =>
      assert GetsPast(p, Ticks(p, s, b, at), k, b + at) && Met(p, s, k, b, at - k);
    case StillBusy(c) =>
  }

  /** While it has not, only slots up to k are dispatched. */
  lemma OnlyLowSlots(p: Params, s: State, k: nat, b: nat, n: nat)
    requires Shaped(p, s) && PulseInv(s) && s.scan == 0 && k < p.slots && Room(p, s, b + n) && n > 0
    requires NotPast(p, s, k, b, n)
    ensures var r := Ticks(p, s, b, n); r.pulse ==> r.slot <= k
  {
    var o := WhereItStands(p, s, k, b, n - 1);
    TicksStep(p, s, b, n - 1);
  }

  /** Overload: as long as the demand of slots 1 to k is never met, no slot above
      k is dispatched. */
  lemma UnmetDemandStarves(p: Params, s: State, k: nat, b: nat, w: nat)
    requires Shaped(p, s) && PulseInv(s) && s.scan == 0 && k < p.slots && Room(p, s, b + w + k + 1)
    requires NeverMet(p, s, k, b, w + 1)
    ensures forall n: nat | 0 < n <= w + k :: Ticks(p, s, b, n).pulse ==> Ticks(p, s, b, n).slot <= k
  {
    ScanGetsPastIff(p, s, k, b, w);
    forall n: nat | 0 < n <= w + k
      ensures Ticks(p, s, b, n).pulse ==> Ticks(p, s, b, n).slot <= k
    {
      OnlyLowSlots(p, s, k, b, n);
    }
  }

  ghost predicate DispatchedBy(p: Params, s: State, k: nat, b: nat, w: nat)
    requires Shaped(p, s)
  {
    exists n: nat :: 0 < n <= w && Pending(Ticks(p, s, b, n), k)
  }

  lemma StillBusyUntilPast(p: Params, s: State, k: nat, b: nat, n: nat) returns (c: seq<nat>)
    requires Shaped(p, s) && PulseInv(s) && s.scan == 0 && k < p.slots && Room(p, s, b + n)
    requires NotPast(p, s, k, b, n)
    ensures Busy(p, s, k, b, n, Ticks(p, s, b, n), c)
  {
    var o := WhereItStands(p, s, k, b, n);
    c := if o.StillBusy? then o.c else [];
  }

  /** Past slot k - 1, the scan finds slot k due. */
  lemma PastThenDispatched(p: Params, s: State, k: nat, b: nat, at: nat)
    requires Shaped(p, s) && PulseInv(s) && s.scan == 0 && 1 <= k < p.slots && s.period[k] > 0
    requires Acknowledged(p, s)[k] <= b && Room(p, s, b + at)
    requires NotPast(p, s, k - 1, b, at) && GetsPast(p, Ticks(p, s, b, at), k - 1, b + at)
    ensures !Ticks(p, s, b, at + 1).pulse && Pending(Ticks(p, s, b, at + 2), k)
  {
    var c := StillBusyUntilPast(p, s, k - 1, b, at);
    var t := Ticks(p, s, b, at);
    assert SlotBusy(p, s, k - 1, b, Cost(c), t, c, k);
    NextDueStep(Acknowledged(p, s)[k], s.period[k], 0);
    TicksStep(p, s, b, at);
    var r := Ticks(p, s, b, at + 1);
    assert r.scan == k && r.next == Acknowledged(p, t) && r.period == s.period;
    TicksStep(p, s, b, at + 1);
  }

  /** Before the scan is past slot k - 1, slot k is not dispatched. */
  lemma NoEarlierDispatch(p: Params, s: State, k: nat, b: nat, w: nat)
    requires Shaped(p, s) && PulseInv(s) && s.scan == 0 && 1 <= k < p.slots && Room(p, s, b + w)
    requires NotPast(p, s, k - 1, b, w)
    ensures !DispatchedBy(p, s, k, b, w)
  {
    forall n: nat | 0 < n <= w
      ensures !Pending(Ticks(p, s, b, n), k)
    {
      OnlyLowSlots(p, s, k - 1, b, n);
    }
  }

  /** Response time, exactly: a slot due when a turn starts is dispatched within
      `w` cycles if and only if the demand of the slots below it is met by a turn
      that leaves k + 1 of them for its own scan. */
  lemma ResponseTimeIff(p: Params, s: State, k: nat, b: nat, w: nat)
    requires Shaped(p, s) && PulseInv(s) && s.scan == 0 && 1 <= k < p.slots && s.period[k] > 0
    requires Acknowledged(p, s)[k] <= b && Room(p, s, b + w)
    ensures DispatchedBy(p, s, k, b, w) <==> w > k && MetBy(p, s, k - 1, b, w - k - 1)
  {
    var o := WhereItStands(p, s, k - 1, b, w);
    match o
    case Past(at) =>
      PastThenDispatched(p, s, k, b, at);
      NoEarlierDispatch(p, s, k, b, at);
      if at + 2 <= w {
        assert Pending(Ticks(p, s, b, at + 2), k);
        assert Met(p, s, k - 1, b, at - (k - 1));
      }
    case StillBusy(c) =>
      NoEarlierDispatch(p, s, k, b, w);
  }

  // ----- load -----

  /** The share of cycles that slots 1 to k below `n` ask for: j + 1 per period. */
  function Load(s: State, k: nat, n: nat): real
    requires n <= |s.period|
  {
    if n == 0 then 0.0 else
    Load(s, k, n - 1) + Share(if 1 <= n - 1 <= k then s.period[n - 1] else 0, n)
  }

  function Share(per: nat, cycles: nat): real {
    if per == 0 then 0.0 else cycles as real / per as real
  }

  function Scaled(x: real, y: real): real {
    x * y
  }

  lemma ScaledSum(x: real, y: real, z: real)
    ensures Scaled(x, y + z) == Scaled(x, y) + Scaled(x, z) && Scaled(x, 0.0) == 0.0
  {
  }

  lemma ScaledMonotone(x: real, y: real, z: real)
    requires x >= 0.0 && y >= z
    ensures Scaled(x, y) >= Scaled(x, z)
  {
  }

  /** Claims that fill x cycles' worth of periods cost their share of x. */
  lemma ClaimsCoverShare(cycles: nat, claims: nat, per: nat, x: nat)
    requires per > 0 && claims * per >= x
    ensures Times(cycles, claims) as real >= Scaled(x as real, Share(per, cycles))
  {
    var share := Share(per, cycles);
    assert share * per as real == cycles as real;
    var k := claims * per;
    assert k as real == claims as real * per as real;
    assert k as real * share == claims as real * (per as real * share);
    ScaledMonotone(share, k as real, x as real);
  }

  lemma ClaimsSinceStart(due: nat, per: nat, b: nat, t: nat)
    requires per > 0 && due <= b
    ensures Claims(due, per, b + t + 1) * per >= t + 1
  {
    var x := b + t - due;
    DivBounds(per, x);
    assert (x / per + 1) * per == per * (x / per + 1);
  }

  /** All of slots 1 to k are due when the first turn reaches them. */
  ghost predicate AllDue(p: Params, s: State, k: nat, b: nat)
    requires Shaped(p, s)
  {
    forall j | 1 <= j < p.slots :: j <= k && s.period[j] > 0 ==> Acknowledged(p, s)[j] <= b + j
  }

  lemma {:induction false} DemandCoversLoad(p: Params, s: State, k: nat, b: nat, t: nat, n: nat)
    requires Shaped(p, s) && n <= p.slots && AllDue(p, s, k, b)
    ensures Cost(Demand(p, s, k, b, t)[..n]) as real >= Scaled((t + 1) as real, Load(s, k, n))
    decreases n
  {
    ScaledSum((t + 1) as real, 0.0, 0.0);
    if n > 0 {
      var j, d := n - 1, Demand(p, s, k, b, t);
      DemandCoversLoad(p, s, k, b, t, j);
      assert d[..n][..j] == d[..j] && d[..n][j] == d[j];
      var per := if 1 <= j <= k then s.period[j] else 0;
      ScaledSum((t + 1) as real, Load(s, k, j), Share(per, n));
      ScaledSum((t + 1) as real, Share(per, n), 0.0);
      if per > 0 {
        ClaimsSinceStart(Acknowledged(p, s)[j], per, b + j, t);
        ClaimsCoverShare(n, d[j], per, t + 1);
      }
    }
  }

  lemma FullLoadIsNeverMet(p: Params, s: State, k: nat, b: nat, t: nat)
    requires Shaped(p, s) && AllDue(p, s, k, b) && Load(s, k, p.slots) >= 1.0
    ensures !Met(p, s, k, b, t)
  {
    var d := Demand(p, s, k, b, t);
    assert d[..p.slots] == d;
    DemandCoversLoad(p, s, k, b, t, p.slots);
    ScaledMonotone((t + 1) as real, Load(s, k, p.slots), 1.0);
  }

  /** Overload: once slots 1 to k, between them asking for all cycles, are due,
      no slot above k is dispatched until the tick counter wraps. */
  lemma OverloadStarves(p: Params, s: State, k: nat, b: nat, w: nat)
    requires Shaped(p, s) && PulseInv(s) && s.scan == 0 && k < p.slots && Room(p, s, b + w + k + 1)
    requires AllDue(p, s, k, b) && Load(s, k, p.slots) >= 1.0
    ensures forall n: nat | 0 < n <= w + k :: Ticks(p, s, b, n).pulse ==> Ticks(p, s, b, n).slot <= k
  {
    forall t: nat | t < w + 1 ensures !Met(p, s, k, b, t) {
      FullLoadIsNeverMet(p, s, k, b, t);
    }
    UnmetDemandStarves(p, s, k, b, w);
  }

  /** Slots 1 and 2 with period 4 ask for 2/4 + 3/4 of the cycles. */
  lemma {:induction false} TwoSlotsOverload(s: State, n: nat)
    requires 3 <= n <= |s.period| && s.period[1] == 4 && s.period[2] == 4
    ensures Load(s, 2, n) == 1.25
  {
    if n > 3 {
      TwoSlotsOverload(s, n - 1);
    } else {
      assert Load(s, 2, 1) == 0.0 && Load(s, 2, 2) == 0.5;
    }
  }

  /** What slots 1 to k below `n` may ask for beyond their share: the claim at
      hand, and those of the periods they are behind. */
  function Backlog(p: Params, s: State, k: nat, b: nat, n: nat): real
    requires Shaped(p, s) && n <= p.slots
  {
    if n == 0 then 0.0 else
    var j := n - 1;
    Backlog(p, s, k, b, j) +
    (if 1 <= j <= k && s.period[j] > 0
     then Scaled((Late(Acknowledged(p, s)[j], b + j) + s.period[j]) as real, Share(s.period[j], n)) else 0.0)
  }

  function Late(due: nat, tick: nat): nat {
    if due < tick then tick - due else 0
  }

  lemma ClaimsWithinShare(cycles: nat, claims: nat, per: nat, x: nat)
    requires per > 0 && claims * per <= x
    ensures Times(cycles, claims) as real <= Scaled(x as real, Share(per, cycles))
  {
    var share := Share(per, cycles);
    assert share * per as real == cycles as real;
    var k := claims * per;
    assert k as real == claims as real * per as real;
    assert k as real * share == claims as real * (per as real * share);
    ScaledMonotone(share, x as real, k as real);
  }

  lemma ClaimsAtMost(due: nat, per: nat, tick: nat, t: nat)
    requires per > 0
    ensures Claims(due, per, tick + t + 1) * per <= t + Late(due, tick) + per
  {
    if due < tick + t + 1 {
      var x := tick + t - due;
      DivBounds(per, x);
      assert (x / per + 1) * per == per * (x / per) + per;
    }
  }

  lemma {:induction false} DemandWithinLoad(p: Params, s: State, k: nat, b: nat, t: nat, n: nat)
    requires Shaped(p, s) && n <= p.slots
    ensures Cost(Demand(p, s, k, b, t)[..n]) as real <= Scaled(t as real, Load(s, k, n)) + Backlog(p, s, k, b, n)
    decreases n
  {
    ScaledSum(t as real, 0.0, 0.0);
    if n > 0 {
      var j, d := n - 1, Demand(p, s, k, b, t);
      DemandWithinLoad(p, s, k, b, t, j);
      assert d[..n][..j] == d[..j] && d[..n][j] == d[j];
      var per := if 1 <= j <= k then s.period[j] else 0;
      ScaledSum(t as real, Load(s, k, j), Share(per, n));
      ScaledSum(t as real, Share(per, n), 0.0);
      if per > 0 {
        var more := Late(Acknowledged(p, s)[j], b + j) + per;
        ClaimsAtMost(Acknowledged(p, s)[j], per, b + j, t);
        ClaimsWithinShare(n, d[j], per, t + more);
        ScaledAdds(t, more, Share(per, n));
      }
    }
  }

  lemma ScaledAdds(x: nat, y: nat, z: real)
    ensures Scaled((x + y) as real, z) == Scaled(x as real, z) + Scaled(y as real, z)
  {
  }

  /** Below full load every slot is served: a slot due when a turn starts is
      dispatched as soon as the spare share of the cycles has worked off the
      backlog of the slots below it. */
  lemma UnderloadServes(p: Params, s: State, k: nat, b: nat, t: nat)
    requires Shaped(p, s) && PulseInv(s) && s.scan == 0 && 1 <= k < p.slots && s.period[k] > 0
    requires Acknowledged(p, s)[k] <= b && Room(p, s, b + t + k + 1)
    requires Scaled(t as real, Load(s, k - 1, p.slots)) + Backlog(p, s, k - 1, b, p.slots) <= t as real
    ensures DispatchedBy(p, s, k, b, t + k + 1)
  {
    var d := Demand(p, s, k - 1, b, t);
    assert d[..p.slots] == d;
    DemandWithinLoad(p, s, k - 1, b, t, p.slots);
    assert Met(p, s, k - 1, b, t);
    ResponseTimeIff(p, s, k, b, t + k + 1);
  }

  /** Any share short of the whole leaves room for that in the end. */
  lemma SpareShareSuffices(load: real, backlog: real) returns (t: nat)
    requires 0.0 <= load < 1.0 && backlog >= 0.0
    ensures Scaled(t as real, load) + backlog <= t as real
  {
    var spare := 1.0 - load;
    var x := backlog / spare;
    t := x.Floor + 1;
    assert x * spare == backlog;
    ScaledMonotone(spare, t as real, x);
    assert t as real * spare == t as real - t as real * load;
  }
}
