// The hardware TX scheduler (hardware/fpga/src/tx_scheduler.v), closed through
// `slot_ack = dispatch_pulse` as in hardware/fpga/src/top.v.  A step is one
// rising clock edge; all registers take their new values together.
module TxScheduler {
  import opened Arith

  /** SLOTS, 2^SLOT_WIDTH and 2^TICK_WIDTH. */
  datatype Params = Params(slots: nat, scanWrap: nat, ticks: nat)

  ghost predicate Sane(p: Params) {
    2 <= p.slots <= p.scanWrap && p.ticks > 0
  }

  /** Cycles of one turn of `scan`: with a full-width scan register it wraps to
      0 by itself, otherwise the value SLOTS takes a cycle of its own. */
  function Turn(p: Params): nat {
    if p.slots < p.scanWrap then p.slots + 1 else p.slots
  }

  datatype State = State(period: seq<nat>, next: seq<nat>, scan: nat, slot: nat, pulse: bool)

  ghost predicate Shaped(p: Params, s: State) {
    && Sane(p) && |s.period| == |s.next| == p.slots
    && s.scan < Turn(p) && s.slot < p.slots
  }

  /** `scan + 1'b1` in a register of SLOT_WIDTH bits. */
  function NextScan(p: Params, scan: nat): nat {
    if scan + 1 < p.scanWrap then scan + 1 else 0
  }

  datatype Config = NoConfig | Write(slot: nat, period: nat)

  ghost predicate ConfigOk(p: Params, c: Config) {
    c.Write? ==> c.slot < p.slots && c.period < p.ticks
  }

  predicate Due(s: State, k: nat, base: nat)
    requires k < |s.period| == |s.next|
  {
    s.period[k] != 0 && base >= s.next[k]
  }

  /** One clock edge.  Both always-blocks read the registers as they were. */
  function Step(p: Params, s: State, base: nat, ack: bool, c: Config): (r: State)
    requires Shaped(p, s) && ConfigOk(p, c)
    ensures Shaped(p, r)
  {
    var acked := if ack then s.next[s.slot := (s.next[s.slot] + s.period[s.slot]) % p.ticks] else s.next;
    var t := match c
      case NoConfig => s.(next := acked)
      case Write(k, per) => s.(period := s.period[k := per], next := acked[k := (base + per) % p.ticks]);
    if s.scan == 0 then t.(scan := 1, pulse := false)
    else if s.scan < p.slots then
      if Due(s, s.scan, base) then t.(scan := 0, slot := s.scan, pulse := true)
      else t.(scan := NextScan(p, s.scan), pulse := false)
    else t.(scan := 0, pulse := false)
  }

  function ResetState(p: Params): (r: State)
    ensures |r.period| == |r.next| == p.slots && r.scan == r.slot == 0 && !r.pulse
    ensures forall k | 0 <= k < p.slots :: r.period[k] == r.next[k] == 0
  {
    State(seq(p.slots, _ => 0), seq(p.slots, _ => 0), 0, 0, false)
  }

  class TxScheduler {
    const p: Params
    const period: array<nat>
    const next: array<nat>
    var scan: nat
    var dispatchSlot: nat
    var dispatchPulse: bool

    ghost predicate Valid()
      reads this, period, next
    {
      period != next && period.Length == next.Length == p.slots && Shaped(p, Registers())
    }

    ghost function Registers(): State
      reads this, period, next
    {
      State(period[..], next[..], scan, dispatchSlot, dispatchPulse)
    }

    /** Asynchronous reset. */
    constructor (p: Params)
      requires Sane(p)
      ensures Valid() && fresh(period) && fresh(next) && this.p == p
      ensures Registers() == ResetState(p)
    {
      this.p := p;
      period := new nat[p.slots](_ => 0);
      next := new nat[p.slots](_ => 0);
      scan, dispatchSlot, dispatchPulse := 0, 0, false;
      new;
      assert period[..] == ResetState(p).period && next[..] == ResetState(p).next;
    }

    /** Lines 35-46. */
    method ConfigBlock(cfgWe: bool, cfgSlot: nat, cfgPeriodTicks: nat, baseTick: nat)
      requires Valid() && (cfgWe ==> cfgSlot < p.slots && cfgPeriodTicks < p.ticks)
      modifies period, next
      ensures Valid()
      ensures period[..] == if cfgWe then old(period[..])[cfgSlot := cfgPeriodTicks] else old(period[..])
      ensures next[..] == if cfgWe then old(next[..])[cfgSlot := (baseTick + cfgPeriodTicks) % p.ticks]
                          else old(next[..])
    {
      if cfgWe {
        period[cfgSlot] := cfgPeriodTicks;
        next[cfgSlot] := (baseTick + cfgPeriodTicks) % p.ticks;
      }
    }

    /** Lines 48-72. */
    method ScanBlock(baseTick: nat, slotAck: bool)
      requires Valid()
      modifies this, next
      ensures Valid() && period[..] == old(period[..])
      ensures Registers() == Step(p, old(Registers()), baseTick, slotAck, NoConfig)
    {
      ghost var s := Registers();
      var due := 0 < scan < p.slots && period[scan] != 0 && baseTick >= next[scan];
      if slotAck {
        next[dispatchSlot] := (next[dispatchSlot] + period[dispatchSlot]) % p.ticks;
      }
      assert next[..] == Step(p, s, baseTick, slotAck, NoConfig).next;
      dispatchPulse := false;
      if scan == 0 {
        scan := 1;
      } else if scan < p.slots {
        if due {
          dispatchSlot := scan;
          dispatchPulse := true;
          scan := 0;
        } else {
          scan := NextScan(p, scan);
        }
      } else {
        scan := 0;
      }
    }

    /** One rising edge.  The configuration block reads no register, so it may
        come second.  Both blocks drive `next`: a write and an acknowledge of
        the same slot at one edge have no defined order and are left out. */
    method Posedge(cfgWe: bool, cfgSlot: nat, cfgPeriodTicks: nat, baseTick: nat, slotAck: bool)
      requires Valid() && !(cfgWe && slotAck && cfgSlot == dispatchSlot)
      requires cfgWe ==> cfgSlot < p.slots && cfgPeriodTicks < p.ticks
      modifies this, period, next
      ensures Valid()
      ensures Registers() == Step(p, old(Registers()), baseTick, slotAck,
                                  if cfgWe then Write(cfgSlot, cfgPeriodTicks) else NoConfig)
    {
      ScanBlock(baseTick, slotAck);
      ConfigBlock(cfgWe, cfgSlot, cfgPeriodTicks, baseTick);
    }
  }

  // ----- the closed loop, with the dispatches counted per slot -----

  /** A clock edge at some value of the free-running tick, with or without a
      configuration write (period 0 disables the slot). */
  datatype Edge = Clock(base: nat) | Configure(base: nat, slot: nat, period: nat)

  /** `count[k]` dispatches of slot k under the configuration written at tick
      `since[k]`; `top` is the largest tick value seen.  `skipped[k]` is 1 if
      that write met a dispatch of the slot: the acknowledge still to come then
      moves the new configuration's first deadline one period on. */
  datatype Loop = Loop(s: State, since: seq<nat>, count: seq<nat>, skipped: seq<nat>, top: nat)

  /** Any slot may be written at any edge but that of its own acknowledge. */
  ghost predicate Allowed(p: Params, l: Loop, e: Edge) {
    e.Configure? ==> e.slot < p.slots && e.period < p.ticks && !Pending(l.s, e.slot)
  }

  /** The edge stores a deadline that wraps. */
  ghost predicate DeadlineWraps(p: Params, l: Loop, e: Edge)
    requires LoopShaped(p, l)
  {
    || (l.s.pulse && l.s.period[l.s.slot] != 0 && l.s.next[l.s.slot] + l.s.period[l.s.slot] >= p.ticks)
    || (e.Configure? && e.period != 0 && e.base + e.period >= p.ticks)
  }

  ghost predicate LoopShaped(p: Params, l: Loop) {
    Shaped(p, l.s) && |l.since| == |l.count| == |l.skipped| == p.slots
  }

  function Advance(p: Params, l: Loop, e: Edge): (r: Loop)
    requires LoopShaped(p, l) && Allowed(p, l, e)
    ensures LoopShaped(p, r)
  {
    var s := Step(p, l.s, e.base, l.s.pulse, if e.Configure? then Write(e.slot, e.period) else NoConfig);
    var top := if e.base > l.top then e.base else l.top;
    if e.Configure? then
      var count := if s.pulse then l.count[s.slot := l.count[s.slot] + 1] else l.count;
      Loop(s, l.since[e.slot := e.base], count[e.slot := 0],
           l.skipped[e.slot := if Pending(s, e.slot) then 1 else 0], top)
    else
      Loop(s, l.since, if s.pulse then l.count[s.slot := l.count[s.slot] + 1] else l.count, l.skipped, top)
  }

  function Start(p: Params): Loop {
    var zeros := seq(p.slots, _ => 0);
    Loop(ResetState(p), zeros, zeros, zeros, 0)
  }

  /** The deadline `n` periods after slot k was configured. */
  function Deadline(since: nat, period: nat, n: nat): nat {
    since + n * period
  }

  predicate Pending(s: State, k: nat) {
    s.pulse && s.slot == k
  }

  /** Slot k: its next deadline is one period past those already taken, and
      every deadline taken had come. */
  ghost predicate SlotInv(l: Loop, k: nat)
    requires k < |l.s.period| == |l.s.next| == |l.since| == |l.count| == |l.skipped|
  {
    var per, taken := l.s.period[k], l.count[k] + l.skipped[k];
    per != 0 ==>
      && (Pending(l.s, k) ==> taken > 0)
      && l.s.next[k] == Deadline(l.since[k], per, if Pending(l.s, k) then taken else taken + 1)
      && l.since[k] <= l.top && (l.count[k] > 0 ==> Deadline(l.since[k], per, taken) <= l.top)
  }

  /** After a pulse the scan starts over, so the acknowledge lands while no
      slot is being examined; slot 0 is never examined at all. */
  ghost predicate PulseInv(s: State) {
    s.pulse ==> s.scan == 0 && 1 <= s.slot
  }

  ghost predicate Inv(p: Params, l: Loop) {
    LoopShaped(p, l) && PulseInv(l.s) && (forall k | 0 <= k < p.slots :: SlotInv(l, k))
  }

  lemma NextDeadline(since: nat, per: nat, n: nat)
    ensures Deadline(since, per, n) + per == Deadline(since, per, n + 1)
    ensures Deadline(since, per, 0) == since
  {
  }

  /** A configured slot starts a period ahead exactly when that fits. */
  lemma ConfigureSlot(p: Params, l: Loop, e: Edge)
    requires LoopShaped(p, l) && Allowed(p, l, e) && e.Configure?
    ensures SlotInv(Advance(p, l, e), e.slot) <==> e.period == 0 || e.base + e.period < p.ticks
  {
    NextDeadline(e.base, e.period, 0);
    SumWrapsIff(p, e.base, e.period);
  }

  lemma SumWrapsIff(p: Params, x: nat, y: nat)
    requires p.ticks > 0
    ensures (x + y) % p.ticks == x + y <==> x + y < p.ticks
  {
    if x + y < p.ticks { DivModUnique(p.ticks, x + y, 0, x + y); }
  }

  /** The acknowledge edge moves the dispatched slot one period on, exactly when
      that fits. */
  lemma AckSlot(p: Params, l: Loop, e: Edge)
    requires LoopShaped(p, l) && PulseInv(l.s) && Allowed(p, l, e)
    requires l.s.pulse && SlotInv(l, l.s.slot)
    ensures SlotInv(Advance(p, l, e), l.s.slot) <==>
            l.s.period[l.s.slot] == 0 || l.s.next[l.s.slot] + l.s.period[l.s.slot] < p.ticks
  {
    var k := l.s.slot;
    NextDeadline(l.since[k], l.s.period[k], l.count[k] + l.skipped[k]);
    SumWrapsIff(p, l.s.next[k], l.s.period[k]);
  }

  lemma OtherSlot(p: Params, l: Loop, e: Edge, k: nat)
    requires LoopShaped(p, l) && PulseInv(l.s) && Allowed(p, l, e)
    requires k < p.slots && SlotInv(l, k) && !Pending(l.s, k) && !(e.Configure? && e.slot == k)
    ensures SlotInv(Advance(p, l, e), k)
  {
    var r := Advance(p, l, e);
    assert r.s.next[k] == l.s.next[k] && r.s.period[k] == l.s.period[k];
    assert r.since[k] == l.since[k] && r.skipped[k] == l.skipped[k];
    if Pending(r.s, k) {
      assert Due(l.s, k, e.base) && r.count[k] == l.count[k] + 1;
    } else {
      assert r.count[k] == l.count[k];
    }
  }

  lemma AdvancePulse(p: Params, l: Loop, e: Edge)
    requires LoopShaped(p, l) && Allowed(p, l, e)
    ensures PulseInv(Advance(p, l, e).s)
  {
  }

  /** An edge keeps the invariant exactly when it stores no deadline that wraps. */
  lemma AdvanceInvIff(p: Params, l: Loop, e: Edge)
    requires Inv(p, l) && Allowed(p, l, e)
    ensures Inv(p, Advance(p, l, e)) <==> !DeadlineWraps(p, l, e)
  {
    AdvancePulse(p, l, e);
    if e.Configure? { ConfigureSlot(p, l, e); }
    assert SlotInv(l, l.s.slot);
    if l.s.pulse { AckSlot(p, l, e); }
    forall k | 0 <= k < p.slots && !Pending(l.s, k) && !(e.Configure? && e.slot == k)
      ensures SlotInv(Advance(p, l, e), k)
    {
      OtherSlot(p, l, e, k);
    }
  }

  /** Loops reachable from reset without a wrapping deadline. */
  ghost predicate Reaches(p: Params, es: seq<Edge>, l: Loop)
    decreases |es|
  {
    if es == [] then Sane(p) && l == Start(p) else
    exists mid ::
      && Reaches(p, es[..|es| - 1], mid) && LoopShaped(p, mid)
      && Allowed(p, mid, es[|es| - 1]) && !DeadlineWraps(p, mid, es[|es| - 1])
      && l == Advance(p, mid, es[|es| - 1])
  }

  lemma {:induction false} ReachableInv(p: Params, es: seq<Edge>, l: Loop)
    requires Reaches(p, es, l)
    ensures Inv(p, l)
    decreases |es|
  {
    if es != [] {
      var e := es[|es| - 1];
      var mid :| Reaches(p, es[..|es| - 1], mid) && LoopShaped(p, mid) && Allowed(p, mid, e)
                 && !DeadlineWraps(p, mid, e) && l == Advance(p, mid, e);
      ReachableInv(p, es[..|es| - 1], mid);
      AdvanceInvIff(p, mid, e);
    }
  }

  /** Never early, never twice: in every reachable state a slot configured at
      b0 has been dispatched at most once per whole period since b0; a pending
      acknowledge lands before the slot is examined; slot 0 never dispatches. */
  lemma NeverEarlyNeverTwice(p: Params, es: seq<Edge>, l: Loop, k: nat)
    requires Reaches(p, es, l) && k < p.slots && l.s.period[k] != 0
    ensures l.since[k] <= l.top && l.count[k] <= (l.top - l.since[k]) / l.s.period[k]
    ensures l.s.pulse ==> l.s.scan == 0 && l.s.slot != 0
  {
    ReachableInv(p, es, l);
    InvBoundsCount(p, l, k);
  }

  lemma InvBoundsCount(p: Params, l: Loop, k: nat)
    requires Inv(p, l) && k < p.slots && l.s.period[k] != 0
    ensures l.since[k] <= l.top && l.count[k] <= (l.top - l.since[k]) / l.s.period[k]
  {
    assert SlotInv(l, k);
    DeadlinesTakenHaveCome(l.since[k], l.s.period[k], l.count[k], l.skipped[k], l.top);
  }

  lemma DeadlinesTakenHaveCome(since: nat, per: nat, count: nat, skipped: nat, top: nat)
    requires per > 0 && since <= top && (count > 0 ==> Deadline(since, per, count + skipped) <= top)
    ensures count <= (top - since) / per
  {
    DivMonotone(per, 0, top - since);
    DivModUnique(per, 0, 0, 0);
    if count > 0 {
      MulMonotone(count, count + skipped, per);
      DivMonotone(per, count * per, top - since);
      DivModUnique(per, count * per, count, 0);
    }
  }

  /** An acknowledged slot is due again at once exactly when its following
      deadline wraps or has already come. */
  lemma DueAgainIffDeadlineWrapsOrCame(p: Params, s: State, base: nat)
    requires Shaped(p, s) && s.pulse && 0 < s.period[s.slot] < p.ticks && base < p.ticks
    requires s.next[s.slot] <= base
    ensures Due(Step(p, s, base, true, NoConfig), s.slot, base)
            <==> s.next[s.slot] + s.period[s.slot] >= p.ticks || base >= s.next[s.slot] + s.period[s.slot]
  {
    var sum := s.next[s.slot] + s.period[s.slot];
    if sum >= p.ticks {
      DivModUnique(p.ticks, sum, 1, sum - p.ticks);
    } else {
      DivModUnique(p.ticks, sum, 0, sum);
    }
  }

  /** With the 32-bit wrap the promise fails: a slot is due at the very tick it
      is enabled exactly when its first deadline wraps. */
  lemma EarlyIffFirstDeadlineWraps(p: Params, s: State, base: nat, k: nat, period: nat)
    requires Shaped(p, s) && k < p.slots && 0 < period < p.ticks && base < p.ticks
    ensures Due(Step(p, s, base, false, Write(k, period)), k, base) <==> base + period >= p.ticks
  {
    if base + period >= p.ticks {
      DivModUnique(p.ticks, base + period, 1, base + period - p.ticks);
    } else {
      DivModUnique(p.ticks, base + period, 0, base + period);
    }
  }

  /** An input on which the promise fails, for every wrapping first deadline:
      slot 1, configured at reset, has been dispatched two edges later although
      no period has passed. */
  lemma EarlyDispatchIffWraps(p: Params, base: nat, period: nat)
    requires Sane(p) && 0 < period < p.ticks && base < p.ticks
    ensures var l := Advance(p, Advance(p, Start(p), Configure(base, 1, period)), Clock(base));
            && (l.top - l.since[1]) / period == 0
            && l.count[1] == if base + period >= p.ticks then 1 else 0
  {
    EarlyIffFirstDeadlineWraps(p, ResetState(p), base, 1, period);
    DivModUnique(period, 0, 0, 0);
  }
}
