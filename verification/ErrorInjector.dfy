// The bit-level error injector (hardware/fpga/src/error_injector.v): what the
// `inject` line does over a whole frame, cycle by cycle.
module ErrorInjector {
  import opened Arith
  import opened BusTypes

  const GLITCH: nat := 5

  datatype Regs = Regs(
    kind: nat,
    bitPos: nat,
    glitch: nat,
    bitCnt: nat,
    glitchCnt: nat,
    armed: bool,
    inject: bool)

  ghost predicate WellSized(s: Regs) {
    s.kind < 8 && s.bitPos < TWO_16 && s.glitch < TWO_8 && s.bitCnt < TWO_16 && s.glitchCnt < TWO_8
  }

  /** The engine block (lines 48-85) at one edge, registers read as they were;
      where two assignments meet, the later one stands. */
  function Step(s: Regs, frameActive: bool, bitTick: bool): (r: Regs)
    requires WellSized(s)
    ensures WellSized(r) && r.kind == s.kind && r.bitPos == s.bitPos && r.glitch == s.glitch
  {
    if s.kind == 0 then s.(armed := false, inject := false)
    else if !frameActive then s.(bitCnt := 0, glitchCnt := 0, armed := false, inject := false)
    else
      var hit := bitTick && s.bitCnt == s.bitPos;
      var arms := hit && s.kind == GLITCH;
      s.(bitCnt := if bitTick then (s.bitCnt + 1) % TWO_16 else s.bitCnt,
         inject := (hit && s.kind != GLITCH) || s.armed,
         armed := if s.armed && s.glitchCnt == 0 then false else s.armed || arms,
         glitchCnt := if s.armed && s.glitchCnt != 0 then s.glitchCnt - 1 else if arms then s.glitch else s.glitchCnt)
  }

  class ErrorInjector {
    var kind: nat
    var bitPos: nat
    var glitch: nat
    var bitCnt: nat
    var glitchCnt: nat
    var armed: bool
    var inject: bool

    function Registers(): Regs
      reads this
    {
      Regs(kind, bitPos, glitch, bitCnt, glitchCnt, armed, inject)
    }

    constructor ()
      ensures Registers() == Regs(0, 0, 1, 0, 0, false, false)
    {
      kind, bitPos, glitch := 0, 0, 1;
      bitCnt, glitchCnt, armed, inject := 0, 0, false, false;
    }

    /** One rising edge of both blocks. */
    method Posedge(cfgWe: bool, cfgKind: nat, cfgBitPos: nat, cfgGlitch: nat, frameActive: bool, bitTick: bool)
      requires WellSized(Registers())
      requires cfgWe ==> cfgKind < 8 && cfgBitPos < TWO_16 && cfgGlitch < TWO_8
      modifies this
      ensures var r := Step(old(Registers()), frameActive, bitTick);
              Registers() == if cfgWe then r.(kind := cfgKind, bitPos := cfgBitPos, glitch := cfgGlitch) else r
    {
      var cnt, wasArmed, left := bitCnt, armed, glitchCnt;
      inject := false;
      if kind == 0 {
        armed := false;
      } else if frameActive {
        if bitTick {
          bitCnt := (cnt + 1) % TWO_16;
          if cnt == bitPos {
            if kind == GLITCH {
              glitchCnt := glitch;
              armed := true;
            } else {
              inject := true;
            }
          }
        }
        if wasArmed {
          inject := true;
          if left == 0 {
            armed := false;
          } else {
            glitchCnt := left - 1;
          }
        }
      } else {
        bitCnt, glitchCnt, armed := 0, 0, false;
      }
      if cfgWe {
        kind, bitPos, glitch := cfgKind, cfgBitPos, cfgGlitch;
      }
    }
  }

  // ----- whole frames: one entry per active cycle, true where a bit starts -----

  /** The state an idle cycle leaves behind. */
  predicate Ready(s: Regs) {
    s.kind != 0 && s.bitCnt == 0 && s.glitchCnt == 0 && !s.armed
  }

  lemma IdleCycleIsReady(s: Regs, bitTick: bool)
    requires WellSized(s) && s.kind != 0
    ensures Ready(Step(s, false, bitTick)) && !Step(s, false, bitTick).inject
  {
  }

  function After(s: Regs, ticks: seq<bool>): (r: Regs)
    requires WellSized(s)
    ensures WellSized(r) && r.kind == s.kind && r.bitPos == s.bitPos && r.glitch == s.glitch
    decreases |ticks|
  {
    if ticks == [] then s else Step(After(s, ticks[..|ticks| - 1]), true, ticks[|ticks| - 1])
  }

  /** The inject line after active cycle `i` of a frame. */
  function Injects(s: Regs, ticks: seq<bool>, i: nat): bool
    requires WellSized(s) && i < |ticks|
  {
    After(s, ticks[..i + 1]).inject
  }

  function Bits(ticks: seq<bool>): nat
    decreases |ticks|
  {
    if ticks == [] then 0 else Bits(ticks[..|ticks| - 1]) + (if ticks[|ticks| - 1] then 1 else 0)
  }

  lemma {:induction false} BitCounter(s: Regs, ticks: seq<bool>)
    requires WellSized(s) && Ready(s)
    ensures After(s, ticks).bitCnt == Bits(ticks) % TWO_16
    decreases |ticks|
  {
    if ticks != [] {
      BitCounter(s, ticks[..|ticks| - 1]);
      ModAbsorbs(TWO_16, Bits(ticks[..|ticks| - 1]), 1);
    }
  }

  /** Active cycle `c` starts the bit the injector is set to. */
  predicate BitStartsAt(ticks: seq<bool>, pos: nat, c: nat) {
    c < |ticks| && ticks[c] && Bits(ticks[..c]) % TWO_16 == pos
  }

  lemma {:induction false} NeverArmed(s: Regs, ticks: seq<bool>)
    requires WellSized(s) && Ready(s) && s.kind != GLITCH
    ensures !After(s, ticks).armed
    decreases |ticks|
  {
    if ticks != [] { NeverArmed(s, ticks[..|ticks| - 1]); }
  }

  /** Bit, CRC, ACK and stuff injection: the line is up after exactly the cycles
      that start bit `bitPos` (counted modulo 2^16). */
  lemma SingleBitWaveform(s: Regs, ticks: seq<bool>, i: nat)
    requires WellSized(s) && Ready(s) && s.kind != GLITCH && i < |ticks|
    ensures Injects(s, ticks, i) <==> BitStartsAt(ticks, s.bitPos, i)
  {
    var q := ticks[..i + 1];
    assert q[..i] == ticks[..i] && q[i] == ticks[i];
    NeverArmed(s, ticks[..i]);
    BitCounter(s, ticks[..i]);
  }

  function InjectCount(s: Regs, ticks: seq<bool>, n: nat): nat
    requires WellSized(s) && n <= |ticks|
  {
    if n == 0 then 0 else InjectCount(s, ticks, n - 1) + (if Injects(s, ticks, n - 1) then 1 else 0)
  }

  /** Of the bits 0 .. n-1, how many are congruent to `pos` modulo 2^16. */
  function Residues(n: nat, pos: nat): nat
    requires pos < TWO_16
  {
    (n + TWO_16 - 1 - pos) / TWO_16
  }

  lemma ResiduesStep(n: nat, pos: nat)
    requires pos < TWO_16
    ensures Residues(n + 1, pos) == Residues(n, pos) + (if n % TWO_16 == pos then 1 else 0)
    ensures Residues(0, pos) == 0
    ensures n <= TWO_16 ==> Residues(n, pos) == if n > pos then 1 else 0
  {
  }

  /** A frame of any length: one injected cycle per matching bit, so exactly one
      in a frame of at most 65536 bits that is longer than `bitPos`. */
  lemma {:induction false} SingleBitCount(s: Regs, ticks: seq<bool>, n: nat)
    requires WellSized(s) && Ready(s) && s.kind != GLITCH && n <= |ticks|
    ensures InjectCount(s, ticks, n) == Residues(Bits(ticks[..n]), s.bitPos)
    ensures Bits(ticks[..n]) <= TWO_16 ==> InjectCount(s, ticks, n) == if Bits(ticks[..n]) > s.bitPos then 1 else 0
  {
    ResiduesStep(Bits(ticks[..n]), s.bitPos);
    if n > 0 {
      SingleBitCount(s, ticks, n - 1);
      SingleBitWaveform(s, ticks, n - 1);
      assert ticks[..n][..n - 1] == ticks[..n - 1];
      ResiduesStep(Bits(ticks[..n - 1]), s.bitPos);
    }
  }

  lemma {:induction false} BitsGrow(ticks: seq<bool>, i: nat, j: nat)
    requires i <= j <= |ticks|
    ensures Bits(ticks[..i]) <= Bits(ticks[..j])
    decreases j
  {
    if i < j {
      BitsGrow(ticks, i, j - 1);
      assert ticks[..j][..j - 1] == ticks[..j - 1];
    }
  }

  /** Before its bit starts a glitch injector stays quiet. */
  lemma {:induction false} QuietUntil(s: Regs, ticks: seq<bool>)
    requires WellSized(s) && Ready(s) && s.kind == GLITCH && Bits(ticks) <= s.bitPos
    ensures var r := After(s, ticks); !r.armed && r.glitchCnt == 0 && (ticks != [] ==> !r.inject)
    decreases |ticks|
  {
    if ticks != [] {
      var front := ticks[..|ticks| - 1];
      QuietUntil(s, front);
      BitCounter(s, front);
    }
  }

  /** A glitch `e` cycles after its bit started: armed for `glitch` cycles, the
      counter running down. */
  ghost predicate GlitchPhase(r: Regs, e: nat) {
    && (r.armed <==> e <= r.glitch) && (e <= r.glitch ==> r.glitchCnt == r.glitch - e)
    && (r.inject <==> 1 <= e <= r.glitch + 1)
  }

  lemma GlitchPhaseStep(r: Regs, tick: bool, e: nat)
    requires WellSized(r) && r.kind == GLITCH && GlitchPhase(r, e) && (tick ==> r.bitCnt != r.bitPos)
    ensures GlitchPhase(Step(r, true, tick), e + 1)
  {
  }

  /** A bit that started does not come round again: it is counted at once, and
      a further one would still fit in the frame. */
  lemma StartedBitCounts(ticks: seq<bool>, c: nat, n: nat)
    requires c < n < |ticks| && ticks[c] && ticks[n]
    ensures Bits(ticks[..c]) < Bits(ticks[..n]) < Bits(ticks)
  {
    assert ticks[..c + 1][..c] == ticks[..c];
    BitsGrow(ticks, c + 1, n);
    assert ticks[..n + 1][..n] == ticks[..n];
    BitsGrow(ticks, n + 1, |ticks|);
    assert ticks[..|ticks|] == ticks;
  }

  lemma BitNotAgain(s: Regs, ticks: seq<bool>, c: nat, n: nat)
    requires WellSized(s) && Ready(s) && Bits(ticks) <= TWO_16
    requires c < n < |ticks| && ticks[c] && Bits(ticks[..c]) == s.bitPos && ticks[n]
    ensures After(s, ticks[..n]).bitCnt != s.bitPos
  {
    BitCounter(s, ticks[..n]);
    StartedBitCounts(ticks, c, n);
  }

  lemma GlitchStarts(s: Regs, ticks: seq<bool>, c: nat)
    requires WellSized(s) && Ready(s) && s.kind == GLITCH && c < |ticks| && ticks[c] && Bits(ticks[..c]) == s.bitPos
    ensures GlitchPhase(After(s, ticks[..c + 1]), 0)
  {
    assert ticks[..c + 1][..c] == ticks[..c];
    BitCounter(s, ticks[..c]);
    QuietUntil(s, ticks[..c]);
  }

  lemma {:induction false} PhaseAfter(s: Regs, ticks: seq<bool>, c: nat, n: nat)
    requires WellSized(s) && Ready(s) && s.kind == GLITCH && Bits(ticks) <= TWO_16
    requires c < n <= |ticks| && ticks[c] && Bits(ticks[..c]) == s.bitPos
    ensures GlitchPhase(After(s, ticks[..n]), n - 1 - c)
    decreases n
  {
    if n == c + 1 {
      GlitchStarts(s, ticks, c);
    } else {
      PhaseAfter(s, ticks, c, n - 1);
      if ticks[n - 1] { BitNotAgain(s, ticks, c, n - 1); }
      GlitchPhaseStep(After(s, ticks[..n - 1]), ticks[n - 1], n - 2 - c);
      assert ticks[..n][..n - 1] == ticks[..n - 1];
    }
  }

  lemma QuietBefore(s: Regs, ticks: seq<bool>, c: nat, i: nat)
    requires WellSized(s) && Ready(s) && s.kind == GLITCH && i < c <= |ticks| && Bits(ticks[..c]) <= s.bitPos
    ensures !Injects(s, ticks, i)
  {
    BitsGrow(ticks, i + 1, c);
    QuietUntil(s, ticks[..i + 1]);
  }

  lemma StartIsExact(ticks: seq<bool>, pos: nat, c: nat)
    requires Bits(ticks) <= TWO_16 && BitStartsAt(ticks, pos, c)
    ensures Bits(ticks[..c]) == pos
  {
    assert ticks[..c + 1][..c] == ticks[..c] && ticks[..|ticks|] == ticks;
    BitsGrow(ticks, c + 1, |ticks|);
  }

  /** Glitch injection in a frame of at most 65536 bits: one contiguous pulse of
      `glitch + 1` cycles from the cycle after the bit starts, cut short only by
      the end of the frame. */
  lemma GlitchWaveform(s: Regs, ticks: seq<bool>, c: nat, i: nat)
    requires WellSized(s) && Ready(s) && s.kind == GLITCH && Bits(ticks) <= TWO_16
    requires BitStartsAt(ticks, s.bitPos, c) && i < |ticks|
    ensures Injects(s, ticks, i) <==> c + 1 <= i <= c + s.glitch + 1
  {
    StartIsExact(ticks, s.bitPos, c);
    if i < c {
      QuietBefore(s, ticks, c, i);
    } else {
      PhaseAfter(s, ticks, c, i + 1);
    }
  }

  /** The bit starts in the frame exactly when the frame is long enough. */
  lemma {:induction false} BitStartsIffLongEnough(ticks: seq<bool>, pos: nat)
    requires Bits(ticks) <= TWO_16 && pos < TWO_16
    ensures (exists c: nat :: BitStartsAt(ticks, pos, c)) <==> Bits(ticks) > pos
    decreases |ticks|
  {
    if ticks != [] {
      var front := ticks[..|ticks| - 1];
      BitStartsIffLongEnough(front, pos);
      if exists c: nat :: BitStartsAt(front, pos, c) {
        var c: nat :| BitStartsAt(front, pos, c);
        assert front[..c] == ticks[..c];
        assert BitStartsAt(ticks, pos, c);
      }
      if Bits(front) == pos && ticks[|ticks| - 1] {
        assert BitStartsAt(ticks, pos, |ticks| - 1);
      }
      if exists c: nat :: BitStartsAt(ticks, pos, c) {
        var c: nat :| BitStartsAt(ticks, pos, c);
        if c < |front| {
          assert front[..c] == ticks[..c];
          assert BitStartsAt(front, pos, c);
        }
      }
    }
  }

  /** A glitch injector is silent through a frame that never reaches its bit. */
  lemma GlitchSilentIfShort(s: Regs, ticks: seq<bool>, i: nat)
    requires WellSized(s) && Ready(s) && s.kind == GLITCH && Bits(ticks) <= s.bitPos && i < |ticks|
    ensures !Injects(s, ticks, i)
  {
    BitsGrow(ticks, i + 1, |ticks|);
    assert ticks[..|ticks|] == ticks;
    QuietUntil(s, ticks[..i + 1]);
  }

  /** A whole frame after an idle cycle, from any state with a type set.  Of at
      most 65536 bits, it is hit by the non-glitch types exactly once if it has
      more than `bitPos` bits and not at all otherwise; a glitch is one pulse. */
  lemma FrameAfterIdle(s: Regs, bitTick: bool, ticks: seq<bool>)
    requires WellSized(s) && s.kind != 0 && Bits(ticks) <= TWO_16
    ensures var r := Step(s, false, bitTick);
            if s.kind != GLITCH then
              InjectCount(r, ticks, |ticks|) == if Bits(ticks) > s.bitPos then 1 else 0
            else if Bits(ticks) > s.bitPos then
              exists c: nat :: BitStartsAt(ticks, s.bitPos, c) && OnePulse(r, ticks, c)
            else
              forall i: nat | i < |ticks| :: !Injects(r, ticks, i)
  {
    var r := Step(s, false, bitTick);
    IdleCycleIsReady(s, bitTick);
    assert ticks[..|ticks|] == ticks;
    if s.kind != GLITCH {
      SingleBitCount(r, ticks, |ticks|);
    } else if Bits(ticks) > s.bitPos {
      BitStartsIffLongEnough(ticks, s.bitPos);
      var c: nat :| BitStartsAt(ticks, s.bitPos, c);
      forall i: nat | i < |ticks| ensures Injects(r, ticks, i) <==> c + 1 <= i <= c + s.glitch + 1 {
        GlitchWaveform(r, ticks, c, i);
      }
    } else {
      forall i: nat | i < |ticks| ensures !Injects(r, ticks, i) {
        GlitchSilentIfShort(r, ticks, i);
      }
    }
  }

  /** The line is up for glitch + 1 cycles from the one after cycle `c`, as far as
      the frame goes. */
  ghost predicate OnePulse(r: Regs, ticks: seq<bool>, c: nat)
    requires WellSized(r)
  {
    forall i: nat | i < |ticks| :: Injects(r, ticks, i) <==> c + 1 <= i <= c + r.glitch + 1
  }

  // ----- switched off -----

  datatype Cycle = Cycle(active: bool, bitTick: bool)

  /** The state after a sequence of cycles, in frames or between them. */
  function Cycles(s: Regs, cs: seq<Cycle>): (r: Regs)
    requires WellSized(s)
    ensures WellSized(r) && r.kind == s.kind && r.bitPos == s.bitPos && r.glitch == s.glitch
    decreases |cs|
  {
    if cs == [] then s else
    Step(Cycles(s, cs[..|cs| - 1]), cs[|cs| - 1].active, cs[|cs| - 1].bitTick)
  }

  /** Type 0: from any state and through any cycles, the line stays low and a
      glitch under way is called off; nothing is counted. */
  lemma {:induction false} OffIsSilent(s: Regs, cs: seq<Cycle>)
    requires WellSized(s) && s.kind == 0 && cs != []
    ensures Cycles(s, cs) == s.(armed := false, inject := false)
    decreases |cs|
  {
    if |cs| == 1 {
      assert cs[..0] == [];
    } else {
      OffIsSilent(s, cs[..|cs| - 1]);
    }
  }

  /** The registers after a write of the configuration at an edge. */
  function Reconfigured(s: Regs, kind: nat, active: bool, bitTick: bool): (r: Regs)
    requires WellSized(s) && kind < 8
    ensures WellSized(r)
  {
    Step(s, active, bitTick).(kind := kind)
  }

  /** Switching off in the middle of a glitch: the cycle of the write may still
      drive the line, every cycle after it does not, however many follow. */
  lemma SwitchedOffMidGlitch(s: Regs, bitTick: bool, cs: seq<Cycle>)
    requires WellSized(s) && s.kind == GLITCH && s.armed && cs != []
    ensures Reconfigured(s, 0, true, bitTick).inject
    ensures var r := Cycles(Reconfigured(s, 0, true, bitTick), cs); !r.inject && !r.armed
  {
    OffIsSilent(Reconfigured(s, 0, true, bitTick), cs);
  }

  /** Enabled again while the bus is idle, the injector starts its next frame
      afresh: the idle cycle after the write leaves it ready. */
  lemma EnabledAgain(s: Regs, kind: nat, cs: seq<Cycle>, bitTick: bool, ticks: seq<bool>)
    requires WellSized(s) && s.kind == 0 && 0 < kind < 8 && cs != []
    ensures var r := Step(Cycles(s, cs).(kind := kind), false, bitTick);
            && Ready(r) && r.kind == kind && r.bitPos == s.bitPos && r.glitch == s.glitch
            && (ticks != [] && kind != GLITCH ==> (Injects(r, ticks, 0) <==> ticks[0] && s.bitPos == 0))
  {
    OffIsSilent(s, cs);
    var t := Cycles(s, cs).(kind := kind);
    IdleCycleIsReady(t, bitTick);
    if ticks != [] && kind != GLITCH {
      SingleBitWaveform(Step(t, false, bitTick), ticks, 0);
      assert Bits(ticks[..0]) == 0;
    }
  }

  /** Enabled in the middle of a frame it goes on counting from where it was: the
      bit counter is kept while the injector is off. */
  lemma OffKeepsTheBitCounter(s: Regs, kind: nat, cs: seq<Cycle>)
    requires WellSized(s) && s.kind == 0 && 0 < kind < 8 && cs != []
    ensures Cycles(s, cs).(kind := kind).bitCnt == s.bitCnt
    ensures kind != GLITCH ==> (Step(Cycles(s, cs).(kind := kind), true, true).inject <==> s.bitCnt == s.bitPos)
  {
    OffIsSilent(s, cs);
  }

  /** The types of the register map. */
  lemma TypeFiveIsTheGlitch()
    ensures GLITCH == 5
  {
  }
}
