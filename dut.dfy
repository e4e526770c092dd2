/** Stepping the DUT in batches with break checks, resetting it, loading Flash and the
    signal watch list (XSPdb/cmd/cmd_dut.py). */
module Dut {
  import opened Wrappers
  import opened Sim
  import opened Trap
  import opened Text
  import MemoryRW
  import Bytes

  /** Default `batch_cycle` of `api_step_dut`. */
  const DEFAULT_BATCH_CYCLE: int := 200

  /** Cycles the reset pin is held by `api_dut_reset`. */
  const RESET_CYCLES: nat := 100

  /** Why `check_break` stops a run, in the order it tests. */
  datatype BreakReason = NoBreak | ClockDisabled | GoodTrap | GoodLoop | TrapBreak

  /** The tests of `check_break`: a disabled clock first, then good trap, good loop and
      the trap-break condition on the probe. */
  function BreakReasonOf(c: ClockState, s: DiffState, trapBreak: DiffState -> bool): (b: BreakReason)
    ensures b == NoBreak <==> !c.disabled && !IsHitGoodTrap(s) && !IsHitGoodLoop(s) && !trapBreak(s)
    ensures b == ClockDisabled <==> c.disabled
  {
    if c.disabled then ClockDisabled
    else if IsHitGoodTrap(s) then GoodTrap
    else if IsHitGoodLoop(s) then GoodLoop
    else if trapBreak(s) then TrapBreak
    else NoBreak
  }

  /** What a run depends on: the simulator's disabling callbacks and probe, the
      trap-break condition (`api_is_hit_trap_break`), whether an `on_update_tstep`
      hook is installed and the cycles at which that hook sets `self.interrupt`. */
  datatype Env = Env(disableAt: int -> bool, probeAt: int -> DiffState, trapBreak: DiffState -> bool,
                     hasHook: bool, hookInterrupts: int -> bool)

  /** The state a run changes: clock, probe, `interrupt` and the number of hook calls. */
  datatype Run = Run(clock: ClockState, stat: DiffState, interrupted: bool, hooks: nat)

  /** `dut.Step(n)` on a run. */
  function StepRun(e: Env, r: Run, n: nat): (r': Run)
    ensures r'.clock == Advance(e.disableAt, r.clock, n)
    ensures r'.interrupted == r.interrupted && r'.hooks == r.hooks
  {
    var c := Advance(e.disableAt, r.clock, n);
    r.(clock := c, stat := if c.clk == r.clock.clk then r.stat else e.probeAt(c.clk))
  }

  /** The effect of `check_break`: the hook runs only when the clock is not disabled,
      and may set `interrupt`. */
  function CheckRun(e: Env, r: Run): Run
  {
    if !r.clock.disabled && e.hasHook then
      r.(hooks := r.hooks + 1, interrupted := r.interrupted || e.hookInterrupts(r.clock.clk))
    else r
  }

  /** The hook, called at cycle c, sets `interrupt`. */
  predicate HookStops(e: Env, c: int)
  {
    e.hasHook && e.hookInterrupts(c)
  }

  predicate Breaks(e: Env, r: Run)
  {
    BreakReasonOf(r.clock, r.stat, e.trapBreak) != NoBreak
  }

  /** The batch loop of `api_step_dut` with k batches left; an `interrupt` set by the
      hook ends it before the next batch. */
  function Batches(e: Env, r: Run, k: int, bc: nat): Run
    requires bc > 0
    decreases k
  {
    if k <= 0 || r.interrupted then r
    else
      var r1 := CheckRun(e, StepRun(e, r, bc));
      if Breaks(e, r1) then r1.(interrupted := true) else Batches(e, r1, k - 1, bc)
  }

  /** What `api_step_dut` does before its first division: enable the clock and clear
      `interrupt`. */
  function StepDutStart(r0: Run): (r: Run)
    ensures !r.clock.disabled && !r.interrupted
    ensures r.clock.clk == r0.clock.clk && r.stat == r0.stat && r.hooks == r0.hooks
  {
    r0.(clock := r0.clock.(disabled := false), interrupted := false)
  }

  /** `api_step_dut(cycle, batch_cycle)` on a run: enable the clock, run
      `cycle // batch_cycle` batches, then the remaining `cycle % batch_cycle` cycles
      unless `interrupt` was set or the clock is disabled. For a positive divisor,
      Dafny's `/` and `%` are Python's `//` and `%`. */
  function StepDutSpec(e: Env, r0: Run, cycle: int, bc: nat): Run
    requires bc > 0
  {
    var r := Batches(e, StepDutStart(r0), cycle / bc, bc);
    if !r.interrupted && !r.clock.disabled then CheckRun(e, StepRun(e, r, cycle % bc)) else r
  }

  /** No disabling callback in (from, from + n]. */
  ghost predicate NoDisable(e: Env, from: int, n: int)
  {
    forall c :: from < c <= from + n ==> !e.disableAt(c)
  }

  /** `check_break` at cycle c of an enabled clock stops nothing: the probe shows no
      break condition and the hook does not set `interrupt`. */
  ghost predicate CheckQuiet(e: Env, c: int)
  {
    BreakReasonOf(ClockState(c, false), e.probeAt(c), e.trapBreak) == NoBreak && !HookStops(e, c)
  }

  /** `check_break` passes at the end of batch i of a run started at cycle `from`. */
  ghost predicate BoundaryQuiet(e: Env, from: int, bc: nat, i: int)
  {
    CheckQuiet(e, from + bc * i)
  }

  /** `check_break` passes at every batch boundary in (from, from + n]. The cycles
      between two boundaries are never checked, so they may show anything. */
  ghost predicate BoundariesQuiet(e: Env, from: int, bc: nat, n: int)
  {
    forall i :: 1 <= i && bc * i <= n ==> BoundaryQuiet(e, from, bc, i)
  }

  /** After one batch, the boundaries still ahead are those of a run started one batch
      later. */
  lemma BoundariesShift(e: Env, from: int, bc: nat, n: int)
    requires bc > 0 && bc <= n && BoundariesQuiet(e, from, bc, n)
    ensures CheckQuiet(e, from + bc)
    ensures BoundariesQuiet(e, from + bc, bc, n - bc)
  {
    assert BoundaryQuiet(e, from, bc, 1);
    forall i | 1 <= i && bc * i <= n - bc
      ensures BoundaryQuiet(e, from + bc, bc, i)
    {
      MulPred(bc, i + 1);
      assert BoundaryQuiet(e, from, bc, i + 1);
    }
  }

  lemma MulLeZero(b: nat, k: int)
    requires k <= 0
    ensures b * k <= 0
  {
  }

  lemma MulGe(b: nat, k: int)
    requires k >= 1
    ensures b * k >= b
  {
  }

  // ---------------------------------------------------------------------------

  /** The batch loop advances the clock by at most one batch per batch left. */
  lemma {:induction false} BatchesBound(e: Env, r: Run, k: int, bc: nat)
    requires bc > 0 && k >= 0
    ensures r.clock.clk <= Batches(e, r, k, bc).clock.clk <= r.clock.clk + bc * k
    decreases k
  {
    if k > 0 && !r.interrupted {
      var r1 := CheckRun(e, StepRun(e, r, bc));
      AdvanceBounds(e.disableAt, r.clock, bc);
      if !Breaks(e, r1) {
        BatchesBound(e, r1, k - 1, bc);
        MulPred(bc, k);
      }
    }
  }

  /** `api_step_dut` never steps more than asked, and never goes back. */
  lemma StepDutElapsed(e: Env, r0: Run, cycle: int, bc: nat)
    requires bc > 0 && cycle >= 0
    ensures r0.clock.clk <= StepDutSpec(e, r0, cycle, bc).clock.clk <= r0.clock.clk + cycle
  {
    var start := StepDutStart(r0);
    BatchesBound(e, start, cycle / bc, bc);
    var r := Batches(e, start, cycle / bc, bc);
    AdvanceBounds(e.disableAt, r.clock, cycle % bc);
    assert bc * (cycle / bc) + cycle % bc == cycle;
  }

  /** With no breakpoint in the batches and `check_break` passing at every boundary, the
      batch loop runs all its batches. */
  lemma {:induction false} BatchesQuiet(e: Env, r: Run, k: int, bc: nat)
    requires bc > 0 && k >= 0 && !r.clock.disabled && !r.interrupted
    requires NoDisable(e, r.clock.clk, bc * k) && BoundariesQuiet(e, r.clock.clk, bc, bc * k)
    ensures Batches(e, r, k, bc).clock == ClockState(r.clock.clk + bc * k, false)
    ensures !Batches(e, r, k, bc).interrupted
    decreases k
  {
    if k > 0 {
      MulPred(bc, k);
      MulGe(bc, k);
      AdvanceQuiet(e.disableAt, r.clock, bc);
      BoundariesShift(e, r.clock.clk, bc, bc * k);
      var r1 := CheckRun(e, StepRun(e, r, bc));
      assert r1.clock == ClockState(r.clock.clk + bc, false);
      assert r1.stat == e.probeAt(r.clock.clk + bc);
      BatchesQuiet(e, r1, k - 1, bc);
    }
  }

  /** With no breakpoint, `check_break` passing at every batch boundary and the hook not
      interrupting after the remainder, `api_step_dut(cycle)` steps exactly `cycle`
      cycles for a non-negative count (for a zero count the last check is at the
      starting cycle). */
  lemma StepDutQuiet(e: Env, r0: Run, cycle: int, bc: nat)
    requires bc > 0 && cycle >= 0
    requires NoDisable(e, r0.clock.clk, cycle) && BoundariesQuiet(e, r0.clock.clk, bc, cycle)
    requires !HookStops(e, r0.clock.clk + cycle)
    ensures StepDutSpec(e, r0, cycle, bc).clock == ClockState(r0.clock.clk + cycle, false)
    ensures !StepDutSpec(e, r0, cycle, bc).interrupted
  {
    var start := StepDutStart(r0);
    var n := bc * (cycle / bc);
    assert n + cycle % bc == cycle;
    BatchesQuiet(e, start, cycle / bc, bc);
    var r := Batches(e, start, cycle / bc, bc);
    AdvanceQuiet(e.disableAt, r.clock, cycle % bc);
  }

  /** A negative count runs no batch: `cycle // batch_cycle` is negative, yet
      `cycle % batch_cycle` cycles are still stepped (-1 steps `batch_cycle - 1`). */
  lemma StepDutNegative(e: Env, r0: Run, cycle: int, bc: nat)
    requires bc > 0 && cycle < 0 && NoDisable(e, r0.clock.clk, cycle % bc)
    ensures StepDutSpec(e, r0, cycle, bc).clock.clk == r0.clock.clk + cycle % bc
    ensures cycle == -1 ==> StepDutSpec(e, r0, cycle, bc).clock.clk == r0.clock.clk + bc - 1
  {
    var start := StepDutStart(r0);
    assert cycle / bc < 0;
    AdvanceQuiet(e.disableAt, start.clock, cycle % bc);
  }

  /** A disabling callback inside the batches stops the batch loop on exactly that
      cycle, with `interrupt` set. */
  lemma {:induction false} BatchesStopAtDisable(e: Env, r: Run, k: int, bc: nat, d: int)
    requires bc > 0 && !r.clock.disabled && !r.interrupted
    requires r.clock.clk < d <= r.clock.clk + bc * k && e.disableAt(d)
    requires NoDisable(e, r.clock.clk, d - 1 - r.clock.clk)
    requires BoundariesQuiet(e, r.clock.clk, bc, d - 1 - r.clock.clk)
    ensures Batches(e, r, k, bc).clock == ClockState(d, true)
    ensures Batches(e, r, k, bc).interrupted
    decreases k
  {
    assert k > 0 by {
      if k <= 0 {
        MulLeZero(bc, k);
      }
    }
    if d <= r.clock.clk + bc {
      AdvanceStopsAtFirstDisable(e.disableAt, r.clock, bc, d);
    } else {
      AdvanceQuiet(e.disableAt, r.clock, bc);
      BoundariesShift(e, r.clock.clk, bc, d - 1 - r.clock.clk);
      var r1 := CheckRun(e, StepRun(e, r, bc));
      assert r1.stat == e.probeAt(r.clock.clk + bc);
      MulPred(bc, k);
      BatchesStopAtDisable(e, r1, k - 1, bc, d);
    }
  }

  /** `api_step_dut` stops on the first disabling callback within its whole batches and
      returns the cycles stepped up to it. */
  lemma StepDutStopsAtDisable(e: Env, r0: Run, cycle: int, bc: nat, d: int)
    requires bc > 0 && cycle >= 0
    requires r0.clock.clk < d <= r0.clock.clk + bc * (cycle / bc) && e.disableAt(d)
    requires NoDisable(e, r0.clock.clk, d - 1 - r0.clock.clk)
    requires BoundariesQuiet(e, r0.clock.clk, bc, d - 1 - r0.clock.clk)
    ensures StepDutSpec(e, r0, cycle, bc).clock.clk - r0.clock.clk == d - r0.clock.clk
    ensures StepDutSpec(e, r0, cycle, bc).interrupted
  {
    var start := StepDutStart(r0);
    BatchesStopAtDisable(e, start, cycle / bc, bc, d);
  }

  /** A break condition or a hook interrupt seen after a batch ends the loop on that
      batch boundary. */
  lemma {:induction false} BatchesBreakOnBoundary(e: Env, r: Run, k: int, bc: nat)
    requires bc > 0
    ensures var r' := Batches(e, r, k, bc);
              r'.interrupted && !r'.clock.disabled && !r.clock.disabled ==> (r'.clock.clk - r.clock.clk) % bc == 0
    decreases k
  {
    if k > 0 && !r.interrupted {
      var r1 := CheckRun(e, StepRun(e, r, bc));
      if !r.clock.disabled && !r1.clock.disabled {
        AdvanceBounds(e.disableAt, r.clock, bc);
        if !Breaks(e, r1) {
          BatchesBreakOnBoundary(e, r1, k - 1, bc);
          var r' := Batches(e, r1, k - 1, bc);
          if r'.interrupted && !r'.clock.disabled {
            ModShift(r'.clock.clk - r1.clock.clk, bc);
          }
        } else {
          assert r1.clock.clk - r.clock.clk == bc;
        }
      }
    }
  }

  lemma MulPred(b: int, k: int)
    ensures b * k == b * (k - 1) + b
  {
  }

  lemma ModShift(x: int, b: nat)
    requires b > 0 && x % b == 0
    ensures (x + b) % b == 0
  {
    var q := x / b;
    assert x == b * q;
    assert x + b == b * (q + 1);
    MemoryRW.MulMod(q + 1, b);
  }

  /** A run stopped with the clock still enabled stopped on a batch boundary, or else
      by the hook called after the remainder: breaks are observed once per batch. */
  lemma StepDutBreakOnBoundary(e: Env, r0: Run, cycle: int, bc: nat)
    requires bc > 0
    ensures var r := StepDutSpec(e, r0, cycle, bc);
              r.interrupted && !r.clock.disabled ==>
                (r.clock.clk - r0.clock.clk) % bc == 0 || HookStops(e, r.clock.clk)
  {
    var start := StepDutStart(r0);
    BatchesBreakOnBoundary(e, start, cycle / bc, bc);
  }

  /** The hook setting `interrupt` after batch j + 1, with nothing stopping the earlier
      batches, ends the batch loop on that boundary with `interrupt` set. */
  lemma {:induction false} BatchesHookStop(e: Env, r: Run, k: int, bc: nat, j: nat)
    requires bc > 0 && !r.clock.disabled && !r.interrupted && j < k
    requires NoDisable(e, r.clock.clk, bc * (j + 1)) && BoundariesQuiet(e, r.clock.clk, bc, bc * j)
    requires BreakReasonOf(ClockState(r.clock.clk + bc * (j + 1), false),
                           e.probeAt(r.clock.clk + bc * (j + 1)), e.trapBreak) == NoBreak
    requires HookStops(e, r.clock.clk + bc * (j + 1))
    ensures Batches(e, r, k, bc).clock == ClockState(r.clock.clk + bc * (j + 1), false)
    ensures Batches(e, r, k, bc).interrupted
    decreases j
  {
    MulPred(bc, j + 1);
    AdvanceQuiet(e.disableAt, r.clock, bc);
    var r1 := CheckRun(e, StepRun(e, r, bc));
    if j == 0 {
      assert r1.clock == ClockState(r.clock.clk + bc, false) && r1.interrupted;
      assert !Breaks(e, r1);
    } else {
      MulGe(bc, j);
      BoundariesShift(e, r.clock.clk, bc, bc * j);
      MulPred(bc, j);
      assert r1.clock == ClockState(r.clock.clk + bc, false) && !r1.interrupted;
      assert r1.stat == e.probeAt(r.clock.clk + bc);
      BatchesHookStop(e, r1, k - 1, bc, j - 1);
    }
  }

  /** The hook setting `interrupt` after batch j + 1 of `api_step_dut` ends the call
      there: exactly (j + 1) batches of cycles are stepped, the remainder is not, and
      `interrupt` stays set. */
  lemma StepDutHookStop(e: Env, r0: Run, cycle: int, bc: nat, j: nat)
    requires bc > 0 && j < cycle / bc
    requires NoDisable(e, r0.clock.clk, bc * (j + 1)) && BoundariesQuiet(e, r0.clock.clk, bc, bc * j)
    requires BreakReasonOf(ClockState(r0.clock.clk + bc * (j + 1), false),
                           e.probeAt(r0.clock.clk + bc * (j + 1)), e.trapBreak) == NoBreak
    requires HookStops(e, r0.clock.clk + bc * (j + 1))
    ensures StepDutSpec(e, r0, cycle, bc).clock == ClockState(r0.clock.clk + bc * (j + 1), false)
    ensures StepDutSpec(e, r0, cycle, bc).interrupted
  {
    BatchesHookStop(e, StepDutStart(r0), cycle / bc, bc, j);
  }

  /** A good trap, good loop or trap-break condition seen by `check_break` after batch
      j + 1, with nothing stopping the earlier batches, ends the batch loop on that
      boundary with `interrupt` set. */
  lemma {:induction false} BatchesBreakStop(e: Env, r: Run, k: int, bc: nat, j: nat)
    requires bc > 0 && !r.clock.disabled && !r.interrupted && j < k
    requires NoDisable(e, r.clock.clk, bc * (j + 1)) && BoundariesQuiet(e, r.clock.clk, bc, bc * j)
    requires BreakReasonOf(ClockState(r.clock.clk + bc * (j + 1), false),
                           e.probeAt(r.clock.clk + bc * (j + 1)), e.trapBreak) != NoBreak
    ensures Batches(e, r, k, bc).clock == ClockState(r.clock.clk + bc * (j + 1), false)
    ensures Batches(e, r, k, bc).interrupted
    decreases j
  {
    MulPred(bc, j + 1);
    AdvanceQuiet(e.disableAt, r.clock, bc);
    var r1 := CheckRun(e, StepRun(e, r, bc));
    assert r1.clock == ClockState(r.clock.clk + bc, false);
    assert r1.stat == e.probeAt(r.clock.clk + bc);
    if j == 0 {
      assert Breaks(e, r1);
    } else {
      MulGe(bc, j);
      BoundariesShift(e, r.clock.clk, bc, bc * j);
      MulPred(bc, j);
      assert !r1.interrupted;
      BatchesBreakStop(e, r1, k - 1, bc, j - 1);
    }
  }

  /** A good trap, good loop or trap-break condition at the end of batch j + 1 of
      `api_step_dut` ends the call there: exactly (j + 1) batches of cycles are stepped,
      the remainder is not, and `interrupt` is set. */
  lemma StepDutBreakStop(e: Env, r0: Run, cycle: int, bc: nat, j: nat)
    requires bc > 0 && j < cycle / bc
    requires NoDisable(e, r0.clock.clk, bc * (j + 1)) && BoundariesQuiet(e, r0.clock.clk, bc, bc * j)
    requires BreakReasonOf(ClockState(r0.clock.clk + bc * (j + 1), false),
                           e.probeAt(r0.clock.clk + bc * (j + 1)), e.trapBreak) != NoBreak
    ensures StepDutSpec(e, r0, cycle, bc).clock == ClockState(r0.clock.clk + bc * (j + 1), false)
    ensures StepDutSpec(e, r0, cycle, bc).interrupted
  {
    BatchesBreakStop(e, StepDutStart(r0), cycle / bc, bc, j);
  }

  /** A clock disabled at cycle 450 of a 1000-cycle step in batches of 200 stops the
      step after 450 cycles. */
  lemma StepDutBreakpointAt450(e: Env, r0: Run)
    requires forall c :: e.disableAt(c) <==> c == r0.clock.clk + 450
    requires forall c :: BreakReasonOf(ClockState(c, false), e.probeAt(c), e.trapBreak) == NoBreak
    requires forall c :: !HookStops(e, c)
    ensures StepDutSpec(e, r0, 1000, 200).clock == ClockState(r0.clock.clk + 450, true)
  {
    forall i | 1 <= i && 200 * i <= 449
      ensures BoundaryQuiet(e, r0.clock.clk, 200, i)
    {
      assert !HookStops(e, r0.clock.clk + 200 * i);
    }
    StepDutStopsAtDisable(e, r0, 1000, 200, r0.clock.clk + 450);
    var start := StepDutStart(r0);
    BatchesStopAtDisable(e, start, 5, 200, r0.clock.clk + 450);
  }

  // ---------------------------------------------------------------------------
  // Reset

  /** The eight commit slots `api_dut_reset` rewrites are all present. */
  predicate SlotsPresent(s: DiffState)
  {
    |s.commits| >= COMMIT_SLOTS && forall i :: 0 <= i < COMMIT_SLOTS ==> s.commits[i].Some?
  }

  /** The first of the slots i..7 that `get_commit` reports missing, or 8 when none is. */
  function FirstAbsentSlot(s: DiffState, i: nat): (n: nat)
    requires i <= COMMIT_SLOTS && i <= |s.commits|
    ensures i <= n <= COMMIT_SLOTS && n <= |s.commits|
    ensures forall j :: i <= j < n ==> s.commits[j].Some?
    ensures n < COMMIT_SLOTS ==> GetCommit(s, n).None?
    decreases COMMIT_SLOTS - i
  {
    if i == COMMIT_SLOTS || GetCommit(s, i).None? then i else FirstAbsentSlot(s, i + 1)
  }

  /** The reset completes exactly when no slot is missing. */
  lemma FirstAbsentSlotAll(s: DiffState)
    ensures FirstAbsentSlot(s, 0) == COMMIT_SLOTS <==> SlotsPresent(s)
  {
    var n := FirstAbsentSlot(s, 0);
    if n < COMMIT_SLOTS && n < |s.commits| {
      assert s.commits[n].None?;
    }
  }

  /** The commit slots once pc and instruction of slots 0..n-1 were zeroed. */
  function ZeroSlots(s: DiffState, n: nat): (r: seq<Option<Commit>>)
    requires n <= |s.commits| && forall i :: 0 <= i < n ==> s.commits[i].Some?
    ensures |r| == |s.commits|
  {
    seq(|s.commits|, i requires 0 <= i < |s.commits| =>
      if i < n then Some(s.commits[i].value.(pc := 0, instr := 0)) else s.commits[i])
  }

  /** The probe after `api_dut_reset` rewrote it: commit slots 0-7 get pc 0 and
      instruction 0, the trap record gets pc 0, code 32, hasTrap 0. */
  function ResetStat(s: DiffState): (r: DiffState)
    requires SlotsPresent(s)
  {
    DiffState(ZeroSlots(s, COMMIT_SLOTS), s.trap.(pc := 0, code := 32, hasTrap := 0))
  }

  /** The probe when `api_dut_reset` stops on a missing slot (`cmt.pc = 0x0` on None
      raises): the slots before it are already zeroed, the trap record is untouched. */
  function ResetAborted(s: DiffState): (r: DiffState)
  {
    DiffState(ZeroSlots(s, FirstAbsentSlot(s, 0)), s.trap)
  }

  /** A freshly reset probe shows neither good trap nor good loop; the valid flags and
      later slots are kept. */
  lemma ResetClearsTraps(s: DiffState)
    requires SlotsPresent(s)
    ensures !IsHitGoodTrap(ResetStat(s)) && !IsHitGoodLoop(ResetStat(s))
    ensures forall i :: 0 <= i < COMMIT_SLOTS ==> GetCommit(ResetStat(s), i).value.valid == s.commits[i].value.valid
    ensures forall i :: COMMIT_SLOTS <= i < |s.commits| ==> GetCommit(ResetStat(s), i) == s.commits[i]
  {
    forall j | 0 <= j < COMMIT_SLOTS
      ensures !SlotLoops(ResetStat(s), j)
    {
      assert GetCommit(ResetStat(s), j).value.instr == 0;
    }
    IsHitGoodLoopMeans(ResetStat(s));
  }

  /** An aborted reset changes only pc and instruction of the slots before the missing
      one; valid flags, later slots and the trap record are kept. */
  lemma ResetAbortedKeeps(s: DiffState)
    requires !SlotsPresent(s)
    ensures var n := FirstAbsentSlot(s, 0);
            n < COMMIT_SLOTS && GetCommit(s, n).None? && ResetAborted(s).trap == s.trap
            && (forall i :: 0 <= i < n ==> GetCommit(ResetAborted(s), i) == Some(s.commits[i].value.(pc := 0, instr := 0)))
            && (forall i :: n <= i < |s.commits| ==> GetCommit(ResetAborted(s), i) == s.commits[i])
  {
    FirstAbsentSlotAll(s);
  }

  // ---------------------------------------------------------------------------
  // Watch list

  /** An internal signal handle, as far as the watch list needs it. */
  datatype Signal = Signal(path: string, width: nat)

  /** `do_xwatch(arg)`: the first word names the signal, the last word the watch key;
      an unknown signal leaves the list as it was. No arguments lists it. */
  function WatchResult(w: map<string, Signal>, arg: string, lookup: string -> Option<Signal>): map<string, Signal>
  {
    var key := Split(Strip(arg));
    if key == [] then w
    else
      var sig := lookup(key[0]);
      if sig.Some? then w[key[|key| - 1] := sig.value] else w
  }

  /** `do_xunwatch(arg)`: the stripped argument is the key; an unknown key is an error. */
  function UnwatchResult(w: map<string, Signal>, arg: string): (r: Result<map<string, Signal>>)
    ensures r.Ok? <==> Strip(arg) in w
    ensures r.Ok? ==> r.value == w - {Strip(arg)}
  {
    var key := Strip(arg);
    if key in w then Ok(w - {key}) else Err("watch " + key + " not found")
  }

  /** Watching a known signal under a name and then unwatching that name leaves the list
      without the name - the entry is gone even if the name was watched before. */
  lemma WatchThenUnwatch(w: map<string, Signal>, arg: string, lookup: string -> Option<Signal>)
    requires Split(Strip(arg)) != [] && lookup(Split(Strip(arg))[0]).Some?
    ensures var name := Split(Strip(arg))[|Split(Strip(arg))| - 1];
            UnwatchResult(WatchResult(w, arg, lookup), name) == Ok(w - {name})
  {
    var ws := Split(Strip(arg));
    var name := ws[|ws| - 1];
    SplitWords(Strip(arg));
    assert name in ws;
    StripNoSpace(name);
    var m := WatchResult(w, arg, lookup);
    assert m == w[name := lookup(ws[0]).value];
    RemoveUpdated(w, name, lookup(ws[0]).value);
  }

  /** Removing a key just set leaves the map as if it had never held the key. */
  lemma RemoveUpdated<K, V>(w: map<K, V>, k: K, v: V)
    ensures w[k := v] - {k} == w - {k}
  {
  }

  // ---------------------------------------------------------------------------

  /** The DUT-facing part of the debugger. */
  class DutCmd {
    const sim: Simulator
    const mem: MemoryRW.Memory
    /** `self.interrupt`. */
    var interrupt: bool
    /** Calls of the `on_update_tstep` hook so far. */
    var hookCalls: nat
    /** `info_watch_list`. */
    var watchList: map<string, Signal>
    /** `api_is_hit_trap_break`. */
    const trapBreak: DiffState -> bool
    /** Whether an `on_update_tstep` hook is installed. */
    const hasHook: bool
    /** The cycles at which that hook sets `self.interrupt`. */
    const hookInterrupts: int -> bool
    /** `dut.GetInternalSignal`. */
    const lookup: string -> Option<Signal>

    /** `CmdDut.__init__`: clear `interrupt` and reset the DUT. The watch list starts
        empty. */
    constructor (sim: Simulator, mem: MemoryRW.Memory, trapBreak: DiffState -> bool, hasHook: bool,
                 hookInterrupts: int -> bool, lookup: string -> Option<Signal>)
      requires SlotsPresent(sim.stat)
      modifies sim`stat, sim`clk, sim`disabled
      ensures this.sim == sim && this.mem == mem && this.trapBreak == trapBreak
      ensures this.hasHook == hasHook && this.hookInterrupts == hookInterrupts && this.lookup == lookup
      ensures !interrupt && hookCalls == 0 && watchList == map[]
      ensures sim.Clock() == Advance(sim.disableAt, old(sim.Clock()), RESET_CYCLES)
      ensures sim.stat == if sim.clk == old(sim.clk) then ResetStat(old(sim.stat)) else sim.probeAt(sim.clk)
    {
      this.sim := sim;
      this.mem := mem;
      this.trapBreak := trapBreak;
      this.hasHook := hasHook;
      this.hookInterrupts := hookInterrupts;
      this.lookup := lookup;
      interrupt := false;
      hookCalls := 0;
      watchList := map[];
      new;
      var _ := Reset();
    }

    function EnvOf(): Env
    {
      Env(sim.disableAt, sim.probeAt, trapBreak, hasHook, hookInterrupts)
    }

    function RunOf(): Run
      reads this, sim
    {
      Run(sim.Clock(), sim.stat, interrupt, hookCalls)
    }

    /** `check_break`. */
    method CheckBreak() returns (b: bool)
      modifies this`hookCalls, this`interrupt
      ensures RunOf() == CheckRun(EnvOf(), old(RunOf()))
      ensures b == Breaks(EnvOf(), RunOf())
    {
      if sim.disabled {
        return true;
      }
      if hasHook {
        hookCalls := hookCalls + 1;
        if hookInterrupts(sim.clk) {
          interrupt := true;
        }
      }
      if IsHitGoodTrap(sim.stat) {
        return true;
      } else if IsHitGoodLoop(sim.stat) {
        return true;
      } else if trapBreak(sim.stat) {
        return true;
      }
      return false;
    }

    /** The batch loop of `api_step_dut`: up to `batch` batches of `batchCycle` cycles,
        each followed by `check_break`, ending early on `interrupt` or a break. */
    method RunBatches(batch: int, batchCycle: int)
      requires batchCycle > 0
      modifies sim`clk, sim`disabled, sim`stat, this`interrupt, this`hookCalls
      ensures RunOf() == Batches(EnvOf(), old(RunOf()), batch, batchCycle)
    {
      ghost var e := EnvOf();
      ghost var target := Batches(e, RunOf(), batch, batchCycle);
      var i := 0;
      while i < batch
        invariant 0 <= i && (batch >= 0 ==> i <= batch)
        invariant EnvOf() == e
        invariant Batches(e, RunOf(), batch - i, batchCycle) == target
        decreases batch - i, if interrupt then 0 else 1
      {
        if interrupt {
          break;
        }
        ghost var r := RunOf();
        sim.Step(batchCycle);
        assert RunOf() == StepRun(e, r, batchCycle);
        var b := CheckBreak();
        ghost var r1 := RunOf();
        assert r1 == CheckRun(e, StepRun(e, r, batchCycle));
        assert Batches(e, r, batch - i, batchCycle)
               == if Breaks(e, r1) then r1.(interrupted := true) else Batches(e, r1, batch - i - 1, batchCycle);
        if b {
          interrupt := true;
          assert RunOf() == r1.(interrupted := true);
          break;
        }
        i := i + 1;
      }
    }

    /** `api_step_dut(cycle, batch_cycle)`: returns the cycles actually stepped. A zero
        batch size fails on `cycle // batch_cycle` after the clock was enabled and
        `interrupt` cleared, before anything is stepped. */
    method StepDut(cycle: int, batchCycle: int) returns (elapsed: Result<int>)
      requires batchCycle >= 0
      modifies sim`clk, sim`disabled, sim`stat, this`interrupt, this`hookCalls
      ensures batchCycle == 0 ==> elapsed.Err? && RunOf() == StepDutStart(old(RunOf()))
      ensures batchCycle > 0 ==> RunOf() == StepDutSpec(EnvOf(), old(RunOf()), cycle, batchCycle)
      ensures batchCycle > 0 ==> elapsed == Ok(sim.clk - old(sim.clk))
    {
      sim.Enable();
      interrupt := false;
      if batchCycle == 0 {
        return Err("integer division or modulo by zero");
      }
      var batch, offset := cycle / batchCycle, cycle % batchCycle;
      var cCount := sim.clk;
      RunBatches(batch, batchCycle);
      if !interrupt && !sim.disabled {
        sim.Step(offset);
        var _ := CheckBreak();
      }
      return Ok(sim.clk - cCount);
    }

    /** `api_dut_reset`: rewrite the probe's first eight commit slots and its trap
        record, then hold reset for 100 cycles. A missing slot raises on `cmt.pc = 0x0`:
        the call fails there with the earlier slots already rewritten, the trap record
        as it was and nothing stepped. */
    method Reset() returns (ok: bool)
      modifies sim`stat, sim`clk, sim`disabled
      ensures ok <==> SlotsPresent(old(sim.stat))
      ensures ok ==> sim.Clock() == Advance(sim.disableAt, old(sim.Clock()), RESET_CYCLES)
      ensures ok ==> sim.stat == if sim.clk == old(sim.clk) then ResetStat(old(sim.stat)) else sim.probeAt(sim.clk)
      ensures !ok ==> sim.Clock() == old(sim.Clock()) && sim.stat == ResetAborted(old(sim.stat))
    {
      ghost var s := sim.stat;
      for i := 0 to COMMIT_SLOTS
        invariant i <= |s.commits| && forall j :: 0 <= j < i ==> s.commits[j].Some?
        invariant sim.stat == DiffState(ZeroSlots(s, i), s.trap)
        invariant sim.Clock() == old(sim.Clock())
      {
        var cmt := GetCommit(sim.stat, i);
        if cmt.None? {
          assert GetCommit(s, i).None?;
          assert FirstAbsentSlot(s, 0) == i;
          FirstAbsentSlotAll(s);
          return false;
        }
        sim.stat := sim.stat.(commits := sim.stat.commits[i := Some(cmt.value.(pc := 0, instr := 0))]);
        assert sim.stat.commits == ZeroSlots(s, i + 1);
      }
      sim.stat := sim.stat.(trap := sim.stat.trap.(pc := 0, code := 32, hasTrap := 0));
      assert sim.stat == ResetStat(s);
      sim.Step(RESET_CYCLES);
      return true;
    }

    /** `api_dut_flash_load`: the Flash store takes the image and the disassembly cache
        is emptied. */
    method FlashLoad(image: map<int, Bytes.Word>)
      modifies mem`flash, mem`asmCache
      ensures mem.flash == image && mem.asmCache == map[]
    {
      mem.flash := image;
      mem.asmCache := map[];
    }

    /** `do_xwatch`. */
    method Watch(arg: string)
      modifies this`watchList
      ensures watchList == WatchResult(old(watchList), arg, lookup)
    {
      var key := Split(Strip(arg));
      if key == [] {
        return;
      }
      var arb := key[|key| - 1];
      var sig := lookup(key[0]);
      if sig.Some? {
        watchList := watchList[arb := sig.value];
      }
    }

    /** `do_xunwatch`: returns whether the key was found. */
    method Unwatch(arg: string) returns (found: bool)
      modifies this`watchList
      ensures found == (Strip(arg) in old(watchList))
      ensures watchList == if found then UnwatchResult(old(watchList), arg).value else old(watchList)
    {
      var key := Strip(arg);
      if key in watchList {
        watchList := watchList - {key};
        return true;
      }
      return false;
    }
  }
}
