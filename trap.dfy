/** Good-trap and good-loop detection, and the one-time registration of the good-trap
    condition checker on the clock (XSPdb/cmd/cmd_trap.py). */
module Trap {
  import opened Wrappers
  import opened Sim

  /** Number of commit slots the debugger inspects. */
  const COMMIT_SLOTS: int := 8

  /** `jal x0, 0`: the encoding a program uses to park itself in an endless loop. */
  const GOOD_LOOP_INSTR: int := 0x6f

  /** Description under which the good-trap checker is registered on the clock. */
  const GOOD_TRAP_KEY: string := "good_trap"

  /** `api_is_hit_good_trap`: a trap was taken and its code is 0. */
  predicate IsHitGoodTrap(s: DiffState)
  {
    s.trap.hasTrap != 0 && s.trap.code == 0
  }

  /** Commit slot i holds a valid commit of the self-jump. */
  predicate SlotLoops(s: DiffState, i: int)
  {
    GetCommit(s, i).Some? && GetCommit(s, i).value.valid && GetCommit(s, i).value.instr == GOOD_LOOP_INSTR
  }

  /** The scan `for i in range(i, 8)` of `api_is_hit_good_loop`. */
  function GoodLoopFrom(s: DiffState, i: int): bool
    requires 0 <= i <= COMMIT_SLOTS
    decreases COMMIT_SLOTS - i
  {
    if i == COMMIT_SLOTS then false
    else if SlotLoops(s, i) then true
    else GoodLoopFrom(s, i + 1)
  }

  /** `api_is_hit_good_loop`. */
  predicate IsHitGoodLoop(s: DiffState)
  {
    GoodLoopFrom(s, 0)
  }

  /** The scan from slot i finds a self-jump exactly when one of slots i..7 holds one. */
  lemma {:induction false} GoodLoopFromMeans(s: DiffState, i: int)
    requires 0 <= i <= COMMIT_SLOTS
    ensures GoodLoopFrom(s, i) <==> exists j :: i <= j < COMMIT_SLOTS && SlotLoops(s, j)
    decreases COMMIT_SLOTS - i
  {
    if i < COMMIT_SLOTS && !SlotLoops(s, i) {
      GoodLoopFromMeans(s, i + 1);
      if exists j :: i <= j < COMMIT_SLOTS && SlotLoops(s, j) {
        var j :| i <= j < COMMIT_SLOTS && SlotLoops(s, j);
        assert j != i;
      }
    }
  }

  /** Good loop: some of the first eight slots commits the self-jump. */
  lemma IsHitGoodLoopMeans(s: DiffState)
    ensures IsHitGoodLoop(s) <==> exists j :: 0 <= j < COMMIT_SLOTS && SlotLoops(s, j)
  {
    GoodLoopFromMeans(s, 0);
  }

  /** Only the first eight slots are looked at: two probes that agree there agree on
      good loop, whatever their later slots and trap record hold. */
  lemma GoodLoopOnlyFirstSlots(s: DiffState, t: DiffState)
    requires forall j :: 0 <= j < COMMIT_SLOTS ==> GetCommit(s, j) == GetCommit(t, j)
    ensures IsHitGoodLoop(s) == IsHitGoodLoop(t)
  {
    IsHitGoodLoopMeans(s);
    IsHitGoodLoopMeans(t);
    if IsHitGoodLoop(s) {
      var j :| 0 <= j < COMMIT_SLOTS && SlotLoops(s, j);
      assert SlotLoops(t, j);
    }
    if IsHitGoodLoop(t) {
      var j :| 0 <= j < COMMIT_SLOTS && SlotLoops(t, j);
      assert SlotLoops(s, j);
    }
  }

  // ---------------------------------------------------------------------------
  // The JAL encoding (RISC-V Unprivileged ISA, section 2.5, Control Transfer
  // Instructions): imm[20|10:1|11|19:12] rd opcode, opcode 1101111.

  const JAL_OPCODE: bv32 := 0x6f

  function JalEncode(rd: bv32, offset: bv32): bv32
  {
    (((offset >> 20) & 1) << 31) | (((offset >> 1) & 0x3ff) << 21) | (((offset >> 11) & 1) << 20)
    | (((offset >> 12) & 0xff) << 12) | ((rd & 0x1f) << 7) | JAL_OPCODE
  }

  /** The instruction good loop looks for is exactly `jal x0, 0`: no link register and
      a zero offset, i.e. a jump to itself; no other JAL encodes to it. */
  lemma GoodLoopIsSelfJump(rd: bv32, offset: bv32)
    requires rd < 32 && offset < 0x20_0000 && offset & 1 == 0
    ensures JalEncode(rd, offset) == GOOD_LOOP_INSTR as bv32 <==> rd == 0 && offset == 0
  {
  }

  // ---------------------------------------------------------------------------

  /** The good-trap condition: trap code EQ 0, gated by hasTrap NE 0. */
  const GOOD_TRAP_CHECKER: Checker := Checker({GOOD_TRAP_KEY}, None, 0)

  /** The part of the debugger that owns `condition_good_trap`. */
  class TrapCmd {
    const sim: Simulator
    /** `condition_good_trap["checker"]`. */
    var goodTrapChecker: Option<Checker>
    /** Whether the difftest binding exposes `trap.get_code_address`. */
    const hasCodeAddress: bool

    constructor (sim: Simulator, hasCodeAddress: bool)
      modifies sim`risCbs
      ensures this.sim == sim && this.hasCodeAddress == hasCodeAddress
      ensures hasCodeAddress ==> goodTrapChecker == Some(GOOD_TRAP_CHECKER)
      ensures hasCodeAddress ==> sim.risCbs == Without(old(sim.risCbs), GOOD_TRAP_KEY) + [GOOD_TRAP_KEY]
      ensures !hasCodeAddress ==> goodTrapChecker == None && sim.risCbs == old(sim.risCbs)
    {
      this.sim := sim;
      this.hasCodeAddress := hasCodeAddress;
      goodTrapChecker := None;
      new;
      InitGoodTrap();
    }

    /** `api_init_good_trap`: a no-op once a checker exists; without the trap's code
        address nothing is registered; otherwise the checker is stored and registered
        under "good_trap" exactly once. */
    method InitGoodTrap()
      modifies this`goodTrapChecker, sim`risCbs
      ensures old(goodTrapChecker).Some? || !hasCodeAddress ==>
                goodTrapChecker == old(goodTrapChecker) && sim.risCbs == old(sim.risCbs)
      ensures old(goodTrapChecker).None? && hasCodeAddress ==>
                goodTrapChecker == Some(GOOD_TRAP_CHECKER)
                && sim.risCbs == Without(old(sim.risCbs), GOOD_TRAP_KEY) + [GOOD_TRAP_KEY]
                && Count(sim.risCbs, GOOD_TRAP_KEY) == 1
                && forall k :: k != GOOD_TRAP_KEY ==> Count(sim.risCbs, k) == Count(old(sim.risCbs), k)
    {
      if goodTrapChecker.Some? {
        return;
      }
      if !hasCodeAddress {
        return;
      }
      var checker := GOOD_TRAP_CHECKER;
      sim.RemoveStepRisCbByDesc(GOOD_TRAP_KEY);
      sim.StepRis(GOOD_TRAP_KEY);
      ReRegisterOnce(old(sim.risCbs), GOOD_TRAP_KEY);
      goodTrapChecker := Some(checker);
    }
  }
}
