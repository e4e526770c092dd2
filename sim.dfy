/** The simulator-side collaborators the debugger drives, kept abstract: the clock
    (cycle counter, disable flag, rising-edge callback registry), the difftest probe
    (commit slots and trap record) and the condition checker, reduced to its names. */
module Sim {
  import opened Wrappers

  /** One commit slot of the difftest probe. */
  datatype Commit = Commit(pc: int, instr: int, valid: bool)

  /** The trap record of the difftest probe. */
  datatype TrapInfo = TrapInfo(pc: int, code: int, hasTrap: int, cycleCnt: int)

  /** The probe: `get_commit(i)` yields a commit or None; past the end it is None. */
  datatype DiffState = DiffState(commits: seq<Option<Commit>>, trap: TrapInfo)

  /** `difftest_stat.get_commit(i)`. */
  function GetCommit(s: DiffState, i: int): (r: Option<Commit>)
    ensures r.Some? ==> 0 <= i < |s.commits| && s.commits[i] == r
  {
    if 0 <= i < |s.commits| then s.commits[i] else None
  }

  /** A condition checker (`ComUseCondCheck`) as far as this model needs it: the names
      of its conditions, its maximum callback count (unset: None) and how often it has
      fired since its last reset. Comparator semantics are not modelled. */
  datatype Checker = Checker(conditions: set<string>, maxCbs: Option<nat>, fired: nat)

  const EMPTY_CHECKER: Checker := Checker({}, None, 0)

  // ---------------------------------------------------------------------------
  // Clock

  /** What the clock exposes: the cycle counter `clk` and `IsDisable()`. */
  datatype ClockState = ClockState(clk: int, disabled: bool)

  /** `Step(n)`: advance one cycle at a time; a rising-edge callback that disables the
      clock at cycle c (`disableAt(c)`) ends the step there. A disabled clock does not
      advance. */
  function Advance(disableAt: int -> bool, s: ClockState, n: nat): ClockState
    decreases n
  {
    if s.disabled || n == 0 then s
    else if disableAt(s.clk + 1) then ClockState(s.clk + 1, true)
    else Advance(disableAt, ClockState(s.clk + 1, false), n - 1)
  }

  /** `Step(n)` advances by at most n cycles; a disabled clock stays put, and a step
      that leaves the clock enabled advances by exactly n. */
  lemma {:induction false} AdvanceBounds(disableAt: int -> bool, s: ClockState, n: nat)
    ensures s.clk <= Advance(disableAt, s, n).clk <= s.clk + n
    ensures s.disabled ==> Advance(disableAt, s, n) == s
    ensures !Advance(disableAt, s, n).disabled ==> Advance(disableAt, s, n).clk == s.clk + n
    decreases n
  {
    if !s.disabled && n > 0 && !disableAt(s.clk + 1) {
      AdvanceBounds(disableAt, ClockState(s.clk + 1, false), n - 1);
    }
  }

  /** With no disabling callback in the stepped range, `Step(n)` adds exactly n. */
  lemma {:induction false} AdvanceQuiet(disableAt: int -> bool, s: ClockState, n: nat)
    requires !s.disabled
    requires forall c :: s.clk < c <= s.clk + n ==> !disableAt(c)
    ensures Advance(disableAt, s, n) == ClockState(s.clk + n, false)
    decreases n
  {
    if n > 0 {
      AdvanceQuiet(disableAt, ClockState(s.clk + 1, false), n - 1);
    }
  }

  /** The clock stops at the first disabling cycle inside the stepped range. */
  lemma {:induction false} AdvanceStopsAtFirstDisable(disableAt: int -> bool, s: ClockState, n: nat, d: int)
    requires !s.disabled && s.clk < d <= s.clk + n && disableAt(d)
    requires forall c :: s.clk < c < d ==> !disableAt(c)
    ensures Advance(disableAt, s, n) == ClockState(d, true)
    decreases n
  {
    if d > s.clk + 1 {
      AdvanceStopsAtFirstDisable(disableAt, ClockState(s.clk + 1, false), n - 1, d);
    }
  }

  /** A step that ends early always ends on a disabling cycle. */
  lemma {:induction false} AdvanceDisabledOnCallback(disableAt: int -> bool, s: ClockState, n: nat)
    requires !s.disabled && Advance(disableAt, s, n).disabled
    ensures disableAt(Advance(disableAt, s, n).clk)
    decreases n
  {
    if n > 0 && !disableAt(s.clk + 1) {
      AdvanceDisabledOnCallback(disableAt, ClockState(s.clk + 1, false), n - 1);
    }
  }

  // ---------------------------------------------------------------------------
  // Rising-edge callback registry, listed by description (key)

  function Count(xs: seq<string>, k: string): (n: nat)
    ensures n <= |xs|
    ensures n == 0 <==> k !in xs
  {
    if xs == [] then 0 else (if xs[0] == k then 1 else 0) + Count(xs[1..], k)
  }

  lemma {:induction false} CountAppend(xs: seq<string>, ys: seq<string>, k: string)
    ensures Count(xs + ys, k) == Count(xs, k) + Count(ys, k)
  {
    if xs != [] {
      assert (xs + ys)[1..] == xs[1..] + ys;
      CountAppend(xs[1..], ys, k);
    } else {
      assert xs + ys == ys;
    }
  }

  /** `RemoveStepRisCbByDesc(k)`: every callback registered under k is dropped; the
      others keep their order. */
  function Without(xs: seq<string>, k: string): (r: seq<string>)
    ensures k !in r
    ensures forall x :: x != k ==> Count(r, x) == Count(xs, x)
    ensures forall x :: x in r <==> x in xs && x != k
  {
    if xs == [] then []
    else if xs[0] == k then Without(xs[1..], k)
    else [xs[0]] + Without(xs[1..], k)
  }

  /** The simulated DUT with its clock: the state the debugger reads and steps. */
  class Simulator {
    var clk: int
    var disabled: bool
    /** Descriptions of the registered rising-edge callbacks, in registration order. */
    var risCbs: seq<string>
    /** The live difftest probe. */
    var stat: DiffState
    /** Whether a registered callback disables the clock at a cycle. */
    const disableAt: int -> bool
    /** What the simulator writes into the probe at a cycle. */
    const probeAt: int -> DiffState

    constructor (disableAt: int -> bool, probeAt: int -> DiffState, stat: DiffState)
      ensures this.disableAt == disableAt && this.probeAt == probeAt
      ensures clk == 0 && !disabled && risCbs == [] && this.stat == stat
    {
      this.disableAt := disableAt;
      this.probeAt := probeAt;
      this.stat := stat;
      clk := 0;
      disabled := false;
      risCbs := [];
    }

    function Clock(): ClockState
      reads this
    {
      ClockState(clk, disabled)
    }

    /** `xclock.Enable()`. */
    method Enable()
      modifies this`disabled
      ensures !disabled
    {
      disabled := false;
    }

    /** `dut.Step(n)`. */
    method Step(n: nat)
      modifies this`clk, this`disabled, this`stat
      ensures Clock() == Advance(disableAt, old(Clock()), n)
      ensures stat == if clk == old(clk) then old(stat) else probeAt(clk)
    {
      var k := 0;
      while k < n && !disabled
        invariant 0 <= k <= n
        invariant clk == old(clk) + k
        invariant Advance(disableAt, Clock(), n - k) == Advance(disableAt, old(Clock()), n)
        invariant stat == if k == 0 then old(stat) else probeAt(clk)
      {
        clk := clk + 1;
        stat := probeAt(clk);
        if disableAt(clk) {
          disabled := true;
        }
        k := k + 1;
      }
    }

    /** `xclock.StepRis(cb, self, key)`: register a rising-edge callback under key. */
    method StepRis(key: string)
      modifies this`risCbs
      ensures risCbs == old(risCbs) + [key]
    {
      risCbs := risCbs + [key];
    }

    /** `xclock.RemoveStepRisCbByDesc(key)`. */
    method RemoveStepRisCbByDesc(key: string)
      modifies this`risCbs
      ensures risCbs == Without(old(risCbs), key)
    {
      risCbs := Without(risCbs, key);
    }
  }

  /** Removing a key and registering it again leaves exactly one registration under
      that key and every other registration as it was. */
  lemma ReRegisterOnce(xs: seq<string>, k: string)
    ensures Count(Without(xs, k) + [k], k) == 1
    ensures forall x :: x != k ==> Count(Without(xs, k) + [k], x) == Count(xs, x)
  {
    CountAppend(Without(xs, k), [k], k);
    forall x | x != k
      ensures Count(Without(xs, k) + [k], x) == Count(xs, x)
    {
      CountAppend(Without(xs, k), [k], x);
    }
  }
}
