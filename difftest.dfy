/** The commit-PC list, watching commit PCs through a condition checker on the clock,
    and instruction stepping (XSPdb/cmd/cmd_difftest.py). */
module DiffTest {
  import opened Wrappers
  import opened Sim
  import opened Trap
  import opened Text
  import opened Dut
  import Bytes

  // ---------------------------------------------------------------------------
  // api_commit_pc_list

  /** One element of the commit-PC list: `(pc, valid)`. */
  datatype PcEntry = PcEntry(pc: int, valid: bool)

  /** The index of the first missing commit slot (the length of the list of slots
      that are present one after another from slot 0). */
  function FirstMissing(cs: seq<Option<Commit>>): (n: nat)
    ensures n <= |cs|
    ensures forall i :: 0 <= i < n ==> cs[i].Some?
    ensures n < |cs| ==> cs[n].None?
  {
    if cs == [] || cs[0].None? then 0 else 1 + FirstMissing(cs[1..])
  }

  /** `api_commit_pc_list`: `(pc, valid)` of slots 0, 1, ... in order, up to the first
      missing one. */
  method CommitPcList(s: DiffState) returns (pclist: seq<PcEntry>)
    ensures |pclist| == FirstMissing(s.commits)
    ensures forall i :: 0 <= i < |pclist| ==>
              pclist[i] == PcEntry(s.commits[i].value.pc, s.commits[i].value.valid)
  {
    var index := 0;
    pclist := [];
    while GetCommit(s, index).Some?
      invariant 0 <= index <= FirstMissing(s.commits)
      invariant |pclist| == index
      invariant forall i :: 0 <= i < index ==>
                  pclist[i] == PcEntry(s.commits[i].value.pc, s.commits[i].value.valid)
      decreases |s.commits| - index
    {
      var cmt := GetCommit(s, index).value;
      pclist := pclist + [PcEntry(cmt.pc, cmt.valid)];
      index := index + 1;
    }
  }

  // ---------------------------------------------------------------------------
  // Condition names

  /** Description under which the watch checker is registered on the clock. */
  const WATCH_KEY: string := "watch_commit_pc"

  /** `"watch_pc_0x%x_%d" % (address, i)`: the condition comparing commit slot i with
      the watched address. */
  function WatchName(address: int, i: nat): string
    requires i < COMMIT_SLOTS
  {
    "watch_pc_0x" + FormatHex(address) + "_" + FormatDecimal(i)
  }

  lemma FormatDecimalDigit(i: nat)
    requires i < 10
    ensures FormatDecimal(i) == [DigitChar(i)]
  {
  }

  /** Where the address and the slot sit in a condition name. */
  lemma WatchNameParts(a: int, i: nat)
    requires i < COMMIT_SLOTS
    ensures |WatchName(a, i)| == |FormatHex(a)| + 13
    ensures WatchName(a, i)[11..|FormatHex(a)| + 11] == FormatHex(a)
    ensures WatchName(a, i)[|FormatHex(a)| + 12] == DigitChar(i)
  {
    FormatDecimalDigit(i);
    var s := WatchName(a, i);
    assert s == ("watch_pc_0x" + FormatHex(a)) + ("_" + [DigitChar(i)]);
  }

  /** Different addresses or slots never share a condition name. */
  lemma WatchNameInjective(a: int, i: nat, b: int, j: nat)
    requires i < COMMIT_SLOTS && j < COMMIT_SLOTS
    requires WatchName(a, i) == WatchName(b, j)
    ensures a == b && i == j
  {
    WatchNameParts(a, i);
    WatchNameParts(b, j);
    FormatHexInjective(a, b);
    DigitValueOfChar(i);
    DigitValueOfChar(j);
  }

  /** The eight names watching one address. */
  function NamesOf(address: int): set<string>
  {
    set i: nat | i < COMMIT_SLOTS :: WatchName(address, i)
  }

  /** The names watching every address of a set. */
  function AllNames(addrs: set<int>): set<string>
  {
    set a, i: nat | a in addrs && i < COMMIT_SLOTS :: WatchName(a, i)
  }

  /** The names built from the first n slot numbers. */
  function NamesUpTo(address: int, n: nat): set<string>
    requires n <= COMMIT_SLOTS
  {
    if n == 0 then {} else NamesUpTo(address, n - 1) + {WatchName(address, n - 1)}
  }

  /** The recursive construction builds the names of the first n slots. */
  lemma {:induction false} NamesUpToIs(address: int, n: nat)
    requires n <= COMMIT_SLOTS
    ensures NamesUpTo(address, n) == set i: nat | i < n :: WatchName(address, i)
  {
    if n > 0 {
      NamesUpToIs(address, n - 1);
      assert (set i: nat | i < n :: WatchName(address, i))
          == (set i: nat | i < n - 1 :: WatchName(address, i)) + {WatchName(address, n - 1)};
    }
  }

  /** The name of slot m is none of the names of the slots before n <= m. */
  lemma {:induction false} NotInUpTo(address: int, m: nat, n: nat)
    requires n <= m < COMMIT_SLOTS
    ensures WatchName(address, m) !in NamesUpTo(address, n)
  {
    if n > 0 {
      NotInUpTo(address, m, n - 1);
      if WatchName(address, m) == WatchName(address, n - 1) {
        WatchNameInjective(address, m, address, n - 1);
      }
    }
  }

  lemma {:induction false} NamesUpToCard(address: int, n: nat)
    requires n <= COMMIT_SLOTS
    ensures |NamesUpTo(address, n)| == n
  {
    if n > 0 {
      NamesUpToCard(address, n - 1);
      NotInUpTo(address, n - 1, n - 1);
    }
  }

  /** A watch installs exactly eight distinct conditions. */
  lemma EightNames(address: int)
    ensures |NamesOf(address)| == COMMIT_SLOTS
  {
    NamesUpToCard(address, COMMIT_SLOTS);
    NamesUpToIs(address, COMMIT_SLOTS);
  }

  lemma AllNamesAdd(addrs: set<int>, a: int)
    ensures AllNames(addrs + {a}) == AllNames(addrs) + NamesOf(a)
  {
  }

  /** The names of other addresses are untouched when one address's names go. */
  lemma AllNamesRemove(addrs: set<int>, a: int)
    ensures AllNames(addrs) - NamesOf(a) == AllNames(addrs - {a})
  {
    forall x | x in AllNames(addrs) && x !in NamesOf(a)
      ensures x in AllNames(addrs - {a})
    {
      var b, i: nat :| b in addrs && i < COMMIT_SLOTS && x == WatchName(b, i);
      assert b != a;
    }
    forall x | x in AllNames(addrs - {a})
      ensures x !in NamesOf(a)
    {
      var b, i: nat :| b in addrs - {a} && i < COMMIT_SLOTS && x == WatchName(b, i);
      if x in NamesOf(a) {
        var j: nat :| j < COMMIT_SLOTS && x == WatchName(a, j);
        WatchNameInjective(a, j, b, i);
      }
    }
  }

  /** The slot-0 name is present exactly for the watched addresses. */
  lemma AllNamesHas(addrs: set<int>, a: int)
    ensures WatchName(a, 0) in AllNames(addrs) <==> a in addrs
  {
    if WatchName(a, 0) in AllNames(addrs) {
      var b, i: nat :| b in addrs && i < COMMIT_SLOTS && WatchName(a, 0) == WatchName(b, i);
      WatchNameInjective(a, 0, b, i);
    }
  }

  lemma AllNamesEmpty(addrs: set<int>)
    ensures AllNames(addrs) == {} <==> addrs == {}
  {
    forall a | a in addrs
      ensures WatchName(a, 0) in AllNames(addrs)
    {
    }
    if AllNames(addrs) == {} {
      assert forall a :: a !in addrs;
    }
  }

  // ---------------------------------------------------------------------------
  // Watching commit PCs, on values

  /** `condition_watch_commit_pc`: the checker (None until the first watch) and the
      per-address entries, keyed by the address (the dict keys `"0x%x" % address`
      are in one-to-one correspondence with it) and holding the target PC bytes. */
  datatype WatchState = WatchState(checker: Option<Checker>, entries: map<int, seq<Bytes.byte>>)

  const NO_WATCH: WatchState := WatchState(None, map[])

  /** What the dict is meant to hold: the checker's conditions are exactly the eight
      names of each address with an entry, each entry holds its address's
      little-endian bytes, a checker with entries fires at most once per cycle, and
      there are no entries without a checker. */
  ghost predicate Consistent(w: WatchState)
  {
    (w.checker.None? ==> w.entries == map[])
    && (w.checker.Some? ==>
          w.checker.value.conditions == AllNames(w.entries.Keys)
          && (w.entries != map[] ==> w.checker.value.maxCbs == Some(1)))
    && forall a :: a in w.entries ==>
         0 <= a < Bytes.WORD_LIMIT && w.entries[a] == Bytes.WordBytes(a)
  }

  /** Lines 64-68: the checker is created by the first watch that parses. */
  function WithChecker(w: WatchState): (r: WatchState)
    ensures r.checker.Some? && r.entries == w.entries
    ensures w.checker.Some? ==> r == w
  {
    if w.checker.None? then w.(checker := Some(EMPTY_CHECKER)) else w
  }

  /** How `do_xwatch_commit_pc` ends for a parsed address. */
  datatype WatchOutcome = Watched | AlreadyWatched | NotAWord

  function WatchOutcomeOf(w: WatchState, address: int): WatchOutcome
  {
    if WatchName(address, 0) in WithChecker(w).checker.value.conditions then AlreadyWatched
    else if address < 0 || address >= Bytes.WORD_LIMIT then NotAWord
    else Watched
  }

  /** The state after `do_xwatch_commit_pc` for a parsed address: a known address is
      reported and nothing is added; an address that is not an unsigned 64-bit value
      makes `to_bytes` fail after the checker was created; otherwise the eight
      conditions are set, at most one callback per cycle is allowed and the entry is
      stored. */
  function WatchSpec(w: WatchState, address: int): WatchState
  {
    var w1 := WithChecker(w);
    var c := w1.checker.value;
    if WatchOutcomeOf(w, address) != Watched then w1
    else
      WatchState(Some(c.(conditions := c.conditions + NamesOf(address), maxCbs := Some(1))),
                 w1.entries[address := Bytes.WordBytes(address)])
  }

  /** `do_xwatch_commit_pc("update")`: the checker, if any, is reset. */
  function UpdateSpec(w: WatchState): WatchState
  {
    if w.checker.Some? then w.(checker := Some(w.checker.value.(fired := 0))) else w
  }

  /** How `do_xunwatch_commit_pc` ends for a parsed address. */
  datatype UnwatchOutcome = NoChecker | NotWatched | Unwatched | UnwatchedLast

  function UnwatchOutcomeOf(w: WatchState, address: int): UnwatchOutcome
  {
    if w.checker.None? then NoChecker
    else if WatchName(address, 0) !in w.checker.value.conditions then NotWatched
    else if w.checker.value.conditions - NamesOf(address) == {} then UnwatchedLast
    else Unwatched
  }

  /** `do_xunwatch_commit_pc` as written: the eight names go and, when none are left,
      the dict is cleared; while other addresses remain the entry of this address is
      only looked up (line 109), never deleted. */
  function UnwatchAsWritten(w: WatchState, address: int): WatchState
  {
    match UnwatchOutcomeOf(w, address)
    case NoChecker => w
    case NotWatched => w
    case UnwatchedLast => NO_WATCH
    case Unwatched =>
      var c := w.checker.value;
      w.(checker := Some(c.(conditions := c.conditions - NamesOf(address))))
  }

  /** `do_xunwatch_commit_pc` with the entry deleted, as the lookup on line 109 was
      evidently meant to do. */
  function UnwatchSpec(w: WatchState, address: int): WatchState
  {
    match UnwatchOutcomeOf(w, address)
    case NoChecker => w
    case NotWatched => w
    case UnwatchedLast => NO_WATCH
    case Unwatched =>
      var c := w.checker.value;
      WatchState(Some(c.(conditions := c.conditions - NamesOf(address))), w.entries - {address})
  }

  /** In a consistent state an address is watched exactly when it has an entry. */
  lemma WatchedIffEntry(w: WatchState, address: int)
    requires Consistent(w)
    ensures WatchName(address, 0) in WithChecker(w).checker.value.conditions <==> address in w.entries
  {
    if w.checker.Some? {
      AllNamesHas(w.entries.Keys, address);
    }
  }

  /** Watching keeps the state consistent and adds exactly the address's eight names
      when it succeeds; every other outcome leaves conditions and entries alone. */
  lemma WatchKeepsConsistent(w: WatchState, address: int)
    requires Consistent(w)
    ensures Consistent(WatchSpec(w, address))
    ensures WatchOutcomeOf(w, address) == Watched <==> 0 <= address < Bytes.WORD_LIMIT && address !in w.entries
    ensures WatchOutcomeOf(w, address) == Watched ==>
              WatchSpec(w, address).checker.value.conditions
                == WithChecker(w).checker.value.conditions + NamesOf(address)
              && WatchSpec(w, address).entries.Keys == w.entries.Keys + {address}
    ensures WatchOutcomeOf(w, address) != Watched ==> WatchSpec(w, address) == WithChecker(w)
  {
    WatchedIffEntry(w, address);
    AllNamesAdd(w.entries.Keys, address);
    if WatchOutcomeOf(w, address) == Watched {
      assert w.entries[address := Bytes.WordBytes(address)].Keys == w.entries.Keys + {address};
    }
  }

  /** Unwatching (corrected) keeps the state consistent and removes exactly the
      address's names and entry; the dict is cleared when it was the last one. */
  lemma UnwatchKeepsConsistent(w: WatchState, address: int)
    requires Consistent(w)
    ensures Consistent(UnwatchSpec(w, address))
    ensures UnwatchOutcomeOf(w, address) in {NoChecker, NotWatched} <==> address !in w.entries
    ensures UnwatchOutcomeOf(w, address) == UnwatchedLast <==> w.entries.Keys == {address}
    ensures UnwatchSpec(w, address).entries == w.entries - {address}
  {
    WatchedIffEntry(w, address);
    if w.checker.Some? {
      var keys := w.entries.Keys;
      AllNamesRemove(keys, address);
      AllNamesEmpty(keys - {address});
      assert (w.entries - {address}).Keys == keys - {address};
      if address in keys {
        assert keys == {address} <==> keys - {address} == {};
      }
    }
  }

  /** Watching a new address and unwatching it again restores the state; when it was
      the only address, the dict ends cleared. */
  lemma WatchThenUnwatchRestores(w: WatchState, address: int)
    requires Consistent(w) && 0 <= address < Bytes.WORD_LIMIT && address !in w.entries
    ensures UnwatchSpec(WatchSpec(w, address), address) == if w.entries == map[] then NO_WATCH else w
  {
    WatchKeepsConsistent(w, address);
    var w1 := WatchSpec(w, address);
    UnwatchKeepsConsistent(w1, address);
    AllNamesHas(w1.entries.Keys, address);
    assert w1.entries - {address} == w.entries;
    if w.entries != map[] {
      assert w.entries.Keys != {};
      assert w1.entries.Keys != {address};
      AllNamesRemove(w1.entries.Keys, address);
      assert w1.entries.Keys - {address} == w.entries.Keys;
    }
  }

  /** Watching the same address twice is the same as watching it once. */
  lemma WatchIdempotent(w: WatchState, address: int)
    requires Consistent(w)
    ensures WatchSpec(WatchSpec(w, address), address) == WatchSpec(w, address)
  {
    WatchKeepsConsistent(w, address);
    var w1 := WatchSpec(w, address);
    WatchKeepsConsistent(w1, address);
  }

  /** The code as written leaves a stale entry: with two addresses watched, unwatching
      one keeps its entry although none of its conditions remain, so the state is no
      longer consistent. */
  lemma UnwatchAsWrittenLeavesEntry(w: WatchState, a: int, b: int)
    requires Consistent(w) && a in w.entries && b in w.entries && a != b
    ensures a in UnwatchAsWritten(w, a).entries
    ensures WatchName(a, 0) !in UnwatchAsWritten(w, a).checker.value.conditions
    ensures !Consistent(UnwatchAsWritten(w, a))
  {
    var keys := w.entries.Keys;
    AllNamesRemove(keys, a);
    AllNamesHas(keys, a);
    AllNamesHas(keys - {a}, a);
    AllNamesHas(keys - {a}, b);
    assert UnwatchOutcomeOf(w, a) == Unwatched;
    var w1 := UnwatchAsWritten(w, a);
    AllNamesHas(w1.entries.Keys, a);
  }

  // ---------------------------------------------------------------------------
  // Instruction stepping

  /** Description under which the instruction-step checker is registered. */
  const ISTEP_KEY: string := "stepi_check"

  /** Cycles `do_xistep` allows for one instruction. */
  const ISTEP_CYCLES: int := 10000

  /** The instruction-step checker: `stepi_check_pc_0` ... `stepi_check_pc_7`, each
      comparing a commit slot's PC with its value at the previous sync. */
  const ISTEP_CHECKER: Checker :=
    Checker(set i: nat | i < COMMIT_SLOTS :: "stepi_check_pc_" + FormatDecimal(i), None, 0)

  /** The instruction count of `do_xistep`: 1 for an empty argument, else the decimal
      value; None when it does not parse. */
  function ParseCount(arg: string): Option<int>
  {
    var t := Strip(arg);
    if t == [] then Some(1) else ParseInt(t, 10)
  }

  /** A run of `do_xistep`: the final run, the `api_step_dut` calls made and the
      warnings issued about steps that used all their cycles. */
  datatype IStepResult = IStepResult(run: Run, steps: nat, warnings: nat)

  /** One instruction step of `do_xistep`: `api_step_dut(10000)` with the default
      batch size. */
  function IStepOnce(e: Env): Run -> Run
  {
    r => StepDutSpec(e, r, ISTEP_CYCLES, DEFAULT_BATCH_CYCLE)
  }

  /** An instruction step moves the clock forward by at most 10000 cycles. */
  lemma IStepOnceBounded(e: Env)
    ensures forall r: Run :: r.clock.clk <= IStepOnce(e)(r).clock.clk <= r.clock.clk + ISTEP_CYCLES
  {
    forall r: Run
      ensures r.clock.clk <= IStepOnce(e)(r).clock.clk <= r.clock.clk + ISTEP_CYCLES
    {
      StepDutElapsed(e, r, ISTEP_CYCLES, DEFAULT_BATCH_CYCLE);
    }
  }

  /** The loop of `do_xistep` with k instructions left, for a step function `step`:
      good trap or good loop after a step ends the loop, and a step that took all
      10000 cycles is warned about. */
  function IStepLoop(step: Run -> Run, r: Run, k: int): IStepResult
    decreases k
  {
    if k <= 0 then IStepResult(r, 0, 0)
    else
      var r1 := step(r);
      if IsHitGoodTrap(r1.stat) || IsHitGoodLoop(r1.stat) then IStepResult(r1, 1, 0)
      else
        var rest := IStepLoop(step, r1, k - 1);
        IStepResult(rest.run, rest.steps + 1,
                    rest.warnings + if r1.clock.clk - r.clock.clk == ISTEP_CYCLES then 1 else 0)
  }

  /** `do_xistep(n)` steps at most n instructions and stops early only on good trap or
      good loop, and only steps that did not end the loop can be warned about; with
      steps that move the clock by at most 10000 cycles, so does the whole run per
      step. */
  lemma {:induction false} IStepBounds(step: Run -> Run, r: Run, k: int)
    requires forall r: Run :: r.clock.clk <= step(r).clock.clk <= r.clock.clk + ISTEP_CYCLES
    ensures var res := IStepLoop(step, r, k);
            res.steps <= (if k < 0 then 0 else k)
            && res.warnings <= res.steps
            && (res.steps < k ==> IsHitGoodTrap(res.run.stat) || IsHitGoodLoop(res.run.stat))
            && r.clock.clk <= res.run.clock.clk <= r.clock.clk + ISTEP_CYCLES * res.steps
    decreases k
  {
    if k > 0 {
      var r1 := step(r);
      if !(IsHitGoodTrap(r1.stat) || IsHitGoodLoop(r1.stat)) {
        IStepBounds(step, r1, k - 1);
      }
    }
  }

  /** `step` is the instruction step of `e`; stated pointwise, so that the body of
      the step is only brought in where a run is stepped with `IStepOnce(e)` itself. */
  ghost predicate IsIStep(e: Env, step: Run -> Run)
  {
    forall r: Run {:trigger IStepOnce(e)(r)} :: step(r) == IStepOnce(e)(r)
  }

  /** Without good trap or good loop at the end, every requested instruction was
      stepped. */
  lemma IStepRunsAll(e: Env, r: Run, k: int)
    requires k >= 0
    requires !IsHitGoodTrap(IStepLoop(IStepOnce(e), r, k).run.stat)
    requires !IsHitGoodLoop(IStepLoop(IStepOnce(e), r, k).run.stat)
    ensures IStepLoop(IStepOnce(e), r, k).steps == k
    ensures r.clock.clk <= IStepLoop(IStepOnce(e), r, k).run.clock.clk <= r.clock.clk + ISTEP_CYCLES * k
  {
    IStepOnceBounded(e);
    IStepBounds(IStepOnce(e), r, k);
  }

  /** The loop `for i in range(8): checker.AddCondition(...)` of
      `do_xwatch_commit_pc`: the names of the eight commit slots for `address`. */
  method WatchNames(address: int) returns (names: set<string>)
    ensures names == NamesOf(address)
  {
    names := {};
    for i := 0 to COMMIT_SLOTS
      invariant names == NamesUpTo(address, i)
    {
      names := names + {WatchName(address, i)};
    }
    NamesUpToIs(address, COMMIT_SLOTS);
  }

  /** The loop `for i in range(8): checker.RemoveCondition(...)` of
      `do_xunwatch_commit_pc`. */
  method RemoveWatchNames(conditions: set<string>, address: int) returns (r: set<string>)
    ensures r == conditions - NamesOf(address)
  {
    r := conditions;
    for i := 0 to COMMIT_SLOTS
      invariant r == conditions - NamesUpTo(address, i)
    {
      r := r - {WatchName(address, i)};
    }
    NamesUpToIs(address, COMMIT_SLOTS);
  }

  // ---------------------------------------------------------------------------

  /** The difftest part of the debugger. */
  class DiffTestCmd {
    const dut: DutCmd
    /** `condition_watch_commit_pc["checker"]`. */
    var watchChecker: Option<Checker>
    /** The per-address entries of `condition_watch_commit_pc`. */
    var watchEntries: map<int, seq<Bytes.byte>>
    /** `condition_instrunct_istep["checker"]` (None while the dict is empty). */
    var istepChecker: Option<Checker>

    /** `CmdDiffTest.__init__`: both dicts start empty. */
    constructor (dut: DutCmd)
      ensures this.dut == dut && State() == NO_WATCH && istepChecker == None
    {
      this.dut := dut;
      watchChecker := None;
      watchEntries := map[];
      istepChecker := None;
    }

    function State(): WatchState
      reads this
    {
      WatchState(watchChecker, watchEntries)
    }

    /** `do_xwatch_commit_pc(arg)`: returns whether an address was added. After a
        successful watch the checker is registered under "watch_commit_pc" exactly
        once. */
    method WatchCommitPc(arg: string) returns (ok: bool)
      modifies this`watchChecker, this`watchEntries, dut.sim`risCbs
      ensures Strip(arg) == "update" ==>
                !ok && State() == UpdateSpec(old(State())) && dut.sim.risCbs == old(dut.sim.risCbs)
      ensures Strip(arg) != "update" && ParseInt0(arg).None? ==>
                !ok && State() == old(State()) && dut.sim.risCbs == old(dut.sim.risCbs)
      ensures Strip(arg) != "update" && ParseInt0(arg).Some? ==>
                var address := ParseInt0(arg).value;
                State() == WatchSpec(old(State()), address)
                && ok == (WatchOutcomeOf(old(State()), address) == Watched)
                && (ok ==> dut.sim.risCbs == Without(old(dut.sim.risCbs), WATCH_KEY) + [WATCH_KEY]
                           && Count(dut.sim.risCbs, WATCH_KEY) == 1)
                && (!ok ==> dut.sim.risCbs == old(dut.sim.risCbs))
    {
      if Strip(arg) == "update" {
        if watchChecker.Some? {
          watchChecker := Some(watchChecker.value.(fired := 0));
        }
        return false;
      }
      var parsed := ParseInt0(arg);
      if parsed.None? {
        return false;
      }
      var address := parsed.value;
      ghost var w := State();
      if watchChecker.None? {
        watchChecker := Some(EMPTY_CHECKER);
      }
      var checker := watchChecker.value;
      if WatchName(address, 0) in checker.conditions {
        assert WatchOutcomeOf(w, address) == AlreadyWatched;
        return false;
      }
      if address < 0 || address >= Bytes.WORD_LIMIT {
        assert WatchOutcomeOf(w, address) == NotAWord;
        return false;
      }
      assert WatchOutcomeOf(w, address) == Watched;
      var names := WatchNames(address);
      watchChecker := Some(checker.(conditions := checker.conditions + names, maxCbs := Some(1)));
      watchEntries := watchEntries[address := Bytes.WordBytes(address)];
      dut.sim.RemoveStepRisCbByDesc(WATCH_KEY);
      dut.sim.StepRis(WATCH_KEY);
      ReRegisterOnce(old(dut.sim.risCbs), WATCH_KEY);
      return true;
    }

    /** `do_xunwatch_commit_pc(arg)` with the entry deleted: returns whether the address
        was watched. When the last address goes, the checker is unregistered and the
        dict cleared. */
    method UnwatchCommitPc(arg: string) returns (ok: bool)
      modifies this`watchChecker, this`watchEntries, dut.sim`risCbs
      ensures ParseInt0(arg).None? ==>
                !ok && State() == old(State()) && dut.sim.risCbs == old(dut.sim.risCbs)
      ensures ParseInt0(arg).Some? ==>
                var address := ParseInt0(arg).value;
                var outcome := UnwatchOutcomeOf(old(State()), address);
                State() == UnwatchSpec(old(State()), address)
                && ok == (outcome in {Unwatched, UnwatchedLast})
                && dut.sim.risCbs == (if outcome == UnwatchedLast then Without(old(dut.sim.risCbs), WATCH_KEY)
                                      else old(dut.sim.risCbs))
                && (outcome == UnwatchedLast ==> WATCH_KEY !in dut.sim.risCbs)
    {
      var parsed := ParseInt0(arg);
      if parsed.None? {
        return false;
      }
      var address := parsed.value;
      ghost var w := State();
      if watchChecker.None? {
        assert UnwatchOutcomeOf(w, address) == NoChecker;
        return false;
      }
      var checker := watchChecker.value;
      if WatchName(address, 0) !in checker.conditions {
        assert UnwatchOutcomeOf(w, address) == NotWatched;
        return false;
      }
      var conditions := RemoveWatchNames(checker.conditions, address);
      if address in watchEntries {
        watchEntries := watchEntries - {address};
      }
      watchChecker := Some(checker.(conditions := conditions));
      if |conditions| < 1 {
        assert conditions == {};
        assert UnwatchOutcomeOf(w, address) == UnwatchedLast;
        dut.sim.RemoveStepRisCbByDesc(WATCH_KEY);
        watchChecker := None;
        watchEntries := map[];
      } else {
        assert conditions != {};
        assert UnwatchOutcomeOf(w, address) == Unwatched;
        assert watchEntries == w.entries - {address};
      }
      return true;
    }

    /** One instruction step: `api_step_dut(10000)`, returning the cycles stepped. */
    method StepInstruction(ghost step: Run -> Run) returns (v: int)
      requires IsIStep(dut.EnvOf(), step)
      modifies dut.sim`clk, dut.sim`disabled, dut.sim`stat, dut`interrupt, dut`hookCalls
      ensures dut.RunOf() == step(old(dut.RunOf()))
      ensures v == dut.sim.clk - old(dut.sim.clk)
    {
      ghost var before := dut.RunOf();
      var r := dut.StepDut(ISTEP_CYCLES, DEFAULT_BATCH_CYCLE);
      v := r.value;
      assert dut.RunOf() == IStepOnce(dut.EnvOf())(before);
    }

    /** The loop of `do_xistep` for n instructions: returns the `api_step_dut` calls
        made and the warnings issued. */
    method IStepRun(ghost step: Run -> Run, instrCount: int) returns (steps: nat, warnings: nat)
      requires IsIStep(dut.EnvOf(), step)
      modifies dut.sim`clk, dut.sim`disabled, dut.sim`stat, dut`interrupt, dut`hookCalls
      ensures var res := IStepLoop(step, old(dut.RunOf()), instrCount);
              dut.RunOf() == res.run && steps == res.steps && warnings == res.warnings
    {
      ghost var target := IStepLoop(step, dut.RunOf(), instrCount);
      ghost var left := instrCount;
      steps, warnings := 0, 0;
      var i := 0;
      while i < instrCount
        invariant 0 <= i && (instrCount >= 0 ==> i <= instrCount) && left == instrCount - i
        invariant IStepLoop(step, dut.RunOf(), left).run == target.run
        invariant steps + IStepLoop(step, dut.RunOf(), left).steps == target.steps
        invariant warnings + IStepLoop(step, dut.RunOf(), left).warnings == target.warnings
        decreases instrCount - i
      {
        ghost var before := dut.RunOf();
        var v := StepInstruction(step);
        steps := steps + 1;
        if IsHitGoodTrap(dut.sim.stat) {
          break;
        } else if IsHitGoodLoop(dut.sim.stat) {
          break;
        }
        if v == ISTEP_CYCLES {
          warnings := warnings + 1;
        }
        i := i + 1;
        left := left - 1;
      }
    }

    /** `do_xistep(arg)`: the instruction-step checker is created on first use,
        registered under "stepi_check" for the loop and unregistered at the end. */
    method XIStep(arg: string) returns (steps: nat, warnings: nat)
      modifies dut.sim`clk, dut.sim`disabled, dut.sim`stat, dut`interrupt, dut`hookCalls
      modifies dut.sim`risCbs, this`istepChecker
      ensures ParseCount(arg).None? ==>
                steps == 0 && warnings == 0 && dut.RunOf() == old(dut.RunOf())
                && dut.sim.risCbs == old(dut.sim.risCbs) && istepChecker == old(istepChecker)
      ensures ParseCount(arg).Some? ==>
                var res := IStepLoop(IStepOnce(dut.EnvOf()), old(dut.RunOf()), ParseCount(arg).value);
                dut.RunOf() == res.run && steps == res.steps && warnings == res.warnings
                && istepChecker == (if old(istepChecker).None? then Some(ISTEP_CHECKER) else old(istepChecker))
                && dut.sim.risCbs == Without(old(dut.sim.risCbs) + [ISTEP_KEY], ISTEP_KEY)
                && ISTEP_KEY !in dut.sim.risCbs
      ensures forall k :: k != ISTEP_KEY ==> Count(dut.sim.risCbs, k) == Count(old(dut.sim.risCbs), k)
    {
      var count := ParseCount(arg);
      if count.None? {
        return 0, 0;
      }
      if istepChecker.None? {
        istepChecker := Some(ISTEP_CHECKER);
      }
      dut.sim.StepRis(ISTEP_KEY);
      steps, warnings := IStepRun(IStepOnce(dut.EnvOf()), count.value);
      dut.sim.RemoveStepRisCbByDesc(ISTEP_KEY);
      forall k | k != ISTEP_KEY
        ensures Count(dut.sim.risCbs, k) == Count(old(dut.sim.risCbs), k)
      {
        CountAppend(old(dut.sim.risCbs), [ISTEP_KEY], k);
      }
    }
  }
}
