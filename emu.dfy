// The emulation driver: the `--ram-size` parser, the checks on the cycle
// arguments, the commit budget of `--pc-commits` and the cycle schedule of `main`.

module Emu {
  import opened Wrappers
  import opened Text

  // ---------------------------------------------------------------------------
  // `parse_mem_size`.

  datatype SizeUnit = KB | MB | GB

  function Suffix(u: SizeUnit): string
  {
    match u
    case KB => "KB"
    case MB => "MB"
    case GB => "GB"
  }

  function Factor(u: SizeUnit): nat
  {
    match u
    case KB => 1024
    case MB => 1024 * 1024
    case GB => 1024 * 1024 * 1024
  }

  /** The unit an upper-cased size string ends in; "GB" is tried first, then "MB", then "KB". */
  function UnitOf(t: string): (r: Option<SizeUnit>)
    ensures r.Some? ==> EndsWith(t, Suffix(r.value))
    ensures r.None? ==> forall u: SizeUnit :: !EndsWith(t, Suffix(u))
  {
    if EndsWith(t, "GB") then Some(GB)
    else if EndsWith(t, "MB") then Some(MB)
    else if EndsWith(t, "KB") then Some(KB)
    else None
  }

  /** The size an upper-cased, stripped string denotes: a decimal integer followed by
      a unit. */
  function SizeOf(t: string): (r: Result<int>)
    ensures r.Ok? ==> r.value % 1024 == 0
    ensures UnitOf(t).None? ==> r.Err?
  {
    match UnitOf(t)
    case None => Err("Invalid memory size format: " + t)
    case Some(u) =>
      match ParseInt(t[..|t| - 2], 10)
      case None => Err("invalid literal for int() with base 10")
      case Some(n) => MultipleOfKB(n, u); Ok(n * Factor(u))
  }

  lemma MultipleOfKB(n: int, u: SizeUnit)
    ensures (n * Factor(u)) % 1024 == 0
  {
    var q := match u case KB => 1 case MB => 1024 case GB => 1024 * 1024;
    assert n * Factor(u) == 1024 * (n * q) by {
      match u
      case KB =>
      case MB => assert n * (1024 * 1024) == 1024 * (n * 1024);
      case GB => assert n * (1024 * 1024 * 1024) == 1024 * (n * (1024 * 1024));
    }
  }

  /** `parse_mem_size(size_str)`: `Err` stands for the ValueError raised. */
  function ParseMemSize(s: string): Result<int>
  {
    SizeOf(Upper(Strip(s)))
  }

  /** `int("%d" % n)` gives n back. */
  lemma ParseIntDecRoundTrip(n: nat)
    ensures ParseInt(FormatDecimal(n), 10) == Some(n)
  {
    var s := Digits(n, 10);
    DigitsAreDigits(n, 10);
    DigitsNoSpace(n, 10);
    StripNoSpace(s);
    DigitCharIsPlain(s[0]);
    ParseDigitsRoundTrip(n, 10);
  }

  /** Digits and upper-case letters are left alone by `upper()`. */
  lemma UpperOfSize(d: string, suffix: string)
    requires forall c <- d :: c in DIGIT_CHARS[..10]
    requires forall c <- suffix :: 'A' <= c <= 'Z' || 'a' <= c <= 'z'
    ensures Upper(d + suffix) == d + Upper(suffix)
  {
    var s := d + suffix;
    forall k | 0 <= k < |s|
      ensures Upper(s)[k] == (d + Upper(suffix))[k]
    {
      if k < |d| {
        assert s[k] == d[k] && d[k] in DIGIT_CHARS[..10];
      } else {
        assert s[k] == suffix[k - |d|];
      }
    }
  }

  lemma DecimalDigits(n: nat)
    ensures forall c <- FormatDecimal(n) :: c in DIGIT_CHARS[..10]
    decreases n
  {
    if n >= 10 {
      DecimalDigits(n / 10);
    }
  }

  /** The unit as typed, in either case: letters, and upper-cased back to the unit. */
  function Typed(u: SizeUnit, lowerCase: bool): string
  {
    if lowerCase then Lower(Suffix(u)) else Suffix(u)
  }

  lemma TypedUnit(u: SizeUnit, lowerCase: bool)
    ensures forall c <- Typed(u, lowerCase) :: 'A' <= c <= 'Z' || 'a' <= c <= 'z'
    ensures Upper(Typed(u, lowerCase)) == Suffix(u)
  {
    var t := Typed(u, lowerCase);
    assert |t| == 2;
    assert t == [t[0], t[1]];
    assert Upper(t) == [Upper(t)[0], Upper(t)[1]];
  }

  /** A printed size, stripped and upper-cased, is the digits followed by the unit. */
  lemma NormalizedSize(n: nat, u: SizeUnit, lowerCase: bool)
    ensures Upper(Strip(FormatDecimal(n) + Typed(u, lowerCase))) == FormatDecimal(n) + Suffix(u)
  {
    var d := FormatDecimal(n);
    var suffix := Typed(u, lowerCase);
    var s := d + suffix;
    DecimalDigits(n);
    TypedUnit(u, lowerCase);
    assert NoSpace(s) by {
      forall k | 0 <= k < |s|
        ensures !IsSpace(s[k])
      {
        if k < |d| {
          assert d[k] in DIGIT_CHARS[..10];
        } else {
          assert s[k] in suffix;
        }
      }
    }
    StripNoSpace(s);
    UpperOfSize(d, suffix);
  }

  lemma SizeOfPrinted(n: nat, u: SizeUnit)
    ensures SizeOf(FormatDecimal(n) + Suffix(u)) == Ok(n * Factor(u))
  {
    var d := FormatDecimal(n);
    var t := d + Suffix(u);
    assert t[..|t| - 2] == d;
    assert UnitOf(t) == Some(u);
    ParseIntDecRoundTrip(n);
  }

  /** A printed size with a unit, in either case, parses back to its number of bytes. */
  lemma ParseMemSizeRoundTrip(n: nat, u: SizeUnit, lowerCase: bool)
    ensures ParseMemSize(FormatDecimal(n) + Typed(u, lowerCase)) == Ok(n * Factor(u))
  {
    NormalizedSize(n, u, lowerCase);
    SizeOfPrinted(n, u);
  }

  lemma NormalizedBare(n: nat)
    ensures Upper(Strip(FormatDecimal(n))) == FormatDecimal(n)
    ensures FormatDecimal(n)[|FormatDecimal(n)| - 1] in DIGIT_CHARS[..10]
  {
    var d := FormatDecimal(n);
    DecimalDigits(n);
    assert NoSpace(d) by {
      forall k | 0 <= k < |d|
        ensures !IsSpace(d[k])
      {
        assert d[k] in DIGIT_CHARS[..10];
      }
    }
    StripNoSpace(d);
    UpperOfSize(d, []);
    assert d + [] == d;
  }

  /** A bare number has no unit and is refused. */
  lemma BareNumberRefused(n: nat)
    ensures ParseMemSize(FormatDecimal(n)).Err?
  {
    var d := FormatDecimal(n);
    NormalizedBare(n);
    NoUnit(d);
  }

  /** Every unit ends in "B". */
  lemma NoUnit(t: string)
    requires t != [] && t[|t| - 1] != 'B'
    ensures UnitOf(t).None?
  {
    forall u: SizeUnit
      ensures !EndsWith(t, Suffix(u))
    {
      if |t| >= 2 {
        assert t[|t| - 2..][1] == t[|t| - 1];
      }
    }
  }

  // ---------------------------------------------------------------------------
  // Arguments and the commit budget.

  /** The arguments `main` reads: `--max-cycles`, `--log-begin`, `--log-end`,
      `--interact-at`, `--dump-wave`, whether `--image` was given and `--pc-commits`. */
  datatype EmuArgs = EmuArgs(
    maxCycles: int, logBegin: int, logEnd: int, interactAt: int,
    dumpWave: bool, hasImage: bool, pcCommits: int)

  const NO_CYCLE_LIMIT: int := 0xFFFF_FFFF_FFFF_FFFF

  /** The three assertions at the end of `create_xspdb`, checked in order. */
  function CheckArgs(a: EmuArgs): (r: Result<EmuArgs>)
    ensures r.Ok? <==> 0 <= a.logBegin <= a.logEnd <= a.maxCycles
    ensures r.Ok? ==> r.value == a
  {
    if !(a.logBegin <= a.logEnd) then Err("arg --log-begin must be less than log_end")
    else if !(a.logBegin >= 0) then Err("arg --log-begin must be greater than 0")
    else if !(a.logEnd <= a.maxCycles) then Err("arg --log-end must be less than max_cycles")
    else Ok(a)
  }

  /** `run_commits`: a negative count means no limit. */
  const NO_COMMIT_LIMIT: nat := 0xFF_FFFF_FFFF_FFFF

  function CommitBudget(commits: int): (r: nat)
    ensures commits != 0 ==> r > 0
    ensures r <= commits || r == NO_COMMIT_LIMIT
    ensures commits >= 0 ==> r == commits
  {
    if commits < 0 then NO_COMMIT_LIMIT else commits
  }

  // ---------------------------------------------------------------------------
  // The cycle schedule of `main`.

  datatype EventKind = WaveOn | WaveOff | MaxCycles | InteractAt

  /** The position of each kind in the list `main` sorts. */
  function Rank(k: EventKind): nat
  {
    match k
    case WaveOn => 0
    case WaveOff => 1
    case MaxCycles => 2
    case InteractAt => 3
  }

  datatype Event = Event(kind: EventKind, cycle: int)

  /** The four events, in the order `main` lists them before sorting. */
  function Events(a: EmuArgs): seq<Event>
  {
    [Event(WaveOn, a.logBegin), Event(WaveOff, a.logEnd), Event(MaxCycles, a.maxCycles), Event(InteractAt, a.interactAt)]
  }

  /** x comes before y in a stable sort by cycle of a list in rank order. */
  predicate Before(x: Event, y: Event)
  {
    x.cycle < y.cycle || (x.cycle == y.cycle && Rank(x.kind) < Rank(y.kind))
  }

  predicate StablySorted(s: seq<Event>)
  {
    forall i, j :: 0 <= i < j < |s| ==> Before(s[i], s[j])
  }

  predicate RankOrdered(s: seq<Event>)
  {
    forall i, j :: 0 <= i < j < |s| ==> Rank(s[i].kind) < Rank(s[j].kind)
  }

  predicate CycleSorted(s: seq<Event>)
  {
    forall i, j :: 0 <= i < j < |s| ==> s[i].cycle <= s[j].cycle
  }

  /** Insert e in front of the first event whose cycle is not smaller. */
  function Insert(e: Event, s: seq<Event>): (r: seq<Event>)
    ensures multiset(r) == multiset(s) + multiset{e}
    decreases |s|
  {
    if s == [] || e.cycle <= s[0].cycle then [e] + s
    else
      assert s == [s[0]] + s[1..];
      [s[0]] + Insert(e, s[1..])
  }

  /** `sorted(step_block, key=lambda x: x[1])`: a stable sort by cycle. */
  function SortEvents(s: seq<Event>): (r: seq<Event>)
    ensures multiset(r) == multiset(s)
    decreases |s|
  {
    if s == [] then []
    else
      assert s == [s[0]] + s[1..];
      Insert(s[0], SortEvents(s[1..]))
  }

  lemma {:induction false} InsertSorted(e: Event, s: seq<Event>)
    requires StablySorted(s)
    requires forall x <- s :: Rank(e.kind) < Rank(x.kind)
    ensures StablySorted(Insert(e, s))
    decreases |s|
  {
    var r := Insert(e, s);
    if s == [] || e.cycle <= s[0].cycle {
      forall j | 0 < j < |r|
        ensures Before(r[0], r[j])
      {
        assert r[j] == s[j - 1] && s[j - 1] in s;
        if j > 1 {
          assert Before(s[0], s[j - 1]);
        }
      }
    } else {
      var t := Insert(e, s[1..]);
      assert StablySorted(s[1..]) by {
        forall i, j | 0 <= i < j < |s[1..]|
          ensures Before(s[1..][i], s[1..][j])
        {
          assert s[1..][i] == s[i + 1] && s[1..][j] == s[j + 1];
        }
      }
      InsertSorted(e, s[1..]);
      forall j | 0 <= j < |t|
        ensures Before(s[0], t[j])
      {
        assert t[j] in multiset(t);
        if t[j] != e {
          assert t[j] in multiset(s[1..]);
          var k :| 0 <= k < |s[1..]| && s[1..][k] == t[j];
          assert Before(s[0], s[k + 1]);
        }
      }
    }
  }

  /** The sort is stable: events with the same cycle keep their listed order. */
  lemma {:induction false} SortEventsStable(s: seq<Event>)
    requires RankOrdered(s)
    ensures StablySorted(SortEvents(s))
    ensures CycleSorted(SortEvents(s))
    decreases |s|
  {
    if s != [] {
      var t := SortEvents(s[1..]);
      assert RankOrdered(s[1..]) by {
        forall i, j | 0 <= i < j < |s[1..]|
          ensures Rank(s[1..][i].kind) < Rank(s[1..][j].kind)
        {
          assert s[1..][i] == s[i + 1] && s[1..][j] == s[j + 1];
        }
      }
      SortEventsStable(s[1..]);
      forall x <- t
        ensures Rank(s[0].kind) < Rank(x.kind)
      {
        assert x in multiset(s[1..]);
        var k :| 0 <= k < |s[1..]| && s[1..][k] == x;
        assert s[1..][k] == s[k + 1];
      }
      InsertSorted(s[0], t);
    }
    var r := SortEvents(s);
    forall i, j | 0 <= i < j < |r|
      ensures r[i].cycle <= r[j].cycle
    {
      assert Before(r[i], r[j]);
    }
  }

  /** What `main` does, in order. */
  datatype Effect =
    | Stepped(delta: nat)                      // `xspdb.dut.Step(delta)`
    | Reached(kind: EventKind, cycle: int)     // "Reach {k}: at {v} cycles"
    | WaveformOn                               // `api_waveform_on`
    | WaveformOff                              // `api_waveform_off`
    | Interact                                 // `set_trace`
    | RunCommits(budget: nat)                  // `run_commits`

  /** The actions taken once event e is reached. */
  function Arrival(e: Event, pre: int, dumpWave: bool): (r: seq<Effect>)
    requires pre <= e.cycle
    ensures |r| >= 2 && r[0] == Stepped(e.cycle - pre) && r[1] == Reached(e.kind, e.cycle)
    ensures forall k :: 2 <= k < |r| ==> !r[k].Stepped? && !r[k].Reached?
  {
    [Stepped(e.cycle - pre), Reached(e.kind, e.cycle)]
    + match e.kind
      case WaveOn => if dumpWave then [WaveformOn] else []
      case WaveOff => if dumpWave then [WaveformOff] else []
      case MaxCycles => []
      case InteractAt => [Interact]
  }

  /** The loop over the sorted events, from `pre_cycle_index == pre`: an event below
      the index is skipped, any other is stepped to. */
  function Schedule(events: seq<Event>, pre: int, dumpWave: bool): seq<Effect>
    decreases |events|
  {
    if events == [] then []
    else if events[0].cycle < pre then Schedule(events[1..], pre, dumpWave)
    else Arrival(events[0], pre, dumpWave) + Schedule(events[1..], events[0].cycle, dumpWave)
  }

  /** `pre_cycle_index` once the loop is over. */
  function FinalIndex(events: seq<Event>, pre: int): int
    decreases |events|
  {
    if events == [] then pre
    else if events[0].cycle < pre then FinalIndex(events[1..], pre)
    else FinalIndex(events[1..], events[0].cycle)
  }

  /** `main` after the arguments are checked: no image means interactive mode at
      once, a commit count means `run_commits`, otherwise the cycle schedule. */
  function MainTrace(a: EmuArgs): seq<Effect>
  {
    if !a.hasImage then [Interact]
    else if a.pcCommits != 0 then [RunCommits(CommitBudget(a.pcCommits))]
    else PlainRun(a.interactAt, a.dumpWave, SortEvents(Events(a)))
  }

  /** A run with an image and no commit count, over the sorted events: interactive mode
      first when `interact_at` is 0, then the loop from index 0. */
  function PlainRun(interactAt: int, dumpWave: bool, stepBlock: seq<Event>): seq<Effect>
  {
    (if interactAt == 0 then [Interact] else []) + Schedule(stepBlock, 0, dumpWave)
  }

  function TotalSteps(t: seq<Effect>): int
    decreases |t|
  {
    if t == [] then 0 else (if t[0].Stepped? then t[0].delta else 0) + TotalSteps(t[1..])
  }

  lemma {:induction false} TotalStepsAppend(a: seq<Effect>, b: seq<Effect>)
    ensures TotalSteps(a + b) == TotalSteps(a) + TotalSteps(b)
    decreases |a|
  {
    if a == [] {
      assert a + b == b;
    } else {
      assert (a + b)[1..] == a[1..] + b;
      TotalStepsAppend(a[1..], b);
    }
  }

  lemma ArrivalSteps(e: Event, pre: int, dumpWave: bool)
    requires pre <= e.cycle
    ensures TotalSteps(Arrival(e, pre, dumpWave)) == e.cycle - pre
  {
    var r := Arrival(e, pre, dumpWave);
    assert r == [r[0]] + ([r[1]] + r[2..]);
    TotalStepsAppend([r[0]], [r[1]] + r[2..]);
    TotalStepsAppend([r[1]], r[2..]);
    TotalStepsNone(r[2..]);
  }

  lemma {:induction false} TotalStepsNone(t: seq<Effect>)
    requires forall k :: 0 <= k < |t| ==> !t[k].Stepped?
    ensures TotalSteps(t) == 0
    decreases |t|
  {
    if t != [] {
      TotalStepsNone(t[1..]);
    }
  }

  /** The deltas telescope: the cycles stepped add up to the last index reached. */
  lemma {:induction false} ScheduleSteps(events: seq<Event>, pre: int, dumpWave: bool)
    ensures pre <= FinalIndex(events, pre)
    ensures TotalSteps(Schedule(events, pre, dumpWave)) == FinalIndex(events, pre) - pre
    decreases |events|
  {
    if events != [] {
      ScheduleSteps(events[1..], if events[0].cycle < pre then pre else events[0].cycle, dumpWave);
      if events[0].cycle >= pre {
        TotalStepsAppend(Arrival(events[0], pre, dumpWave), Schedule(events[1..], events[0].cycle, dumpWave));
        ArrivalSteps(events[0], pre, dumpWave);
      }
    }
  }

  /** The last index reached is the largest of the start and the cycles listed. */
  lemma {:induction false} FinalIndexIsMax(events: seq<Event>, pre: int)
    ensures pre <= FinalIndex(events, pre)
    ensures forall e <- events :: e.cycle <= FinalIndex(events, pre)
    ensures FinalIndex(events, pre) == pre || exists e <- events :: e.cycle == FinalIndex(events, pre)
    decreases |events|
  {
    if events != [] {
      var pre' := if events[0].cycle < pre then pre else events[0].cycle;
      FinalIndexIsMax(events[1..], pre');
      assert events == [events[0]] + events[1..];
    }
  }

  /** Every `Reached(k, c)` in the schedule comes after exactly c cycles have been
      stepped: the simulator is at cycle c when event k is announced. */
  lemma {:induction false} ReachedAtItsCycle(events: seq<Event>, pre: int, dumpWave: bool, p: nat)
    requires p < |Schedule(events, pre, dumpWave)| && Schedule(events, pre, dumpWave)[p].Reached?
    ensures pre + TotalSteps(Schedule(events, pre, dumpWave)[..p]) == Schedule(events, pre, dumpWave)[p].cycle
    decreases |events|
  {
    var t := Schedule(events, pre, dumpWave);
    if events[0].cycle < pre {
      ReachedAtItsCycle(events[1..], pre, dumpWave, p);
    } else {
      var head := Arrival(events[0], pre, dumpWave);
      var rest := Schedule(events[1..], events[0].cycle, dumpWave);
      assert t == head + rest;
      if p < |head| {
        assert p == 1;
        assert t[..1] == [Stepped(events[0].cycle - pre)];
        assert TotalSteps(t[..1]) == events[0].cycle - pre;
      } else {
        var q := p - |head|;
        assert t[p] == rest[q];
        ReachedAtItsCycle(events[1..], events[0].cycle, dumpWave, q);
        assert t[..p] == head + rest[..q];
        TotalStepsAppend(head, rest[..q]);
        ArrivalSteps(events[0], pre, dumpWave);
      }
    }
  }

  /** The events announced, in order. */
  function Announced(t: seq<Effect>): seq<Event>
    decreases |t|
  {
    if t == [] then []
    else if t[0].Reached? then [Event(t[0].kind, t[0].cycle)] + Announced(t[1..])
    else Announced(t[1..])
  }

  function AtLeast(events: seq<Event>, pre: int): seq<Event>
    decreases |events|
  {
    if events == [] then []
    else if events[0].cycle < pre then AtLeast(events[1..], pre)
    else [events[0]] + AtLeast(events[1..], pre)
  }

  lemma {:induction false} AnnouncedAppend(a: seq<Effect>, b: seq<Effect>)
    ensures Announced(a + b) == Announced(a) + Announced(b)
    decreases |a|
  {
    if a == [] {
      assert a + b == b;
    } else {
      assert (a + b)[1..] == a[1..] + b;
      AnnouncedAppend(a[1..], b);
    }
  }

  lemma ArrivalAnnounces(e: Event, pre: int, dumpWave: bool)
    requires pre <= e.cycle
    ensures Announced(Arrival(e, pre, dumpWave)) == [e]
  {
    var r := Arrival(e, pre, dumpWave);
    assert r == [r[0]] + ([r[1]] + r[2..]);
    AnnouncedAppend([r[0]], [r[1]] + r[2..]);
    AnnouncedAppend([r[1]], r[2..]);
    AnnouncedNone(r[2..]);
  }

  lemma {:induction false} AnnouncedNone(t: seq<Effect>)
    requires forall k :: 0 <= k < |t| ==> !t[k].Reached?
    ensures Announced(t) == []
    decreases |t|
  {
    if t != [] {
      AnnouncedNone(t[1..]);
    }
  }

  lemma {:induction false} AtLeastAll(events: seq<Event>, pre: int)
    requires forall e <- events :: pre <= e.cycle
    ensures AtLeast(events, pre) == events
    decreases |events|
  {
    if events != [] {
      assert forall e <- events[1..] :: e in events;
      AtLeastAll(events[1..], pre);
      assert [events[0]] + events[1..] == events;
    }
  }

  /** On cycle-sorted events an event is skipped exactly when it lies below the
      starting index: every other event is announced, in order. */
  lemma {:induction false} ScheduleAnnounces(events: seq<Event>, pre: int, dumpWave: bool)
    requires CycleSorted(events)
    ensures Announced(Schedule(events, pre, dumpWave)) == AtLeast(events, pre)
    decreases |events|
  {
    if events != [] {
      assert CycleSorted(events[1..]) by {
        forall i, j | 0 <= i < j < |events[1..]|
          ensures events[1..][i].cycle <= events[1..][j].cycle
        {
          assert events[1..][i] == events[i + 1] && events[1..][j] == events[j + 1];
        }
      }
      if events[0].cycle < pre {
        ScheduleAnnounces(events[1..], pre, dumpWave);
      } else {
        var c := events[0].cycle;
        ScheduleAnnounces(events[1..], c, dumpWave);
        AnnouncedAppend(Arrival(events[0], pre, dumpWave), Schedule(events[1..], c, dumpWave));
        ArrivalAnnounces(events[0], pre, dumpWave);
        forall e <- events[1..]
          ensures pre <= e.cycle && c <= e.cycle
        {
          var k :| 0 <= k < |events[1..]| && events[1..][k] == e;
          assert events[1..][k] == events[k + 1];
        }
        AtLeastAll(events[1..], c);
        AtLeastAll(events[1..], pre);
      }
    }
  }

  /** On any cycle-sorted arrangement of the four events of accepted arguments, the
      loop announces wave_on, wave_off and max_cycles, announces interact_at exactly
      when it is not negative, and ends at max(max_cycles, interact_at). */
  lemma {:induction false} AcceptedSchedule(a: EmuArgs, events: seq<Event>)
    requires CheckArgs(a).Ok?
    requires multiset(events) == multiset(Events(a)) && CycleSorted(events)
    ensures Announced(Schedule(events, 0, a.dumpWave)) == AtLeast(events, 0)
    ensures forall k: EventKind :: k != InteractAt ==> Event(k, Cycle(a, k)) in Announced(Schedule(events, 0, a.dumpWave))
    ensures Event(InteractAt, a.interactAt) in Announced(Schedule(events, 0, a.dumpWave)) <==> a.interactAt >= 0
    ensures FinalIndex(events, 0) == if a.interactAt > a.maxCycles then a.interactAt else a.maxCycles
  {
    var listed := Events(a);
    ScheduleAnnounces(events, 0, a.dumpWave);
    SameMembers(events, listed);
    AtLeastMembers(events, 0);
    forall k: EventKind | k != InteractAt
      ensures Event(k, Cycle(a, k)) in AtLeast(events, 0)
    {
      assert Event(k, Cycle(a, k)) in listed;
    }
    assert listed[3] == Event(InteractAt, a.interactAt);
    AcceptedFinalIndex(a, events);
  }

  /** Two arrangements of the same events have the same members. */
  lemma SameMembers(events: seq<Event>, listed: seq<Event>)
    requires multiset(events) == multiset(listed)
    ensures forall e :: e in events <==> e in listed
  {
    forall e | e in listed
      ensures e in events
    {
      assert e in multiset(listed);
    }
    forall e | e in events
      ensures e in listed
    {
      assert e in multiset(events);
    }
  }

  /** Any arrangement of the events of accepted arguments ends the loop at
      max(max_cycles, interact_at). */
  lemma AcceptedFinalIndex(a: EmuArgs, events: seq<Event>)
    requires CheckArgs(a).Ok?
    requires multiset(events) == multiset(Events(a))
    ensures FinalIndex(events, 0) == if a.interactAt > a.maxCycles then a.interactAt else a.maxCycles
  {
    var listed := Events(a);
    SameMembers(events, listed);
    FinalIndexIsMax(events, 0);
    assert listed[2] in events && listed[3] in events;
  }

  /** The four events are listed in rank order. */
  lemma EventsRankOrdered(a: EmuArgs)
    ensures RankOrdered(Events(a))
  {
    var s := Events(a);
    forall i, j | 0 <= i < j < |s|
      ensures Rank(s[i].kind) < Rank(s[j].kind)
    {
      assert Rank(s[i].kind) == i && Rank(s[j].kind) == j;
    }
  }

  /** A plain run steps up to the last index its loop reaches. */
  lemma PlainRunSteps(interactAt: int, dumpWave: bool, stepBlock: seq<Event>)
    ensures TotalSteps(PlainRun(interactAt, dumpWave, stepBlock)) == FinalIndex(stepBlock, 0)
  {
    var trace := Schedule(stepBlock, 0, dumpWave);
    ScheduleSteps(stepBlock, 0, dumpWave);
    var start: seq<Effect> := if interactAt == 0 then [Interact] else [];
    TotalStepsAppend(start, trace);
    assert TotalSteps(start) == 0;
  }

  /** The loop over the sorted events of accepted arguments ends at
      max(max_cycles, interact_at). */
  lemma SortedEventsEnd(a: EmuArgs)
    requires CheckArgs(a).Ok?
    ensures FinalIndex(SortEvents(Events(a)), 0) == if a.interactAt > a.maxCycles then a.interactAt else a.maxCycles
  {
    EventsRankOrdered(a);
    SortEventsStable(Events(a));
    AcceptedSchedule(a, SortEvents(Events(a)));
  }

  /** With accepted arguments, a plain run with an image steps
      max(max_cycles, interact_at) cycles in all. */
  lemma ScheduleOfAcceptedArgs(a: EmuArgs)
    requires CheckArgs(a).Ok? && a.hasImage && a.pcCommits == 0
    ensures TotalSteps(MainTrace(a)) == if a.interactAt > a.maxCycles then a.interactAt else a.maxCycles
  {
    PlainRunSteps(a.interactAt, a.dumpWave, SortEvents(Events(a)));
    SortedEventsEnd(a);
  }

  /** The cycle each kind is listed with. */
  function Cycle(a: EmuArgs, k: EventKind): int
  {
    match k
    case WaveOn => a.logBegin
    case WaveOff => a.logEnd
    case MaxCycles => a.maxCycles
    case InteractAt => a.interactAt
  }

  lemma {:induction false} AtLeastMembers(events: seq<Event>, pre: int)
    ensures forall e :: e in AtLeast(events, pre) <==> e in events && pre <= e.cycle
    decreases |events|
  {
    if events != [] {
      AtLeastMembers(events[1..], pre);
      assert events == [events[0]] + events[1..];
    }
  }

  /** The `for k, v in step_block` loop of `main`, from `pre_cycle_index == 0`,
      appending what it does to `trace0`: returns the trace and the final index. */
  method StepEvents(events: seq<Event>, dumpWave: bool, trace0: seq<Effect>)
    returns (trace: seq<Effect>, preCycleIndex: int)
    ensures trace == trace0 + Schedule(events, 0, dumpWave)
    ensures preCycleIndex == TotalSteps(trace) - TotalSteps(trace0)
    ensures preCycleIndex == FinalIndex(events, 0)
  {
    preCycleIndex := 0;
    trace := trace0;
    var i := 0;
    assert events[0..] == events;
    while i < |events|
      invariant 0 <= i <= |events|
      invariant trace + Schedule(events[i..], preCycleIndex, dumpWave) == trace0 + Schedule(events, 0, dumpWave)
      invariant preCycleIndex == TotalSteps(trace) - TotalSteps(trace0)
      invariant FinalIndex(events[i..], preCycleIndex) == FinalIndex(events, 0)
    {
      var e := events[i];
      assert events[i..] == [e] + events[i + 1..];
      if e.cycle < preCycleIndex {
        i := i + 1;
        continue;
      }
      var step := Arrival(e, preCycleIndex, dumpWave);
      ArrivalSteps(e, preCycleIndex, dumpWave);
      TotalStepsAppend(trace, step);
      assert trace + (step + Schedule(events[i + 1..], e.cycle, dumpWave))
             == (trace + step) + Schedule(events[i + 1..], e.cycle, dumpWave);
      trace := trace + step;
      preCycleIndex := e.cycle;
      i := i + 1;
    }
    assert events[i..] == [];
    assert trace + [] == trace;
  }

  /** The plain run of `main`: the stable sort of the four events, interactive mode at
      once when `interact_at` is 0, then the loop. */
  method RunSchedule(a: EmuArgs) returns (trace: seq<Effect>, preCycleIndex: int)
    requires a.hasImage && a.pcCommits == 0
    ensures trace == MainTrace(a)
    ensures preCycleIndex == TotalSteps(trace)
    ensures preCycleIndex == FinalIndex(SortEvents(Events(a)), 0)
  {
    var stepBlock := SortEvents(Events(a));
    var start: seq<Effect> := [];
    if a.interactAt == 0 {
      start := [Interact];
    }
    assert TotalSteps(start) == 0;
    trace, preCycleIndex := StepEvents(stepBlock, a.dumpWave, start);
  }
}
