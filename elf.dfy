/** The symbol table of the ELF commands: the rows `readelf -s` prints are parsed into
    an address map, a name map and the sorted list of addresses, and a program
    counter is mapped to the nearest symbol strictly below it. */
module Elf {
  import opened Wrappers
  import opened Text

  /** One symbol row: value, size, type, binding, visibility, section index, name. */
  datatype Symbol = Symbol(addr: int, size: int, kind: string, bind: string, vis: string,
                           ndx: string, name: string)

  /** Section indices whose symbols are kept: the code and data sections. */
  const KEPT_NDX: set<string> := {"1", "2", ".text", ".data"}

  /** The message of the `ValueError` raised by `int(..., 16)` on a bad column. */
  const BAD_HEX: string := "invalid literal for int() with base 16"

  /** What the parser does with one row after the first line. */
  datatype LineClass = Skipped | Malformed | Kept(sym: Symbol)

  /** A row with fewer than eight columns, or whose value column reads "value" in any
      case, is skipped; a value or size column that is not hexadecimal raises; a
      symbol outside the code and data sections is skipped; any other row is kept. */
  function ClassifyLine(line: string): LineClass
  {
    ClassifyColumns(Split(line))
  }

  /** ClassifyLine on the columns of the split row. */
  function ClassifyColumns(parts: seq<string>): LineClass
  {
    if |parts| < 8 then Skipped
    else if Lower(parts[1]) == "value" then Skipped
    else
      match (ParseInt(parts[1], 16), ParseInt(parts[2], 16))
      case (Some(addr), Some(size)) =>
        if parts[6] in KEPT_NDX then Kept(Symbol(addr, size, parts[3], parts[4], parts[5], parts[6], parts[7]))
        else Skipped
      case _ => Malformed
  }

  // ---------------------------------------------------------------------------
  // Rows as `readelf -s` prints them.

  /** Text that prints as one column: non-empty, without whitespace. */
  predicate Column(f: string)
  {
    f != [] && NoSpace(f)
  }

  /** A symbol whose fields can be printed as one column each. */
  predicate Printable(s: Symbol)
  {
    s.addr >= 0 && s.size >= 0
    && Column(s.kind) && Column(s.bind) && Column(s.vis) && Column(s.ndx) && Column(s.name)
  }

  /** The columns of row `num` of the table for symbol `s`. */
  function RowColumns(num: nat, s: Symbol): seq<string>
  {
    [FormatDecimal(num) + ":", FormatHex(s.addr), FormatHex(s.size), s.kind, s.bind, s.vis, s.ndx, s.name]
  }

  /** Row `num` for symbol `s`, with single spaces between the columns. */
  function Row(num: nat, s: Symbol): string
  {
    JoinSpace(RowColumns(num, s))
  }

  lemma ValueColumnIsNotTitle(n: nat)
    ensures Lower(FormatHex(n)) != "value"
  {
    var s := FormatHex(n);
    assert s == Digits(n, 16);
    DigitsAreDigits(n, 16);
    assert s[0] in DIGIT_CHARS;
    assert Lower(s)[0] == LowerChar(s[0]);
  }

  lemma RowColumnsSplit(num: nat, s: Symbol)
    requires Printable(s)
    ensures Split(Row(num, s)) == RowColumns(num, s)
  {
    var cols := RowColumns(num, s);
    DigitsNoSpace(num, 10);
    DigitsNoSpace(s.addr, 16);
    DigitsNoSpace(s.size, 16);
    assert FormatHex(s.addr) == Digits(s.addr, 16) && FormatHex(s.size) == Digits(s.size, 16);
    var d := FormatDecimal(num) + ":";
    assert NoSpace(d) by {
      forall k | 0 <= k < |d|
        ensures !IsSpace(d[k])
      {
        if k < |FormatDecimal(num)| {
          assert d[k] == FormatDecimal(num)[k];
        }
      }
    }
    forall k | 0 <= k < |cols|
      ensures cols[k] != [] && NoSpace(cols[k])
    {
      assert k >= 3 ==> Column(cols[k]);
    }
    SplitJoinSpace(cols);
  }

  /** Parsing the row printed for a code or data symbol gives the symbol back. */
  lemma ClassifyRow(num: nat, s: Symbol)
    requires Printable(s) && s.ndx in KEPT_NDX
    ensures ClassifyLine(Row(num, s)) == Kept(s)
  {
    RowColumnsSplit(num, s);
    ClassifyRowColumns(num, s);
  }

  /** The printed columns parse back to the symbol, or to a skip outside the code and
      data sections. */
  lemma ClassifyRowColumns(num: nat, s: Symbol)
    requires s.addr >= 0 && s.size >= 0
    ensures ClassifyColumns(RowColumns(num, s)) == if s.ndx in KEPT_NDX then Kept(s) else Skipped
  {
    var cols := RowColumns(num, s);
    ValueColumnIsNotTitle(s.addr);
    ParseIntHexRoundTrip(s.addr);
    ParseIntHexRoundTrip(s.size);
    assert |cols| == 8 && cols[1] == FormatHex(s.addr) && cols[2] == FormatHex(s.size) && cols[6] == s.ndx;
    assert ParseInt(cols[1], 16) == Some(s.addr) && ParseInt(cols[2], 16) == Some(s.size);
    assert Lower(cols[1]) != "value";
  }

  /** The row printed for a symbol of any other section is skipped. */
  lemma ClassifyRowOtherSection(num: nat, s: Symbol)
    requires Printable(s) && s.ndx !in KEPT_NDX
    ensures ClassifyLine(Row(num, s)) == Skipped
  {
    RowColumnsSplit(num, s);
    ClassifyRowColumns(num, s);
  }

  // ---------------------------------------------------------------------------
  // The parse.

  /** The parse of the rows so far, extended by the class of one more row. */
  function Extend(acc: Result<seq<Symbol>>, c: LineClass): (r: Result<seq<Symbol>>)
    ensures acc.Err? || c.Malformed? <==> r.Err?
    ensures r.Ok? ==> r.value == acc.value + (if c.Kept? then [c.sym] else [])
  {
    match acc
    case Err(m) => Err(m)
    case Ok(syms) =>
      match c
      case Skipped => Ok(syms)
      case Malformed => Err(BAD_HEX)
      case Kept(s) => Ok(syms + [s])
  }

  /** The symbols kept from the rows, in order, or the error of the first malformed
      row. */
  function KeptSymbols(rows: seq<string>): Result<seq<Symbol>>
    decreases |rows|
  {
    if rows == [] then Ok([])
    else Extend(KeptSymbols(rows[..|rows| - 1]), ClassifyLine(rows[|rows| - 1]))
  }

  /** Once a row failed, every longer list of rows fails. */
  lemma {:induction false} KeptSymbolsErr(rows: seq<string>, k: nat)
    requires k <= |rows| && KeptSymbols(rows[..k]).Err?
    ensures KeptSymbols(rows).Err?
    decreases |rows| - k
  {
    if k < |rows| {
      assert rows[..k + 1][..k] == rows[..k];
      KeptSymbolsErr(rows, k + 1);
    } else {
      assert rows[..k] == rows;
    }
  }

  /** `symbol_value_dict`: each address maps to the list of its symbols. */
  function ByAddr(syms: seq<Symbol>): map<int, seq<Symbol>>
    decreases |syms|
  {
    if syms == [] then map[]
    else
      var m := ByAddr(syms[..|syms| - 1]);
      var s := syms[|syms| - 1];
      m[s.addr := (if s.addr in m then m[s.addr] else []) + [s]]
  }

  /** `symbol_name_dict`: each name maps to its symbol, a later one replacing an
      earlier one. */
  function ByName(syms: seq<Symbol>): map<string, Symbol>
    decreases |syms|
  {
    if syms == [] then map[]
    else
      var s := syms[|syms| - 1];
      ByName(syms[..|syms| - 1])[s.name := s]
  }

  /** The symbols at address `a`, in list order. */
  function AtAddr(syms: seq<Symbol>, a: int): seq<Symbol>
    decreases |syms|
  {
    if syms == [] then []
    else (if syms[0].addr == a then [syms[0]] else []) + AtAddr(syms[1..], a)
  }

  lemma {:induction false} AtAddrSnoc(syms: seq<Symbol>, s: Symbol, a: int)
    ensures AtAddr(syms + [s], a) == AtAddr(syms, a) + (if s.addr == a then [s] else [])
    decreases |syms|
  {
    if syms == [] {
      assert [s][1..] == [];
    } else {
      var h := if syms[0].addr == a then [syms[0]] else [];
      var t := if s.addr == a then [s] else [];
      assert (syms + [s])[0] == syms[0] && (syms + [s])[1..] == syms[1..] + [s];
      assert AtAddr(syms + [s], a) == h + AtAddr(syms[1..] + [s], a);
      AtAddrSnoc(syms[1..], s, a);
      assert h + (AtAddr(syms[1..], a) + t) == (h + AtAddr(syms[1..], a)) + t;
    }
  }

  /** The address map keeps every symbol at an address, in input order, and has no
      other keys. */
  lemma {:induction false} ByAddrKeepsAll(syms: seq<Symbol>, a: int)
    ensures a in ByAddr(syms) <==> AtAddr(syms, a) != []
    ensures a in ByAddr(syms) ==> ByAddr(syms)[a] == AtAddr(syms, a)
    decreases |syms|
  {
    if syms != [] {
      var init, s := syms[..|syms| - 1], syms[|syms| - 1];
      assert syms == init + [s];
      ByAddrKeepsAll(init, a);
      AtAddrSnoc(init, s, a);
    }
  }

  /** Every symbol of `AtAddr(syms, a)` lies at `a` and comes from `syms`. */
  lemma {:induction false} AtAddrMembers(syms: seq<Symbol>, a: int)
    ensures forall s <- AtAddr(syms, a) :: s.addr == a && s in syms
    decreases |syms|
  {
    if syms != [] {
      AtAddrMembers(syms[1..], a);
    }
  }

  /** The name map holds exactly the names of the list, each with the last symbol of
      that name. */
  lemma {:induction false} ByNameLastWins(syms: seq<Symbol>, n: string)
    ensures n in ByName(syms) <==> exists i :: 0 <= i < |syms| && syms[i].name == n
    ensures n in ByName(syms) ==>
              exists i :: 0 <= i < |syms| && syms[i] == ByName(syms)[n] && syms[i].name == n
                          && forall j :: i < j < |syms| ==> syms[j].name != n
    decreases |syms|
  {
    if syms != [] {
      var init, s := syms[..|syms| - 1], syms[|syms| - 1];
      ByNameLastWins(init, n);
      if s.name != n && n in ByName(syms) {
        var i :| 0 <= i < |init| && init[i] == ByName(init)[n] && init[i].name == n
                 && forall j :: i < j < |init| ==> init[j].name != n;
        assert syms[i] == init[i];
      }
      if exists i :: 0 <= i < |syms| && syms[i].name == n {
        var i :| 0 <= i < |syms| && syms[i].name == n;
        if i < |init| {
          assert init[i] == syms[i];
        }
      }
    }
  }

  /** The symbol kept for a name is also listed at its address. */
  lemma {:induction false} ByNameInByAddr(syms: seq<Symbol>, n: string)
    requires n in ByName(syms)
    ensures ByName(syms)[n].name == n
    ensures ByName(syms)[n].addr in ByAddr(syms)
    ensures ByName(syms)[n] in ByAddr(syms)[ByName(syms)[n].addr]
  {
    ByNameLastWins(syms, n);
    var i :| 0 <= i < |syms| && syms[i] == ByName(syms)[n] && syms[i].name == n
             && forall j :: i < j < |syms| ==> syms[j].name != n;
    var s := syms[i];
    InAtAddr(syms, i);
    ByAddrKeepsAll(syms, s.addr);
  }

  lemma {:induction false} InAtAddr(syms: seq<Symbol>, i: nat)
    requires i < |syms|
    ensures syms[i] in AtAddr(syms, syms[i].addr)
    decreases i
  {
    if i > 0 {
      InAtAddr(syms[1..], i - 1);
    }
  }

  // ---------------------------------------------------------------------------
  // The sorted addresses.

  predicate StrictlyIncreasing(xs: seq<int>)
  {
    forall i, j :: 0 <= i < j < |xs| ==> xs[i] < xs[j]
  }

  /** `xs` with `a` put in place; an element already present is not repeated. */
  function Insert(xs: seq<int>, a: int): seq<int>
    decreases |xs|
  {
    if xs == [] then [a]
    else if a < xs[0] then [a] + xs
    else if a == xs[0] then xs
    else [xs[0]] + Insert(xs[1..], a)
  }

  /** Inserting adds just `a`. */
  lemma {:induction false} InsertMembers(xs: seq<int>, a: int)
    ensures forall x :: x in Insert(xs, a) <==> x in xs || x == a
    decreases |xs|
  {
    if xs != [] && a > xs[0] {
      InsertMembers(xs[1..], a);
      assert xs == [xs[0]] + xs[1..];
    }
  }

  /** A head below every element of an increasing list keeps it increasing. */
  lemma ConsIncreasing(h: int, r: seq<int>)
    requires StrictlyIncreasing(r) && forall i :: 0 <= i < |r| ==> h < r[i]
    ensures StrictlyIncreasing([h] + r)
  {
    var s := [h] + r;
    forall i, j | 0 <= i < j < |s|
      ensures s[i] < s[j]
    {
      assert s[j] == r[j - 1];
      if i > 0 {
        assert s[i] == r[i - 1];
      }
    }
  }

  /** Inserting into an increasing list keeps it increasing and adds just `a`. */
  lemma {:induction false} InsertSorted(xs: seq<int>, a: int)
    requires StrictlyIncreasing(xs)
    ensures StrictlyIncreasing(Insert(xs, a))
    ensures forall x :: x in Insert(xs, a) <==> x in xs || x == a
    decreases |xs|
  {
    InsertMembers(xs, a);
    if xs != [] && a > xs[0] {
      var tail := xs[1..];
      assert StrictlyIncreasing(tail) by {
        forall i, j | 0 <= i < j < |tail|
          ensures tail[i] < tail[j]
        {
          assert tail[i] == xs[i + 1] && tail[j] == xs[j + 1];
        }
      }
      InsertSorted(tail, a);
      var r' := Insert(tail, a);
      forall i | 0 <= i < |r'|
        ensures xs[0] < r'[i]
      {
        assert r'[i] in r';
        if r'[i] != a {
          var k :| 0 <= k < |tail| && tail[k] == r'[i];
          assert xs[k + 1] == r'[i];
        }
      }
      ConsIncreasing(xs[0], r');
    } else if xs != [] && a < xs[0] {
      forall i | 0 <= i < |xs|
        ensures a < xs[i]
      {
        if i > 0 {
          assert xs[0] < xs[i];
        }
      }
      ConsIncreasing(a, xs);
    }
  }

  /** `sorted(keys)` for a list of distinct keys, by insertion. */
  function SortSeq(xs: seq<int>): seq<int>
    decreases |xs|
  {
    if xs == [] then [] else Insert(SortSeq(xs[..|xs| - 1]), xs[|xs| - 1])
  }

  /** `sorted` lists every key once, in increasing order. */
  lemma {:induction false} SortSeqSorted(xs: seq<int>)
    ensures StrictlyIncreasing(SortSeq(xs))
    ensures forall x :: x in SortSeq(xs) <==> x in xs
    decreases |xs|
  {
    if xs != [] {
      var init := xs[..|xs| - 1];
      SortSeqSorted(init);
      InsertSorted(SortSeq(init), xs[|xs| - 1]);
      assert xs == init + [xs[|xs| - 1]];
    }
  }

  /** The keys of the address map in insertion order, as a Python dict keeps them. */
  function KeyOrder(syms: seq<Symbol>): seq<int>
    decreases |syms|
  {
    if syms == [] then []
    else
      var k := KeyOrder(syms[..|syms| - 1]);
      var a := syms[|syms| - 1].addr;
      if a in k then k else k + [a]
  }

  lemma {:induction false} KeyOrderKeys(syms: seq<Symbol>)
    ensures forall x :: x in KeyOrder(syms) <==> x in ByAddr(syms)
    decreases |syms|
  {
    if syms != [] {
      KeyOrderKeys(syms[..|syms| - 1]);
    }
  }

  // ---------------------------------------------------------------------------
  // The table.

  /** The table `api_get_elf_symbol_dict` returns; the sorted list of names is not
      part of this model. */
  datatype SymbolTable = SymbolTable(byAddr: map<int, seq<Symbol>>, byName: map<string, Symbol>,
                                     sortedAddr: seq<int>)

  /** What every parsed table satisfies: the sorted addresses are the address keys in
      increasing order, each address lists at least one symbol and only symbols at that
      address, and each named symbol is listed at its address. */
  ghost predicate ValidTable(t: SymbolTable)
  {
    StrictlyIncreasing(t.sortedAddr)
    && (forall a :: a in t.sortedAddr <==> a in t.byAddr)
    && (forall a | a in t.byAddr :: t.byAddr[a] != [] && forall s <- t.byAddr[a] :: s.addr == a)
    && (forall n | n in t.byName ::
          t.byName[n].name == n && t.byName[n].addr in t.byAddr && t.byName[n] in t.byAddr[t.byName[n].addr])
  }

  /** The rows after the first line. */
  function Rows(lines: seq<string>): seq<string>
  {
    if lines == [] then [] else lines[1..]
  }

  /** The table built from a list of kept symbols. */
  function TableOf(syms: seq<Symbol>): SymbolTable
  {
    SymbolTable(ByAddr(syms), ByName(syms), SortSeq(KeyOrder(syms)))
  }

  /** One more row extends the parse of the rows before it by that row's class. */
  lemma KeptSymbolsStep(rows: seq<string>, i: nat)
    requires i < |rows|
    ensures KeptSymbols(rows[..i + 1]) == Extend(KeptSymbols(rows[..i]), ClassifyLine(rows[i]))
  {
    assert rows[..i + 1][..i] == rows[..i];
  }

  /** One more symbol updates the two maps and the key order by that symbol alone. */
  lemma TableStep(syms: seq<Symbol>, s: Symbol)
    ensures ByName(syms + [s]) == ByName(syms)[s.name := s]
    ensures var m := ByAddr(syms);
            ByAddr(syms + [s]) == m[s.addr := (if s.addr in m then m[s.addr] else []) + [s]]
    ensures KeyOrder(syms + [s]) == if s.addr in ByAddr(syms) then KeyOrder(syms) else KeyOrder(syms) + [s.addr]
  {
    assert (syms + [s])[..|syms|] == syms;
    KeyOrderKeys(syms);
  }

  /** `api_get_elf_symbol_dict` on the lines `readelf -s` printed. */
  method ParseSymbolTable(lines: seq<string>) returns (r: Result<SymbolTable>)
    ensures KeptSymbols(Rows(lines)).Err? ==> r.Err?
    ensures KeptSymbols(Rows(lines)).Ok? ==> r == Ok(TableOf(KeptSymbols(Rows(lines)).value))
  {
    var rows := Rows(lines);
    var byAddr: map<int, seq<Symbol>> := map[];
    var byName: map<string, Symbol> := map[];
    var keys: seq<int> := [];
    ghost var syms: seq<Symbol> := [];
    for i := 0 to |rows|
      invariant KeptSymbols(rows[..i]) == Ok(syms)
      invariant byAddr == ByAddr(syms) && byName == ByName(syms) && keys == KeyOrder(syms)
    {
      var c := ClassifyLine(rows[i]);
      KeptSymbolsStep(rows, i);
      if c.Malformed? {
        KeptSymbolsErr(rows, i + 1);
        return Err(BAD_HEX);
      } else if c.Kept? {
        var s := c.sym;
        TableStep(syms, s);
        if s.addr !in byAddr {
          keys := keys + [s.addr];
        }
        byName := byName[s.name := s];
        byAddr := byAddr[s.addr := (if s.addr in byAddr then byAddr[s.addr] else []) + [s]];
        syms := syms + [s];
      }
    }
    assert rows[..|rows|] == rows;
    r := Ok(SymbolTable(byAddr, byName, SortSeq(keys)));
  }

  /** Every table the parser builds is valid. */
  lemma ParsedTableValid(syms: seq<Symbol>)
    ensures ValidTable(TableOf(syms))
  {
    var t := TableOf(syms);
    SortSeqSorted(KeyOrder(syms));
    KeyOrderKeys(syms);
    forall a | a in t.byAddr
      ensures t.byAddr[a] != [] && forall s <- t.byAddr[a] :: s.addr == a
    {
      ByAddrKeepsAll(syms, a);
      AtAddrMembers(syms, a);
    }
    forall n | n in t.byName
      ensures t.byName[n].name == n && t.byName[n].addr in t.byAddr && t.byName[n] in t.byAddr[t.byName[n].addr]
    {
      ByNameInByAddr(syms, n);
    }
  }

  // ---------------------------------------------------------------------------
  // Lookups.

  predicate NonDecreasing(xs: seq<int>)
  {
    forall i, j :: 0 <= i < j < |xs| ==> xs[i] <= xs[j]
  }

  /** `bisect.bisect_left(xs, x, lo, hi)`: the first position in [lo, hi) whose
      element is not below x. */
  function BisectLeft(xs: seq<int>, x: int, lo: nat, hi: nat): (i: nat)
    requires lo <= hi <= |xs| && NonDecreasing(xs)
    ensures lo <= i <= hi
    ensures forall j :: lo <= j < i ==> xs[j] < x
    ensures forall j :: i <= j < hi ==> x <= xs[j]
    decreases hi - lo
  {
    if lo == hi then lo
    else
      var mid := (lo + hi) / 2;
      if xs[mid] < x then BisectLeft(xs, x, mid + 1, hi) else BisectLeft(xs, x, lo, mid)
  }

  /** `sorted_addr[bisect_left(sorted_addr, x) - 1]` guarded by both range checks:
      the symbol address nearest below x, if any. */
  function Predecessor(t: SymbolTable, x: int): Option<int>
    requires StrictlyIncreasing(t.sortedAddr)
  {
    var i := BisectLeft(t.sortedAddr, x, 0, |t.sortedAddr|) - 1;
    if i < 0 then None
    else if i >= |t.sortedAddr| then None
    else Some(t.sortedAddr[i])
  }

  /** The lookup finds the greatest symbol address strictly below x, and finds none
      exactly when every symbol address is at or above x; the upper range check never
      applies. */
  lemma PredecessorMeans(t: SymbolTable, x: int)
    requires ValidTable(t)
    ensures BisectLeft(t.sortedAddr, x, 0, |t.sortedAddr|) - 1 < |t.sortedAddr|
    ensures Predecessor(t, x).None? <==> forall a :: a in t.byAddr ==> x <= a
    ensures Predecessor(t, x).Some? ==>
              var p := Predecessor(t, x).value;
              p in t.byAddr && p < x && forall a :: a in t.byAddr && a < x ==> a <= p
  {
    var xs := t.sortedAddr;
    var i := BisectLeft(xs, x, 0, |xs|);
    if i == 0 {
      forall a | a in t.byAddr
        ensures x <= a
      {
        assert a in xs;
        var j :| 0 <= j < |xs| && xs[j] == a;
      }
    } else {
      var p := xs[i - 1];
      assert p in xs;
      forall a | a in t.byAddr && a < x
        ensures a <= p
      {
        assert a in xs;
        var j :| 0 <= j < |xs| && xs[j] == a;
      }
    }
  }

  /** The debugger's ELF state: the table (None before loading), whether the loaded
      binary is ELF (None before checking) and whether block changes are traced. */
  datatype ElfState = ElfState(table: Option<SymbolTable>, isElf: Option<bool>, trace: bool)

  ghost predicate ValidState(st: ElfState)
  {
    st.table.Some? ==> ValidTable(st.table.value)
  }

  predicate SortedState(st: ElfState)
  {
    st.table.Some? ==> StrictlyIncreasing(st.table.value.sortedAddr)
  }

  /** `api_echo_pc_symbol_block_change(pc, last)`: the address of the symbol block the
      pc is in when it differs from `last`, and `last` otherwise. */
  function BlockChange(st: ElfState, pc: int, last: int): int
    requires SortedState(st)
  {
    if pc < 0 || !st.trace || st.isElf == Some(false) || st.table.None? then last
    else
      var t := st.table.value;
      match Predecessor(t, pc)
      case None => last
      case Some(p) =>
        if p == last then last
        else if p !in t.byAddr || t.byAddr[p] == [] then last
        else p
  }

  /** Feeding the result back with the same pc changes nothing. */
  lemma BlockChangeIdempotent(st: ElfState, pc: int, last: int)
    requires SortedState(st)
    ensures BlockChange(st, pc, BlockChange(st, pc, last)) == BlockChange(st, pc, last)
  {
  }

  /** With tracing on, a known table and an ELF binary (or one not yet checked), the
      result is the greatest symbol address strictly below a non-negative pc when
      there is one, and `last` otherwise; with tracing off, a negative pc, a non-ELF
      binary or no table it is `last`. In particular a pc at a symbol's first address
      reports the symbol before it. */
  lemma BlockChangeMeans(st: ElfState, pc: int, last: int)
    requires ValidState(st)
    ensures !(pc >= 0 && st.trace && st.isElf != Some(false) && st.table.Some?) ==>
              BlockChange(st, pc, last) == last
    ensures pc >= 0 && st.trace && st.isElf != Some(false) && st.table.Some? ==>
              var t := st.table.value;
              (Predecessor(t, pc).None? ==> BlockChange(st, pc, last) == last)
              && (Predecessor(t, pc).Some? ==> BlockChange(st, pc, last) == Predecessor(t, pc).value)
    ensures BlockChange(st, pc, last) != last ==>
              var t := st.table.value;
              var b := BlockChange(st, pc, last);
              b in t.byAddr && b < pc && forall a :: a in t.byAddr && a < pc ==> a <= b
  {
    if st.table.Some? {
      PredecessorMeans(st.table.value, pc);
    }
  }

  /** The symbol report `api_address_to_symbol` formats: the names at the symbol's
      address, that address and the offset from it. */
  datatype SymbolRef = SymbolRef(names: seq<string>, symbolAddr: int, offset: int)

  function Names(syms: seq<Symbol>): (r: seq<string>)
    ensures |r| == |syms| && forall i :: 0 <= i < |syms| ==> r[i] == syms[i].name
  {
    seq(|syms|, i requires 0 <= i < |syms| => syms[i].name)
  }

  /** The table a lookup uses: the loaded one, or else `reload`, the result of reading
      the symbols of the loaded binary again. */
  function LookupTable(st: ElfState, reload: Option<SymbolTable>): Option<SymbolTable>
  {
    if st.table.Some? then st.table else reload
  }

  /** `api_address_to_symbol(addr)`. */
  function AddressToSymbol(st: ElfState, reload: Option<SymbolTable>, addr: int): Option<SymbolRef>
    requires LookupTable(st, reload).Some? ==> StrictlyIncreasing(LookupTable(st, reload).value.sortedAddr)
  {
    if st.isElf == Some(false) then None
    else
      match LookupTable(st, reload)
      case None => None
      case Some(t) =>
        match Predecessor(t, addr)
        case None => None
        case Some(p) =>
          if p in t.byAddr && t.byAddr[p] != [] then Some(SymbolRef(Names(t.byAddr[p]), p, addr - p))
          else None
  }

  /** A reported symbol is the nearest one strictly below the address, so the offset
      is positive; and on a valid table a report exists exactly when some symbol lies
      below the address. */
  lemma AddressToSymbolMeans(st: ElfState, reload: Option<SymbolTable>, addr: int)
    requires LookupTable(st, reload).Some? ==> ValidTable(LookupTable(st, reload).value)
    ensures AddressToSymbol(st, reload, addr).Some? ==>
              var r := AddressToSymbol(st, reload, addr).value;
              var t := LookupTable(st, reload).value;
              r.offset > 0 && r.symbolAddr + r.offset == addr && r.symbolAddr in t.byAddr
              && r.names == Names(t.byAddr[r.symbolAddr])
              && forall a :: a in t.byAddr && a < addr ==> a <= r.symbolAddr
    ensures st.isElf != Some(false) && LookupTable(st, reload).Some? ==>
              (AddressToSymbol(st, reload, addr).Some?
               <==> exists a :: a in LookupTable(st, reload).value.byAddr && a < addr)
  {
    if LookupTable(st, reload).Some? {
      PredecessorMeans(LookupTable(st, reload).value, addr);
    }
  }

  /** `api_symbol_to_address(name)`. */
  function SymbolToAddress(st: ElfState, reload: Option<SymbolTable>, name: string): Option<int>
  {
    if st.isElf == Some(false) then None
    else
      match LookupTable(st, reload)
      case None => None
      case Some(t) => if name in t.byName then Some(t.byName[name].addr) else None
  }

  /** On a parsed table a name resolves exactly when some kept row has it, and to the
      address of the last such row. */
  lemma SymbolToAddressOfParsed(syms: seq<Symbol>, isElf: Option<bool>, trace: bool, name: string)
    requires isElf != Some(false)
    ensures var st := ElfState(Some(TableOf(syms)), isElf, trace);
            (SymbolToAddress(st, None, name).Some? <==> exists i :: 0 <= i < |syms| && syms[i].name == name)
            && (SymbolToAddress(st, None, name).Some? ==>
                  exists i :: 0 <= i < |syms| && syms[i].name == name
                              && SymbolToAddress(st, None, name).value == syms[i].addr
                              && forall j :: i < j < |syms| ==> syms[j].name != name)
  {
    ByNameLastWins(syms, name);
  }

  /** Resolving a name and then looking up the byte after its address reports that
      address, offset one, with the name among the names there. */
  lemma SymbolThenAddress(st: ElfState, reload: Option<SymbolTable>, name: string)
    requires LookupTable(st, reload).Some? ==> ValidTable(LookupTable(st, reload).value)
    requires SymbolToAddress(st, reload, name).Some?
    ensures var a := SymbolToAddress(st, reload, name).value;
            var t := LookupTable(st, reload).value;
            AddressToSymbol(st, reload, a + 1) == Some(SymbolRef(Names(t.byAddr[a]), a, 1))
            && name in Names(t.byAddr[a])
  {
    var a := SymbolToAddress(st, reload, name).value;
    var t := LookupTable(st, reload).value;
    PredecessorMeans(t, a + 1);
    var s := t.byName[name];
    var i :| 0 <= i < |t.byAddr[a]| && t.byAddr[a][i] == s;
    assert Names(t.byAddr[a])[i] == name;
  }
}
