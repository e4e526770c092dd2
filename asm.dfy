/** The assembler front end: the source text handed to the toolchain, the section
    table read back from `objdump -h`, the `xasm` argument, and the insertion of the
    assembled sections into memory. The toolchain itself is not modelled: the bytes
    of each section come in as data. */
module Asm {
  import opened Wrappers
  import opened Text
  import opened Bytes
  import opened MemoryRW

  /** The entry stub put in front of code that does not mention `__start`. */
  const START_PREFIX: string := ".global _start\n_start:\n\t"

  /** What `xasm` prints when it has nothing to assemble. */
  const XASM_USAGE: string := "usage: xasm [<entry_address>] <asm_data>"

  // ---------------------------------------------------------------------------
  // The source text.

  /** A typed `\t` becomes a tab, then `;$` a line break, then any other `;` a line
      break followed by a tab. */
  function Normalize(asm: string): string
  {
    Replace(Replace(Replace(asm, "\\t", "\t"), ";$", "\n"), ";", "\n\t")
  }

  /** The file given to the assembler: the normalised text, behind the entry stub when
      it does not mention `__start`. */
  function SourceText(asm: string): string
  {
    var raw := Normalize(asm);
    if Contains(raw, "__start") then raw else START_PREFIX + raw
  }

  /** No `;` survives normalisation: every statement separator became a line break. */
  lemma NormalizeNoSemicolon(asm: string)
    ensures ';' !in Normalize(asm)
  {
    ReplaceRemovesChar(Replace(Replace(asm, "\\t", "\t"), ";$", "\n"), ';', "\n\t");
  }

  /** Text without separators and without backslashes is already normal. */
  lemma NormalizePlain(asm: string)
    requires ';' !in asm && '\\' !in asm
    ensures Normalize(asm) == asm
  {
    ReplaceAbsent(asm, "\\t", "\t");
    ReplaceAbsent(asm, ";$", "\n");
    ReplaceAbsent(asm, ";", "\n\t");
  }

  /** Two plain statements joined by `;` become two lines, the second indented. */
  lemma NormalizeSeparator(a: string, b: string)
    requires ';' !in a && '\\' !in a && ';' !in b && '\\' !in b
    requires b == [] || b[0] != '$'
    ensures Normalize(a + ";" + b) == a + "\n\t" + b
  {
    var s := a + (";" + b);
    assert a + ";" + b == s;
    ReplaceAbsentPrefix(a, ";" + b, "\\t", "\t");
    ReplaceAbsent(";" + b, "\\t", "\t");
    assert Replace(s, "\\t", "\t") == s;
    ReplaceAbsentPrefix(a, ";" + b, ";$", "\n");
    assert Replace(";" + b, ";$", "\n") == ";" + b by {
      if |";" + b| >= 2 {
        assert (";" + b)[..2] != ";$" by { assert (";" + b)[..2][1] == b[0]; }
        assert (";" + b)[1..] == b;
      }
      ReplaceAbsent(b, ";$", "\n");
    }
    ReplaceAbsentPrefix(a, ";" + b, ";", "\n\t");
    assert Replace(";" + b, ";", "\n\t") == "\n\t" + b by {
      assert (";" + b)[..1] == ";" && (";" + b)[1..] == b;
      ReplaceAbsent(b, ";", "\n\t");
    }
  }

  /** Text that does not mention `__start` is assembled behind the entry stub, which
      itself does not mention it; other text is assembled as it is. */
  lemma SourceTextStub(asm: string)
    ensures !Contains(Normalize(asm), "__start") ==>
              StartsWith(SourceText(asm), START_PREFIX) && SourceText(asm)[|START_PREFIX|..] == Normalize(asm)
    ensures Contains(Normalize(asm), "__start") ==> SourceText(asm) == Normalize(asm)
    ensures !Contains(START_PREFIX, "__start")
  {
    var raw := Normalize(asm);
    assert (START_PREFIX + raw)[..|START_PREFIX|] == START_PREFIX;
    assert (START_PREFIX + raw)[|START_PREFIX|..] == raw;
    StubHasNoDoubleUnderscore(START_PREFIX);
  }

  /** Text in which no `_` is followed by another `_` does not contain `__start`. */
  lemma {:induction false} StubHasNoDoubleUnderscore(s: string)
    requires forall k :: 0 <= k < |s| - 1 ==> s[k] != '_' || s[k + 1] != '_'
    ensures !Contains(s, "__start")
    decreases |s|
  {
    if s != [] {
      if |s| >= 2 {
        assert s[0] != '_' || s[1] != '_';
      }
      assert !("__start" <= s);
      forall k | 0 <= k < |s[1..]| - 1
        ensures s[1..][k] != '_' || s[1..][k + 1] != '_'
      {
        assert s[1..][k] == s[k + 1] && s[1..][k + 1] == s[k + 2];
      }
      StubHasNoDoubleUnderscore(s[1..]);
    }
  }

  // ---------------------------------------------------------------------------
  // The section table of `objdump -h`.

  datatype Section = Section(name: string, addr: int, size: int)

  /** What the table parser does with one line of `objdump -h` output. */
  datatype SectionLine = NotSection | Raises | Recorded(sec: Section)

  /** A line with at least six columns whose second column starts with `.` is a
      section row: its size (third column) and address (fourth column) must be
      hexadecimal, and the section is recorded only when its size is positive. */
  function ClassifySection(line: string): SectionLine
  {
    var parts := Split(line);
    if |parts| >= 6 && StartsWith(parts[1], ".") then
      match (ParseInt(parts[2], 16), ParseInt(parts[3], 16))
      case (Some(size), Some(addr)) => if size > 0 then Recorded(Section(parts[1], addr, size)) else NotSection
      case _ => Raises
    else NotSection
  }

  function Names(secs: seq<Section>): seq<string>
  {
    seq(|secs|, k requires 0 <= k < |secs| => secs[k].name)
  }

  predicate NoDup(xs: seq<string>)
  {
    forall i, j :: 0 <= i < j < |xs| ==> xs[i] != xs[j]
  }

  /** `section_info[name] = (addr, size)` on a dictionary kept as a list in insertion
      order: an existing name keeps its place and takes the new value. */
  function Put(secs: seq<Section>, s: Section): seq<Section>
    decreases |secs|
  {
    if secs == [] then [s]
    else if secs[0].name == s.name then [s] + secs[1..]
    else [secs[0]] + Put(secs[1..], s)
  }

  /** `section_info.get(name)`. */
  function Lookup(secs: seq<Section>, n: string): Option<Section>
    decreases |secs|
  {
    if secs == [] then None
    else if secs[0].name == n then Some(secs[0])
    else Lookup(secs[1..], n)
  }

  /** Putting a section makes it the value of its name and changes no other name. */
  lemma {:induction false} PutLookup(secs: seq<Section>, s: Section, n: string)
    ensures Lookup(Put(secs, s), n) == if n == s.name then Some(s) else Lookup(secs, n)
    decreases |secs|
  {
    if secs != [] && secs[0].name != s.name {
      PutLookup(secs[1..], s, n);
    } else if secs != [] {
      assert ([s] + secs[1..])[1..] == secs[1..];
    }
  }

  /** Putting a section adds its name at the end if it is new and otherwise keeps the
      names and their order. */
  lemma {:induction false} PutNames(secs: seq<Section>, s: Section)
    ensures Names(Put(secs, s)) == if s.name in Names(secs) then Names(secs) else Names(secs) + [s.name]
    decreases |secs|
  {
    if secs == [] {
    } else {
      assert Names(secs) == [secs[0].name] + Names(secs[1..]);
      if secs[0].name == s.name {
        assert Names([s] + secs[1..]) == [s.name] + Names(secs[1..]);
      } else {
        PutNames(secs[1..], s);
        assert Names(Put(secs, s)) == [secs[0].name] + Names(Put(secs[1..], s));
        assert s.name in Names(secs) <==> s.name in Names(secs[1..]);
      }
    }
  }

  /** The parse of the lines so far, extended by one more line. */
  function ExtendTable(acc: Result<seq<Section>>, c: SectionLine): Result<seq<Section>>
  {
    match acc
    case Err(m) => Err(m)
    case Ok(secs) =>
      match c
      case NotSection => Ok(secs)
      case Raises => Err("invalid literal for int() with base 16")
      case Recorded(s) => Ok(Put(secs, s))
  }

  /** The section table the lines give, or the error of the first bad section row. */
  function SectionTable(lines: seq<string>): Result<seq<Section>>
    decreases |lines|
  {
    if lines == [] then Ok([])
    else ExtendTable(SectionTable(lines[..|lines| - 1]), ClassifySection(lines[|lines| - 1]))
  }

  lemma SectionTableStep(lines: seq<string>, i: nat)
    requires i < |lines|
    ensures SectionTable(lines[..i + 1]) == ExtendTable(SectionTable(lines[..i]), ClassifySection(lines[i]))
  {
    assert lines[..i + 1][..i] == lines[..i];
  }

  /** The last section row of a name, independently of the table. */
  function LastRecorded(lines: seq<string>, n: string): Option<Section>
    decreases |lines|
  {
    if lines == [] then None
    else
      var c := ClassifySection(lines[|lines| - 1]);
      if c.Recorded? && c.sec.name == n then Some(c.sec) else LastRecorded(lines[..|lines| - 1], n)
  }

  /** Every name of the table maps to the last row recorded under it, and a name no
      row recorded is absent. */
  lemma {:induction false} SectionTableLastWins(lines: seq<string>, n: string)
    requires SectionTable(lines).Ok?
    ensures Lookup(SectionTable(lines).value, n) == LastRecorded(lines, n)
    decreases |lines|
  {
    if lines != [] {
      var init := lines[..|lines| - 1];
      var c := ClassifySection(lines[|lines| - 1]);
      SectionTableLastWins(init, n);
      if c.Recorded? {
        PutLookup(SectionTable(init).value, c.sec, n);
      }
    }
  }

  /** Every recorded section has a positive size and a dotted name, and no name is
      recorded twice. */
  lemma {:induction false} SectionTableValid(lines: seq<string>)
    requires SectionTable(lines).Ok?
    ensures var secs := SectionTable(lines).value;
            NoDup(Names(secs)) && forall s <- secs :: s.size > 0 && StartsWith(s.name, ".")
    decreases |lines|
  {
    if lines != [] {
      var init := lines[..|lines| - 1];
      var c := ClassifySection(lines[|lines| - 1]);
      SectionTableValid(init);
      if c.Recorded? {
        var secs := SectionTable(init).value;
        PutNames(secs, c.sec);
        PutMembers(secs, c.sec);
      }
    }
  }

  lemma {:induction false} PutMembers(secs: seq<Section>, s: Section)
    ensures forall t <- Put(secs, s) :: t == s || t in secs
    decreases |secs|
  {
    if secs != [] && secs[0].name != s.name {
      PutMembers(secs[1..], s);
    }
  }

  /** The section loop of `api_asm_str` over the lines `objdump -h` printed. */
  method ParseSectionTable(lines: seq<string>) returns (r: Result<seq<Section>>)
    ensures r == SectionTable(lines)
  {
    var secs: seq<Section> := [];
    for i := 0 to |lines|
      invariant SectionTable(lines[..i]) == Ok(secs)
    {
      var c := ClassifySection(lines[i]);
      SectionTableStep(lines, i);
      match c {
        case NotSection =>
        case Raises =>
          SectionTableErr(lines, i + 1);
          return Err("invalid literal for int() with base 16");
        case Recorded(s) =>
          secs := Put(secs, s);
      }
    }
    assert lines[..|lines|] == lines;
    r := Ok(secs);
  }

  /** Once a row failed, every longer list of rows fails. */
  lemma {:induction false} SectionTableErr(lines: seq<string>, k: nat)
    requires k <= |lines| && SectionTable(lines[..k]).Err?
    ensures SectionTable(lines).Err? && SectionTable(lines) == SectionTable(lines[..k])
    decreases |lines| - k
  {
    if k < |lines| {
      SectionTableStep(lines, k);
      SectionTableErr(lines, k + 1);
    } else {
      assert lines[..k] == lines;
    }
  }

  // ---------------------------------------------------------------------------
  // The `xasm` argument.

  /** What `do_xasm` does with its argument before assembling. */
  datatype XAsmArg = Usage | Fails | Assemble(entry: int, asm: string)

  /** An empty argument prints the usage. A stripped argument starting with `<` gives
      the entry address from the text before the first `>` (with every `<` removed,
      read as `int(s, 0)`) and the assembly from the stripped rest; a missing `>` or
      a bad address is an error. Any other argument is assembled at `memBase`. Empty
      assembly prints the usage. */
  function XAsmArgs(arg: string, memBase: int): XAsmArg
  {
    if arg == [] then Usage
    else
      var a := Strip(arg);
      if StartsWith(a, "<") then
        var head := UpTo(a, '>');
        match ParseInt0(Replace(head, "<", ""))
        case None => Fails
        case Some(entry) =>
          if |head| == |a| then Fails
          else
            var asm := Strip(a[|head| + 1..]);
            if asm == [] then Usage else Assemble(entry, asm)
      else if a == [] then Usage
      else Assemble(memBase, a)
  }

  /** A stripped argument `<head>rest` whose head reads as a number assembles the
      stripped rest at that number. */
  lemma XAsmArgsBracket(arg: string, memBase: int, entry: int)
    requires arg != [] && Strip(arg) == arg && StartsWith(arg, "<")
    requires |UpTo(arg, '>')| < |arg| && ParseInt0(Replace(UpTo(arg, '>'), "<", "")) == Some(entry)
    requires Strip(arg[|UpTo(arg, '>')| + 1..]) != []
    ensures XAsmArgs(arg, memBase) == Assemble(entry, Strip(arg[|UpTo(arg, '>')| + 1..]))
  {
  }

  /** The pieces of `<0x...>rest` as the argument parser cuts them. */
  lemma BracketPieces(d: string, rest: string)
    requires forall c <- d :: c in DIGIT_CHARS
    requires rest != [] && !IsSpace(rest[|rest| - 1])
    ensures var arg := "<0x" + d + ">" + rest;
            Strip(arg) == arg && StartsWith(arg, "<") && UpTo(arg, '>') == "<0x" + d
            && Replace("<0x" + d, "<", "") == "0x" + d && arg[|"<0x" + d| + 1..] == rest
  {
    var hex := "0x" + d;
    var head := "<" + hex;
    assert '>' !in head && '<' !in hex by {
      forall k | 0 <= k < |hex|
        ensures hex[k] != '>' && hex[k] != '<'
      {
        if k >= 2 { assert hex[k] == d[k - 2] && d[k - 2] in DIGIT_CHARS; }
      }
    }
    var arg := head + (">" + rest);
    assert "<0x" + d + ">" + rest == arg;
    assert "<0x" + d == head;
    assert Strip(arg) == arg by {
      assert arg[0] == '<' && arg[|arg| - 1] == rest[|rest| - 1];
      StripTrimmed(arg);
    }
    assert UpTo(arg, '>') == head by {
      UpToPrefix(head, ">" + rest, '>');
    }
    assert Replace(head, "<", "") == hex by {
      assert head[..1] == "<" && head[1..] == hex;
      ReplaceAbsent(hex, "<", "");
    }
    assert arg[|head| + 1..] == rest;
  }

  /** `<0x...>` followed by assembly gives that address and the stripped assembly. */
  lemma XAsmArgsAddress(n: nat, rest: string, memBase: int)
    requires Strip(rest) != [] && !IsSpace(rest[|rest| - 1])
    ensures XAsmArgs("<0x" + Digits(n, 16) + ">" + rest, memBase) == Assemble(n, Strip(rest))
  {
    DigitsAreDigits(n, 16);
    BracketPieces(Digits(n, 16), rest);
    ParseInt0HexRoundTrip(n);
    XAsmArgsBracket("<0x" + Digits(n, 16) + ">" + rest, memBase, n);
  }

  /** An argument not starting with `<` is assembled, stripped, at the memory base. */
  lemma XAsmArgsDefault(arg: string, memBase: int)
    requires Strip(arg) != [] && !StartsWith(Strip(arg), "<")
    ensures XAsmArgs(arg, memBase) == Assemble(memBase, Strip(arg))
  {
  }

  /** A blank argument only prints the usage. */
  lemma XAsmArgsBlank(arg: string, memBase: int)
    requires AllSpace(arg)
    ensures XAsmArgs(arg, memBase) == Usage
  {
  }

  // ---------------------------------------------------------------------------
  // Insertion.

  /** One assembled section: its name, load address and bytes. */
  datatype Blob = Blob(name: string, addr: int, data: seq<byte>)

  /** The sections `do_xasm_insert` writes: skipping empty ones, up to but excluding the
      first one `api_write_bytes` refuses. Whether a write is accepted does not
      depend on what earlier writes stored. */
  function Inserted(inited: bool, isFlash: int -> bool, flashBase: int, blobs: seq<Blob>): seq<Blob>
    decreases |blobs|
  {
    if blobs == [] then []
    else if |blobs[0].data| == 0 then Inserted(inited, isFlash, flashBase, blobs[1..])
    else if !Accepts(inited, isFlash, flashBase, blobs[0].addr, |blobs[0].data|) then []
    else [blobs[0]] + Inserted(inited, isFlash, flashBase, blobs[1..])
  }

  function Total(blobs: seq<Blob>): nat
    decreases |blobs|
  {
    if blobs == [] then 0 else |blobs[0].data| + Total(blobs[1..])
  }

  lemma {:induction false} TotalAppend(a: seq<Blob>, b: seq<Blob>)
    ensures Total(a + b) == Total(a) + Total(b)
    decreases |a|
  {
    if a != [] {
      assert (a + b)[0] == a[0];
      assert (a + b)[1..] == a[1..] + b;
      TotalAppend(a[1..], b);
    } else {
      assert a + b == b;
    }
  }

  /** Only accepted, non-empty sections are written, never more bytes than there are. */
  lemma {:induction false} InsertedWritten(inited: bool, isFlash: int -> bool, flashBase: int, blobs: seq<Blob>)
    ensures forall b <- Inserted(inited, isFlash, flashBase, blobs) ::
              b in blobs && |b.data| > 0 && Accepts(inited, isFlash, flashBase, b.addr, |b.data|)
    ensures Total(Inserted(inited, isFlash, flashBase, blobs)) <= Total(blobs)
    decreases |blobs|
  {
    if blobs != [] {
      InsertedWritten(inited, isFlash, flashBase, blobs[1..]);
    }
  }

  /** A refused non-empty section ends the insertion: nothing after it is written. */
  lemma {:induction false} InsertedStops(inited: bool, isFlash: int -> bool, flashBase: int, blobs: seq<Blob>, k: nat)
    requires k < |blobs| && |blobs[k].data| > 0 && !Accepts(inited, isFlash, flashBase, blobs[k].addr, |blobs[k].data|)
    ensures Inserted(inited, isFlash, flashBase, blobs) == Inserted(inited, isFlash, flashBase, blobs[..k])
    decreases k
  {
    if k == 0 {
      assert blobs[..0] == [];
    } else {
      assert blobs[..k][1..] == blobs[1..][..k - 1];
      InsertedStops(inited, isFlash, flashBase, blobs[1..], k - 1);
    }
  }

  /** When every write is accepted, every byte is inserted. */
  lemma {:induction false} InsertedAll(inited: bool, isFlash: int -> bool, flashBase: int, blobs: seq<Blob>)
    requires forall b <- blobs :: |b.data| > 0 ==> Accepts(inited, isFlash, flashBase, b.addr, |b.data|)
    ensures Total(Inserted(inited, isFlash, flashBase, blobs)) == Total(blobs)
    decreases |blobs|
  {
    if blobs != [] {
      assert forall b <- blobs[1..] :: b in blobs;
      InsertedAll(inited, isFlash, flashBase, blobs[1..]);
    }
  }

  /** The two stores and the disassembly cache. */
  datatype Stores = Stores(ram: map<int, Word>, flash: map<int, Word>, cache: map<int, seq<AsmLine>>)

  /** What one accepted `api_write_bytes` does to the stores. */
  function WriteStep(st: Stores, isFlash: int -> bool, flashBase: int, bsz: nat, b: Blob): Stores
    requires bsz > 0
  {
    Stores(
      if isFlash(b.addr) then st.ram else Written(st.ram, b.addr, b.data),
      if isFlash(b.addr) then Written(st.flash, b.addr - flashBase, b.data) else st.flash,
      Evicted(st.cache, b.addr, |b.data|, bsz))
  }

  /** The stores after a sequence of accepted writes. */
  function AfterWrites(st: Stores, isFlash: int -> bool, flashBase: int, bsz: nat, bs: seq<Blob>): Stores
    requires bsz > 0
    decreases |bs|
  {
    if bs == [] then st
    else WriteStep(AfterWrites(st, isFlash, flashBase, bsz, bs[..|bs| - 1]), isFlash, flashBase, bsz, bs[|bs| - 1])
  }

  lemma AfterWritesSnoc(st: Stores, isFlash: int -> bool, flashBase: int, bsz: nat, bs: seq<Blob>, b: Blob)
    requires bsz > 0
    ensures AfterWrites(st, isFlash, flashBase, bsz, bs + [b])
            == WriteStep(AfterWrites(st, isFlash, flashBase, bsz, bs), isFlash, flashBase, bsz, b)
  {
    assert (bs + [b])[..|bs|] == bs;
  }

  /** One `api_write_bytes` of the insert loop, seen through its effect on the stores. */
  method WriteBlob(mem: Memory, b: Blob) returns (ok: bool)
    requires mem.Valid()
    modifies mem`ram, mem`flash, mem`asmCache
    ensures ok == Accepts(mem.memInited, mem.isFlash, mem.flashBase, b.addr, |b.data|)
    ensures !ok ==> Stores(mem.ram, mem.flash, mem.asmCache) == old(Stores(mem.ram, mem.flash, mem.asmCache))
    ensures ok ==> Stores(mem.ram, mem.flash, mem.asmCache)
                   == WriteStep(old(Stores(mem.ram, mem.flash, mem.asmCache)), mem.isFlash, mem.flashBase, mem.cacheBlockSize, b)
  {
    ok := mem.WriteBytes(b.addr, b.data);
  }

  /** `Inserted` seen from section `i` on. */
  lemma InsertedAt(inited: bool, isFlash: int -> bool, flashBase: int, blobs: seq<Blob>, i: nat)
    requires i < |blobs|
    ensures Inserted(inited, isFlash, flashBase, blobs[i..])
            == if |blobs[i].data| == 0 then Inserted(inited, isFlash, flashBase, blobs[i + 1..])
               else if !Accepts(inited, isFlash, flashBase, blobs[i].addr, |blobs[i].data|) then []
               else [blobs[i]] + Inserted(inited, isFlash, flashBase, blobs[i + 1..])
  {
    assert blobs[i..][1..] == blobs[i + 1..];
  }

  /** What `Inserted` says about section `i` once the sections before it are done. */
  lemma InsertedAdvance(inited: bool, isFlash: int -> bool, flashBase: int, blobs: seq<Blob>, i: nat, done: seq<Blob>)
    requires i < |blobs|
    requires Inserted(inited, isFlash, flashBase, blobs) == done + Inserted(inited, isFlash, flashBase, blobs[i..])
    ensures |blobs[i].data| == 0 ==>
              Inserted(inited, isFlash, flashBase, blobs) == done + Inserted(inited, isFlash, flashBase, blobs[i + 1..])
    ensures |blobs[i].data| != 0 && !Accepts(inited, isFlash, flashBase, blobs[i].addr, |blobs[i].data|) ==>
              Inserted(inited, isFlash, flashBase, blobs) == done
    ensures |blobs[i].data| != 0 && Accepts(inited, isFlash, flashBase, blobs[i].addr, |blobs[i].data|) ==>
              Inserted(inited, isFlash, flashBase, blobs) == (done + [blobs[i]]) + Inserted(inited, isFlash, flashBase, blobs[i + 1..])
  {
    var rest := Inserted(inited, isFlash, flashBase, blobs[i + 1..]);
    InsertedAt(inited, isFlash, flashBase, blobs, i);
    assert done + [] == done;
    assert done + ([blobs[i]] + rest) == (done + [blobs[i]]) + rest;
  }

  /** One iteration of the `do_xasm_insert` loop, on section `i`: an empty section is
      skipped, a refused one stops the loop, an accepted one is written and counted. */
  method InsertOne(mem: Memory, blobs: seq<Blob>, i: nat, ghost st0: Stores, ghost done: seq<Blob>)
    returns (stop: bool, n: nat, ghost done': seq<Blob>)
    requires mem.Valid() && i < |blobs|
    requires Inserted(mem.memInited, mem.isFlash, mem.flashBase, blobs)
             == done + Inserted(mem.memInited, mem.isFlash, mem.flashBase, blobs[i..])
    requires Stores(mem.ram, mem.flash, mem.asmCache) == AfterWrites(st0, mem.isFlash, mem.flashBase, mem.cacheBlockSize, done)
    modifies mem`ram, mem`flash, mem`asmCache
    ensures stop ==> Inserted(mem.memInited, mem.isFlash, mem.flashBase, blobs) == done'
    ensures !stop ==> Inserted(mem.memInited, mem.isFlash, mem.flashBase, blobs)
                      == done' + Inserted(mem.memInited, mem.isFlash, mem.flashBase, blobs[i + 1..])
    ensures Total(done') == Total(done) + n
    ensures Stores(mem.ram, mem.flash, mem.asmCache) == AfterWrites(st0, mem.isFlash, mem.flashBase, mem.cacheBlockSize, done')
  {
    var b := blobs[i];
    ghost var inited, isFlash, flashBase, bsz := mem.memInited, mem.isFlash, mem.flashBase, mem.cacheBlockSize;
    InsertedAdvance(inited, isFlash, flashBase, blobs, i, done);
    if |b.data| == 0 {
      return false, 0, done;
    }
    ghost var before := Stores(mem.ram, mem.flash, mem.asmCache);
    var ok := WriteBlob(mem, b);
    assert mem.memInited == inited && mem.isFlash == isFlash && mem.flashBase == flashBase && mem.cacheBlockSize == bsz;
    if !ok {
      return true, 0, done;
    }
    assert Stores(mem.ram, mem.flash, mem.asmCache) == WriteStep(before, isFlash, flashBase, bsz, b);
    AfterWritesSnoc(st0, isFlash, flashBase, bsz, done, b);
    TotalAppend(done, [b]);
    stop, n, done' := false, |b.data|, done + [b];
  }

  /** The loop of `do_xasm_insert`: the number of bytes inserted. */
  method InsertBlobs(mem: Memory, blobs: seq<Blob>) returns (count: nat)
    requires mem.Valid()
    modifies mem`ram, mem`flash, mem`asmCache
    ensures count == Total(Inserted(mem.memInited, mem.isFlash, mem.flashBase, blobs))
    ensures Stores(mem.ram, mem.flash, mem.asmCache)
            == AfterWrites(old(Stores(mem.ram, mem.flash, mem.asmCache)), mem.isFlash, mem.flashBase, mem.cacheBlockSize,
                           Inserted(mem.memInited, mem.isFlash, mem.flashBase, blobs))
  {
    count := 0;
    ghost var st0 := Stores(mem.ram, mem.flash, mem.asmCache);
    ghost var done: seq<Blob> := [];
    var i := 0;
    assert blobs[0..] == blobs;
    while i < |blobs|
      invariant 0 <= i <= |blobs| && mem.Valid()
      invariant Inserted(mem.memInited, mem.isFlash, mem.flashBase, blobs)
                == done + Inserted(mem.memInited, mem.isFlash, mem.flashBase, blobs[i..])
      invariant count == Total(done)
      invariant Stores(mem.ram, mem.flash, mem.asmCache) == AfterWrites(st0, mem.isFlash, mem.flashBase, mem.cacheBlockSize, done)
    {
      var stop, n;
      stop, n, done := InsertOne(mem, blobs, i, st0, done);
      count := count + n;
      if stop {
        return;
      }
      i := i + 1;
    }
    assert blobs[i..] == [];
    assert done + [] == done;
  }

  /** `do_xasm_insert` on the sections `do_xasm` returned (`None` when it failed or
      printed the usage): nothing is written without sections. */
  method XAsmInsert(mem: Memory, sections: Option<seq<Blob>>) returns (count: nat)
    requires mem.Valid()
    modifies mem`ram, mem`flash, mem`asmCache
    ensures sections.None? ==> count == 0 && unchanged(mem)
    ensures sections.Some? ==>
              count == Total(Inserted(mem.memInited, mem.isFlash, mem.flashBase, sections.value))
              && Stores(mem.ram, mem.flash, mem.asmCache)
                 == AfterWrites(old(Stores(mem.ram, mem.flash, mem.asmCache)), mem.isFlash, mem.flashBase, mem.cacheBlockSize,
                                Inserted(mem.memInited, mem.isFlash, mem.flashBase, sections.value))
  {
    if sections.None? || sections.value == [] {
      return 0;
    }
    count := InsertBlobs(mem, sections.value);
  }
}
