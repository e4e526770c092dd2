/** Byte-level memory access over the two word-addressed stores, RAM and Flash, with
    sub-word merging on write and eviction of the disassembly cache
    (XSPdb/cmd/cmd_mrw.py). */
module MemoryRW {
  import opened Wrappers
  import opened Bytes

  /** Largest Flash-relative address a write may start at. */
  const FLASH_LIMIT: int := 0x7FFF_FFFF

  /** One decoded line of a cached disassembly block. */
  datatype AsmLine = AsmLine(address: int, hex: string, mnemonic: string, operands: string)

  /** A word store read at an aligned address; a word never written reads as 0. */
  function ReadWord(m: map<int, Word>, a: int): Word
  {
    if a in m then m[a] else 0
  }

  /** The byte at address a as seen through a word-read function `rf`. */
  function ByteVia(rf: int -> Word, a: int): byte
  {
    WordBytes(rf(a - a % 8))[a % 8]
  }

  /** The byte at address a of a store. */
  function StoreByte(m: map<int, Word>, a: int): byte
  {
    WordBytes(ReadWord(m, a - a % 8))[a % 8]
  }

  /** `pmem_read`: RAM is read at the absolute address. */
  function RamReader(ram: map<int, Word>): int -> Word
  {
    a => ReadWord(ram, a)
  }

  /** `_flash_read`: Flash is read at the address minus `flash_base`, clamped at 0. */
  function FlashReader(flash: map<int, Word>, flashBase: int): int -> Word
  {
    a => ReadWord(flash, if a - flashBase < 0 then 0 else a - flashBase)
  }

  // ---------------------------------------------------------------------------
  // The merged write buffer

  /** The bytes of the first touched word before the write start, kept. */
  function Head(m: map<int, Word>, address: int): (r: seq<byte>)
    ensures |r| == address % 8
  {
    WordBytes(ReadWord(m, address - address % 8))[..address % 8]
  }

  /** The bytes of the word holding the end address from the end on, kept. */
  function Tail(m: map<int, Word>, endAddress: int): (r: seq<byte>)
    ensures |r| == 8 - endAddress % 8
  {
    WordBytes(ReadWord(m, endAddress - endAddress % 8))[endAddress % 8..]
  }

  /** `head + bytes + tail`. */
  function Merged(m: map<int, Word>, address: int, data: seq<byte>): seq<byte>
  {
    Head(m, address) + data + Tail(m, address + |data|)
  }

  /** The merged buffer is whole words: it runs from the aligned start to the end of
      the word holding the end address. */
  lemma MergedIsWholeWords(m: map<int, Word>, address: int, data: seq<byte>)
    ensures |Merged(m, address, data)| % 8 == 0
    ensures address - address % 8 + |Merged(m, address, data)| == (address + |data|) - (address + |data|) % 8 + 8
  {
  }

  /** The store after writing `buf` word by word, `base`, `base + 8`, ... */
  function WriteAll(m: map<int, Word>, base: int, buf: seq<byte>): map<int, Word>
    decreases |buf|
  {
    if |buf| < 8 then m else WriteAll(m[base := BytesWord(buf[..8])], base + 8, buf[8..])
  }

  /** A word outside the written run, or off its 8-byte grid, is untouched. */
  lemma {:induction false} WriteAllFrame(m: map<int, Word>, base: int, buf: seq<byte>, k: int)
    requires k < base || k >= base + |buf| || (k - base) % 8 != 0
    ensures (k in WriteAll(m, base, buf) <==> k in m) && ReadWord(WriteAll(m, base, buf), k) == ReadWord(m, k)
    decreases |buf|
  {
    if |buf| >= 8 {
      WriteAllFrame(m[base := BytesWord(buf[..8])], base + 8, buf[8..], k);
    }
  }

  /** A word on the grid of the written run holds its 8 bytes of the buffer. */
  lemma WriteAllWord(m: map<int, Word>, base: int, buf: seq<byte>, k: int)
    requires |buf| % 8 == 0 && base <= k < base + |buf| && (k - base) % 8 == 0
    ensures k in WriteAll(m, base, buf) && ReadWord(WriteAll(m, base, buf), k) == BytesWord(buf[k - base..k - base + 8])
  {
    var j := (k - base) / 8;
    var q := |buf| / 8;
    assert k - base == 8 * j && |buf| == 8 * q;
    WriteAllWordAt(m, base, buf, j);
  }

  /** Word j of the written run holds bytes 8j to 8j + 8 of the buffer. */
  lemma {:induction false} WriteAllWordAt(m: map<int, Word>, base: int, buf: seq<byte>, j: nat)
    requires 8 * j + 8 <= |buf|
    ensures base + 8 * j in WriteAll(m, base, buf)
    ensures ReadWord(WriteAll(m, base, buf), base + 8 * j) == BytesWord(buf[8 * j..8 * j + 8])
    decreases j
  {
    var m' := m[base := BytesWord(buf[..8])];
    assert WriteAll(m, base, buf) == WriteAll(m', base + 8, buf[8..]);
    if j == 0 {
      WriteAllFrame(m', base + 8, buf[8..], base);
      assert buf[0..8] == buf[..8];
    } else {
      WriteAllWordAt(m', base + 8, buf[8..], j - 1);
      assert base + 8 + 8 * (j - 1) == base + 8 * j;
      assert buf[8..][8 * (j - 1)..8 * (j - 1) + 8] == buf[8 * j..8 * j + 8];
    }
  }

  /** One word of the write loop: writing word i, then the rest from word i + 1. */
  lemma WriteAllStep(m: map<int, Word>, base: int, buf: seq<byte>, i: nat)
    requires 8 * i + 8 <= |buf|
    ensures WriteAll(m, base + 8 * i, buf[8 * i..])
            == WriteAll(m[base + i * 8 := BytesWord(buf[i * 8..i * 8 + 8])], base + 8 * (i + 1), buf[8 * (i + 1)..])
  {
    var rest := buf[8 * i..];
    assert rest[..8] == buf[i * 8..i * 8 + 8];
    assert rest[8..] == buf[8 * (i + 1)..];
  }

  /** Rounding down to a word boundary gives an aligned address within a word below. */
  lemma AlignDown(a: int)
    ensures (a - a % 8) % 8 == 0 && 0 <= a % 8 < 8
  {
  }

  /** An offset below 8 from an aligned address stays in that word. */
  lemma InWord(b: int, o: int)
    requires b % 8 == 0 && 0 <= o < 8
    ensures (b + o) % 8 == o && (b + o) - (b + o) % 8 == b
  {
  }

  /** Between two aligned addresses there is no aligned address. */
  lemma AlignedGap(w: int, t: int)
    requires w % 8 == 0 && t % 8 == 0 && t - 8 < w
    ensures t <= w
  {
  }

  /** Writing a whole-word buffer from an aligned base: every byte of the run is the
      buffer's byte. */
  lemma {:induction false} WriteAllByte(m: map<int, Word>, base: int, buf: seq<byte>, x: int)
    requires base % 8 == 0 && |buf| % 8 == 0 && base <= x < base + |buf|
    ensures StoreByte(WriteAll(m, base, buf), x) == buf[x - base]
    decreases |buf|
  {
    var m' := m[base := BytesWord(buf[..8])];
    if x < base + 8 {
      InWord(base, x - base);
      WriteAllFrame(m', base + 8, buf[8..], base);
      assert WordBytes(BytesWord(buf[..8])) == buf[..8];
    } else {
      WriteAllByte(m', base + 8, buf[8..], x);
      assert buf[8..][x - base - 8] == buf[x - base];
    }
  }

  /** Writing a whole-word buffer from an aligned base leaves every byte outside the
      run as it was. */
  lemma WriteAllOtherByte(m: map<int, Word>, base: int, buf: seq<byte>, x: int)
    requires base % 8 == 0 && |buf| % 8 == 0 && !(base <= x < base + |buf|)
    ensures StoreByte(WriteAll(m, base, buf), x) == StoreByte(m, x)
  {
    var w := x - x % 8;
    AlignDown(x);
    if x >= base + |buf| {
      AlignedGap(w, base + |buf|);
    }
    WriteAllFrame(m, base, buf, w);
  }

  /** The store after `api_write_bytes_with_rw` succeeds. */
  function Written(m: map<int, Word>, address: int, data: seq<byte>): map<int, Word>
  {
    WriteAll(m, address - address % 8, Merged(m, address, data))
  }

  /** The rewritten span, as word addresses: from the aligned start up to and including
      the word holding the end address. */
  predicate InWrittenSpan(address: int, len: nat, k: int)
  {
    var e := address + len;
    address - address % 8 <= k <= e - e % 8 && k % 8 == 0
  }

  /** A word outside the rewritten span is untouched, present or absent as before. */
  lemma WrittenFrame(m: map<int, Word>, address: int, data: seq<byte>, k: int)
    requires !InWrittenSpan(address, |data|, k)
    ensures (k in Written(m, address, data) <==> k in m) && ReadWord(Written(m, address, data), k) == ReadWord(m, k)
  {
    var base := address - address % 8;
    var e := address + |data|;
    AlignDown(address);
    AlignDown(e);
    MergedIsWholeWords(m, address, data);
    if k % 8 == 0 && k > e - e % 8 {
      AlignedGap(k, e - e % 8 + 8);
    }
    WriteAllFrame(m, base, Merged(m, address, data), k);
  }

  /** When the end address is word-aligned the word starting there is read and written
      back with its own value. */
  lemma EndAlignedWordRewritten(m: map<int, Word>, address: int, data: seq<byte>)
    requires (address + |data|) % 8 == 0
    ensures address + |data| in Written(m, address, data)
    ensures ReadWord(Written(m, address, data), address + |data|) == ReadWord(m, address + |data|)
  {
    var e := address + |data|;
    var base := address - address % 8;
    AlignDown(address);
    MergedIsWholeWords(m, address, data);
    var buf := Merged(m, address, data);
    WriteAllWord(m, base, buf, e);
    assert buf[e - base..e - base + 8] == Tail(m, e) == WordBytes(ReadWord(m, e));
    WordBytesRoundTrip(ReadWord(m, e));
  }

  /** Every byte of the rewritten words is the merged buffer's byte. */
  lemma WrittenByteIsBuf(m: map<int, Word>, address: int, data: seq<byte>, x: int)
    requires address - address % 8 <= x < (address + |data|) - (address + |data|) % 8 + 8
    ensures StoreByte(Written(m, address, data), x) == Merged(m, address, data)[x - (address - address % 8)]
  {
    AlignDown(address);
    MergedIsWholeWords(m, address, data);
    WriteAllByte(m, address - address % 8, Merged(m, address, data), x);
  }

  /** A byte of the first touched word before the write start keeps its value. */
  lemma WrittenHeadByte(m: map<int, Word>, address: int, data: seq<byte>, x: int)
    requires address - address % 8 <= x < address
    ensures StoreByte(Written(m, address, data), x) == StoreByte(m, x)
  {
    var base := address - address % 8;
    var o := x - base;
    AlignDown(address);
    InWord(base, o);
    WrittenByteIsBuf(m, address, data, x);
    assert Merged(m, address, data)[o] == Head(m, address)[o] == WordBytes(ReadWord(m, base))[o];
  }

  lemma TailAt(m: map<int, Word>, e: int, i: int)
    requires 0 <= i < 8 - e % 8
    ensures Tail(m, e)[i] == WordBytes(ReadWord(m, e - e % 8))[e % 8 + i]
  {
  }

  /** A byte of the word holding the end address, from the end on, keeps its value. */
  lemma WrittenTailByte(m: map<int, Word>, address: int, data: seq<byte>, x: int)
    requires address + |data| <= x < (address + |data|) - (address + |data|) % 8 + 8
    ensures StoreByte(Written(m, address, data), x) == StoreByte(m, x)
  {
    var e := address + |data|;
    var tb := e - e % 8;
    AlignDown(e);
    InWord(tb, x - tb);
    TailAt(m, e, x - e);
    WrittenByteIsBuf(m, address, data, x);
    assert Merged(m, address, data)[x - (address - address % 8)] == Tail(m, e)[x - e];
  }

  /** A byte of the span is the data's byte. */
  lemma WrittenDataByte(m: map<int, Word>, address: int, data: seq<byte>, x: int)
    requires address <= x < address + |data|
    ensures StoreByte(Written(m, address, data), x) == data[x - address]
  {
    WrittenByteIsBuf(m, address, data, x);
    assert Merged(m, address, data)[x - (address - address % 8)] == data[x - address];
  }

  /** `api_write_bytes_with_rw` at byte level: the bytes of the span are the data and
      every other byte, inside a touched word or not, keeps its old value. */
  lemma WrittenBytes(m: map<int, Word>, address: int, data: seq<byte>, x: int)
    ensures StoreByte(Written(m, address, data), x) ==
              if address <= x < address + |data| then data[x - address] else StoreByte(m, x)
  {
    var base := address - address % 8;
    var e := address + |data|;
    if base <= x < address {
      WrittenHeadByte(m, address, data, x);
    } else if address <= x < e {
      WrittenDataByte(m, address, data, x);
    } else if e <= x < e - e % 8 + 8 {
      WrittenTailByte(m, address, data, x);
    } else {
      AlignDown(address);
      MergedIsWholeWords(m, address, data);
      WriteAllOtherByte(m, base, Merged(m, address, data), x);
    }
  }

  // ---------------------------------------------------------------------------
  // Reads

  /** The bytes at [address, address + size) through `rf`. */
  function ReadSpan(rf: int -> Word, address: int, size: nat): (r: seq<byte>)
    ensures |r| == size
  {
    seq<byte>(size, i requires 0 <= i < size => ByteVia(rf, address + i))
  }

  /** Length of what `xapi_read_bytes_with_func` returns: it gathers `size//8 + 1`
      words and slices `[start_offset, start_offset + size)` out of them. */
  function AsWrittenReadLength(address: int, size: int): nat
  {
    if size < 0 then 0
    else if size <= 8 * (size / 8 + 1) - address % 8 then size
    else 8 * (size / 8 + 1) - address % 8
  }

  /** The slice is the full size exactly when the start offset and the size's
      remainder fit in one word; otherwise it is short. */
  lemma AsWrittenReadLengthExact(address: int, size: nat)
    ensures AsWrittenReadLength(address, size) == size <==> address % 8 + size % 8 <= 8
    ensures AsWrittenReadLength(address, size) <= size
  {
  }

  /** Reading 2 bytes at an address whose offset in its word is 7 yields 1 byte. */
  lemma AsWrittenReadIsShort()
    ensures AsWrittenReadLength(0x8000_0007, 2) == 1
  {
  }

  /** Python's `s[lo:hi]` for a non-negative lo. */
  function PySlice(s: seq<byte>, lo: nat, hi: int): (r: seq<byte>)
    ensures hi >= 0 ==> |r| == if lo >= hi || lo >= |s| then 0 else (if hi < |s| then hi else |s|) - lo
    ensures forall i :: 0 <= i < |r| ==> lo + i < |s| && r[i] == s[lo + i]
  {
    var h := if hi < 0 then (if |s| + hi < 0 then 0 else |s| + hi) else (if hi < |s| then hi else |s|);
    if lo >= h then [] else s[lo..h]
  }

  lemma AlignedStep(b: int, i: int)
    requires b % 8 == 0
    ensures (b + 8 * i) % 8 == 0
  {
  }

  lemma ShiftMod(b: int, y: int)
    requires b % 8 == 0
    ensures (b + y) % 8 == y % 8
  {
  }

  /** Slicing the gathered bytes is reading the span from the slice start. */
  lemma SliceIsSpan(data: seq<byte>, start: int, so: nat, hi: int, rf: int -> Word, len: nat)
    requires forall j :: 0 <= j < |data| ==> data[j] == ByteVia(rf, start + j)
    requires len == |PySlice(data, so, hi)|
    ensures PySlice(data, so, hi) == ReadSpan(rf, start + so, len)
  {
    var r := PySlice(data, so, hi);
    forall i | 0 <= i < len
      ensures r[i] == ReadSpan(rf, start + so, len)[i]
    {
      assert r[i] == data[so + i];
    }
  }

  /** `size//8 + 1` words sliced at the start offset give the as-written length. */
  lemma AsWrittenSliceLength(data: seq<byte>, address: int, size: int)
    requires |data| == if size / 8 + 1 < 0 then 0 else 8 * (size / 8 + 1)
    ensures |PySlice(data, address % 8, address % 8 + size)| == AsWrittenReadLength(address, size)
  {
  }

  /** `(start_offset + size + 7)//8` words sliced at the start offset give `size` bytes. */
  lemma CoveringSliceLength(data: seq<byte>, so: nat, size: int)
    requires so < 8
    requires |data| == if (so + size + 7) / 8 < 0 then 0 else 8 * ((so + size + 7) / 8)
    ensures |PySlice(data, so, so + size)| == if size < 0 then 0 else size
  {
  }

  /** `xapi_read_bytes_with_func` as written: `size//8 + 1` words are gathered, which
      can be one word too few. */
  method ReadBytesWithFunc(address: int, size: int, readFunc: int -> Word) returns (r: seq<byte>)
    ensures r == ReadSpan(readFunc, address, AsWrittenReadLength(address, size))
  {
    var readData: seq<byte> := [];
    var readCount := size / 8 + 1;
    var startAddress := address - address % 8;
    var startOffset := address - startAddress;
    var index := 0;
    while index < readCount
      invariant 0 <= index <= if readCount < 0 then 0 else readCount
      invariant |readData| == 8 * index
      invariant forall j :: 0 <= j < |readData| ==> readData[j] == ByteVia(readFunc, startAddress + j)
    {
      var word := WordBytes(readFunc(startAddress + 8 * index));
      AlignedStep(startAddress, index);
      forall o | 0 <= o < 8
        ensures word[o] == ByteVia(readFunc, startAddress + 8 * index + o)
      {
        InWord(startAddress + 8 * index, o);
      }
      ghost var prev := readData;
      readData := readData + word;
      forall j | 0 <= j < |readData|
        ensures readData[j] == ByteVia(readFunc, startAddress + j)
      {
        if j < |prev| {
          assert readData[j] == prev[j];
        } else {
          assert readData[j] == word[j - 8 * index];
        }
      }
      index := index + 1;
    }
    assert startAddress + startOffset == address;
    r := PySlice(readData, startOffset, startOffset + size);
    AsWrittenSliceLength(readData, address, size);
    SliceIsSpan(readData, startAddress, startOffset, startOffset + size, readFunc, |r|);
  }

  /** The read with enough words gathered to cover [address, address + size):
      `(start_offset + size + 7) // 8`. */
  method ReadBytesCovering(address: int, size: int, readFunc: int -> Word) returns (r: seq<byte>)
    ensures r == ReadSpan(readFunc, address, if size < 0 then 0 else size)
  {
    var readData: seq<byte> := [];
    var startAddress := address - address % 8;
    var startOffset := address - startAddress;
    var readCount := (startOffset + size + 7) / 8;
    var index := 0;
    while index < readCount
      invariant 0 <= index <= if readCount < 0 then 0 else readCount
      invariant |readData| == 8 * index
      invariant forall j :: 0 <= j < |readData| ==> readData[j] == ByteVia(readFunc, startAddress + j)
    {
      var word := WordBytes(readFunc(startAddress + 8 * index));
      AlignedStep(startAddress, index);
      forall o | 0 <= o < 8
        ensures word[o] == ByteVia(readFunc, startAddress + 8 * index + o)
      {
        InWord(startAddress + 8 * index, o);
      }
      ghost var prev := readData;
      readData := readData + word;
      forall j | 0 <= j < |readData|
        ensures readData[j] == ByteVia(readFunc, startAddress + j)
      {
        if j < |prev| {
          assert readData[j] == prev[j];
        } else {
          assert readData[j] == word[j - 8 * index];
        }
      }
      index := index + 1;
    }
    assert startAddress + startOffset == address;
    r := PySlice(readData, startOffset, startOffset + size);
    CoveringSliceLength(readData, startOffset, size);
    SliceIsSpan(readData, startAddress, startOffset, startOffset + size, readFunc, |r|);
  }

  /** Reading back what was just written to RAM returns the data, at any alignment. */
  lemma RamReadAfterWrite(m: map<int, Word>, address: int, data: seq<byte>)
    ensures ReadSpan(RamReader(Written(m, address, data)), address, |data|) == data
  {
    var m' := Written(m, address, data);
    forall i | 0 <= i < |data|
      ensures ByteVia(RamReader(m'), address + i) == data[i]
    {
      WrittenBytes(m, address, data, address + i);
    }
  }

  /** Reading back what was just written to Flash returns the data, when `flash_base`
      is word-aligned and the address lies at or above it. */
  lemma FlashReadAfterWrite(f: map<int, Word>, flashBase: int, address: int, data: seq<byte>)
    requires flashBase % 8 == 0 && address >= flashBase
    ensures ReadSpan(FlashReader(Written(f, address - flashBase, data), flashBase), address, |data|) == data
  {
    var rel := address - flashBase;
    var f' := Written(f, rel, data);
    forall i | 0 <= i < |data|
      ensures ByteVia(FlashReader(f', flashBase), address + i) == data[i]
    {
      var y := rel + i;
      ShiftMod(flashBase, y);
      assert (address + i) % 8 == y % 8;
      assert (address + i) - (address + i) % 8 - flashBase == y - y % 8 >= 0;
      assert ByteVia(FlashReader(f', flashBase), address + i) == StoreByte(f', y);
      WrittenBytes(f, rel, data, y);
    }
  }

  /** The as-written read returns the written data only when the offset and the size's
      remainder fit in one word; otherwise it returns a strict prefix of it. */
  lemma AsWrittenReadAfterWrite(m: map<int, Word>, address: int, data: seq<byte>)
    ensures ReadSpan(RamReader(Written(m, address, data)), address, AsWrittenReadLength(address, |data|))
              == data[..AsWrittenReadLength(address, |data|)]
    ensures AsWrittenReadLength(address, |data|) == |data| <==> address % 8 + |data| % 8 <= 8
  {
    RamReadAfterWrite(m, address, data);
    AsWrittenReadLengthExact(address, |data|);
  }

  // ---------------------------------------------------------------------------
  // Disassembly cache eviction

  /** `cache_index in range(lo, hi, step)`. */
  predicate InRange(k: int, lo: int, hi: int, step: nat)
    requires step > 0
  {
    lo <= k < hi && (k - lo) % step == 0
  }

  /** First block start evicted by a write at address. */
  function EvictStart(address: int, bsz: nat): int
    requires bsz > 0
  {
    address - address % bsz
  }

  /** Block start one past the last evicted one. */
  function EvictEnd(address: int, len: nat, bsz: nat): int
    requires bsz > 0
  {
    var e := address + len;
    (e - e % bsz) + bsz
  }

  /** The cache after the eviction loop of `api_write_bytes`. */
  function Evicted(cache: map<int, seq<AsmLine>>, address: int, len: nat, bsz: nat): (r: map<int, seq<AsmLine>>)
    requires bsz > 0
    ensures forall k :: k in r <==> k in cache && !InRange(k, EvictStart(address, bsz), EvictEnd(address, len, bsz), bsz)
    ensures forall k :: k in r ==> r[k] == cache[k]
  {
    map k | k in cache && !InRange(k, EvictStart(address, bsz), EvictEnd(address, len, bsz), bsz) :: cache[k]
  }

  /** Every evicted key starts a block overlapping [address, address + len]. */
  lemma EvictedIsTouched(address: int, len: nat, bsz: nat, k: int)
    requires bsz > 0
    requires InRange(k, EvictStart(address, bsz), EvictEnd(address, len, bsz), bsz)
    ensures k % bsz == 0 && address < k + bsz && k <= address + len
  {
    var e := address + len;
    var qa, qe := address / bsz, e / bsz;
    BlockStart(address, bsz);
    BlockStart(e, bsz);
    var lo := bsz * qa;
    var d := (k - lo) / bsz;
    BlockStart(k - lo, bsz);
    assert k == bsz * (qa + d);
    MulMod(qa + d, bsz);
    MulLtCancel(bsz, qa + d, qe + 1);
    MulLe(qa + d, qe, bsz);
  }

  /** Every block start whose block overlaps [address, address + len] is evicted. */
  lemma TouchedIsEvicted(address: int, len: nat, bsz: nat, k: int)
    requires bsz > 0
    requires k % bsz == 0 && address < k + bsz && k <= address + len
    ensures InRange(k, EvictStart(address, bsz), EvictEnd(address, len, bsz), bsz)
  {
    var e := address + len;
    var qa, qe, qk := address / bsz, e / bsz, k / bsz;
    BlockStart(address, bsz);
    BlockStart(e, bsz);
    BlockStart(k, bsz);
    assert k == bsz * qk;
    MulLtCancel(bsz, qa, qk + 1);
    MulLe(qa, qk, bsz);
    MulLeCancel(bsz, qk, qe, e);
    MulLe(qk, qe, bsz);
    assert k - bsz * qa == bsz * (qk - qa);
    MulMod(qk - qa, bsz);
  }

  /** The evicted keys are exactly the block starts whose block overlaps
      [address, address + len] - every touched block, plus the block that starts right
      at the end address when that is block-aligned. */
  lemma EvictedBlocksExactly(address: int, len: nat, bsz: nat, k: int)
    requires bsz > 0
    ensures InRange(k, EvictStart(address, bsz), EvictEnd(address, len, bsz), bsz)
            <==> (k % bsz == 0 && address < k + bsz && k <= address + len)
  {
    if InRange(k, EvictStart(address, bsz), EvictEnd(address, len, bsz), bsz) {
      EvictedIsTouched(address, len, bsz, k);
    }
    if k % bsz == 0 && address < k + bsz && k <= address + len {
      TouchedIsEvicted(address, len, bsz, k);
    }
  }

  /** The block start below a: a - a % b is b * (a / b), at most a and within b of it. */
  lemma BlockStart(a: int, b: nat)
    requires b > 0
    ensures a - a % b == b * (a / b)
    ensures b * (a / b) <= a < b * (a / b) + b
  {
  }

  lemma MulMod(q: int, b: nat)
    requires b > 0
    ensures (b * q) % b == 0
  {
    DivModUnique(b * q, b, q, 0);
  }

  lemma MulLe(x: int, y: int, b: nat)
    requires x <= y
    ensures b * x <= b * y
  {
  }

  lemma MulLtCancel(b: nat, x: int, y: int)
    requires b > 0 && b * x < b * y
    ensures x < y
  {
    if x >= y {
      MulLe(y, x, b);
    }
  }

  /** A multiple of b at most e lies at or below b * (e / b). */
  lemma MulLeCancel(b: nat, q: int, qe: int, e: int)
    requires b > 0 && qe == e / b && b * q <= e
    ensures q <= qe
  {
    BlockStart(e, b);
    MulLtCancel(b, q, qe + 1);
  }

  /** One step of the range walk: a member of range(lo, lo + b(n+1), b) is the last
      step or a member of range(lo, lo + bn, b). */
  lemma RangeStep(k: int, lo: int, n: nat, b: nat)
    requires b > 0
    requires InRange(k, lo, lo + b * n + b, b)
    ensures InRange(k, lo, lo + b * n, b) || k == lo + b * n
  {
    var d := (k - lo) / b;
    BlockStart(k - lo, b);
    assert k - lo == b * d;
    if k >= lo + b * n && k != lo + b * n {
      MulLtCancel(b, n, d);
      MulLe(n + 1, d, b);
    }
  }

  /** The walk stops at the first step at or past pos_end, so it covered exactly
      range(pos_str, pos_end, b). */
  lemma RangeCap(k: int, address: int, len: nat, n: nat, b: nat)
    requires b > 0
    requires EvictStart(address, b) + b * n >= EvictEnd(address, len, b)
    requires n == 0 || EvictStart(address, b) + b * (n - 1) < EvictEnd(address, len, b)
    ensures InRange(k, EvictStart(address, b), EvictStart(address, b) + b * n, b)
            <==> InRange(k, EvictStart(address, b), EvictEnd(address, len, b), b)
  {
    var e := address + len;
    var lo, hi := EvictStart(address, b), EvictEnd(address, len, b);
    BlockStart(address, b);
    BlockStart(e, b);
    var qa, qe := address / b, e / b;
    assert lo == b * qa && hi == b * (qe + 1);
    assert n > 0 by { if n == 0 { MulLtCancel(b, qe + 1, qa); } }
    MulLtCancel(b, qa + n - 1, qe + 1);
    if qa + n - 1 < qe {
      MulLe(qa + n, qe, b);
    }
    assert lo + b * n == hi;
  }

  // ---------------------------------------------------------------------------

  /** The gate of `api_write_bytes`: data to write, an image loaded, and a Flash
      address whose rebased offset lies in `[0, FLASH_LIMIT]`. */
  predicate Accepts(memInited: bool, isFlash: int -> bool, flashBase: int, address: int, len: nat)
  {
    && len >= 1 && memInited
    && (isFlash(address) ==> 0 <= address - flashBase <= FLASH_LIMIT)
  }

  /** The memory side of the debugger: both stores, the load flag and the
      disassembly cache. */
  class Memory {
    /** `mem_inited`: an image has been loaded. */
    var memInited: bool
    /** The RAM store, by absolute aligned address. */
    var ram: map<int, Word>
    /** The Flash store, by aligned address relative to `flash_base`. */
    var flash: map<int, Word>
    /** `info_cache_asm`: block start to decoded listing. */
    var asmCache: map<int, seq<AsmLine>>
    const flashBase: int
    /** `info_cache_bsz`. */
    const cacheBlockSize: nat
    /** `api_is_flash_address`. */
    const isFlash: int -> bool

    ghost predicate Valid()
      reads this
    {
      cacheBlockSize > 0
    }

    constructor (flashBase: int, cacheBlockSize: nat, isFlash: int -> bool, ram: map<int, Word>, memInited: bool)
      requires cacheBlockSize > 0
      ensures Valid()
      ensures this.flashBase == flashBase && this.cacheBlockSize == cacheBlockSize && this.isFlash == isFlash
      ensures this.ram == ram && this.memInited == memInited && flash == map[] && asmCache == map[]
    {
      this.flashBase := flashBase;
      this.cacheBlockSize := cacheBlockSize;
      this.isFlash := isFlash;
      this.ram := ram;
      this.memInited := memInited;
      flash := map[];
      asmCache := map[];
    }

    /** The store `toFlash` selects. */
    function Store(toFlash: bool): map<int, Word>
      reads this
    {
      if toFlash then flash else ram
    }

    /** `dword_write`: one aligned word into the selected store. */
    method WriteWord(toFlash: bool, address: int, w: Word)
      modifies this`ram, this`flash
      ensures Store(toFlash) == old(Store(toFlash))[address := w]
      ensures Store(!toFlash) == old(Store(!toFlash))
    {
      if toFlash {
        flash := flash[address := w];
      } else {
        ram := ram[address := w];
      }
    }

    /** The loop of `api_write_bytes_with_rw`: word i of the buffer goes to
        `base + 8 * i`. */
    method WriteWordLoop(toFlash: bool, base: int, buf: seq<byte>)
      requires |buf| % 8 == 0
      modifies this`ram, this`flash
      ensures Store(toFlash) == WriteAll(old(Store(toFlash)), base, buf)
      ensures Store(!toFlash) == old(Store(!toFlash))
    {
      var i := 0;
      while i < |buf| / 8
        invariant 0 <= i <= |buf| / 8
        invariant WriteAll(Store(toFlash), base + 8 * i, buf[8 * i..]) == WriteAll(old(Store(toFlash)), base, buf)
        invariant Store(!toFlash) == old(Store(!toFlash))
      {
        WriteAllStep(Store(toFlash), base, buf, i);
        WriteWord(toFlash, base + i * 8, BytesWord(buf[i * 8..i * 8 + 8]));
        i := i + 1;
      }
      assert buf[8 * i..] == [];
    }

    /** `api_write_bytes_with_rw` on the store `toFlash` selects: refused for empty data
        or before an image is loaded; otherwise the merged words are written back. */
    method WriteBytesWithRw(address: int, data: seq<byte>, toFlash: bool) returns (ok: bool)
      modifies this`ram, this`flash
      ensures ok <==> |data| >= 1 && memInited
      ensures !ok ==> ram == old(ram) && flash == old(flash)
      ensures ok ==> Store(toFlash) == Written(old(Store(toFlash)), address, data)
      ensures Store(!toFlash) == old(Store(!toFlash))
    {
      if |data| < 1 {
        return false;
      }
      if !memInited {
        return false;
      }
      var startOffset := address % 8;
      var head := WordBytes(ReadWord(Store(toFlash), address - startOffset))[..startOffset];
      var endAddress := address + |data|;
      var endOffset := endAddress % 8;
      var tail := WordBytes(ReadWord(Store(toFlash), endAddress - endOffset))[endOffset..];
      var dataToWrite := head + data + tail;
      assert dataToWrite == Merged(Store(toFlash), address, data);
      MergedIsWholeWords(Store(toFlash), address, data);
      WriteWordLoop(toFlash, address - startOffset, dataToWrite);
      return true;
    }

    /** Whether `api_write_bytes` accepts a write. */
    predicate WriteAccepted(address: int, len: nat)
      reads this
    {
      Accepts(memInited, isFlash, flashBase, address, len)
    }

    /** The eviction loop of `api_write_bytes`: every key in
        `range(pos_str, pos_end, info_cache_bsz)` is dropped from the cache. */
    method EvictCache(address: int, len: nat)
      requires Valid()
      modifies this`asmCache
      ensures asmCache == Evicted(old(asmCache), address, len, cacheBlockSize)
    {
      var bsz := cacheBlockSize;
      var posStr := address - address % bsz;
      var posEnd := address + len;
      posEnd := (posEnd - posEnd % bsz) + bsz;
      assert posStr == EvictStart(address, bsz) && posEnd == EvictEnd(address, len, bsz);
      var cacheIndex := posStr;
      ghost var n := 0;
      while cacheIndex < posEnd
        invariant n >= 0 && cacheIndex == posStr + bsz * n
        invariant n == 0 || posStr + bsz * (n - 1) < posEnd
        invariant forall k :: k in asmCache <==> k in old(asmCache) && !InRange(k, posStr, cacheIndex, bsz)
        invariant forall k :: k in asmCache ==> asmCache[k] == old(asmCache)[k]
        decreases posEnd - cacheIndex
      {
        if cacheIndex in asmCache {
          asmCache := asmCache - {cacheIndex};
        }
        forall k | InRange(k, posStr, cacheIndex + bsz, bsz)
          ensures InRange(k, posStr, cacheIndex, bsz) || k == cacheIndex
        {
          RangeStep(k, posStr, n, bsz);
        }
        forall k | InRange(k, posStr, cacheIndex, bsz)
          ensures InRange(k, posStr, cacheIndex + bsz, bsz)
        {
        }
        assert InRange(cacheIndex, posStr, cacheIndex + bsz, bsz) by { MulMod(n, bsz); }
        cacheIndex := cacheIndex + bsz;
        n := n + 1;
      }
      forall k
        ensures InRange(k, posStr, cacheIndex, bsz) <==> InRange(k, posStr, posEnd, bsz)
      {
        RangeCap(k, address, len, n, bsz);
      }
      assert forall k :: k in asmCache <==> k in Evicted(old(asmCache), address, len, bsz);
    }

    /** `api_write_bytes`: Flash addresses are rebased and range-checked, then the
        merged write is done; a successful write evicts the cached blocks around the
        span, computed from the address as given. */
    method WriteBytes(address: int, data: seq<byte>) returns (ok: bool)
      requires Valid()
      modifies this`ram, this`flash, this`asmCache
      ensures ok == WriteAccepted(address, |data|)
      ensures !ok ==> ram == old(ram) && flash == old(flash) && asmCache == old(asmCache)
      ensures ok && isFlash(address) ==> flash == Written(old(flash), address - flashBase, data) && ram == old(ram)
      ensures ok && !isFlash(address) ==> ram == Written(old(ram), address, data) && flash == old(flash)
      ensures ok ==> asmCache == Evicted(old(asmCache), address, |data|, cacheBlockSize)
    {
      if isFlash(address) {
        var realAddress := address - flashBase;
        if realAddress < 0 {
          return false;
        }
        if realAddress > FLASH_LIMIT {
          return false;
        }
        ok := WriteBytesWithRw(realAddress, data, true);
      } else {
        ok := WriteBytesWithRw(address, data, false);
      }
      if ok {
        EvictCache(address, |data|);
      }
    }

    /** `xapi_read_bytes_from`: refused before an image is loaded or when the start and
        the end address fall on different sides of the Flash classification; Flash is
        read through the clamped rebasing. The covering read is used (see findings). */
    method ReadBytesFrom(address: int, size: int) returns (r: Option<seq<byte>>)
      ensures r.None? <==> !memInited || isFlash(address) != isFlash(address + size)
      ensures r.Some? && isFlash(address) ==>
                r.value == ReadSpan(FlashReader(flash, flashBase), address, if size < 0 then 0 else size)
      ensures r.Some? && !isFlash(address) ==>
                r.value == ReadSpan(RamReader(ram), address, if size < 0 then 0 else size)
    {
      if !memInited {
        return None;
      }
      var endAddress := address + size;
      if (isFlash(address) && !isFlash(endAddress)) || (!isFlash(address) && isFlash(endAddress)) {
        return None;
      }
      var data;
      if isFlash(address) {
        data := ReadBytesCovering(address, size, FlashReader(flash, flashBase));
      } else {
        data := ReadBytesCovering(address, size, RamReader(ram));
      }
      return Some(data);
    }

    /** The raw read `xapi_read_bytes_from` uses for a span starting at `address`. */
    function ReaderAt(address: int): int -> Word
      reads this
    {
      if isFlash(address) then FlashReader(flash, flashBase) else RamReader(ram)
    }

    /** `do_xmem_copy` after argument parsing: a non-positive size is refused, and so
        is a failed read (no image, or a span across the Flash boundary); otherwise the
        bytes read are written at the target as `api_write_bytes` writes them. */
    method MemCopy(source: int, target: int, size: int) returns (ok: bool)
      requires Valid()
      modifies this`ram, this`flash, this`asmCache
      ensures size <= 0 ==> !ok && ram == old(ram) && flash == old(flash) && asmCache == old(asmCache)
      ensures !old(memInited) ==> !ok && ram == old(ram) && flash == old(flash) && asmCache == old(asmCache)
      ensures isFlash(source) != isFlash(source + size) ==>
                !ok && ram == old(ram) && flash == old(flash) && asmCache == old(asmCache)
      ensures size > 0 && old(memInited) && isFlash(source) == isFlash(source + size) ==>
                ok == WriteAccepted(target, size)
      ensures !ok ==> ram == old(ram) && flash == old(flash) && asmCache == old(asmCache)
      ensures ok ==> size > 0 && old(memInited) && isFlash(source) == isFlash(source + size)
      ensures ok && isFlash(target) ==>
                flash == Written(old(flash), target - flashBase, ReadSpan(old(ReaderAt(source)), source, size))
                && ram == old(ram)
      ensures ok && !isFlash(target) ==>
                ram == Written(old(ram), target, ReadSpan(old(ReaderAt(source)), source, size))
                && flash == old(flash)
      ensures ok ==> asmCache == Evicted(old(asmCache), target, size, cacheBlockSize)
    {
      if size <= 0 {
        return false;
      }
      var data := ReadBytesFrom(source, size);
      if data.None? {
        return false;
      }
      ok := WriteBytes(target, data.value);
    }
  }

}
