/** Little-endian conversion between 64-bit words and 8-byte sequences, as done by
    `int.to_bytes(8, byteorder='little')` and `int.from_bytes(..., 'little')`. */
module Bytes {

  type byte = x: int | 0 <= x < 256

  const WORD_LIMIT: int := 0x1_0000_0000_0000_0000

  /** An unsigned 64-bit word, the unit the physical stores are accessed in. */
  type Word = x: int | 0 <= x < WORD_LIMIT

  function Pow256(n: nat): (r: nat)
    ensures r >= 1
  {
    if n == 0 then 1 else 256 * Pow256(n - 1)
  }

  /** `w.to_bytes(n, 'little')` for a value that fits (least significant byte first). */
  function LeBytes(w: nat, n: nat): (r: seq<byte>)
    ensures |r| == n
  {
    if n == 0 then [] else [w % 256] + LeBytes(w / 256, n - 1)
  }

  /** `int.from_bytes(s, 'little')`. */
  function LeValue(s: seq<byte>): nat
  {
    if s == [] then 0 else s[0] + 256 * LeValue(s[1..])
  }

  lemma {:induction false} LeValueBound(s: seq<byte>)
    ensures LeValue(s) < Pow256(|s|)
  {
    if s != [] {
      LeValueBound(s[1..]);
    }
  }

  /** `w % (256 * p)` split into its low byte and the rest. */
  lemma ModSplit(w: nat, p: nat)
    requires p > 0
    ensures w % (256 * p) == w % 256 + 256 * ((w / 256) % p)
  {
    var q, r0 := w / 256, w % 256;
    var q2, r1 := q / p, q % p;
    assert q == p * q2 + r1;
    assert w == 256 * q + r0;
    assert w == (256 * p) * q2 + (256 * r1 + r0) by {
      assert 256 * q == 256 * (p * q2) + 256 * r1;
      assert 256 * (p * q2) == (256 * p) * q2;
    }
    assert 256 * r1 + r0 < 256 * p by { MulMono(256, r1, p - 1); }
    DivModUnique(w, 256 * p, q2, 256 * r1 + r0);
  }

  /** Decoding what was encoded gives the value back (modulo the width). */
  lemma {:induction false} LeValueOfBytes(w: nat, n: nat)
    ensures LeValue(LeBytes(w, n)) == w % Pow256(n)
  {
    if n > 0 {
      LeValueOfBytes(w / 256, n - 1);
      assert LeBytes(w, n)[1..] == LeBytes(w / 256, n - 1);
      ModSplit(w, Pow256(n - 1));
    }
  }

  lemma DivModUnique(a: int, d: int, q: int, r: int)
    requires d > 0 && 0 <= r < d && a == d * q + r
    ensures a % d == r && a / d == q
  {
    var q0, r0 := a / d, a % d;
    assert a == d * q0 + r0;
    if q0 > q {
      assert d * q0 >= d * (q + 1) by { MulMono(d, q + 1, q0); }
    } else if q0 < q {
      assert d * q >= d * (q0 + 1) by { MulMono(d, q0 + 1, q); }
    }
  }

  lemma MulMono(d: int, x: int, y: int)
    requires d > 0 && x <= y
    ensures d * x <= d * y
  {
  }

  /** Encoding what was decoded gives the bytes back. */
  lemma {:induction false} LeBytesOfValue(s: seq<byte>)
    ensures LeBytes(LeValue(s), |s|) == s
  {
    if s != [] {
      LeBytesOfValue(s[1..]);
      var v := LeValue(s[1..]);
      DivModUnique(LeValue(s), 256, v, s[0]);
    }
  }

  /** Byte i of `w` in little-endian order: its i-th base-256 digit. */
  function ByteOf(w: nat, i: nat): byte
  {
    if i == 0 then w % 256 else ByteOf(w / 256, i - 1)
  }

  /** `w.to_bytes(8, 'little')`. */
  function WordBytes(w: Word): (r: seq<byte>)
    ensures |r| == 8
  {
    seq(8, i requires 0 <= i < 8 => ByteOf(w, i))
  }

  lemma {:induction false} LeBytesAt(w: nat, n: nat, i: nat)
    requires i < n
    ensures LeBytes(w, n)[i] == ByteOf(w, i)
  {
    if i > 0 {
      LeBytesAt(w / 256, n - 1, i - 1);
    }
  }

  /** The digit-wise encoding is the recursive one. */
  lemma WordBytesIsLe(w: Word)
    ensures WordBytes(w) == LeBytes(w, 8)
  {
    forall i | 0 <= i < 8
      ensures WordBytes(w)[i] == LeBytes(w, 8)[i]
    {
      LeBytesAt(w, 8, i);
    }
  }

  /** `int.from_bytes(s, 'little')` for 8 bytes. */
  function BytesWord(s: seq<byte>): (w: Word)
    requires |s| == 8
    ensures WordBytes(w) == s
  {
    LeValueBound(s);
    LeBytesOfValue(s);
    assert Pow256(8) == WORD_LIMIT;
    WordBytesIsLe(LeValue(s));
    LeValue(s)
  }

  lemma WordBytesRoundTrip(w: Word)
    ensures BytesWord(WordBytes(w)) == w
  {
    WordBytesIsLe(w);
    LeValueOfBytes(w, 8);
    assert Pow256(8) == WORD_LIMIT;
  }
}
