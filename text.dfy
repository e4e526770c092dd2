/** The Python `str` operations the debugger's commands rely on, over `seq<char>`.
    Only ASCII case mapping and ASCII whitespace are modelled. */
module Text {
  import opened Wrappers

  /** Characters `str.strip()` and `str.split()` treat as whitespace (ASCII range). */
  predicate IsSpace(c: char)
  {
    c == ' ' || ('\t' <= c <= '\r') || ('\U{1C}' <= c <= '\U{1F}')
  }

  predicate AllSpace(s: string)
  {
    forall k :: 0 <= k < |s| ==> IsSpace(s[k])
  }

  predicate NoSpace(s: string)
  {
    forall k :: 0 <= k < |s| ==> !IsSpace(s[k])
  }

  /** Number of leading whitespace characters. */
  function LeadCount(s: string): (k: nat)
    ensures k <= |s| && AllSpace(s[..k])
    ensures k < |s| ==> !IsSpace(s[k])
  {
    if s != [] && IsSpace(s[0]) then 1 + LeadCount(s[1..]) else 0
  }

  /** Number of trailing whitespace characters. */
  function TrailCount(s: string): (k: nat)
    ensures k <= |s| && AllSpace(s[|s| - k..])
    ensures k < |s| ==> !IsSpace(s[|s| - k - 1])
  {
    if s != [] && IsSpace(s[|s| - 1]) then 1 + TrailCount(s[..|s| - 1]) else 0
  }

  /** `s.strip()`: the input without its leading and trailing whitespace. */
  function Strip(s: string): (r: string)
    ensures LeadCount(s) + |r| <= |s|
    ensures r == [] <==> AllSpace(s)
    ensures r != [] ==> !IsSpace(r[0]) && !IsSpace(r[|r| - 1])
  {
    var i := LeadCount(s);
    if i == |s| then []
    else
      var j := |s| - TrailCount(s);
      s[i..j]
  }

  /** Text without whitespace is its own strip. */
  lemma StripNoSpace(s: string)
    requires NoSpace(s)
    ensures Strip(s) == s
  {
    if s != [] {
      assert !IsSpace(s[|s| - 1]);
    }
  }

  /** Text that neither starts nor ends with whitespace is its own strip. */
  lemma StripTrimmed(s: string)
    requires s == [] || (!IsSpace(s[0]) && !IsSpace(s[|s| - 1]))
    ensures Strip(s) == s
  {
    if s != [] {
      assert LeadCount(s) == 0 && TrailCount(s) == 0;
      assert s[0..|s|] == s;
    }
  }

  /** Stripping twice is stripping once. */
  lemma StripIdempotent(s: string)
    ensures Strip(Strip(s)) == Strip(s)
  {
    StripTrimmed(Strip(s));
  }

  /** Stripping adds no character. */
  lemma StripKeepsAbsent(s: string, c: char)
    requires c !in s
    ensures c !in Strip(s)
  {
    var r := Strip(s);
    forall k | 0 <= k < |r|
      ensures r[k] != c
    {
      assert r[k] == s[LeadCount(s) + k];
    }
  }

  /** Length of the leading run of non-whitespace characters. */
  function WordLen(s: string): (k: nat)
    ensures k <= |s| && NoSpace(s[..k])
    ensures k < |s| ==> IsSpace(s[k])
    ensures s != [] && !IsSpace(s[0]) ==> k >= 1
  {
    if s != [] && !IsSpace(s[0]) then 1 + WordLen(s[1..]) else 0
  }

  /** `s.split()`: the maximal runs of non-whitespace characters, in order. */
  function Split(s: string): (ws: seq<string>)
    decreases |s|
  {
    var i := LeadCount(s);
    var t := s[i..];
    if t == [] then []
    else
      assert t[0] == s[i];
      var k := WordLen(t);
      [t[..k]] + Split(t[k..])
  }

  /** The words of `s.split()` are nonempty and hold no whitespace; there are none exactly when `s` is blank. */
  lemma {:induction false} SplitWords(s: string)
    ensures forall w <- Split(s) :: w != [] && NoSpace(w)
    ensures Split(s) == [] <==> AllSpace(s)
    decreases |s|
  {
    var i := LeadCount(s);
    var t := s[i..];
    if t == [] {
      assert s[..i] == s;
    } else {
      var k := WordLen(t);
      assert t[0] == s[i];
      assert k >= 1;
      SplitWords(t[k..]);
      var ws := Split(s);
      assert ws == [t[..k]] + Split(t[k..]);
      assert !AllSpace(s) by { assert !IsSpace(s[i]); }
      forall w <- ws
        ensures w != [] && NoSpace(w)
      {
        if w != t[..k] {
          assert w in Split(t[k..]);
        }
      }
    }
  }

  /** `" ".join(ws)`. */
  function JoinSpace(ws: seq<string>): string
  {
    if ws == [] then [] else if |ws| == 1 then ws[0] else ws[0] + " " + JoinSpace(ws[1..])
  }

  lemma {:induction false} WordLenOfWord(w: string, rest: string)
    requires NoSpace(w) && (rest == [] || IsSpace(rest[0]))
    ensures WordLen(w + rest) == |w|
  {
    if w != [] {
      assert (w + rest)[1..] == w[1..] + rest;
      WordLenOfWord(w[1..], rest);
    }
  }

  lemma SplitLeadingSpace(s: string)
    requires s != [] && IsSpace(s[0])
    ensures Split(s) == Split(s[1..])
  {
    var i := LeadCount(s[1..]);
    assert LeadCount(s) == 1 + i;
    assert s[1 + i..] == s[1..][i..];
  }

  lemma SplitWord(w: string, rest: string)
    requires w != [] && NoSpace(w) && (rest == [] || IsSpace(rest[0]))
    ensures Split(w + rest) == [w] + Split(rest)
  {
    var t := w + rest;
    assert LeadCount(t) == 0;
    assert t[0..] == t;
    WordLenOfWord(w, rest);
    assert t[..|w|] == w && t[|w|..] == rest;
  }

  /** Splitting words joined by single spaces gives the words back. */
  lemma {:induction false} SplitJoinSpace(ws: seq<string>)
    requires forall w <- ws :: w != [] && NoSpace(w)
    ensures Split(JoinSpace(ws)) == ws
  {
    if |ws| == 1 {
      assert ws[0] in ws;
      SplitWord(ws[0], []);
      assert ws[0] + [] == ws[0];
    } else if |ws| > 1 {
      var j := JoinSpace(ws[1..]);
      assert forall w <- ws[1..] :: w in ws;
      SplitJoinSpace(ws[1..]);
      assert ws[0] + " " + j == ws[0] + (" " + j);
      assert ws[0] in ws;
      SplitWord(ws[0], " " + j);
      SplitLeadingSpace(" " + j);
      assert (" " + j)[1..] == j;
      calc {
        Split(JoinSpace(ws));
        Split(ws[0] + (" " + j));
        [ws[0]] + Split(" " + j);
        [ws[0]] + Split(j);
        [ws[0]] + ws[1..];
        { ConsTail(ws); }
        ws;
      }
    }
  }

  lemma ConsTail<T>(s: seq<T>)
    requires s != []
    ensures [s[0]] + s[1..] == s
  {
  }

  /** `s.startswith(p)`. */
  predicate StartsWith(s: string, p: string)
  {
    p <= s
  }

  /** `s.endswith(p)`. */
  predicate EndsWith(s: string, p: string)
  {
    |p| <= |s| && s[|s| - |p|..] == p
  }

  /** `p in s` for strings. */
  predicate Contains(s: string, p: string)
  {
    p <= s || (s != [] && Contains(s[1..], p))
  }

  /** `s.replace(pat, rep)`: left-to-right, non-overlapping replacement. */
  function Replace(s: string, pat: string, rep: string): (r: string)
    requires pat != []
    decreases |s|
  {
    if |s| < |pat| then s
    else if s[..|pat|] == pat then rep + Replace(s[|pat|..], pat, rep)
    else [s[0]] + Replace(s[1..], pat, rep)
  }

  /** Replacing a one-character pattern by text that does not contain it removes
      every occurrence of that character. */
  lemma {:induction false} ReplaceRemovesChar(s: string, c: char, rep: string)
    requires c !in rep
    ensures c !in Replace(s, [c], rep)
    decreases |s|
  {
    if |s| >= 1 {
      ReplaceRemovesChar(s[1..], c, rep);
    }
  }

  /** Replacement never introduces a character that neither the input nor the
      replacement holds. */
  lemma {:induction false} ReplaceKeepsAbsent(s: string, pat: string, rep: string, c: char)
    requires pat != [] && c !in s && c !in rep
    ensures c !in Replace(s, pat, rep)
    decreases |s|
  {
    if |s| >= |pat| {
      if s[..|pat|] == pat {
        ReplaceKeepsAbsent(s[|pat|..], pat, rep, c);
      } else {
        ReplaceKeepsAbsent(s[1..], pat, rep, c);
      }
    }
  }

  /** `s.split(c)[0]`: the text before the first `c` (all of `s` when there is none). */
  function UpTo(s: string, c: char): (r: string)
    ensures c !in r && r <= s
    ensures |r| < |s| ==> s[|r|] == c
    decreases |s|
  {
    if s == [] || s[0] == c then [] else [s[0]] + UpTo(s[1..], c)
  }

  lemma {:induction false} UpToPrefix(t: string, rest: string, c: char)
    requires c !in t
    ensures UpTo(t + rest, c) == t + UpTo(rest, c)
    decreases |t|
  {
    if t != [] {
      assert (t + rest)[0] == t[0] && t[0] in t;
      assert (t + rest)[1..] == t[1..] + rest;
      UpToPrefix(t[1..], rest, c);
      calc {
        UpTo(t + rest, c);
        [t[0]] + UpTo(t[1..] + rest, c);
        [t[0]] + (t[1..] + UpTo(rest, c));
        ([t[0]] + t[1..]) + UpTo(rest, c);
        { assert [t[0]] + t[1..] == t; }
        t + UpTo(rest, c);
      }
    } else {
      assert t + rest == rest;
    }
  }

  /** Text holding no character that could start the pattern is left as it is. */
  lemma {:induction false} ReplaceAbsent(s: string, pat: string, rep: string)
    requires pat != [] && pat[0] !in s
    ensures Replace(s, pat, rep) == s
    decreases |s|
  {
    if |s| >= |pat| {
      assert s[..|pat|][0] == s[0];
      ReplaceAbsent(s[1..], pat, rep);
      assert [s[0]] + s[1..] == s;
    }
  }

  /** A prefix holding no character that could start the pattern passes through. */
  lemma {:induction false} ReplaceAbsentPrefix(a: string, rest: string, pat: string, rep: string)
    requires pat != [] && pat[0] !in a
    ensures Replace(a + rest, pat, rep) == a + Replace(rest, pat, rep)
    decreases |a|
  {
    if a == [] {
      assert a + rest == rest;
    } else {
      var s := a + rest;
      assert s[0] == a[0] && a[0] in a;
      assert s[1..] == a[1..] + rest;
      if |s| >= |pat| {
        assert s[..|pat|][0] == s[0];
        ReplaceAbsentPrefix(a[1..], rest, pat, rep);
        assert [a[0]] + (a[1..] + Replace(rest, pat, rep)) == a + Replace(rest, pat, rep);
      } else {
        assert |rest| < |pat|;
      }
    }
  }

  function UpperChar(c: char): char
  {
    if 'a' <= c <= 'z' then (c as int - 32) as char else c
  }

  function LowerChar(c: char): char
  {
    if 'A' <= c <= 'Z' then (c as int + 32) as char else c
  }

  /** `s.upper()` on ASCII letters. */
  function Upper(s: string): (r: string)
    ensures |r| == |s|
    ensures forall k :: 0 <= k < |s| ==> r[k] == UpperChar(s[k])
  {
    seq(|s|, k requires 0 <= k < |s| => UpperChar(s[k]))
  }

  /** `s.lower()` on ASCII letters. */
  function Lower(s: string): (r: string)
    ensures |r| == |s|
    ensures forall k :: 0 <= k < |s| ==> r[k] == LowerChar(s[k])
  {
    seq(|s|, k requires 0 <= k < |s| => LowerChar(s[k]))
  }

  // ---------------------------------------------------------------------------
  // Digits, as printed by `%x` / `%d` and parsed by `int(s, base)`.

  const DIGIT_CHARS: string := "0123456789abcdef"

  function DigitChar(d: nat): char
    requires d < 16
  {
    DIGIT_CHARS[d]
  }

  /** Value of one digit character in any base up to 16 (either case for letters). */
  function DigitValue(c: char): (r: Option<nat>)
    ensures r.Some? ==> r.value < 16
  {
    if '0' <= c <= '9' then Some(c as int - '0' as int)
    else if 'a' <= c <= 'f' then Some(c as int - 'a' as int + 10)
    else if 'A' <= c <= 'F' then Some(c as int - 'A' as int + 10)
    else None
  }

  lemma DigitValueOfChar(d: nat)
    requires d < 16
    ensures DigitValue(DigitChar(d)) == Some(d)
  {
  }

  /** Digits of `n` in `base`, most significant first, lower-case, no prefix. */
  function Digits(n: nat, base: nat): (r: string)
    requires 2 <= base <= 16
    ensures r != []
    decreases n
  {
    if n < base then [DigitChar(n)] else Digits(n / base, base) + [DigitChar(n % base)]
  }

  /** A non-empty string of digits of `base`, read as a number. */
  function ParseDigits(s: string, base: nat): Option<nat>
    requires 2 <= base <= 16
    decreases |s|
  {
    if s == [] then None
    else
      var d := DigitValue(s[|s| - 1]);
      if d.None? || d.value >= base then None
      else if |s| == 1 then Some(d.value)
      else
        match ParseDigits(s[..|s| - 1], base)
        case None => None
        case Some(v) => Some(v * base + d.value)
  }

  /** Parsing the printed digits of a number gives the number back. */
  lemma {:induction false} ParseDigitsRoundTrip(n: nat, base: nat)
    requires 2 <= base <= 16
    ensures ParseDigits(Digits(n, base), base) == Some(n)
    decreases n
  {
    if n < base {
      ParseDigitsSingle(n, base);
    } else {
      var q, d := n / base, n % base;
      DivMod(n, base);
      assert q < n;
      ParseDigitsRoundTrip(q, base);
      DigitValueOfChar(d);
      DigitsSnoc(n, base);
      ParseDigitsSnoc(Digits(q, base), DigitChar(d), base, q, d, n);
    }
  }

  lemma ParseDigitsSingle(n: nat, base: nat)
    requires 2 <= base <= 16 && n < base
    ensures ParseDigits(Digits(n, base), base) == Some(n)
  {
    DigitValueOfChar(n);
    assert Digits(n, base) == [DigitChar(n)];
  }

  lemma DigitsSnoc(n: nat, base: nat)
    requires 2 <= base <= 16 && n >= base
    ensures Digits(n, base) == Digits(n / base, base) + [DigitChar(n % base)]
  {
  }

  lemma ParseDigitsSnoc(p: string, c: char, base: nat, v: nat, d: nat, w: nat)
    requires 2 <= base <= 16
    requires ParseDigits(p, base) == Some(v) && DigitValue(c) == Some(d) && d < base
    requires w == v * base + d
    ensures ParseDigits(p + [c], base) == Some(w)
  {
    assert (p + [c])[..|p + [c]| - 1] == p;
  }

  lemma DivMod(n: nat, base: nat)
    requires base > 0
    ensures n == (n / base) * base + n % base
  {
  }

  /** Printing digits loses nothing: distinct numbers print differently. */
  lemma DigitsInjective(a: nat, b: nat, base: nat)
    requires 2 <= base <= 16
    requires Digits(a, base) == Digits(b, base)
    ensures a == b
  {
    ParseDigitsRoundTrip(a, base);
    ParseDigitsRoundTrip(b, base);
  }

  /** `"%x" % n`: lower-case hexadecimal, with a leading `-` for a negative value. */
  function FormatHex(n: int): (r: string)
    ensures r != [] && (r[0] == '-' <==> n < 0)
  {
    if n < 0 then "-" + Digits(-n, 16) else FormatHexNoMinusDigit(n); Digits(n, 16)
  }

  lemma FormatHexNoMinusDigit(n: nat)
    ensures Digits(n, 16)[0] != '-'
  {
    var s := Digits(n, 16);
    if n >= 16 {
      FormatHexNoMinusDigit(n / 16);
      assert s[0] == Digits(n / 16, 16)[0];
    }
  }

  lemma {:induction false} FormatHexInjective(a: int, b: int)
    requires FormatHex(a) == FormatHex(b)
    ensures a == b
  {
    if a < 0 && b < 0 {
      assert FormatHex(a)[1..] == Digits(-a, 16);
      assert FormatHex(b)[1..] == Digits(-b, 16);
      DigitsInjective(-a, -b, 16);
    } else if a >= 0 && b >= 0 {
      DigitsInjective(a, b, 16);
    }
  }

  /** Every character `FormatHex` prints is a hex digit or the sign. */
  lemma DigitsAreDigits(n: nat, base: nat)
    requires 2 <= base <= 16
    ensures forall c <- Digits(n, base) :: c in DIGIT_CHARS
  {
    if n < base {
      assert Digits(n, base) == [DigitChar(n)];
    } else {
      DigitsAreDigits(n / base, base);
      var d := DigitChar(n % base);
      assert d in DIGIT_CHARS;
      assert Digits(n, base) == Digits(n / base, base) + [d];
    }
  }

  /** `int(s, base)` for base 10 or 16: surrounding whitespace, an optional sign and,
      in base 16, an optional `0x`/`0X` prefix; digit separators `_` are not modelled. */
  function ParseInt(s: string, base: nat): (r: Option<int>)
    requires base == 10 || base == 16
  {
    var t := Strip(s);
    var neg := t != [] && t[0] == '-';
    var u := if t != [] && (t[0] == '-' || t[0] == '+') then t[1..] else t;
    var body := if base == 16 && (StartsWith(u, "0x") || StartsWith(u, "0X")) then u[2..] else u;
    match ParseDigits(body, base)
    case None => None
    case Some(v) => var x: int := v; Some(if neg then -x else x)
  }

  /** `int(s, 0)`: the prefix chooses the base (`0x`, `0o`, `0b`, else decimal), and a
      decimal literal may not start with `0` unless it is all zeros. */
  function ParseInt0(s: string): (r: Option<int>)
  {
    var t := Strip(s);
    var neg := t != [] && t[0] == '-';
    var u := if t != [] && (t[0] == '-' || t[0] == '+') then t[1..] else t;
    var parsed :=
      if StartsWith(u, "0x") || StartsWith(u, "0X") then ParseDigits(u[2..], 16)
      else if StartsWith(u, "0o") || StartsWith(u, "0O") then ParseDigits(u[2..], 8)
      else if StartsWith(u, "0b") || StartsWith(u, "0B") then ParseDigits(u[2..], 2)
      else if u != [] && u[0] == '0' && exists k :: 0 <= k < |u| && u[k] != '0' then None
      else ParseDigits(u, 10);
    match parsed
    case None => None
    case Some(v) => var x: int := v; Some(if neg then -x else x)
  }

  /** Digits contain no whitespace. */
  lemma DigitsNoSpace(n: nat, base: nat)
    requires 2 <= base <= 16
    ensures NoSpace(Digits(n, base))
  {
    DigitsAreDigits(n, base);
    var s := Digits(n, base);
    forall k | 0 <= k < |s|
      ensures !IsSpace(s[k])
    {
      assert s[k] in DIGIT_CHARS;
    }
  }

  /** A digit is not a sign, not an `x` and not whitespace. */
  lemma DigitCharIsPlain(c: char)
    requires c in DIGIT_CHARS
    ensures c != '-' && c != '+' && c != 'x' && c != 'X' && !IsSpace(c)
  {
  }

  /** `int("%x" % n, 16)` gives n back. */
  lemma ParseIntHexRoundTrip(n: nat)
    ensures ParseInt(FormatHex(n), 16) == Some(n)
  {
    var s := Digits(n, 16);
    assert FormatHex(n) == s;
    DigitsAreDigits(n, 16);
    DigitsNoSpace(n, 16);
    StripNoSpace(s);
    DigitCharIsPlain(s[0]);
    if |s| >= 2 {
      DigitCharIsPlain(s[1]);
    }
    assert !StartsWith(s, "0x") && !StartsWith(s, "0X");
    ParseDigitsRoundTrip(n, 16);
  }

  /** `int("0x%x" % n, 0)` gives n back. */
  lemma ParseInt0HexRoundTrip(n: nat)
    ensures ParseInt0("0x" + Digits(n, 16)) == Some(n)
  {
    var d := Digits(n, 16);
    var s := "0x" + d;
    DigitsNoSpace(n, 16);
    assert NoSpace(s) by {
      forall k | 0 <= k < |s|
        ensures !IsSpace(s[k])
      {
        if k >= 2 {
          assert s[k] == d[k - 2];
        }
      }
    }
    StripNoSpace(s);
    assert StartsWith(s, "0x") && s[2..] == d;
    ParseDigitsRoundTrip(n, 16);
  }

  /** `"%d" % n` for a natural number. */
  function FormatDecimal(n: nat): string
  {
    Digits(n, 10)
  }
}
