/** The batch runner: the list of commands a script may not run, and the way each
    script or log line is turned into the command that gets dispatched. */
module Batch {
  import opened Wrappers
  import opened Text

  /** The commands ignored in a batch when the debugger starts. */
  const DEFAULT_IGNORE: seq<string> := ["xload_script", "xreplay_log", "xui"]

  predicate NoDup(xs: seq<string>)
  {
    forall i, j :: 0 <= i < j < |xs| ==> xs[i] != xs[j]
  }

  /** `cmd_in_ignore_list`: some entry of the list is a prefix of the command. */
  predicate Ignored(ignore: seq<string>, cmd: string)
  {
    exists k :: 0 <= k < |ignore| && StartsWith(cmd, ignore[k])
  }

  // ---------------------------------------------------------------------------
  // The ignore list as a Python list.

  /** `list.remove(x)`: drops the first occurrence of `x`. */
  function RemoveFirst(xs: seq<string>, x: string): seq<string>
    decreases |xs|
  {
    if xs == [] then []
    else if xs[0] == x then xs[1..]
    else [xs[0]] + RemoveFirst(xs[1..], x)
  }

  /** Removing drops exactly the first occurrence and keeps the rest in order. */
  lemma {:induction false} RemoveFirstAt(xs: seq<string>, x: string, i: nat)
    requires i < |xs| && xs[i] == x && x !in xs[..i]
    ensures RemoveFirst(xs, x) == xs[..i] + xs[i + 1..]
    decreases i
  {
    if i > 0 {
      assert xs[0] in xs[..i];
      assert xs[1..][..i - 1] == xs[..i][1..];
      RemoveFirstAt(xs[1..], x, i - 1);
      assert xs[1..][i..] == xs[i + 1..];
    }
  }

  /** On a list without duplicates, removing `x` leaves every other entry and only
      those, still without duplicates. */
  lemma {:induction false} RemoveFirstNoDup(xs: seq<string>, x: string)
    requires NoDup(xs)
    ensures NoDup(RemoveFirst(xs, x))
    ensures forall y :: y in RemoveFirst(xs, x) <==> y in xs && y != x
    decreases |xs|
  {
    if xs != [] {
      assert forall j :: 0 <= j < |xs[1..]| ==> xs[1..][j] != xs[0] by {
        forall j | 0 <= j < |xs[1..]|
          ensures xs[1..][j] != xs[0]
        {
          assert xs[1..][j] == xs[j + 1];
        }
      }
      assert xs[0] !in xs[1..];
      if xs[0] != x {
        RemoveFirstNoDup(xs[1..], x);
        forall y
          ensures y in RemoveFirst(xs, x) <==> y in xs && y != x
        {
          assert y in xs <==> y == xs[0] || y in xs[1..];
        }
      }
    }
  }

  /** Adding an entry and removing it again gives the list back. */
  lemma {:induction false} AddThenRemove(xs: seq<string>, x: string)
    requires x !in xs
    ensures RemoveFirst(xs + [x], x) == xs
    decreases |xs|
  {
    if xs == [] {
      assert [x][1..] == [];
    } else {
      assert (xs + [x])[1..] == xs[1..] + [x];
      AddThenRemove(xs[1..], x);
    }
  }

  /** An added entry ignores every command it is a prefix of. */
  lemma AddedIsIgnored(ignore: seq<string>, cmd: string, rest: string)
    ensures Ignored(ignore + [cmd], cmd + rest)
  {
    var l := ignore + [cmd];
    assert l[|ignore|] == cmd;
    assert StartsWith(cmd + rest, l[|ignore|]) by {
      assert (cmd + rest)[..|cmd|] == cmd;
    }
  }

  /** An empty list ignores nothing. */
  lemma ClearedIgnoresNothing(cmd: string)
    ensures !Ignored([], cmd)
  {
  }

  // ---------------------------------------------------------------------------
  // One line of a script or log.

  /** Lines 52-60 of the runner: strip the line, then, when a prefix or suffix is
      given, keep only lines carrying it and strip it off. */
  function Targeted(line: string, prefix: string, suffix: string): Option<string>
  {
    if prefix != [] && !StartsWith(Strip(line), prefix) then None
    else
      var l1 := AfterPrefix(line, prefix);
      if suffix != [] && !EndsWith(l1, suffix) then None
      else Some(BeforeSuffix(l1, suffix))
  }

  /** What prefix removal keeps of a line. */
  function AfterPrefix(line: string, prefix: string): string
  {
    var l := Strip(line);
    if prefix != [] && StartsWith(l, prefix) then Strip(l[|prefix|..]) else l
  }

  /** What suffix removal keeps of a line. */
  function BeforeSuffix(l: string, suffix: string): string
  {
    if suffix != [] && EndsWith(l, suffix) then Strip(l[..|l| - |suffix|]) else l
  }

  /** Lines 61-66 of the runner: a line starting with `#` is a comment; otherwise each
      `\#` is hidden behind `tag`, the line is cut at the first `#`, the hidden
      characters come back as `#`, and a line left empty is dropped. */
  function Uncommented(l: string, tag: string): Option<string>
    requires tag != []
  {
    if StartsWith(l, "#") then None
    else
      var c := Strip(Replace(Cut(l, tag), tag, "#"));
      if c == [] then None else Some(c)
  }

  /** The command a line stands for, if any. */
  function FilterLine(line: string, prefix: string, suffix: string, tag: string): Option<string>
    requires tag != []
  {
    match Targeted(line, prefix, suffix)
    case None => None
    case Some(l) => Uncommented(l, tag)
  }

  /** The escape reading the tag implements: `\#` is a literal `#`, and an unescaped
      `#` starts a comment. */
  function Unescape(s: string): string
    decreases |s|
  {
    if s == [] then []
    else if |s| >= 2 && s[0] == '\\' && s[1] == '#' then "#" + Unescape(s[2..])
    else if s[0] == '#' then []
    else [s[0]] + Unescape(s[1..])
  }

  /** tag[..m] can end a false tag: it is the whole tag, or a hidden `\#` right after
      it would complete the tag (tag[m..] repeats the tag's beginning). */
  predicate Border(tag: string, m: int)
  {
    0 < m <= |tag| && (m == |tag| || tag[m..] == tag[..|tag| - m])
  }

  /** `s` does not start with tag[..m]. */
  predicate PrefixDiffers(s: string, tag: string, m: int)
  {
    0 <= m <= |tag| && m <= |s| ==> s[..m] != tag[..m]
  }

  /** No prefix of `tag` that can end a false tag starts `s`. */
  ghost predicate NoTagStart(s: string, tag: string)
  {
    forall m :: Border(tag, m) ==> PrefixDiffers(s, tag, m)
  }

  /** Position p of `s` does not start a false tag. */
  ghost predicate SafeAt(s: string, tag: string, p: int)
  {
    0 <= p <= |s| && NoTagStart(s[p..], tag)
  }

  /** No position of the line starts a false tag: restoring `#` for the tag then only
      undoes the hiding. A tag whose first character is absent from the line is safe
      (TagSafeFirstAbsent), and so is the runner's tag on any line without
      "sharp_tag_" (ProgramTagSafe). */
  ghost predicate TagSafe(s: string, tag: string)
  {
    forall p :: 0 <= p < |s| ==> SafeAt(s, tag, p)
  }

  /** Every piece of a safe line is safe. */
  lemma TagSafeSlice(s: string, tag: string, a: int, b: int)
    requires 0 <= a <= b <= |s| && TagSafe(s, tag)
    ensures TagSafe(s[a..b], tag)
  {
    forall p | 0 <= p < b - a
      ensures SafeAt(s[a..b], tag, p)
    {
      assert SafeAt(s, tag, a + p);
      forall m | Border(tag, m)
        ensures PrefixDiffers(s[a..b][p..], tag, m)
      {
        if m <= |s[a..b][p..]| {
          assert PrefixDiffers(s[a + p..], tag, m);
          assert s[a..b][p..][..m] == s[a + p..][..m];
        }
      }
    }
  }

  /** Every prefix of a safe line is safe. */
  lemma TagSafePrefix(s: string, tag: string, b: int)
    requires 0 <= b <= |s| && TagSafe(s, tag)
    ensures TagSafe(s[..b], tag)
  {
    forall p | 0 <= p < b
      ensures SafeAt(s[..b], tag, p)
    {
      assert SafeAt(s, tag, p);
      forall m | Border(tag, m)
        ensures PrefixDiffers(s[..b][p..], tag, m)
      {
        if m <= |s[..b][p..]| {
          assert PrefixDiffers(s[p..], tag, m);
          assert s[..b][p..][..m] == s[p..][..m];
        }
      }
    }
  }

  /** Every suffix of a safe line is safe. */
  lemma TagSafeSuffix(s: string, tag: string, a: int)
    requires 0 <= a <= |s| && TagSafe(s, tag)
    ensures TagSafe(s[a..], tag)
  {
    forall p | 0 <= p < |s| - a
      ensures SafeAt(s[a..], tag, p)
    {
      assert SafeAt(s, tag, a + p);
      assert s[a..][p..] == s[a + p..];
    }
  }

  lemma TagSafeStrip(s: string, tag: string)
    requires TagSafe(s, tag)
    ensures TagSafe(Strip(s), tag)
  {
    if Strip(s) != [] {
      var i, j := LeadCount(s), |s| - TrailCount(s);
      assert i < |s| && Strip(s) == s[i..j];
      TagSafeSlice(s, tag, i, j);
    }
  }

  /** The text the runner cuts a line down to before restoring `#`: each `\#` hidden
      behind the tag, then everything from the first `#` dropped. */
  function Cut(s: string, tag: string): string
  {
    UpTo(Replace(s, "\\#", tag), '#')
  }

  lemma CutEscape(s: string, tag: string)
    requires '#' !in tag && |s| >= 2 && s[0] == '\\' && s[1] == '#'
    ensures Cut(s, tag) == tag + Cut(s[2..], tag)
  {
    assert s[..2] == "\\#";
    assert Replace(s, "\\#", tag) == tag + Replace(s[2..], "\\#", tag);
    UpToPrefix(tag, Replace(s[2..], "\\#", tag), '#');
  }

  lemma CutOther(s: string, tag: string)
    requires s != [] && !(|s| >= 2 && s[0] == '\\' && s[1] == '#')
    ensures Cut(s, tag) == if s[0] == '#' then [] else [s[0]] + Cut(s[1..], tag)
  {
    var rest := Replace(s[1..], "\\#", tag);
    assert Replace(s, "\\#", tag) == [s[0]] + rest by {
      if |s| >= 2 {
        assert s[..2] != "\\#" by { assert s[..2][0] == s[0] && s[..2][1] == s[1]; }
      }
    }
    assert ([s[0]] + rest)[1..] == rest;
  }

  /** Cut, one character or one `\\#` at a time. */
  function CutRec(s: string, tag: string): string
    decreases |s|
  {
    if s == [] then []
    else if |s| >= 2 && s[0] == '\\' && s[1] == '#' then tag + CutRec(s[2..], tag)
    else if s[0] == '#' then []
    else [s[0]] + CutRec(s[1..], tag)
  }

  /** Hiding and cutting in two passes is the one-pass CutRec. */
  lemma {:induction false} CutIsRec(s: string, tag: string)
    requires '#' !in tag
    ensures Cut(s, tag) == CutRec(s, tag)
    decreases |s|
  {
    if s == [] {
    } else if |s| >= 2 && s[0] == '\\' && s[1] == '#' {
      CutEscape(s, tag);
      CutIsRec(s[2..], tag);
    } else {
      CutOther(s, tag);
      CutIsRec(s[1..], tag);
    }
  }

  /** The shape LeadingRun gives the cut-down text `w` of `s`: the first m characters of
      `s`, and, when they end at a `\\#`, the tag and the rest of `s` cut down. */
  predicate RunShape(s: string, tag: string, m: int, w: string)
  {
    0 <= m <= |s| &&
    (w == s[..m] || (m + 2 <= |s| && s[m] == '\\' && s[m + 1] == '#' && w == s[..m] + tag + CutRec(s[m + 2..], tag)))
  }

  /** Putting one more character in front keeps the shape. */
  lemma RunShapeCons(s: string, tag: string, m: int, w: string)
    requires s != [] && RunShape(s[1..], tag, m, w)
    ensures RunShape(s, tag, m + 1, [s[0]] + w)
  {
    var t := s[1..];
    assert s[..m + 1] == [s[0]] + t[..m];
    if w != t[..m] {
      assert t[m] == s[m + 1] && t[m + 1] == s[m + 2] && t[m + 2..] == s[m + 3..];
    }
  }

  /** The cut-down text starts with the line's own characters up to its first `\\#` or
      `#`; after a `\\#` come the tag and the rest of the line cut down the same way. */
  lemma {:induction false} LeadingRun(s: string, tag: string) returns (m: nat)
    ensures RunShape(s, tag, m, CutRec(s, tag))
    decreases |s|
  {
    if s == [] {
      return 0;
    } else if |s| >= 2 && s[0] == '\\' && s[1] == '#' {
      assert CutRec(s, tag) == s[..0] + tag + CutRec(s[2..], tag);
      return 0;
    } else if s[0] == '#' {
      return 0;
    } else {
      var t := s[1..];
      assert CutRec(s, tag) == [s[0]] + CutRec(t, tag);
      var m' := LeadingRun(t, tag);
      RunShapeCons(s, tag, m', CutRec(t, tag));
      m := m' + 1;
    }
  }

  /** A safe line's first character, when it is neither `#` nor the start of `\#`, does
      not begin a tag in the cut-down text. */
  lemma NoFalseTag(s: string, tag: string)
    requires tag != [] && TagSafe(s, tag)
    requires s != [] && s[0] != '#' && !(|s| >= 2 && s[0] == '\\' && s[1] == '#')
    ensures |CutRec(s, tag)| >= |tag| ==> CutRec(s, tag)[..|tag|] != tag
  {
    var w := CutRec(s, tag);
    assert NoTagStart(s, tag) by { assert SafeAt(s, tag, 0) && s[0..] == s; }
    var m := LeadingRun(s, tag);
    if |w| >= |tag| {
      if m >= |tag| {
        assert Border(tag, |tag|) && PrefixDiffers(s, tag, |tag|);
        assert w[..|tag|] == s[..|tag|];
      } else {
        assert w == s[..m] + tag + CutRec(s[m + 2..], tag);
        var v := w[..|tag|];
        assert v[..m] == s[..m];
        assert v[m..] == tag[..|tag| - m];
        assert (Border(tag, m) && PrefixDiffers(s, tag, m)) || tag[m..] != tag[..|tag| - m];
      }
    }
  }

  /** Restoring `#` for the tag in the one-pass cut gives the escape reading. */
  lemma {:induction false} TagTrickRec(s: string, tag: string)
    requires tag != [] && TagSafe(s, tag)
    ensures Replace(CutRec(s, tag), tag, "#") == Unescape(s)
    decreases |s|
  {
    if s == [] {
    } else if |s| >= 2 && s[0] == '\\' && s[1] == '#' {
      var u := CutRec(s[2..], tag);
      assert (tag + u)[..|tag|] == tag && (tag + u)[|tag|..] == u;
      TagSafeSuffix(s, tag, 2);
      TagTrickRec(s[2..], tag);
    } else if s[0] != '#' {
      var u := CutRec(s[1..], tag);
      NoFalseTag(s, tag);
      if |[s[0]] + u| >= |tag| {
        assert ([s[0]] + u)[1..] == u;
      } else {
        assert |u| < |tag|;
      }
      TagSafeSuffix(s, tag, 1);
      TagTrickRec(s[1..], tag);
    }
  }

  /** The tag trick computes the escape reading on a safe line. */
  lemma TagTrick(s: string, tag: string)
    requires tag != [] && '#' !in tag && TagSafe(s, tag)
    ensures Replace(Cut(s, tag), tag, "#") == Unescape(s)
  {
    CutIsRec(s, tag);
    TagTrickRec(s, tag);
  }

  /** A tag whose first character does not occur in the line is safe for it. */
  lemma TagSafeFirstAbsent(s: string, tag: string)
    requires tag != [] && tag[0] !in s
    ensures TagSafe(s, tag)
  {
    forall p | 0 <= p < |s|
      ensures SafeAt(s, tag, p)
    {
      forall m | Border(tag, m)
        ensures PrefixDiffers(s[p..], tag, m)
      {
        if m <= |s[p..]| {
          assert s[p..][..m][0] == s[p] && tag[..m][0] == tag[0];
        }
      }
    }
  }

  /** The tag the runner hides `\#` behind: `"__sharp_tag_%s__"` filled with the
      printed time stamp. */
  function ProgramTag(stamp: string): (tag: string)
    ensures |tag| == |stamp| + 14 && tag[2..12] == "sharp_tag_"
    ensures '#' !in stamp ==> '#' !in tag
  {
    "__sharp_tag_" + stamp + "__"
  }

  /** "sharp_tag_" occurs in s at position i. */
  predicate MarkAt(s: string, i: int)
  {
    0 <= i && i + 10 <= |s| && s[i..i + 10] == "sharp_tag_"
  }

  /** Apart from the trailing "__", no proper part of the runner's tag is followed by a
      repetition of the tag's start "__s", so only the long parts tag[..m] with
      m >= |tag| - 2 can end a false tag. */
  lemma ProgramTagBorders(stamp: string, m: int)
    requires '_' !in stamp
    ensures Border(ProgramTag(stamp), m) ==> m >= |ProgramTag(stamp)| - 2
  {
    var tag := ProgramTag(stamp);
    if 0 < m < |tag| - 2 {
      var head := tag[..|tag| - m];
      assert head[0] == '_' && head[1] == '_' && head[2] == 's';
      assert tag[m..][0] == tag[m] && tag[m..][1] == tag[m + 1] && tag[m..][2] == tag[m + 2];
      if m >= 12 {
        assert tag[m] == stamp[m - 12];
      } else if m == 11 {
        assert tag[11] == '_';
        if stamp == [] {
          assert tag[13] == '_';
        } else {
          assert tag[12] == stamp[0];
        }
      } else {
        assert tag[..12] == "__sharp_tag_";
        assert tag[m] == "__sharp_tag_"[m] && tag[m + 1] == "__sharp_tag_"[m + 1];
      }
    }
  }

  /** The runner's tag is safe for every line without "sharp_tag_", whatever the time
      stamp, as long as the stamp has no underscore (a printed time has none). */
  lemma ProgramTagSafe(s: string, stamp: string)
    requires '_' !in stamp && forall i :: !MarkAt(s, i)
    ensures TagSafe(s, ProgramTag(stamp))
  {
    var tag := ProgramTag(stamp);
    forall p | 0 <= p < |s|
      ensures SafeAt(s, tag, p)
    {
      forall m | Border(tag, m)
        ensures PrefixDiffers(s[p..], tag, m)
      {
        if m <= |s[p..]| {
          ProgramTagBorders(stamp, m);
          assert !MarkAt(s, p + 2);
          assert s[p..][..m][2..12] == s[p + 2..p + 12];
          assert tag[..m][2..12] == "sharp_tag_";
        }
      }
    }
  }

  /** Safety carries over from a line to what prefix removal keeps of it. */
  lemma PrefixKeepsSafe(line: string, prefix: string, tag: string)
    requires TagSafe(line, tag) && (prefix == [] || StartsWith(Strip(line), prefix))
    ensures TagSafe(AfterPrefix(line, prefix), tag)
  {
    var l := Strip(line);
    TagSafeStrip(line, tag);
    if prefix != [] && StartsWith(l, prefix) {
      TagSafeSuffix(l, tag, |prefix|);
      TagSafeStrip(l[|prefix|..], tag);
    }
  }

  /** Safety carries over from a line to what suffix removal keeps of it. */
  lemma SuffixKeepsSafe(l: string, suffix: string, tag: string)
    requires TagSafe(l, tag) && (suffix == [] || EndsWith(l, suffix))
    ensures TagSafe(BeforeSuffix(l, suffix), tag)
  {
    if suffix != [] && EndsWith(l, suffix) {
      TagSafePrefix(l, tag, |l| - |suffix|);
      TagSafeStrip(l[..|l| - |suffix|], tag);
    }
  }

  /** Targeted text is suffix removal after prefix removal. */
  lemma TargetedSteps(line: string, prefix: string, suffix: string)
    requires Targeted(line, prefix, suffix).Some?
    ensures (prefix == [] || StartsWith(Strip(line), prefix))
    ensures suffix == [] || EndsWith(AfterPrefix(line, prefix), suffix)
    ensures Targeted(line, prefix, suffix).value == BeforeSuffix(AfterPrefix(line, prefix), suffix)
  {
  }

  /** Safety carries over from a line to what prefix and suffix removal keep of it. */
  lemma TargetedKeepsSafe(line: string, prefix: string, suffix: string, tag: string)
    requires TagSafe(line, tag) && Targeted(line, prefix, suffix).Some?
    ensures TagSafe(Targeted(line, prefix, suffix).value, tag)
  {
    TargetedSteps(line, prefix, suffix);
    PrefixKeepsSafe(line, prefix, tag);
    SuffixKeepsSafe(AfterPrefix(line, prefix), suffix, tag);
  }

  /** The command of a line is its targeted text read with the escape reading and
      stripped, when that is not empty; a line whose targeted text is a comment or
      blank gives no command. */
  lemma FilterLineMeans(line: string, prefix: string, suffix: string, tag: string)
    requires tag != [] && '#' !in tag && TagSafe(line, tag)
    ensures FilterLine(line, prefix, suffix, tag) ==
            match Targeted(line, prefix, suffix)
            case None => None
            case Some(l) => if Strip(Unescape(l)) == [] then None else Some(Strip(Unescape(l)))
  {
    var t := Targeted(line, prefix, suffix);
    if t.Some? {
      var l := t.value;
      TargetedKeepsSafe(line, prefix, suffix, tag);
      TagTrick(l, tag);
      if StartsWith(l, "#") {
        assert l[0] == '#';
        assert Unescape(l) == [];
        assert Strip([]) == [];
      }
    }
  }

  /** With the runner's own tag, every line without "sharp_tag_" yields the command its
      escape reading gives. */
  lemma ProgramFilterLineMeans(line: string, prefix: string, suffix: string, stamp: string)
    requires '_' !in stamp && '#' !in stamp && forall i :: !MarkAt(line, i)
    ensures FilterLine(line, prefix, suffix, ProgramTag(stamp)) ==
            match Targeted(line, prefix, suffix)
            case None => None
            case Some(l) => if Strip(Unescape(l)) == [] then None else Some(Strip(Unescape(l)))
  {
    ProgramTagSafe(line, stamp);
    FilterLineMeans(line, prefix, suffix, ProgramTag(stamp));
  }

  /** A log line written as prefix, command and suffix gives back the command. */
  lemma TargetedRoundTrip(prefix: string, cmd: string, suffix: string)
    requires prefix != [] && suffix != [] && cmd != []
    requires !IsSpace(prefix[0]) && !IsSpace(cmd[0]) && !IsSpace(cmd[|cmd| - 1]) && !IsSpace(suffix[|suffix| - 1])
    ensures Targeted(prefix + cmd + suffix, prefix, suffix) == Some(cmd)
  {
    var l1 := cmd + suffix;
    assert prefix + cmd + suffix == prefix + l1;
    assert l1[0] == cmd[0] && l1[|l1| - 1] == suffix[|suffix| - 1];
    AfterPrefixOf(prefix, l1);
    BeforeSuffixOf(cmd, suffix);
  }

  /** Prefix removal on a trimmed prefix + rest leaves the rest. */
  lemma AfterPrefixOf(prefix: string, rest: string)
    requires prefix != [] && rest != [] && !IsSpace(prefix[0]) && !IsSpace(rest[|rest| - 1])
    requires !IsSpace(rest[0])
    ensures StartsWith(Strip(prefix + rest), prefix) && AfterPrefix(prefix + rest, prefix) == rest
  {
    var line := prefix + rest;
    assert line[0] == prefix[0] && line[|line| - 1] == rest[|rest| - 1];
    StripTrimmed(line);
    assert line[..|prefix|] == prefix && line[|prefix|..] == rest;
    StripTrimmed(rest);
  }

  /** Suffix removal on a trimmed cmd + suffix leaves cmd. */
  lemma BeforeSuffixOf(cmd: string, suffix: string)
    requires cmd != [] && suffix != [] && !IsSpace(cmd[0]) && !IsSpace(cmd[|cmd| - 1])
    ensures EndsWith(cmd + suffix, suffix) && BeforeSuffix(cmd + suffix, suffix) == cmd
  {
    var l := cmd + suffix;
    assert l[|l| - |suffix|..] == suffix && l[..|l| - |suffix|] == cmd;
    StripTrimmed(cmd);
  }

  /** A plain command line without comment characters passes through unchanged. */
  lemma PlainLinePasses(cmd: string, tag: string)
    requires tag != [] && '#' !in tag && TagSafe(cmd, tag)
    requires cmd != [] && !IsSpace(cmd[0]) && !IsSpace(cmd[|cmd| - 1]) && '#' !in cmd
    ensures FilterLine(cmd, "", "", tag) == Some(cmd)
  {
    StripTrimmed(cmd);
    assert Targeted(cmd, "", "") == Some(cmd);
    FilterLineMeans(cmd, "", "", tag);
    UnescapePlain(cmd);
  }

  /** Text without `#` is its own escape reading. */
  lemma {:induction false} UnescapePlain(s: string)
    requires '#' !in s
    ensures Unescape(s) == s
    decreases |s|
  {
    if s != [] {
      assert s[0] != '#';
      if |s| >= 2 {
        assert s[1] != '#';
      }
      UnescapePlain(s[1..]);
    }
  }

  /** Every command the filter yields is non-empty and already stripped. */
  lemma FilterLineStripped(line: string, prefix: string, suffix: string, tag: string)
    requires tag != [] && FilterLine(line, prefix, suffix, tag).Some?
    ensures var c := FilterLine(line, prefix, suffix, tag).value;
            c != [] && Strip(c) == c
  {
    var l := Targeted(line, prefix, suffix).value;
    StripIdempotent(Replace(Cut(l, tag), tag, "#"));
  }

  // ---------------------------------------------------------------------------
  // A batch.

  /** What one filtered line contributes to the dispatched commands. */
  function DispatchOne(ignore: seq<string>, c: Option<string>): seq<string>
  {
    if c.Some? && !Ignored(ignore, c.value) then [c.value] else []
  }

  /** The commands a batch dispatches, in input order. */
  function Dispatch(ignore: seq<string>, lines: seq<string>, prefix: string, suffix: string, tag: string): seq<string>
    requires tag != []
    decreases |lines|
  {
    if lines == [] then []
    else
      Dispatch(ignore, lines[..|lines| - 1], prefix, suffix, tag)
      + DispatchOne(ignore, FilterLine(lines[|lines| - 1], prefix, suffix, tag))
  }

  lemma DispatchStep(ignore: seq<string>, lines: seq<string>, i: nat, prefix: string, suffix: string, tag: string)
    requires tag != [] && i < |lines|
    ensures Dispatch(ignore, lines[..i + 1], prefix, suffix, tag)
            == Dispatch(ignore, lines[..i], prefix, suffix, tag) + DispatchOne(ignore, FilterLine(lines[i], prefix, suffix, tag))
  {
    assert lines[..i + 1][..i] == lines[..i];
  }

  /** Running two batches one after the other dispatches what running them as one does:
      dispatch keeps input order. */
  lemma {:induction false} DispatchAppend(ignore: seq<string>, a: seq<string>, b: seq<string>, prefix: string, suffix: string, tag: string)
    requires tag != []
    ensures Dispatch(ignore, a + b, prefix, suffix, tag)
            == Dispatch(ignore, a, prefix, suffix, tag) + Dispatch(ignore, b, prefix, suffix, tag)
    decreases |b|
  {
    if b == [] {
      assert a + b == a;
    } else {
      var b0 := b[..|b| - 1];
      var last := DispatchOne(ignore, FilterLine(b[|b| - 1], prefix, suffix, tag));
      assert (a + b)[..|a + b| - 1] == a + b0;
      assert (a + b)[|a + b| - 1] == b[|b| - 1];
      assert Dispatch(ignore, a + b, prefix, suffix, tag) == Dispatch(ignore, a + b0, prefix, suffix, tag) + last;
      assert Dispatch(ignore, b, prefix, suffix, tag) == Dispatch(ignore, b0, prefix, suffix, tag) + last;
      DispatchAppend(ignore, a, b0, prefix, suffix, tag);
      var x, y := Dispatch(ignore, a, prefix, suffix, tag), Dispatch(ignore, b0, prefix, suffix, tag);
      assert (x + y) + last == x + (y + last);
    }
  }

  /** At most one command per line is dispatched. */
  lemma {:induction false} DispatchBound(ignore: seq<string>, lines: seq<string>, prefix: string, suffix: string, tag: string)
    requires tag != []
    ensures |Dispatch(ignore, lines, prefix, suffix, tag)| <= |lines|
    decreases |lines|
  {
    if lines != [] {
      DispatchBound(ignore, lines[..|lines| - 1], prefix, suffix, tag);
    }
  }

  /** What a dispatched command looks like: non-empty, stripped and not ignored. */
  predicate IsCommand(ignore: seq<string>, c: string)
  {
    c != [] && Strip(c) == c && !Ignored(ignore, c)
  }

  /** Every dispatched command is non-empty, stripped and not ignored. */
  lemma {:induction false} DispatchedCommands(ignore: seq<string>, lines: seq<string>, prefix: string, suffix: string, tag: string)
    requires tag != []
    ensures forall c <- Dispatch(ignore, lines, prefix, suffix, tag) :: IsCommand(ignore, c)
    decreases |lines|
  {
    if lines != [] {
      var init := lines[..|lines| - 1];
      var o := FilterLine(lines[|lines| - 1], prefix, suffix, tag);
      DispatchedCommands(ignore, init, prefix, suffix, tag);
      if o.Some? {
        FilterLineStripped(lines[|lines| - 1], prefix, suffix, tag);
      }
      var d := Dispatch(ignore, init, prefix, suffix, tag);
      assert Dispatch(ignore, lines, prefix, suffix, tag) == d + DispatchOne(ignore, o);
      forall c | c in d + DispatchOne(ignore, o)
        ensures IsCommand(ignore, c)
      {
        if c !in d {
          assert c == o.value;
        }
      }
    }
  }

  /** Every dispatched command is the command of some line of the batch. */
  lemma {:induction false} DispatchedFromLines(ignore: seq<string>, lines: seq<string>, prefix: string, suffix: string, tag: string)
    requires tag != []
    ensures forall c <- Dispatch(ignore, lines, prefix, suffix, tag) ::
              exists k :: 0 <= k < |lines| && FilterLine(lines[k], prefix, suffix, tag) == Some(c)
    decreases |lines|
  {
    if lines != [] {
      var init := lines[..|lines| - 1];
      var one := DispatchOne(ignore, FilterLine(lines[|lines| - 1], prefix, suffix, tag));
      DispatchedFromLines(ignore, init, prefix, suffix, tag);
      forall c | c in Dispatch(ignore, lines, prefix, suffix, tag)
        ensures exists k :: 0 <= k < |lines| && FilterLine(lines[k], prefix, suffix, tag) == Some(c)
      {
        assert c in Dispatch(ignore, init, prefix, suffix, tag) || c in one;
        if c in Dispatch(ignore, init, prefix, suffix, tag) {
          var k :| 0 <= k < |init| && FilterLine(init[k], prefix, suffix, tag) == Some(c);
          assert lines[k] == init[k];
        } else {
          assert FilterLine(lines[|lines| - 1], prefix, suffix, tag) == Some(c);
        }
      }
    }
  }

  /** Every line whose command is not ignored has it dispatched. */
  lemma {:induction false} DispatchComplete(ignore: seq<string>, lines: seq<string>, prefix: string, suffix: string, tag: string, k: nat)
    requires tag != [] && k < |lines|
    requires FilterLine(lines[k], prefix, suffix, tag).Some?
    requires !Ignored(ignore, FilterLine(lines[k], prefix, suffix, tag).value)
    ensures FilterLine(lines[k], prefix, suffix, tag).value in Dispatch(ignore, lines, prefix, suffix, tag)
    decreases |lines|
  {
    var init := lines[..|lines| - 1];
    if k < |lines| - 1 {
      assert init[k] == lines[k];
      DispatchComplete(ignore, init, prefix, suffix, tag, k);
    }
  }

  // ---------------------------------------------------------------------------
  // The batch runner's state.

  class BatchCmd {
    /** `ignore_cmds_in_batch`. */
    var ignore: seq<string>

    ghost predicate Valid()
      reads this
    {
      NoDup(ignore)
    }

    constructor()
      ensures ignore == DEFAULT_IGNORE && Valid()
    {
      ignore := DEFAULT_IGNORE;
    }

    /** `cmd_in_ignore_list`. */
    method InIgnoreList(cmd: string) returns (b: bool)
      ensures b <==> Ignored(ignore, cmd)
    {
      for k := 0 to |ignore|
        invariant forall j :: 0 <= j < k ==> !StartsWith(cmd, ignore[j])
      {
        if StartsWith(cmd, ignore[k]) {
          return true;
        }
      }
      return false;
    }

    /** `api_clear_batch_ignore_list`. */
    method ClearIgnoreList() returns (ok: bool)
      modifies this
      ensures ok && ignore == [] && Valid()
    {
      ignore := [];
      ok := true;
    }

    /** `api_add_batch_ignore_list`: a duplicate is refused and the list kept. */
    method AddIgnore(cmd: string) returns (added: bool)
      requires Valid()
      modifies this
      ensures added <==> cmd !in old(ignore)
      ensures ignore == if added then old(ignore) + [cmd] else old(ignore)
      ensures Valid()
    {
      if cmd in ignore {
        return false;
      }
      ignore := ignore + [cmd];
      return true;
    }

    /** `api_del_batch_ignore_list`: an absent entry is an error. */
    method DelIgnore(cmd: string) returns (removed: bool)
      requires Valid()
      modifies this
      ensures removed <==> cmd in old(ignore)
      ensures ignore == if removed then RemoveFirst(old(ignore), cmd) else old(ignore)
      ensures cmd !in ignore && Valid()
    {
      if cmd !in ignore {
        return false;
      }
      RemoveFirstNoDup(ignore, cmd);
      ignore := RemoveFirst(ignore, cmd);
      return true;
    }

    /** `api_exec_batch_cmd`: the commands dispatched, in order, and their number. */
    method ExecBatch(lines: seq<string>, prefix: string, suffix: string, tag: string)
      returns (dispatched: seq<string>, count: nat)
      requires tag != []
      ensures dispatched == Dispatch(ignore, lines, prefix, suffix, tag)
      ensures count == |dispatched| && count <= |lines|
    {
      dispatched := [];
      count := 0;
      for i := 0 to |lines|
        invariant dispatched == Dispatch(ignore, lines[..i], prefix, suffix, tag)
        invariant count == |dispatched|
      {
        var c := FilterLine(lines[i], prefix, suffix, tag);
        DispatchStep(ignore, lines, i, prefix, suffix, tag);
        if c.Some? {
          var skip := InIgnoreList(c.value);
          if !skip {
            dispatched := dispatched + [c.value];
            count := count + 1;
          }
        }
      }
      assert lines[..|lines|] == lines;
      DispatchBound(ignore, lines, prefix, suffix, tag);
    }
  }
}
