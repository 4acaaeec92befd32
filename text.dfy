/**
 * The Python string operations the validator relies on, over `seq<char>`:
 * `str.isspace`, `startswith`, `endswith`, `in`, `find`, `split(c)`,
 * `split(sep, maxsplit)`, `strip()` and the first word of `split()`.
 */
module Text {
  import opened Options

  /** Python's `str.isspace()` on one character: the characters that
      `str.strip()` removes and `str.split()` splits on. */
  predicate IsSpace(c: char) {
    || c == ' '
    || ('\t' <= c <= '\r')
    || ('\U{1c}' <= c <= '\U{1f}')
    || c == '\U{85}' || c == '\U{a0}' || c == '\U{1680}'
    || ('\U{2000}' <= c <= '\U{200a}')
    || c == '\U{2028}' || c == '\U{2029}' || c == '\U{202f}'
    || c == '\U{205f}' || c == '\U{3000}'
  }

  predicate StartsWith(s: string, p: string) {
    |p| <= |s| && s[..|p|] == p
  }

  predicate EndsWith(s: string, p: string) {
    |p| <= |s| && s[|s| - |p|..] == p
  }

  /** `s.startswith(tuple(ps))`. */
  predicate StartsWithAny(s: string, ps: seq<string>) {
    exists k :: 0 <= k < |ps| && StartsWith(s, ps[k])
  }

  /** `p` occurs in `s` at index `i`. */
  predicate OccursAt(s: string, p: string, i: nat) {
    i + |p| <= |s| && s[i..i + |p|] == p
  }

  /** Python's `p in s` for strings. */
  predicate Contains(s: string, p: string) {
    exists i: nat :: i <= |s| && OccursAt(s, p, i)
  }

  /** `s.find(p, from)`: the first index at or after `from` where `p` occurs. */
  function FindFrom(s: string, p: string, from: nat): (r: Option<nat>)
    requires from <= |s|
    ensures r.Some? ==> from <= r.value && OccursAt(s, p, r.value)
    ensures r.Some? ==> forall j: nat :: from <= j < r.value ==> !OccursAt(s, p, j)
    ensures r.None? ==> forall j: nat :: from <= j <= |s| ==> !OccursAt(s, p, j)
    decreases |s| - from
  {
    if OccursAt(s, p, from) then Some(from)
    else if from == |s| then None
    else FindFrom(s, p, from + 1)
  }

  /** Searching a suffix is searching the whole string from where the suffix starts. */
  lemma {:induction false} FindFromSuffix(s: string, p: string, d: nat, from: nat)
    requires d + from <= |s|
    ensures FindFrom(s[d..], p, from) ==
            match FindFrom(s, p, d + from)
            case None => None
            case Some(k) => Some(k - d)
    decreases |s| - d - from
  {
    assert OccursAt(s[d..], p, from) == OccursAt(s, p, d + from) by {
      if d + from + |p| <= |s| {
        assert s[d..][from..from + |p|] == s[d + from..d + from + |p|];
      }
    }
    if !OccursAt(s, p, d + from) && d + from < |s| {
      FindFromSuffix(s, p, d, from + 1);
    }
  }

  /** Python's `s.split(c)` for a one-character separator. */
  function Split(s: string, c: char): (parts: seq<string>)
    ensures |parts| >= 1
    ensures forall k :: 0 <= k < |parts| ==> c !in parts[k]
    decreases |s|
  {
    if |s| == 0 then [""]
    else
      var rest := Split(s[1..], c);
      if s[0] == c then [""] + rest
      else [[s[0]] + rest[0]] + rest[1..]
  }

  /** A string without the separator is a single piece. */
  lemma {:induction false} SplitWithout(s: string, c: char)
    requires c !in s
    ensures Split(s, c) == [s]
    decreases |s|
  {
    if |s| > 0 {
      SplitWithout(s[1..], c);
      assert s == [s[0]] + s[1..];
    }
  }

  /** A leading separator contributes an empty first piece. */
  lemma SplitSeparatorFirst(s: string, c: char)
    ensures Split([c] + s, c) == [""] + Split(s, c)
  {
    assert ([c] + s)[1..] == s;
  }

  /** A leading character other than the separator joins the first piece. */
  lemma SplitOtherFirst(d: char, s: string, c: char)
    requires d != c
    ensures Split([d] + s, c) == [[d] + Split(s, c)[0]] + Split(s, c)[1..]
  {
    assert ([d] + s)[1..] == s;
  }

  /** `content.split('\n')`: the lines of a text, the last one possibly empty. */
  function Lines(content: string): (lines: seq<string>)
    ensures |lines| >= 1
  {
    Split(content, '\n')
  }

  /** Python's `c.join(parts)` for a one-character separator. */
  function Join(parts: seq<string>, c: char): string
    decreases |parts|
  {
    if |parts| == 0 then ""
    else if |parts| == 1 then parts[0]
    else parts[0] + [c] + Join(parts[1..], c)
  }

  /** Joining the pieces of a split gives back the string. */
  lemma {:induction false} JoinSplit(s: string, c: char)
    ensures Join(Split(s, c), c) == s
    decreases |s|
  {
    if |s| > 0 {
      JoinSplit(s[1..], c);
      var rest := Split(s[1..], c);
      if s[0] == c {
        assert s == [c] + s[1..];
      } else if |rest| == 1 {
        assert s == [s[0]] + s[1..];
      } else {
        assert s == [s[0]] + s[1..];
        assert Join(rest, c) == rest[0] + [c] + Join(rest[1..], c);
      }
    }
  }

  /** Splitting a join whose pieces avoid the separator gives back the pieces. */
  lemma {:induction false} SplitJoin(parts: seq<string>, c: char)
    requires |parts| >= 1
    requires forall k :: 0 <= k < |parts| ==> c !in parts[k]
    ensures Split(Join(parts, c), c) == parts
    decreases |parts|, |parts[0]|
  {
    var p := parts[0];
    if |p| == 0 {
      if |parts| > 1 {
        SplitJoin(parts[1..], c);
        assert Join(parts, c) == [c] + Join(parts[1..], c);
        assert Join(parts, c)[1..] == Join(parts[1..], c);
      }
    } else {
      var parts' := [p[1..]] + parts[1..];
      assert parts'[1..] == parts[1..];
      SplitJoin(parts', c);
      if |parts| == 1 {
        assert Join(parts, c) == p;
        assert Join(parts', c) == p[1..];
      } else {
        assert Join(parts, c) == [p[0]] + Join(parts', c);
      }
      assert Join(parts, c)[1..] == Join(parts', c);
      assert p == [p[0]] + p[1..];
    }
  }

  /** `s.split(c)[0]`: the part of `s` before the first `c`. */
  function BeforeFirst(s: string, c: char): (r: string)
    ensures StartsWith(s, r) && c !in r
    ensures r == s || s[|r|] == c
  {
    SplitPrefix(s, c);
    Split(s, c)[0]
  }

  lemma {:induction false} SplitPrefix(s: string, c: char)
    ensures StartsWith(s, Split(s, c)[0])
    ensures Split(s, c)[0] == s || s[|Split(s, c)[0]|] == c
    decreases |s|
  {
    if |s| > 0 && s[0] != c {
      SplitPrefix(s[1..], c);
    }
  }

  /** Python's `s.split(sep, maxsplit)` for a non-empty separator. */
  function SplitMax(s: string, sep: string, maxsplit: nat): (parts: seq<string>)
    requires |sep| > 0
    ensures 1 <= |parts| <= maxsplit + 1
    decreases maxsplit
  {
    if maxsplit == 0 then [s]
    else
      match FindFrom(s, sep, 0)
      case None => [s]
      case Some(k) => [s[..k]] + SplitMax(s[k + |sep|..], sep, maxsplit - 1)
  }

  /** `s.lstrip()`. */
  function LStrip(s: string): string
    decreases |s|
  {
    if |s| > 0 && IsSpace(s[0]) then LStrip(s[1..]) else s
  }

  /** `s.rstrip()`. */
  function RStrip(s: string): string
    decreases |s|
  {
    if |s| > 0 && IsSpace(s[|s| - 1]) then RStrip(s[..|s| - 1]) else s
  }

  /** `s.strip()`. */
  function Strip(s: string): string {
    RStrip(LStrip(s))
  }

  /** `lstrip` removes exactly the leading white space. */
  lemma {:induction false} LStripSpec(s: string)
    ensures var r := LStrip(s);
            && |r| <= |s| && r == s[|s| - |r|..]
            && (forall k :: 0 <= k < |s| - |r| ==> IsSpace(s[k]))
            && (|r| > 0 ==> !IsSpace(r[0]))
    decreases |s|
  {
    if |s| > 0 && IsSpace(s[0]) {
      LStripSpec(s[1..]);
    }
  }

  /** `rstrip` removes exactly the trailing white space. */
  lemma {:induction false} RStripSpec(s: string)
    ensures var r := RStrip(s);
            && |r| <= |s| && r == s[..|r|]
            && (forall k :: |r| <= k < |s| ==> IsSpace(s[k]))
            && (|r| > 0 ==> !IsSpace(r[|r| - 1]))
    decreases |s|
  {
    if |s| > 0 && IsSpace(s[|s| - 1]) {
      RStripSpec(s[..|s| - 1]);
    }
  }

  /** `strip` keeps exactly the slice of `s` between its leading and its
      trailing white space: what it removes is white space, and what it keeps
      neither starts nor ends with white space. */
  lemma StripSpec(s: string)
    ensures var r := Strip(s);
            var a := |s| - |LStrip(s)|;
            && 0 <= a && a + |r| <= |s| && r == s[a..a + |r|]
            && (forall k :: 0 <= k < a ==> IsSpace(s[k]))
            && (forall k :: a + |r| <= k < |s| ==> IsSpace(s[k]))
            && (|r| > 0 ==> !IsSpace(r[0]) && !IsSpace(r[|r| - 1]))
  {
    var l := LStrip(s);
    var r := RStrip(l);
    var a := |s| - |l|;
    LStripSpec(s);
    RStripSpec(l);
    assert l == s[a..];
    assert r == s[a..a + |r|];
    forall k | a + |r| <= k < |s| ensures IsSpace(s[k]) {
      assert s[k] == l[k - a];
    }
    if |r| > 0 {
      assert r[0] == l[0];
    }
  }

  /** A stripped line starts with a non-space prefix exactly when the line does
      after its leading white space. */
  lemma StripStartsWith(s: string, p: string)
    requires forall k :: 0 <= k < |p| ==> !IsSpace(p[k])
    ensures StartsWith(Strip(s), p) <==> StartsWith(LStrip(s), p)
  {
    var l := LStrip(s);
    var r := RStrip(l);
    RStripSpec(l);
    if StartsWith(l, p) && |p| > 0 {
      assert l[|p| - 1] == p[|p| - 1];
      assert |p| <= |r|;
      assert r[..|p|] == l[..|p|];
    }
    if StartsWith(r, p) {
      assert l[..|p|] == r[..|p|];
    }
  }

  /** The longest prefix of `s` with no white space. */
  function TakeWord(s: string): (w: string)
    ensures StartsWith(s, w)
    ensures forall k :: 0 <= k < |w| ==> !IsSpace(w[k])
    ensures |w| < |s| ==> IsSpace(s[|w|])
    decreases |s|
  {
    if |s| == 0 || IsSpace(s[0]) then "" else [s[0]] + TakeWord(s[1..])
  }

  /** `s.split()[0]`: the first white-space-delimited word of `s`, which exists
      when `s` has a character that is not white space. */
  function FirstWord(s: string): (w: string)
    requires exists k :: 0 <= k < |s| && !IsSpace(s[k])
    ensures |w| >= 1
    ensures forall k :: 0 <= k < |w| ==> !IsSpace(w[k])
    ensures |s| > 0 && !IsSpace(s[0]) ==> StartsWith(s, w) && (|w| == |s| || IsSpace(s[|w|]))
  {
    LStripSpec(s);
    var l := LStrip(s);
    assert |l| > 0 by {
      var k :| 0 <= k < |s| && !IsSpace(s[k]);
    }
    TakeWord(l)
  }
}
