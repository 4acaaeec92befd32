/**
 * The two fixed regular expressions of scripts/validate-docs.py, written as
 * scanners with the semantics of Python's `re.findall`:
 *   links   `\[([^\]]+)\]\(([^)]+)\)`   (line 31)
 *   images  `!\[([^\]]*)\]\(([^)]+)\)`  (line 80)
 * Matches are leftmost and do not overlap; after a failed attempt the scan
 * moves on by one character, after a match it resumes at the match's end.
 */
module Patterns {
  import opened Options
  import opened Text

  datatype Pattern = LinkPattern | ImagePattern

  /** One match: the span `[start, end)` of the subject and the two groups
      (the link text or image alt text, and the target). */
  datatype Match = Match(start: nat, end: nat, text: string, target: string)

  /** What a match must begin with: `[` for a link, `![` for an image. */
  function Opening(pat: Pattern): string {
    match pat
    case LinkPattern => "["
    case ImagePattern => "!["
  }

  /** The text a match with groups `text` and `target` spans. */
  function Source(pat: Pattern, text: string, target: string): string {
    Opening(pat) + text + "](" + target + ")"
  }

  /** The groups the pattern allows: the text has no `]` (and, for a link,
      at least one character), the target has no `)` and at least one
      character. */
  predicate Shape(pat: Pattern, text: string, target: string) {
    && (pat.LinkPattern? ==> |text| > 0)
    && ']' !in text
    && |target| > 0
    && ')' !in target
  }

  /** The pattern matches at `i` with exactly these groups, stated index by
      index: the opening, the text, `](`, the target and `)`. */
  predicate MatchesAt(pat: Pattern, s: string, i: nat, text: string, target: string) {
    var o := Opening(pat);
    var j := i + |o| + |text|;
    var k := j + 2 + |target|;
    && Shape(pat, text, target)
    && k < |s|
    && OccursAt(s, o, i)
    && s[i + |o|..j] == text
    && s[j] == ']' && s[j + 1] == '('
    && s[j + 2..k] == target
    && s[k] == ')'
  }

  /** The index-by-index statement says that the match's text occurs at `i`. */
  lemma MatchesAtOccurs(pat: Pattern, s: string, i: nat, text: string, target: string)
    ensures MatchesAt(pat, s, i, text, target) <==>
            Shape(pat, text, target) && OccursAt(s, Source(pat, text, target), i)
  {
    if MatchesAt(pat, s, i, text, target) {
      MatchesAtImpliesOccurs(pat, s, i, text, target);
    }
    if Shape(pat, text, target) && OccursAt(s, Source(pat, text, target), i) {
      OccursImpliesMatchesAt(pat, s, i, text, target);
    }
  }

  lemma MatchesAtImpliesOccurs(pat: Pattern, s: string, i: nat, text: string, target: string)
    requires MatchesAt(pat, s, i, text, target)
    ensures OccursAt(s, Source(pat, text, target), i)
  {
    var o := Opening(pat);
    var j := i + |o| + |text|;
    var k := j + 2 + |target|;
    assert s[j..j + 2] == "](";
    assert s[k..k + 1] == ")";
    SliceJoin(s, i, i + |o|, j);
    SliceJoin(s, i, j, j + 2);
    SliceJoin(s, i, j + 2, k);
    SliceJoin(s, i, k, k + 1);
  }

  /** Adjacent slices join up. */
  lemma SliceJoin(s: string, a: nat, b: nat, c: nat)
    requires a <= b <= c <= |s|
    ensures s[a..c] == s[a..b] + s[b..c]
  {
  }

  lemma OccursImpliesMatchesAt(pat: Pattern, s: string, i: nat, text: string, target: string)
    requires Shape(pat, text, target) && OccursAt(s, Source(pat, text, target), i)
    ensures MatchesAt(pat, s, i, text, target)
  {
    var o := Opening(pat);
    var j := i + |o| + |text|;
    var k := j + 2 + |target|;
    SliceSplit(s, i, k + 1, o + text + "](" + target, ")");
    SliceSplit(s, i, k, o + text + "](", target);
    SliceSplit(s, i, j + 2, o + text, "](");
    SliceSplit(s, i, j, o, text);
    assert s[j..j + 2][0] == s[j];
    assert s[k..k + 1][0] == s[k];
  }

  /** A slice that spells `x + y` spells `x` and then `y`. */
  lemma SliceSplit(s: string, a: nat, b: nat, x: string, y: string)
    requires a <= b <= |s| && s[a..b] == x + y
    ensures s[a..a + |x|] == x && s[a + |x|..b] == y
  {
    assert s[a..a + |x|] == s[a..b][..|x|];
    assert s[a + |x|..b] == s[a..b][|x|..];
  }

  /** The first index at or after `from` holding `c`. */
  function FindChar(s: string, c: char, from: nat): (r: Option<nat>)
    requires from <= |s|
    ensures r.Some? ==> from <= r.value < |s| && s[r.value] == c
    ensures r.Some? ==> forall j :: from <= j < r.value ==> s[j] != c
    ensures r.None? ==> forall j :: from <= j < |s| ==> s[j] != c
    decreases |s| - from
  {
    if from == |s| then None
    else if s[from] == c then Some(from)
    else FindChar(s, c, from + 1)
  }

  /** A slice without `c` is free of `c` index by index. */
  lemma SliceFree(s: string, a: nat, b: nat, c: char)
    requires a <= b <= |s| && c !in s[a..b]
    ensures forall q :: a <= q < b ==> s[q] != c
  {
    forall q | a <= q < b ensures s[q] != c {
      assert s[q] == s[a..b][q - a];
    }
  }

  /** The first `c` after a run free of `c` is the one found. */
  lemma {:induction false} FindCharAt(s: string, c: char, from: nat, j: nat)
    requires from <= j < |s| && s[j] == c
    requires forall q :: from <= q < j ==> s[q] != c
    ensures FindChar(s, c, from) == Some(j)
    decreases j - from
  {
    if from < j {
      FindCharAt(s, c, from + 1, j);
    }
  }

  /** An attempt to match `pat` at index `i`, as the regular expression
      engine makes it: each greedy class runs to the first closing
      character, so no backtracking can help. */
  function MatchAt(pat: Pattern, s: string, i: nat): (r: Option<Match>)
    requires i <= |s|
    ensures r.Some? ==> r.value.start == i
    ensures r.Some? ==> r.value.end == i + |Source(pat, r.value.text, r.value.target)| <= |s|
  {
    var o := Opening(pat);
    if !OccursAt(s, o, i) then None
    else
      match FindChar(s, ']', i + |o|)
      case None => None
      case Some(j) =>
        if pat.LinkPattern? && j == i + |o| then None
        else if !(j + 1 < |s| && s[j + 1] == '(') then None
        else
          match FindChar(s, ')', j + 2)
          case None => None
          case Some(k) =>
            if k == j + 2 then None
            else Some(Match(i, k + 1, s[i + |o|..j], s[j + 2..k]))
  }

  /** What the attempt at `i` returns is a match of the pattern at `i`. */
  lemma MatchAtSound(pat: Pattern, s: string, i: nat)
    requires i <= |s| && MatchAt(pat, s, i).Some?
    ensures MatchesAt(pat, s, i, MatchAt(pat, s, i).value.text, MatchAt(pat, s, i).value.target)
  {
    var o := Opening(pat);
    assert OccursAt(s, o, i);
    var j := FindChar(s, ']', i + |o|).value;
    assert j + 1 < |s| && s[j + 1] == '(';
    var k := FindChar(s, ')', j + 2).value;
    var text, target := s[i + |o|..j], s[j + 2..k];
    assert MatchAt(pat, s, i).value == Match(i, k + 1, text, target);
    SliceAvoids(s, i + |o|, j, ']');
    SliceAvoids(s, j + 2, k, ')');
  }

  /** A slice free of `c` index by index does not contain `c`. */
  lemma SliceAvoids(s: string, a: nat, b: nat, c: char)
    requires a <= b <= |s|
    requires forall q :: a <= q < b ==> s[q] != c
    ensures c !in s[a..b]
  {
    forall q | 0 <= q < b - a ensures s[a..b][q] != c {
      assert s[a..b][q] == s[a + q];
    }
  }

  /** The attempt at `i` finds every match there is at `i`: had the pattern
      matched with some groups, the attempt returns exactly those. */
  lemma MatchAtComplete(pat: Pattern, s: string, i: nat, text: string, target: string)
    requires MatchesAt(pat, s, i, text, target)
    ensures MatchAt(pat, s, i) == Some(Match(i, i + |Source(pat, text, target)|, text, target))
  {
    var o := Opening(pat);
    var j := i + |o| + |text|;
    var k := j + 2 + |target|;
    SliceFree(s, i + |o|, j, ']');
    FindCharAt(s, ']', i + |o|, j);
    SliceFree(s, j + 2, k, ')');
    FindCharAt(s, ')', j + 2, k);
  }

  /** Position `p` lies inside one of the matches. */
  predicate Covered(ms: seq<Match>, p: nat) {
    exists k :: 0 <= k < |ms| && ms[k].start <= p < ms[k].end
  }

  /** `re.findall` from index `i` on: the matches lie at or after `i` and
      come in order without overlapping. */
  function FindAllFrom(pat: Pattern, s: string, i: nat): (ms: seq<Match>)
    requires i <= |s|
    ensures forall k :: 0 <= k < |ms| ==> i <= ms[k].start < ms[k].end <= |s|
    ensures forall k :: 0 <= k < |ms| - 1 ==> ms[k].end <= ms[k + 1].start
    decreases |s| - i
  {
    if i == |s| then []
    else
      match MatchAt(pat, s, i)
      case None => FindAllFrom(pat, s, i + 1)
      case Some(m) => [m] + FindAllFrom(pat, s, m.end)
  }

  /** Each match found is what the attempt at its start returns, hence a
      real match of the pattern there. */
  lemma {:induction false} FindAllFromSound(pat: Pattern, s: string, i: nat, k: nat)
    requires i <= |s| && k < |FindAllFrom(pat, s, i)|
    ensures MatchAt(pat, s, FindAllFrom(pat, s, i)[k].start) == Some(FindAllFrom(pat, s, i)[k])
    ensures MatchesAt(pat, s, FindAllFrom(pat, s, i)[k].start, FindAllFrom(pat, s, i)[k].text, FindAllFrom(pat, s, i)[k].target)
    decreases |s| - i
  {
    var r := MatchAt(pat, s, i);
    var ms := FindAllFrom(pat, s, i);
    if r.None? {
      assert ms == FindAllFrom(pat, s, i + 1);
      FindAllFromSound(pat, s, i + 1, k);
    } else {
      var rest := FindAllFrom(pat, s, r.value.end);
      assert ms == [r.value] + rest;
      if k == 0 {
        MatchAtSound(pat, s, i);
      } else {
        assert ms[k] == rest[k - 1];
        FindAllFromSound(pat, s, r.value.end, k - 1);
      }
    }
  }

  /** The scan is leftmost: every index at or after `i` at which the pattern
      could match, and that no earlier match covers, starts one of the
      matches found. */
  lemma {:induction false} FindAllFromLeftmost(pat: Pattern, s: string, i: nat, p: nat)
    requires i <= p < |s| && MatchAt(pat, s, p).Some?
    ensures Covered(FindAllFrom(pat, s, i), p)
    decreases |s| - i
  {
    var r := MatchAt(pat, s, i);
    if r.None? {
      assert FindAllFrom(pat, s, i) == FindAllFrom(pat, s, i + 1);
      assert i != p by { assert MatchAt(pat, s, p) != r; }
      FindAllFromLeftmost(pat, s, i + 1, p);
    } else {
      var m := r.value;
      var rest := FindAllFrom(pat, s, m.end);
      assert FindAllFrom(pat, s, i) == [m] + rest;
      if m.end <= p {
        FindAllFromLeftmost(pat, s, m.end, p);
      }
      CoveredCons(m, rest, p);
    }
  }

  /** A position covered by the first match or by a later one is covered. */
  lemma CoveredCons(m: Match, rest: seq<Match>, p: nat)
    requires m.start <= p < m.end || Covered(rest, p)
    ensures Covered([m] + rest, p)
  {
    var ms := [m] + rest;
    if m.start <= p < m.end {
      assert ms[0] == m;
    } else {
      var k :| 0 <= k < |rest| && rest[k].start <= p < rest[k].end;
      assert ms[k + 1] == rest[k];
    }
  }

  /** `re.findall(pattern, s)`. */
  function FindAll(pat: Pattern, s: string): (ms: seq<Match>)
    ensures forall k :: 0 <= k < |ms| ==> ms[k].start < ms[k].end <= |s|
    ensures forall k :: 0 <= k < |ms| - 1 ==> ms[k].end <= ms[k + 1].start
  {
    FindAllFrom(pat, s, 0)
  }

  /** The link pattern is a suffix of the image pattern: wherever an image
      with non-empty alt text matches at `i`, a link with the same groups
      matches at `i + 1`. */
  lemma ImageContainsLink(s: string, i: nat)
    requires i <= |s|
    requires MatchAt(ImagePattern, s, i).Some?
    requires |MatchAt(ImagePattern, s, i).value.text| > 0
    ensures MatchAt(LinkPattern, s, i + 1) == Some(Match(i + 1, MatchAt(ImagePattern, s, i).value.end,
                                                         MatchAt(ImagePattern, s, i).value.text,
                                                         MatchAt(ImagePattern, s, i).value.target))
  {
    var m := MatchAt(ImagePattern, s, i).value;
    assert Opening(ImagePattern) == "!" + Opening(LinkPattern);
    assert s[i + 1..i + 2] == "[" by { assert s[i..i + 2] == "!["; }
    MatchAtComplete(LinkPattern, s, i + 1, m.text, m.target);
  }

  /** Hence every image with non-empty alt text meets the link scan in one
      of two ways: its own `[text](target)` is one of the link matches, or a
      link match that starts before the image spans past its `[` and has
      swallowed it. */
  lemma ImageLinkChecked(s: string, i: nat)
    requires i <= |s|
    requires MatchAt(ImagePattern, s, i).Some?
    requires |MatchAt(ImagePattern, s, i).value.text| > 0
    ensures var m := MatchAt(ImagePattern, s, i).value;
            var ls := FindAll(LinkPattern, s);
            || Match(i + 1, m.end, m.text, m.target) in ls
            || exists k :: 0 <= k < |ls| && ls[k].start <= i && i + 1 < ls[k].end
  {
    var m := MatchAt(ImagePattern, s, i).value;
    var ls := FindAll(LinkPattern, s);
    ImageContainsLink(s, i);
    FindAllFromLeftmost(LinkPattern, s, 0, i + 1);
    var k :| 0 <= k < |ls| && ls[k].start <= i + 1 < ls[k].end;
    if ls[k].start == i + 1 {
      FindAllFromSound(LinkPattern, s, 0, k);
      assert ls[k] == Match(i + 1, m.end, m.text, m.target);
    }
  }

  /** Without an opening `[` from `i` on, the scan finds nothing. */
  lemma {:induction false} NoOpeningNoMatch(pat: Pattern, s: string, i: nat)
    requires i <= |s| && '[' !in s[i..]
    ensures FindAllFrom(pat, s, i) == []
    decreases |s| - i
  {
    if i < |s| {
      assert s[i] == s[i..][0];
      assert !OccursAt(s, Opening(pat), i) by {
        if pat.LinkPattern? && i + 1 <= |s| {
          assert s[i..i + 1][0] == s[i];
        }
        if pat.ImagePattern? && i + 2 <= |s| {
          assert s[i..i + 2][1] == s[i + 1] == s[i..][1];
        }
      }
      assert FindAllFrom(pat, s, i) == FindAllFrom(pat, s, i + 1);
      assert s[i + 1..] == s[i..][1..];
      NoOpeningNoMatch(pat, s, i + 1);
    }
  }

  /** `y` occurs in `x + y + z` right after `x`. */
  lemma OccursAfter(x: string, y: string, z: string)
    ensures OccursAt(x + y + z, y, |x|)
  {
    assert (x + y + z)[|x|..|x| + |y|] == y;
  }

  /** A text holding one match at its start and no `[` after it has exactly
      that one match. */
  lemma FindAllSingle(pat: Pattern, s: string, text: string, target: string)
    requires MatchesAt(pat, s, 0, text, target)
    requires '[' !in s[|Source(pat, text, target)|..]
    ensures FindAll(pat, s) == [Match(0, |Source(pat, text, target)|, text, target)]
  {
    var m := Match(0, |Source(pat, text, target)|, text, target);
    MatchAtComplete(pat, s, 0, text, target);
    assert 0 < |s| && MatchAt(pat, s, 0) == Some(m);
    NoOpeningNoMatch(pat, s, m.end);
    assert FindAllFrom(pat, s, 0) == [m] + FindAllFrom(pat, s, m.end);
  }

  /** The image in `[x](y![b](c)` matches at 5. */
  lemma SwallowedImageMatches()
    ensures MatchesAt(ImagePattern, "[x](y![b](c)", 5, "b", "c")
  {
    assert Source(ImagePattern, "b", "c") == "![b](c)";
    assert "[x](y![b](c)" == "[x](y" + "![b](c)" + "";
    OccursAfter("[x](y", "![b](c)", "");
    OccursImpliesMatchesAt(ImagePattern, "[x](y![b](c)", 5, "b", "c");
  }

  /** The whole of `[x](y![b](c)` is one link. */
  lemma SwallowingLinkMatches()
    ensures MatchesAt(LinkPattern, "[x](y![b](c)", 0, "x", "y![b](c")
    ensures |Source(LinkPattern, "x", "y![b](c")| == 12
  {
    var s := "[x](y![b](c)";
    SwallowingLinkSource();
    assert s == "" + s + "";
    OccursAfter("", s, "");
    OccursImpliesMatchesAt(LinkPattern, s, 0, "x", "y![b](c");
  }

  /** The link's source text is the whole string. */
  lemma SwallowingLinkSource()
    ensures Source(LinkPattern, "x", "y![b](c") == "[x](y![b](c)"
  {
  }

  /** A link match can swallow an image: in `[x](y![b](c)` the image `c`
      matches at 5, but the only link match runs from 0 to the end, with
      target `y![b](c`, so the image's own target is never link-checked. */
  lemma SwallowedImage()
    ensures MatchAt(ImagePattern, "[x](y![b](c)", 5) == Some(Match(5, 12, "b", "c"))
    ensures FindAll(LinkPattern, "[x](y![b](c)") == [Match(0, 12, "x", "y![b](c")]
  {
    SwallowedImageMatches();
    MatchAtComplete(ImagePattern, "[x](y![b](c)", 5, "b", "c");
    SwallowingLinkMatches();
    FindAllSingle(LinkPattern, "[x](y![b](c)", "x", "y![b](c");
  }

  /** The inner image of `[![alt](img.png)](page.md)`, read from the outer
      `[`, is a link with text `![alt`. */
  lemma LinkedImageMatches()
    ensures MatchesAt(LinkPattern, "[![alt](img.png)](page.md)", 0, "![alt", "img.png")
    ensures |Source(LinkPattern, "![alt", "img.png")| == 16
  {
    var s := "[![alt](img.png)](page.md)";
    LinkedImageSource();
    OccursAfter("", "[![alt](img.png)", "](page.md)");
    OccursImpliesMatchesAt(LinkPattern, s, 0, "![alt", "img.png");
  }

  /** The inner link's source text is the first sixteen characters. */
  lemma LinkedImageSource()
    ensures Source(LinkPattern, "![alt", "img.png") == "[![alt](img.png)"
    ensures "[![alt](img.png)](page.md)" == "" + "[![alt](img.png)" + "](page.md)"
  {
  }

  /** No `[` follows the inner image. */
  lemma LinkedImageRest()
    ensures '[' !in "[![alt](img.png)](page.md)"[16..]
  {
    assert "[![alt](img.png)](page.md)"[16..] == "](page.md)";
  }

  /** A linked image: in `[![alt](img.png)](page.md)` the only link match is
      the inner `[alt](img.png)` seen from the outer `[`, with text `![alt`;
      the outer target `page.md` is never matched. */
  lemma LinkedImage()
    ensures FindAll(LinkPattern, "[![alt](img.png)](page.md)") == [Match(0, 16, "![alt", "img.png")]
  {
    LinkedImageMatches();
    LinkedImageRest();
    FindAllSingle(LinkPattern, "[![alt](img.png)](page.md)", "![alt", "img.png");
  }
}
