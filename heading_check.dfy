/**
 * `validate_headings` (scripts/validate-docs.py:153-176): the lines that
 * start with `#` are headings, and a heading may go at most one level
 * deeper than the heading before it.
 */
module HeadingCheck {
  import opened Text
  import opened Findings

  /** A heading: its 1-based line number, its level and the whole line. */
  datatype Heading = Heading(line: nat, level: nat, text: string)

  predicate IsHeading(line: string) {
    StartsWith(line, "#")
  }

  /** `len(line.split()[0])`: the length of the whole first word of the
      line, not the number of `#` characters in it. */
  function HeadingLevel(line: string): (level: nat)
    requires IsHeading(line)
    ensures level >= 1
  {
    assert line[0] == '#';
    |FirstWord(line)|
  }

  /** The level counts every character up to the first white space, or to
      the end of the line: `#` characters and anything else. */
  lemma HeadingLevelWord(line: string)
    requires IsHeading(line)
    ensures HeadingLevel(line) <= |line|
    ensures forall k :: 0 <= k < HeadingLevel(line) ==> !IsSpace(line[k])
    ensures HeadingLevel(line) == |line| || IsSpace(line[HeadingLevel(line)])
  {
    assert line[0] == '#';
    var w := FirstWord(line);
    assert w == line[..|w|];
  }

  /** The headings of `lines`, in line order. */
  function Headings(lines: seq<string>): (hs: seq<Heading>)
    ensures |hs| <= |lines|
    decreases |lines|
  {
    if |lines| == 0 then []
    else
      var line := lines[|lines| - 1];
      var hs := Headings(lines[..|lines| - 1]);
      if IsHeading(line) then hs + [Heading(|lines|, HeadingLevel(line), line)] else hs
  }

  /** Scanning one more line appends it when it is a heading. */
  lemma HeadingsStep(lines: seq<string>, i: nat)
    requires i < |lines|
    ensures Headings(lines[..i + 1]) ==
            if IsHeading(lines[i]) then Headings(lines[..i]) + [Heading(i + 1, HeadingLevel(lines[i]), lines[i])]
            else Headings(lines[..i])
  {
    assert lines[..i + 1][..i] == lines[..i];
  }

  /** `h` is the heading `lines` has at line `h.line`. */
  predicate HeadingOf(lines: seq<string>, h: Heading) {
    && 1 <= h.line <= |lines|
    && h.text == lines[h.line - 1]
    && IsHeading(h.text)
    && h.level == HeadingLevel(h.text)
  }

  /** Every heading found is a line that starts with `#`, with the line
      number it has in `lines` and the level `HeadingLevel` gives it, and
      the headings come in line order. */
  lemma {:induction false} HeadingsSound(lines: seq<string>)
    ensures forall k :: 0 <= k < |Headings(lines)| ==> HeadingOf(lines, Headings(lines)[k])
    ensures forall k :: 0 <= k < |Headings(lines)| - 1 ==> Headings(lines)[k].line < Headings(lines)[k + 1].line
    decreases |lines|
  {
    if |lines| > 0 {
      var init := lines[..|lines| - 1];
      HeadingsSound(init);
      var hs := Headings(init);
      var last := lines[|lines| - 1];
      assert Headings(lines) == if IsHeading(last) then hs + [Heading(|lines|, HeadingLevel(last), last)] else hs;
      forall k | 0 <= k < |hs| ensures HeadingOf(lines, hs[k]) {
        assert HeadingOf(init, hs[k]);
        assert lines[hs[k].line - 1] == init[hs[k].line - 1];
      }
    }
  }

  /** Every line that starts with `#` is one of the headings. */
  lemma {:induction false} HeadingsComplete(lines: seq<string>, j: nat)
    requires j < |lines| && IsHeading(lines[j])
    ensures exists k :: 0 <= k < |Headings(lines)| && Headings(lines)[k].line == j + 1
    decreases |lines|
  {
    var n := |lines|;
    var init := lines[..n - 1];
    var hs := Headings(init);
    var last := lines[n - 1];
    assert Headings(lines) == if IsHeading(last) then hs + [Heading(n, HeadingLevel(last), last)] else hs;
    if j < n - 1 {
      assert init[j] == lines[j];
      HeadingsComplete(init, j);
      var k :| 0 <= k < |hs| && hs[k].line == j + 1;
      assert Headings(lines)[k] == hs[k];
    } else {
      assert Headings(lines)[|hs|].line == n;
    }
  }

  /** The level-skip findings of a run of headings: one for each heading more
      than one level deeper than the heading right before it. */
  function SkipFindings(file: Paths.Path, hs: seq<Heading>): (r: seq<Finding>)
    ensures forall e :: e in r ==> e.HeadingLevelSkip? && e.file == file && e.currLevel > e.prevLevel + 1
    decreases |hs|
  {
    if |hs| < 2 then []
    else
      var prev, curr := hs[|hs| - 2], hs[|hs| - 1];
      SkipFindings(file, hs[..|hs| - 1]) +
      (if curr.level > prev.level + 1 then [HeadingLevelSkip(file, curr.line, prev.level, curr.level)] else [])
  }

  /** The finding for the step from `hs[k - 1]` to `hs[k]`. */
  predicate SkipAt(file: Paths.Path, hs: seq<Heading>, k: int, e: Finding) {
    && 1 <= k < |hs|
    && hs[k].level > hs[k - 1].level + 1
    && e == HeadingLevelSkip(file, hs[k].line, hs[k - 1].level, hs[k].level)
  }

  /** A finding is reported exactly for a step that goes more than one level
      deeper; equal levels, shallower levels and one-level steps are never
      reported. */
  lemma {:induction false} SkipFindingsMember(file: Paths.Path, hs: seq<Heading>, e: Finding)
    ensures e in SkipFindings(file, hs) <==> exists k :: SkipAt(file, hs, k, e)
    decreases |hs|
  {
    if |hs| >= 2 {
      var init := hs[..|hs| - 1];
      SkipFindingsMember(file, init, e);
      if exists k :: SkipAt(file, init, k, e) {
        var k :| SkipAt(file, init, k, e);
        assert SkipAt(file, hs, k, e);
      }
      if e in SkipFindings(file, hs) && e !in SkipFindings(file, init) {
        assert SkipAt(file, hs, |hs| - 1, e);
      }
      if exists k :: SkipAt(file, hs, k, e) {
        var k :| SkipAt(file, hs, k, e);
        if k < |hs| - 1 {
          assert SkipAt(file, init, k, e);
        } else {
          var prev, curr := hs[|hs| - 2], hs[|hs| - 1];
          assert SkipFindings(file, hs) == SkipFindings(file, init) + [HeadingLevelSkip(file, curr.line, prev.level, curr.level)];
        }
      }
    }
  }

  /** At most one finding per consecutive pair of headings. */
  lemma {:induction false} SkipFindingsBound(file: Paths.Path, hs: seq<Heading>)
    requires |hs| >= 1
    ensures |SkipFindings(file, hs)| <= |hs| - 1
    decreases |hs|
  {
    if |hs| >= 2 {
      SkipFindingsBound(file, hs[..|hs| - 1]);
    }
  }

  /** Levels 1, 2, 4 give one finding, for the jump from 2 to 4. */
  lemma SkipExampleOneTwoFour(file: Paths.Path, a: nat, b: nat, c: nat, ta: string, tb: string, tc: string)
    ensures SkipFindings(file, [Heading(a, 1, ta), Heading(b, 2, tb), Heading(c, 4, tc)])
            == [HeadingLevelSkip(file, c, 2, 4)]
  {
    var hs := [Heading(a, 1, ta), Heading(b, 2, tb), Heading(c, 4, tc)];
    assert hs[..2] == [Heading(a, 1, ta), Heading(b, 2, tb)];
    assert hs[..2][..1] == [Heading(a, 1, ta)];
    assert SkipFindings(file, hs[..2]) == [];
  }

  /** Levels 1, 3 give one finding. */
  lemma SkipExampleOneThree(file: Paths.Path, a: nat, b: nat, ta: string, tb: string)
    ensures SkipFindings(file, [Heading(a, 1, ta), Heading(b, 3, tb)]) == [HeadingLevelSkip(file, b, 1, 3)]
  {
    var hs := [Heading(a, 1, ta), Heading(b, 3, tb)];
    assert hs[..1] == [Heading(a, 1, ta)];
  }

  /** Levels 3, 1, 2 give none: a heading list may start deep and may go
      back up. */
  lemma SkipExampleThreeOneTwo(file: Paths.Path, a: nat, b: nat, c: nat, ta: string, tb: string, tc: string)
    ensures SkipFindings(file, [Heading(a, 3, ta), Heading(b, 1, tb), Heading(c, 2, tc)]) == []
  {
    var hs := [Heading(a, 3, ta), Heading(b, 1, tb), Heading(c, 2, tc)];
    assert hs[..2] == [Heading(a, 3, ta), Heading(b, 1, tb)];
    assert hs[..2][..1] == [Heading(a, 3, ta)];
    assert SkipFindings(file, hs[..2]) == [];
  }

  /** The level is the length of the first word: `#foo` is level 4. */
  lemma LevelIsFirstWordLength()
    ensures HeadingLevel("#foo bar") == 4
    ensures HeadingLevel("## Usage") == 2
  {
    assert LStrip("#foo bar") == "#foo bar";
    assert "#foo bar"[1..] == "foo bar" && "foo bar"[1..] == "oo bar";
    assert "oo bar"[1..] == "o bar" && "o bar"[1..] == " bar";
    assert TakeWord(" bar") == "";
    assert LStrip("## Usage") == "## Usage";
    assert "## Usage"[1..] == "# Usage" && "# Usage"[1..] == " Usage";
    assert TakeWord(" Usage") == "";
  }

  /** The findings of the heading check on `doc`. */
  function HeadingFindings(doc: Document): seq<Finding> {
    SkipFindings(doc.File(), Headings(Lines(doc.content)))
  }

  method ValidateHeadings(doc: Document) returns (errors: seq<Finding>)
    ensures errors == HeadingFindings(doc)
  {
    errors := [];
    var lines := Lines(doc.content);
    var headingLevels: seq<Heading> := [];
    for i := 0 to |lines|
      invariant headingLevels == Headings(lines[..i])
    {
      HeadingsStep(lines, i);
      var line := lines[i];
      if StartsWith(line, "#") {
        var level := HeadingLevel(line);
        headingLevels := headingLevels + [Heading(i + 1, level, line)];
      }
    }
    assert lines[..|lines|] == lines;
    var n := |headingLevels|;
    var i := 1;
    while i < n
      invariant 1 <= i && (n == 0 || i <= n)
      invariant errors == SkipFindings(doc.File(), headingLevels[..if i < n then i else n])
    {
      var prev, curr := headingLevels[i - 1], headingLevels[i];
      assert headingLevels[..i + 1][..i] == headingLevels[..i];
      if curr.level > prev.level + 1 {
        errors := errors + [HeadingLevelSkip(doc.File(), curr.line, prev.level, curr.level)];
      }
      i := i + 1;
    }
    assert headingLevels[..n] == headingLevels;
  }
}
