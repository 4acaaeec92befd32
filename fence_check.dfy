/**
 * `validate_code_blocks` (scripts/validate-docs.py:105-131): every line
 * whose stripped form starts with three backticks toggles between inside
 * and outside a code block; an odd number of such lines means the last
 * block is never closed.
 */
module FenceCheck {
  import opened Text
  import opened Findings

  const FenceMarker := "```"

  /** A fence line: after stripping white space it starts with the marker. */
  predicate IsFence(line: string) {
    StartsWith(Strip(line), FenceMarker)
  }

  /** The number of fence lines. */
  function FenceCount(lines: seq<string>): (n: nat)
    ensures n <= |lines|
    decreases |lines|
  {
    if |lines| == 0 then 0
    else FenceCount(lines[..|lines| - 1]) + (if IsFence(lines[|lines| - 1]) then 1 else 0)
  }

  /** The 1-based number of the last fence line, or 0 when there is none. */
  function LastFence(lines: seq<string>): (l: nat)
    ensures l <= |lines|
    decreases |lines|
  {
    if |lines| == 0 then 0
    else if IsFence(lines[|lines| - 1]) then |lines|
    else LastFence(lines[..|lines| - 1])
  }

  /** The last fence line is a fence line, no fence line follows it, and
      there is one exactly when the count is not zero. */
  lemma {:induction false} LastFenceSpec(lines: seq<string>)
    ensures var l := LastFence(lines);
            && (l > 0 ==> IsFence(lines[l - 1]))
            && (forall j :: l <= j < |lines| ==> !IsFence(lines[j]))
            && (l == 0 <==> FenceCount(lines) == 0)
    decreases |lines|
  {
    if |lines| > 0 {
      var init := lines[..|lines| - 1];
      LastFenceSpec(init);
      if !IsFence(lines[|lines| - 1]) {
        var l := LastFence(init);
        assert l > 0 ==> lines[l - 1] == init[l - 1];
        forall j | l <= j < |lines| ensures !IsFence(lines[j]) {
          if j < |init| {
            assert lines[j] == init[j];
          }
        }
      }
    }
  }

  /** The finding of the fence check on `doc`: one unclosed block, cited at
      the last fence line, exactly when the fence lines are odd in number. */
  function FenceFindings(doc: Document): (r: seq<Finding>)
    ensures |r| <= 1
    ensures forall e :: e in r ==>
              e.UnclosedCodeBlock? && e.file == doc.File() && 1 <= e.line <= |Lines(doc.content)|
  {
    var lines := Lines(doc.content);
    LastFenceSpec(lines);
    if FenceCount(lines) % 2 != 0 then [UnclosedCodeBlock(doc.File(), LastFence(lines))] else []
  }

  /** Scanning one more line adds it to the count and, when it is a fence
      line, makes it the last one. */
  lemma FenceStep(lines: seq<string>, i: nat)
    requires i < |lines|
    ensures FenceCount(lines[..i + 1]) == FenceCount(lines[..i]) + (if IsFence(lines[i]) then 1 else 0)
    ensures LastFence(lines[..i + 1]) == if IsFence(lines[i]) then i + 1 else LastFence(lines[..i])
  {
    assert lines[..i + 1][..i] == lines[..i];
  }

  method ValidateCodeBlocks(doc: Document) returns (errors: seq<Finding>)
    ensures errors == FenceFindings(doc)
  {
    errors := [];
    var lines := Lines(doc.content);
    var inCodeBlock := false;
    var codeBlockStart := 0;
    var fenceCount := 0;
    for i := 0 to |lines|
      invariant fenceCount == FenceCount(lines[..i])
      invariant inCodeBlock <==> fenceCount % 2 == 1
      invariant inCodeBlock ==> codeBlockStart == LastFence(lines[..i])
    {
      FenceStep(lines, i);
      if StartsWith(Strip(lines[i]), FenceMarker) {
        fenceCount := fenceCount + 1;
        if !inCodeBlock {
          inCodeBlock := true;
          codeBlockStart := i + 1;
        } else {
          inCodeBlock := false;
        }
      }
    }
    assert lines[..|lines|] == lines;
    if fenceCount % 2 != 0 {
      errors := errors + [UnclosedCodeBlock(doc.File(), codeBlockStart)];
    }
  }

  /** Exactly one finding when the fence lines are odd in number, none when
      even; the line it cites is a fence line within the document, and no
      fence line follows it. */
  lemma FenceFindingsExact(doc: Document)
    ensures var lines := Lines(doc.content);
            |FenceFindings(doc)| == (if FenceCount(lines) % 2 == 1 then 1 else 0)
    ensures var lines := Lines(doc.content);
            forall e :: e in FenceFindings(doc) ==>
              && e == UnclosedCodeBlock(doc.File(), e.line)
              && 1 <= e.line <= |lines|
              && IsFence(lines[e.line - 1])
              && forall j :: e.line <= j < |lines| ==> !IsFence(lines[j])
  {
    var lines := Lines(doc.content);
    var n := FenceCount(lines);
    var l := LastFence(lines);
    LastFenceSpec(lines);
    if n % 2 == 1 {
      assert n != 0;
      assert FenceFindings(doc) == [UnclosedCodeBlock(doc.File(), l)];
    } else {
      assert FenceFindings(doc) == [];
    }
  }

  /** Only leading white space matters: trailing white space cannot turn a
      line into a fence line or stop it from being one. */
  lemma FenceLeadingSpaceOnly(line: string)
    ensures IsFence(line) <==> StartsWith(LStrip(line), FenceMarker)
  {
    StripStartsWith(line, FenceMarker);
  }
}
