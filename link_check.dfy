/**
 * `validate_internal_links` (scripts/validate-docs.py:25-71): every
 * `[text](link)` match whose link is local is resolved against the
 * document's directory and must exist, either as written or with `.md`
 * appended.
 */
module LinkCheck {
  import opened Options
  import opened Text
  import opened Paths
  import opened Patterns
  import opened Findings

  /** Links that are never checked: external schemes and in-page anchors. */
  const SkippedPrefixes: seq<string> := ["http://", "https://", "mailto:", "#"]

  /** The path a local link is resolved to: only the part before the first
      `#` takes part. */
  function LinkTarget(dir: Path, link: string): Path {
    Target(dir, BeforeFirst(link, '#'))
  }

  /** The verdict on one link match. */
  function LinkFinding(doc: Document, existing: set<string>, m: Match): (r: Option<Finding>)
    ensures r.Some? ==> !StartsWithAny(m.target, SkippedPrefixes) && BeforeFirst(m.target, '#') != ""
    ensures r.Some? ==> PathString(LinkTarget(doc.dir, m.target)) !in existing
    ensures r.Some? ==> r.value == BrokenLink(doc.File(), m.text, m.target, LinkTarget(doc.dir, m.target))
  {
    var link := m.target;
    if StartsWithAny(link, SkippedPrefixes) then None
    else if StartsWith(link, "#") then None
    else if BeforeFirst(link, '#') == "" then None
    else
      var target := LinkTarget(doc.dir, link);
      var t := PathString(target);
      if t in existing then None
      else if !EndsWith(t, ".md") then
        if t + ".md" in existing then None else Some(BrokenLink(doc.File(), m.text, link, target))
      else Some(BrokenLink(doc.File(), m.text, link, target))
  }

  function LinkVerdict(doc: Document, existing: set<string>): Match -> Option<Finding> {
    m => LinkFinding(doc, existing, m)
  }

  /** The findings of the link check on `doc`, in match order. */
  function LinkFindings(doc: Document, existing: set<string>): seq<Finding> {
    Collect(FindAll(LinkPattern, doc.content), LinkVerdict(doc, existing))
  }

  method ValidateInternalLinks(doc: Document, existing: set<string>) returns (errors: seq<Finding>)
    ensures errors == LinkFindings(doc, existing)
  {
    errors := [];
    var links := FindAll(LinkPattern, doc.content);
    for i := 0 to |links|
      invariant errors == Collect(links[..i], LinkVerdict(doc, existing))
    {
      assert links[..i + 1][..i] == links[..i];
      var text, link := links[i].text, links[i].target;
      // external links and anchors within the same page
      if StartsWithAny(link, SkippedPrefixes) {
        continue;
      }
      if StartsWith(link, "#") {
        continue;
      }
      var linkPath := BeforeFirst(link, '#');
      if linkPath == "" {
        continue;
      }
      var target: Path;
      if StartsWith(linkPath, "../") {
        target := Resolve(doc.dir, linkPath);
      } else if StartsWith(linkPath, "./") {
        target := Resolve(doc.dir, linkPath[2..]);
      } else {
        target := Resolve(doc.dir, linkPath);
      }
      var t := PathString(target);
      if t !in existing {
        if !EndsWith(t, ".md") {
          if t + ".md" !in existing {
            errors := errors + [BrokenLink(doc.File(), text, link, target)];
          }
        } else {
          errors := errors + [BrokenLink(doc.File(), text, link, target)];
        }
      }
    }
    assert links[..|links|] == links;
  }

  /** External links, anchors, and links whose part before `#` is empty are
      never reported, whatever exists. */
  lemma LinkSkipped(doc: Document, existing: set<string>, m: Match)
    requires || StartsWith(m.target, "http://") || StartsWith(m.target, "https://")
             || StartsWith(m.target, "mailto:") || StartsWith(m.target, "#")
             || BeforeFirst(m.target, '#') == ""
    ensures LinkFinding(doc, existing, m) == None
  {
    if StartsWith(m.target, "http://") {
      assert StartsWith(m.target, SkippedPrefixes[0]);
    } else if StartsWith(m.target, "https://") {
      assert StartsWith(m.target, SkippedPrefixes[1]);
    } else if StartsWith(m.target, "mailto:") {
      assert StartsWith(m.target, SkippedPrefixes[2]);
    }
  }

  /** A link is reported exactly when it is local, its resolved target does
      not exist, and either the target already ends in `.md` or the target
      with `.md` appended does not exist either; the finding names the
      document, the text, the link as written and the resolved target. */
  lemma LinkBrokenIff(doc: Document, existing: set<string>, m: Match)
    ensures var t := PathString(LinkTarget(doc.dir, m.target));
            LinkFinding(doc, existing, m).Some? <==>
              && !StartsWithAny(m.target, SkippedPrefixes)
              && BeforeFirst(m.target, '#') != ""
              && t !in existing
              && (EndsWith(t, ".md") || t + ".md" !in existing)
    ensures LinkFinding(doc, existing, m).Some? ==>
              LinkFinding(doc, existing, m).value ==
              BrokenLink(doc.File(), m.text, m.target, LinkTarget(doc.dir, m.target))
  {
    if StartsWith(m.target, "#") {
      assert StartsWith(m.target, SkippedPrefixes[3]);
    }
  }

  /** A fragment after `#` plays no part in resolution. */
  lemma LinkFragmentIgnored(dir: Path, p: string, fragment: string)
    requires '#' !in p
    ensures LinkTarget(dir, p + "#" + fragment) == LinkTarget(dir, p)
  {
    var s := p + "#" + fragment;
    var r := BeforeFirst(s, '#');
    var r' := BeforeFirst(p, '#');
    assert s[|p|] == '#';
    assert |r| == |p|;
    assert r == s[..|r|] == p;
    assert r' == p;
  }

  /** The link check reports at most one finding per match, each a broken
      link in `doc` produced by one of the matches. */
  lemma LinkFindingsShape(doc: Document, existing: set<string>)
    ensures |LinkFindings(doc, existing)| <= |FindAll(LinkPattern, doc.content)|
    ensures forall e :: e in LinkFindings(doc, existing) ==>
              e.BrokenLink? && e.file == doc.File() &&
              exists k :: 0 <= k < |FindAll(LinkPattern, doc.content)| &&
                LinkFinding(doc, existing, FindAll(LinkPattern, doc.content)[k]) == Some(e)
  {
    var ms := FindAll(LinkPattern, doc.content);
    var f := LinkVerdict(doc, existing);
    CollectLength(ms, f);
    forall e | e in LinkFindings(doc, existing)
      ensures e.BrokenLink? && e.file == doc.File()
      ensures exists k :: 0 <= k < |ms| && LinkFinding(doc, existing, ms[k]) == Some(e)
    {
      CollectMember(ms, f, e);
      var k :| 0 <= k < |ms| && f(ms[k]) == Some(e);
      LinkBrokenIff(doc, existing, ms[k]);
    }
  }
}
