/**
 * `main` (scripts/validate-docs.py:179-219): every document is put through
 * the five checks in a fixed order, all findings are gathered in document
 * order, and the run fails exactly when there is at least one.
 */
module Runner {
  import opened Options
  import opened Text
  import opened Paths
  import opened Patterns
  import opened Findings
  import opened LinkCheck
  import opened ImageCheck
  import opened FenceCheck
  import opened FrontMatter
  import opened HeadingCheck

  /** The findings for one document: links, images, code blocks, front
      matter and headings, in that order. */
  function DocumentFindings(doc: Document, existing: set<string>): (r: seq<Finding>)
    ensures forall e :: e in r ==> e.file == doc.File()
  {
    LinkFindingsShape(doc, existing);
    ImageFindingsShape(doc, existing);
    LinkFindings(doc, existing) + ImageFindings(doc, existing) + FenceFindings(doc)
    + FrontMatterFindings(doc) + HeadingFindings(doc)
  }

  /** The five checks as one per-document check. */
  function DocumentCheck(existing: set<string>): Document -> seq<Finding> {
    doc => DocumentFindings(doc, existing)
  }

  /** The findings for all documents, in discovery order. */
  function AllFindings(docs: seq<Document>, existing: set<string>): (r: seq<Finding>)
    ensures forall e :: e in r <==> exists k :: 0 <= k < |docs| && e in DocumentFindings(docs[k], existing)
  {
    forall e ensures e in Gather(docs, DocumentCheck(existing)) <==>
                     exists k :: 0 <= k < |docs| && e in DocumentFindings(docs[k], existing) {
      GatherMember(docs, DocumentCheck(existing), e);
    }
    Gather(docs, DocumentCheck(existing))
  }

  /** The process exit status for the gathered findings. */
  function ExitStatus(allErrors: seq<Finding>): (status: int)
    ensures status == 0 || status == 1
    ensures status == 1 <==> |allErrors| > 0
  {
    if |allErrors| > 0 then 1 else 0
  }

  method ValidateDocument(doc: Document, existing: set<string>) returns (errors: seq<Finding>)
    ensures errors == DocumentFindings(doc, existing)
  {
    var links := ValidateInternalLinks(doc, existing);
    var images := ValidateImages(doc, existing);
    var blocks := ValidateCodeBlocks(doc);
    var frontMatter := ValidateYamlFrontMatter(doc);
    var headings := ValidateHeadings(doc);
    errors := links + images + blocks + frontMatter + headings;
  }

  /** The run over the discovered documents: the gathered findings and the
      exit status. */
  method ValidateAll(docs: seq<Document>, existing: set<string>) returns (allErrors: seq<Finding>, status: int)
    ensures allErrors == AllFindings(docs, existing)
    ensures status == ExitStatus(allErrors)
  {
    allErrors := [];
    for i := 0 to |docs|
      invariant allErrors == AllFindings(docs[..i], existing)
    {
      assert docs[..i + 1][..i] == docs[..i];
      var errors := ValidateDocument(docs[i], existing);
      if |errors| > 0 {
        allErrors := allErrors + errors;
      }
    }
    assert docs[..|docs|] == docs;
    if |allErrors| > 0 {
      status := 1;
    } else {
      status := 0;
    }
  }

  /** Gathering over two runs of documents gathers over each in turn. */
  lemma AllFindingsAppend(xs: seq<Document>, ys: seq<Document>, existing: set<string>)
    ensures AllFindings(xs + ys, existing) == AllFindings(xs, existing) + AllFindings(ys, existing)
  {
    GatherAppend(xs, ys, DocumentCheck(existing));
  }

  /** The run fails exactly when some document has a finding. */
  lemma FailsIffSomeDocumentFails(docs: seq<Document>, existing: set<string>)
    ensures ExitStatus(AllFindings(docs, existing)) == 1 <==>
            exists k :: 0 <= k < |docs| && DocumentFindings(docs[k], existing) != []
  {
    GatherNonEmpty(docs, DocumentCheck(existing));
  }

  /** A document's findings lie in the run's findings as one contiguous
      block, after those of every document discovered before it. */
  lemma DocumentBlock(docs: seq<Document>, k: nat, existing: set<string>)
    requires k < |docs|
    ensures AllFindings(docs, existing) ==
            AllFindings(docs[..k], existing) + DocumentFindings(docs[k], existing)
            + AllFindings(docs[k + 1..], existing)
  {
    assert docs == docs[..k] + [docs[k]] + docs[k + 1..];
    AllFindingsAppend(docs[..k] + [docs[k]], docs[k + 1..], existing);
    AllFindingsAppend(docs[..k], [docs[k]], existing);
    assert AllFindings([docs[k]], existing) == DocumentFindings(docs[k], existing) by {
      assert [docs[k]][..0] == [];
    }
  }

  /** Only the link check falls back to `.md`: a local reference whose
      resolved path is missing while the path with `.md` appended exists
      passes as a link, and the same reference is reported as an image. */
  lemma FallbackOnlyForLinks(doc: Document, existing: set<string>, m: Match)
    requires !StartsWithAny(m.target, SkippedPrefixes)
    requires '#' !in m.target && m.target != ""
    requires PathString(Target(doc.dir, m.target)) !in existing
    requires !EndsWith(PathString(Target(doc.dir, m.target)), ".md")
    requires PathString(Target(doc.dir, m.target)) + ".md" in existing
    ensures LinkFinding(doc, existing, m) == None
    ensures ImageFinding(doc, existing, m) == Some(MissingImage(doc.File(), m.text, m.target, Target(doc.dir, m.target)))
  {
    assert BeforeFirst(m.target, '#') == m.target;
    LinkBrokenIff(doc, existing, m);
    assert !StartsWith(m.target, SkippedPrefixes[0]) && !StartsWith(m.target, SkippedPrefixes[1]);
    ImageMissingIff(doc, existing, m);
  }
}
