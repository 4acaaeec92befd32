/**
 * `validate_images` (scripts/validate-docs.py:74-102): every `![alt](path)`
 * match whose path is not an http(s) URL is resolved against the
 * document's directory and must exist as written.
 */
module ImageCheck {
  import opened Options
  import opened Text
  import opened Paths
  import opened Patterns
  import opened Findings

  /** Images that are never checked. */
  const ExternalPrefixes: seq<string> := ["http://", "https://"]

  /** The verdict on one image match. */
  function ImageFinding(doc: Document, existing: set<string>, m: Match): (r: Option<Finding>)
    ensures r.Some? ==> !StartsWithAny(m.target, ExternalPrefixes)
    ensures r.Some? ==> PathString(Target(doc.dir, m.target)) !in existing
    ensures r.Some? ==> r.value == MissingImage(doc.File(), m.text, m.target, Target(doc.dir, m.target))
  {
    var path := m.target;
    if StartsWithAny(path, ExternalPrefixes) then None
    else
      var target := Target(doc.dir, path);
      if PathString(target) in existing then None
      else Some(MissingImage(doc.File(), m.text, path, target))
  }

  function ImageVerdict(doc: Document, existing: set<string>): Match -> Option<Finding> {
    m => ImageFinding(doc, existing, m)
  }

  /** The findings of the image check on `doc`, in match order. */
  function ImageFindings(doc: Document, existing: set<string>): seq<Finding> {
    Collect(FindAll(ImagePattern, doc.content), ImageVerdict(doc, existing))
  }

  method ValidateImages(doc: Document, existing: set<string>) returns (errors: seq<Finding>)
    ensures errors == ImageFindings(doc, existing)
  {
    errors := [];
    var images := FindAll(ImagePattern, doc.content);
    for i := 0 to |images|
      invariant errors == Collect(images[..i], ImageVerdict(doc, existing))
    {
      assert images[..i + 1][..i] == images[..i];
      var alt, path := images[i].text, images[i].target;
      if StartsWithAny(path, ExternalPrefixes) {
        continue;
      }
      var target: Path;
      if StartsWith(path, "../") {
        target := Resolve(doc.dir, path);
      } else if StartsWith(path, "./") {
        target := Resolve(doc.dir, path[2..]);
      } else {
        target := Resolve(doc.dir, path);
      }
      if PathString(target) !in existing {
        errors := errors + [MissingImage(doc.File(), alt, path, target)];
      }
    }
    assert images[..|images|] == images;
  }

  /** An image is reported exactly when its path is not an http(s) URL and
      the resolved path, as written, does not exist: there is no `.md`
      retry, and neither `mailto:` nor `#` paths are exempt. */
  lemma ImageMissingIff(doc: Document, existing: set<string>, m: Match)
    ensures ImageFinding(doc, existing, m).Some? <==>
              && !StartsWith(m.target, "http://") && !StartsWith(m.target, "https://")
              && PathString(Target(doc.dir, m.target)) !in existing
    ensures ImageFinding(doc, existing, m).Some? ==>
              ImageFinding(doc, existing, m).value ==
              MissingImage(doc.File(), m.text, m.target, Target(doc.dir, m.target))
  {
    if StartsWithAny(m.target, ExternalPrefixes) {
      var k :| 0 <= k < 2 && StartsWith(m.target, ExternalPrefixes[k]);
    }
    if StartsWith(m.target, "http://") {
      assert StartsWith(m.target, ExternalPrefixes[0]);
    }
    if StartsWith(m.target, "https://") {
      assert StartsWith(m.target, ExternalPrefixes[1]);
    }
  }

  /** The image check reports at most one finding per match, each a missing
      image in `doc` produced by one of the matches. */
  lemma ImageFindingsShape(doc: Document, existing: set<string>)
    ensures |ImageFindings(doc, existing)| <= |FindAll(ImagePattern, doc.content)|
    ensures forall e :: e in ImageFindings(doc, existing) ==>
              e.MissingImage? && e.file == doc.File() &&
              exists k :: 0 <= k < |FindAll(ImagePattern, doc.content)| &&
                ImageFinding(doc, existing, FindAll(ImagePattern, doc.content)[k]) == Some(e)
  {
    var ms := FindAll(ImagePattern, doc.content);
    var f := ImageVerdict(doc, existing);
    CollectLength(ms, f);
    forall e | e in ImageFindings(doc, existing)
      ensures e.MissingImage? && e.file == doc.File()
      ensures exists k :: 0 <= k < |ms| && ImageFinding(doc, existing, ms[k]) == Some(e)
    {
      CollectMember(ms, f, e);
      var k :| 0 <= k < |ms| && f(ms[k]) == Some(e);
    }
  }
}
