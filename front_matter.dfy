/**
 * `validate_yaml_frontmatter` (scripts/validate-docs.py:134-150): a
 * document that starts with a `---` line must close its front matter with
 * a second `---` line, and the front matter must mention `title:` unless
 * the file is `index.md`.
 */
module FrontMatter {
  import opened Options
  import opened Text
  import opened Findings

  const Delimiter := "---\n"
  const TitleField := "title:"
  const IndexName := "index.md"

  /** The finding of the front-matter check on `doc`, stated by where the
      closing delimiter is: none unless the text starts with the delimiter;
      otherwise an incomplete front matter when no second delimiter follows,
      and a missing title when the text between the two delimiters lacks
      `title:` and the file is not `index.md`. */
  function FrontMatterFindings(doc: Document): (r: seq<Finding>)
    ensures |r| <= 1
  {
    var c := doc.content;
    if !StartsWith(c, Delimiter) then []
    else
      match FindFrom(c, Delimiter, |Delimiter|)
      case None => [IncompleteFrontMatter(doc.File())]
      case Some(k) =>
        if !Contains(c[|Delimiter|..k], TitleField) && doc.name != IndexName then [MissingTitle(doc.File())]
        else []
  }

  /** `content.split('---\n', 2)` on a text that starts with the delimiter:
      fewer than three parts exactly when no second delimiter follows, and
      otherwise the middle part is the text between the two. */
  lemma SplitFrontMatter(c: string)
    requires StartsWith(c, Delimiter)
    ensures |SplitMax(c, Delimiter, 2)| < 3 <==> FindFrom(c, Delimiter, |Delimiter|).None?
    ensures FindFrom(c, Delimiter, |Delimiter|).Some? ==>
              SplitMax(c, Delimiter, 2)[1] == c[|Delimiter|..FindFrom(c, Delimiter, |Delimiter|).value]
  {
    var d := |Delimiter|;
    assert OccursAt(c, Delimiter, 0);
    assert FindFrom(c, Delimiter, 0) == Some(0);
    var rest := c[d..];
    assert SplitMax(c, Delimiter, 2) == [c[..0]] + SplitMax(rest, Delimiter, 1);
    FindFromSuffix(c, Delimiter, d, 0);
    match FindFrom(c, Delimiter, d)
    case None =>
      assert SplitMax(rest, Delimiter, 1) == [rest];
    case Some(k) =>
      assert FindFrom(rest, Delimiter, 0) == Some(k - d);
      assert SplitMax(rest, Delimiter, 1) == [rest[..k - d]] + SplitMax(rest[k - d + d..], Delimiter, 0);
      assert rest[..k - d] == c[d..k];
  }

  method ValidateYamlFrontMatter(doc: Document) returns (errors: seq<Finding>)
    ensures errors == FrontMatterFindings(doc)
  {
    errors := [];
    var content := doc.content;
    if StartsWith(content, Delimiter) {
      var parts := SplitMax(content, Delimiter, 2);
      SplitFrontMatter(content);
      if |parts| < 3 {
        errors := errors + [IncompleteFrontMatter(doc.File())];
      } else {
        var frontmatter := parts[1];
        if !Contains(frontmatter, TitleField) && doc.name != IndexName {
          errors := errors + [MissingTitle(doc.File())];
        }
      }
    }
  }

  /** The index page is never reported for a missing title. */
  lemma IndexNeedsNoTitle(doc: Document)
    requires doc.name == IndexName
    ensures forall e :: e in FrontMatterFindings(doc) ==> e.IncompleteFrontMatter?
  {
  }
}
