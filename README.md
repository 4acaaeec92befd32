# Documentation validator, modelled in Dafny

This project models the documentation linter `scripts/validate-docs.py`. The
linter runs five checks over every Markdown document under `docs/`:

- internal links;
- image references;
- fenced code blocks;
- YAML front matter;
- heading levels.

It gathers every finding, in a fixed order, and exits with status 1 when
there is at least one finding and 0 otherwise.

Each checker keeps the source's imperative shape: a `method` that builds the
`errors` list in a loop, or in an if-chain where the source has no loop (the
front-matter check). Each is proved equal to a specification function.
Lemmas about those functions state what the checks promise.

- `Text` (`text.dfy`): the Python string operations the checks use.
  - `str.isspace`, `strip`, `split(c)`, `split(sep, maxsplit)`, the first
    word of `split()`, `find` and `in`.
  - Round trips between `Split` and `Join`.
- `Paths` (`paths.dfy`): `(md_file.parent / p).resolve()`.
  - A path is a sequence of segments.
  - A relative reference is appended to the document's directory; an
    absolute one replaces it.
  - The result is normalised from the root: `.` and empty segments are
    dropped, and `..` removes the last segment but never goes above the root.
  - `Target` keeps the three branches of the source: `../`, `./` (which
    strips two characters) and the rest.
- `Patterns` (`patterns.dfy`): the two fixed regular expressions, written as
  scanners with `re.findall` semantics.
  - Matches are leftmost and never overlap.
  - After a failed attempt the scan moves on one character; after a match it
    resumes at the match's end.
  - Lemmas prove the scanner sound and complete against an index-by-index
    statement of each pattern.
  - They also prove how every image with non-empty alt text meets the link
    scan. Either its own `[alt](path)` is one of the link matches, and so is
    link-checked as well, or an earlier link match spans past its `[` and has
    swallowed it.
- `Findings` (`findings.dfy`): documents, the kinds of finding, and two
  order-preserving folds: `Collect` (at most one finding per item) and
  `Gather` (any number per item).
- `LinkCheck`, `ImageCheck`, `FenceCheck`, `FrontMatter`, `HeadingCheck`:
  the five checks.
- `Runner` (`runner.dfy`): `main`'s loop over the documents, the order in
  which the checks run, and the exit status.

The file system is an input, not part of the model:

- Each document is given as its normalised directory, its file name and its
  text.
- `exists` is a set of normalised absolute path strings (`"/a/b.md"`).
- `PathStringInjective` shows that distinct normal paths have distinct
  strings, so a set of strings models existence faithfully.

Where the source and its own description disagree, the model follows the
source:

- **Heading level.** It is the length of the whole first whitespace-separated
  word (`len(line.split()[0])`), not the number of `#` characters. So `#foo
  bar` has level 4. See `HeadingCheck.LevelIsFirstWordLength`.
- **Front matter delimiter.** Front matter is split on the text `---\n`
  wherever it occurs, not only on a line that consists of three hyphens.
- **The `.//` prefix.** Because the `./` branch strips exactly two
  characters, a link `.//etc` becomes the absolute `/etc` and is looked up
  from the root. Plain resolution would have given `dir/etc`. See
  `Paths.TargetDotSlashSlash` and `Paths.ResolveDotSlashSlash`.
- **Not every `[text](target)` is link-checked.** The link scan resumes after
  each match, so a match can swallow what follows it.
  - In `[x](y![b](c)` the only link match has target `y![b](c`, and the
    image's own target `c` is never link-checked. See
    `Patterns.SwallowedImage`.
  - In a linked image `[![alt](img.png)](page.md)`, the only link match is
    `[![alt](img.png)`, with text `![alt`. The outer target `page.md` is never
    checked. See `Patterns.LinkedImage`.
- **Dead anchor test.** The second `startswith('#')` test in the link check
  can never fire, because `#` is already in the first skip list. It is kept
  as written.

## Model

| member | source | states |
|---|---|---|
| Text.Split | scripts/validate-docs.py:109 | `content.split('\n')` always gives at least one part, and no part contains the separator |
| Text.JoinSplit | scripts/validate-docs.py:109 | joining the lines of a text with `\n` gives back the text, so splitting loses nothing |
| Text.SplitJoin | scripts/validate-docs.py:157 | splitting a join of separator-free parts gives back the same parts |
| Text.BeforeFirst | scripts/validate-docs.py:44 | `link.split('#')[0]` is a prefix of the link without `#`, and is either the whole link or followed by `#` |
| Text.SplitMax | scripts/validate-docs.py:141 | `split(sep, 2)` yields between one and three parts |
| Text.FindFrom | scripts/validate-docs.py:141 | the first occurrence of the separator at or after a position, and none when there is none |
| Text.StripStartsWith | scripts/validate-docs.py:117 | for a prefix without white space, whether the stripped line starts with it depends on leading white space only |
| Text.FirstWord | scripts/validate-docs.py:162 | the first word of a line that starts with a non-space character is the line's prefix up to its first white space or its end, and it is non-empty |
| Text.StripSpec | scripts/validate-docs.py:117 | `strip()` keeps exactly the slice between the leading and the trailing white space; what it removes is white space, and what it keeps neither starts nor ends with white space |
| Paths.Resolve | scripts/validate-docs.py:50-55 | resolving against a directory whose segments hold no `/` always yields a normal path: no `.`, `..` or empty segment |
| Paths.Target | scripts/validate-docs.py:50-55 | the path computed by the three branches (used again for images at lines 89-94) is normal whenever the directory's segments hold no `/`; `Paths.TargetIsResolve` relates it to plain resolution |
| Paths.ResolveRelative | scripts/validate-docs.py:50-55 | a relative reference is walked segment by segment from the document's directory |
| Paths.DotSlash | scripts/validate-docs.py:52-53 | a leading `./` does not change resolution of a reference that is not itself absolute |
| Paths.TargetDotSlash | scripts/validate-docs.py:52-53 | the `./x` branch resolves exactly as the plain target `x` |
| Paths.TargetIsResolve | scripts/validate-docs.py:50-55 | the three resolution branches agree with plain resolution unless the target starts with `.//` |
| Paths.TargetDotSlashSlash | scripts/validate-docs.py:52-53 | `.//etc` is resolved from the root, to `/etc` |
| Paths.ResolveDotSlashSlash | scripts/validate-docs.py:55 | plain resolution of `.//etc` gives `etc` inside the document's directory |
| Paths.PathStringInjective | scripts/validate-docs.py:58 | distinct normal paths have distinct strings, so existence can be a set of strings |
| Patterns.MatchesAtOccurs | scripts/validate-docs.py:31 | the index-by-index statement of a match equals "the groups have the right shape and `[text](target)` occurs here" |
| Patterns.MatchAt | scripts/validate-docs.py:31-32 | an attempt at `i` returns a match that starts at `i` and spans exactly its source text |
| Patterns.MatchAtSound | scripts/validate-docs.py:31-32 | what the attempt at `i` returns is a match of the pattern at `i` |
| Patterns.MatchAtComplete | scripts/validate-docs.py:31-32 | when the pattern matches at `i`, the attempt returns exactly that match |
| Patterns.FindAllFrom | scripts/validate-docs.py:32 | the matches found lie inside the text, in order, without overlap |
| Patterns.FindAllFromSound | scripts/validate-docs.py:32 | every match found is a true match at its start |
| Patterns.FindAllFromLeftmost | scripts/validate-docs.py:32 | every position where the pattern matches lies inside a match found, so no match is missed |
| Patterns.ImageContainsLink | scripts/validate-docs.py:80-81 | an image with non-empty alt text contains a link match with the same text and target, one character later |
| Patterns.ImageLinkChecked | scripts/validate-docs.py:31-81 | for an image with non-empty alt text, either its own `[alt](path)` is one of the link matches, or a link match that starts before the image spans past its `[` |
| Patterns.FindAll | scripts/validate-docs.py:32 | `re.findall`'s matches lie inside the text, in order, without overlap |
| Patterns.NoOpeningNoMatch | scripts/validate-docs.py:31-32 | without a `[` from some position on, the scan finds nothing there |
| Patterns.FindAllSingle | scripts/validate-docs.py:31-32 | a text with one match at its start and no `[` after it has exactly that match |
| Patterns.SwallowedImage | scripts/validate-docs.py:31-81 | in `[x](y![b](c)` the image `c` matches at 5, while the only link match spans the whole text with target `y![b](c` |
| Patterns.LinkedImage | scripts/validate-docs.py:31-32 | in `[![alt](img.png)](page.md)` the only link match is `[![alt](img.png)`, so the target `page.md` is never matched |
| Findings.CollectAppend | scripts/validate-docs.py:34-69 | per-item findings keep the order of the items |
| Findings.CollectLength | scripts/validate-docs.py:34-69 | each item contributes at most one finding |
| Findings.CollectMember | scripts/validate-docs.py:34-69 | a finding is reported exactly when some item yields it |
| Findings.CollectEmpty | scripts/validate-docs.py:34-69 | there are no findings exactly when no item yields one |
| Findings.GatherAppend | scripts/validate-docs.py:190-205 | gathering over two runs of documents gathers over each in turn |
| Findings.GatherMember | scripts/validate-docs.py:202-204 | a finding is gathered exactly when some document reports it |
| Findings.GatherNonEmpty | scripts/validate-docs.py:202-204 | something is gathered exactly when some document reports something |
| LinkCheck.ValidateInternalLinks | scripts/validate-docs.py:25-71 | the loop returns, in match order, the verdicts of `LinkFinding` on every link match |
| LinkCheck.LinkFinding | scripts/validate-docs.py:35-69 | a link is reported only when it is local and its resolved target does not exist, and the finding carries the document, the text, the link as written and the resolved target; `LinkCheck.LinkBrokenIff` gives the converse |
| LinkCheck.LinkSkipped | scripts/validate-docs.py:36-47 | targets starting with `http://`, `https://`, `mailto:` or `#`, or with nothing before the first `#`, are never reported |
| LinkCheck.LinkBrokenIff | scripts/validate-docs.py:58-69 | a link is reported iff it is local, its target does not exist, and the target ends in `.md` or its `.md` form does not exist either; the finding carries the document, text, link and target |
| LinkCheck.LinkFragmentIgnored | scripts/validate-docs.py:44 | a `#fragment` plays no part in resolution |
| LinkCheck.LinkFindingsShape | scripts/validate-docs.py:34-69 | at most one finding per match, each a broken link in this document produced by some match |
| ImageCheck.ValidateImages | scripts/validate-docs.py:74-102 | the loop returns, in match order, the verdicts of `ImageFinding` on every image match |
| ImageCheck.ImageFinding | scripts/validate-docs.py:84-100 | an image is reported only when its path is not an http(s) URL and its resolved path does not exist, and the finding carries the document, the alt text, the path and the resolved target; `ImageCheck.ImageMissingIff` gives the converse |
| ImageCheck.ImageMissingIff | scripts/validate-docs.py:85-100 | an image is reported iff its path is not an http(s) URL and the resolved path does not exist; there is no `.md` retry and no `mailto:`/`#` exemption |
| ImageCheck.ImageFindingsShape | scripts/validate-docs.py:83-100 | at most one finding per match, each a missing image in this document produced by some match |
| FenceCheck.FenceCount | scripts/validate-docs.py:113-118 | the number of fence lines is at most the number of lines |
| FenceCheck.LastFence | scripts/validate-docs.py:119-121 | the remembered line number never exceeds the number of lines; `FenceCheck.LastFenceSpec` states which line it is |
| FenceCheck.LastFenceSpec | scripts/validate-docs.py:119-121 | the last fence line is a fence line, no fence line follows it, and there is one iff the count is non-zero |
| FenceCheck.FenceFindings | scripts/validate-docs.py:126-129 | at most one finding, an unclosed code block in this document citing a line between 1 and the number of lines |
| FenceCheck.FenceStep | scripts/validate-docs.py:115-123 | one more line adds one to the count when it is a fence line, and then becomes the last fence line |
| FenceCheck.ValidateCodeBlocks | scripts/validate-docs.py:105-131 | the toggle, the counter and the remembered opening line give exactly the fence check's finding |
| FenceCheck.FenceFindingsExact | scripts/validate-docs.py:126-129 | one finding iff the fence lines are odd in number, none otherwise; it cites a fence line within the document after which no fence line follows |
| FenceCheck.FenceLeadingSpaceOnly | scripts/validate-docs.py:117 | only leading white space decides whether a line is a fence line |
| FrontMatter.FrontMatterFindings | scripts/validate-docs.py:140-148 | at most one front-matter finding per document |
| FrontMatter.SplitFrontMatter | scripts/validate-docs.py:141-145 | `split('---\n', 2)` has fewer than three parts iff no second delimiter follows, and otherwise its middle part is the text between the two delimiters |
| FrontMatter.ValidateYamlFrontMatter | scripts/validate-docs.py:134-150 | the split-based check gives the same verdict as the delimiter-position statement: none without a leading delimiter, incomplete without a second, missing title when `title:` is absent outside `index.md` |
| FrontMatter.IndexNeedsNoTitle | scripts/validate-docs.py:147 | `index.md` is never reported for a missing title |
| HeadingCheck.HeadingLevel | scripts/validate-docs.py:162 | every heading level is at least 1 |
| HeadingCheck.HeadingLevelWord | scripts/validate-docs.py:162 | the level counts every character up to the first white space or the end of the line |
| HeadingCheck.LevelIsFirstWordLength | scripts/validate-docs.py:162 | `#foo bar` has level 4 and `## Usage` has level 2 |
| HeadingCheck.Headings | scripts/validate-docs.py:159-163 | there are at most as many headings as lines |
| HeadingCheck.HeadingsStep | scripts/validate-docs.py:160-163 | one more line is appended when it starts with `#` |
| HeadingCheck.HeadingsSound | scripts/validate-docs.py:160-163 | each heading is a line starting with `#`, with its 1-based line number, its text and its level; headings come in line order |
| HeadingCheck.HeadingsComplete | scripts/validate-docs.py:160-163 | every line starting with `#` is among the headings |
| HeadingCheck.SkipFindings | scripts/validate-docs.py:166-174 | every finding is a level skip in this document whose current level exceeds the previous level by more than one |
| HeadingCheck.SkipFindingsMember | scripts/validate-docs.py:166-174 | a finding is reported exactly for a consecutive pair whose level goes up by more than one; equal levels, decreases and one-level steps never are |
| HeadingCheck.SkipFindingsBound | scripts/validate-docs.py:166-174 | at most one finding fewer than the number of headings |
| HeadingCheck.SkipExampleOneTwoFour | scripts/validate-docs.py:166-174 | levels 1, 2, 4 give exactly one finding, for the jump from 2 to 4 |
| HeadingCheck.SkipExampleOneThree | scripts/validate-docs.py:166-174 | levels 1, 3 give exactly one finding |
| HeadingCheck.SkipExampleThreeOneTwo | scripts/validate-docs.py:166-174 | levels 3, 1, 2 give no finding |
| HeadingCheck.ValidateHeadings | scripts/validate-docs.py:153-176 | the two loops give exactly the skip findings over the headings of the document |
| Runner.ExitStatus | scripts/validate-docs.py:210-219 | the status is 0 or 1, and 1 iff there is at least one finding |
| Runner.DocumentFindings | scripts/validate-docs.py:195-200 | every finding of a document names that document |
| Runner.AllFindings | scripts/validate-docs.py:190-204 | a finding is in the run's findings exactly when some document reports it |
| Runner.ValidateDocument | scripts/validate-docs.py:195-200 | a document's findings are links, images, code blocks, front matter and headings, in that order |
| Runner.ValidateAll | scripts/validate-docs.py:190-219 | the run gathers every document's findings in discovery order and sets the exit status from them |
| Runner.AllFindingsAppend | scripts/validate-docs.py:192-204 | the findings of two runs of documents are those of each, in turn |
| Runner.FailsIffSomeDocumentFails | scripts/validate-docs.py:202-216 | the run exits with 1 iff some document has a finding |
| Runner.DocumentBlock | scripts/validate-docs.py:192-204 | a document's findings form one contiguous block, after those of every document before it |
| Runner.FallbackOnlyForLinks | scripts/validate-docs.py:58-69 | a reference whose `.md` form exists passes as a link but, when its resolved path is missing, is reported as an image (lines 97-100) |

## Left out

- File discovery (`rglob`, line 22), reading files and UTF-8 decoding are not modelled: the documents are an input sequence in discovery order, each with its text.
- A document's text is taken to be what `read_text` returns. Universal newlines have already turned `\r\n` and `\r` into `\n`, so front matter written as `---\r\n` arrives as `---\n`. That translation is not modelled.
- A file that fails to decode raises an uncaught exception in the source. That ends the run with status 1, and no later document is checked. The model has no such failure.
- Runner.ExitStatus: its "1 iff a finding" holds only for runs where every document decodes.
- `Path.exists` is the input set `existing`, and `Path.resolve` is modelled lexically from the document's normalised directory. Following symbolic links and the working directory are not modelled.
- A path beginning with two slashes resolves from a single `/`, because `resolve` rebuilds the path from the root and skips empty names. The model does the same.
- Printing is not modelled: the progress lines, the emoji status marks, the summary and the message strings. Findings are values that carry what the messages are built from.
- `sys.exit` is modelled as the returned status.
- `javascripts/extra.js` and the circuit example scripts are not part of this model: they are browser glue and calls into an external quantum library, with no logic of the linter.
- Text.FirstWord: for a line that starts with white space, the contract states only that the word is non-empty and free of white space, not where it lies. The heading check only calls it on lines that start with `#`.
- General regular expressions are not modelled, only the two fixed patterns, as scanners.
- Text is a sequence of code points. Python's `str` is one too, so no encoding is modelled.
