/**
 * The documents the validator reads and the findings it reports.
 * The source reports findings as message strings; here each kind of
 * finding is a constructor carrying the values its message is built from.
 */
module Findings {
  import opened Options
  import opened Paths

  /** A Markdown document: the normalised directory it lies in, its file
      name and its text. */
  datatype Document = Document(dir: Path, name: string, content: string) {
    /** The document's own path. */
    function File(): Path { dir + [name] }
  }

  datatype Finding =
    | BrokenLink(file: Path, text: string, link: string, target: Path)
    | MissingImage(file: Path, alt: string, path: string, target: Path)
    | UnclosedCodeBlock(file: Path, line: nat)
    | IncompleteFrontMatter(file: Path)
    | MissingTitle(file: Path)
    | HeadingLevelSkip(file: Path, line: nat, prevLevel: nat, currLevel: nat)

  /** The findings of a per-item check over `xs`, in the order of `xs`:
      each item contributes the finding `f` gives it, if any. */
  function Collect<T>(xs: seq<T>, f: T -> Option<Finding>): seq<Finding>
    decreases |xs|
  {
    if |xs| == 0 then [] else Collect(xs[..|xs| - 1], f) + ToSeq(f(xs[|xs| - 1]))
  }

  /** Collecting over a concatenation collects over each part in turn: the
      findings keep the order of the items. */
  lemma {:induction false} CollectAppend<T>(xs: seq<T>, ys: seq<T>, f: T -> Option<Finding>)
    ensures Collect(xs + ys, f) == Collect(xs, f) + Collect(ys, f)
    decreases |ys|
  {
    if |ys| == 0 {
      assert xs + ys == xs;
    } else {
      var ys' := ys[..|ys| - 1];
      assert (xs + ys)[..|xs + ys| - 1] == xs + ys';
      CollectAppend(xs, ys', f);
    }
  }

  /** Each item contributes at most one finding. */
  lemma {:induction false} CollectLength<T>(xs: seq<T>, f: T -> Option<Finding>)
    ensures |Collect(xs, f)| <= |xs|
    decreases |xs|
  {
    if |xs| > 0 {
      CollectLength(xs[..|xs| - 1], f);
    }
  }

  /** A finding is reported exactly when some item produces it. */
  lemma {:induction false} CollectMember<T>(xs: seq<T>, f: T -> Option<Finding>, e: Finding)
    ensures e in Collect(xs, f) <==> exists k :: 0 <= k < |xs| && f(xs[k]) == Some(e)
    decreases |xs|
  {
    if |xs| > 0 {
      var xs' := xs[..|xs| - 1];
      CollectMember(xs', f, e);
      if e in Collect(xs', f) {
        var k :| 0 <= k < |xs'| && f(xs'[k]) == Some(e);
        assert xs[k] == xs'[k];
      }
      if exists k :: 0 <= k < |xs| && f(xs[k]) == Some(e) {
        var k :| 0 <= k < |xs| && f(xs[k]) == Some(e);
        if k < |xs'| {
          assert xs'[k] == xs[k];
        }
      }
    }
  }

  /** No finding at all exactly when no item produces one. */
  lemma CollectEmpty<T>(xs: seq<T>, f: T -> Option<Finding>)
    ensures Collect(xs, f) == [] <==> forall k :: 0 <= k < |xs| ==> f(xs[k]).None?
  {
    if Collect(xs, f) != [] {
      CollectMember(xs, f, Collect(xs, f)[0]);
    }
    if exists k :: 0 <= k < |xs| && f(xs[k]).Some? {
      var k :| 0 <= k < |xs| && f(xs[k]).Some?;
      CollectMember(xs, f, f(xs[k]).value);
    }
  }

  /** The findings of a per-item check over `xs` that may report any number
      of findings per item, gathered in the order of `xs`. */
  function Gather<T>(xs: seq<T>, f: T -> seq<Finding>): seq<Finding>
    decreases |xs|
  {
    if |xs| == 0 then [] else Gather(xs[..|xs| - 1], f) + f(xs[|xs| - 1])
  }

  /** Gathering over a concatenation gathers over each part in turn. */
  lemma {:induction false} GatherAppend<T>(xs: seq<T>, ys: seq<T>, f: T -> seq<Finding>)
    ensures Gather(xs + ys, f) == Gather(xs, f) + Gather(ys, f)
    decreases |ys|
  {
    if |ys| == 0 {
      assert xs + ys == xs;
    } else {
      var ys' := ys[..|ys| - 1];
      assert (xs + ys)[..|xs + ys| - 1] == xs + ys';
      GatherAppend(xs, ys', f);
    }
  }

  /** Something is gathered exactly when some item reports something. */
  lemma {:induction false} GatherNonEmpty<T>(xs: seq<T>, f: T -> seq<Finding>)
    ensures Gather(xs, f) != [] <==> exists k :: 0 <= k < |xs| && f(xs[k]) != []
    decreases |xs|
  {
    if |xs| > 0 {
      var xs' := xs[..|xs| - 1];
      GatherNonEmpty(xs', f);
      if exists k :: 0 <= k < |xs'| && f(xs'[k]) != [] {
        var k :| 0 <= k < |xs'| && f(xs'[k]) != [];
        assert xs[k] == xs'[k];
      }
      if exists k :: 0 <= k < |xs| && f(xs[k]) != [] {
        var k :| 0 <= k < |xs| && f(xs[k]) != [];
        if k < |xs'| {
          assert xs'[k] == xs[k];
        }
      }
    }
  }

  /** A finding is gathered exactly when some item reports it. */
  lemma {:induction false} GatherMember<T>(xs: seq<T>, f: T -> seq<Finding>, e: Finding)
    ensures e in Gather(xs, f) <==> exists k :: 0 <= k < |xs| && e in f(xs[k])
    decreases |xs|
  {
    if |xs| > 0 {
      var xs' := xs[..|xs| - 1];
      GatherMember(xs', f, e);
      if e in Gather(xs', f) {
        var k :| 0 <= k < |xs'| && e in f(xs'[k]);
        assert xs[k] == xs'[k];
      }
      if exists k :: 0 <= k < |xs| && e in f(xs[k]) {
        var k :| 0 <= k < |xs| && e in f(xs[k]);
        if k < |xs'| {
          assert xs'[k] == xs[k];
        }
      }
    }
  }
}
