/**
 * Path resolution shared by the link and image checkers:
 * `(md_file.parent / p).resolve()` taken lexically (symbolic links are not
 * followed), and the three prefix branches written around it.
 */
module Paths {
  import opened Text

  /** An absolute path, as its segments below the root. */
  type Path = seq<string>

  /** No empty, `.` or `..` segment and no separator inside a segment:
      what `resolve()` produces. */
  predicate IsNormal(p: Path) {
    forall k :: 0 <= k < |p| ==> p[k] != "" && p[k] != "." && p[k] != ".." && '/' !in p[k]
  }

  /** Segments that can be fed to a walk: none carries a separator. */
  predicate NoSeparator(segs: seq<string>) {
    forall k :: 0 <= k < |segs| ==> '/' !in segs[k]
  }

  /** The textual form `str(path)` of an absolute path. */
  function PathString(p: Path): string {
    "/" + Join(p, '/')
  }

  /** One segment of a lexical walk: an empty segment and `.` stay where
      they are, `..` goes up (but never above the root), any other name
      goes down. */
  function Step(base: Path, seg: string): Path {
    if seg == "" || seg == "." then base
    else if seg == ".." then (if |base| == 0 then [] else base[..|base| - 1])
    else base + [seg]
  }

  /** Walking `segs` one by one, starting at `base`. */
  function Walk(base: Path, segs: seq<string>): Path
    decreases |segs|
  {
    if |segs| == 0 then base else Walk(Step(base, segs[0]), segs[1..])
  }

  /** `(dir / rel).resolve()`: a relative `rel` is joined onto `dir`, an
      absolute one replaces it, and the result is normalised from the root. */
  function Resolve(dir: Path, rel: string): (p: Path)
    ensures NoSeparator(dir) ==> IsNormal(p)
  {
    var segs := (if StartsWith(rel, "/") then [] else dir) + Split(rel, '/');
    WalkNormal([], segs);
    Walk([], segs)
  }

  /** The target the checkers compute for a reference `p` found in a document
      of directory `dir` (scripts/validate-docs.py:50-55 and 89-94). */
  function Target(dir: Path, p: string): (t: Path)
    ensures NoSeparator(dir) ==> IsNormal(t)
  {
    if StartsWith(p, "../") then Resolve(dir, p)
    else if StartsWith(p, "./") then Resolve(dir, p[2..])
    else Resolve(dir, p)
  }

  lemma {:induction false} WalkNormal(base: Path, segs: seq<string>)
    requires IsNormal(base)
    ensures NoSeparator(segs) ==> IsNormal(Walk(base, segs))
    decreases |segs|
  {
    if |segs| > 0 && NoSeparator(segs) {
      WalkNormal(Step(base, segs[0]), segs[1..]);
    }
  }

  /** Walking a concatenation is walking its halves in turn. */
  lemma {:induction false} WalkAppend(base: Path, xs: seq<string>, ys: seq<string>)
    ensures Walk(base, xs + ys) == Walk(Walk(base, xs), ys)
    decreases |xs|
  {
    if |xs| == 0 {
      assert xs + ys == ys;
    } else {
      assert (xs + ys)[1..] == xs[1..] + ys;
      WalkAppend(Step(base, xs[0]), xs[1..], ys);
    }
  }

  /** Walking a normal path descends into each of its segments. */
  lemma {:induction false} WalkNormalPath(base: Path, p: Path)
    requires IsNormal(p)
    ensures Walk(base, p) == base + p
    decreases |p|
  {
    if |p| > 0 {
      WalkNormalPath(base + [p[0]], p[1..]);
      assert base + [p[0]] + p[1..] == base + p;
    }
  }

  /** For a relative reference inside a normal directory, resolution is a
      walk from that directory over the reference's segments. */
  lemma ResolveRelative(dir: Path, rel: string)
    requires IsNormal(dir) && !StartsWith(rel, "/")
    ensures Resolve(dir, rel) == Walk(dir, Split(rel, '/'))
  {
    WalkAppend([], dir, Split(rel, '/'));
    WalkNormalPath([], dir);
    assert [] + dir == dir;
  }

  /** A leading `./` changes nothing for a reference that is not itself
      absolute. */
  lemma DotSlash(dir: Path, x: string)
    requires !StartsWith(x, "/")
    ensures Resolve(dir, "./" + x) == Resolve(dir, x)
  {
    var s := "./" + x;
    assert s == ['.'] + (['/'] + x);
    SplitSeparatorFirst(x, '/');
    SplitOtherFirst('.', ['/'] + x, '/');
    assert Split(['/'] + x, '/')[0] == "";
    assert Split(['/'] + x, '/')[1..] == Split(x, '/');
    assert ['.'] + "" == ".";
    assert Split(s, '/') == ["."] + Split(x, '/');
    assert !StartsWith(s, "/");
    WalkAppend([], dir, ["."] + Split(x, '/'));
    WalkAppend([], dir, Split(x, '/'));
    assert (["."] + Split(x, '/'))[1..] == Split(x, '/');
  }

  /** The `./` branch agrees with plain resolution except when what follows
      the `./` is itself absolute. */
  lemma TargetIsResolve(dir: Path, p: string)
    requires !StartsWith(p, ".//")
    ensures Target(dir, p) == Resolve(dir, p)
  {
    if !StartsWith(p, "../") && StartsWith(p, "./") {
      var x := p[2..];
      assert p == "./" + x;
      DotSlash(dir, x);
    }
  }

  /** A target written `./x` resolves exactly as the plain target `x`. */
  lemma TargetDotSlash(dir: Path, x: string)
    ensures Target(dir, "./" + x) == Resolve(dir, x)
  {
    var p := "./" + x;
    assert p[..2] == "./" && p[2..] == x;
    assert !StartsWith(p, "../") by { assert p[1] == '/'; }
  }

  /** Stripping two characters in the `./` branch turns `.//x` into the
      absolute `/x`: such a target is looked up from the root, not from the
      document's directory. */
  lemma TargetDotSlashSlash(dir: Path)
    ensures Target(dir, ".//etc") == ["etc"]
  {
    assert "./" + "/etc" == ".//etc";
    TargetDotSlash(dir, "/etc");
    SplitWithout("etc", '/');
    assert "/etc" == ['/'] + "etc";
    SplitSeparatorFirst("etc", '/');
    var segs: seq<string> := ["", "etc"];
    assert Split("/etc", '/') == segs;
    assert segs[1..] == ["etc"] && segs[1..][1..] == [];
    assert Walk([], segs) == Walk([], ["etc"]) == ["etc"];
    assert StartsWith("/etc", "/");
    assert [] + segs == segs;
    assert Resolve(dir, "/etc") == Walk([], segs);
  }

  /** Plain resolution of the same reference stays in the directory. */
  lemma ResolveDotSlashSlash(dir: Path)
    requires IsNormal(dir)
    ensures Resolve(dir, ".//etc") == dir + ["etc"]
  {
    SplitWithout("etc", '/');
    assert "/etc" == ['/'] + "etc";
    SplitSeparatorFirst("etc", '/');
    assert "//etc" == ['/'] + "/etc";
    SplitSeparatorFirst("/etc", '/');
    assert ".//etc" == ['.'] + "//etc";
    SplitOtherFirst('.', "//etc", '/');
    assert Split("//etc", '/') == ["", "", "etc"];
    assert ['.'] + "" == ".";
    var segs: seq<string> := [".", "", "etc"];
    assert Split(".//etc", '/') == segs;
    ResolveRelative(dir, ".//etc");
    assert segs[1..] == ["", "etc"] && segs[1..][1..] == ["etc"] && segs[1..][1..][1..] == [];
    WalkNormalPath(dir, []);
  }

  /** Distinct normal paths have distinct textual forms, so a set of path
      strings is a faithful model of which paths exist. */
  lemma PathStringInjective(p: Path, q: Path)
    requires IsNormal(p) && IsNormal(q)
    requires PathString(p) == PathString(q)
    ensures p == q
  {
    assert Join(p, '/') == PathString(p)[1..];
    assert Join(q, '/') == PathString(q)[1..];
    if |p| > 0 && |q| > 0 {
      SplitJoin(p, '/');
      SplitJoin(q, '/');
    } else if |p| > 0 {
      JoinNonEmpty(p);
    } else if |q| > 0 {
      JoinNonEmpty(q);
    }
  }

  lemma JoinNonEmpty(p: Path)
    requires |p| > 0 && IsNormal(p)
    ensures |Join(p, '/')| > 0
  {
    assert p[0] != "";
  }
}
