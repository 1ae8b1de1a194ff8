/** The part of Node's POSIX `path` module that the file browser relies on:
    splitting on '/', `normalize`, `join`, `relative` and `basename`, and the
    browser's own `contains`, which asks `relative` whether one path lies
    under another.

    A normalised absolute path is an `AbsPath`: its segments, none of them
    "", "." or "..", plus whether its text ends in '/', which `join` keeps
    and `relative` ignores.  `Render` gives a path's text, so the file
    browser's comparisons of path strings are comparisons of renders. */
module PosixPath {

  /* ---------------- splitting and joining on '/' ---------------- */

  /** `s.split('/')` in JavaScript: the pieces between separators, never an
      empty list ("" splits into [""]). */
  function Split(s: string): (parts: seq<string>)
    ensures |parts| >= 1
    decreases |s|
  {
    if |s| == 0 then [""]
    else
      var rest := Split(s[1..]);
      if s[0] == '/' then [""] + rest
      else [[s[0]] + rest[0]] + rest[1..]
  }

  /** Text holding no separator. */
  predicate SlashFree(s: string)
  {
    '/' !in s
  }

  /** No piece of a split holds a separator. */
  lemma {:induction false} SplitPartsSlashFree(s: string)
    ensures forall i :: 0 <= i < |Split(s)| ==> SlashFree(Split(s)[i])
    decreases |s|
  {
    if |s| > 0 {
      SplitPartsSlashFree(s[1..]);
      var rest := Split(s[1..]);
      if s[0] != '/' {
        assert SlashFree([s[0]] + rest[0]);
        assert Split(s) == [[s[0]] + rest[0]] + rest[1..];
      }
    }
  }

  /** `parts.join('/')`. */
  function JoinStr(parts: seq<string>): string
    decreases |parts|
  {
    if |parts| == 0 then ""
    else if |parts| == 1 then parts[0]
    else parts[0] + "/" + JoinStr(parts[1..])
  }

  /** Splitting then joining gives the text back. */
  lemma {:induction false} JoinSplit(s: string)
    ensures JoinStr(Split(s)) == s
    decreases |s|
  {
    if |s| > 0 {
      JoinSplit(s[1..]);
      var rest := Split(s[1..]);
      if s[0] == '/' {
        assert s == "/" + s[1..];
      } else {
        var parts := Split(s);
        assert parts == [[s[0]] + rest[0]] + rest[1..];
        if |rest| > 1 {
          assert parts[1..] == rest[1..];
          assert JoinStr(rest) == rest[0] + "/" + JoinStr(rest[1..]);
        }
        assert s == [s[0]] + s[1..];
      }
    }
  }

  /** Text without '/' is a single piece. */
  lemma {:induction false} SplitSlashFree(a: string)
    requires SlashFree(a)
    ensures Split(a) == [a]
    decreases |a|
  {
    if |a| > 0 {
      assert a[0] == a[0];
      assert forall c :: c in a[1..] ==> c in a;
      SplitSlashFree(a[1..]);
      assert [a[0]] + a[1..] == a;
    }
  }

  /** A separator between two texts separates their pieces. */
  lemma {:induction false} SplitConcat(x: string, y: string)
    ensures Split(x + "/" + y) == Split(x) + Split(y)
    decreases |x|, 1
  {
    if |x| == 0 {
      assert x + "/" + y == ['/'] + y;
      SplitSlashCons(y);
    } else {
      SplitConcatStep(x[0], x[1..], y);
      assert x == [x[0]] + x[1..];
    }
  }

  lemma {:induction false} SplitConcatStep(c: char, x: string, y: string)
    ensures Split([c] + x + "/" + y) == Split([c] + x) + Split(y)
    decreases |x| + 1, 0
  {
    var s := x + "/" + y;
    assert [c] + x + "/" + y == [c] + s;
    SplitConcat(x, y);
    if c == '/' {
      SplitStepSlash(x, y);
    } else {
      SplitStepChar(c, x, y);
    }
  }

  lemma SplitStepSlash(x: string, y: string)
    requires Split(x + "/" + y) == Split(x) + Split(y)
    ensures Split(['/'] + (x + "/" + y)) == Split(['/'] + x) + Split(y)
  {
    var t := x + "/" + y;
    SplitSlashCons(t);
    SplitSlashCons(x);
    assert Split(['/'] + t) == [""] + (Split(x) + Split(y));
    assert [""] + (Split(x) + Split(y)) == ([""] + Split(x)) + Split(y);
  }

  lemma SplitStepChar(c: char, x: string, y: string)
    requires c != '/' && Split(x + "/" + y) == Split(x) + Split(y)
    ensures Split([c] + (x + "/" + y)) == Split([c] + x) + Split(y)
  {
    SplitCharCons(c, x + "/" + y);
    SplitCharCons(c, x);
    ExtendFirst([c], Split(x), Split(y));
  }

  /** Prefixing the first piece of a concatenation prefixes the first piece
      of its left part. */
  lemma ExtendFirst(pre: string, r: seq<string>, t: seq<string>)
    requires |r| >= 1
    ensures [pre + (r + t)[0]] + (r + t)[1..] == ([pre + r[0]] + r[1..]) + t
  {
    assert (r + t)[0] == r[0];
    assert (r + t)[1..] == r[1..] + t;
  }

  lemma SplitSlashCons(t: string)
    ensures Split(['/'] + t) == [""] + Split(t)
  {
    assert (['/'] + t)[1..] == t;
  }

  lemma SplitCharCons(c: char, t: string)
    requires c != '/'
    ensures Split([c] + t) == [[c] + Split(t)[0]] + Split(t)[1..]
  {
    assert ([c] + t)[0] == c;
    assert ([c] + t)[1..] == t;
  }

  /** Joining pieces that hold no '/' and splitting again gives the pieces. */
  lemma {:induction false} SplitJoin(parts: seq<string>)
    requires |parts| >= 1
    requires forall i :: 0 <= i < |parts| ==> SlashFree(parts[i])
    ensures Split(JoinStr(parts)) == parts
    decreases |parts|
  {
    SplitSlashFree(parts[0]);
    if |parts| > 1 {
      SplitJoin(parts[1..]);
      SplitConcat(parts[0], JoinStr(parts[1..]));
    }
  }

  lemma {:induction false} JoinStrSnoc(xs: seq<string>, y: string)
    requires |xs| >= 1
    ensures JoinStr(xs + [y]) == JoinStr(xs) + "/" + y
    decreases |xs|
  {
    if |xs| > 1 {
      assert (xs + [y])[1..] == xs[1..] + [y];
      JoinStrSnoc(xs[1..], y);
    }
  }

  /** Text appended to a join lands in the last piece. */
  lemma {:induction false} JoinStrAppendLast(xs: seq<string>, a: string, e: string)
    ensures JoinStr(xs + [a]) + e == JoinStr(xs + [a + e])
  {
    if |xs| == 0 {
      assert xs + [a] == [a];
      assert xs + [a + e] == [a + e];
    } else {
      JoinStrSnoc(xs, a);
      JoinStrSnoc(xs, a + e);
    }
  }

  lemma {:induction false} JoinStrHead(xs: seq<string>)
    requires |xs| >= 1 && |xs[0]| > 0
    ensures |JoinStr(xs)| > 0 && JoinStr(xs)[0] == xs[0][0]
  {
  }

  lemma {:induction false} JoinStrLast(xs: seq<string>)
    requires |xs| >= 1 && |xs[|xs| - 1]| > 0
    ensures var j := JoinStr(xs); |j| > 0 && j[|j| - 1] == xs[|xs| - 1][|xs[|xs| - 1]| - 1]
    decreases |xs|
  {
    if |xs| > 1 {
      JoinStrLast(xs[1..]);
    }
  }

  /* ---------------- segments and normalisation ---------------- */

  /** A segment of a normalised path. */
  predicate ValidSegment(s: string)
  {
    s != "" && s != "." && s != ".." && SlashFree(s)
  }

  predicate Normal(segs: seq<string>)
  {
    forall i :: 0 <= i < |segs| ==> ValidSegment(segs[i])
  }

  lemma {:induction false} JoinStrNormalEmpty(xs: seq<string>)
    requires Normal(xs)
    ensures JoinStr(xs) == "" <==> |xs| == 0
  {
    if |xs| > 0 {
      JoinStrHead(xs);
    }
  }

  /** One piece of Node's `normalizeString`: "" and "." vanish, ".." removes
      the last segment unless there is none (or it is itself ".."), in which
      case a relative path keeps the ".." and an absolute one stays put. */
  function Step(acc: seq<string>, part: string, aboveRoot: bool): seq<string>
  {
    if part == "" || part == "." then acc
    else if part == ".." then
      if |acc| > 0 && acc[|acc| - 1] != ".." then acc[..|acc| - 1]
      else if aboveRoot then acc + [".."]
      else acc
    else acc + [part]
  }

  function NormalizeParts(acc: seq<string>, parts: seq<string>, aboveRoot: bool): seq<string>
    decreases |parts|
  {
    if |parts| == 0 then acc
    else NormalizeParts(Step(acc, parts[0], aboveRoot), parts[1..], aboveRoot)
  }

  /** The segments reached from absolute `base` by walking `parts`. */
  function Resolve(base: seq<string>, parts: seq<string>): seq<string>
  {
    NormalizeParts(base, parts, false)
  }

  lemma {:induction false} NormalizeConcat(acc: seq<string>, a: seq<string>, b: seq<string>, aboveRoot: bool)
    ensures NormalizeParts(acc, a + b, aboveRoot)
         == NormalizeParts(NormalizeParts(acc, a, aboveRoot), b, aboveRoot)
    decreases |a|
  {
    if |a| == 0 {
      assert a + b == b;
    } else {
      assert (a + b)[0] == a[0];
      assert (a + b)[1..] == a[1..] + b;
      NormalizeConcat(Step(acc, a[0], aboveRoot), a[1..], b, aboveRoot);
    }
  }

  /** Walking through already-normal segments appends them. */
  lemma {:induction false} NormalizeNormal(acc: seq<string>, xs: seq<string>, aboveRoot: bool)
    requires Normal(xs)
    ensures NormalizeParts(acc, xs, aboveRoot) == acc + xs
    decreases |xs|
  {
    if |xs| > 0 {
      NormalizeNormal(acc + [xs[0]], xs[1..], aboveRoot);
      assert acc + [xs[0]] + xs[1..] == acc + xs;
    }
  }

  lemma {:induction false} NormalizeEmpty(acc: seq<string>, aboveRoot: bool)
    ensures NormalizeParts(acc, [""], aboveRoot) == acc
  {
  }

  /** `n` parent references. */
  function Ups(n: nat): seq<string>
  {
    seq(n, _ => "..")
  }

  /** Climbing `m` levels from a normal absolute path drops its last `m`
      segments. */
  lemma {:induction false} ResolveUps(acc: seq<string>, m: nat)
    requires Normal(acc) && m <= |acc|
    ensures Resolve(acc, Ups(m)) == acc[..|acc| - m]
    decreases m
  {
    if m > 0 {
      assert Ups(m)[0] == "..";
      assert Ups(m)[1..] == Ups(m - 1);
      assert Step(acc, "..", false) == acc[..|acc| - 1];
      ResolveUps(acc[..|acc| - 1], m - 1);
      assert acc[..|acc| - 1][..|acc| - 1 - (m - 1)] == acc[..|acc| - m];
    }
  }

  /** Walking pieces without '/' from a normal absolute path stays normal. */
  lemma {:induction false} ResolveNormal(base: seq<string>, parts: seq<string>)
    requires forall i :: 0 <= i < |parts| ==> SlashFree(parts[i])
    ensures Normal(base) ==> Normal(Resolve(base, parts))
    decreases |parts|
  {
    if |parts| > 0 && Normal(base) {
      var next := Step(base, parts[0], false);
      assert Normal(next);
      ResolveNormal(next, parts[1..]);
    }
  }

  /** Node's `path.normalize` on arbitrary text. */
  function NormalizeStr(path: string): string
  {
    if path == "" then "."
    else
      var isAbsolute := path[0] == '/';
      var trailingSep := path[|path| - 1] == '/';
      var body := JoinStr(NormalizeParts([], Split(path), !isAbsolute));
      if body == "" then
        (if isAbsolute then "/" else if trailingSep then "./" else ".")
      else
        (if isAbsolute then "/" else "") + body + (if trailingSep then "/" else "")
  }

  function NonEmpty(args: seq<string>): seq<string>
    decreases |args|
  {
    if |args| == 0 then []
    else (if args[0] == "" then [] else [args[0]]) + NonEmpty(args[1..])
  }

  /** Node's `path.join`: the non-empty arguments joined with '/' and
      normalised, or "." when there are none. */
  function PathJoin(args: seq<string>): string
  {
    var joined := JoinStr(NonEmpty(args));
    if joined == "" then "." else NormalizeStr(joined)
  }

  /* ---------------- normalised absolute paths ---------------- */

  datatype AbsPath = AbsPath(segs: seq<string>, trailingSep: bool)

  /** The shape every path built by `Join` from a canonical base has. */
  predicate Canonical(p: AbsPath)
  {
    Normal(p.segs) && (p.trailingSep ==> |p.segs| > 0)
  }

  /** The text of a path. */
  function Render(p: AbsPath): string
  {
    "/" + JoinStr(p.segs) + (if p.trailingSep then "/" else "")
  }

  /** `path.join(base, rel)` for an absolute `base`. */
  function Join(base: AbsPath, rel: string): AbsPath
  {
    if rel == "" then base
    else
      var segs := Resolve(base.segs, Split(rel));
      AbsPath(segs, |segs| > 0 && rel[|rel| - 1] == '/')
  }

  /** Joining onto a canonical path gives a canonical path, whatever the
      text joined. */
  lemma JoinCanonical(base: AbsPath, rel: string)
    requires Canonical(base)
    ensures Canonical(Join(base, rel))
  {
    if rel != "" {
      SplitPartsSlashFree(rel);
      ResolveNormal(base.segs, Split(rel));
    }
  }

  /** A name without '/' that is not "." or ".." adds one segment. */
  lemma JoinSegment(base: AbsPath, name: string)
    requires ValidSegment(name)
    ensures Join(base, name) == AbsPath(base.segs + [name], false)
  {
    SplitSlashFree(name);
    assert name[|name| - 1] in name;
    assert Resolve(base.segs, [name]) == NormalizeParts(base.segs + [name], [], false);
  }

  /** `path.join(base, ...names)`: the names joined on one at a time. */
  function JoinAll(base: AbsPath, names: seq<string>): AbsPath
    decreases |names|
  {
    if |names| == 0 then base else JoinAll(Join(base, names[0]), names[1..])
  }

  lemma {:induction false} JoinAllCanonical(base: AbsPath, names: seq<string>)
    requires Canonical(base)
    ensures Canonical(JoinAll(base, names))
    decreases |names|
  {
    if |names| > 0 {
      JoinCanonical(base, names[0]);
      JoinAllCanonical(Join(base, names[0]), names[1..]);
    }
  }

  /** Plain names each add one segment. */
  lemma {:induction false} JoinAllSegments(base: AbsPath, names: seq<string>)
    requires |names| > 0 && Normal(names)
    ensures JoinAll(base, names) == AbsPath(base.segs + names, false)
    decreases |names|
  {
    var next := AbsPath(base.segs + [names[0]], false);
    JoinAllFirst(base, names);
    if |names| == 1 {
      assert names == [names[0]];
    } else {
      NormalTail(names);
      JoinAllSegments(next, names[1..]);
      SegsCons(base.segs, names);
    }
  }

  /** Joining the first plain name takes one step down. */
  lemma JoinAllFirst(base: AbsPath, names: seq<string>)
    requires |names| > 0 && ValidSegment(names[0])
    ensures JoinAll(base, names) == JoinAll(AbsPath(base.segs + [names[0]], false), names[1..])
  {
    JoinSegment(base, names[0]);
  }

  lemma SegsCons(segs: seq<string>, names: seq<string>)
    requires |names| > 0
    ensures segs + [names[0]] + names[1..] == segs + names
  {
    assert [names[0]] + names[1..] == names;
  }

  lemma NormalTail(names: seq<string>)
    requires |names| > 0 && Normal(names)
    ensures Normal(names[1..])
  {
    assert forall i :: 0 <= i < |names| - 1 ==> names[1..][i] == names[i + 1];
  }

  /** The segments a canonical path's text splits into, once normalised. */
  lemma NormalizeRender(p: AbsPath)
    requires Canonical(p)
    ensures NormalizeParts([], Split(Render(p)), false) == p.segs
  {
    var a := "/" + JoinStr(p.segs);
    SplitConcat("", JoinStr(p.segs));
    assert "" + "/" + JoinStr(p.segs) == a;
    if |p.segs| == 0 {
      NormalizeRenderRoot(p);
    } else {
      SplitJoin(p.segs);
      assert Split(a) == [""] + p.segs;
      NormalizeConcat([], [""], p.segs, false);
      NormalizeNormal([], p.segs, false);
      assert [] + p.segs == p.segs;
      if p.trailingSep {
        NormalizeRenderTrailing(p);
      } else {
        assert Render(p) == a;
      }
    }
  }

  lemma NormalizeRenderRoot(p: AbsPath)
    requires Canonical(p) && |p.segs| == 0
    ensures NormalizeParts([], Split(Render(p)), false) == p.segs
  {
    SplitConcat("", "");
    assert Render(p) == "" + "/" + "";
    NormalizeConcat([], [""], [""], false);
  }

  lemma NormalizeRenderTrailing(p: AbsPath)
    requires Canonical(p) && |p.segs| > 0 && p.trailingSep
    requires Split("/" + JoinStr(p.segs)) == [""] + p.segs
    requires NormalizeParts([], [""] + p.segs, false) == p.segs
    ensures NormalizeParts([], Split(Render(p)), false) == p.segs
  {
    var a := "/" + JoinStr(p.segs);
    SplitConcat(a, "");
    assert a + "/" + "" == Render(p);
    assert Split(Render(p)) == ([""] + p.segs) + [""];
    NormalizeConcat([], [""] + p.segs, [""], false);
  }

  /** Distinct canonical paths have distinct texts, so comparing the texts
      (with `===` or `includes`) compares the paths. */
  lemma RenderInjective(p: AbsPath, q: AbsPath)
    requires Canonical(p) && Canonical(q) && Render(p) == Render(q)
    ensures p == q
  {
    NormalizeRender(p);
    NormalizeRender(q);
  }

  /** The segment-level `Join` agrees with Node's text-level `path.join`:
      rendering the joined path gives exactly what `path.join` returns. */
  lemma JoinAgreesWithPathJoin(base: AbsPath, rel: string)
    requires Canonical(base)
    ensures Render(Join(base, rel)) == PathJoin([Render(base), rel])
  {
    if rel == "" {
      JoinEmptyAgrees(base);
    } else {
      JoinNonEmptyAgrees(base, rel);
    }
  }

  /** Joining "" leaves the directory; `path.join` normalises its text,
      which for a canonical path is the text itself. */
  lemma JoinEmptyAgrees(base: AbsPath)
    requires Canonical(base)
    ensures Render(Join(base, "")) == PathJoin([Render(base), ""])
  {
    var a := Render(base);
    assert a[0] == '/';
    assert NonEmpty([a, ""]) == [a] + NonEmpty([a, ""][1..]);
    assert [a, ""][1..] == [""];
    assert NonEmpty([""]) == [];
    NormalizeRender(base);
    JoinStrNormalEmpty(base.segs);
    assert JoinStr(NonEmpty([a, ""])) == a;
    if |base.segs| > 0 && !base.trailingSep {
      JoinStrLast(base.segs);
      assert a[|a| - 1] == JoinStr(base.segs)[|JoinStr(base.segs)| - 1];
      assert base.segs[|base.segs| - 1][|base.segs[|base.segs| - 1]| - 1] in base.segs[|base.segs| - 1];
    }
  }

  /** Joining a non-empty text walks its pieces from the directory, as
      normalising the joined text does. */
  lemma JoinNonEmptyAgrees(base: AbsPath, rel: string)
    requires Canonical(base) && rel != ""
    ensures Render(Join(base, rel)) == PathJoin([Render(base), rel])
  {
    var a := Render(base);
    assert a[0] == '/';
    assert NonEmpty([rel]) == [rel];
    assert NonEmpty([a, rel]) == [a] + NonEmpty([a, rel][1..]);
    assert [a, rel][1..] == [rel];
    NormalizeRender(base);
    JoinStrNormalEmpty(base.segs);
    var joined := a + "/" + rel;
    assert JoinStr(NonEmpty([a, rel])) == joined;
    SplitConcat(a, rel);
    NormalizeConcat([], Split(a), Split(rel), false);
    var segs := Resolve(base.segs, Split(rel));
    SplitPartsSlashFree(rel);
    ResolveNormal(base.segs, Split(rel));
    JoinStrNormalEmpty(segs);
    assert joined[|joined| - 1] == rel[|rel| - 1];
  }


  /** `path.basename`: the last segment, or "" for "/". */
  function Basename(p: AbsPath): string
  {
    if |p.segs| == 0 then "" else p.segs[|p.segs| - 1]
  }

  /* ---------------- path.relative and contains ---------------- */

  /** Length of the longest common prefix of two segment lists. */
  function CommonPrefixLength(a: seq<string>, b: seq<string>): (k: nat)
    ensures k <= |a| && k <= |b|
    decreases |a|
  {
    if |a| == 0 || |b| == 0 || a[0] != b[0] then 0
    else 1 + CommonPrefixLength(a[1..], b[1..])
  }

  /** The common prefix is common, and no longer one exists. */
  lemma {:induction false} CommonPrefix(a: seq<string>, b: seq<string>)
    ensures var k := CommonPrefixLength(a, b);
      a[..k] == b[..k] && (k < |a| && k < |b| ==> a[k] != b[k])
    decreases |a|
  {
    if |a| > 0 && |b| > 0 && a[0] == b[0] {
      CommonPrefix(a[1..], b[1..]);
      var k := CommonPrefixLength(a[1..], b[1..]);
      assert a[..k + 1] == [a[0]] + a[1..][..k];
      assert b[..k + 1] == [b[0]] + b[1..][..k];
    }
  }

  /** The segments of `path.relative(from, to)`: climb to the common
      ancestor, then descend. */
  function RelativeSegs(from: seq<string>, to: seq<string>): seq<string>
  {
    var k := CommonPrefixLength(from, to);
    Ups(|from| - k) + to[k..]
  }

  /** `path.relative(from, to)` for absolute paths; trailing separators play
      no part, and equal paths give "". */
  function Relative(from: AbsPath, to: AbsPath): string
  {
    JoinStr(RelativeSegs(from.segs, to.segs))
  }

  /** `path.isAbsolute`. */
  predicate IsAbsolute(s: string)
  {
    |s| > 0 && s[0] == '/'
  }

  /** `contains(parentPath, childPath)`: the relative path from parent to
      child neither starts with a ".." piece nor is absolute. */
  predicate Contains(parent: AbsPath, child: AbsPath)
  {
    var rel := Relative(parent, child);
    !(Split(rel)[0] == ".." || IsAbsolute(rel))
  }

  lemma {:induction false} PrefixCommonLength(a: seq<string>, b: seq<string>)
    requires a <= b
    ensures CommonPrefixLength(a, b) == |a|
    decreases |a|
  {
    if |a| > 0 {
      PrefixCommonLength(a[1..], b[1..]);
    }
  }

  lemma RelativeSegsSlashFree(from: seq<string>, to: seq<string>)
    requires Normal(to)
    ensures forall i :: 0 <= i < |RelativeSegs(from, to)| ==> SlashFree(RelativeSegs(from, to)[i])
  {
  }

  /** On normalised paths `contains` is exactly "the parent's segments are a
      prefix of the child's" — a structural test, so "/course2" is not inside
      "/course" although the text "/course" begins "/course2". */
  lemma ContainsIsPrefix(parent: AbsPath, child: AbsPath)
    requires Normal(parent.segs) && Normal(child.segs)
    ensures Contains(parent, child) <==> parent.segs <= child.segs
  {
    if parent.segs <= child.segs {
      PrefixContained(parent, child);
    } else {
      NonPrefixNotContained(parent, child);
    }
  }

  /** Below the parent, the relative path starts with the child's next
      segment, which is neither ".." nor empty. */
  lemma PrefixContained(parent: AbsPath, child: AbsPath)
    requires Normal(child.segs) && parent.segs <= child.segs
    ensures Contains(parent, child)
  {
    var k := |parent.segs|;
    var rs := RelativeSegs(parent.segs, child.segs);
    PrefixCommonLength(parent.segs, child.segs);
    assert rs == child.segs[k..];
    RelativeSegsSlashFree(parent.segs, child.segs);
    if |rs| > 0 {
      SplitJoin(rs);
      assert ValidSegment(child.segs[k]);
      JoinStrHead(rs);
      assert rs[0][0] in rs[0];
    }
  }

  /** Off the parent's prefix, the relative path climbs: it starts with
      "..". */
  lemma NonPrefixNotContained(parent: AbsPath, child: AbsPath)
    requires Normal(child.segs) && !(parent.segs <= child.segs)
    ensures !Contains(parent, child)
  {
    var rs := RelativeSegs(parent.segs, child.segs);
    CommonPrefix(parent.segs, child.segs);
    assert rs[0] == "..";
    RelativeSegsSlashFree(parent.segs, child.segs);
    SplitJoin(rs);
  }

  lemma ContainsReflexive(p: AbsPath)
    requires Normal(p.segs)
    ensures Contains(p, p)
  {
    ContainsIsPrefix(p, p);
  }

  /** A sibling whose name merely starts with the parent's name is not inside
      it. */
  lemma SiblingNotContained()
    ensures !Contains(AbsPath(["course"], false), AbsPath(["course2"], false))
  {
    ContainsIsPrefix(AbsPath(["course"], false), AbsPath(["course2"], false));
    assert ["course"] != ["course2"][..1];
  }

  /** The segments of the relative text, as the breadcrumb loop splits it. */
  lemma SplitRelative(from: AbsPath, to: AbsPath)
    requires Normal(to.segs)
    ensures |RelativeSegs(from.segs, to.segs)| > 0 ==> Split(Relative(from, to)) == RelativeSegs(from.segs, to.segs)
    ensures |RelativeSegs(from.segs, to.segs)| == 0 ==> Split(Relative(from, to)) == [""]
  {
    RelativeSegsSlashFree(from.segs, to.segs);
    if |RelativeSegs(from.segs, to.segs)| > 0 {
      SplitJoin(RelativeSegs(from.segs, to.segs));
    }
  }

  /** Walking the relative segments from `from` arrives at `to`. */
  lemma {:induction false} ResolveRelativeSegs(from: seq<string>, to: seq<string>)
    requires Normal(from) && Normal(to)
    ensures Resolve(from, RelativeSegs(from, to)) == to
  {
    var k := CommonPrefixLength(from, to);
    CommonPrefix(from, to);
    assert Normal(to[k..]);
    ResolveUpsThen(from, |from| - k, to[k..]);
    assert from[..k] + to[k..] == to by {
      assert from[..k] == to[..k];
      assert to[..k] + to[k..] == to;
    }
  }

  /** Climbing `m` levels and then descending through plain names. */
  lemma ResolveUpsThen(from: seq<string>, m: nat, tail: seq<string>)
    requires Normal(from) && m <= |from| && Normal(tail)
    ensures Resolve(from, Ups(m) + tail) == from[..|from| - m] + tail
  {
    NormalizeConcat(from, Ups(m), tail, false);
    ResolveUps(from, m);
    NormalizeNormal(from[..|from| - m], tail, false);
  }


  /** `path.join(from, path.relative(from, to))` names `to`. */
  lemma {:induction false} JoinRelative(from: AbsPath, to: AbsPath)
    requires Canonical(from) && Normal(to.segs)
    ensures Join(from, Relative(from, to)).segs == to.segs
  {
    var rs := RelativeSegs(from.segs, to.segs);
    SplitRelative(from, to);
    ResolveRelativeSegs(from.segs, to.segs);
    if |rs| == 0 {
      var k := CommonPrefixLength(from.segs, to.segs);
      assert |to.segs| == k && |from.segs| == k;
      assert from.segs == from.segs[..k];
      assert to.segs == to.segs[..k];
      assert Relative(from, to) == "";
    } else {
      JoinStrHead(rs);
      assert Relative(from, to) != "";
    }
  }
}
