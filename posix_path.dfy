/**
 * Node's POSIX `path.normalize` and `path.join`, as lexical dot-segment
 * resolution over the list of '/'-separated segments.
 */
module PosixPath {
  import opened Text

  /** A segment that normalization keeps as it is. */
  predicate IsPlainSegment(seg: string) {
    seg != "" && seg != "." && seg != ".." && '/' !in seg
  }

  predicate AllPlain(segs: seq<string>) {
    forall i :: 0 <= i < |segs| ==> IsPlainSegment(segs[i])
  }

  /** One segment of `normalizeString`: skip empty and ".", resolve "..", keep the rest. */
  function Step(stack: seq<string>, seg: string, allowAboveRoot: bool): seq<string> {
    if seg == "" || seg == "." then stack
    else if seg == ".." then
      if stack != [] && stack[|stack| - 1] != ".." then stack[..|stack| - 1]
      else if allowAboveRoot then stack + [".."]
      else stack
    else stack + [seg]
  }

  /** `normalizeString`: the segments left after resolving `segs` onto `stack`. */
  function Resolve(stack: seq<string>, segs: seq<string>, allowAboveRoot: bool): seq<string>
    decreases |segs|
  {
    if segs == [] then stack else Resolve(Step(stack, segs[0], allowAboveRoot), segs[1..], allowAboveRoot)
  }

  /** `path.normalize(p)` on POSIX. */
  function Normalize(p: string): string {
    if p == "" then "."
    else
      var isAbsolute := p[0] == '/';
      var trailing := p[|p| - 1] == '/';
      var body := Join(Resolve([], Split(p, '/'), !isAbsolute), '/');
      if body == "" then (if isAbsolute then "/" else if trailing then "./" else ".")
      else (if isAbsolute then "/" else "") + body + (if trailing then "/" else "")
  }

  /** The arguments of `path.join` that are not empty. */
  function NonEmpty(args: seq<string>): (r: seq<string>)
    ensures forall i :: 0 <= i < |r| ==> r[i] != ""
  {
    if args == [] then []
    else if args[0] == "" then NonEmpty(args[1..])
    else [args[0]] + NonEmpty(args[1..])
  }

  /** `path.join(...args)` on POSIX. */
  function PathJoin(args: seq<string>): string {
    var parts := NonEmpty(args);
    if parts == [] then "." else Normalize(Join(parts, '/'))
  }

  /**
   * An absolute path in normal form with at least one segment: "/" followed
   * by plain segments separated by single slashes, no trailing slash.
   */
  predicate IsCleanAbsolute(p: string) {
    |p| >= 2 && p[0] == '/' && p[|p| - 1] != '/' && AllPlain(Split(p[1..], '/'))
  }

  // ---- resolution facts ----

  lemma {:induction false} ResolveAppend(stack: seq<string>, a: seq<string>, b: seq<string>, allow: bool)
    ensures Resolve(stack, a + b, allow) == Resolve(Resolve(stack, a, allow), b, allow)
    decreases |a|
  {
    if a == [] {
      assert a + b == b;
    } else {
      assert (a + b)[0] == a[0];
      assert (a + b)[1..] == a[1..] + b;
      ResolveAppend(Step(stack, a[0], allow), a[1..], b, allow);
    }
  }

  /** Without ".." nothing is popped: the plain segments are pushed in order. */
  lemma {:induction false} ResolveWithoutParent(stack: seq<string>, segs: seq<string>, allow: bool)
    requires forall i :: 0 <= i < |segs| ==> segs[i] == "" || IsPlainSegment(segs[i])
    ensures Resolve(stack, segs, allow) == stack + NonEmpty(segs)
    decreases |segs|
  {
    if segs != [] {
      ResolveWithoutParent(Step(stack, segs[0], allow), segs[1..], allow);
    }
  }

  /** Above the root nothing is kept, so resolving an absolute path yields plain segments only. */
  lemma {:induction false} ResolveAbsolutePlain(stack: seq<string>, segs: seq<string>)
    requires AllPlain(stack)
    requires forall i :: 0 <= i < |segs| ==> '/' !in segs[i]
    ensures AllPlain(Resolve(stack, segs, false))
    decreases |segs|
  {
    if segs != [] {
      var next := Step(stack, segs[0], false);
      assert '/' !in segs[0];
      ResolveAbsolutePlain(next, segs[1..]);
    }
  }

  // ---- join facts ----

  lemma {:induction false} JoinAppend(a: seq<string>, b: seq<string>, sep: char)
    requires a != [] && b != []
    ensures Join(a + b, sep) == Join(a, sep) + [sep] + Join(b, sep)
  {
    if |a| > 1 {
      assert (a + b)[1..] == a[1..] + b;
      JoinAppend(a[1..], b, sep);
    } else {
      assert (a + b)[1..] == b;
    }
  }

  /** The first occurrence is determined by its position. */
  lemma {:induction false} SplitAppend(a: string, b: string, sep: char)
    ensures Split(a + [sep] + b, sep) == Split(a, sep) + Split(b, sep)
    decreases |a|
  {
    if sep in a {
      var i := IndexOf(a, sep);
      SplitAppend(a[i + 1..], b, sep);
      SplitAppendAt(a, b, sep, i);
    } else {
      SplitAppendNoSep(a, b, sep);
    }
  }

  /** The step of `SplitAppend` when `a` holds a separator, first at `i`. */
  lemma SplitAppendAt(a: string, b: string, sep: char, i: nat)
    requires i < |a| && a[i] == sep && sep !in a[..i]
    requires Split(a[i + 1..] + [sep] + b, sep) == Split(a[i + 1..], sep) + Split(b, sep)
    ensures Split(a + [sep] + b, sep) == Split(a, sep) + Split(b, sep)
  {
    var s := a + [sep] + b;
    var head, rest, tail := a[..i], Split(a[i + 1..], sep), Split(b, sep);
    assert Split(s, sep) == [head] + (rest + tail) by {
      SliceAppend(a, b, sep, i);
      SplitAt(s, sep, i);
    }
    assert Split(a, sep) == [head] + rest by {
      SplitAt(a, sep, i);
    }
    ConsAppend(head, rest, tail);
  }

  /** The case of `SplitAppend` when `a` holds no separator. */
  lemma SplitAppendNoSep(a: string, b: string, sep: char)
    requires sep !in a
    ensures Split(a + [sep] + b, sep) == Split(a, sep) + Split(b, sep)
  {
    SliceAtSep(a, b, sep);
    SplitAt(a + [sep] + b, sep, |a|);
  }

  /** A join of segments that are not empty is empty only when there are none. */
  lemma JoinNonEmpty(segs: seq<string>, sep: char)
    requires segs != [] && segs[0] != ""
    ensures Join(segs, sep) != [] && Join(segs, sep)[0] == segs[0][0]
  {
  }

  lemma {:induction false} JoinLast(segs: seq<string>, sep: char)
    requires segs != [] && segs[|segs| - 1] != ""
    ensures Join(segs, sep) != [] && Join(segs, sep)[|Join(segs, sep)| - 1] == segs[|segs| - 1][|segs[|segs| - 1]| - 1]
  {
    if |segs| > 1 {
      JoinLast(segs[1..], sep);
    }
  }

  /** A clean absolute path is "/" followed by the join of its plain segments. */
  lemma CleanAbsoluteShape(p: string)
    requires IsCleanAbsolute(p)
    ensures Split(p, '/') == [""] + Split(p[1..], '/')
    ensures p == "/" + Join(Split(p[1..], '/'), '/')
  {
    JoinSplit(p[1..], '/');
    assert p == [] + ['/'] + p[1..];
    SplitAppend([], p[1..], '/');
  }

  /** Normalizing an absolute path: "/" and its resolved plain segments, and the trailing slash if any. */
  lemma AbsoluteNormalForm(p: string)
    requires p != "" && p[0] == '/'
    ensures var r := Resolve([], Split(p, '/'), false);
      && AllPlain(r)
      && Normalize(p) == (if r == [] then "/" else "/" + Join(r, '/') + (if p[|p| - 1] == '/' then "/" else ""))
  {
    var r := Resolve([], Split(p, '/'), false);
    SplitPartsSepFree(p, '/');
    ResolveAbsolutePlain([], Split(p, '/'));
    if r != [] {
      JoinNonEmpty(r, '/');
    }
  }

  lemma {:induction false} NonEmptyOfNonEmpty(segs: seq<string>)
    requires forall i :: 0 <= i < |segs| ==> segs[i] != ""
    ensures NonEmpty(segs) == segs
  {
    if segs != [] {
      NonEmptyOfNonEmpty(segs[1..]);
    }
  }

  lemma {:induction false} NonEmptyAppend(a: seq<string>, b: seq<string>)
    ensures NonEmpty(a + b) == NonEmpty(a) + NonEmpty(b)
  {
    if a != [] {
      assert (a + b)[1..] == a[1..] + b;
      NonEmptyAppend(a[1..], b);
    } else {
      assert a + b == b;
    }
  }

  /** The path "/" + segments, with or without a trailing slash. */
  function PlainPath(r: seq<string>, trailing: bool): string {
    "/" + Join(r, '/') + (if trailing then "/" else "")
  }

  lemma SplitPlainPath(r: seq<string>, trailing: bool)
    requires r != [] && AllPlain(r)
    ensures Split(PlainPath(r, trailing), '/') == [""] + r + (if trailing then [""] else [])
  {
    var j := Join(r, '/');
    JoinSplitPlain(r);
    var body := "/" + j;
    assert Split(body, '/') == [""] + r by {
      assert body == [] + ['/'] + j;
      SplitAppend([], j, '/');
    }
    if trailing {
      assert PlainPath(r, trailing) == body + ['/'] + [];
      SplitAppend(body, [], '/');
    } else {
      assert PlainPath(r, trailing) == body;
    }
  }

  lemma ResolvePlainPath(r: seq<string>, trailing: bool)
    requires AllPlain(r)
    ensures Resolve([], [""] + r + (if trailing then [""] else []), false) == r
  {
    var segs := [""] + r + (if trailing then [""] else []);
    ResolveWithoutParent([], segs, false);
    NonEmptyOfNonEmpty(r);
    NonEmptyAppend([""] + r, if trailing then [""] else []);
    NonEmptyAppend([""], r);
  }

  lemma PlainPathLast(r: seq<string>)
    requires r != [] && AllPlain(r)
    ensures Join(r, '/') != [] && Join(r, '/')[|Join(r, '/')| - 1] != '/'
  {
    var j := Join(r, '/');
    JoinLast(r, '/');
    var last := r[|r| - 1];
    assert last[|last| - 1] in last;
  }

  /** "/" and plain segments, with or without a trailing slash, is already normal. */
  lemma NormalizePlain(r: seq<string>, trailing: bool)
    requires r != [] && AllPlain(r)
    ensures Normalize(PlainPath(r, trailing)) == PlainPath(r, trailing)
  {
    var p := PlainPath(r, trailing);
    PlainPathLast(r);
    assert (p[|p| - 1] == '/') == trailing;
    AbsoluteNormalForm(p);
    SplitPlainPath(r, trailing);
    ResolvePlainPath(r, trailing);
  }

  /** A path already in normal form is left unchanged. */
  lemma NormalizeClean(p: string)
    requires IsCleanAbsolute(p)
    ensures Normalize(p) == p
  {
    CleanAbsoluteShape(p);
    var d := Split(p[1..], '/');
    assert PlainPath(d, false) == p;
    NormalizePlain(d, false);
  }

  /** For absolute paths `path.normalize` is idempotent. */
  lemma NormalizeIdempotent(p: string)
    requires p != "" && p[0] == '/'
    ensures Normalize(Normalize(p)) == Normalize(p)
  {
    AbsoluteNormalForm(p);
    var r := Resolve([], Split(p, '/'), false);
    if r != [] {
      NormalizePlain(r, p[|p| - 1] == '/');
      assert Normalize(p) == PlainPath(r, p[|p| - 1] == '/');
    } else {
      assert Normalize(p) == "/";
      assert Split("/", '/') == [""] + [""] by {
        assert "/" == [] + ['/'] + [];
        SplitAppend([], [], '/');
      }
    }
  }

  /** Splitting a join of plain segments gives back the segments. */
  lemma JoinSplitPlain(r: seq<string>)
    requires r != [] && AllPlain(r)
    ensures Split(Join(r, '/'), '/') == r
  {
    SplitJoin(r, '/');
  }
}
