/** Paths as `pathlib` handles them on a POSIX system: a string, the
    components it splits into, lexical resolution of `..`, and the string
    that `str()` gives back. */
module Paths {

  /** The components of an absolute path below `/`, outermost first; `[]` is `/`. */
  type Path = seq<string>

  /** `os.path.isabs`: the string starts with a slash. */
  predicate IsAbsolute(s: string) {
    |s| > 0 && s[0] == '/'
  }

  /** The anchor `pathlib` gives a POSIX path: "//" for exactly two leading
      slashes (a root POSIX leaves implementation-defined, which pathlib keeps
      apart), "/" for one or for three and more, "" for a relative path. */
  function Anchor(s: string): (a: string)
    ensures a != "" <==> IsAbsolute(s)
  {
    if |s| >= 2 && s[0] == '/' && s[1] == '/' && (|s| == 2 || s[2] != '/') then "//"
    else if IsAbsolute(s) then "/"
    else ""
  }

  /** Components as `pathlib` keeps them after parsing: never empty, never `.`,
      never containing a slash (`..` is kept). */
  predicate Plain(p: Path) {
    forall i :: 0 <= i < |p| ==> p[i] != "" && p[i] != "." && '/' !in p[i]
  }

  /** Components of a resolved path: plain, and no `..` left. */
  predicate Canonical(p: Path) {
    Plain(p) && forall i :: 0 <= i < |p| ==> p[i] != ".."
  }

  predicate SlashFree(p: seq<string>) {
    forall i :: 0 <= i < |p| ==> '/' !in p[i]
  }

  /** Split at every slash, keeping empty pieces; `cur` is the piece read so far. */
  function SplitSlashes(s: string, cur: string): (r: seq<string>)
    requires '/' !in cur
    ensures |r| > 0 && SlashFree(r)
    decreases |s|
  {
    if s == [] then [cur]
    else if s[0] == '/' then [cur] + SplitSlashes(s[1..], "")
    else SplitSlashes(s[1..], cur + [s[0]])
  }

  /** Drop the empty and `.` pieces, as `pathlib` does while parsing. */
  function DropTrivial(xs: seq<string>): (r: seq<string>)
    requires SlashFree(xs)
    ensures Plain(r) && |r| <= |xs|
  {
    if xs == [] then []
    else if xs[0] == "" || xs[0] == "." then DropTrivial(xs[1..])
    else [xs[0]] + DropTrivial(xs[1..])
  }

  /** The components `pathlib.PurePosixPath(s).parts` holds besides the anchor. */
  function Parts(s: string): (p: Path)
    ensures Plain(p)
  {
    DropTrivial(SplitSlashes(s, ""))
  }

  /** Resolve `..` lexically onto the already resolved `acc`: one level up,
      and never above `/`. */
  function NormalizeOnto(acc: Path, p: Path): (r: Path)
    requires Canonical(acc) && Plain(p)
    ensures Canonical(r)
    decreases |p|
  {
    if p == [] then acc
    else if p[0] == ".." then NormalizeOnto(if acc == [] then [] else acc[..|acc| - 1], p[1..])
    else NormalizeOnto(acc + [p[0]], p[1..])
  }

  /** `Path.resolve()` of an absolute path, symbolic links aside. */
  function Normalize(p: Path): (r: Path)
    requires Plain(p)
    ensures Canonical(r)
  {
    NormalizeOnto([], p)
  }

  /** "/c1/c2/..." for the components given, "" for none. */
  function Join(p: Path): string {
    if p == [] then "" else "/" + p[0] + Join(p[1..])
  }

  /** `str()` of an absolute path: "/" for the root, "/c1/.../cn" otherwise. */
  function Render(p: Path): (s: string)
    ensures IsAbsolute(s)
  {
    if p == [] then "/" else Join(p)
  }

  /** `str()` of a relative path: "." when it has no components. */
  function RelString(t: Path): string {
    if t == [] then "." else t[0] + Join(t[1..])
  }

  /** `Path.name`: the last component, "" for the root. */
  function Name(p: Path): string {
    if p == [] then "" else p[|p| - 1]
  }

  /** `Path.parent`: the root is its own parent. */
  function Parent(p: Path): (q: Path)
    ensures q <= p && (p != [] ==> |q| == |p| - 1)
  {
    if p == [] then [] else p[..|p| - 1]
  }

  lemma {:induction false} JoinAppend(a: Path, b: Path)
    ensures Join(a + b) == Join(a) + Join(b)
    decreases |a|
  {
    if a != [] {
      assert (a + b)[1..] == a[1..] + b;
      JoinAppend(a[1..], b);
    } else {
      assert a + b == b;
    }
  }

  /** A path that is a component-wise ancestor of another renders to a string prefix of it. */
  lemma RenderPrefix(a: Path, p: Path)
    requires a <= p
    ensures Render(a) <= Render(p)
  {
    if a != [] {
      assert p == a + p[|a|..];
      JoinAppend(a, p[|a|..]);
    }
  }

  lemma {:induction false} SplitThroughPlain(seg: string, rest: string, cur: string)
    requires '/' !in seg && '/' !in cur
    ensures SplitSlashes(seg + rest, cur) == SplitSlashes(rest, cur + seg)
    decreases |seg|
  {
    if seg == [] {
      assert seg + rest == rest;
      assert cur + seg == cur;
    } else {
      assert (seg + rest)[0] == seg[0];
      assert (seg + rest)[1..] == seg[1..] + rest;
      assert cur + [seg[0]] + seg[1..] == cur + seg;
      SplitThroughPlain(seg[1..], rest, cur + [seg[0]]);
    }
  }

  lemma {:induction false} SplitJoin(p: Path, cur: string)
    requires SlashFree(p) && '/' !in cur
    ensures SplitSlashes(Join(p), cur) == [cur] + p
    decreases |p|
  {
    if p != [] {
      var s := "/" + p[0] + Join(p[1..]);
      assert s[0] == '/';
      assert s[1..] == p[0] + Join(p[1..]);
      SplitThroughPlain(p[0], Join(p[1..]), "");
      assert "" + p[0] == p[0];
      SplitJoin(p[1..], p[0]);
      assert [p[0]] + p[1..] == p;
    }
  }

  lemma {:induction false} DropTrivialPlain(p: Path)
    requires Plain(p)
    ensures DropTrivial(p) == p
    decreases |p|
  {
    if p != [] {
      DropTrivialPlain(p[1..]);
      assert [p[0]] + p[1..] == p;
    }
  }

  /** `str()` of a parsed path starts with a single slash. */
  lemma RenderAnchor(p: Path)
    requires Plain(p)
    ensures Anchor(Render(p)) == "/"
  {
    if p != [] {
      assert Render(p)[1] == p[0][0];
    }
  }

  /** Parsing the rendering of a path gives back its components. */
  lemma PartsRender(p: Path)
    requires Plain(p)
    ensures Parts(Render(p)) == p
  {
    if p == [] {
      assert "/"[0] == '/' && "/"[1..] == "";
      assert SplitSlashes("/", "") == ["", ""];
    } else {
      SplitJoin(p, "");
      DropTrivialPlain(p);
    }
  }

  /** Parsing the rendering of a relative path gives back its components. */
  lemma PartsRelString(t: Path)
    requires Plain(t)
    ensures Parts(RelString(t)) == t && !IsAbsolute(RelString(t))
  {
    if t == [] {
      assert "."[0] == '.' && "."[1..] == "" && "" + ['.'] == ".";
      assert SplitSlashes(".", "") == SplitSlashes("", ".");
    } else {
      SplitThroughPlain(t[0], Join(t[1..]), "");
      assert "" + t[0] == t[0];
      SplitJoin(t[1..], t[0]);
      assert [t[0]] + t[1..] == t;
      DropTrivialPlain(t);
      assert RelString(t)[0] == t[0][0];
    }
  }

  lemma {:induction false} NormalizeOntoCanonical(acc: Path, p: Path)
    requires Canonical(acc) && Canonical(p)
    ensures NormalizeOnto(acc, p) == acc + p
    decreases |p|
  {
    if p != [] {
      NormalizeOntoCanonical(acc + [p[0]], p[1..]);
      assert acc + [p[0]] + p[1..] == acc + p;
    } else {
      assert acc + p == acc;
    }
  }

  /** Resolving an already resolved path changes nothing. */
  lemma NormalizeCanonical(p: Path)
    requires Canonical(p)
    ensures Normalize(p) == p
  {
    NormalizeOntoCanonical([], p);
  }
}
