/** The path sandbox of path_validator.py: every caller path is resolved
    against a fixed list of allowed directories and accepted only when one of
    them is a string prefix of the result. */
module PathValidation {
  import opened Outcomes
  import opened Paths

  datatype PathError =
    | NoAllowedDirectories      // a relative request with no directory configured
    | EmbeddedNul               // `Path.resolve()` of a path holding a NUL character
    | AccessDenied(requested: string)   // names the path exactly as the caller gave it

  /** `Path(s).resolve()` for a configured directory `s`; a relative one is
      taken against the working directory `cwd`. */
  function ResolveAgainst(cwd: Path, s: string): (p: Path)
    requires Canonical(cwd)
    ensures Canonical(p)
  {
    var parts := Parts(s);
    if IsAbsolute(s) then Normalize(parts)
    else
      PlainAppend(cwd, parts);
      Normalize(cwd + parts)
  }

  lemma PlainAppend(a: Path, b: Path)
    requires Plain(a) && Plain(b)
    ensures Plain(a + b)
  {
    forall i | 0 <= i < |a + b|
      ensures (a + b)[i] != "" && (a + b)[i] != "." && '/' !in (a + b)[i]
    {
      if i >= |a| { assert (a + b)[i] == b[i - |a|]; }
    }
  }

  /** The index of the first allowed directory under which `rel` names an
      existing entry, or `|roots|` when there is none. */
  function FirstExisting(roots: seq<string>, rel: Path, present: Path -> bool): (k: nat)
    ensures k <= |roots|
    ensures k < |roots| ==> present(Parts(roots[k]) + rel)
    ensures forall j :: 0 <= j < k ==> !present(Parts(roots[j]) + rel)
    decreases |roots|
  {
    if roots == [] then 0
    else if present(Parts(roots[0]) + rel) then 0
    else 1 + FirstExisting(roots[1..], rel, present)
  }

  /** Where `validate_path` resolves an already expanded request, before the
      containment test. */
  function ResolveRequest(roots: seq<string>, expanded: string, present: Path -> bool): (r: Result<Path, PathError>)
    ensures r.Ok? ==> Canonical(r.value)
    ensures r.Err? <==> '\0' in expanded || (!IsAbsolute(expanded) && roots == [])
    ensures r.Err? ==> r.error == if !IsAbsolute(expanded) && roots == [] then NoAllowedDirectories else EmbeddedNul
  {
    var rel := Parts(expanded);
    if IsAbsolute(expanded) then
      if '\0' in expanded then Err(EmbeddedNul) else Ok(Normalize(rel))
    else if '\0' in expanded then
      // `exists()` is false under every directory, and `resolve()` of the
      // fallback join raises
      if |roots| > 0 then Err(EmbeddedNul) else Err(NoAllowedDirectories)
    else
      var k := FirstExisting(roots, rel, present);
      if k < |roots| then PlainAppend(Parts(roots[k]), rel); Ok(Normalize(Parts(roots[k]) + rel))
      else if |roots| > 0 then PlainAppend(Parts(roots[0]), rel); Ok(Normalize(Parts(roots[0]) + rel))
      else Err(NoAllowedDirectories)
  }

  /** The containment test as written: some allowed directory is a STRING
      prefix (`str.startswith`) of the resolved path. */
  predicate UnderSomeRoot(roots: seq<string>, s: string) {
    exists i :: 0 <= i < |roots| && roots[i] <= s
  }

  /** What `validate_path` returns or raises for `requested`. */
  function Validate(roots: seq<string>, expand: string -> string, present: Path -> bool,
                    requested: string): Result<string, PathError>
  {
    match ResolveRequest(roots, expand(requested), present)
    case Err(e) => Err(e)
    case Ok(p) =>
      var s := Render(p);
      if UnderSomeRoot(roots, s) then Ok(s) else Err(AccessDenied(requested))
  }

  /** A success is an absolute, resolved path with some allowed directory as
      a string prefix; a failure is Access denied naming the request, a
      relative request with nothing configured, or a request holding NUL. */
  lemma ValidateOutcome(roots: seq<string>, expand: string -> string, present: Path -> bool, requested: string)
    ensures var r := Validate(roots, expand, present, requested);
            && (r.Ok? ==> UnderSomeRoot(roots, r.value) && Canonical(Parts(r.value))
                          && Render(Parts(r.value)) == r.value)
            && (r.Err? ==> r.error == AccessDenied(requested)
                           || (r.error == NoAllowedDirectories && roots == [] && !IsAbsolute(expand(requested)))
                           || (r.error == EmbeddedNul && '\0' in expand(requested)))
  {
    var q := ResolveRequest(roots, expand(requested), present);
    if q.Ok? {
      PartsRender(q.value);
    }
  }

  lemma ValidateResolved(roots: seq<string>, expand: string -> string, present: Path -> bool,
                         requested: string, p: Path)
    requires ResolveRequest(roots, expand(requested), present) == Ok(p)
    ensures Validate(roots, expand, present, requested)
            == if UnderSomeRoot(roots, Render(p)) then Ok(Render(p)) else Err(AccessDenied(requested))
  {
  }

  /** An absolute request is resolved without looking at the allowed
      directories or at the filesystem; one holding NUL cannot be resolved. */
  lemma AbsoluteIgnoresRoots(roots1: seq<string>, roots2: seq<string>, expanded: string,
                             present1: Path -> bool, present2: Path -> bool)
    requires IsAbsolute(expanded)
    ensures ResolveRequest(roots1, expanded, present1) == ResolveRequest(roots2, expanded, present2)
            == if '\0' in expanded then Err(EmbeddedNul) else Ok(Normalize(Parts(expanded)))
  {
  }

  /** A relative request is joined to the first allowed directory, in order,
      under which it exists. */
  lemma RelativeTakesFirstExisting(roots: seq<string>, expanded: string, present: Path -> bool, k: nat)
    requires !IsAbsolute(expanded) && k < |roots|
    requires present(Parts(roots[k]) + Parts(expanded))
    requires forall j :: 0 <= j < k ==> !present(Parts(roots[j]) + Parts(expanded))
    ensures Plain(Parts(roots[k]) + Parts(expanded))
    ensures ResolveRequest(roots, expanded, present)
            == if '\0' in expanded then Err(EmbeddedNul) else Ok(Normalize(Parts(roots[k]) + Parts(expanded)))
  {
    var f := FirstExisting(roots, Parts(expanded), present);
    assert f == k;
    PlainAppend(Parts(roots[k]), Parts(expanded));
  }

  /** When it exists under none of them, a relative request is joined to the
      first allowed directory. */
  lemma RelativeFallsBackToFirst(roots: seq<string>, expanded: string, present: Path -> bool)
    requires !IsAbsolute(expanded) && |roots| > 0
    requires forall j :: 0 <= j < |roots| ==> !present(Parts(roots[j]) + Parts(expanded))
    ensures Plain(Parts(roots[0]) + Parts(expanded))
    ensures ResolveRequest(roots, expanded, present)
            == if '\0' in expanded then Err(EmbeddedNul) else Ok(Normalize(Parts(roots[0]) + Parts(expanded)))
  {
    var f := FirstExisting(roots, Parts(expanded), present);
    assert f == |roots|;
    PlainAppend(Parts(roots[0]), Parts(expanded));
  }

  /** A success returns exactly the resolved path, never one coerced into a root. */
  lemma AcceptedIsResolved(roots: seq<string>, expand: string -> string, present: Path -> bool, requested: string)
    requires Validate(roots, expand, present, requested).Ok?
    ensures ResolveRequest(roots, expand(requested), present).Ok?
    ensures Validate(roots, expand, present, requested).value
            == Render(ResolveRequest(roots, expand(requested), present).value)
  {
  }

  /** Whatever resolves to an allowed directory or below it, component by
      component, is accepted. */
  lemma ContainedIsAccepted(roots: seq<string>, expand: string -> string, present: Path -> bool,
                            requested: string, i: nat, root: Path)
    requires i < |roots| && roots[i] == Render(root)
    requires ResolveRequest(roots, expand(requested), present).Ok?
    requires root <= ResolveRequest(roots, expand(requested), present).value
    ensures Validate(roots, expand, present, requested)
            == Ok(Render(ResolveRequest(roots, expand(requested), present).value))
  {
    RenderPrefix(root, ResolveRequest(roots, expand(requested), present).value);
  }

  /** The string-prefix test also admits a sibling whose name merely starts
      with the name of an allowed directory: root "/data" admits "/data-public",
      which is not below it. */
  lemma SiblingIsAccepted(expand: string -> string, present: Path -> bool)
    requires expand("/data-public") == "/data-public"
    ensures !(Parts("/data") <= Parts("/data-public"))
    ensures Validate(["/data"], expand, present, "/data-public") == Ok("/data-public")
  {
    SiblingParses();
    NormalizeCanonical(["data-public"]);
    assert ResolveRequest(["/data"], "/data-public", present) == Ok(Normalize(["data-public"]));
    ValidateResolved(["/data"], expand, present, "/data-public", ["data-public"]);
    assert UnderSomeRoot(["/data"], "/data-public") by {
      assert "/data" <= "/data-public";
      assert ["/data"][0] == "/data";
    }
  }

  lemma SiblingParses()
    ensures Parts("/data") == ["data"] && Parts("/data-public") == ["data-public"]
    ensures Canonical(["data-public"]) && Render(["data-public"]) == "/data-public"
    ensures !(Parts("/data") <= Parts("/data-public"))
    ensures '\0' !in "/data-public"
  {
    OneComponent("data-public");
    OneComponent("data");
    assert "/" + "data-public" == "/data-public" && "/" + "data" == "/data";
    var root, path := Parts("/data"), Parts("/data-public");
    assert |root[0]| != |path[0]|;
  }

  /** "/name" parses to the single component `name`. */
  lemma OneComponent(name: string)
    requires name != "" && name != "." && name != ".." && '/' !in name
    ensures Parts("/" + name) == [name] && Canonical([name])
  {
    assert Render([name]) == "/" + name by { assert Join([name]) == "/" + name + ""; }
    PartsRender([name]);
  }

  /** With "/" among the allowed directories a request is accepted exactly
      when it resolves, that is when it holds no NUL. */
  lemma SlashRootAcceptsAll(roots: seq<string>, expand: string -> string, present: Path -> bool, requested: string)
    requires "/" in roots
    ensures Validate(roots, expand, present, requested).Ok? <==> '\0' !in expand(requested)
  {
    if '\0' !in expand(requested) {
      var p := ResolveRequest(roots, expand(requested), present).value;
      var i :| 0 <= i < |roots| && roots[i] == "/";
      assert Render([]) == "/";
      RenderPrefix([], p);
    }
  }

  /** A request holding NUL is refused, `/data/a\0b` under root `/data` included,
      although it is textually inside the root. */
  lemma NulIsRefused(expand: string -> string, present: Path -> bool)
    requires expand("/data/a\0b") == "/data/a\0b"
    ensures "/data" <= "/data/a\0b"
    ensures Validate(["/data"], expand, present, "/data/a\0b") == Err(EmbeddedNul)
  {
    assert "/data/a\0b"[7] == '\0';
  }

  /** `pathlib.PurePath(path).relative_to(base)`: the components of `path`
      after those of `base`, when both have the same anchor and `base` is a
      component-wise ancestor; otherwise it raises. */
  function RelativeTo(path: string, base: string): (r: Option<string>)
    ensures r.Some? <==> Anchor(path) == Anchor(base) && Parts(base) <= Parts(path)
    ensures r.Some? ==> !IsAbsolute(r.value) && Parts(base) + Parts(r.value) == Parts(path)
  {
    var pp, bp := Parts(path), Parts(base);
    if Anchor(path) == Anchor(base) && bp <= pp then
      RemainingParts(pp, bp);
      Some(RelString(pp[|bp|..]))
    else None
  }

  lemma RemainingParts(pp: Path, bp: Path)
    requires Plain(pp) && bp <= pp
    ensures !IsAbsolute(RelString(pp[|bp|..])) && bp + Parts(RelString(pp[|bp|..])) == pp
  {
    PartsRelString(pp[|bp|..]);
    assert bp + pp[|bp|..] == pp;
  }

  /** The configured sandbox: `allowed_directories` and the shell-style
      expansion (`expanduser`, `expandvars`) applied to every path. */
  class PathValidator {
    var allowedDirectories: seq<string>
    const expand: string -> string

    /** One resolved entry per configured directory, in the given order. */
    constructor (directories: seq<string>, cwd: Path, expand: string -> string)
      requires Canonical(cwd)
      ensures this.expand == expand
      ensures |allowedDirectories| == |directories|
      ensures forall i :: 0 <= i < |directories| ==>
                allowedDirectories[i] == Render(ResolveAgainst(cwd, expand(directories[i])))
    {
      var resolvedDirs: seq<string> := [];
      for i := 0 to |directories|
        invariant |resolvedDirs| == i
        invariant forall j :: 0 <= j < i ==>
                    resolvedDirs[j] == Render(ResolveAgainst(cwd, expand(directories[j])))
      {
        var expanded := expand(directories[i]);
        var resolved := ResolveAgainst(cwd, expanded);
        resolvedDirs := resolvedDirs + [Render(resolved)];
      }
      this.expand := expand;
      allowedDirectories := resolvedDirs;
    }

    /** The first half of `validate_path`: resolve the expanded request,
        trying the allowed directories in order for a relative one. */
    method ResolveExpanded(expanded: string, present: Path -> bool) returns (r: Result<Path, PathError>)
      ensures r == ResolveRequest(allowedDirectories, expanded, present)
    {
      var roots := allowedDirectories;
      var rel := Parts(expanded);
      var nul := '\0' in expanded;
      if IsAbsolute(expanded) {
        if nul {
          return Err(EmbeddedNul);
        }
        return Ok(Normalize(rel));
      }
      var resolved: Option<Path> := None;
      for i := 0 to |roots|
        invariant resolved == None
        invariant !nul ==> forall j :: 0 <= j < i ==> !present(Parts(roots[j]) + rel)
      {
        var potential := Parts(roots[i]) + rel;
        // `exists()` is false for a path holding NUL
        if !nul && present(potential) {
          PlainAppend(Parts(roots[i]), rel);
          assert FirstExisting(roots, rel, present) == i;
          resolved := Some(Normalize(potential));
          break;
        }
      }
      if resolved == None {
        if |roots| > 0 && nul {
          return Err(EmbeddedNul);
        }
        assert !nul ==> FirstExisting(roots, rel, present) == |roots|;
        if |roots| > 0 {
          PlainAppend(Parts(roots[0]), rel);
          resolved := Some(Normalize(Parts(roots[0]) + rel));
        } else {
          return Err(NoAllowedDirectories);
        }
      }
      return Ok(resolved.value);
    }

    /** `validate_path`: resolve, then accept the result only if some allowed
        directory is a string prefix of it. */
    method ValidatePath(requested: string, present: Path -> bool) returns (r: Result<string, PathError>)
      ensures r == Validate(allowedDirectories, expand, present, requested)
    {
      var roots := allowedDirectories;
      var expanded := expand(requested);
      var resolved := ResolveExpanded(expanded, present);
      if resolved.Err? {
        return Err(resolved.error);
      }
      var resolvedStr := Render(resolved.value);
      ValidateResolved(roots, expand, present, requested, resolved.value);
      for i := 0 to |roots|
        invariant forall j :: 0 <= j < i ==> !(roots[j] <= resolvedStr)
      {
        if roots[i] <= resolvedStr {
          assert UnderSomeRoot(roots, resolvedStr);
          return Ok(resolvedStr);
        }
      }
      assert !UnderSomeRoot(roots, resolvedStr);
      return Err(AccessDenied(requested));
    }

    /** `is_path_allowed`: whether `validate_path` succeeds, as a boolean. */
    method IsPathAllowed(path: string, present: Path -> bool) returns (allowed: bool)
      ensures allowed <==> Validate(allowedDirectories, expand, present, path).Ok?
    {
      var r := ValidatePath(path, present);
      allowed := r.Ok?;
    }

    /** `get_relative_path`: relative to `baseDir`, or to the first allowed
        directory when none (or "") is given; unchanged when that fails. */
    function GetRelativePath(absolutePath: string, baseDir: Option<string>): (r: string)
      reads this
      ensures r == absolutePath || !IsAbsolute(r)
    {
      var base :=
        if (baseDir == None || baseDir == Some("")) && |allowedDirectories| > 0
        then Some(allowedDirectories[0]) else baseDir;
      if base.Some? && base.value != "" then
        match RelativeTo(absolutePath, base.value)
        case Some(rel) => rel
        case None => absolutePath
      else absolutePath
    }
  }

  /** For a path at or below the first allowed directory, component by
      component, the relative path is the remaining components. */
  lemma RelativeOfContained(v: PathValidator, root: Path, rest: Path)
    requires |v.allowedDirectories| > 0 && v.allowedDirectories[0] == Render(root)
    requires Canonical(root) && Canonical(rest)
    ensures Canonical(root + rest)
    ensures v.GetRelativePath(Render(root + rest), None) == RelString(rest)
    ensures Parts(v.GetRelativePath(Render(root + rest), None)) == rest
  {
    PlainAppend(root, rest);
    assert Canonical(root + rest) by {
      forall i | 0 <= i < |root + rest| ensures (root + rest)[i] != ".." {
        if i >= |root| { assert (root + rest)[i] == rest[i - |root|]; }
      }
    }
    PartsRender(root);
    PartsRender(root + rest);
    RenderAnchor(root);
    RenderAnchor(root + rest);
    assert (root + rest)[|root|..] == rest;
    PartsRelString(rest);
  }

  /** A path whose components do not extend the base's comes back unchanged. */
  lemma RelativeOfUncontained(v: PathValidator, absolutePath: string, base: string)
    requires base != "" && IsAbsolute(absolutePath) && IsAbsolute(base)
    requires !(Parts(base) <= Parts(absolutePath))
    ensures v.GetRelativePath(absolutePath, Some(base)) == absolutePath
  {
  }

  /** A path rooted at "//" is not relative to a base rooted at "/", even
      with the same components. */
  lemma DoubleSlashStaysAbsolute(v: PathValidator)
    ensures v.GetRelativePath("//data/x", Some("/data")) == "//data/x"
  {
    assert Anchor("//data/x") == "//" && Anchor("/data") == "/";
  }

  /** A sibling accepted by the prefix test comes back unchanged: with the
      single root "/data", "/data-public" is not made relative. */
  lemma SiblingStaysAbsolute(v: PathValidator)
    requires v.allowedDirectories == ["/data"]
    ensures v.GetRelativePath("/data-public", None) == "/data-public"
  {
    SiblingParses();
    assert RelativeTo("/data-public", "/data") == None;
  }
}
