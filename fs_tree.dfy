/** The filesystem the file operations act on, as a map from the components
    of an absolute path to what is stored there, with the directory
    manipulations the operations are built from: `Path.mkdir`, rename of a
    whole subtree, and removal of a subtree. */
module FsTree {
  import opened Outcomes
  import opened Paths
  import opened Base64

  datatype Node = File(data: seq<byte>) | Dir

  type Tree = map<Path, Node>

  /** The exceptions the operations raise, by kind. */
  datatype FsError =
    | NotFound           // FileNotFoundError, from an explicit check or from the OS
    | NotAFile           // ValueError: a file was expected
    | NotADirectory      // ValueError or NotADirectoryError: a directory was expected
    | AlreadyExists      // FileExistsError, or shutil.Error for a taken destination
    | IsADirectory       // IsADirectoryError: a directory opened for writing
    | InvalidMove        // shutil.Error: a directory moved into itself
    | DirectoryNotEmpty  // ValueError raised by delete_path when rmdir fails
    | DecodeFailed       // UnicodeDecodeError
    | EncodeFailed       // UnicodeEncodeError
    | UnknownEncoding    // LookupError: no text codec of that name
    | Busy               // OSError: the root directory cannot be removed

  /** The root is a directory and every other entry sits in a directory. */
  predicate WellFormed(m: Tree) {
    && [] in m && m[[]].Dir?
    && forall k :: k in m && k != [] ==> Parent(k) in m && m[Parent(k)].Dir?
  }

  /** The node at `k`, or `Dir` when there is none; keeps map look-ups total. */
  function Get(m: Tree, k: Path): Node {
    if k in m then m[k] else Dir
  }

  /** Every proper prefix of an entry is a directory of a well-formed tree. */
  lemma {:induction false} AncestorIsDir(m: Tree, k: Path, i: nat)
    requires WellFormed(m) && k in m && i < |k|
    ensures k[..i] in m && m[k[..i]].Dir?
    decreases |k|
  {
    var up := Parent(k);
    if i < |up| {
      AncestorIsDir(m, up, i);
      assert up[..i] == k[..i];
    } else {
      assert k[..i] == up;
    }
  }

  /** A directory added under an existing directory keeps a tree well-formed. */
  lemma AddDir(m: Tree, q: Path)
    requires q != [] && q !in m
    requires Parent(q) in m && m[Parent(q)].Dir?
    ensures WellFormed(m) ==> WellFormed(m[q := Dir])
  {
    var m' := m[q := Dir];
    forall k | WellFormed(m) && k in m' && k != []
      ensures Parent(k) in m' && m'[Parent(k)].Dir?
    {
      if k != q {
        assert Parent(k) in m && m[Parent(k)].Dir?;
        assert Parent(k) != q;
      }
    }
  }

  /** `Path.mkdir(parents=True, exist_ok=True)`: each missing ancestor is made,
      outermost first, and nothing is made when one of them is a file. */
  function MkdirAll(m: Tree, q: Path): (r: Result<Tree, FsError>)
    ensures r.Ok? ==> q in r.value && r.value[q].Dir?
    ensures r.Ok? ==> forall k :: k in m ==> k in r.value && r.value[k] == m[k]
    ensures r.Ok? ==> forall k :: k in r.value && k !in m ==> k <= q && r.value[k].Dir?
    ensures r.Ok? && WellFormed(m) ==> WellFormed(r.value)
    decreases |q|
  {
    if q in m then
      if m[q].Dir? then Ok(m) else Err(AlreadyExists)
    else if q == [] then
      Err(NotFound)
    else
      var up := Parent(q);
      if up in m then
        if m[up].Dir? then
          AddDir(m, q); Ok(m[q := Dir])
        else Err(NotADirectory)
      else
        match MkdirAll(m, up)
        case Err(e) => Err(e)
        case Ok(m1) =>
          AddDir(m1, q); Ok(m1[q := Dir])
  }

  /** No prefix of `q`, `q` included, is a file. */
  predicate NoFileOnWay(m: Tree, q: Path) {
    forall i :: 0 <= i <= |q| && q[..i] in m ==> m[q[..i]].Dir?
  }

  /** What the OS raises when the directory `up` a call needs is missing:
      NotADirectoryError (ENOTDIR) when a file stands on the way to it, and
      FileNotFoundError (ENOENT) otherwise. */
  function MissingDirError(m: Tree, up: Path): FsError {
    if NoFileOnWay(m, up) then NotFound else NotADirectory
  }

  /** A directory of a well-formed tree has only directories above it. */
  lemma DirHasNoFileOnWay(m: Tree, k: Path)
    requires WellFormed(m) && k in m && m[k].Dir?
    ensures NoFileOnWay(m, k)
  {
    forall i | 0 <= i <= |k| && k[..i] in m
      ensures m[k[..i]].Dir?
    {
      if i < |k| { AncestorIsDir(m, k, i); } else { assert k[..i] == k; }
    }
  }

  /** A missing path has a file in its way exactly when its parent has. */
  lemma NoFileOnWayStep(m: Tree, q: Path)
    requires q != [] && q !in m
    ensures NoFileOnWay(m, q) <==> NoFileOnWay(m, Parent(q))
  {
    var up := Parent(q);
    assert q[..|q|] == q;
    assert forall i :: 0 <= i <= |up| ==> up[..i] == q[..i];
  }

  /** On a well-formed tree, making `q` succeeds exactly when no file is in its way. */
  lemma {:induction false} MkdirAllSucceeds(m: Tree, q: Path)
    requires WellFormed(m)
    ensures MkdirAll(m, q).Ok? <==> NoFileOnWay(m, q)
    decreases |q|
  {
    if q in m {
      if m[q].Dir? {
        DirHasNoFileOnWay(m, q);
      } else {
        assert q[..|q|] == q;
      }
    } else if q != [] {
      var up := Parent(q);
      NoFileOnWayStep(m, q);
      if up in m {
        if m[up].Dir? {
          DirHasNoFileOnWay(m, up);
        } else {
          assert up[..|up|] == up;
        }
      } else {
        MkdirAllSucceeds(m, up);
      }
    }
  }

  /** The entries directly inside `p`, as `Path.iterdir` lists them. */
  function Children(m: Tree, p: Path): set<Path> {
    set k | k in m && k != [] && Parent(k) == p
  }

  /** `rmdir`/`unlink` of an entry with nothing inside keeps a tree well-formed. */
  lemma RemoveLeaf(m: Tree, p: Path)
    requires WellFormed(m) && p != [] && Children(m, p) == {}
    ensures WellFormed(m - {p})
  {
    var m' := m - {p};
    forall k | k in m' && k != []
      ensures Parent(k) in m' && m'[Parent(k)].Dir?
    {
      assert Parent(k) != p by { assert k !in Children(m, p); }
    }
  }

  /** What `shutil.rmtree` leaves: every entry not at or below `p`. */
  function RemoveTree(m: Tree, p: Path): (r: Tree)
    ensures forall k :: k in r <==> k in m && !(p <= k)
  {
    map k | k in m && !(p <= k) :: m[k]
  }

  /** Removing a subtree other than the whole tree keeps a tree well-formed. */
  lemma RemoveTreeWellFormed(m: Tree, p: Path)
    requires WellFormed(m) && p != []
    ensures WellFormed(RemoveTree(m, p))
  {
    var m' := RemoveTree(m, p);
    forall k | k in m' && k != []
      ensures Parent(k) in m' && m'[Parent(k)].Dir?
    {
      assert Parent(k) <= k;
    }
  }

  /** Neither path lies at or below the other. */
  predicate Apart(a: Path, b: Path) {
    !(a <= b) && !(b <= a)
  }

  /** What `os.rename` (or its copy-then-delete fallback) makes of the
      subtree at `src`: it now lies at `dst`, and whatever was at or below
      `dst` is replaced. */
  function MoveTree(m: Tree, src: Path, dst: Path): Tree {
    var kept := set k | k in m && !(src <= k) && !(dst <= k);
    var moved := set k | k in m && src <= k :: dst + k[|src|..];
    map k | k in kept + moved :: if dst <= k then Get(m, src + k[|dst|..]) else Get(m, k)
  }

  lemma ParentAppend(d: Path, r: Path)
    requires r != []
    ensures Parent(d + r) == d + Parent(r)
  {
    assert (d + r)[..|d + r| - 1] == d + r[..|r| - 1];
  }

  /** A path below `dst` is never at or below `src` when the two are apart. */
  lemma ApartBelow(src: Path, dst: Path, r: Path)
    requires Apart(src, dst)
    ensures !(src <= dst + r)
  {
  }

  /** Entries outside both subtrees keep their place and content. */
  lemma MoveTreeKeeps(m: Tree, src: Path, dst: Path, k: Path)
    requires k in m && !(src <= k) && !(dst <= k)
    ensures k in MoveTree(m, src, dst) && MoveTree(m, src, dst)[k] == m[k]
  {
  }

  /** Every entry at or below `src` reappears at the same place below `dst`. */
  lemma MoveTreeCarries(m: Tree, src: Path, dst: Path, r: Path)
    requires src + r in m
    ensures dst + r in MoveTree(m, src, dst) && MoveTree(m, src, dst)[dst + r] == m[src + r]
  {
    var j := src + r;
    assert j[|src|..] == r;
    assert dst <= dst + r && (dst + r)[|dst|..] == r;
  }

  /** After the move nothing is left at or below `src`, and nothing is below
      `dst` except what came from `src`. */
  lemma MoveTreeDomain(m: Tree, src: Path, dst: Path, k: Path)
    requires Apart(src, dst)
    ensures k in MoveTree(m, src, dst) <==>
      (k in m && !(src <= k) && !(dst <= k)) || (dst <= k && src + k[|dst|..] in m)
  {
    var kept := set k | k in m && !(src <= k) && !(dst <= k);
    if dst <= k && src + k[|dst|..] in m {
      var j := src + k[|dst|..];
      assert j[|src|..] == k[|dst|..];
      assert k == dst + j[|src|..];
    }
    if k in MoveTree(m, src, dst) && k !in kept {
      var j :| j in m && src <= j && k == dst + j[|src|..];
      assert k[|dst|..] == j[|src|..];
      assert src + j[|src|..] == j;
    }
  }

  /** The parent of a moved entry is a directory after the move. */
  lemma MovedParent(m: Tree, src: Path, dst: Path, r: Path)
    requires WellFormed(m) && Apart(src, dst) && src + r in m
    requires Parent(dst) in m && m[Parent(dst)].Dir?
    ensures Parent(dst + r) in MoveTree(m, src, dst) && MoveTree(m, src, dst)[Parent(dst + r)].Dir?
  {
    if r == [] {
      assert dst + r == dst;
      assert Parent(dst) <= dst;
      MoveTreeKeeps(m, src, dst, Parent(dst));
    } else {
      ParentAppend(dst, r);
      ParentAppend(src, r);
      MoveTreeCarries(m, src, dst, Parent(r));
    }
  }

  /** The parent of a kept entry is a directory after the move. */
  lemma KeptParent(m: Tree, src: Path, dst: Path, k: Path)
    requires WellFormed(m) && k in m && k != [] && !(src <= k) && !(dst <= k)
    ensures Parent(k) in MoveTree(m, src, dst) && MoveTree(m, src, dst)[Parent(k)].Dir?
  {
    assert Parent(k) <= k;
    MoveTreeKeeps(m, src, dst, Parent(k));
  }

  /** Moving a subtree to a fresh place inside a directory, apart from where it
      was, keeps a tree well-formed. */
  lemma MoveTreeWellFormed(m: Tree, src: Path, dst: Path)
    requires WellFormed(m) && Apart(src, dst)
    requires Parent(dst) in m && m[Parent(dst)].Dir?
    ensures WellFormed(MoveTree(m, src, dst))
  {
    var m' := MoveTree(m, src, dst);
    MoveTreeKeeps(m, src, dst, []);
    forall k | k in m' && k != []
      ensures Parent(k) in m' && m'[Parent(k)].Dir?
    {
      MoveTreeDomain(m, src, dst, k);
      if dst <= k {
        var r := k[|dst|..];
        assert k == dst + r;
        MovedParent(m, src, dst, r);
      } else {
        KeptParent(m, src, dst, k);
      }
    }
  }

  /** Everything below `dst` after the move came from the same place below `src`. */
  lemma MoveTreeFrom(m: Tree, src: Path, dst: Path, k: Path)
    requires Apart(src, dst) && k in MoveTree(m, src, dst) && dst <= k
    ensures src + k[|dst|..] in m && MoveTree(m, src, dst)[k] == m[src + k[|dst|..]]
  {
    MoveTreeDomain(m, src, dst, k);
    var r := k[|dst|..];
    assert k == dst + r;
    MoveTreeCarries(m, src, dst, r);
  }

  /** Nothing is left at or below the source of a move. */
  lemma MoveTreeEmptiesSource(m: Tree, src: Path, dst: Path, k: Path)
    requires Apart(src, dst) && k in MoveTree(m, src, dst)
    ensures !(src <= k)
  {
    MoveTreeDomain(m, src, dst, k);
    if dst <= k {
      assert k == dst + k[|dst|..];
      ApartBelow(src, dst, k[|dst|..]);
    }
  }

  /** A file written into a directory keeps a tree well-formed. */
  lemma AddFile(m: Tree, p: Path, data: seq<byte>)
    requires Parent(p) in m && m[Parent(p)].Dir?
    requires !(p in m && m[p].Dir?)
    ensures WellFormed(m) ==> WellFormed(m[p := File(data)])
  {
    var m' := m[p := File(data)];
    forall k | WellFormed(m) && k in m' && k != []
      ensures Parent(k) in m' && m'[Parent(k)].Dir?
    {
      if k != p {
        assert Parent(k) in m && m[Parent(k)].Dir?;
      }
    }
  }
}
