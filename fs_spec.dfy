/** What each operation of file_operations.py does to the filesystem and
    what it reports, as functions of the tree before the call. Library calls
    the operations depend on (MIME guessing, text codecs, glob and gitignore
    matching) are parameters. */
module FsSpec {
  import opened Outcomes
  import opened Paths
  import opened Base64
  import opened Text
  import opened FsTree

  /** `mimetypes.guess_type(path)[0]`. */
  type MimeGuess = string -> Option<string>
  /** What decoding bytes with a named text codec gives: the text, a
      UnicodeDecodeError, or a LookupError when Python knows no codec of that
      name (raised by `open` before anything is read). */
  datatype Decoding = Decoded(text: string) | Undecodable | UnknownCodec
  /** Decoding bytes with a named text codec. */
  type Decoder = (string, seq<byte>) -> Decoding
  /** Encoding text with a named codec; `None` is a UnicodeEncodeError. */
  type Encoder = (string, string) -> Option<seq<byte>>

  /** The tree after a call, and what the call returns or raises. */
  datatype Outcome<+R> = Outcome(after: Tree, result: Result<R, FsError>)

  /** Python's `x or default` on an optional string. */
  function OrDefault(x: Option<string>, default: string): string {
    if x.Some? && x.value != "" then x.value else default
  }

  /** The MIME types read_file returns as base64 rather than as text. */
  predicate IsBinaryMime(mime: Option<string>) {
    mime.Some? &&
    ("image/" <= mime.value || "audio/" <= mime.value || "video/" <= mime.value
     || "application/octet-stream" <= mime.value)
  }

  // ---------------------------------------------------------------- read_file

  datatype ReadResult =
    | BinaryRead(content: string, mimeType: string, size: nat)
    | TextRead(content: string, mimeType: string, encoding: string, lines: nat)

  /** read_file: a missing path or a directory raises, and so does a text
      read with a codec name Python does not know; otherwise the bytes come
      back as base64 or as decoded text. */
  function ReadOutcome(m: Tree, p: Path, encoding: Option<string>,
                       guessType: MimeGuess, decode: Decoder): (r: Result<ReadResult, FsError>)
    ensures r.Err? <==>
      (|| p !in m || m[p].Dir?
       || (!IsBinaryMime(guessType(Render(p))) && decode(OrDefault(encoding, "utf-8"), m[p].data).UnknownCodec?))
    ensures r.Err? ==> r.error == (if p !in m then NotFound else if m[p].Dir? then NotAFile else UnknownEncoding)
    ensures r.Ok? && r.value.TextRead? ==>
      && r.value.encoding == OrDefault(encoding, "utf-8")
      && decode(r.value.encoding, m[p].data) == Decoded(r.value.content)
      && r.value.lines == Count(r.value.content, "\n") + 1
      && r.value.mimeType == OrDefault(guessType(Render(p)), "text/plain")
  {
    if p !in m then Err(NotFound)
    else if !m[p].File? then Err(NotAFile)
    else
      var data := m[p].data;
      var mime := guessType(Render(p));
      if IsBinaryMime(mime) then
        Ok(BinaryRead(Encode(data), mime.value, |data|))
      else
        var codec := OrDefault(encoding, "utf-8");
        match decode(codec, data)
        case Decoded(text) => Ok(TextRead(text, OrDefault(mime, "text/plain"), codec, Count(text, "\n") + 1))
        case Undecodable => Ok(BinaryRead(Encode(data), "application/octet-stream", |data|))
        // only UnicodeDecodeError is caught
        case UnknownCodec => Err(UnknownEncoding)
  }

  /** A file comes back as base64 exactly when its MIME type is a binary one or
      its bytes do not decode with a known codec; the payload is then the
      canonical encoding of the file's bytes, decodes back to them, and `size`
      counts them. */
  lemma ReadBinary(m: Tree, p: Path, encoding: Option<string>, guessType: MimeGuess, decode: Decoder)
    requires p in m && m[p].File?
    ensures var r := ReadOutcome(m, p, encoding, guessType, decode);
      && (r.Ok? <==> IsBinaryMime(guessType(Render(p))) || !decode(OrDefault(encoding, "utf-8"), m[p].data).UnknownCodec?)
      && (r.Ok? ==> (r.value.BinaryRead? <==>
            IsBinaryMime(guessType(Render(p))) || decode(OrDefault(encoding, "utf-8"), m[p].data).Undecodable?))
      && (r.Ok? && r.value.BinaryRead? ==>
            && r.value.content == Encode(m[p].data)
            && DecodeStrict(r.value.content) == Some(m[p].data) && r.value.size == |m[p].data|)
      && (r.Ok? && r.value.BinaryRead? ==>
            r.value.mimeType == if IsBinaryMime(guessType(Render(p))) then guessType(Render(p)).value
                                else "application/octet-stream")
  {
    DecodeEncode(m[p].data);
  }

  // --------------------------------------------------------------- write_file

  datatype WriteResult = WriteResult(path: string, bytesWritten: nat, created: bool, binary: bool)

  /** `open(p, 'w')` or `open(p, 'wb')` followed by writing `data`: the parent
      must be a directory and `p` must not be one. */
  function OpenAndWrite(m: Tree, p: Path, data: seq<byte>): (r: Result<Tree, FsError>)
    ensures r.Ok? && WellFormed(m) ==> WellFormed(r.value)
  {
    var up := Parent(p);
    if up !in m then Err(MissingDirError(m, up))
    else if m[up].File? then Err(NotADirectory)
    else if p in m && m[p].Dir? then Err(IsADirectory)
    else
      (AddFile(m, p, data); Ok(m[p := File(data)]))
  }

  /** The first step of write_file: the parent directories are made when
      asked for and missing. Only ancestors of the parent are added. */
  function PrepareParent(m: Tree, p: Path, createDirs: bool): (r: Result<Tree, FsError>)
    ensures r.Ok? ==> forall k :: k in m ==> k in r.value && r.value[k] == m[k]
    ensures r.Ok? ==> forall k :: k in r.value && k !in m ==> k <= Parent(p)
    ensures r.Ok? && WellFormed(m) ==> WellFormed(r.value)
  {
    if createDirs && Parent(p) !in m then MkdirAll(m, Parent(p)) else Ok(m)
  }

  /** A successful write leaves at `p` a file holding the decoded payload
      when the content is one and the encoded text otherwise, reports its size,
      and reports that nothing was created. */
  predicate Wrote(o: Outcome<WriteResult>, p: Path, content: string, encoding: string, encode: Encoder)
    requires o.result.Ok?
  {
    && p in o.after && o.after[p].File?
    && !o.result.value.created
    && o.result.value.bytesWritten == |o.after[p].data|
    && (o.result.value.binary <==> DetectBinary(content).Some?)
    && (o.result.value.binary ==> Some(o.after[p].data) == DetectBinary(content))
    && (!o.result.value.binary ==> Some(o.after[p].data) == encode(encoding, content))
  }

  /** The rest of write_file: the payload test, then the write. Only `p` changes. */
  function WriteContent(m: Tree, p: Path, content: string, encoding: string,
                        encode: Encoder): (o: Outcome<WriteResult>)
    ensures o.after == m || (p in o.after && o.after == m[p := o.after[p]])
    ensures o.result.Ok? ==> Wrote(o, p, content, encoding, encode)
    ensures WellFormed(m) ==> WellFormed(o.after)
  {
    match DetectBinary(content)
    case Some(bytes) =>
      (match OpenAndWrite(m, p, bytes)
       case Err(e) => Outcome(m, Err(e))
       case Ok(m2) => Outcome(m2, Ok(WriteResult(Render(p), |bytes|, p !in m2, true))))
    case None =>
      // open(p, 'w') truncates the file before the text is encoded
      match OpenAndWrite(m, p, [])
      case Err(e) => Outcome(m, Err(e))
      case Ok(m2) =>
        match encode(encoding, content)
        case None => Outcome(m2, Err(EncodeFailed))
        case Some(bytes) =>
          var m3 := m2[p := File(bytes)];
          (AddFile(m2, p, bytes); Outcome(m3, Ok(WriteResult(Render(p), |bytes|, p !in m3, false))))
  }

  /** write_file: makes missing parent directories when asked, then writes the
      decoded bytes of a base64 payload, or the encoded text. The entries it
      adds are `p` and ancestors of it, and it changes no other entry. */
  function WriteOutcome(m: Tree, p: Path, content: string, encoding: string, createDirs: bool,
                        encode: Encoder): (o: Outcome<WriteResult>)
    ensures o.result.Ok? ==> Wrote(o, p, content, encoding, encode)
    ensures forall k :: k in m && k != p ==> k in o.after && o.after[k] == m[k]
    ensures forall k :: k in o.after && k !in m ==> k == p || k <= Parent(p)
    ensures WellFormed(m) ==> WellFormed(o.after)
  {
    match PrepareParent(m, p, createDirs)
    case Err(e) => Outcome(m, Err(e))
    case Ok(m1) => WriteContent(m1, p, content, encoding, encode)
  }

  /** Text written with a codec that reads back what it wrote is read back
      unchanged, when neither the payload test nor the MIME type makes it binary. */
  lemma WriteThenReadText(m: Tree, p: Path, content: string, encoding: string, createDirs: bool,
                          encode: Encoder, guessType: MimeGuess, decode: Decoder)
    requires WriteOutcome(m, p, content, encoding, createDirs, encode).result.Ok?
    requires DetectBinary(content).None? && !IsBinaryMime(guessType(Render(p))) && encoding != ""
    requires encode(encoding, content).Some? ==> decode(encoding, encode(encoding, content).value) == Decoded(content)
    ensures ReadOutcome(WriteOutcome(m, p, content, encoding, createDirs, encode).after, p, Some(encoding), guessType, decode)
      == Ok(TextRead(content, OrDefault(guessType(Render(p)), "text/plain"), encoding, Count(content, "\n") + 1))
  {
    var o := WriteOutcome(m, p, content, encoding, createDirs, encode);
    assert Wrote(o, p, content, encoding, encode);
  }

  /** A base64 payload is stored as its bytes; a binary read returns their
      canonical encoding, which decodes to the same bytes. */
  lemma WriteThenReadBinary(m: Tree, p: Path, content: string, encoding: string, createDirs: bool,
                            encode: Encoder, guessType: MimeGuess, decode: Decoder)
    requires WriteOutcome(m, p, content, encoding, createDirs, encode).result.Ok?
    requires DetectBinary(content).Some? && IsBinaryMime(guessType(Render(p)))
    ensures var r := ReadOutcome(WriteOutcome(m, p, content, encoding, createDirs, encode).after,
                                 p, Some(encoding), guessType, decode);
      && r.Ok? && r.value.BinaryRead?
      && r.value.content == Encode(DetectBinary(content).value)
      && DecodeStrict(r.value.content) == DetectBinary(content)
      && r.value.size == |DetectBinary(content).value|
  {
    var o := WriteOutcome(m, p, content, encoding, createDirs, encode);
    assert Wrote(o, p, content, encoding, encode);
    DecodeEncode(DetectBinary(content).value);
  }

  /** Opening for text truncates before encoding, so a text the codec cannot
      encode leaves an empty file behind. */
  lemma WriteEncodeFailureEmptiesFile(m: Tree, p: Path, content: string, encoding: string, createDirs: bool,
                                      encode: Encoder)
    requires WellFormed(m) && Parent(p) in m && m[Parent(p)].Dir? && !(p in m && m[p].Dir?)
    requires DetectBinary(content).None? && encode(encoding, content).None?
    ensures WriteOutcome(m, p, content, encoding, createDirs, encode) == Outcome(m[p := File([])], Err(EncodeFailed))
  {
  }

  /** Writing onto a directory raises and changes nothing; so does writing
      under a missing parent when parents are not to be made, which raises
      NotADirectoryError when a file stands above that parent and
      FileNotFoundError otherwise. */
  lemma WriteRefused(m: Tree, p: Path, content: string, encoding: string, createDirs: bool, encode: Encoder)
    requires WellFormed(m)
    requires (p in m && m[p].Dir?) || (!createDirs && Parent(p) !in m)
    ensures WriteOutcome(m, p, content, encoding, createDirs, encode).after == m
    ensures WriteOutcome(m, p, content, encoding, createDirs, encode).result
      == Err(if p in m then IsADirectory else if NoFileOnWay(m, Parent(p)) then NotFound else NotADirectory)
  {
    if p in m && p != [] {
      assert Parent(p) in m;
    }
    assert PrepareParent(m, p, createDirs) == Ok(m);
    var e := if p in m then IsADirectory else MissingDirError(m, Parent(p));
    assert OpenAndWrite(m, p, []) == Err(e);
    if DetectBinary(content).Some? {
      assert OpenAndWrite(m, p, DetectBinary(content).value) == Err(e);
    }
    assert WriteContent(m, p, content, encoding, encode) == Outcome(m, Err(e));
  }

  /** A file standing two levels above the target: `open` meets it on the way
      and raises NotADirectoryError, not FileNotFoundError. */
  lemma WriteBelowFile(content: string, encoding: string, encode: Encoder)
    ensures var m := map[[] := Dir, ["a"] := File([])];
      WriteOutcome(m, ["a", "b", "c"], content, encoding, false, encode) == Outcome(m, Err(NotADirectory))
  {
    var m := map[[] := Dir, ["a"] := File([])];
    var p: Path := ["a", "b", "c"];
    assert Parent(p) == ["a", "b"] && Parent(p)[..1] == ["a"];
    assert !NoFileOnWay(m, Parent(p));
    WriteRefused(m, p, content, encoding, false, encode);
  }

  // ---------------------------------------------------------------- edit_file

  datatype EditResult = EditResult(path: string, replacements: nat)

  /** edit_file: the file is decoded, every occurrence of `search` is counted
      and, when there is one, replaced and the text written back. */
  function EditOutcome(m: Tree, p: Path, search: string, replace: string, encoding: string,
                       decode: Decoder, encode: Encoder): (o: Outcome<EditResult>)
    ensures p !in m ==> o == Outcome(m, Err(NotFound))
    ensures p in m && m[p].Dir? ==> o == Outcome(m, Err(NotAFile))
    ensures o.result.Err? && o.result.error != EncodeFailed ==> o.after == m
    ensures o.result == Err(EncodeFailed) ==> p in m && o.after == m[p := File([])]
    ensures o.result.Ok? ==>
      && p in m && m[p].File? && decode(encoding, m[p].data).Decoded?
      && o.result.value.replacements == Count(decode(encoding, m[p].data).text, search)
    ensures o.result.Ok? && o.result.value.replacements == 0 ==> o.after == m
    ensures o.result.Ok? && o.result.value.replacements > 0 ==>
      var text := decode(encoding, m[p].data).text;
      && encode(encoding, Replace(text, search, replace)).Some?
      && o.after == m[p := File(encode(encoding, Replace(text, search, replace)).value)]
    ensures WellFormed(m) ==> WellFormed(o.after)
  {
    if p !in m then Outcome(m, Err(NotFound))
    else if !m[p].File? then Outcome(m, Err(NotAFile))
    else
      match decode(encoding, m[p].data)
      case Undecodable => Outcome(m, Err(DecodeFailed))
      case UnknownCodec => Outcome(m, Err(UnknownEncoding))
      case Decoded(text) =>
        var n := Count(text, search);
        if n == 0 then Outcome(m, Ok(EditResult(Render(p), 0)))
        else
          // open(p, 'w') truncates the file before the new text is encoded
          match encode(encoding, Replace(text, search, replace))
          case None => (EditKeepsShape(m, p, []); Outcome(m[p := File([])], Err(EncodeFailed)))
          case Some(bytes) => (EditKeepsShape(m, p, bytes); Outcome(m[p := File(bytes)], Ok(EditResult(Render(p), n))))
  }

  /** Rewriting a file in place keeps a tree well-formed. */
  lemma EditKeepsShape(m: Tree, p: Path, data: seq<byte>)
    requires p in m && m[p].File?
    ensures WellFormed(m) ==> WellFormed(m[p := File(data)])
  {
    if WellFormed(m) && p != [] {
      AddFile(m, p, data);
    }
  }

  /** After an edit that found matches, the file reads back as the replaced
      text, whose length changes by the difference in length per replacement. */
  lemma EditThenRead(m: Tree, p: Path, search: string, replace: string, encoding: string,
                     decode: Decoder, encode: Encoder, guessType: MimeGuess)
    requires EditOutcome(m, p, search, replace, encoding, decode, encode).result.Ok?
    requires EditOutcome(m, p, search, replace, encoding, decode, encode).result.value.replacements > 0
    requires !IsBinaryMime(guessType(Render(p))) && encoding != ""
    requires forall t :: encode(encoding, t).Some? ==> decode(encoding, encode(encoding, t).value) == Decoded(t)
    ensures var old_text := decode(encoding, m[p].data).text;
      var r := ReadOutcome(EditOutcome(m, p, search, replace, encoding, decode, encode).after,
                           p, Some(encoding), guessType, decode);
      && r.Ok? && r.value.TextRead?
      && r.value.content == Replace(old_text, search, replace)
      && |r.value.content| == |old_text| + Count(old_text, search) * (|replace| - |search|)
  {
    var text := decode(encoding, m[p].data).text;
    ReplaceLength(text, search, replace);
  }

  // --------------------------------------------------------- create_directory

  datatype CreateResult = CreateResult(path: string, created: bool)

  /** `os.mkdir`, the `parents=False` case of `Path.mkdir`. */
  function MkdirOne(m: Tree, p: Path): (r: Result<Tree, FsError>)
    ensures r.Ok? ==> r.value == m[p := Dir] && p !in m
    ensures r.Ok? && WellFormed(m) ==> WellFormed(r.value)
  {
    if p in m then Err(AlreadyExists)
    else if Parent(p) !in m then Err(MissingDirError(m, Parent(p)))
    else if m[Parent(p)].File? then Err(NotADirectory)
    else (AddDir(m, p); Ok(m[p := Dir]))
  }

  /** create_directory: an existing directory is reported as not created, an
      existing file raises, and otherwise the directory is made. */
  function CreateDirectoryOutcome(m: Tree, p: Path, parents: bool): (o: Outcome<CreateResult>)
    ensures o.result.Err? ==> o.after == m
    ensures p in m && m[p].File? ==> o.result == Err(NotADirectory)
    ensures o.result.Ok? ==> p in o.after && o.after[p].Dir? && (o.result.value.created <==> p !in m)
    ensures forall k :: k in m && o.result.Ok? ==> k in o.after && o.after[k] == m[k]
    ensures forall k :: k in o.after && k !in m ==> k <= p
    ensures WellFormed(m) ==> WellFormed(o.after)
  {
    if p in m then
      if m[p].Dir? then Outcome(m, Ok(CreateResult(Render(p), false)))
      else Outcome(m, Err(NotADirectory))
    else
      match (if parents then MkdirAll(m, p) else MkdirOne(m, p))
      case Err(e) => Outcome(m, Err(e))
      case Ok(m1) => Outcome(m1, Ok(CreateResult(Render(p), true)))
  }

  /** Creating a directory a second time changes nothing and reports that
      nothing was created. */
  lemma CreateDirectoryIdempotent(m: Tree, p: Path, parents: bool, again: bool)
    requires CreateDirectoryOutcome(m, p, parents).result.Ok?
    ensures var m1 := CreateDirectoryOutcome(m, p, parents).after;
      CreateDirectoryOutcome(m1, p, again) == Outcome(m1, Ok(CreateResult(Render(p), false)))
  {
  }

  /** With `parents`, creation succeeds exactly when no file stands at `p` or
      above it; without, exactly when `p` is missing or a directory and, if
      missing, its parent is a directory. */
  lemma CreateDirectorySucceeds(m: Tree, p: Path, parents: bool)
    requires WellFormed(m)
    ensures parents ==> (CreateDirectoryOutcome(m, p, parents).result.Ok? <==> NoFileOnWay(m, p))
    ensures !parents ==> (CreateDirectoryOutcome(m, p, parents).result.Ok? <==>
      if p in m then m[p].Dir? else Parent(p) in m && m[Parent(p)].Dir?)
  {
    if parents {
      MkdirAllSucceeds(m, p);
      if p in m {
        if m[p].Dir? { DirHasNoFileOnWay(m, p); } else { assert p[..|p|] == p; }
      }
    }
  }

  /** Without `parents`, a missing parent raises NotADirectoryError when a file
      stands on the way to it and FileNotFoundError otherwise; nothing changes. */
  lemma CreateDirectoryMissingParent(m: Tree, p: Path)
    requires p !in m && Parent(p) !in m
    ensures CreateDirectoryOutcome(m, p, false)
            == Outcome(m, Err(if NoFileOnWay(m, Parent(p)) then NotFound else NotADirectory))
  {
  }

  // -------------------------------------------------------------- delete_path

  datatype DeleteResult = DeleteResult(path: string, directory: bool)

  /** delete_path: a file is unlinked; a directory is removed with everything
      in it when `recursive`, and otherwise only when it is empty. */
  function DeleteOutcome(m: Tree, p: Path, recursive: bool): Outcome<DeleteResult> {
    if p !in m then Outcome(m, Err(NotFound))
    else if m[p].File? then Outcome(m - {p}, Ok(DeleteResult(Render(p), false)))
    else if recursive then
      // shutil.rmtree empties the root, then cannot remove it
      if p == [] then Outcome(map[[] := Dir], Err(Busy))
      else Outcome(RemoveTree(m, p), Ok(DeleteResult(Render(p), true)))
    // rmdir of the root fails too, and every OSError is reported as "not empty"
    else if p == [] || Children(m, p) != {} then Outcome(m, Err(DirectoryNotEmpty))
    else Outcome(m - {p}, Ok(DeleteResult(Render(p), true)))
  }

  /** A file has nothing below it in a well-formed tree. */
  lemma FileIsLeaf(m: Tree, p: Path)
    requires WellFormed(m) && p in m && m[p].File?
    ensures Children(m, p) == {}
    ensures forall k :: k in m && p <= k ==> k == p
  {
    forall k | k in m && p <= k
      ensures k == p
    {
      if k != p {
        assert k[..|p|] == p;
        AncestorIsDir(m, k, |p|);
        assert false;
      }
    }
  }

  /** An empty directory has nothing below it in a well-formed tree. */
  lemma EmptyDirIsLeaf(m: Tree, p: Path)
    requires WellFormed(m) && p in m && Children(m, p) == {}
    ensures forall k :: k in m && p <= k ==> k == p
  {
    forall k | k in m && p <= k
      ensures k == p
    {
      if k != p {
        var c := k[..|p| + 1];
        assert Parent(c) == p && c != [];
        assert c !in Children(m, p);
        AncestorOrSelf(m, k, |p| + 1);
        assert false;
      }
    }
  }

  lemma AncestorOrSelf(m: Tree, k: Path, i: nat)
    requires WellFormed(m) && k in m && i <= |k|
    ensures k[..i] in m
  {
    if i < |k| { AncestorIsDir(m, k, i); } else { assert k[..i] == k; }
  }

  /** A delete that succeeds leaves exactly the entries not at or below `p`,
      unchanged; one that fails changes nothing, except that a recursive
      delete of the root empties it. */
  lemma DeleteRemovesSubtree(m: Tree, p: Path, recursive: bool)
    requires WellFormed(m)
    ensures var o := DeleteOutcome(m, p, recursive);
      && (o.result.Ok? ==> o.after == RemoveTree(m, p))
      && (o.result.Err? && !(recursive && p == []) ==> o.after == m)
  {
    var o := DeleteOutcome(m, p, recursive);
    if o.result.Ok? && (m[p].File? || !recursive) {
      if m[p].File? { FileIsLeaf(m, p); } else { EmptyDirIsLeaf(m, p); }
      assert o.after == m - {p};
      assert forall k :: k in m - {p} <==> k in m && !(p <= k);
    }
  }

  /** Deleting succeeds exactly on an existing file, on an existing directory
      other than the root when recursive, and on an empty one otherwise. */
  lemma DeleteSucceeds(m: Tree, p: Path, recursive: bool)
    ensures DeleteOutcome(m, p, recursive).result.Ok? <==>
      p in m && (m[p].File? || (p != [] && (recursive || Children(m, p) == {})))
  {
  }

  /** Deleting keeps the tree well-formed. */
  lemma DeleteWellFormed(m: Tree, p: Path, recursive: bool)
    requires WellFormed(m)
    ensures WellFormed(DeleteOutcome(m, p, recursive).after)
  {
    if p in m && p != [] {
      if m[p].File? {
        FileIsLeaf(m, p);
        RemoveLeaf(m, p);
      } else if recursive {
        RemoveTreeWellFormed(m, p);
      } else if Children(m, p) == {} {
        RemoveLeaf(m, p);
      }
    } else if p == [] && recursive {
      var r: Tree := map[[] := Dir];
      assert forall k :: k in r ==> k == [];
    }
  }

  // ---------------------------------------------------------------- move_file

  datatype MoveResult = MoveResult(source: string, destination: string)

  /** `dir / p.name`; joining the empty name of the root gives `dir` back. */
  function Into(dir: Path, p: Path): Path {
    if p == [] then dir else dir + [p[|p| - 1]]
  }

  /** The checks of `os.rename(src, place)` and, where it fails, of
      shutil.move's copy-then-delete fallback, with the directories that
      fallback makes. `d` is the destination shutil.move was given. */
  function Stage(m: Tree, src: Path, place: Path, d: Path): (r: Result<Tree, FsError>)
    requires src in m
    ensures r.Ok? ==> forall k :: k in m ==> k in r.value && r.value[k] == m[k]
    ensures r.Ok? ==> forall k :: k in r.value && k !in m ==> k <= place
    ensures r.Ok? && WellFormed(m) ==>
      WellFormed(r.value) && Parent(place) in r.value && r.value[Parent(place)].Dir?
  {
    if m[src].File? then
      // os.rename; when it fails, shutil.copy2 fails the same way
      if Parent(place) !in m then Err(MissingDirError(m, Parent(place)))
      else if m[Parent(place)].File? then Err(NotADirectory)
      else Ok(m)
    // a directory: os.rename, or else shutil.copytree once the destination is
    // known not to lie inside the source; copytree makes the destination and
    // its missing parents
    else if src <= d then Err(InvalidMove)
    else if place in m then Err(AlreadyExists)
    else MkdirAll(m, place)
  }

  /** `os.rename(src, place)` or its fallback: renaming onto itself does nothing. */
  function Rename(m: Tree, src: Path, place: Path, d: Path): Result<Tree, FsError>
    requires src in m
  {
    if src == place then Ok(m)
    else
      match Stage(m, src, place, d)
      case Err(e) => Err(e)
      case Ok(m1) => Ok(MoveTree(m1, src, place))
  }

  /** `shutil.move(src, d)`: into `d` when it is a directory other than `src`,
      refusing a name already taken there. */
  function ShutilMove(m: Tree, src: Path, d: Path): Result<Tree, FsError>
    requires src in m
  {
    if d in m && m[d].Dir? then
      if src == d then Ok(m)
      else if Into(d, src) in m then Err(AlreadyExists)
      else Rename(m, src, Into(d, src), d)
    else Rename(m, src, d, d)
  }

  /** The destination move_file hands to shutil.move. */
  function MoveTarget(m: Tree, src: Path, dst: Path): Path {
    if dst in m && m[dst].Dir? then Into(dst, src) else dst
  }

  /** Where shutil.move puts the entry it is given. */
  function Landing(m: Tree, src: Path, d: Path): Path {
    if d in m && m[d].Dir? && src != d then Into(d, src) else d
  }

  /** move_file: a missing source raises, an existing destination raises
      unless `overwrite`, and an existing directory receives the source under
      its own name. */
  function MoveOutcome(m: Tree, src: Path, dst: Path, overwrite: bool): (o: Outcome<MoveResult>)
    ensures src !in m ==> o == Outcome(m, Err(NotFound))
    ensures src in m && dst in m && !overwrite ==> o == Outcome(m, Err(AlreadyExists))
    ensures o.result.Err? ==> o.after == m
  {
    if src !in m then Outcome(m, Err(NotFound))
    else if dst in m && !overwrite then Outcome(m, Err(AlreadyExists))
    else
      var target := MoveTarget(m, src, dst);
      match ShutilMove(m, src, target)
      case Err(e) => Outcome(m, Err(e))
      case Ok(m1) => Outcome(m1, Ok(MoveResult(Render(src), Render(target))))
  }

  /** The place a successful rename moves to lies apart from the source. */
  lemma StageApart(m: Tree, src: Path, place: Path, d: Path)
    requires WellFormed(m) && src in m && src != place
    requires !(place in m && m[place].Dir?)
    requires place == d || place == Into(d, src)
    requires Stage(m, src, place, d).Ok?
    ensures Apart(src, place)
  {
    if place <= src {
      assert place == src[..|place|];
      AncestorIsDir(m, src, |place|);
    }
    if m[src].File? {
      if src <= place {
        assert src <= Parent(place);
        if Parent(place) != src {
          assert Parent(place)[..|src|] == src;
          AncestorIsDir(m, Parent(place), |src|);
        }
      }
    }
  }

  /** A successful move either leaves the tree as it was, when the entry is
      moved onto itself, or stages the destination and moves the subtree
      there, apart from where it was. */
  lemma MoveShape(m: Tree, src: Path, dst: Path, overwrite: bool)
    requires WellFormed(m) && MoveOutcome(m, src, dst, overwrite).result.Ok?
    ensures src in m
    ensures var d := MoveTarget(m, src, dst);
      var fin := Landing(m, src, d);
      var o := MoveOutcome(m, src, dst, overwrite);
      && (fin == src ==> o.after == m)
      && (fin != src ==>
            && Apart(src, fin) && Stage(m, src, fin, d).Ok?
            && o.after == MoveTree(Stage(m, src, fin, d).value, src, fin))
  {
    var d := MoveTarget(m, src, dst);
    var fin := Landing(m, src, d);
    if fin != src {
      assert !(fin in m && m[fin].Dir?) by {
        if d in m && m[d].Dir? {
          assert Into(d, src) !in m;
        }
      }
      StageApart(m, src, fin, d);
    }
  }

  /** Everything at or below the source is found at the same place below
      where the move put it, with the same content. */
  lemma MoveRelocates(m: Tree, src: Path, dst: Path, overwrite: bool, r: Path)
    requires WellFormed(m) && MoveOutcome(m, src, dst, overwrite).result.Ok? && src + r in m
    ensures var fin := Landing(m, src, MoveTarget(m, src, dst));
      var after := MoveOutcome(m, src, dst, overwrite).after;
      fin + r in after && after[fin + r] == m[src + r]
  {
    MoveShape(m, src, dst, overwrite);
    var d := MoveTarget(m, src, dst);
    var fin := Landing(m, src, d);
    if fin != src {
      MoveTreeCarries(Stage(m, src, fin, d).value, src, fin, r);
    }
  }

  /** Unless the entry was moved onto itself, nothing is left at or below the source. */
  lemma MoveEmptiesSource(m: Tree, src: Path, dst: Path, overwrite: bool, k: Path)
    requires WellFormed(m) && MoveOutcome(m, src, dst, overwrite).result.Ok?
    requires Landing(m, src, MoveTarget(m, src, dst)) != src
    requires k in MoveOutcome(m, src, dst, overwrite).after
    ensures !(src <= k)
  {
    MoveShape(m, src, dst, overwrite);
    var d := MoveTarget(m, src, dst);
    MoveTreeEmptiesSource(Stage(m, src, Landing(m, src, d), d).value, src, Landing(m, src, d), k);
  }

  /** Entries outside the source and the destination subtrees keep their content. */
  lemma MoveKeepsOthers(m: Tree, src: Path, dst: Path, overwrite: bool, k: Path)
    requires WellFormed(m) && k in m
    requires !(src <= k) && !(Landing(m, src, MoveTarget(m, src, dst)) <= k)
    ensures var after := MoveOutcome(m, src, dst, overwrite).after;
      k in after && after[k] == m[k]
  {
    if MoveOutcome(m, src, dst, overwrite).result.Ok? {
      MoveShape(m, src, dst, overwrite);
      var d := MoveTarget(m, src, dst);
      var fin := Landing(m, src, d);
      if fin != src {
        MoveTreeKeeps(Stage(m, src, fin, d).value, src, fin, k);
      }
    }
  }

  /** A successful move adds no entry except at or below where the entry
      landed, or the directories above it that copytree makes. */
  lemma MoveAddsOnlyLanding(m: Tree, src: Path, dst: Path, overwrite: bool, k: Path)
    requires WellFormed(m) && MoveOutcome(m, src, dst, overwrite).result.Ok?
    requires k in MoveOutcome(m, src, dst, overwrite).after && k !in m
    ensures var fin := Landing(m, src, MoveTarget(m, src, dst));
      fin <= k || k <= fin
  {
    MoveShape(m, src, dst, overwrite);
    var d := MoveTarget(m, src, dst);
    var fin := Landing(m, src, d);
    MoveTreeDomain(Stage(m, src, fin, d).value, src, fin, k);
  }

  /** Everything at or below where the entry landed came from the same place
      below the source, with the same content. */
  lemma MoveLandingFromSource(m: Tree, src: Path, dst: Path, overwrite: bool, k: Path)
    requires WellFormed(m) && MoveOutcome(m, src, dst, overwrite).result.Ok?
    requires k in MoveOutcome(m, src, dst, overwrite).after
    requires Landing(m, src, MoveTarget(m, src, dst)) <= k
    ensures var fin := Landing(m, src, MoveTarget(m, src, dst));
      var after := MoveOutcome(m, src, dst, overwrite).after;
      src + k[|fin|..] in m && after[k] == m[src + k[|fin|..]]
  {
    MoveShape(m, src, dst, overwrite);
    var d := MoveTarget(m, src, dst);
    var fin := Landing(m, src, d);
    if fin == src {
      PrefixRest(src, k);
    } else {
      LandedFromSource(m, src, fin, d, k);
    }
  }

  lemma PrefixRest(a: Path, k: Path)
    requires a <= k
    ensures a + k[|a|..] == k
  {
  }

  /** What lies below the landing place after staging and relocation came
      from the same place below the source. */
  lemma LandedFromSource(m: Tree, src: Path, fin: Path, d: Path, k: Path)
    requires src in m && Apart(src, fin) && Stage(m, src, fin, d).Ok?
    requires k in MoveTree(Stage(m, src, fin, d).value, src, fin) && fin <= k
    ensures src + k[|fin|..] in m
    ensures MoveTree(Stage(m, src, fin, d).value, src, fin)[k] == m[src + k[|fin|..]]
  {
    MoveTreeFrom(Stage(m, src, fin, d).value, src, fin, k);
    StagedFromSource(m, src, fin, d, k[|fin|..]);
  }

  /** The staging step adds nothing below the source when the landing place
      lies apart from it. */
  lemma StagedFromSource(m: Tree, src: Path, fin: Path, d: Path, r: Path)
    requires src in m && Apart(src, fin) && Stage(m, src, fin, d).Ok?
    requires src + r in Stage(m, src, fin, d).value
    ensures src + r in m && Stage(m, src, fin, d).value[src + r] == m[src + r]
  {
  }

  /** A move to a free name in an existing directory succeeds, unless a
      directory would be moved into itself, and lands at that name. */
  lemma MoveToFreeName(m: Tree, src: Path, dst: Path, overwrite: bool)
    requires WellFormed(m) && src in m && dst !in m && Parent(dst) in m && m[Parent(dst)].Dir?
    ensures var o := MoveOutcome(m, src, dst, overwrite);
      && (o.result.Ok? <==> !(m[src].Dir? && src <= dst))
      && (o.result.Err? ==> o.result.error == InvalidMove)
      && (o.result.Ok? ==> o.result.value == MoveResult(Render(src), Render(dst))
                           && Landing(m, src, MoveTarget(m, src, dst)) == dst)
  {
    assert dst != [];
  }

  /** Moving keeps the tree well-formed. */
  lemma MoveWellFormed(m: Tree, src: Path, dst: Path, overwrite: bool)
    requires WellFormed(m)
    ensures WellFormed(MoveOutcome(m, src, dst, overwrite).after)
  {
    if MoveOutcome(m, src, dst, overwrite).result.Ok? {
      MoveShape(m, src, dst, overwrite);
      var d := MoveTarget(m, src, dst);
      var fin := Landing(m, src, d);
      if fin != src {
        MoveTreeWellFormed(Stage(m, src, fin, d).value, src, fin);
      }
    }
  }

  /** Moving into a directory puts the entry under its own name there, when
      that name is free. */
  lemma MoveIntoDirectory(m: Tree, src: Path, dst: Path, overwrite: bool, r: Path)
    requires WellFormed(m) && MoveOutcome(m, src, dst, overwrite).result.Ok? && src + r in m
    requires dst in m && m[dst].Dir? && src != [] && Into(dst, src) !in m
    ensures var after := MoveOutcome(m, src, dst, overwrite).after;
      dst + [src[|src| - 1]] + r in after && after[dst + [src[|src| - 1]] + r] == m[src + r]
  {
    MoveRelocates(m, src, dst, overwrite, r);
  }

  // ---------------------------------------- list_directory, search_files, get_file_info

  /** `Path.glob(pattern)` (false) or `Path.rglob(pattern)` (true) on a
      directory yields the entry with these components below it. */
  type Glob = (string, bool, Path) -> bool
  /** gitignore matching of a relative path against a list of patterns. */
  type IgnoreMatch = (seq<string>, string) -> bool

  /** `_get_file_info` reduced to name, path, kind and size. */
  datatype FileInfo = FileInfo(name: string, path: string, isDirectory: bool, isFile: bool, size: Option<nat>)

  function InfoOf(m: Tree, k: Path): FileInfo
    requires k in m
  {
    FileInfo(Name(k), Render(k), m[k].Dir?, m[k].File?, if m[k].File? then Some(|m[k].data|) else None)
  }

  /** list_directory's sort key `(not is_directory, name)`: directories
      first, then by name. */
  predicate KeyLess(a: FileInfo, b: FileInfo) {
    (a.isDirectory && !b.isDirectory) || (a.isDirectory == b.isDirectory && StrLess(a.name, b.name))
  }

  predicate SortedByKey(xs: seq<FileInfo>) {
    forall i, j :: 0 <= i < j < |xs| ==> !KeyLess(xs[j], xs[i])
  }

  lemma KeyLessAsymmetric(a: FileInfo, b: FileInfo)
    requires KeyLess(a, b)
    ensures !KeyLess(b, a)
  {
    if KeyLess(b, a) {
      StrLessTransitive(a.name, b.name, a.name);
      StrLessIrreflexive(a.name);
    }
  }

  /** Whatever lies between two keys in order is below the greater or above the smaller. */
  lemma KeyLessSplit(a: FileInfo, b: FileInfo, c: FileInfo)
    requires KeyLess(c, a)
    ensures KeyLess(c, b) || KeyLess(b, a)
  {
    if c.isDirectory == a.isDirectory && b.isDirectory == a.isDirectory && b.name != c.name {
      StrLessTotal(b.name, c.name);
      if StrLess(b.name, c.name) {
        StrLessTransitive(b.name, c.name, a.name);
      }
    }
  }

  /** One step of insertion: `x` goes before the first element not less than it. */
  function InsertByKey(x: FileInfo, xs: seq<FileInfo>): (r: seq<FileInfo>)
    requires SortedByKey(xs)
    ensures SortedByKey(r) && multiset(r) == multiset(xs) + multiset{x}
  {
    if xs == [] then [x]
    else if !KeyLess(xs[0], x) then
      (InsertFront(x, xs); [x] + xs)
    else
      var rest := InsertByKey(x, xs[1..]);
      assert xs == [xs[0]] + xs[1..];
      InsertBehind(x, xs, rest);
      [xs[0]] + rest
  }

  lemma InsertFront(x: FileInfo, xs: seq<FileInfo>)
    requires SortedByKey(xs) && xs != [] && !KeyLess(xs[0], x)
    ensures SortedByKey([x] + xs)
  {
    var r := [x] + xs;
    forall i, j | 0 <= i < j < |r|
      ensures !KeyLess(r[j], r[i])
    {
      if i == 0 {
        if KeyLess(r[j], x) {
          KeyLessSplit(x, xs[0], r[j]);
        }
      }
    }
  }

  lemma InsertBehind(x: FileInfo, xs: seq<FileInfo>, rest: seq<FileInfo>)
    requires SortedByKey(xs) && xs != [] && KeyLess(xs[0], x)
    requires SortedByKey(rest) && multiset(rest) == multiset(xs[1..]) + multiset{x}
    ensures SortedByKey([xs[0]] + rest)
  {
    var r := [xs[0]] + rest;
    forall i, j | 0 <= i < j < |r|
      ensures !KeyLess(r[j], r[i])
    {
      if i == 0 {
        var e := rest[j - 1];
        assert e in multiset(rest);
        if e == x {
          KeyLessAsymmetric(xs[0], x);
        } else {
          assert e in multiset(xs[1..]);
          var t :| 0 <= t < |xs[1..]| && xs[1..][t] == e;
          assert xs[t + 1] == e;
        }
      }
    }
  }

  /** `sorted(items, key=...)`: the same items, in key order. */
  function SortByKey(xs: seq<FileInfo>): (r: seq<FileInfo>)
    ensures SortedByKey(r) && multiset(r) == multiset(xs)
  {
    if xs == [] then []
    else
      assert xs == [xs[0]] + xs[1..];
      InsertByKey(xs[0], SortByKey(xs[1..]))
  }

  /** The entries list_directory's glob yields: below `p`, selected by the
      pattern (`*` when none is given). */
  function ListedPaths(m: Tree, p: Path, recursive: bool, pattern: Option<string>, glob: Glob): set<Path> {
    set k | k in m && p < k && glob(OrDefault(pattern, "*"), recursive, k[|p|..])
  }

  /** The infos of a set of entries. */
  function InfosOf(m: Tree, keys: set<Path>): set<FileInfo>
    requires forall k :: k in keys ==> k in m
  {
    set k | k in keys :: InfoOf(m, k)
  }

  lemma InfosOfInsert(m: Tree, keys: set<Path>, k: Path)
    requires k in m && forall j :: j in keys ==> j in m
    ensures InfosOf(m, keys + {k}) == InfosOf(m, keys) + {InfoOf(m, k)}
  {
  }

  /** The error list_directory raises before listing, if any. */
  function ListError(m: Tree, p: Path): Option<FsError> {
    if p !in m then Some(NotFound) else if m[p].File? then Some(NotADirectory) else None
  }

  /** `if content:` and the read that follows it: a file qualifies when no
      content is asked for, or it decodes as UTF-8 and contains the content. */
  predicate ContentMatches(data: seq<byte>, content: Option<string>, decode: Decoder) {
    || content.None? || content.value == ""
    || (decode("utf-8", data).Decoded? && Contains(decode("utf-8", data).text, content.value))
  }

  /** A file search_files reports: yielded by `rglob(pattern)` below the base,
      not ignored by its path relative to the base, and holding the content. */
  predicate SearchHit(m: Tree, base: Path, k: Path, pattern: string, content: Option<string>,
                      ignorePatterns: seq<string>, glob: Glob, ignored: IgnoreMatch, decode: Decoder)
    requires k in m
  {
    && base < k && m[k].File? && glob(pattern, true, k[|base|..])
    && !(ignorePatterns != [] && ignored(ignorePatterns, RelString(k[|base|..])))
    && ContentMatches(m[k].data, content, decode)
  }

  function SearchPaths(m: Tree, base: Path, pattern: string, content: Option<string>,
                       ignorePatterns: seq<string>, glob: Glob, ignored: IgnoreMatch, decode: Decoder): set<Path>
  {
    set k | k in m && SearchHit(m, base, k, pattern, content, ignorePatterns, glob, ignored, decode)
  }

  /** Every infos of a search names a file with all the properties of a hit. */
  lemma SearchResultsAreHits(m: Tree, base: Path, pattern: string, content: Option<string>,
                             ignorePatterns: seq<string>, glob: Glob, ignored: IgnoreMatch, decode: Decoder,
                             x: FileInfo)
    requires x in InfosOf(m, SearchPaths(m, base, pattern, content, ignorePatterns, glob, ignored, decode))
    ensures x.isFile && !x.isDirectory && x.size.Some?
    ensures exists k ::
      && k in m && x == InfoOf(m, k) && base < k && glob(pattern, true, k[|base|..])
      && !(ignorePatterns != [] && ignored(ignorePatterns, RelString(k[|base|..])))
      && (content.Some? && content.value != "" ==>
            decode("utf-8", m[k].data).Decoded? && Contains(decode("utf-8", m[k].data).text, content.value))
  {
    var k :| k in SearchPaths(m, base, pattern, content, ignorePatterns, glob, ignored, decode) && x == InfoOf(m, k);
  }

  /** What get_file_info adds to the info of an entry. */
  datatype Extra = LineCount(lines: nat) | NotText | Counts(items: nat, files: nat, dirs: nat)

  datatype Detail = Detail(info: FileInfo, extra: Extra)

  function FileChildren(m: Tree, p: Path): set<Path> {
    set k | k in Children(m, p) && m[k].File?
  }

  function DirChildren(m: Tree, p: Path): set<Path> {
    set k | k in Children(m, p) && m[k].Dir?
  }

  lemma ChildKind(m: Tree, p: Path, k: Path)
    requires k in Children(m, p)
    ensures k in m
    ensures k in FileChildren(m, p) <==> m[k].File?
    ensures k in DirChildren(m, p) <==> m[k].Dir?
  {
  }

  /** get_file_info: the lines of a file that decodes as UTF-8, or the number
      of entries, files and directories directly inside a directory. */
  function DetailOf(m: Tree, p: Path, decode: Decoder): Result<Detail, FsError> {
    if p !in m then Err(NotFound)
    else
      var extra :=
        if m[p].File? then
          match decode("utf-8", m[p].data)
          case Decoded(text) => LineCount(|Lines(text)|)
          case _ => NotText
        else Counts(|Children(m, p)|, |FileChildren(m, p)|, |DirChildren(m, p)|);
      Ok(Detail(InfoOf(m, p), extra))
  }

  /** Every entry of a directory is a file or a directory, never both, so
      the counts add up. */
  lemma InfoCountsAddUp(m: Tree, p: Path, decode: Decoder)
    requires DetailOf(m, p, decode).Ok? && DetailOf(m, p, decode).value.extra.Counts?
    ensures var c := DetailOf(m, p, decode).value.extra;
      c.items == c.files + c.dirs
  {
    var fs, ds := FileChildren(m, p), DirChildren(m, p);
    assert Children(m, p) == fs + ds;
    assert fs * ds == {};
  }

  /** read_file and get_file_info count lines differently: read_file counts
      one more than the newlines, get_file_info counts the lines iteration
      yields, so the two agree only when the text ends without a newline. */
  lemma ReadAndInfoLines(m: Tree, p: Path, guessType: MimeGuess, decode: Decoder)
    requires p in m && m[p].File? && decode("utf-8", m[p].data).Decoded?
    requires !IsBinaryMime(guessType(Render(p)))
    ensures var text := decode("utf-8", m[p].data).text;
      var r := ReadOutcome(m, p, Some("utf-8"), guessType, decode);
      var d := DetailOf(m, p, decode);
      && r.Ok? && r.value.TextRead? && d.Ok? && d.value.extra.LineCount?
      && r.value.lines == d.value.extra.lines + (if text == [] || text[|text| - 1] == '\n' then 1 else 0)
  {
    LinesOfText(decode("utf-8", m[p].data).text);
  }
}
