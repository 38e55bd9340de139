/** The operations of file_operations.py as methods of a filesystem object
    whose entries they change in place. Every method is tied to the function
    in FsSpec that says what it does. */
module FileOperations {
  import opened Outcomes
  import opened Paths
  import opened Base64
  import opened Text
  import opened FsTree
  import opened FsSpec

  /** Taking `k` off the entries still to visit adds it to the visited part of `s` when it is in `s`. */
  lemma Uncount<K>(s: set<K>, remaining: set<K>, k: K)
    requires k in remaining
    ensures |s - (remaining - {k})| == |s - remaining| + (if k in s then 1 else 0)
  {
    if k in s {
      assert s - (remaining - {k}) == (s - remaining) + {k};
    } else {
      assert s - (remaining - {k}) == s - remaining;
    }
  }

  class FileSystem {
    var entries: Tree

    predicate Valid()
      reads this
    {
      WellFormed(entries)
    }

    /** A filesystem holding only its root directory. */
    constructor ()
      ensures Valid() && entries == map[[] := Dir]
    {
      assert forall k: Path :: k in map[[] := Dir] ==> k == [];
      entries := map[[] := Dir];
    }

    /** read_file. */
    method ReadFile(p: Path, encoding: Option<string>, guessType: MimeGuess, decode: Decoder)
      returns (r: Result<ReadResult, FsError>)
      ensures r == ReadOutcome(entries, p, encoding, guessType, decode)
      ensures r.Err? <==>
        (|| p !in entries || entries[p].Dir?
         || (!IsBinaryMime(guessType(Render(p))) && decode(OrDefault(encoding, "utf-8"), entries[p].data).UnknownCodec?))
      ensures r.Err? ==>
        r.error == (if p !in entries then NotFound else if entries[p].Dir? then NotAFile else UnknownEncoding)
      ensures r.Ok? ==> (r.value.BinaryRead? <==>
        IsBinaryMime(guessType(Render(p))) || decode(OrDefault(encoding, "utf-8"), entries[p].data).Undecodable?)
      ensures r.Ok? && r.value.TextRead? ==>
        && r.value.encoding == OrDefault(encoding, "utf-8")
        && decode(r.value.encoding, entries[p].data) == Decoded(r.value.content)
        && r.value.lines == Count(r.value.content, "\n") + 1
        && r.value.mimeType == OrDefault(guessType(Render(p)), "text/plain")
      ensures r.Ok? && r.value.BinaryRead? ==>
        && r.value.content == Encode(entries[p].data)
        && DecodeStrict(r.value.content) == Some(entries[p].data)
        && r.value.size == |entries[p].data|
        && r.value.mimeType == if IsBinaryMime(guessType(Render(p))) then guessType(Render(p)).value
                               else "application/octet-stream"
    {
      if p !in entries {
        return Err(NotFound);
      }
      if !entries[p].File? {
        return Err(NotAFile);
      }
      ReadBinary(entries, p, encoding, guessType, decode);
      var data := entries[p].data;
      var mime := guessType(Render(p));
      if IsBinaryMime(mime) {
        return Ok(BinaryRead(Encode(data), mime.value, |data|));
      }
      var codec := OrDefault(encoding, "utf-8");
      var decoded := decode(codec, data);
      if decoded.UnknownCodec? {
        // LookupError is not caught
        return Err(UnknownEncoding);
      }
      if decoded.Undecodable? {
        // UnicodeDecodeError: fall back to a binary read
        return Ok(BinaryRead(Encode(data), "application/octet-stream", |data|));
      }
      var text := decoded.text;
      return Ok(TextRead(text, OrDefault(mime, "text/plain"), codec, Count(text, "\n") + 1));
    }

    /** write_file. */
    method WriteFile(p: Path, content: string, encoding: string, createDirs: bool, encode: Encoder)
      returns (r: Result<WriteResult, FsError>)
      requires Valid()
      modifies this
      ensures Valid()
      ensures var o := WriteOutcome(old(entries), p, content, encoding, createDirs, encode);
        entries == o.after && r == o.result
    {
      if createDirs && Parent(p) !in entries {
        var made := MkdirAll(entries, Parent(p));
        if made.Err? {
          return Err(made.error);
        }
        entries := made.value;
      }
      var payload := DetectBinary(content);
      var written := OpenAndWrite(entries, p, if payload.Some? then payload.value else []);
      if written.Err? {
        return Err(written.error);
      }
      entries := written.value;
      if payload.Some? {
        return Ok(WriteResult(Render(p), |payload.value|, p !in entries, true));
      }
      var bytes := encode(encoding, content);
      if bytes.None? {
        return Err(EncodeFailed);
      }
      AddFile(entries, p, bytes.value);
      entries := entries[p := File(bytes.value)];
      return Ok(WriteResult(Render(p), |bytes.value|, p !in entries, false));
    }

    /** edit_file. */
    method EditFile(p: Path, search: string, replace: string, encoding: string,
                    decode: Decoder, encode: Encoder)
      returns (r: Result<EditResult, FsError>)
      requires Valid()
      modifies this
      ensures Valid()
      ensures var o := EditOutcome(old(entries), p, search, replace, encoding, decode, encode);
        entries == o.after && r == o.result
    {
      if p !in entries {
        return Err(NotFound);
      }
      if !entries[p].File? {
        return Err(NotAFile);
      }
      var decoded := decode(encoding, entries[p].data);
      if decoded.UnknownCodec? {
        return Err(UnknownEncoding);
      }
      if decoded.Undecodable? {
        return Err(DecodeFailed);
      }
      var text := decoded.text;
      var count := Count(text, search);
      if count == 0 {
        return Ok(EditResult(Render(p), 0));
      }
      var newText := Replace(text, search, replace);
      var bytes := encode(encoding, newText);
      EditKeepsShape(entries, p, if bytes.Some? then bytes.value else []);
      if bytes.None? {
        entries := entries[p := File([])];
        return Err(EncodeFailed);
      }
      entries := entries[p := File(bytes.value)];
      return Ok(EditResult(Render(p), count));
    }

    /** create_directory. */
    method CreateDirectory(p: Path, parents: bool) returns (r: Result<CreateResult, FsError>)
      requires Valid()
      modifies this
      ensures Valid()
      ensures var o := CreateDirectoryOutcome(old(entries), p, parents);
        entries == o.after && r == o.result
    {
      if p in entries {
        if entries[p].Dir? {
          return Ok(CreateResult(Render(p), false));
        }
        return Err(NotADirectory);
      }
      var made := if parents then MkdirAll(entries, p) else MkdirOne(entries, p);
      if made.Err? {
        return Err(made.error);
      }
      entries := made.value;
      return Ok(CreateResult(Render(p), true));
    }

    /** move_file. */
    method MoveFile(src: Path, dst: Path, overwrite: bool) returns (r: Result<MoveResult, FsError>)
      requires Valid()
      modifies this
      ensures Valid()
      ensures var o := MoveOutcome(old(entries), src, dst, overwrite);
        entries == o.after && r == o.result
    {
      MoveWellFormed(entries, src, dst, overwrite);
      if src !in entries {
        return Err(NotFound);
      }
      if dst in entries && !overwrite {
        return Err(AlreadyExists);
      }
      var target := MoveTarget(entries, src, dst);
      var moved := ShutilMove(entries, src, target);
      if moved.Err? {
        return Err(moved.error);
      }
      entries := moved.value;
      return Ok(MoveResult(Render(src), Render(target)));
    }

    /** delete_path. */
    method DeletePath(p: Path, recursive: bool) returns (r: Result<DeleteResult, FsError>)
      requires Valid()
      modifies this
      ensures Valid()
      ensures var o := DeleteOutcome(old(entries), p, recursive);
        entries == o.after && r == o.result
    {
      DeleteWellFormed(entries, p, recursive);
      if p !in entries {
        return Err(NotFound);
      }
      if entries[p].File? {
        entries := entries - {p};
        return Ok(DeleteResult(Render(p), false));
      }
      if recursive {
        if p == [] {
          // rmtree removes everything inside the root, then fails on the root itself
          entries := map[[] := Dir];
          return Err(Busy);
        }
        entries := RemoveTree(entries, p);
        return Ok(DeleteResult(Render(p), true));
      }
      if p == [] || Children(entries, p) != {} {
        return Err(DirectoryNotEmpty);
      }
      entries := entries - {p};
      return Ok(DeleteResult(Render(p), true));
    }

    /** list_directory: the infos of what the glob yields, sorted with
        directories first and then by name. */
    method ListDirectory(p: Path, recursive: bool, pattern: Option<string>, glob: Glob)
      returns (r: Result<seq<FileInfo>, FsError>)
      ensures ListError(entries, p).Some? ==> r == Err(ListError(entries, p).value)
      ensures ListError(entries, p).None? ==>
        && r.Ok? && SortedByKey(r.value)
        && |r.value| == |ListedPaths(entries, p, recursive, pattern, glob)|
        && forall x :: x in r.value <==> x in InfosOf(entries, ListedPaths(entries, p, recursive, pattern, glob))
    {
      if p !in entries {
        return Err(NotFound);
      }
      if !entries[p].Dir? {
        return Err(NotADirectory);
      }
      var selected := ListedPaths(entries, p, recursive, pattern, glob);
      var remaining := selected;
      var items: seq<FileInfo> := [];
      while remaining != {}
        invariant remaining <= selected
        invariant |items| + |remaining| == |selected|
        invariant forall x :: x in items <==> x in InfosOf(entries, selected - remaining)
        decreases |remaining|
      {
        var k :| k in remaining;
        InfosOfInsert(entries, selected - remaining, k);
        assert (selected - remaining) + {k} == selected - (remaining - {k});
        items := items + [InfoOf(entries, k)];
        remaining := remaining - {k};
      }
      assert selected - remaining == selected;
      var sorted := SortByKey(items);
      assert forall x :: x in sorted <==> x in items by {
        forall x ensures x in sorted <==> x in items {
          assert x in sorted <==> x in multiset(sorted);
          assert x in items <==> x in multiset(items);
        }
      }
      return Ok(sorted);
    }

    /** The tests search_files applies to one path `rglob` yields. */
    method Accepts(base: Path, k: Path, pattern: string, content: Option<string>, ignorePatterns: seq<string>,
                   glob: Glob, ignored: IgnoreMatch, decode: Decoder) returns (b: bool)
      requires k in entries && base < k && glob(pattern, true, k[|base|..])
      ensures b <==> SearchHit(entries, base, k, pattern, content, ignorePatterns, glob, ignored, decode)
    {
      if !entries[k].File? {
        return false;
      }
      if ignorePatterns != [] && ignored(ignorePatterns, RelString(k[|base|..])) {
        return false;
      }
      if content.Some? && content.value != "" {
        var text := decode("utf-8", entries[k].data);
        if !text.Decoded? || !Contains(text.text, content.value) {
          return false;
        }
      }
      return true;
    }

    /** search_files: the infos of the files below `base` that `rglob(pattern)`
        yields, the ignore patterns do not match, and that hold `content`. */
    method SearchFiles(base: Path, pattern: string, content: Option<string>, ignorePatterns: seq<string>,
                       glob: Glob, ignored: IgnoreMatch, decode: Decoder)
      returns (r: Result<seq<FileInfo>, FsError>)
      ensures base !in entries ==> r == Err(NotFound)
      ensures base in entries ==>
        var hits := SearchPaths(entries, base, pattern, content, ignorePatterns, glob, ignored, decode);
        && r.Ok? && |r.value| == |hits|
        && forall x :: x in r.value <==> x in InfosOf(entries, hits)
    {
      if base !in entries {
        return Err(NotFound);
      }
      var yielded := set k | k in entries && base < k && glob(pattern, true, k[|base|..]);
      var remaining := yielded;
      var matches: seq<FileInfo> := [];
      ghost var hits: set<Path> := {};
      while remaining != {}
        invariant remaining <= yielded
        invariant hits <= yielded - remaining
        invariant forall k :: k in yielded - remaining ==>
          (k in hits <==> SearchHit(entries, base, k, pattern, content, ignorePatterns, glob, ignored, decode))
        invariant |matches| == |hits|
        invariant forall x :: x in matches <==> x in InfosOf(entries, hits)
        decreases |remaining|
      {
        var k :| k in remaining;
        remaining := remaining - {k};
        var hit := Accepts(base, k, pattern, content, ignorePatterns, glob, ignored, decode);
        if hit {
          InfosOfInsert(entries, hits, k);
          hits := hits + {k};
          matches := matches + [InfoOf(entries, k)];
        }
      }
      assert hits == SearchPaths(entries, base, pattern, content, ignorePatterns, glob, ignored, decode);
      return Ok(matches);
    }

    /** `sum(1 for _ in f)`: the lines iteration over a text yields, the
        last one counted even without a newline. */
    static method CountLines(text: string) returns (lines: nat)
      ensures lines == |Lines(text)|
    {
      var newlines := 0;
      var i := 0;
      while i < |text|
        invariant 0 <= i <= |text|
        invariant newlines == Count(text[..i], "\n")
      {
        CountNewlinesSnoc(text[..i], text[i]);
        assert text[..i + 1] == text[..i] + [text[i]];
        if text[i] == '\n' {
          newlines := newlines + 1;
        }
        i := i + 1;
      }
      assert text[..i] == text;
      lines := if |text| > 0 && text[|text| - 1] != '\n' then newlines + 1 else newlines;
      LinesOfText(text);
    }

    /** The files and the directories among the entries of directory `p`. */
    method CountKinds(p: Path) returns (files: nat, dirs: nat)
      ensures files == |FileChildren(entries, p)| && dirs == |DirChildren(entries, p)|
    {
      var m := entries;
      var items := Children(m, p);
      var remaining := items;
      ghost var fs, ds := FileChildren(m, p), DirChildren(m, p);
      files, dirs := 0, 0;
      while remaining != {}
        invariant remaining <= items
        invariant files == |fs - remaining|
        invariant dirs == |ds - remaining|
        decreases |remaining|
      {
        var k :| k in remaining;
        ChildKind(m, p, k);
        Uncount(fs, remaining, k);
        Uncount(ds, remaining, k);
        if m[k].File? {
          files := files + 1;
        } else {
          dirs := dirs + 1;
        }
        remaining := remaining - {k};
      }
      assert fs - remaining == fs && ds - remaining == ds;
    }

    /** get_file_info: the info of an entry, with the lines of a text file,
        or the entries of a directory counted by kind. */
    method GetFileInfo(p: Path, decode: Decoder) returns (r: Result<Detail, FsError>)
      ensures r == DetailOf(entries, p, decode)
    {
      if p !in entries {
        return Err(NotFound);
      }
      var info := InfoOf(entries, p);
      if entries[p].File? {
        var decoded := decode("utf-8", entries[p].data);
        if !decoded.Decoded? {
          return Ok(Detail(info, NotText));
        }
        var lines := CountLines(decoded.text);
        return Ok(Detail(info, LineCount(lines)));
      }
      var files, dirs := CountKinds(p);
      return Ok(Detail(info, Counts(|Children(entries, p)|, files, dirs)));
    }
  }
}
