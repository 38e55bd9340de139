# Sandboxed file operations: a Dafny model

This project models the core of a file-access server. The server exposes a
directory sandbox to remote callers. The model covers three parts:

- **`PathValidator`** (path_validator.py). It resolves every caller path
  against a fixed list of allowed directories. It accepts the result only
  when one of those directories is a string prefix of it.
- **The file operations** (file_operations.py):
  - read, write and edit a file;
  - create a directory, move an entry, delete an entry;
  - list a directory, search files, describe an entry.

  They work on a filesystem of directories and byte files.
- **`check_scope`** (auth_config.py). It decides whether a token's scopes
  grant an operation.

The filesystem is a map from component paths to nodes (`FsTree.Tree`). A
node is a directory or a file with its bytes. A tree is *well formed* when
the root is a directory and every other entry sits inside a directory.

Each operation has two parts:

- a function in `FsSpec` that gives its outcome, meaning the new tree and
  the result or error;
- a method of the class `FileOperations.FileSystem` that changes its
  `entries` field in place. The method is proved to end in exactly that
  outcome and to keep the tree well formed.

The path validator follows the same split. `PathValidation.Validate` is the
specification, and the class `PathValidator` holds the configured
directories and implements the operations with their loops.

Parts of the system that the model cannot see are parameters:

- the home and environment expansion;
- whether a path exists on disk;
- the MIME guess;
- text codecs;
- glob and gitignore matching.

Every contract holds for every such oracle.

## Modules

| file | module | contents |
|---|---|---|
| outcomes.dfy | `Outcomes` | `Option`, `Result` |
| paths.dfy | `Paths` | `pathlib` parsing, lexical `..` resolution, `str()` of a path, name, parent |
| path_validator.dfy | `PathValidation` | `validate_path` as a function and as the `PathValidator` class |
| auth.dfy | `Auth` | `check_scope` |
| base64.dfy | `Base64` | standard base64 encoding, strict decoding, write_file's payload test |
| text.dfy | `Text` | `str.count`, `str.replace`, substring search, line splitting, code-point string order |
| fs_tree.dfy | `FsTree` | the filesystem map, `mkdir -p`, subtree removal, subtree relocation |
| fs_spec.dfy | `FsSpec` | the outcome of each file operation, and lemmas relating them |
| file_operations.dfy | `FileOperations` | class `FileSystem`, one method per file operation |

## Model

| member | source | states |
|---|---|---|
| PathValidation.PathValidator.constructor | path_validator.py:9-20 | one allowed directory per configured one, in order, each expanded and resolved against the working directory |
| PathValidation.ResolveRequest | path_validator.py:34-54 | the resolved path has no `.`/`..` left; resolution fails exactly when the request holds a NUL character (`resolve()` raises ValueError) or is relative with no directory configured, and the error says which |
| PathValidation.PathValidator.ResolveExpanded | path_validator.py:37-54 | the loop over the allowed directories returns what `ResolveRequest` specifies |
| PathValidation.FirstExisting | path_validator.py:43-47 | the index chosen is the first directory under which the request exists, and none before it has it |
| PathValidation.PathValidator.ValidatePath | path_validator.py:22-62 | the resolve-then-prefix-test loop returns exactly `Validate` |
| PathValidation.ValidateOutcome | path_validator.py:56-62 | an accepted path is resolved, absolute and has an allowed directory as a string prefix; a refusal is Access denied naming the request as given, the no-directories error, or the embedded-NUL error for a request holding NUL |
| PathValidation.AbsoluteIgnoresRoots | path_validator.py:38-39 | an absolute request resolves the same under any directories and any filesystem, and fails when it holds NUL |
| PathValidation.RelativeTakesFirstExisting | path_validator.py:41-47 | a relative request is joined to the first allowed directory under which it exists, unless it holds NUL |
| PathValidation.RelativeFallsBackToFirst | path_validator.py:49-52 | a relative request that exists nowhere is joined to the first allowed directory, unless it holds NUL |
| PathValidation.AcceptedIsResolved | path_validator.py:57-60 | an accepted path is exactly the resolved one, never coerced into a root |
| PathValidation.ContainedIsAccepted | path_validator.py:58-60 | whatever resolves to an allowed directory or below it, component-wise, is accepted |
| PathValidation.SiblingIsAccepted | path_validator.py:58-60 | with root `/data`, the sibling `/data-public` is accepted although it is not below the root |
| PathValidation.SlashRootAcceptsAll | path_validator.py:58-60 | with `/` allowed, a request is accepted exactly when it holds no NUL |
| PathValidation.NulIsRefused | path_validator.py:38-39 | `/data/a\0b` is refused under root `/data`, although `/data` is a string prefix of it |
| PathValidation.PathValidator.IsPathAllowed | path_validator.py:64-77 | true exactly when `validate_path` succeeds |
| PathValidation.RelativeTo | path_validator.py:94 | it succeeds exactly when path and base have the same anchor (`/` or `//`) and the base's components begin the path's; the result is relative and completes the base's components to the path's |
| PathValidation.PathValidator.GetRelativePath | path_validator.py:79-98 | the result is the path unchanged or a relative path |
| PathValidation.RelativeOfContained | path_validator.py:89-94 | below the first allowed directory, the relative path is the remaining components |
| PathValidation.RelativeOfUncontained | path_validator.py:92-98 | a path not below the given base comes back unchanged |
| PathValidation.DoubleSlashStaysAbsolute | path_validator.py:92-98 | `//data/x` is not made relative to `/data`, since pathlib keeps `//` as a root of its own |
| PathValidation.SiblingStaysAbsolute | path_validator.py:89-98 | a prefix-accepted sibling is not made relative to the root |
| Paths.PartsRender | path_validator.py:57 | parsing the `str()` of a resolved path gives back its components |
| Paths.NormalizeCanonical | path_validator.py:39 | resolving a path with no `.`/`..` leaves it unchanged |
| Paths.RenderPrefix | path_validator.py:59 | a component-wise ancestor is also a string prefix (the converse fails, see `SiblingIsAccepted`) |
| Auth.CheckScope | auth_config.py:82-92 | granted when the scope or `admin` is listed, and only then; an empty list grants nothing |
| Auth.MissingScopeRefused | auth_config.py:82-92 | a token that lists neither the required scope nor `admin` is refused |
| Auth.CheckScopeMonotone | auth_config.py:82-92 | adding scopes never withdraws a grant |
| Base64.Encode | file_operations.py:46 | output length is four characters per started group of three bytes |
| Base64.DecodeEncode | file_operations.py:46 | strict decoding of an encoding gives back the bytes |
| Base64.DetectBinary | file_operations.py:99-106 | content is a payload exactly when it is non-empty and decodes strictly, and the bytes written are the decoded ones; content with a newline is never a payload |
| Base64.DecodedIsPayload | file_operations.py:102-103 | whatever decodes strictly uses only alphabet characters and `=` |
| Base64.BinaryWriteBack | file_operations.py:99-110 | the encoding of non-empty bytes is written back as those bytes |
| Base64.NonCanonicalPayload | file_operations.py:103 | `QR==` is accepted as one byte whose canonical encoding is `QQ==` |
| Base64.PlainWordIsPayload | file_operations.py:99-110 | the plain word `test` is written as the three bytes it decodes to, not as text |
| Text.CountZeroIffAbsent | file_operations.py:209-210 | `str.count` is zero exactly when the pattern does not occur |
| Text.ReplaceLength | file_operations.py:219 | `str.replace` changes the length by the count times the length difference |
| Text.ReplaceWhenAbsent | file_operations.py:209-219 | replacing an absent pattern changes nothing |
| Text.ReplaceBySelf | file_operations.py:219 | replacing a pattern by itself changes nothing |
| Text.LinesOfText | file_operations.py:409-410 | the lines iteration yields concatenate to the text; their number is the newline count plus one for an unterminated last line |
| Text.StrLessTransitive | file_operations.py:157 | the name order of the sort key is transitive |
| Text.StrLessTotal | file_operations.py:157 | two different names are ordered one way or the other |
| FsTree.MkdirAll | file_operations.py:96 | `mkdir(parents=True, exist_ok=True)`: the target becomes a directory, nothing existing changes, only ancestors of the target are added, well-formedness is kept |
| FsTree.MkdirAllSucceeds | file_operations.py:96 | it succeeds exactly when no file lies on the way to the target |
| FsTree.RemoveTree | file_operations.py:320 | `rmtree` keeps exactly the entries outside the subtree |
| FsTree.RemoveTreeWellFormed | file_operations.py:320 | removing a non-root subtree keeps the tree well formed |
| FsTree.MoveTreeCarries | file_operations.py:287 | every entry below the source is found at the same place below the destination |
| FsTree.MoveTreeWellFormed | file_operations.py:287 | relocating a subtree into an existing directory keeps the tree well formed |
| FsSpec.ReadOutcome | file_operations.py:14-77 | a missing path, a directory, or a text read with a codec name Python does not know (`LookupError`) raises, with the right error; a text read decodes the bytes with the given or default encoding and reports newlines plus one |
| FileOperations.FileSystem.ReadFile | file_operations.py:14-77 | fails exactly for a missing path (NotFound), a directory (NotAFile), or a text read with an unknown codec name (UnknownEncoding); a text read carries the decoded content, the encoding used, the guessed MIME type or `text/plain`, and newlines plus one; a file is read as binary exactly when its MIME type is binary or it does not decode, and then carries `b64encode` of its bytes, their number, and the guessed MIME type or `application/octet-stream` |
| FsSpec.ReadBinary | file_operations.py:36-77 | reading a file fails only for an unknown codec name on a non-binary MIME type; it is read as binary exactly when its MIME type is binary or its bytes do not decode; the base64 content is the canonical encoding of its bytes and decodes back to them, the size is their number, and the MIME type is the guessed one or, on the decode fallback, `application/octet-stream` |
| FsSpec.WriteOutcome | file_operations.py:80-124 | on success the file holds the payload bytes or the encoded text, `created` is false and the byte count is the file's size; no entry other than the path changes; only the path and its ancestors are added |
| FileOperations.FileSystem.WriteFile | file_operations.py:80-124 | ends in `WriteOutcome`'s tree and result and keeps the tree well formed |
| FsSpec.WriteThenReadText | file_operations.py:80-124 | text written with a codec that reads back is read back unchanged |
| FsSpec.WriteThenReadBinary | file_operations.py:99-110 | a payload written to a binary-typed file is read back as its canonical encoding, which decodes to the same bytes |
| FsSpec.WriteEncodeFailureEmptiesFile | file_operations.py:114-117 | a text that does not encode leaves an empty file and an error |
| FsSpec.WriteRefused | file_operations.py:94-117 | writing to a directory, or under a missing parent without `create_dirs`, fails and changes nothing; a missing parent raises NotADirectoryError when a file stands above it and FileNotFoundError otherwise |
| FsSpec.WriteBelowFile | file_operations.py:114-115 | with `/a` a file, writing `/a/b/c` without `create_dirs` raises NotADirectoryError and changes nothing |
| FsSpec.EditOutcome | file_operations.py:184-229 | missing path or directory raises; the count is `str.count` of the decoded text; zero matches change nothing; otherwise the file holds the encoded replacement, or is left empty when the replacement does not encode |
| FileOperations.FileSystem.EditFile | file_operations.py:184-229 | ends in `EditOutcome`'s tree and result and keeps the tree well formed |
| FsSpec.EditThenRead | file_operations.py:209-229 | after an edit the file reads back as the replaced text, of the predicted length |
| FsSpec.CreateDirectoryOutcome | file_operations.py:232-260 | a file in the way raises; success leaves a directory, reports `created` exactly when it was absent, keeps every entry and adds only ancestors of the path |
| FileOperations.FileSystem.CreateDirectory | file_operations.py:232-260 | ends in `CreateDirectoryOutcome`'s tree and result and keeps the tree well formed |
| FsSpec.CreateDirectoryIdempotent | file_operations.py:244-250 | creating it again succeeds with `created` false and changes nothing |
| FsSpec.CreateDirectoryMissingParent | file_operations.py:254 | without `parents`, a missing parent raises NotADirectoryError when a file stands above it and FileNotFoundError otherwise, and nothing changes |
| FsSpec.CreateDirectorySucceeds | file_operations.py:244-254 | with parents it succeeds exactly when no file is on the way; without, exactly when it exists as a directory or its parent is one |
| FsSpec.MoveOutcome | file_operations.py:263-293 | a missing source, or an existing destination without overwrite, raises; every failure changes nothing |
| FileOperations.FileSystem.MoveFile | file_operations.py:263-293 | ends in `MoveOutcome`'s tree and result and keeps the tree well formed |
| FsSpec.MoveRelocates | file_operations.py:284-287 | every entry below the source is found below the landing place with the same contents |
| FsSpec.MoveEmptiesSource | file_operations.py:287 | after a real move nothing is left at or below the source |
| FsSpec.MoveKeepsOthers | file_operations.py:287 | entries outside the source and the landing place are untouched |
| FsSpec.MoveIntoDirectory | file_operations.py:284-287 | a move onto an existing directory puts the source inside it under its own name |
| FsSpec.MoveAddsOnlyLanding | file_operations.py:283-287 | a successful move adds entries only at or below where the source landed, or directories above that place |
| FsSpec.MoveLandingFromSource | file_operations.py:283-287 | every entry at or below the landing place is the entry at the same place below the source |
| FsSpec.MoveToFreeName | file_operations.py:277-293 | moving to a free name whose parent is a directory succeeds unless a directory would move into itself (InvalidMove), reports the source and that name, and lands there |
| FsSpec.MoveWellFormed | file_operations.py:263-293 | the outcome is always a well-formed tree |
| FileOperations.FileSystem.DeletePath | file_operations.py:296-335 | ends in `DeleteOutcome`'s tree and result and keeps the tree well formed |
| FsSpec.DeleteRemovesSubtree | file_operations.py:296-335 | a success removes exactly the entry and everything below it; every failure except the root `rmtree` changes nothing |
| FsSpec.DeleteSucceeds | file_operations.py:308-335 | it succeeds exactly for a file, or a non-root directory when recursive or empty |
| FsSpec.DeleteWellFormed | file_operations.py:296-335 | the outcome is always a well-formed tree |
| FsSpec.SortByKey | file_operations.py:157 | the result is sorted by (not directory, name) and is a permutation of the input |
| FileOperations.FileSystem.ListDirectory | file_operations.py:127-157 | missing path or file raises; otherwise the result is sorted, has one info per globbed entry, and holds exactly their infos |
| FileOperations.FileSystem.SearchFiles | file_operations.py:338-386 | a missing base raises; otherwise one info per hit, holding exactly the hits' infos |
| FsSpec.SearchResultsAreHits | file_operations.py:364-384 | every result is a file yielded by `rglob`, not ignored, and holding the content |
| FileOperations.FileSystem.CountLines | file_operations.py:409-411 | the loop counts exactly the lines iteration yields |
| FileOperations.FileSystem.CountKinds | file_operations.py:416-421 | the loop counts exactly the file entries and the directory entries of a directory |
| FileOperations.FileSystem.GetFileInfo | file_operations.py:389-423 | returns exactly `DetailOf`: line count or not-text for a file, entry counts for a directory |
| FsSpec.InfoCountsAddUp | file_operations.py:418-421 | the item count is the file count plus the directory count |
| FsSpec.ReadAndInfoLines | file_operations.py:65 | read_file reports one line more than get_file_info when the text is empty or ends in a newline, and the same number otherwise |

## Where the code and its own text disagree

The model follows the code in each of these cases.

- **Containment test.** The docstring of `validate_path` promises paths
  "within allowed directories" (path_validator.py:23). The code accepts a
  path when an allowed directory is a *string* prefix of it
  (path_validator.py:59). The model keeps the string test.
  `SiblingIsAccepted` shows the root `/data` accepting `/data-public`, and
  `ContainedIsAccepted` and `RenderPrefix` show that every component-wise
  descendant is still accepted.
- **`created` in write_file.** The result key `created`
  (file_operations.py:122) names whether the file was newly made. The code
  computes it as `not file_path.exists()` after the write, so it is always
  false. The
  model reports false, and `Wrote` states it.
- **Lines.** Both results carry a `lines` key. read_file counts newlines
  plus one (file_operations.py:65). get_file_info counts the lines iteration
  yields (file_operations.py:409-411). `ReadAndInfoLines` states how the two differ.

## Left out

- Symbolic links: the model has no links, so resolution is lexical `..` removal on components.
- `os.path.expanduser` and `os.path.expandvars` are a function parameter.
- Whether a path exists on disk is a predicate parameter in `validate_path`.
- MIME guessing, text codecs, glob and `rglob` matching, and gitignore matching are function parameters. `glob`/`rglob` are modelled as selecting entries strictly below the base, by pattern and relative components.
- FsSpec.WriteOutcome: an unknown encoding name makes `open(path, 'w')` truncate the file and then raise `LookupError`. The model's encoder reports this as `EncodeFailed`, the error of a text that does not encode, with the same emptied file. Reads and edits report the unknown name as `UnknownEncoding`.
- PathValidation.PathValidator.constructor: a configured directory holding a NUL character makes `__init__` raise ValueError. The model's constructor cannot fail and keeps such a directory. The NUL test of `ResolveRequest` looks only at the request.
- Universal-newline translation on text reads is part of the decoder parameter.
- Asynchronous I/O, concurrency between requests, and races between the existence checks and the operations are left out. Each operation runs atomically on one tree.
- Timestamps, permission bits and the MIME type in `_get_file_info` are left out. The info keeps the name, path, kind and size.
- `PermissionError` and other operating-system failures are left out: every entry is readable and writable. The directory-not-empty error of `rmdir` is kept.
- The messages in the result dictionaries are left out.
- The server wiring and token parsing (server.py and the rest of auth_config.py) are not part of this model.
- server.py:29 passes one directory string where a list is expected, so the constructor would iterate its characters. The model's constructor takes the sequence it iterates, and that call is not modelled.
- `base64.b64decode` without `validate` is used for the bytes written. The model uses the strict decoding throughout, since it only runs on content the strict check accepted.
- Cross-device moves (`EXDEV`) take the copy-then-delete path of `shutil.move`. The model gives it the same outcome as a rename.
- `os.rename` onto an existing empty directory is left out. move_file never renames onto an existing directory: it moves into it instead.
- Decoding follows CPython 3.11 and later, where `validate=True` checks the padding strictly.
- FileOperations.FileSystem.SearchFiles: the result order of `rglob` is the filesystem's, so the contract states the set of infos and their number, not their order.
- FileOperations.FileSystem.ListDirectory: entries with equal keys keep `rglob`'s order, so the contract states sortedness and the set of infos, not the order among ties.
- PathValidation.PathValidator.GetRelativePath: an empty `base_dir` counts as none, and the contract states the shape of the result. `RelativeOfContained` and `RelativeOfUncontained` state its value.
