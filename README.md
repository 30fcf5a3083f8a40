# smbcopy, modelled in Dafny

`smbcopy.py` copies a directory tree to a destination, which may be an
`smb://` location reached through its GVFS mount. It replaces the characters
`"`, `'` and `:` in entry names by `-`, and asks the operator before each
rename. It works in two passes over the tree:

- the **scan** (`scan_directory`) asks about every entry whose own name changes
  under sanitising, and builds a rename map (original relative path to new
  relative path) and a skip list;
- the **copy** (`copy_directory`) resolves the destination root, then for
  every entry not on the skip list ensures the destination's parent directory
  exists, and copies the file (or creates the directory) at
  `dst_root / rename_map.get(rel, rel)`.

This project models the decision logic of both passes. The filesystem and the
console are abstracted:

- the walk is a given sequence of entries (relative path and kind);
- the operator's replies are a given sequence of strings;
- the user id is a parameter;
- the filesystem writes the copy would make come out as a sequence of actions,
  `EnsureDir(d)` for `os.makedirs(d, exist_ok=True)` and `CopyFile(s, d)` for
  `shutil.copy2(s, d)`.

Modules, one per part of the script:

- `Text` (`text.dfy`): the Python string operations the script relies on:
  `str.replace` with a one-character pattern, `strip`, `lower`, `rfind`,
  `rstrip`, and `"%d" % n`.
- `Paths` (`paths.dfy`): relative paths as sequences of name segments, their
  string form, and `posixpath.join` / `posixpath.dirname`.
- `Sanitizer` (`sanitizer.dfy`): `sanitize_name`. The loop over
  `INVALID_CHARS` is a method. It is proved equal to a pointwise
  character rule, and the rule's properties are lemmas.
- `Reply` (`reply.dfy`): the decision `confirm` takes from the raw reply.
- `Scanner` (`scanner.dfy`): `scan_directory`. The loop is a method proved
  against the specification function `ScanOf`, and the classification
  properties are lemmas about `ScanOf`.
- `Copier` (`copier.dfy`): the `smb://` rewrite, and `copy_directory`. The loop
  is a method proved against the action plan `CopyPlan`, and the skip,
  destination and ordering properties are lemmas about `CopyPlan`.
- `SmbCopy` (`smbcopy.dfy`): `main` after its argument checks (scan, then
  copy), the end-to-end per-entry property, and the behaviour scenarios.

The skip table is a list (`skip_list`) checked with `in`. The `smb://`
rewrite in `copy_directory` is modelled (`Copier.ResolveDestination`).

The code skips per entry, not per subtree, and the model keeps that. A file
inside a skipped directory is still copied, under the directory's original
name. The parent directory it needs is created for it. A file inside a
renamed directory is likewise written under the directory's *original* name,
because only the directory's own path is in the rename map. The lemmas
`SmbCopy.ScenarioChildOfSkippedDirectory` and
`SmbCopy.ScenarioChildOfRenamedDirectory` state both behaviours.

If the operator's input ends while a prompt is waiting, `input()` raises and
the script stops before copying anything. The model represents this as the
scan outcome `InputExhausted` and the run outcome `Aborted`.

## Model

| member | source | states |
|---|---|---|
| `Text.ReplaceCharPointwise` | smbcopy.py:13 | `str.replace` with a one-character replacement keeps the length, turns every occurrence of the pattern into the replacement and leaves every other character where it was |
| `Text.ReplaceCharAppend` | smbcopy.py:47 | `str.replace` distributes over concatenation, so every occurrence is replaced wherever it stands |
| `Text.StripStartShape` | smbcopy.py:17 | `lstrip` keeps a suffix that does not start with whitespace and drops only whitespace |
| `Text.StripEndShape` | smbcopy.py:17 | `rstrip` keeps a prefix that does not end with whitespace and drops only whitespace |
| `Text.StripIgnoresPadding` | smbcopy.py:17 | whitespace added around a reply does not change what `strip()` returns |
| `Text.StripExact` | smbcopy.py:17 | `strip()` returns exactly the text between leading and trailing whitespace |
| `Text.Lower` | smbcopy.py:17 | `lower()` keeps the length and lower-cases each character (ASCII letters) |
| `Text.RFindIsLast` | smbcopy.py:33 | the index `rfind` reports holds the searched character, and no occurrence stands after it |
| `Text.RStripDrops` | smbcopy.py:33 | `rstrip(c)` drops only a run of `c` and keeps a prefix that does not end with `c` |
| `Text.Decimal` | smbcopy.py:47 | `"%d" % uid` is a non-empty string of decimal digits without a leading zero |
| `Text.DecimalRoundTrip` | smbcopy.py:47 | reading the formatted digits back gives the user id that was formatted |
| `Paths.RenderShape` | smbcopy.py:30 | a relative path as `os.path.relpath` gives it is non-empty and neither starts nor ends with `/` |
| `Paths.DirnameRender` | smbcopy.py:33 | `os.path.dirname` of a rendered relative path is the rendered parent path |
| `Paths.RenderReplaceLeaf` | smbcopy.py:33 | replacing the last segment of a relative path renders as `os.path.join(os.path.dirname(rel), name)` |
| `Paths.DirnameOfJoin` | smbcopy.py:57-59 | the directory ensured for an entry is the root joined with the entry's parent path (the parent's own rename, if any, is not applied), or the root (without trailing `/`) for a top-level entry |
| `Paths.DirnameJoinName` | smbcopy.py:59 | `dirname` of a name joined onto a root is the root without its trailing separators |
| `Paths.JoinExtend` | smbcopy.py:57 | joining a root onto `x/name` extends the joined `x` by `/name` |
| `Sanitizer.SanitizeName` | smbcopy.py:10-14 | `sanitize_name` returns a string of the same length in which each `"`, `'` and `:` is `-` and every other character is unchanged and in place |
| `Sanitizer.ReplaceEachPointwise` | smbcopy.py:12-13 | replacing a list of characters one after the other turns each character of the list into `-` and keeps every other character |
| `Sanitizer.ReplaceEachSanitizes` | smbcopy.py:12-13 | the loop over `INVALID_CHARS` computes the pointwise sanitising rule |
| `Sanitizer.SanitizeRemovesInvalid` | smbcopy.py:7-14 | no `"`, `'` or `:` survives sanitising |
| `Sanitizer.SanitizeFixedIff` | smbcopy.py:10-14 | sanitising leaves a name unchanged if and only if it holds none of `"`, `'`, `:` |
| `Sanitizer.SanitizeIdempotent` | smbcopy.py:10-14 | sanitising twice is sanitising once |
| `Sanitizer.SanitizeKeepsSegment` | smbcopy.py:31-33 | a sanitised entry name is still a non-empty name without `/` |
| `Reply.ConfirmIff` | smbcopy.py:17-20 | a reply is accepted exactly when, trimmed, it is empty, `y` or `yes` in any mix of case; every other reply refuses |
| `Reply.ConfirmIgnoresPadding` | smbcopy.py:17 | whitespace around a reply does not change the decision |
| `Reply.ConfirmBlankIsYes` | smbcopy.py:17-19 | a blank reply takes the default, yes |
| `Scanner.ScanDirectory` | smbcopy.py:22-40 | the scan loop builds exactly the rename map and skip list of `ScanOf`, or ends when the replies run out |
| `Scanner.ScanExhaustedIff` | smbcopy.py:35 | the scan stops for lack of input exactly when the walk raises more prompts than there are replies |
| `Scanner.ExhaustedPersists` | smbcopy.py:27-35 | once the replies have run out, no later entry lets the scan recover |
| `Scanner.ScanRecordsOnlyChanged` | smbcopy.py:31-39 | every rename-map key and every skip is a path of the walk whose own name changes, and the map sends each key to its parent path with the sanitised name |
| `Scanner.ScanClassifies` | smbcopy.py:31-39 | an entry whose name changes is in the rename map if its reply accepts and on the skip list if it refuses; an entry whose name does not change is in neither |
| `Scanner.ScanTablesDisjoint` | smbcopy.py:35-39 | no path is both in the rename map and on the skip list |
| `Scanner.RenamedRender` | smbcopy.py:33 | the proposed relative path is a well-formed path that renders as `os.path.join(os.path.dirname(rel_path), new_name)` |
| `Copier.ResolveDestination` | smbcopy.py:46-47 | a destination starting with `smb://` becomes `/run/user/<uid>/gvfs/smb-share:server=` followed by the rest with every `/` spelled `,share=`; any other destination is unchanged |
| `Copier.SmbHostShare` | smbcopy.py:46-47 | `smb://host/share` resolves to `/run/user/<uid>/gvfs/smb-share:server=host,share=share` |
| `Copier.SmbMountIsOneEntry` | smbcopy.py:47 | the mount path of any `smb://` location is a single entry directly inside `/run/user/<uid>/gvfs` |
| `Copier.CopyDirectory` | smbcopy.py:42-63 | the copy loop resolves the root once and emits exactly the actions of `CopyPlan`, entry by entry in walk order |
| `Copier.SkippedEmitNothing` | smbcopy.py:52-53 | entries on the skip list contribute nothing: the plan equals the plan of the entries not skipped |
| `Copier.EntryInPlan` | smbcopy.py:52-63 | at its place in the plan, a skipped entry emits nothing; any other entry emits `EnsureDir(dirname(dest))` and then the file copy to `dest` or the directory creation of `dest`, where `dest` is the root joined with `rename_map.get(rel, rel)` |
| `Copier.CopyAfterParent` | smbcopy.py:59-61 | every file copy comes immediately after the action that ensures the directory it is written into |
| `Copier.CopiesComeFromEntries` | smbcopy.py:55-61 | every file copy in the plan is that of a file entry not skipped, read from its source path and written to its resolved destination |
| `SmbCopy.Run` | smbcopy.py:77-78 | a run scans, then copies with the scan's tables, or stops before copying when the replies run out |
| `SmbCopy.TransferAbortsIff` | smbcopy.py:35 | a run stops before copying exactly when the walk raises more prompts than there are replies |
| `SmbCopy.ScanResolves` | smbcopy.py:35-55 | after a complete scan an entry is skipped exactly when its rename was refused, and resolves to its renamed path exactly when the rename was accepted |
| `SmbCopy.TransferEntry` | smbcopy.py:27-63 | through the whole run, an entry whose rename was refused emits nothing; any other entry ensures its destination's parent and then is copied or created at the root joined with its renamed path (if accepted) or its own path |
| `SmbCopy.AcceptedNameIsClean` | smbcopy.py:31-36 | an accepted rename yields a well-formed path whose own name holds none of `"`, `'`, `:` |
| `SmbCopy.ScenarioNames` | smbcopy.py:10-14 | `c` and `x` are unchanged; `a:b.txt`, `a:b` and `d"e.txt` become `a-b.txt`, `a-b` and `d-e.txt` |
| `SmbCopy.ScenarioReplies` | smbcopy.py:17-20 | the reply `y` accepts and `n` refuses |
| `SmbCopy.ScenarioRenameAccepted` | smbcopy.py:31-63 | a clean directory beside a file whose rename is accepted: the directory is created under its own name and the file is copied under its sanitised name |
| `SmbCopy.ScenarioRenameRefused` | smbcopy.py:35-53 | a file whose rename is refused produces no action at all |
| `SmbCopy.ScenarioChildOfRenamedDirectory` | smbcopy.py:52-63 | a file inside a renamed directory is copied under the directory's original name, beside the renamed directory |
| `SmbCopy.ScenarioChildOfSkippedDirectory` | smbcopy.py:52-63 | a file inside a skipped directory is still copied, and the directory's original name is recreated as its parent |

## Left out

- The traversal by `os.walk` is not modelled. The walk is a given sequence of
  entries in the order the script visits them. Lemmas that need it assume each
  entry is a well-formed relative path (`WellFormed`) and each path appears
  once (`Distinct`).
- Both passes are given the same entry sequence. The script walks the source
  tree twice (smbcopy.py:27 and smbcopy.py:49); a change to the tree between
  or during the two walks is not modelled.
- Names are sequences of Dafny `char`, which cannot hold the lone surrogates
  `os.walk` produces for undecodable filename bytes. The claims cover
  decodable names only. The decisions are unaffected, since such characters
  are never `"`, `'`, `:` or `/`.
- Filesystem effects (`os.makedirs`, `shutil.copy2`, `os.path.isfile`,
  `os.path.isdir`) are not performed. Each entry carries the kind those tests
  would report, and the writes are emitted as actions. Byte-level copying,
  metadata preservation, and filesystem errors are outside the model: a
  failure in the real script propagates and stops the run. For the same
  reason, "copying twice leaves the destination unchanged" is not stated; it
  is a property of the filesystem, not of the plan.
- `os.makedirs("")` raises. That happens when the destination root is the
  empty string and an entry is at the top level. The model emits
  `EnsureDir("")` and leaves the outcome to the filesystem.
- Console output is not modelled: the progress headers, prompts and skip
  notices. The `input` call is replaced by the sequence of replies.
- `os.getuid()` is a parameter, and user ids are non-negative.
- `main`'s argument-count check, `sys.exit`, and the `os.path.isdir(src)`
  check are process glue and are not modelled.
- The normalisation `os.path.relpath` applies to the source root (`.`, `..`,
  repeated separators) is not modelled. Relative paths are given directly as
  sequences of segments.
- Text.Lower: models `str.lower` on the ASCII letters only and keeps every
  other character. No other character lower-cases to `y`, `e` or `s`, so the
  accept/refuse decision of `Reply.ConfirmIff` is the script's for every reply.
- Two entries whose names sanitise to the same name are not detected by the
  script, and no property is claimed about them.
