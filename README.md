# GDriveDownloader, modelled in Dafny

This project models the download → validate → extract pipeline of
`GDriveDownloader` (`utils/gdrive_downloader.py`) and proves properties of it.
The pipeline has these parts:

- **Link resolution.** A Google Drive share link of the `.../file/d/<id>/...` or
  `...id=<id>&...` shape is rewritten into `https://drive.google.com/uc?id=<id>`.
  A Drive link of neither shape is refused. Every other URL is used as it is.
- **Archive classification.** A MIME type counts as an archive when it is
  listed by one of five families: zip, tar, gzip, 7z and rar.
- **`download`.** Makes the output's parent directory, then keeps an existing
  output unless forced. Otherwise it resolves the link and runs one transfer.
  It then checks the transfer's report, the presence and size of the file,
  and (optionally) its archive type.
- **`extract`.** Works through an ordered series of checks: the archive exists,
  it is named as an archive, it opens as a zip. It then extracts the members,
  checks that the destination is non-empty, and optionally removes the archive.
- **`download_and_extract`.** Runs both through a temporary archive
  `cache_dir/temp_<seconds>.zip`. It removes that archive when extraction fails.
  It tags each failure with its phase.
- **`cleanup_cache`.** Sweeps the `*.*` entries of the cache directory that are
  older than a threshold.

Files:

- `wrappers.dfy`: `Option`.
- `pystrings.dfy`: Python's `pat in s` and `s.split(sep)`, built on a
  first-occurrence search. It proves `sep.join(s.split(sep)) == s` and
  characterises the pieces of a split.
- `archive_types.dfy`: the `MIME_TYPES` table, `_is_compressed_file`, and
  `_get_mime_type`. The last one combines two oracles: the extension table and
  the metadata probe.
- `links.dfy`: the link resolution inside `download`.
- `filesystem.dfy`: the file system as a value. It holds a map from path to
  file record (size, whole-second mtime, and the member list a zip reader
  would find) and a set of directories. The body also has:
  - the primitives the code calls: `Path.mkdir(parents=True, exist_ok=True)`,
    writing a file, `unlink`, and `iterdir`;
  - the primitives `ZipFile.extract` calls: `os.makedirs` for a missing
    parent and `os.mkdir` for a directory member;
  - for each zip member, whether its data can be read: intact, damaged (the
    reader raises `BadZipFile`) or encrypted (the reader raises
    `RuntimeError`);
  - extraction of a member list as a fold of `ZipFile.extract` that stops at
    the first error;
  - a well-formedness invariant (the disk is a tree) that every step preserves.
- `downloader.dfy`: the class `GDriveDownloader`. Its fields are:
  - the cache directory;
  - the two MIME oracles;
  - the disk, which its methods change step by step.

  The methods are `Download`, `Extract` (with its tail `Unpack` and its member
  loop `ExtractMembers`), `DownloadAndExtract` and `CleanupCache`. The transfer
  (`gdown.download`) is a per-call parameter. It says what happens for a given
  URL: the transfer returns a truthy or falsy value and may leave a file, or it
  raises. Clocks are per-call integers.

How the operations are stated:

- `download`, `extract` and `download_and_extract` each have a specification
  function of the starting disk: `DownloadOn`, `ExtractOn` (with `UnpackOn`)
  and `PipelineOn`. It returns the result and the disk afterwards. Its
  `ensures` say:
  - what success means;
  - which messages can come back: the fixed failure messages, or the
    generic handler's prefix followed by an error's text (which branch gives
    which message is stated by `Download` and `Extract`, below);
  - which files and directories can change.
- `PipelineOn` also says, phase by phase, that a failure carries that phase's
  tag followed by that phase's own message. After a download failure its
  result and disk are exactly those given by `DownloadOn`'s message and disk.
- Each method's `ensures` says that its result and new disk equal those of
  its function applied to the old disk.
- `Download` and `Extract` also list, branch by branch in source order, the
  result and the new disk.
- `DownloadAndExtract` is characterised through `PipelineOn` and the lemmas
  about it.
- `ExtractMembers` and `CleanupCache` state their loops' outcome directly.

## Behaviour of the code worth knowing

- `download_and_extract` cleans up only after an *extraction* failure. A
  file the transfer left at the temporary path stays there after a
  download-phase failure: the disk is exactly the one `download` left.
  An example is the 0-byte file behind "Downloaded file is empty or missing"
  (`FailedDownloadKeepsTemp`, `EmptyDownloadStays`).
- The id is cut with `split(marker)[1]`, which also stops at a *second*
  occurrence of the marker. For `.../file/d/ABCfile/d/x` the id is `ABC`,
  not `ABCfile`. `FileShape` and `IdShape` state this. `FileShapeSingleMarker`
  and `IdShapeSingleMarker` say that with a single marker the id runs to the
  next `/` (or `&`).
- `cleanup_cache` compares strictly (`age > max_age_days*86400`). So even
  with `max_age_days=0`, a file whose age is 0 seconds is kept.
- `download` passes the local output path to `_get_mime_type`, which probes
  whatever it is given. For a local path the probe raises and gives None.
  The model keeps the probe as an oracle on paths.
- `extract` checks that the destination is non-empty *before* removing the
  archive. Suppose the archive lies directly in the destination and the zip
  has no members. Then `extract` succeeds and leaves the destination empty.
  The contracts of `ExtractOn` and `PipelineOn` allow for this.
- `download_and_extract` has no handler of its own. When its clean-up
  `unlink` hits a directory at the temporary path, the error escapes. This is
  modelled as `PipelineOutcome.Uncaught`.
- A member that raises stops the extraction, and the members already
  extracted stay. A failed `download_and_extract` still leaves those files
  under the extraction directory.

## Model

| member | source | states |
|---|---|---|
| `PyStrings.FindFrom` | utils/gdrive_downloader.py:124-128 | the search behind `in` and `split` returns the first index at or after the start where the pattern occurs, or none when it occurs nowhere from there |
| `PyStrings.Find` | utils/gdrive_downloader.py:124-128 | the first occurrence of a pattern: it occurs there and at no earlier index, or it occurs nowhere |
| `PyStrings.ContainsIff` | utils/gdrive_downloader.py:124-127 | `pat in s` holds exactly when the pattern occurs at some index |
| `PyStrings.Cut` | utils/gdrive_downloader.py:126-128 | `s.split(sep)[0]` is a prefix of `s` without `sep` in it; when `s` contains `sep` it ends exactly where the first occurrence of `sep` begins; otherwise it is all of `s` |
| `PyStrings.After` | utils/gdrive_downloader.py:126-128 | `s` is the text before the first `sep`, then `sep`, then the result |
| `PyStrings.Split` | utils/gdrive_downloader.py:126-128 | `s.split(sep)` has a first piece equal to the text before the first `sep`, has more than one piece exactly when `s` contains `sep`, and no piece contains `sep` |
| `PyStrings.SplitUnfold` | utils/gdrive_downloader.py:126-128 | the split of a text containing the separator is its first piece followed by the split of the text after the separator |
| `PyStrings.JoinSplit` | utils/gdrive_downloader.py:126-128 | joining the pieces of a split with the separator gives back the original text |
| `PyStrings.JoinCons` | utils/gdrive_downloader.py:126-128 | joining a head and a non-empty tail puts exactly one separator between them |
| `PyStrings.SplitSecond` | utils/gdrive_downloader.py:126-128 | `s.split(sep)[1]` exists when `s` contains `sep` and is the text after the first `sep` up to the next one |
| `LinkResolver.FileId` | utils/gdrive_downloader.py:125-130 | an id is found exactly when the link contains `file/d/` or `id=` |
| `LinkResolver.ResolveDownloadUrl` | utils/gdrive_downloader.py:124-134 | the link is refused exactly when it names `drive.google.com` without a `file/d/` or `id=` part; a link without `drive.google.com` is returned unchanged |
| `LinkResolver.FileShape` | utils/gdrive_downloader.py:124-132 | a Drive link with `file/d/` resolves to `https://drive.google.com/uc?id=` plus the text after the first `file/d/`, cut at the next `file/d/`, then at the next `/`; this shape wins over `id=`; the id has no `/` and is a prefix of the text after the marker |
| `LinkResolver.FileShapeSingleMarker` | utils/gdrive_downloader.py:125-126 | without a second `file/d/`, the id is the text after `file/d/` up to the next `/` |
| `LinkResolver.IdShape` | utils/gdrive_downloader.py:127-132 | a Drive link with `id=` and no `file/d/` resolves to the direct URL of the text after the first `id=`, cut at the next `id=`, then at the next `&`; the id has no `&` |
| `LinkResolver.IdShapeSingleMarker` | utils/gdrive_downloader.py:127-128 | without a second `id=`, the id is the text after `id=` up to the first `&` or the end |
| `ArchiveTypes.InSomeFamily` | utils/gdrive_downloader.py:90-93 | `any(mime in v for v in MIME_TYPES.values())` holds exactly when some family lists the type |
| `ArchiveTypes.IsCompressedFile` | utils/gdrive_downloader.py:87-93 | false for no type; otherwise true exactly when the type is one of the seven MIME strings of the five families (so false for the empty string and for `text/plain`) |
| `ArchiveTypes.FamilyIsUnique` | utils/gdrive_downloader.py:21-27 | no MIME type is listed by two families of the table |
| `ArchiveTypes.GetMimeType` | utils/gdrive_downloader.py:64-75 | a non-empty guess from the name is returned as it is; the probe's answer is returned exactly when the guess is missing or empty; so an archive verdict on the result is the guess's or the probe's |
| `FileSystem.PrefixesAreAncestors` | utils/gdrive_downloader.py:116 | the directories `mkdir(parents=True)` creates are exactly the path and its ancestors |
| `FileSystem.MkDirs` | utils/gdrive_downloader.py:116 | `mkdir(parents=True, exist_ok=True)`: on success no file changes, no directory goes, the path is a directory, and every new directory is the path or an ancestor; a failure is `FileExists` or `NotADirectory` on the path itself |
| `FileSystem.MkDirsValid` | utils/gdrive_downloader.py:116 | a successful `mkdir(parents=True, exist_ok=True)` keeps the disk a tree, creates the path and all its ancestors, and changes no file |
| `FileSystem.MkDirsFails` | utils/gdrive_downloader.py:116 | on a tree, `mkdir` fails exactly when the path or an ancestor is a file, and is a no-op on an existing directory |
| `FileSystem.HasChildIff` | utils/gdrive_downloader.py:202 | `any(extract_path.iterdir())` holds exactly when some file or directory sits one component below the directory |
| `FileSystem.WriteValid` | utils/gdrive_downloader.py:138 | a file written where its directory exists keeps the disk a tree, adds or replaces only that file with the written record, and changes no directory |
| `FileSystem.UnlinkValid` | utils/gdrive_downloader.py:207 | removing a path succeeds only for a file, keeps the disk a tree, removes only that file, and changes no other file or directory |
| `FileSystem.MakeDirs` | utils/gdrive_downloader.py:197 | `os.makedirs` inside `ZipFile.extract`: on success no file changes, no directory goes, and the path is a directory; a failure is `FileExists` or `NotADirectory` on the path or one of its ancestors |
| `FileSystem.MakeDirsAgrees` | utils/gdrive_downloader.py:197 | `os.makedirs` inside `ZipFile.extract` succeeds exactly when `mkdir(parents=True, exist_ok=True)` does, and then creates the same directories |
| `FileSystem.MkDirValid` | utils/gdrive_downloader.py:197 | a successful `os.mkdir` for a directory member keeps the disk a tree, adds just that directory, which was not there before, and changes no file |
| `FileSystem.MakeParent` | utils/gdrive_downloader.py:197 | the parent step of `ZipFile.extract`: a parent that exists, even as a file, is left alone and never fails there; on success no file changes, no directory goes, and the parent exists |
| `FileSystem.MakeParentFrame` | utils/gdrive_downloader.py:197 | making a member's missing parent changes no file, removes no directory, leaves the parent in place, and adds only the parent and its ancestors |
| `FileSystem.MakeParentValid` | utils/gdrive_downloader.py:197 | making a member's missing parent keeps the disk a tree |
| `FileSystem.ExtractEntry` | utils/gdrive_downloader.py:197 | `ZipFile.extract` of one member: `BadZipFile` comes only from a damaged file member, the encrypted-member error only from an encrypted one (carrying the reader's text); the member is opened before its target, so once the parent exists an unreadable file member always raises one of these |
| `FileSystem.ExtractEntryValid` | utils/gdrive_downloader.py:197 | extracting one member keeps the disk a tree, whether it raises or not |
| `FileSystem.ExtractEntryFrame` | utils/gdrive_downloader.py:197 | extracting one member removes nothing, changes or adds files only under the destination, and adds only directories that are the destination's ancestors or lie under it |
| `FileSystem.ExtractEntryPlaces` | utils/gdrive_downloader.py:197 | extracting one member changes no file but its target (none for a directory member); when it raises nothing, a directory member is a directory, and a file member was readable and is a file of its size stamped with the extraction time |
| `FileSystem.ExtractAll` | utils/gdrive_downloader.py:196-199 | the member loop: a run that raised nothing met only readable file members; a `BadZipFile` or encrypted-member error was raised by some unreadable file member of the list |
| `FileSystem.TotalSize` | utils/gdrive_downloader.py:192 | `sum(file.file_size for file in zf.filelist)` is at least the size of every member |
| `FileSystem.ExtractAllValid` | utils/gdrive_downloader.py:196-199 | extracting the member list keeps the disk a tree, including when it stops early |
| `FileSystem.ExtractAllFrame` | utils/gdrive_downloader.py:196-199 | extraction removes nothing, never changes a file outside the destination, adds files only under it, and adds only directories that are the destination's ancestors or lie under it |
| `FileSystem.ExtractAllStops` | utils/gdrive_downloader.py:196-199 | once a member raises, the rest of the list is not extracted: the outcome is that of the prefix |
| `FileSystem.ExtractAllPlaces` | utils/gdrive_downloader.py:196-199 | after an extraction without error, every directory member is a directory under the destination; every file member was readable and is a file there; a file holds the size of the last member of that name |
| `FileSystem.ExtractAllNonEmpty` | utils/gdrive_downloader.py:196-203 | an extraction without error of a list with a member of non-empty name leaves the destination non-empty |
| `FileSystem.ReExtractPrefix` | utils/gdrive_downloader.py:196-199 | extracting onto a disk where every member's target already has the right kind (and every file member is readable) raises nothing and creates no new path |
| `FileSystem.ReExtractSucceeds` | utils/gdrive_downloader.py:191-199 | extracting the same archive again onto a populated destination raises nothing and only overwrites files |
| `Downloader.NatText` | utils/gdrive_downloader.py:240 | the decimal text of the clock reading is never empty |
| `Downloader.TempName` | utils/gdrive_downloader.py:240 | the temporary archive name starts with `temp_`, ends with `.zip`, and holds a dot |
| `Downloader.NatTextInjective` | utils/gdrive_downloader.py:240 | different clock readings have different decimal texts |
| `Downloader.TempNameInjective` | utils/gdrive_downloader.py:240 | two runs share a temporary archive name exactly when they read the same second |
| `Downloader.PhaseTagsDistinct` | utils/gdrive_downloader.py:251-267 | the "Download phase failed: " and "Extraction phase failed: " tags and the success message never pass for one another |
| `Downloader.Expired` | utils/gdrive_downloader.py:274 | with a non-negative age limit, a file modified at the current time or later is never old enough to remove |
| `Downloader.MemberFailure` | utils/gdrive_downloader.py:212-216 | a member error is a failure and never the success message; it gives "Invalid or corrupted zip file" exactly when it is a `BadZipFile`; any other error gives "Extraction failed: " and its text, the reader's own for an encrypted member |
| `Downloader.GDriveDownloader.Verdict` | utils/gdrive_downloader.py:140-152 | the checks after the transfer succeed exactly when the transfer reported success, a non-empty file is at the output, and (when validating) its MIME type is an archive type; success is "Download successful"; failure is "Download failed", "Downloaded file is empty or missing" or "Downloaded file is not a compressed archive", and only the last carries a MIME type |
| `Downloader.GDriveDownloader.DownloadOn` | utils/gdrive_downloader.py:114-156 | `download` keeps the disk a tree; the transfer is made exactly when the parent directory can be made, the output may be replaced, and the link resolves, and then with the resolved URL; a file the transfer wrote is in place afterwards; success means the output exists and, unless it already existed, is non-empty and of archive type when validating; the messages are the two success ones, the four fixed failures, or "Download failed: " and an error's text; only the output and its ancestors change |
| `Downloader.GDriveDownloader.UnpackOn` | utils/gdrive_downloader.py:191-210 | after the archive opens: success exactly when the message is "Extraction successful"; a failure is "Invalid or corrupted zip file", "No files found after extraction" or "Extraction failed: " and an error's text; on success every member is in place, the destination is non-empty unless only the removed archive was in it, and the archive is removed exactly when asked; the removal never fails; the archive goes only on success; no file outside the destination other than the archive changes, and directories are only added, as ancestors of the destination or under it |
| `Downloader.GDriveDownloader.ExtractOn` | utils/gdrive_downloader.py:177-216 | `extract` keeps the disk a tree; a failure is "Archive file not found", "File is not a compressed archive", "Invalid or corrupted zip file", "No files found after extraction" or "Extraction failed: " and an error's text; success means the archive was a zip file named as an archive, the destination exists, every member is in place, and the archive is removed exactly when asked; the archive goes only on success; nothing outside the destination changes apart from the archive's removal |
| `Downloader.GDriveDownloader.PipelineOn` | utils/gdrive_downloader.py:239-267 | a download failure returns "Download phase failed: " plus the download's message, with exactly the disk the download left (no clean-up); an extraction failure that does not raise returns "Extraction phase failed: " plus the extraction's message and leaves no temporary archive; success returns the success message with the disk the extraction left, with the temporary archive exactly when it is kept; the clean-up raises only when the temporary path is a directory |
| `Downloader.GDriveDownloader.PipelineDownloadFrame` | utils/gdrive_downloader.py:250-251 | after a download-phase failure, no file but the temporary archive changes, and only the cache directory's ancestors can have been added as directories |
| `Downloader.GDriveDownloader.PipelineFiles` | utils/gdrive_downloader.py:239-267 | whatever the outcome, no file changes except the temporary archive and files under the extraction directory, and no other file is added |
| `Downloader.GDriveDownloader.PipelineDirs` | utils/gdrive_downloader.py:239-267 | whatever the outcome, no directory is removed, and the only directories added are ancestors of the cache or extraction directory, or lie under the extraction directory |
| `Downloader.GDriveDownloader.FailedDownloadKeepsTemp` | utils/gdrive_downloader.py:250-251 | when the transfer wrote a file and the download still fails, the pipeline returns the download-phase message and the file stays at the temporary path as written |
| `Downloader.GDriveDownloader.EmptyDownloadStays` | utils/gdrive_downloader.py:243-251 | a transfer that reports success but writes 0 bytes makes the pipeline fail with "Download phase failed: Downloaded file is empty or missing", and the empty temporary archive stays |
| `Downloader.GDriveDownloader.constructor` | utils/gdrive_downloader.py:41-42 | the cache directory exists (with its parents) once the object is built |
| `Downloader.GDriveDownloader.TempZip` | utils/gdrive_downloader.py:240 | the temporary archive lies directly in the cache directory and is among the entries the cache sweep's `*.*` pattern matches |
| `Downloader.GDriveDownloader.InCacheGlob` | utils/gdrive_downloader.py:273 | `cache_dir.glob("*.*")` yields exactly the direct children of the cache directory whose name holds a dot |
| `Downloader.GDriveDownloader.Download` | utils/gdrive_downloader.py:114-156 | result and new disk equal `DownloadOn` on the old disk; their value branch by branch in source order: mkdir error, existing file kept, "Invalid Google Drive URL format", a raising transfer, a write error, "Download failed", "Downloaded file is empty or missing", the MIME check |
| `Downloader.GDriveDownloader.ExtractMembers` | utils/gdrive_downloader.py:191-199 | the loop extracts the members in order, stops at the first error, leaves the disk the fold gives, and its `extracted` counter ends equal to the total size of all members |
| `Downloader.GDriveDownloader.Unpack` | utils/gdrive_downloader.py:191-210 | result and new disk equal `UnpackOn` on the old disk |
| `Downloader.GDriveDownloader.Extract` | utils/gdrive_downloader.py:177-216 | result and new disk equal `ExtractOn` on the old disk; their value branch by branch in source order: mkdir error, "Archive file not found", "File is not a compressed archive", an archive that is a directory, "Invalid or corrupted zip file", a member error, "No files found after extraction", success with or without removal |
| `Downloader.GDriveDownloader.DownloadAndExtract` | utils/gdrive_downloader.py:239-267 | result and new disk equal `PipelineOn` on the old disk |
| `Downloader.GDriveDownloader.CleanupCache` | utils/gdrive_downloader.py:269-278 | no directory and no kept file changes; only `*.*` entries of the cache directory older than `max_age_days*86400` seconds (strictly) are removed; when no such old directory stops the sweep, every such old file is removed; the sweep never raises |

## Left out

- `utils/memory_tracker.py`, the device-transfer guard, is not part of this model. It consists of torch/CUDA calls, garbage collection and float arithmetic.
- The transfer library (`gdown.download`), the zip reader (`zipfile.ZipFile`), `mimetypes.guess_type` and `requests.head` are not modelled inside. They are oracles: a per-call transfer outcome, a member list stored with each file, and two functions from a path to an optional MIME type. The text of the `RuntimeError` the zip reader raises for an encrypted member is part of that member's state, as the reader gives it.
- Zip member names are taken as already-sanitised component lists. The zip reader's removal of `..`, `.` and absolute prefixes is not modelled.
- Damaged members are detected when the member is opened, before its target file is created. A CRC mismatch that the zip reader only notices while copying the data would leave a partial file behind. The model does not distinguish that case.
- Extracted files carry no zip member list of their own, so an extracted zip is not itself seen as an archive.
- Logging (`_setup_logging` and the logger calls), the `tqdm` progress bar, the unused `num_threads`, `ThreadPoolExecutor`, `hashlib` and `partial`, and the `__main__` example have no effect on results and are omitted.
- The default cache directory `~/.gdrive_cache` is left out because the home directory is environment state. The cache directory is a constructor argument.
- Time is whole seconds (`now`, `clock`), so sub-second differences in `time.time()` and `st_mtime` are not modelled. Directory modification times are a parameter of the sweep. Creating a directory does not change any modification time.
- Permissions, full disks and other OS failures that the modelled primitives do not produce are left out, because the model's file system has no notion of them. The same goes for errors outside the OS-error family. The generic handlers are modelled for the errors the primitives do raise.
- Concurrency between sweeps and pipeline runs is left out, because the source implements none.
- Downloader.GDriveDownloader.Download: a directory at the output path is treated as "missing" by the size check. Python would `stat` the directory and see a non-zero size. This only matters when `force_download` is set and the transfer writes nothing.
- Downloader.GDriveDownloader.ExtractMembers: the progress bar's updates are not modelled, only the byte counter that feeds it.
- Downloader.GDriveDownloader.constructor: its `requires` excludes a cache directory that `mkdir` cannot create. In the source that error escapes `__init__` (utils/gdrive_downloader.py:42), and no object exists.
- FileSystem.ErrorText renders a path from the root. Python's `str(e)` shows the path as it was given, which may be relative.
