/**
 * The file system as the downloader sees it: a map from path to file record
 * and a set of directories, together with the primitives the downloader
 * calls (`Path.mkdir(parents=True, exist_ok=True)`, writing a file,
 * `Path.unlink()`, listing a directory), the ones the zip reader calls
 * (`os.makedirs`, `os.mkdir`), and the extraction of a zip archive's entries
 * into a destination directory (`ZipFile.extract` applied to each entry in
 * turn). A primitive that fails reports the OS error it raises instead of
 * changing anything.
 */
module FileSystem {
  import opened Wrappers
  import opened PyStrings

  /** A path as its list of components, relative to the file system's root `[]`. */
  type Path = seq<string>

  /**
   * Whether a member's data can be read: intact, damaged (a bad local header,
   * which the zip reader reports as `BadZipFile`), or encrypted (opening it
   * without a password raises `RuntimeError` with the reader's text).
   */
  datatype MemberState = Intact | Damaged | Encrypted(reason: string)

  /**
   * One member of a zip archive's directory: its name, its uncompressed size,
   * whether it is a directory, and whether its data can be read.
   */
  datatype ZipEntry = ZipEntry(name: Path, size: nat, isDir: bool, state: MemberState)

  /**
   * A regular file: its size in bytes, its modification time in whole
   * seconds, and the member list a zip reader finds in it (None when the
   * bytes are not a readable zip archive).
   */
  datatype FileRecord = FileRecord(size: nat, mtime: int, zip: Option<seq<ZipEntry>>)

  datatype Disk = Disk(files: map<Path, FileRecord>, dirs: set<Path>)

  datatype OsError =
    | FileExists(path: Path)
    | NotADirectory(path: Path)
    | IsADirectory(path: Path)
    | FileNotFound(path: Path)

  datatype Result<T> = Ok(value: T) | Err(error: OsError)

  /** What extracting one member can raise: an OS error, `BadZipFile`, or the `RuntimeError` (with its text) for an encrypted member. */
  datatype MemberError = OsFailure(os: OsError) | BadMember | EncryptedMember(reason: string)

  /** A path written out from the root, as `/a/b`. */
  function PathText(p: Path): string {
    if p == [] then "/" else "/" + Join(p, "/")
  }

  /** The text of the raised error, as `str(e)` renders an `OSError`. */
  function ErrorText(e: OsError): string {
    match e
    case FileExists(p) => "[Errno 17] File exists: '" + PathText(p) + "'"
    case NotADirectory(p) => "[Errno 20] Not a directory: '" + PathText(p) + "'"
    case IsADirectory(p) => "[Errno 21] Is a directory: '" + PathText(p) + "'"
    case FileNotFound(p) => "[Errno 2] No such file or directory: '" + PathText(p) + "'"
  }

  function Parent(p: Path): Path {
    if p == [] then [] else p[..|p| - 1]
  }

  /** The path and all its ancestors. */
  function Prefixes(p: Path): set<Path> {
    set i | 0 <= i <= |p| :: p[..i]
  }

  /** The members of `Prefixes(p)` are exactly the prefixes of `p`. */
  lemma PrefixesAreAncestors(p: Path)
    ensures forall q :: q in Prefixes(p) <==> q <= p
  {
    forall q | q <= p ensures q in Prefixes(p) {
      assert q == p[..|q|];
    }
  }

  /** `Path.exists()`: a file or a directory is there. */
  predicate Exists(d: Disk, p: Path) {
    p in d.files || p in d.dirs
  }

  /** `any(dir.iterdir())`: something lies directly inside `dir`. */
  predicate HasChild(d: Disk, dir: Path) {
    exists c | c in d.files.Keys + d.dirs :: c != [] && Parent(c) == dir
  }

  /** Something lies directly inside `dir` exactly when some path is `dir` plus one component. */
  lemma HasChildIff(d: Disk, dir: Path)
    ensures HasChild(d, dir) <==> exists c :: c in d.files.Keys + d.dirs && |c| == |dir| + 1 && c[..|dir|] == dir
  {
  }

  /**
   * A well-formed tree: the root is a directory, nothing is both a file and
   * a directory, and everything but the root sits in a directory.
   */
  ghost predicate Valid(d: Disk) {
    && [] in d.dirs
    && d.files.Keys !! d.dirs
    && (forall p :: p in d.files ==> p != [] && Parent(p) in d.dirs)
    && (forall p :: p in d.dirs && p != [] ==> Parent(p) in d.dirs)
  }

  /** The error for a path that is missing: an ancestor being a file, or plainly not there. */
  function MissingError(d: Disk, p: Path): OsError {
    if exists i :: 0 <= i < |p| && p[..i] in d.files then NotADirectory(p) else FileNotFound(p)
  }

  /**
   * `Path.mkdir(parents=True, exist_ok=True)`: fails when the path or one of
   * its ancestors is a file; the lookup of the path itself reports the error.
   */
  function MkDirs(d: Disk, p: Path): (r: Result<Disk>)
    ensures r.Ok? ==> r.value.files == d.files && d.dirs <= r.value.dirs && p in r.value.dirs
    ensures r.Ok? ==> forall q :: q in r.value.dirs ==> q in d.dirs || q <= p
    ensures r.Err? ==> r.error == FileExists(p) || r.error == NotADirectory(p)
  {
    assert p == p[..|p|];
    if exists i :: 0 <= i <= |p| && p[..i] in d.files then
      Err(if p in d.files then FileExists(p) else NotADirectory(p))
    else
      Ok(Disk(d.files, d.dirs + Prefixes(p)))
  }

  /** The length of the shortest prefix of `p`, from `i` on, that is a file. */
  function FirstFilePrefix(d: Disk, p: Path, i: nat): (r: Option<nat>)
    requires i <= |p|
    decreases |p| - i
    ensures r.Some? ==> i <= r.value <= |p| && p[..r.value] in d.files
    ensures r.Some? ==> forall j :: i <= j < r.value ==> p[..j] !in d.files
    ensures r.None? <==> forall j :: i <= j <= |p| ==> p[..j] !in d.files
  {
    if p[..i] in d.files then Some(i)
    else if i == |p| then None
    else FirstFilePrefix(d, p, i + 1)
  }

  /**
   * `os.makedirs(p)`: creates the missing directories from the top down, so
   * when an ancestor is a file, the component just below it is the one whose
   * creation fails.
   */
  function MakeDirs(d: Disk, p: Path): (r: Result<Disk>)
    ensures r.Ok? ==> r.value.files == d.files && d.dirs <= r.value.dirs && p in r.value.dirs
    // the directory whose creation fails is the path itself or one of its ancestors
    ensures r.Err? ==> (r.error.FileExists? || r.error.NotADirectory?) && r.error.path <= p
  {
    assert p == p[..|p|];
    match FirstFilePrefix(d, p, 0)
    case None => Ok(Disk(d.files, d.dirs + Prefixes(p)))
    case Some(i) => Err(if i == |p| then FileExists(p) else NotADirectory(p[..i + 1]))
  }

  /** `os.mkdir(p)`: needs the parent directory, refuses an existing path. */
  function MkDir(d: Disk, p: Path): Result<Disk> {
    if p in d.files || p in d.dirs then Err(FileExists(p))
    else if p == [] || Parent(p) !in d.dirs then Err(MissingError(d, p))
    else Ok(Disk(d.files, d.dirs + {p}))
  }

  /** Writing a file (creating or truncating it): needs its directory, and refuses a directory. */
  function Write(d: Disk, p: Path, rec: FileRecord): Result<Disk> {
    if p in d.dirs then Err(IsADirectory(p))
    else if p == [] || Parent(p) !in d.dirs then Err(MissingError(d, p))
    else Ok(Disk(d.files[p := rec], d.dirs))
  }

  /** `Path.unlink()`: removes a file; a directory or a missing path raises. */
  function Unlink(d: Disk, p: Path): Result<Disk> {
    if p in d.files then Ok(Disk(d.files - {p}, d.dirs))
    else if p in d.dirs then Err(IsADirectory(p))
    else Err(MissingError(d, p))
  }

  /**
   * `ZipFile.extract(entry, dest)`: when the target's parent does not exist
   * it is created with `os.makedirs`; then a directory entry becomes a
   * directory (`os.mkdir`, unless one is there), and a file entry is opened
   * for reading, which fails for a damaged or encrypted member, and written
   * out as a file of the entry's size (not itself read as zip). Returns the
   * disk as it is afterwards and the error, if one was raised.
   */
  function ExtractEntry(d: Disk, dest: Path, e: ZipEntry, now: int): (r: (Disk, Option<MemberError>))
    // a read error comes only from an unreadable file member, with the reader's own text for an encrypted one
    ensures r.1.Some? && r.1.value.BadMember? ==> !e.isDir && e.state == Damaged
    ensures r.1.Some? && r.1.value.EncryptedMember? ==> !e.isDir && e.state == Encrypted(r.1.value.reason)
    // the member is opened before its target: once the parent is there, an unreadable file member always raises
    ensures !e.isDir && e.state != Intact && Exists(d, Parent(dest + e.name)) ==> r.1.Some? && !r.1.value.OsFailure?
  {
    var target := dest + e.name;
    match MakeParent(d, target)
    case Err(x) => (d, Some(OsFailure(x)))
    case Ok(d1) =>
      if e.isDir then
        if target in d1.dirs then (d1, None)
        else
          match MkDir(d1, target)
          case Ok(d2) => (d2, None)
          case Err(x) => (d1, Some(OsFailure(x)))
      else if e.state == Damaged then (d1, Some(BadMember))
      else if e.state.Encrypted? then (d1, Some(EncryptedMember(e.state.reason)))
      else
        match Write(d1, target, FileRecord(e.size, now, None))
        case Ok(d2) => (d2, None)
        case Err(x) => (d1, Some(OsFailure(x)))
  }

  /** `if not os.path.exists(dirname(target)): os.makedirs(dirname(target))`. */
  function MakeParent(d: Disk, target: Path): (r: Result<Disk>)
    // an existing parent, even a file, is left alone and never fails here
    ensures r.Err? ==> !Exists(d, Parent(target))
    ensures r.Ok? ==> r.value.files == d.files && d.dirs <= r.value.dirs && Exists(r.value, Parent(target))
  {
    if Exists(d, Parent(target)) then Ok(d) else MakeDirs(d, Parent(target))
  }

  /** Extracting the entries one after the other, stopping at the first error. */
  function ExtractAll(d: Disk, dest: Path, entries: seq<ZipEntry>, now: int): (r: (Disk, Option<MemberError>))
    decreases |entries|
    // a run that raised nothing met only readable file members
    ensures r.1.None? ==> forall k :: 0 <= k < |entries| && !entries[k].isDir ==> entries[k].state == Intact
    // a read error was raised by some unreadable file member of the list
    ensures r.1.Some? && !r.1.value.OsFailure? ==>
      exists k :: 0 <= k < |entries| && !entries[k].isDir && entries[k].state != Intact
  {
    if entries == [] then (d, None)
    else
      Then(ExtractAll(d, dest, entries[..|entries| - 1], now), dest, entries[|entries| - 1], now)
  }

  /** One more entry after a run of extraction: nothing once an error was raised. */
  function Then(r: (Disk, Option<MemberError>), dest: Path, e: ZipEntry, now: int): (Disk, Option<MemberError>) {
    if r.1.Some? then r else ExtractEntry(r.0, dest, e, now)
  }

  /** `sum(file.file_size for file in entries)`. */
  function TotalSize(entries: seq<ZipEntry>): (r: nat)
    decreases |entries|
    ensures forall k :: 0 <= k < |entries| ==> entries[k].size <= r
  {
    if entries == [] then 0 else TotalSize(entries[..|entries| - 1]) + entries[|entries| - 1].size
  }

  // ---------------------------------------------------------------------
  // Properties of the primitives

  /** Every ancestor of something on a well-formed disk is a directory. */
  lemma {:induction false} AncestorsAreDirs(d: Disk, p: Path, k: nat)
    requires Valid(d) && Exists(d, p) && k < |p|
    ensures p[..k] in d.dirs
    decreases |p| - k
  {
    var q := Parent(p);
    assert q in d.dirs;
    if k < |q| {
      AncestorsAreDirs(d, q, k);
      assert q[..k] == p[..k];
    }
  }

  /** A successful `mkdir` keeps the disk well-formed, creates the path and its ancestors, and touches no file. */
  lemma MkDirsValid(d: Disk, p: Path)
    requires Valid(d) && MkDirs(d, p).Ok?
    ensures var d1 := MkDirs(d, p).value;
      && Valid(d1) && d1.files == d.files && d1.dirs == d.dirs + Prefixes(p) && p in d1.dirs
  {
    var d1 := MkDirs(d, p).value;
    assert p == p[..|p|];
    forall q | q in d1.dirs && q != [] ensures Parent(q) in d1.dirs {
      if q in Prefixes(p) {
        var i :| 0 <= i <= |p| && q == p[..i];
        assert Parent(q) == p[..i - 1];
      }
    }
    assert [] == p[..0];
    forall q | q in Prefixes(p) ensures q !in d.files {
      var i :| 0 <= i <= |p| && q == p[..i];
    }
  }

  /** On a well-formed disk `mkdir` fails exactly when the path or an ancestor is a file. */
  lemma MkDirsFails(d: Disk, p: Path)
    requires Valid(d)
    ensures MkDirs(d, p).Err? <==> exists i :: 0 <= i <= |p| && p[..i] in d.files
    ensures p in d.dirs ==> MkDirs(d, p) == Ok(d)
  {
    if p in d.dirs {
      forall i | 0 <= i <= |p| ensures p[..i] !in d.files && p[..i] in d.dirs {
        if i < |p| { AncestorsAreDirs(d, p, i); } else { assert p[..i] == p; }
      }
      assert d.dirs + Prefixes(p) == d.dirs;
    }
  }

  /** A successful write keeps the disk well-formed and changes that one file only. */
  lemma WriteValid(d: Disk, p: Path, rec: FileRecord)
    requires Valid(d) && Write(d, p, rec).Ok?
    ensures var d1 := Write(d, p, rec).value;
      && Valid(d1) && d1.dirs == d.dirs && d1.files.Keys == d.files.Keys + {p} && d1.files[p] == rec
      && (forall q :: q in d.files && q != p ==> d1.files[q] == d.files[q])
  {
  }

  /** A successful unlink keeps the disk well-formed and removes that one file only. */
  lemma UnlinkValid(d: Disk, p: Path)
    requires Valid(d) && Unlink(d, p).Ok?
    ensures var d1 := Unlink(d, p).value;
      && Valid(d1) && p in d.files && d1.dirs == d.dirs && d1.files.Keys == d.files.Keys - {p}
      && (forall q :: q in d1.files ==> d1.files[q] == d.files[q])
  {
  }

  /** `os.makedirs` succeeds exactly when `Path.mkdir(parents=True, exist_ok=True)` does, creating the same directories. */
  lemma MakeDirsAgrees(d: Disk, p: Path)
    ensures MakeDirs(d, p).Ok? <==> MkDirs(d, p).Ok?
    ensures MakeDirs(d, p).Ok? ==> MakeDirs(d, p) == MkDirs(d, p)
  {
    if MakeDirs(d, p).Err? {
      var i := FirstFilePrefix(d, p, 0).value;
      assert 0 <= i <= |p| && p[..i] in d.files;
    }
  }

  /** A successful `os.mkdir` keeps the disk well-formed and adds that one directory. */
  lemma MkDirValid(d: Disk, p: Path)
    requires Valid(d) && MkDir(d, p).Ok?
    ensures var d1 := MkDir(d, p).value;
      Valid(d1) && d1.files == d.files && d1.dirs == d.dirs + {p} && p !in d.dirs
  {
  }

  /**
   * Making a member's missing parent changes no file, leaves the parent in
   * place, and adds only the parent and its ancestors as directories.
   */
  lemma MakeParentFrame(d: Disk, target: Path)
    requires MakeParent(d, target).Ok?
    ensures var d1 := MakeParent(d, target).value;
      && d1.files == d.files && d.dirs <= d1.dirs && Exists(d1, Parent(target))
      && (forall q :: q in d1.dirs ==> q in d.dirs || q <= Parent(target))
  {
    var upper := Parent(target);
    if !Exists(d, upper) {
      MakeDirsAgrees(d, upper);
      assert upper == upper[..|upper|];
      forall q | q in Prefixes(upper) ensures q <= upper {
        var i :| 0 <= i <= |upper| && q == upper[..i];
      }
    }
  }

  /** Making a member's missing parent keeps the disk well-formed. */
  lemma MakeParentValid(d: Disk, target: Path)
    requires Valid(d) && MakeParent(d, target).Ok?
    ensures Valid(MakeParent(d, target).value)
  {
    var upper := Parent(target);
    if !Exists(d, upper) {
      MakeDirsAgrees(d, upper);
      MkDirsValid(d, upper);
    }
  }

  /** A prefix of a member target's parent is a prefix of the destination or lies under it. */
  lemma BelowOrAbove(q: Path, dest: Path, name: Path)
    requires q <= Parent(dest + name)
    ensures q <= dest || dest <= q
  {
    var t := dest + name;
    if |q| <= |dest| {
      assert q == t[..|q|] == dest[..|q|];
    } else {
      assert dest == t[..|dest|] == q[..|dest|];
    }
  }

  // ---------------------------------------------------------------------
  // Properties of extraction

  lemma ExtractEntryValid(d: Disk, dest: Path, e: ZipEntry, now: int)
    requires Valid(d)
    ensures Valid(ExtractEntry(d, dest, e, now).0)
  {
    var target := dest + e.name;
    if MakeParent(d, target).Ok? {
      MakeParentValid(d, target);
      var d1 := MakeParent(d, target).value;
      if e.isDir {
        if target !in d1.dirs && MkDir(d1, target).Ok? { MkDirValid(d1, target); }
      } else if e.state == Intact && Write(d1, target, FileRecord(e.size, now, None)).Ok? {
        WriteValid(d1, target, FileRecord(e.size, now, None));
      }
    }
  }

  /** Extraction keeps the disk well-formed, whether it stops early or not. */
  lemma {:induction false} ExtractAllValid(d: Disk, dest: Path, entries: seq<ZipEntry>, now: int)
    requires Valid(d)
    ensures Valid(ExtractAll(d, dest, entries, now).0)
    decreases |entries|
  {
    if entries != [] {
      var init := entries[..|entries| - 1];
      ExtractAllValid(d, dest, init, now);
      var (d1, err) := ExtractAll(d, dest, init, now);
      if err.None? { ExtractEntryValid(d1, dest, entries[|entries| - 1], now); }
    }
  }

  /**
   * Extracting one entry removes nothing and touches no file outside the
   * destination directory.
   */
  lemma ExtractEntryFrame(d: Disk, dest: Path, e: ZipEntry, now: int)
    ensures var d1 := ExtractEntry(d, dest, e, now).0;
      && d.files.Keys <= d1.files.Keys && d.dirs <= d1.dirs
      && (forall p :: p in d1.files ==> p in d.files || dest <= p)
      && (forall p :: p in d.files && !(dest <= p) ==> d1.files[p] == d.files[p])
      && (forall q :: q in d1.dirs ==> q in d.dirs || q <= dest || dest <= q)
  {
    var target := dest + e.name;
    if MakeParent(d, target).Ok? {
      MakeParentFrame(d, target);
      var d1 := MakeParent(d, target).value;
      forall q | q in d1.dirs ensures q in d.dirs || q <= dest || dest <= q {
        if q !in d.dirs { BelowOrAbove(q, dest, e.name); }
      }
    }
  }

  /**
   * Extraction removes nothing, never changes a file outside the destination
   * directory, and all the files it adds lie under the destination; the
   * directories it adds are the destination's ancestors or lie under it.
   */
  lemma {:induction false} ExtractAllFrame(d: Disk, dest: Path, entries: seq<ZipEntry>, now: int)
    ensures var d1 := ExtractAll(d, dest, entries, now).0;
      && d.files.Keys <= d1.files.Keys && d.dirs <= d1.dirs
      && (forall p :: p in d1.files ==> p in d.files || dest <= p)
      && (forall p :: p in d.files && !(dest <= p) ==> d1.files[p] == d.files[p])
      && (forall q :: q in d1.dirs ==> q in d.dirs || q <= dest || dest <= q)
    decreases |entries|
  {
    if entries != [] {
      var init := entries[..|entries| - 1];
      ExtractAllFrame(d, dest, init, now);
      var (d1, err) := ExtractAll(d, dest, init, now);
      if err.None? { ExtractEntryFrame(d1, dest, entries[|entries| - 1], now); }
    }
  }

  /**
   * Extracting one entry changes no file but its target; when it raises
   * nothing, the target has the entry's kind, and a file target holds the
   * entry's size stamped `now` and came from a readable member.
   */
  lemma ExtractEntryPlaces(d: Disk, dest: Path, e: ZipEntry, now: int)
    ensures var (d1, err) := ExtractEntry(d, dest, e, now);
      && d.dirs <= d1.dirs
      && (forall p :: p in d.files && p != dest + e.name ==> p in d1.files && d1.files[p] == d.files[p])
      && (e.isDir ==> d1.files == d.files)
      && (err.None? && e.isDir ==> dest + e.name in d1.dirs)
      && (err.None? && !e.isDir ==>
            && e.state == Intact && dest + e.name in d1.files
            && d1.files[dest + e.name] == FileRecord(e.size, now, None))
  {
    if MakeParent(d, dest + e.name).Ok? { MakeParentFrame(d, dest + e.name); }
  }

  /** Once a prefix of the entries raises, the rest are never extracted. */
  lemma {:induction false} ExtractAllStops(d: Disk, dest: Path, entries: seq<ZipEntry>, now: int, n: nat)
    requires n <= |entries| && ExtractAll(d, dest, entries[..n], now).1.Some?
    ensures ExtractAll(d, dest, entries, now) == ExtractAll(d, dest, entries[..n], now)
    decreases |entries| - n
  {
    if n < |entries| {
      var m := |entries| - 1;
      assert entries[..m][..n] == entries[..n];
      ExtractAllStops(d, dest, entries[..m], now, n);
      assert ExtractAll(d, dest, entries[..m], now).1.Some?;
    } else {
      assert entries[..n] == entries;
    }
  }

  /**
   * Entry `k` is in place on `d1`: a directory entry is a directory, a file
   * entry is a file from a readable member, holding the entry's size stamped
   * `now` when no later entry has the same name.
   */
  ghost predicate EntryPlaced(d1: Disk, dest: Path, entries: seq<ZipEntry>, now: int, k: nat)
    requires k < |entries|
  {
    && (entries[k].isDir ==> dest + entries[k].name in d1.dirs)
    && (!entries[k].isDir ==> dest + entries[k].name in d1.files && entries[k].state == Intact)
    && (!entries[k].isDir && (forall j :: k < j < |entries| ==> entries[j].name != entries[k].name) ==>
          d1.files[dest + entries[k].name] == FileRecord(entries[k].size, now, None))
  }

  /** An entry placed before the last one stays placed when the last one changes only its own target. */
  lemma EntryPlacedStep(d0: Disk, d1: Disk, dest: Path, entries: seq<ZipEntry>, now: int, k: nat)
    requires k < |entries| - 1
    requires EntryPlaced(d0, dest, entries[..|entries| - 1], now, k)
    requires d0.dirs <= d1.dirs
    requires forall p :: p in d0.files && (entries[|entries| - 1].isDir || p != dest + entries[|entries| - 1].name) ==>
      p in d1.files && d1.files[p] == d0.files[p]
    requires !entries[|entries| - 1].isDir ==> dest + entries[|entries| - 1].name in d1.files
    ensures EntryPlaced(d1, dest, entries, now, k)
  {
    var n := |entries| - 1;
    var init := entries[..n];
    var last := entries[n];
    assert init[k] == entries[k];
    if !entries[k].isDir && last.name != entries[k].name {
      assert (dest + last.name)[|dest|..] == last.name;
      assert (dest + entries[k].name)[|dest|..] == entries[k].name;
    }
    if !entries[k].isDir && (forall j :: k < j < |entries| ==> entries[j].name != entries[k].name) {
      forall j | k < j < |init| ensures init[j].name != init[k].name {
        assert init[j] == entries[j];
      }
    }
  }

  /**
   * After an extraction that raised nothing, every directory entry is a
   * directory under the destination, every file entry a file there, and a
   * file holds the size of the last entry of that name, stamped `now`; and
   * every file entry was readable.
   */
  lemma {:induction false} ExtractAllPlaces(d: Disk, dest: Path, entries: seq<ZipEntry>, now: int)
    requires ExtractAll(d, dest, entries, now).1.None?
    ensures forall k :: 0 <= k < |entries| ==> EntryPlaced(ExtractAll(d, dest, entries, now).0, dest, entries, now, k)
    decreases |entries|
  {
    if entries != [] {
      var n := |entries| - 1;
      var init := entries[..n];
      var r0 := ExtractAll(d, dest, init, now);
      assert ExtractAll(d, dest, entries, now) == Then(r0, dest, entries[n], now);
      assert r0.1.None?;
      var d1 := ExtractEntry(r0.0, dest, entries[n], now).0;
      ExtractAllPlaces(d, dest, init, now);
      ExtractEntryPlaces(r0.0, dest, entries[n], now);
      forall k | 0 <= k < |entries| ensures EntryPlaced(d1, dest, entries, now, k) {
        if k < n {
          EntryPlacedStep(r0.0, d1, dest, entries, now, k);
        }
      }
    }
  }

  /**
   * After an extraction that raised nothing, the destination directory has
   * something in it as soon as one entry has a non-empty name.
   */
  lemma ExtractAllNonEmpty(d: Disk, dest: Path, entries: seq<ZipEntry>, now: int, k: nat)
    requires Valid(d) && dest in d.dirs
    requires ExtractAll(d, dest, entries, now).1.None?
    requires k < |entries| && entries[k].name != []
    ensures HasChild(ExtractAll(d, dest, entries, now).0, dest)
  {
    var d1 := ExtractAll(d, dest, entries, now).0;
    ExtractAllValid(d, dest, entries, now);
    ExtractAllPlaces(d, dest, entries, now);
    var t := dest + entries[k].name;
    assert EntryPlaced(d1, dest, entries, now, k);
    assert Exists(d1, t);
    var c := t[..|dest| + 1];
    if |t| == |dest| + 1 {
      assert c == t;
    } else {
      AncestorsAreDirs(d1, t, |dest| + 1);
    }
    assert c in d1.files.Keys + d1.dirs && c != [] && Parent(c) == dest;
  }

  /**
   * Extracting onto a disk where every entry's target already has the right
   * kind (a directory for a directory entry, a file for a readable file
   * entry) raises nothing and creates nothing new: files are only overwritten.
   */
  lemma {:induction false} ReExtractPrefix(d1: Disk, dest: Path, entries: seq<ZipEntry>, now: int, k: nat)
    requires Valid(d1) && k <= |entries|
    requires forall j :: 0 <= j < |entries| ==>
      && (entries[j].isDir ==> dest + entries[j].name in d1.dirs)
      && (!entries[j].isDir ==> dest + entries[j].name in d1.files && entries[j].state == Intact)
    ensures var (s, err) := ExtractAll(d1, dest, entries[..k], now);
      err.None? && s.dirs == d1.dirs && s.files.Keys == d1.files.Keys
    decreases k
  {
    if k > 0 {
      var init := entries[..k - 1];
      assert entries[..k][..k - 1] == init;
      ReExtractPrefix(d1, dest, entries, now, k - 1);
      ExtractAllValid(d1, dest, init, now);
      var (s, err) := ExtractAll(d1, dest, init, now);
      var e := entries[k - 1];
      var target := dest + e.name;
      assert Exists(s, Parent(target));
      assert ExtractEntry(s, dest, e, now).1.None?;
    }
  }

  /** Extracting the same entries again onto the result of a clean extraction raises nothing. */
  lemma ReExtractSucceeds(d: Disk, dest: Path, entries: seq<ZipEntry>, now: int, later: int)
    requires Valid(d) && ExtractAll(d, dest, entries, now).1.None?
    ensures var d1 := ExtractAll(d, dest, entries, now).0;
      var (d2, err) := ExtractAll(d1, dest, entries, later);
      err.None? && d2.dirs == d1.dirs && d2.files.Keys == d1.files.Keys
  {
    var d1 := ExtractAll(d, dest, entries, now).0;
    ExtractAllValid(d, dest, entries, now);
    ExtractAllPlaces(d, dest, entries, now);
    forall j | 0 <= j < |entries|
      ensures entries[j].isDir ==> dest + entries[j].name in d1.dirs
      ensures !entries[j].isDir ==> dest + entries[j].name in d1.files && entries[j].state == Intact
    {
      assert EntryPlaced(d1, dest, entries, now, j);
    }
    ReExtractPrefix(d1, dest, entries, later, |entries|);
    assert entries[..|entries|] == entries;
  }
}
