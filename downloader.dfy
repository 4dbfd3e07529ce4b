/**
 * `GDriveDownloader`: download a Drive file to a path, extract a zip archive
 * into a directory, do both through a temporary archive in the cache
 * directory, and sweep old files out of the cache directory.
 *
 * The object holds the cache directory, the two MIME collaborators
 * (`mimetypes.guess_type` on a path and the `requests.head` probe, None
 * when the probe raises), and the file system its operations change. The
 * transfer (`gdown.download`) is passed to each call as what it does for a
 * given URL; clocks are passed as whole seconds.
 */
module Downloader {
  import opened Wrappers
  import opened PyStrings
  import opened ArchiveTypes
  import opened LinkResolver
  import opened FileSystem

  /**
   * What one transfer does: it returns (truthy or not) and may leave a file
   * at the output path, or it raises with the given text.
   */
  datatype Transfer = Fetched(reported: bool, written: Option<FileRecord>) | Crashed(reason: string)

  /** `(success, message, mime_type)` of `download`. */
  datatype DownloadResult = DownloadResult(success: bool, message: string, mime: Option<string>)

  /** `(success, message)` of `extract`. */
  datatype ExtractResult = ExtractResult(success: bool, message: string)

  /**
   * What `download_and_extract` does: return `(success, message)`, or let an
   * error of its own clean-up escape (it has no handler of its own).
   */
  datatype PipelineOutcome = Finished(success: bool, message: string) | Uncaught(error: OsError)

  const AlreadyExists: string := "File already exists"
  const InvalidUrl: string := "Invalid Google Drive URL format"
  const TransferFailed: string := "Download failed"
  const EmptyOrMissing: string := "Downloaded file is empty or missing"
  const DownloadNotArchive: string := "Downloaded file is not a compressed archive"
  const DownloadOk: string := "Download successful"
  const DownloadError: string := "Download failed: "
  const ArchiveNotFound: string := "Archive file not found"
  const NotArchive: string := "File is not a compressed archive"
  const CorruptZip: string := "Invalid or corrupted zip file"
  const NothingExtracted: string := "No files found after extraction"
  const ExtractOk: string := "Extraction successful"
  const ExtractError: string := "Extraction failed: "
  const DownloadPhase: string := "Download phase failed: "
  const ExtractionPhase: string := "Extraction phase failed: "
  const PipelineOk: string := "Download and extraction completed successfully"

  /** Seconds in a day, the unit of the cache retention threshold. */
  const DaySeconds: int := 86400

  // -----------------------------------------------------------------------
  // Temporary archive names

  function DigitChar(d: nat): char
    requires d < 10
  {
    ('0' as int + d) as char
  }

  /** The decimal text of a natural number, as `str(int)` writes it. */
  function NatText(n: nat): (r: string)
    decreases n
    ensures |r| >= 1
  {
    if n < 10 then [DigitChar(n)] else NatText(n / 10) + [DigitChar(n % 10)]
  }

  /** Different numbers have different decimal texts. */
  lemma {:induction false} NatTextInjective(a: nat, b: nat)
    requires NatText(a) == NatText(b)
    ensures a == b
    decreases a
  {
    if a >= 10 && b >= 10 {
      var sa, sb := NatText(a), NatText(b);
      assert sa[..|sa| - 1] == NatText(a / 10);
      assert sb[..|sb| - 1] == NatText(b / 10);
      NatTextInjective(a / 10, b / 10);
      assert sa[|sa| - 1] == DigitChar(a % 10);
    }
  }

  /** `f"temp_{int(time.time())}.zip"` for a clock reading in whole seconds. */
  function TempName(clock: nat): (r: string)
    ensures "temp_" <= r && |r| >= 10 && r[|r| - 4..] == ".zip"
    // the name holds a dot, so the cache sweep's `*.*` pattern matches it
    ensures Contains(r, ".")
  {
    var r := "temp_" + NatText(clock) + ".zip";
    assert OccursAt(r, ".", |r| - 4);
    r
  }

  /** Two runs use the same temporary name exactly when they read the same second. */
  lemma TempNameInjective(a: nat, b: nat)
    requires TempName(a) == TempName(b)
    ensures a == b
  {
    var s, t := TempName(a), TempName(b);
    assert |NatText(a)| == |NatText(b)|;
    assert s[5..|s| - 4] == NatText(a);
    assert t[5..|t| - 4] == NatText(b);
    NatTextInjective(a, b);
  }

  /** The two phase tags and the success message of `download_and_extract` never mistake one another. */
  lemma PhaseTagsDistinct(m: string)
    ensures !(ExtractionPhase <= DownloadPhase + m) && !(DownloadPhase <= ExtractionPhase + m)
    ensures !(DownloadPhase <= PipelineOk) && !(ExtractionPhase <= PipelineOk)
    ensures DownloadPhase + m != PipelineOk && ExtractionPhase + m != PipelineOk
  {
    assert (DownloadPhase + m)[0] == 'D' && (ExtractionPhase + m)[0] == 'E';
    assert (DownloadPhase + m)[9] == 'p' && PipelineOk[9] == 'a' && PipelineOk[0] == 'D';
  }

  /** `current_time - st_mtime > max_age_days * 86400`. */
  predicate Expired(now: int, mtime: int, maxAgeDays: int): (r: bool)
    // with a non-negative age limit, nothing modified at `now` or later is expired
    ensures 0 <= maxAgeDays && now <= mtime ==> !r
  {
    now - mtime > maxAgeDays * DaySeconds
  }

  /** What `download` returns, the URL it handed the transfer (None when there was no transfer), and the disk it leaves. */
  datatype DownloadRun = DownloadRun(result: DownloadResult, requested: Option<string>, disk: Disk)

  /** What `extract` returns and the disk it leaves. */
  datatype ExtractRun = ExtractRun(result: ExtractResult, disk: Disk)

  /** What `download_and_extract` does and the disk it leaves. */
  datatype PipelineRun = PipelineRun(outcome: PipelineOutcome, disk: Disk)

  /**
   * What `extract` answers to an error a member raised: `BadZipFile` has a
   * handler of its own, everything else goes to the generic one.
   */
  function MemberFailure(e: MemberError): (r: ExtractResult)
    ensures !r.success && r.message != ExtractOk
    ensures r.message == CorruptZip <==> e.BadMember?
    ensures !e.BadMember? ==> ExtractError <= r.message
    // the generic handler reports `str(e)`: the OS error's text, or the reader's own text
    ensures e.EncryptedMember? ==> r.message == ExtractError + e.reason
  {
    match e
    case BadMember => ExtractResult(false, CorruptZip)
    case OsFailure(x) =>
      var m := ExtractError + ErrorText(x);
      assert m[0] == 'E' && m[11] == 'f';
      ExtractResult(false, m)
    case EncryptedMember(reason) =>
      var m := ExtractError + reason;
      assert m[0] == 'E' && m[11] == 'f';
      ExtractResult(false, m)
  }

  class GDriveDownloader {
    const cacheDir: Path
    /** `mimetypes.guess_type(str(path))[0]`. */
    const guess: Path -> Option<string>
    /** The `content-type` the metadata probe reports for a path, None when the probe raises. */
    const probe: Path -> Option<string>
    var disk: Disk

    ghost predicate Valid()
      reads this
    {
      FileSystem.Valid(disk)
    }

    /** `__init__`: creates the cache directory with its parents (an error there escapes the constructor). */
    constructor (cacheDir: Path, guess: Path -> Option<string>, probe: Path -> Option<string>, disk: Disk)
      requires FileSystem.Valid(disk) && MkDirs(disk, cacheDir).Ok?
      ensures Valid()
      ensures this.cacheDir == cacheDir && this.guess == guess && this.probe == probe
      ensures this.disk == MkDirs(disk, cacheDir).value && cacheDir in this.disk.dirs
    {
      MkDirsValid(disk, cacheDir);
      this.cacheDir := cacheDir;
      this.guess := guess;
      this.probe := probe;
      this.disk := MkDirs(disk, cacheDir).value;
    }

    /** The temporary archive of `download_and_extract` for a clock reading. */
    function TempZip(clock: nat): (r: Path)
      ensures Parent(r) == cacheDir
      // a temporary archive left behind is among the entries the cache sweep looks at
      ensures InCacheGlob(r)
    {
      cacheDir + [TempName(clock)]
    }

    /** Cache entries `cache_dir.glob("*.*")` yields: direct children whose name holds a dot. */
    predicate InCacheGlob(p: Path): (r: bool)
      ensures r <==> p != [] && Parent(p) == cacheDir && Contains(p[|p| - 1], ".")
    {
      |p| == |cacheDir| + 1 && p[..|cacheDir|] == cacheDir && Contains(p[|cacheDir|], ".")
    }

    // -------------------------------------------------------------------
    // What each operation does, as a function of the disk it starts on

    /**
     * The checks `download` makes once the transfer has returned: its
     * report, the output's presence and size, and (when asked) its type.
     */
    function Verdict(d1: Disk, out: Path, reported: bool, validate: bool): (r: DownloadResult)
      ensures r.success <==> reported && out in d1.files && d1.files[out].size > 0
                             && (validate ==> IsCompressedFile(GetMimeType(guess, probe, out)))
      ensures r.success ==> r.message == DownloadOk
      ensures !r.success ==> r.message in {TransferFailed, EmptyOrMissing, DownloadNotArchive}
      ensures !r.success && r.message != DownloadNotArchive ==> r.mime.None?
    {
      if !reported then DownloadResult(false, TransferFailed, None)
      else if out !in d1.files || d1.files[out].size == 0 then DownloadResult(false, EmptyOrMissing, None)
      else
        var mime := GetMimeType(guess, probe, out);
        if validate && !IsCompressedFile(mime) then DownloadResult(false, DownloadNotArchive, mime)
        else DownloadResult(true, DownloadOk, mime)
    }

    /**
     * `download` on disk `d`: make the output's parent directory; keep an
     * existing output unless forced; resolve the link; transfer; check.
     */
    function DownloadOn(d: Disk, url: string, out: Path, force: bool, validate: bool, transfer: string -> Transfer)
      : (r: DownloadRun)
      requires FileSystem.Valid(d)
      ensures FileSystem.Valid(r.disk)
      // the transfer is made exactly once, with the resolved URL, when the checks before it pass
      ensures r.requested.Some? <==>
        MkDirs(d, Parent(out)).Ok? && (force || !Exists(d, out)) && ResolveDownloadUrl(url).Some?
      ensures r.requested.Some? ==> r.requested == ResolveDownloadUrl(url)
      // a file the transfer wrote is in place afterwards, whatever the checks say of it
      ensures r.requested.Some? && transfer(r.requested.value).Fetched? && transfer(r.requested.value).written.Some?
              && Write(MkDirs(d, Parent(out)).value, out, transfer(r.requested.value).written.value).Ok? ==>
        out in r.disk.files && r.disk.files[out] == transfer(r.requested.value).written.value
      // what success means
      ensures r.result.success ==> Exists(r.disk, out)
      ensures r.result.success && r.result.message != AlreadyExists ==>
        && out in r.disk.files && r.disk.files[out].size > 0
        && (validate ==> IsCompressedFile(r.result.mime))
      ensures !r.result.success && r.result.message != DownloadNotArchive ==> r.result.mime.None?
      // the messages it can give: two on success; on failure four fixed ones, or a raised error's text
      ensures r.result.success ==> r.result.message in {AlreadyExists, DownloadOk}
      ensures !r.result.success ==>
        r.result.message in {InvalidUrl, TransferFailed, EmptyOrMissing, DownloadNotArchive} || DownloadError <= r.result.message
      // only the output file and the output's ancestors can change
      ensures forall p :: p in d.files && p != out ==> p in r.disk.files && r.disk.files[p] == d.files[p]
      ensures r.disk.files.Keys <= d.files.Keys + {out}
      ensures d.dirs <= r.disk.dirs <= d.dirs + Prefixes(Parent(out))
    {
      match MkDirs(d, Parent(out))
      case Err(x) => DownloadRun(DownloadResult(false, DownloadError + ErrorText(x), None), None, d)
      case Ok(d0) =>
        MkDirsValid(d, Parent(out));
        assert out != [] ==> out !in Prefixes(Parent(out));
        if !force && Exists(d0, out) then DownloadRun(DownloadResult(true, AlreadyExists, guess(out)), None, d0)
        else
          match ResolveDownloadUrl(url)
          case None => DownloadRun(DownloadResult(false, InvalidUrl, None), None, d0)
          case Some(u) =>
            match transfer(u)
            case Crashed(reason) => DownloadRun(DownloadResult(false, DownloadError + reason, None), Some(u), d0)
            case Fetched(reported, written) =>
              var w := if written.Some? then Write(d0, out, written.value) else Ok(d0);
              if w.Err? then DownloadRun(DownloadResult(false, DownloadError + ErrorText(w.error), None), Some(u), d0)
              else
                assert FileSystem.Valid(w.value) by {
                  if written.Some? { WriteValid(d0, out, written.value); }
                }
                DownloadRun(Verdict(w.value, out, reported, validate), Some(u), w.value)
    }

    /**
     * The tail of `extract` on disk `d`, once the archive is known to hold a
     * zip: extract its members, require the destination to be non-empty,
     * and remove the archive if asked.
     */
    function UnpackOn(d: Disk, archive: Path, dest: Path, remove: bool, now: int): (r: ExtractRun)
      requires FileSystem.Valid(d) && archive in d.files && d.files[archive].zip.Some?
      ensures FileSystem.Valid(r.disk)
      // removing the archive never fails: it is still a file once the members are out
      ensures var (d1, err) := ExtractAll(d, dest, d.files[archive].zip.value, now);
        err.None? && HasChild(d1, dest) && remove ==> Unlink(d1, archive).Ok?
      ensures r.result.success <==> r.result.message == ExtractOk
      ensures !r.result.success ==> r.result.message in {CorruptZip, NothingExtracted} || ExtractError <= r.result.message
      ensures r.result.success ==>
        && (HasChild(r.disk, dest) || (remove && Parent(archive) == dest))
        && (remove ==> !Exists(r.disk, archive))
        && (!remove ==> archive in r.disk.files)
      ensures r.result.success ==>
        var members := d.files[archive].zip.value;
        forall k :: 0 <= k < |members| ==>
          && (members[k].isDir ==> dest + members[k].name in r.disk.dirs)
          && (!members[k].isDir && (!remove || dest + members[k].name != archive) ==>
                dest + members[k].name in r.disk.files)
      ensures archive !in r.disk.files ==> r.result.success && remove
      ensures forall p :: p in d.files && !(dest <= p) && p != archive ==>
        p in r.disk.files && r.disk.files[p] == d.files[p]
      ensures forall p :: p in r.disk.files ==> p in d.files || dest <= p
      ensures d.dirs <= r.disk.dirs
      ensures forall q :: q in r.disk.dirs ==> q in d.dirs || q <= dest || dest <= q
    {
      var members := d.files[archive].zip.value;
      ExtractAllValid(d, dest, members, now);
      ExtractAllFrame(d, dest, members, now);
      var (d1, err) := ExtractAll(d, dest, members, now);
      if err.Some? then ExtractRun(MemberFailure(err.value), d1)
      else
        ExtractAllPlaces(d, dest, members, now);
        assert forall k :: 0 <= k < |members| ==>
          && (members[k].isDir ==> dest + members[k].name in d1.dirs)
          && (!members[k].isDir ==> dest + members[k].name in d1.files)
        by {
          forall k | 0 <= k < |members|
            ensures members[k].isDir ==> dest + members[k].name in d1.dirs
            ensures !members[k].isDir ==> dest + members[k].name in d1.files
          {
            assert EntryPlaced(d1, dest, members, now, k);
          }
        }
        if !HasChild(d1, dest) then ExtractRun(ExtractResult(false, NothingExtracted), d1)
        else if !remove then ExtractRun(ExtractResult(true, ExtractOk), d1)
        else
          match Unlink(d1, archive)
          case Err(x) => ExtractRun(ExtractResult(false, ExtractError + ErrorText(x)), d1)
          case Ok(d2) =>
            UnlinkValid(d1, archive);
            ExtractRun(ExtractResult(true, ExtractOk), d2)
    }

    /**
     * `extract` on disk `d`: make the destination; then, in this order, the
     * archive must exist, be named as an archive, not be a directory, and
     * open as a zip; then unpack it.
     */
    function ExtractOn(d: Disk, archive: Path, dest: Path, remove: bool, now: int): (r: ExtractRun)
      requires FileSystem.Valid(d)
      ensures FileSystem.Valid(r.disk)
      ensures r.result.success <==> r.result.message == ExtractOk
      // the failure messages: four fixed ones, or a raised error's text
      ensures !r.result.success ==>
        r.result.message in {ArchiveNotFound, NotArchive, CorruptZip, NothingExtracted} || ExtractError <= r.result.message
      // what success means
      ensures r.result.success ==>
        && archive in d.files && d.files[archive].zip.Some? && IsCompressedFile(guess(archive))
        && dest in r.disk.dirs
        && (HasChild(r.disk, dest) || (remove && Parent(archive) == dest))
        && (remove ==> !Exists(r.disk, archive))
        && (!remove ==> archive in r.disk.files)
      // every member of the archive is in place afterwards
      ensures r.result.success ==>
        var members := d.files[archive].zip.value;
        forall k :: 0 <= k < |members| ==>
          && (members[k].isDir ==> dest + members[k].name in r.disk.dirs)
          && (!members[k].isDir && (!remove || dest + members[k].name != archive) ==>
                dest + members[k].name in r.disk.files)
      // the archive goes away only on success, and only when asked
      ensures archive in d.files && archive !in r.disk.files ==> r.result.success && remove
      // nothing outside the destination changes, apart from the archive's removal
      ensures forall p :: p in d.files && !(dest <= p) && p != archive ==>
        p in r.disk.files && r.disk.files[p] == d.files[p]
      ensures forall p :: p in r.disk.files ==> p in d.files || dest <= p
      ensures d.dirs <= r.disk.dirs
      ensures forall q :: q in r.disk.dirs ==> q in d.dirs || q <= dest || dest <= q
    {
      match MkDirs(d, dest)
      case Err(x) => ExtractRun(ExtractResult(false, ExtractError + ErrorText(x)), d)
      case Ok(d0) =>
        MkDirsValid(d, dest);
        PrefixesAreAncestors(dest);
        if !Exists(d0, archive) then ExtractRun(ExtractResult(false, ArchiveNotFound), d0)
        else if !IsCompressedFile(guess(archive)) then ExtractRun(ExtractResult(false, NotArchive), d0)
        else if archive in d0.dirs then ExtractRun(ExtractResult(false, ExtractError + ErrorText(IsADirectory(archive))), d0)
        else if d0.files[archive].zip.None? then ExtractRun(ExtractResult(false, CorruptZip), d0)
        else UnpackOn(d0, archive, dest, remove, now)
    }

    /**
     * `download_and_extract` on disk `d`: download to the temporary archive
     * (archive check on); on success extract it, removing it unless it is
     * kept; when extraction fails, unlink it if it still exists.
     */
    function PipelineOn(d: Disk, url: string, extractDir: Path, keepZip: bool, force: bool, clock: nat,
                        transfer: string -> Transfer, now: int): (r: PipelineRun)
      requires FileSystem.Valid(d)
      ensures FileSystem.Valid(r.disk)
      // each phase's failure carries that phase's tag and that phase's own message
      ensures var dl := DownloadOn(d, url, TempZip(clock), force, true, transfer);
        !dl.result.success ==> r == PipelineRun(Finished(false, DownloadPhase + dl.result.message), dl.disk)
      ensures var dl := DownloadOn(d, url, TempZip(clock), force, true, transfer);
        dl.result.success ==>
        var x := ExtractOn(dl.disk, TempZip(clock), extractDir, !keepZip, now);
        && (x.result.success ==> r == PipelineRun(Finished(true, PipelineOk), x.disk))
        && (!x.result.success && r.outcome.Finished? ==> r.outcome == Finished(false, ExtractionPhase + x.result.message))
      ensures r.outcome.Finished? ==> (r.outcome.success <==> r.outcome.message == PipelineOk)
      ensures r.outcome.Finished? && !r.outcome.success ==>
        DownloadPhase <= r.outcome.message || ExtractionPhase <= r.outcome.message
      // a download failure is final: no clean-up, the disk is the one the download left
      ensures r.outcome.Finished? && DownloadPhase <= r.outcome.message ==>
        r.disk == DownloadOn(d, url, TempZip(clock), force, true, transfer).disk
      // an extraction failure leaves no temporary archive behind
      ensures r.outcome.Finished? && ExtractionPhase <= r.outcome.message ==> !Exists(r.disk, TempZip(clock))
      // success leaves the archive exactly when it is to be kept
      ensures r.outcome.Finished? && r.outcome.success ==>
        && (HasChild(r.disk, extractDir) || (!keepZip && extractDir == cacheDir))
        && (keepZip ==> TempZip(clock) in r.disk.files)
        && (!keepZip ==> !Exists(r.disk, TempZip(clock)))
      // the clean-up raises only when the temporary archive is a directory
      ensures r.outcome.Uncaught? ==> r.outcome.error == IsADirectory(TempZip(clock)) && TempZip(clock) in r.disk.dirs
    {
      var temp := TempZip(clock);
      var dl := DownloadOn(d, url, temp, force, true, transfer);
      if !dl.result.success then
        PhaseTagsDistinct(dl.result.message);
        PipelineRun(Finished(false, DownloadPhase + dl.result.message), dl.disk)
      else
        var x := ExtractOn(dl.disk, temp, extractDir, !keepZip, now);
        if x.result.success then
          PhaseTagsDistinct("");
          PipelineRun(Finished(true, PipelineOk), x.disk)
        else
          PhaseTagsDistinct(x.result.message);
          if !Exists(x.disk, temp) then PipelineRun(Finished(false, ExtractionPhase + x.result.message), x.disk)
          else
            match Unlink(x.disk, temp)
            case Err(e) => PipelineRun(Uncaught(e), x.disk)
            case Ok(d3) =>
              UnlinkValid(x.disk, temp);
              PipelineRun(Finished(false, ExtractionPhase + x.result.message), d3)
    }

    /**
     * After a download failure `download_and_extract` has changed only the
     * temporary archive and the cache directory's ancestors.
     */
    lemma PipelineDownloadFrame(d: Disk, url: string, extractDir: Path, keepZip: bool, force: bool, clock: nat,
                                transfer: string -> Transfer, now: int)
      requires FileSystem.Valid(d)
      ensures var r := PipelineOn(d, url, extractDir, keepZip, force, clock, transfer, now);
        r.outcome.Finished? && DownloadPhase <= r.outcome.message ==>
        && (forall p :: p in d.files && p != TempZip(clock) ==> p in r.disk.files && r.disk.files[p] == d.files[p])
        && r.disk.files.Keys <= d.files.Keys + {TempZip(clock)}
        && d.dirs <= r.disk.dirs <= d.dirs + Prefixes(cacheDir)
    {
      assert Parent(TempZip(clock)) == cacheDir;
    }

    /**
     * Whatever its outcome, `download_and_extract` changes no file but the
     * temporary archive and those under the extraction directory.
     */
    lemma PipelineFiles(d: Disk, url: string, extractDir: Path, keepZip: bool, force: bool, clock: nat,
                        transfer: string -> Transfer, now: int)
      requires FileSystem.Valid(d)
      ensures var r := PipelineOn(d, url, extractDir, keepZip, force, clock, transfer, now);
        && (forall p :: p in d.files && p != TempZip(clock) && !(extractDir <= p) ==>
              p in r.disk.files && r.disk.files[p] == d.files[p])
        && (forall p :: p in r.disk.files ==> p in d.files || p == TempZip(clock) || extractDir <= p)
    {
      var temp := TempZip(clock);
      assert Parent(temp) == cacheDir;
      PrefixesAreAncestors(cacheDir);
      var dl := DownloadOn(d, url, temp, force, true, transfer);
      var r := PipelineOn(d, url, extractDir, keepZip, force, clock, transfer, now);
      if !dl.result.success {
        assert r.disk == dl.disk;
      } else {
        var x := ExtractOn(dl.disk, temp, extractDir, !keepZip, now);
        if x.result.success || !Exists(x.disk, temp) || Unlink(x.disk, temp).Err? {
          assert r.disk == x.disk;
        } else {
          assert r.disk == Unlink(x.disk, temp).value;
        }
      }
    }

    /**
     * Whatever its outcome, `download_and_extract` removes no directory and
     * adds only the ancestors of the cache and extraction directories and
     * directories under the extraction directory.
     */
    lemma PipelineDirs(d: Disk, url: string, extractDir: Path, keepZip: bool, force: bool, clock: nat,
                       transfer: string -> Transfer, now: int)
      requires FileSystem.Valid(d)
      ensures var r := PipelineOn(d, url, extractDir, keepZip, force, clock, transfer, now);
        && d.dirs <= r.disk.dirs
        && (forall q :: q in r.disk.dirs ==> q in d.dirs || q <= cacheDir || q <= extractDir || extractDir <= q)
    {
      var temp := TempZip(clock);
      assert Parent(temp) == cacheDir;
      PrefixesAreAncestors(cacheDir);
      var dl := DownloadOn(d, url, temp, force, true, transfer);
      var r := PipelineOn(d, url, extractDir, keepZip, force, clock, transfer, now);
      if !dl.result.success {
        assert r.disk == dl.disk;
      } else {
        var x := ExtractOn(dl.disk, temp, extractDir, !keepZip, now);
        if x.result.success || !Exists(x.disk, temp) || Unlink(x.disk, temp).Err? {
          assert r.disk == x.disk;
        } else {
          assert r.disk == Unlink(x.disk, temp).value;
        }
      }
    }

    /**
     * There is no clean-up after a download failure: a file the transfer
     * wrote at the temporary path is still there, as it was written.
     */
    lemma FailedDownloadKeepsTemp(d: Disk, url: string, extractDir: Path, keepZip: bool, force: bool, clock: nat,
                                  transfer: string -> Transfer, now: int)
      requires FileSystem.Valid(d)
      ensures var dl := DownloadOn(d, url, TempZip(clock), force, true, transfer);
        var r := PipelineOn(d, url, extractDir, keepZip, force, clock, transfer, now);
        && dl.requested.Some? && transfer(dl.requested.value).Fetched? && transfer(dl.requested.value).written.Some?
        && Write(MkDirs(d, cacheDir).value, TempZip(clock), transfer(dl.requested.value).written.value).Ok?
        && !dl.result.success
        ==>
        && r.outcome == Finished(false, DownloadPhase + dl.result.message)
        && TempZip(clock) in r.disk.files
        && r.disk.files[TempZip(clock)] == transfer(dl.requested.value).written.value
    {
      assert Parent(TempZip(clock)) == cacheDir;
    }

    /**
     * The empty file behind "Downloaded file is empty or missing": when the
     * transfer reports success but writes 0 bytes, the pipeline fails in the
     * download phase and the empty temporary archive stays.
     */
    lemma EmptyDownloadStays(d: Disk, url: string, extractDir: Path, keepZip: bool, force: bool, clock: nat,
                             transfer: string -> Transfer, now: int, rec: FileRecord)
      requires FileSystem.Valid(d) && cacheDir in d.dirs
      requires TempZip(clock) !in d.dirs && (force || TempZip(clock) !in d.files)
      requires ResolveDownloadUrl(url).Some? && transfer(ResolveDownloadUrl(url).value) == Fetched(true, Some(rec))
      requires rec.size == 0
      ensures var r := PipelineOn(d, url, extractDir, keepZip, force, clock, transfer, now);
        && r.outcome == Finished(false, DownloadPhase + EmptyOrMissing)
        && TempZip(clock) in r.disk.files && r.disk.files[TempZip(clock)] == rec
    {
      var temp := TempZip(clock);
      assert Parent(temp) == cacheDir;
      MkDirsFails(d, cacheDir);
      var d1 := Write(d, temp, rec).value;
      var dl := DownloadOn(d, url, temp, force, true, transfer);
      assert dl.requested == ResolveDownloadUrl(url);
      assert dl.disk == d1;
      assert dl.result == Verdict(d1, temp, true, true) == DownloadResult(false, EmptyOrMissing, None);
      FailedDownloadKeepsTemp(d, url, extractDir, keepZip, force, clock, transfer, now);
    }

    // -------------------------------------------------------------------
    // The operations

    /**
     * `download`: make the output's parent directory; keep an existing output
     * unless forced; resolve the link; transfer; then check the transfer's
     * report, the file's presence and size, and (when asked) its archive type.
     * `requested` is the URL handed to the transfer, None when there was no transfer.
     */
    method Download(url: string, out: Path, force: bool, validate: bool, transfer: string -> Transfer)
      returns (res: DownloadResult, requested: Option<string>)
      requires Valid()
      modifies this
      ensures Valid()
      ensures DownloadRun(res, requested, disk) == DownloadOn(old(disk), url, out, force, validate, transfer)
      // the parent directory comes first; when it cannot be made nothing else happens
      ensures MkDirs(old(disk), Parent(out)).Err? ==>
        && res == DownloadResult(false, DownloadError + ErrorText(MkDirs(old(disk), Parent(out)).error), None)
        && requested.None? && disk == old(disk)
      ensures MkDirs(old(disk), Parent(out)).Ok? ==>
        var d0 := MkDirs(old(disk), Parent(out)).value;
        && Parent(out) in disk.dirs
        // an existing output is kept, classified by name, and nothing is transferred
        && (!force && Exists(old(disk), out) ==>
              res == DownloadResult(true, AlreadyExists, guess(out)) && requested.None? && disk == d0)
        // a Drive link of neither shape is refused before any transfer
        && ((force || !Exists(old(disk), out)) && ResolveDownloadUrl(url).None? ==>
              res == DownloadResult(false, InvalidUrl, None) && requested.None? && disk == d0)
      ensures requested.Some? ==>
        var d0 := MkDirs(old(disk), Parent(out)).value;
        match transfer(requested.value)
        case Crashed(reason) => res == DownloadResult(false, DownloadError + reason, None) && disk == d0
        case Fetched(reported, written) =>
          if written.Some? && Write(d0, out, written.value).Err? then
            res == DownloadResult(false, DownloadError + ErrorText(Write(d0, out, written.value).error), None)
            && disk == d0
          else
            var d1 := if written.Some? then Write(d0, out, written.value).value else d0;
            && disk == d1
            && (!reported ==> res == DownloadResult(false, TransferFailed, None))
            && (reported && (out !in d1.files || d1.files[out].size == 0) ==>
                  res == DownloadResult(false, EmptyOrMissing, None))
            && (reported && out in d1.files && d1.files[out].size > 0 ==>
                  var mime := GetMimeType(guess, probe, out);
                  res == if validate && !IsCompressedFile(mime)
                         then DownloadResult(false, DownloadNotArchive, mime)
                         else DownloadResult(true, DownloadOk, mime))
    {
      requested := None;
      var made := MkDirs(disk, Parent(out));
      if made.Err? {
        res := DownloadResult(false, DownloadError + ErrorText(made.error), None);
        return;
      }
      MkDirsValid(disk, Parent(out));
      disk := made.value;

      if !force && Exists(disk, out) {
        res := DownloadResult(true, AlreadyExists, guess(out));
        return;
      }

      var downloadUrl := ResolveDownloadUrl(url);
      if downloadUrl.None? {
        res := DownloadResult(false, InvalidUrl, None);
        return;
      }

      requested := downloadUrl;
      match transfer(downloadUrl.value) {
        case Crashed(reason) =>
          res := DownloadResult(false, DownloadError + reason, None);
          return;
        case Fetched(reported, written) =>
          if written.Some? {
            var w := Write(disk, out, written.value);
            if w.Err? {
              res := DownloadResult(false, DownloadError + ErrorText(w.error), None);
              return;
            }
            WriteValid(disk, out, written.value);
            disk := w.value;
          }
          if !reported {
            res := DownloadResult(false, TransferFailed, None);
            return;
          }
          if out !in disk.files || disk.files[out].size == 0 {
            res := DownloadResult(false, EmptyOrMissing, None);
            return;
          }
          var mime := GetMimeType(guess, probe, out);
          if validate && !IsCompressedFile(mime) {
            res := DownloadResult(false, DownloadNotArchive, mime);
            return;
          }
          res := DownloadResult(true, DownloadOk, mime);
      }
    }

    /**
     * The extraction loop of `extract`: extract each entry in turn, adding its
     * size to the running `extracted` count, and stop at the first error.
     */
    method ExtractMembers(dest: Path, entries: seq<ZipEntry>, now: int) returns (err: Option<MemberError>, extracted: nat)
      requires Valid()
      modifies this
      ensures Valid()
      ensures (disk, err) == ExtractAll(old(disk), dest, entries, now)
      ensures err.None? ==> extracted == TotalSize(entries)
    {
      var total := TotalSize(entries);
      ghost var start := disk;
      extracted := 0;
      err := None;
      var i := 0;
      while i < |entries|
        invariant 0 <= i <= |entries|
        invariant FileSystem.Valid(disk)
        invariant ExtractAll(start, dest, entries[..i], now) == (disk, None)
        invariant extracted == TotalSize(entries[..i])
      {
        assert entries[..i + 1][..i] == entries[..i];
        ExtractEntryValid(disk, dest, entries[i], now);
        var step := ExtractEntry(disk, dest, entries[i], now);
        disk := step.0;
        if step.1.Some? {
          err := step.1;
          ExtractAllStops(start, dest, entries, now, i + 1);
          return;
        }
        extracted := extracted + entries[i].size;
        i := i + 1;
      }
      assert entries[..i] == entries;
      assert extracted == total;
    }

    /**
     * `extract`: make the destination; then, in this order, the archive must
     * exist, be named as an archive, open as a zip, extract without error and
     * leave the destination non-empty; only then is the archive removed, if asked.
     */
    method Extract(archive: Path, dest: Path, remove: bool, now: int) returns (res: ExtractResult)
      requires Valid()
      modifies this
      ensures Valid()
      ensures ExtractRun(res, disk) == ExtractOn(old(disk), archive, dest, remove, now)
      ensures MkDirs(old(disk), dest).Err? ==>
        res == ExtractResult(false, ExtractError + ErrorText(MkDirs(old(disk), dest).error)) && disk == old(disk)
      ensures MkDirs(old(disk), dest).Ok? ==>
        var d0 := MkDirs(old(disk), dest).value;
        && (!Exists(d0, archive) ==>
              res == ExtractResult(false, ArchiveNotFound) && disk == d0)
        && (Exists(d0, archive) && !IsCompressedFile(guess(archive)) ==>
              res == ExtractResult(false, NotArchive) && disk == d0)
        && (Exists(d0, archive) && IsCompressedFile(guess(archive)) && archive in d0.dirs ==>
              res == ExtractResult(false, ExtractError + ErrorText(IsADirectory(archive))) && disk == d0)
        && (archive in d0.files && IsCompressedFile(guess(archive)) && d0.files[archive].zip.None? ==>
              res == ExtractResult(false, CorruptZip) && disk == d0)
        && (archive in d0.files && IsCompressedFile(guess(archive)) && d0.files[archive].zip.Some? ==>
              var (d1, err) := ExtractAll(d0, dest, d0.files[archive].zip.value, now);
              && (err.Some? ==> res == MemberFailure(err.value) && disk == d1)
              && (err.None? && !HasChild(d1, dest) ==> res == ExtractResult(false, NothingExtracted) && disk == d1)
              && (err.None? && HasChild(d1, dest) && !remove ==> res == ExtractResult(true, ExtractOk) && disk == d1)
              && (err.None? && HasChild(d1, dest) && remove ==>
                    res == ExtractResult(true, ExtractOk) && disk == Unlink(d1, archive).value))
    {
      var made := MkDirs(disk, dest);
      if made.Err? {
        res := ExtractResult(false, ExtractError + ErrorText(made.error));
        return;
      }
      MkDirsValid(disk, dest);
      disk := made.value;

      if !Exists(disk, archive) {
        res := ExtractResult(false, ArchiveNotFound);
        return;
      }
      var mime := guess(archive);
      if !IsCompressedFile(mime) {
        res := ExtractResult(false, NotArchive);
        return;
      }
      if archive in disk.dirs {
        res := ExtractResult(false, ExtractError + ErrorText(IsADirectory(archive)));
        return;
      }
      var zip := disk.files[archive].zip;
      if zip.None? {
        res := ExtractResult(false, CorruptZip);
        return;
      }

      res := Unpack(archive, dest, remove, now);
    }

    /**
     * The part of `extract` after the checks: extract every member of the zip
     * `archive` holds into `dest`, require the destination to be non-empty,
     * and remove the archive if asked.
     */
    method Unpack(archive: Path, dest: Path, remove: bool, now: int) returns (res: ExtractResult)
      requires Valid()
      requires archive in disk.files && disk.files[archive].zip.Some?
      modifies this
      ensures Valid()
      ensures ExtractRun(res, disk) == UnpackOn(old(disk), archive, dest, remove, now)
    {
      ghost var d0 := disk;
      var zip := disk.files[archive].zip;
      ghost var expected := UnpackOn(d0, archive, dest, remove, now);
      var err, extracted := ExtractMembers(dest, zip.value, now);
      if err.Some? {
        res := MemberFailure(err.value);
        return;
      }

      if !HasChild(disk, dest) {
        res := ExtractResult(false, NothingExtracted);
        return;
      }

      if remove {
        // extraction only adds, so the archive is still a file and this unlink cannot raise
        var gone := Unlink(disk, archive);
        assert gone.Ok?;
        UnlinkValid(disk, archive);
        disk := gone.value;
      }
      res := ExtractResult(true, ExtractOk);
    }

    /**
     * `download_and_extract`: download to the temporary archive
     * `cache_dir/temp_<clock>.zip` (archive check on); on success extract it,
     * removing it afterwards unless it is to be kept; when extraction fails,
     * remove it if it is still there.
     */
    method DownloadAndExtract(url: string, extractDir: Path, keepZip: bool, force: bool, clock: nat,
                              transfer: string -> Transfer, now: int)
      returns (res: PipelineOutcome)
      requires Valid()
      modifies this
      ensures Valid()
      ensures PipelineRun(res, disk) == PipelineOn(old(disk), url, extractDir, keepZip, force, clock, transfer, now)
    {
      var tempZip := TempZip(clock);
      var dres, requested := Download(url, tempZip, force, true, transfer);
      if !dres.success {
        res := Finished(false, DownloadPhase + dres.message);
        return;
      }

      var xres := Extract(tempZip, extractDir, !keepZip, now);
      if !xres.success {
        if Exists(disk, tempZip) {
          var gone := Unlink(disk, tempZip);
          if gone.Err? {
            res := Uncaught(gone.error);
            return;
          }
          UnlinkValid(disk, tempZip);
          disk := gone.value;
        }
        res := Finished(false, ExtractionPhase + xres.message);
        return;
      }
      res := Finished(true, PipelineOk);
    }

    /**
     * `cleanup_cache`: visit the `*.*` entries of the cache directory in the
     * order the directory lists them (any order) and unlink each one older
     * than the threshold; the first error (unlinking a directory) ends the
     * sweep quietly. `dirMtime` gives the modification time of directories.
     */
    method CleanupCache(maxAgeDays: int, now: int, dirMtime: Path -> int)
      requires Valid()
      modifies this
      ensures Valid()
      ensures disk.dirs == old(disk).dirs
      ensures forall p :: p in disk.files ==> p in old(disk).files && disk.files[p] == old(disk).files[p]
      // only old entries of the cache directory are removed
      ensures forall p :: p in old(disk).files && p !in disk.files ==>
        InCacheGlob(p) && Expired(now, old(disk).files[p].mtime, maxAgeDays)
      // when no old directory stops the sweep, every old entry is removed
      ensures (forall q :: q in old(disk).dirs && InCacheGlob(q) ==> !Expired(now, dirMtime(q), maxAgeDays)) ==>
        forall p :: p in old(disk).files && InCacheGlob(p) && Expired(now, old(disk).files[p].mtime, maxAgeDays) ==>
          p !in disk.files
    {
      ghost var start := disk;
      var pending := set p | p in disk.files.Keys + disk.dirs && InCacheGlob(p);
      while pending != {}
        invariant FileSystem.Valid(disk)
        invariant disk.dirs == start.dirs
        invariant forall p :: p in pending ==> InCacheGlob(p) && Exists(start, p)
        invariant forall p :: p in disk.files ==> p in start.files && disk.files[p] == start.files[p]
        invariant forall p :: p in pending && p in start.files ==> p in disk.files
        invariant forall p :: p in start.files && p !in disk.files ==>
          InCacheGlob(p) && Expired(now, start.files[p].mtime, maxAgeDays) && p !in pending
        invariant forall p :: p in start.files && InCacheGlob(p) && Expired(now, start.files[p].mtime, maxAgeDays) ==>
          p in pending || p !in disk.files
        decreases |pending|
      {
        var p :| p in pending;
        pending := pending - {p};
        var mtime := if p in disk.files then disk.files[p].mtime else dirMtime(p);
        if Expired(now, mtime, maxAgeDays) {
          var gone := Unlink(disk, p);
          if gone.Err? {
            return;
          }
          UnlinkValid(disk, p);
          disk := gone.value;
        }
      }
    }
  }
}
