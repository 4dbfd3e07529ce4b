/**
 * The archive type classifier: the fixed table of archive families
 * (`GDriveDownloader.MIME_TYPES`), the archive test on a MIME type
 * (`_is_compressed_file`) and the best-effort MIME detection of a path or
 * URL (`_get_mime_type`), whose two collaborators, the extension table of
 * `mimetypes.guess_type` and the `requests.head` probe, are given as
 * functions.
 */
module ArchiveTypes {
  import opened Wrappers

  datatype ArchiveFamily = ArchiveFamily(name: string, mimes: seq<string>)

  /** The five recognised archive families, in the order the table lists them. */
  const MimeTypes: seq<ArchiveFamily> := [
    ArchiveFamily("zip", ["application/zip", "application/x-zip-compressed"]),
    ArchiveFamily("tar", ["application/x-tar"]),
    ArchiveFamily("gzip", ["application/gzip", "application/x-gzip"]),
    ArchiveFamily("7z", ["application/x-7z-compressed"]),
    ArchiveFamily("rar", ["application/x-rar-compressed"])
  ]

  /** Every MIME string of the table, written out once more as a set. */
  const ArchiveMimes: set<string> := {
    "application/zip", "application/x-zip-compressed", "application/x-tar",
    "application/gzip", "application/x-gzip", "application/x-7z-compressed",
    "application/x-rar-compressed"
  }

  /** `any(mime in family for family in families)`. */
  function InSomeFamily(mime: string, families: seq<ArchiveFamily>): (r: bool)
    ensures r <==> exists i :: 0 <= i < |families| && mime in families[i].mimes
  {
    if families == [] then false
    else mime in families[0].mimes || InSomeFamily(mime, families[1..])
  }

  /** `_is_compressed_file`: false for no type or the empty type, else membership in the table. */
  function IsCompressedFile(mime: Option<string>): (r: bool)
    ensures r <==> mime.Some? && mime.value in ArchiveMimes
  {
    if mime.None? || mime.value == "" then false
    else
      InSomeFamily(mime.value, MimeTypes)
  }

  /** The family a recognised archive type belongs to: each type is listed by exactly one family. */
  lemma FamilyIsUnique(mime: string, i: nat, j: nat)
    requires i < |MimeTypes| && j < |MimeTypes|
    requires mime in MimeTypes[i].mimes && mime in MimeTypes[j].mimes
    ensures i == j
  {
  }

  /**
   * `_get_mime_type`: the type the extension table gives, when it gives a
   * non-empty one; otherwise whatever the metadata probe reports (None when
   * the probe fails, which is how every error of this step is swallowed).
   */
  function GetMimeType<P>(guess: P -> Option<string>, probe: P -> Option<string>, target: P): (r: Option<string>)
    ensures r == guess(target) || r == probe(target)
    // a non-empty guess is returned as it is; the probe is asked only when the guess gives nothing
    ensures guess(target).Some? && guess(target).value != "" ==> r == guess(target)
    ensures guess(target).None? || guess(target).value == "" ==> r == probe(target)
    // a type the extension table recognises as an archive is never overruled by the probe
    ensures IsCompressedFile(guess(target)) ==> r == guess(target)
    // an archive verdict on the result is one of the two sources' verdicts
    ensures IsCompressedFile(r) ==> IsCompressedFile(guess(target)) || IsCompressedFile(probe(target))
  {
    var g := guess(target);
    if g.Some? && g.value != "" then g else probe(target)
  }
}
