/**
 * The link resolution step of `GDriveDownloader.download`: a Drive share
 * link is rewritten into the direct-fetch URL of the file it names, a
 * Drive link of neither known shape is refused, and every other URL is
 * used as it is.
 */
module LinkResolver {
  import opened Wrappers
  import opened PyStrings

  const DriveHost: string := "drive.google.com"
  const FileMarker: string := "file/d/"
  const IdMarker: string := "id="
  const DirectPrefix: string := "https://drive.google.com/uc?id="

  /**
   * The file id of a Drive link: `url.split('file/d/')[1].split('/')[0]`
   * when the link has the `file/d/` shape, else
   * `url.split('id=')[1].split('&')[0]` when it has the `id=` shape.
   */
  function FileId(url: string): (r: Option<string>)
    ensures r.None? <==> !Contains(url, FileMarker) && !Contains(url, IdMarker)
  {
    if Contains(url, FileMarker) then Some(Split(Split(url, FileMarker)[1], "/")[0])
    else if Contains(url, IdMarker) then Some(Split(Split(url, IdMarker)[1], "&")[0])
    else None
  }

  /**
   * The URL handed to the transfer: None stands for the failure
   * "Invalid Google Drive URL format".
   */
  function ResolveDownloadUrl(url: string): (r: Option<string>)
    ensures r.None? <==> Contains(url, DriveHost) && !Contains(url, FileMarker) && !Contains(url, IdMarker)
    ensures !Contains(url, DriveHost) ==> r == Some(url)
  {
    if Contains(url, DriveHost) then
      match FileId(url)
      case None => None
      case Some(id) => Some(DirectPrefix + id)
    else Some(url)
  }

  /**
   * A Drive link with `file/d/` resolves to the direct URL of the text after
   * the first `file/d/`, cut at the next `file/d/` and then at the next `/`;
   * the `id=` shape is not looked at.
   */
  lemma FileShape(url: string)
    requires Contains(url, DriveHost) && Contains(url, FileMarker)
    ensures var id := Cut(Cut(After(url, FileMarker), FileMarker), "/");
      && ResolveDownloadUrl(url) == Some(DirectPrefix + id)
      && id <= After(url, FileMarker)
      && !Contains(id, "/")
  {
    SplitSecond(url, FileMarker);
  }

  /** When no second `file/d/` follows, the id is the text after `file/d/` up to the next `/`. */
  lemma FileShapeSingleMarker(url: string)
    requires Contains(url, DriveHost) && Contains(url, FileMarker)
    requires !Contains(After(url, FileMarker), FileMarker)
    ensures ResolveDownloadUrl(url) == Some(DirectPrefix + Cut(After(url, FileMarker), "/"))
  {
    FileShape(url);
  }

  /**
   * A Drive link with `id=` but without `file/d/` resolves to the direct URL
   * of the text after the first `id=`, cut at the next `id=` and then at
   * the next `&`.
   */
  lemma IdShape(url: string)
    requires Contains(url, DriveHost) && !Contains(url, FileMarker) && Contains(url, IdMarker)
    ensures var id := Cut(Cut(After(url, IdMarker), IdMarker), "&");
      && ResolveDownloadUrl(url) == Some(DirectPrefix + id)
      && id <= After(url, IdMarker)
      && !Contains(id, "&")
  {
    SplitSecond(url, IdMarker);
  }

  /** When no second `id=` follows, the id is the text after `id=` up to the first `&` or the end. */
  lemma IdShapeSingleMarker(url: string)
    requires Contains(url, DriveHost) && !Contains(url, FileMarker) && Contains(url, IdMarker)
    requires !Contains(After(url, IdMarker), IdMarker)
    ensures ResolveDownloadUrl(url) == Some(DirectPrefix + Cut(After(url, IdMarker), "&"))
  {
    IdShape(url);
  }
}
