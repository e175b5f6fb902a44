/**
 * The material page (material.php): the id guard, the type icon and badge,
 * and the choice of preview from the stored row.  The page's HTML is not
 * modelled; a preview is the element kind and the URL it would load.
 */
module MaterialPage {
  import opened Php
  import Embed
  import Models
  import Admin

  /** What the page can show for one id. */
  datatype Page = RedirectHome | NotFound | Found(view: Models.MaterialView)

  /** material.php:10-24: ids that are not positive go back to the home page;
      an id `getById` does not find is a 404. */
  function PageFor(db: Models.Database, id: int): (p: Page)
    reads db
    ensures id <= 0 <==> p.RedirectHome?
    ensures p.NotFound? <==> id > 0 && db.GetById(id).None?
    ensures p.Found? ==> id in db.materials && p.view.material == db.materials[id]
    ensures p.Found? ==> db.GetById(id) == Some(p.view)
  {
    if id <= 0 then RedirectHome
    else
      match db.GetById(id)
      case None => NotFound
      case Some(v) => Found(v)
  }

  /** `match ($material['file_type'])` for the big type icon (material.php:70-77). */
  function Icon(fileType: string): (icon: string)
    ensures fileType == "gdrive_pdf" ==> icon == "\U{1F4D5}"
    ensures fileType == "gdrive_word" ==> icon == "\U{1F4D8}"
    ensures fileType == "image" ==> icon == "\U{1F5BC}\U{FE0F}"
    ensures fileType == "youtube" ==> icon == "\U{25B6}\U{FE0F}"
    ensures icon == "\U{1F4C4}" <==> fileType !in Admin.FileTypes
  {
    match fileType
    case "gdrive_pdf" => "\U{1F4D5}"
    case "gdrive_word" => "\U{1F4D8}"
    case "image" => "\U{1F5BC}\U{FE0F}"
    case "youtube" => "\U{25B6}\U{FE0F}"
    case _ => "\U{1F4C4}"
  }

  /** `str_replace('_', ' ', $s)` */
  function Unscore(s: string): (r: string)
    ensures |r| == |s|
    ensures forall i :: 0 <= i < |s| ==> r[i] == if s[i] == '_' then ' ' else s[i]
  {
    if s == [] then [] else [if s[0] == '_' then ' ' else s[0]] + Unscore(s[1..])
  }

  /** `ucfirst`: the first character upper-cased (ASCII only). */
  function UcFirst(s: string): (r: string)
    ensures |r| == |s|
    ensures |s| > 0 ==> r[0] == UpperChar(s[0]) && r[1..] == s[1..]
  {
    if s == [] then [] else [UpperChar(s[0])] + s[1..]
  }

  /** The badge label (material.php:84): underscores become spaces and the
      first letter is upper-cased. */
  function Badge(fileType: string): (badge: string)
    ensures |badge| == |fileType|
    ensures forall i :: 1 <= i < |fileType| ==> badge[i] == if fileType[i] == '_' then ' ' else fileType[i]
    ensures |fileType| > 0 ==> badge[0] == UpperChar(if fileType[0] == '_' then ' ' else fileType[0])
    ensures '_' !in badge
  {
    var r := UcFirst(Unscore(fileType));
    assert forall i :: 0 <= i < |r| ==> r[i] != '_';
    r
  }

  lemma UnscoreDrivePdf()
    ensures Unscore("gdrive_pdf") == "gdrive pdf"
  {
    var a, b := "gdrive", "pdf";
    assert "gdrive_pdf" == a + "_" + b;
    assert a + " " + b == "gdrive pdf";
    UnscoreOneUnderscore(a, b);
  }

  /** A name with one underscore between two words reads as the two words
      with a space between them. */
  lemma UnscoreOneUnderscore(a: string, b: string)
    requires '_' !in a && '_' !in b
    ensures Unscore(a + "_" + b) == a + " " + b
  {
    var s, t := a + "_" + b, a + " " + b;
    var u := Unscore(s);
    forall i | 0 <= i < |s| ensures u[i] == t[i] {
      if i < |a| {
        assert s[i] == a[i] && t[i] == a[i];
      } else if i > |a| {
        assert s[i] == b[i - |a| - 1] && t[i] == b[i - |a| - 1];
      }
    }
    assert |u| == |t|;
  }

  lemma UcFirstDrivePdf()
    ensures UcFirst("gdrive pdf") == "Gdrive pdf"
  {
    assert UpperChar('g') == 'G';
    assert "Gdrive pdf" == ['G'] + "gdrive pdf"[1..];
  }

  /** The badge of a Drive PDF reads "Gdrive pdf". */
  lemma DrivePdfBadge()
    ensures Badge("gdrive_pdf") == "Gdrive pdf"
  {
    UnscoreDrivePdf();
    UcFirstDrivePdf();
  }

  /** The preview block of material.php:95-136. */
  datatype Preview =
    | Picture(imagePath: string)
    | DriveFrame(src: string)
    | YouTubeFrame(src: string)
    | NoPreview

  function PreviewOf(m: Models.MaterialRow): (p: Preview)
    ensures p.Picture? <==> m.fileType == "image" && Truthy(m.imagePath)
    ensures p.DriveFrame? <==> (m.fileType == "gdrive_pdf" || m.fileType == "gdrive_word") && Truthy(m.fileUrl)
    ensures p.YouTubeFrame? <==> m.fileType == "youtube" && Truthy(m.fileUrl)
    ensures p.Picture? ==> p.imagePath == m.imagePath.value
    ensures p.DriveFrame? ==> p.src == Embed.DriveEmbedUrl(m.fileUrl.value)
    ensures p.YouTubeFrame? ==> p.src == Embed.YouTubeEmbedUrl(m.fileUrl.value) + "?rel=0"
  {
    if m.fileType == "image" && Truthy(m.imagePath) then Picture(m.imagePath.value)
    else if m.fileType in ["gdrive_pdf", "gdrive_word"] && Truthy(m.fileUrl) then DriveFrame(Embed.DriveEmbedUrl(m.fileUrl.value))
    else if m.fileType == "youtube" && Truthy(m.fileUrl) then YouTubeFrame(Embed.YouTubeEmbedUrl(m.fileUrl.value) + "?rel=0")
    else NoPreview
  }

  /** A YouTube link without a recognisable id is still framed: the link
      itself with "?rel=0" appended. */
  lemma YouTubeWithoutIdFramedAsIs(m: Models.MaterialRow)
    requires m.fileType == "youtube" && Truthy(m.fileUrl) && Embed.VideoId(m.fileUrl.value).None?
    ensures PreviewOf(m) == YouTubeFrame(m.fileUrl.value + "?rel=0")
  {
  }

  /** A YouTube material the form accepted always previews as the embed
      player of the id the form validated. */
  lemma AcceptedYouTubePreview(post: Admin.MaterialPost, file: Option<Admin.Uploads.FileField>, token: string, moved: bool)
    requires post.fileType == "youtube"
    requires Admin.MaterialForm(post, file, token, moved).error.None?
    ensures var url := Trim(post.fileUrl);
            && Embed.VideoId(url).Some?
            && PreviewOf(Admin.MaterialForm(post, file, token, moved).data)
               == YouTubeFrame(Embed.YouTubeEmbedPrefix + Embed.VideoId(url).value + "?rel=0")
  {
    Admin.YouTubeChecks(post, file, token, moved);
    Admin.TypeClearsOtherField(post, file, token, moved);
  }

  /** An image saved with a new upload previews that upload. */
  lemma UploadedImagePreview(post: Admin.MaterialPost, file: Option<Admin.Uploads.FileField>, token: string, moved: bool)
    requires Admin.MaterialForm(post, file, token, moved).stored.Some?
    ensures var d := Admin.MaterialForm(post, file, token, moved);
            PreviewOf(d.data) == Picture(d.stored.value)
  {
    Admin.StoredBecomesImagePath(post, file, token, moved);
    Admin.StoredNameTruthy(file.value, token, moved);
  }

  /** A Drive material saved with an empty link shows no preview. */
  lemma EmptyDriveLinkNoPreview(post: Admin.MaterialPost, file: Option<Admin.Uploads.FileField>, token: string, moved: bool)
    requires Admin.PassesBasicChecks(post) && post.fileType == "gdrive_pdf" && IsEmpty(Trim(post.fileUrl))
    ensures PreviewOf(Admin.MaterialForm(post, file, token, moved).data) == NoPreview
  {
    Admin.DriveTypesAcceptAnyLink(post, file, token, moved);
  }
}
