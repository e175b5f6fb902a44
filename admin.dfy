/**
 * The two POST handlers of the admin panel (admin.php:34-114): the section
 * form and the material form.  Each is a method over the `Database` that
 * does what the handler does, step by step, and is tied to a pure decision
 * (`SectionSlug`, `MaterialForm`) about which the lemmas below speak.  The
 * CSRF check is a gate the caller has already passed, and the redirect after
 * a successful save is the `None` error.
 */
module Admin {
  import opened Php
  import Slug
  import Embed
  import Uploads
  import Models

  datatype FormError =
    | TitleRequired
    | SectionRequired
    | InvalidFileType
    | UploadFailed
    | YouTubeUrlRequired
    | InvalidYouTubeUrl
    | NameRequired
    | SlugTaken

  /** The text the panel shows for each error. */
  function Message(e: FormError): (m: string)
    ensures !IsEmpty(m)
  {
    match e
    case TitleRequired => "Title is required."
    case SectionRequired => "Please select a section."
    case InvalidFileType => "Invalid file type."
    case UploadFailed => "Failed to upload image. Check file type and size."
    case YouTubeUrlRequired => "YouTube URL is required for YouTube materials."
    case InvalidYouTubeUrl => "Invalid YouTube URL. Please provide a valid YouTube video link."
    case NameRequired => "Section name is required."
    case SlugTaken => "This slug already exists. Please choose another."
  }

  const FileTypes: seq<string> := ["gdrive_pdf", "gdrive_word", "image", "youtube"]

  /* ---------------- section form ---------------- */

  /** The posted section form after `(int)` and `?? ''`. */
  datatype SectionPost = SectionPost(id: int, name: string, slug: string)

  /** `trim($_POST['slug']) ?: generateSlug($name)`: the posted slug,
      trimmed but otherwise verbatim, unless it is "" or "0". */
  function SectionSlug(post: SectionPost): (slug: string)
    ensures !IsEmpty(Trim(post.slug)) ==> slug == Trim(post.slug)
    ensures IsEmpty(Trim(post.slug)) ==> slug == Slug.GenerateSlug(Trim(post.name)) && Slug.IsSlug(slug)
  {
    var posted := Trim(post.slug);
    if !IsEmpty(posted) then posted else Slug.GenerateSlug(Trim(post.name))
  }

  /** `$id ?: null` */
  function ExcludeId(id: int): (e: Option<int>)
    ensures e.None? <==> id == 0
  {
    if id != 0 then Some(id) else None
  }

  /** No two sections share a slug. */
  predicate UniqueSlugs(sections: map<int, Models.SectionRow>)
  {
    forall a, b :: a in sections && b in sections && sections[a].slug == sections[b].slug ==> a == b
  }

  /** The `section-form` handler (admin.php:34-53). */
  method HandleSectionForm(db: Models.Database, post: SectionPost) returns (error: Option<FormError>)
    requires db.Valid()
    modifies db
    ensures db.Valid()
    ensures error == Some(NameRequired) <==> IsEmpty(Trim(post.name))
    ensures error == Some(SlugTaken)
        <==> !IsEmpty(Trim(post.name)) && old(db.SlugExists(SectionSlug(post), ExcludeId(post.id)))
    ensures error.None? || error == Some(NameRequired) || error == Some(SlugTaken)
    ensures error.Some? ==> db.sections == old(db.sections)
    ensures error.None? && post.id > 0 ==>
              db.sections == if post.id in old(db.sections)
                             then old(db.sections)[post.id := Models.SectionRow(Trim(post.name), SectionSlug(post))]
                             else old(db.sections)
    ensures error.None? && post.id <= 0 ==>
              db.sections == old(db.sections)[old(db.nextSectionId) := Models.SectionRow(Trim(post.name), SectionSlug(post))]
    ensures db.materials == old(db.materials)
    ensures UniqueSlugs(old(db.sections)) ==> UniqueSlugs(db.sections)
  {
    var id := post.id;
    var name := Trim(post.name);
    var slug := Trim(post.slug);
    if IsEmpty(slug) {
      slug := Slug.GenerateSlug(name);
    }
    if IsEmpty(name) {
      error := Some(NameRequired);
    } else if db.SlugExists(slug, if id != 0 then Some(id) else None) {
      error := Some(SlugTaken);
    } else {
      ghost var before := db.sections;
      ghost var n := id;
      assert forall k :: k in before && before[k].slug == slug ==> k == id && id > 0 by {
        assert !db.SlugExists(slug, if id != 0 then Some(id) else None);
      }
      if id > 0 {
        db.UpdateSection(id, name, slug);
      } else {
        var created := db.CreateSection(name, slug);
        n := created;
      }
      error := None;
      SavePreservesUniqueness(before, db.sections, id, n, name, slug);
    }
  }

  /** Saving a slug that no other section holds keeps slugs unique: the
      row written is either the one being edited or a brand-new one. */
  lemma SavePreservesUniqueness(before: map<int, Models.SectionRow>, after: map<int, Models.SectionRow>,
                                id: int, n: int, name: string, slug: string)
    requires forall k :: k in before && before[k].slug == slug ==> k == id && id > 0
    requires || after == before
             || (after == before[n := Models.SectionRow(name, slug)] && (n == id || (n !in before && id <= 0)))
    ensures UniqueSlugs(before) ==> UniqueSlugs(after)
  {
    if UniqueSlugs(before) && after != before {
      forall a, b | a in after && b in after && after[a].slug == after[b].slug
        ensures a == b
      {
        if a != n && b != n {
          assert before[a] == after[a] && before[b] == after[b];
        }
      }
    }
  }

  /* ---------------- material form ---------------- */

  /** The posted material form after `(int)` and `?? ''`;
      `existing_image` is null when it was not posted. */
  datatype MaterialPost = MaterialPost(
    id: int,
    sectionId: int,
    title: string,
    description: string,
    fileType: string,
    fileUrl: string,
    existingImage: Option<string>)

  /** The `$data` array the handler starts from. */
  function InitialData(post: MaterialPost): (data: Models.MaterialRow)
    ensures data.title == Trim(post.title) && data.imagePath == post.existingImage
    ensures data.fileUrl == Some(Trim(post.fileUrl)) && data.description == Some(Trim(post.description))
    ensures data.sectionId == post.sectionId && data.fileType == post.fileType
  {
    Models.MaterialRow(post.sectionId, Trim(post.title), Some(Trim(post.description)),
                       post.fileType, Some(Trim(post.fileUrl)), post.existingImage)
  }

  /** What one submission of the material form decides: the error, the
      image it stores, the old image it releases, and the row it would
      write (written only when there is no error). */
  datatype MaterialDecision = MaterialDecision(
    error: Option<FormError>,
    stored: Option<string>,
    released: Option<string>,
    data: Models.MaterialRow)

  /** An upload is attempted for an image material whose `$_FILES['image']['name']`
      is not empty. */
  predicate UploadAttempted(post: MaterialPost, file: Option<Uploads.FileField>)
  {
    post.fileType == "image" && file.Some? && !IsEmpty(file.value.name)
  }

  predicate PassesBasicChecks(post: MaterialPost)
  {
    !IsEmpty(Trim(post.title)) && post.sectionId != 0 && post.fileType in FileTypes
  }

  /** The three checks of admin.php:66-71, first failure wins. */
  function BasicCheck(data: Models.MaterialRow): (e: Option<FormError>)
    ensures e == Some(TitleRequired) <==> IsEmpty(data.title)
    ensures e == Some(SectionRequired) <==> !IsEmpty(data.title) && data.sectionId == 0
    ensures e == Some(InvalidFileType) <==> !IsEmpty(data.title) && data.sectionId != 0 && data.fileType !in FileTypes
    ensures e.None? || e == Some(TitleRequired) || e == Some(SectionRequired) || e == Some(InvalidFileType)
  {
    if IsEmpty(data.title) then Some(TitleRequired)
    else if data.sectionId == 0 then Some(SectionRequired)
    else if data.fileType !in FileTypes then Some(InvalidFileType)
    else None
  }

  /** The upload step (admin.php:74-85): store the new image, then release
      the old one when editing; a failed upload records an error. */
  function UploadStep(id: int, data: Models.MaterialRow, file: Option<Uploads.FileField>,
                      token: string, moved: bool): (u: MaterialDecision)
    ensures u.released.Some? ==> u.stored.Some? && id > 0 && Truthy(data.imagePath) && u.released == data.imagePath
    ensures u.error.Some? ==> u.stored.None? && u.error == Some(UploadFailed)
    ensures u.stored.Some? ==> u.data == data.(imagePath := u.stored)
    ensures u.stored.None? ==> u.data == data && u.released.None?
  {
    if data.fileType == "image" && file.Some? && !IsEmpty(file.value.name) then
      var upload := Uploads.UploadResult(file.value, token, moved);
      if Truthy(upload) then
        var released := if id > 0 && Truthy(data.imagePath) then data.imagePath else None;
        MaterialDecision(None, upload, released, data.(imagePath := upload))
      else
        MaterialDecision(Some(UploadFailed), None, None, data)
    else
      MaterialDecision(None, None, None, data)
  }

  /** admin.php:88-92: the type decides which reference field is kept. */
  function ClearByType(data: Models.MaterialRow): (r: Models.MaterialRow)
    ensures r.fileType == "image" ==> r.fileUrl.None? && r.imagePath == data.imagePath
    ensures r.fileType != "image" ==> r.imagePath.None? && r.fileUrl == data.fileUrl
    ensures r.(fileUrl := data.fileUrl, imagePath := data.imagePath) == data
  {
    if data.fileType == "image" then data.(fileUrl := None) else data.(imagePath := None)
  }

  /** admin.php:95-101: a YouTube link must be present and hold a video id. */
  function YouTubeCheck(data: Models.MaterialRow, error: Option<FormError>): (e: Option<FormError>)
    ensures e == error || e == Some(YouTubeUrlRequired) || e == Some(InvalidYouTubeUrl)
    ensures data.fileType != "youtube" ==> e == error
    ensures data.fileType == "youtube" ==>
              && (!Truthy(data.fileUrl) ==> e == Some(YouTubeUrlRequired))
              && (Truthy(data.fileUrl) && Embed.VideoId(data.fileUrl.value).None? ==> e == Some(InvalidYouTubeUrl))
              && (Truthy(data.fileUrl) && Embed.VideoId(data.fileUrl.value).Some? ==> e == error)
  {
    if data.fileType == "youtube" then
      if !Truthy(data.fileUrl) then Some(YouTubeUrlRequired)
      else if Embed.VideoId(data.fileUrl.value).None? then Some(InvalidYouTubeUrl)
      else error
    else error
  }

  /** The `material-form` handler (admin.php:55-114) as a decision.  `token`
      and `moved` are the upload's name token and the outcome of moving it. */
  function MaterialForm(post: MaterialPost, file: Option<Uploads.FileField>, token: string, moved: bool): (d: MaterialDecision)
    ensures d.error == Some(TitleRequired) <==> IsEmpty(Trim(post.title))
    ensures d.error == Some(SectionRequired) <==> !IsEmpty(Trim(post.title)) && post.sectionId == 0
    ensures d.error == Some(InvalidFileType)
        <==> !IsEmpty(Trim(post.title)) && post.sectionId != 0 && post.fileType !in FileTypes
    ensures !PassesBasicChecks(post) ==> d.stored.None? && d.released.None?
  {
    var data := InitialData(post);
    var basic := BasicCheck(data);
    if basic.Some? then MaterialDecision(basic, None, None, data)
    else
      var u := UploadStep(post.id, data, file, token, moved);
      var cleared := ClearByType(u.data);
      var e := YouTubeCheck(cleared, u.error);
      assert e.None? || e == Some(UploadFailed) || e == Some(YouTubeUrlRequired) || e == Some(InvalidYouTubeUrl);
      MaterialDecision(e, u.stored, u.released, cleared)
  }

  /** A stored upload name is truthy ("img_…" is neither "" nor "0"). */
  lemma StoredNameTruthy(file: Uploads.FileField, token: string, moved: bool)
    ensures Uploads.UploadResult(file, token, moved).Some? ==> Truthy(Uploads.UploadResult(file, token, moved))
  {
  }

  /** Once the three checks pass, the type decides which reference field
      is kept: `file_url` is null for an image, `image_path` for the others,
      with or without an upload. */
  lemma TypeClearsOtherField(post: MaterialPost, file: Option<Uploads.FileField>, token: string, moved: bool)
    requires PassesBasicChecks(post)
    ensures var d := MaterialForm(post, file, token, moved);
            && (post.fileType == "image" ==> d.data.fileUrl.None?)
            && (post.fileType != "image" ==> d.data.imagePath.None? && d.data.fileUrl == Some(Trim(post.fileUrl)))
  {
  }

  /** The section id is only checked to be non-zero: a submission naming
      any other id, existing or not, gets past that check. */
  lemma SectionIdOnlyNonZero(post: MaterialPost, file: Option<Uploads.FileField>, token: string, moved: bool)
    requires !IsEmpty(Trim(post.title)) && post.sectionId != 0
    ensures MaterialForm(post, file, token, moved).error != Some(SectionRequired)
    ensures MaterialForm(post, file, token, moved).data.sectionId == post.sectionId
  {
    var data := InitialData(post);
    if BasicCheck(data).None? {
      var u := UploadStep(post.id, data, file, token, moved);
      assert u.data.sectionId == post.sectionId;
      assert MaterialForm(post, file, token, moved).data == ClearByType(u.data);
    }
  }

  /** The form saves the trimmed title and description, the posted section
      id and file type: the row it decides differs from `$data` as first
      built only in `file_url` and `image_path`. */
  lemma FormKeepsPostedFields(post: MaterialPost, file: Option<Uploads.FileField>, token: string, moved: bool)
    ensures var d := MaterialForm(post, file, token, moved);
            && d.data.title == Trim(post.title) && d.data.description == Some(Trim(post.description))
            && d.data.sectionId == post.sectionId && d.data.fileType == post.fileType
    ensures var d, data := MaterialForm(post, file, token, moved), InitialData(post);
            d.data.(fileUrl := data.fileUrl, imagePath := data.imagePath) == data
  {
    var data := InitialData(post);
    var d := MaterialForm(post, file, token, moved);
    if BasicCheck(data).None? {
      var u := UploadStep(post.id, data, file, token, moved);
      assert d.data == ClearByType(u.data);
      assert u.data.(imagePath := data.imagePath) == data;
      assert d.data.(fileUrl := u.data.fileUrl, imagePath := u.data.imagePath) == u.data;
    } else {
      assert d.data == data;
    }
  }

  /** A title of "0" counts as missing, like "" (PHP `empty`). */
  lemma ZeroTitleRejected(post: MaterialPost, file: Option<Uploads.FileField>, token: string, moved: bool)
    requires Trim(post.title) == "0"
    ensures MaterialForm(post, file, token, moved).error == Some(TitleRequired)
  {
    EmptyIsShort(Trim(post.title));
  }

  /** An example of such a title: " 0 " trims to "0". */
  lemma SpacedZeroTrims(t: string)
    requires t == " 0 "
    ensures Trim(t) == "0"
  {
    var u := t[1..];
    assert t[0] == ' ' && u == "0 ";
    assert TrimStart(t) == TrimStart(u) == u;
    assert u[..1] == "0";
    assert TrimEnd(u) == TrimEnd("0") == "0";
  }

  /** YouTube materials: an empty link and a link without a video id are
      the two errors; a link with an id is accepted. */
  lemma YouTubeChecks(post: MaterialPost, file: Option<Uploads.FileField>, token: string, moved: bool)
    requires PassesBasicChecks(post) && post.fileType == "youtube"
    ensures var d := MaterialForm(post, file, token, moved);
            && (d.error == Some(YouTubeUrlRequired) <==> IsEmpty(Trim(post.fileUrl)))
            && (d.error == Some(InvalidYouTubeUrl)
                <==> !IsEmpty(Trim(post.fileUrl)) && Embed.VideoId(Trim(post.fileUrl)).None?)
            && (d.error.None? <==> Embed.VideoId(Trim(post.fileUrl)).Some? && !IsEmpty(Trim(post.fileUrl)))
            && d.stored.None? && d.released.None?
  {
  }

  /** The Drive types take any link, even an empty one. */
  lemma DriveTypesAcceptAnyLink(post: MaterialPost, file: Option<Uploads.FileField>, token: string, moved: bool)
    requires PassesBasicChecks(post) && (post.fileType == "gdrive_pdf" || post.fileType == "gdrive_word")
    ensures MaterialForm(post, file, token, moved).error.None?
    ensures MaterialForm(post, file, token, moved).data.fileUrl == Some(Trim(post.fileUrl))
  {
    var data := InitialData(post);
    assert BasicCheck(data).None?;
    var u := UploadStep(post.id, data, file, token, moved);
    assert u.data == data && u.error.None?;
    var cleared := ClearByType(u.data);
    assert cleared.fileUrl == data.fileUrl;
    assert YouTubeCheck(cleared, u.error) == None;
  }

  /** The old image is released only after a successful upload, only when
      editing (id > 0) and only when `existing_image` is truthy; the name
      released is the posted `existing_image`, not the stored row's. */
  lemma ReleaseOnlyAfterStore(post: MaterialPost, file: Option<Uploads.FileField>, token: string, moved: bool)
    ensures var d := MaterialForm(post, file, token, moved);
            d.released.Some? <==> d.stored.Some? && post.id > 0 && Truthy(post.existingImage)
    ensures var d := MaterialForm(post, file, token, moved);
            d.released.Some? ==> d.released == post.existingImage
  {
    if file.Some? {
      StoredNameTruthy(file.value, token, moved);
    }
  }

  /** A rejected submission stores no image and releases none: no blob is
      left behind by a failed save. */
  lemma ErrorLeavesNoBlob(post: MaterialPost, file: Option<Uploads.FileField>, token: string, moved: bool)
    ensures var d := MaterialForm(post, file, token, moved);
            d.error.Some? ==> d.stored.None? && d.released.None?
  {
  }

  /** An upload that is stored becomes the row's `image_path`, and it is
      exactly what `uploadImage` returned. */
  lemma StoredBecomesImagePath(post: MaterialPost, file: Option<Uploads.FileField>, token: string, moved: bool)
    ensures var d := MaterialForm(post, file, token, moved);
            d.stored.Some? ==> && post.fileType == "image" && d.error.None?
                               && d.data.imagePath == d.stored
                               && d.stored == Uploads.UploadResult(file.value, token, moved)
  {
    var d := MaterialForm(post, file, token, moved);
    var data := InitialData(post);
    if d.stored.Some? {
      assert BasicCheck(data).None?;
      var u := UploadStep(post.id, data, file, token, moved);
      assert d.stored == u.stored && d.data == ClearByType(u.data);
      assert data.fileType == "image" && file.Some? && !IsEmpty(file.value.name);
      assert u.stored == Uploads.UploadResult(file.value, token, moved);
    }
  }

  /** An image material saved without a new upload keeps the posted
      `existing_image` as it is (null or "" on create). */
  lemma ImageWithoutUploadKeepsExisting(post: MaterialPost, file: Option<Uploads.FileField>, token: string, moved: bool)
    requires PassesBasicChecks(post) && post.fileType == "image" && !UploadAttempted(post, file)
    ensures var d := MaterialForm(post, file, token, moved);
            d.error.None? && d.data.imagePath == post.existingImage && d.stored.None? && d.released.None?
  {
  }

  /** Changing an image material to another type drops its `image_path`
      but releases nothing: the old file stays in the upload directory. */
  lemma TypeChangeKeepsOldBlob(post: MaterialPost, file: Option<Uploads.FileField>, token: string, moved: bool)
    requires PassesBasicChecks(post) && post.fileType != "image"
    ensures var d := MaterialForm(post, file, token, moved);
            d.data.imagePath.None? && d.released.None? && d.stored.None?
  {
  }

  /** A failed upload is reported and keeps the row from being written. */
  lemma FailedUploadRejected(post: MaterialPost, file: Uploads.FileField, token: string, moved: bool)
    requires PassesBasicChecks(post) && UploadAttempted(post, Some(file))
    requires Uploads.UploadResult(file, token, moved).None?
    ensures MaterialForm(post, Some(file), token, moved).error == Some(UploadFailed)
  {
  }

  /** An attempted upload that `uploadImage` accepts is stored, becomes the
      row's `image_path`, and the submission has no error. */
  lemma SuccessfulUploadAdopted(post: MaterialPost, file: Uploads.FileField, token: string, moved: bool)
    requires PassesBasicChecks(post) && UploadAttempted(post, Some(file))
    requires Uploads.UploadResult(file, token, moved).Some?
    ensures var d := MaterialForm(post, Some(file), token, moved);
            && d.stored == Uploads.UploadResult(file, token, moved)
            && d.error.None?
            && d.data.imagePath == d.stored
  {
    StoredNameTruthy(file, token, moved);
  }

  function SetOf(x: Option<string>): set<string>
  {
    if x.Some? then {x.value} else {}
  }

  /** The upload step of the handler on the upload directory: the new
      image is stored before the old one is released. */
  method StoreUpload(disk: Uploads.Disk, id: int, data: Models.MaterialRow, file: Option<Uploads.FileField>,
                     token: string, moved: bool) returns (u: MaterialDecision)
    modifies disk
    ensures u == UploadStep(id, data, file, token, moved)
    ensures disk.files == (old(disk.files) + SetOf(u.stored)) - SetOf(u.released)
  {
    u := MaterialDecision(None, None, None, data);
    if data.fileType == "image" && file.Some? && !IsEmpty(file.value.name) {
      var uploadedImage := disk.UploadImage(file.value, token, moved);
      if Truthy(uploadedImage) {
        var released := None;
        if id > 0 && Truthy(data.imagePath) {
          disk.DeleteImage(data.imagePath.value);
          released := data.imagePath;
        }
        u := MaterialDecision(None, uploadedImage, released, data.(imagePath := uploadedImage));
      } else {
        u := u.(error := Some(UploadFailed));
      }
    }
  }

  /** The `material-form` handler (admin.php:55-114), step by step; the
      row is written only when no error was recorded. */
  method HandleMaterialForm(db: Models.Database, post: MaterialPost, file: Option<Uploads.FileField>,
                            token: string, moved: bool) returns (error: Option<FormError>)
    requires db.Valid()
    modifies db, db.disk
    ensures db.Valid()
    ensures var d := MaterialForm(post, file, token, moved);
            && error == d.error
            && db.disk.files == (old(db.disk.files) + SetOf(d.stored)) - SetOf(d.released)
    ensures var d := MaterialForm(post, file, token, moved);
            && (d.error.Some? ==> db.materials == old(db.materials))
            && (d.error.None? && post.id > 0 ==>
                  db.materials == if post.id in old(db.materials) then old(db.materials)[post.id := d.data]
                                  else old(db.materials))
            && (d.error.None? && post.id <= 0 ==>
                  db.materials == old(db.materials)[old(db.nextMaterialId) := d.data])
    ensures db.sections == old(db.sections)
  {
    ghost var d := MaterialForm(post, file, token, moved);
    var id := post.id;
    var data := InitialData(post);
    error := BasicCheck(data);
    if error.None? {
      var u := StoreUpload(db.disk, id, data, file, token, moved);
      data := ClearByType(u.data);
      error := YouTubeCheck(data, u.error);
      assert d == MaterialDecision(error, u.stored, u.released, data);
      if error.None? {
        if id > 0 {
          db.UpdateMaterial(id, data);
        } else {
          var created := db.CreateMaterial(data);
        }
      }
    } else {
      assert d == MaterialDecision(error, None, None, data);
    }
  }
}
