# Course materials panel — material-reference core in Dafny

The panel is a PHP site where an administrator files course material into
sections. Each material is a Google Drive PDF or Word link, a YouTube
video, or an uploaded image. This project models the part of it that
decides what gets stored and what gets shown:

- **Reference normalisers** (`config.php`, module `Slug`, `ClientSlug`, `Embed`):
  - `generateSlug`, together with the browser's `generateSlug` in `assets/js/main.js`.
  - The Google Drive embed rewrite.
  - YouTube video-id extraction and the YouTube embed URL.
  - The regular expressions are explicit scans: leftmost match position, alternatives tried in order, greedy or fixed-length capture.
- **Image uploads** (`config.php`, module `Uploads`):
  - `uploadImage` and `deleteImage` over an upload directory, which is modelled as a set of file names (class `Uploads.Disk`).
- **Model layer** (`classes.php`, module `Models`):
  - The `sections` and `materials` tables as maps from id to row, with AUTO_INCREMENT counters and the upload directory (class `Models.Database`).
  - Row creation, update and deletion, slug lookup and counts.
- **Admin form handlers** (`admin.php`, module `Admin`):
  - The section form and the material form, each written as a method over the database.
  - The material form is tied to a pure decision (`Admin.MaterialForm`), which is what the lemmas are about.
- **Material page** (`material.php`, module `MaterialPage`):
  - The id guard, the type icon, the type badge and the preview dispatch.

`Php` holds the PHP runtime behaviour the rest relies on:
- `trim`;
- `empty` and truthiness, where "" and "0" are both false;
- `strtolower`, which changes only ASCII letters.

`index2.php` is a single-file copy of the site. It repeats the same code, and the members above model both copies:

| index2.php | same code as | members |
|---|---|---|
| 56-60 | config.php:52-56 | `Slug.GenerateSlug` |
| 67-75 | config.php:63-73 | `Embed.DriveEmbedUrl` |
| 77-105 | config.php:75-110 | `Embed.YouTubeEmbedUrl`, `Embed.VideoId` |
| 107-133 | config.php:112-149 | `Uploads.UploadResult`, `Uploads.Disk.UploadImage`, `Uploads.Disk.DeleteImage` |
| 156-305 | classes.php:55-233 | `Models.Database.*` |
| 327-344 | admin.php:34-53 | `Admin.HandleSectionForm` |
| 346-399 | admin.php:55-114 | `Admin.MaterialForm`, `Admin.HandleMaterialForm` |
| 408-416 | admin.php:120-128 | `Models.Database.DeleteSection`, `Models.Database.DeleteMaterial` |
| 3745-3767 | material.php:95-136 | `MaterialPage.PreviewOf` |

Where the intended behaviour and the code differ, the model follows the code:

- **Section slug.**
  - A section's slug is meant to be URL-safe.
  - The code stores the posted slug trimmed but otherwise verbatim. Only an empty or "0" slug is replaced by `generateSlug(name)`.
  - So `Admin.SectionSlug` is a URL-safe slug only on that fallback path, where it is exactly `generateSlug` of the trimmed name.
- **Section id on a material.**
  - A material is meant to belong to an existing section.
  - The handler only checks that `section_id` is non-zero (`Admin.SectionIdOnlyNonZero`).
  - `Material::getById` is an inner join, so a material saved under a missing section is "not found" on its page, and `Material::delete` does not release its image.
- **Upload order.**
  - The image is uploaded, and the old one released, before the YouTube check runs.
  - Only image materials upload, and the YouTube check applies only to YouTube materials, so a rejected submission never leaves a stored image behind (`Admin.ErrorLeavesNoBlob`).
- **Google Docs rewrite.**
  - The Docs branch of the Drive helper can never fire: every `/document/d/<id>` link also contains `/d/<id>`, which the first branch catches (`Embed.DocsImpliesDrive`).
  - Docs links therefore become `drive.google.com/file/d/<id>/preview`.
- **Section delete.**
  - `Section::delete` only deletes the section row. Its doc comment relies on the schema's cascading foreign key to remove the materials.
  - The model takes that cascade as a property of the store: the section's materials go with it when the section row existed. Materials saved under a missing section id stay, though their images are released.

## Model

| member | source | states |
|---|---|---|
| Php.TrimStart | admin.php:36 | the leading characters `trim()` removes are all from its list (space, tab, newline, carriage return, NUL, vertical tab), the rest is kept as a suffix and starts with none of them |
| Php.TrimEnd | admin.php:36 | the trailing removed characters are all from the list, the rest is kept as a prefix and ends with none of them |
| Php.Trim | admin.php:36-37 | the trimmed text neither starts nor ends with a listed character, is no longer than the input, and is the input itself when it holds none |
| Php.TrimKeepsMiddle | admin.php:36-37 | `trim()` removes only listed characters and only at the two ends: the result is the slice of the input that starts where the leading run stops |
| Php.EmptyIsShort | admin.php:39 | `empty()` holds of a string exactly when it is "" or the one character "0"; a string of two or more characters is truthy and null never is |
| Php.AsciiLower | config.php:55 | `strtolower` keeps the length and maps each character through the ASCII-only lower-casing |
| Slug.Filter | config.php:53 | the kept characters (ASCII letters, digits, whitespace, '-') are exactly the characters that survive, in at most the input's length |
| Slug.FilterConcat | config.php:53 | the filter works character by character and keeps order: filtering a concatenation concatenates the filtered parts |
| Slug.FilterDropsAll | config.php:53 | text with no kept character filters to "" |
| Slug.FilterKeepsPrefix | config.php:53 | kept characters followed by dropped ones filter to exactly the kept part |
| Slug.CollapseWords | config.php:54 | two words without separators joined by one space become the words joined by one '-' |
| Slug.HelloWorldSlug | config.php:52-56 | `generateSlug("Hello World!")` is "hello-world", stage by stage (filter, collapse, trim, lower) |
| Slug.Collapse | config.php:54 | replacing runs of whitespace and '-' by one '-' leaves no "--", keeps the input empty iff it was empty, and starts with '-' iff the input started with a separator |
| Slug.CollapseChars | config.php:54 | every character of the collapsed text is '-' or a non-separator of the input, and every non-separator of the input survives |
| Slug.TrimHyphens | config.php:55 | `trim($text, '-')` leaves no '-' at either end, keeps every other character, and keeps "no --" |
| Slug.GenerateSlug | config.php:52-56 | the slug holds only a-z, 0-9 and '-', never starts or ends with '-', and never holds "--" |
| Slug.GenerateSlugEmptyIff | config.php:52-56 | the slug is "" exactly when the text has no ASCII letter or digit |
| Slug.NoAlnumGivesEmpty | config.php:52-56 | text without ASCII letters or digits gives "" |
| Slug.AlnumSurvives | config.php:52-56 | text with an ASCII letter or digit gives a non-empty slug |
| Slug.SlugFixpoint | config.php:52-56 | a slug is its own slug |
| Slug.GenerateSlugIdempotent | config.php:52-56 | `generateSlug(generateSlug(x)) == generateSlug(x)` |
| Slug.SpaceClasses | assets/js/main.js:64-65 | PCRE's and JavaScript's `\s` agree on ASCII, slug characters are never whitespace, and ASCII lowering keeps the character classes |
| Slug.CollapsedIsAlnumOrHyphen | config.php:53-55 | after filtering, collapsing and trimming, only ASCII letters, digits and '-' remain, and in the browser's version no upper-case letter |
| Slug.LowerPreservesSlugShape | config.php:55 | lower-casing a hyphen-trimmed run of letters, digits and single hyphens gives a slug |
| ClientSlug.JsTrimStart | assets/js/main.js:63 | every removed leading character is JavaScript whitespace, the rest is kept as a suffix and does not start with whitespace |
| ClientSlug.JsTrimEnd | assets/js/main.js:63 | every removed trailing character is JavaScript whitespace, the rest is kept as a prefix and does not end with whitespace |
| ClientSlug.JsTrim | assets/js/main.js:63 | `trim()` leaves no whitespace at either end and never lengthens the text |
| ClientSlug.JsTrimKeepsMiddle | assets/js/main.js:63 | `trim()` removes only whitespace and only at the two ends: the result is the slice of the input that starts where the leading whitespace stops |
| ClientSlug.JsGenerateSlug | assets/js/main.js:60-67 | the browser's slug holds only a-z, 0-9 and '-', has no '-' at either end and no "--" |
| ClientSlug.JsSlugFixpoint | assets/js/main.js:60-67 | a slug is its own slug in the browser too |
| ClientSlug.JsGenerateSlugIdempotent | assets/js/main.js:60-67 | the browser's `generateSlug` is idempotent |
| ClientSlug.SlugHasNoSpace | assets/js/main.js:63-64 | a slug has no whitespace, so `trim` keeps it and the filter keeps every character |
| ClientSlug.TrimStartInvisible | assets/js/main.js:63 | trimming leading whitespace before filtering does not change the slug |
| ClientSlug.TrimEndInvisible | assets/js/main.js:63 | trimming trailing whitespace before filtering does not change the slug |
| ClientSlug.LeadingSepDropped | assets/js/main.js:65-66 | a leading separator is collapsed and then trimmed away |
| ClientSlug.TrailingSepDropped | assets/js/main.js:65-66 | a trailing separator is collapsed and then trimmed away |
| ClientSlug.LowerTrimHyphens | config.php:55 | lowering before or after trimming hyphens gives the same text, so `strtolower(trim(..))` and the browser's lower-first order agree |
| ClientSlug.ClientAgreesWithServer | assets/js/main.js:60-67 | for ASCII text the browser's slug equals the server's slug |
| ClientSlug.JsHelloWorldSlug | assets/js/main.js:60-67 | the browser also turns "Hello World!" into "hello-world" |
| Embed.RunLen | config.php:65 | `[a-zA-Z0-9_-]+` takes the maximal run of id characters |
| Embed.RunLenAtLeast | config.php:79 | a run of n id characters lets `{11}` match when n is at least 11 |
| Embed.FirstAltFrom | config.php:79 | at one position the alternatives are tried in order and the first that matches wins |
| Embed.Search | config.php:65 | the match is at the leftmost position where some alternative matches |
| Embed.CaptureStart | config.php:79 | the capture starts right after the matched alternative, which occurs at the match position, and at least `min` id characters follow it inside the text |
| Embed.DriveAltIff | config.php:65 | the Drive pattern matches at a position exactly when "/d/" and one id character start there |
| Embed.DriveEmbedRewrites | config.php:63-67 | a link whose leftmost "/d/" is followed by an id run of length n becomes "https://drive.google.com/file/d/" + that run + "/preview" |
| Embed.DriveEmbedUnchanged | config.php:63-72 | a link with no "/d/"+id anywhere is returned unchanged |
| Embed.DriveEmbedUrl | config.php:63-73 | with no "/d/"+id match the link is returned as it is; with one the result is "https://drive.google.com/file/d/" followed by more text, never rewritten into the docs.google.com preview form |
| Embed.DocsImpliesDrive | config.php:65-71 | every link the Docs pattern matches is already matched by the Drive pattern, so the Docs branch is dead |
| Embed.CapturedId | config.php:98-105 | the captured id is exactly 11 characters from `[A-Za-z0-9_-]` |
| Embed.VideoIdFrom | config.php:94-110 | the id is None iff no pattern matches; otherwise it is the capture of the first pattern that matches anywhere, and it is 11 id characters |
| Embed.VideoId | config.php:94-110 | `getYouTubeVideoId` gives 11 id characters or null; the standard pattern's capture wins when it matches anywhere, else the shorts pattern's capture, else null |
| Embed.EmbedFrom | config.php:84-91 | the `foreach` over the patterns returns the embed prefix plus the first pattern's capture when one matches, else the link unchanged |
| Embed.YouTubeEmbedUrl | config.php:75-92 | `getYouTubeEmbedUrl(u)` is "https://www.youtube.com/embed/" + `getYouTubeVideoId(u)` when there is an id, `u` otherwise |
| Embed.EmbedLinkId | config.php:79 | an embed link gives back its own id |
| Embed.YouTubeEmbedIdempotent | config.php:75-92 | `getYouTubeEmbedUrl` is idempotent on its own output |
| Embed.WatchHitAt | config.php:98 | a watch, youtu.be or embed prefix followed by an id matches there and captures that id |
| Embed.WatchLinkId | config.php:98 | a link whose text before one of the three standard prefixes holds no lower-case 'y' (so no earlier match is possible) yields the eleven id characters after that prefix |
| Embed.ShortsNotWatch | config.php:98-100 | the shorts prefix does not match the standard pattern |
| Embed.ShortsLinkId | config.php:98-107 | a link made of a prefix, "youtube.com/shorts/", an 11-character id and a rest yields that id, provided none of the three parts holds a lower-case 'y' (so the standard pattern, tried first over the whole link, cannot match; `WatchBeatsEarlierShorts` shows what happens when it can) |
| Embed.LongRunTruncated | config.php:98 | a run longer than 11 characters is cut to its first 11 |
| Embed.NoIdWithoutY | config.php:96-109 | a link without a 'y' has no id |
| Embed.UpperCaseHostHasNoId | config.php:98-100 | matching is case-sensitive: an upper-case host gives no id |
| Embed.WatchBeatsEarlierShorts | config.php:103-107 | the standard pattern is tried over the whole link before the shorts pattern, even when a shorts link comes first |
| Uploads.Extension | config.php:123 | `pathinfo(.., PATHINFO_EXTENSION)` is the text after the last '.', and "" without a '.' |
| Uploads.ExtensionAfterLastDot | config.php:123 | the extension of stem + "." + ext is ext |
| Uploads.UploadResult | config.php:112-142 | null when the error code is not OK, the size exceeds 5 MiB, the lowered extension is not allowed, or the move fails; otherwise "img_" + token + "." + lowered extension |
| Uploads.StoredNameExtension | config.php:134 | the stored name's extension is the lowered extension it was built from |
| Uploads.StoredNameIsAllowed | config.php:123-138 | a stored name would pass the extension whitelist again |
| Uploads.FiveMiBAccepted | config.php:112-126 | exactly 5 MiB is accepted and "photo.JPG" is stored as ".jpg"; one byte more is refused |
| Uploads.Disk.UploadImage | config.php:112-142 | returns `UploadResult`; a success adds exactly the returned name, a refusal leaves the directory alone |
| Uploads.Disk.DeleteImage | config.php:144-149 | removes the named file if present and nothing else, so a second call changes nothing |
| Models.MaterialsOf | classes.php:147-152 | the rows of one section are exactly those with that `section_id` |
| Models.WithoutSection | classes.php:72 | the surviving materials are exactly those of other sections, unchanged |
| Models.Database.GetById | classes.php:157-168 | found iff the material and its section both exist; the result is the row joined with its section |
| Models.Database.SlugExists | classes.php:102-115 | true iff some section has that slug and is not `excludeId`; a null or 0 `excludeId` excludes nothing |
| Models.Database.MaterialCount | classes.php:92-97 | the number of materials with that `section_id`, never more than the total |
| Models.Database.Count | classes.php:229-233 | the total number of materials |
| Models.Database.CreateSection | classes.php:55-60 | inserts one row under the next id, returns that id, and touches nothing else |
| Models.Database.UpdateSection | classes.php:65-69 | overwrites the row with that id, if any, and nothing else |
| Models.Database.DeleteSection | classes.php:74-87 | releases the truthy `image_path` of every material with that `section_id` and no other file, removes the section row, drops that section's materials only when the row existed (the cascade acts on deleted rows), and leaves other materials as they were |
| Models.Database.CreateMaterial | classes.php:173-188 | stores the six fields as given ("" stays "", null stays NULL) under the next id and returns it |
| Models.Database.UpdateMaterial | classes.php:193-209 | overwrites all six fields of that row and no other row |
| Models.Database.DeleteMaterial | classes.php:214-224 | releases the image only when `getById` finds the material and its path is truthy, then removes only that row |
| Admin.Message | admin.php:40-99 | every error has a message that PHP's `empty` does not treat as "no error", as written in the handlers |
| Admin.SectionSlug | admin.php:37 | the trimmed posted slug verbatim when it is not "" or "0", otherwise exactly `generateSlug` of the trimmed name (a slug) |
| Admin.ExcludeId | admin.php:41 | `$id ?: null` is null exactly for id 0 |
| Admin.HandleSectionForm | admin.php:34-53 | a missing name, then a taken slug, are the only errors; otherwise it updates (id > 0) or creates the section; materials are untouched and unique slugs stay unique |
| Admin.SavePreservesUniqueness | admin.php:41-50 | writing a slug no other section holds, to the edited row or a new one, keeps slugs unique |
| Admin.InitialData | admin.php:56-64 | the `$data` array holds the trimmed title, description and link, and the section id, file type and `existing_image` as posted |
| Admin.BasicCheck | admin.php:66-71 | empty title, then section id 0, then an unknown type: the first failure wins |
| Admin.UploadStep | admin.php:74-85 | a stored upload becomes `image_path`; the old image is released only after a store, on edit, when it is truthy; a failed upload is an error and changes nothing |
| Admin.ClearByType | admin.php:88-92 | `file_url` is cleared for images and `image_path` for every other type; nothing else changes |
| Admin.YouTubeCheck | admin.php:95-101 | a YouTube material needs a non-empty link with a video id; other types keep the earlier error |
| Admin.MaterialForm | admin.php:55-114 | the three basic errors in order, and nothing is stored or released when they fail |
| Admin.FormKeepsPostedFields | admin.php:57-92 | the decided row holds the trimmed title and description and the posted section id and file type; it differs from the initial `$data` only in `file_url` and `image_path` |
| Admin.StoredNameTruthy | config.php:134 | a stored name is never "" or "0" |
| Admin.TypeClearsOtherField | admin.php:88-92 | past the basic checks, an image keeps no link and other types keep no image path, with or without an upload |
| Admin.SectionIdOnlyNonZero | admin.php:58-69 | any non-zero section id passes the section check and is saved as given |
| Admin.ZeroTitleRejected | admin.php:59-67 | any title that trims to "0" counts as missing |
| Admin.SpacedZeroTrims | admin.php:59 | an example of such a title: " 0 " trims to "0" |
| Admin.YouTubeChecks | admin.php:94-101 | for YouTube, an empty link is "required", a link without an id is "invalid", and a link with an id is accepted |
| Admin.DriveTypesAcceptAnyLink | admin.php:70-101 | Drive PDFs and Word links are accepted with any link, even "" |
| Admin.ReleaseOnlyAfterStore | admin.php:74-84 | the old image is released iff a new one was stored, the id is positive and `existing_image` is truthy, and the name released is the posted `existing_image` |
| Admin.ErrorLeavesNoBlob | admin.php:66-112 | a rejected submission stores no image and releases none |
| Admin.StoredBecomesImagePath | admin.php:74-81 | a stored upload is exactly what `uploadImage` returned and becomes `image_path` of an accepted image material |
| Admin.SuccessfulUploadAdopted | admin.php:74-81 | an attempted image upload that `uploadImage` accepts is stored, becomes `image_path`, and the submission has no error |
| Admin.ImageWithoutUploadKeepsExisting | admin.php:63-92 | an image material saved without an upload keeps `existing_image` verbatim |
| Admin.TypeChangeKeepsOldBlob | admin.php:88-92 | switching to a non-image type clears `image_path` but releases no file |
| Admin.FailedUploadRejected | admin.php:74-84 | an attempted upload that `uploadImage` refuses is reported as an upload failure |
| Admin.StoreUpload | admin.php:74-85 | performs the upload step on the directory: adds the stored name, then removes the released one |
| Admin.HandleMaterialForm | admin.php:55-114 | returns the decided error; changes the directory by exactly what was stored and released; writes the row only without an error (update for id > 0, create otherwise); sections untouched |
| MaterialPage.PageFor | material.php:10-24 | an id of 0 or less redirects, an id `getById` does not find is not found, otherwise the joined row is shown |
| MaterialPage.Icon | material.php:70-77 | the four known types get their own icons, and the default icon is used iff the type is unknown |
| MaterialPage.Unscore | material.php:84 | `str_replace('_', ' ', ..)` replaces each underscore with a space and keeps the rest |
| MaterialPage.UcFirst | material.php:84 | `ucfirst` raises the first character and keeps the rest |
| MaterialPage.Badge | material.php:83-84 | the label has underscores turned into spaces, the first letter raised, and no underscore left |
| MaterialPage.DrivePdfBadge | material.php:83-84 | "gdrive_pdf" is shown as "Gdrive pdf" |
| MaterialPage.PreviewOf | material.php:95-136 | an image iff the type is image and the path is truthy; a Drive frame of the Drive embed URL iff a Drive type has a truthy link; a YouTube frame of the embed URL + "?rel=0" iff YouTube has a truthy link; no preview otherwise |
| MaterialPage.YouTubeWithoutIdFramedAsIs | material.php:115-124 | a YouTube link without an id is still framed, as the link itself + "?rel=0" |
| MaterialPage.AcceptedYouTubePreview | material.php:115-124 | a YouTube material the form accepted previews as the embed player of the id the form validated |
| MaterialPage.UploadedImagePreview | material.php:96-101 | an image saved with a new upload previews that upload |
| MaterialPage.EmptyDriveLinkNoPreview | material.php:102-136 | a Drive material saved with an empty link shows no preview |

## Left out

- Database access is not modelled:
  - PDO, the `Database` singleton and the SQL text. The tables are in-memory maps.
  - MySQL collation. Slug equality is exact string equality, not case- or trailing-space-insensitive.
  - Unique or foreign-key constraints of the schema, which is not part of this model. Inserts are never refused.
- Section delete: the cascade from `sections` to `materials` is taken as the store's behaviour, and it removes materials only when a section row was deleted. The PHP code itself deletes only the section row.
- Row order is not modelled: `ORDER BY created_at` and the order in which `Section::delete` visits a section's materials are left open. Each material's image is released either way.
- Models.Database.GetById: the section's other columns (id, timestamps) are not modelled; only name and slug are joined.
- CSRF and sessions: token generation and checking are a gate the caller has already passed.
- HTTP plumbing: the redirects after a save, `http_response_code(404)` and `exit` are the `None` error and the `Page` states.
- Output escaping: `sanitize`/`htmlspecialchars` and all HTML rendering of the pages and the admin views.
- Filesystem details of uploads:
  - the byte transfer of `move_uploaded_file`, whose outcome is a parameter;
  - `mkdir`;
  - the concatenation with `UPLOAD_PATH`, including path traversal through `existing_image`.
- `uniqid('img_')` is a caller-supplied name token.
- Uploads.Extension: `pathinfo` first takes the base name after the last '/'. The model works on the file name as the client sent it.
- Integer casts: the `(int)` casts of posted ids are taken as already applied, and ids are unbounded integers.
- ClientSlug.JsGenerateSlug: `toLowerCase` is modelled on ASCII letters only, because full Unicode case mapping is not available. For non-ASCII text the browser's slug is therefore not pinned to its exact JavaScript value.
- Regular expressions: only the fixed-prefix and character-class scans the helpers use are modelled, not a general regex engine.
- Browser behaviour in `main.js`: the DOM handlers (slug auto-fill, delete confirmation, alert timers, smooth scrolling, image preview) are event-driven UI.
- MaterialPage.PreviewOf: the image preview carries the stored `image_path`. The `UPLOAD_URL` prefix and the escaping of the `src` attribute are not modelled.
