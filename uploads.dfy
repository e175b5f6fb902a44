/**
 * Image uploads and the blob store (config.php:22-23, 112-149).
 *
 * The upload directory is modelled as the set of file names it holds.
 * `uniqid('img_')` is a name token supplied by the caller, and the outcome of
 * `move_uploaded_file` is a parameter: the byte transfer is not modelled.
 */
module Uploads {
  import opened Php

  /** `UPLOAD_ERR_OK` */
  const UploadErrOk := 0
  /** `MAX_FILE_SIZE`: 5 MiB. */
  const MaxFileSize := 5 * 1024 * 1024
  /** `ALLOWED_EXTENSIONS` */
  const AllowedExtensions: seq<string> := ["jpg", "jpeg", "png", "gif", "webp"]
  const StoredNamePrefix := "img_"

  /** One entry of `$_FILES`: the client's file name, the size in bytes and
      the upload error code. */
  datatype FileField = FileField(name: string, size: int, error: int)

  /** `pathinfo($name, PATHINFO_EXTENSION)`: the text after the last '.',
      or "" when there is no '.'. */
  function Extension(name: string): (e: string)
    ensures '.' !in e
    ensures '.' in name ==> |e| < |name| && name[|name| - |e| - 1] == '.' && e == name[|name| - |e|..]
    ensures '.' !in name ==> e == ""
  {
    if name == [] then ""
    else if name[|name| - 1] == '.' then ""
    else
      var init := name[..|name| - 1];
      assert name == init + [name[|name| - 1]];
      if '.' in init then
        var e := Extension(init);
        assert init[|init| - |e|..] + [name[|name| - 1]] == name[|name| - |e| - 1..];
        e + [name[|name| - 1]]
      else ""
  }

  /** The lower-cased extension `uploadImage` checks and keeps. */
  function LowerExtension(name: string): string
  {
    AsciiLower(Extension(name))
  }

  /** The three checks `uploadImage` makes before touching the disk. */
  predicate Acceptable(file: FileField)
  {
    && file.error == UploadErrOk
    && file.size <= MaxFileSize
    && LowerExtension(file.name) in AllowedExtensions
  }

  function StoredName(token: string, ext: string): string
  {
    StoredNamePrefix + token + "." + ext
  }

  /** What `uploadImage` returns, given the name token and whether the move
      into the upload directory succeeded. */
  function UploadResult(file: FileField, token: string, moved: bool): (r: Option<string>)
    ensures file.error != UploadErrOk ==> r.None?
    ensures file.size > MaxFileSize ==> r.None?
    ensures LowerExtension(file.name) !in AllowedExtensions ==> r.None?
    ensures !moved ==> r.None?
    ensures r.Some? <==> Acceptable(file) && moved
    ensures r.Some? ==> r.value == StoredName(token, LowerExtension(file.name))
  {
    if file.error != UploadErrOk then None
    else if file.size > MaxFileSize then None
    else if LowerExtension(file.name) !in AllowedExtensions then None
    else if moved then Some(StoredName(token, LowerExtension(file.name)))
    else None
  }

  /** The extension is everything after the last '.'. */
  lemma {:induction false} ExtensionAfterLastDot(stem: string, ext: string)
    requires '.' !in ext
    ensures Extension(stem + "." + ext) == ext
    decreases |ext|
  {
    var name := stem + "." + ext;
    if ext == [] {
      assert name[|name| - 1] == '.';
    } else {
      var last := ext[|ext| - 1];
      var front := ext[..|ext| - 1];
      assert ext == front + [last];
      assert last in ext;
      assert name[..|name| - 1] == stem + "." + front;
      assert (stem + "." + front)[|stem|] == '.';
      ExtensionAfterLastDot(stem, front);
    }
  }

  /** The stored name keeps the extension it was given. */
  lemma StoredNameExtension(token: string, ext: string)
    requires '.' !in ext
    ensures Extension(StoredName(token, ext)) == ext
  {
    ExtensionAfterLastDot(StoredNamePrefix + token, ext);
  }

  lemma AsciiLowerTwice(s: string)
    ensures AsciiLower(AsciiLower(s)) == AsciiLower(s)
  {
    var l := AsciiLower(s);
    forall i | 0 <= i < |s| ensures AsciiLower(l)[i] == l[i] {
      assert l[i] == LowerChar(s[i]);
    }
  }

  lemma LowerKeepsNoDot(e: string)
    requires '.' !in e
    ensures '.' !in AsciiLower(e)
  {
    var l := AsciiLower(e);
    forall i | 0 <= i < |e| ensures l[i] != '.' {
      assert e[i] in e;
    }
  }

  /** A stored image would pass the extension check again: its name ends
      in the lower-case, allowed extension. */
  lemma StoredNameIsAllowed(file: FileField, token: string, moved: bool)
    requires UploadResult(file, token, moved).Some?
    ensures LowerExtension(UploadResult(file, token, moved).value) in AllowedExtensions
  {
    var ext := LowerExtension(file.name);
    LowerKeepsNoDot(Extension(file.name));
    StoredNameExtension(token, ext);
    AsciiLowerTwice(Extension(file.name));
  }

  /** The size bound is inclusive: exactly 5 MiB is accepted. */
  lemma FiveMiBAccepted(token: string)
    ensures UploadResult(FileField("photo.JPG", 5 * 1024 * 1024, 0), token, true)
         == Some("img_" + token + ".jpg")
    ensures UploadResult(FileField("photo.JPG", 5 * 1024 * 1024 + 1, 0), token, true).None?
  {
    PhotoJpgExtension();
    var file := FileField("photo.JPG", 5 * 1024 * 1024, 0);
    assert AllowedExtensions[0] == "jpg";
    assert Acceptable(file);
    assert UploadResult(file, token, true) == Some(StoredName(token, "jpg"));
    assert StoredName(token, "jpg") == "img_" + token + ".jpg";
  }

  lemma PhotoJpgExtension()
    ensures LowerExtension("photo.JPG") == "jpg"
  {
    assert "photo.JPG" == "photo" + "." + "JPG";
    ExtensionAfterLastDot("photo", "JPG");
    LowerJpg();
  }

  lemma LowerJpg()
    ensures AsciiLower("JPG") == "jpg"
  {
    var l := AsciiLower("JPG");
    assert l[0] == LowerChar('J') == 'j';
    assert l[1] == LowerChar('P') == 'p';
    assert l[2] == LowerChar('G') == 'g';
  }

  class Disk {
    /** The names of the files in the upload directory. */
    var files: set<string>

    constructor (initial: set<string>)
      ensures files == initial
    {
      files := initial;
    }

    /** `uploadImage`: the three rejections leave the directory alone; a
        successful move adds exactly the returned name. */
    method UploadImage(file: FileField, token: string, moved: bool) returns (r: Option<string>)
      modifies this
      ensures r == UploadResult(file, token, moved)
      ensures r.Some? ==> files == old(files) + {r.value}
      ensures r.None? ==> files == old(files)
    {
      if file.error != UploadErrOk {
        return None;
      }
      if file.size > MaxFileSize {
        return None;
      }
      var ext := AsciiLower(Extension(file.name));
      if ext !in AllowedExtensions {
        return None;
      }
      var filename := StoredNamePrefix + token + "." + ext;
      if moved {
        files := files + {filename};
        return Some(filename);
      }
      return None;
    }

    /** `deleteImage`: removes the file if it is there; every other file
        stays.  A second call with the same name changes nothing. */
    method DeleteImage(name: string)
      modifies this
      ensures files == old(files) - {name}
    {
      if name in files {
        files := files - {name};
      }
    }
  }
}
