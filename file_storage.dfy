/** FileStorageService: validation of uploaded post images, the relative path
    each image is stored under, and the guard every relative path passes
    before it is resolved against the upload directory. The directory itself
    is modelled as the set of relative paths that hold a file. */
module FileStorage {
  import opened Common
  import opened Exceptions

  /** An uploaded multipart file: its declared content type and its size in bytes. */
  datatype Upload = Upload(contentType: Option<string>, size: nat)

  /** MultipartFile.isEmpty: no content. */
  predicate IsEmptyUpload(f: Upload)
  {
    f.size == 0
  }

  const ALLOWED_CONTENT_TYPES: set<string> := {"image/jpeg", "image/png"}

  /** 5 MiB. */
  const MAX_SIZE_BYTES: nat := 5 * 1024 * 1024

  const ONLY_JPEG_AND_PNG := "Only JPEG and PNG images are allowed"
  const TOO_LARGE := "Image size must not exceed 5MB"
  const INVALID_PATH := "Invalid path"

  /** The two checks of savePostImage, content type first: None when the upload is acceptable. */
  function ValidateImage(f: Upload): (r: Option<Exception>)
    ensures r.None? <==> f.contentType.Some? && f.contentType.value in ALLOWED_CONTENT_TYPES
                         && f.size <= MAX_SIZE_BYTES
    ensures (f.contentType.None? || f.contentType.value !in ALLOWED_CONTENT_TYPES) ==>
      r == Some(BadRequest(ONLY_JPEG_AND_PNG))
    ensures f.contentType.Some? && f.contentType.value in ALLOWED_CONTENT_TYPES && f.size > MAX_SIZE_BYTES ==>
      r == Some(BadRequest(TOO_LARGE))
  {
    if f.contentType.None? || f.contentType.value !in ALLOWED_CONTENT_TYPES then
      Some(BadRequest(ONLY_JPEG_AND_PNG))
    else if f.size > MAX_SIZE_BYTES then
      Some(BadRequest(TOO_LARGE))
    else
      None
  }

  /** The file extension chosen from the content type. */
  function Extension(contentType: string): (ext: string)
    ensures ext == "png" <==> contentType == "image/png"
    ensures ext == "png" || ext == "jpg"
  {
    if contentType == "image/png" then "png" else "jpg"
  }

  predicate IsLowerHex(c: char)
  {
    ('0' <= c <= '9') || ('a' <= c <= 'f')
  }

  /** UUID.toString: 36 characters, dashes at 8, 13, 18 and 23, lower-case hex elsewhere. */
  predicate IsUuid(u: string)
  {
    |u| == 36
    && forall i :: 0 <= i < 36 ==>
         if i == 8 || i == 13 || i == 18 || i == 23 then u[i] == '-' else IsLowerHex(u[i])
  }

  /** "posts/" + postId + "/" + uuid + "." + extension. */
  function RelativePath(postId: Id, uuid: string, ext: string): string
  {
    "posts/" + IdToString(postId) + "/" + uuid + "." + ext
  }

  /** String.contains(".."). */
  predicate ContainsDotDot(s: string)
  {
    exists i :: 0 <= i < |s| - 1 && s[i] == '.' && s[i + 1] == '.'
  }

  /** resolveAndValidateRelative: a path holding ".." anywhere is refused. The
      resolved path is identified with the relative one. */
  function ResolveAndValidateRelative(relativePath: string): (r: Result<string>)
    ensures r.Err? <==> ContainsDotDot(relativePath)
    ensures r.Err? ==> r.error == BadRequest(INVALID_PATH)
    ensures r.Ok? ==> r.value == relativePath
  {
    if ContainsDotDot(relativePath) then Err(BadRequest(INVALID_PATH)) else Ok(relativePath)
  }

  predicate NoDot(s: string)
  {
    forall i :: 0 <= i < |s| ==> s[i] != '.'
  }

  /** A single dot between two dot-free parts makes no "..". */
  lemma SingleDotIsSafe(a: string, b: string)
    requires NoDot(a) && NoDot(b)
    ensures !ContainsDotDot(a + "." + b)
  {
    var s := a + "." + b;
    forall i | 0 <= i < |s| - 1
      ensures !(s[i] == '.' && s[i + 1] == '.')
    {
      if i < |a| {
        assert s[i] == a[i];
      } else if i > |a| {
        assert s[i] == b[i - |a| - 1];
      } else {
        assert s[i + 1] == b[0];
      }
    }
  }

  /** The paths savePostImage builds never contain "..", so its own guard never refuses them. */
  lemma GeneratedPathIsSafe(postId: Id, uuid: string, ext: string)
    requires IsUuid(uuid) && (ext == "png" || ext == "jpg")
    ensures !ContainsDotDot(RelativePath(postId, uuid, ext))
    ensures ResolveAndValidateRelative(RelativePath(postId, uuid, ext)) == Ok(RelativePath(postId, uuid, ext))
  {
    var prefix := "posts/" + IdToString(postId) + "/" + uuid;
    assert NoDot(prefix) by {
      var id := IdToString(postId);
      forall i | 0 <= i < |prefix| ensures prefix[i] != '.'
      {
        if i < 6 {
        } else if i < 6 + |id| {
          assert prefix[i] == id[i - 6];
        } else if i == 6 + |id| {
        } else {
          assert prefix[i] == uuid[i - 7 - |id|];
        }
      }
    }
    SingleDotIsSafe(prefix, ext);
    assert RelativePath(postId, uuid, ext) == prefix + "." + ext;
  }

  /** The guard refuses harmless names that merely contain two dots. */
  lemma HarmlessDotsRefused()
    ensures ResolveAndValidateRelative("a..b") == Err(BadRequest(INVALID_PATH))
  {
    assert "a..b"[1] == '.' && "a..b"[2] == '.';
  }

  /** The upload directory, as the set of relative paths that hold a file. */
  class FileStorageService {
    var files: set<string>

    constructor (files: set<string>)
      ensures this.files == files
    {
      this.files := files;
    }

    /** savePostImage. The UUID is an input (UUID.randomUUID in the source).
        Nothing is written for a missing or empty upload; a refused upload
        leaves the directory as it was; an accepted one is stored under its
        generated path, which is returned. */
    method SavePostImage(postId: Id, file: Option<Upload>, uuid: string) returns (r: Result<Option<string>>)
      requires IsUuid(uuid)
      modifies this
      ensures file.None? || IsEmptyUpload(file.value) ==> r == Ok(None) && files == old(files)
      ensures file.Some? && !IsEmptyUpload(file.value) && ValidateImage(file.value).Some? ==>
        r == Err(ValidateImage(file.value).value) && files == old(files)
      ensures file.Some? && !IsEmptyUpload(file.value) && ValidateImage(file.value).None? ==>
        var path := RelativePath(postId, uuid, Extension(file.value.contentType.value));
        r == Ok(Some(path)) && files == old(files) + {path}
      ensures r.Ok? && r.value.Some? ==> !ContainsDotDot(r.value.value)
    {
      if file.None? || IsEmptyUpload(file.value) {
        return Ok(None);
      }
      var invalid := ValidateImage(file.value);
      if invalid.Some? {
        return Err(invalid.value);
      }
      var ext := Extension(file.value.contentType.value);
      var relativePath := RelativePath(postId, uuid, ext);
      GeneratedPathIsSafe(postId, uuid, ext);
      var target := ResolveAndValidateRelative(relativePath).value;
      files := files + {target};
      return Ok(Some(relativePath));
    }

    /** deleteByRelativePath: nothing for a null or blank path, "Invalid path"
        for one holding "..", otherwise the file is gone (deleteIfExists). */
    method DeleteByRelativePath(relativePath: Option<string>) returns (r: Result<()>)
      modifies this
      ensures IsNullOrBlank(relativePath) ==> r == Ok(()) && files == old(files)
      ensures !IsNullOrBlank(relativePath) && ContainsDotDot(relativePath.value) ==>
        r == Err(BadRequest(INVALID_PATH)) && files == old(files)
      ensures !IsNullOrBlank(relativePath) && !ContainsDotDot(relativePath.value) ==>
        r == Ok(()) && files == old(files) - {relativePath.value}
    {
      if relativePath.None? || IsBlank(relativePath.value) {
        return Ok(());
      }
      var resolved := ResolveAndValidateRelative(relativePath.value);
      if resolved.Err? {
        return Err(resolved.error);
      }
      files := files - {resolved.value};
      return Ok(());
    }

    /** getResource: null for a null or blank path and for a path with no
        file, "Invalid path" for one holding "..", otherwise the file. */
    method GetResource(relativePath: Option<string>) returns (r: Result<Option<string>>)
      ensures IsNullOrBlank(relativePath) ==> r == Ok(None)
      ensures !IsNullOrBlank(relativePath) && ContainsDotDot(relativePath.value) ==>
        r == Err(BadRequest(INVALID_PATH))
      ensures !IsNullOrBlank(relativePath) && !ContainsDotDot(relativePath.value) ==>
        r == (if relativePath.value in files then Ok(relativePath) else Ok(None))
    {
      if relativePath.None? || IsBlank(relativePath.value) {
        return Ok(None);
      }
      var resolved := ResolveAndValidateRelative(relativePath.value);
      if resolved.Err? {
        return Err(resolved.error);
      }
      if resolved.value !in files {
        return Ok(None);
      }
      return Ok(Some(resolved.value));
    }
  }
}
