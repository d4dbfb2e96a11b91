/**
 * Helpers of the server's utility file: the megabyte conversion, the catalog
 * shape checks `isImage` / `isImageArray`, and the file name the disk storage
 * engine gives an upload.
 */
module Utility {
  import opened Types
  import opened Constants
  import opened Identifiers

  /** maxFileSize: decimal megabytes to bytes. */
  function MaxFileSize(mb: int): (bytes: int)
    ensures bytes % 1_000_000 == 0
    ensures bytes / 1_000_000 == mb
  {
    mb * 1_000_000
  }

  /** A larger megabyte count never gives a smaller byte limit. */
  lemma MaxFileSizeMonotone(a: int, b: int)
    requires a <= b
    ensures MaxFileSize(a) <= MaxFileSize(b)
  {
  }

  /** `key in o && typeof o[key] === "string"` on an object's own fields. */
  predicate HasString(fields: map<string, Json>, key: string) {
    key in fields && fields[key].JStr?
  }

  /** `key in o && typeof o[key] === "number"` on an object's own fields. */
  predicate HasNumber(fields: map<string, Json>, key: string) {
    key in fields && fields[key].JNum?
  }

  /** The record shape the catalog promises: string url and blurHash, numeric width and height. */
  predicate ImageShaped(j: Json) {
    j.JObj? && HasString(j.fields, "url") && HasString(j.fields, "blurHash")
      && HasNumber(j.fields, "width") && HasNumber(j.fields, "height")
  }

  /**
   * isImage. The `in` operator throws on a primitive; an array is an object
   * whose only own keys are its indices and `length`, so it never passes.
   */
  function IsImage(image: Json): (r: Eval<bool>)
    ensures r.Threw? <==> IsPrimitive(image)
    ensures r == Value(true) <==> ImageShaped(image)
  {
    match image
    case JObj(fields) =>
      Value("url" in fields && fields["url"].JStr?
        && "blurHash" in fields && fields["blurHash"].JStr?
        && "width" in fields && fields["width"].JNum?
        && "height" in fields && fields["height"].JNum?)
    case JArr(_) => Value(false)
    case _ => Threw
  }

  /**
   * isImageArray: an array, non-empty, whose FIRST element is an image. Later
   * elements are never looked at.
   */
  function IsImageArray(images: Json): (r: Eval<bool>)
    ensures r == Value(true) <==> images.JArr? && |images.items| > 0 && ImageShaped(images.items[0])
    ensures r.Threw? <==> images.JArr? && |images.items| > 0 && IsPrimitive(images.items[0])
  {
    if images.JArr? && |images.items| > 0 then IsImage(images.items[0]) else Value(false)
  }

  /** The JSON form of a record, as JSON.stringify writes it and JSON.parse reads it back. */
  function ImageJson(image: ImageRecord): (j: Json)
    ensures ImageShaped(j)
    ensures j.fields["url"] == JStr(image.url) && j.fields["blurHash"] == JStr(image.blurHash)
    ensures j.fields["width"] == JNum(image.width) && j.fields["height"] == JNum(image.height)
    ensures "id" in j.fields && j.fields["id"] == JStr(image.id)
  {
    JObj(map[
      "id" := JStr(image.id),
      "url" := JStr(image.url),
      "blurHash" := JStr(image.blurHash),
      "width" := JNum(image.width),
      "height" := JNum(image.height)
    ])
  }

  /** Only the first element decides isImageArray: anything may follow it, and `[]` is refused. */
  lemma ImageArrayChecksFirstOnly(first: Json, rest: seq<Json>)
    ensures IsImageArray(JArr([first] + rest)) == IsImage(first)
    ensures IsImageArray(JArr([])) == Value(false)
  {
  }

  /** A list that starts with a written record always passes isImageArray. */
  lemma WrittenRecordPasses(image: ImageRecord, rest: seq<Json>)
    ensures IsImageArray(JArr([ImageJson(image)] + rest)) == Value(true)
  {
    ImageArrayChecksFirstOnly(ImageJson(image), rest);
  }

  /** An example of IdIgnored: a record without `id` passes. */
  lemma IdNotChecked()
    ensures IsImage(JObj(map["url" := JStr("images/a.png"), "blurHash" := JStr(""), "width" := JNum(1), "height" := JNum(1)])) == Value(true)
  {
  }

  /** isImage never looks at `id`: removing it from any object leaves the verdict unchanged. */
  lemma IdIgnored(fields: map<string, Json>)
    ensures IsImage(JObj(fields)) == IsImage(JObj(fields - {"id"}))
  {
  }

  /** The length of the short id in a stored file name. */
  const FileIdSize: nat := 6

  /**
   * The `filename` callback of the disk storage engine: 422 outside the
   * allow-list, otherwise `<nanoid(6)>.<ext>`.
   */
  function DiskFilename(mime: string, seed: Seed): (r: Result<string>)
    ensures r.Err? <==> !IsAllowedMime(mime)
    ensures r.Err? ==> r.error == HttpError("Invalid image type", 422)
    ensures r.Ok? ==> exists ext :: ExtensionOf(mime) == Some(ext)
                        && r.value == Nanoid(Some(FileIdSize), seed, "") + "." + ext
  {
    if !(mime in ImageMimes) then
      Err(HttpError("Invalid image type", 422))
    else
      var ext := ImageMimes[mime];
      var id := Nanoid(Some(FileIdSize), seed, "");
      Ok(id + "." + ext)
  }

  /**
   * A stored file name splits back into its parts: six URL-safe id characters,
   * a dot, and an extension that names the MIME type it came from.
   */
  lemma DiskFilenameParts(mime: string, seed: Seed)
    requires IsAllowedMime(mime)
    ensures var name := DiskFilename(mime, seed).value;
      && |name| > FileIdSize + 1
      && name[..FileIdSize] == ShortId(FileIdSize, seed)
      && (forall i :: 0 <= i < FileIdSize ==> UrlSafe(name[i]))
      && name[FileIdSize] == '.'
      && '.' !in name[FileIdSize + 1..]
      && MimeOfExtension(name[FileIdSize + 1..]) == Some(mime)
  {
    var ext := ExtensionOf(mime).value;
    var id := ShortId(FileIdSize, seed);
    var name := DiskFilename(mime, seed).value;
    assert name == id + "." + ext;
    assert name[..FileIdSize] == id;
    assert name[FileIdSize + 1..] == ext;
    ShortIdUrlSafe(FileIdSize, seed);
    ExtensionRoundTrip(mime);
  }

  /**
   * Two uploads of the same MIME type get the same file name whenever their
   * seeds agree mod 64, so at most 64 names exist per extension.
   */
  lemma DiskFilenameCollision(mime: string, a: Seed, b: Seed)
    requires IsAllowedMime(mime)
    ensures DiskFilename(mime, a) == DiskFilename(mime, b) <==> a % 64 == b % 64
  {
    ShortIdCollision(FileIdSize, a, b);
    if DiskFilename(mime, a) == DiskFilename(mime, b) {
      DiskFilenameParts(mime, a);
      DiskFilenameParts(mime, b);
    }
  }
}
