/**
 * The server's fixed names and the MIME type allow-list. The allow-list is
 * modelled as a finite map of exactly five keys: the JavaScript `in` operator
 * used against it also sees inherited Object.prototype properties, which this
 * model does not.
 */
module Constants {
  import opened Types

  /** The directory name under which uploads are served and stored. */
  const ImagesDirName: string := "images"

  /** The Redis key under which the catalog is stored. */
  const RedisImagesKey: string := "images"

  /** The prefix shared by every allowed MIME type. */
  const MimePrefix: string := "image/"

  /** IMAGE_MIMES: allowed MIME type to file extension. */
  const ImageMimes: map<string, string> := map[
    "image/gif" := "gif",
    "image/jpeg" := "jpeg",
    "image/jpg" := "jpg",
    "image/png" := "png",
    "image/webp" := "webp"
  ]

  /** The five MIME types the server accepts, written out independently of the map. */
  const AllowedMimes: set<string> := {"image/gif", "image/jpeg", "image/jpg", "image/png", "image/webp"}

  predicate IsAllowedMime(mime: string) {
    mime in ImageMimes
  }

  /** The extension an allowed MIME type maps to, or None outside the allow-list. */
  function ExtensionOf(mime: string): (ext: Option<string>)
    ensures ext.Some? <==> mime in AllowedMimes
    ensures ext.Some? ==> mime == MimePrefix + ext.value
    ensures ext.Some? ==> |ext.value| > 0 && '.' !in ext.value && '/' !in ext.value
  {
    if mime in ImageMimes then Some(ImageMimes[mime]) else None
  }

  /** The allowed MIME type whose extension is `ext`: the inverse of ExtensionOf. */
  function MimeOfExtension(ext: string): (mime: Option<string>)
    ensures mime.Some? ==> ExtensionOf(mime.value) == Some(ext)
  {
    if MimePrefix + ext in ImageMimes then
      assert (MimePrefix + ext)[|MimePrefix|..] == ext;
      Some(MimePrefix + ext)
    else
      None
  }

  /** ExtensionOf loses nothing: the MIME type is recovered from its extension. */
  lemma ExtensionRoundTrip(mime: string)
    requires IsAllowedMime(mime)
    ensures MimeOfExtension(ExtensionOf(mime).value) == Some(mime)
  {
  }

  /** The allow-list has exactly five keys, and `jpeg` and `jpg` stay distinct. */
  lemma AllowListShape()
    ensures ImageMimes.Keys == AllowedMimes
    ensures |ImageMimes| == 5
    ensures ExtensionOf("image/jpeg") == Some("jpeg") && ExtensionOf("image/jpg") == Some("jpg")
    ensures ExtensionOf("image/jpeg") != ExtensionOf("image/jpg")
  {
    assert ImageMimes.Keys == AllowedMimes;
  }

  /** Distinct allowed MIME types never share an extension. */
  lemma ExtensionInjective(a: string, b: string)
    requires IsAllowedMime(a) && IsAllowedMime(b)
    requires ExtensionOf(a) == ExtensionOf(b)
    ensures a == b
  {
  }

  /** The catalog key and the URL directory prefix are the same word. */
  lemma CatalogKeyIsDirName()
    ensures RedisImagesKey == ImagesDirName == "images"
  {
  }
}
