/**
 * The upload validation schema: the request's `file` is required, must carry
 * an allowed MIME type and must be at most five decimal megabytes. Each test
 * has its own message, and the first failing test in declaration order is the
 * one reported.
 */
module Schema {
  import opened Types
  import opened Constants
  import opened Utility

  /** The outcome of schema.validate. */
  datatype Validation = Valid | Invalid(message: string)

  /** The size cap of the schema's fileSize test, maxFileSize(5). */
  const SchemaMaxBytes: int := MaxFileSize(5)

  /** uploadImageValidateSchema applied to `{ file: req.file }`. */
  function ValidateUpload(file: Option<UploadedFile>): (v: Validation)
    ensures v.Valid? <==> file.Some? && file.value.mimetype in AllowedMimes && file.value.size <= 5_000_000
    ensures file.None? ==> v == Invalid("Image is required.")
    ensures file.Some? && file.value.mimetype !in AllowedMimes ==> v == Invalid("Invalid image type")
    ensures file.Some? && file.value.mimetype in AllowedMimes && file.value.size > 5_000_000 ==>
              v == Invalid("Image size greater than 5mb")
  {
    match file
    case None => Invalid("Image is required.")
    case Some(f) =>
      if !(f.mimetype in ImageMimes) then Invalid("Invalid image type")
      else if !(f.size <= MaxFileSize(5)) then Invalid("Image size greater than 5mb")
      else Valid
  }

  /** A file of exactly 5,000,000 bytes passes and one byte more does not. */
  lemma SizeBoundary(mime: string, path: string, name: string)
    requires IsAllowedMime(mime)
    ensures ValidateUpload(Some(UploadedFile(mime, 5_000_000, path, name))) == Valid
    ensures ValidateUpload(Some(UploadedFile(mime, 5_000_001, path, name))) == Invalid("Image size greater than 5mb")
  {
  }
}
