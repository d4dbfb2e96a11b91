/**
 * The upload middleware: the multer configuration built by imageUpload with
 * its MIME type filter, and validateRequest, which turns a schema failure into
 * an HttpError with a configurable status code.
 */
module Middleware {
  import opened Types
  import opened Constants
  import opened Utility
  import Schema
  import Identifiers

  /** Where multer keeps an accepted file. */
  datatype Storage = Memory | Disk(dest: string)

  /** The options imageUpload hands to multer. */
  datatype MulterConfig = MulterConfig(fileSizeLimit: int, storage: Storage)

  /** imageUpload's default limit, maxFileSize(1). */
  const DefaultUploadLimit: int := MaxFileSize(1)

  /**
   * imageUpload(maxSize?, dest?). An absent maxSize takes the default; disk
   * storage is chosen only for a destination that is present and non-empty,
   * since "" is falsy.
   */
  function ImageUpload(maxSize: Option<int>, dest: Option<string>): (c: MulterConfig)
    ensures maxSize.None? ==> c.fileSizeLimit == 1_000_000
    ensures maxSize.Some? ==> c.fileSizeLimit == maxSize.value
    ensures c.storage.Disk? <==> dest.Some? && dest.value != ""
    ensures c.storage.Disk? ==> c.storage.dest == dest.value
  {
    var limit := if maxSize.Some? then maxSize.value else DefaultUploadLimit;
    var storage := if dest.Some? && dest.value != "" then Disk(dest.value) else Memory;
    MulterConfig(limit, storage)
  }

  /** The fileFilter callback: accept an allowed MIME type, otherwise a 422 HttpError. */
  function FileFilter(mime: string): (r: Result<bool>)
    ensures r.Ok? <==> mime in AllowedMimes
    ensures r.Ok? ==> r.value
    ensures r.Err? ==> r.error == HttpError("Invalid image type", 422)
  {
    if !(mime in ImageMimes) then Err(HttpError("Invalid image type", 422)) else Ok(true)
  }

  /** What validateRequest passes to `next`: nothing, or an HttpError. */
  datatype Next = Continue | Forward(error: HttpError)

  /** validateRequest's default status code. */
  const DefaultValidationCode: int := 500

  /**
   * validateRequest(schema, code?) applied to one validation outcome: success
   * calls next() with no argument; a failure forwards the validator's message
   * with the configured code, 500 when none is given.
   */
  function ValidateRequest(outcome: Schema.Validation, code: Option<int>): (n: Next)
    ensures n.Continue? <==> outcome.Valid?
    ensures outcome.Invalid? && code.None? ==> n == Forward(HttpError(outcome.message, 500))
    ensures outcome.Invalid? && code.Some? ==> n == Forward(HttpError(outcome.message, code.value))
  {
    match outcome
    case Valid => Continue
    case Invalid(message) =>
      var c := if code.Some? then code.value else DefaultValidationCode;
      Forward(HttpError(message, c))
  }

  /**
   * The three places that consult the allow-list agree: the filter accepts a
   * MIME type exactly when the disk storage can name it and the schema does
   * not report it as an invalid type.
   */
  lemma AllowListConsistent(mime: string, size: nat, path: string, name: string, seed: Identifiers.Seed)
    ensures FileFilter(mime).Ok? <==> DiskFilename(mime, seed).Ok?
    ensures FileFilter(mime).Ok? <==>
              Schema.ValidateUpload(Some(UploadedFile(mime, size, path, name))) != Schema.Invalid("Invalid image type")
    ensures FileFilter(mime).Err? ==> FileFilter(mime).error == DiskFilename(mime, seed).error
  {
  }
}
