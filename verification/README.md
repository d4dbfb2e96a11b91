# Image upload server: upload path model

A Dafny model of the server side of an image upload service. The server takes
one uploaded image, checks it, and stores it on disk under a generated name.
It then appends a record `{id, url, blurHash, width, height}` to a catalog.
The catalog is one JSON list held in Redis under the key `images`. A second
handler lists that catalog.

The model is sequential and purely functional. The world is a `Store`: the set
of file paths on disk plus the one Redis value under the catalog key. That
value is `Absent`, `EmptyString`, `Malformed` (JSON.parse throws) or
`Parsed(json)`. Every call into code outside the model is an oracle input:

- sharp's metadata;
- the blur hash encoder;
- whether Redis GET and SET resolve;
- the `Math.random` draw inside `nanoid`;
- the UUID.

Modules, one per source file:

- `Types`: shared datatypes: JSON values, `HttpError`, the image record and the multer file.
- `Constants` (`constants.ts`): the MIME allow-list and the two `"images"` names.
- `Identifiers` (`nanoid` in `utility.ts`): the short-id generator.
- `Utility` (`utility.ts`): `maxFileSize`, `isImage`, `isImageArray` and the disk storage file name.
- `Schema` (`schema.ts`): the upload validation schema.
- `Middleware` (`middleware.ts`): the multer configuration, its MIME filter and `validateRequest`.
- `Controller` (`controller.ts`): `sendImage` and `getImages` as transitions over the store.
- `Route` (`route.ts`): the upload route as one transition: filter, naming, size limit, validation, handler.

What the proofs establish about the generator:

- One seed `r` is drawn per call. Character `i` is `map((i·r) mod 64)`, so character 0 is always `'0'`.
- For a fixed size of at least two, two seeds give the same id exactly when they agree mod 64.
- So there are at most 64 ids per size. For sizes of at least two, every id is produced by exactly four of the 256 seeds; for size one, every seed gives `"0"`.
- Two successful uploads whose seeds agree mod 64 therefore store records with the same `id`.
- Two uploads of one MIME type whose name seeds agree mod 64 are written to the same file. Both records then carry the same `url`.
- Nothing in the code checks for duplicates.

Behaviour the model keeps exactly as the code has it, where one might expect otherwise:

- `getImages` answers `[]` only when nothing is stored or the stored value parses to something that is not an image list. When the stored string is malformed JSON, or the first element is a primitive (JavaScript's `in` throws on it), the handler's catch block answers 400 "Images fetching failed".
- `isImageArray` checks only the first element. `[]` is refused by `sendImage` and listed as `[]` by `getImages`.
- Validation failures on the upload route carry status 422, whatever the cause. A multer size-limit error is answered with 400. `sendImage` failures are always 400 "Failed to upload message".
- The catalog update reads, appends and overwrites with no guard. Ids are not unique.

## Model

| member | source | states |
|---|---|---|
| Constants.ExtensionOf | server/src/constants.ts:6-12 | an extension exists exactly for the five allowed MIME types; it is the non-empty subtype after `image/`, with no `.` or `/` |
| Constants.MimeOfExtension | server/src/constants.ts:6-12 | the inverse lookup: any MIME type it returns maps back to the given extension |
| Constants.ExtensionRoundTrip | server/src/constants.ts:6-12 | an allowed MIME type is recovered from its extension |
| Constants.AllowListShape | server/src/constants.ts:6-12 | the allow-list has exactly five keys; `image/jpeg` and `image/jpg` are both allowed and map to different extensions |
| Constants.ExtensionInjective | server/src/constants.ts:7-11 | distinct allowed MIME types never share an extension |
| Constants.CatalogKeyIsDirName | server/src/constants.ts:3-14 | the Redis catalog key and the URL directory name are both `"images"` |
| Identifiers.Base36Digit | server/src/utility.ts:50 | `toString(36)` of a digit below 36 is that digit's character in the base-36 alphabet `0123456789abcdefghijklmnopqrstuvwxyz` |
| Identifiers.CharOfBands | server/src/utility.ts:49-55 | six-bit values 0-9 map to `0-9`, 10-35 to `a-z`, 36-61 to `A-Z`, 62 to `_`, 63 to `-` |
| Identifiers.CharOfRoundTrip | server/src/utility.ts:49-55 | every six-bit value maps to a URL-safe character, and the value is recovered from it |
| Identifiers.IndexOfRoundTrip | server/src/utility.ts:49-55 | every URL-safe character is the image of exactly one six-bit value, so the map is onto `[0-9a-zA-Z_-]` |
| Identifiers.CharOfInjective | server/src/utility.ts:49-55 | no two six-bit values share a character |
| Identifiers.ShortId | server/src/utility.ts:44-57 | the reduce yields exactly `n` characters, character `i` being `map((i·r) & 63)` |
| Identifiers.Nanoid | server/src/utility.ts:42-60 | a size in 1..256 gives that many URL-safe characters from the short form; a negative size gives `""`; an absent, zero or over-256 size gives the UUID |
| Identifiers.ShortIdUrlSafe | server/src/utility.ts:46-57 | every character of a short id lies in `[0-9a-zA-Z_-]` |
| Identifiers.ShortIdStartsWithZero | server/src/utility.ts:45-50 | character 0 is built from `0·r` and is always `'0'` |
| Identifiers.ShortIdResidue | server/src/utility.ts:44-49 | the short id depends on the seed only through `r mod 64` |
| Identifiers.ShortIdCollision | server/src/utility.ts:44-55 | for two or more characters, two seeds give the same id exactly when they agree mod 64 |
| Identifiers.AllZerosAt64 | server/src/utility.ts:44-50 | seed 64 yields an id made only of `'0'` |
| Identifiers.ZeroSeeds | server/src/utility.ts:44-50 | for two or more characters, the all-`'0'` id comes from exactly the seeds 64, 128, 192 and 256 |
| Identifiers.AtMost64Outcomes | server/src/utility.ts:44-57 | for a fixed size, the 256 seeds produce at most 64 distinct ids |
| Identifiers.SeedsOfIsResidueClass | server/src/utility.ts:44-57 | the seeds that produce a given id of two or more characters are exactly that seed's residue class mod 64 |
| Identifiers.FourSeedsPerId | server/src/utility.ts:44-57 | each id of two or more characters is produced by exactly four of the 256 seeds |
| Utility.MaxFileSize | server/src/utility.ts:35 | the byte count is a whole multiple of 1,000,000 and divides back to the megabyte count |
| Utility.MaxFileSizeMonotone | server/src/utility.ts:35 | more megabytes never give a smaller limit |
| Utility.IsImage | server/src/utility.ts:113-124 | throws exactly on primitives (JavaScript `in`); true exactly for an object with string `url`/`blurHash` and numeric `width`/`height` |
| Utility.IsImageArray | server/src/utility.ts:131-133 | true exactly for a non-empty array whose first element has the record shape; throws exactly when that first element is a primitive |
| Utility.ImageArrayChecksFirstOnly | server/src/utility.ts:131-133 | only the first element decides; anything may follow it, and `[]` is refused |
| Utility.WrittenRecordPasses | server/src/utility.ts:113-133 | a list that starts with a record the server wrote always passes the check |
| Utility.IdIgnored | server/src/utility.ts:113-124 | for every object, removing `id` leaves the `isImage` verdict unchanged: `id` is never checked |
| Utility.IdNotChecked | server/src/utility.ts:113-124 | an example: a record without `id` passes `isImage` |
| Utility.DiskFilename | server/src/utility.ts:95-103 | outside the allow-list the callback fails with 422 "Invalid image type"; otherwise the name is `nanoid(6)`, `.`, then the mapped extension |
| Utility.DiskFilenameParts | server/src/utility.ts:95-103 | a stored name splits back into six URL-safe id characters, a dot, and an extension naming the original MIME type |
| Utility.DiskFilenameCollision | server/src/utility.ts:99-102 | two names for one MIME type are equal exactly when the seeds agree mod 64 |
| Schema.ValidateUpload | server/src/schema.ts:5-17 | valid iff the file is present, allowed and at most 5,000,000 bytes; otherwise "Image is required.", "Invalid image type" or "Image size greater than 5mb", checked in that order |
| Schema.SizeBoundary | server/src/schema.ts:12-16 | exactly 5,000,000 bytes passes and 5,000,001 fails with the size message |
| Middleware.ImageUpload | server/src/middleware.ts:16-22 | the limit is 1,000,000 bytes when absent and the given value otherwise; disk storage exactly when a non-empty destination is given |
| Middleware.FileFilter | server/src/middleware.ts:23-28 | accepts every allowed MIME type; rejects every other with 422 "Invalid image type" |
| Middleware.ValidateRequest | server/src/middleware.ts:39-53 | success calls `next()` with no error; a failure forwards the validator's message with the configured code, 500 by default |
| Middleware.AllowListConsistent | server/src/middleware.ts:24 | the filter, the disk storage naming and the schema accept exactly the same MIME types, with the same 422 error |
| Controller.RejectsUploadCases | server/src/controller.ts:31-35 | a stored value blocks an upload exactly when it is malformed JSON, or parses to something other than a non-empty list whose first element has the record shape |
| Controller.SendImage | server/src/controller.ts:19-63 | success iff the file is on disk, both dimensions are present and non-zero, Redis answers, the stored value is usable, the hash is computed and the write succeeds. On success: files unchanged, catalog becomes prior records plus the new one, record fields come from the inputs. On failure: 400, catalog unchanged, the uploaded file removed, no write |
| Controller.SendImageIsReplay | server/src/controller.ts:31-61 | the store after the handler is exactly what replaying its read, write and unlink effects produces |
| Controller.WritesConcat | server/src/controller.ts:47-61 | the write count of two effect logs in sequence is the sum of their counts; `RunWritesOncePerUpload` uses it to add up the writes of consecutive requests |
| Controller.WrittenAtMostOnce | server/src/controller.ts:47-61 | the catalog is written once on success and never on failure |
| Controller.AppendKeepsPrefix | server/src/controller.ts:47-51 | on success every prior record is kept in order, the length grows by one, and the last element is the new record |
| Controller.FirstUploadWritesSingleton | server/src/controller.ts:47-49 | with nothing stored, a successful upload writes exactly `[newImage]` |
| Controller.DimensionsCheckedFirst | server/src/controller.ts:27-31 | a missing or zero dimension fails with 400 before the catalog is read; the outcome does not depend on the catalog or on Redis |
| Controller.CorruptCatalogRejects | server/src/controller.ts:33-61 | a malformed or non-image-list value, `[]` included, fails the upload, stays as it was, and the uploaded file is removed |
| Controller.WellFormedAccepts | server/src/controller.ts:33-35 | nothing stored, or a non-empty list of records, never blocks an upload |
| Controller.UploadPreservesWellFormed | server/src/controller.ts:33-51 | every upload, successful or not, keeps the catalog a non-empty list of records, or leaves it absent |
| Controller.IdsCollide | server/src/controller.ts:39-51 | two successive successful uploads whose id seeds agree mod 64 store two records with the same `id` |
| Controller.GetImages | server/src/controller.ts:73-90 | fails with 400 "Images fetching failed" exactly on a Redis error, malformed JSON or a throwing check, and answers 201 in every other case; nothing stored lists as `[]`; a non-empty listing is the stored list itself, starting with a record; it returns no store, so it never writes and two calls on one store agree |
| Controller.ListingAgreesWithUpload | server/src/controller.ts:73-85 | an upload is refused exactly when a stored value lists as `[]` or as an error; otherwise the listing is exactly the list the upload appends to |
| Controller.ListAfterUpload | server/src/controller.ts:47-84 | after a successful upload the listing is the prior records followed by the new one |
| Controller.FailedUploadInvisible | server/src/controller.ts:56-61 | after a failed upload the listing is what it was before |
| Controller.RunAppendsInOrder | server/src/controller.ts:19-63 | uploads served one after another, from any stored value (including a list like `[record, 5]` that passes the first-element check), keep the original list and append each created record in request order; one reply per request; no file is added |
| Controller.RunPreservesWellFormed | server/src/controller.ts:19-63 | a run of uploads starting from a well-formed catalog leaves it well-formed |
| Controller.RunWritesOncePerUpload | server/src/controller.ts:47-61 | over a whole run of uploads the catalog is written exactly as many times as records were created: once per success, never on failure |
| Route.ImagesDirPath | server/src/constants.ts:3-4 | the storage directory ends in `/images`, the same `images` segment that prefixes every record's url |
| Route.UploadConfig | server/src/route.ts:12 | the upload route limits files to 5,000,000 bytes and stores them on disk under the images directory |
| Route.PostUpload | server/src/route.ts:10-15 | the route answers only 201, 400 or 422; a request that does not upload leaves the catalog as it was and adds no file; an upload adds exactly its stored file |
| Route.SchemaPassesAfterMulter | server/src/route.ts:12-13 | a file past multer's filter and limit always passes the schema |
| Route.Admission | server/src/route.ts:10-15 | no file gives 422 "Image is required."; a disallowed type gives 422 "Invalid image type" with nothing written; over 5,000,000 bytes gives multer's 400; only a present, allowed, in-limit file can be uploaded |
| Route.AdmittedFileReachesHandler | server/src/route.ts:10-15 | an allowed, in-limit file is written to its generated path and handed to `sendImage`, whose reply the route returns |
| Route.SizeBoundary | server/src/route.ts:12 | 5,000,001 bytes hits the limit; exactly 5,000,000 does not |
| Route.NoOrphans | server/src/controller.ts:56-61 | a request that does not upload leaves the catalog unchanged and adds no file; a successful one adds exactly its stored file, whose name the record's url carries |
| Route.PngUrl | server/src/controller.ts:41 | a PNG upload's url ends in `.png` |
| Route.SharedFileName | server/src/utility.ts:99-102 | two uploads of one type are stored at the same path exactly when their name seeds agree mod 64, and then under the same file name, which both records' url carries; file contents are not modelled, so the overwrite itself is not stated |

## Left out

- Blur hash encoding and image decoding: floating-point work inside sharp and blurhash. Their results (`Metadata`, `Eval<string>`) are oracle inputs. A path not on disk makes the metadata call throw, as sharp does.
- Randomness: the `Math.random` draw is a `Seed` parameter in [1, 256]. `randomUUID` is an opaque string parameter.
- Concurrency: requests are served one at a time. The unguarded read-append-overwrite of the catalog loses updates when requests interleave. Nothing in the code prevents that, so no atomic append is claimed.
- Route.SharedFileName: file contents are not modelled, because the store holds only the set of file paths. So the overwrite of one upload's file by a later one with the same name is not stated, only the shared path and name.
- Id and file name uniqueness: the code never checks it, and the lemmas above show it fails. No uniqueness invariant is stated.
- JavaScript `in` on the allow-list also sees inherited `Object.prototype` keys. The allow-list is modelled as a map of exactly five keys.
- JSON: numbers are integers. Object key order and duplicate keys are not modelled. A value written with JSON.stringify is assumed to parse back to itself.
- `nanoid` with a non-integer or NaN size is not modelled. Sizes are integers.
- Multer and yup internals are taken as stated behaviour:
  - multer runs the filter before storage;
  - a file over the limit is refused with a multer error, and the file written for it is removed;
  - a stored file's path is `<destination>/<filename>`, and `IMAGES_DIR_PATH` is built the same way as `<cwd>/images` (`Route.ImagesDirPath`), which differs from `path.join` when the working directory is `/` or ends in a separator;
  - yup reports the first failing test in declaration order.
  - `mkdirSync` is not modelled.
- Memory storage (no destination) is configured by `ImageUpload` but never reaches `sendImage`. The only route that uploads uses disk storage.
- `sendImage` with no `req.file` is not modelled: `validateRequest` stops such a request first. An `unlinkSync` that throws inside the catch block is not modelled either.
- Process and Redis plumbing are not modelled: `shutdown`, server start-up, the Redis client, the 404 fallback and the Express error handler. Only the handler's 400 for multer errors is used.
- HTTP response bodies are reply datatypes, and `HttpError` is a datatype.
- Everything under `client/` (React UI) is not modelled.
