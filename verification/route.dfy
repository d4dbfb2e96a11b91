/**
 * The upload route `POST /images/upload` as one transition: multer with a
 * five-megabyte limit and disk storage under `<cwd>/images`, its MIME filter
 * and file naming, then validateRequest with code 422, then sendImage.
 *
 * Multer's own behaviour is stated here as three assumptions: the filter runs
 * before anything is written; a file over the limit is refused and the file
 * written for it is removed; an accepted file is stored at
 * `<destination>/<filename>`.
 */
module Route {
  import opened Types
  import opened Constants
  import opened Identifiers
  import opened Utility
  import opened Middleware
  import Schema
  import opened Controller

  /** The file field of the multipart request, as multer sees it. */
  datatype Part = Part(mimetype: string, size: nat)

  /** How the route answers. */
  datatype RouteReply =
    | Uploaded(image: ImageRecord)   // 201 with the record
    | Refused(error: HttpError)      // an HttpError reaching the error handler
    | LimitExceeded                  // multer's LIMIT_FILE_SIZE error

  /** The HTTP status of a route reply; the error handler sends 400 for any multer error. */
  function RouteStatus(r: RouteReply): int {
    match r
    case Uploaded(_) => 201
    case Refused(e) => e.code
    case LimitExceeded => 400
  }

  /** IMAGES_DIR_PATH: path.join(cwd, "images"). It ends in the same `images`
      segment that starts every record's url. */
  function ImagesDirPath(cwd: string): (dir: string)
    ensures |dir| >= |ImagesDirName| + 1
    ensures dir[|dir| - |ImagesDirName| - 1..] == "/" + ImagesDirName
  {
    cwd + "/" + ImagesDirName
  }

  /** The multer options of the upload route: imageUpload(maxFileSize(5), IMAGES_DIR_PATH). */
  function UploadConfig(cwd: string): (c: MulterConfig)
    ensures c.fileSizeLimit == 5_000_000
    ensures c.storage == Disk(ImagesDirPath(cwd))
  {
    ImageUpload(Some(MaxFileSize(5)), Some(ImagesDirPath(cwd)))
  }

  /** The status code the route gives validateRequest. */
  const ValidationCode: int := 422

  /**
   * One request to the upload route. `nameSeed` is the random draw of the
   * storage engine's nanoid(6); `o` holds the outcomes of sendImage's calls.
   */
  function PostUpload(st: Store, cwd: string, part: Option<Part>, nameSeed: Seed, o: Oracles): (r: (Store, RouteReply))
    ensures RouteStatus(r.1) in {201, 400, 422}
    ensures !r.1.Uploaded? ==> r.0.catalog == st.catalog && r.0.files <= st.files
    ensures r.1.Uploaded? ==>
              && part.Some? && IsAllowedMime(part.value.mimetype)
              && r.0.files == st.files + {StoredPath(cwd, part.value.mimetype, nameSeed)}
  {
    var config := UploadConfig(cwd);
    match part
    case None =>
      // No file: multer passes the request on and the schema reports it.
      (match ValidateRequest(Schema.ValidateUpload(None), Some(ValidationCode))
       case Forward(e) => (st, Refused(e))
       case Continue => (st, Refused(HttpError("Image is required.", ValidationCode))))
    case Some(p) =>
      match FileFilter(p.mimetype)
      case Err(e) => (st, Refused(e))
      case Ok(_) =>
        match DiskFilename(p.mimetype, nameSeed)
        case Err(e) => (st, Refused(e))
        case Ok(name) =>
          var path := config.storage.dest + "/" + name;
          if p.size > config.fileSizeLimit then
            (Store(st.files - {path}, st.catalog), LimitExceeded)
          else
            var stored := Store(st.files + {path}, st.catalog);
            var file := UploadedFile(p.mimetype, p.size, path, name);
            match ValidateRequest(Schema.ValidateUpload(Some(file)), Some(ValidationCode))
            case Forward(e) => (stored, Refused(e))
            case Continue =>
              var u := SendImage(stored, file, o);
              match u.reply
              case Created(image) => (u.store, Uploaded(image))
              case Failed(e) => (u.store, Refused(e))
  }

  /** Where the route stores an allowed file. */
  function StoredPath(cwd: string, mime: string, nameSeed: Seed): string
    requires IsAllowedMime(mime)
  {
    ImagesDirPath(cwd) + "/" + DiskFilename(mime, nameSeed).value
  }

  /**
   * Once multer's filter and limit have let a file through, the schema can
   * no longer refuse it: the route's own checks are at least as strict.
   */
  lemma SchemaPassesAfterMulter(cwd: string, mime: string, size: nat, path: string, name: string)
    requires FileFilter(mime).Ok?
    requires size <= UploadConfig(cwd).fileSizeLimit
    ensures Schema.ValidateUpload(Some(UploadedFile(mime, size, path, name))) == Schema.Valid
  {
  }

  /**
   * The route admits a file to sendImage exactly when it is present, of an
   * allowed type and at most 5,000,000 bytes; a refusal before sendImage is a
   * 422 with the schema's or the filter's message, or multer's 400.
   */
  lemma Admission(st: Store, cwd: string, part: Option<Part>, nameSeed: Seed, o: Oracles)
    ensures var (end, reply) := PostUpload(st, cwd, part, nameSeed, o);
      && (part.None? ==> end == st && reply == Refused(HttpError("Image is required.", 422)))
      && (part.Some? && part.value.mimetype !in AllowedMimes ==>
            end == st && reply == Refused(HttpError("Invalid image type", 422)))
      && (part.Some? && part.value.mimetype in AllowedMimes && part.value.size > 5_000_000 ==>
            reply == LimitExceeded && RouteStatus(reply) == 400 &&
            end == Store(st.files - {StoredPath(cwd, part.value.mimetype, nameSeed)}, st.catalog))
      && (reply.Uploaded? ==>
            part.Some? && part.value.mimetype in AllowedMimes && part.value.size <= 5_000_000)
  {
  }

  /** A file within the limit and of an allowed type reaches sendImage with its stored path on disk. */
  lemma AdmittedFileReachesHandler(st: Store, cwd: string, p: Part, nameSeed: Seed, o: Oracles)
    requires p.mimetype in AllowedMimes && p.size <= 5_000_000
    ensures var path := StoredPath(cwd, p.mimetype, nameSeed);
      var name := DiskFilename(p.mimetype, nameSeed).value;
      var u := SendImage(Store(st.files + {path}, st.catalog), UploadedFile(p.mimetype, p.size, path, name), o);
      PostUpload(st, cwd, Some(p), nameSeed, o) ==
        (u.store, if u.reply.Created? then Uploaded(u.reply.image) else Refused(u.reply.error))
  {
    SchemaPassesAfterMulter(cwd, p.mimetype, p.size, StoredPath(cwd, p.mimetype, nameSeed),
                            DiskFilename(p.mimetype, nameSeed).value);
  }

  /** A file of exactly 5,000,000 bytes reaches sendImage; one byte more is refused by multer. */
  lemma SizeBoundary(st: Store, cwd: string, mime: string, nameSeed: Seed, o: Oracles)
    requires mime in AllowedMimes
    ensures PostUpload(st, cwd, Some(Part(mime, 5_000_001)), nameSeed, o).1 == LimitExceeded
    ensures PostUpload(st, cwd, Some(Part(mime, 5_000_000)), nameSeed, o).1 != LimitExceeded
  {
    AdmittedFileReachesHandler(st, cwd, Part(mime, 5_000_000), nameSeed, o);
  }

  /**
   * Nothing but a successful upload changes the catalog, and a refused request
   * leaves no new file behind; a successful one adds exactly its stored file,
   * whose name the record's url carries.
   */
  lemma NoOrphans(st: Store, cwd: string, part: Option<Part>, nameSeed: Seed, o: Oracles)
    ensures var (end, reply) := PostUpload(st, cwd, part, nameSeed, o);
      && (!reply.Uploaded? ==> end.catalog == st.catalog && end.files <= st.files)
      && (reply.Uploaded? ==>
            var path := StoredPath(cwd, part.value.mimetype, nameSeed);
            var name := DiskFilename(part.value.mimetype, nameSeed).value;
            && end.files == st.files + {path}
            && path == ImagesDirPath(cwd) + "/" + name
            && reply.image.url == ImagesDirName + "/" + name
            && end.catalog == Parsed(JArr(PriorItems(st.catalog) + [ImageJson(reply.image)])))
  {
    if part.Some? && part.value.mimetype in AllowedMimes && part.value.size <= 5_000_000 {
      AdmittedFileReachesHandler(st, cwd, part.value, nameSeed, o);
    }
  }

  /** A PNG upload is served under a url that ends in ".png". */
  lemma PngUrl(st: Store, cwd: string, size: nat, nameSeed: Seed, o: Oracles)
    requires PostUpload(st, cwd, Some(Part("image/png", size)), nameSeed, o).1.Uploaded?
    ensures var url := PostUpload(st, cwd, Some(Part("image/png", size)), nameSeed, o).1.image.url;
      |url| >= 4 && url[|url| - 4..] == ".png"
  {
    NoOrphans(st, cwd, Some(Part("image/png", size)), nameSeed, o);
    var name := DiskFilename("image/png", nameSeed).value;
    var url := ImagesDirName + "/" + name;
    assert name == ShortId(6, nameSeed) + "." + "png";
    assert url[|url| - 4..] == ".png";
  }

  /**
   * Two uploads of one MIME type are stored at the same path exactly when
   * their name seeds agree mod 64, and then under the same file name, which
   * NoOrphans puts into both records' url.
   */
  lemma SharedFileName(cwd: string, mime: string, s1: Seed, s2: Seed)
    requires IsAllowedMime(mime)
    ensures StoredPath(cwd, mime, s1) == StoredPath(cwd, mime, s2) <==> s1 % 64 == s2 % 64
    ensures s1 % 64 == s2 % 64 ==> DiskFilename(mime, s1).value == DiskFilename(mime, s2).value
  {
    DiskFilenameCollision(mime, s1, s2);
    var n1 := DiskFilename(mime, s1).value;
    var n2 := DiskFilename(mime, s2).value;
    var prefix := ImagesDirPath(cwd) + "/";
    if StoredPath(cwd, mime, s1) == StoredPath(cwd, mime, s2) {
      assert (prefix + n1)[|prefix|..] == n1;
      assert (prefix + n2)[|prefix|..] == n2;
    }
  }
}
