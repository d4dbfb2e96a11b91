/**
 * The two request handlers over an abstract store: `sendImage`, which checks
 * the decoded dimensions and the stored catalog, builds a record and appends
 * it, removing the uploaded file on any failure; and `getImages`, which reads
 * the catalog with a fallback to the empty list.
 *
 * The store is the set of file paths on disk plus the one Redis value under
 * the catalog key. Image decoding, the blur hash, Redis availability and the
 * random seed of the record id are oracle inputs.
 */
module Controller {
  import opened Types
  import opened Constants
  import opened Identifiers
  import opened Utility

  /** The Redis value under the catalog key. */
  datatype Slot =
    | Absent              // GET answers null
    | EmptyString         // "", falsy, so it is never parsed
    | Malformed           // a non-empty string JSON.parse throws on
    | Parsed(value: Json) // a non-empty string JSON.parse accepts

  datatype Store = Store(files: set<string>, catalog: Slot)

  /** A stored string is truthy when it is non-empty. */
  predicate Truthy(s: Slot) {
    s.Malformed? || s.Parsed?
  }

  /** JSON.parse of a stored, non-empty string. */
  function ParseSlot(s: Slot): (r: Eval<Json>)
    requires Truthy(s)
    ensures r.Threw? <==> s.Malformed?
  {
    if s.Malformed? then Threw else Value(s.value)
  }

  /** `oldImages && !isImageArray(JSON.parse(oldImages))`, a throw counting as a refusal. */
  predicate RejectsUpload(s: Slot) {
    Truthy(s) && (ParseSlot(s).Threw? || IsImageArray(ParseSlot(s).value) != Value(true))
  }

  /** The records a successful upload appends to. */
  function PriorItems(s: Slot): seq<Json> {
    if s.Parsed? && s.value.JArr? then s.value.items else []
  }

  /** A stored value blocks uploads exactly when it is malformed, or parses to
      anything other than a non-empty list whose first element is a record. */
  lemma RejectsUploadCases(s: Slot)
    ensures RejectsUpload(s) <==>
              s.Malformed? ||
              (s.Parsed? && !(s.value.JArr? && |s.value.items| > 0 && ImageShaped(s.value.items[0])))
  {
  }

  /** What sharp reports for the uploaded file. */
  datatype Metadata = Metadata(height: Option<nat>, width: Option<nat>)

  /** `!height` / `!width`: undefined or zero. */
  predicate Missing(d: Option<nat>) {
    d.None? || d.value == 0
  }

  /** Outcomes of the calls sendImage makes into code outside the model. */
  datatype Oracles = Oracles(
    metadata: Eval<Metadata>, // sharp(path).metadata()
    getOk: bool,              // redisClient.get resolves
    blurHash: Eval<string>,   // encodeImageToBlurhash
    idSeed: Seed,             // the Math.random draw inside nanoid(6)
    setOk: bool               // redisClient.set resolves
  )

  /** The store operations a handler performs, in order. */
  datatype Effect = ReadCatalog | WriteCatalog(value: Json) | Unlink(path: string)

  datatype Reply = Created(image: ImageRecord) | Failed(error: HttpError)

  /** The HTTP status a reply is sent with. */
  function Status(r: Reply): int {
    match r
    case Created(_) => 201
    case Failed(e) => e.code
  }

  datatype Upload = Upload(store: Store, reply: Reply, effects: seq<Effect>)

  /** The one error sendImage reports, whatever failed. */
  const UploadFailure: HttpError := HttpError("Failed to upload message", 400)

  /** The length of a record id. */
  const RecordIdSize: int := 6

  /** The catch block: unlink the uploaded file if it exists, then report 400. */
  function Abort(st: Store, path: string, effects: seq<Effect>): Upload {
    var cleanup := if path in st.files then [Unlink(path)] else [];
    Upload(Store(st.files - {path}, st.catalog), Failed(UploadFailure), effects + cleanup)
  }

  /**
   * sendImage. Reading metadata of a path that is not on disk rejects, as
   * sharp does; every other outcome of the external calls is an oracle.
   */
  function SendImage(st: Store, file: UploadedFile, o: Oracles): (u: Upload)
    ensures u.reply.Created? <==>
              && file.path in st.files
              && o.metadata.Value? && !Missing(o.metadata.value.height) && !Missing(o.metadata.value.width)
              && o.getOk && !RejectsUpload(st.catalog) && o.blurHash.Value? && o.setOk
    ensures u.reply.Created? ==>
              && u.store.files == st.files
              && u.store.catalog == Parsed(JArr(PriorItems(st.catalog) + [ImageJson(u.reply.image)]))
              && u.effects == [ReadCatalog, WriteCatalog(u.store.catalog.value)]
    ensures u.reply.Created? ==>
              && u.reply.image.id == ShortId(6, o.idSeed)
              && u.reply.image.url == "images/" + file.filename
              && u.reply.image.blurHash == o.blurHash.value
              && o.metadata.value.width == Some(u.reply.image.width)
              && o.metadata.value.height == Some(u.reply.image.height)
    ensures u.reply.Failed? ==>
              && u.reply.error == HttpError("Failed to upload message", 400)
              && u.store.catalog == st.catalog
              && u.store.files == st.files - {file.path}
              && (forall e :: e in u.effects ==> !e.WriteCatalog?)
              && (Unlink(file.path) in u.effects <==> file.path in st.files)
  {
    var meta := if file.path in st.files then o.metadata else Threw;
    if meta.Threw? || Missing(meta.value.height) || Missing(meta.value.width) then
      Abort(st, file.path, [])
    else if !o.getOk then
      Abort(st, file.path, [ReadCatalog])
    else if RejectsUpload(st.catalog) then
      Abort(st, file.path, [ReadCatalog])
    else if o.blurHash.Threw? then
      Abort(st, file.path, [ReadCatalog])
    else
      var image := ImageRecord(
        Nanoid(Some(RecordIdSize), o.idSeed, ""), // size 6 never reaches the UUID branch
        ImagesDirName + "/" + file.filename,
        o.blurHash.value,
        meta.value.width.value,
        meta.value.height.value);
      assert Truthy(st.catalog) ==> PriorItems(st.catalog) == ParseSlot(st.catalog).value.items;
      assert !Truthy(st.catalog) ==> PriorItems(st.catalog) + [ImageJson(image)] == [ImageJson(image)];
      var newImages :=
        if Truthy(st.catalog) then JArr(ParseSlot(st.catalog).value.items + [ImageJson(image)])
        else JArr([ImageJson(image)]);
      if !o.setOk then
        Abort(st, file.path, [ReadCatalog])
      else
        Upload(Store(st.files, Parsed(newImages)), Created(image), [ReadCatalog, WriteCatalog(newImages)])
  }

  /** What one effect does to the store. */
  function Step(st: Store, e: Effect): Store {
    match e
    case ReadCatalog => st
    case WriteCatalog(v) => Store(st.files, Parsed(v))
    case Unlink(p) => Store(st.files - {p}, st.catalog)
  }

  /** The store state a sequence of effects leads to. */
  function Replay(st: Store, effects: seq<Effect>): Store
    decreases |effects|
  {
    if effects == [] then st else Replay(Step(st, effects[0]), effects[1..])
  }

  /** The store after sendImage is exactly what its recorded effects produce. */
  lemma SendImageIsReplay(st: Store, file: UploadedFile, o: Oracles)
    ensures SendImage(st, file, o).store == Replay(st, SendImage(st, file, o).effects)
  {
    var u := SendImage(st, file, o);
    var p := file.path;
    if u.reply.Created? {
      var w := u.effects[1];
      assert u.effects[1..] == [w];
      assert [w][1..] == [];
      assert Replay(st, u.effects) == Replay(st, [w]);
      assert Replay(st, [w]) == Replay(Step(st, w), []);
    } else if u.effects == [ReadCatalog, Unlink(p)] {
      assert u.effects[1..] == [Unlink(p)];
      assert [Unlink(p)][1..] == [];
      assert Replay(st, u.effects) == Replay(st, [Unlink(p)]);
      assert Replay(st, [Unlink(p)]) == Replay(Step(st, Unlink(p)), []);
    } else if u.effects == [Unlink(p)] || u.effects == [ReadCatalog] {
      assert u.effects[1..] == [];
    } else {
      assert u.effects == [];
    }
  }

  /** The number of catalog writes among the effects. */
  function Writes(effects: seq<Effect>): nat {
    if effects == [] then 0
    else (if effects[0].WriteCatalog? then 1 else 0) + Writes(effects[1..])
  }

  /** Counting writes distributes over concatenation of effect logs. */
  lemma {:induction false} WritesConcat(a: seq<Effect>, b: seq<Effect>)
    ensures Writes(a + b) == Writes(a) + Writes(b)
    decreases |a|
  {
    if a != [] {
      assert (a + b)[1..] == a[1..] + b;
      WritesConcat(a[1..], b);
    } else {
      assert a + b == b;
    }
  }

  /** The catalog is written at most once per request, and only when the upload succeeds. */
  lemma WrittenAtMostOnce(st: Store, file: UploadedFile, o: Oracles)
    ensures Writes(SendImage(st, file, o).effects) == if SendImage(st, file, o).reply.Created? then 1 else 0
  {
    var u := SendImage(st, file, o);
    if u.reply.Failed? {
      NoWrites(u.effects);
    } else {
      var w := u.effects;
      assert |w| == 2 && w[0] == ReadCatalog && w[1].WriteCatalog?;
      assert w[1..][1..] == [];
      assert Writes(w[1..]) == 1;
    }
  }

  lemma {:induction false} NoWrites(effects: seq<Effect>)
    requires forall e :: e in effects ==> !e.WriteCatalog?
    ensures Writes(effects) == 0
  {
    if effects != [] {
      assert effects[0] in effects;
      NoWrites(effects[1..]);
    }
  }

  /** A successful upload keeps every prior record, in order, and adds exactly one at the end. */
  lemma AppendKeepsPrefix(st: Store, file: UploadedFile, o: Oracles)
    requires SendImage(st, file, o).reply.Created?
    ensures var u := SendImage(st, file, o);
      var before := PriorItems(st.catalog);
      var now := u.store.catalog.value.items;
      && |now| == |before| + 1
      && now[..|before|] == before
      && now[|before|] == ImageJson(u.reply.image)
  {
  }

  /** With no catalog stored, a successful upload writes a list of exactly the new record. */
  lemma FirstUploadWritesSingleton(st: Store, file: UploadedFile, o: Oracles)
    requires st.catalog.Absent? || st.catalog.EmptyString?
    requires SendImage(st, file, o).reply.Created?
    ensures SendImage(st, file, o).store.catalog == Parsed(JArr([ImageJson(SendImage(st, file, o).reply.image)]))
  {
  }

  /**
   * Missing dimensions fail the upload before the catalog is read: the result
   * is the same whatever the catalog holds and whatever Redis would answer.
   */
  lemma DimensionsCheckedFirst(st1: Store, st2: Store, file: UploadedFile, o1: Oracles, o2: Oracles)
    requires st1.files == st2.files && o1.metadata == o2.metadata
    requires o1.metadata.Value? && (Missing(o1.metadata.value.height) || Missing(o1.metadata.value.width))
    ensures SendImage(st1, file, o1).reply == Failed(HttpError("Failed to upload message", 400))
    ensures SendImage(st1, file, o1).reply == SendImage(st2, file, o2).reply
    ensures SendImage(st1, file, o1).store.files == SendImage(st2, file, o2).store.files == st1.files - {file.path}
    ensures ReadCatalog !in SendImage(st1, file, o1).effects
  {
  }

  /** A stored value that is not an image list (including malformed JSON and `[]`) fails the
      upload, leaves the value as it was and removes the uploaded file. */
  lemma CorruptCatalogRejects(st: Store, file: UploadedFile, o: Oracles)
    requires st.catalog.Malformed? || (st.catalog.Parsed? && IsImageArray(st.catalog.value) != Value(true))
    ensures var u := SendImage(st, file, o);
      && u.reply == Failed(HttpError("Failed to upload message", 400))
      && u.store.catalog == st.catalog
      && file.path !in u.store.files
  {
  }

  /** A catalog every upload can extend: nothing stored, or a non-empty list of records. */
  predicate WellFormed(s: Slot) {
    s.Absent? || s.EmptyString? ||
    (s.Parsed? && s.value.JArr? && |s.value.items| > 0 &&
     forall i :: 0 <= i < |s.value.items| ==> ImageShaped(s.value.items[i]))
  }

  /** A well-formed catalog never blocks an upload. */
  lemma WellFormedAccepts(s: Slot)
    requires WellFormed(s)
    ensures !RejectsUpload(s)
  {
  }

  /** Every upload, successful or not, keeps the catalog well formed. */
  lemma UploadPreservesWellFormed(st: Store, file: UploadedFile, o: Oracles)
    requires WellFormed(st.catalog)
    ensures WellFormed(SendImage(st, file, o).store.catalog)
  {
    var u := SendImage(st, file, o);
    if u.reply.Created? {
      var items := u.store.catalog.value.items;
      var before := PriorItems(st.catalog);
      forall i | 0 <= i < |items|
        ensures ImageShaped(items[i])
      {
        if i < |before| {
          assert items[i] == before[i];
        }
      }
    }
  }

  /** Two successful uploads whose id seeds agree mod 64 store two records with the same id. */
  lemma IdsCollide(st: Store, f1: UploadedFile, o1: Oracles, f2: UploadedFile, o2: Oracles)
    requires o1.idSeed % 64 == o2.idSeed % 64
    requires SendImage(st, f1, o1).reply.Created?
    requires SendImage(SendImage(st, f1, o1).store, f2, o2).reply.Created?
    ensures var u1 := SendImage(st, f1, o1);
      var u2 := SendImage(u1.store, f2, o2);
      var items := u2.store.catalog.value.items;
      && |items| >= 2
      && items[|items| - 2].fields["id"] == items[|items| - 1].fields["id"]
  {
    var u1 := SendImage(st, f1, o1);
    var u2 := SendImage(u1.store, f2, o2);
    ShortIdResidue(6, o1.idSeed, o2.idSeed);
    var items := u2.store.catalog.value.items;
    assert items[|items| - 2] == ImageJson(u1.reply.image);
  }

  // ---------------------------------------------------------------- listing

  datatype Listing = Listed(images: seq<Json>) | ListFailed(error: HttpError)

  /** The HTTP status a listing is sent with: getImages answers 201 even for a read. */
  function ListingStatus(r: Listing): int {
    match r
    case Listed(_) => 201
    case ListFailed(e) => e.code
  }

  /** getImages: the stored list when it passes isImageArray, `[]` when nothing usable
      is stored, a 400 error when Redis fails or parsing or the check throws. */
  function GetImages(st: Store, getOk: bool): (r: Listing)
    ensures r.ListFailed? ==> r.error == HttpError("Images fetching failed", 400)
    ensures ListingStatus(r) == 201 <==>
              (getOk && !st.catalog.Malformed? && !(st.catalog.Parsed? && IsImageArray(st.catalog.value).Threw?))
    ensures ListingStatus(r) in {201, 400}
    ensures r.ListFailed? <==> (!getOk || st.catalog.Malformed? ||
                                (st.catalog.Parsed? && IsImageArray(st.catalog.value).Threw?))
    ensures r.Listed? && r.images != [] ==> st.catalog == Parsed(JArr(r.images)) && ImageShaped(r.images[0])
    ensures getOk && !Truthy(st.catalog) ==> r == Listed([])
  {
    if !getOk then
      ListFailed(HttpError("Images fetching failed", 400))
    else if !Truthy(st.catalog) then
      Listed([])
    else
      match ParseSlot(st.catalog)
      case Threw => ListFailed(HttpError("Images fetching failed", 400))
      case Value(v) =>
        match IsImageArray(v)
        case Threw => ListFailed(HttpError("Images fetching failed", 400))
        case Value(ok) => if !ok then Listed([]) else Listed(v.items)
  }

  /**
   * Listing and uploading read the catalog the same way: an upload is refused
   * exactly when a non-empty stored value lists as nothing or as an error, and
   * otherwise it appends to exactly what the listing shows.
   */
  lemma ListingAgreesWithUpload(st: Store)
    ensures RejectsUpload(st.catalog) <==>
              Truthy(st.catalog) && (GetImages(st, true).ListFailed? || GetImages(st, true) == Listed([]))
    ensures !RejectsUpload(st.catalog) ==> GetImages(st, true) == Listed(PriorItems(st.catalog))
  {
  }

  /** After a successful upload the listing shows the prior records followed by the new one. */
  lemma ListAfterUpload(st: Store, file: UploadedFile, o: Oracles)
    requires SendImage(st, file, o).reply.Created?
    ensures GetImages(SendImage(st, file, o).store, true) ==
              Listed(PriorItems(st.catalog) + [ImageJson(SendImage(st, file, o).reply.image)])
  {
    var u := SendImage(st, file, o);
    WrittenRecordPasses(u.reply.image, []);
    if Truthy(st.catalog) {
      var items := PriorItems(st.catalog);
      assert items + [ImageJson(u.reply.image)] == [items[0]] + (items[1..] + [ImageJson(u.reply.image)]);
    } else {
      assert [ImageJson(u.reply.image)] == [ImageJson(u.reply.image)] + [];
    }
  }

  /** A failed upload is invisible to listing. */
  lemma FailedUploadInvisible(st: Store, file: UploadedFile, o: Oracles, getOk: bool)
    requires SendImage(st, file, o).reply.Failed?
    ensures GetImages(SendImage(st, file, o).store, getOk) == GetImages(st, getOk)
  {
  }

  // -------------------------------------------------- requests in sequence

  /** One upload request with the outcomes of its external calls. */
  datatype Request = Request(file: UploadedFile, oracles: Oracles)

  /** The outcome of serving several requests: final store, replies and the joined effect log. */
  datatype Run = Run(store: Store, replies: seq<Reply>, effects: seq<Effect>)

  /** The store, replies and effects after serving requests one at a time, in order. */
  function RunUploads(st: Store, reqs: seq<Request>): Run
    decreases |reqs|
  {
    if reqs == [] then Run(st, [], [])
    else
      var before := RunUploads(st, reqs[..|reqs| - 1]);
      var last := reqs[|reqs| - 1];
      var u := SendImage(before.store, last.file, last.oracles);
      Run(u.store, before.replies + [u.reply], before.effects + u.effects)
  }

  /** The records the successful replies created, in order. */
  function CreatedImages(replies: seq<Reply>): seq<Json>
    decreases |replies|
  {
    if replies == [] then []
    else
      var last := replies[|replies| - 1];
      CreatedImages(replies[..|replies| - 1]) + (if last.Created? then [ImageJson(last.image)] else [])
  }

  /**
   * Served one after another, uploads lose nothing: whatever is stored, the
   * final list is the original list followed by every created record in
   * request order, and no file is ever added.
   */
  lemma {:induction false} RunAppendsInOrder(st: Store, reqs: seq<Request>)
    ensures PriorItems(RunUploads(st, reqs).store.catalog) == PriorItems(st.catalog) + CreatedImages(RunUploads(st, reqs).replies)
    ensures RunUploads(st, reqs).store.files <= st.files
    ensures |RunUploads(st, reqs).replies| == |reqs|
    decreases |reqs|
  {
    if reqs != [] {
      var front := reqs[..|reqs| - 1];
      RunAppendsInOrder(st, front);
      var before := RunUploads(st, front);
      var last := reqs[|reqs| - 1];
      var u := SendImage(before.store, last.file, last.oracles);
      assert (before.replies + [u.reply])[..|before.replies|] == before.replies;
      if u.reply.Created? {
        assert PriorItems(u.store.catalog) == PriorItems(before.store.catalog) + [ImageJson(u.reply.image)];
      }
    }
  }

  /** A run of uploads starting from a well-formed catalog leaves it well-formed. */
  lemma {:induction false} RunPreservesWellFormed(st: Store, reqs: seq<Request>)
    requires WellFormed(st.catalog)
    ensures WellFormed(RunUploads(st, reqs).store.catalog)
    decreases |reqs|
  {
    if reqs != [] {
      var front := reqs[..|reqs| - 1];
      RunPreservesWellFormed(st, front);
      var last := reqs[|reqs| - 1];
      UploadPreservesWellFormed(RunUploads(st, front).store, last.file, last.oracles);
    }
  }

  /**
   * Over a whole run the catalog is written exactly once per created record:
   * never for a failed request, and once for each successful one.
   */
  lemma {:induction false} RunWritesOncePerUpload(st: Store, reqs: seq<Request>)
    ensures Writes(RunUploads(st, reqs).effects) == |CreatedImages(RunUploads(st, reqs).replies)|
    decreases |reqs|
  {
    if reqs != [] {
      var front := reqs[..|reqs| - 1];
      RunWritesOncePerUpload(st, front);
      var before := RunUploads(st, front);
      var last := reqs[|reqs| - 1];
      var u := SendImage(before.store, last.file, last.oracles);
      WritesConcat(before.effects, u.effects);
      WrittenAtMostOnce(before.store, last.file, last.oracles);
      var replies := before.replies + [u.reply];
      assert replies[..|replies| - 1] == before.replies;
    }
  }
}
