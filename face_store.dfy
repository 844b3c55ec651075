/** The in-memory embedding store of `FaceRecognitionService`
    (services/face_recognition.py): the `face_embeddings` dictionary from
    user id to record, and the pure meaning of the operations that read or
    write it: registration, metadata update, lookup and the start-up load. */
module FaceStore {
  import opened JsonValue
  import opened OrderedDict

  /** What the embedding model returns for one face. */
  type Embedding = seq<real>

  /** `datetime.now().isoformat()`, supplied by the caller. */
  type Timestamp = string

  /** One stored record. Each field is a dictionary key that may be absent:
      records written by registration hold `embedding`, `metadata` and
      `last_updated`, while records read back from disk may hold any subset
      of these keys, and `image_path` as well. */
  datatype FaceRecord = FaceRecord(
    embedding: Option<Embedding>,
    metadata: Option<Json>,
    lastUpdated: Option<Json>,
    imagePath: Option<Json>)

  /** The `face_embeddings` dictionary. */
  type Store = Dict<FaceRecord>

  /** Outcome of decoding the image, saving it and asking the embedding model
      for its embedding; any failure along the way raises. */
  datatype Extraction = ExtractionFailed | Extracted(embedding: Embedding)

  /** `data.get("metadata", {})`: a stored `None` stays `None`. */
  function MetadataOf(rec: FaceRecord): (m: Json)
    ensures rec.metadata.Some? ==> m == rec.metadata.value
    ensures rec.metadata.None? ==> m == EmptyObject
  {
    rec.metadata.GetOr(EmptyObject)
  }

  const UserIdNotString := "user_id must be a string"
  const ImageDataNotString := "image_data must be a base64 encoded string"
  const UserNotFound := "User not found"
  const MetadataUpdated := "Metadata updated successfully"
  /** The persistence method registration calls; the class defines only `save_embeddings`. */
  const SaveMethodCalled := "_save_embeddings"

  /** Why `register_face` raised. */
  datatype RegisterError =
    | ValidationError(message: string)   // ValueError from the type checks
    | ProcessingFailed                   // image decoding, saving or embedding raised
    | AttributeMissing(name: string)     // AttributeError: no such method on the service
    | TimedOut                           // TimeoutError from the elapsed-time check

  datatype RegisterOutcome = Registered(userId: string) | Raised(error: RegisterError)

  /** `{"status": "success" | "error", "message": ...}` */
  datatype Status = Success(message: string) | Failure(message: string)

  /** The store after an operation, and what the operation returned. */
  datatype Transition<R> = Transition(store: Store, result: R)

  /** The record the in-memory write of registration stores. */
  function WrittenRecord(embedding: Embedding, metadata: Json, now: Timestamp): (r: FaceRecord)
    ensures r.embedding == Some(embedding)
    ensures MetadataOf(r) == metadata
    ensures r.lastUpdated == Some(JStr(now))
    ensures r.imagePath.None?
  {
    FaceRecord(Some(embedding), Some(metadata), Some(JStr(now)), None)
  }

  /** The checks `register_face` makes before any processing. */
  function Validate(userId: Json, imageData: Json): (e: Option<RegisterError>)
    ensures e.None? <==> userId.JStr? && imageData.JStr?
    ensures !userId.JStr? ==> e == Some(ValidationError(UserIdNotString))
    ensures userId.JStr? && !imageData.JStr? ==> e == Some(ValidationError(ImageDataNotString))
  {
    if !userId.JStr? then Some(ValidationError(UserIdNotString))
    else if !imageData.JStr? then Some(ValidationError(ImageDataNotString))
    else None
  }

  /** `register_face` as the code stands: validation, then processing, then the
      in-memory write, then a call to a method the class does not define. */
  function Register(d: Store, userId: Json, imageData: Json, metadata: Json,
                    extraction: Extraction, now: Timestamp): (t: Transition<RegisterOutcome>)
    requires Valid(d)
    ensures Valid(t.store)
    ensures t.result.Raised?
    ensures Validate(userId, imageData).Some? ==>
              t == Transition(d, Raised(Validate(userId, imageData).value))
    ensures t.store != d ==> userId.JStr? && imageData.JStr? && extraction.Extracted?
  {
    match Validate(userId, imageData)
    case Some(e) => Transition(d, Raised(e))
    case None =>
      match extraction
      case ExtractionFailed => Transition(d, Raised(ProcessingFailed))
      case Extracted(embedding) =>
        Transition(Assign(d, userId.s, WrittenRecord(embedding, metadata, now)),
                   Raised(AttributeMissing(SaveMethodCalled)))
  }

  /** Once the image is processed, registration stores exactly the new record
      under the user id, leaves every other user alone, keeps an existing key's
      position, and still raises. */
  lemma RegisterStoresThenRaises(d: Store, userId: string, imageData: string, metadata: Json,
                                 embedding: Embedding, now: Timestamp)
    requires Valid(d)
    ensures var t := Register(d, JStr(userId), JStr(imageData), metadata, Extracted(embedding), now);
      && t.result == Raised(AttributeMissing(SaveMethodCalled))
      && Get(t.store, userId) == Some(WrittenRecord(embedding, metadata, now))
      && (forall k :: k != userId ==> Get(t.store, k) == Get(d, k))
      && (userId in d.values ==> t.store.keys == d.keys)
      && (userId !in d.values ==> t.store.keys == d.keys + [userId])
  {
  }

  /** A failure before the write (bad types, or an image that cannot be
      processed) raises and leaves the store as it was. */
  lemma RegisterFailureLeavesStore(d: Store, userId: Json, imageData: Json, metadata: Json,
                                   extraction: Extraction, now: Timestamp)
    requires Valid(d)
    requires !userId.JStr? || !imageData.JStr? || extraction.ExtractionFailed?
    ensures Register(d, userId, imageData, metadata, extraction, now).store == d
  {
  }

  /** `register_face` as evidently intended: the same write followed by a
      successful save, and then the elapsed-time check of the timeout wrapper,
      which raises after the store has already changed. */
  function RegisterIntended(d: Store, userId: Json, imageData: Json, metadata: Json,
                            extraction: Extraction, now: Timestamp, overran: bool)
    : (t: Transition<RegisterOutcome>)
    requires Valid(d)
    ensures Valid(t.store)
    ensures t.result.Registered? <==>
              userId.JStr? && imageData.JStr? && extraction.Extracted? && !overran
    ensures t.result.Registered? ==> t.result.userId == userId.s
    ensures t.store == Register(d, userId, imageData, metadata, extraction, now).store
  {
    match Validate(userId, imageData)
    case Some(e) => Transition(d, Raised(e))
    case None =>
      match extraction
      case ExtractionFailed => Transition(d, Raised(ProcessingFailed))
      case Extracted(embedding) =>
        Transition(Assign(d, userId.s, WrittenRecord(embedding, metadata, now)),
                   if overran then Raised(TimedOut) else Registered(userId.s))
  }

  /** The discrepancy: on a valid, processable input the code as written
      raises after writing the record, where the intended code reports
      success for the very same new store. */
  lemma SaveCallRaisesAfterWrite(d: Store, userId: string, imageData: string, metadata: Json,
                                 embedding: Embedding, now: Timestamp)
    requires Valid(d)
    ensures var asWritten := Register(d, JStr(userId), JStr(imageData), metadata, Extracted(embedding), now);
            var intended := RegisterIntended(d, JStr(userId), JStr(imageData), metadata, Extracted(embedding), now, false);
            && asWritten.result == Raised(AttributeMissing(SaveMethodCalled))
            && intended.result == Registered(userId)
            && asWritten.store == intended.store
            && Get(asWritten.store, userId) == Some(WrittenRecord(embedding, metadata, now))
  {
  }

  /** `update_metadata`: replaces the metadata and the timestamp of a present
      user; reports "User not found" otherwise. */
  function UpdateMetadata(d: Store, userId: string, metadata: Json, now: Timestamp)
    : (t: Transition<Status>)
    requires Valid(d)
    ensures Valid(t.store)
    ensures userId in d.values <==> t.result == Success(MetadataUpdated)
    ensures userId !in d.values ==> t == Transition(d, Failure(UserNotFound))
    ensures userId in d.values ==>
              && t.store.keys == d.keys
              && Get(t.store, userId) ==
                 Some(d.values[userId].(metadata := Some(metadata), lastUpdated := Some(JStr(now))))
    ensures forall k :: k != userId ==> Get(t.store, k) == Get(d, k)
  {
    if userId in d.values then
      var rec := d.values[userId];
      Transition(Assign(d, userId, rec.(metadata := Some(metadata), lastUpdated := Some(JStr(now)))),
                 Success(MetadataUpdated))
    else
      Transition(d, Failure(UserNotFound))
  }

  /** What `get_user_faces` returns for a present user. */
  datatype UserFaces = UserFaces(userId: string, metadata: Json, lastUpdated: Json, imagePath: Json)

  datatype Lookup = Found(faces: UserFaces) | NotFound(message: string)

  /** `get_user_faces`: a read of the store; missing keys read as `{}` for
      the metadata and `None` for the timestamp and the image path. */
  function GetUserFaces(d: Store, userId: string): (r: Lookup)
    ensures r.Found? <==> userId in d.values
    ensures r.NotFound? ==> r.message == UserNotFound
    ensures r.Found? ==> r.faces.userId == userId && r.faces.metadata == MetadataOf(d.values[userId])
    ensures r.Found? ==> var rec := d.values[userId];
              && (rec.lastUpdated.Some? ==> r.faces.lastUpdated == rec.lastUpdated.value)
              && (rec.lastUpdated.None? ==> r.faces.lastUpdated == JNull)
              && (rec.imagePath.Some? ==> r.faces.imagePath == rec.imagePath.value)
              && (rec.imagePath.None? ==> r.faces.imagePath == JNull)
  {
    if userId in d.values then
      var rec := d.values[userId];
      Found(UserFaces(userId, MetadataOf(rec), rec.lastUpdated.GetOr(JNull), rec.imagePath.GetOr(JNull)))
    else
      NotFound(UserNotFound)
  }

  /** After registration has written, a lookup sees exactly the new metadata
      (a `None` stays `None`), the new timestamp, and no image path: the write
      drops every other key of an older record. */
  lemma RegisterThenGet(d: Store, userId: string, imageData: string, metadata: Json,
                        embedding: Embedding, now: Timestamp)
    requires Valid(d)
    ensures GetUserFaces(Register(d, JStr(userId), JStr(imageData), metadata, Extracted(embedding), now).store, userId)
            == Found(UserFaces(userId, metadata, JStr(now), JNull))
  {
    RegisterStoresThenRaises(d, userId, imageData, metadata, embedding, now);
  }

  /** Registering the same user twice: the second registration wins, and
      the user keeps the position the first one gave it. */
  lemma ReRegisterOverwrites(d: Store, userId: string, image1: string, image2: string,
                             metadata1: Json, metadata2: Json,
                             embedding1: Embedding, embedding2: Embedding, now1: Timestamp, now2: Timestamp)
    requires Valid(d)
    ensures var s1 := Register(d, JStr(userId), JStr(image1), metadata1, Extracted(embedding1), now1).store;
            var s2 := Register(s1, JStr(userId), JStr(image2), metadata2, Extracted(embedding2), now2).store;
            && Get(s2, userId) == Some(WrittenRecord(embedding2, metadata2, now2))
            && s2.keys == s1.keys
            && IndexOf(s2.keys, userId) == IndexOf(s1.keys, userId)
  {
    var s1 := Register(d, JStr(userId), JStr(image1), metadata1, Extracted(embedding1), now1).store;
    RegisterStoresThenRaises(d, userId, image1, metadata1, embedding1, now1);
    RegisterStoresThenRaises(s1, userId, image2, metadata2, embedding2, now2);
  }

  /** An update is visible to the next lookup; the image path read back is the
      one stored before, and the embedding is untouched. */
  lemma UpdateThenGet(d: Store, userId: string, metadata: Json, now: Timestamp)
    requires Valid(d) && userId in d.values
    ensures var s := UpdateMetadata(d, userId, metadata, now).store;
            && GetUserFaces(s, userId) ==
               Found(UserFaces(userId, metadata, JStr(now), d.values[userId].imagePath.GetOr(JNull)))
            && s.values[userId].embedding == d.values[userId].embedding
  {
  }

  /** What the start-up read of the snapshot file found. */
  datatype LoadOutcome =
    | FileMissing
    | ReadFailed                                       // open or JSON decoding raised
    | Decoded(members: seq<(string, FaceRecord)>)      // the object's members in file order

  /** `load_existing_embeddings`: a missing or unreadable file gives the empty
      store; otherwise the store holds exactly the decoded users, each with the
      last record the file gives it, in the order the file first names them. */
  function Load(o: LoadOutcome): (d: Store)
    ensures Valid(d)
    ensures !o.Decoded? ==> Items(d) == []
    ensures o.Decoded? ==>
              forall k :: k in d.values <==> exists i :: 0 <= i < |o.members| && o.members[i].0 == k
    ensures o.Decoded? ==>
              forall i :: 0 <= i < |o.members| && (forall j :: i < j < |o.members| ==> o.members[j].0 != o.members[i].0) ==>
                d.values[o.members[i].0] == o.members[i].1
    ensures o.Decoded? ==> FirstSeenOrder(d.keys, KeysOf(o.members))
  {
    match o
    case Decoded(members) => FromPairs(members)
    case _ => Empty()
  }
}
