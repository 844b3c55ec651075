/** `FaceRecognitionService` (services/face_recognition.py) as an object
    whose one piece of state, the `face_embeddings` dictionary, its methods
    update in place. The image decoder, the embedding model, the clock and
    the file system are outside the model: their outcomes are parameters. */
module FaceRecognition {
  import opened JsonValue
  import opened OrderedDict
  import opened FaceStore
  import opened Matching

  class FaceRecognitionService {
    var faceEmbeddings: Store

    ghost predicate Valid()
      reads this
    {
      OrderedDict.Valid(faceEmbeddings)
    }

    /** `__init__`: starts empty, then loads the snapshot file. */
    constructor (loaded: LoadOutcome)
      ensures Valid()
      ensures faceEmbeddings == Load(loaded)
    {
      faceEmbeddings := Empty();
      new;
      LoadExistingEmbeddings(loaded);
    }

    /** `load_existing_embeddings`: any failure to read the file, or its
        absence, leaves the store empty. */
    method LoadExistingEmbeddings(loaded: LoadOutcome)
      modifies this
      ensures Valid()
      ensures faceEmbeddings == Load(loaded)
    {
      match loaded
      case Decoded(members) =>
        faceEmbeddings := FromPairs(members);
      case FileMissing =>
        faceEmbeddings := Empty();
      case ReadFailed =>
        faceEmbeddings := Empty();
    }

    /** `register_face`: the type checks, then `_register_face`. */
    method RegisterFace(userId: Json, imageData: Json, extraction: Extraction, now: Timestamp,
                        metadata: Json := JNull) returns (r: RegisterOutcome)
      requires Valid()
      modifies this
      ensures Valid()
      ensures Transition(faceEmbeddings, r) ==
              Register(old(faceEmbeddings), userId, imageData, metadata, extraction, now)
    {
      if !userId.JStr? {
        return Raised(ValidationError(UserIdNotString));
      }
      if !imageData.JStr? {
        return Raised(ValidationError(ImageDataNotString));
      }
      r := RegisterWrite(userId.s, metadata, extraction, now);
    }

    /** `_register_face`: after the image is processed the record is written,
        and then the call to `_save_embeddings` raises, because the class
        defines no method of that name. */
    method RegisterWrite(userId: string, metadata: Json, extraction: Extraction, now: Timestamp)
      returns (r: RegisterOutcome)
      requires Valid()
      modifies this
      ensures Valid()
      ensures extraction.ExtractionFailed? ==>
                faceEmbeddings == old(faceEmbeddings) && r == Raised(ProcessingFailed)
      ensures extraction.Extracted? ==>
                && faceEmbeddings == Assign(old(faceEmbeddings), userId,
                                            WrittenRecord(extraction.embedding, metadata, now))
                && r == Raised(AttributeMissing(SaveMethodCalled))
    {
      if extraction.ExtractionFailed? {
        return Raised(ProcessingFailed);
      }
      faceEmbeddings := Assign(faceEmbeddings, userId, WrittenRecord(extraction.embedding, metadata, now));
      r := Raised(AttributeMissing(SaveMethodCalled));
    }

    /** Registration with the persistence call spelled as the class defines
        it; `overran` is the elapsed-time check that follows the write. */
    method RegisterFaceIntended(userId: Json, imageData: Json, extraction: Extraction, now: Timestamp,
                                overran: bool, metadata: Json := JNull)
      returns (r: RegisterOutcome)
      requires Valid()
      modifies this
      ensures Valid()
      ensures Transition(faceEmbeddings, r) ==
              RegisterIntended(old(faceEmbeddings), userId, imageData, metadata, extraction, now, overran)
    {
      if !userId.JStr? {
        return Raised(ValidationError(UserIdNotString));
      }
      if !imageData.JStr? {
        return Raised(ValidationError(ImageDataNotString));
      }
      if extraction.ExtractionFailed? {
        return Raised(ProcessingFailed);
      }
      faceEmbeddings := Assign(faceEmbeddings, userId.s, WrittenRecord(extraction.embedding, metadata, now));
      r := if overran then Raised(TimedOut) else Registered(userId.s);
    }

    /** `update_metadata`: edits the record of a present user in place. */
    method UpdateMetadata(userId: string, metadata: Json, now: Timestamp) returns (r: Status)
      requires Valid()
      modifies this
      ensures Valid()
      ensures Transition(faceEmbeddings, r) ==
              FaceStore.UpdateMetadata(old(faceEmbeddings), userId, metadata, now)
    {
      if userId in faceEmbeddings.values {
        var data := faceEmbeddings.values[userId];
        data := data.(metadata := Some(metadata));
        data := data.(lastUpdated := Some(JStr(now)));
        faceEmbeddings := Assign(faceEmbeddings, userId, data);
        r := Success(MetadataUpdated);
      } else {
        r := Failure(UserNotFound);
      }
    }

    /** `verify_face`: `saved` is the path `save_image` returned (or `None`),
        `extraction` what the embedding model made of the image. */
    method VerifyFace(saved: Option<string>, extraction: Extraction, distance: Distance,
                      minConfidence: real := DefaultMinConfidence)
      returns (r: VerifyResult)
      requires Valid()
      ensures r == Verify(faceEmbeddings, saved, extraction, distance, minConfidence)
    {
      if saved.None? {
        return VerifyError(SaveFailedMessage);
      }
      if extraction.ExtractionFailed? {
        return VerifyError(NoFaceMessage);
      }
      var inputEmbedding := extraction.embedding;
      ghost var q := Query(inputEmbedding, distance, minConfidence);
      ghost var items := Items(faceEmbeddings);
      var keys := faceEmbeddings.keys;
      var matches: seq<Candidate> := [];
      var i := 0;
      while i < |keys|
        invariant 0 <= i <= |keys|
        invariant Scan(items[..i], q) == Scanned(matches)
      {
        var userId := keys[i];
        var data := faceEmbeddings.values[userId];
        ScanStep(items[..i], items[i], q);
        assert items[..i + 1] == items[..i] + [items[i]];
        if data.embedding.None? {
          ScanFaults(items, q);
          return VerifyRaised;
        }
        var d := distance(inputEmbedding, data.embedding.value);
        if d.None? {
          ScanFaults(items, q);
          return VerifyRaised;
        }
        var confidence := 1.0 - d.value;
        if confidence >= minConfidence {
          matches := matches + [Candidate(userId, confidence, MetadataOf(data))];
        }
        i := i + 1;
      }
      assert items[..i] == items;
      if matches != [] {
        matches := SortDesc(matches);
        var bestMatch := matches[0];
        r := Match(bestMatch.userId, bestMatch.confidence, bestMatch.metadata, saved.value);
      } else {
        r := NoMatch;
      }
    }
  }
}
