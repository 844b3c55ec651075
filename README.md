# Face embedding store and matching rule

This project models `FaceRecognitionService` from `services/face_recognition.py`: the in-memory
`face_embeddings` dictionary that maps each user id to a record (`embedding`,
`metadata`, `last_updated`), and the four operations on it:

- registration (`register_face` / `_register_face`);
- metadata update (`update_metadata`);
- lookup (`get_user_faces`);
- verification (`verify_face`).

It also models the start-up load (`load_existing_embeddings`).

Modules:

- `JsonValue` (json_value.dfy): `Option` and the JSON-compatible values the service passes through unread.
  Metadata, timestamps and image paths are such values, and Python's `None` is `JNull`.
- `OrderedDict` (ordered_dict.dfy): a Python `dict` with string keys. It is a sequence of distinct keys, kept in
  insertion order, plus a map. Assigning a new key appends it. Assigning an existing key keeps its position.
  Iteration order matters because it breaks ties in verification.
- `FaceStore` (face_store.dfy): the record type, and the pure meaning of registration, update, lookup and load
  as functions from the old store to the new store and the result.
- `Matching` (matching.dfy): the scoring loop of `verify_face`, the stable descending sort, the selection of
  `matches[0]`, and the proof that the selection rule holds.
- `FaceRecognition` (face_recognition.dfy): the class `FaceRecognitionService`. Its methods update the
  `faceEmbeddings` field in place, and each is proved equal to the `FaceStore` function it implements.
  `VerifyFace` is the `for` loop of `verify_face`, proved against `Matching.Verify`.
- `Scenarios` (scenarios.dfy): small stores worked through to a concrete answer.

Things outside the code's reach are parameters:

- `Extraction`: what image decoding, image saving and `DeepFace.represent` produced, either an embedding or a failure.
- `saved`: the path `save_image` returned, or `None`.
- `now`: the clock.
- `LoadOutcome`: what reading the snapshot file produced.
- `Distance`: an arbitrary function from two embeddings to an optional `real`. It stands for
  `np.linalg.norm(a - b)`, and `None` stands for numpy raising.

A record's fields are optional because a record read back from disk may lack any key.
`get_user_faces` and `verify_face` then use their defaults:
`{}` for missing metadata, and `None` for a missing timestamp or image path.
A missing `embedding` makes the scan raise.

Three facts about the reachable code, which the model follows:

- Registration always ends by raising. The write at lines 187-191 happens first, and then line 194 calls
  `_save_embeddings`, which the class does not define (it defines `save_embeddings`). See "## Findings".
- Lines 205-234 follow a `raise` and are never executed, so registration never writes `registered_at` or
  `image_path`, and never replaces a `None` metadata by `{}`. Nowhere does the code check the image size or
  require metadata keys.
- Registration validates only that `user_id` and `image_data` are strings.
  `verify_face` reports a failing distance computation as an error result, not as a separate shape error.

## Model

| member | source | states |
|---|---|---|
| `OrderedDict.Empty` | services/face_recognition.py:91-95 | the empty dictionary is valid, has no entries and has no items |
| `OrderedDict.Items` | services/face_recognition.py:275 | `items()` lists each key once, in iteration order, with its stored value |
| `OrderedDict.Assign` | services/face_recognition.py:187-191 | `d[k] = v` stores `v` under `k` and leaves every other key's value alone; a present key keeps its position, a new key is appended; distinctness of keys is kept |
| `OrderedDict.AssignExistingItems` | services/face_recognition.py:187-191 | overwriting a present key replaces its item in place in the iteration order |
| `OrderedDict.AssignNewItems` | services/face_recognition.py:187-191 | a new key adds exactly one item, at the end of the iteration order |
| `OrderedDict.FromPairs` | services/face_recognition.py:88 | the dictionary a decoded JSON object gives: valid, its keys are exactly the members' keys, the last value of each key wins, and the keys are iterated in the order of their first appearance among the members |
| `FaceStore.WrittenRecord` | services/face_recognition.py:187-191 | the record registration writes holds the new embedding and timestamp, reads back exactly the metadata passed (a `None` stays `None`, not `{}`), and has no image path |
| `FaceStore.MetadataOf` | services/face_recognition.py:286 | `data.get("metadata", {})`: a stored value (even `None`) is returned, a missing key gives `{}` |
| `FaceStore.Validate` | services/face_recognition.py:146-150 | validation passes iff both `user_id` and `image_data` are strings; a non-string `user_id` is reported first |
| `FaceStore.Register` | services/face_recognition.py:144-203 | registration as written always raises; a validation failure raises with the store unchanged; the store changes only when both inputs are strings and the image was processed |
| `FaceStore.RegisterStoresThenRaises` | services/face_recognition.py:187-194 | after the write, the user's record is exactly the new embedding, metadata and timestamp; other users are unchanged; an existing key keeps its position; the call still raises the missing-attribute error |
| `FaceStore.RegisterFailureLeavesStore` | services/face_recognition.py:146-184 | a validation or processing failure leaves the store as it was |
| `FaceStore.RegisterIntended` | services/face_recognition.py:186-199 | with the save call corrected, registration reports success iff the inputs are valid, the image is processed and the time check passes; its store is the same as the as-written one |
| `FaceStore.SaveCallRaisesAfterWrite` | services/face_recognition.py:194 | on a valid, processable input the code as written raises after the write, while the intended code returns success with the same store |
| `FaceStore.UpdateMetadata` | services/face_recognition.py:360-372 | on a present user: success, and only that record's metadata and timestamp change, with the key order kept; on an absent user: "User not found" and the store unchanged; other users untouched in both cases |
| `FaceStore.GetUserFaces` | services/face_recognition.py:327-340 | found iff the user is stored; returns the metadata (or `{}`), the timestamp (or `None`) and the image path (or `None`); otherwise "User not found" |
| `FaceStore.RegisterThenGet` | services/face_recognition.py:327-335 | a lookup after registration returns the new metadata (a `None` stays `None`), the new timestamp and no image path |
| `FaceStore.ReRegisterOverwrites` | services/face_recognition.py:187-191 | registering twice keeps only the second record, and the user keeps the position the first registration gave it |
| `FaceStore.UpdateThenGet` | services/face_recognition.py:360-362 | after an update, a lookup returns the new metadata and timestamp and the old image path; the embedding is untouched |
| `FaceStore.Load` | services/face_recognition.py:82-95 | a missing or unreadable snapshot gives an empty store; otherwise the store holds exactly the decoded users, each with the last record the file gives it, iterated in the order the file first names them |
| `Matching.Confidence` | services/face_recognition.py:280 | `1 - distance` is at most 1 for a non-negative distance, exactly 1 iff the distance is 0, and non-negative iff the distance is at most 1 |
| `Matching.Assess` | services/face_recognition.py:276-287 | a record raises iff it has no embedding or the distance fails; otherwise it is a candidate iff `1 - distance >= min_confidence` (inclusive), with its id, that confidence and its metadata or `{}` |
| `Matching.Scan` | services/face_recognition.py:274-287 | a scan that does not raise yields no more candidates than there are records, each at or above the threshold |
| `Matching.ScanOrder` | services/face_recognition.py:274-287 | the candidates are the accepted records' candidates, one each, in iteration order |
| `Matching.ScanStep` | services/face_recognition.py:274-287 | one loop iteration extends the scan of the records before it |
| `Matching.ScanFaults` | services/face_recognition.py:274-279 | the loop raises iff some stored record raises |
| `Matching.ScanMembers` | services/face_recognition.py:274-287 | the candidate list holds exactly the accepted records' candidates |
| `Matching.FirstMaxIndex` | services/face_recognition.py:291-292 | the index of a candidate of maximal confidence, with every earlier candidate strictly lower |
| `Matching.ScanBest` | services/face_recognition.py:289-292 | the first maximal candidate comes from an accepted record that no accepted record beats and that every earlier accepted record scores below |
| `Matching.Lead` | services/face_recognition.py:291 | the leading run at least as confident as a new element ends at the first strictly less confident element |
| `Matching.Insert` | services/face_recognition.py:291 | inserting adds exactly the one element, and the head stays in front unless the new element is strictly more confident |
| `Matching.InsertPlacement` | services/face_recognition.py:291 | the new element goes right after the leading run of elements at least as confident as it and right before the first less confident one; the rest keeps its order |
| `Matching.LeadCoversAllOnSorted` | services/face_recognition.py:291 | when the sequence is in descending order (the only case the sort inserts into), the leading run holds every element at least as confident as the new one, so the new element goes after every equal one |
| `Matching.InsertSorted` | services/face_recognition.py:291 | insertion keeps a descending sequence descending |
| `Matching.SortDesc` | services/face_recognition.py:291 | the sort result is a permutation of the candidates and is in descending order of confidence |
| `Matching.SortDescHead` | services/face_recognition.py:291-292 | after the stable descending sort, `matches[0]` is the first candidate of maximal confidence |
| `Matching.Verify` | services/face_recognition.py:249-271 | an unsaved image gives "Failed to save verification image"; a failed embedding gives "No face detected in verification image"; a match carries the saved image path |
| `Matching.VerifySelectsBest` | services/face_recognition.py:274-308 | the scan raises iff some record raises; no match iff every record is below the threshold; a match is the earliest stored record of maximal confidence, with its id, confidence and metadata |
| `FaceRecognition.FaceRecognitionService.constructor` | services/face_recognition.py:31-32 | the service starts with the loaded store |
| `FaceRecognition.FaceRecognitionService.LoadExistingEmbeddings` | services/face_recognition.py:82-95 | the store becomes exactly what `Load` gives for the outcome of reading the file |
| `FaceRecognition.FaceRecognitionService.RegisterFace` | services/face_recognition.py:132-166 | `metadata` defaults to `None`; the new store and the raised error are exactly those of `FaceStore.Register` |
| `FaceRecognition.FaceRecognitionService.RegisterWrite` | services/face_recognition.py:168-203 | a processing failure raises with the store unchanged; otherwise the record is written, and then the missing-attribute error is raised |
| `FaceRecognition.FaceRecognitionService.RegisterFaceIntended` | services/face_recognition.py:186-199 | the corrected registration, with `metadata` defaulting to `None`: new store and result as `FaceStore.RegisterIntended` |
| `FaceRecognition.FaceRecognitionService.UpdateMetadata` | services/face_recognition.py:359-372 | the in-place edit leaves the store and result of `FaceStore.UpdateMetadata` |
| `FaceRecognition.FaceRecognitionService.VerifyFace` | services/face_recognition.py:247-308 | the loop over the stored records, then the sort and `matches[0]`, returns exactly `Matching.Verify` of the current store, and changes nothing |
| `Scenarios.ExactQueryMatches` | services/face_recognition.py:279-299 | one user registered with embedding [1, 0]: a query at distance 0 matches that user with confidence 1 at threshold 0.9 |
| `Scenarios.FarQueryDoesNotMatch` | services/face_recognition.py:282-308 | a query farther than 0.3 from the only user gives no match at the default threshold 0.7 |
| `Scenarios.TieGoesToEarlierUser` | services/face_recognition.py:289-299 | two users with equal confidence: the one inserted first is returned |
| `Scenarios.ThresholdIsInclusive` | services/face_recognition.py:282 | a confidence equal to the threshold matches; a confidence below the threshold, by any margin, does not |
| `Scenarios.UpdateUnknownUser` | services/face_recognition.py:368-372 | updating an unknown user returns "User not found" and leaves the store unchanged |

## Left out

- Image decoding (base64, PIL), image files, and the calls to `DeepFace.represent` and `DeepFace.analyze` (`ping`):
  these are external. Their outcome is the `Extraction` parameter, and `ping` is not modelled.
- `save_embeddings` and `save_image` write files. Persisting the snapshot has no effect on the in-memory store
  and does not raise, so it is left out. The snapshot's on-disk format, and the round trip through it, are not modelled.
- Reading the snapshot: only the outcome is modelled, as missing, unreadable, or decoded members.
  A file whose top-level value or records are not JSON objects is not modelled.
- `np.linalg.norm` and floating point: the distance is an abstract function and confidences are exact reals.
  Rounding, NaN and infinities are not modelled.
- `_process_with_timeout` (lines 53-80) depends on the wall clock. Its check at line 60 compares the time between
  two consecutive clock reads with the timeout, so it cannot fire for a positive timeout (the default is 30).
  A zero or negative timeout can make it raise `TimeoutError` before `_register_face` runs, with nothing written;
  that case is not modelled. The later checks matter only in `RegisterFaceIntended`, where they are the boolean `overran`.
- Logging (`utils/logger.py`) and `app.py`, which hold no logic of the store.
- The `threshold` and `timeout` constructor arguments: the code never reads `threshold`, and `timeout` belongs
  to the clock check above.
- Record keys other than `embedding`, `metadata`, `last_updated` and `image_path`. Registration drops them and
  an update keeps them. No operation returns them.
- Exception messages produced by Python itself (`str(e)`): an exception during the scan is the result `VerifyRaised`.
- `get_user_faces` and `update_metadata` with a non-string or unhashable user id: the model takes a string.
- Aliasing: the stored metadata object is shared with the caller's, and the model treats it as a value.
- `Matching.SortDesc`: stability is proved only for the first position, which is the only one `verify_face` reads.
  The full order is proved to be a descending permutation.
- Concurrency: the code has no locks and no threads.

## Findings

| source | as written | input that shows it | evidently intended | confidence | as-written member | corrected member |
|---|---|---|---|---|---|---|
| services/face_recognition.py:194 | `_register_face` calls `self._save_embeddings()` after the in-memory write; the class defines only `save_embeddings`, so the call raises `AttributeError` and `register_face` always raises, although the record was stored | any string `user_id` and `image_data` whose image yields an embedding, e.g. `user_id = "u1"` | call `save_embeddings()` and return the success result of lines 196-200 | not executed | `FaceStore.SaveCallRaisesAfterWrite` | `FaceStore.RegisterIntended` |
