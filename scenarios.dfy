/** Small stores on which the registration, update and matching rules are
    worked out to a concrete answer. */
module Scenarios {
  import opened JsonValue
  import opened OrderedDict
  import opened FaceStore
  import opened Matching

  /** A store holding one user iterates over that one item. */
  lemma SingleItem(userId: string, rec: FaceRecord)
    ensures Items(Assign(Empty(), userId, rec)) == [(userId, rec)]
  {
  }

  /** Verification against a one-item store whose record is below the threshold finds no match. */
  lemma VerifySingleRejected(userId: string, rec: FaceRecord, imagePath: string, query: Embedding,
                             distance: Distance, minConfidence: real)
    requires Assess((userId, rec), Query(query, distance, minConfidence)).Rejected?
    ensures Verify(Assign(Empty(), userId, rec), Some(imagePath), Extracted(query), distance, minConfidence) == NoMatch
  {
    var e := (userId, rec);
    SingleItem(userId, rec);
    ScanStep([], e, Query(query, distance, minConfidence));
    assert [e] == [] + [e];
  }

  /** Verification against a one-item store whose record reaches the threshold matches that record. */
  lemma VerifySingleAccepted(userId: string, rec: FaceRecord, imagePath: string, query: Embedding,
                             distance: Distance, minConfidence: real, c: Candidate)
    requires Assess((userId, rec), Query(query, distance, minConfidence)) == Accepted(c)
    ensures Verify(Assign(Empty(), userId, rec), Some(imagePath), Extracted(query), distance, minConfidence) ==
            Match(c.userId, c.confidence, c.metadata, imagePath)
  {
    var e := (userId, rec);
    SingleItem(userId, rec);
    ScanStep([], e, Query(query, distance, minConfidence));
    assert [e] == [] + [e];
    assert SortDesc([c]) == Insert(c, SortDesc([])) by {
      assert [c][..0] == [];
    }
  }

  /** One user registered with embedding [1, 0]: a query at distance 0 matches
      that user with confidence 1 at threshold 0.9. */
  lemma ExactQueryMatches(metadata: Json, now: Timestamp, imagePath: string, distance: Distance)
    requires distance([1.0, 0.0], [1.0, 0.0]) == Some(0.0)
    ensures var s := Register(Empty(), JStr("u1"), JStr("image"), metadata, Extracted([1.0, 0.0]), now).store;
            Verify(s, Some(imagePath), Extracted([1.0, 0.0]), distance, 0.9) ==
            Match("u1", 1.0, metadata, imagePath)
  {
    var rec := WrittenRecord([1.0, 0.0], metadata, now);
    var q := Query([1.0, 0.0], distance, 0.9);
    assert Assess(("u1", rec), q) == Accepted(Candidate("u1", 1.0, metadata));
    VerifySingleAccepted("u1", rec, imagePath, [1.0, 0.0], distance, 0.9, Candidate("u1", 1.0, metadata));
  }

  /** The same store and a query farther than 0.3 away: no match at the
      default threshold. */
  lemma FarQueryDoesNotMatch(metadata: Json, now: Timestamp, imagePath: string, distance: Distance)
    requires distance([5.0, 5.0], [1.0, 0.0]).Some? && distance([5.0, 5.0], [1.0, 0.0]).value > 0.3
    ensures var s := Register(Empty(), JStr("u1"), JStr("image"), metadata, Extracted([1.0, 0.0]), now).store;
            Verify(s, Some(imagePath), Extracted([5.0, 5.0]), distance, DefaultMinConfidence) == NoMatch
  {
    var rec := WrittenRecord([1.0, 0.0], metadata, now);
    var q := Query([5.0, 5.0], distance, DefaultMinConfidence);
    assert Assess(("u1", rec), q) == Rejected;
    VerifySingleRejected("u1", rec, imagePath, [5.0, 5.0], distance, DefaultMinConfidence);
  }

  /** Two users at the same distance from the query: the one registered first
      wins, whichever the later one is. */
  lemma TieGoesToEarlierUser(a: string, b: string, ra: FaceRecord, rb: FaceRecord,
                             query: Embedding, distance: Distance, minConfidence: real, imagePath: string)
    requires a != b && ra.embedding.Some? && rb.embedding.Some?
    requires distance(query, ra.embedding.value).Some?
    requires distance(query, rb.embedding.value) == distance(query, ra.embedding.value)
    requires Confidence(distance(query, ra.embedding.value).value) >= minConfidence
    ensures var s := Assign(Assign(Empty(), a, ra), b, rb);
            var r := Verify(s, Some(imagePath), Extracted(query), distance, minConfidence);
            r.Match? && r.userId == a && r.metadata == MetadataOf(ra)
  {
    var s := Assign(Assign(Empty(), a, ra), b, rb);
    var q := Query(query, distance, minConfidence);
    var items := Items(s);
    assert s.keys == [a, b];
    assert items[0] == (a, ra) && items[1] == (b, rb) && |items| == 2;
    assert Assess(items[0], q).Accepted? && Assess(items[1], q).Accepted?;
    VerifySelectsBest(s, imagePath, query, distance, minConfidence);
    var r := Verify(s, Some(imagePath), Extracted(query), distance, minConfidence);
    assert !r.NoMatch? && !r.VerifyRaised?;
    var i :| BestAt(items, q, i) && Assess(items[i], q) == Accepted(Candidate(r.userId, r.confidence, r.metadata));
    assert i == 0;
  }

  /** The threshold is inclusive: a record whose confidence equals it matches,
      and one whose confidence is below it, by any margin, does not. */
  lemma ThresholdIsInclusive(userId: string, rec: FaceRecord, query: Embedding,
                             distance: Distance, imagePath: string)
    requires rec.embedding.Some? && distance(query, rec.embedding.value).Some?
    ensures var s := Assign(Empty(), userId, rec);
            var c := Confidence(distance(query, rec.embedding.value).value);
            && Verify(s, Some(imagePath), Extracted(query), distance, c) ==
               Match(userId, c, MetadataOf(rec), imagePath)
            && Verify(s, Some(imagePath), Extracted(query), distance, c + 1.0) == NoMatch
            && forall t :: t > c ==> Verify(s, Some(imagePath), Extracted(query), distance, t) == NoMatch
  {
    var c := Confidence(distance(query, rec.embedding.value).value);
    AcceptedAtOwnConfidence(userId, rec, query, distance);
    VerifySingleAccepted(userId, rec, imagePath, query, distance, c, Candidate(userId, c, MetadataOf(rec)));
    forall t | t > c
      ensures Verify(Assign(Empty(), userId, rec), Some(imagePath), Extracted(query), distance, t) == NoMatch
    {
      RejectedAboveOwnConfidence(userId, rec, query, distance, t);
      VerifySingleRejected(userId, rec, imagePath, query, distance, t);
    }
  }

  /** A record is accepted at a threshold equal to its own confidence. */
  lemma AcceptedAtOwnConfidence(userId: string, rec: FaceRecord, query: Embedding, distance: Distance)
    requires rec.embedding.Some? && distance(query, rec.embedding.value).Some?
    ensures var c := Confidence(distance(query, rec.embedding.value).value);
            Assess((userId, rec), Query(query, distance, c)) == Accepted(Candidate(userId, c, MetadataOf(rec)))
  {
  }

  /** A record is rejected at any threshold above its own confidence. */
  lemma RejectedAboveOwnConfidence(userId: string, rec: FaceRecord, query: Embedding, distance: Distance, t: real)
    requires rec.embedding.Some? && distance(query, rec.embedding.value).Some?
    requires t > Confidence(distance(query, rec.embedding.value).value)
    ensures Assess((userId, rec), Query(query, distance, t)).Rejected?
  {
  }

  /** Updating an unknown user fails with "User not found" and changes nothing. */
  lemma UpdateUnknownUser(d: Store, metadata: Json, now: Timestamp)
    requires Valid(d) && "ghost" !in d.values
    ensures UpdateMetadata(d, "ghost", metadata, now) == Transition(d, Failure("User not found"))
  {
  }
}
