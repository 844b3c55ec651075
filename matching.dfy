/** The matching rule of `verify_face` (services/face_recognition.py): every
    stored record is scored by `confidence = 1 - distance`, the records at or
    above the threshold become candidates in iteration order, the candidates
    are sorted by confidence, descending and stably, and the first one wins. */
module Matching {
  import opened JsonValue
  import opened OrderedDict
  import opened FaceStore

  /** `np.linalg.norm(np.array(query) - np.array(stored))`, left abstract;
      `None` when numpy raises (the two embeddings cannot be subtracted). */
  type Distance = (Embedding, Embedding) -> Option<real>

  /** The default `min_confidence` of `verify_face`. */
  const DefaultMinConfidence: real := 0.7

  const SaveFailedMessage := "Failed to save verification image"
  const NoFaceMessage := "No face detected in verification image"

  /** One verification: the query embedding, the distance and the threshold. */
  datatype Query = Query(embedding: Embedding, distance: Distance, minConfidence: real)

  /** `1 - distance`: not a normalised score; it can be negative. */
  function Confidence(distance: real): (c: real)
    ensures distance >= 0.0 ==> c <= 1.0
    ensures c == 1.0 <==> distance == 0.0
    ensures c >= 0.0 <==> distance <= 1.0
  {
    1.0 - distance
  }

  /** An entry of the `matches` list. */
  datatype Candidate = Candidate(userId: string, confidence: real, metadata: Json)

  /** What the loop does with one stored record: raise (no `embedding` key,
      or numpy fails), skip it, or append a candidate. */
  datatype Assessment = Fault | Rejected | Accepted(candidate: Candidate)

  function Assess(entry: (string, FaceRecord), q: Query): (a: Assessment)
    ensures a.Fault? <==> entry.1.embedding.None? || q.distance(q.embedding, entry.1.embedding.value).None?
    ensures !a.Fault? ==>
              var c := Confidence(q.distance(q.embedding, entry.1.embedding.value).value);
              && (a.Accepted? <==> c >= q.minConfidence)
              && (a.Accepted? ==> a.candidate == Candidate(entry.0, c, MetadataOf(entry.1)))
  {
    var (userId, data) := entry;
    match data.embedding
    case None => Fault
    case Some(embedding) =>
      match q.distance(q.embedding, embedding)
      case None => Fault
      case Some(distance) =>
        var confidence := Confidence(distance);
        if confidence >= q.minConfidence then Accepted(Candidate(userId, confidence, MetadataOf(data)))
        else Rejected
  }

  datatype ScanResult = ScanFault | Scanned(matches: seq<Candidate>)

  /** The loop over `face_embeddings.items()`, entry by entry: the first fault
      aborts it, otherwise accepted candidates are appended in order. */
  function Scan(entries: seq<(string, FaceRecord)>, q: Query): (r: ScanResult)
    ensures r.Scanned? ==> |r.matches| <= |entries|
    ensures r.Scanned? ==> forall i :: 0 <= i < |r.matches| ==> r.matches[i].confidence >= q.minConfidence
  {
    if entries == [] then Scanned([])
    else
      match Scan(entries[..|entries| - 1], q)
      case ScanFault => ScanFault
      case Scanned(matches) =>
        match Assess(entries[|entries| - 1], q)
        case Fault => ScanFault
        case Rejected => Scanned(matches)
        case Accepted(c) => Scanned(matches + [c])
  }

  /** One more loop iteration. */
  lemma ScanStep(entries: seq<(string, FaceRecord)>, e: (string, FaceRecord), q: Query)
    ensures Scan(entries + [e], q) ==
            match Scan(entries, q)
            case ScanFault => ScanFault
            case Scanned(m) =>
              match Assess(e, q)
              case Fault => ScanFault
              case Rejected => Scanned(m)
              case Accepted(c) => Scanned(m + [c])
  {
    assert (entries + [e])[..|entries|] == entries;
  }

  /** A fault anywhere, and only a fault, makes the scan raise. */
  lemma {:induction false} ScanFaults(entries: seq<(string, FaceRecord)>, q: Query)
    ensures Scan(entries, q) == ScanFault <==> exists i :: 0 <= i < |entries| && Assess(entries[i], q).Fault?
  {
    if entries != [] {
      var n := |entries| - 1;
      var p := entries[..n];
      ScanFaults(p, q);
      assert forall i :: 0 <= i < n ==> p[i] == entries[i];
      if Scan(entries, q) == ScanFault && !Scan(p, q).ScanFault? {
        assert Assess(entries[n], q).Fault?;
      }
    }
  }

  /** The candidates come one per accepted record, in iteration order:
      `idx[j]` is the record that produced candidate `j`. */
  lemma {:induction false} ScanOrder(entries: seq<(string, FaceRecord)>, q: Query) returns (idx: seq<nat>)
    requires Scan(entries, q).Scanned?
    ensures var m := Scan(entries, q).matches;
            && |idx| == |m|
            && (forall j :: 0 <= j < |idx| ==> idx[j] < |entries| && Assess(entries[idx[j]], q) == Accepted(m[j]))
            && (forall j, k :: 0 <= j < k < |idx| ==> idx[j] < idx[k])
            && (forall i :: 0 <= i < |entries| && Assess(entries[i], q).Accepted? ==> i in idx)
  {
    if entries == [] {
      return [];
    }
    var n := |entries| - 1;
    var p, e := entries[..n], entries[n];
    assert entries == p + [e];
    ScanStep(p, e, q);
    var pi := ScanOrder(p, q);
    assert forall i :: 0 <= i < n ==> p[i] == entries[i];
    if Assess(e, q).Accepted? {
      idx := pi + [n];
    } else {
      idx := pi;
    }
  }

  /** The candidates are exactly the accepted records. */
  lemma {:induction false} ScanMembers(entries: seq<(string, FaceRecord)>, q: Query)
    requires Scan(entries, q).Scanned?
    ensures forall c :: c in Scan(entries, q).matches <==>
              exists i :: 0 <= i < |entries| && Assess(entries[i], q) == Accepted(c)
    ensures forall i :: 0 <= i < |entries| && Assess(entries[i], q).Accepted? ==>
              Assess(entries[i], q).candidate in Scan(entries, q).matches
  {
    if entries != [] {
      var n := |entries| - 1;
      var p := entries[..n];
      ScanMembers(p, q);
      assert forall i :: 0 <= i < n ==> p[i] == entries[i];
    }
  }

  /** The index of the first candidate of maximal confidence. */
  function FirstMaxIndex(m: seq<Candidate>): (k: nat)
    requires |m| > 0
    ensures k < |m|
    ensures forall j :: 0 <= j < |m| ==> m[j].confidence <= m[k].confidence
    ensures forall j :: 0 <= j < k ==> m[j].confidence < m[k].confidence
  {
    if |m| == 1 then 0
    else
      var k := FirstMaxIndex(m[..|m| - 1]);
      if m[|m| - 1].confidence > m[k].confidence then |m| - 1 else k
  }

  /** Record `i` is accepted, no accepted record scores higher, and every
      accepted record before it scores strictly lower. */
  ghost predicate BestAt(entries: seq<(string, FaceRecord)>, q: Query, i: int) {
    && 0 <= i < |entries|
    && Assess(entries[i], q).Accepted?
    && (forall j :: 0 <= j < |entries| && Assess(entries[j], q).Accepted? ==>
          Assess(entries[j], q).candidate.confidence <= Assess(entries[i], q).candidate.confidence)
    && (forall j :: 0 <= j < i && Assess(entries[j], q).Accepted? ==>
          Assess(entries[j], q).candidate.confidence < Assess(entries[i], q).candidate.confidence)
  }

  /** A record that does not beat the best so far leaves the best in place. */
  lemma BestAtKept(p: seq<(string, FaceRecord)>, e: (string, FaceRecord), q: Query, i: int)
    requires BestAt(p, q, i)
    requires Assess(e, q).Accepted? ==>
               Assess(e, q).candidate.confidence <= Assess(p[i], q).candidate.confidence
    ensures BestAt(p + [e], q, i)
  {
    var s := p + [e];
    assert forall j :: 0 <= j < |p| ==> s[j] == p[j];
    assert s[|p|] == e;
  }

  /** A record that beats every earlier candidate becomes the best. */
  lemma BestAtLast(p: seq<(string, FaceRecord)>, e: (string, FaceRecord), q: Query)
    requires Assess(e, q).Accepted?
    requires forall j :: 0 <= j < |p| && Assess(p[j], q).Accepted? ==>
               Assess(p[j], q).candidate.confidence < Assess(e, q).candidate.confidence
    ensures BestAt(p + [e], q, |p|)
  {
    var s := p + [e];
    assert forall j :: 0 <= j < |p| ==> s[j] == p[j];
    assert s[|p|] == e;
  }

  /** The first candidate of maximal confidence comes from the earliest
      stored record of maximal confidence. */
  lemma {:induction false} ScanBest(entries: seq<(string, FaceRecord)>, q: Query)
    requires Scan(entries, q).Scanned? && Scan(entries, q).matches != []
    ensures var m := Scan(entries, q).matches;
            exists i :: BestAt(entries, q, i) && Assess(entries[i], q) == Accepted(m[FirstMaxIndex(m)])
  {
    var n := |entries| - 1;
    var p, e := entries[..n], entries[n];
    assert entries == p + [e];
    ScanStep(p, e, q);
    if Scan(p, q).matches == [] {
      ScanFirstBest(p, e, q);
    } else {
      ScanBest(p, q);
      var mp := Scan(p, q).matches;
      var i :| BestAt(p, q, i) && Assess(p[i], q) == Accepted(mp[FirstMaxIndex(mp)]);
      ScanNextBest(p, e, q, i);
    }
  }

  /** The first record to be accepted is the best so far. */
  lemma ScanFirstBest(p: seq<(string, FaceRecord)>, e: (string, FaceRecord), q: Query)
    requires Scan(p, q) == Scanned([])
    requires Scan(p + [e], q).Scanned? && Scan(p + [e], q).matches != []
    ensures var m := Scan(p + [e], q).matches;
            BestAt(p + [e], q, |p|) && Assess((p + [e])[|p|], q) == Accepted(m[FirstMaxIndex(m)])
  {
    ScanStep(p, e, q);
    ScanMembers(p, q);
    assert Assess(e, q).Accepted? && Scan(p + [e], q).matches == [Assess(e, q).candidate];
    BestAtLast(p, e, q);
  }

  /** One more record either beats the best so far strictly, and becomes the
      best, or leaves the best in place. */
  lemma ScanNextBest(p: seq<(string, FaceRecord)>, e: (string, FaceRecord), q: Query, i: int)
    requires Scan(p, q).Scanned? && Scan(p, q).matches != []
    requires var mp := Scan(p, q).matches;
             BestAt(p, q, i) && Assess(p[i], q) == Accepted(mp[FirstMaxIndex(mp)])
    requires Scan(p + [e], q).Scanned?
    ensures var m := Scan(p + [e], q).matches;
            exists j :: BestAt(p + [e], q, j) && Assess((p + [e])[j], q) == Accepted(m[FirstMaxIndex(m)])
  {
    ScanStep(p, e, q);
    var s := p + [e];
    var m, mp := Scan(s, q).matches, Scan(p, q).matches;
    var k := FirstMaxIndex(mp);
    assert s[|p|] == e && s[i] == p[i];
    if Assess(e, q).Accepted? {
      var c := Assess(e, q).candidate;
      assert m == mp + [c] && m[..|m| - 1] == mp;
      if c.confidence > mp[k].confidence {
        BestAtLast(p, e, q);
        assert Assess(s[|p|], q) == Accepted(m[FirstMaxIndex(m)]);
      } else {
        BestAtKept(p, e, q, i);
        assert Assess(s[i], q) == Accepted(m[FirstMaxIndex(m)]);
      }
    } else {
      BestAtKept(p, e, q, i);
      assert Assess(s[i], q) == Accepted(m[FirstMaxIndex(m)]);
    }
  }

  /** Confidences never increase along the sequence. */
  ghost predicate SortedDesc(s: seq<Candidate>) {
    forall i, j :: 0 <= i < j < |s| ==> s[i].confidence >= s[j].confidence
  }

  /** Every element of `s` is at least as confident as `c`. */
  ghost predicate NoLessConfident(s: seq<Candidate>, c: Candidate) {
    forall i :: 0 <= i < |s| ==> s[i].confidence >= c.confidence
  }

  /** The length of the leading run of `s` whose confidence is at least that of `c`. */
  function Lead(c: Candidate, s: seq<Candidate>): (k: nat)
    ensures k <= |s|
    ensures NoLessConfident(s[..k], c)
    ensures k < |s| ==> s[k].confidence < c.confidence
  {
    if s == [] || s[0].confidence < c.confidence then 0 else 1 + Lead(c, s[1..])
  }

  /** Puts `c` right after the leading run of elements at least as confident
      as it; in a descending sequence that is after every such element, so
      equal confidences keep their order. */
  function Insert(c: Candidate, s: seq<Candidate>): (r: seq<Candidate>)
    ensures multiset(r) == multiset(s) + multiset{c}
    ensures |r| == |s| + 1
    ensures r[0] == if s != [] && s[0].confidence >= c.confidence then s[0] else c
  {
    if s == [] then [c]
    else if s[0].confidence < c.confidence then [c] + s
    else
      assert s == [s[0]] + s[1..];
      [s[0]] + Insert(c, s[1..])
  }

  /** `c` lands right after the leading run at least as confident as it, and
      the rest of `s` keeps its order around it. */
  lemma {:induction false} InsertPlacement(c: Candidate, s: seq<Candidate>)
    ensures Insert(c, s) == s[..Lead(c, s)] + [c] + s[Lead(c, s)..]
  {
    if s == [] || s[0].confidence < c.confidence {
      assert Lead(c, s) == 0 && Insert(c, s) == [c] + s;
      SplitAtFront(s, c);
    } else {
      var t := s[1..];
      var k := Lead(c, t);
      InsertPlacement(c, t);
      assert s == [s[0]] + t;
      SplitAfterHead(s[0], t, k, c);
    }
  }

  /** Splicing `c` in at position 0 puts it in front. */
  lemma SplitAtFront<T>(s: seq<T>, c: T)
    ensures [c] + s == s[..0] + [c] + s[0..]
  {
    assert s[..0] == [] && s[0..] == s;
  }

  /** Putting `x` in front of `t` with `c` spliced in at `k` splices `c` in
      at `k + 1` of `[x] + t`. */
  lemma SplitAfterHead<T>(x: T, t: seq<T>, k: nat, c: T)
    requires k <= |t|
    ensures [x] + (t[..k] + [c] + t[k..]) == ([x] + t)[..k + 1] + [c] + ([x] + t)[k + 1..]
  {
    assert ([x] + t)[..k + 1] == [x] + t[..k];
    assert ([x] + t)[k + 1..] == t[k..];
  }

  /** In a descending sequence, the leading run holds every element at least
      as confident as `c`. */
  lemma LeadCoversAllOnSorted(c: Candidate, s: seq<Candidate>)
    requires SortedDesc(s)
    ensures forall i :: 0 <= i < |s| && s[i].confidence >= c.confidence ==> i < Lead(c, s)
  {
  }

  lemma {:induction false} InsertSorted(c: Candidate, s: seq<Candidate>)
    requires SortedDesc(s)
    ensures SortedDesc(Insert(c, s))
  {
    if s != [] && s[0].confidence >= c.confidence {
      var t := Insert(c, s[1..]);
      InsertSorted(c, s[1..]);
      forall x | x in t ensures s[0].confidence >= x.confidence {
        assert x in multiset(t);
        assert x == c || x in multiset(s[1..]);
      }
      assert Insert(c, s) == [s[0]] + t;
    }
  }

  /** `matches.sort(key=lambda x: x["confidence"], reverse=True)`: Python's
      sort is stable and keeps equal keys in their original order when
      reversing; this is insertion sort with the same tie rule. */
  function SortDesc(s: seq<Candidate>): (r: seq<Candidate>)
    ensures multiset(r) == multiset(s)
    ensures |r| == |s|
    ensures SortedDesc(r)
  {
    if s == [] then []
    else
      var t := SortDesc(s[..|s| - 1]);
      InsertSorted(s[|s| - 1], t);
      assert s == s[..|s| - 1] + [s[|s| - 1]];
      Insert(s[|s| - 1], t)
  }

  /** After the sort, `matches[0]` is the first candidate of maximal confidence. */
  lemma {:induction false} SortDescHead(s: seq<Candidate>)
    requires |s| > 0
    ensures SortDesc(s)[0] == s[FirstMaxIndex(s)]
  {
    if |s| > 1 {
      var p := s[..|s| - 1];
      SortDescHead(p);
      assert s[..|s| - 1] == p;
    }
  }

  datatype VerifyResult =
    | VerifyError(message: string)   // an error result with a fixed message
    | VerifyRaised                   // an exception in the scan, reported as its text
    | NoMatch                        // "match_found": False
    | Match(userId: string, confidence: real, metadata: Json, verificationImage: string)

  /** `verify_face`, given where the verification image was saved (if it was)
      and what the embedding model made of it. */
  function Verify(d: Store, saved: Option<string>, extraction: Extraction,
                  distance: Distance, minConfidence: real): (r: VerifyResult)
    requires Valid(d)
    ensures saved.None? ==> r == VerifyError(SaveFailedMessage)
    ensures saved.Some? && extraction.ExtractionFailed? ==> r == VerifyError(NoFaceMessage)
    ensures r.Match? ==> saved == Some(r.verificationImage)
  {
    if saved.None? then VerifyError(SaveFailedMessage)
    else if extraction.ExtractionFailed? then VerifyError(NoFaceMessage)
    else
      match Scan(Items(d), Query(extraction.embedding, distance, minConfidence))
      case ScanFault => VerifyRaised
      case Scanned(matches) =>
        if matches == [] then NoMatch
        else
          var best := SortDesc(matches)[0];
          Match(best.userId, best.confidence, best.metadata, saved.value)
  }

  /** The selection rule: a match is reported iff some record reaches the
      threshold (and none raises), and the match is the earliest stored
      record of maximal confidence. */
  lemma VerifySelectsBest(d: Store, imagePath: string, query: Embedding,
                          distance: Distance, minConfidence: real)
    requires Valid(d)
    ensures var q := Query(query, distance, minConfidence);
            var items := Items(d);
            var r := Verify(d, Some(imagePath), Extracted(query), distance, minConfidence);
            && (r == VerifyRaised <==> exists i :: 0 <= i < |items| && Assess(items[i], q).Fault?)
            && (r == NoMatch <==> forall i :: 0 <= i < |items| ==> Assess(items[i], q).Rejected?)
            && (r.Match? ==> exists i :: (BestAt(items, q, i) &&
                  Assess(items[i], q) == Accepted(Candidate(r.userId, r.confidence, r.metadata))))
            && (r.VerifyRaised? || r.NoMatch? || r.Match?)
  {
    var q := Query(query, distance, minConfidence);
    var items := Items(d);
    ScanFaults(items, q);
    var s := Scan(items, q);
    if s.Scanned? {
      ScanMembers(items, q);
      if s.matches != [] {
        ScanBest(items, q);
        SortDescHead(s.matches);
        assert s.matches[FirstMaxIndex(s.matches)] in s.matches;
      }
    }
  }
}
