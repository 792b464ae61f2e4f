/** The older search endpoint (`POST /search-images-old`): every stored record
    of the event is compared with the query on its own, and the URLs of the
    records whose cosine similarity is at least 0.26 are returned in stored
    order, without scores and without sorting. The cosine similarity itself is
    outside the model: `scores[i]` is the similarity of record i. */
module LegacySearch {
  import opened Common
  import opened Records

  /** The inclusive similarity cutoff of this endpoint. */
  const LegacyThreshold: real := 0.26

  /** Why the endpoint failed. Only DatabaseNotConnected is raised by the
      endpoint itself; the others are exceptions (a missing key, a failed text
      encoding, vectors the similarity function rejects) that nothing catches. */
  datatype LegacyError =
    | DatabaseNotConnected
    | TextEmbeddingFailed
    | MissingImageUrl
    | MissingEmbeddings
    | NullEmbeddings
    | EmptyEmbeddings
    | DimensionMismatch

  datatype LegacyResponse = LegacyResponse(reply: string, images: seq<Option<string>>)

  /** Every failure reaches the client as status 500. */
  datatype LegacyOutcome = Replied(response: LegacyResponse) | LegacyFailed(status: nat, error: LegacyError)

  /** What goes wrong with one record, in the order the loop body meets it:
      the URL lookup, the embedding lookup, then the similarity function's
      check of the two vectors. */
  function RecordError(img: StoredImage, query: seq<real>): (r: Option<LegacyError>)
    ensures r.None? <==> (!img.imageUrl.Missing? && img.embeddings.Present? &&
                         0 < |img.embeddings.value| == |query|)
  {
    if img.imageUrl.Missing? then Some(MissingImageUrl)
    else match img.embeddings
      case Missing => Some(MissingEmbeddings)
      case Null => Some(NullEmbeddings)
      case Present(v) =>
        if |v| == 0 then Some(EmptyEmbeddings)
        else if |v| != |query| then Some(DimensionMismatch)
        else None
  }

  /** Record i is the first one the loop fails on. */
  predicate FirstBad(images: seq<StoredImage>, query: seq<real>, i: int)
  {
    && 0 <= i < |images|
    && RecordError(images[i], query).Some?
    && forall k :: 0 <= k < i ==> RecordError(images[k], query).None?
  }

  /** The URLs of the records at positions `p`. */
  function UrlsAt(images: seq<StoredImage>, p: seq<nat>): (r: seq<Option<string>>)
    requires forall j :: 0 <= j < |p| ==> p[j] < |images| && !images[p[j]].imageUrl.Missing?
    ensures |r| == |p| && forall j :: 0 <= j < |p| ==> r[j] == UrlOf(images[p[j]])
  {
    seq(|p|, j requires 0 <= j < |p| => UrlOf(images[p[j]]))
  }

  lemma UrlsAtSnoc(images: seq<StoredImage>, p: seq<nat>, i: nat)
    requires forall j :: 0 <= j < |p| ==> p[j] < |images| && !images[p[j]].imageUrl.Missing?
    requires i < |images| && !images[i].imageUrl.Missing?
    ensures UrlsAt(images, p + [i]) == UrlsAt(images, p) + [UrlOf(images[i])]
  {
  }

  /** One more score extends the kept positions by at most its own position. */
  lemma PickedStep(scores: seq<real>, i: nat, picked: seq<nat>)
    requires i < |scores| && picked == Above(scores[..i], LegacyThreshold)
    ensures Above(scores[..i + 1], LegacyThreshold)
         == picked + (if scores[i] >= LegacyThreshold then [i] else [])
  {
    assert scores[..i + 1] == scores[..i] + [scores[i]];
    AboveSnoc(scores[..i], scores[i], LegacyThreshold);
  }

  /** The loop over the event's records: stops at the first record the
      similarity function cannot handle, otherwise appends the URL of each
      record scoring at least 0.26. */
  method CollectMatches(images: seq<StoredImage>, q: seq<real>, scores: seq<real>)
    returns (err: Option<LegacyError>, matches: seq<Option<string>>)
    requires |scores| == |images|
    ensures err.Some? <==> exists i :: 0 <= i < |images| && RecordError(images[i], q).Some?
    ensures err.Some? ==> exists i :: FirstBad(images, q, i) && RecordError(images[i], q) == err
    ensures err.None? ==> forall i :: 0 <= i < |images| ==> !images[i].imageUrl.Missing?
    ensures err.None? ==> matches == UrlsAt(images, Above(scores, LegacyThreshold))
  {
    matches := [];
    ghost var picked: seq<nat> := [];
    var i := 0;
    while i < |images| && RecordError(images[i], q).None?
      invariant 0 <= i <= |images|
      invariant forall k :: 0 <= k < i ==> RecordError(images[k], q).None?
      invariant forall k :: 0 <= k < i ==> !images[k].imageUrl.Missing?
      invariant picked == Above(scores[..i], LegacyThreshold)
      invariant forall j :: 0 <= j < |picked| ==> picked[j] < i
      invariant matches == UrlsAt(images, picked)
    {
      ghost var before := picked;
      PickedStep(scores, i, before);
      if scores[i] >= LegacyThreshold {
        UrlsAtSnoc(images, picked, i);
        matches := matches + [UrlOf(images[i])];
        picked := picked + [i];
      }
      i := i + 1;
    }
    if i < |images| {
      assert FirstBad(images, q, i);
      return RecordError(images[i], q), [];
    }
    assert scores[..|images|] == scores;
    err := None;
  }

  /** The reply lists, in stored order, the URL of every record scoring at
      least 0.26 and of no other record. */
  lemma ReplyExactlyQualifying(images: seq<StoredImage>, scores: seq<real>)
    requires |scores| == |images|
    requires forall i :: 0 <= i < |images| ==> !images[i].imageUrl.Missing?
    ensures var p := Above(scores, LegacyThreshold);
      var reply := UrlsAt(images, p);
      && (forall j :: 0 <= j < |reply| ==> reply[j] == UrlOf(images[p[j]]) && scores[p[j]] >= LegacyThreshold)
      && (forall j, k :: 0 <= j < k < |p| ==> p[j] < p[k])
      && (forall i :: 0 <= i < |images| && scores[i] >= LegacyThreshold ==>
            exists j :: 0 <= j < |reply| && p[j] == i && reply[j] == UrlOf(images[i]))
  {
    AboveExactly(scores, LegacyThreshold);
  }

  /** `POST /search-images-old`. `textEmbedding` is what the text encoder
      returned (None when it failed) and `scores[i]` the similarity of the
      event's i-th record. The reply lists the URLs of exactly the records
      scoring at least 0.26, in stored order. */
  method SearchImagesOld(
    dbConnected: bool, request: SearchRequest, store: seq<StoredImage>,
    textEmbedding: Option<seq<real>>, scores: seq<real>)
    returns (outcome: LegacyOutcome)
    requires |scores| == |ForEvent(store, request.eventName)|
    ensures outcome.LegacyFailed? ==> outcome.status == 500
    ensures !dbConnected ==> outcome == LegacyFailed(500, DatabaseNotConnected)
    ensures dbConnected && textEmbedding.None? ==> outcome == LegacyFailed(500, TextEmbeddingFailed)
    ensures dbConnected && textEmbedding.Some? ==>
      var images := ForEvent(store, request.eventName);
      var q := textEmbedding.value;
      && (outcome.LegacyFailed? <==> exists i :: 0 <= i < |images| && RecordError(images[i], q).Some?)
      && (outcome.LegacyFailed? ==>
            exists i :: FirstBad(images, q, i) && RecordError(images[i], q) == Some(outcome.error))
      && (outcome.Replied? ==>
            && (forall i :: 0 <= i < |images| ==> !images[i].imageUrl.Missing?)
            && outcome.response == LegacyResponse("Results", UrlsAt(images, Above(scores, LegacyThreshold))))
  {
    if !dbConnected {
      return LegacyFailed(500, DatabaseNotConnected);
    }
    if textEmbedding.None? {
      return LegacyFailed(500, TextEmbeddingFailed);
    }
    var images := ForEvent(store, request.eventName);
    var err, matches := CollectMatches(images, textEmbedding.value, scores);
    if err.Some? {
      return LegacyFailed(500, err.value);
    }
    outcome := Replied(LegacyResponse("Results", matches));
  }
}
