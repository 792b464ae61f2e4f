/** The text-to-image search endpoint (`POST /search-images`): the stored
    records of one event are narrowed to those with an embedding, scored by an
    exact inner-product index over all of them, filtered at 0.20 and sorted by
    similarity, highest first. The index and the text encoder are outside the
    model: the scores arrive as `Hit`s, one per candidate. */
module Search {
  import opened Common
  import opened Records

  /** The inclusive similarity cutoff of this endpoint. */
  const Threshold: real := 0.20

  /** The reply when nothing clears the cutoff. Written as two literals so the
      verifier can read its first character. */
  const NoMatchMessage: string :=
    "No images " + "match the similarity threshold of 0.20. Try different keywords."

  /** One entry of the three parallel lists built from a stored record. */
  datatype Candidate = Candidate(vector: seq<real>, imageUrl: Option<string>, filename: Option<string>)

  /** One (index, score) pair of the index search: `index` points into the
      candidate lists. */
  datatype Hit = Hit(index: int, score: real)

  /** One entry of the response's `results` list. */
  datatype Match = Match(filename: Option<string>, imageUrl: Option<string>, similarity: real)

  datatype SearchResponse = SearchResponse(
    query: string,
    eventName: string,
    results: seq<Match>,
    message: string)

  /** Why a search failed. DatabaseNotConnected, NoImagesForEvent,
      NoEmbeddings and TextEmbeddingFailed are HTTP exceptions the endpoint
      raises itself; the others are exceptions of the dictionary lookup, of
      stacking the vectors and of the index search. */
  datatype SearchError =
    | DatabaseNotConnected
    | NoImagesForEvent
    | MissingImageUrl
    | NoEmbeddings
    | DimensionMismatch
    | TextEmbeddingFailed
    | QueryDimensionMismatch

  /** Every failure leaves through the endpoint's catch-all handler, which
      re-raises it with status 500. */
  datatype SearchOutcome = Found(response: SearchResponse) | Failed(status: nat, error: SearchError)

  /** The `detail` of the re-raised 500: the text of the caught exception. For
      the endpoint's own HTTP exceptions that text is "<status>: <detail>", so
      the two 404s survive only as a prefix of the 500's detail. Library
      exceptions carry the library's own text, which is not modelled. */
  function Detail(e: SearchError): (r: Option<string>)
    ensures r.Some? <==> !(e.MissingImageUrl? || e.DimensionMismatch? || e.QueryDimensionMismatch?)
    ensures r.Some? ==> (|r.value| > 5 &&
      r.value[..5] == (if e.NoImagesForEvent? || e.NoEmbeddings? then "404: " else "500: "))
  {
    match e
    case DatabaseNotConnected =>
      Some("500: " + "Database not connected. Please configure DATABASE_URL in .env")
    case NoImagesForEvent => Some("404: " + "No images found for this event")
    case NoEmbeddings => Some("404: " + "No embeddings found for event images")
    case TextEmbeddingFailed => Some("500: " + "Failed to generate text embedding")
    case _ => None
  }

  // ---------------------------------------------------------------------------
  // Candidate extraction

  /** Every record that has an embedding also has an `image_url` key (otherwise
      the extraction loop raises KeyError). */
  predicate UrlsPresent(images: seq<StoredImage>)
  {
    forall i :: 0 <= i < |images| && HasEmbedding(images[i]) ==> !images[i].imageUrl.Missing?
  }

  /** The number of records with an embedding: the `k` of the index search. */
  function CandidateCount(images: seq<StoredImage>): (n: nat)
    ensures n <= |images|
    decreases |images|
  {
    if images == [] then 0
    else CandidateCount(images[..|images| - 1]) + (if HasEmbedding(images[|images| - 1]) then 1 else 0)
  }

  function CandidateOf(img: StoredImage): Candidate
    requires HasEmbedding(img) && !img.imageUrl.Missing?
  {
    Candidate(img.embeddings.value, UrlOf(img), FilenameOf(img))
  }

  /** The records with an embedding, in stored order, each reduced to the
      vector, URL and filename that the loop appends together. */
  function Candidates(images: seq<StoredImage>): (c: seq<Candidate>)
    requires UrlsPresent(images)
    ensures |c| == CandidateCount(images)
    decreases |images|
  {
    if images == [] then []
    else
      var prefix := images[..|images| - 1];
      var last := images[|images| - 1];
      assert forall i :: 0 <= i < |prefix| ==> prefix[i] == images[i];
      Candidates(prefix) + (if HasEmbedding(last) then [CandidateOf(last)] else [])
  }

  lemma CandidatesSnoc(images: seq<StoredImage>, img: StoredImage)
    requires UrlsPresent(images)
    requires HasEmbedding(img) ==> !img.imageUrl.Missing?
    ensures UrlsPresent(images + [img])
    ensures Candidates(images + [img])
         == Candidates(images) + (if HasEmbedding(img) then [CandidateOf(img)] else [])
  {
    var all := images + [img];
    assert forall i :: 0 <= i < |images| ==> all[i] == images[i];
    assert all[..|all| - 1] == images;
  }

  /** The positions of the records that have an embedding, in stored order. */
  function Origins(images: seq<StoredImage>): (r: seq<nat>)
    ensures |r| == CandidateCount(images)
    ensures forall j :: 0 <= j < |r| ==> r[j] < |images| && HasEmbedding(images[r[j]])
    ensures forall j, k :: 0 <= j < k < |r| ==> r[j] < r[k]
    ensures forall i :: 0 <= i < |images| && HasEmbedding(images[i]) ==> i in r
    decreases |images|
  {
    if images == [] then []
    else
      var prefix := images[..|images| - 1];
      assert forall i :: 0 <= i < |prefix| ==> prefix[i] == images[i];
      Origins(prefix) + (if HasEmbedding(images[|images| - 1]) then [|images| - 1] else [])
  }

  /** Position j of the candidate lists describes the stored record at
      position Origins(images)[j]: the lists stay aligned with each other and
      with the records, in stored order. */
  lemma {:induction false} CandidatesAligned(images: seq<StoredImage>)
    requires UrlsPresent(images)
    ensures |Candidates(images)| == |Origins(images)|
    ensures forall j :: 0 <= j < |Candidates(images)| ==>
      Candidates(images)[j] == CandidateOf(images[Origins(images)[j]])
    decreases |images|
  {
    if images != [] {
      var prefix := images[..|images| - 1];
      assert images == prefix + [images[|images| - 1]];
      assert forall i :: 0 <= i < |prefix| ==> prefix[i] == images[i];
      CandidatesAligned(prefix);
      CandidatesSnoc(prefix, images[|images| - 1]);
    }
  }

  function Urls(c: seq<Candidate>): (r: seq<Option<string>>)
    ensures |r| == |c| && forall j :: 0 <= j < |c| ==> r[j] == c[j].imageUrl
  {
    seq(|c|, j requires 0 <= j < |c| => c[j].imageUrl)
  }

  function Filenames(c: seq<Candidate>): (r: seq<Option<string>>)
    ensures |r| == |c| && forall j :: 0 <= j < |c| ==> r[j] == c[j].filename
  {
    seq(|c|, j requires 0 <= j < |c| => c[j].filename)
  }

  function Vectors(c: seq<Candidate>): (r: seq<seq<real>>)
    ensures |r| == |c| && forall j :: 0 <= j < |c| ==> r[j] == c[j].vector
  {
    seq(|c|, j requires 0 <= j < |c| => c[j].vector)
  }

  lemma ProjectionsSnoc(c: seq<Candidate>, x: Candidate)
    ensures Vectors(c + [x]) == Vectors(c) + [x.vector]
    ensures Urls(c + [x]) == Urls(c) + [x.imageUrl]
    ensures Filenames(c + [x]) == Filenames(c) + [x.filename]
  {
  }

  /** The extraction loop: the three parallel lists, appended together for
      each record that has an embedding, so that position j of each list
      describes the same stored record. Fails when such a record lacks the
      `image_url` key. */
  method ExtractCandidates(images: seq<StoredImage>)
    returns (ok: bool, embeddings: seq<seq<real>>, urls: seq<Option<string>>, filenames: seq<Option<string>>)
    ensures ok <==> UrlsPresent(images)
    ensures ok ==> embeddings == Vectors(Candidates(images))
    ensures ok ==> urls == Urls(Candidates(images))
    ensures ok ==> filenames == Filenames(Candidates(images))
  {
    embeddings, urls, filenames := [], [], [];
    for i := 0 to |images|
      invariant UrlsPresent(images[..i])
      invariant embeddings == Vectors(Candidates(images[..i]))
      invariant urls == Urls(Candidates(images[..i]))
      invariant filenames == Filenames(Candidates(images[..i]))
    {
      var img := images[i];
      assert images[..i + 1] == images[..i] + [img];
      if HasEmbedding(img) {
        if img.imageUrl.Missing? {
          return false, [], [], [];
        }
        CandidatesSnoc(images[..i], img);
        ProjectionsSnoc(Candidates(images[..i]), CandidateOf(img));
        embeddings := embeddings + [img.embeddings.value];
        urls := urls + [UrlOf(img)];
        filenames := filenames + [FilenameOf(img)];
      } else {
        CandidatesSnoc(images[..i], img);
        assert Candidates(images[..i] + [img]) == Candidates(images[..i]);
      }
    }
    assert images[..|images|] == images;
    ok := true;
  }

  /** `np.vstack` succeeds only when every vector has the first one's length. */
  predicate SameDimension(vectors: seq<seq<real>>)
  {
    forall j :: 0 <= j < |vectors| ==> |vectors[j]| == |vectors[0]|
  }

  // ---------------------------------------------------------------------------
  // The index search result and the threshold filter

  /** What the index search over all k candidates returns: k pairs whose
      indices are the candidate positions, each exactly once. */
  predicate ValidHits(hits: seq<Hit>, k: nat)
  {
    && |hits| == k
    && (forall j :: 0 <= j < |hits| ==> 0 <= hits[j].index < k)
    && (forall j, l :: 0 <= j < l < |hits| ==> hits[j].index != hits[l].index)
  }

  function Scores(hits: seq<Hit>): (r: seq<real>)
    ensures |r| == |hits| && forall j :: 0 <= j < |hits| ==> r[j] == hits[j].score
  {
    seq(|hits|, j requires 0 <= j < |hits| => hits[j].score)
  }

  predicate InRange(hits: seq<Hit>, n: nat)
  {
    forall j :: 0 <= j < |hits| ==> 0 <= hits[j].index < n
  }

  /** The result entry for one hit, read from the parallel lists at its index. */
  function MatchFor(urls: seq<Option<string>>, filenames: seq<Option<string>>, h: Hit): Match
    requires |urls| == |filenames| && 0 <= h.index < |urls|
  {
    Match(filenames[h.index], urls[h.index], h.score)
  }

  /** The entries the filter loop appends, in hit order: the hits whose score
      is at least the threshold, each read from the parallel lists. */
  function Kept(urls: seq<Option<string>>, filenames: seq<Option<string>>, hits: seq<Hit>): seq<Match>
    requires |urls| == |filenames| && InRange(hits, |urls|)
    decreases |hits|
  {
    if hits == [] then []
    else
      var last := hits[|hits| - 1];
      Kept(urls, filenames, hits[..|hits| - 1]) + (if last.score >= Threshold then [MatchFor(urls, filenames, last)] else [])
  }

  lemma KeptSnoc(urls: seq<Option<string>>, filenames: seq<Option<string>>, hits: seq<Hit>, h: Hit)
    requires |urls| == |filenames| && InRange(hits, |urls|) && 0 <= h.index < |urls|
    ensures InRange(hits + [h], |urls|)
    ensures Kept(urls, filenames, hits + [h])
         == Kept(urls, filenames, hits) + (if h.score >= Threshold then [MatchFor(urls, filenames, h)] else [])
  {
    assert (hits + [h])[..|hits|] == hits;
  }

  /** One entry per hit at or above the threshold, and no other. */
  lemma {:induction false} KeptMembers(urls: seq<Option<string>>, filenames: seq<Option<string>>, hits: seq<Hit>)
    requires |urls| == |filenames| && InRange(hits, |urls|)
    ensures |Kept(urls, filenames, hits)| <= |hits|
    ensures forall m :: m in Kept(urls, filenames, hits) ==>
      (m.similarity >= Threshold && exists j :: 0 <= j < |hits| && m == MatchFor(urls, filenames, hits[j]))
    ensures forall j :: 0 <= j < |hits| && hits[j].score >= Threshold ==>
      MatchFor(urls, filenames, hits[j]) in Kept(urls, filenames, hits)
    decreases |hits|
  {
    if hits != [] {
      var prefix := hits[..|hits| - 1];
      var last := hits[|hits| - 1];
      assert hits == prefix + [last];
      KeptMembers(urls, filenames, prefix);
      KeptSnoc(urls, filenames, prefix, last);
      var r := Kept(urls, filenames, hits);
      forall m | m in r
        ensures m.similarity >= Threshold && exists j :: 0 <= j < |hits| && m == MatchFor(urls, filenames, hits[j])
      {
        if m in Kept(urls, filenames, prefix) {
          var j :| 0 <= j < |prefix| && m == MatchFor(urls, filenames, prefix[j]);
          assert hits[j] == prefix[j];
        } else {
          assert m == MatchFor(urls, filenames, hits[|hits| - 1]);
        }
      }
      forall j | 0 <= j < |hits| && hits[j].score >= Threshold
        ensures MatchFor(urls, filenames, hits[j]) in r
      {
        if j < |prefix| {
          assert hits[j] == prefix[j];
        }
      }
    }
  }

  /** The entries for the hits at positions `p`, in that order. */
  function MatchesAt(urls: seq<Option<string>>, filenames: seq<Option<string>>, hits: seq<Hit>, p: seq<nat>): (r: seq<Match>)
    requires |urls| == |filenames| && InRange(hits, |urls|)
    requires forall j :: 0 <= j < |p| ==> p[j] < |hits|
    ensures |r| == |p| && forall j :: 0 <= j < |p| ==> r[j] == MatchFor(urls, filenames, hits[p[j]])
  {
    seq(|p|, j requires 0 <= j < |p| => MatchFor(urls, filenames, hits[p[j]]))
  }

  /** The filter keeps one entry for each hit whose score is at least 0.20,
      in hit order, and nothing else: the positions `Above` picks from the
      scores. */
  lemma {:induction false} KeptIsAbove(urls: seq<Option<string>>, filenames: seq<Option<string>>, hits: seq<Hit>)
    requires |urls| == |filenames| && InRange(hits, |urls|)
    ensures Kept(urls, filenames, hits) == MatchesAt(urls, filenames, hits, Above(Scores(hits), Threshold))
    decreases |hits|
  {
    if hits != [] {
      var prefix := hits[..|hits| - 1];
      var last := hits[|hits| - 1];
      assert hits == prefix + [last];
      KeptIsAbove(urls, filenames, prefix);
      assert Scores(hits) == Scores(prefix) + [last.score];
      AboveSnoc(Scores(prefix), last.score, Threshold);
    }
  }

  /** The filter loop over the search's (index, score) pairs. */
  method KeepAboveThreshold(urls: seq<Option<string>>, filenames: seq<Option<string>>, hits: seq<Hit>)
    returns (results: seq<Match>)
    requires |urls| == |filenames| && InRange(hits, |urls|)
    ensures results == Kept(urls, filenames, hits)
  {
    results := [];
    for n := 0 to |hits|
      invariant InRange(hits[..n], |urls|)
      invariant results == Kept(urls, filenames, hits[..n])
    {
      var h := hits[n];
      assert hits[..n + 1] == hits[..n] + [h];
      KeptSnoc(urls, filenames, hits[..n], h);
      if h.score >= Threshold {
        results := results + [Match(filenames[h.index], urls[h.index], h.score)];
      }
    }
    assert hits[..|hits|] == hits;
  }

  // ---------------------------------------------------------------------------
  // Sorting by similarity, highest first

  predicate SortedDesc(s: seq<Match>)
  {
    forall i, j :: 0 <= i < j < |s| ==> s[i].similarity >= s[j].similarity
  }

  /** Places `x` before the first entry whose similarity is not above its own,
      so it stays ahead of the entries that tie with it. */
  function Insert(x: Match, t: seq<Match>): (r: seq<Match>)
    requires SortedDesc(t)
    ensures SortedDesc(r)
    ensures multiset(r) == multiset(t) + multiset{x}
    ensures |r| == |t| + 1
    decreases |t|
  {
    if t == [] || x.similarity >= t[0].similarity then [x] + t
    else
      var rest := Insert(x, t[1..]);
      assert t == [t[0]] + t[1..];
      assert forall k :: 0 <= k < |rest| ==> t[0].similarity >= rest[k].similarity by {
        forall k | 0 <= k < |rest| ensures t[0].similarity >= rest[k].similarity {
          assert rest[k] in multiset(rest);
          if rest[k] != x {
            assert rest[k] in multiset(t[1..]);
          }
        }
      }
      [t[0]] + rest
  }

  /** `results.sort(key=similarity, reverse=True)`: a stable sort on
      similarity, highest first. */
  function SortBySimilarity(s: seq<Match>): (r: seq<Match>)
    ensures SortedDesc(r)
    ensures multiset(r) == multiset(s)
    ensures |r| == |s|
    decreases |s|
  {
    if s == [] then []
    else
      assert s == [s[0]] + s[1..];
      Insert(s[0], SortBySimilarity(s[1..]))
  }

  /** The entries of `s` with similarity `v`, in their order in `s`. */
  function WithSimilarity(s: seq<Match>, v: real): seq<Match>
    decreases |s|
  {
    if s == [] then []
    else (if s[0].similarity == v then [s[0]] else []) + WithSimilarity(s[1..], v)
  }

  lemma WithSimilarityCons(x: Match, t: seq<Match>, v: real)
    ensures WithSimilarity([x] + t, v) == (if x.similarity == v then [x] else []) + WithSimilarity(t, v)
  {
    assert ([x] + t)[1..] == t;
  }

  lemma {:induction false} InsertKeepsTies(x: Match, t: seq<Match>, v: real)
    requires SortedDesc(t)
    ensures WithSimilarity(Insert(x, t), v)
         == (if x.similarity == v then [x] else []) + WithSimilarity(t, v)
    decreases |t|
  {
    if t == [] || x.similarity >= t[0].similarity {
      WithSimilarityCons(x, t, v);
    } else {
      var rest := Insert(x, t[1..]);
      InsertKeepsTies(x, t[1..], v);
      WithSimilarityCons(t[0], rest, v);
      assert t == [t[0]] + t[1..];
      WithSimilarityCons(t[0], t[1..], v);
    }
  }

  /** Sorting never reorders entries of equal similarity. */
  lemma {:induction false} SortIsStable(s: seq<Match>, v: real)
    ensures WithSimilarity(SortBySimilarity(s), v) == WithSimilarity(s, v)
    decreases |s|
  {
    if s != [] {
      SortIsStable(s[1..], v);
      InsertKeepsTies(s[0], SortBySimilarity(s[1..]), v);
    }
  }

  // ---------------------------------------------------------------------------
  // The whole ranking and the endpoint

  /** The kept entries for the candidates, sorted highest first. */
  function Ranked(c: seq<Candidate>, hits: seq<Hit>): (r: seq<Match>)
    requires InRange(hits, |c|)
    ensures SortedDesc(r)
    ensures forall m :: m in r ==> m.similarity >= Threshold
    ensures |r| <= |hits|
  {
    var kept := Kept(Urls(c), Filenames(c), hits);
    KeptMembers(Urls(c), Filenames(c), hits);
    var r := SortBySimilarity(kept);
    assert forall m :: m in r ==> m in kept by {
      forall m | m in r ensures m in kept {
        assert m in multiset(r);
      }
    }
    r
  }

  /** The ranking holds exactly the entries of the hits scoring at least
      0.20, each as often as such a hit produces it: so its length, the count
      in the response message, is the number of those hits. */
  lemma RankedExactly(c: seq<Candidate>, hits: seq<Hit>)
    requires InRange(hits, |c|)
    ensures var p := Above(Scores(hits), Threshold);
      && multiset(Ranked(c, hits)) == multiset(MatchesAt(Urls(c), Filenames(c), hits, p))
      && |Ranked(c, hits)| == |p|
  {
    KeptIsAbove(Urls(c), Filenames(c), hits);
  }

  /** Every index of a valid search result is some hit's index: the index
      search scores every candidate. */
  lemma HitsCoverAll(hits: seq<Hit>, k: nat, i: int)
    requires ValidHits(hits, k) && 0 <= i < k
    ensures exists j :: 0 <= j < |hits| && hits[j].index == i
  {
    if forall j :: 0 <= j < |hits| ==> hits[j].index != i {
      var others := Range(k) - {i};
      DistinctWithin(hits, others);
      assert false;
    }
  }

  /** The set {0, ..., k-1}. */
  function Range(k: nat): (r: set<int>)
    ensures forall n :: n in r <==> 0 <= n < k
    ensures |r| == k
  {
    if k == 0 then {} else Range(k - 1) + {k - 1}
  }

  lemma {:induction false} DistinctWithin(hits: seq<Hit>, bound: set<int>)
    requires forall j :: 0 <= j < |hits| ==> hits[j].index in bound
    requires forall j, l :: 0 <= j < l < |hits| ==> hits[j].index != hits[l].index
    ensures |hits| <= |bound|
    decreases |hits|
  {
    if hits != [] {
      var rest := hits[1..];
      assert forall j :: 0 <= j < |rest| ==> rest[j] == hits[j + 1];
      DistinctWithin(rest, bound - {hits[0].index});
    }
  }

  /** Completeness: each candidate whose score clears the threshold (a score
      of exactly 0.20 included) is in the ranking, with its own record's
      filename and URL. */
  lemma QualifyingCandidateRanked(c: seq<Candidate>, hits: seq<Hit>, i: int, score: real)
    requires ValidHits(hits, |c|) && 0 <= i < |c|
    requires exists j :: 0 <= j < |hits| && hits[j] == Hit(i, score)
    requires score >= Threshold
    ensures Match(c[i].filename, c[i].imageUrl, score) in Ranked(c, hits)
  {
    var j :| 0 <= j < |hits| && hits[j] == Hit(i, score);
    var kept := Kept(Urls(c), Filenames(c), hits);
    KeptMembers(Urls(c), Filenames(c), hits);
    assert MatchFor(Urls(c), Filenames(c), hits[j]) in kept;
    assert Match(c[i].filename, c[i].imageUrl, score) in multiset(Ranked(c, hits));
  }

  /** Each scored candidate is ranked, with its own filename, URL and score,
      exactly when that score is at least 0.20. */
  lemma CandidateRankedIff(c: seq<Candidate>, hits: seq<Hit>, j: int)
    requires ValidHits(hits, |c|) && 0 <= j < |hits|
    ensures var h := hits[j];
      Match(c[h.index].filename, c[h.index].imageUrl, h.score) in Ranked(c, hits) <==> h.score >= Threshold
  {
    var h := hits[j];
    if h.score >= Threshold {
      QualifyingCandidateRanked(c, hits, h.index, h.score);
    }
  }

  /** Soundness: each ranked entry is some candidate's filename and URL paired
      with the score the search gave that same candidate, at or above 0.20. */
  lemma RankedEntryAligned(c: seq<Candidate>, hits: seq<Hit>, m: Match)
    requires InRange(hits, |c|)
    requires m in Ranked(c, hits)
    ensures m.similarity >= Threshold
    ensures exists j :: (0 <= j < |hits| && hits[j].score == m.similarity &&
      m.filename == c[hits[j].index].filename && m.imageUrl == c[hits[j].index].imageUrl)
  {
    var kept := Kept(Urls(c), Filenames(c), hits);
    KeptMembers(Urls(c), Filenames(c), hits);
    assert m in multiset(kept) by {
      assert m in multiset(Ranked(c, hits));
    }
  }

  /** The order of the checks in the endpoint: the first failing one decides
      the error. */
  function FirstError(dbConnected: bool, images: seq<StoredImage>, textEmbedding: Option<seq<real>>): Option<SearchError>
  {
    if !dbConnected then Some(DatabaseNotConnected)
    else if images == [] then Some(NoImagesForEvent)
    else if !UrlsPresent(images) then Some(MissingImageUrl)
    else if CandidateCount(images) == 0 then Some(NoEmbeddings)
    else if !SameDimension(Vectors(Candidates(images))) then Some(DimensionMismatch)
    else if textEmbedding.None? then Some(TextEmbeddingFailed)
    else if |textEmbedding.value| != |Candidates(images)[0].vector| then Some(QueryDimensionMismatch)
    else None
  }

  /** The response body for a successful search. */
  function Respond(request: SearchRequest, results: seq<Match>): (r: SearchResponse)
    ensures r.query == request.queryText && r.eventName == request.eventName && r.results == results
    ensures results == [] ==> r.message == NoMatchMessage
    ensures results != [] ==> r.message == NatToString(|results|) + " images matched"
  {
    var message := if results == [] then NoMatchMessage else NatToString(|results|) + " images matched";
    SearchResponse(request.queryText, request.eventName, results, message)
  }

  /** A client can tell an empty result list from the message alone: only
      the empty list gets the no-match message, since a count message starts
      with a digit. */
  lemma NoMatchMessageIffEmpty(request: SearchRequest, results: seq<Match>)
    ensures Respond(request, results).message == NoMatchMessage <==> results == []
  {
    if results != [] {
      var msg := Respond(request, results).message;
      assert msg[0] == NatToString(|results|)[0];
      assert NoMatchMessage[0] == 'N';
    }
  }

  /** The count in a non-empty response's message reads back as the number of
      results. */
  lemma MessageCountsResults(request: SearchRequest, results: seq<Match>)
    requires results != []
    ensures var msg := Respond(request, results).message;
      |msg| > 15 && IsDigits(msg[..|msg| - 15]) && DigitsValue(msg[..|msg| - 15]) == |results|
  {
    var msg := Respond(request, results).message;
    var digits := NatToString(|results|);
    assert msg[..|msg| - 15] == digits;
    NatToStringRoundTrip(|results|);
  }

  /** `POST /search-images`. `store` is the image collection, `textEmbedding`
      what the text encoder returned for the query (None when it failed), and
      `hits` what the index search returns over the event's candidates. */
  method SearchImages(
    dbConnected: bool, request: SearchRequest, store: seq<StoredImage>,
    textEmbedding: Option<seq<real>>, hits: seq<Hit>)
    returns (outcome: SearchOutcome)
    requires ValidHits(hits, CandidateCount(ForEvent(store, request.eventName)))
    ensures outcome.Failed? ==> outcome.status == 500
    ensures outcome.Failed? <==> FirstError(dbConnected, ForEvent(store, request.eventName), textEmbedding).Some?
    ensures outcome.Failed? ==>
      Some(outcome.error) == FirstError(dbConnected, ForEvent(store, request.eventName), textEmbedding)
    ensures outcome.Found? ==>
      var images := ForEvent(store, request.eventName);
      && UrlsPresent(images)
      && outcome.response == Respond(request, Ranked(Candidates(images), hits))
    ensures outcome.Found? ==> SortedDesc(outcome.response.results)
    ensures outcome.Found? ==> forall m :: m in outcome.response.results ==> m.similarity >= Threshold
    ensures outcome.Found? ==> |outcome.response.results| <= CandidateCount(ForEvent(store, request.eventName))
  {
    if !dbConnected {
      return Failed(500, DatabaseNotConnected);
    }
    var images := ForEvent(store, request.eventName);
    if images == [] {
      return Failed(500, NoImagesForEvent);
    }
    var ok, embeddings, urls, filenames := ExtractCandidates(images);
    if !ok {
      return Failed(500, MissingImageUrl);
    }
    ghost var c := Candidates(images);
    assert Urls(c) == urls && Filenames(c) == filenames && Vectors(c) == embeddings;
    if embeddings == [] {
      return Failed(500, NoEmbeddings);
    }
    var dimension := |embeddings[0]|;
    if exists j :: 0 <= j < |embeddings| && |embeddings[j]| != dimension {
      return Failed(500, DimensionMismatch);
    }
    if textEmbedding.None? {
      return Failed(500, TextEmbeddingFailed);
    }
    if |textEmbedding.value| != dimension {
      return Failed(500, QueryDimensionMismatch);
    }
    var results := KeepAboveThreshold(urls, filenames, hits);
    results := SortBySimilarity(results);
    outcome := Found(Respond(request, results));
  }

  /** Only records of the requested event that have an embedding are ranked:
      each result's filename and URL are those of such a record. */
  lemma ResultsFromEventRecords(store: seq<StoredImage>, request: SearchRequest, hits: seq<Hit>, m: Match)
    requires UrlsPresent(ForEvent(store, request.eventName))
    requires InRange(hits, |Candidates(ForEvent(store, request.eventName))|)
    requires m in Ranked(Candidates(ForEvent(store, request.eventName)), hits)
    ensures exists img :: (img in store && img.eventName == request.eventName && HasEmbedding(img) &&
      m.filename == FilenameOf(img) && m.imageUrl == UrlOf(img))
  {
    var images := ForEvent(store, request.eventName);
    var c := Candidates(images);
    CandidatesAligned(images);
    RankedEntryAligned(c, hits, m);
    var j :| 0 <= j < |hits| && hits[j].score == m.similarity &&
      m.filename == c[hits[j].index].filename && m.imageUrl == c[hits[j].index].imageUrl;
    var img := images[Origins(images)[hits[j].index]];
    assert img in images;
  }
}
