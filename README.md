# PLEXIS_AI image service, modelled in Dafny

PLEXIS_AI is an event photo service. Photographers upload the pictures of an
event. Each picture goes to an object store (a DigitalOcean Space) and gets
a CLIP image embedding. One document per picture is stored in the college's
image collection. Clients then search an event's pictures with a text query,
whose CLIP text embedding is compared with the stored image embeddings.

This project models the three endpoints of `main.py` that do this work:

- **`POST /upload-image`** (module `Upload`, `upload.dfy`).
  - The object key is `<college>/<filename>`.
  - The stored URL is the public object-store URL when the store is
    configured and the upload succeeds. Otherwise it is a `local://<key>`
    placeholder.
  - The folder path is `<event>/<folderName>` unless the folder name is
    empty or only whitespace in Python's sense. Then it is the event name.
  - A file whose embedding fails is skipped. A file that does not decode as
    an image ends the request with status 500.
  - The reply counts the documents. When nothing was collected, the reply is
    an error dictionary instead.
- **`POST /search-images`** (module `Search`, `search.dfy`).
  - The event's records are narrowed to those with an embedding, which gives
    three parallel lists of vectors, URLs and filenames. The filename
    defaults to `"unknown"` only when the key is absent.
  - An exact inner-product index scores every candidate.
  - Results scoring at least 0.20 are kept and sorted by similarity, highest
    first. The sort is stable.
  - The response carries a count message, or a fixed message when nothing
    matched.
  - Every exception inside the handler is caught and re-raised as status
    500, including the endpoint's own 404s. A 404 survives only as the
    `"404: "` prefix of the 500's detail (`Search.Detail`).
  - The handler's docstring says results are filtered above 0.7. The code's
    cutoff is 0.20, inclusive, and the model follows the code.
- **`POST /search-images-old`** (module `LegacySearch`, `legacy_search.dfy`).
  - Each record of the event is compared with the query on its own.
  - The URLs of the records scoring at least 0.26 are returned in stored
    order, with no scores and no sorting.
  - A record without a URL key or a usable embedding fails the whole request
    with status 500, because nothing catches the exception.

`Records` (`records.dfy`) holds the stored document and the search request.
A stored key is Missing, Null or Present, so the difference between
`img.get(k, default)` and `img[k]` can be stated.

`Common` (`common.dfy`) holds:
- `Option`;
- the "positions at or above a threshold" filter both searches apply;
- Python's `str(n)` for the counts in the messages.

The model replaces the collaborators with inputs:
- The CLIP encoders become an optional embedding per file or per query.
  `None` means the encoder failed.
- The FAISS index search becomes a list of `(index, score)` hits that
  scores each candidate exactly once (`Search.ValidHits`).
- scikit-learn's cosine similarity becomes one score per record.
- The object store becomes a per-file "upload succeeds" flag.
- The image decoder becomes a per-file "decodes" flag.
- The database connection becomes a flag.

Each endpoint is a `method` whose loop follows the source's loop and is
proved against specification functions. Examples are `Search.Kept`,
`Search.Candidates`, `Common.Above` and `Upload.Documents`. Lemmas then
prove what the source promises about those functions:
- completeness and soundness of the threshold filter;
- stability and permutation of the sort;
- coverage of every candidate;
- the round trip of the count in the message;
- the shape of the URLs and keys.

## Model

| member | source | states |
|---|---|---|
| Records.ForEvent | main.py:184 | The event query returns only stored records of the requested event, every such record, and never more entries than the store holds. |
| Records.ForEventCounts | main.py:184 | The event query returns each stored record of the requested event exactly as often as the store holds it, and no other record. |
| Search.Detail | main.py:251-253 | The 500's detail is the caught exception's text: "404: …" for the two no-images cases, "500: …" for the database and text-encoder failures; library exceptions carry no modelled text. |
| Search.Origins | main.py:192-193 | The candidate positions are exactly the records with a non-null embedding, in stored order, each once. |
| Search.CandidatesAligned | main.py:192-196 | The j-th entry of the three parallel lists is built from the j-th record with an embedding: its vector, its URL and its filename with the "unknown" default. |
| Search.ExtractCandidates | main.py:189-196 | The extraction loop fails exactly when a record with an embedding has no URL key; otherwise its three lists are the vectors, URLs and filenames of the candidates. |
| Search.KeptMembers | main.py:223-231 | Every kept result scores at least 0.20 and is the filename, URL and score of one hit; every hit scoring at least 0.20 is kept. |
| Search.KeptIsAbove | main.py:223-231 | The filter yields one entry per hit scoring at least 0.20, in hit order, built from that hit's index and score, and nothing else. |
| Search.KeepAboveThreshold | main.py:221-231 | The filter loop yields exactly the kept results of the hits, in hit order. |
| Search.Insert | main.py:233 | Inserting into a list sorted highest first keeps it sorted and adds exactly the new entry. |
| Search.SortBySimilarity | main.py:233 | The sorted results are ordered by similarity, highest first, and are a permutation of the input. |
| Search.SortIsStable | main.py:233 | Results with equal similarity keep their relative order through the sort. |
| Search.Ranked | main.py:221-233 | The ranking is sorted highest first, every entry scores at least 0.20, and it is never longer than the list of hits. |
| Search.RankedExactly | main.py:221-248 | The ranking holds the entries of the hits scoring at least 0.20 with their multiplicities, so the count in the message is the number of those hits. |
| Search.HitsCoverAll | main.py:216-218 | A search for k results over k candidates returns every candidate index. |
| Search.QualifyingCandidateRanked | main.py:226-231 | A candidate scoring at least 0.20 (0.20 itself included) appears in the ranking with its own filename, URL and score. |
| Search.CandidateRankedIff | main.py:223-231 | A scored candidate is in the ranking with its own filename, URL and score if and only if that score is at least 0.20. |
| Search.RankedEntryAligned | main.py:223-231 | Every ranked entry is one candidate's filename and URL paired with the score the search gave that same candidate. |
| Search.NoMatchMessageIffEmpty | main.py:236-249 | The response message is the fixed no-match message exactly when the result list is empty, because a count message starts with a digit. |
| Search.MessageCountsResults | main.py:248 | The digits at the head of the count message read back as the number of results. |
| Search.SearchImages | main.py:177-253 | Every failure has status 500; the endpoint fails exactly when the first failing check (database, no records, missing URL, no embeddings, unequal vector lengths, text encoder, query length) fails, with that error; otherwise the response is the sorted, thresholded ranking of the candidates. |
| Search.ResultsFromEventRecords | main.py:184-196 | Each result's filename and URL are those of a stored record of the requested event that has an embedding. |
| Common.AboveExactly | main.py:276-277 | The kept positions are exactly those scoring at least the threshold, each once, in increasing order. |
| Common.NatToStringRoundTrip | main.py:248 | The decimal digits written for a count read back as that count. |
| Common.NatToStringInjective | main.py:157 | Different counts give different count messages. |
| LegacySearch.RecordError | main.py:270-274 | A record passes the loop body exactly when it has a URL key and a non-null, non-empty embedding as long as the query's. |
| LegacySearch.CollectMatches | main.py:269-277 | The loop fails exactly when some record fails, with the first failing record's error; otherwise it yields the URLs of the records scoring at least 0.26, in stored order. |
| LegacySearch.ReplyExactlyQualifying | main.py:269-282 | The reply lists, in stored order, the URL of every record scoring at least 0.26 and of no other record. |
| LegacySearch.SearchImagesOld | main.py:255-282 | Every failure has status 500; the database and the text encoder are checked first; then the reply is "Results" with the qualifying URLs, or the first failing record's error. |
| Upload.ObjectKey | main.py:104 | The object key is the college, a slash and the file name, and both parts can be read back from it. |
| Upload.ImageUrlShape | main.py:107-124 | Every stored URL ends with the object key; it starts with "local://" exactly when the store is not configured or the upload failed, and with "https://" otherwise. |
| Upload.FolderPath | main.py:135-138 | The folder path starts with the event name; it is the event name alone exactly when the folder name is empty or whitespace only, and otherwise the event name, a slash and the unstripped folder name. |
| Upload.EmbeddedExactly | main.py:128-132 | The files that get a document are exactly those whose embedding succeeded, each once, in upload order. |
| Upload.DocumentFields | main.py:139-150 | Every document carries the college, the event name and date, the folder path, a filename equal to an uploaded file's object key with that file's embedding, and a URL ending with that key. |
| Upload.UploadedImageSearchable | main.py:193-196 | A document stored by an upload is found by its event's query, has an embedding, and its filename and URL lookups give its object key (not the "unknown" default) and its stored URL. |
| Upload.CollectDocuments | main.py:99-150 | The loop stops at the first file that does not decode; otherwise it yields one document per file with an embedding, in upload order. |
| Upload.UploadImage | main.py:82-160 | A missing database gives 500; an undecodable file ends the request with a generic 500 (the model records which file stopped the loop; the client is not told); otherwise the documents of the embedded files are stored with a "<count> images uploaded successfully!" message, or the error dictionary when no file had an embedding. |

## Left out

- Search.SearchImages: the index search is an input (`hits`) and is not computed. The model does not prove that the scores are inner products of L2-normalised float32 vectors, nor the order in which FAISS lists them. It proves what holds for any complete set of scores.
- Search.Detail: the texts of library exceptions (KeyError, NumPy and FAISS errors) are not modelled. For those errors the detail is None.
- LegacySearch.SearchImagesOld: scikit-learn's cosine similarity is an input (`scores`). The similarity arithmetic is not modelled. Its rejection of null, empty or unequal-length vectors is modelled as an error.
- Upload.UploadImage: the object-store write, the image decoder and the image encoder are per-file inputs. The files already written to the store before a decode failure stay there, and the model does not show that.
- Upload.UploadImage: `insert_many` is modelled by returning the documents. Database write errors are not modelled.
- Floating point: scores and embeddings are reals. float32 rounding, NaN and the `float(score)` conversion are not modelled.
- A zero-length embedding in the new search is not modelled. It builds a zero-dimensional FAISS index, and that index's behaviour is not part of this model.
- The `createdAt`/`updatedAt` timestamps, the running storage total in KB and all log output are left out, because none of them affects a response.
- The database connection, the object-store client setup and the environment settings in `connect.py` and `database.py` are flags and parameters. Authentication (`auth.py`), the user models (`models.py`, except the search request) and the browser script (`static/script.js`) are not part of this model.
- Request validation by the web framework (missing form fields, a malformed JSON body) happens before the endpoints run and is not modelled.
