/** The upload endpoint (`POST /upload-image`): each uploaded file is stored
    under the key "<college>/<filename>" (in the object store when it is
    configured and the upload succeeds, otherwise under a `local://`
    placeholder URL), decoded and embedded; one document per file with an
    embedding is collected and inserted in one batch. The object store, the
    image decoder and the image encoder are outside the model: their results
    arrive as fields of each `IncomingFile`. */
module Upload {
  import opened Common
  import opened Records

  /** The form fields of the request. `folderName` defaults to "". */
  datatype UploadForm = UploadForm(eventName: string, eventDate: string, folderName: string)

  /** The object-store settings: whether a client was created, the space
      (bucket) name if one is set, and the region the endpoint URL is built
      from. */
  datatype Storage = Storage(clientAvailable: bool, spaceName: Option<string>, region: string)

  /** One uploaded file with what the collaborators do with it: whether the
      object-store upload succeeds, whether the bytes decode as an image, and
      the embedding (None when the encoder failed). */
  datatype IncomingFile = IncomingFile(
    filename: string,
    contentType: string,
    putSucceeds: bool,
    decodes: bool,
    embedding: Option<seq<real>>)

  /** The document stored for one image; the two timestamps are left out. */
  datatype ImageDoc = ImageDoc(
    college: string,
    filename: string,
    folderName: string,
    contentType: string,
    imageUrl: string,
    eventName: string,
    eventDate: string,
    embeddings: seq<real>)

  /** DatabaseNotConnected is the endpoint's own 500. An undecodable file
      raises an exception nothing catches, so the client gets a generic 500;
      UndecodableImage records, for the model only, which file stopped the
      loop. */
  datatype UploadError = DatabaseNotConnected | UndecodableImage(filename: string)

  /** Success, the error dictionary returned when nothing was collected, or a
      status-500 failure (the endpoint's own check, or the decoder's exception,
      which nothing catches). */
  datatype UploadOutcome =
    | Uploaded(docs: seq<ImageDoc>, message: string)
    | NothingUploaded(errorMessage: string)
    | UploadFailed(status: nat, error: UploadError)

  const NothingUploadedError: string := "No images received or processed!"
  const SuccessSuffix: string := " images uploaded successfully!"

  /** `s3_client and DO_SPACE_NAME`: a client exists and the space name is set
      and non-empty. */
  predicate Configured(storage: Storage)
  {
    storage.clientAvailable && storage.spaceName.Some? && storage.spaceName.value != ""
  }

  /** The object-store endpoint URL built from the region. */
  function Endpoint(storage: Storage): string
  {
    "https://" + storage.region + ".digitaloceanspaces.com"
  }

  /** The object key "<college>/<filename>"; the college and the file name can
      be read back from it. */
  function ObjectKey(college: string, filename: string): (key: string)
    ensures |key| == |college| + 1 + |filename|
    ensures key[..|college|] == college && key[|college|] == '/' && key[|college| + 1..] == filename
  {
    college + "/" + filename
  }

  /** The URL stored for a file: the public object-store URL when the store is
      configured and the upload succeeded, the `local://` placeholder when the
      store is not configured or the upload raised. */
  function ImageUrl(storage: Storage, key: string, putSucceeds: bool): string
  {
    if Configured(storage) && putSucceeds then
      Endpoint(storage) + "/" + storage.spaceName.value + "/" + key
    else
      "local://" + key
  }

  /** Every URL ends with the object key, and it is a placeholder exactly when
      the file did not reach the object store. */
  lemma ImageUrlShape(storage: Storage, key: string, putSucceeds: bool)
    ensures var url := ImageUrl(storage, key, putSucceeds);
      && |url| >= |key| && url[|url| - |key|..] == key
      && |url| >= 8
      && (url[..8] == "local://" <==> !(Configured(storage) && putSucceeds))
      && (Configured(storage) && putSucceeds ==> url[..8] == "https://")
  {
    var url := ImageUrl(storage, key, putSucceeds);
    if Configured(storage) && putSucceeds {
      var prefix := Endpoint(storage) + "/" + storage.spaceName.value + "/";
      assert url == prefix + key;
      assert url[..8] == "https://";
      assert url[..8] != "local://" by {
        assert url[0] == 'h';
      }
    } else {
      assert url == "local://" + key;
    }
  }

  /** Python's `str.isspace` characters, the ones `strip()` removes. */
  predicate IsPythonSpace(c: char)
  {
    var n := c as int;
    || (0x09 <= n <= 0x0D) || (0x1C <= n <= 0x20)
    || n == 0x85 || n == 0xA0 || n == 0x1680
    || (0x2000 <= n <= 0x200A)
    || n == 0x2028 || n == 0x2029 || n == 0x202F || n == 0x205F || n == 0x3000
  }

  /** `not (folderName and folderName.strip())`: empty or whitespace only. */
  predicate IsBlank(s: string)
  {
    forall i :: 0 <= i < |s| ==> IsPythonSpace(s[i])
  }

  /** The stored folder path: the event name, followed by "/" and the folder
      name as given (not stripped) unless that is blank. */
  function FolderPath(eventName: string, folderName: string): (r: string)
    ensures |r| >= |eventName| && r[..|eventName|] == eventName
    ensures r == eventName <==> IsBlank(folderName)
    ensures !IsBlank(folderName) ==> r[|eventName|] == '/' && r[|eventName| + 1..] == folderName
  {
    if folderName != [] && !IsBlank(folderName) then eventName + "/" + folderName else eventName
  }

  /** The document built for a file whose embedding succeeded. */
  function DocFor(college: string, form: UploadForm, storage: Storage, f: IncomingFile): ImageDoc
    requires f.embedding.Some?
  {
    var key := ObjectKey(college, f.filename);
    ImageDoc(college, key, FolderPath(form.eventName, form.folderName), f.contentType,
             ImageUrl(storage, key, f.putSucceeds), form.eventName, form.eventDate, f.embedding.value)
  }

  /** The positions of the files whose embedding succeeded, in upload order. */
  function Embedded(files: seq<IncomingFile>): (r: seq<nat>)
    ensures forall j :: 0 <= j < |r| ==> r[j] < |files| && files[r[j]].embedding.Some?
    decreases |files|
  {
    if files == [] then []
    else
      var prefix := files[..|files| - 1];
      assert forall i :: 0 <= i < |prefix| ==> prefix[i] == files[i];
      Embedded(prefix) + (if files[|files| - 1].embedding.Some? then [|files| - 1] else [])
  }

  /** Embedded lists every file with an embedding, once, in upload order. */
  lemma {:induction false} EmbeddedExactly(files: seq<IncomingFile>)
    ensures forall j, k :: 0 <= j < k < |Embedded(files)| ==> Embedded(files)[j] < Embedded(files)[k]
    ensures forall i :: 0 <= i < |files| && files[i].embedding.Some? ==> i in Embedded(files)
    decreases |files|
  {
    if files != [] {
      var prefix := files[..|files| - 1];
      assert forall i :: 0 <= i < |prefix| ==> prefix[i] == files[i];
      EmbeddedExactly(prefix);
    }
  }

  lemma EmbeddedSnoc(files: seq<IncomingFile>, f: IncomingFile)
    ensures Embedded(files + [f]) == Embedded(files) + (if f.embedding.Some? then [|files|] else [])
  {
    assert (files + [f])[..|files|] == files;
  }

  /** The documents for the files at positions `p`. */
  function DocsAt(college: string, form: UploadForm, storage: Storage, files: seq<IncomingFile>, p: seq<nat>): (r: seq<ImageDoc>)
    requires forall j :: 0 <= j < |p| ==> p[j] < |files| && files[p[j]].embedding.Some?
    ensures |r| == |p|
    ensures forall j :: 0 <= j < |p| ==> r[j] == DocFor(college, form, storage, files[p[j]])
  {
    seq(|p|, j requires 0 <= j < |p| => DocFor(college, form, storage, files[p[j]]))
  }

  lemma DocsAtSnoc(college: string, form: UploadForm, storage: Storage, files: seq<IncomingFile>, p: seq<nat>, i: nat)
    requires forall j :: 0 <= j < |p| ==> p[j] < |files| && files[p[j]].embedding.Some?
    requires i < |files| && files[i].embedding.Some?
    ensures DocsAt(college, form, storage, files, p + [i])
         == DocsAt(college, form, storage, files, p) + [DocFor(college, form, storage, files[i])]
  {
  }

  /** The documents collected for a batch: one per file with an embedding, in
      upload order. */
  function Documents(college: string, form: UploadForm, storage: Storage, files: seq<IncomingFile>): seq<ImageDoc>
  {
    DocsAt(college, form, storage, files, Embedded(files))
  }

  /** Every document carries the college, the event, the folder path and a
      filename equal to its object key, and the URL ends with that key. */
  lemma DocumentFields(college: string, form: UploadForm, storage: Storage, files: seq<IncomingFile>, d: ImageDoc)
    requires d in Documents(college, form, storage, files)
    ensures d.college == college && d.eventName == form.eventName && d.eventDate == form.eventDate
    ensures d.folderName == FolderPath(form.eventName, form.folderName)
    ensures exists i :: (0 <= i < |files| && files[i].embedding.Some? &&
      d.filename == ObjectKey(college, files[i].filename) && d.embeddings == files[i].embedding.value)
    ensures |d.imageUrl| >= |d.filename| && d.imageUrl[|d.imageUrl| - |d.filename|..] == d.filename
  {
    var p := Embedded(files);
    var j :| 0 <= j < |p| && Documents(college, form, storage, files)[j] == d;
    var f := files[p[j]];
    ImageUrlShape(storage, ObjectKey(college, f.filename), f.putSucceeds);
  }

  /** The document as the searches read it back: every key is present. */
  function StoredFor(d: ImageDoc): StoredImage
  {
    StoredImage(d.eventName, Present(d.embeddings), Present(d.imageUrl), Present(d.filename))
  }

  function StoredAll(docs: seq<ImageDoc>): (r: seq<StoredImage>)
    ensures |r| == |docs| && forall j :: 0 <= j < |docs| ==> r[j] == StoredFor(docs[j])
  {
    seq(|docs|, j requires 0 <= j < |docs| => StoredFor(docs[j]))
  }

  /** After a batch is inserted, each of its documents is found by the event
      query of the searches, has an embedding, and is read back with its
      object key as filename (not the "unknown" default) and its stored URL. */
  lemma UploadedImageSearchable(
    store: seq<StoredImage>, college: string, form: UploadForm, storage: Storage,
    files: seq<IncomingFile>, d: ImageDoc)
    requires d in Documents(college, form, storage, files)
    ensures var img := StoredFor(d);
      && img in ForEvent(store + StoredAll(Documents(college, form, storage, files)), form.eventName)
      && HasEmbedding(img)
      && FilenameOf(img) == Some(d.filename)
      && UrlOf(img) == Some(d.imageUrl)
  {
    var docs := Documents(college, form, storage, files);
    DocumentFields(college, form, storage, files, d);
    var j :| 0 <= j < |docs| && docs[j] == d;
    var after := store + StoredAll(docs);
    assert after[|store| + j] == StoredFor(d);
  }

  /** The first file that fails to decode. */
  predicate FirstUndecodable(files: seq<IncomingFile>, i: int)
  {
    0 <= i < |files| && !files[i].decodes && forall k :: 0 <= k < i ==> files[k].decodes
  }

  /** The loop over the files: stops at the first file that does not decode
      as an image (its exception ends the request), skips the files whose
      embedding failed, and collects one document per remaining file. */
  method CollectDocuments(college: string, form: UploadForm, storage: Storage, files: seq<IncomingFile>)
    returns (bad: Option<nat>, docs: seq<ImageDoc>)
    ensures bad.Some? <==> exists i :: 0 <= i < |files| && !files[i].decodes
    ensures bad.Some? ==> FirstUndecodable(files, bad.value)
    ensures bad.None? ==> docs == Documents(college, form, storage, files)
  {
    docs := [];
    var i := 0;
    while i < |files| && files[i].decodes
      invariant 0 <= i <= |files|
      invariant forall k :: 0 <= k < i ==> files[k].decodes
      invariant docs == DocsAt(college, form, storage, files, Embedded(files[..i]))
    {
      var f := files[i];
      var key := ObjectKey(college, f.filename);
      var url := ImageUrl(storage, key, f.putSucceeds);
      assert files[..i + 1] == files[..i] + [f];
      EmbeddedSnoc(files[..i], f);
      if f.embedding.Some? {
        DocsAtSnoc(college, form, storage, files, Embedded(files[..i]), i);
        docs := docs + [ImageDoc(college, key, FolderPath(form.eventName, form.folderName), f.contentType,
                                 url, form.eventName, form.eventDate, f.embedding.value)];
      }
      i := i + 1;
    }
    if i < |files| {
      return Some(i), [];
    }
    assert files[..|files|] == files;
    bad := None;
  }

  /** `POST /upload-image` for the collection named `college`. */
  method UploadImage(dbConnected: bool, college: string, form: UploadForm, storage: Storage, files: seq<IncomingFile>)
    returns (outcome: UploadOutcome)
    ensures outcome.UploadFailed? ==> outcome.status == 500
    ensures !dbConnected ==> outcome == UploadFailed(500, DatabaseNotConnected)
    ensures dbConnected ==> (outcome.UploadFailed? <==> exists i :: 0 <= i < |files| && !files[i].decodes)
    ensures dbConnected && outcome.UploadFailed? ==>
      exists i :: FirstUndecodable(files, i) && outcome.error == UndecodableImage(files[i].filename)
    ensures outcome.Uploaded? ==>
      && outcome.docs == Documents(college, form, storage, files)
      && outcome.docs != []
      && outcome.message == NatToString(|outcome.docs|) + SuccessSuffix
    ensures outcome.NothingUploaded? ==>
      outcome.errorMessage == NothingUploadedError && Documents(college, form, storage, files) == []
    ensures dbConnected && (forall i :: 0 <= i < |files| ==> files[i].decodes) ==>
      (outcome.Uploaded? <==> exists i :: 0 <= i < |files| && files[i].embedding.Some?)
  {
    if !dbConnected {
      return UploadFailed(500, DatabaseNotConnected);
    }
    var bad, docs := CollectDocuments(college, form, storage, files);
    if bad.Some? {
      return UploadFailed(500, UndecodableImage(files[bad.value].filename));
    }
    EmbeddedExactly(files);
    if docs != [] {
      assert files[Embedded(files)[0]].embedding.Some?;
      return Uploaded(docs, NatToString(|docs|) + SuccessSuffix);
    }
    outcome := NothingUploaded(NothingUploadedError);
  }
}
