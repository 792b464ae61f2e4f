/** The image records the upload endpoint stores and both search endpoints read
    back, and the search request body. */
module Records {
  import opened Common

  /** One key of a stored document: absent, present with value null, or
      present with a value. */
  datatype Field<+T> = Missing | Null | Present(value: T)

  /** A stored image document, reduced to the keys the searches read. */
  datatype StoredImage = StoredImage(
    eventName: string,
    embeddings: Field<seq<real>>,
    imageUrl: Field<string>,
    filename: Field<string>)

  /** The JSON body of both search endpoints. */
  datatype SearchRequest = SearchRequest(eventName: string, queryText: string)

  /** The documents a `find({"event_name": e})` query returns, in stored order. */
  function ForEvent(store: seq<StoredImage>, e: string): (r: seq<StoredImage>)
    ensures forall x :: x in r ==> x in store && x.eventName == e
    ensures forall x :: x in store && x.eventName == e ==> x in r
    ensures |r| <= |store|
    decreases |store|
  {
    if store == [] then []
    else
      var prefix := store[..|store| - 1];
      var last := store[|store| - 1];
      assert forall x :: x in store ==> x in prefix || x == last;
      ForEvent(prefix, e) + (if last.eventName == e then [last] else [])
  }

  /** The event query returns each document of the event as often as the
      store holds it, and no other document. */
  lemma {:induction false} ForEventCounts(store: seq<StoredImage>, e: string)
    ensures forall x :: multiset(ForEvent(store, e))[x] == (if x.eventName == e then multiset(store)[x] else 0)
    decreases |store|
  {
    if store != [] {
      var prefix := store[..|store| - 1];
      var last := store[|store| - 1];
      assert store == prefix + [last];
      ForEventCounts(prefix, e);
    }
  }

  /** `"embeddings" in img and img["embeddings"] is not None` */
  predicate HasEmbedding(img: StoredImage)
  {
    img.embeddings.Present?
  }

  /** `img.get("filename", "unknown")`: the default only replaces an absent
      key; a key stored as null yields null (None here). */
  function FilenameOf(img: StoredImage): (r: Option<string>)
    ensures img.filename.Missing? ==> r == Some("unknown")
    ensures img.filename.Null? <==> r.None?
    ensures img.filename.Present? ==> r == Some(img.filename.value)
  {
    match img.filename
    case Missing => Some("unknown")
    case Null => None
    case Present(name) => Some(name)
  }

  /** `img["image_url"]` on a document that has the key (an absent key raises
      KeyError, which the callers model as an error outcome). */
  function UrlOf(img: StoredImage): (r: Option<string>)
    requires !img.imageUrl.Missing?
    ensures img.imageUrl.Null? <==> r.None?
    ensures img.imageUrl.Present? ==> r == Some(img.imageUrl.value)
  {
    if img.imageUrl.Present? then Some(img.imageUrl.value) else None
  }
}
