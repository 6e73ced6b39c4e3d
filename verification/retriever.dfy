/** `get_top_pages`: nearest chunks to a query, mapped to their pages. The
    similarity search is abstract: it receives the index, the query text (whose
    embedding it computes) and the number of neighbours, and returns chunk ids,
    where -1 marks a missing neighbour. */
module Retriever {
  import opened Wrappers
  import opened IndexStore

  datatype RetrieveError =
    | NotIndexed(pdf: string)       // FileNotFoundError from loading
    | ChunkIdOutOfRange(id: int)    // IndexError from `meta["chunks"][i]`

  /** The number of neighbours requested: `min(top_k, num_vectors)`. */
  function NeighbourCount(topK: nat, meta: Meta): (k: nat)
    ensures k <= topK && k <= meta.numVectors
    ensures k == topK || k == meta.numVectors
  {
    if topK <= meta.numVectors then topK else meta.numVectors
  }

  /** `id` is a real neighbour whose chunk lies on page `p`. */
  predicate HitOnPage(chunks: seq<Record>, id: int, p: nat) {
    0 <= id < |chunks| && chunks[id].page == p
  }

  predicate NoDuplicates(s: seq<nat>) {
    forall i, j :: 0 <= i < j < |s| ==> s[i] != s[j]
  }

  /** The loop of `get_top_pages` over the returned ids: negative ids are skipped,
      each other id adds its chunk's page to `acc` unless already there, and an id
      past the end of the chunk list raises. */
  function CollectPages(chunks: seq<Record>, ids: seq<int>, acc: seq<nat>): (r: Result<seq<nat>, RetrieveError>)
    requires NoDuplicates(acc)
    ensures r.Failure? <==> exists j :: 0 <= j < |ids| && ids[j] >= |chunks|
    ensures r.Failure? ==> r.error.ChunkIdOutOfRange? && r.error.id >= |chunks|
    ensures r.Success? ==> NoDuplicates(r.value)
    ensures r.Success? ==> forall p :: p in r.value <==> p in acc || exists j :: 0 <= j < |ids| && HitOnPage(chunks, ids[j], p)
    decreases |ids|
  {
    if |ids| == 0 then Success(acc)
    else
      assert forall j :: 1 <= j < |ids| ==> ids[1..][j - 1] == ids[j];
      if ids[0] < 0 then CollectPages(chunks, ids[1..], acc)
      else if ids[0] >= |chunks| then Failure(ChunkIdOutOfRange(ids[0]))
      else
        var p := chunks[ids[0]].page;
        CollectPages(chunks, ids[1..], if p in acc then acc else acc + [p])
  }

  /** `get_top_pages(pdf_name, query, top_k)`. */
  function GetTopPages(store: Store, pdfName: string, query: string, topK: nat,
                       search: (IndexFile, string, nat) -> seq<int>): (r: Result<seq<nat>, RetrieveError>)
    ensures var (ip, mp) := FileKeys(pdfName);
      && (r == Failure(NotIndexed(pdfName)) <==> ip !in store.indexes || mp !in store.metas)
      && (ip in store.indexes && mp in store.metas ==>
            var meta := store.metas[mp];
            var ids := search(store.indexes[ip], query, NeighbourCount(topK, meta));
            && (r.Failure? <==> exists j :: 0 <= j < |ids| && ids[j] >= |meta.chunks|)
            && (r.Failure? ==> r.error.ChunkIdOutOfRange? && r.error.id >= |meta.chunks|))
      && (r.Success? ==>
            var meta := store.metas[mp];
            var ids := search(store.indexes[ip], query, NeighbourCount(topK, meta));
            && NoDuplicates(r.value)
            && forall p :: p in r.value <==> exists j :: 0 <= j < |ids| && HitOnPage(meta.chunks, ids[j], p))
  {
    var loaded := LoadIndexAndMeta(store, pdfName);
    if loaded.Failure? then Failure(NotIndexed(pdfName))
    else
      var (index, meta) := loaded.value;
      var ids := search(index, query, NeighbourCount(topK, meta));
      CollectPages(meta.chunks, ids, [])
  }

  /** A search that behaves like a flat index: it returns ids below the number of
      stored vectors (or -1). */
  ghost predicate SearchWithinIndex(search: (IndexFile, string, nat) -> seq<int>) {
    forall index: IndexFile, query: string, k: nat ::
      forall j :: 0 <= j < |search(index, query, k)| ==> search(index, query, k)[j] < |index.embedded|
  }

  /** On a consistent store, retrieval can only fail because the document is not
      indexed: every id the index returns names a chunk of the metadata. */
  lemma RetrievalOnlyFailsWhenNotIndexed(store: Store, pdfName: string, query: string, topK: nat,
                                         search: (IndexFile, string, nat) -> seq<int>)
    requires Consistent(store)
    requires SearchWithinIndex(search)
    ensures GetTopPages(store, pdfName, query, topK, search).Failure? ==>
      GetTopPages(store, pdfName, query, topK, search) == Failure(NotIndexed(pdfName))
  {
    var (ip, mp) := FileKeys(pdfName);
    if ip in store.indexes && mp in store.metas {
      var safe := BaseName(pdfName);
      assert Agree(store.indexes[IndexPath(safe)], store.metas[MetaPath(safe)]);
      var meta := store.metas[mp];
      var ids := search(store.indexes[ip], query, NeighbourCount(topK, meta));
      assert forall j :: 0 <= j < |ids| ==> ids[j] < |meta.chunks|;
    }
  }
}
