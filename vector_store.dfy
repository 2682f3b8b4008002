/** The resume index of backend/app/services/vector_db.py, reduced to what the rest of the
    backend relies on: an append-only list of (text, metadata) entries, and a similarity search
    that answers at most `k` of the stored metadata records with their distances. The
    embedding model and the FAISS index behind the search are not modelled. */
module VectorStore {
  import opened Schemas

  datatype Entry = Entry(text: string, metadata: Metadata)

  /** One search answer: an entry's metadata and its distance to the query. */
  type Hit = (Metadata, real)

  class VectorIndex {
    var entries: seq<Entry>

    constructor()
      ensures entries == [] && AllFiled(entries)
    {
      entries := [];
    }

    /** `add_resume`. `embedded` is false when embedding the text raised; the error is logged
        and swallowed, and the index stays as it was. */
    method AddResume(text: string, metadata: Metadata, embedded: bool)
      modifies this
      ensures embedded ==> entries == old(entries) + [Entry(text, metadata)]
      ensures !embedded ==> entries == old(entries)
      ensures AllFiled(old(entries)) && Filed(metadata) ==> AllFiled(entries)
    {
      if embedded {
        entries := entries + [Entry(text, metadata)];
      }
    }
  }

  /** Every stored record carries its file name. */
  predicate AllFiled(entries: seq<Entry>) {
    forall i :: 0 <= i < |entries| ==> Filed(entries[i].metadata)
  }

  /** `search_similar(query, k)` over the entries stored so far. A search that raises is
      answered by `[]`, which `search` may return like any other answer. */
  datatype Retriever = Retriever(search: (seq<Entry>, string, nat) -> seq<Hit>)

  /** What any similarity search promises: at most `k` answers, no more than there are
      entries, and every answer is the metadata of a stored entry. */
  ghost predicate Bounded(r: Retriever) {
    forall es: seq<Entry>, q: string, k: nat ::
      && |r.search(es, q, k)| <= k
      && |r.search(es, q, k)| <= |es|
      && forall i :: 0 <= i < |r.search(es, q, k)| ==>
           exists j :: 0 <= j < |es| && es[j].metadata == r.search(es, q, k)[i].0
  }
}
