/** The indexer's Searcher: the corpus' documents and IDF map, built by
    load_documents or restored by load_embeddings, and queried by
    search_documents. Each method is proved against the value-level
    definitions of the Corpus module. */
module Searching {
  import opened Wrappers
  import opened Tokenizer
  import opened MapSums
  import opened TermStats
  import opened InverseDocumentFrequency
  import opened Similarity
  import opened Documents
  import opened Corpus

  /** No document object occurs twice, so updating one leaves the others. */
  predicate Distinct(docs: seq<Document>) {
    forall i, j :: 0 <= i < j < |docs| ==> docs[i] != docs[j]
  }

  /** The values of the documents, in order. */
  function DataOf(docs: seq<Document>): (r: seq<DocumentData>)
    reads docs
    ensures |r| == |docs|
    ensures forall i :: 0 <= i < |docs| ==> r[i] == docs[i].Data()
  {
    seq(|docs|, i reads docs requires 0 <= i < |docs| => docs[i].Data())
  }

  /** The first for_each of load_documents: count_word_occurrences, then
      compute_tf, on every document. */
  method CountAndComputeTf(docs: seq<Document>)
    requires Distinct(docs)
    modifies docs
    ensures DataOf(docs) == CountAll(old(DataOf(docs)))
  {
    for i := 0 to |docs|
      invariant forall j :: 0 <= j < i ==> docs[j].Data() == Counted(old(docs[j].Data()))
      invariant forall j :: i <= j < |docs| ==> docs[j].Data() == old(docs[j].Data())
    {
      docs[i].CountWordOccurrences();
      docs[i].ComputeTf();
    }
  }

  /** The second for_each of load_documents: compute_tf_idf on every document
      against the same IDF map. */
  method ComputeAllTfIdf(docs: seq<Document>, idf: map<string, real>)
    requires Distinct(docs)
    modifies docs
    ensures DataOf(docs) == WeightAll(old(DataOf(docs)), idf)
  {
    for i := 0 to |docs|
      invariant forall j :: 0 <= j < i ==> docs[j].Data() == Weighted(old(docs[j].Data()), idf)
      invariant forall j :: i <= j < |docs| ==> docs[j].Data() == old(docs[j].Data())
    {
      docs[i].ComputeTfIdf(idf);
    }
  }

  /** The number of documents that hold each term, as compute_idf's first
      loop accumulates it. */
  function DocumentCounts(occs: seq<map<string, nat>>): (r: map<string, real>)
    ensures r.Keys == Vocabulary(occs)
  {
    map t | t in Vocabulary(occs) :: DocFreq(occs, t) as real
  }

  /** After the counting loop over the i-th document, the counts are those of
      the first i + 1 documents. */
  lemma CountOneMore(occs: seq<map<string, nat>>, i: nat, counts: map<string, real>)
    requires i < |occs|
    requires counts.Keys == Vocabulary(occs[..i]) + occs[i].Keys
    requires forall t :: t in counts ==> counts[t] == Get(DocumentCounts(occs[..i]), t) + (if t in occs[i] then 1.0 else 0.0)
    ensures counts == DocumentCounts(occs[..i + 1])
  {
    assert occs[..i + 1] == occs[..i] + [occs[i]];
    forall t | t in counts
      ensures counts[t] == DocumentCounts(occs[..i + 1])[t]
    {
      AppendDocument(occs[..i], occs[i], t);
    }
    AppendDocument(occs[..i], occs[i], "");
  }

  /** Replacing every count df by log10(N / df) gives the IDF map. */
  lemma IdfFromCounts(occs: seq<map<string, nat>>, log10: real -> real, counts: map<string, real>, result: map<string, real>)
    requires counts == DocumentCounts(occs)
    requires result.Keys == counts.Keys
    requires forall t :: t in result ==> counts[t] != 0.0 && result[t] == log10(|occs| as real / counts[t])
    ensures result == Idf(occs, log10)
  {
    assert result.Keys == Idf(occs, log10).Keys;
  }

  /** The inner loop of compute_idf's first loop: adds 1 to the count of
      every term of one document's occurrence map. */
  method AddPresence(counts: map<string, real>, occ: map<string, nat>) returns (counts': map<string, real>)
    ensures counts'.Keys == counts.Keys + occ.Keys
    ensures forall t :: t in counts' ==> counts'[t] == Get(counts, t) + (if t in occ then 1.0 else 0.0)
  {
    counts' := counts;
    var todo := occ.Keys;
    while todo != {}
      invariant todo <= occ.Keys
      invariant counts'.Keys == counts.Keys + (occ.Keys - todo)
      invariant forall t :: t in counts' ==> counts'[t] == Get(counts, t) + (if t in occ && t !in todo then 1.0 else 0.0)
      decreases |todo|
    {
      var term :| term in todo;
      PresenceStep(counts, occ, todo, counts', term);
      counts' := counts'[term := Get(counts', term) + 1.0];
      todo := todo - {term};
    }
  }

  /** One step of AddPresence: the term gets its 1. */
  lemma PresenceStep(counts: map<string, real>, occ: map<string, nat>, todo: set<string>, partial: map<string, real>, term: string)
    requires term in todo && todo <= occ.Keys
    requires partial.Keys == counts.Keys + (occ.Keys - todo)
    requires forall t :: t in partial ==> partial[t] == Get(counts, t) + (if t in occ && t !in todo then 1.0 else 0.0)
    ensures var next := partial[term := Get(partial, term) + 1.0];
      && next.Keys == counts.Keys + (occ.Keys - (todo - {term}))
      && forall t :: t in next ==> next[t] == Get(counts, t) + (if t in occ && t !in todo - {term} then 1.0 else 0.0)
  {
    assert Get(partial, term) == Get(counts, term);
  }

  /** The first loop of compute_idf: for every document's occurrence map, adds
      1 to the count of each of its terms. */
  method CountDocuments(occs: seq<map<string, nat>>) returns (counts: map<string, real>)
    ensures counts == DocumentCounts(occs)
  {
    counts := map[];
    for i := 0 to |occs|
      invariant counts == DocumentCounts(occs[..i])
    {
      counts := AddPresence(counts, occs[i]);
      CountOneMore(occs, i, counts);
    }
    assert occs[..|occs|] == occs;
  }

  /** The walk of load_documents: a fresh document with the words of every
      markdown file, in walk order; ok is false when the walk panics. */
  method CollectFiles(entries: seq<FileEntry>, prims: Primitives) returns (collected: seq<Document>, ok: bool)
    ensures ok <==> CollectDocuments(entries, prims).Some?
    ensures ok ==> Distinct(collected) && (forall i :: 0 <= i < |collected| ==> fresh(collected[i]))
    ensures ok ==> DataOf(collected) == CollectDocuments(entries, prims).value
  {
    collected := [];
    for i := 0 to |entries|
      invariant Distinct(collected)
      invariant forall j :: 0 <= j < |collected| ==> fresh(collected[j])
      invariant CollectDocuments(entries[..i], prims) == Some(DataOf(collected))
    {
      var entry := entries[i];
      assert entries[..i + 1][..i] == entries[..i];
      match CollectText(entry)
      case Panic =>
        CollectPanics(entries, prims);
        return [], false;
      case Skipped =>
      case Contents(text) =>
        var current := new Document(entry.path, CollectWords(prims.chars, prims.markdownText(text)));
        assert DataOf(collected + [current]) == DataOf(collected) + [current.Data()];
        collected := collected + [current];
    }
    assert entries[..|entries|] == entries;
    ok := true;
  }

  /** The three phases of load_documents compose to Build. */
  lemma BuildPhases(walked: seq<DocumentData>, weighted: seq<DocumentData>, idf: map<string, real>, log10: real -> real)
    requires idf == Idf(Occurrences(CountAll(walked)), log10)
    requires weighted == WeightAll(CountAll(walked), idf)
    ensures Corpus.Snapshot(weighted, idf) == Build(walked, log10)
  {
  }

  class Searcher {
    var documents: seq<Document>
    var idf: map<string, real>

    ghost predicate Valid()
      reads this
    {
      Distinct(documents)
    }

    /** The Searcher as a value: what the cache stores. */
    function Snapshot(): Snapshot
      reads this, documents
    {
      Corpus.Snapshot(DataOf(documents), idf)
    }

    /** The empty Searcher that main starts from. */
    constructor ()
      ensures Valid() && Snapshot() == Corpus.Snapshot([], map[])
    {
      documents := [];
      idf := map[];
    }

    /** compute_idf: counts, for every term, the documents whose occurrence
        map holds it, then replaces every count df by log10(N / df). */
    method ComputeIdf(log10: real -> real) returns (result: map<string, real>)
      ensures result == Idf(Occurrences(DataOf(documents)), log10)
    {
      var documentAmount := |documents|;
      var occs := Occurrences(DataOf(documents));
      var counts := CountDocuments(occs);
      result := counts;
      var todo := counts.Keys;
      while todo != {}
        invariant todo <= counts.Keys == result.Keys
        invariant forall t :: t in result ==> (counts[t] != 0.0 &&
          result[t] == if t in todo then counts[t] else log10(documentAmount as real / counts[t]))
        decreases |todo|
      {
        var term :| term in todo;
        result := result[term := log10(documentAmount as real / result[term])];
        todo := todo - {term};
      }
      IdfFromCounts(occs, log10, counts, result);
    }

    /** load_documents: collects the words of every markdown file of the walk
        into fresh documents, then counts and TF for all of them, then the IDF
        map, then every document's TF-IDF. A panic of the walk (a file without
        an extension, or a failed directory read) aborts the program and
        leaves nothing of it. */
    method LoadDocuments(entries: seq<FileEntry>, walkOk: bool, prims: Primitives) returns (ok: bool)
      modifies this
      ensures ok <==> walkOk && CollectDocuments(entries, prims).Some?
      ensures !ok ==> documents == old(documents) && idf == old(idf)
      ensures ok ==> Valid() && (forall i :: 0 <= i < |documents| ==> fresh(documents[i]))
      ensures ok ==> Snapshot() == Build(CollectDocuments(entries, prims).value, prims.log10)
    {
      var collected, walked := CollectFiles(entries, prims);
      if !walked || !walkOk {
        return false;
      }
      ghost var walkedData := DataOf(collected);
      documents := collected;
      CountAndComputeTf(collected);
      idf := ComputeIdf(prims.log10);
      ComputeAllTfIdf(collected, idf);
      BuildPhases(walkedData, DataOf(collected), idf, prims.log10);
      ok := true;
    }

    /** search_documents: the query's TF-IDF vector against the Searcher's
        IDF, and its cosine similarity with every document in corpus order. */
    method SearchDocuments(query: string, prims: Primitives) returns (similarities: seq<QueryReturn>)
      requires IsSqrt(prims.sqrt)
      ensures similarities == Search(Snapshot(), query, prims)
    {
      ghost var expected := Search(Snapshot(), query, prims);
      var queryWords := CollectWords(prims.chars, query);
      var queryDoc := new Document("query", queryWords);
      queryDoc.ComputeTf();
      queryDoc.ComputeTfIdf(idf);
      var queryVector := queryDoc.tfIdf;
      assert queryVector == QueryVector(query, idf, prims.chars);
      similarities := [];
      for i := 0 to |documents|
        invariant |similarities| == i
        invariant forall j :: 0 <= j < i ==> similarities[j] == expected[j]
      {
        var doc := documents[i];
        var similarity := CosineSimilarity(queryVector, doc.tfIdf, prims.sqrt);
        similarities := similarities + [QueryReturn(doc.path, similarity)];
      }
    }

    /** save_embeddings: the bytes written to the cache file. */
    method SaveEmbeddings(codec: Codec) returns (bytes: seq<Byte>)
      ensures codec.RoundTrips(Snapshot()) ==> codec.decode(bytes) == Some(Snapshot())
      ensures bytes == codec.encode(Snapshot())
    {
      bytes := codec.encode(Snapshot());
    }

    /** load_embeddings: replaces the documents and the IDF map wholesale by
        those decoded from the cache file; undecodable bytes panic. */
    method LoadEmbeddings(codec: Codec, bytes: seq<Byte>) returns (ok: bool)
      modifies this
      ensures ok <==> codec.decode(bytes).Some?
      ensures !ok ==> documents == old(documents) && idf == old(idf)
      ensures ok ==> Valid() && (forall i :: 0 <= i < |documents| ==> fresh(documents[i]))
      ensures ok ==> Snapshot() == codec.decode(bytes).value
    {
      var decoded := codec.decode(bytes);
      if decoded.None? {
        return false;
      }
      var snapshot := decoded.value;
      var restored: seq<Document> := [];
      for i := 0 to |snapshot.documents|
        invariant Distinct(restored)
        invariant forall j :: 0 <= j < |restored| ==> fresh(restored[j])
        invariant DataOf(restored) == snapshot.documents[..i]
      {
        var doc := new Document.FromData(snapshot.documents[i]);
        restored := restored + [doc];
      }
      assert snapshot.documents[..|snapshot.documents|] == snapshot.documents;
      documents := restored;
      idf := snapshot.idf;
      ok := true;
    }
  }

  /** main before serving: builds the index and saves it when no cache file
      exists, and restores it from the cache file otherwise. cache is the
      cache file's contents, None when it does not exist; saved is what is
      written to it. */
  method Startup(cache: Option<seq<Byte>>, entries: seq<FileEntry>, walkOk: bool, prims: Primitives, codec: Codec)
    returns (s: Searcher, ok: bool, saved: Option<seq<Byte>>)
    ensures fresh(s) && (ok ==> s.Valid())
    ensures cache.None? ==> (ok <==> walkOk && CollectDocuments(entries, prims).Some?)
    ensures cache.None? && ok ==>
      s.Snapshot() == Build(CollectDocuments(entries, prims).value, prims.log10) &&
      saved == Some(codec.encode(s.Snapshot()))
    ensures cache.Some? ==> saved == None && (ok <==> codec.decode(cache.value).Some?)
    ensures cache.Some? && ok ==> s.Snapshot() == codec.decode(cache.value).value
  {
    s := new Searcher();
    saved := None;
    if cache.None? {
      ok := s.LoadDocuments(entries, walkOk, prims);
      if ok {
        var bytes := s.SaveEmbeddings(codec);
        saved := Some(bytes);
      }
    } else {
      ok := s.LoadEmbeddings(codec, cache.value);
    }
  }

  /** A start that finds the cache saved by an earlier start serves the
      index that the earlier start built, when the codec round-trips that
      index. */
  method Restart(entries: seq<FileEntry>, walkOk: bool, prims: Primitives, codec: Codec)
    returns (first: Searcher, second: Searcher, ok: bool)
    requires CollectDocuments(entries, prims).Some? ==>
      codec.RoundTrips(Build(CollectDocuments(entries, prims).value, prims.log10))
    ensures ok <==> walkOk && CollectDocuments(entries, prims).Some?
    ensures ok ==> fresh(second) && second.Valid() && second.Snapshot() == first.Snapshot()
    ensures ok ==> second.Snapshot() == Build(CollectDocuments(entries, prims).value, prims.log10)
  {
    var saved;
    first, ok, saved := Startup(None, entries, walkOk, prims, codec);
    if ok {
      var loaded;
      second, loaded, saved := Startup(saved, entries, walkOk, prims, codec);
      assert loaded;
    } else {
      second := first;
    }
  }
}
