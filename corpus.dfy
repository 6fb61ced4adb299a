/** The indexer's corpus as a value: how load_documents turns the walked
    files into documents and an IDF map, what search_documents answers for a
    query, and the byte codec of the embedding cache. The Searcher class is
    proved against these definitions. */
module Corpus {
  import opened Wrappers
  import opened Strings
  import opened Tokenizer
  import opened MapSums
  import opened TermStats
  import opened InverseDocumentFrequency
  import opened Similarity
  import opened Documents

  /** The library functions the indexer calls: Rust's char methods, the
      markdown parser followed by get_text_from_markdown_tree, f32::log10 and
      f32::sqrt. */
  datatype Primitives = Primitives(
    chars: CharSemantics,
    markdownText: string -> string,
    log10: real -> real,
    sqrt: real -> real)
  {
    ghost predicate Valid() {
      chars.Valid() && IsLog10(log10) && IsSqrt(sqrt)
    }
  }

  /** A file met by visit_dirs: its path, whether it is a regular file, its
      extension (None when the name has none) and its text (None when reading
      it fails). */
  datatype FileEntry = FileEntry(
    path: string,
    isFile: bool,
    extension: Option<string>,
    contents: Option<string>)

  /** What collect_text_from_markdown_file gives for one file: its text, an
      error that load_documents prints and skips, or a panic of the unwrap on
      a missing extension. */
  datatype Collected = Contents(text: string) | Skipped | Panic

  function CollectText(e: FileEntry): (r: Collected)
    ensures r.Panic? <==> e.isFile && e.extension.None?
    ensures r.Contents? <==> e.isFile && e.extension == Some("md") && e.contents.Some?
    ensures r.Contents? ==> r.text == ReplaceAll(e.contents.value, "<br>", " ")
  {
    if !e.isFile then Skipped
    else if e.extension.None? then Panic
    else if e.extension.value != "md" then Skipped
    else if e.contents.None? then Skipped
    else Contents(ReplaceAll(e.contents.value, "<br>", " "))
  }

  /** The documents of the first phase of load_documents, in walk order: one
      per markdown file, with its words and empty statistics. None when the
      walk panics. */
  function CollectDocuments(entries: seq<FileEntry>, prims: Primitives): (r: Option<seq<DocumentData>>)
    ensures r.Some? ==> |r.value| <= |entries|
  {
    if entries == [] then Some([])
    else
      var e := entries[|entries| - 1];
      match CollectDocuments(entries[..|entries| - 1], prims)
      case None => None
      case Some(docs) =>
        match CollectText(e)
        case Panic => None
        case Skipped => Some(docs)
        case Contents(text) => Some(docs + [Fresh(e.path, CollectWords(prims.chars, prims.markdownText(text)))])
  }

  /** The occurrence maps of the documents, in order. */
  function Occurrences(docs: seq<DocumentData>): (r: seq<map<string, nat>>)
    ensures |r| == |docs|
    ensures forall i :: 0 <= i < |docs| ==> r[i] == docs[i].wordOccurrences
  {
    seq(|docs|, i requires 0 <= i < |docs| => docs[i].wordOccurrences)
  }

  /** Every document after its counts and term frequencies are computed. */
  function CountAll(docs: seq<DocumentData>): (r: seq<DocumentData>)
    ensures |r| == |docs|
    ensures forall i :: 0 <= i < |docs| ==> r[i] == Counted(docs[i])
  {
    seq(|docs|, i requires 0 <= i < |docs| => Counted(docs[i]))
  }

  /** Every document after its TF-IDF weights are computed against idf. */
  function WeightAll(docs: seq<DocumentData>, idf: map<string, real>): (r: seq<DocumentData>)
    ensures |r| == |docs|
    ensures forall i :: 0 <= i < |docs| ==> r[i] == Weighted(docs[i], idf)
  {
    seq(|docs|, i requires 0 <= i < |docs| => Weighted(docs[i], idf))
  }

  /** What a Searcher holds, and what the embedding cache stores. */
  datatype Snapshot = Snapshot(documents: seq<DocumentData>, idf: map<string, real>)

  /** The index that load_documents builds from the collected documents:
      counts and TF for every document, then one IDF map over the counted
      documents, then every document's TF-IDF against it. */
  function Build(collected: seq<DocumentData>, log10: real -> real): (s: Snapshot)
    ensures |s.documents| == |collected|
    ensures s.idf == Idf(Occurrences(CountAll(collected)), log10)
  {
    var counted := CountAll(collected);
    var idf := Idf(Occurrences(counted), log10);
    Snapshot(WeightAll(counted, idf), idf)
  }

  /** One search hit. */
  datatype QueryReturn = QueryReturn(documentPath: string, similarity: real)

  /** The TF-IDF vector of a query: its terms weighted against the corpus'
      IDF, terms unknown to the corpus left out. */
  function QueryVector(query: string, idf: map<string, real>, cs: CharSemantics): map<string, real> {
    TfIdf(TermFrequency(CollectWords(cs, query)), idf)
  }

  /** The answer of search_documents: one hit per document, in corpus order,
      with the document's path and its similarity to the query. */
  ghost function Search(s: Snapshot, query: string, prims: Primitives): (r: seq<QueryReturn>)
    requires IsSqrt(prims.sqrt)
    ensures |r| == |s.documents|
    ensures forall i :: 0 <= i < |r| ==> r[i].documentPath == s.documents[i].path
  {
    var q := QueryVector(query, s.idf, prims.chars);
    seq(|s.documents|, i requires 0 <= i < |s.documents| =>
      QueryReturn(s.documents[i].path, Cosine(q, s.documents[i].tfIdf, prims.sqrt)))
  }

  newtype Byte = b: int | 0 <= b < 256

  /** postcard's to_stdvec and from_bytes for a Searcher. */
  datatype Codec = Codec(encode: Snapshot -> seq<Byte>, decode: seq<Byte> -> Option<Snapshot>)
  {
    /** Decoding what was encoded gives back the same Searcher. A snapshot
        holds reals, so no byte codec can do this for every snapshot; the
        property is stated for one snapshot at a time. */
    ghost predicate RoundTrips(s: Snapshot) {
      decode(encode(s)) == Some(s)
    }
  }

  /** The walk panics iff one of the entries is a file without an extension. */
  lemma {:induction false} CollectPanics(entries: seq<FileEntry>, prims: Primitives)
    ensures CollectDocuments(entries, prims).None? <==>
      exists i :: 0 <= i < |entries| && CollectText(entries[i]).Panic?
    decreases |entries|
  {
    if entries != [] {
      var init := entries[..|entries| - 1];
      CollectPanics(init, prims);
      if exists i :: 0 <= i < |init| && CollectText(init[i]).Panic? {
        var i :| 0 <= i < |init| && CollectText(init[i]).Panic?;
        assert entries[i] == init[i];
      }
      if exists i :: 0 <= i < |entries| && CollectText(entries[i]).Panic? {
        var i :| 0 <= i < |entries| && CollectText(entries[i]).Panic?;
        if i < |init| {
          assert init[i] == entries[i];
        }
      }
    }
  }

  /** Every collected document comes from a markdown file of the walk, holds
      the tokenizer's terms of that file's text, and has no statistics yet. */
  lemma {:induction false} CollectedDocuments(entries: seq<FileEntry>, prims: Primitives)
    requires CollectDocuments(entries, prims).Some?
    ensures forall j :: 0 <= j < |CollectDocuments(entries, prims).value| ==>
      CollectedFrom(entries, prims, CollectDocuments(entries, prims).value[j])
    decreases |entries|
  {
    if entries != [] {
      var init := entries[..|entries| - 1];
      var e := entries[|entries| - 1];
      CollectedDocuments(init, prims);
      var docs := CollectDocuments(init, prims).value;
      forall j | 0 <= j < |docs|
        ensures CollectedFrom(entries, prims, docs[j])
      {
        CollectedFromPrefix(init, entries, prims, docs[j]);
      }
      if CollectText(e).Contents? {
        var d := Fresh(e.path, CollectWords(prims.chars, prims.markdownText(CollectText(e).text)));
        assert MadeFrom(entries, prims, d, |entries| - 1);
        assert CollectDocuments(entries, prims).value == docs + [d];
      }
    }
  }

  /** d is the document collected from the i-th entry. */
  predicate MadeFrom(entries: seq<FileEntry>, prims: Primitives, d: DocumentData, i: int) {
    && 0 <= i < |entries|
    && entries[i].path == d.path
    && CollectText(entries[i]).Contents?
    && d.words == CollectWords(prims.chars, prims.markdownText(CollectText(entries[i]).text))
  }

  /** d is a fresh document collected from some markdown file of the walk. */
  predicate CollectedFrom(entries: seq<FileEntry>, prims: Primitives, d: DocumentData) {
    d == Fresh(d.path, d.words) && exists i :: 0 <= i < |entries| && MadeFrom(entries, prims, d, i)
  }

  lemma CollectedFromPrefix(init: seq<FileEntry>, entries: seq<FileEntry>, prims: Primitives, d: DocumentData)
    requires init <= entries
    requires CollectedFrom(init, prims, d)
    ensures CollectedFrom(entries, prims, d)
  {
    var i :| 0 <= i < |init| && MadeFrom(init, prims, d, i);
    assert entries[i] == init[i];
    assert MadeFrom(entries, prims, d, i);
  }

  /** Every document of the index carries its counts, its term frequencies and
      its TF-IDF weights against the index' IDF, computed from its words. */
  lemma BuildDocuments(collected: seq<DocumentData>, log10: real -> real, i: nat)
    requires i < |collected|
    ensures var d := Build(collected, log10).documents[i];
      && d.path == collected[i].path && d.words == collected[i].words
      && d.wordOccurrences == Counts(d.words)
      && d.tf == TermFrequency(d.words)
      && d.tfIdf == TfIdf(d.tf, Build(collected, log10).idf)
  {
  }

  /** The IDF map of the index holds exactly the words of its documents, and
      weighs each with the number of documents holding it. */
  lemma BuildVocabulary(collected: seq<DocumentData>, log10: real -> real, t: string)
    ensures var s := Build(collected, log10);
      t in s.idf <==> exists i :: 0 <= i < |collected| && t in collected[i].words
    ensures var s := Build(collected, log10);
      var df := DocFreq(Occurrences(s.documents), t);
      t in s.idf ==> 1 <= df <= |collected| && s.idf[t] == log10(|collected| as real / df as real)
  {
    var s := Build(collected, log10);
    var occs := Occurrences(CountAll(collected));
    IdfDomain(occs, log10, t);
    assert Occurrences(s.documents) == occs;
    if exists i :: 0 <= i < |collected| && t in collected[i].words {
      var i :| 0 <= i < |collected| && t in collected[i].words;
      assert t in occs[i];
    }
  }

  /** A word in every document of the index weighs 0, a word that some
      document lacks weighs more than 0. */
  lemma BuildUbiquitousWords(collected: seq<DocumentData>, log10: real -> real, t: string)
    requires IsLog10(log10)
    requires t in Build(collected, log10).idf
    ensures Build(collected, log10).idf[t] == 0.0 <==> forall i :: 0 <= i < |collected| ==> t in collected[i].words
    ensures Build(collected, log10).idf[t] > 0.0 <==> exists i :: 0 <= i < |collected| && t !in collected[i].words
  {
    var occs := Occurrences(CountAll(collected));
    IdfZeroIffUbiquitous(occs, log10, t);
    assert forall i :: 0 <= i < |collected| ==> (t in occs[i] <==> t in collected[i].words);
  }

  /** Term frequencies are never negative. */
  lemma TermFrequencyNonNegative(words: seq<string>)
    ensures forall t :: t in TermFrequency(words) ==> TermFrequency(words)[t] >= 0.0
  {
    forall t | t in TermFrequency(words)
      ensures TermFrequency(words)[t] >= 0.0
    {
      QuotientNonNegative(multiset(words)[t] as real, |words| as real);
    }
  }

  lemma QuotientNonNegative(a: real, b: real)
    requires a >= 0.0 && b > 0.0
    ensures a / b >= 0.0
  {
  }

  /** Weights of non-negative frequencies against a non-negative IDF are
      non-negative. */
  lemma TfIdfNonNegative(tf: map<string, real>, idf: map<string, real>)
    requires forall t :: t in tf ==> tf[t] >= 0.0
    requires forall t :: t in idf ==> idf[t] >= 0.0
    ensures forall t :: t in TfIdf(tf, idf) ==> TfIdf(tf, idf)[t] >= 0.0
  {
    forall t | t in TfIdf(tf, idf)
      ensures TfIdf(tf, idf)[t] >= 0.0
    {
      MulNonNegative(tf[t], idf[t]);
    }
  }

  /** With a strictly increasing log10, no weight of the index is negative:
      neither an IDF nor a document's TF-IDF. */
  lemma BuildWeightsNonNegative(collected: seq<DocumentData>, log10: real -> real)
    requires IsLog10(log10)
    ensures forall t :: t in Build(collected, log10).idf ==> Build(collected, log10).idf[t] >= 0.0
    ensures forall i, t :: 0 <= i < |collected| && t in Build(collected, log10).documents[i].tfIdf ==>
      Build(collected, log10).documents[i].tfIdf[t] >= 0.0
  {
    var s := Build(collected, log10);
    IdfNonNegative(Occurrences(CountAll(collected)), log10);
    forall i | 0 <= i < |collected|
      ensures forall t :: t in s.documents[i].tfIdf ==> s.documents[i].tfIdf[t] >= 0.0
    {
      TermFrequencyNonNegative(collected[i].words);
      TfIdfNonNegative(TermFrequency(collected[i].words), s.idf);
    }
  }

  /** Every similarity that a search of the index reports lies in [0, 1]. */
  lemma SearchScoresBounded(collected: seq<DocumentData>, query: string, prims: Primitives)
    requires prims.Valid()
    ensures var r := Search(Build(collected, prims.log10), query, prims);
      forall i :: 0 <= i < |r| ==> 0.0 <= r[i].similarity <= 1.0
  {
    var s := Build(collected, prims.log10);
    var q := QueryVector(query, s.idf, prims.chars);
    BuildWeightsNonNegative(collected, prims.log10);
    TermFrequencyNonNegative(CollectWords(prims.chars, query));
    TfIdfNonNegative(TermFrequency(CollectWords(prims.chars, query)), s.idf);
    forall i | 0 <= i < |s.documents|
      ensures 0.0 <= Search(s, query, prims)[i].similarity <= 1.0
    {
      SimilarityBounds(q, s.documents[i].tfIdf, prims.sqrt);
    }
  }

  /** A query none of whose terms the corpus knows, an empty query among
      them, scores 0 against every document. */
  lemma UnknownQueryScoresZero(s: Snapshot, query: string, prims: Primitives)
    requires IsSqrt(prims.sqrt)
    requires forall k :: 0 <= k < |CollectWords(prims.chars, query)| ==> CollectWords(prims.chars, query)[k] !in s.idf
    ensures forall i :: 0 <= i < |s.documents| ==> Search(s, query, prims)[i].similarity == 0.0
  {
    var q := QueryVector(query, s.idf, prims.chars);
    assert q.Keys == {};
    forall i | 0 <= i < |s.documents|
      ensures Search(s, query, prims)[i].similarity == 0.0
    {
      ZeroVectorSimilarity(q, s.documents[i].tfIdf, prims.sqrt);
    }
  }

  /** A query whose terms are exactly a document's words finds that document
      with similarity 1, unless all its words weigh 0. */
  lemma QueryOfOwnWords(collected: seq<DocumentData>, query: string, prims: Primitives, i: nat)
    requires IsSqrt(prims.sqrt)
    requires i < |collected|
    requires CollectWords(prims.chars, query) == collected[i].words
    requires SumSquares(Build(collected, prims.log10).documents[i].tfIdf) != 0.0
    ensures Search(Build(collected, prims.log10), query, prims)[i].similarity == 1.0
  {
    var s := Build(collected, prims.log10);
    assert QueryVector(query, s.idf, prims.chars) == s.documents[i].tfIdf;
    SelfSimilarity(s.documents[i].tfIdf, prims.sqrt);
  }
}
