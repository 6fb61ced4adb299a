/** The indexer's Document: a file's path and words, with the occurrence
    counts, term frequencies and TF-IDF weights computed from them in place. */
module Documents {
  import opened MapSums
  import opened TermStats

  /** The value of a Document: what the cache stores for it. */
  datatype DocumentData = DocumentData(
    path: string,
    words: seq<string>,
    wordOccurrences: map<string, nat>,
    tf: map<string, real>,
    tfIdf: map<string, real>)

  /** A freshly collected document: words, and no statistics yet. */
  function Fresh(path: string, words: seq<string>): DocumentData {
    DocumentData(path, words, map[], map[], map[])
  }

  /** A document after count_word_occurrences and compute_tf. */
  function Counted(d: DocumentData): (r: DocumentData)
    ensures r.path == d.path && r.words == d.words && r.tfIdf == d.tfIdf
  {
    d.(wordOccurrences := Counts(d.words), tf := TermFrequency(d.words))
  }

  /** A document after compute_tf_idf against idf. */
  function Weighted(d: DocumentData, idf: map<string, real>): (r: DocumentData)
    ensures r.path == d.path && r.words == d.words
    ensures r.wordOccurrences == d.wordOccurrences && r.tf == d.tf
  {
    d.(tfIdf := TfIdf(d.tf, idf))
  }

  class Document {
    var path: string
    var words: seq<string>
    var wordOccurrences: map<string, nat>
    var tf: map<string, real>
    var tfIdf: map<string, real>

    /** The document as a value. */
    function Data(): DocumentData
      reads this
    {
      DocumentData(path, words, wordOccurrences, tf, tfIdf)
    }

    /** A new document with its words and empty maps. */
    constructor (path: string, words: seq<string>)
      ensures Data() == Fresh(path, words)
    {
      this.path := path;
      this.words := words;
      wordOccurrences := map[];
      tf := map[];
      tfIdf := map[];
    }

    /** A document restored from its stored value. */
    constructor FromData(d: DocumentData)
      ensures Data() == d
    {
      path := d.path;
      words := d.words;
      wordOccurrences := d.wordOccurrences;
      tf := d.tf;
      tfIdf := d.tfIdf;
    }

    /** count_word_occurrences: replaces the counts with those of the words. */
    method CountWordOccurrences()
      modifies this
      ensures Data() == old(Data()).(wordOccurrences := Counts(words))
    {
      wordOccurrences := CountTermOccurrences(words);
    }

    /** compute_tf: replaces the term frequencies with those of the words. */
    method ComputeTf()
      modifies this
      ensures Data() == old(Data()).(tf := TermFrequency(words))
    {
      var termOccurrences := CountTermOccurrences(words);
      var wordAmount := |words|;
      tf := ComputeTermFrequency(termOccurrences, wordAmount);
      assert tf == TermFrequency(words);
    }

    /** compute_tf_idf: replaces the weights with tf * idf for every term that
        has both. */
    method ComputeTfIdf(idf: map<string, real>)
      modifies this
      ensures Data() == old(Data()).(tfIdf := TfIdf(tf, idf))
    {
      var frequencies := tf;
      var weights: map<string, real> := map[];
      var todo := frequencies.Keys;
      while todo != {}
        invariant todo <= frequencies.Keys
        invariant weights.Keys == (frequencies.Keys - todo) * idf.Keys
        invariant forall t :: t in weights ==> weights[t] == TfIdf(frequencies, idf)[t]
        decreases |todo|
      {
        var term :| term in todo;
        if term in idf {
          weights := weights[term := frequencies[term] * idf[term]];
        }
        todo := todo - {term};
      }
      assert weights.Keys == TfIdf(frequencies, idf).Keys;
      tfIdf := weights;
    }
  }

  /** Counting then computing the frequencies of a fresh document gives its
      counted value. */
  lemma CountedFresh(path: string, words: seq<string>)
    ensures Counted(Fresh(path, words)).wordOccurrences == Counts(words)
    ensures Counted(Fresh(path, words)).tf == TermFrequency(words)
    ensures Counted(Fresh(path, words)).tfIdf == map[]
  {
  }

  /** compute_tf_idf keeps exactly the terms with both a frequency and an IDF,
      each weighted tf * idf; terms without an IDF are left out. */
  lemma TfIdfTerms(tf: map<string, real>, idf: map<string, real>)
    ensures TfIdf(tf, idf).Keys == tf.Keys * idf.Keys
    ensures forall t :: t in TfIdf(tf, idf) ==> TfIdf(tf, idf)[t] == tf[t] * idf[t]
    ensures forall t :: t in tf && t !in idf ==> t !in TfIdf(tf, idf)
  {
  }
}
