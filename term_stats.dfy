/** Per-document term statistics of the indexer: occurrence counts
    (count_term_occurrences), term frequencies (compute_term_frequency) and
    TF-IDF weights. */
module TermStats {
  import opened MapSums

  /** Each distinct word with its number of occurrences. */
  function Counts(words: seq<string>): map<string, nat> {
    map w | w in words :: multiset(words)[w]
  }

  /** The frequency of each distinct word: its count over the number of words. */
  function TermFrequency(words: seq<string>): map<string, real> {
    map w | w in words :: multiset(words)[w] as real / |words| as real
  }

  /** The TF-IDF weight of every term that has both a frequency and an IDF. */
  function TfIdf(tf: map<string, real>, idf: map<string, real>): map<string, real> {
    map t | t in tf && t in idf :: tf[t] * idf[t]
  }

  /** Appending a word adds one to its count and leaves the other counts. */
  lemma CountsSnoc(words: seq<string>, w: string)
    ensures Counts(words + [w]) == Counts(words)[w := GetCount(Counts(words), w) + 1]
  {
    var c := Counts(words);
    var c' := Counts(words + [w]);
    assert multiset(words + [w]) == multiset(words) + multiset{w};
    assert c'.Keys == c.Keys + {w};
  }

  /** count_term_occurrences: counts every word of the sequence. */
  method CountTermOccurrences(words: seq<string>) returns (occurrences: map<string, nat>)
    ensures occurrences == Counts(words)
  {
    occurrences := map[];
    for i := 0 to |words|
      invariant occurrences == Counts(words[..i])
    {
      var w := words[i];
      CountsSnoc(words[..i], w);
      assert words[..i + 1] == words[..i] + [w];
      occurrences := occurrences[w := GetCount(occurrences, w) + 1];
    }
    assert words[..|words|] == words;
  }

  /** compute_term_frequency: divides every count by the number of words of the
      document. A non-empty count map comes with a positive word amount. */
  method ComputeTermFrequency(occurrences: map<string, nat>, wordAmount: nat) returns (tf: map<string, real>)
    requires occurrences != map[] ==> wordAmount > 0
    ensures tf.Keys == occurrences.Keys
    ensures forall t :: t in tf ==> tf[t] == occurrences[t] as real / wordAmount as real
  {
    tf := map[];
    var todo := occurrences.Keys;
    while todo != {}
      invariant todo <= occurrences.Keys
      invariant tf.Keys == occurrences.Keys - todo
      invariant forall t :: t in tf ==> tf[t] == occurrences[t] as real / wordAmount as real
      decreases |todo|
    {
      var t :| t in todo;
      tf := tf[t := occurrences[t] as real / wordAmount as real];
      todo := todo - {t};
    }
  }

  /** The counts of a document add up to its number of words. */
  lemma {:induction false} CountsSumToLength(words: seq<string>)
    ensures CountsOn(Counts(words), Counts(words).Keys) == |words|
    decreases |words|
  {
    if words != [] {
      var init := words[..|words| - 1];
      var w := words[|words| - 1];
      assert words == init + [w];
      CountsSumToLength(init);
      var c := Counts(init);
      CountsSnoc(init, w);
      assert Counts(words).Keys == c.Keys + {w};
      CountsOnIncrement(c, w);
    }
  }

  /** Adding one to the count of w adds one to the sum of the counts. */
  lemma CountsOnIncrement(c: map<string, nat>, w: string)
    ensures CountsOn(c[w := GetCount(c, w) + 1], c.Keys + {w}) == CountsOn(c, c.Keys) + 1
  {
    var c' := c[w := GetCount(c, w) + 1];
    var ks := c.Keys + {w};
    CountsOnRemove(c', ks, w);
    CountsOnAgree(c', c, ks - {w});
    if w in c {
      CountsOnRemove(c, c.Keys, w);
      assert ks == c.Keys;
    } else {
      assert ks - {w} == c.Keys;
    }
  }

  /** Dividing every count by n divides their sum by n. */
  lemma {:induction false} ScaledSum(m: map<string, nat>, tf: map<string, real>, n: real, ks: set<string>)
    requires n > 0.0
    requires forall k :: k in ks ==> Get(tf, k) == GetCount(m, k) as real / n
    ensures ValuesOn(tf, ks) == CountsOn(m, ks) as real / n
    decreases |ks|
  {
    if ks != {} {
      var k := PickFrom(ks);
      ScaledSum(m, tf, n, ks - {k});
      DivideSum(GetCount(m, k) as real, CountsOn(m, ks - {k}) as real, n);
    }
  }

  lemma DivideSum(a: real, b: real, n: real)
    requires n > 0.0
    ensures a / n + b / n == (a + b) / n
  {
    calc {
      (a / n + b / n) * n;
      (a / n) * n + (b / n) * n;
      a + b;
    }
  }

  /** The term frequencies of a non-empty document add up to 1. */
  lemma TermFrequenciesSumToOne(words: seq<string>)
    requires words != []
    ensures ValuesOn(TermFrequency(words), TermFrequency(words).Keys) == 1.0
  {
    TermFrequencyScalesCounts(words);
    CountsSumToLength(words);
    ScaledSumIsOne(Counts(words), TermFrequency(words), |words|);
  }

  lemma ScaledSumIsOne(m: map<string, nat>, tf: map<string, real>, n: nat)
    requires n > 0 && CountsOn(m, m.Keys) == n && tf.Keys == m.Keys
    requires forall k :: k in m.Keys ==> Get(tf, k) == GetCount(m, k) as real / n as real
    ensures ValuesOn(tf, tf.Keys) == 1.0
  {
    var total := n as real;
    ScaledSum(m, tf, total, m.Keys);
    assert ValuesOn(tf, tf.Keys) == total / total;
    DivideSelf(total);
  }

  lemma DivideSelf(x: real)
    requires x > 0.0
    ensures x / x == 1.0
  {
  }

  lemma TermFrequencyScalesCounts(words: seq<string>)
    requires words != []
    ensures TermFrequency(words).Keys == Counts(words).Keys
    ensures forall k :: k in Counts(words).Keys ==>
      Get(TermFrequency(words), k) == GetCount(Counts(words), k) as real / |words| as real
  {
  }

  /** An empty document has no term frequencies, and every word of a
      non-empty one has frequency count / length. */
  lemma TermFrequencyOfCounts(words: seq<string>)
    ensures words == [] ==> TermFrequency(words) == map[]
    ensures TermFrequency(words).Keys == Counts(words).Keys
    ensures forall t :: t in words ==> TermFrequency(words)[t] == Counts(words)[t] as real / |words| as real
  {
  }
}
