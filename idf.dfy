/** The inverse document frequency of compute_idf: for every term of the
    corpus, log10 of the number of documents over the number of documents
    whose occurrence map contains the term. log10 is a parameter, of which
    only its value at 1 and its monotonicity are used. */
module InverseDocumentFrequency {

  /** log10 is strictly increasing on the positive reals and maps 1 to 0. */
  ghost predicate IsLog10(log10: real -> real) {
    && log10(1.0) == 0.0
    && forall x, y {:trigger log10(x), log10(y)} :: 0.0 < x < y ==> log10(x) < log10(y)
  }

  /** Every term that occurs in at least one of the occurrence maps. */
  function Vocabulary(occs: seq<map<string, nat>>): set<string> {
    if occs == [] then {} else Vocabulary(occs[..|occs| - 1]) + occs[|occs| - 1].Keys
  }

  /** The number of occurrence maps that contain t: presence, not count. */
  function DocFreq(occs: seq<map<string, nat>>, t: string): (df: nat)
    ensures df <= |occs|
    ensures df > 0 <==> t in Vocabulary(occs)
  {
    if occs == [] then 0
    else DocFreq(occs[..|occs| - 1], t) + (if t in occs[|occs| - 1] then 1 else 0)
  }

  /** The IDF map of the corpus. */
  function Idf(occs: seq<map<string, nat>>, log10: real -> real): map<string, real> {
    map t | t in Vocabulary(occs) :: log10(|occs| as real / DocFreq(occs, t) as real)
  }

  /** A term is in the vocabulary iff some document contains it. */
  lemma {:induction false} VocabularyMembers(occs: seq<map<string, nat>>, t: string)
    ensures t in Vocabulary(occs) <==> exists i :: 0 <= i < |occs| && t in occs[i]
    decreases |occs|
  {
    if occs != [] {
      var init := occs[..|occs| - 1];
      VocabularyMembers(init, t);
      if t in Vocabulary(occs) && t !in occs[|occs| - 1] {
        var i :| 0 <= i < |init| && t in init[i];
        assert occs[i] == init[i];
      }
      if exists i :: 0 <= i < |occs| && t in occs[i] {
        var i :| 0 <= i < |occs| && t in occs[i];
        if i < |occs| - 1 {
          assert init[i] == occs[i];
        }
      }
    }
  }

  /** A term has the highest possible document frequency iff every document
      contains it. */
  lemma {:induction false} DocFreqAll(occs: seq<map<string, nat>>, t: string)
    ensures DocFreq(occs, t) == |occs| <==> forall i :: 0 <= i < |occs| ==> t in occs[i]
    decreases |occs|
  {
    if occs != [] {
      var init := occs[..|occs| - 1];
      DocFreqAll(init, t);
      if forall i :: 0 <= i < |occs| ==> t in occs[i] {
        assert forall i :: 0 <= i < |init| ==> t in init[i] by {
          forall i | 0 <= i < |init| ensures t in init[i] {
            assert init[i] == occs[i];
          }
        }
      }
      if DocFreq(occs, t) == |occs| {
        forall i | 0 <= i < |occs| ensures t in occs[i] {
          if i < |occs| - 1 {
            assert occs[i] == init[i];
          }
        }
      }
    }
  }

  /** The terms of the IDF map are exactly those some document contains, and
      each document frequency lies between 1 and the number of documents. */
  lemma IdfDomain(occs: seq<map<string, nat>>, log10: real -> real, t: string)
    ensures t in Idf(occs, log10) <==> exists i :: 0 <= i < |occs| && t in occs[i]
    ensures t in Idf(occs, log10) ==> 1 <= DocFreq(occs, t) <= |occs|
  {
    VocabularyMembers(occs, t);
  }

  lemma RatioAtLeastOne(n: nat, df: nat)
    requires 0 < df <= n
    ensures n as real / df as real >= 1.0
  {
    var nr, dr := n as real, df as real;
    assert (nr / dr - 1.0) * dr == nr - dr;
    ProductSign(nr / dr - 1.0, dr);
  }

  lemma ProductSign(x: real, y: real)
    requires y > 0.0 && x * y >= 0.0
    ensures x >= 0.0
  {
  }

  /** No IDF weight is negative: N / df is at least 1. */
  lemma IdfNonNegative(occs: seq<map<string, nat>>, log10: real -> real)
    requires IsLog10(log10)
    ensures forall t :: t in Idf(occs, log10) ==> Idf(occs, log10)[t] >= 0.0
  {
    forall t | t in Idf(occs, log10)
      ensures Idf(occs, log10)[t] >= 0.0
    {
      var df := DocFreq(occs, t);
      RatioAtLeastOne(|occs|, df);
      var r := |occs| as real / df as real;
      if r > 1.0 {
        assert log10(1.0) < log10(r);
      }
    }
  }

  /** A term that every document contains has IDF 0; a term that some
      document lacks has positive IDF. */
  lemma IdfZeroIffUbiquitous(occs: seq<map<string, nat>>, log10: real -> real, t: string)
    requires IsLog10(log10)
    requires t in Idf(occs, log10)
    ensures Idf(occs, log10)[t] == 0.0 <==> forall i :: 0 <= i < |occs| ==> t in occs[i]
    ensures Idf(occs, log10)[t] > 0.0 <==> exists i :: 0 <= i < |occs| && t !in occs[i]
  {
    DocFreqAll(occs, t);
    LogOfRatio(log10, |occs|, DocFreq(occs, t));
  }

  /** log10(n / df) is 0 when df == n and positive when df < n. */
  lemma LogOfRatio(log10: real -> real, n: nat, df: nat)
    requires IsLog10(log10)
    requires 0 < df <= n
    ensures log10(n as real / df as real) == 0.0 <==> df == n
    ensures log10(n as real / df as real) > 0.0 <==> df < n
  {
    var r := n as real / df as real;
    RatioAtLeastOne(n, df);
    if df == n {
      assert r == 1.0;
    } else {
      assert r * df as real == n as real;
      assert r > 1.0;
      assert log10(1.0) < log10(r);
    }
  }

  /** Rarer terms weigh more: a lower document frequency gives a higher IDF. */
  lemma IdfAntitone(occs: seq<map<string, nat>>, log10: real -> real, t1: string, t2: string)
    requires IsLog10(log10)
    requires t1 in Idf(occs, log10) && t2 in Idf(occs, log10)
    requires DocFreq(occs, t1) < DocFreq(occs, t2)
    ensures Idf(occs, log10)[t1] > Idf(occs, log10)[t2]
  {
    var n := |occs| as real;
    var d1, d2 := DocFreq(occs, t1) as real, DocFreq(occs, t2) as real;
    DivideAntitone(n, d1, d2);
    assert log10(n / d2) < log10(n / d1);
  }

  lemma DivideAntitone(n: real, d1: real, d2: real)
    requires 0.0 < d1 < d2 && n > 0.0
    ensures 0.0 < n / d2 < n / d1
  {
    var q1, q2 := n / d1, n / d2;
    assert q1 * d1 == n && q2 * d2 == n;
    assert q2 > 0.0;
  }

  /** Adding one more document's occurrences extends the vocabulary by its
      terms and adds one to their document frequencies. */
  lemma AppendDocument(occs: seq<map<string, nat>>, occ: map<string, nat>, t: string)
    ensures Vocabulary(occs + [occ]) == Vocabulary(occs) + occ.Keys
    ensures DocFreq(occs + [occ], t) == DocFreq(occs, t) + (if t in occ then 1 else 0)
  {
    assert (occs + [occ])[..|occs|] == occs;
  }
}
