/** The tokenizer on sample fragments: punctuation is dropped and letters
    are lower-cased, a formula stays one term, a run of math symbols alone
    yields nothing. Only the ASCII behaviour of the character methods is used. */
module TokenizerExamples {
  import opened Tokenizer

  /** The ASCII facts about one character that the examples need. */
  lemma Ascii(cs: CharSemantics, c: char)
    requires cs.Valid() && c as int < 128
    ensures cs.isWhitespace(c) <==> AsciiWhitespace(c)
    ensures cs.isAlphanumeric(c) <==> AsciiAlphanumeric(c)
    ensures cs.toLowercase(c) == [AsciiLower(c)]
  {
  }

  /** The fragment "Hello," becomes the term "hello": the comma is dropped and
      the capital lower-cased. */
  lemma HelloTerm(cs: CharSemantics)
    requires cs.Valid()
    ensures Normalize(cs, "Hello,") == "hello"
    ensures IsTerm(cs, "hello")
  {
    Ascii(cs, 'H'); Ascii(cs, 'e'); Ascii(cs, 'l'); Ascii(cs, 'o'); Ascii(cs, ',');
    assert KeptChars(cs, "Hello,") == "Hello";
    assert LowerAll(cs, "Hello") == "hello";
    assert HasAlphanumeric(cs, "hello");
  }

  /** tokenize("3+4=7") is the one term "3+4=7": the formula keeps all its
      characters. */
  lemma Formula(cs: CharSemantics)
    requires cs.Valid()
    ensures CollectWords(cs, "3+4=7") == ["3+4=7"]
  {
    Ascii(cs, '3'); Ascii(cs, '4'); Ascii(cs, '7');
    MathSymbolFacts(cs, '+'); MathSymbolFacts(cs, '=');
    assert HasAlphanumeric(cs, "3+4=7");
    SingleTerm(cs, "3+4=7");
  }

  /** tokenize("----") is empty: a fragment of math symbols alone is dropped. */
  lemma OnlySymbols(cs: CharSemantics)
    requires cs.Valid()
    ensures CollectWords(cs, "----") == []
  {
    SymbolsOnly(cs, "----");
  }
}
