/** The tokenizer of the TF-IDF indexer (collect_words_in_document): split the
    text on whitespace, keep the alphanumeric characters and the math symbols
    of every fragment, lower-case them, and drop fragments that end up empty or
    without any alphanumeric character. */
module Tokenizer {

  /** The character methods of Rust that the tokenizer calls:
      char::is_whitespace, char::is_alphanumeric and char::to_lowercase (which
      may yield several characters). They are parameters of the model. */
  datatype CharSemantics = CharSemantics(
    isWhitespace: char -> bool,
    isAlphanumeric: char -> bool,
    toLowercase: char -> string)
  {
    /** On ASCII the three methods behave as in Rust; beyond ASCII they are left
        open. */
    ghost predicate Valid() {
      && (forall c: char {:trigger isAlphanumeric(c)} :: c as int < 128 ==> (isAlphanumeric(c) <==> AsciiAlphanumeric(c)))
      && (forall c: char {:trigger toLowercase(c)} :: c as int < 128 ==> toLowercase(c) == [AsciiLower(c)])
      && (forall c: char {:trigger isWhitespace(c)} :: c as int < 128 ==> (isWhitespace(c) <==> AsciiWhitespace(c)))
    }
  }

  predicate AsciiAlphanumeric(c: char) {
    'a' <= c <= 'z' || 'A' <= c <= 'Z' || '0' <= c <= '9'
  }

  function AsciiLower(c: char): char {
    if 'A' <= c <= 'Z' then (c as int + 32) as char else c
  }

  predicate AsciiWhitespace(c: char) {
    c == ' ' || c == '\t' || c == '\n' || c == '\r' || c as int == 11 || c as int == 12
  }

  /** The math symbols a term may keep besides alphanumerics. */
  const MathSymbols: string := "+-*/=<>"

  /** A character survives the per-fragment filter. */
  predicate Keep(cs: CharSemantics, c: char) {
    cs.isAlphanumeric(c) || c in MathSymbols
  }

  /** Number of leading non-whitespace characters of s. */
  function RunLength(cs: CharSemantics, s: string): (n: nat)
    ensures n <= |s|
    ensures forall i :: 0 <= i < n ==> !cs.isWhitespace(s[i])
    ensures n < |s| ==> cs.isWhitespace(s[n])
    decreases |s|
  {
    if s == [] || cs.isWhitespace(s[0]) then 0 else 1 + RunLength(cs, s[1..])
  }

  /** str::split_whitespace: the maximal runs of non-whitespace characters, in
      order. */
  function SplitWhitespace(cs: CharSemantics, s: string): (frags: seq<string>)
    ensures forall i :: 0 <= i < |frags| ==> |frags[i]| > 0
    ensures forall i, j :: 0 <= i < |frags| && 0 <= j < |frags[i]| ==> !cs.isWhitespace(frags[i][j])
    decreases |s|
  {
    if s == [] then []
    else if cs.isWhitespace(s[0]) then SplitWhitespace(cs, s[1..])
    else
      var n := RunLength(cs, s);
      [s[..n]] + SplitWhitespace(cs, s[n..])
  }

  /** The characters of s that are not whitespace, in order. */
  function NonWhitespace(cs: CharSemantics, s: string): string
    decreases |s|
  {
    if s == [] then []
    else (if cs.isWhitespace(s[0]) then [] else [s[0]]) + NonWhitespace(cs, s[1..])
  }

  function Concat(ss: seq<string>): string {
    if ss == [] then [] else ss[0] + Concat(ss[1..])
  }

  lemma {:induction false} NonWhitespaceOfRun(cs: CharSemantics, s: string, n: nat)
    requires n <= |s|
    requires forall i :: 0 <= i < n ==> !cs.isWhitespace(s[i])
    ensures NonWhitespace(cs, s) == s[..n] + NonWhitespace(cs, s[n..])
    decreases n
  {
    if n > 0 {
      NonWhitespaceOfRun(cs, s[1..], n - 1);
      assert s[1..][n - 1..] == s[n..];
      assert [s[0]] + s[1..][..n - 1] == s[..n];
    }
  }

  /** Splitting loses no character except whitespace: joining the fragments
      gives back the text without its whitespace. */
  lemma {:induction false} SplitWhitespaceKeepsText(cs: CharSemantics, s: string)
    ensures Concat(SplitWhitespace(cs, s)) == NonWhitespace(cs, s)
    decreases |s|
  {
    if s == [] {
    } else if cs.isWhitespace(s[0]) {
      SplitWhitespaceKeepsText(cs, s[1..]);
    } else {
      var n := RunLength(cs, s);
      SplitWhitespaceKeepsText(cs, s[n..]);
      NonWhitespaceOfRun(cs, s, n);
      assert SplitWhitespace(cs, s) == [s[..n]] + SplitWhitespace(cs, s[n..]);
      assert ([s[..n]] + SplitWhitespace(cs, s[n..]))[1..] == SplitWhitespace(cs, s[n..]);
    }
  }

  /** The characters of a fragment that pass the filter, in order. */
  function KeptChars(cs: CharSemantics, f: string): (r: string)
    ensures forall i :: 0 <= i < |r| ==> Keep(cs, r[i])
    ensures |r| <= |f|
    decreases |f|
  {
    if f == [] then []
    else (if Keep(cs, f[0]) then [f[0]] else []) + KeptChars(cs, f[1..])
  }

  /** flat_map(to_lowercase) over a string. */
  function LowerAll(cs: CharSemantics, s: string): string
    decreases |s|
  {
    if s == [] then [] else cs.toLowercase(s[0]) + LowerAll(cs, s[1..])
  }

  /** The per-fragment normalisation: filter, then lower-case. */
  function Normalize(cs: CharSemantics, f: string): string {
    LowerAll(cs, KeptChars(cs, f))
  }

  /** s.chars().any(is_alphanumeric). */
  predicate HasAlphanumeric(cs: CharSemantics, s: string)
    decreases |s|
  {
    s != [] && (cs.isAlphanumeric(s[0]) || HasAlphanumeric(cs, s[1..]))
  }

  /** What the final filter lets through: a non-empty term with an
      alphanumeric character. */
  predicate IsTerm(cs: CharSemantics, t: string) {
    t != [] && HasAlphanumeric(cs, t)
  }

  /** The normalised form of every fragment, in order. */
  function NormalizeAll(cs: CharSemantics, frags: seq<string>): (r: seq<string>)
    ensures |r| == |frags|
    ensures forall k :: 0 <= k < |frags| ==> r[k] == Normalize(cs, frags[k])
  {
    if frags == [] then [] else [Normalize(cs, frags[0])] + NormalizeAll(cs, frags[1..])
  }

  /** The fragments that survive both filters, normalised, in order. */
  function SelectTerms(cs: CharSemantics, frags: seq<string>): (r: seq<string>)
    ensures |r| <= |frags|
    ensures forall i :: 0 <= i < |r| ==> IsTerm(cs, r[i])
  {
    if frags == [] then []
    else
      var t := Normalize(cs, frags[0]);
      (if frags[0] != [] && IsTerm(cs, t) then [t] else []) + SelectTerms(cs, frags[1..])
  }

  /** collect_words_in_document. */
  function CollectWords(cs: CharSemantics, text: string): (r: seq<string>)
    ensures forall i :: 0 <= i < |r| ==> IsTerm(cs, r[i])
    ensures |r| <= |SplitWhitespace(cs, text)|
    ensures text == [] ==> r == []
  {
    SelectTerms(cs, SplitWhitespace(cs, text))
  }

  /** a keeps the order of b and drops some of its elements. */
  predicate SubsequenceOf<T(==)>(a: seq<T>, b: seq<T>)
    decreases |b|
  {
    if a == [] then true
    else if b == [] then false
    else (a[0] == b[0] && SubsequenceOf(a[1..], b[1..])) || SubsequenceOf(a, b[1..])
  }

  lemma {:induction false} SubsequenceOfSelf<T>(a: seq<T>)
    ensures SubsequenceOf(a, a)
    decreases |a|
  {
    if a != [] { SubsequenceOfSelf(a[1..]); }
  }

  /** The terms are the normalised fragments in their original order, with the
      dropped fragments left out. */
  lemma {:induction false} SelectTermsKeepsOrder(cs: CharSemantics, frags: seq<string>)
    ensures SubsequenceOf(SelectTerms(cs, frags), NormalizeAll(cs, frags))
    decreases |frags|
  {
    if frags != [] {
      SelectTermsKeepsOrder(cs, frags[1..]);
      var t := Normalize(cs, frags[0]);
      var rest := SelectTerms(cs, frags[1..]);
      if frags[0] != [] && IsTerm(cs, t) {
        assert SelectTerms(cs, frags) == [t] + rest;
        assert ([t] + rest)[1..] == rest;
      } else {
        assert SelectTerms(cs, frags) == rest;
        if rest != [] {
          assert NormalizeAll(cs, frags)[1..] == NormalizeAll(cs, frags[1..]);
        }
      }
    }
  }

  /** An element of a subsequence is an element of the sequence. */
  lemma {:induction false} SubsequenceMember<T>(a: seq<T>, b: seq<T>, x: T)
    requires SubsequenceOf(a, b) && x in a
    ensures x in b
    decreases |b|
  {
    if a[0] == b[0] && SubsequenceOf(a[1..], b[1..]) {
      if x != a[0] {
        SubsequenceMember(a[1..], b[1..], x);
      }
    } else {
      SubsequenceMember(a, b[1..], x);
    }
  }

  /** Every character of a fragment is a character of the text. */
  lemma {:induction false} FragmentCharsFrom(cs: CharSemantics, s: string, k: nat, c: char)
    requires k < |SplitWhitespace(cs, s)| && c in SplitWhitespace(cs, s)[k]
    ensures c in s
    decreases |s|
  {
    if cs.isWhitespace(s[0]) {
      FragmentCharsFrom(cs, s[1..], k, c);
    } else {
      var n := RunLength(cs, s);
      assert SplitWhitespace(cs, s) == [s[..n]] + SplitWhitespace(cs, s[n..]);
      if k == 0 {
        assert c in s[..n];
      } else {
        assert SplitWhitespace(cs, s)[k] == SplitWhitespace(cs, s[n..])[k - 1];
        FragmentCharsFrom(cs, s[n..], k - 1, c);
      }
    }
  }

  /** The words of a text, fully characterised: they are the normalised
      fragments of the text in order, some dropped, and every character of a
      word is the lower-case form of an alphanumeric character or math symbol
      of the text. */
  lemma CollectWordsChars(cs: CharSemantics, text: string)
    ensures SubsequenceOf(CollectWords(cs, text), NormalizeAll(cs, SplitWhitespace(cs, text)))
    ensures forall i, j :: 0 <= i < |CollectWords(cs, text)| && 0 <= j < |CollectWords(cs, text)[i]| ==>
      exists c :: Keep(cs, c) && c in text && CollectWords(cs, text)[i][j] in cs.toLowercase(c)
  {
    var frags := SplitWhitespace(cs, text);
    var words := CollectWords(cs, text);
    SelectTermsKeepsOrder(cs, frags);
    forall i, j | 0 <= i < |words| && 0 <= j < |words[i]|
      ensures exists c :: Keep(cs, c) && c in text && words[i][j] in cs.toLowercase(c)
    {
      SubsequenceMember(words, NormalizeAll(cs, frags), words[i]);
      var k :| 0 <= k < |frags| && NormalizeAll(cs, frags)[k] == words[i];
      NormalizeOrigin(cs, frags[k], j);
      var c :| Keep(cs, c) && c in frags[k] && Normalize(cs, frags[k])[j] in cs.toLowercase(c);
      FragmentCharsFrom(cs, text, k, c);
    }
  }

  /** Every character of a lower-cased string comes from lower-casing one of
      the original characters. */
  lemma {:induction false} LowerAllOrigin(cs: CharSemantics, s: string, j: nat)
    requires j < |LowerAll(cs, s)|
    ensures exists i :: 0 <= i < |s| && LowerAll(cs, s)[j] in cs.toLowercase(s[i])
    decreases |s|
  {
    var head := cs.toLowercase(s[0]);
    if j < |head| {
      assert LowerAll(cs, s)[j] == head[j];
    } else {
      LowerAllOrigin(cs, s[1..], j - |head|);
      var i :| 0 <= i < |s[1..]| && LowerAll(cs, s[1..])[j - |head|] in cs.toLowercase(s[1..][i]);
      assert LowerAll(cs, s)[j] == LowerAll(cs, s[1..])[j - |head|];
      assert s[1..][i] == s[i + 1];
    }
  }

  /** Every character of a normalised fragment is a lower-cased alphanumeric
      character or math symbol of the fragment. */
  lemma {:induction false} NormalizeOrigin(cs: CharSemantics, f: string, j: nat)
    requires j < |Normalize(cs, f)|
    ensures exists c :: Keep(cs, c) && c in f && Normalize(cs, f)[j] in cs.toLowercase(c)
  {
    var kept := KeptChars(cs, f);
    LowerAllOrigin(cs, kept, j);
    var i :| 0 <= i < |kept| && LowerAll(cs, kept)[j] in cs.toLowercase(kept[i]);
    KeptCharsFrom(cs, f, i);
  }

  lemma {:induction false} KeptCharsFrom(cs: CharSemantics, f: string, i: nat)
    requires i < |KeptChars(cs, f)|
    ensures KeptChars(cs, f)[i] in f
    decreases |f|
  {
    if Keep(cs, f[0]) {
      if i > 0 {
        KeptCharsFrom(cs, f[1..], i - 1);
      }
    } else {
      KeptCharsFrom(cs, f[1..], i);
    }
  }

  /** A text without whitespace is one run. */
  lemma {:induction false} RunOfUnbroken(cs: CharSemantics, s: string)
    requires forall i :: 0 <= i < |s| ==> !cs.isWhitespace(s[i])
    ensures RunLength(cs, s) == |s|
    decreases |s|
  {
    if s != [] {
      RunOfUnbroken(cs, s[1..]);
    }
  }

  /** A non-empty text without whitespace is a single fragment. */
  lemma UnbrokenSplit(cs: CharSemantics, s: string)
    requires s != []
    requires forall i :: 0 <= i < |s| ==> !cs.isWhitespace(s[i])
    ensures SplitWhitespace(cs, s) == [s]
  {
    RunOfUnbroken(cs, s);
    assert s[..|s|] == s;
    assert s[|s|..] == [];
  }

  /** A run followed by whitespace ends the first fragment. */
  lemma {:induction false} RunBeforeWhitespace(cs: CharSemantics, a: string, c: char, b: string)
    requires forall i :: 0 <= i < |a| ==> !cs.isWhitespace(a[i])
    requires cs.isWhitespace(c)
    ensures RunLength(cs, a + [c] + b) == |a|
    decreases |a|
  {
    if a != [] {
      assert (a + [c] + b)[1..] == a[1..] + [c] + b;
      RunBeforeWhitespace(cs, a[1..], c, b);
    }
  }

  /** Splitting a + [c] + b, with a a non-empty run and c whitespace, gives a
      followed by the fragments of b. */
  lemma SplitAfterRun(cs: CharSemantics, a: string, c: char, b: string)
    requires a != []
    requires forall i :: 0 <= i < |a| ==> !cs.isWhitespace(a[i])
    requires cs.isWhitespace(c)
    ensures SplitWhitespace(cs, a + [c] + b) == [a] + SplitWhitespace(cs, b)
  {
    var s := a + [c] + b;
    RunBeforeWhitespace(cs, a, c, b);
    assert s[..|a|] == a;
    assert s[|a|..] == [c] + b;
    assert ([c] + b)[1..] == b;
  }

  /** A fragment whose characters all pass the filter keeps them all. */
  lemma {:induction false} KeptAll(cs: CharSemantics, f: string)
    requires forall i :: 0 <= i < |f| ==> Keep(cs, f[i])
    ensures KeptChars(cs, f) == f
    decreases |f|
  {
    if f != [] {
      KeptAll(cs, f[1..]);
    }
  }

  /** Lower-casing characters that are their own lower case changes nothing. */
  lemma {:induction false} LowerFixed(cs: CharSemantics, s: string)
    requires forall i :: 0 <= i < |s| ==> cs.toLowercase(s[i]) == [s[i]]
    ensures LowerAll(cs, s) == s
    decreases |s|
  {
    if s != [] {
      LowerFixed(cs, s[1..]);
    }
  }

  /** A string of characters none of which is alphanumeric has none. */
  lemma {:induction false} NoAlphanumeric(cs: CharSemantics, s: string)
    requires forall i :: 0 <= i < |s| ==> !cs.isAlphanumeric(s[i])
    ensures !HasAlphanumeric(cs, s)
    decreases |s|
  {
    if s != [] {
      NoAlphanumeric(cs, s[1..]);
    }
  }

  /** A text that is already one term, with no whitespace, only kept
      characters that are their own lower case, and an alphanumeric, is
      tokenized to itself. */
  lemma SingleTerm(cs: CharSemantics, t: string)
    requires t != [] && HasAlphanumeric(cs, t)
    requires forall i :: 0 <= i < |t| ==> !cs.isWhitespace(t[i]) && Keep(cs, t[i]) && cs.toLowercase(t[i]) == [t[i]]
    ensures CollectWords(cs, t) == [t]
  {
    UnbrokenSplit(cs, t);
    KeptAll(cs, t);
    LowerFixed(cs, t);
    var frags: seq<string> := [t];
    assert frags[1..] == [];
  }

  /** Math symbols are ASCII characters that are neither whitespace nor
      alphanumeric and are their own lower case. */
  lemma MathSymbolFacts(cs: CharSemantics, c: char)
    requires cs.Valid() && c in MathSymbols
    ensures !cs.isWhitespace(c) && !cs.isAlphanumeric(c) && cs.toLowercase(c) == [c] && Keep(cs, c)
  {
    assert c == '+' || c == '-' || c == '*' || c == '/' || c == '=' || c == '<' || c == '>';
    assert c as int < 128;
  }

  /** A fragment made of math symbols alone, such as "--------", yields no
      term. */
  lemma SymbolsOnly(cs: CharSemantics, f: string)
    requires cs.Valid() && f != []
    requires forall i :: 0 <= i < |f| ==> f[i] in MathSymbols
    ensures CollectWords(cs, f) == []
  {
    forall i | 0 <= i < |f|
      ensures !cs.isWhitespace(f[i]) && !cs.isAlphanumeric(f[i]) && cs.toLowercase(f[i]) == [f[i]] && Keep(cs, f[i])
    {
      MathSymbolFacts(cs, f[i]);
    }
    UnbrokenSplit(cs, f);
    KeptAll(cs, f);
    LowerFixed(cs, f);
    NoAlphanumeric(cs, f);
    var frags: seq<string> := [f];
    assert frags[1..] == [];
  }
}
