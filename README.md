# Exam-Searcher core in Dafny

Exam-Searcher is a search service over a corpus of German final-exam
materials (exams, answer sheets and other documents, converted to markdown).
This project models its core in two parts.

**The indexer** (`backend/indexer/src/main.rs`):
- It tokenizes every markdown document into normalised terms.
- For each `Document` it computes term counts, term frequency (TF) and TF-IDF weights.
- The `Searcher` computes the corpus-wide inverse document frequency (IDF) table.
- The index is saved to a cache and loaded back from it.
- A query is scored against every document by cosine similarity.

**The Go extractor tools**:
- `extractor/mapper/main.go` and `backend/extractor/mapper/main.go` ask a language
  model how the exam files of each subject directory pair up. They re-ask until a
  proposal passes their check against the name-keyed file map built by
  `getExamFiles`.
- `extractor/restart/main.go` does three things:
  1. It scans each file for its header and has it parsed.
  2. It maps each subject directory to subject and year, asking once per
     directory.
  3. It dispatches each file to an exam, answer or other row.

Modules, leaves first:
- `Wrappers`: an Option type.
- `Strings`: prefix, containment, `TrimPrefix`, `SplitN(…, 2)[0]` and `ReplaceAll`.
- `Tokenizer`: `collect_words_in_document`, over an abstract `CharSemantics`. Its
  ASCII behaviour is pinned down; non-ASCII behaviour is left unconstrained.
- `TokenizerExamples`: sample inputs worked through the tokenizer.
- `MapSums`: sums over the values of a map, the way a `HashMap` iteration
  visits them in any order.
- `TermStats`: counting and term frequency.
- `InverseDocumentFrequency`: document frequency and IDF, over an abstract
  `log10`.
- `Similarity`: cosine similarity, over an abstract `sqrt`.
- `Documents`: the `Document` class and its three passes.
- `Corpus`: the functional specification of the whole pipeline:
  - collecting the files;
  - building the index;
  - searching;
  - the postcard codec as an abstract encode/decode pair.
- `Searching`: the `Searcher` class, whose methods are proved against `Corpus`.
- `ExamFiles`: the directory walk and name-keyed file map of `getExamFiles`. It also
  has the flattening of proposal groups and the "first success" index of the
  retry loops.
- `SubjectMapper`: the backend mapper's validator and retry loop.
- `PairMapper`: the older mapper's validator. It marks files as used while
  checking a proposal.
- `Restart`: the restart tool's header scan, its memoised directory mapping and
  its material dispatch.

Inputs from outside the model:
- The answers of the language model are inputs: one sequence of proposals per
  directory, or a function from the request text to an optional answer.
- The `log.Fatal` calls of the modelled operations become `None` or `ok == false`:
  a failed header parse, a failed directory lookup, and a refused exam or answer
  insert in the restart tool. The other fatal calls are listed under "## Left out".
- Where a Go retry loop would ask forever after the given answers run out, the
  model returns `None` or `finished == false`.

## Model

| member | source | states |
|---|---|---|
| Strings.ContainsAt | extractor/restart/main.go:159 | `strings.Contains` holds iff the needle occurs at some index |
| Strings.TrimPrefix | extractor/restart/main.go:306 | the prefix is removed exactly when present; otherwise the string is unchanged |
| Strings.FirstSegment | extractor/restart/main.go:307 | `SplitN(s, "/", 2)[0]` is the longest prefix without the separator; it is the whole string when there is no separator |
| Strings.FirstSegmentOfJoin | extractor/restart/main.go:307 | the first segment of `d + "/" + rest` is `d` when `d` holds no `/` |
| Strings.ReplaceAllNotLonger | extractor/restart/main.go:169-173 | replacing a pattern by one at most as long never makes the string longer |
| Strings.ReplaceAllRemovesChar | extractor/restart/main.go:170-171 | replacing the one-character pattern `c` by a string without `c` leaves no `c` |
| Strings.ReplaceAllKeepsAbsent | extractor/restart/main.go:169-173 | a character absent from the string and the replacement stays absent |
| Tokenizer.RunLength | backend/indexer/src/main.rs:71 | the length of the leading non-whitespace run: all of it is non-whitespace, and a whitespace character follows it |
| Tokenizer.SplitWhitespace | backend/indexer/src/main.rs:71 | `split_whitespace` gives non-empty fragments without whitespace |
| Tokenizer.NonWhitespaceOfRun | backend/indexer/src/main.rs:71 | the non-whitespace characters of a string start with its leading run |
| Tokenizer.SplitWhitespaceKeepsText | backend/indexer/src/main.rs:71 | the fragments, concatenated, are exactly the text's non-whitespace characters in order |
| Tokenizer.KeptChars | backend/indexer/src/main.rs:77-81 | only alphanumerics and the math symbols `+-*/=<>` survive the filter, and the fragment never grows |
| Tokenizer.KeptCharsFrom | backend/indexer/src/main.rs:77-81 | every kept character comes from the fragment |
| Tokenizer.KeptAll | backend/indexer/src/main.rs:77-81 | a fragment of kept characters only is unchanged by the filter |
| Tokenizer.LowerAllOrigin | backend/indexer/src/main.rs:82 | every character after `flat_map(to_lowercase)` comes from lower-casing some input character |
| Tokenizer.LowerFixed | backend/indexer/src/main.rs:82 | characters that lower-case to themselves are unchanged |
| Tokenizer.NormalizeOrigin | backend/indexer/src/main.rs:76-83 | every character of a normalised fragment is the lower-case form of a kept character of the fragment |
| Tokenizer.SelectTerms | backend/indexer/src/main.rs:85 | the final filter keeps only non-empty fragments holding an alphanumeric character, and none are added |
| Tokenizer.SelectTermsKeepsOrder | backend/indexer/src/main.rs:85 | the terms are a subsequence of the normalised fragments, so their order is kept |
| Tokenizer.SubsequenceOfSelf | backend/indexer/src/main.rs:85 | a filter that drops nothing keeps the sequence: it is a subsequence of itself |
| Tokenizer.CollectWords | backend/indexer/src/main.rs:70-89 | every word is non-empty and holds an alphanumeric character; there are no more words than whitespace-separated fragments; empty text gives no words |
| Tokenizer.CollectWordsChars | backend/indexer/src/main.rs:70-89 | the words are the normalised fragments (each one lower-cased, its kept characters only) in the order of the text, some dropped; every character of a word is in the lower-case form of a kept character of the text |
| Tokenizer.SubsequenceMember | backend/indexer/src/main.rs:85 | what a filter keeps was in its input |
| Tokenizer.FragmentCharsFrom | backend/indexer/src/main.rs:71 | every character of a whitespace-separated fragment is a character of the text |
| Tokenizer.RunOfUnbroken | backend/indexer/src/main.rs:71 | a string without whitespace is one run |
| Tokenizer.UnbrokenSplit | backend/indexer/src/main.rs:71 | a non-empty string without whitespace splits into itself |
| Tokenizer.RunBeforeWhitespace | backend/indexer/src/main.rs:71 | the run before a whitespace character ends at it |
| Tokenizer.SplitAfterRun | backend/indexer/src/main.rs:71 | a run, a whitespace character and a rest split into the run followed by the split of the rest |
| Tokenizer.NoAlphanumeric | backend/indexer/src/main.rs:85 | a string without alphanumerics has no alphanumeric character |
| Tokenizer.SingleTerm | backend/indexer/src/main.rs:70-89 | a whitespace-free fragment of kept, already lower-case characters with an alphanumeric is its own single word |
| Tokenizer.MathSymbolFacts | backend/indexer/src/main.rs:80 | the math symbols are kept, are neither whitespace nor alphanumeric, and lower-case to themselves |
| Tokenizer.SymbolsOnly | backend/indexer/src/main.rs:84-85 | a fragment of math symbols alone yields no word |
| TokenizerExamples.HelloTerm | backend/indexer/src/main.rs:76-85 | the fragment `Hello,` becomes the term `hello` |
| TokenizerExamples.Formula | backend/indexer/src/main.rs:70-89 | `3+4=7` is one word with all its characters |
| TokenizerExamples.OnlySymbols | backend/indexer/src/main.rs:84-85 | `----` yields no word |
| TermStats.CountsSnoc | backend/indexer/src/main.rs:94-96 | one more word adds one to its own count and changes no other |
| TermStats.CountTermOccurrences | backend/indexer/src/main.rs:91-99 | the entry/or_insert loop computes the word counts |
| TermStats.CountsSumToLength | backend/indexer/src/main.rs:91-99 | the counts add up to the number of words |
| TermStats.CountsOnIncrement | backend/indexer/src/main.rs:95 | an increment raises the sum of the counts by one |
| TermStats.ComputeTermFrequency | backend/indexer/src/main.rs:101-108 | the frequencies have the same keys as the counts, and each is count divided by word amount |
| TermStats.ScaledSum | backend/indexer/src/main.rs:101-108 | dividing every count by `n` divides their sum by `n` |
| TermStats.TermFrequenciesSumToOne | backend/indexer/src/main.rs:160-164 | the term frequencies of a non-empty document sum to 1 |
| TermStats.ScaledSumIsOne | backend/indexer/src/main.rs:160-164 | counts summing to `n`, each divided by `n`, sum to 1 |
| TermStats.TermFrequencyScalesCounts | backend/indexer/src/main.rs:160-164 | the TF of a non-empty document is each count divided by the number of words |
| TermStats.TermFrequencyOfCounts | backend/indexer/src/main.rs:160-164 | an empty document has an empty TF map; otherwise TF holds every word with count over length |
| MapSums.CountsOnRemove | backend/indexer/src/main.rs:199-202 | a sum over a key set is one key's value plus the sum over the rest, whichever key is taken first |
| MapSums.ValuesOnRemove | backend/indexer/src/main.rs:119-128 | the same for real values |
| MapSums.ValuesOnNonNegative | backend/indexer/src/main.rs:119-128 | a sum of non-negative values is non-negative |
| MapSums.ValuesOnMonotone | backend/indexer/src/main.rs:119-128 | summing over more keys of non-negative values sums no less |
| InverseDocumentFrequency.DocFreq | backend/indexer/src/main.rs:197-203 | the number of documents holding a term is at most the number of documents, and it is positive iff the term is in the vocabulary |
| InverseDocumentFrequency.VocabularyMembers | backend/indexer/src/main.rs:197-203 | a term is in the vocabulary iff some document holds it |
| InverseDocumentFrequency.DocFreqAll | backend/indexer/src/main.rs:197-203 | the document frequency equals the number of documents iff every document holds the term |
| InverseDocumentFrequency.IdfDomain | backend/indexer/src/main.rs:192-211 | the IDF table has exactly the terms that some document holds, each with document frequency between 1 and the number of documents |
| InverseDocumentFrequency.IdfNonNegative | backend/indexer/src/main.rs:206-208 | every IDF value is non-negative |
| InverseDocumentFrequency.IdfZeroIffUbiquitous | backend/indexer/src/main.rs:206-208 | a term's IDF is 0 iff every document holds it, and positive iff some document lacks it |
| InverseDocumentFrequency.LogOfRatio | backend/indexer/src/main.rs:207 | `log10(N / df)` is 0 iff `df == N` and positive iff `df < N` |
| InverseDocumentFrequency.IdfAntitone | backend/indexer/src/main.rs:206-208 | a rarer term has a strictly larger IDF |
| InverseDocumentFrequency.AppendDocument | backend/indexer/src/main.rs:198-203 | one more document adds its terms to the vocabulary and one to the document frequency of each of its terms |
| Similarity.SquaresNonNegative | backend/indexer/src/main.rs:120 | the squares of the weights, one per key of the vector, are non-negative |
| Similarity.SumSquares | backend/indexer/src/main.rs:119-128 | the squared norm is non-negative |
| Similarity.NormAndDot | backend/indexer/src/main.rs:115-124 | the first loop computes the squared norm of `vec1` and the dot product, shared keys only |
| Similarity.AddEntry | backend/indexer/src/main.rs:119-124 | one visited key adds its square to the norm, and its product when `vec2` has the key |
| Similarity.Norm | backend/indexer/src/main.rs:126-128 | the second loop computes the squared norm of `vec2` |
| Similarity.CosineSimilarity | backend/indexer/src/main.rs:111-135 | the result is 0 when either norm is 0, otherwise dot over the product of the square roots of the norms |
| Similarity.ZeroVectorSimilarity | backend/indexer/src/main.rs:130-132 | a vector whose weights are all 0 has similarity 0 with any vector, either way round |
| Similarity.SelfSimilarity | backend/indexer/src/main.rs:134 | a non-zero vector has similarity 1 with itself |
| Similarity.SimilaritySymmetric | backend/indexer/src/main.rs:111-135 | similarity is symmetric, although the two loops treat the vectors differently |
| Similarity.DotSymmetric | backend/indexer/src/main.rs:119-124 | the dot product over `vec1`'s keys equals the one over `vec2`'s |
| Similarity.DotOver | backend/indexer/src/main.rs:121-123 | keys missing from `vec2` add nothing to the dot product |
| Similarity.ProductsNonNegative | backend/indexer/src/main.rs:122 | the products of non-negative weights, one per key of the first vector, are non-negative |
| Similarity.CauchySchwarz | backend/indexer/src/main.rs:134 | the squared dot product is at most the product of the squared norms |
| Similarity.CauchySchwarzOn | backend/indexer/src/main.rs:119-128 | the same bound over any key set, by induction on the keys |
| Similarity.SimilarityBounds | backend/indexer/src/main.rs:111-135 | for non-negative weights the similarity lies in [0, 1] |
| Documents.Counted | backend/indexer/src/main.rs:146-164 | the counting and TF passes keep the path, the words and the TF-IDF map |
| Documents.Weighted | backend/indexer/src/main.rs:166-174 | the TF-IDF pass keeps the path, words, counts and TF |
| Documents.Document.constructor | backend/indexer/src/main.rs:227-233 | a new document has its path and words and empty statistics |
| Documents.Document.FromData | backend/indexer/src/main.rs:215-216 | a document restored from the cache has exactly the stored fields |
| Documents.Document.CountWordOccurrences | backend/indexer/src/main.rs:146-154 | only the counts change, to the counts of the words |
| Documents.Document.ComputeTf | backend/indexer/src/main.rs:160-164 | only TF changes, to the term frequency of the words |
| Documents.Document.ComputeTfIdf | backend/indexer/src/main.rs:166-174 | only TF-IDF changes, to the TF weighted by the IDF table |
| Documents.CountedFresh | backend/indexer/src/main.rs:252-255 | a fresh document after both passes holds the counts and TF of its words and no TF-IDF |
| Documents.TfIdfTerms | backend/indexer/src/main.rs:166-174 | TF-IDF holds exactly the terms in both TF and IDF, each weighted TF × IDF; terms without IDF are left out |
| Corpus.CollectText | backend/indexer/src/main.rs:55-68 | a file with no extension panics; a readable `.md` file gives its contents with `<br>` replaced by a space; anything else is skipped |
| Corpus.CollectDocuments | backend/indexer/src/main.rs:220-247 | at most one document per visited entry |
| Corpus.CollectPanics | backend/indexer/src/main.rs:59 | collection fails iff some entry is a file without an extension |
| Corpus.CollectedDocuments | backend/indexer/src/main.rs:224-241 | every collected document comes from a visited markdown entry: its path, and the words of its text |
| Corpus.CollectedFromPrefix | backend/indexer/src/main.rs:224-241 | a document that comes from a prefix of the entries comes from the entries |
| Corpus.Build | backend/indexer/src/main.rs:249-262 | the index keeps one document per collected document, and its IDF table is computed from the counted documents |
| Corpus.BuildDocuments | backend/indexer/src/main.rs:249-262 | every indexed document keeps its path and words and holds their counts, their TF, and TF-IDF against the index's own IDF table |
| Corpus.BuildVocabulary | backend/indexer/src/main.rs:192-211 | the IDF table holds exactly the words of some document, each with `log10(N / df)` |
| Corpus.BuildUbiquitousWords | backend/indexer/src/main.rs:206-208 | a word's IDF is 0 iff every document contains it |
| Corpus.TermFrequencyNonNegative | backend/indexer/src/main.rs:101-108 | term frequencies are non-negative |
| Corpus.TfIdfNonNegative | backend/indexer/src/main.rs:166-174 | non-negative TF and IDF give non-negative TF-IDF |
| Corpus.BuildWeightsNonNegative | backend/indexer/src/main.rs:249-262 | every weight of a built index is non-negative |
| Corpus.Search | backend/indexer/src/main.rs:265-291 | one result per document, in document order, with its path |
| Corpus.SearchScoresBounded | backend/indexer/src/main.rs:265-291 | every score against a built index lies in [0, 1] |
| Corpus.UnknownQueryScoresZero | backend/indexer/src/main.rs:265-291 | a query none of whose words is in the IDF table scores 0 against every document |
| Corpus.QueryOfOwnWords | backend/indexer/src/main.rs:265-291 | a query made of exactly a document's words scores 1 against it, when its vector is non-zero |
| Searching.CountAndComputeTf | backend/indexer/src/main.rs:252-255 | every document gets its counts and TF |
| Searching.ComputeAllTfIdf | backend/indexer/src/main.rs:259-262 | every document gets its TF-IDF against the one IDF table |
| Searching.DocumentCounts | backend/indexer/src/main.rs:197-203 | the per-term document counters are keyed by the vocabulary |
| Searching.CountOneMore | backend/indexer/src/main.rs:198-203 | adding one document's presence gives the counters of one more document |
| Searching.AddPresence | backend/indexer/src/main.rs:199-202 | the inner loop adds 1 for each term of the document and keeps the other counters |
| Searching.PresenceStep | backend/indexer/src/main.rs:199-202 | one step of the inner loop keeps its invariant |
| Searching.CountDocuments | backend/indexer/src/main.rs:197-203 | the loops compute every term's document count |
| Searching.IdfFromCounts | backend/indexer/src/main.rs:206-208 | rewriting every counter `c` to `log10(N / c)` gives the IDF table |
| Searching.Searcher.ComputeIdf | backend/indexer/src/main.rs:192-211 | the IDF table of the searcher's current documents |
| Searching.CollectFiles | backend/indexer/src/main.rs:221-249 | fails exactly on a panic; otherwise gives new, distinct documents holding the collected values |
| Searching.BuildPhases | backend/indexer/src/main.rs:249-262 | counting, then IDF, then TF-IDF give the built index |
| Searching.Searcher.constructor | backend/indexer/src/main.rs:319-322 | an empty searcher |
| Searching.Searcher.LoadDocuments | backend/indexer/src/main.rs:220-263 | succeeds iff the walk and every entry's collection succeed; on failure the searcher is unchanged; on success it holds exactly the index built from the collected documents |
| Searching.Searcher.SearchDocuments | backend/indexer/src/main.rs:265-291 | the scores are those of the search specification |
| Searching.Searcher.SaveEmbeddings | backend/indexer/src/main.rs:293-296 | the bytes written are the encoding of the searcher's index, and they decode back to it when the codec round-trips that index |
| Searching.Searcher.LoadEmbeddings | backend/indexer/src/main.rs:213-218 | succeeds iff the bytes decode; then the searcher holds the decoded index; otherwise it is unchanged |
| Searching.Startup | backend/indexer/src/main.rs:317-333 | without a cache the index is built from the files and saved; with a cache it is decoded from it |
| Searching.Restart | backend/indexer/src/main.rs:324-333 | a cold start followed by a warm start from the saved cache gives the same index, when the codec round-trips the index that is built and saved |
| ExamFiles.WalkVisitsTreeFiles | extractor/restart/main.go:28-45 | the walk hands only files of the tree to the callback |
| ExamFiles.WalkAllVisitsTreeFiles | extractor/restart/main.go:28-45 | the same for a list of subtrees |
| ExamFiles.WalkWithoutSkipped | extractor/restart/main.go:29-32 | without a directory named `~BROMIUM` the walk visits every file, in tree order |
| ExamFiles.WalkAllWithoutSkipped | extractor/restart/main.go:29-32 | the same for a list of subtrees |
| ExamFiles.InsertByName | extractor/restart/main.go:42 | storing the next file under its name keeps the map keyed by name, each name mapping to its last file |
| ExamFiles.GetExamFiles | extractor/restart/main.go:25-51 | the keys are exactly the visited names; each maps to the last visited file of that name; no more entries than files |
| ExamFiles.NamesAtMostFiles | extractor/restart/main.go:42 | there are no more distinct names than files |
| ExamFiles.FlattenSnoc | backend/extractor/mapper/main.go:237-238 | the entries of the nested loop over groups: one more group appends its entries, in order |
| ExamFiles.FirstTrue | backend/extractor/mapper/main.go:217-276 | the attempt at which a retry loop stops: it succeeds and all before it fail; `None` only if all fail |
| ExamFiles.FirstTrueAt | backend/extractor/mapper/main.go:217-276 | a success after failures is the stopping attempt |
| SubjectMapper.CountCorrect | backend/extractor/mapper/main.go:235-267 | the correct entries never outnumber the entries |
| SubjectMapper.AdditionalPartsExist | backend/extractor/mapper/main.go:244-252 | the flag loop with early exit is true iff every additional part is a key of the file map |
| SubjectMapper.CountCorrectSnoc | backend/extractor/mapper/main.go:254-258 | the next entry adds one to the count iff its three checks hold |
| SubjectMapper.CheckSubject | backend/extractor/mapper/main.go:235-267 | the nested loops count all entries, and separately the correct ones |
| SubjectMapper.AcceptedIffAllCorrect | backend/extractor/mapper/main.go:268 | a proposal passes iff every one of its entries names existing files |
| SubjectMapper.FirstAccepted | backend/extractor/mapper/main.go:220-275 | over the verdicts on the proposals, in order: the first passing proposal and none before it, or `None` when none passes |
| SubjectMapper.MapSubject | backend/extractor/mapper/main.go:218-275 | the retry loop returns the first passing proposal with `SubjectName` set to the directory name, and `None` iff no proposal passes |
| SubjectMapper.MapSubjects | backend/extractor/mapper/main.go:217-276 | finishes iff every directory has a passing proposal; subject i is the first passing proposal of directory i renamed after it, so it passes; when it stops, the subjects are those of the directories before the first one without a passing proposal |
| SubjectMapper.RenamedStaysAccepted | backend/extractor/mapper/main.go:272 | setting the subject name keeps the proposal passing |
| PairMapper.UntrackedTakes | extractor/mapper/main.go:96-102 | on the fresh map of the walk a pair is taken iff both its files were found |
| PairMapper.UntrackedAnyTaken | extractor/mapper/main.go:96-102 | on the fresh map a proposal takes a pair iff one of its pairs names two files of the walk |
| PairMapper.Step | extractor/mapper/main.go:176-189 | one pair: a pair of existing unused files marks both used; any other pair changes nothing; no key is added or removed; path and name are kept; a used file stays used |
| PairMapper.StepAllSnoc | extractor/mapper/main.go:174-175 | the loop over one more pair is one more step |
| PairMapper.StepAllMonotone | extractor/mapper/main.go:174-191 | checking a proposal keeps the keys, paths and names, and used files stay used |
| PairMapper.UsedStaysUsed | extractor/mapper/main.go:182-186 | a file marked used during a proposal stays used for the rest of it |
| PairMapper.TakenOnce | extractor/mapper/main.go:179-186 | two accepted pairs of one proposal have no file in common |
| PairMapper.NoneTakenUnchanged | extractor/mapper/main.go:187-189 | a proposal with no accepted pair leaves the file map as it was |
| PairMapper.CheckProposal | extractor/mapper/main.go:174-191 | the nested loops with copy and write-back are the fold of the steps; `dataIsCorrect` holds iff some pair was accepted |
| PairMapper.TakeStep | extractor/mapper/main.go:179-186 | one more pair is one more step, and it is accepted iff the map before accepts it |
| PairMapper.FirstTaking | extractor/mapper/main.go:159-199 | over the verdicts on the proposals against one map: the first proposal with an accepted pair, and none before it, or `None` when none has one |
| PairMapper.MapSubject | extractor/mapper/main.go:157-199 | the retry loop keeps the first proposal with an accepted pair, under the directory name, and the map after checking it; otherwise the map is unchanged |
| PairMapper.MapSubjects | extractor/mapper/main.go:156-200 | the outer loop threads the file map: subject i is directory i with its first proposal that takes a pair from the map the earlier directories left; it finishes iff every directory has one; when it stops, the subjects are those before the first directory without one; the final map is the one after the kept subjects; keys, paths and names are kept and used files stay used |
| PairMapper.Advance | extractor/mapper/main.go:156-200 | one more directory whose retry loop keeps a proposal adds that subject and hands its map to the next directory |
| PairMapper.ThreadedAll | extractor/mapper/main.go:156-200 | when every directory kept a subject, every directory had a proposal that takes a pair |
| PairMapper.AfterMonotone | extractor/mapper/main.go:159-199 | one directory's retry loop keeps the keys, paths and names, and used files stay used |
| PairMapper.BeforeMonotone | extractor/mapper/main.go:156-200 | every map the outer loop hands on keeps the keys, paths and names of the start map, and its used files stay used |
| PairMapper.UsedStaysUsedAcross | extractor/mapper/main.go:182-186 | a file used before one directory is still used before every later one |
| PairMapper.TakenMarked | extractor/mapper/main.go:179-186 | both files of a pair taken during a proposal are used once the proposal is checked |
| PairMapper.TakenForMarks | extractor/mapper/main.go:179-186 | both files of a pair taken for a directory are used before the next directory |
| PairMapper.TakenStaysUsed | extractor/mapper/main.go:179-186 | both files of a pair taken for a directory stay used before every later directory |
| PairMapper.TakenForUnused | extractor/mapper/main.go:179-181 | a pair taken for a directory uses no file already used before that directory |
| PairMapper.NoFileTakenTwice | extractor/mapper/main.go:156-200 | pairs taken for two different directories have no file in common: no file is accepted twice over the whole run |
| Restart.SubjectDirectory | extractor/restart/main.go:304-310 | the directory of a file holds no `/` |
| Restart.SubjectDirectoryUnderRoot | extractor/restart/main.go:304-310 | a file under the exam root is in the first directory below it |
| Restart.SubjectDirectoryOutsideRoot | extractor/restart/main.go:306-307 | a path outside the exam root is cut at its first `/` as it stands |
| Restart.HeaderLineOccurs | extractor/restart/main.go:159 | a line starts the header iff it mentions `Zentralabitur` or `Erwartungshorizont` |
| Restart.HeaderText | extractor/restart/main.go:162-167 | each further line read extends the header text |
| Restart.CleanHeader | extractor/restart/main.go:169-173 | the cleaned header holds no tab and no newline and is no longer than before |
| Restart.FirstHeaderLine | extractor/restart/main.go:155-159 | over the header tests of the lines, in order: the first header line and no header line before it, or `None` when there is none |
| Restart.NoHeaderLineFallback | extractor/restart/main.go:187-196 | a scanned file without a header line gets material type `other` and work time -1 |
| Restart.FirstHeaderParsed | extractor/restart/main.go:155-183 | the header is the parse of the cleaned 8-line text at the first header line, and it holds no tab or newline |
| Restart.ReadHeader | extractor/restart/main.go:162-167 | the header line and the next 7 lines, with missing lines past the end read as empty; the scanner position after them |
| Restart.CleanUp | extractor/restart/main.go:169-173 | the five replacements are the cleanup chain |
| Restart.NoHeaderStep | extractor/restart/main.go:155-159 | a line that is not a header line extends the header-free prefix |
| Restart.ParseHeaderAt | extractor/restart/main.go:162-178 | the parse of the cleaned header text; the scanner moves forward |
| Restart.ScanFileHeader | extractor/restart/main.go:148-196 | the scan loop yields the zero header when the mapping is saved; otherwise the parsed first header, the fallback when there is no header line, or `None` when parsing fails |
| Restart.FirstOccurrencesDistinct | extractor/restart/main.go:386-389 | the subject directories of the results, distinct and in first-occurrence order, hold each directory once and nothing else |
| Restart.FirstOccurrencesOfPrefix | extractor/restart/main.go:386-399 | the directories met so far come first |
| Restart.FirstOccurrencesSnoc | extractor/restart/main.go:389 | a directory extends the distinct ones iff it is new |
| Restart.MemoHit | extractor/restart/main.go:389 | a directory already in the mapping is not asked again |
| Restart.MemoMiss | extractor/restart/main.go:389-397 | a new directory is asked once and its answer stored |
| Restart.MemoFail | extractor/restart/main.go:393-395 | a failed lookup ends the loop after distinct lookups |
| Restart.MemoDone | extractor/restart/main.go:386-399 | after the last file, the mapping holds exactly the directories with their answers |
| Restart.MapDirectories | extractor/restart/main.go:386-399 | no directory is asked twice; the lookups are the directories in first-occurrence order; it fails iff some directory's lookup fails; otherwise every directory maps to its answer |
| Restart.DispatchKinds | extractor/restart/main.go:477-511 | exam, answer and other results give their kind of row, and any other material type gives none; every row has embedding -1 and the file's and subject's IDs, with missing keys read as 0; an exam row carries the header's fields |
| Restart.InsertStep | extractor/restart/main.go:477-511 | a non-fatal result keeps the insert loop's invariant |
| Restart.FatalStep | extractor/restart/main.go:493-504 | a refused exam or answer row makes the whole plan fatal |
| Restart.InsertMaterials | extractor/restart/main.go:477-513 | stops iff some exam or answer insert is refused; otherwise it inserts the planned rows the store accepts, in order, skipping refused other rows |
| Restart.PlannedRows | extractor/restart/main.go:477-511 | at most one row per result, each with embedding -1 |
| Restart.PlannedSnoc | extractor/restart/main.go:477-511 | one more result adds its row, if any |
| Restart.KeptSnoc | extractor/restart/main.go:505-510 | one more row is kept iff the store accepts it |
| Restart.PlannedPrefix | extractor/restart/main.go:477-511 | a row planned for a prefix of the results is planned for all of them |

## Left out

- Floating point: `f32` and `u32` are unbounded reals and naturals, so rounding,
  overflow and the `as u32` truncation of the word amount are not modelled.
- TermStats.ComputeTermFrequency: it requires a positive word amount when
  there are counts. In Rust a zero amount divides by zero and gives NaN or
  infinity, but `compute_tf` never calls it that way.
- `log10` and `sqrt` are abstract, constrained only by the properties the
  proofs use: the logarithm is strictly increasing on the positive reals, with
  `log10(1) = 0`; the square root of a non-negative real is non-negative and
  squares back to it.
- The markdown parser (`markdown::to_mdast` and `get_text_from_markdown_tree`)
  is a parameter from text to text, and its `unwrap` is assumed to succeed.
- The `to_str().unwrap()` of a path is assumed to succeed.
- `visit_dirs` is replaced by a sequence of entries plus a flag for its I/O
  result. The order of `read_dir` and the recursion into directories are
  outside the model.
- postcard serialisation is an abstract encode/decode pair. A snapshot holds
  reals, so no byte codec can round-trip every snapshot, and `f32` rounding is
  not modelled. The round trip is therefore assumed only for the one snapshot
  that is saved (`Codec.RoundTrips`), as a precondition of `Restart` and the
  hypothesis of `SaveEmbeddings`' decoding clause.
- The `unwrap`s of `fs::read` and `fs::write` are part of the codec outcome or
  are left out.
- `get_word_occurrences` returns a clone; the model reads the counts directly.
- The HTTP layer (`axum`, the `search` handler) is left out, and so are the sort
  by similarity and the `results[0..20]` slice. The slice panics with fewer than
  20 documents; that behaviour is not modelled.
- The `println!` calls, the printing of skipped entries, and `tokio` are left out.
- Rust's characters and lower-casing are abstract beyond ASCII. Unicode
  behaviour, including lower-case mappings longer than one character, is
  allowed by the model but not pinned down.
- The tokenizer example `"Hello, World!"`, holding two fragments, is not
  proved as one concrete string. It follows from `SplitAfterRun` and
  `HelloTerm`.
- Go's language-model calls, token counting, godotenv and the shell `tree`
  command are left out. Their answers are inputs to the model.
- SQLite is left out: subject and file IDs are input maps, and acceptance of an
  insert is an input predicate. The inserts of subjects and files, the
  transaction and the commit are left out.
- The worker goroutines and channels of the restart tool are left out. The
  order of the collected results is an input.
- The scanner's 64 KB line limit and the splitting into lines are left out. A
  file is given as its sequence of lines.
- The JSON mapping files read from disk are left out. Whether
  `file_header_mapping.json` exists is a flag of the worker's scan, which then
  keeps Go's zero header (`ScanFileHeader`). This is the worker's result only:
  main then replaces the collected results by the saved ones, and the
  unmarshalling of that file is left out. The dispatch (`InsertMaterials`)
  takes the results it sees, with their headers, as an input.
- The fatal calls outside the modelled operations are left out. These are:
  - in the restart worker, `os.Open` and `file.Close` failing;
  - loading `.env`, and opening the database or the model client;
  - reading the exam directories and running `tree`;
  - marshalling, reading and writing the JSON files;
  - starting the transaction, inserting subjects and files, and the commit.
  Each of them would end the program; the model assumes they succeed.
- The subject directory names from `os.ReadDir` are an input sequence.
- A `filepath.Walk` error is left out. The tree is given as a value, and the
  error the walk reports is not modelled.
- The retry loops of both mapper tools, when proposals never pass: in Go they
  never terminate. The model stops when the given proposals run out, with
  `None` or `finished == false`.
- Restart.CleanHeader: its contract does not claim that double spaces are
  gone. `strings.ReplaceAll(s, "  ", " ")` collapses only one pair at a time,
  and three spaces remain two.
- The saving of `exam_mapping.json` and of the mapping files is left out.
