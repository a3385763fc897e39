# tf-idf scorer, modelled in Dafny

This project models the core of a small Java library that scores the words
of a list of documents by tf-idf. It has two classes.

- `TfIdf` holds the documents. It offers term frequency over the whole
  corpus (`tf()`) and over one document (`tf(String)`), document frequency
  (`df()`, `df(List)`), inverse document frequency (`idf()`) and two tf-idf
  variants (`tfidf()`, `tfidf_tweak1()`).
- `MutableInt` is the boxed counter stored in every frequency map. A new
  cell reads 1, and each later sighting increments it in place.

The model has five modules.

- `Text` (`text.dfy`) defines the two ways the library cuts a document into
  words.
  - The tokenizer `[a-zA-Z]+` is defined as `Words`: every maximal run of
    ASCII letters, left to right. Lemmas show that the words and the
    letter-free separators between them rebuild the input exactly, and that
    no word could be extended.
  - Java's `String.split(" ")` is defined as `SplitOnSpace`: the fields
    between spaces, with trailing empty fields removed, and the whole string
    returned when it holds no space.
  - `SingleSpacedAgree` shows that both cuts give the same words for text
    made of letter words joined by single spaces.
- `Frequencies` (`frequencies.dfy`) holds the reference definitions of the
  counts.
  - `Tally` counts the elements of a list. `DocFreq` gives, for each word,
    the number of documents containing it.
  - `FirstDoc` is the first document in which a word appears.
  - `LocalTf` is the term frequency of one document's space-split.
    `Scorable` says that every word is a field of the space-split of its
    first document.
- `Cells` (`mutable_int.dfy`) is the `MutableInt` class, with its counter
  field updated in place.
- `Scoring` (`scoring.dfy`) holds the tf-idf traversal as functions.
  - Each word is scored at its first sighting and never rescored.
  - Looking up, at its first sighting, a word that the document's
    space-split lacks is a `NullDereference`. That is the `NullPointerException` thrown by
    `tf_scores.get(d).getCounter()`.
  - Lemmas state exactly when the traversal succeeds, which words it scores
    and with which counts.
- `Engine` (`tfidf.dfy`) is the `TfIdf` class.
  - Its methods carry the loops of the Java code over maps of
    `MutableInt` cells.
  - Each method's postcondition ties the counts in its cells, or its result,
    to the reference definitions above.

Floating-point scores are kept as the integers they are computed from.

- `Reciprocal(df)` stands for `1.0 / (df + 1e-100)`.
- `RarityRatio(tf, df)` stands for `tf / (df + 0.01)`.
- `LogWeighted(tf, N / df)` stands for `tf * (ln(N / df) + 0.01)`. The
  quotient `N / df` is an exact integer division, as in Java, since both
  operands are positive.

The tf-idf methods look a word's local term frequency up only the first
time they meet the word. If the space-split of the first document
containing a word lacks that word, the methods dereference null. One
example is a word followed by a comma. A later document whose split lacks
the word does no harm, because the word is never looked up again. The
model follows the code here: the result is `NullDereference`, rather than
the word being skipped, which a more forgiving design would do. `Scorable`
says exactly when that happens. `PunctuationDereferencesNull` gives a
one-document corpus where it does, and `LaterMissIsHarmless` a corpus where
only a later document's split lacks the word and the methods succeed.

## Model

| member | source | states |
|---|---|---|
| Text.RunLength | src/org/akgul/TfIdf.java:61-62 | the greedy match of `[a-zA-Z]+` at the front: a prefix made only of letters, followed by the end or a non-letter |
| Text.RunLengthUnique | src/org/akgul/TfIdf.java:61-62 | those three properties determine the greedy match length |
| Text.WordsAreLetterRuns | src/org/akgul/TfIdf.java:61-62 | every word the tokenizer reports is non-empty and made only of ASCII letters |
| Text.WeaveRebuilds | src/org/akgul/TfIdf.java:59-64 | the words in order, interleaved with the separators, rebuild the document exactly |
| Text.SeparatorsHaveNoLetters | src/org/akgul/TfIdf.java:61-62 | nothing between or around the words holds a letter |
| Text.InnerSeparatorsNonEmpty | src/org/akgul/TfIdf.java:61-62 | two consecutive words are separated by at least one non-letter, so each word is a maximal run |
| Text.WordsLayout | src/org/akgul/TfIdf.java:59-64 | the tokenizer's output is a layout of the document: rebuilds it, with letter-free separators and non-empty separators between words |
| Text.NoWordsIffNoLetters | src/org/akgul/TfIdf.java:59-64 | the word list is empty exactly when the document holds no letter |
| Text.FieldsJoin | src/org/akgul/TfIdf.java:94 | cutting at every space and joining with single spaces gives back the input |
| Text.FieldsHaveNoSpace | src/org/akgul/TfIdf.java:94 | no field holds a space |
| Text.FieldsLastNonEmpty | src/org/akgul/TfIdf.java:94 | a string not ending in a space has a non-empty last field |
| Text.DropTrailingEmpty | src/org/akgul/TfIdf.java:94 | `split` with limit 0 keeps a prefix of the fields, removes only trailing empty fields, and keeps everything when the separator never occurs |
| Text.NoSpaceOneField | src/org/akgul/TfIdf.java:94 | a string without a space is a single field |
| Text.SplitOnSpace | src/org/akgul/TfIdf.java:94 | `document.split(" ")`: no piece holds a space; a document without a space comes back whole as the only piece, the empty document included; otherwise the last piece is non-empty (trailing empty fields are dropped) |
| Text.SplitOnSpaceRoundTrip | src/org/akgul/TfIdf.java:94 | a document not ending in a space is rebuilt by joining the pieces with single spaces |
| Text.FieldsAfterField | src/org/akgul/TfIdf.java:94 | a space-free field followed by a space is the first field, and the rest is split on its own |
| Text.WordsAfterRun | src/org/akgul/TfIdf.java:61-62 | a run of letters followed by a non-letter is read as one whole word |
| Text.WordsOfSingleSpaced | src/org/akgul/TfIdf.java:59-64 | the tokenizer reads letter words joined by single spaces back as exactly those words |
| Text.FieldsOfJoin | src/org/akgul/TfIdf.java:94 | space-free words joined by single spaces are cut back into exactly those words |
| Text.SingleSpacedAgree | src/org/akgul/TfIdf.java:94 | for letter words joined by single spaces, the tokenizer and `split(" ")` both return exactly those words |
| Frequencies.Tally | src/org/akgul/TfIdf.java:111-119 | the counted keys are exactly the elements of the list, each with a count of at least 1 |
| Frequencies.BagIsOccurrences | src/org/akgul/TfIdf.java:111-119 | the multiplicity of a word in a list is its number of occurrences |
| Frequencies.TallyIsOccurrences | src/org/akgul/TfIdf.java:111-119 | each counted word maps to its number of occurrences in the list |
| Frequencies.TallyOrderIndependent | src/org/akgul/TfIdf.java:111-119 | the counts depend only on the multiset of the list, not its order (so HashSet iteration order in `df` does not matter) |
| Frequencies.TallySnoc | src/org/akgul/TfIdf.java:113-117 | counting one more element is one upsert: new key with 1, or the existing count plus one |
| Frequencies.BumpAllIsTally | src/org/akgul/TfIdf.java:113-117 | upserting a list element by element into the counts of a prefix gives the counts of the prefix and the list together |
| Frequencies.SumValuesRemove | src/org/akgul/TfIdf.java:111-119 | the sum of the counts splits into any one entry plus the rest |
| Frequencies.SumValuesBump | src/org/akgul/TfIdf.java:113-117 | one upsert raises the sum of the counts by exactly one |
| Frequencies.TallySum | src/org/akgul/TfIdf.java:111-119 | the counts add up to the length of the counted list |
| Frequencies.DocBagFacts | src/org/akgul/TfIdf.java:143-152 | a word is in the df list exactly when some document contains it, and no more often than there are documents |
| Frequencies.DocFreq | src/org/akgul/TfIdf.java:143-152 | df keys are exactly the corpus words, each with a count between 1 and the number of documents |
| Frequencies.DocBagCountsDocuments | src/org/akgul/TfIdf.java:146-150 | each word appears in the df list once per document that contains it |
| Frequencies.DocFreqCountsDocuments | src/org/akgul/TfIdf.java:143-152 | a word is a df key exactly when some document contains it, and its df is the number of documents containing it |
| Frequencies.OneDocumentCountsOnce | src/org/akgul/TfIdf.java:147-149 | within one document, repeated words count once toward df |
| Frequencies.AllWordsPrefix | src/org/akgul/TfIdf.java:129-133 | the words of a prefix of the corpus are among the words of the corpus |
| Frequencies.AllWordsStep | src/org/akgul/TfIdf.java:162-170 | the words seen after one more document are the earlier ones plus that document's words |
| Frequencies.AllWordsMember | src/org/akgul/TfIdf.java:129-133 | a corpus word is a word of some document |
| Frequencies.CorpusWordsAreAllWords | src/org/akgul/TfIdf.java:72-83 | the distinct words of the concatenated token stream are exactly the corpus words |
| Frequencies.TokenCountSnoc | src/org/akgul/TfIdf.java:74-81 | the token count of the corpus grows by the word count of each appended document |
| Frequencies.CorpusWordsLength | src/org/akgul/TfIdf.java:74-81 | the token stream is as long as all documents' word lists together |
| Frequencies.TfSumIsTokenCount | src/org/akgul/TfIdf.java:72-83 | the corpus term frequencies add up to the number of tokens in all documents |
| Frequencies.FirstDoc | src/org/akgul/TfIdf.java:186-196 | the first document holding a word is a valid document index |
| Frequencies.FirstDocIsFirst | src/org/akgul/TfIdf.java:186-196 | the first document holding a word contains it, and no earlier document does |
| Frequencies.FirstDocPrefix | src/org/akgul/TfIdf.java:186-196 | a prefix that already contains the word finds the same first document |
| Frequencies.FirstSight | src/org/akgul/TfIdf.java:189-194 | a word of document i that no earlier document contains is first seen in document i |
| Cells.MutableInt.constructor | src/org/akgul/MutableInt.java:4-7 | a new cell reads 1 |
| Cells.MutableInt.CreateMutableInt | src/org/akgul/MutableInt.java:9-11 | the factory returns a fresh cell reading 1 |
| Cells.MutableInt.Increment | src/org/akgul/MutableInt.java:13-15 | the value rises by exactly one, and nothing else changes |
| Cells.MutableInt.GetCounter | src/org/akgul/MutableInt.java:17-19 | returns the current value and changes nothing |
| Cells.MutableInt.SetCounter | src/org/akgul/MutableInt.java:25-27 | the value becomes exactly the argument |
| Cells.CreateThenIncrement | src/org/akgul/MutableInt.java:4-15 | a cell created and then incremented k times reads 1 + k |
| Scoring.Weigh | src/org/akgul/TfIdf.java:191-192 | `tfidf` scores a word tf / (df + 0.01) and `tfidf_tweak1` (lines 217-219) tf * (ln(N / df) + 0.01), each from the word's own counts; with df at most N the integer quotient N / df is at least 1, so its logarithm is not negative |
| Scoring.ScoreWords | src/org/akgul/TfIdf.java:189-195 | the inner loop over one document's words never rewrites a score already in the map (first seen wins) and adds scores only for words of the document |
| Scoring.ScoreFrom | src/org/akgul/TfIdf.java:186-196 | the loop over the remaining documents never rewrites a score already in the map |
| Scoring.ScoredNow | src/org/akgul/TfIdf.java:189-194 | a word scored in its first document gets the first-sighting score, and its df is at least 1 |
| Scoring.ScoreWordsOutcome | src/org/akgul/TfIdf.java:189-195 | one document's inner loop succeeds exactly when every new word has a local tf entry; it then keeps every earlier score and adds exactly the new words, each scored from its own counts |
| Scoring.ScorableStep | src/org/akgul/TfIdf.java:186-196 | a scorable corpus prefix stays scorable with one more document exactly when that document's new words are fields of its split |
| Scoring.ScorablePrefix | src/org/akgul/TfIdf.java:186-196 | every prefix of a scorable corpus is scorable |
| Scoring.DocumentStepSucceeds | src/org/akgul/TfIdf.java:186-196 | the next document's loop succeeds exactly when the corpus prefix through it is scorable |
| Scoring.NewWordsScored | src/org/akgul/TfIdf.java:189-194 | the words newly scored in a document are scored at their first sighting |
| Scoring.DocumentStepScores | src/org/akgul/TfIdf.java:186-196 | after one more document, the scores cover exactly the words seen so far, each at its first sighting |
| Scoring.ScoreFromMeaning | src/org/akgul/TfIdf.java:186-196 | the traversal from document k succeeds exactly when the corpus is scorable, and then scores every corpus word at its first sighting |
| Scoring.ScoreCorpusMeaning | src/org/akgul/TfIdf.java:183-225 | tf-idf succeeds exactly when every word is a field of its first document's split; it then has exactly the corpus words as keys, each scored from its first document's tf and its df |
| Scoring.AgreeingCutsScore | src/org/akgul/TfIdf.java:186-196 | when every token of each document is also a field of its split, the corpus is scorable and tf-idf succeeds |
| Scoring.PunctuationDereferencesNull | src/org/akgul/TfIdf.java:187-191 | for the one-document corpus `"one,"` the corpus is not scorable and tf-idf dereferences null |
| Scoring.LaterMissIsHarmless | src/org/akgul/TfIdf.java:190-191 | for the corpus `"one"`, `"one,"` the word is looked up only in the first document, so the corpus is scorable and tf-idf succeeds although the second split lacks it |
| Engine.Upsert | src/org/akgul/TfIdf.java:77-79 | a missing word gets a fresh cell reading 1, and a present word's cell is incremented; no two words share a cell, and existing words keep their cells |
| Engine.TfIdf.constructor | src/org/akgul/TfIdf.java:39-41 | the scorer holds exactly the list it was given, as `getDocuments` returns it |
| Engine.TfIdf.GetDocuments | src/org/akgul/TfIdf.java:48-50 | returns the list the scorer was built with |
| Engine.TfIdf.BuildWords | src/org/akgul/TfIdf.java:59-64 | the words found are exactly the tokenizer's words, in order |
| Engine.TfIdf.RunEnd | src/org/akgul/TfIdf.java:62 | the match starting at a letter ends after the longest run of letters |
| Engine.TfIdf.CountInto | src/org/akgul/TfIdf.java:76-80 | the counting loop upserts every element in order: the cells then hold the earlier counts with each element added, no cell is shared, and new cells are fresh |
| Engine.TfIdf.Tf | src/org/akgul/TfIdf.java:72-83 | each cell holds the number of occurrences of its word among the tokens of all documents; every cell is new and no two words share one |
| Engine.TfIdf.TfOf | src/org/akgul/TfIdf.java:92-101 | each cell holds the number of occurrences of its field in `split(" ")` of the document; every cell is new and no two words share one |
| Engine.TfIdf.Counter | src/org/akgul/TfIdf.java:111-119 | each element of the list maps to its own new cell holding its multiplicity |
| Engine.TfIdf.Df | src/org/akgul/TfIdf.java:126-135 | each corpus word maps to its own new cell holding the number of documents that contain it |
| Engine.TfIdf.DfOf | src/org/akgul/TfIdf.java:143-152 | each word of the given documents maps to its own new cell holding the number of those documents that contain it |
| Engine.TfIdf.CollectDistinct | src/org/akgul/TfIdf.java:147-149 | the earlier list is kept in place and the distinct words of the document are appended, once each, in any order; the set is left empty |
| Engine.TfIdf.Idf | src/org/akgul/TfIdf.java:159-172 | exactly the corpus words are scored, each with the reciprocal of its document frequency |
| Engine.TfIdf.RecordIdf | src/org/akgul/TfIdf.java:163-169 | the words of one document that have a df cell are added, each with the reciprocal of its df; earlier entries stay valid |
| Engine.TfIdf.ScoreFirstSeen | src/org/akgul/TfIdf.java:184-197 | the shared tf-idf traversal returns the first-seen-wins score map, or the null dereference |
| Engine.TfIdf.ScoreDocuments | src/org/akgul/TfIdf.java:186-196 | the outer loop over the documents returns the first-seen-wins score map, or stops at the first null dereference |
| Engine.TfIdf.ScoreDocumentAt | src/org/akgul/TfIdf.java:187-195 | one document is tokenized, its split counted and its words scored: the outcome, success with the new scores or a null dereference, is exactly ScoreWords over the words of this document with its local tf and the corpus df (so, by ScoreWordsOutcome, the earlier scores untouched plus exactly the words not scored before, each from its own counts); on success the traversal continues from the next document, otherwise the traversal from this document dereferences null |
| Engine.TfIdf.ScoreDocument | src/org/akgul/TfIdf.java:189-195 | the inner loop scores each word not yet scored from its tf and df cells, keeps earlier scores, and stops where a tf lookup misses |
| Engine.TfIdf.Tfidf | src/org/akgul/TfIdf.java:183-198 | succeeds exactly when the corpus is scorable; then every corpus word, and only those, maps to tf / (df + 0.01) of its first document |
| Engine.TfIdf.TfidfTweak1 | src/org/akgul/TfIdf.java:208-225 | succeeds exactly when the corpus is scorable; then every corpus word, and only those, maps to tf * (ln(N / df) + 0.01) of its first document |

## Left out

- Floating point: scores are the integer operands of each formula, not
  doubles. Rounding, `ln`, and the `1e-100` and `0.01` offsets are not
  computed.
- Regular expressions: only the one pattern `[a-zA-Z]+` is modelled, as
  a letter-run scanner. Java's general `Pattern` and `Matcher` are not
  part of this model.
- `String.split`: only the single-space separator and limit 0 are
  modelled. General regular-expression separators are not.
- Cells.MutableInt.Increment: does not model 32-bit `int` wrap-around,
  because a count past 2^31 - 1 needs that many occurrences of one word.
- `MutableInt.toString` (formatting with `%d`) is left out as
  presentation only.
- `null` documents or a `null` list are not representable: documents are
  sequences of characters.
- Hash-map and hash-set iteration order is not modelled. `CollectDistinct`
  appends the set's members in an arbitrary order, and
  `TallyOrderIndependent` shows that order cannot change the counts.
- Engine.TfIdf.TfOf: the Java method has its own copy of the counting
  loop. The model reuses the one in `Counter`, which does the same upserts.
- Engine.TfIdf.Df: the Java method repeats the body of `df(List)` over the
  stored documents. The model calls `DfOf` on them, which runs the same
  loop.
- Engine.TfIdf.TfidfTweak1: the Java method repeats the loop of `tfidf()`
  with the other formula. The model runs the one traversal,
  `ScoreFirstSeen`, with the formula as a parameter.
- Aliasing of the returned maps with the caller is not modelled. Each
  method returns a new map value, while its cells are real objects.
- Engine.TfIdf.ScoreFirstSeen: the exception is a `NullDereference`
  result, not a thrown exception. A document frequency lookup never misses,
  because both maps come from the same tokenizer, so only the tf lookup
  can fail.
- Engine.TfIdf.constructor: the model keeps a snapshot of the documents.
  Java stores the caller's own mutable `List`, and `getDocuments` hands
  that same list back. A caller who adds or removes documents later changes
  every later result; the model does not capture that sharing.
- Java strings are UTF-16 and may hold unpaired surrogates, which a Dafny
  `string` cannot represent. Neither the letter tokenizer nor the
  single-space split depends on them, since both look only at ASCII
  letters and the space.
