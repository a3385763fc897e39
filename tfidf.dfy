/**
 The scorer: a fixed list of documents and the queries over it. Every
 frequency map it returns maps a word to its own counter cell, and every
 count is built by the same upsert: insert a fresh cell reading 1 for a
 word seen the first time, otherwise increment the word's cell in place.
 */
module Engine {
  import opened Text
  import opened Frequencies
  import opened Cells
  import opened Scoring

  /** The counts held by the cells of a frequency map. */
  function Snapshot(m: map<string, MutableInt>): map<string, int>
    reads m.Values
  {
    map w | w in m :: m[w].counter
  }

  /** No two words share a cell. */
  predicate Distinct(m: map<string, MutableInt>)
  {
    forall a, b | a in m && b in m && a != b :: m[a] != m[b]
  }

  /** The upsert every counting loop performs on its map: look the word up;
      if absent, store a new cell (which reads 1), otherwise increment the
      word's cell in place. */
  method Upsert(m: map<string, MutableInt>, s: string) returns (m': map<string, MutableInt>)
    requires Distinct(m)
    modifies m.Values
    ensures Distinct(m')
    ensures Snapshot(m') == Bump(old(Snapshot(m)), s)
    ensures forall w | w in m :: w in m' && m'[w] == m[w]
    ensures forall w | w in m' && w !in m :: fresh(m'[w])
  {
    var counter: MutableInt? := if s in m then m[s] else null;
    if counter == null {
      var cell := MutableInt.CreateMutableInt();
      m' := m[s := cell];
      assert forall w | w in m :: m[w].counter == old(m[w].counter);
    } else {
      counter.Increment();
      m' := m;
      assert forall w | w in m && w != s :: m[w] != counter;
    }
  }

  /** An idf entry: the reciprocal of the word's document frequency. */
  predicate IdfEntry(df: map<string, int>, w: string, score: Score)
  {
    w in df && score == Reciprocal(df[w])
  }

  /** Filtering by the keys of `m` keeps every element of `xs` when all of
      them are keys. */
  lemma KeepAll(xs: seq<string>, m: map<string, int>)
    requires forall w | w in xs :: w in m
    ensures (set w | w in xs && w in m) == (set w | w in xs)
  {
  }

  class TfIdf {
    const documents: seq<string>

    /** The scorer keeps the list it was given. */
    constructor (documents: seq<string>)
      ensures GetDocuments() == documents
    {
      this.documents := documents;
    }

    /** The list the scorer was built with. */
    function GetDocuments(): (r: seq<string>)
      ensures r == documents
    {
      documents
    }

    /** The tokenizer: scans the document left to right the way repeated
        `find` of `[a-zA-Z]+` does, skipping non-letters and taking each
        letter run whole. */
    method BuildWords(document: string) returns (wordList: seq<string>)
      ensures wordList == Words(document)
    {
      wordList := [];
      var i := 0;
      while i < |document|
        invariant 0 <= i <= |document|
        invariant wordList + Words(document[i..]) == Words(document)
      {
        if IsLetter(document[i]) {
          var j := RunEnd(document, i);
          ghost var t := document[i..];
          assert t[..j - i] == document[i..j];
          RunLengthUnique(t, j - i);
          assert t[j - i..] == document[j..];
          wordList := wordList + [document[i..j]];
          i := j;
        } else {
          assert document[i..][1..] == document[i + 1..];
          i := i + 1;
        }
      }
    }

    /** The greedy match of `[a-zA-Z]+` at position `i`, which holds a
        letter: the end of the longest run of letters starting there. */
    method RunEnd(document: string, i: nat) returns (j: nat)
      requires i < |document| && IsLetter(document[i])
      ensures i < j <= |document|
      ensures AllLetters(document[i..j])
      ensures j == |document| || !IsLetter(document[j])
    {
      j := i + 1;
      while j < |document| && IsLetter(document[j])
        invariant i < j <= |document|
        invariant forall k :: i <= k < j ==> IsLetter(document[k])
      {
        j := j + 1;
      }
    }

    /** The counting loop: upserts every element of `xs`, in order, into
        `m`, whose cells hold the counts `base`. Cells that are not in `m`
        yet are fresh. */
    method CountInto(m: map<string, MutableInt>, xs: seq<string>, ghost base: map<string, int>)
      returns (m': map<string, MutableInt>)
      requires Distinct(m) && Snapshot(m) == base
      modifies m.Values
      ensures Distinct(m') && Snapshot(m') == BumpAll(base, xs)
      ensures forall w | w in m :: w in m' && m'[w] == m[w]
      ensures forall w | w in m' && w !in m :: fresh(m'[w])
    {
      m' := m;
      ghost var counts := base;
      for j := 0 to |xs|
        invariant Distinct(m') && Snapshot(m') == counts
        invariant forall w | w in m :: w in m' && m'[w] == m[w]
        invariant forall w | w in m' && w !in m :: fresh(m'[w])
        invariant BumpAll(counts, xs[j..]) == BumpAll(base, xs)
      {
        assert xs[j..][1..] == xs[j + 1..];
        m' := Upsert(m', xs[j]);
        counts := Bump(counts, xs[j]);
      }
    }

    /** The corpus-wide term frequency: each word's cell holds the number of
        its occurrences across the tokens of all documents. */
    method Tf() returns (r: map<string, MutableInt>)
      ensures Distinct(r)
      ensures forall w | w in r :: fresh(r[w])
      ensures Snapshot(r) == Tally(CorpusWords(documents))
    {
      var m: map<string, MutableInt> := map[];
      for i := 0 to |documents|
        invariant Distinct(m)
        invariant forall w | w in m :: fresh(m[w])
        invariant Snapshot(m) == Tally(CorpusWords(documents[..i]))
      {
        var split := BuildWords(documents[i]);
        BumpAllIsTally(CorpusWords(documents[..i]), split);
        m := CountInto(m, split, Snapshot(m));
        assert documents[..i + 1][..i] == documents[..i];
      }
      assert documents[..|documents|] == documents;
      r := m;
    }

    /** The term frequency of one ad-hoc document whose words are the fields
        of `split(" ")`: punctuation stays attached to them. */
    method TfOf(document: string) returns (r: map<string, MutableInt>)
      ensures Distinct(r)
      ensures forall w | w in r :: fresh(r[w])
      ensures Snapshot(r) == LocalTf(document)
    {
      var split := SplitOnSpace(document);
      r := Counter(split);
    }

    /** The frequency map of a list: each element with its multiplicity. */
    method Counter(list2: seq<string>) returns (r: map<string, MutableInt>)
      ensures Distinct(r)
      ensures forall w | w in r :: fresh(r[w])
      ensures Snapshot(r) == Tally(list2)
    {
      assert Tally([]) == map[];
      BumpAllIsTally([], list2);
      r := CountInto(map[], list2, map[]);
      assert [] + list2 == list2;
    }

    /** The document frequency of the stored documents. */
    method Df() returns (r: map<string, MutableInt>)
      ensures Distinct(r)
      ensures forall w | w in r :: fresh(r[w])
      ensures Snapshot(r) == DocFreq(GetDocuments())
    {
      r := DfOf(documents);
    }

    /** The document frequency of `docs`: the distinct words of each
        document are gathered in a set, copied to a list in the set's own
        order, and the set is cleared; the list is then counted. */
    method DfOf(docs: seq<string>) returns (r: map<string, MutableInt>)
      ensures Distinct(r)
      ensures forall w | w in r :: fresh(r[w])
      ensures Snapshot(r) == DocFreq(docs)
    {
      var list2: seq<string> := [];
      var seen: set<string> := {};
      for i := 0 to |docs|
        invariant seen == {}
        invariant multiset(list2) == DocBag(docs[..i])
      {
        list2, seen := CollectDistinct(docs, i, list2, seen);
      }
      assert docs[..|docs|] == docs;
      r := Counter(list2);
    }

    /** The body of the loop of `df`: the words of document `i` are added to
        the (empty) set, the set's members are appended to `list2`, and the
        set is cleared. */
    method CollectDistinct(docs: seq<string>, i: nat, list2: seq<string>, seen: set<string>)
      returns (list2': seq<string>, seen': set<string>)
      requires i < |docs| && seen == {} && multiset(list2) == DocBag(docs[..i])
      ensures seen' == {} && multiset(list2') == DocBag(docs[..i + 1])
      ensures |list2| <= |list2'| && list2'[..|list2|] == list2
    {
      var words := BuildWords(docs[i]);
      seen' := seen;
      for j := 0 to |words|
        invariant seen' == set w | w in words[..j]
      {
        assert words[..j + 1] == words[..j] + [words[j]];
        seen' := seen' + {words[j]};
      }
      assert words[..|words|] == words;
      var pending := seen';
      list2' := list2;
      while pending != {}
        invariant pending <= seen'
        invariant |list2| <= |list2'| && list2'[..|list2|] == list2
        invariant multiset(list2') == DocBag(docs[..i]) + multiset(seen' - pending)
        decreases pending
      {
        var d :| d in pending;
        list2' := list2' + [d];
        assert seen' - (pending - {d}) == (seen' - pending) + {d};
        assert d !in seen' - pending;
        pending := pending - {d};
      }
      assert seen' - pending == seen';
      assert docs[..i + 1][..i] == docs[..i];
      seen' := {};
    }

    /** The idf map: every word of the corpus, scored from its document
        frequency. Each occurrence rewrites the same value. */
    method Idf() returns (r: map<string, Score>)
      ensures r.Keys == AllWords(documents)
      ensures forall w | w in r :: w in DocFreq(documents) && r[w] == Reciprocal(DocFreq(documents)[w])
    {
      var dfScores := Df();
      ghost var df := DocFreq(documents);
      var map2: map<string, Score> := map[];
      for i := 0 to |documents|
        invariant map2.Keys == AllWords(documents[..i])
        invariant forall w | w in map2 :: IdfEntry(df, w, map2[w])
        modifies {}
      {
        var split := BuildWords(documents[i]);
        AllWordsStep(documents, i);
        KeepAll(split, df);
        map2 := RecordIdf(dfScores, split, map2, df);
      }
      assert documents[..|documents|] == documents;
      r := map2;
    }

    /** The inner loop of Idf, over the words `split` of one document: each
        word that has a document-frequency cell is (re)scored from it. */
    method RecordIdf(dfScores: map<string, MutableInt>, split: seq<string>, map2: map<string, Score>,
                     ghost df: map<string, int>)
      returns (map2': map<string, Score>)
      requires Snapshot(dfScores) == df
      requires forall w | w in map2 :: IdfEntry(df, w, map2[w])
      ensures map2'.Keys == map2.Keys + (set w | w in split && w in df)
      ensures forall w | w in map2' :: IdfEntry(df, w, map2'[w])
    {
      map2' := map2;
      for j := 0 to |split|
        invariant map2'.Keys == map2.Keys + (set w | w in split[..j] && w in df)
        invariant forall w | w in map2' :: IdfEntry(df, w, map2'[w])
      {
        var d := split[j];
        assert split[..j + 1] == split[..j] + [d];
        if d in dfScores {
          var c := dfScores[d].GetCounter();
          map2' := map2'[d := Reciprocal(c)];
        }
      }
      assert split[..|split|] == split;
    }

    /** The traversal shared by the two tf-idf variants. Each word is scored
        when it is first met, from the local term frequency of that document,
        and never rewritten. The lookup of the local term frequency throws
        when the word is not a field of the document's space-split. */
    method ScoreFirstSeen(rule: Weighting) returns (r: Result<map<string, Score>>)
      ensures r == ScoreCorpus(documents, rule)
    {
      var dfScores := Df();
      r := ScoreDocuments(rule, dfScores);
    }

    /** The outer loop of the tf-idf variants, over the documents, against
        the document-frequency cells `dfScores`. */
    method ScoreDocuments(rule: Weighting, dfScores: map<string, MutableInt>) returns (r: Result<map<string, Score>>)
      requires Snapshot(dfScores) == DocFreq(documents)
      ensures r == ScoreCorpus(documents, rule)
    {
      var m: map<string, Score> := map[];
      for i := 0 to |documents|
        invariant ScoreFrom(documents, rule, i, m) == ScoreCorpus(documents, rule)
      {
        var ok;
        ok, m := ScoreDocumentAt(rule, dfScores, i, m);
        if !ok {
          return NullDereference;
        }
      }
      r := Ok(m);
    }

    /** The body of the outer loop of the tf-idf variants: document `i` is
        tokenized, its local term frequency counted, and its words scored.
        On success the scores are the earlier ones, untouched, together with
        one score for each word of the document not scored before, computed
        from its counts; the traversal then continues from the next
        document. Otherwise the traversal from this document dereferences
        null. */
    method ScoreDocumentAt(rule: Weighting, dfScores: map<string, MutableInt>, i: nat, m: map<string, Score>)
      returns (ok: bool, m': map<string, Score>)
      requires i < |documents| && Snapshot(dfScores) == DocFreq(documents)
      ensures (if ok then Ok(m') else NullDereference) ==
                ScoreWords(rule, m, Words(documents[i]), LocalTf(documents[i]), DocFreq(documents), |documents|)
      ensures ok ==> ScoreFrom(documents, rule, i + 1, m') == ScoreFrom(documents, rule, i, m)
      ensures !ok ==> ScoreFrom(documents, rule, i, m) == NullDereference
    {
      var split := BuildWords(documents[i]);
      var tfScores := TfOf(documents[i]);
      ok, m' := ScoreDocument(rule, dfScores, split, tfScores, m, LocalTf(documents[i]), DocFreq(documents));
      AllWordsStep(documents, i);
      ScoreWordsOutcome(rule, m, split, LocalTf(documents[i]), DocFreq(documents), |documents|);
    }

    /** The inner loop of the tf-idf variants, over the words `split` of one
        document whose cells count `tf`, against the document-frequency cells
        counting `df`. It stops with `ok` false where Java throws. */
    method ScoreDocument(rule: Weighting, dfScores: map<string, MutableInt>, split: seq<string>,
                         tfScores: map<string, MutableInt>, m: map<string, Score>,
                         ghost tf: map<string, int>, ghost df: map<string, int>)
      returns (ok: bool, m': map<string, Score>)
      requires Snapshot(tfScores) == tf && Snapshot(dfScores) == df
      requires forall w | w in df :: df[w] >= 1
      ensures (if ok then Ok(m') else NullDereference) == ScoreWords(rule, m, split, tf, df, |documents|)
    {
      m' := m;
      for j := 0 to |split|
        invariant ScoreWords(rule, m', split[j..], tf, df, |documents|) == ScoreWords(rule, m, split, tf, df, |documents|)
      {
        var d := split[j];
        assert split[j..][1..] == split[j + 1..];
        if d !in m' {
          if d !in tfScores {
            return false, m';
          }
          var tfCount := tfScores[d].GetCounter();
          if d !in dfScores {
            return false, m';
          }
          var dfCount := dfScores[d].GetCounter();
          assert d in df;
          m' := m'[d := Weigh(rule, tfCount, dfCount, |documents|)];
        }
      }
      ok := true;
    }

    /** The plain tf-idf map: first-seen-wins scores tf / (df + 0.01). It
        throws exactly when some word's first document lacks it among the
        fields of its space-split. */
    method Tfidf() returns (r: Result<map<string, Score>>)
      ensures r == ScoreCorpus(documents, Plain)
      ensures r.Ok? <==> Scorable(documents)
      ensures r.Ok? ==> r.value.Keys == AllWords(documents)
      ensures r.Ok? ==> forall w | w in r.value :: ScoredAtFirstSight(documents, Plain, w, r.value[w])
    {
      r := ScoreFirstSeen(Plain);
      ScoreCorpusMeaning(documents, Plain);
    }

    /** The tweaked tf-idf map: first-seen-wins scores
        tf * (ln(N / df) + 0.01), with N / df in integer arithmetic. */
    method TfidfTweak1() returns (r: Result<map<string, Score>>)
      ensures r == ScoreCorpus(documents, Tweak1)
      ensures r.Ok? <==> Scorable(documents)
      ensures r.Ok? ==> r.value.Keys == AllWords(documents)
      ensures r.Ok? ==> forall w | w in r.value :: ScoredAtFirstSight(documents, Tweak1, w, r.value[w])
    {
      r := ScoreFirstSeen(Tweak1);
      ScoreCorpusMeaning(documents, Tweak1);
    }
  }
}
