/**
 The tf-idf scores and the first-seen-wins traversal that assigns them,
 as functions, together with what the traversal means: which word gets
 which score, and exactly when a lookup of the local term frequency
 dereferences null.
 */
module Scoring {
  import opened Text
  import opened Frequencies

  /** A floating-point score, kept as the integers it is computed from. */
  datatype Score =
    | Reciprocal(df: int)                  // 1.0 / (df + 1e-100)
    | RarityRatio(tf: int, df: int)        // tf / (df + 0.01)
    | LogWeighted(tf: int, quotient: int)  // tf * (ln(quotient) + 0.01), quotient = N / df in int arithmetic

  /** Which tf-idf formula a traversal applies. */
  datatype Weighting = Plain | Tweak1

  /** What a call returns, or the NullPointerException it throws. */
  datatype Result<T> = Ok(value: T) | NullDereference

  /** The score of a word with local term frequency `tfCount`, document
      frequency `dfCount`, in a corpus of `n` documents. A document
      frequency is at least 1, and the corpus size is a count: Java's
      truncating `int` division and Dafny's agree on these operands. */
  function Weigh(rule: Weighting, tfCount: int, dfCount: int, n: nat): (r: Score)
    requires dfCount >= 1
    ensures r.RarityRatio? <==> rule == Plain
    ensures r.LogWeighted? <==> rule == Tweak1
    ensures r.RarityRatio? ==> r.tf == tfCount && r.df == dfCount
    ensures r.LogWeighted? ==> r.tf == tfCount && r.quotient == n / dfCount
    ensures r.LogWeighted? && 1 <= dfCount <= n ==> r.quotient >= 1
  {
    match rule
    case Plain => RarityRatio(tfCount, dfCount)
    case Tweak1 => LogWeighted(tfCount, n / dfCount)
  }

  /** The traversal over the words `ws` of one document, continuing from the
      scores `m`: a word already scored keeps its score; a new word is scored
      from its count in the local term frequency `tf` and in the document
      frequency `df`; a new word that either map lacks is a null
      dereference, which ends the traversal. */
  function ScoreWords(rule: Weighting, m: map<string, Score>, ws: seq<string>,
                      tf: map<string, int>, df: map<string, int>, n: nat): (r: Result<map<string, Score>>)
    requires forall w | w in df :: df[w] >= 1
    ensures r.Ok? ==> forall w | w in m :: w in r.value && r.value[w] == m[w]
    ensures r.Ok? ==> forall w | w in r.value :: w in m || w in ws
    decreases |ws|
  {
    if ws == [] then Ok(m)
    else if ws[0] in m then ScoreWords(rule, m, ws[1..], tf, df, n)
    else if ws[0] !in tf || ws[0] !in df then NullDereference
    else ScoreWords(rule, m[ws[0] := Weigh(rule, tf[ws[0]], df[ws[0]], n)], ws[1..], tf, df, n)
  }

  /** The traversal of documents `k` onwards, continuing from the scores
      `m`: each document's letter-run words, scored against the term
      frequency of that document's space-split and the document frequency
      of the whole corpus; a null dereference ends it. */
  function ScoreFrom(docs: seq<string>, rule: Weighting, k: nat, m: map<string, Score>): (r: Result<map<string, Score>>)
    requires k <= |docs|
    ensures r.Ok? ==> forall w | w in m :: w in r.value && r.value[w] == m[w]
    decreases |docs| - k
  {
    if k == |docs| then Ok(m)
    else match ScoreWords(rule, m, Words(docs[k]), LocalTf(docs[k]), DocFreq(docs), |docs|)
      case NullDereference => NullDereference
      case Ok(m') => ScoreFrom(docs, rule, k + 1, m')
  }

  /** The whole traversal, from no scores at all. */
  function ScoreCorpus(docs: seq<string>, rule: Weighting): Result<map<string, Score>>
  {
    ScoreFrom(docs, rule, 0, map[])
  }

  /** The score a word gets under the first-seen-wins rule: computed from
      the local term frequency of the first document that contains it, and
      its document frequency. */
  ghost predicate ScoredAtFirstSight(docs: seq<string>, rule: Weighting, w: string, score: Score)
  {
    && w in AllWords(docs)
    && w in LocalTf(docs[FirstDoc(docs, w)])
    && score == Weigh(rule, LocalTf(docs[FirstDoc(docs, w)])[w], DocFreq(docs)[w], |docs|)
  }

  /** The score computed when `w` is first met, in document `i`. */
  lemma ScoredNow(docs: seq<string>, rule: Weighting, i: nat, w: string)
    requires i < |docs| && w in AllWords(docs) && FirstDoc(docs, w) == i
    requires w in LocalTf(docs[i])
    ensures w in DocFreq(docs) && DocFreq(docs)[w] >= 1
    ensures ScoredAtFirstSight(docs, rule, w, Weigh(rule, LocalTf(docs[i])[w], DocFreq(docs)[w], |docs|))
  {
  }

  /** The traversal of one document succeeds exactly when every word not
      scored before is in `tf`; it then keeps every earlier score and adds
      exactly the new words, each scored from its own counts. */
  lemma {:induction false} ScoreWordsOutcome(rule: Weighting, m: map<string, Score>, ws: seq<string>,
                                             tf: map<string, int>, df: map<string, int>, n: nat)
    requires forall w | w in df :: df[w] >= 1
    requires forall w | w in ws :: w in df
    ensures ScoreWords(rule, m, ws, tf, df, n).Ok? <==> (forall w | w in ws && w !in m :: w in tf)
    ensures ScoreWords(rule, m, ws, tf, df, n).Ok? ==>
              var r := ScoreWords(rule, m, ws, tf, df, n).value;
              && r.Keys == m.Keys + (set w | w in ws)
              && forall w | w in r ::
                   if w in m then r[w] == m[w]
                   else w in tf && w in df && r[w] == Weigh(rule, tf[w], df[w], n)
    decreases |ws|
  {
    if ws != [] {
      var w, rest := ws[0], ws[1..];
      assert forall v :: v in ws <==> v == w || v in rest;
      if w in m {
        ScoreWordsOutcome(rule, m, rest, tf, df, n);
      } else if w in tf {
        var m1 := m[w := Weigh(rule, tf[w], df[w], n)];
        ScoreWordsOutcome(rule, m1, rest, tf, df, n);
      }
    }
  }

  /** Scorable on a prefix one document longer: the shorter prefix is
      scorable, and every word the new document introduces is a field of its
      space-split. */
  lemma ScorableStep(docs: seq<string>, k: nat)
    requires k < |docs|
    ensures Scorable(docs[..k + 1]) <==>
              Scorable(docs[..k]) &&
              forall w | w in Words(docs[k]) && w !in AllWords(docs[..k]) :: w in LocalTf(docs[k])
  {
    var p := docs[..k + 1];
    assert p[..k] == docs[..k];
    assert forall j | 0 <= j < k :: p[j] == docs[..k][j];
    assert AllWords(p) == AllWords(docs[..k]) + WordSet(docs[k]);
  }

  /** A prefix of a scorable corpus is scorable. */
  lemma {:induction false} ScorablePrefix(docs: seq<string>, k: nat)
    requires k <= |docs| && Scorable(docs)
    ensures Scorable(docs[..k])
    decreases |docs| - k
  {
    if k < |docs| {
      ScorablePrefix(docs, k + 1);
      ScorableStep(docs, k);
    } else {
      assert docs[..k] == docs;
    }
  }

  /** What the traversal has built after the first `k` documents: those
      documents are scorable, and every word of theirs has its first-sight
      score. */
  ghost predicate ScoredPrefix(docs: seq<string>, rule: Weighting, k: nat, m: map<string, Score>)
    requires k <= |docs|
  {
    && Scorable(docs[..k])
    && m.Keys == AllWords(docs[..k])
    && forall w | w in m :: ScoredAtFirstSight(docs, rule, w, m[w])
  }

  /** One more document: the traversal of document `k` succeeds exactly
      when the longer prefix is scorable. */
  lemma DocumentStepSucceeds(docs: seq<string>, rule: Weighting, k: nat, m: map<string, Score>)
    requires k < |docs| && Scorable(docs[..k]) && m.Keys == AllWords(docs[..k])
    ensures ScoreWords(rule, m, Words(docs[k]), LocalTf(docs[k]), DocFreq(docs), |docs|).Ok? <==>
              Scorable(docs[..k + 1])
  {
    ScorableStep(docs, k);
    AllWordsPrefix(docs, k + 1);
    assert docs[..k + 1][..k] == docs[..k];
    assert WordSet(docs[k]) <= AllWords(docs[..k + 1]);
    ScoreWordsOutcome(rule, m, Words(docs[k]), LocalTf(docs[k]), DocFreq(docs), |docs|);
  }

  /** The words document `i` adds to first-sight scores `m` of the earlier
      documents are scored at their first sight too. */
  lemma NewWordsScored(docs: seq<string>, rule: Weighting, i: nat, m: map<string, Score>, r: map<string, Score>)
    requires i < |docs| && m.Keys == AllWords(docs[..i])
    requires forall w | w in m :: ScoredAtFirstSight(docs, rule, w, m[w])
    requires r.Keys == m.Keys + (set w | w in Words(docs[i]))
    requires forall w | w in r && w !in m ::
               w in LocalTf(docs[i]) && w in DocFreq(docs) && DocFreq(docs)[w] >= 1 &&
               r[w] == Weigh(rule, LocalTf(docs[i])[w], DocFreq(docs)[w], |docs|)
    requires forall w | w in m :: r[w] == m[w]
    ensures forall w | w in r :: ScoredAtFirstSight(docs, rule, w, r[w])
  {
    forall w | w in r
      ensures ScoredAtFirstSight(docs, rule, w, r[w])
    {
      if w !in m {
        FirstSight(docs, i, w);
        ScoredNow(docs, rule, i, w);
      }
    }
  }

  /** One more document: a successful traversal of document `k` covers the
      words of the longer prefix and scores each at its first sight. */
  lemma DocumentStepScores(docs: seq<string>, rule: Weighting, k: nat, m: map<string, Score>)
    requires k < |docs| && m.Keys == AllWords(docs[..k])
    requires forall w | w in m :: ScoredAtFirstSight(docs, rule, w, m[w])
    ensures var r := ScoreWords(rule, m, Words(docs[k]), LocalTf(docs[k]), DocFreq(docs), |docs|);
            r.Ok? ==>
              && r.value.Keys == AllWords(docs[..k + 1])
              && forall w | w in r.value :: ScoredAtFirstSight(docs, rule, w, r.value[w])
  {
    var ws := Words(docs[k]);
    var r := ScoreWords(rule, m, ws, LocalTf(docs[k]), DocFreq(docs), |docs|);
    assert docs[..k + 1][..k] == docs[..k];
    assert AllWords(docs[..k + 1]) == AllWords(docs[..k]) + WordSet(docs[k]);
    AllWordsPrefix(docs, k + 1);
    ScoreWordsOutcome(rule, m, ws, LocalTf(docs[k]), DocFreq(docs), |docs|);
    if r.Ok? {
      NewWordsScored(docs, rule, k, m, r.value);
    }
  }

  /** The traversal from the scores of the first `k` documents succeeds
      exactly when the corpus is scorable, and then scores every word of the
      corpus with its first-sight score. */
  lemma {:induction false} ScoreFromMeaning(docs: seq<string>, rule: Weighting, k: nat, m: map<string, Score>)
    requires k <= |docs| && ScoredPrefix(docs, rule, k, m)
    ensures ScoreFrom(docs, rule, k, m).Ok? <==> Scorable(docs)
    ensures ScoreFrom(docs, rule, k, m).Ok? ==>
              && ScoreFrom(docs, rule, k, m).value.Keys == AllWords(docs)
              && forall w | w in ScoreFrom(docs, rule, k, m).value ::
                   ScoredAtFirstSight(docs, rule, w, ScoreFrom(docs, rule, k, m).value[w])
    decreases |docs| - k
  {
    if k == |docs| {
      assert docs[..k] == docs;
    } else {
      DocumentStepSucceeds(docs, rule, k, m);
      DocumentStepScores(docs, rule, k, m);
      var r := ScoreWords(rule, m, Words(docs[k]), LocalTf(docs[k]), DocFreq(docs), |docs|);
      if r.Ok? {
        ScoreFromMeaning(docs, rule, k + 1, r.value);
      } else if Scorable(docs) {
        ScorablePrefix(docs, k + 1);
      }
    }
  }

  /** The whole traversal succeeds exactly when every word of the corpus is
      a field of the space-split of the first document containing it; it
      then scores every word of the corpus, and only those, at its first
      sight. */
  lemma ScoreCorpusMeaning(docs: seq<string>, rule: Weighting)
    ensures ScoreCorpus(docs, rule).Ok? <==> Scorable(docs)
    ensures ScoreCorpus(docs, rule).Ok? ==>
              && ScoreCorpus(docs, rule).value.Keys == AllWords(docs)
              && forall w | w in ScoreCorpus(docs, rule).value ::
                   ScoredAtFirstSight(docs, rule, w, ScoreCorpus(docs, rule).value[w])
  {
    assert docs[..0] == [];
    ScoreFromMeaning(docs, rule, 0, map[]);
  }

  /** When every letter-run word of each document is also a field of its
      space-split (as for text of letter words joined by single spaces),
      every lookup finds its count and the traversal succeeds. */
  lemma AgreeingCutsScore(docs: seq<string>, rule: Weighting)
    requires forall i, w | 0 <= i < |docs| && w in Words(docs[i]) :: w in SplitOnSpace(docs[i])
    ensures Scorable(docs) && ScoreCorpus(docs, rule).Ok?
  {
    forall w | w in AllWords(docs) ensures w in LocalTf(docs[FirstDoc(docs, w)]) {
      FirstDocIsFirst(docs, w);
    }
    ScoreCorpusMeaning(docs, rule);
  }

  /** A word followed by punctuation is a letter-run word but not a field of
      the space-split, so the first lookup of it dereferences null. */
  lemma PunctuationDereferencesNull(rule: Weighting)
    ensures !Scorable(["one,"]) && ScoreCorpus(["one,"], rule) == NullDereference
  {
    var d := "one,";
    assert RunLength(d[3..]) == 0;
    assert RunLength(d[2..]) == 1;
    assert RunLength(d[1..]) == 2;
    assert RunLength(d) == 3;
    assert d[..3] == "one";
    assert Words(d[4..]) == [];
    assert Words(d[3..]) == [];
    assert Words(d) == ["one"];
    assert LocalTf(d) == map[d := 1];
    assert "one" in AllWords([d]);
    ScoreCorpusMeaning([d], rule);
  }

  /** Only the first sighting is looked up: a later document whose
      space-split lacks an already scored word does no harm. */
  lemma LaterMissIsHarmless(rule: Weighting)
    ensures Scorable(["one", "one,"]) && ScoreCorpus(["one", "one,"], rule).Ok?
  {
    var docs := ["one", "one,"];
    var d := "one,";
    assert RunLength(d[3..]) == 0;
    assert RunLength(d[2..]) == 1;
    assert RunLength(d[1..]) == 2;
    assert RunLength(d) == 3;
    assert d[..3] == "one";
    assert Words(d[4..]) == [];
    assert Words(d[3..]) == [];
    assert Words(d) == ["one"];
    WordsOfSingleSpaced(["one"]);
    assert Words("one") == ["one"];
    assert docs[..1] == ["one"];
    assert docs[..1][..0] == [];
    assert AllWords(docs) == {"one"};
    assert "one" in AllWords(docs[..1]);
    FirstDocPrefix(docs, 1, "one");
    assert FirstDoc(docs[..1], "one") == 0;
    assert LocalTf("one") == map["one" := 1];
    ScoreCorpusMeaning(docs, rule);
  }
}
