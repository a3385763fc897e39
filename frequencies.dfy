/**
 What the scorer's counting loops compute, stated without loops: the
 occurrence count of each element of a list, the corpus-wide term
 frequency, the document frequency, and the document in which a word is
 first seen.
 */
module Frequencies {
  import opened Text

  // ---------------------------------------------------------------------
  // Counting the elements of a list

  /** How often `w` occurs in `xs`, counted one element at a time. */
  function Occurrences(xs: seq<string>, w: string): nat
    decreases |xs|
  {
    if xs == [] then 0
    else (if xs[0] == w then 1 else 0) + Occurrences(xs[1..], w)
  }

  /** The frequency map of `xs`: each element that occurs, with its
      multiplicity. */
  function Tally(xs: seq<string>): (m: map<string, int>)
    ensures m.Keys == set w | w in xs
    ensures forall w | w in m :: m[w] >= 1
  {
    map w | w in multiset(xs) :: multiset(xs)[w]
  }

  /** The effect of one upsert on the counts: a word seen for the first time
      gets 1, a word seen before goes up by one. */
  function Bump(m: map<string, int>, w: string): map<string, int>
  {
    if w in m then m[w := m[w] + 1] else m[w := 1]
  }

  lemma {:induction false} BagIsOccurrences(xs: seq<string>, w: string)
    ensures multiset(xs)[w] == Occurrences(xs, w)
    decreases |xs|
  {
    if xs != [] {
      BagIsOccurrences(xs[1..], w);
      assert xs == [xs[0]] + xs[1..];
    }
  }

  /** Each count is the number of occurrences of its word in the list. */
  lemma TallyIsOccurrences(xs: seq<string>)
    ensures forall w | w in Tally(xs) :: Tally(xs)[w] == Occurrences(xs, w)
  {
    forall w | w in Tally(xs) ensures Tally(xs)[w] == Occurrences(xs, w) {
      BagIsOccurrences(xs, w);
    }
  }

  /** Counting does not depend on the order of the list. */
  lemma TallyOrderIndependent(xs: seq<string>, ys: seq<string>)
    requires multiset(xs) == multiset(ys)
    ensures Tally(xs) == Tally(ys)
  {
  }

  /** Counting one more element is one upsert. */
  lemma TallySnoc(xs: seq<string>, x: string)
    ensures Tally(xs + [x]) == Bump(Tally(xs), x)
  {
    assert multiset(xs + [x]) == multiset(xs) + multiset{x};
  }

  /** The upsert applied to each element of `xs` in turn, starting from
      the counts `m`. */
  function BumpAll(m: map<string, int>, xs: seq<string>): map<string, int>
    decreases |xs|
  {
    if xs == [] then m else BumpAll(Bump(m, xs[0]), xs[1..])
  }

  /** Upserting the elements of `xs` into the counts of `before` gives the
      counts of `before + xs`. */
  lemma {:induction false} BumpAllIsTally(before: seq<string>, xs: seq<string>)
    ensures BumpAll(Tally(before), xs) == Tally(before + xs)
    decreases |xs|
  {
    if xs == [] {
      assert before + xs == before;
    } else {
      TallySnoc(before, xs[0]);
      BumpAllIsTally(before + [xs[0]], xs[1..]);
      assert before + [xs[0]] + xs[1..] == before + xs;
    }
  }

  // ---------------------------------------------------------------------
  // The sum of the counts

  /** The sum of the values of a map. */
  ghost function SumValues(m: map<string, int>): int
    decreases |m|
  {
    if m == map[] then 0
    else
      var k :| k in m;
      m[k] + SumValues(m - {k})
  }

  /** The sum may take the keys in any order. */
  lemma {:induction false} SumValuesRemove(m: map<string, int>, k: string)
    requires k in m
    ensures SumValues(m) == m[k] + SumValues(m - {k})
    decreases |m|
  {
    var j :| j in m && SumValues(m) == m[j] + SumValues(m - {j});
    if j != k {
      assert (m - {j}).Keys == m.Keys - {j};
      assert (m - {k}).Keys == m.Keys - {k};
      SumValuesRemove(m - {j}, k);
      SumValuesRemove(m - {k}, j);
      assert m - {j} - {k} == m - {k} - {j};
    }
  }

  lemma SumValuesBump(m: map<string, int>, w: string)
    ensures SumValues(Bump(m, w)) == SumValues(m) + 1
  {
    var b := Bump(m, w);
    SumValuesRemove(b, w);
    if w in m {
      SumValuesRemove(m, w);
      assert b - {w} == m - {w};
    } else {
      assert b - {w} == m;
    }
  }

  /** The counts add up to the length of the list. */
  lemma {:induction false} TallySum(xs: seq<string>)
    ensures SumValues(Tally(xs)) == |xs|
    decreases |xs|
  {
    if xs == [] {
      assert Tally(xs) == map[];
    } else {
      var p := xs[..|xs| - 1];
      TallySum(p);
      assert xs == p + [xs[|xs| - 1]];
      TallySnoc(p, xs[|xs| - 1]);
      SumValuesBump(Tally(p), xs[|xs| - 1]);
    }
  }

  // ---------------------------------------------------------------------
  // The corpus

  /** Every token of every document, document after document. */
  function CorpusWords(docs: seq<string>): seq<string>
    decreases |docs|
  {
    if docs == [] then []
    else CorpusWords(docs[..|docs| - 1]) + Words(docs[|docs| - 1])
  }

  /** The total number of tokens, summed document by document. */
  function TokenCount(docs: seq<string>): nat
    decreases |docs|
  {
    if docs == [] then 0 else |Words(docs[0])| + TokenCount(docs[1..])
  }

  /** The distinct words of one document. */
  function WordSet(d: string): set<string>
  {
    set w | w in Words(d)
  }

  /** Every word that occurs in some document. */
  function AllWords(docs: seq<string>): set<string>
    decreases |docs|
  {
    if docs == [] then {}
    else AllWords(docs[..|docs| - 1]) + WordSet(docs[|docs| - 1])
  }

  /** Each document contributes each of its distinct words once. */
  function DocBag(docs: seq<string>): multiset<string>
    decreases |docs|
  {
    if docs == [] then multiset{}
    else DocBag(docs[..|docs| - 1]) + multiset(WordSet(docs[|docs| - 1]))
  }

  /** The positions of the documents that contain `w`. */
  function DocsContaining(docs: seq<string>, w: string): set<int>
  {
    set i | 0 <= i < |docs| && w in WordSet(docs[i])
  }

  lemma {:induction false} DocBagFacts(docs: seq<string>)
    ensures forall w :: w in DocBag(docs) <==> w in AllWords(docs)
    ensures forall w :: DocBag(docs)[w] <= |docs|
    decreases |docs|
  {
    if docs != [] {
      DocBagFacts(docs[..|docs| - 1]);
    }
  }

  /** The document frequency: each word that occurs in the corpus, with the
      number of documents it occurs in, which lies between 1 and the number
      of documents. */
  function DocFreq(docs: seq<string>): (m: map<string, int>)
    ensures m.Keys == AllWords(docs)
    ensures forall w | w in m :: 1 <= m[w] <= |docs|
  {
    DocBagFacts(docs);
    map w | w in DocBag(docs) :: DocBag(docs)[w]
  }

  lemma {:induction false} DocBagCountsDocuments(docs: seq<string>, w: string)
    ensures DocBag(docs)[w] == |DocsContaining(docs, w)|
    decreases |docs|
  {
    if docs != [] {
      var p := docs[..|docs| - 1];
      var n := |p|;
      DocBagCountsDocuments(p, w);
      var before := DocsContaining(p, w);
      assert forall i | 0 <= i < n :: docs[i] == p[i];
      if w in WordSet(docs[n]) {
        assert DocsContaining(docs, w) == before + {n};
        assert n !in before;
      } else {
        assert DocsContaining(docs, w) == before;
      }
    }
  }

  /** A word's document frequency is the number of documents that contain
      it, and a word is a key exactly when some document contains it. */
  lemma DocFreqCountsDocuments(docs: seq<string>, w: string)
    ensures w in DocFreq(docs) <==> DocsContaining(docs, w) != {}
    ensures w in DocFreq(docs) ==> DocFreq(docs)[w] == |DocsContaining(docs, w)|
  {
    DocBagFacts(docs);
    DocBagCountsDocuments(docs, w);
  }

  /** A word repeated inside one document adds only one to its document
      frequency, however often it occurs there. */
  lemma OneDocumentCountsOnce(d: string)
    ensures forall w | w in Words(d) :: DocFreq([d])[w] == 1
  {
    assert [d][..0] == [];
  }

  lemma {:induction false} AllWordsPrefix(docs: seq<string>, i: nat)
    requires i <= |docs|
    ensures AllWords(docs[..i]) <= AllWords(docs)
    decreases |docs| - i
  {
    if i < |docs| {
      assert docs[..i + 1][..i] == docs[..i];
      AllWordsPrefix(docs, i + 1);
    } else {
      assert docs[..i] == docs;
    }
  }

  /** One more document adds its own words to the corpus vocabulary. */
  lemma AllWordsStep(docs: seq<string>, i: nat)
    requires i < |docs|
    ensures AllWords(docs[..i + 1]) == AllWords(docs[..i]) + WordSet(docs[i])
    ensures WordSet(docs[i]) <= AllWords(docs)
  {
    assert docs[..i + 1][..i] == docs[..i];
    AllWordsPrefix(docs, i + 1);
  }

  /** The words of the corpus are the words of its documents. */
  lemma {:induction false} AllWordsMember(docs: seq<string>, w: string)
    ensures w in AllWords(docs) <==> exists i :: 0 <= i < |docs| && w in WordSet(docs[i])
    decreases |docs|
  {
    if docs != [] {
      var p := docs[..|docs| - 1];
      AllWordsMember(p, w);
      assert forall i | 0 <= i < |p| :: docs[i] == p[i];
    }
  }

  /** The words that occur somewhere in the corpus, counted with repetition
      (the keys of the term frequency), are the words of the corpus (the
      keys of the document frequency). */
  lemma {:induction false} CorpusWordsAreAllWords(docs: seq<string>)
    ensures (set w | w in CorpusWords(docs)) == AllWords(docs)
    decreases |docs|
  {
    if docs != [] {
      CorpusWordsAreAllWords(docs[..|docs| - 1]);
    }
  }

  lemma {:induction false} TokenCountSnoc(docs: seq<string>, d: string)
    ensures TokenCount(docs + [d]) == TokenCount(docs) + |Words(d)|
    decreases |docs|
  {
    if docs != [] {
      assert (docs + [d])[1..] == docs[1..] + [d];
      TokenCountSnoc(docs[1..], d);
    }
  }

  /** There are as many corpus tokens as the documents have words. */
  lemma {:induction false} CorpusWordsLength(docs: seq<string>)
    ensures |CorpusWords(docs)| == TokenCount(docs)
    decreases |docs|
  {
    if docs != [] {
      var p := docs[..|docs| - 1];
      CorpusWordsLength(p);
      assert docs == p + [docs[|docs| - 1]];
      TokenCountSnoc(p, docs[|docs| - 1]);
    }
  }

  /** The term frequencies of the corpus add up to its number of tokens. */
  lemma TfSumIsTokenCount(docs: seq<string>)
    ensures SumValues(Tally(CorpusWords(docs))) == TokenCount(docs)
  {
    TallySum(CorpusWords(docs));
    CorpusWordsLength(docs);
  }

  // ---------------------------------------------------------------------
  // First-seen order, for the scores that keep the first value written

  /** The position of the first document that contains `w`. */
  function FirstDoc(docs: seq<string>, w: string): (k: nat)
    requires w in AllWords(docs)
    ensures k < |docs|
    decreases |docs|
  {
    var p := docs[..|docs| - 1];
    if w in AllWords(p) then FirstDoc(p, w) else |docs| - 1
  }

  /** The first document containing `w` contains it, and no earlier one
      does. */
  lemma {:induction false} FirstDocIsFirst(docs: seq<string>, w: string)
    requires w in AllWords(docs)
    ensures w in WordSet(docs[FirstDoc(docs, w)])
    ensures forall j :: 0 <= j < FirstDoc(docs, w) ==> w !in WordSet(docs[j])
    decreases |docs|
  {
    var p := docs[..|docs| - 1];
    assert forall i | 0 <= i < |p| :: docs[i] == p[i];
    if w in AllWords(p) {
      FirstDocIsFirst(p, w);
    } else {
      AllWordsMember(p, w);
    }
  }

  /** Looking at a prefix that already contains `w` finds the same first
      document. */
  lemma {:induction false} FirstDocPrefix(docs: seq<string>, i: nat, w: string)
    requires i <= |docs| && w in AllWords(docs[..i])
    ensures w in AllWords(docs) && FirstDoc(docs, w) == FirstDoc(docs[..i], w)
    decreases |docs| - i
  {
    AllWordsPrefix(docs, i);
    if i < |docs| {
      assert docs[..i + 1][..i] == docs[..i];
      assert w in AllWords(docs[..i + 1]);
      FirstDocPrefix(docs, i + 1, w);
    } else {
      assert docs[..i] == docs;
    }
  }

  /** A word of document `i` that no earlier document contains is first
      seen in document `i`. */
  lemma FirstSight(docs: seq<string>, i: nat, w: string)
    requires i < |docs| && w in Words(docs[i]) && w !in AllWords(docs[..i])
    ensures w in AllWords(docs) && FirstDoc(docs, w) == i
  {
    assert docs[..i + 1][..i] == docs[..i];
    assert w in AllWords(docs[..i + 1]);
    FirstDocPrefix(docs, i + 1, w);
  }

  /** The term frequency of one document as `tf(String)` computes it: the
      fields of `split(" ")`, counted. */
  function LocalTf(d: string): map<string, int>
  {
    Tally(SplitOnSpace(d))
  }

  /** Whether the tf-idf loops can look every word up: each word must be a
      field of the space-split of the first document that contains it. */
  predicate Scorable(docs: seq<string>)
  {
    forall w | w in AllWords(docs) :: w in LocalTf(docs[FirstDoc(docs, w)])
  }
}
