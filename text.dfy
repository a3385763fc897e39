/**
 This module gives the meaning of the two ways the scorer cuts a document
 into words: the letter-run tokenizer (the regular expression `[a-zA-Z]+`
 applied with repeated `find`) and Java's `String.split(" ")`.
 */
module Text {

  /** An ASCII letter, the character class `[a-zA-Z]`. */
  predicate IsLetter(c: char) {
    'a' <= c <= 'z' || 'A' <= c <= 'Z'
  }

  predicate AllLetters(s: string) {
    forall k :: 0 <= k < |s| ==> IsLetter(s[k])
  }

  predicate NoLetters(s: string) {
    forall k :: 0 <= k < |s| ==> !IsLetter(s[k])
  }

  /** The length of the run of letters at the front of `s`: the greedy match
      of `[a-zA-Z]+` when one starts at position 0. */
  function RunLength(s: string): (n: nat)
    ensures n <= |s|
    ensures AllLetters(s[..n])
    ensures n == |s| || !IsLetter(s[n])
  {
    if s == [] || !IsLetter(s[0]) then 0
    else
      var m := RunLength(s[1..]);
      assert s[..1 + m] == [s[0]] + s[1..][..m];
      1 + m
  }

  /** The three properties of RunLength determine it. */
  lemma RunLengthUnique(s: string, n: nat)
    requires n <= |s| && AllLetters(s[..n]) && (n == |s| || !IsLetter(s[n]))
    ensures RunLength(s) == n
  {
    assert forall k :: 0 <= k < n ==> s[..n][k] == s[k];
    var m := RunLength(s);
    assert forall k :: 0 <= k < m ==> s[..m][k] == s[k];
  }

  /** The words the tokenizer reports, left to right: every maximal run of
      letters. Everything else separates words and is dropped. */
  function Words(s: string): seq<string>
    decreases |s|
  {
    if s == [] then []
    else if !IsLetter(s[0]) then Words(s[1..])
    else
      var n := RunLength(s);
      [s[..n]] + Words(s[n..])
  }

  /** The stretches of non-letters around the words of `s`: one before the
      first word, one between each two words, one after the last. */
  function Separators(s: string): (gaps: seq<string>)
    ensures |gaps| == |Words(s)| + 1
    decreases |s|
  {
    if s == [] then [[]]
    else if !IsLetter(s[0]) then
      var rest := Separators(s[1..]);
      [[s[0]] + rest[0]] + rest[1..]
    else
      [[]] + Separators(s[RunLength(s)..])
  }

  /** gaps[0] + words[0] + gaps[1] + ... + words[n-1] + gaps[n] */
  function Weave(gaps: seq<string>, words: seq<string>): string
    requires |gaps| == |words| + 1
    decreases |words|
  {
    if words == [] then gaps[0]
    else gaps[0] + words[0] + Weave(gaps[1..], words[1..])
  }

  /** Every reported word is non-empty and made only of letters. */
  lemma {:induction false} WordsAreLetterRuns(s: string)
    ensures forall k :: 0 <= k < |Words(s)| ==> Words(s)[k] != [] && AllLetters(Words(s)[k])
    decreases |s|
  {
    if s == [] {
    } else if !IsLetter(s[0]) {
      WordsAreLetterRuns(s[1..]);
    } else {
      var n := RunLength(s);
      WordsAreLetterRuns(s[n..]);
    }
  }

  /** Prepending a character to the first separator prepends it to the
      weave. */
  lemma WeaveCons(c: char, gaps: seq<string>, words: seq<string>)
    requires |gaps| == |words| + 1
    ensures Weave([[c] + gaps[0]] + gaps[1..], words) == [c] + Weave(gaps, words)
  {
    var g := [[c] + gaps[0]] + gaps[1..];
    assert g[1..] == gaps[1..];
    if words != [] {
      assert Weave(g, words) == ([c] + gaps[0]) + words[0] + Weave(gaps[1..], words[1..]);
    }
  }

  /** A word with an empty separator before it adds just the word. */
  lemma WeaveWord(word: string, gaps: seq<string>, words: seq<string>)
    requires |gaps| == |words| + 1
    ensures Weave([[]] + gaps, [word] + words) == word + Weave(gaps, words)
  {
    assert ([[]] + gaps)[1..] == gaps;
    assert ([word] + words)[1..] == words;
  }

  /** The words, in order, together with the separators rebuild `s`. */
  lemma {:induction false} WeaveRebuilds(s: string)
    ensures Weave(Separators(s), Words(s)) == s
    decreases |s|
  {
    if s == [] {
    } else if !IsLetter(s[0]) {
      var t := s[1..];
      WeaveRebuilds(t);
      WeaveCons(s[0], Separators(t), Words(t));
      assert s == [s[0]] + t;
    } else {
      var n := RunLength(s);
      var t := s[n..];
      WeaveRebuilds(t);
      WeaveWord(s[..n], Separators(t), Words(t));
      assert s == s[..n] + t;
    }
  }

  /** No separator holds a letter. */
  lemma {:induction false} SeparatorsHaveNoLetters(s: string)
    ensures forall k :: 0 <= k < |Separators(s)| ==> NoLetters(Separators(s)[k])
    decreases |s|
  {
    if s == [] {
    } else if !IsLetter(s[0]) {
      var t := s[1..];
      SeparatorsHaveNoLetters(t);
      var g := Separators(t);
      var h := [s[0]] + g[0];
      assert Separators(s) == [h] + g[1..];
      forall i | 0 <= i < |h| ensures !IsLetter(h[i]) {
        if i > 0 { assert h[i] == g[0][i - 1]; }
      }
    } else {
      var t := s[RunLength(s)..];
      SeparatorsHaveNoLetters(t);
      assert Separators(s) == [[]] + Separators(t);
    }
  }

  /** Every separator standing between two words is non-empty. */
  lemma {:induction false} InnerSeparatorsNonEmpty(s: string)
    ensures forall k :: 0 < k < |Words(s)| ==> Separators(s)[k] != []
    decreases |s|
  {
    if s == [] {
    } else if !IsLetter(s[0]) {
      var t := s[1..];
      InnerSeparatorsNonEmpty(t);
      assert Separators(s)[1..] == Separators(t)[1..];
    } else {
      var n := RunLength(s);
      var t := s[n..];
      InnerSeparatorsNonEmpty(t);
      var g := Separators(t);
      assert Separators(s) == [[]] + g;
      if Words(t) != [] {
        // a word follows, so t is not empty and starts with a non-letter
        assert t != [] && !IsLetter(t[0]);
        assert g[0] == [t[0]] + Separators(t[1..])[0];
      }
    }
  }

  /** The tokenizer's output is a layout of `s`: the words, in order of
      appearance, interleaved with letter-free separators rebuild `s`
      exactly, and every separator between two words is non-empty, so no
      word could be extended: each word is a maximal run of letters. */
  lemma WordsLayout(s: string)
    ensures Weave(Separators(s), Words(s)) == s
    ensures forall k :: 0 <= k < |Separators(s)| ==> NoLetters(Separators(s)[k])
    ensures forall k :: 0 < k < |Words(s)| ==> Separators(s)[k] != []
  {
    WeaveRebuilds(s);
    SeparatorsHaveNoLetters(s);
    InnerSeparatorsNonEmpty(s);
  }

  /** The tokenizer finds nothing exactly when the input holds no letter. */
  lemma {:induction false} NoWordsIffNoLetters(s: string)
    ensures Words(s) == [] <==> NoLetters(s)
    decreases |s|
  {
    if s != [] && !IsLetter(s[0]) {
      NoWordsIffNoLetters(s[1..]);
      if NoLetters(s[1..]) {
        forall k | 0 <= k < |s| ensures !IsLetter(s[k]) {
          if k > 0 { assert s[k] == s[1..][k - 1]; }
        }
      }
    }
  }

  // ---------------------------------------------------------------------
  // Java's String.split(" ")

  /** `s` cut at every space: the fields between spaces, empty ones included. */
  function Fields(s: string): (fs: seq<string>)
    ensures |fs| >= 1
    decreases |s|
  {
    if s == [] then [[]]
    else
      var rest := Fields(s[1..]);
      if s[0] == ' ' then [[]] + rest
      else [[s[0]] + rest[0]] + rest[1..]
  }

  /** The fields glued back with one space between each two. */
  function Join(fs: seq<string>): string
    requires |fs| >= 1
    decreases |fs|
  {
    if |fs| == 1 then fs[0] else fs[0] + " " + Join(fs[1..])
  }

  /** Cutting at every space and joining with spaces gives back the input. */
  lemma {:induction false} FieldsJoin(s: string)
    ensures Join(Fields(s)) == s
    decreases |s|
  {
    if s != [] {
      var rest := Fields(s[1..]);
      FieldsJoin(s[1..]);
      assert s == [s[0]] + s[1..];
      if s[0] != ' ' && |rest| > 1 {
        var fs := Fields(s);
        assert fs[1..] == rest[1..];
        assert Join(fs) == ([s[0]] + rest[0]) + " " + Join(rest[1..]);
      } else if s[0] == ' ' {
        assert Fields(s)[1..] == rest;
      }
    }
  }

  /** No field holds a space. */
  lemma {:induction false} FieldsHaveNoSpace(s: string)
    ensures forall k :: 0 <= k < |Fields(s)| ==> ' ' !in Fields(s)[k]
    decreases |s|
  {
    if s != [] {
      var rest := Fields(s[1..]);
      FieldsHaveNoSpace(s[1..]);
      var fs := Fields(s);
      if s[0] != ' ' {
        forall k | 0 <= k < |fs| ensures ' ' !in fs[k] {
          if k > 0 { assert fs[k] == rest[k]; }
        }
      } else {
        assert fs[1..] == rest;
      }
    }
  }

  /** The last field is non-empty when `s` does not end in a space. */
  lemma {:induction false} FieldsLastNonEmpty(s: string)
    requires s != [] && s[|s| - 1] != ' '
    ensures Fields(s)[|Fields(s)| - 1] != []
    decreases |s|
  {
    if |s| > 1 {
      assert s[1..][|s[1..]| - 1] == s[|s| - 1];
      FieldsLastNonEmpty(s[1..]);
    }
  }

  /** Java's rule for `split` with limit 0: when the separator never occurs
      (`whole`), the input comes back as the only field, even when empty;
      otherwise trailing empty fields are removed, while leading and
      interior empty fields are kept. */
  function DropTrailingEmpty(fs: seq<string>, whole: bool): (r: seq<string>)
    ensures |r| <= |fs| && r == fs[..|r|]
    ensures forall k :: |r| <= k < |fs| ==> fs[k] == []
    ensures whole ==> r == fs
    ensures whole || r == [] || r[|r| - 1] != []
    decreases |fs|
  {
    if whole || fs == [] || fs[|fs| - 1] != [] then fs
    else DropTrailingEmpty(fs[..|fs| - 1], whole)
  }

  /** A string without a space is a single field. */
  lemma {:induction false} NoSpaceOneField(s: string)
    ensures ' ' !in s ==> Fields(s) == [s]
    decreases |s|
  {
    if s != [] && ' ' !in s {
      assert forall c | c in s[1..] :: c in s;
      NoSpaceOneField(s[1..]);
      assert s == [s[0]] + s[1..];
    }
  }

  /** `s.split(" ")` in Java: a string without a space comes back whole, as
      its only element (even the empty string); otherwise the fields between
      spaces without the trailing empty ones. No piece holds a space. */
  function SplitOnSpace(s: string): (r: seq<string>)
    ensures forall k :: 0 <= k < |r| ==> ' ' !in r[k]
    ensures ' ' !in s ==> r == [s]
    ensures ' ' in s ==> r == [] || r[|r| - 1] != []
  {
    FieldsHaveNoSpace(s);
    NoSpaceOneField(s);
    DropTrailingEmpty(Fields(s), ' ' !in s)
  }

  /** When `s` does not end in a space the split keeps every field, so
      joining the pieces with single spaces gives `s` back. */
  lemma SplitOnSpaceRoundTrip(s: string)
    ensures s == [] || s[|s| - 1] != ' ' ==>
              |SplitOnSpace(s)| >= 1 && Join(SplitOnSpace(s)) == s
  {
    FieldsJoin(s);
    if ' ' in s && (s == [] || s[|s| - 1] != ' ') {
      FieldsLastNonEmpty(s);
      assert SplitOnSpace(s) == Fields(s);
    }
  }

  // ---------------------------------------------------------------------
  // Where the two cuts agree

  /** A field without a space followed by a space starts the fields. */
  lemma {:induction false} FieldsAfterField(a: string, b: string)
    requires ' ' !in a
    ensures Fields(a + " " + b) == [a] + Fields(b)
    decreases |a|
  {
    if a == [] {
      assert a + " " + b == [' '] + b;
      assert (a + " " + b)[1..] == b;
    } else {
      assert forall c | c in a[1..] :: c in a;
      FieldsAfterField(a[1..], b);
      assert (a + " " + b)[1..] == a[1..] + " " + b;
      assert a == [a[0]] + a[1..];
    }
  }

  /** A run of letters followed by a non-letter is read as one word. */
  lemma WordsAfterRun(w: string, rest: string)
    requires w != [] && AllLetters(w)
    requires rest == [] || !IsLetter(rest[0])
    ensures Words(w + rest) == [w] + Words(rest)
  {
    var s := w + rest;
    assert s[..|w|] == w;
    RunLengthUnique(s, |w|);
    assert s[|w|..] == rest;
  }

  /** The tokenizer reads letter words joined by single spaces back as
      those words. */
  lemma {:induction false} WordsOfSingleSpaced(ws: seq<string>)
    requires |ws| >= 1
    requires forall k :: 0 <= k < |ws| ==> ws[k] != [] && AllLetters(ws[k])
    ensures Words(Join(ws)) == ws
    decreases |ws|
  {
    var w := ws[0];
    if |ws| == 1 {
      WordsAfterRun(w, []);
      assert w + [] == w;
    } else {
      var t := Join(ws[1..]);
      WordsOfSingleSpaced(ws[1..]);
      WordsAfterRun(w, " " + t);
      assert w + " " + t == w + (" " + t);
      assert (" " + t)[1..] == t;
      assert ws == [w] + ws[1..];
    }
  }

  /** Cutting words without spaces, joined by single spaces, at every space
      gives the words back. */
  lemma {:induction false} FieldsOfJoin(ws: seq<string>)
    requires |ws| >= 1
    requires forall k :: 0 <= k < |ws| ==> ' ' !in ws[k]
    ensures Fields(Join(ws)) == ws
    decreases |ws|
  {
    NoSpaceOneField(ws[0]);
    if |ws| > 1 {
      FieldsOfJoin(ws[1..]);
      FieldsAfterField(ws[0], Join(ws[1..]));
      assert ws == [ws[0]] + ws[1..];
    }
  }

  /** Text made of words of letters joined by single spaces is cut the same
      way by the tokenizer and by `split(" ")`: both give the words back. */
  lemma SingleSpacedAgree(ws: seq<string>)
    requires |ws| >= 1
    requires forall k :: 0 <= k < |ws| ==> ws[k] != [] && AllLetters(ws[k])
    ensures Words(Join(ws)) == ws && Fields(Join(ws)) == ws
    ensures SplitOnSpace(Join(ws)) == ws
  {
    WordsOfSingleSpaced(ws);
    forall k | 0 <= k < |ws| ensures ' ' !in ws[k] {
      assert forall c | 0 <= c < |ws[k]| :: IsLetter(ws[k][c]);
    }
    FieldsOfJoin(ws);
    assert ws[|ws| - 1] != [];
  }
}
