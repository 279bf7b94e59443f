/** normalize_slang (streamlit_app.py:83-96): the sentence is split on
    whitespace, each token is looked up by its lower-cased form with ASCII
    punctuation stripped from both ends, a hit is replaced by the meaning and a
    miss is kept as written, and the results are joined by single spaces. */
module Normalizer {
  import opened Text
  import opened Seqs

  /** word.lower().strip(string.punctuation): the form a token is looked up
      by. It is a slice of the lower-cased token with only punctuation cut
      from its two ends, and neither of its ends is punctuation. */
  function LookupKey(word: string): (key: string)
    ensures exists a :: Strips(Lower(word), key, a, IsPunct)
    ensures IsLower(key) && Trimmed(key, IsPunct)
    ensures |key| <= |word|
  {
    Trim(Lower(word), IsPunct)
  }

  /** Punctuation around a word does not change the key it is looked up by:
      the key is the lower-cased word. */
  lemma {:induction false} LookupKeyPadded(p: string, w: string, q: string)
    requires forall i :: 0 <= i < |p| ==> IsPunct(p[i])
    requires forall i :: 0 <= i < |q| ==> IsPunct(q[i])
    requires Trimmed(w, IsPunct)
    ensures LookupKey(p + w + q) == Lower(w)
  {
    LowerPadded(p, w, q);
    LowerKeepsTrimmed(w);
    TrimPadded(p, Lower(w), q, IsPunct);
  }

  /** The token "LOL!" is looked up by the key "lol". */
  lemma {:induction false} LookupKeyExample()
    ensures LookupKey("LOL!") == "lol"
  {
    var p, w, q := "", "LOL", "!";
    assert p + w + q == "LOL!";
    assert Trimmed(w, IsPunct) by {
      assert w[0] == 'L' && w[|w| - 1] == 'L';
    }
    LookupKeyPadded(p, w, q);
    LowerExample();
  }

  lemma {:induction false} LowerExample()
    ensures Lower("LOL") == "lol"
  {
    var r := Lower("LOL");
    assert r[0] == 'l' && r[1] == 'o' && r[2] == 'l';
  }

  /** slang_dict.get(clean_word, word): the whole token, punctuation and case
      included, becomes the meaning on a hit and stays as written on a miss. */
  function Translate(word: string, slangDict: map<string, string>): (out: string)
    ensures LookupKey(word) in slangDict ==> out == slangDict[LookupKey(word)]
    ensures LookupKey(word) !in slangDict ==> out == word
  {
    var key := LookupKey(word);
    if key in slangDict then slangDict[key] else word
  }

  /** Every token translated, in order: each hit is replaced by its meaning
      and each miss is kept as written. */
  function TranslateAll(words: seq<string>, slangDict: map<string, string>): (out: seq<string>)
    ensures |out| == |words|
    ensures forall k :: 0 <= k < |words| && LookupKey(words[k]) in slangDict ==> out[k] == slangDict[LookupKey(words[k])]
    ensures forall k :: 0 <= k < |words| && LookupKey(words[k]) !in slangDict ==> out[k] == words[k]
  {
    MapSeq(words, w => Translate(w, slangDict))
  }

  lemma {:induction false} TranslateAllPrefix(words: seq<string>, i: nat, slangDict: map<string, string>)
    requires i < |words|
    ensures TranslateAll(words[..i + 1], slangDict) == TranslateAll(words[..i], slangDict) + [Translate(words[i], slangDict)]
  {
    MapSeqPrefix(words, i, w => Translate(w, slangDict));
  }

  /** The text normalize_slang returns for a sentence and a dictionary: an
      empty or whitespace-only sentence gives the empty text. */
  function Normalized(sentence: string, slangDict: map<string, string>): (out: string)
    ensures AllSpace(sentence) ==> out == ""
  {
    SplitEmpty(sentence);
    Join(TranslateAll(Split(sentence), slangDict))
  }

  /** The append loop of normalize_slang. The dictionary is a value here, so
      nothing the method does can change it. */
  method NormalizeSlang(sentence: string, slangDict: map<string, string>) returns (result: string)
    ensures result == Normalized(sentence, slangDict)
  {
    var normalizedWords: seq<string> := [];
    var words := Split(sentence);
    var i := 0;
    while i < |words|
      invariant 0 <= i <= |words|
      invariant normalizedWords == TranslateAll(words[..i], slangDict)
    {
      var word := words[i];
      var cleanWord := LookupKey(word);
      var normalized := if cleanWord in slangDict then slangDict[cleanWord] else word;
      TranslateAllPrefix(words, i, slangDict);
      normalizedWords := normalizedWords + [normalized];
      i := i + 1;
    }
    assert words[..i] == words;
    result := Join(normalizedWords);
  }

  // ---------------------------------------------------------------------
  // Properties of Normalized.

  /** A single token: on a hit the whole token becomes the meaning, on a miss
      it is returned verbatim. */
  lemma {:induction false} NormalizedWord(word: string, slangDict: map<string, string>)
    requires IsWord(word)
    ensures LookupKey(word) in slangDict ==> Normalized(word, slangDict) == slangDict[LookupKey(word)]
    ensures LookupKey(word) !in slangDict ==> Normalized(word, slangDict) == word
  {
    var out := Translate(word, slangDict);
    assert Normalized(word, slangDict) == Join(TranslateAll([word], slangDict)) by {
      SplitWord(word);
    }
    TranslateOne(word, slangDict);
    assert Join([out]) == out;
  }

  lemma {:induction false} TranslateOne(word: string, slangDict: map<string, string>)
    ensures TranslateAll([word], slangDict) == [Translate(word, slangDict)]
  {
    MapSeqSnoc([], word, w => Translate(w, slangDict));
    assert [] + [word] == [word];
  }

  /** No token of the list is looked up successfully. */
  predicate NoHits(words: seq<string>, slangDict: map<string, string>) {
    forall i :: 0 <= i < |words| ==> LookupKey(words[i]) !in slangDict
  }

  /** "LOL!" alone normalizes to the meaning of "lol", the "!" included in
      what is replaced. */
  lemma {:induction false} NormalizedExample()
    ensures Normalized("LOL!", map["lol" := "laughing out loud"]) == "laughing out loud"
  {
    var d := map["lol" := "laughing out loud"];
    LookupKeyExample();
    assert IsWord("LOL!");
    NormalizedWord("LOL!", d);
  }

  lemma {:induction false} TranslateAllMisses(words: seq<string>, slangDict: map<string, string>)
    requires NoHits(words, slangDict)
    ensures TranslateAll(words, slangDict) == words
  {
    MapSeqUnchanged(words, w => Translate(w, slangDict));
  }

  /** When no token is in the dictionary the output is the input's tokens
      joined by single spaces (every whitespace run collapses to one space,
      see NormalizedAtBlank), and an input that is already single-spaced comes
      back unchanged. */
  lemma {:induction false} NormalizedWithoutHits(sentence: string, slangDict: map<string, string>)
    requires NoHits(Split(sentence), slangDict)
    ensures Normalized(sentence, slangDict) == Join(Split(sentence))
    ensures sentence == Join(Split(sentence)) ==> Normalized(sentence, slangDict) == sentence
  {
    TranslateAllMisses(Split(sentence), slangDict);
  }

  /** Translation works token by token, so it distributes over concatenation. */
  lemma {:induction false} TranslateAllAppend(u: seq<string>, v: seq<string>, slangDict: map<string, string>)
    ensures TranslateAll(u + v, slangDict) == TranslateAll(u, slangDict) + TranslateAll(v, slangDict)
  {
    MapSeqAppend(u, v, w => Translate(w, slangDict));
  }

  /** Any whitespace run between two phrases with a token each becomes a single
      space in the output, whether it is spaces, a tab or a newline. */
  lemma {:induction false} NormalizedAtBlank(a: string, sp: string, b: string, slangDict: map<string, string>)
    requires IsBlank(sp) && !AllSpace(a) && !AllSpace(b)
    ensures Normalized(a + sp + b, slangDict) == Normalized(a, slangDict) + " " + Normalized(b, slangDict)
  {
    SplitAtBlank(a, sp, b);
    SplitEmpty(a);
    SplitEmpty(b);
    TranslateAllAppend(Split(a), Split(b), slangDict);
    JoinAppend(TranslateAll(Split(a), slangDict), TranslateAll(Split(b), slangDict));
  }

  /** A phrase that normalization leaves alone: it has a token, it is
      single-spaced, and none of its tokens is looked up successfully. */
  predicate Settled(phrase: string, slangDict: map<string, string>) {
    Split(phrase) != [] && Join(Split(phrase)) == phrase && NoHits(Split(phrase), slangDict)
  }

  /** Every meaning is a settled phrase. */
  predicate SettledMeanings(slangDict: map<string, string>) {
    forall k :: k in slangDict ==> Settled(slangDict[k], slangDict)
  }

  /** The tokens of several phrases, in order. */
  function SplitAll(phrases: seq<string>): seq<string> {
    if phrases == [] then [] else Split(phrases[0]) + SplitAll(phrases[1..])
  }

  /** Splitting a space-joined list of phrases gives their tokens in order. */
  lemma {:induction false} SplitOfJoin(phrases: seq<string>)
    ensures Split(Join(phrases)) == SplitAll(phrases)
  {
    if phrases == [] {
      SplitEmpty("");
    } else if |phrases| == 1 {
      assert SplitAll(phrases[1..]) == [];
      AppendEmpty(Split(phrases[0]));
    } else {
      SpaceIsBlank();
      SplitAtBlank(phrases[0], " ", Join(phrases[1..]));
      SplitOfJoin(phrases[1..]);
    }
  }

  /** Settled phrases contribute only tokens that miss. */
  lemma {:induction false} SplitAllMisses(phrases: seq<string>, slangDict: map<string, string>)
    requires forall i :: 0 <= i < |phrases| ==> Settled(phrases[i], slangDict)
    ensures NoHits(SplitAll(phrases), slangDict)
  {
    if phrases != [] {
      assert forall i :: 0 <= i < |phrases[1..]| ==> phrases[1..][i] == phrases[i + 1];
      SplitAllMisses(phrases[1..], slangDict);
      assert Settled(phrases[0], slangDict);
      NoHitsAppend(Split(phrases[0]), SplitAll(phrases[1..]), slangDict);
    }
  }

  lemma {:induction false} NoHitsAppend(a: seq<string>, b: seq<string>, slangDict: map<string, string>)
    requires NoHits(a, slangDict) && NoHits(b, slangDict)
    ensures NoHits(a + b, slangDict)
  {
    forall j | 0 <= j < |a + b| ensures LookupKey((a + b)[j]) !in slangDict {
      if j < |a| {
        assert (a + b)[j] == a[j];
      } else {
        assert (a + b)[j] == b[j - |a|];
      }
    }
  }

  /** Re-joining the tokens of single-spaced phrases gives back their join. */
  lemma {:induction false} JoinSplitAll(phrases: seq<string>, slangDict: map<string, string>)
    requires forall i :: 0 <= i < |phrases| ==> Settled(phrases[i], slangDict)
    ensures Join(SplitAll(phrases)) == Join(phrases)
    ensures phrases != [] ==> SplitAll(phrases) != []
  {
    if phrases != [] {
      var first := phrases[0];
      assert Settled(first, slangDict);
      if |phrases| == 1 {
        assert SplitAll(phrases[1..]) == [];
        AppendEmpty(Split(first));
      } else {
        JoinSplitAll(phrases[1..], slangDict);
        JoinAppend(Split(first), SplitAll(phrases[1..]));
      }
    }
  }

  /** Single-spaced settled phrases joined together are settled as a whole. */
  lemma {:induction false} JoinOfSettled(phrases: seq<string>, slangDict: map<string, string>)
    requires forall i :: 0 <= i < |phrases| ==> Settled(phrases[i], slangDict)
    ensures Normalized(Join(phrases), slangDict) == Join(phrases)
  {
    SplitOfJoin(phrases);
    SplitAllMisses(phrases, slangDict);
    TranslateAllMisses(SplitAll(phrases), slangDict);
    JoinSplitAll(phrases, slangDict);
  }

  /** Each output piece is settled when every meaning is. */
  lemma {:induction false} TranslatedSettled(word: string, slangDict: map<string, string>)
    requires IsWord(word) && SettledMeanings(slangDict)
    ensures Settled(Translate(word, slangDict), slangDict)
  {
    var key := LookupKey(word);
    if key !in slangDict {
      assert Translate(word, slangDict) == word;
      MissSettled(word, slangDict);
    } else {
      assert Translate(word, slangDict) == slangDict[key];
      assert Settled(slangDict[key], slangDict);
    }
  }

  /** A token the dictionary does not look up is settled on its own. */
  lemma {:induction false} MissSettled(word: string, slangDict: map<string, string>)
    requires IsWord(word) && LookupKey(word) !in slangDict
    ensures Settled(word, slangDict)
  {
    assert NoHits([word], slangDict) by {
      assert [word][0] == word;
    }
    assert Join([word]) == word;
    SplitWord(word);
    SettledByTokens(word, [word], slangDict);
  }

  lemma {:induction false} SettledByTokens(phrase: string, words: seq<string>, slangDict: map<string, string>)
    requires Split(phrase) == words && words != [] && Join(words) == phrase && NoHits(words, slangDict)
    ensures Settled(phrase, slangDict)
  {
  }

  /** Normalizing twice is normalizing once when every meaning is a settled
      phrase: single-spaced, non-empty, and made of tokens the dictionary
      does not look up. */
  lemma {:induction false} NormalizedIdempotent(sentence: string, slangDict: map<string, string>)
    requires SettledMeanings(slangDict)
    ensures Normalized(Normalized(sentence, slangDict), slangDict) == Normalized(sentence, slangDict)
  {
    var words := Split(sentence);
    var outs := TranslateAll(words, slangDict);
    forall i | 0 <= i < |outs| ensures Settled(outs[i], slangDict) {
      TranslatedSettled(words[i], slangDict);
    }
    JoinOfSettled(outs, slangDict);
  }
}
