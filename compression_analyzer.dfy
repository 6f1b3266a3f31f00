/**
 The compression-anomaly finder: for every non-empty word of a list and every
 tokenizer the provider reports on it, the characters-per-token ratio is
 computed, and a record is kept for each ratio strictly above a threshold.

 The tokenization provider is an abstract, deterministic, total function from
 a word to the ordered list of (tokenizer name, tokenization) entries it
 produces. Ratios are exact reals.
 */
module CompressionAnalyzer {

  /** What one tokenizer produced for one string: token texts and token ids. */
  datatype Tokenization = Tokenization(tokens: seq<string>, ids: seq<int>)

  /** One entry of a provider's answer: the tokenizer's name and its output. */
  datatype TokenizerEntry = TokenizerEntry(tokenizerName: string, data: Tokenization)

  /** The provider's answer for one word, in the order the provider reports it. */
  type AnalysisResult = seq<TokenizerEntry>

  /** The tokenization provider. */
  type Provider = string -> AnalysisResult

  /** One flagged (word, tokenizer) pair. */
  datatype AnomalyRecord = AnomalyRecord(
    inputString: string,
    targetTokenizer: string,
    charCount: nat,
    tokenCount: nat,
    ratio: real)

  /** The threshold used when the caller gives none. */
  const DefaultThreshold: real := 10.0

  /** Characters per token, with 0.0 standing for "no tokens at all". */
  function Ratio(charCount: nat, tokenCount: nat): (r: real)
    ensures tokenCount == 0 ==> r == 0.0
    ensures tokenCount > 0 ==> r * (tokenCount as real) == charCount as real
    ensures 0.0 <= r <= charCount as real
  {
    if tokenCount == 0 then 0.0 else charCount as real / tokenCount as real
  }

  /** The record that `word` and one provider entry would produce if flagged. */
  function MakeRecord(word: string, e: TokenizerEntry): (r: AnomalyRecord)
    ensures r.inputString == word && r.targetTokenizer == e.tokenizerName
    ensures r.charCount == |word| && r.tokenCount == |e.data.tokens|
    ensures r.tokenCount == 0 ==> r.ratio == 0.0
    ensures r.tokenCount > 0 ==> r.ratio == r.charCount as real / r.tokenCount as real
  {
    AnomalyRecord(word, e.tokenizerName, |word|, |e.data.tokens|,
                  Ratio(|word|, |e.data.tokens|))
  }

  /** The inner loop: the records one word yields over the given entries. */
  function EntryAnomalies(word: string, entries: AnalysisResult, threshold: real): (r: seq<AnomalyRecord>)
    ensures |r| <= |entries|
    ensures forall rec :: rec in r ==>
              rec.inputString == word && rec.charCount == |word| && rec.ratio > threshold
  {
    if entries == [] then []
    else
      var rec := MakeRecord(word, entries[0]);
      (if rec.ratio > threshold then [rec] else []) + EntryAnomalies(word, entries[1..], threshold)
  }

  /** The records one word of the list yields: none at all for the empty string. */
  function WordAnomalies(analyze: Provider, word: string, threshold: real): (r: seq<AnomalyRecord>)
    ensures word == "" ==> r == []
    ensures word != "" ==> |r| <= |analyze(word)|
    ensures forall rec :: rec in r ==>
              rec.inputString == word && rec.charCount == |word| >= 1 && rec.ratio > threshold
  {
    if word == "" then [] else EntryAnomalies(word, analyze(word), threshold)
  }

  /** The whole result of the finder, word by word in list order. */
  function Spec(analyze: Provider, words: seq<string>, threshold: real): (r: seq<AnomalyRecord>)
    ensures forall rec :: rec in r ==>
              rec.inputString in words && rec.inputString != "" && rec.ratio > threshold
  {
    if words == [] then []
    else WordAnomalies(analyze, words[0], threshold) + Spec(analyze, words[1..], threshold)
  }

  /**
   The words the provider is asked about, in the order it is asked: every
   occurrence of a non-empty word, and nothing else.
   */
  function NonEmptyWords(words: seq<string>): (r: seq<string>)
    ensures |r| <= |words|
    ensures forall w :: w in r <==> w in words && w != ""
    ensures multiset(r) == multiset(words)["" := 0]
  {
    if words == [] then []
    else
      assert words == [words[0]] + words[1..];
      (if words[0] == "" then [] else [words[0]]) + NonEmptyWords(words[1..])
  }

  lemma {:induction false} EntryAnomaliesAppend(word: string, xs: AnalysisResult, ys: AnalysisResult, threshold: real)
    ensures EntryAnomalies(word, xs + ys, threshold)
         == EntryAnomalies(word, xs, threshold) + EntryAnomalies(word, ys, threshold)
  {
    if xs == [] {
      assert xs + ys == ys;
    } else {
      assert (xs + ys)[1..] == xs[1..] + ys;
      EntryAnomaliesAppend(word, xs[1..], ys, threshold);
    }
  }

  lemma {:induction false} SpecAppend(analyze: Provider, xs: seq<string>, ys: seq<string>, threshold: real)
    ensures Spec(analyze, xs + ys, threshold) == Spec(analyze, xs, threshold) + Spec(analyze, ys, threshold)
  {
    if xs == [] {
      assert xs + ys == ys;
    } else {
      assert (xs + ys)[1..] == xs[1..] + ys;
      SpecAppend(analyze, xs[1..], ys, threshold);
    }
  }

  lemma {:induction false} NonEmptyWordsAppend(xs: seq<string>, ys: seq<string>)
    ensures NonEmptyWords(xs + ys) == NonEmptyWords(xs) + NonEmptyWords(ys)
  {
    if xs == [] {
      assert xs + ys == ys;
    } else {
      assert (xs + ys)[1..] == xs[1..] + ys;
      NonEmptyWordsAppend(xs[1..], ys);
    }
  }

  /** One step of the outer loop, in terms of the specification. */
  lemma PrefixStep(analyze: Provider, words: seq<string>, i: nat, threshold: real)
    requires i < |words|
    ensures Spec(analyze, words[..i + 1], threshold)
         == Spec(analyze, words[..i], threshold) + WordAnomalies(analyze, words[i], threshold)
  {
    assert words[..i + 1] == words[..i] + [words[i]];
    SpecAppend(analyze, words[..i], [words[i]], threshold);
    assert [words[i]][1..] == [];
  }

  /** One step of the outer loop, for the words handed to the provider. */
  lemma CallStep(words: seq<string>, i: nat)
    requires i < |words|
    ensures NonEmptyWords(words[..i + 1])
         == NonEmptyWords(words[..i]) + (if words[i] == "" then [] else [words[i]])
  {
    assert words[..i + 1] == words[..i] + [words[i]];
    NonEmptyWordsAppend(words[..i], [words[i]]);
    assert [words[i]][1..] == [];
  }

  /**
   One step of the inner loop, in terms of the specification: `done` holds the
   records of earlier words, `rec` is the record of entry `j`.
   */
  lemma EntryStep(done: seq<AnomalyRecord>, word: string, entries: AnalysisResult, j: nat,
                  threshold: real, rec: AnomalyRecord)
    requires j < |entries| && rec == MakeRecord(word, entries[j])
    ensures done + EntryAnomalies(word, entries[..j + 1], threshold)
         == (done + EntryAnomalies(word, entries[..j], threshold))
          + (if rec.ratio > threshold then [rec] else [])
  {
    assert entries[..j + 1] == entries[..j] + [entries[j]];
    EntryAnomaliesAppend(word, entries[..j], [entries[j]], threshold);
    assert [entries[j]][1..] == [];
  }

  /**
   The inner loop of the finder, for one non-empty word: walks the provider's
   entries in order and appends to `anomalies` a record for every tokenizer
   whose ratio is strictly above the threshold.
   */
  method AppendWordAnomalies(anomalies: seq<AnomalyRecord>, word: string, analysisResult: AnalysisResult,
                             threshold: real)
    returns (extended: seq<AnomalyRecord>)
    ensures extended == anomalies + EntryAnomalies(word, analysisResult, threshold)
  {
    extended := anomalies;
    var charCount := |word|;
    var j := 0;
    while j < |analysisResult|
      invariant 0 <= j <= |analysisResult|
      invariant extended == anomalies + EntryAnomalies(word, analysisResult[..j], threshold)
    {
      var entry := analysisResult[j];
      var tokenCount := |entry.data.tokens|;
      var ratio: real;
      if tokenCount == 0 {
        ratio := 0.0;
      } else {
        ratio := charCount as real / tokenCount as real;
      }
      EntryStep(anomalies, word, analysisResult, j, threshold,
                AnomalyRecord(word, entry.tokenizerName, charCount, tokenCount, ratio));
      if ratio > threshold {
        extended := extended + [AnomalyRecord(word, entry.tokenizerName, charCount, tokenCount, ratio)];
      }
      j := j + 1;
    }
    assert analysisResult[..j] == analysisResult;
  }

  /** The finder object; it keeps the provider it was created with. */
  class CompressionAnomalyFinder {
    const tokenizer: Provider

    constructor (tokenizer: Provider)
      ensures this.tokenizer == tokenizer
    {
      this.tokenizer := tokenizer;
    }

    /**
     The finder's one operation. `anomalies` is the result; the ghost
     `analyzed` is the list of words the provider was called for, one entry
     per call.
     */
    method FindAnomalies(wordList: seq<string>, threshold: real := DefaultThreshold)
      returns (anomalies: seq<AnomalyRecord>, ghost analyzed: seq<string>)
      ensures anomalies == Spec(tokenizer, wordList, threshold)
      ensures analyzed == NonEmptyWords(wordList)
    {
      anomalies := [];
      analyzed := [];
      var i := 0;
      while i < |wordList|
        invariant 0 <= i <= |wordList|
        invariant anomalies == Spec(tokenizer, wordList[..i], threshold)
        invariant analyzed == NonEmptyWords(wordList[..i])
      {
        var word := wordList[i];
        PrefixStep(tokenizer, wordList, i, threshold);
        CallStep(wordList, i);
        if word == "" {
          i := i + 1;
          continue;
        }
        var analysisResult := tokenizer(word);
        analyzed := analyzed + [word];
        anomalies := AppendWordAnomalies(anomalies, word, analysisResult, threshold);
        i := i + 1;
      }
      assert wordList[..i] == wordList;
    }
  }
}
