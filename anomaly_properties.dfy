/**
 Properties of the compression-anomaly finder, stated about its specification
 `Spec` (which the finder's method is proved to compute).

 A second, independent description of `Spec`'s result: list every
 (non-empty word, provider entry) record in order, then keep the records whose
 ratio is strictly above the threshold.
 */
module AnomalyProperties {
  import opened CompressionAnalyzer

  /** One record per provider entry, in the provider's order, unfiltered. */
  function EntryRecords(word: string, entries: AnalysisResult): (r: seq<AnomalyRecord>)
    ensures |r| == |entries|
  {
    seq(|entries|, k requires 0 <= k < |entries| => MakeRecord(word, entries[k]))
  }

  /** Every candidate record of a word list: word order outer, entry order inner. */
  function Candidates(analyze: Provider, words: seq<string>): (r: seq<AnomalyRecord>)
  {
    if words == [] then []
    else (if words[0] == "" then [] else EntryRecords(words[0], analyze(words[0])))
         + Candidates(analyze, words[1..])
  }

  /** The records whose ratio is strictly above the threshold, order kept. */
  function FilterAbove(records: seq<AnomalyRecord>, threshold: real): (r: seq<AnomalyRecord>)
  {
    if records == [] then []
    else (if records[0].ratio > threshold then [records[0]] else [])
         + FilterAbove(records[1..], threshold)
  }

  /** How many provider entries the non-empty words of the list receive in all. */
  function TotalEntries(analyze: Provider, words: seq<string>): (n: nat)
  {
    if words == [] then 0
    else (if words[0] == "" then 0 else |analyze(words[0])|) + TotalEntries(analyze, words[1..])
  }

  /** `xs` is obtained from `ys` by deleting elements, without reordering. */
  predicate IsSubsequence<T(==)>(xs: seq<T>, ys: seq<T>)
    decreases |ys|
  {
    if xs == [] then true
    else if ys == [] then false
    else (xs[0] == ys[0] && IsSubsequence(xs[1..], ys[1..])) || IsSubsequence(xs, ys[1..])
  }

  /** Some non-empty word of the list and some entry the provider gives it produce `r`. */
  ghost predicate Produces(analyze: Provider, words: seq<string>, r: AnomalyRecord)
  {
    exists w, e :: w in words && w != "" && e in analyze(w) && r == MakeRecord(w, e)
  }

  // ---------------------------------------------------------------------------
  // The two descriptions agree

  lemma {:induction false} FilterAboveAppend(xs: seq<AnomalyRecord>, ys: seq<AnomalyRecord>, threshold: real)
    ensures FilterAbove(xs + ys, threshold) == FilterAbove(xs, threshold) + FilterAbove(ys, threshold)
  {
    if xs == [] {
      assert xs + ys == ys;
    } else {
      assert (xs + ys)[1..] == xs[1..] + ys;
      FilterAboveAppend(xs[1..], ys, threshold);
    }
  }

  lemma {:induction false} EntryAnomaliesIsFilter(word: string, entries: AnalysisResult, threshold: real)
    ensures EntryAnomalies(word, entries, threshold) == FilterAbove(EntryRecords(word, entries), threshold)
  {
    if entries != [] {
      var rs := EntryRecords(word, entries);
      assert rs[0] == MakeRecord(word, entries[0]);
      assert rs[1..] == EntryRecords(word, entries[1..]);
      EntryAnomaliesIsFilter(word, entries[1..], threshold);
    }
  }

  /** The finder's result is the candidate list filtered by the strict threshold test. */
  lemma {:induction false} SpecIsFilteredCandidates(analyze: Provider, words: seq<string>, threshold: real)
    ensures Spec(analyze, words, threshold) == FilterAbove(Candidates(analyze, words), threshold)
  {
    if words != [] {
      var w := words[0];
      var head := if w == "" then [] else EntryRecords(w, analyze(w));
      FilterAboveAppend(head, Candidates(analyze, words[1..]), threshold);
      SpecIsFilteredCandidates(analyze, words[1..], threshold);
      if w != "" {
        EntryAnomaliesIsFilter(w, analyze(w), threshold);
      }
    }
  }

  // ---------------------------------------------------------------------------
  // Bounds: at most one record per (word occurrence, provider entry)

  lemma {:induction false} CandidatesLength(analyze: Provider, words: seq<string>)
    ensures |Candidates(analyze, words)| == TotalEntries(analyze, words)
  {
    if words != [] {
      CandidatesLength(analyze, words[1..]);
    }
  }

  lemma {:induction false} FilterAboveLength(records: seq<AnomalyRecord>, threshold: real)
    ensures |FilterAbove(records, threshold)| <= |records|
  {
    if records != [] {
      FilterAboveLength(records[1..], threshold);
    }
  }

  lemma SpecLengthBound(analyze: Provider, words: seq<string>, threshold: real)
    ensures |Spec(analyze, words, threshold)| <= TotalEntries(analyze, words)
  {
    SpecIsFilteredCandidates(analyze, words, threshold);
    FilterAboveLength(Candidates(analyze, words), threshold);
    CandidatesLength(analyze, words);
  }

  lemma {:induction false} FilterAboveKeepsAll(records: seq<AnomalyRecord>, threshold: real)
    requires forall k :: 0 <= k < |records| ==> records[k].ratio > threshold
    ensures FilterAbove(records, threshold) == records
  {
    if records != [] {
      FilterAboveKeepsAll(records[1..], threshold);
    }
  }

  /**
   When every tokenizer's ratio for a non-empty word exceeds the threshold, the
   word yields exactly one record per tokenizer, in the provider's order.
   */
  lemma AllAboveOnePerTokenizer(analyze: Provider, word: string, threshold: real)
    requires word != ""
    requires forall e :: e in analyze(word) ==> Ratio(|word|, |e.data.tokens|) > threshold
    ensures |Spec(analyze, [word], threshold)| == |analyze(word)|
    ensures forall k :: 0 <= k < |analyze(word)| ==>
              Spec(analyze, [word], threshold)[k] == MakeRecord(word, analyze(word)[k])
  {
    var es := analyze(word);
    assert [word][1..] == [];
    EntryAnomaliesIsFilter(word, es, threshold);
    forall k | 0 <= k < |es| ensures EntryRecords(word, es)[k].ratio > threshold {
      assert es[k] in es;
    }
    FilterAboveKeepsAll(EntryRecords(word, es), threshold);
  }

  // ---------------------------------------------------------------------------
  // Monotonicity in the threshold

  lemma SubsequenceCons<T>(xs: seq<T>, y: T, ys: seq<T>)
    requires IsSubsequence(xs, ys)
    ensures IsSubsequence(xs, [y] + ys)
  {}

  lemma {:induction false} FilterAboveMonotone(records: seq<AnomalyRecord>, t1: real, t2: real)
    requires t1 <= t2
    ensures IsSubsequence(FilterAbove(records, t2), FilterAbove(records, t1))
  {
    if records != [] {
      var r := records[0];
      var high, low := FilterAbove(records[1..], t2), FilterAbove(records[1..], t1);
      FilterAboveMonotone(records[1..], t1, t2);
      if r.ratio > t2 {
        assert FilterAbove(records, t2) == [r] + high && FilterAbove(records, t1) == [r] + low;
        assert ([r] + high)[1..] == high && ([r] + low)[1..] == low;
      } else if r.ratio > t1 {
        assert FilterAbove(records, t2) == high && FilterAbove(records, t1) == [r] + low;
        SubsequenceCons(high, r, low);
      } else {
        assert FilterAbove(records, t2) == high && FilterAbove(records, t1) == low;
      }
    }
  }

  /** Raising the threshold can only drop records; it never adds or reorders any. */
  lemma SpecMonotone(analyze: Provider, words: seq<string>, t1: real, t2: real)
    requires t1 <= t2
    ensures IsSubsequence(Spec(analyze, words, t2), Spec(analyze, words, t1))
  {
    SpecIsFilteredCandidates(analyze, words, t1);
    SpecIsFilteredCandidates(analyze, words, t2);
    FilterAboveMonotone(Candidates(analyze, words), t1, t2);
  }

  // ---------------------------------------------------------------------------
  // Which records appear, and what each record says

  lemma {:induction false} FilterAboveMembership(records: seq<AnomalyRecord>, threshold: real, r: AnomalyRecord)
    ensures r in FilterAbove(records, threshold) <==> r in records && r.ratio > threshold
  {
    if records != [] {
      FilterAboveMembership(records[1..], threshold, r);
      assert records == [records[0]] + records[1..];
    }
  }

  lemma {:induction false} CandidatesMembership(analyze: Provider, words: seq<string>, r: AnomalyRecord)
    ensures r in Candidates(analyze, words) <==> Produces(analyze, words, r)
  {
    if words != [] {
      var w := words[0];
      var head := if w == "" then [] else EntryRecords(w, analyze(w));
      CandidatesMembership(analyze, words[1..], r);
      if r in head {
        var k :| 0 <= k < |head| && head[k] == r;
        assert w in words && analyze(w)[k] in analyze(w);
      }
      if Produces(analyze, words[1..], r) {
        var v, e :| v in words[1..] && v != "" && e in analyze(v) && r == MakeRecord(v, e);
        assert v in words;
      }
      if Produces(analyze, words, r) {
        var v, e :| v in words && v != "" && e in analyze(v) && r == MakeRecord(v, e);
        if v == w {
          var k :| 0 <= k < |analyze(w)| && analyze(w)[k] == e;
          assert head[k] == r;
        } else {
          assert v in words[1..];
        }
      }
    }
  }

  /**
   A record is in the result exactly when some non-empty word of the list and
   some entry of the provider's answer for it produce it, with a ratio strictly
   above the threshold.
   */
  lemma SpecMembership(analyze: Provider, words: seq<string>, threshold: real, r: AnomalyRecord)
    ensures r in Spec(analyze, words, threshold) <==> Produces(analyze, words, r) && r.ratio > threshold
  {
    SpecIsFilteredCandidates(analyze, words, threshold);
    FilterAboveMembership(Candidates(analyze, words), threshold, r);
    CandidatesMembership(analyze, words, r);
  }

  /** Every field of every record is consistent with the word and the provider's answer. */
  lemma RecordsConsistent(analyze: Provider, words: seq<string>, threshold: real, r: AnomalyRecord)
    requires r in Spec(analyze, words, threshold)
    ensures r.inputString in words && r.inputString != ""
    ensures r.charCount == |r.inputString| >= 1
    ensures exists e :: e in analyze(r.inputString)
                     && e.tokenizerName == r.targetTokenizer && |e.data.tokens| == r.tokenCount
    ensures r.tokenCount == 0 ==> r.ratio == 0.0
    ensures r.tokenCount > 0 ==> r.ratio == r.charCount as real / r.tokenCount as real
    ensures r.ratio > threshold
  {
    SpecMembership(analyze, words, threshold, r);
  }

  /** With a non-negative threshold a tokenizer that produced no tokens is never flagged. */
  lemma ZeroTokensNeverFlagged(analyze: Provider, words: seq<string>, threshold: real, r: AnomalyRecord)
    requires 0.0 <= threshold
    requires r in Spec(analyze, words, threshold)
    ensures r.tokenCount > 0
  {
    RecordsConsistent(analyze, words, threshold, r);
  }

  // ---------------------------------------------------------------------------
  // Empty words are skipped; nothing else is

  /** Dropping the empty words from the list does not change the result. */
  lemma {:induction false} SpecSkipsEmptyWords(analyze: Provider, words: seq<string>, threshold: real)
    ensures Spec(analyze, words, threshold) == Spec(analyze, NonEmptyWords(words), threshold)
  {
    if words != [] {
      var w := words[0];
      var rest := NonEmptyWords(words[1..]);
      SpecSkipsEmptyWords(analyze, words[1..], threshold);
      if w != "" {
        assert NonEmptyWords(words) == [w] + rest;
        assert ([w] + rest)[1..] == rest;
      } else {
        assert NonEmptyWords(words) == rest;
      }
    }
  }

  /**
   The result depends on the provider only at the non-empty words of the list:
   the provider's answer for the empty string is never consulted.
   */
  lemma {:induction false} SpecReadsOnlyNonEmptyWords(a: Provider, b: Provider, words: seq<string>, threshold: real)
    requires forall w :: w in words && w != "" ==> a(w) == b(w)
    ensures Spec(a, words, threshold) == Spec(b, words, threshold)
  {
    if words != [] {
      assert forall w :: w in words[1..] ==> w in words;
      SpecReadsOnlyNonEmptyWords(a, b, words[1..], threshold);
      assert words[0] in words;
    }
  }

  // ---------------------------------------------------------------------------
  // The scenarios of the finder's test suite

  /** A provider answering every word with one gpt-4o and one Llama-3-8B tokenization. */
  function TwoTokenizers(gpt: Tokenization, llama: Tokenization): (r: AnalysisResult)
  {
    [TokenizerEntry("gpt-4o", gpt), TokenizerEntry("Llama-3-8B", llama)]
  }

  /** 20 characters in one token: ratio 20.0, flagged by both tokenizers at 10.0, in provider order. */
  lemma HighCompressionDetected()
    ensures Spec(_ => TwoTokenizers(Tokenization(["test"], [1]), Tokenization(["test"], [2])),
                 ["verylongwordthatcomp"], 10.0)
         == [AnomalyRecord("verylongwordthatcomp", "gpt-4o", 20, 1, 20.0),
             AnomalyRecord("verylongwordthatcomp", "Llama-3-8B", 20, 1, 20.0)]
  {}

  /** The same word at threshold 20.0: a ratio equal to the threshold is not flagged. */
  lemma RatioEqualToThresholdExcluded()
    ensures Spec(_ => TwoTokenizers(Tokenization(["test"], [1]), Tokenization(["test"], [2])),
                 ["verylongwordthatcomp"], 20.0) == []
  {}

  /** 7 characters in two tokens: ratio 3.5, not flagged at 10.0. */
  lemma NormalWordIgnored()
    ensures Spec(_ => TwoTokenizers(Tokenization(["test", "ing"], [1, 2]), Tokenization(["test", "ing"], [3, 4])),
                 ["testing"], 10.0) == []
  {}

  /** A word with no tokens at all: ratio 0.0, nothing flagged. */
  lemma ZeroTokensIgnored()
    ensures Spec(_ => TwoTokenizers(Tokenization([], []), Tokenization([], [])), ["test"], 10.0) == []
  {}

  /** Ten characters in one token is exactly the threshold 10.0 and is excluded; 9.0 flags it. */
  lemma ThresholdIsStrict()
    ensures Spec(_ => [TokenizerEntry("gpt-4o", Tokenization(["test"], [1]))], ["tencharwrd"], 10.0) == []
    ensures |Spec(_ => [TokenizerEntry("gpt-4o", Tokenization(["test"], [1]))], ["tencharwrd"], 9.0)| == 1
  {}

  /** The provider is asked only about "  " and "test", never about "". */
  lemma OnlyNonEmptyWordsAnalyzed()
    ensures NonEmptyWords(["", "  ", "test"]) == ["  ", "test"]
  {}

  /** The provider of the multiple-words test: one gpt-4o tokenization chosen per word. */
  function ByWordProvider(word: string): (r: AnalysisResult)
  {
    if word == "short" then [TokenizerEntry("gpt-4o", Tokenization(["sho", "rt"], [1, 2]))]
    else if word == "verylongwordthatcompresses" then [TokenizerEntry("gpt-4o", Tokenization(["long"], [3]))]
    else [TokenizerEntry("gpt-4o", Tokenization(["test"], [4]))]
  }

  /** Of three words only the 26-character one in a single token is flagged, with ratio 26.0. */
  lemma MultipleWords()
    ensures Spec(ByWordProvider, ["short", "verylongwordthatcompresses", "normal"], 10.0)
         == [AnomalyRecord("verylongwordthatcompresses", "gpt-4o", 26, 1, 26.0)]
  {
    var ws := ["short", "verylongwordthatcompresses", "normal"];
    assert |ws[1]| == 26;
    assert ws[1..] == ["verylongwordthatcompresses", "normal"];
    assert ws[1..][1..] == ["normal"];
    assert ws[1..][1..][1..] == [];
    var e0 := TokenizerEntry("gpt-4o", Tokenization(["sho", "rt"], [1, 2]));
    var e1 := TokenizerEntry("gpt-4o", Tokenization(["long"], [3]));
    var e2 := TokenizerEntry("gpt-4o", Tokenization(["test"], [4]));
    assert ByWordProvider(ws[0]) == [e0] && ByWordProvider(ws[1]) == [e1] && ByWordProvider(ws[2]) == [e2];
    assert [e0][1..] == [] && [e1][1..] == [] && [e2][1..] == [];
    assert |ws[0]| == 5 && |ws[2]| == 6;
    assert EntryAnomalies(ws[0], [e0], 10.0) == [];
    assert EntryAnomalies(ws[1], [e1], 10.0) == [MakeRecord(ws[1], e1)];
    assert EntryAnomalies(ws[2], [e2], 10.0) == [];
    assert WordAnomalies(ByWordProvider, ws[0], 10.0) == [];
    assert WordAnomalies(ByWordProvider, ws[1], 10.0)
        == [AnomalyRecord("verylongwordthatcompresses", "gpt-4o", 26, 1, 26.0)];
    assert WordAnomalies(ByWordProvider, ws[2], 10.0) == [];
  }

  /**
   The finder object run on the list of the empty-string test: the provider is
   called twice, for "  " and "test", and nothing is flagged at threshold 10.0.
   */
  method EmptyStringsScenario() returns (anomalies: seq<AnomalyRecord>, ghost analyzed: seq<string>)
    ensures analyzed == ["  ", "test"] && |analyzed| == 2
    ensures anomalies == []
  {
    var finder := new CompressionAnomalyFinder(_ => [TokenizerEntry("gpt-4o", Tokenization(["test"], [1]))]);
    anomalies, analyzed := finder.FindAnomalies(["", "  ", "test"], 10.0);
    OnlyNonEmptyWordsAnalyzed();
  }
}
