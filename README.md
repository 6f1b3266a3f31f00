# Compression-anomaly finder

A Dafny model of the compression-anomaly finder of Project Chimera. The finder
is a heuristic for spotting anomalous ("glitch") tokens in large-language-model
vocabularies. It takes a list of words. For every non-empty word it asks a
tokenization provider how each registered tokenizer splits the word. It then
computes characters per token and keeps a record of every (word, tokenizer) pair
whose ratio is strictly above a threshold (default 10.0).

Files:

- `compression_analyzer.dfy`, module `CompressionAnalyzer`: the data model
  (`Tokenization`, `TokenizerEntry`, `AnalysisResult`, `AnomalyRecord`), the
  ratio rule `Ratio`, and the pure specification. `Spec` recurses over the
  words, `WordAnomalies` handles one word, and `EntryAnomalies` recurses over
  the provider's entries for one word. The class `CompressionAnomalyFinder`
  keeps the provider it was built with. Its method `FindAnomalies` is the
  source's outer loop over the words. The inner loop over the provider's
  entries is the method `AppendWordAnomalies`, which the outer loop calls
  once per non-empty word. Both loops append to a sequence. `FindAnomalies`
  is proved to return exactly `Spec`. A ghost out-parameter records the words
  the provider was called for.
- `anomaly_properties.dfy`, module `AnomalyProperties`: an independent second
  description of the result ("list every candidate record, then filter by the
  threshold"), proved equal to `Spec`. Also the properties proved from it:
  membership, record consistency, ordering, bounds, monotonicity in the
  threshold, skipping of empty words. The scenarios of the finder's test suite
  are restated as lemmas.

Modelling choices:

- The tokenization provider is a total, deterministic function value
  `string -> seq<TokenizerEntry>`. It stands for
  `ComparativeTokenizer.analyze`. The entries are a sequence, so the order in
  which the source iterates the provider's dictionary (`items()`) is kept.
- `len(word)` is `|word|`, the number of characters. A Dafny `char` is a
  Unicode scalar value, so this agrees with Python's `len` for every string
  without lone surrogates.
- The ratio is an exact `real`. `0.0` is the sentinel for zero tokens.
- The threshold is a `real` with default value `DefaultThreshold` (10.0).

Records follow the order in which the provider's dictionary iterates
(`items()`, discovery_modules/compression_analyzer.py:48); the model keeps that
order.

## Model

| member | source | states |
|---|---|---|
| CompressionAnalyzer.Ratio | discovery_modules/compression_analyzer.py:49-55 | the ratio is exactly 0.0 when there are no tokens; otherwise ratio × tokens = characters; it always lies between 0 and the character count |
| CompressionAnalyzer.MakeRecord | discovery_modules/compression_analyzer.py:45-64 | a record carries the word, the entry's tokenizer name, the word's length as char_count, the entry's number of tokens as token_count, and ratio char_count/token_count, or 0.0 when there are no tokens |
| CompressionAnalyzer.EntryAnomalies | discovery_modules/compression_analyzer.py:48-64 | the inner loop yields at most one record per provider entry; every record it yields names the word, has the word's length as char_count, and has a ratio strictly above the threshold |
| CompressionAnalyzer.WordAnomalies | discovery_modules/compression_analyzer.py:42-64 | the empty string yields no records; a non-empty word yields at most as many records as the provider has entries for it, each naming the word, with char_count its length (at least 1) and ratio strictly above the threshold |
| CompressionAnalyzer.Spec | discovery_modules/compression_analyzer.py:39-66 | every record of the result names a non-empty word of the list and has a ratio strictly above the threshold |
| CompressionAnalyzer.NonEmptyWords | discovery_modules/compression_analyzer.py:41-46 | the words handed to the provider are exactly the words of the list other than the empty string (whitespace-only words stay); each non-empty word is handed on as many times as it occurs in the list, and the empty string never |
| CompressionAnalyzer.AppendWordAnomalies | discovery_modules/compression_analyzer.py:48-64 | the inner loop over the provider's entries appends to the records collected so far exactly the records `EntryAnomalies` specifies for the word, in entry order, and leaves the earlier records unchanged |
| CompressionAnalyzer.CompressionAnomalyFinder.constructor | discovery_modules/compression_analyzer.py:19-25 | the finder keeps the provider it is given |
| CompressionAnalyzer.CompressionAnomalyFinder.FindAnomalies | discovery_modules/compression_analyzer.py:27-66 | the loop over the words returns exactly `Spec(tokenizer, wordList, threshold)`, with threshold 10.0 when none is given; the provider is called once per occurrence of a non-empty word, in list order, and for nothing else |
| CompressionAnalyzer.PrefixStep | discovery_modules/compression_analyzer.py:41-64 | handling one more word of the list appends that word's records to the result so far |
| CompressionAnalyzer.CallStep | discovery_modules/compression_analyzer.py:41-46 | handling one more word of the list adds one provider call for it when it is non-empty and none when it is empty |
| CompressionAnalyzer.EntryStep | discovery_modules/compression_analyzer.py:48-64 | handling one more provider entry appends its record exactly when the record's ratio is strictly above the threshold |
| CompressionAnalyzer.SpecAppend | discovery_modules/compression_analyzer.py:39-66 | the result for a concatenated list is the result for the first part followed by the result for the second: word order is the outer order |
| CompressionAnalyzer.EntryAnomaliesAppend | discovery_modules/compression_analyzer.py:48-64 | within one word, the records follow the provider's entry order |
| CompressionAnalyzer.NonEmptyWordsAppend | discovery_modules/compression_analyzer.py:41-46 | the provider calls for a concatenated list are those for the first part, then those for the second |
| AnomalyProperties.SpecIsFilteredCandidates | discovery_modules/compression_analyzer.py:41-64 | the result equals the list of all (non-empty word, provider entry) records, in word then entry order, keeping those whose ratio is strictly above the threshold; there is no sorting or deduplication |
| AnomalyProperties.SpecMembership | discovery_modules/compression_analyzer.py:41-64 | a record is in the result if and only if some non-empty word of the list and some entry of the provider's answer for it produce it, and its ratio is strictly above the threshold |
| AnomalyProperties.RecordsConsistent | discovery_modules/compression_analyzer.py:45-64 | every record names a non-empty word of the list; char_count is its length (at least 1); its tokenizer name and token_count come from one entry of the provider's answer; ratio is char_count/token_count, or 0.0 for no tokens; ratio exceeds the threshold |
| AnomalyProperties.ZeroTokensNeverFlagged | discovery_modules/compression_analyzer.py:51-57 | with a threshold of at least 0, no record has a token count of zero |
| AnomalyProperties.SpecLengthBound | discovery_modules/compression_analyzer.py:48-64 | there are at most as many records as provider entries over the non-empty words |
| AnomalyProperties.AllAboveOnePerTokenizer | discovery_modules/compression_analyzer.py:48-64 | when every tokenizer's ratio for a non-empty word exceeds the threshold, the word yields exactly one record per tokenizer, the k-th built from the k-th entry |
| AnomalyProperties.SpecMonotone | discovery_modules/compression_analyzer.py:57 | for t1 <= t2 the result at t2 is a subsequence of the result at t1 |
| AnomalyProperties.SpecSkipsEmptyWords | discovery_modules/compression_analyzer.py:41-43 | removing the empty strings from the list does not change the result |
| AnomalyProperties.SpecReadsOnlyNonEmptyWords | discovery_modules/compression_analyzer.py:41-46 | two providers that agree on the non-empty words of the list give the same result: the answer for "" is never used |
| AnomalyProperties.HighCompressionDetected | tests/test_compression_analyzer.py:18-42 | "verylongwordthatcomp" (20 characters, 1 token) gives exactly two records at threshold 10.0, one per tokenizer in provider order, each with char_count 20, token_count 1 and ratio 20.0 |
| AnomalyProperties.RatioEqualToThresholdExcluded | discovery_modules/compression_analyzer.py:57 | the same word and provider at threshold 20.0 give no record: a ratio equal to the threshold is not flagged |
| AnomalyProperties.NormalWordIgnored | tests/test_compression_analyzer.py:44-60 | "testing" (7 characters, 2 tokens, ratio 3.5) is not flagged at 10.0 |
| AnomalyProperties.OnlyNonEmptyWordsAnalyzed | tests/test_compression_analyzer.py:62-74 | for ["", "  ", "test"] the provider is asked about "  " and "test" only |
| AnomalyProperties.EmptyStringsScenario | tests/test_compression_analyzer.py:62-74 | a finder built on the test's provider and run on ["", "  ", "test"] at 10.0 calls the provider exactly twice, for "  " and "test", and flags nothing |
| AnomalyProperties.ZeroTokensIgnored | tests/test_compression_analyzer.py:76-90 | a word with no tokens from either tokenizer is not flagged at 10.0 |
| AnomalyProperties.ThresholdIsStrict | tests/test_compression_analyzer.py:92-110 | 10 characters in 1 token is not flagged at threshold 10.0 and is flagged once at 9.0 |
| AnomalyProperties.MultipleWords | tests/test_compression_analyzer.py:112-133 | of "short", "verylongwordthatcompresses" and "normal", only the 26-character word is flagged, with ratio 26.0 |

## Left out

- src/core_engine.py and core_engine.py (`ComparativeTokenizer`) are not part of this model. They only call the tiktoken and transformers libraries. The provider is an abstract function parameter instead.
- Uniqueness of tokenizer names: a Python dictionary cannot hold a name twice. The model accepts any sequence of entries, so its results cover that case too.
- The `ids` field of a tokenization is carried in the data model. The finder never reads it, and the model does not require it to be as long as `tokens`.
- Exceptions raised by the provider, which abort the whole call, are not modelled; the provider is total.
- Floating point: `float(char_count) / token_count` is an exact real here. IEEE-754 rounding can make a ratio that is mathematically just above the threshold compare equal to it; the model does not capture that.
- The threshold is a `real`, so a Python float threshold of NaN or ±infinity is not representable. With NaN every comparison `ratio > threshold` is false and nothing is flagged; with +infinity nothing is flagged; with -infinity every (non-empty word, tokenizer) pair is flagged.
- Python strings may hold lone surrogate code points, which `len` counts. A Dafny `string` holds only Unicode scalar values, so such strings are not representable.
- main.py (demo printing and JSON output) and the test files' mock machinery are not part of this model. The test scenarios are restated as lemmas.
