# afinngo in Dafny

A model of afinngo, a Go library for AFINN-165 sentiment analysis, with proofs about the model.
The library turns a phrase into tokens. It looks each token up in a word→weight dictionary. A
pluggable scoring strategy adjusts each weight: the English strategy negates a weight when the
token just before it is a negator. The library then adds the adjusted weights into a score,
together with the token lists and the score per token (the comparative).

Modules:

- `Wrappers` (`wrappers.dfy`): `Option`, which stands for Go's nil strategy, and `Result`, the
  outcome of loading a dictionary.
- `Tokenizer` (`tokenizer.dfy`): `tokenize` is written as three sequence functions.
  - `Filter` deletes every character outside `[a-zA-Z0-9'\s-]`.
  - `Lower` lowercases ASCII letters.
  - `Split` cuts at every single space, with the semantics of `strings.Split`.
  - `Join` (`strings.Join`) undoes `Split`. `Split` undoes `Join` on non-empty lists of
    space-free pieces.
- `Strategy` (`strategy.dfy`): the `ScoringStrategy` interface and `EnglishStrategy`, with
  `GetScore`, `GetTokens` and `GetNegators`. Also `NewEnglishStrategy`, which receives the two
  dictionary-load outcomes as inputs.
- `Analyzer` (`analyzer.dfy`): `SentimentResult`, the two constructors, and the imperative
  `SentimentAnalyzer.Analyze`.
  - `Analyze` is a method with a `for` loop over the tokens. It appends to the result's lists and
    adds to its score, as the Go loop does.
  - It is proved equal to the specification function `Analysis`.
  - The lemmas state what `Analysis` promises: order, membership, partition, sum, quotient and
    the negation example.

Modelling decisions:

- Dictionary weights are `int`, because AFINN-165 weights are integers. `Comparative` is a `real`.
- The `ScoringStrategy` interface is a tagged variant: a datatype whose variants are the
  implementations. `EnglishStrategy` is the only one, and the members dispatch with `match`.
- `Positive` and `Negative` are disjoint by position, not as sets of strings. The same string can
  sit in both lists: with "not" a negator, the tokens of "happy not happy" list "happy" in each.
  `Analyzer.SentimentAnalyzer.SameWordBothPolarities` shows this. The model follows the code,
  which appends strings, not positions. So "disjoint" is proved about positions
  (`Analyzer.SentimentAnalyzer.Polarity`).
- `Analyze` looks tokens up in the analyzer's own `Tokens` map, not in the strategy's map. The
  two are the same map whenever a constructor built the analyzer
  (`Analyzer.NewSentimentAnalyzerFromStrategy`). An analyzer record built by hand with other maps
  is modelled as the code runs it.
- `TestTokenize` iterates over the whole output and compares each token with the expected one
  at the same index (afinngo_test.go:25-26). An extra token would index past the expected list
  and panic. An output that is a strict prefix of the 13 expected tokens would still pass.
  `Tokenizer.TokenizeSentence` proves that the output is exactly the 13 tokens.

## Model

| member | source | states |
|---|---|---|
| Tokenizer.Filter | afinngo.go:38-41 | the replacement keeps only characters of `[a-zA-Z0-9'\s-]` and never lengthens the text |
| Tokenizer.FilterChar | afinngo.go:38-41 | one character stays as it is when the class matches it, and is deleted otherwise; with FilterConcat this fixes the replacement on every text |
| Tokenizer.FilterMembers | afinngo.go:38-41 | a character is in the filtered text exactly when it is in the text and the class matches it |
| Tokenizer.IndexOfSpace | afinngo.go:40-43 | the first space of the text, or its length when it has none; no space comes before it |
| Tokenizer.Split | afinngo.go:40-43 | like strings.Split with separator " ", the result always has at least one piece |
| Tokenizer.JoinSplit | afinngo.go:40-43 | joining the split pieces with " " gives back the text |
| Tokenizer.SplitJoin | afinngo.go:40-43 | splitting the join of space-free pieces gives back the pieces |
| Tokenizer.SplitCount | afinngo.go:40-43 | the number of pieces is the number of spaces plus one |
| Tokenizer.SplitPieces | afinngo.go:40-43 | no piece contains a space, and every character of a piece comes from the text |
| Tokenizer.SplitAtSpace | afinngo.go:40-43 | splitting x + " " + y gives the pieces of x followed by the pieces of y |
| Tokenizer.FilterConcat | afinngo.go:38-41 | the replacement works character by character (distributes over concatenation) |
| Tokenizer.FilterKept | afinngo.go:38-41 | text of kept characters passes the replacement unchanged |
| Tokenizer.Lower | afinngo.go:41 | lowercasing keeps the length, turns each upper-case letter into the lower-case letter at the same place in the alphabet, and keeps every other character unchanged |
| Tokenizer.LowerIdempotent | afinngo.go:41 | lowercasing twice is lowercasing once |
| Tokenizer.LowerSpaces | afinngo.go:40-42 | lowercasing keeps the number of spaces |
| Tokenizer.Tokenize | afinngo.go:36-44 | tokenize returns at least one token; its other properties are TokenCount, TokenChars, JoinTokenize, TokenizeIdempotent and TokenizeAtSpace |
| Tokenizer.TokenizeAtSpace | afinngo.go:36-44 | the tokens of x + " " + y are the tokens of x followed by those of y |
| Tokenizer.TokenCount | afinngo.go:36-44 | tokenize returns one more token than the filtered text has spaces, so never zero tokens |
| Tokenizer.TokenizeEmpty | afinngo.go:36-44 | the empty text gives the single empty token |
| Tokenizer.TokenChars | afinngo.go:36-44 | every token character is a lower-case letter, digit, apostrophe, hyphen, tab, newline, form feed or carriage return |
| Tokenizer.JoinTokenize | afinngo.go:36-44 | joining the tokens with " " gives exactly the lowercased, filtered text |
| Tokenizer.TokenizeIdempotent | afinngo.go:36-44 | tokenizing the joined tokens again gives the same tokens |
| Tokenizer.PlainWordToken | afinngo.go:36-44 | a lower-case word followed by deleted characters is one token, the word |
| Tokenizer.CapitalWordToken | afinngo.go:36-44 | a capitalised word is one token, with its first letter lowercased |
| Tokenizer.KeptWordToken | afinngo.go:36-44 | a word of kept non-space, non-upper-case characters followed by deleted characters is one token |
| Tokenizer.TokenizeJoin | afinngo.go:36-44 | words that are one token each, joined by spaces, give those tokens in order |
| Tokenizer.TokenizeSentence | afinngo_test.go:7-31 | the sentence of TestTokenize gives exactly the 13 expected tokens, keeping the apostrophe of "let's" |
| Tokenizer.TokenizeDoubleSpace | afinngo.go:40-43 | two adjacent spaces give an empty token between them |
| Tokenizer.TokenizeTab | afinngo.go:38-43 | a tab survives the filter and does not split a token |
| Strategy.ScoringStrategy.GetScore | english_strategy.go:80-92 | the weight is negated when the preceding token is a negator, and is returned unchanged otherwise |
| Strategy.NewEnglishStrategy | english_strategy.go:53-69 | no strategy when either dictionary failed to load, otherwise a strategy holding exactly the two loaded maps |
| Strategy.ScoringStrategy.GetTokens | english_strategy.go:71-73 | the strategy is rebuilt from the returned map and its negators, so the returned map is the stored one |
| Strategy.ScoringStrategy.GetNegators | english_strategy.go:75-77 | the strategy is rebuilt from its tokens and the returned map, so the returned map is the stored one |
| Strategy.GettersReturnStoredMaps | english_strategy.go:71-77 | getTokens and getNegators return the maps the strategy holds |
| Strategy.FirstTokenNotNegated | english_strategy.go:81-83 | the first token keeps its weight |
| Strategy.OnlyPreviousTokenMatters | english_strategy.go:83-89 | only the token just before the current one decides the adjustment |
| Strategy.AdjustmentIsSignFlip | english_strategy.go:80-91 | the adjustment keeps the magnitude, undoes itself when applied twice, and keeps 0 at 0 |
| Analyzer.Comparative | afinngo.go:100-104 | Score divided by the number of tokens when there are tokens, and 0 otherwise |
| Analyzer.SentimentAnalyzer.Picked | afinngo.go:77-87 | the selected positions, every one below the bound and selected, in strictly increasing order |
| Analyzer.SentimentAnalyzer.Selected | afinngo.go:77-95 | the tokens among a prefix that a list collects, no more of them than the prefix has, each a dictionary key; SelectedAt and PickedExactly say which positions they come from |
| Analyzer.SentimentAnalyzer.ScoreUpTo | afinngo.go:79-97 | the score accumulated over a prefix, 0 when the prefix has no dictionary key; ScoreIsSum and ScoreSplits give it as a sum over the hits |
| Analyzer.SentimentAnalyzer.Analysis | afinngo.go:67-107 | the result's tokens are the tokenizer's output (never empty), and Words is no longer than Tokens and holds only dictionary keys; WordsAreHits, Polarity, ResultSizes, ScoreIsAdjustedSum, NoDictionaryWords and ComparativeIsMean state the rest |
| Analyzer.SentimentAnalyzer.Analyze | afinngo.go:67-107 | the loop leaves exactly the result of `Analysis`: the tokens, their in-dictionary subsequence, its positive and negative parts, their adjusted sum and the comparative |
| Analyzer.SentimentAnalyzer.PickedExactly | afinngo.go:77-95 | a position is picked exactly when it is below the bound and selected |
| Analyzer.SentimentAnalyzer.SelectedAt | afinngo.go:77-95 | each list is the tokens at the picked positions |
| Analyzer.SentimentAnalyzer.ScoreIsSum | afinngo.go:79-97 | the running score is the sum of the adjusted weights over the in-dictionary positions |
| Analyzer.SentimentAnalyzer.ScoreSplits | afinngo.go:85-97 | the running score is the positive sum plus the negative sum |
| Analyzer.SentimentAnalyzer.SelectedSizes | afinngo.go:87-95 | within a prefix, positive plus negative hits are at most the hits, and the hits at most the tokens |
| Analyzer.SentimentAnalyzer.ScoreSign | afinngo.go:89-97 | without negative hits the score is not negative, and without positive hits it is not positive |
| Analyzer.SentimentAnalyzer.NoHits | afinngo.go:77-97 | nothing is selected exactly when no token below the bound is in the dictionary, and then the score is 0 |
| Analyzer.SentimentAnalyzer.WordsAreHits | afinngo.go:74-87 | Tokens is the tokenizer's output and Words is its in-order subsequence of dictionary keys, both directions |
| Analyzer.SentimentAnalyzer.Polarity | afinngo.go:85-95 | Positive and Negative are the hits adjusted above and below 0, in order, disjoint by position, inside Words, and holding no hit adjusted to 0 |
| Analyzer.SentimentAnalyzer.ResultSizes | afinngo.go:87-95 | Positive and Negative together are no longer than Words, and Words is no longer than Tokens |
| Analyzer.SentimentAnalyzer.ScoreIsAdjustedSum | afinngo.go:79-97 | Score is the sum of the adjusted weights of the hits, and equals the positive sum plus the negative sum; its sign follows which lists are empty |
| Analyzer.SentimentAnalyzer.NoDictionaryWords | afinngo.go:77-104 | Words is empty exactly when no token is in the dictionary, and then Score and Comparative are 0 and both polarity lists are empty |
| Analyzer.SentimentAnalyzer.ComparativeIsMean | afinngo.go:100-104 | there is always at least one token, so Comparative is always Score divided by the token count |
| Analyzer.SentimentAnalyzer.SameWordBothPolarities | afinngo.go:89-95 | one string can be listed both as positive and as negative, at two positions |
| Analyzer.SentimentAnalyzer.Negation | afinngo_test.go:51-63 | with "happy" positive and "not" a negator, "I am happy." scores a positive comparative and "I am not happy." a negative one |
| Analyzer.PlainPhrase | afinngo_test.go:53 | "I am happy." tokenizes to i, am, happy |
| Analyzer.NegatedPhrase | afinngo_test.go:54 | "I am not happy." tokenizes to i, am, not, happy |
| Analyzer.NewSentimentAnalyzerFromStrategy | afinngo.go:57-64 | the analyzer holds the strategy and copies its token and negator maps unchanged |
| Analyzer.NewDefaultSentimentAnalyzer | afinngo.go:46-55 | an analyzer over the English strategy with both loaded maps when both loads succeed, and none otherwise |

## Left out

- `buildDictionary` (english_strategy.go:13-44) opens and reads CSV files. This is file I/O. The
  two load outcomes are inputs to `NewEnglishStrategy` and `NewDefaultSentimentAnalyzer`, and an
  error stands for any failed load. The error message constant is not modelled.
- The regular-expression engine and the Unicode tables of `strings.ToLower` are not modelled. The
  filter is a character predicate, and lowercasing is ASCII. Every character left after the filter
  is ASCII, so nothing is lost. `\s` is RE2's class: tab, newline, form feed, carriage return,
  space (no vertical tab).
- `float64` is not modelled. Weights are integers and `Comparative` is an exact `real`, so IEEE
  rounding is absent.
- Analyzer.NewDefaultSentimentAnalyzer: when the strategy is nil, Go dereferences it and panics
  (afinngo.go:48-53). The model returns `None` instead.
- The tests that need the real AFINN-165 lexicon (afinngo_test.go:33-49) are not modelled, because
  the lexicon data is not part of this model. `Analyzer.SentimentAnalyzer.Negation` states
  TestNegation for every lexicon with the properties the test relies on.
- Analyzer.NewSentimentAnalyzerFromStrategy: Go accepts a nil strategy, or a nil
  `*EnglishStrategy`, and then panics when it calls `getTokens` (afinngo.go:61-62,
  english_strategy.go:72). The model's parameter is a strategy value, so it has no nil input
  and no panic.
- The `Negators` field of `SentimentAnalyzer` is copied at construction and never read. Negation
  goes through the strategy's own negator map.
- Tokenizer.TokenizeSentence states the sentence of TestTokenize as its 13 words joined by single
  spaces (`Join(ws)`), not as one string literal. The literal costs the solver far more.
- The interface's dynamic dispatch is not modelled. A second strategy would be a new variant of
  the `ScoringStrategy` datatype.
