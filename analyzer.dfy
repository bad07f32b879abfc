/**
  The sentiment analyzer of afinngo: SentimentResult, the two constructors and
  SentimentAnalyzer.Analyze, which tokenizes a phrase, looks every token up in the
  analyzer's dictionary, adjusts the weight of each hit through the strategy and
  aggregates the hits into a result.
 */
module Analyzer {
  import opened Wrappers
  import opened Tokenizer
  import opened Strategy

  /** The record Analyze returns. */
  datatype SentimentResult = SentimentResult(
    score: int,
    comparative: real,
    tokens: seq<string>,
    words: seq<string>,
    positive: seq<string>,
    negative: seq<string>)

  /** Which of the result's lists a position belongs to. */
  datatype Selection = AllWords | PositiveWords | NegativeWords

  /** Score divided by the token count, and 0 when there are no tokens. */
  function Comparative(score: int, count: nat): (c: real)
    ensures count > 0 ==> c * count as real == score as real
    ensures count == 0 ==> c == 0.0
  {
    if count > 0 then score as real / count as real else 0.0
  }

  datatype SentimentAnalyzer = SentimentAnalyzer(strategy: ScoringStrategy, tokens: Dictionary, negators: Dictionary) {

    /** The weight of the in-dictionary token toks[i] after the strategy's adjustment. */
    function Adjusted(toks: seq<string>, i: nat): int
      requires i < |toks| && toks[i] in tokens
    {
      strategy.GetScore(toks, i, tokens[toks[i]])
    }

    /** Position i is a dictionary hit, and a positive or negative one when sel asks for that. */
    predicate Selects(sel: Selection, toks: seq<string>, i: nat)
      requires i < |toks|
    {
      toks[i] in tokens &&
      match sel
      case AllWords => true
      case PositiveWords => Adjusted(toks, i) > 0
      case NegativeWords => Adjusted(toks, i) < 0
    }

    /** The positions below n that sel selects, in increasing order. */
    function Picked(toks: seq<string>, n: nat, sel: Selection): (ps: seq<nat>)
      requires n <= |toks|
      ensures forall k :: 0 <= k < |ps| ==> ps[k] < n && Selects(sel, toks, ps[k])
      ensures forall j, k :: 0 <= j < k < |ps| ==> ps[j] < ps[k]
    {
      if n == 0 then []
      else Picked(toks, n - 1, sel) + (if Selects(sel, toks, n - 1) then [n - 1] else [])
    }

    /** The tokens among the first n that sel selects, in their order in toks. */
    function Selected(toks: seq<string>, n: nat, sel: Selection): (r: seq<string>)
      requires n <= |toks|
      ensures |r| <= n
      ensures forall k :: 0 <= k < |r| ==> r[k] in tokens
    {
      if n == 0 then []
      else Selected(toks, n - 1, sel) + (if Selects(sel, toks, n - 1) then [toks[n - 1]] else [])
    }

    /** The sum of the adjusted weights of the dictionary hits among the first n tokens. */
    function ScoreUpTo(toks: seq<string>, n: nat): (score: int)
      requires n <= |toks|
      ensures (forall k :: 0 <= k < n ==> toks[k] !in tokens) ==> score == 0
    {
      if n == 0 then 0
      else ScoreUpTo(toks, n - 1) + (if toks[n - 1] in tokens then Adjusted(toks, n - 1) else 0)
    }

    /** One more token extends each list by that token when it is selected, and the score by its adjusted weight when it is a hit. */
    lemma StepAt(toks: seq<string>, i: nat)
      requires i < |toks|
      ensures forall sel :: Selected(toks, i + 1, sel) ==
                Selected(toks, i, sel) + (if Selects(sel, toks, i) then [toks[i]] else [])
      ensures ScoreUpTo(toks, i + 1) == ScoreUpTo(toks, i) + (if toks[i] in tokens then Adjusted(toks, i) else 0)
    {
    }

    /** What Analyze computes for phrase. */
    function Analysis(phrase: string): (r: SentimentResult)
      ensures r.tokens == Tokenize(phrase) && |r.tokens| >= 1
      ensures |r.words| <= |r.tokens|
      ensures forall k :: 0 <= k < |r.words| ==> r.words[k] in tokens
    {
      var toks := Tokenize(phrase);
      var score := ScoreUpTo(toks, |toks|);
      SentimentResult(
        score,
        Comparative(score, |toks|),
        toks,
        Selected(toks, |toks|, AllWords),
        Selected(toks, |toks|, PositiveWords),
        Selected(toks, |toks|, NegativeWords))
    }

    /** SentimentAnalyzer.Analyze: one pass over the tokens of phrase. */
    method Analyze(phrase: string) returns (result: SentimentResult)
      ensures result == Analysis(phrase)
    {
      result := SentimentResult(0, 0.0, Tokenize(phrase), [], [], []);
      ghost var toks := result.tokens;
      for i := 0 to |result.tokens|
        invariant result.tokens == toks && result.comparative == 0.0
        invariant result.words == Selected(toks, i, AllWords)
        invariant result.positive == Selected(toks, i, PositiveWords)
        invariant result.negative == Selected(toks, i, NegativeWords)
        invariant result.score == ScoreUpTo(toks, i)
      {
        StepAt(toks, i);
        var token := result.tokens[i];
        if token !in tokens {
          continue;
        }
        var tokenScore := strategy.GetScore(result.tokens, i, tokens[token]);
        result := result.(words := result.words + [token]);
        if tokenScore > 0 {
          result := result.(positive := result.positive + [token]);
        }
        if tokenScore < 0 {
          result := result.(negative := result.negative + [token]);
        }
        result := result.(score := result.score + tokenScore);
      }
      var numberOfTokens := |result.tokens|;
      if numberOfTokens > 0 {
        result := result.(comparative := result.score as real / numberOfTokens as real);
      }
    }

    // ------------------------------------------------------------ positions

    /** Picked holds every position below n that sel selects, and only those. */
    lemma {:induction false} PickedExactly(toks: seq<string>, n: nat, sel: Selection)
      requires n <= |toks|
      ensures forall p: nat :: p in Picked(toks, n, sel) <==> p < n && Selects(sel, toks, p)
    {
      if n > 0 {
        PickedExactly(toks, n - 1, sel);
      }
    }

    /** The selected tokens are the tokens at the picked positions. */
    lemma {:induction false} SelectedAt(toks: seq<string>, n: nat, sel: Selection)
      requires n <= |toks|
      ensures Selected(toks, n, sel) == At(toks, Picked(toks, n, sel))
    {
      if n > 0 {
        SelectedAt(toks, n - 1, sel);
        if Selects(sel, toks, n - 1) {
          AtAppend(toks, Picked(toks, n - 1, sel), n - 1);
        }
      }
    }

    /** The sum of the adjusted weights at the dictionary positions ps. */
    function SumAdjusted(toks: seq<string>, ps: seq<nat>): int
      requires forall k :: 0 <= k < |ps| ==> ps[k] < |toks| && toks[ps[k]] in tokens
    {
      if ps == [] then 0
      else SumAdjusted(toks, ps[..|ps| - 1]) + Adjusted(toks, ps[|ps| - 1])
    }

    lemma SumStep(toks: seq<string>, ps: seq<nat>, p: nat)
      requires forall k :: 0 <= k < |ps| ==> ps[k] < |toks| && toks[ps[k]] in tokens
      requires p < |toks| && toks[p] in tokens
      ensures SumAdjusted(toks, ps + [p]) == SumAdjusted(toks, ps) + Adjusted(toks, p)
    {
      assert (ps + [p])[..|ps|] == ps;
    }

    /** The running score is the sum of the adjusted weights over the dictionary positions. */
    lemma {:induction false} ScoreIsSum(toks: seq<string>, n: nat)
      requires n <= |toks|
      ensures ScoreUpTo(toks, n) == SumAdjusted(toks, Picked(toks, n, AllWords))
    {
      if n > 0 {
        var i := n - 1;
        ScoreIsSum(toks, i);
        var ps := Picked(toks, i, AllWords);
        if toks[i] in tokens {
          assert Picked(toks, n, AllWords) == ps + [i];
          SumStep(toks, ps, i);
        } else {
          assert Picked(toks, n, AllWords) == ps;
        }
      }
    }

    /**
      The running score is the sum over the positive positions plus the sum over the
      negative ones: the hits adjusted to 0 add nothing.
     */
    lemma {:induction false} ScoreSplits(toks: seq<string>, n: nat)
      requires n <= |toks|
      ensures ScoreUpTo(toks, n) == SumAdjusted(toks, Picked(toks, n, PositiveWords)) +
                                    SumAdjusted(toks, Picked(toks, n, NegativeWords))
    {
      if n > 0 {
        var i := n - 1;
        ScoreSplits(toks, i);
        var pos, neg := Picked(toks, i, PositiveWords), Picked(toks, i, NegativeWords);
        if toks[i] in tokens && Adjusted(toks, i) > 0 {
          assert Picked(toks, n, PositiveWords) == pos + [i];
          assert Picked(toks, n, NegativeWords) == neg;
          SumStep(toks, pos, i);
        } else if toks[i] in tokens && Adjusted(toks, i) < 0 {
          assert Picked(toks, n, PositiveWords) == pos;
          assert Picked(toks, n, NegativeWords) == neg + [i];
          SumStep(toks, neg, i);
        } else {
          assert Picked(toks, n, PositiveWords) == pos;
          assert Picked(toks, n, NegativeWords) == neg;
        }
      }
    }

    /** At most as many polarised hits as hits, and at most as many hits as tokens. */
    lemma {:induction false} SelectedSizes(toks: seq<string>, n: nat)
      requires n <= |toks|
      ensures |Selected(toks, n, PositiveWords)| + |Selected(toks, n, NegativeWords)| <= |Selected(toks, n, AllWords)|
      ensures |Selected(toks, n, AllWords)| <= n
    {
      if n > 0 {
        SelectedSizes(toks, n - 1);
      }
    }

    /** Without a negative hit the score is not negative, and without a positive hit not positive. */
    lemma {:induction false} ScoreSign(toks: seq<string>, n: nat)
      requires n <= |toks|
      ensures Selected(toks, n, NegativeWords) == [] ==> ScoreUpTo(toks, n) >= 0
      ensures Selected(toks, n, PositiveWords) == [] ==> ScoreUpTo(toks, n) <= 0
    {
      if n > 0 {
        ScoreSign(toks, n - 1);
        assert |Selected(toks, n - 1, NegativeWords)| <= |Selected(toks, n, NegativeWords)|;
        assert |Selected(toks, n - 1, PositiveWords)| <= |Selected(toks, n, PositiveWords)|;
      }
    }

    /** Without any hit below n nothing is selected and the score is 0. */
    lemma {:induction false} NoHits(toks: seq<string>, n: nat)
      requires n <= |toks|
      ensures (Selected(toks, n, AllWords) == []) <==> (forall k :: 0 <= k < n ==> toks[k] !in tokens)
      ensures Selected(toks, n, AllWords) == [] ==>
                ScoreUpTo(toks, n) == 0 && Selected(toks, n, PositiveWords) == [] && Selected(toks, n, NegativeWords) == []
    {
      if n > 0 {
        NoHits(toks, n - 1);
        SelectedSizes(toks, n - 1);
        assert |Selected(toks, n - 1, AllWords)| <= |Selected(toks, n, AllWords)|;
      }
    }

    // ---------------------------------------------------------- the result

    /**
      Tokens is the tokenizer's output and Words is the in-order subsequence of it
      made of the keys of the analyzer's dictionary.
     */
    lemma WordsAreHits(phrase: string)
      ensures Analysis(phrase).tokens == Tokenize(phrase)
      ensures var r := Analysis(phrase);
              var ps := Picked(r.tokens, |r.tokens|, AllWords);
              r.words == At(r.tokens, ps) &&
              (forall j, k :: 0 <= j < k < |ps| ==> ps[j] < ps[k]) &&
              (forall p: nat :: p in ps <==> p < |r.tokens| && r.tokens[p] in tokens)
    {
      var toks := Tokenize(phrase);
      SelectedAt(toks, |toks|, AllWords);
      PickedExactly(toks, |toks|, AllWords);
    }

    /**
      Positive and Negative are the hits whose adjusted weight is above and below 0,
      in order: no position is in both, each is a hit, and a hit adjusted to 0 is in
      neither.
     */
    lemma Polarity(phrase: string)
      ensures var r := Analysis(phrase);
              var toks := r.tokens;
              var pos := Picked(toks, |toks|, PositiveWords);
              var neg := Picked(toks, |toks|, NegativeWords);
              r.positive == At(toks, pos) && r.negative == At(toks, neg) &&
              (forall p: nat :: p in pos <==> p < |toks| && toks[p] in tokens && Adjusted(toks, p) > 0) &&
              (forall p: nat :: p in neg <==> p < |toks| && toks[p] in tokens && Adjusted(toks, p) < 0) &&
              (forall p: nat :: p in pos ==> p !in neg) &&
              (forall p: nat :: p in pos || p in neg ==> p in Picked(toks, |toks|, AllWords))
    {
      var toks := Tokenize(phrase);
      SelectedAt(toks, |toks|, PositiveWords);
      SelectedAt(toks, |toks|, NegativeWords);
      PickedExactly(toks, |toks|, PositiveWords);
      PickedExactly(toks, |toks|, NegativeWords);
      PickedExactly(toks, |toks|, AllWords);
    }

    /** |Positive| + |Negative| <= |Words| <= |Tokens|. */
    lemma ResultSizes(phrase: string)
      ensures var r := Analysis(phrase);
              |r.positive| + |r.negative| <= |r.words| <= |r.tokens|
    {
      var toks := Tokenize(phrase);
      SelectedSizes(toks, |toks|);
    }

    /** Score is the sum of the adjusted weights over the dictionary positions of Tokens. */
    lemma ScoreIsAdjustedSum(phrase: string)
      ensures var r := Analysis(phrase);
              r.score == SumAdjusted(r.tokens, Picked(r.tokens, |r.tokens|, AllWords)) &&
              r.score == SumAdjusted(r.tokens, Picked(r.tokens, |r.tokens|, PositiveWords)) +
                         SumAdjusted(r.tokens, Picked(r.tokens, |r.tokens|, NegativeWords))
      ensures var r := Analysis(phrase); r.negative == [] ==> r.score >= 0
      ensures var r := Analysis(phrase); r.positive == [] ==> r.score <= 0
    {
      var toks := Tokenize(phrase);
      ScoreIsSum(toks, |toks|);
      ScoreSplits(toks, |toks|);
      ScoreSign(toks, |toks|);
    }

    /**
      Words is empty exactly when no token is a dictionary key, and then Score and
      Comparative are 0 and Positive and Negative are empty.
     */
    lemma NoDictionaryWords(phrase: string)
      ensures var r := Analysis(phrase);
              (r.words == []) <==> (forall t :: t in r.tokens ==> t !in tokens)
      ensures var r := Analysis(phrase);
              r.words == [] ==> r.score == 0 && r.comparative == 0.0 && r.positive == [] && r.negative == []
    {
      var toks := Tokenize(phrase);
      NoHits(toks, |toks|);
    }

    /** The comparative guard always holds: Comparative is Score divided by the token count. */
    lemma ComparativeIsMean(phrase: string)
      ensures |Analysis(phrase).tokens| >= 1
      ensures var r := Analysis(phrase);
              r.comparative == r.score as real / |r.tokens| as real
    {
      TokenCount(phrase);
    }

    // ---------------------------------------------------------------- examples

    /**
      Positive and Negative are disjoint by position, not by string: when "not" is a
      negator, the tokens of "happy not happy" list "happy" as positive (first) and as
      negative (last).
     */
    lemma SameWordBothPolarities(toks: seq<string>)
      requires toks == ["happy", "not", "happy"]
      requires "happy" in tokens && tokens["happy"] > 0 && "not" !in tokens
      requires "not" in strategy.GetNegators()
      ensures Selected(toks, 3, PositiveWords) == ["happy"]
      ensures Selected(toks, 3, NegativeWords) == ["happy"]
    {
      assert Adjusted(toks, 0) > 0;
      assert Adjusted(toks, 2) < 0;
      assert Selected(toks, 1, PositiveWords) == ["happy"];
      assert Selected(toks, 2, PositiveWords) == ["happy"];
      assert Selected(toks, 1, NegativeWords) == [];
      assert Selected(toks, 2, NegativeWords) == [];
    }

    /**
      The example of TestNegation, for any dictionary in which "happy" is positive and
      "i", "am" and "not" have no weight, and any strategy whose negators hold "not"
      but not "am": "I am happy." has a positive comparative and "I am not happy." a
      negative one.
     */
    lemma Negation(plain: string, negated: string)
      requires plain == "I am happy." && negated == "I am not happy."
      requires "happy" in tokens && tokens["happy"] > 0
      requires "i" !in tokens && "am" !in tokens && "not" !in tokens
      requires "am" !in strategy.GetNegators() && "not" in strategy.GetNegators()
      ensures Analysis(plain).comparative > 0.0
      ensures Analysis(negated).comparative < 0.0
    {
      PlainPhrase(plain);
      NegatedPhrase(negated);
      var t1, t2 := Tokenize(plain), Tokenize(negated);
      assert Adjusted(t1, 2) == tokens["happy"];
      assert ScoreUpTo(t1, 1) == 0;
      assert ScoreUpTo(t1, 2) == 0;
      assert Adjusted(t2, 3) == -tokens["happy"];
      assert ScoreUpTo(t2, 1) == 0;
      assert ScoreUpTo(t2, 2) == 0;
      assert ScoreUpTo(t2, 3) == 0;
    }
  }

  /** The tokens at the positions ps. */
  function At(toks: seq<string>, ps: seq<nat>): (r: seq<string>)
    requires forall k :: 0 <= k < |ps| ==> ps[k] < |toks|
    ensures |r| == |ps|
  {
    seq(|ps|, k requires 0 <= k < |ps| => toks[ps[k]])
  }

  lemma AtAppend(toks: seq<string>, ps: seq<nat>, p: nat)
    requires forall k :: 0 <= k < |ps| ==> ps[k] < |toks|
    requires p < |toks|
    ensures At(toks, ps + [p]) == At(toks, ps) + [toks[p]]
  {
  }

  lemma PlainPhrase(s: string)
    requires s == "I am happy."
    ensures Tokenize(s) == ["i", "am", "happy"]
  {
    PlainWords(s, "I", "am", "happy.");
  }

  lemma PlainWords(s: string, i: string, am: string, happy: string)
    requires i == "I" && am == "am" && happy == "happy."
    requires s == i + " " + (am + " " + happy)
    ensures Tokenize(s) == ["i", "am", "happy"]
  {
    WordI(i);
    WordAm(am);
    WordHappy(happy);
    ThreeWords(s, i, am, happy, ["i", "am", "happy"]);
  }

  lemma NegatedPhrase(s: string)
    requires s == "I am not happy."
    ensures Tokenize(s) == ["i", "am", "not", "happy"]
  {
    NegatedWords(s, "I", "am", "not", "happy.");
  }

  lemma NegatedWords(s: string, i: string, am: string, not: string, happy: string)
    requires i == "I" && am == "am" && not == "not" && happy == "happy."
    requires s == i + " " + (am + " " + (not + " " + happy))
    ensures Tokenize(s) == ["i", "am", "not", "happy"]
  {
    WordI(i);
    WordAm(am);
    WordNot(not);
    WordHappy(happy);
    var rest := am + " " + (not + " " + happy);
    ThreeWords(rest, am, not, happy, ["am", "not", "happy"]);
    Prepend(i, rest, "i", ["am", "not", "happy"]);
  }

  /** Three one-token words separated by single spaces give their three tokens. */
  lemma ThreeWords(s: string, a: string, b: string, c: string, ts: seq<string>)
    requires s == a + " " + (b + " " + c) && |ts| == 3
    requires Tokenize(a) == [ts[0]] && Tokenize(b) == [ts[1]] && Tokenize(c) == [ts[2]]
    ensures Tokenize(s) == ts
  {
    Prepend(b, c, ts[1], [ts[2]]);
    Prepend(a, b + " " + c, ts[0], [ts[1], ts[2]]);
  }

  /** A one-token word, a space and more text: the word's token comes first. */
  lemma Prepend(w: string, rest: string, t: string, ts: seq<string>)
    requires Tokenize(w) == [t] && Tokenize(rest) == ts
    ensures Tokenize(w + " " + rest) == [t] + ts
  {
    TokenizeAtSpace(w, rest);
  }

  lemma WordI(w: string) requires w == "I" ensures Tokenize(w) == ["i"] {
    CapitalWordToken(w, 'I', "");
    assert [LowerChar('I')] + "" == "i";
  }
  lemma WordAm(w: string) requires w == "am" ensures Tokenize(w) == ["am"] {
    PlainWordToken(w, "am", "");
  }
  lemma WordNot(w: string) requires w == "not" ensures Tokenize(w) == ["not"] {
    PlainWordToken(w, "not", "");
  }
  lemma WordHappy(w: string) requires w == "happy." ensures Tokenize(w) == ["happy"] {
    PlainWordToken(w, "happy", ".");
  }

  /** NewSentimentAnalyzerFromStrategy: the analyzer copies the strategy's two dictionaries. */
  function NewSentimentAnalyzerFromStrategy(s: ScoringStrategy): (a: SentimentAnalyzer)
    ensures a.strategy == s
    ensures a.tokens == s.GetTokens() && a.negators == s.GetNegators()
  {
    SentimentAnalyzer(s, s.GetTokens(), s.GetNegators())
  }

  /**
    NewDefaultSentimentAnalyzer, given the outcomes of loading the English dictionaries:
    an analyzer over the English strategy when both loaded, and none otherwise.
   */
  function NewDefaultSentimentAnalyzer(tokensLoad: Result<Dictionary, string>,
                                       negatorsLoad: Result<Dictionary, string>): (r: Option<SentimentAnalyzer>)
    ensures r.None? <==> tokensLoad.Failure? || negatorsLoad.Failure?
    ensures r.Some? ==> (r.value.strategy == EnglishStrategy(tokensLoad.value, negatorsLoad.value) &&
                         r.value.tokens == tokensLoad.value &&
                         r.value.negators == negatorsLoad.value)
  {
    match NewEnglishStrategy(tokensLoad, negatorsLoad)
    case None => None
    case Some(s) => Some(NewSentimentAnalyzerFromStrategy(s))
  }
}
