/**
  The scoring strategy of afinngo (the ScoringStrategy interface and its one
  implementation, EnglishStrategy). The interface is modelled as a datatype whose
  variants are the implementations; the analyzer only calls its three members.
 */
module Strategy {
  import opened Wrappers

  /** A dictionary loaded from a CSV file: token to AFINN weight. */
  type Dictionary = map<string, int>

  datatype ScoringStrategy = EnglishStrategy(tokens: Dictionary, negators: Dictionary) {

    /**
      The adjusted weight of toks[index], whose dictionary weight is weight: negated
      when the token just before it is a negator, unchanged otherwise. Only
      toks[index - 1] is read, so index - 1 must be a position of toks when index > 0.
     */
    function GetScore(toks: seq<string>, index: int, weight: int): (r: int)
      requires index <= |toks|
      ensures r == weight || r == -weight
      ensures 0 < index && toks[index - 1] in GetNegators() ==> r == -weight
      ensures r != weight ==> 0 < index && toks[index - 1] in GetNegators()
    {
      match this
      case EnglishStrategy(_, negs) =>
        if index > 0 && toks[index - 1] in negs then -weight else weight
    }

    /** The token dictionary the strategy was built with. */
    function GetTokens(): (r: Dictionary)
      ensures EnglishStrategy(r, GetNegators()) == this
    {
      match this
      case EnglishStrategy(toks, _) => toks
    }

    /** The negator dictionary the strategy was built with. */
    function GetNegators(): (r: Dictionary)
      ensures EnglishStrategy(tokens, r) == this
    {
      match this
      case EnglishStrategy(_, negs) => negs
    }
  }

  /**
    NewEnglishStrategy, given the outcomes of loading the "tokens" and the "negators"
    dictionaries: no strategy (Go's nil) when either load failed, otherwise the
    strategy holding exactly the two loaded dictionaries.
   */
  function NewEnglishStrategy(tokensLoad: Result<Dictionary, string>,
                              negatorsLoad: Result<Dictionary, string>): (r: Option<ScoringStrategy>)
    ensures r.None? <==> tokensLoad.Failure? || negatorsLoad.Failure?
    ensures r.Some? ==> (r.value.GetTokens() == tokensLoad.value &&
                         r.value.GetNegators() == negatorsLoad.value)
  {
    if tokensLoad.Failure? || negatorsLoad.Failure? then None
    else Some(EnglishStrategy(tokensLoad.value, negatorsLoad.value))
  }

  /** The getters return the maps the strategy was built with. */
  lemma GettersReturnStoredMaps(tokens: Dictionary, negators: Dictionary)
    ensures EnglishStrategy(tokens, negators).GetTokens() == tokens
    ensures EnglishStrategy(tokens, negators).GetNegators() == negators
  {
  }

  // ---------------------------------------------------------------- the negation rule

  /** The first token is never negated. */
  lemma FirstTokenNotNegated(s: ScoringStrategy, toks: seq<string>, weight: int)
    ensures s.GetScore(toks, 0, weight) == weight
  {
  }

  /** Negation looks at the single preceding token: sequences that agree there score alike. */
  lemma OnlyPreviousTokenMatters(s: ScoringStrategy, t1: seq<string>, t2: seq<string>, index: int, weight: int)
    requires index <= |t1| && index <= |t2|
    requires 0 < index ==> t1[index - 1] == t2[index - 1]
    ensures s.GetScore(t1, index, weight) == s.GetScore(t2, index, weight)
  {
  }

  /** The adjustment is odd in the weight and undoes itself; a zero weight stays zero. */
  lemma AdjustmentIsSignFlip(s: ScoringStrategy, toks: seq<string>, index: int, weight: int)
    requires index <= |toks|
    ensures s.GetScore(toks, index, -weight) == -s.GetScore(toks, index, weight)
    ensures s.GetScore(toks, index, s.GetScore(toks, index, weight)) == weight
    ensures weight == 0 ==> s.GetScore(toks, index, weight) == 0
  {
  }
}
