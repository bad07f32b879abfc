/**
  The tokenizer of afinngo: delete every character outside [a-zA-Z0-9'\s-],
  lowercase what is left and split it at every single space, with the
  semantics of Go's strings.Split (n spaces give n + 1 pieces, so the
  result is never empty and adjacent spaces give empty pieces).
 */
module Tokenizer {

  const FormFeed: char := '\U{C}'

  /** The characters of the RE2 class \s: tab, newline, form feed, carriage return, space. */
  predicate IsSpace(c: char) {
    c == ' ' || c == '\t' || c == '\n' || c == FormFeed || c == '\r'
  }

  predicate IsUpper(c: char) { 'A' <= c <= 'Z' }

  predicate IsLowerOrDigit(c: char) { 'a' <= c <= 'z' || '0' <= c <= '9' }

  /** True exactly for the characters that [^a-zA-Z0-9'\s-]+ does not delete. */
  predicate IsKept(c: char) {
    IsUpper(c) || IsLowerOrDigit(c) || c == '\'' || c == '-' || IsSpace(c)
  }

  /** The characters a token may hold: everything kept, except space and the upper-case letters. */
  predicate IsTokenChar(c: char) {
    IsLowerOrDigit(c) || c == '\'' || c == '-' || c == '\t' || c == '\n' || c == FormFeed || c == '\r'
  }

  /** The regular-expression replacement: drop every character that is not kept. */
  function Filter(s: string): (r: string)
    ensures |r| <= |s|
    ensures forall k :: 0 <= k < |r| ==> IsKept(r[k])
  {
    if s == [] then []
    else (if IsKept(s[0]) then [s[0]] else []) + Filter(s[1..])
  }

  /** ASCII lowercasing of one character. */
  function LowerChar(c: char): char {
    if IsUpper(c) then (c as int - 'A' as int + 'a' as int) as char else c
  }

  /** strings.ToLower restricted to the ASCII text that Filter leaves. */
  function Lower(s: string): (r: string)
    ensures |r| == |s|
    ensures forall k :: 0 <= k < |r| ==> !IsUpper(r[k])
    ensures forall k :: 0 <= k < |s| && !IsUpper(s[k]) ==> r[k] == s[k]
    ensures forall k :: 0 <= k < |s| && IsUpper(s[k]) ==>
              'a' <= r[k] <= 'z' && r[k] as int - 'a' as int == s[k] as int - 'A' as int
  {
    seq(|s|, k requires 0 <= k < |s| => LowerChar(s[k]))
  }

  /** The number of spaces in s. */
  function Spaces(s: string): nat {
    multiset(s)[' ']
  }

  /** The index of the first space of s, or |s| when there is none (strings.Index). */
  function IndexOfSpace(s: string): (i: nat)
    ensures i <= |s|
    ensures i < |s| ==> s[i] == ' '
    ensures forall k :: 0 <= k < i ==> s[k] != ' '
  {
    if s == [] || s[0] == ' ' then 0 else 1 + IndexOfSpace(s[1..])
  }

  /** strings.Split(s, " "): the text before the first space, then the split of the text after it. */
  function Split(s: string): (r: seq<string>)
    ensures |r| >= 1
    decreases |s|
  {
    var i := IndexOfSpace(s);
    if i == |s| then [s] else [s[..i]] + Split(s[i + 1..])
  }

  /** strings.Join(ts, " "). */
  function Join(ts: seq<string>): string {
    if ts == [] then ""
    else if |ts| == 1 then ts[0]
    else ts[0] + " " + Join(ts[1..])
  }

  /** tokenize (afinngo.go). */
  function Tokenize(input: string): (r: seq<string>)
    ensures |r| >= 1
  {
    Split(Lower(Filter(input)))
  }

  // ---------------------------------------------------------------- Split and Join

  /** The first space is determined by its two defining properties. */
  lemma IndexOfSpaceIs(s: string, j: nat)
    requires j <= |s| && (j < |s| ==> s[j] == ' ')
    requires forall k :: 0 <= k < j ==> s[k] != ' '
    ensures IndexOfSpace(s) == j
  {
  }

  /** Join of at least two pieces puts a space after the first. */
  lemma JoinCons(t: string, ts: seq<string>)
    requires ts != []
    ensures Join([t] + ts) == t + " " + Join(ts)
  {
    assert ([t] + ts)[1..] == ts;
  }

  /** Joining the pieces of a split with the separator gives back the string. */
  lemma {:induction false} JoinSplit(s: string)
    ensures Join(Split(s)) == s
    decreases |s|
  {
    var i := IndexOfSpace(s);
    if i < |s| {
      var head, tail := s[..i], s[i + 1..];
      SplitHead(s);
      JoinSplit(tail);
      JoinCons(head, Split(tail));
    }
  }

  /** With a space in s, s is the first piece, a space and the rest, and the rest splits on. */
  lemma SplitHead(s: string)
    requires IndexOfSpace(s) < |s|
    ensures var i := IndexOfSpace(s);
            s == s[..i] + " " + s[i + 1..] && Split(s) == [s[..i]] + Split(s[i + 1..])
  {
    AroundSpace(s, IndexOfSpace(s));
  }

  /** A string is the text before one of its spaces, that space and the text after it. */
  lemma AroundSpace(s: string, j: nat)
    requires j < |s| && s[j] == ' '
    ensures s == s[..j] + " " + s[j + 1..]
  {
    assert s[..j] + [s[j]] == s[..j + 1];
    assert s[..j + 1] + s[j + 1..] == s;
  }

  /** The number of pieces is the number of spaces plus one. */
  lemma {:induction false} SplitCount(s: string)
    ensures |Split(s)| == Spaces(s) + 1
    decreases |s|
  {
    var i := IndexOfSpace(s);
    if i == |s| {
      assert ' ' !in multiset(s);
    } else {
      SplitCount(s[i + 1..]);
      assert s == s[..i] + [' '] + s[i + 1..];
      assert ' ' !in multiset(s[..i]);
    }
  }

  /** No piece contains a space, and every character of a piece comes from s. */
  lemma {:induction false} SplitPieces(s: string)
    ensures forall t, c :: t in Split(s) && c in t ==> c != ' ' && c in s
    decreases |s|
  {
    var i := IndexOfSpace(s);
    if i < |s| {
      SplitPieces(s[i + 1..]);
      forall t, c | t in Split(s) && c in t ensures c != ' ' && c in s {
        if t != s[..i] {
          assert t in Split(s[i + 1..]);
          assert c in s[i + 1..];
        }
      }
    }
  }

  /** A space-free prefix followed by a space is the first piece. */
  lemma SplitFirst(t: string, z: string)
    requires ' ' !in t
    ensures Split(t + " " + z) == [t] + Split(z)
  {
    var u := t + " " + z;
    IndexOfSpaceIs(u, |t|);
    assert u[..|t|] == t && u[|t| + 1..] == z;
  }

  /** Split at one space: the pieces of the left part followed by the pieces of the right part. */
  lemma {:induction false} SplitAtSpace(x: string, y: string)
    ensures Split(x + " " + y) == Split(x) + Split(y)
    decreases |x|
  {
    var i := IndexOfSpace(x);
    if i == |x| {
      SplitFirst(x, y);
      IndexOfSpaceIs(x, |x|);
    } else {
      var x1, x2 := x[..i], x[i + 1..];
      var z := x2 + " " + y;
      assert x == x1 + " " + x2;
      assert x + " " + y == x1 + " " + z;
      SplitFirst(x1, z);
      SplitFirst(x1, x2);
      SplitAtSpace(x2, y);
      SeqAssoc([x1], Split(x2), Split(y));
    }
  }

  lemma SeqAssoc(a: seq<string>, b: seq<string>, c: seq<string>)
    ensures a + (b + c) == (a + b) + c
  {
  }

  /** Splitting the join of space-free pieces gives back the pieces. */
  lemma {:induction false} SplitJoin(ts: seq<string>)
    requires |ts| >= 1
    requires forall k :: 0 <= k < |ts| ==> ' ' !in ts[k]
    ensures Split(Join(ts)) == ts
  {
    var t := ts[0];
    IndexOfSpaceIs(t, |t|);
    assert Split(t) == [t];
    if |ts| > 1 {
      var rest := ts[1..];
      SplitJoin(rest);
      assert Join(ts) == t + " " + Join(rest);
      SplitAtSpace(t, Join(rest));
      assert ts == [t] + rest;
    }
  }

  // ---------------------------------------------------------------- Filter and Lower

  /** Lowercasing a non-empty text lowercases its first character and then the rest. */
  lemma LowerCons(s: string)
    requires s != []
    ensures Lower(s) == [LowerChar(s[0])] + Lower(s[1..])
  {
  }

  lemma {:induction false} LowerSpaces(s: string)
    ensures Spaces(Lower(s)) == Spaces(s)
  {
    if s != [] {
      LowerSpaces(s[1..]);
      LowerCons(s);
      var d, rest := LowerChar(s[0]), Lower(s[1..]);
      assert d == ' ' <==> s[0] == ' ';
      assert multiset(Lower(s)) == multiset([d]) + multiset(rest);
      assert s == [s[0]] + s[1..];
      assert multiset(s) == multiset([s[0]]) + multiset(s[1..]);
    }
  }

  /** One character: kept as it is when the class matches it, deleted otherwise. */
  lemma FilterChar(c: char)
    ensures Filter([c]) == (if IsKept(c) then [c] else [])
  {
    assert [c][1..] == [];
  }

  /** A character is in the filtered text exactly when it is in the text and kept. */
  lemma {:induction false} FilterMembers(s: string)
    ensures forall c :: c in Filter(s) <==> c in s && IsKept(c)
  {
    if s != [] {
      FilterMembers(s[1..]);
      assert s == [s[0]] + s[1..];
    }
  }

  /** Filter leaves a string of kept characters unchanged. */
  lemma {:induction false} FilterKept(s: string)
    requires forall k :: 0 <= k < |s| ==> IsKept(s[k])
    ensures Filter(s) == s
  {
    if s != [] {
      FilterKept(s[1..]);
      assert s == [s[0]] + s[1..];
    }
  }

  /** Filter works character by character, so it distributes over concatenation. */
  lemma {:induction false} FilterConcat(a: string, b: string)
    ensures Filter(a + b) == Filter(a) + Filter(b)
  {
    if a != [] {
      FilterConcat(a[1..], b);
      assert (a + b)[1..] == a[1..] + b;
    } else {
      assert a + b == b;
    }
  }

  /** Lower works character by character, so it distributes over concatenation. */
  lemma LowerConcat(a: string, b: string)
    ensures Lower(a + b) == Lower(a) + Lower(b)
  {
  }

  /** Lowercasing twice is lowercasing once. */
  lemma LowerIdempotent(s: string)
    ensures Lower(Lower(s)) == Lower(s)
  {
  }

  /** Lower leaves a string without upper-case letters unchanged. */
  lemma LowerNoUpper(s: string)
    requires forall k :: 0 <= k < |s| ==> !IsUpper(s[k])
    ensures Lower(s) == s
  {
  }

  // ---------------------------------------------------------------- tokenize

  /** Text joined at a space tokenizes into the tokens of each part, one after the other. */
  lemma TokenizeAtSpace(x: string, y: string)
    ensures Tokenize(x + " " + y) == Tokenize(x) + Tokenize(y)
  {
    FilterConcat(x + " ", y);
    FilterConcat(x, " ");
    assert Filter(" ") == " ";
    var fx, fy := Filter(x), Filter(y);
    assert Filter(x + " " + y) == fx + " " + fy;
    LowerConcat(fx + " ", fy);
    LowerConcat(fx, " ");
    assert Lower(" ") == " ";
    assert Lower(fx + " " + fy) == Lower(fx) + " " + Lower(fy);
    SplitAtSpace(Lower(fx), Lower(fy));
  }

  /** tokenize returns one more token than there are spaces left after filtering, so at least one. */
  lemma TokenCount(input: string)
    ensures |Tokenize(input)| == Spaces(Filter(input)) + 1
    ensures |Tokenize(input)| >= 1
  {
    LowerSpaces(Filter(input));
    SplitCount(Lower(Filter(input)));
  }

  /** The empty text gives one empty token. */
  lemma TokenizeEmpty()
    ensures Tokenize("") == [""]
  {
    assert Lower("") == "";
  }

  /** Every character of a token belongs to IsTokenChar; no token holds a space or an upper-case letter. */
  lemma TokenChars(input: string)
    ensures forall t, c :: t in Tokenize(input) && c in t ==> IsTokenChar(c)
  {
    var f := Lower(Filter(input));
    assert forall c :: c in f ==> IsTokenChar(c) || c == ' ';
    SplitPieces(f);
  }

  /** Joining the tokens with " " gives the lowercased, filtered text. */
  lemma JoinTokenize(input: string)
    ensures Join(Tokenize(input)) == Lower(Filter(input))
  {
    JoinSplit(Lower(Filter(input)));
  }

  /** Tokenizing the joined tokens again gives the same tokens. */
  lemma TokenizeIdempotent(input: string)
    ensures Tokenize(Join(Tokenize(input))) == Tokenize(input)
  {
    var f := Lower(Filter(input));
    JoinTokenize(input);
    FilterKept(f);
    assert Lower(f) == f;
  }

  // ---------------------------------------------------------------- examples

  /** Lower-case letters, digits, apostrophes and hyphens only. */
  predicate IsPlain(t: string) {
    forall k :: 0 <= k < |t| ==> IsLowerOrDigit(t[k]) || t[k] == '\'' || t[k] == '-'
  }

  /** A plain word followed by characters that the filter deletes is one token, the word. */
  lemma PlainWordToken(w: string, t: string, p: string)
    requires w == t + p && IsPlain(t) && Filter(p) == ""
    ensures Tokenize(w) == [t]
  {
    KeptWordToken(w, t, p);
  }

  /** A capitalised plain word is one token, the word with its first letter lowercased. */
  lemma CapitalWordToken(w: string, c: char, t: string)
    requires w == [c] + t && IsUpper(c) && IsPlain(t)
    ensures Tokenize(w) == [[LowerChar(c)] + t]
  {
    FilterKept(w);
    var d := LowerChar(c);
    assert 'a' <= d <= 'z';
    var u := [d] + t;
    assert Lower(w) == u by {
      LowerConcat([c], t);
      LowerNoUpper(t);
      LowerCons([c]);
      assert [c][1..] == [];
    }
    IndexOfSpaceIs(u, |u|);
    assert Split(u) == [u];
  }

  /** Words that are one token each, joined with spaces, give those tokens in order. */
  lemma {:induction false} TokenizeJoin(ws: seq<string>, ts: seq<string>)
    requires |ws| == |ts| >= 1
    requires forall k :: 0 <= k < |ws| ==> Tokenize(ws[k]) == [ts[k]]
    ensures Tokenize(Join(ws)) == ts
  {
    if |ws| > 1 {
      TokenizeJoin(ws[1..], ts[1..]);
      TokenizeAtSpace(ws[0], Join(ws[1..]));
      assert ts == [ts[0]] + ts[1..];
    }
  }

  /**
    The example of TestTokenize. The input is the test's sentence, given as its
    space-separated words ws (so Join(ws) is the sentence): the periods go, the
    capitals are lowercased and the apostrophe of "let's" stays.
   */
  lemma TokenizeSentence(ws: seq<string>)
    requires |ws| == 13
    requires ws[0] == "The"
    requires ws[1] == "quick"
    requires ws[2] == "brown"
    requires ws[3] == "fox"
    requires ws[4] == "jumps"
    requires ws[5] == "over"
    requires ws[6] == "the"
    requires ws[7] == "lazy"
    requires ws[8] == "dog."
    requires ws[9] == "Let's"
    requires ws[10] == "test"
    requires ws[11] == "an"
    requires ws[12] == "apostrophe."
    ensures Tokenize(Join(ws)) == ["the", "quick", "brown", "fox", "jumps", "over", "the", "lazy", "dog",
             "let's", "test", "an", "apostrophe"]
  {
    var ts := ["the", "quick", "brown", "fox", "jumps", "over", "the", "lazy", "dog",
                 "let's", "test", "an", "apostrophe"];
    SentenceWords(ws, ts);
    TokenizeJoin(ws, ts);
  }

  /** Each word of the sentence of TokenizeSentence is one token. */
  lemma SentenceWords(ws: seq<string>, ts: seq<string>)
    requires |ws| == 13
    requires ws[0] == "The"
    requires ws[1] == "quick"
    requires ws[2] == "brown"
    requires ws[3] == "fox"
    requires ws[4] == "jumps"
    requires ws[5] == "over"
    requires ws[6] == "the"
    requires ws[7] == "lazy"
    requires ws[8] == "dog."
    requires ws[9] == "Let's"
    requires ws[10] == "test"
    requires ws[11] == "an"
    requires ws[12] == "apostrophe."
    requires ts == ["the", "quick", "brown", "fox", "jumps", "over", "the", "lazy", "dog",
                 "let's", "test", "an", "apostrophe"]
    ensures forall k :: 0 <= k < 13 ==> Tokenize(ws[k]) == [ts[k]]
  {
    forall k | 0 <= k < 13 ensures Tokenize(ws[k]) == [ts[k]] {
      if k == 0 { SentenceWord0(ws[0]); }
      else if k == 1 { SentenceWord1(ws[1]); }
      else if k == 2 { SentenceWord2(ws[2]); }
      else if k == 3 { SentenceWord3(ws[3]); }
      else if k == 4 { SentenceWord4(ws[4]); }
      else if k == 5 { SentenceWord5(ws[5]); }
      else if k == 6 { SentenceWord6(ws[6]); }
      else if k == 7 { SentenceWord7(ws[7]); }
      else if k == 8 { SentenceWord8(ws[8]); }
      else if k == 9 { SentenceWord9(ws[9]); }
      else if k == 10 { SentenceWord10(ws[10]); }
      else if k == 11 { SentenceWord11(ws[11]); }
      else { SentenceWord12(ws[12]); }
    }
  }

  lemma SentenceWord0(w: string) requires w == "The" ensures Tokenize(w) == ["the"] {
    CapitalWordToken(w, 'T', "he");
    assert [LowerChar('T')] + "he" == "the";
  }
  lemma SentenceWord1(w: string) requires w == "quick" ensures Tokenize(w) == ["quick"] {
    PlainWordToken(w, "quick", "");
  }
  lemma SentenceWord2(w: string) requires w == "brown" ensures Tokenize(w) == ["brown"] {
    PlainWordToken(w, "brown", "");
  }
  lemma SentenceWord3(w: string) requires w == "fox" ensures Tokenize(w) == ["fox"] {
    PlainWordToken(w, "fox", "");
  }
  lemma SentenceWord4(w: string) requires w == "jumps" ensures Tokenize(w) == ["jumps"] {
    PlainWordToken(w, "jumps", "");
  }
  lemma SentenceWord5(w: string) requires w == "over" ensures Tokenize(w) == ["over"] {
    PlainWordToken(w, "over", "");
  }
  lemma SentenceWord6(w: string) requires w == "the" ensures Tokenize(w) == ["the"] {
    PlainWordToken(w, "the", "");
  }
  lemma SentenceWord7(w: string) requires w == "lazy" ensures Tokenize(w) == ["lazy"] {
    PlainWordToken(w, "lazy", "");
  }
  lemma SentenceWord8(w: string) requires w == "dog." ensures Tokenize(w) == ["dog"] {
    PlainWordToken(w, "dog", ".");
  }
  lemma SentenceWord9(w: string) requires w == "Let's" ensures Tokenize(w) == ["let's"] {
    CapitalWordToken(w, 'L', "et's");
    assert [LowerChar('L')] + "et's" == "let's";
  }
  lemma SentenceWord10(w: string) requires w == "test" ensures Tokenize(w) == ["test"] {
    PlainWordToken(w, "test", "");
  }
  lemma SentenceWord11(w: string) requires w == "an" ensures Tokenize(w) == ["an"] {
    PlainWordToken(w, "an", "");
  }
  lemma SentenceWord12(w: string) requires w == "apostrophe." ensures Tokenize(w) == ["apostrophe"] {
    PlainWordToken(w, "apostrophe", ".");
  }

  /** Two adjacent spaces give an empty token between them. */
  lemma TokenizeDoubleSpace(s: string)
    requires s == "a  b"
    ensures Tokenize(s) == ["a", "", "b"]
  {
    assert s == "a" + " " + ("" + " " + "b");
    TokenizeAtSpace("a", "" + " " + "b");
    TokenizeAtSpace("", "b");
    TokenizeEmpty();
    PlainWordToken("a", "a", "");
    PlainWordToken("b", "b", "");
  }

  /** A tab survives the filter and does not split; the exclamation mark is deleted. */
  lemma TokenizeTab(s: string)
    requires s == "a\tb!"
    ensures Tokenize(s) == ["a\tb"]
  {
    KeptWordToken(s, "a\tb", "!");
  }

  /** A word of kept characters other than space and upper case, then deleted characters, is one token. */
  lemma KeptWordToken(w: string, t: string, p: string)
    requires w == t + p && Filter(p) == ""
    requires forall k :: 0 <= k < |t| ==> IsTokenChar(t[k])
    ensures Tokenize(w) == [t]
  {
    FilterConcat(t, p);
    FilterKept(t);
    assert t + "" == t;
    LowerNoUpper(t);
    IndexOfSpaceIs(t, |t|);
  }
}
