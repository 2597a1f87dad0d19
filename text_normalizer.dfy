/** Query normalisation of the search engine: the undesirable-token list,
    the filter that drops those tokens, the stemmed TF-IDF query string and
    the lower-cased doc2vec token list.

    The tokeniser (`word_tokenize`), the Spanish stemmer (`SnowballStemmer`)
    and the Spanish stopword list of the language toolkit are foreign code and
    data: they are parameters `tokenize`, `stem` and `stopwords` here, about
    which nothing is assumed. */
module TextNormalizer {

  /** Python's `string.punctuation`, character by character. */
  const PunctuationChars: string := "!\"#$%&'()*+,-./:;<=>?@[\\]^_`{|}~"

  /** The separator of `" ".join`. */
  const Space: char := ' '

  /** `[punct for punct in string.punctuation]`: every punctuation character
      as a token of its own, and nothing else. */
  function PunctuationTokens(): (r: seq<string>)
    ensures |r| == 32
    ensures forall w :: w in r <==> |w| == 1 && w[0] in PunctuationChars
  {
    var r := seq(|PunctuationChars|, i requires 0 <= i < |PunctuationChars| => [PunctuationChars[i]]);
    assert forall w :: |w| == 1 && w[0] in PunctuationChars ==> w in r by {
      forall w | |w| == 1 && w[0] in PunctuationChars
        ensures w in r
      {
        var i :| 0 <= i < |PunctuationChars| && PunctuationChars[i] == w[0];
        assert r[i] == w;
      }
    }
    r
  }

  /** A punctuation token, as the punctuation list holds it. */
  predicate IsPunctuation(w: string) {
    |w| == 1 && w[0] in PunctuationChars
  }

  /** `undesirable_values`: the punctuation tokens followed by the stopwords,
      to which a newline token has been appended. A token is undesirable
      exactly when it is one of those three kinds. */
  function UndesirableValues(stopwords: seq<string>): (r: seq<string>)
    ensures forall w :: w in r <==> IsPunctuation(w) || w in stopwords || w == "\n"
  {
    PunctuationTokens() + (stopwords + ["\n"])
  }

  /** The tokens that the comprehension's `if word not in undesirable_values`
      lets through, in their order; defined by peeling off the last token. */
  function Kept(tokens: seq<string>, undesirable: seq<string>): (r: seq<string>)
    ensures |r| <= |tokens|
    ensures forall w :: w in r ==> w in tokens && w !in undesirable
  {
    if tokens == [] then []
    else
      var init := Kept(tokens[..|tokens| - 1], undesirable);
      var last := tokens[|tokens| - 1];
      assert forall w :: w in tokens[..|tokens| - 1] ==> w in tokens;
      if last in undesirable then init else init + [last]
  }

  /** The positions in `tokens` of the kept tokens. */
  ghost function KeptIndices(tokens: seq<string>, undesirable: seq<string>): seq<nat>
  {
    if tokens == [] then []
    else
      var init := KeptIndices(tokens[..|tokens| - 1], undesirable);
      if tokens[|tokens| - 1] in undesirable then init else init + [|tokens| - 1]
  }

  /** The kept positions are positions of the input, in increasing order. */
  lemma {:induction false} KeptIndicesIncreasing(tokens: seq<string>, undesirable: seq<string>)
    ensures forall i :: 0 <= i < |KeptIndices(tokens, undesirable)| ==> KeptIndices(tokens, undesirable)[i] < |tokens|
    ensures forall i, j :: 0 <= i < j < |KeptIndices(tokens, undesirable)| ==>
      KeptIndices(tokens, undesirable)[i] < KeptIndices(tokens, undesirable)[j]
  {
    if tokens != [] {
      KeptIndicesIncreasing(tokens[..|tokens| - 1], undesirable);
    }
  }

  /** Every desirable position of the input is a kept position. */
  lemma {:induction false} KeptIndicesComplete(tokens: seq<string>, undesirable: seq<string>)
    ensures forall j :: 0 <= j < |tokens| && tokens[j] !in undesirable ==> j in KeptIndices(tokens, undesirable)
  {
    if tokens != [] {
      var init := tokens[..|tokens| - 1];
      KeptIndicesComplete(init, undesirable);
      assert forall j :: 0 <= j < |init| ==> init[j] == tokens[j];
    }
  }

  /** The kept tokens are the input tokens at the kept positions, and none
      of them is undesirable. */
  lemma {:induction false} KeptAtIndices(tokens: seq<string>, undesirable: seq<string>)
    ensures |KeptIndices(tokens, undesirable)| == |Kept(tokens, undesirable)|
    ensures forall i :: 0 <= i < |KeptIndices(tokens, undesirable)| ==>
      && KeptIndices(tokens, undesirable)[i] < |tokens|
      && tokens[KeptIndices(tokens, undesirable)[i]] !in undesirable
      && Kept(tokens, undesirable)[i] == tokens[KeptIndices(tokens, undesirable)[i]]
  {
    if tokens != [] {
      var init := tokens[..|tokens| - 1];
      KeptAtIndices(init, undesirable);
      assert forall j :: 0 <= j < |init| ==> init[j] == tokens[j];
    }
  }

  /** The filter keeps exactly the desirable tokens, each once, in their
      original order: position `i` of the output is the strictly increasing
      position `KeptIndices[i]` of the input, and every desirable position
      of the input is one of them. */
  lemma KeptIsOrderedSelection(tokens: seq<string>, undesirable: seq<string>)
    ensures |KeptIndices(tokens, undesirable)| == |Kept(tokens, undesirable)|
    ensures forall i :: 0 <= i < |KeptIndices(tokens, undesirable)| ==>
      && KeptIndices(tokens, undesirable)[i] < |tokens|
      && tokens[KeptIndices(tokens, undesirable)[i]] !in undesirable
      && Kept(tokens, undesirable)[i] == tokens[KeptIndices(tokens, undesirable)[i]]
    ensures forall i, j :: 0 <= i < j < |KeptIndices(tokens, undesirable)| ==>
      KeptIndices(tokens, undesirable)[i] < KeptIndices(tokens, undesirable)[j]
    ensures forall j :: 0 <= j < |tokens| && tokens[j] !in undesirable ==> j in KeptIndices(tokens, undesirable)
  {
    KeptIndicesIncreasing(tokens, undesirable);
    KeptIndicesComplete(tokens, undesirable);
    KeptAtIndices(tokens, undesirable);
  }

  /** The stems of the kept tokens: `[stemmer.stem(word) for word in ... if ...]`. */
  function TfidfTokens(tokens: seq<string>, stem: string -> string, undesirable: seq<string>): (r: seq<string>)
    ensures |r| <= |tokens|
    ensures forall t :: t in r ==> exists w :: w in tokens && w !in undesirable && t == stem(w)
  {
    var kept := Kept(tokens, undesirable);
    var r := seq(|kept|, i requires 0 <= i < |kept| => stem(kept[i]));
    assert forall t :: t in r ==> exists w :: w in tokens && w !in undesirable && t == stem(w) by {
      forall t | t in r
        ensures exists w :: w in tokens && w !in undesirable && t == stem(w)
      {
        var i :| 0 <= i < |r| && r[i] == t;
        assert kept[i] in kept;
      }
    }
    r
  }

  /** Every TF-IDF token is the stem of a desirable token of the input, taken
      in input order, and there are no more of them than input tokens. */
  lemma TfidfTokensAreStemsOfKept(tokens: seq<string>, stem: string -> string, undesirable: seq<string>)
    ensures var r, ix := TfidfTokens(tokens, stem, undesirable), KeptIndices(tokens, undesirable);
      && |r| == |ix| <= |tokens|
      && (forall i :: 0 <= i < |r| ==> ix[i] < |tokens| && tokens[ix[i]] !in undesirable && r[i] == stem(tokens[ix[i]]))
      && (forall i, j :: 0 <= i < j < |r| ==> ix[i] < ix[j])
      && (forall t :: t in r ==> exists w :: w in tokens && w !in undesirable && t == stem(w))
  {
    KeptIsOrderedSelection(tokens, undesirable);
  }

  /** The stemmer is only ever applied to the kept tokens, so it never sees a
      newline, a punctuation token or a stopword. */
  lemma StemNeverSeesUndesirable(tokens: seq<string>, stopwords: seq<string>)
    ensures forall w :: w in Kept(tokens, UndesirableValues(stopwords)) ==>
      w != "\n" && !IsPunctuation(w) && w !in stopwords
  {
  }

  /** Python's `" ".join(words)`: the words with one space between neighbours.
      The result is empty only for no words or a single empty word. */
  function Join(words: seq<string>): (r: string)
    ensures r == [] <==> words == [] || words == [""]
  {
    if words == [] then ""
    else if |words| == 1 then words[0]
    else Join(words[..|words| - 1]) + [Space] + words[|words| - 1]
  }

  /** Python's `s.split(" ")`: the pieces between single spaces, empty pieces
      included; the empty string splits into one empty piece. */
  function Split(s: string): (r: seq<string>)
    ensures |r| >= 1
  {
    if s == [] then [""]
    else
      var init := Split(s[..|s| - 1]);
      if s[|s| - 1] == Space then init + [""]
      else init[..|init| - 1] + [init[|init| - 1] + [s[|s| - 1]]]
  }

  /** Appending a character other than a space lengthens the last piece. */
  lemma SplitSnoc(s: string, c: char)
    requires c != Space
    ensures Split(s + [c]) == Split(s)[..|Split(s)| - 1] + [Split(s)[|Split(s)| - 1] + [c]]
  {
    assert (s + [c])[..|s|] == s;
  }

  /** Appending a space starts a new, empty piece. */
  lemma SplitSnocSpace(s: string)
    ensures Split(s + [Space]) == Split(s) + [""]
  {
    assert (s + [Space])[..|s|] == s;
  }

  /** Lengthening the last piece twice is lengthening it once. */
  lemma ExtendLast(p: seq<string>, u: string, c: char)
    requires |p| >= 1
    ensures var q := p[..|p| - 1] + [p[|p| - 1] + u];
      q[..|q| - 1] + [q[|q| - 1] + [c]] == p[..|p| - 1] + [p[|p| - 1] + (u + [c])]
  {
    var q := p[..|p| - 1] + [p[|p| - 1] + u];
    assert q[..|q| - 1] == p[..|p| - 1];
    assert q[|q| - 1] + [c] == p[|p| - 1] + (u + [c]);
  }

  /** Appending space-free text to a string only lengthens its last piece. */
  lemma {:induction false} SplitAppendWord(s: string, w: string)
    requires Space !in w
    ensures Split(s + w) == Split(s)[..|Split(s)| - 1] + [Split(s)[|Split(s)| - 1] + w]
    decreases |w|
  {
    var p := Split(s);
    if w == [] {
      assert s + w == s;
      assert p[|p| - 1] + w == p[|p| - 1];
      assert p[..|p| - 1] + [p[|p| - 1]] == p;
    } else {
      var w0, c := w[..|w| - 1], w[|w| - 1];
      assert w == w0 + [c];
      assert Space !in w0 && c != Space;
      SplitAppendWord(s, w0);
      assert s + w == (s + w0) + [c];
      SplitSnoc(s + w0, c);
      ExtendLast(p, w0, c);
    }
  }

  /** A space followed by space-free text adds exactly one piece. */
  lemma SplitAfterSpace(s: string, w: string)
    requires Space !in w
    ensures Split(s + [Space] + w) == Split(s) + [w]
  {
    SplitSnocSpace(s);
    SplitAppendWord(s + [Space], w);
    var p := Split(s + [Space]);
    assert p[..|p| - 1] == Split(s);
    assert p[|p| - 1] + w == w;
  }

  /** A space-free word splits into itself. */
  lemma SplitWord(w: string)
    requires Space !in w
    ensures Split(w) == [w]
  {
    SplitAppendWord("", w);
    assert "" + w == w;
  }

  /** Joining one more word keeps the round trip. */
  lemma SplitJoinStep(init: seq<string>, last: string)
    requires init != [] && Split(Join(init)) == init
    requires Space !in last
    ensures Split(Join(init + [last])) == init + [last]
  {
    var words := init + [last];
    assert words[..|words| - 1] == init;
    assert Join(words) == Join(init) + [Space] + last;
    SplitAfterSpace(Join(init), last);
  }

  /** Splitting the joined words on spaces gives the words back, provided
      there is at least one word and no word contains a space (empty words
      are fine). */
  lemma {:induction false} SplitJoin(words: seq<string>)
    requires words != []
    requires forall k :: 0 <= k < |words| ==> Space !in words[k]
    ensures Split(Join(words)) == words
  {
    var last := words[|words| - 1];
    if |words| == 1 {
      SplitWord(last);
      assert words == [last];
    } else {
      var init := words[..|words| - 1];
      SplitJoin(init);
      SplitJoinStep(init, last);
      assert init + [last] == words;
    }
  }

  /** Only the empty string splits into the single empty piece. */
  lemma SplitSingleEmptyPiece(s: string)
    ensures Split(s) == [""] <==> s == []
  {
    if s != [] && s[|s| - 1] != Space {
      var init := Split(s[..|s| - 1]);
      assert |Split(s)[|Split(s)| - 1]| == |init[|init| - 1]| + 1;
    }
  }

  /** Where the round trip stops: the joined words split into one empty
      piece exactly when there were no words or a single empty one. In
      particular Python splits the empty query string into `[""]`, not `[]`,
      so a query with no kept token does not split back into its stems. */
  lemma SplitJoinEmpty(words: seq<string>)
    ensures Split(Join(words)) == [""] <==> words == [] || words == [""]
  {
    SplitSingleEmptyPiece(Join(words));
  }

  /** The query text handed to the TF-IDF vectoriser: the stems of the kept
      tokens joined by single spaces. It is empty when every token is
      filtered out (a query made only of punctuation, say), and it splits
      back into the stem list whenever that list is non-empty and no stem
      contains a space. */
  function TfidfQuery(query: string, tokenize: string -> seq<string>, stem: string -> string, stopwords: seq<string>): (r: string)
    ensures var stems := TfidfTokens(tokenize(query), stem, UndesirableValues(stopwords));
      && (stems == [] <==> r == [] && (forall w :: w in tokenize(query) ==> w in UndesirableValues(stopwords)))
      && (stems != [] && (forall t :: t in stems ==> Space !in t) ==> Split(r) == stems)
  {
    var tokens := tokenize(query);
    var undesirable := UndesirableValues(stopwords);
    var stems := TfidfTokens(tokens, stem, undesirable);
    KeptIsOrderedSelection(tokens, undesirable);
    assert stems == [] ==> forall w :: w in tokens ==> w in undesirable by {
      if stems == [] {
        forall w | w in tokens
          ensures w in undesirable
        {
          var j :| 0 <= j < |tokens| && tokens[j] == w;
        }
      }
    }
    assert stems != [] ==> Kept(tokens, undesirable)[0] in tokens;
    if stems != [] && (forall t :: t in stems ==> Space !in t) then
      SplitJoin(stems);
      Join(stems)
    else
      Join(stems)
  }

  /** A capital letter that `str.lower()` changes, within Basic Latin and
      Latin-1: `A`-`Z` and `À`-`Þ` without the multiplication sign `×`. */
  predicate IsCapital(c: char) {
    'A' <= c <= 'Z' || ('À' <= c <= 'Þ' && c != '×')
  }

  /** One step of Python's `str.lower()` on the Basic Latin and Latin-1
      letters: `A`-`Z` and the accented capitals `À`-`Þ` except `×` move to
      their small letters; every other character is left as it is. */
  function LowerChar(c: char): (d: char)
    ensures IsCapital(c) ==> d as int == c as int + 32
    ensures !IsCapital(c) ==> d == c
    ensures !IsCapital(d)
  {
    if IsCapital(c) then (c as int + 32) as char else c
  }

  /** `word.lower()`, character by character: every capital is replaced by
      its small letter, every other character kept, and no capital is left. */
  function LowerWord(w: string): (r: string)
    ensures |r| == |w|
    ensures forall i :: 0 <= i < |w| ==> !IsCapital(r[i])
    ensures forall i :: 0 <= i < |w| && IsCapital(w[i]) ==> r[i] as int == w[i] as int + 32
    ensures forall i :: 0 <= i < |w| && !IsCapital(w[i]) ==> r[i] == w[i]
  {
    seq(|w|, i requires 0 <= i < |w| => LowerChar(w[i]))
  }

  /** Lower-casing twice is lower-casing once. */
  lemma LowerWordIdempotent(w: string)
    ensures LowerWord(LowerWord(w)) == LowerWord(w)
  {
  }

  /** The doc2vec token list: `[word.lower() for word in ... if ...]`. Each
      entry is the lower-cased form of a desirable input token. */
  function Doc2VecTokens(tokens: seq<string>, undesirable: seq<string>): (r: seq<string>)
    ensures |r| <= |tokens|
    ensures forall t :: t in r ==> exists w :: w in tokens && w !in undesirable && t == LowerWord(w)
  {
    var kept := Kept(tokens, undesirable);
    var r := seq(|kept|, i requires 0 <= i < |kept| => LowerWord(kept[i]));
    assert forall t :: t in r ==> exists w :: w in tokens && w !in undesirable && t == LowerWord(w) by {
      forall t | t in r
        ensures exists w :: w in tokens && w !in undesirable && t == LowerWord(w)
      {
        var i :| 0 <= i < |r| && r[i] == t;
        assert kept[i] in kept;
      }
    }
    r
  }

  /** Both query pipelines keep the same tokens at the same positions: the
      doc2vec list holds, where the TF-IDF list holds the stem of a token, the
      lower-cased token. */
  lemma BothPathsKeepSameTokens(tokens: seq<string>, stem: string -> string, undesirable: seq<string>)
    ensures var d, t, ix := Doc2VecTokens(tokens, undesirable), TfidfTokens(tokens, stem, undesirable), KeptIndices(tokens, undesirable);
      && |d| == |t| == |ix|
      && forall i :: 0 <= i < |d| ==> ix[i] < |tokens| && d[i] == LowerWord(tokens[ix[i]]) && t[i] == stem(tokens[ix[i]])
  {
    KeptIsOrderedSelection(tokens, undesirable);
  }

  /** A single desirable token passes the doc2vec filter and is lower-cased. */
  lemma Doc2VecSingle(w: string, undesirable: seq<string>)
    requires w !in undesirable
    ensures Doc2VecTokens([w], undesirable) == [LowerWord(w)]
  {
    assert [w][..0] == [];
    assert Kept([w], undesirable) == [w];
  }

  /** The doc2vec filter looks at the token before it is lower-cased: a
      token that is not itself undesirable but whose lower-case form is a
      stopword (a capitalised `De` when `de` is a stopword) reaches the
      embedding model as that stopword. */
  lemma FilterPrecedesLowerCasing(w: string, stopwords: seq<string>)
    requires w !in stopwords && w != "\n" && !IsPunctuation(w)
    requires LowerWord(w) in stopwords
    ensures LowerWord(w) in UndesirableValues(stopwords)
    ensures Doc2VecTokens([w], UndesirableValues(stopwords)) == [LowerWord(w)]
  {
    Doc2VecSingle(w, UndesirableValues(stopwords));
  }
}
