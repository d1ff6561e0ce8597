/** The sentence embedder of embed.py: guard against blank text, optionally
    normalise, split on whitespace, guard against too few words, look up one
    vector per word (a zero vector for a word the model does not know) and
    return the element-wise mean of those vectors, or None. */
module Embed {
  import opened Wrappers
  import opened Text

  /** The part of a Gensim FastText model the embedder uses: its
      `vector_size` and its word-vector table `wv`, where looking up a word
      either yields a vector or raises KeyError. */
  datatype Model = Model(vectorSize: nat, vocab: map<string, seq<real>>)
  {
    /** Every vector the model can return has `vectorSize` entries. */
    predicate Valid()
    {
      forall w :: w in vocab ==> |vocab[w]| == vectorSize
    }
  }

  /** `model.wv[word]`, with the KeyError made an explicit None. */
  function Lookup(m: Model, word: string): Option<seq<real>>
  {
    if word in m.vocab then Some(m.vocab[word]) else None
  }

  /** `np.zeros(n)`. */
  function Zeros(n: nat): seq<real>
  {
    seq(n, _ => 0.0)
  }

  /** The vector appended for one word: the model's vector, or a zero vector
      of `vectorSize` entries when the lookup fails (out of vocabulary). */
  function WordVector(m: Model, word: string): (v: seq<real>)
    requires m.Valid()
    ensures |v| == m.vectorSize
    ensures word in m.vocab ==> v == m.vocab[word]
    ensures word !in m.vocab ==> forall d :: 0 <= d < |v| ==> v[d] == 0.0
  {
    match Lookup(m, word)
    case Some(v) => v
    case None => Zeros(m.vectorSize)
  }

  /** All rows of `vs` have `n` entries. */
  predicate Uniform(vs: seq<seq<real>>, n: nat)
  {
    forall i :: 0 <= i < |vs| ==> |vs[i]| == n
  }

  /** The reference: one vector per word, in order, known or zero. */
  function TokenVectors(m: Model, words: seq<string>): seq<seq<real>>
    requires m.Valid()
  {
    seq(|words|, i requires 0 <= i < |words| => WordVector(m, words[i]))
  }

  /** The vectors of the known words only, in order. */
  function KnownVectors(m: Model, words: seq<string>): (vs: seq<seq<real>>)
    ensures |vs| <= |words|
    ensures m.Valid() ==> Uniform(vs, m.vectorSize)
  {
    if words == [] then []
    else
      var last := words[|words| - 1];
      KnownVectors(m, words[..|words| - 1]) + (if last in m.vocab then [m.vocab[last]] else [])
  }

  /** The list `vectors` once the loop has run over `words`: the loop skips
      an empty word, and otherwise appends the word's vector. Since `split()`
      never yields an empty word, the skip never fires and the list is
      exactly one vector per word. */
  function CollectVectors(m: Model, words: seq<string>): (vs: seq<seq<real>>)
    requires m.Valid()
    ensures |vs| <= |words|
    ensures Uniform(vs, m.vectorSize)
    ensures (forall i :: 0 <= i < |words| ==> words[i] != []) ==> vs == TokenVectors(m, words)
  {
    if words == [] then []
    else
      var init, last := words[..|words| - 1], words[|words| - 1];
      var vs := CollectVectors(m, init) + (if last != [] then [WordVector(m, last)] else []);
      assert (forall i :: 0 <= i < |words| ==> words[i] != []) ==> vs == TokenVectors(m, words) by {
        if forall i :: 0 <= i < |words| ==> words[i] != [] {
          assert forall i :: 0 <= i < |init| ==> init[i] == words[i];
          assert CollectVectors(m, init) == TokenVectors(m, init);
        }
      }
      vs
  }

  /** The sum of `vs[i][d]` over all rows `i`. */
  function ColumnSum(vs: seq<seq<real>>, d: nat): real
    requires forall i :: 0 <= i < |vs| ==> d < |vs[i]|
  {
    if vs == [] then 0.0 else ColumnSum(vs[..|vs| - 1], d) + vs[|vs| - 1][d]
  }

  /** `np.mean(vs, axis=0)`: entry `d` is the column sum divided by the
      number of rows. */
  function Mean(vs: seq<seq<real>>): (r: seq<real>)
    requires vs != [] && Uniform(vs, |vs[0]|)
    ensures |r| == |vs[0]|
  {
    seq(|vs[0]|, d requires 0 <= d < |vs[0]| => ColumnSum(vs, d) / (|vs| as real))
  }

  /** `text.split()` after the optional normalisation: the words of the
      raw text, or of the normaliser's output. */
  function Tokens(text: string, normalize: bool, normalizer: string -> string): (words: seq<string>)
    ensures AllWords(words)
  {
    var source := if normalize then normalizer(text) else text;
    SplitYieldsWords(source);
    Split(source)
  }

  /** The words are the non-whitespace characters of the text that was
      split, in order: of the raw text without normalisation, of the
      normaliser's output with it. */
  lemma TokensKeepNonSpace(text: string, normalize: bool, normalizer: string -> string)
    ensures !normalize ==> Flatten(Tokens(text, normalize, normalizer)) == RemoveSpace(text)
    ensures normalize ==> Flatten(Tokens(text, normalize, normalizer)) == RemoveSpace(normalizer(text))
  {
    SplitKeepsNonSpace(if normalize then normalizer(text) else text);
  }

  /** What `get_sentence_embedding` returns. */
  function Embedding(text: string, m: Model, normalize: bool, minWords: int, normalizer: string -> string): Option<seq<real>>
    requires m.Valid()
  {
    if text == [] || Strip(text) == [] then None
    else
      var words := Tokens(text, normalize, normalizer);
      if |words| < minWords then None
      else
        var vectors := CollectVectors(m, words);
        if vectors == [] then None else Some(Mean(vectors))
  }

  /** `get_sentence_embedding(text, model, normalize, min_words)`, with the
      module-level `normalize_amharic` passed in as `normalizer` and the same
      defaults, `normalize = True` and `min_words = 1`. */
  method GetSentenceEmbedding(text: string, m: Model, normalizer: string -> string, normalize: bool := true, minWords: int := 1)
    returns (r: Option<seq<real>>)
    requires m.Valid()
    ensures r == Embedding(text, m, normalize, minWords, normalizer)
  {
    if text == [] || Strip(text) == [] {
      return None;
    }
    var source := text;
    if normalize {
      source := normalizer(text);
    }
    var words := Split(source);
    SplitYieldsWords(source);
    if |words| < minWords {
      return None;
    }
    var vectors: seq<seq<real>> := [];
    for i := 0 to |words|
      invariant vectors == CollectVectors(m, words[..i])
    {
      var word := words[i];
      if word != [] {
        var vec: seq<real>;
        match Lookup(m, word) {
          case Some(v) => vec := v;
          case None => vec := Zeros(m.vectorSize);
        }
        vectors := vectors + [vec];
      }
      assert words[..i + 1][..i] == words[..i];
    }
    assert words[..|words|] == words;
    if vectors == [] {
      return None;
    }
    r := Some(Mean(vectors));
  }

  /** Blank text (empty, or whitespace only) has no embedding, whatever the
      normalisation flag, the normaliser and the minimum word count: the
      guard runs before the normaliser is applied. */
  lemma BlankTextHasNoEmbedding(text: string, m: Model, normalize: bool, minWords: int, normalizer: string -> string)
    requires m.Valid()
    requires AllSpace(text)
    ensures Embedding(text, m, normalize, minWords, normalizer) == None
  {
  }

  /** The result is None exactly when the text is blank, or it has fewer
      words than `minWords`, or it has no words at all. */
  lemma EmbeddingNoneIff(text: string, m: Model, normalize: bool, minWords: int, normalizer: string -> string)
    requires m.Valid()
    ensures var words := Tokens(text, normalize, normalizer);
      Embedding(text, m, normalize, minWords, normalizer) == None
      <==> AllSpace(text) || |words| < minWords || words == []
  {
    var words := Tokens(text, normalize, normalizer);
    assert |CollectVectors(m, words)| == |words|;
  }

  /** The None of the "no vectors" guard happens only when the text passed
      both earlier guards yet has no words, so only when `minWords <= 0`;
      an embedding always comes from at least one word. */
  lemma NoVectorsOnlyWithoutWords(text: string, m: Model, normalize: bool, minWords: int, normalizer: string -> string)
    requires m.Valid()
    ensures var words := Tokens(text, normalize, normalizer);
      !AllSpace(text) && |words| >= minWords && Embedding(text, m, normalize, minWords, normalizer) == None
      ==> words == [] && minWords <= 0
    ensures Embedding(text, m, normalize, minWords, normalizer).Some? ==> Tokens(text, normalize, normalizer) != []
  {
    EmbeddingNoneIff(text, m, normalize, minWords, normalizer);
  }

  /** An embedding has `vectorSize` entries. */
  lemma EmbeddingDimension(text: string, m: Model, normalize: bool, minWords: int, normalizer: string -> string)
    requires m.Valid()
    ensures var r := Embedding(text, m, normalize, minWords, normalizer);
      r.Some? ==> |r.value| == m.vectorSize
  {
    var words := Tokens(text, normalize, normalizer);
    var vs := CollectVectors(m, words);
    if vs != [] {
      assert |vs[0]| == m.vectorSize;
    }
  }

  /** An embedding is the mean of the word vectors, one per word, a zero
      vector standing for each unknown word. */
  lemma EmbeddingIsMeanOfWordVectors(text: string, m: Model, normalize: bool, minWords: int, normalizer: string -> string)
    requires m.Valid()
    ensures var r := Embedding(text, m, normalize, minWords, normalizer);
      var words := Tokens(text, normalize, normalizer);
      r.Some? ==> words != [] && r.value == Mean(TokenVectors(m, words))
  {
    var words := Tokens(text, normalize, normalizer);
    assert CollectVectors(m, words) == TokenVectors(m, words);
  }

  /** The happy path: a text that is not blank and splits into at least one
      and at least `minWords` words embeds as the mean of its word vectors. */
  lemma EmbeddingOfWords(text: string, m: Model, normalize: bool, minWords: int, normalizer: string -> string)
    requires m.Valid()
    requires !AllSpace(text)
    requires Tokens(text, normalize, normalizer) != []
    requires |Tokens(text, normalize, normalizer)| >= minWords
    ensures Embedding(text, m, normalize, minWords, normalizer) == Some(Mean(TokenVectors(m, Tokens(text, normalize, normalizer))))
  {
    var words := Tokens(text, normalize, normalizer);
    assert CollectVectors(m, words) == TokenVectors(m, words);
  }

  /** Entry `d` of an embedding is the sum of entry `d` of every word's
      vector, a zero vector standing for each unknown word, divided by the
      number of words. */
  lemma EmbeddingIsMean(text: string, m: Model, normalize: bool, minWords: int, normalizer: string -> string)
    requires m.Valid()
    ensures var r := Embedding(text, m, normalize, minWords, normalizer);
      var words := Tokens(text, normalize, normalizer);
      r.Some? ==>
        && |words| >= 1
        && |r.value| == m.vectorSize
        && forall d :: 0 <= d < m.vectorSize ==>
             r.value[d] == ColumnSum(TokenVectors(m, words), d) / (|words| as real)
  {
    EmbeddingIsMeanOfWordVectors(text, m, normalize, minWords, normalizer);
    var words := Tokens(text, normalize, normalizer);
    if words != [] {
      WordVectorsMean(m, words);
    }
  }

  /** The mean of the word vectors has `vectorSize` entries, entry `d` being
      the column sum over the words divided by their number. */
  lemma WordVectorsMean(m: Model, words: seq<string>)
    requires m.Valid() && words != []
    ensures var vs := TokenVectors(m, words);
      Uniform(vs, |vs[0]|)
      && |Mean(vs)| == m.vectorSize
      && forall d :: 0 <= d < m.vectorSize ==> Mean(vs)[d] == ColumnSum(vs, d) / (|words| as real)
  {
  }

  /** The zero vector of an unknown word adds nothing to a column sum: the
      sum over every word equals the sum over the known words alone. */
  lemma {:induction false} UnknownWordsAddNothing(m: Model, words: seq<string>, d: nat)
    requires m.Valid()
    requires d < m.vectorSize
    ensures ColumnSum(TokenVectors(m, words), d) == ColumnSum(KnownVectors(m, words), d)
    decreases |words|
  {
    if words != [] {
      var init, last := words[..|words| - 1], words[|words| - 1];
      UnknownWordsAddNothing(m, init, d);
      var all := TokenVectors(m, words);
      assert all[..|all| - 1] == TokenVectors(m, init);
      assert ColumnSum(all, d) == ColumnSum(TokenVectors(m, init), d) + WordVector(m, last)[d];
      var known, knownInit := KnownVectors(m, words), KnownVectors(m, init);
      if last in m.vocab {
        assert known == knownInit + [m.vocab[last]];
        assert known[..|known| - 1] == knownInit;
        assert ColumnSum(known, d) == ColumnSum(knownInit, d) + m.vocab[last][d];
      } else {
        assert known == knownInit;
        assert WordVector(m, last)[d] == 0.0;
      }
    }
  }

  /** Entry `d` of the mean of the word vectors is the column sum of the
      known words' vectors divided by the number of all the words. */
  lemma WordVectorsDilute(m: Model, words: seq<string>, d: nat)
    requires m.Valid() && words != [] && d < m.vectorSize
    ensures var all := TokenVectors(m, words);
      Uniform(all, |all[0]|) && |Mean(all)| == m.vectorSize
      && Mean(all)[d] == ColumnSum(KnownVectors(m, words), d) / (|words| as real)
  {
    WordVectorsMean(m, words);
    UnknownWordsAddNothing(m, words, d);
  }

  /** An unknown word still counts toward the divisor, so it dilutes the
      mean rather than being skipped: each entry of an embedding is the sum
      over the KNOWN words' vectors divided by the number of ALL words. */
  lemma UnknownWordsDilute(text: string, m: Model, normalize: bool, minWords: int, normalizer: string -> string)
    requires m.Valid()
    ensures var r := Embedding(text, m, normalize, minWords, normalizer);
      var words := Tokens(text, normalize, normalizer);
      var known := KnownVectors(m, words);
      r.Some? ==>
        && Uniform(known, m.vectorSize)
        && |r.value| == m.vectorSize
        && forall d :: 0 <= d < m.vectorSize ==>
             r.value[d] == ColumnSum(known, d) / (|words| as real)
  {
    var r := Embedding(text, m, normalize, minWords, normalizer);
    var words := Tokens(text, normalize, normalizer);
    EmbeddingIsMeanOfWordVectors(text, m, normalize, minWords, normalizer);
    if r.Some? {
      var v, all, known := r.value, TokenVectors(m, words), KnownVectors(m, words);
      assert v == Mean(all);
      forall d | 0 <= d < m.vectorSize
        ensures v[d] == ColumnSum(known, d) / (|words| as real)
      {
        WordVectorsDilute(m, words, d);
      }
    }
  }

  lemma DistinctDivisors(s: real, n: real, k: real)
    requires s != 0.0 && 0.0 < k < n
    ensures s / n != s / k
  {
  }

  /** The dilution is observable: when some but not all words are unknown,
      every entry where the known words' vectors do not sum to zero differs
      from the mean over the known words alone. */
  lemma DilutionIsObservable(text: string, m: Model, normalize: bool, minWords: int, normalizer: string -> string, d: nat)
    requires m.Valid() && d < m.vectorSize
    ensures var r := Embedding(text, m, normalize, minWords, normalizer);
      var words := Tokens(text, normalize, normalizer);
      var known := KnownVectors(m, words);
      r.Some? && 0 < |known| < |words| && ColumnSum(known, d) != 0.0 ==>
        |r.value| == |Mean(known)| == m.vectorSize && r.value[d] != Mean(known)[d]
  {
    var r := Embedding(text, m, normalize, minWords, normalizer);
    var words := Tokens(text, normalize, normalizer);
    var known := KnownVectors(m, words);
    if r.Some? && 0 < |known| < |words| && ColumnSum(known, d) != 0.0 {
      UnknownWordsDilute(text, m, normalize, minWords, normalizer);
      DistinctDivisors(ColumnSum(known, d), |words| as real, |known| as real);
    }
  }

  lemma {:induction false} NoKnownVectorsOnlyIfAllUnknown(m: Model, words: seq<string>)
    requires forall i :: 0 <= i < |words| ==> words[i] !in m.vocab
    ensures KnownVectors(m, words) == []
    decreases |words|
  {
    if words != [] {
      NoKnownVectorsOnlyIfAllUnknown(m, words[..|words| - 1]);
    }
  }

  /** When no word is known, every entry of the mean of the word vectors is zero. */
  lemma AllUnknownWordVectorsMeanZero(m: Model, words: seq<string>, d: nat)
    requires m.Valid() && words != [] && d < m.vectorSize
    requires forall i :: 0 <= i < |words| ==> words[i] !in m.vocab
    ensures var all := TokenVectors(m, words);
      Uniform(all, |all[0]|) && |Mean(all)| == m.vectorSize && Mean(all)[d] == 0.0
  {
    WordVectorsDilute(m, words, d);
    NoKnownVectorsOnlyIfAllUnknown(m, words);
    var known := KnownVectors(m, words);
    assert ColumnSum(known, d) == 0.0;
    assert 0.0 / (|words| as real) == 0.0;
  }

  /** A sentence whose words are all unknown to the model embeds as the
      all-zero vector. */
  lemma AllUnknownIsZero(text: string, m: Model, normalize: bool, minWords: int, normalizer: string -> string)
    requires m.Valid()
    ensures var r := Embedding(text, m, normalize, minWords, normalizer);
      var words := Tokens(text, normalize, normalizer);
      r.Some? && (forall i :: 0 <= i < |words| ==> words[i] !in m.vocab) ==>
        r.value == Zeros(m.vectorSize)
  {
    var r := Embedding(text, m, normalize, minWords, normalizer);
    var words := Tokens(text, normalize, normalizer);
    EmbeddingIsMeanOfWordVectors(text, m, normalize, minWords, normalizer);
    if r.Some? && (forall i :: 0 <= i < |words| ==> words[i] !in m.vocab) {
      var v := r.value;
      assert v == Mean(TokenVectors(m, words)) && |v| == m.vectorSize;
      forall d | 0 <= d < m.vectorSize ensures v[d] == Zeros(m.vectorSize)[d] {
        AllUnknownWordVectorsMeanZero(m, words, d);
      }
    }
  }

  /** Without normalisation the words are exactly the whitespace-separated
      pieces of the raw text: words laid out with any whitespace before,
      between and after them come back as they were. */
  lemma RawTextTokens(gaps: seq<string>, ws: seq<string>, normalizer: string -> string)
    requires AllWords(ws) && Gaps(gaps, |ws|)
    ensures Tokens(Spread(gaps, ws), false, normalizer) == ws
  {
    SplitSpread(gaps, ws);
  }

  /** With normalisation the words are the whitespace-separated pieces of the
      normaliser's output, whatever the raw text was. */
  lemma NormalizedTextTokens(text: string, gaps: seq<string>, ws: seq<string>, normalizer: string -> string)
    requires AllWords(ws) && Gaps(gaps, |ws|)
    requires normalizer(text) == Spread(gaps, ws)
    ensures Tokens(text, true, normalizer) == ws
  {
    SplitSpread(gaps, ws);
  }
}
