/** Concrete sentences evaluated by the embedding, on a two-word model with
    four-dimensional vectors. */
module EmbedExamples {
  import opened Wrappers
  import opened Text
  import opened Embed

  /** A model that knows "a" and "b" as the first two unit vectors. */
  function SmallModel(): (m: Model)
    ensures m.Valid()
  {
    Model(4, map["a" := [1.0, 0.0, 0.0, 0.0], "b" := [0.0, 1.0, 0.0, 0.0]])
  }

  /** Empty and whitespace-only text have no embedding. */
  lemma BlankTextExamples(normalize: bool, minWords: int, normalizer: string -> string)
    ensures Embedding("", SmallModel(), normalize, minWords, normalizer) == None
    ensures Embedding("   ", SmallModel(), normalize, minWords, normalizer) == None
  {
    BlankTextHasNoEmbedding("   ", SmallModel(), normalize, minWords, normalizer);
  }

  lemma ColumnSumOfTwo(u: seq<real>, v: seq<real>, d: nat)
    requires d < |u| && d < |v|
    ensures ColumnSum([u, v], d) == u[d] + v[d]
  {
    assert [u][..0] == [];
    assert ColumnSum([u], d) == ColumnSum([], d) + u[d];
    assert [u, v][..1] == [u];
    assert ColumnSum([u, v], d) == ColumnSum([u], d) + v[d];
  }

  lemma MeanOfTwo(u: seq<real>, v: seq<real>)
    requires |u| == |v| == 4
    ensures Mean([u, v]) == [(u[0] + v[0]) / 2.0, (u[1] + v[1]) / 2.0, (u[2] + v[2]) / 2.0, (u[3] + v[3]) / 2.0]
  {
    ColumnSumOfTwo(u, v, 0);
    ColumnSumOfTwo(u, v, 1);
    ColumnSumOfTwo(u, v, 2);
    ColumnSumOfTwo(u, v, 3);
    var r := Mean([u, v]);
    assert r[0] == ColumnSum([u, v], 0) / 2.0 && r[1] == ColumnSum([u, v], 1) / 2.0;
    assert r[2] == ColumnSum([u, v], 2) / 2.0 && r[3] == ColumnSum([u, v], 3) / 2.0;
  }

  lemma TwoWordTokens(normalizer: string -> string, x: string, y: string)
    requires IsWord(x) && IsWord(y)
    ensures Tokens(x + " " + y, false, normalizer) == [x, y]
    ensures !AllSpace(x + " " + y)
  {
    assert Join([x, y]) == x + " " + y;
    SplitJoin([x, y]);
    assert (x + " " + y)[0] == x[0];
  }

  /** "a b" embeds as the mean of the two known vectors. */
  lemma TwoKnownWordsExample(normalizer: string -> string)
    ensures Embedding("a b", SmallModel(), false, 1, normalizer) == Some([0.5, 0.5, 0.0, 0.0])
  {
    var m := SmallModel();
    TwoWordTokens(normalizer, "a", "b");
    assert "a" + " " + "b" == "a b";
    EmbeddingOfWords("a b", m, false, 1, normalizer);
    var u, v := [1.0, 0.0, 0.0, 0.0], [0.0, 1.0, 0.0, 0.0];
    assert TokenVectors(m, ["a", "b"]) == [u, v];
    MeanOfTwo(u, v);
    assert Mean([u, v]) == [0.5, 0.5, 0.0, 0.0];
  }

  /** "a z" with "z" unknown: the zero vector for "z" halves the entry of "a". */
  lemma UnknownWordExample(normalizer: string -> string)
    ensures Embedding("a z", SmallModel(), false, 1, normalizer) == Some([0.5, 0.0, 0.0, 0.0])
  {
    var m := SmallModel();
    TwoWordTokens(normalizer, "a", "z");
    assert "a" + " " + "z" == "a z";
    EmbeddingOfWords("a z", m, false, 1, normalizer);
    var u, v := [1.0, 0.0, 0.0, 0.0], [0.0, 0.0, 0.0, 0.0];
    assert "z" !in m.vocab;
    assert WordVector(m, "z") == v;
    assert TokenVectors(m, ["a", "z"]) == [u, v];
    MeanOfTwo(u, v);
    assert Mean([u, v]) == [0.5, 0.0, 0.0, 0.0];
  }

  /** A one-word sentence has no embedding when two words are required. */
  lemma TooFewWordsExample(normalizer: string -> string)
    ensures Embedding("a", SmallModel(), false, 2, normalizer) == None
  {
    SplitJoin(["a"]);
  }

  /** Leading, repeated and trailing whitespace of several kinds is discarded:
      "  a\t\tb\n" has the words "a" and "b". */
  lemma ScatteredWhitespaceTokens(normalizer: string -> string)
    ensures Tokens("  a\t\tb\n", false, normalizer) == ["a", "b"]
    ensures !AllSpace("  a\t\tb\n")
  {
    var gaps := ["  ", "\t\t", "\n"];
    assert Spread(gaps, ["a", "b"]) == "  a\t\tb\n" by {
      assert Spread(gaps[2..], []) == "\n";
      assert Spread(gaps[1..], ["b"]) == "\t\tb\n";
    }
    assert AllWords(["a", "b"]);
    RawTextTokens(gaps, ["a", "b"], normalizer);
    assert "  a\t\tb\n"[2] == 'a';
  }

  /** "  a\t\tb\n" embeds like "a b". */
  lemma ScatteredWhitespaceExample(normalizer: string -> string)
    ensures Embedding("  a\t\tb\n", SmallModel(), false, 1, normalizer) == Some([0.5, 0.5, 0.0, 0.0])
  {
    var m := SmallModel();
    ScatteredWhitespaceTokens(normalizer);
    EmbeddingOfWords("  a\t\tb\n", m, false, 1, normalizer);
    var u, v := [1.0, 0.0, 0.0, 0.0], [0.0, 1.0, 0.0, 0.0];
    assert TokenVectors(m, ["a", "b"]) == [u, v];
    MeanOfTwo(u, v);
    assert Mean([u, v]) == [0.5, 0.5, 0.0, 0.0];
  }
}
