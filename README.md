# Sentence embedding by mean pooling, in Dafny

This project models `get_sentence_embedding` from `embed.py` of an Amharic
plagiarism-detection tool. The function turns one sentence into a fixed-width
vector. It works in these steps:

1. It returns `None` for empty or whitespace-only text.
2. If asked, it normalises the text with `normalize_amharic`.
3. It splits the text on whitespace.
4. It returns `None` when there are fewer than `min_words` words.
5. It looks up each word in a Gensim FastText model. A word the model does not
   know (the `KeyError` path) gets a zero vector of `model.vector_size` entries.
6. It returns the element-wise mean of the collected vectors, or `None` if no
   vector was collected.

Modules:

- `Wrappers` (wrappers.dfy): `Option`, which stands for "a vector or `None`".
- `Text` (text.dfy): the Python built-ins the function uses: `str.strip()`,
  `str.split()` and the whitespace class they share. Both are called without
  an argument, so both use CPython's `str.isspace` set of characters; `IsSpace`
  lists that set. The trim and take-word helpers each get a lemma that says
  what they compute. The module also defines `" ".join` (`Join`) and
  "the non-whitespace characters" (`RemoveSpace`), which are there to state
  `split()`'s round trip and what it keeps.
- `Embed` (embed.dfy): the model datatype, the specification function
  `Embedding`, and the method `GetSentenceEmbedding`, which keeps the source's
  defaults `normalize = True` and `min_words = 1`. The method follows the
  source step by step: early-return guards, then a `for` loop that appends one
  vector per non-empty word, then the mean. The loop invariant ties the
  accumulated list to `CollectVectors` of the word prefix, and the method's
  postcondition is `r == Embedding(...)`. The lemmas below prove the
  function's properties about `Embedding`.
- `EmbedExamples` (embed_examples.dfy): concrete sentences evaluated by the
  embedding on a two-word model with four-dimensional vectors: blank text,
  two known words, one unknown word, scattered whitespace, and too few words.

Abstractions:

- Numbers are `real`. The mean is exact; there is no IEEE-754 rounding.
- The Gensim model is `Model(vectorSize, vocab)`. `vocab` is a finite map
  from word to vector. A word missing from the map is the `KeyError` case.
  `Model.Valid()` requires every stored vector to have `vectorSize` entries.
  This is the one precondition, and it stands in for a well-formed model.
- `normalize_amharic` comes from a module that is not part of this model. It
  is passed in as a parameter `normalizer: string -> string`, and nothing is
  assumed about it. Dafny puts parameters with defaults last, so on
  `GetSentenceEmbedding` the normaliser comes before `normalize` and
  `minWords`.
- A "word" (`Text.IsWord`) is a non-empty string with no whitespace. A
  "known" word is a key of `vocab`.

## Model

| member | source | states |
|---|---|---|
| `Embed.GetSentenceEmbedding` | embed.py:10-49 | The method (guards, normalisation, split, lookup loop with zero substitution, mean) returns exactly `Embedding(...)`. Its loop invariant says that after `i` words the list `vectors` is `CollectVectors` of the first `i` words. |
| `Embed.Embedding` | embed.py:10-49 | The specification function: the value `get_sentence_embedding` returns, as one expression over `Strip`, `Tokens`, `CollectVectors` and `Mean`. It has no contract of its own. `GetSentenceEmbedding` is proved equal to it, and the `Embed` lemmas below state its properties. |
| `Text.TrimLeft` | embed.py:20 | The leading half of `strip()`: it drops whitespace characters from the front. It has no contract of its own; `TrimLeftSpec` specifies it. |
| `Text.TrimRight` | embed.py:20 | The trailing half of `strip()`: it drops whitespace characters from the back. It has no contract of its own; `TrimRightSpec` specifies it. |
| `Text.TrimLeftSpec` | embed.py:20 | The leading-whitespace trim inside `strip()` keeps a suffix, removes only whitespace, and stops at the first non-whitespace character. |
| `Text.TrimRightSpec` | embed.py:20 | The trailing-whitespace trim inside `strip()` keeps a prefix, removes only whitespace, and stops at the last non-whitespace character. |
| `Text.Strip` | embed.py:20 | `text.strip()` is empty exactly when every character of `text` is whitespace. When it is not empty, its first and last characters are not whitespace. |
| `Text.TakeWord` | embed.py:28 | The word step of `split()`: the characters up to the first whitespace. Its own contract gives only the length bound; `TakeWordSpec` specifies it. |
| `Text.TakeWordSpec` | embed.py:28 | The word `split()` takes is the longest whitespace-free prefix. It ends at the end of the string or at a whitespace character, and it is non-empty when the string starts with a non-whitespace character. |
| `Text.Split` | embed.py:28 | `str.split()`: skip leading whitespace, take a word, repeat on the rest. It has no contract of its own. `SplitYieldsWords`, `SplitSpread` and `SplitDecomposes` specify it. |
| `Text.SplitYieldsWords` | embed.py:28 | Every piece `split()` yields is non-empty and whitespace-free. |
| `Text.SplitEmptyIffAllSpace` | embed.py:28 | `split()` yields no words exactly when the string is all whitespace. |
| `Text.StripEmptyIffSplitEmpty` | embed.py:20-28 | `strip()` and `split()` agree on which strings are blank, because they use the same whitespace class. |
| `Text.SplitKeepsNonSpace` | embed.py:28 | Concatenating the words gives the non-whitespace characters of the string, in order. `split()` drops whitespace and nothing else. |
| `Text.SplitJoin` | embed.py:28 | Round trip: for any list of words, `split()` of their `" ".join` is that same list. |
| `Text.SplitSpread` | embed.py:28 | For any list of words laid out with whitespace gaps (`Spread`), `split()` returns exactly those words. The leading and trailing gaps may be empty, every inner gap is non-empty, and a gap can be any run of whitespace characters. |
| `Text.SplitDecomposes` | embed.py:28 | Conversely, every string is `Spread` of `split()`'s words with such whitespace gaps. Together with `SplitSpread`, this makes `split()`'s result the one list of words the string is made of. |
| `Embed.Tokens` | embed.py:24-28 | The words after the optional normalisation are all non-empty and whitespace-free. |
| `Embed.TokensKeepNonSpace` | embed.py:24-28 | Without normalisation, the words concatenate to the non-whitespace characters of the raw text. With normalisation, they concatenate to those of `normalize_amharic(text)`. |
| `Embed.RawTextTokens` | embed.py:24-28 | Without normalisation, the words are exactly the whitespace-separated pieces of the raw text: words laid out with any whitespace gaps come back unchanged. |
| `Embed.NormalizedTextTokens` | embed.py:24-28 | With normalisation, the words are exactly the whitespace-separated pieces of the normaliser's output, whatever the raw text was. |
| `Embed.Lookup` | embed.py:37-39 | `model.wv[word]`: the stored vector, or `None` in place of the `KeyError`. It has no contract of its own; `WordVector` states its effect. |
| `Embed.Zeros` | embed.py:40 | `np.zeros(model.vector_size)`: a vector of that many zeros. It has no contract of its own; `WordVector` and `AllUnknownIsZero` state what it contributes. |
| `Embed.WordVector` | embed.py:37-40 | A word's vector has `vectorSize` entries. It is the model's own vector when the word is known, and all zeros when the word is unknown. |
| `Embed.CollectVectors` | embed.py:34-41 | The loop's list has at most one vector per word, and every vector has `vectorSize` entries. When no word is empty, which is always true for `split()` output, the `if word` filter drops nothing: the list is exactly one vector per word, in order. |
| `Embed.Mean` | embed.py:47 | `np.mean(vectors, axis=0)` has as many entries as each row. |
| `Embed.BlankTextHasNoEmbedding` | embed.py:20-21 | Empty or all-whitespace text gives `None` for every `normalize`, normaliser and `min_words`, because this guard runs before normalisation. |
| `Embed.EmbeddingNoneIff` | embed.py:20-44 | The result is `None` if and only if the text is blank, or has fewer than `min_words` words, or has no words. |
| `Embed.NoVectorsOnlyWithoutWords` | embed.py:28-44 | The "no vectors" `None` can only happen when the word list is empty, so only when `min_words <= 0`. Every embedding comes from a non-empty word list. |
| `Embed.EmbeddingOfWords` | embed.py:20-49 | Text that is not blank and has at least one word and at least `min_words` words embeds as `Some` of the mean of its word vectors. |
| `Embed.EmbeddingDimension` | embed.py:38-47 | An embedding has `vectorSize` entries. |
| `Embed.EmbeddingIsMeanOfWordVectors` | embed.py:34-47 | An embedding comes from at least one word, and it is the mean of one vector per word, with a zero vector for each unknown word. |
| `Embed.WordVectorsMean` | embed.py:47 | Entry `d` of the mean of the word vectors is their column sum divided by the number of words. |
| `Embed.EmbeddingIsMean` | embed.py:40-47 | For N >= 1 words, `result[d] = (sum over i of v_i[d]) / N`, where `v_i` is the word's vector or the zero vector. |
| `Embed.UnknownWordsAddNothing` | embed.py:37-41 | The column sum over all word vectors equals the column sum over the known words' vectors alone. |
| `Embed.WordVectorsDilute` | embed.py:37-47 | Entry `d` of the mean of the word vectors is the known words' column sum divided by the count of ALL words. |
| `Embed.UnknownWordsDilute` | embed.py:37-47 | An unknown word still counts in the divisor: every entry of an embedding is the known words' sum divided by the total word count. |
| `Embed.DilutionIsObservable` | embed.py:40-47 | Suppose some words are known and some are not, and the known vectors sum to a non-zero value at entry `d`. Then entry `d` of the embedding differs from the known words' mean. |
| `Embed.AllUnknownWordVectorsMeanZero` | embed.py:40-47 | When no word is known, every entry of the mean of the word vectors is zero. |
| `Embed.AllUnknownIsZero` | embed.py:40-47 | A sentence whose words are all unknown embeds as the all-zero vector of `vectorSize` entries. |
| `EmbedExamples.BlankTextExamples` | embed.py:20-21 | `""` and `"   "` give `None`. |
| `EmbedExamples.TwoKnownWordsExample` | embed.py:34-47 | With `a -> [1,0,0,0]` and `b -> [0,1,0,0]`, `"a b"` embeds as `[0.5, 0.5, 0, 0]`. |
| `EmbedExamples.UnknownWordExample` | embed.py:37-47 | With `z` unknown, `"a z"` embeds as `[0.5, 0, 0, 0]`: the zero vector halves `a`'s entry. |
| `EmbedExamples.ScatteredWhitespaceTokens` | embed.py:28 | `"  a\t\tb\n"` splits into `["a", "b"]`. |
| `EmbedExamples.ScatteredWhitespaceExample` | embed.py:20-47 | `"  a\t\tb\n"` embeds like `"a b"`, as `[0.5, 0.5, 0, 0]`. |
| `EmbedExamples.TooFewWordsExample` | embed.py:30-31 | `"a"` with `min_words = 2` gives `None`. |

The function and its specification are deterministic by construction, since
Dafny functions always are.

The docstring at embed.py:18 promises a "300-dim" vector. The length the code
actually returns is `model.vector_size`, which the model fixes. The model
follows the code.

## Left out

- The `__main__` block of embed.py (lines 52-74) is left out: it loads a model from disk and prints shapes, values and norms, which is all I/O.
- test.model.py is left out: it loads a binary fastText model, prints one vector and catches every exception, which is all I/O and foreign calls.
- `normalize_amharic` and `simple_sentence_split` belong to preprocess.py, which is not part of this model. The normaliser is an arbitrary function parameter. `simple_sentence_split` is imported but never used by the function.
- Gensim's lookup, including FastText's sub-word n-gram vectors for words outside the trained vocabulary, is reduced to "in `vocab` with a vector" or "not found" (the `KeyError` path).
- Floating point is left out: the mean is exact over `real`, so the model does not capture `float32` model vectors, `float64` zero vectors, or `np.mean` rounding.
- A model with vectors of different lengths (which `np.mean` rejects) is excluded by the precondition `Model.Valid()`, not modelled as an error.
- Text that is not a `str` (for example `None`, which `not text` would also reject) is not modelled: the parameter is typed as a string.
- Embed.Mean: its own contract states only the length. The entry values are stated by `WordVectorsMean` and `EmbeddingIsMean`.
