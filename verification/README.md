# Beer matcher and keyword handlers of nlp_bot, in Dafny

This project models the two pieces of the Telegram beer bot that have logic of their own.

**The beer matcher (`BeerEmbedding`).**
- *Building the table.* Every attribute list of a catalog record is lower-cased; a missing (null) field becomes an empty list. Each record then becomes a 0/1 indicator vector over the feature space. The feature space is an ordered mapping from attribute names to ordered value lists, and each attribute gets one block of the vector, in key order. A record is kept only when more than 15 indicators are set. Feature vectors, image paths and display names (dashes turned into spaces) stay index-aligned.
- *Lemma sets.* There is one set of lemmas per vocabulary value, laid out in the same dimension order as the indicators.
- *Query scores.* A query is lemmatized. Dimension `i` scores the number of query tokens lying in lemma set `i`, divided by the size of that set and clipped to [0, 1].
- *Suggestions.* The matcher returns the `k` beers with the smallest squared distance to the query vector. It states this as a relation, because `argpartition` does not fix the order among ties.

**The keyword handlers (`SuperTextHandler` and its hello, bye and weather subclasses).**
- A handler fires when one of its fixed trigger strings is a substring of the lower-cased message. It then answers with its reply, and otherwise returns `(False, None)`.
- The weather handler's reply method reads a private attribute that its constructor never sets. So the weather handler fails on every message that fires it. The model keeps this as the error outcome `Failure(MissingMessage)`.

Modules:
- `Wrappers`: `Option` and `Result`.
- `Text`: per-character `lower`, substring search, replacing one character.
- `Seqs`: duplicate-free sequences and their element sets.
- `TextHandlers`: the three handlers.
- `Blocks`: concatenation of blocks.
- `Vectors`: sums, squared distance, clipping and ratio facts in exact `real` arithmetic.
- `FeatureSpace`: `featurize` and the lemma sets.
- `BeerTable`: `_init_beer_table`.
- `Selection`: the k-smallest relation and one selection that satisfies it.
- `BeerEmbedding`: construction, query encoding and `match`.

Three failures the code does not guard against are modelled as error outcomes:
- An empty lemma set makes `sum(...) / len(feats)` raise a division error. `Encode` returns `EmptyLemmaSet` for the first such dimension, so an empty query gives the zero vector only when no lemma set is empty.
- `argpartition(k)` rejects `k` equal to or above the number of beers. `MatchIndices` returns `KthOutOfBounds` in that case, so a three-beer answer needs at least four beers in the table.
- When no record passes the threshold, `np.vstack` of nothing fails; the model reports `EmptyCatalog`. With an empty feature space and at least one record, the same ValueError comes earlier, from `np.hstack` of no blocks in `featurize`; the model reports it as `EmptyCatalog` too. A feature-space key that no record carries has no table column, and reading it fails first; the model reports `MissingColumn` with the first such key.

## Model

| member | source | states |
|---|---|---|
| `TextHandlers.Get` | text_handlers.py:21-27 | If no trigger is a contiguous substring of the lower-cased message, the result is (false, None). If one is, hello answers (true, 'Привет!'), bye answers (true, 'Пока!') and weather fails with the missing-attribute error. The contract is stated through substring occurrence, not through the scan the body performs. |
| `TextHandlers.AnyTriggerIff` | text_handlers.py:22 | The in-order scan over the trigger list is true exactly when some trigger occurs in the text. |
| `Text.ContainsIffOccurs` | text_handlers.py:22 | The left-to-right search for a word in a text succeeds exactly when the word occurs there as a contiguous block, which is the meaning of `word in text`. |
| `Text.OccursInExtension` | text_handlers.py:22 | An occurrence of a word survives any text added before or after it. |
| `TextHandlers.TriggeredMonotone` | text_handlers.py:22 | If a message fires a handler, any message containing it as a substring fires it too. This holds because lower-casing acts per character. |
| `TextHandlers.TriggersFireTheirHandler` | text_handlers.py:42-89 | Every handler fires on each of its own trigger strings. All triggers are already lower case. |
| `TextHandlers.HelloExamples` | text_handlers.py:30-48 | Each of 'привет', 'ПРИВЕТ', 'приветствую' and 'Добрый вечер!' gets (true, 'Привет!'). This shows that matching ignores case, fires inside a longer word and matches a two-word trigger across the space. |
| `TextHandlers.EndExamples` | text_handlers.py:51-69 | 'пока' gets (true, 'Пока!'). So does 'покажи пиво', because 'пока' is a substring of 'покажи'. |
| `TextHandlers.WeatherFailsWhenFired` | text_handlers.py:72-89 | A message mentioning 'погода' makes the weather handler fail, because its reply attribute is never assigned. |
| `TextHandlers.WeatherSilentOnGreeting` | text_handlers.py:21-27 | A message without a weather trigger ('привет') gets (false, None) from the weather handler. |
| `TextHandlers.WeatherNeverReplies` | text_handlers.py:76-89 | For every message, the weather handler either stays silent or fails. It never produces a reply. |
| `Text.Lower` | text_handlers.py:22 | Lower-casing keeps the length, changes only capitals, and leaves no capital behind. Here capitals are the ASCII and Cyrillic ones. |
| `Text.LowerAppend` | text_handlers.py:22 | Lower-casing distributes over concatenation. |
| `Text.LowerIdempotent` | text_handlers.py:22 | Lower-casing twice equals lower-casing once. |
| `Text.LowerHasNoCapitals` | beer/src/beer_embedding.py:49 | After lower-casing, no character is an ASCII or Cyrillic capital. |
| `Text.ReplaceChar` | beer/src/beer_embedding.py:55 | Replacing '-' by ' ' keeps the length and leaves no dash. Every other character stays where it was. |
| `FeatureSpace.IndexOf` | beer/src/beer_embedding.py:74-75 | `v.index(x)` is the first position of `x` in `v`. |
| `FeatureSpace.MarkEntry` | beer/src/beer_embedding.py:73-75 | After the loop over the record's values, an entry is 1 exactly when its value is listed and this is the value's first position. Otherwise the entry keeps its previous content. |
| `FeatureSpace.Block` | beer/src/beer_embedding.py:71-75 | An attribute block has one entry per attribute value. Each entry is 1 exactly when the record lists that value (at its first position), and 0 otherwise. |
| `FeatureSpace.Featurize` | beer/src/beer_embedding.py:68-78 | The indicator vector has the total number of values across all attributes as its length, and every entry is 0 or 1. |
| `FeatureSpace.FeaturizeEntry` | beer/src/beer_embedding.py:68-78 | Dimension `Offset(k) + j` stands for value `j` of attribute `k`. It is 1 exactly when the record's list for `k` contains that value and `j` is that value's first position, and 0 otherwise. |
| `FeatureSpace.HitDistinct` | beer/src/beer_embedding.py:74-75 | When an attribute's values are distinct, an entry is set exactly when the record lists its value. |
| `FeatureSpace.BlockSeesOnlyKnownValues` | beer/src/beer_embedding.py:73-75 | Two value lists that agree on which known values they contain give the same block. So unknown values and repeated values change nothing. |
| `FeatureSpace.FeaturizeSeesOnlyKnownValues` | beer/src/beer_embedding.py:68-78 | The same holds for whole records: only which vocabulary values are listed per attribute matters. |
| `FeatureSpace.EmptyListGivesZeroBlock` | beer/src/beer_embedding.py:71-76 | An attribute with an empty list contributes an all-zero block. |
| `FeatureSpace.LemmaSets` | beer/src/beer_embedding.py:61-66 | There is exactly one lemma set per vocabulary value, so the number of sets equals the vector dimension. |
| `FeatureSpace.LemmaSetsAligned` | beer/src/beer_embedding.py:61-66 | Lemma set `Offset(k) + j` is the set of lemmas of value `j` of attribute `k`. This is the dimension where that value's indicator sits. |
| `BeerTable.Clean` | beer/src/beer_embedding.py:47-49 | A null field becomes the empty list. A present list keeps its length, and each value is lower-cased, with no capital left. |
| `BeerTable.Normalize` | beer/src/beer_embedding.py:47-49 | Every feature-space attribute gets a list in the cleaned row. |
| `BeerTable.Kept` | beer/src/beer_embedding.py:50-52 | A record is kept exactly when it is among the input records and its indicator sum is above 15. |
| `BeerTable.KeptAppend` | beer/src/beer_embedding.py:50-55 | Filtering distributes over concatenation, so kept records stay in their original order. |
| `BeerTable.FirstMissingColumn` | beer/src/beer_embedding.py:47-48 | If no key is reported, every feature-space key has a column. A reported key is a feature-space key that no record carries, and every key before it in feature-space order has a column, so it is the key whose lookup raises first. |
| `BeerTable.Build` | beer/src/beer_embedding.py:42-59 | A build fails with `MissingColumn` only for the first key, in feature-space order, that no record has. It fails with `EmptyCatalog` exactly when all columns exist and no record passes the threshold. On success, features, images and names are aligned with the kept records, index by index. Every kept vector has the full dimension, is 0/1 and sums to more than 15, and no name contains '-'. |
| `BeerTable.Assemble` | beer/src/beer_embedding.py:50-55 | Definition of the three appends: features, images and display names, aligned index by index with the kept records. |
| `BeerTable.AssembledEntries` | beer/src/beer_embedding.py:50-55 | Every table entry built from kept records has the full dimension, is 0/1, sums to more than 15, and carries a dash-free name. |
| `BeerTable.SmallSpaceNeverBuilds` | beer/src/beer_embedding.py:52-56 | With 15 dimensions or fewer no record can pass the threshold, so the build always fails. |
| `BeerTable.MissingFieldGivesZeroBlock` | beer/src/beer_embedding.py:47-49 | A null, absent or empty field gives its attribute an all-zero block. |
| `Vectors.Clip` | beer/src/beer_embedding.py:95 | Definition of `np.clip(x, 0., 1.)`: the result lies in [0, 1], equals `x` inside that range, and is 0 below it and 1 above it. |
| `Vectors.ZeroOneSumBounds` | beer/src/beer_embedding.py:52 | The sum of a 0/1 vector lies between 0 and its length. |
| `Vectors.SqDistProperties` | beer/src/beer_embedding.py:96 | A squared distance is never negative, and a vector is at distance 0 from itself. |
| `Vectors.Ratio` | beer/src/beer_embedding.py:94 | A count divided by a positive size is non-negative. It is positive when the count is, and at least 1 exactly when the count reaches the size. |
| `Selection.SmallestFrom` | beer/src/beer_embedding.py:96 | Choosing `k` candidates gives `k` distinct candidates, none farther than any candidate left out. |
| `Selection.SmallestK` | beer/src/beer_embedding.py:96 | For `k` up to the number of items, the choice is a valid `argpartition(k)[:k]` answer: `k` distinct in-range indices, each no farther than any index not chosen. |
| `Selection.SwappedChoice` | beer/src/beer_embedding.py:96 | If one valid answer chooses an item that another valid answer leaves out, the other answer chose an item at the same distance instead. Valid answers differ only on ties. |
| `Selection.KSmallestUnique` | beer/src/beer_embedding.py:96 | Without ties, all valid answers choose the same set of items. |
| `BeerEmbedding.Init` | beer/src/beer_embedding.py:32-40 | A failed build fails construction with the same error. A successful one gives a valid matcher: a non-empty table, aligned lists, and vectors of the feature-space dimension. It keeps the given lemmatizer, and its lemma sets are that lemmatizer's sets, one per dimension. |
| `BeerEmbedding.InitAligned` | beer/src/beer_embedding.py:61-66 | In a successfully constructed matcher, the lemma set at the dimension of value `j` of attribute `k` is that value's lemma set. The vocabulary entry at that dimension is that value. |
| `BeerEmbedding.Count` | beer/src/beer_embedding.py:94 | The overlap count is at most the number of tokens. It is 0 exactly when no token is in the lemma set. |
| `BeerEmbedding.CountIsPairSum` | beer/src/beer_embedding.py:94 | The double sum over (feature, token) pairs, with the feature set enumerated in any duplicate-free order, equals the number of tokens that belong to the set. |
| `BeerEmbedding.CountAppend` | beer/src/beer_embedding.py:94 | The overlap count of two token sequences joined together is the sum of their counts. |
| `BeerEmbedding.ClippedRatio` | beer/src/beer_embedding.py:94-95 | A count over a positive size, clipped to [0, 1], is 0 exactly when the count is 0 and 1 exactly when the count reaches the size. Below that, the ratio times the size is the count. |
| `BeerEmbedding.Score` | beer/src/beer_embedding.py:94-95 | A dimension score lies in [0, 1]. It is 0 exactly when no token is in the set, and 1 exactly when the count reaches the set size. Below that, the score times the set size is the count. |
| `BeerEmbedding.EncodeFrom` | beer/src/beer_embedding.py:93-95 | The scoring loop fails exactly when some remaining lemma set is empty, and reports the first such dimension. Otherwise it scores every remaining dimension. |
| `BeerEmbedding.Encode` | beer/src/beer_embedding.py:92-95 | The query vector has one entry per lemma set, each the dimension's score and so within [0, 1]. The only failure is an empty lemma set, reported at its first dimension. |
| `BeerEmbedding.EmptyQueryIsZero` | beer/src/beer_embedding.py:92-95 | When no lemma set is empty, an empty token sequence gives the zero vector. |
| `BeerEmbedding.EncodeMonotone` | beer/src/beer_embedding.py:93-95 | Appending tokens to a query never lowers any dimension's score. |
| `BeerEmbedding.Distances` | beer/src/beer_embedding.py:96 | There is one non-negative squared distance per beer. |
| `BeerEmbedding.MatchIndices` | beer/src/beer_embedding.py:90-96 | An encoding failure is passed on. A `k` at or above the number of beers fails. Otherwise the chosen indices are a valid k-smallest answer over the squared distances between the query vector and the table. |
| `BeerEmbedding.Match` | beer/src/beer_embedding.py:90-97 | The sentence is lemmatized by the matcher's own lemmatizer, the one its lemma sets were built with. A successful match returns exactly `k` suggestions. Each suggestion pairs the name and the image of the same chosen in-range beer. Failures are passed on unchanged. |
| `BeerEmbedding.DefaultMatchGivesThree` | beer/src/beer_embedding.py:90-97 | With more than three beers and no empty lemma set, the default call returns exactly three suggestions for any sentence. |
| `BeerEmbedding.ExactMatchIsSuggested` | beer/src/beer_embedding.py:96 | A beer whose vector equals the query vector is suggested for any `k >= 1`, unless every suggestion is also at distance 0. |

## Left out

- The lemmatizer: punctuation stripping, natasha segmentation, morphological tagging and lemmatization (beer/src/beer_embedding.py:80-88). It is the parameter `lemmatize: string -> seq<string>` of `Init`. The matcher stores it, so the same function serves lemma sets and queries.
- Loading: reading the feature space and the catalog from JSON with pandas, and the pandas table layout. Records are given as a sequence in table order. A field is null, absent or a list of strings. A scalar string where a list is expected is not modelled.
- `_listify` (beer/src/beer_embedding.py:15-18): after the lower-casing pass every attribute value is a list, so the helper changes nothing.
- `Beer.show` (image display through PIL).
- numpy floating point: all arithmetic is exact `real` arithmetic, so rounding in sums, divisions and distances is not modelled.
- `Selection.SmallestK`: fixes one order among equal distances (first minimum first). `argpartition`'s actual order among ties is implementation-defined, and `MatchIndices` and `Match` promise only the k-smallest relation. The order in which the k indices come back is not promised either.
- `BeerEmbedding.MatchIndices`: takes `k` as a natural number. The behaviour of `argpartition` for a negative `k` is not modelled.
- `Text.Lower`: models Python's `str.lower` only for ASCII letters and the Cyrillic capitals U+0400 to U+042F. Every other character, including non-ASCII Latin capitals such as 'À' and capitals of other scripts, is left unchanged, and the length-changing special cases of Unicode lower-casing are not modelled.
- The conversation state machine and its transport wiring (TelegramBot.py, handlers.py). The message handlers it routes through are not part of this model.
- The scraper, the weather and cat-fact features, the sentiment and insult filters, and the data download. They are network and model wrappers with no logic to verify.
