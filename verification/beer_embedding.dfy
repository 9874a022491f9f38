/** `BeerEmbedding`: the beer table with its lemma sets, the soft query
    vector built from lemma overlap, and the k nearest beers by squared
    distance. The lemmatizer (punctuation stripping, segmentation and
    lemmatization) is a parameter `lemmatize: string -> seq<string>`. */
module BeerEmbedding {
  import opened Wrappers
  import opened Vectors
  import opened FeatureSpace
  import opened BeerTable
  import opened Selection
  import opened Seqs

  /** A suggestion: a beer's display name and image path. */
  datatype Beer = Beer(name: string, imgPath: string)

  /** A constructed matcher: the feature space, the beer table, the
      lemmatizer it was built with and one lemma set per dimension. */
  datatype Embedding = Embedding(space: Space, table: Table, lemmatize: string -> seq<string>, lemmas: seq<set<string>>)

  datatype MatchError =
    | EmptyLemmaSet(dim: nat)         // dividing by the size of an empty lemma set
    | KthOutOfBounds(k: nat, size: nat)  // argpartition needs k below the number of beers

  /** What construction guarantees: a non-empty table, aligned lists, table
      vectors of the feature-space dimension, and the lemma sets of the
      matcher's own lemmatizer. */
  predicate Valid(e: Embedding)
  {
    && |e.table.features| > 0
    && |e.table.images| == |e.table.features|
    && |e.table.names| == |e.table.features|
    && (forall i :: 0 <= i < |e.table.features| ==> |e.table.features[i]| == Dim(e.space))
    && e.lemmas == LemmaSets(e.space, e.lemmatize)
  }

  /** `BeerEmbedding.__init__`: build the table, then the lemma sets. */
  function Init(space: Space, records: seq<Record>, lemmatize: string -> seq<string>): (res: Result<Embedding, BuildError>)
    ensures Build(space, records).Failure? ==> res == Failure(Build(space, records).error)
    ensures Build(space, records).Success? ==> res.Success? && res.value.table == Build(space, records).value
    ensures res.Success? ==> Valid(res.value) && res.value.space == space && res.value.lemmatize == lemmatize
    ensures res.Success? ==> res.value.lemmas == LemmaSets(space, lemmatize) && |res.value.lemmas| == Dim(space)
  {
    match Build(space, records)
    case Failure(err) => Failure(err)
    case Success(table) => Success(Embedding(space, table, lemmatize, LemmaSets(space, lemmatize)))
  }

  /** The lemma set at the dimension of value `j` of attribute `k` is the set
      of that value's lemmas: lemma sets and indicators share one layout. */
  lemma InitAligned(space: Space, records: seq<Record>, lemmatize: string -> seq<string>, k: nat, j: nat)
    requires k < |space| && j < |space[k].values|
    ensures Offset(space, k) + j < Dim(space)
    ensures Vocabulary(space)[Offset(space, k) + j] == space[k].values[j]
    ensures Init(space, records, lemmatize).Success? ==>
              Init(space, records, lemmatize).value.lemmas[Offset(space, k) + j] == Elements(lemmatize(space[k].values[j]))
  {
    LemmaSetsAligned(space, lemmatize, k, j);
  }

  /** The number of tokens, with repetitions, that belong to `feats`;
      `CountIsPairSum` relates it to the double sum the matcher computes. */
  function Count(tokens: seq<string>, feats: set<string>): (n: nat)
    ensures n <= |tokens|
    ensures n == 0 <==> forall t :: t in tokens ==> t !in feats
  {
    if |tokens| == 0 then 0
    else
      assert forall t :: t in tokens <==> t == tokens[0] || t in tokens[1..];
      (if tokens[0] in feats then 1 else 0) + Count(tokens[1..], feats)
  }

  lemma {:induction false} CountAppend(a: seq<string>, b: seq<string>, feats: set<string>)
    ensures Count(a + b, feats) == Count(a, feats) + Count(b, feats)
  {
    if |a| > 0 {
      assert (a + b)[1..] == a[1..] + b;
      CountAppend(a[1..], b, feats);
    } else {
      assert a + b == b;
    }
  }

  /** How many tokens equal `f`. */
  function Occ(f: string, tokens: seq<string>): nat
  {
    if |tokens| == 0 then 0 else (if tokens[0] == f then 1 else 0) + Occ(f, tokens[1..])
  }

  /** The double sum `sum(token == feat for feat in feats for token in tokens)`
      as written, with the set `feats` enumerated as the sequence `fs` in
      whatever order the set iterates. */
  function PairSum(fs: seq<string>, tokens: seq<string>): nat
  {
    if |fs| == 0 then 0 else Occ(fs[0], tokens) + PairSum(fs[1..], tokens)
  }

  /** Adding one new feature to the set adds its occurrences to the count. */
  lemma {:induction false} CountSplit(tokens: seq<string>, f: string, feats: set<string>)
    requires f !in feats
    ensures Count(tokens, {f} + feats) == Occ(f, tokens) + Count(tokens, feats)
  {
    if |tokens| > 0 {
      CountSplit(tokens[1..], f, feats);
    }
  }

  /** The per-token count equals the double sum over (feature, token) pairs,
      whatever order the feature set is enumerated in. */
  lemma {:induction false} CountIsPairSum(fs: seq<string>, tokens: seq<string>)
    requires Distinct(fs)
    ensures Count(tokens, Elements(fs)) == PairSum(fs, tokens)
  {
    if |fs| == 0 {
      assert Elements(fs) == {};
    } else {
      var rest := fs[1..];
      assert Distinct(rest) by {
        forall a, b | 0 <= a < b < |rest| ensures rest[a] != rest[b] {
          assert rest[a] == fs[a + 1] && rest[b] == fs[b + 1];
        }
      }
      assert Elements(fs) == {fs[0]} + Elements(rest);
      assert fs[0] !in Elements(rest);
      CountIsPairSum(rest, tokens);
      CountSplit(tokens, fs[0], Elements(rest));
    }
  }

  /** The score of one dimension: overlap count over lemma-set size, clipped
      to [0, 1]. It is 0 exactly when no token is in the set, and 1 exactly
      when the count reaches the set size. */
  function Score(tokens: seq<string>, feats: set<string>): (r: real)
    requires |feats| > 0
    ensures 0.0 <= r <= 1.0
    ensures r == 0.0 <==> forall t :: t in tokens ==> t !in feats
    ensures r == 1.0 <==> Count(tokens, feats) >= |feats|
    ensures Count(tokens, feats) < |feats| ==> r * (|feats| as real) == Count(tokens, feats) as real
  {
    ClippedRatio(Count(tokens, feats), |feats|)
  }

  /** `np.clip(c / n, 0., 1.)` for a count `c` over a positive size `n`. */
  function ClippedRatio(c: nat, n: nat): (r: real)
    requires n > 0
    ensures 0.0 <= r <= 1.0
    ensures r == 0.0 <==> c == 0
    ensures r == 1.0 <==> c >= n
    ensures c < n ==> r * (n as real) == c as real
  {
    Ratio(c as real, n as real);
    Clip(c as real / n as real)
  }

  /** The first dimension, from `i` on, whose lemma set is empty, if any. */
  predicate FirstEmptyFrom(lemmas: seq<set<string>>, i: nat, e: nat)
  {
    i <= e < |lemmas| && |lemmas[e]| == 0 && forall j :: i <= j < e ==> |lemmas[j]| > 0
  }

  /** The scoring loop of `match` over dimensions `i` onward; it stops with
      the first empty lemma set, where the division fails. */
  function EncodeFrom(lemmas: seq<set<string>>, tokens: seq<string>, i: nat): (res: Result<Vector, MatchError>)
    requires i <= |lemmas|
    ensures res.Failure? <==> exists j :: i <= j < |lemmas| && |lemmas[j]| == 0
    ensures res.Failure? ==> res.error.EmptyLemmaSet? && FirstEmptyFrom(lemmas, i, res.error.dim)
    ensures res.Success? ==> |res.value| == |lemmas| - i
    ensures res.Success? ==> forall j :: i <= j < |lemmas| ==> |lemmas[j]| > 0 && res.value[j - i] == Score(tokens, lemmas[j])
    decreases |lemmas| - i
  {
    if i == |lemmas| then Success([])
    else if |lemmas[i]| == 0 then Failure(EmptyLemmaSet(i))
    else
      match EncodeFrom(lemmas, tokens, i + 1)
      case Failure(err) => Failure(err)
      case Success(v) => Success([Score(tokens, lemmas[i])] + v)
  }

  /** The clipped soft query vector of `match`. */
  function Encode(lemmas: seq<set<string>>, tokens: seq<string>): (res: Result<Vector, MatchError>)
    ensures res.Failure? <==> exists j :: 0 <= j < |lemmas| && |lemmas[j]| == 0
    ensures res.Failure? ==> res.error.EmptyLemmaSet? && FirstEmptyFrom(lemmas, 0, res.error.dim)
    ensures res.Success? ==> |res.value| == |lemmas|
    ensures res.Success? ==> forall j :: 0 <= j < |lemmas| ==> 0.0 <= res.value[j] <= 1.0
    ensures res.Success? ==> forall j :: 0 <= j < |lemmas| ==> res.value[j] == Score(tokens, lemmas[j])
  {
    var res := EncodeFrom(lemmas, tokens, 0);
    if res.Success? then
      assert forall j :: 0 <= j < |lemmas| ==> res.value[j] == Score(tokens, lemmas[j]) by {
        forall j | 0 <= j < |lemmas| ensures res.value[j] == Score(tokens, lemmas[j]) {
          assert res.value[j - 0] == Score(tokens, lemmas[j]);
        }
      }
      res
    else
      res
  }

  /** An empty query scores zero in every dimension. */
  lemma EmptyQueryIsZero(lemmas: seq<set<string>>)
    requires forall j :: 0 <= j < |lemmas| ==> |lemmas[j]| > 0
    ensures Encode(lemmas, []) == Success(Zeros(|lemmas|))
  {
    var q := Encode(lemmas, []).value;
    forall j | 0 <= j < |lemmas| ensures q[j] == 0.0 {
      assert Score([], lemmas[j]) == 0.0;
    }
    assert q == Zeros(|lemmas|);
  }

  /** More tokens never lower a score. */
  lemma EncodeMonotone(lemmas: seq<set<string>>, tokens: seq<string>, more: seq<string>)
    requires Encode(lemmas, tokens).Success?
    ensures Encode(lemmas, tokens + more).Success?
    ensures forall j :: 0 <= j < |lemmas| ==> Encode(lemmas, tokens).value[j] <= Encode(lemmas, tokens + more).value[j]
  {
    forall j | 0 <= j < |lemmas|
      ensures Encode(lemmas, tokens).value[j] <= Encode(lemmas, tokens + more).value[j]
    {
      CountAppend(tokens, more, lemmas[j]);
      ScoreMonotone(tokens, tokens + more, lemmas[j]);
    }
  }

  lemma ScoreMonotone(a: seq<string>, b: seq<string>, feats: set<string>)
    requires |feats| > 0 && Count(a, feats) <= Count(b, feats)
    ensures Score(a, feats) <= Score(b, feats)
  {
    RatioMonotone(Count(a, feats) as real, Count(b, feats) as real, |feats| as real);
  }

  /** `((emb - self._features) ** 2).sum(1)`. */
  function Distances(q: Vector, features: seq<Vector>): (d: seq<real>)
    requires forall i :: 0 <= i < |features| ==> |features[i]| == |q|
    ensures |d| == |features|
    ensures forall i :: 0 <= i < |d| ==> d[i] >= 0.0
  {
    var d := seq(|features|, i requires 0 <= i < |features| => SqDist(q, features[i]));
    assert forall i :: 0 <= i < |d| ==> d[i] >= 0.0 by {
      forall i | 0 <= i < |d| ensures d[i] >= 0.0 {
        SqDistProperties(q, features[i]);
      }
    }
    d
  }

  /** The indices `match` picks for already-lemmatized tokens: a valid
      `argpartition(k)[:k]` answer over the squared distances. */
  function MatchIndices(e: Embedding, tokens: seq<string>, k: nat): (res: Result<seq<nat>, MatchError>)
    requires Valid(e)
    ensures Encode(e.lemmas, tokens).Failure? ==> res == Failure(Encode(e.lemmas, tokens).error)
    ensures Encode(e.lemmas, tokens).Success? && k >= |e.table.features| ==>
              res == Failure(KthOutOfBounds(k, |e.table.features|))
    ensures Encode(e.lemmas, tokens).Success? && k < |e.table.features| ==>
              res.Success? && IsKSmallest(Distances(Encode(e.lemmas, tokens).value, e.table.features), k, res.value)
  {
    match Encode(e.lemmas, tokens)
    case Failure(err) => Failure(err)
    case Success(q) =>
      var n := |e.table.features|;
      if k >= n then Failure(KthOutOfBounds(k, n))
      else Success(SmallestK(Distances(q, e.table.features), k))
  }

  /** `match`: the sentence goes through the matcher's own lemmatizer, then
      the k suggestions each pair the name and image of one chosen beer. */
  function Match(e: Embedding, sentence: string, k: nat): (res: Result<seq<Beer>, MatchError>)
    requires Valid(e)
    ensures MatchIndices(e, e.lemmatize(sentence), k).Failure? ==>
              res == Failure(MatchIndices(e, e.lemmatize(sentence), k).error)
    ensures MatchIndices(e, e.lemmatize(sentence), k).Success? ==>
              var idx := MatchIndices(e, e.lemmatize(sentence), k).value;
              && res.Success? && |res.value| == k
              && InRange(idx, |e.table.features|)
              && forall t :: 0 <= t < k ==> res.value[t] == Beer(e.table.names[idx[t]], e.table.images[idx[t]])
  {
    match MatchIndices(e, e.lemmatize(sentence), k)
    case Failure(err) => Failure(err)
    case Success(idx) =>
      Success(seq(|idx|, t requires 0 <= t < |idx| => Beer(e.table.names[idx[t]], e.table.images[idx[t]])))
  }

  /** With more than three beers and no empty lemma set, the default call
      returns exactly three suggestions, for any sentence. */
  lemma DefaultMatchGivesThree(e: Embedding, sentence: string)
    requires Valid(e) && |e.table.features| > 3
    requires forall j :: 0 <= j < |e.lemmas| ==> |e.lemmas[j]| > 0
    ensures Match(e, sentence, 3).Success?
    ensures |Match(e, sentence, 3).value| == 3
  {
  }

  /** A beer whose vector equals the query is at distance 0, so it is
      suggested unless every suggestion is also at distance 0. */
  lemma ExactMatchIsSuggested(e: Embedding, tokens: seq<string>, k: nat, c: nat)
    requires Valid(e) && c < |e.table.features| && 1 <= k
    requires Encode(e.lemmas, tokens).Success? && Encode(e.lemmas, tokens).value == e.table.features[c]
    requires MatchIndices(e, tokens, k).Success?
    ensures var idx := MatchIndices(e, tokens, k).value;
            var d := Distances(Encode(e.lemmas, tokens).value, e.table.features);
            c in idx || forall t :: 0 <= t < |idx| ==> d[idx[t]] == 0.0
  {
    var q := Encode(e.lemmas, tokens).value;
    var d := Distances(q, e.table.features);
    var idx := MatchIndices(e, tokens, k).value;
    SqDistProperties(q, e.table.features[c]);
    assert d[c] == 0.0;
    if c !in idx {
      forall t | 0 <= t < |idx| ensures d[idx[t]] == 0.0 {
        assert d[idx[t]] <= d[c];
      }
    }
  }
}
