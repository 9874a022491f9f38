/** The feature space: an ordered mapping from attribute names to ordered
    value lists, and the indicator vector `featurize` builds for a record
    against it. */
module FeatureSpace {
  import opened Blocks
  import opened Vectors
  import opened Seqs

  /** One attribute of the feature space and its permitted values, in file order. */
  datatype Attribute = Attribute(key: string, values: seq<string>)

  /** The feature space, in the order its keys appear in the file. It is
      loaded as a JSON object, so its keys are distinct. */
  type Space = seq<Attribute>

  /** A record's attribute lists once missing fields have become empty lists. */
  type Row = map<string, seq<string>>

  function ValueBlocks(space: Space): seq<seq<string>>
  {
    seq(|space|, k requires 0 <= k < |space| => space[k].values)
  }

  /** All permitted values, attribute after attribute: dimension i of every
      vector stands for `Vocabulary(space)[i]`. */
  function Vocabulary(space: Space): seq<string>
  {
    Concat(ValueBlocks(space))
  }

  /** The vector dimension: the total number of values over all attributes. */
  function Dim(space: Space): nat
  {
    |Vocabulary(space)|
  }

  /** The dimension at which the block of attribute `k` starts. */
  function Offset(space: Space, k: nat): nat
    requires k <= |space|
  {
    Start(ValueBlocks(space), k)
  }

  /** `list.index`: the first position holding `x`. */
  function IndexOf(vals: seq<string>, x: string): (r: nat)
    requires x in vals
    ensures r < |vals| && vals[r] == x
    ensures forall j :: 0 <= j < r ==> vals[j] != x
  {
    if vals[0] == x then 0 else 1 + IndexOf(vals[1..], x)
  }

  /** Dimension `j` of an attribute block is set by the record's values `xs`:
      its value occurs in `xs` and `j` is that value's first position. */
  predicate Hit(vals: seq<string>, xs: seq<string>, j: nat)
    requires j < |vals|
  {
    vals[j] in xs && IndexOf(vals, vals[j]) == j
  }

  /** The inner loop of `featurize`: for each record value, in order, that
      the attribute knows, set its position to 1. */
  function Mark(vals: seq<string>, xs: seq<string>, arr: Vector): (r: Vector)
    requires |arr| == |vals|
    ensures |r| == |vals|
    decreases |xs|
  {
    if |xs| == 0 then arr
    else
      var arr' := if xs[0] in vals then arr[IndexOf(vals, xs[0]) := 1.0] else arr;
      Mark(vals, xs[1..], arr')
  }

  lemma {:induction false} MarkEntry(vals: seq<string>, xs: seq<string>, arr: Vector, j: nat)
    requires |arr| == |vals| && j < |vals|
    ensures Mark(vals, xs, arr)[j] == if Hit(vals, xs, j) then 1.0 else arr[j]
    decreases |xs|
  {
    if |xs| > 0 {
      var arr' := if xs[0] in vals then arr[IndexOf(vals, xs[0]) := 1.0] else arr;
      MarkEntry(vals, xs[1..], arr', j);
      assert xs == [xs[0]] + xs[1..];
      assert vals[j] in xs <==> vals[j] == xs[0] || vals[j] in xs[1..];
    }
  }

  /** One attribute's block of the indicator vector. */
  function Block(vals: seq<string>, xs: seq<string>): (r: Vector)
    ensures |r| == |vals|
    ensures forall j :: 0 <= j < |vals| ==> (r[j] == 1.0 <==> Hit(vals, xs, j))
    ensures forall j :: 0 <= j < |vals| ==> (r[j] == 0.0 <==> !Hit(vals, xs, j))
  {
    var r := Mark(vals, xs, Zeros(|vals|));
    assert forall j :: 0 <= j < |vals| ==> r[j] == if Hit(vals, xs, j) then 1.0 else 0.0 by {
      forall j | 0 <= j < |vals| {
        MarkEntry(vals, xs, Zeros(|vals|), j);
      }
    }
    r
  }

  /** Every attribute of the feature space has a list in the row. */
  predicate HasKeys(space: Space, row: Row)
  {
    forall k :: 0 <= k < |space| ==> space[k].key in row
  }

  function RowBlocks(space: Space, row: Row): seq<Vector>
    requires HasKeys(space, row)
  {
    seq(|space|, k requires 0 <= k < |space| => Block(space[k].values, row[space[k].key]))
  }

  /** `featurize`: one block per attribute, concatenated in feature-space order. */
  function Featurize(space: Space, row: Row): (v: Vector)
    requires HasKeys(space, row)
    ensures |v| == Dim(space)
    ensures ZeroOne(v)
  {
    var bs := RowBlocks(space, row);
    SameShape(bs, ValueBlocks(space));
    ConcatZeroOne(bs);
    Concat(bs)
  }

  lemma ConcatZeroOne(bs: seq<Vector>)
    requires forall k :: 0 <= k < |bs| ==> ZeroOne(bs[k])
    ensures ZeroOne(Concat(bs))
  {
    var v := Concat(bs);
    forall i | 0 <= i < |v|
      ensures v[i] == 0.0 || v[i] == 1.0
    {
      ConcatMembers(bs, v[i]);
      var k :| 0 <= k < |bs| && v[i] in bs[k];
      var j :| 0 <= j < |bs[k]| && bs[k][j] == v[i];
    }
  }

  /** The layout of `featurize`: dimension `Offset(space, k) + j` stands for
      value `j` of attribute `k` and is 1 exactly when the record lists that
      value (at its first position in the attribute), 0 otherwise. */
  lemma FeaturizeEntry(space: Space, row: Row, k: nat, j: nat)
    requires HasKeys(space, row)
    requires k < |space| && j < |space[k].values|
    ensures Offset(space, k) + j < Dim(space)
    ensures Vocabulary(space)[Offset(space, k) + j] == space[k].values[j]
    ensures Featurize(space, row)[Offset(space, k) + j] == 1.0 <==> Hit(space[k].values, row[space[k].key], j)
    ensures Featurize(space, row)[Offset(space, k) + j] == 0.0 <==> !Hit(space[k].values, row[space[k].key], j)
  {
    var bs := RowBlocks(space, row);
    SameShape(bs, ValueBlocks(space));
    ConcatIndex(bs, k, j);
    ConcatIndex(ValueBlocks(space), k, j);
  }

  /** With distinct attribute values, a dimension is set exactly when the
      record lists its value. */
  lemma HitDistinct(vals: seq<string>, xs: seq<string>, j: nat)
    requires Distinct(vals) && j < |vals|
    ensures Hit(vals, xs, j) <==> vals[j] in xs
  {
  }

  /** Values the attribute does not know, and repeated values, do not change
      the block: only which known values are listed matters. */
  lemma BlockSeesOnlyKnownValues(vals: seq<string>, xs: seq<string>, ys: seq<string>)
    requires forall x :: x in vals ==> (x in xs <==> x in ys)
    ensures Block(vals, xs) == Block(vals, ys)
  {
    var a, b := Block(vals, xs), Block(vals, ys);
    forall j | 0 <= j < |vals| ensures a[j] == b[j] {
      assert Hit(vals, xs, j) <==> Hit(vals, ys, j);
    }
  }

  /** The same for whole rows. */
  lemma FeaturizeSeesOnlyKnownValues(space: Space, row: Row, row': Row)
    requires HasKeys(space, row) && HasKeys(space, row')
    requires forall k, x :: 0 <= k < |space| && x in space[k].values ==>
               (x in row[space[k].key] <==> x in row'[space[k].key])
    ensures Featurize(space, row) == Featurize(space, row')
  {
    var bs, cs := RowBlocks(space, row), RowBlocks(space, row');
    forall k | 0 <= k < |space| ensures bs[k] == cs[k] {
      BlockSeesOnlyKnownValues(space[k].values, row[space[k].key], row'[space[k].key]);
    }
    assert bs == cs;
  }

  /** An attribute whose list is empty contributes an all-zero block. */
  lemma EmptyListGivesZeroBlock(space: Space, row: Row, k: nat, j: nat)
    requires HasKeys(space, row)
    requires k < |space| && j < |space[k].values| && row[space[k].key] == []
    ensures Offset(space, k) + j < Dim(space)
    ensures Featurize(space, row)[Offset(space, k) + j] == 0.0
  {
    FeaturizeEntry(space, row, k, j);
  }

  /** `_init_lemma`: the lemma set of every value, attribute after attribute. */
  function LemmaSets(space: Space, lemmatize: string -> seq<string>): (r: seq<set<string>>)
    ensures |r| == Dim(space)
  {
    var voc := Vocabulary(space);
    seq(|voc|, i requires 0 <= i < |voc| => Elements(lemmatize(voc[i])))
  }

  /** Lemma set `Offset(space, k) + j` belongs to value `j` of attribute `k`:
      the same dimension its indicator occupies in `Featurize`. */
  lemma LemmaSetsAligned(space: Space, lemmatize: string -> seq<string>, k: nat, j: nat)
    requires k < |space| && j < |space[k].values|
    ensures Offset(space, k) + j < |LemmaSets(space, lemmatize)|
    ensures Vocabulary(space)[Offset(space, k) + j] == space[k].values[j]
    ensures LemmaSets(space, lemmatize)[Offset(space, k) + j] == Elements(lemmatize(space[k].values[j]))
  {
    ConcatIndex(ValueBlocks(space), k, j);
  }
}
