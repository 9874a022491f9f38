/** Building the beer table: lower-case the attribute lists, turn every
    record into an indicator vector and keep only the records with more than
    15 indicators set, with names and image paths aligned to the vectors. */
module BeerTable {
  import opened Wrappers
  import opened Text
  import opened Vectors
  import opened FeatureSpace

  /** A raw attribute field: JSON null (NaN in the table) or a list of strings. */
  datatype Field = Missing | Present(items: seq<string>)

  /** One record of the catalog file: its name (the table index), its image
      path and its attribute fields. A key absent from `fields` reads as NaN,
      as long as some other record gives the table that column. */
  datatype Record = Record(name: string, img: string, fields: map<string, Field>)

  datatype BuildError =
    | MissingColumn(key: string)  // no record has the attribute: the table has no such column
    | EmptyCatalog                // no record passes the threshold: stacking no vectors fails

  /** The three lists the matcher keeps, index-aligned. */
  datatype Table = Table(features: seq<Vector>, images: seq<string>, names: seq<string>)

  /** A record is kept only when strictly more indicators than this are set. */
  const Threshold: real := 15.0

  /** A field as the lower-casing pass leaves it: null becomes the empty
      list, and each present value is lower-cased. */
  function Clean(f: Field): (r: seq<string>)
    ensures f.Missing? ==> r == []
    ensures f.Present? ==> |r| == |f.items|
    ensures f.Present? ==> forall i :: 0 <= i < |r| ==> r[i] == Lower(f.items[i])
    ensures forall i, c :: 0 <= i < |r| && 0 <= c < |r[i]| ==> !IsUpper(r[i][c])
  {
    match f
    case Missing => []
    case Present(xs) =>
      var r := seq(|xs|, i requires 0 <= i < |xs| => Lower(xs[i]));
      assert forall i :: 0 <= i < |r| ==> r[i] == Lower(xs[i]);
      forall i | 0 <= i < |r| ensures forall c :: 0 <= c < |r[i]| ==> !IsUpper(r[i][c]) {
        LowerHasNoCapitals(xs[i]);
      }
      r
  }

  function FieldOf(r: Record, key: string): Field
  {
    if key in r.fields then r.fields[key] else Missing
  }

  function KeySet(space: Space): set<string>
  {
    set k | 0 <= k < |space| :: space[k].key
  }

  /** The row `featurize` sees: every feature-space attribute cleaned. */
  function Normalize(space: Space, r: Record): (row: Row)
    ensures HasKeys(space, row)
    ensures forall k :: 0 <= k < |space| ==> row[space[k].key] == Clean(FieldOf(r, space[k].key))
  {
    map key | key in KeySet(space) :: Clean(FieldOf(r, key))
  }

  function Indicators(space: Space, r: Record): Vector
  {
    Featurize(space, Normalize(space, r))
  }

  /** The information threshold: more than 15 indicators set. */
  predicate Keep(space: Space, r: Record)
  {
    Sum(Indicators(space, r)) > Threshold
  }

  /** The records that pass the threshold, in their original order. */
  function Kept(space: Space, records: seq<Record>): (out: seq<Record>)
    ensures |out| <= |records|
    ensures forall r :: r in out <==> r in records && Keep(space, r)
  {
    if |records| == 0 then []
    else
      var rest := Kept(space, records[1..]);
      assert forall r :: r in records <==> r == records[0] || r in records[1..];
      if Keep(space, records[0]) then [records[0]] + rest else rest
  }

  /** Filtering distributes over concatenation, so it keeps the original
      record order. */
  lemma {:induction false} KeptAppend(space: Space, a: seq<Record>, b: seq<Record>)
    ensures Kept(space, a + b) == Kept(space, a) + Kept(space, b)
  {
    if |a| > 0 {
      assert (a + b)[1..] == a[1..] + b;
      KeptAppend(space, a[1..], b);
    } else {
      assert a + b == b;
    }
  }

  /** The table has a column for `key` when some record carries the key. */
  predicate HasColumn(records: seq<Record>, key: string)
  {
    exists r :: r in records && key in r.fields
  }

  /** The first feature-space attribute, in order, that has no column. */
  function FirstMissingColumn(space: Space, records: seq<Record>): (r: Option<string>)
    ensures r.None? <==> forall k :: 0 <= k < |space| ==> HasColumn(records, space[k].key)
    ensures r.Some? ==> exists k :: 0 <= k < |space| && space[k].key == r.value && !HasColumn(records, r.value)
                          && forall k' :: 0 <= k' < k ==> HasColumn(records, space[k'].key)
  {
    if |space| == 0 then None
    else if !HasColumn(records, space[0].key) then Some(space[0].key)
    else
      var rest := FirstMissingColumn(space[1..], records);
      assert forall k :: 0 < k < |space| ==> space[k] == space[1..][k - 1];
      rest
  }

  /** The catalog name shown to users: the record name with dashes as spaces. */
  function DisplayName(name: string): string
  {
    ReplaceChar(name, '-', ' ')
  }

  /** The three aligned lists built from the kept records. */
  function Assemble(space: Space, kept: seq<Record>): (c: Table)
    ensures |c.features| == |kept| && |c.images| == |kept| && |c.names| == |kept|
    ensures forall i :: 0 <= i < |kept| ==>
              && c.features[i] == Indicators(space, kept[i])
              && c.images[i] == kept[i].img
              && c.names[i] == DisplayName(kept[i].name)
  {
    Table(
      seq(|kept|, i requires 0 <= i < |kept| => Indicators(space, kept[i])),
      seq(|kept|, i requires 0 <= i < |kept| => kept[i].img),
      seq(|kept|, i requires 0 <= i < |kept| => DisplayName(kept[i].name)))
  }

  /** Every entry of a catalog assembled from kept records is a full-length
      indicator vector above the threshold, named without dashes. */
  lemma AssembledEntries(space: Space, kept: seq<Record>)
    requires forall r :: r in kept ==> Keep(space, r)
    ensures forall i :: 0 <= i < |kept| ==>
              && |Assemble(space, kept).features[i]| == Dim(space)
              && ZeroOne(Assemble(space, kept).features[i])
              && Sum(Assemble(space, kept).features[i]) > Threshold
              && '-' !in Assemble(space, kept).names[i]
  {
    forall i | 0 <= i < |kept|
      ensures Sum(Assemble(space, kept).features[i]) > Threshold
    {
      assert kept[i] in kept;
    }
  }

  /** `_init_beer_table`. */
  function Build(space: Space, records: seq<Record>): (res: Result<Table, BuildError>)
    ensures res.Failure? && res.error.MissingColumn? ==>
              exists k :: 0 <= k < |space| && space[k].key == res.error.key && !HasColumn(records, res.error.key)
                          && forall k' :: 0 <= k' < k ==> HasColumn(records, space[k'].key)
    ensures res == Failure(EmptyCatalog) <==>
              (forall k :: 0 <= k < |space| ==> HasColumn(records, space[k].key)) &&
              (forall r :: r in records ==> !Keep(space, r))
    ensures res.Success? ==>
              && (forall k :: 0 <= k < |space| ==> HasColumn(records, space[k].key))
              && |Kept(space, records)| > 0
              && res.value == Assemble(space, Kept(space, records))
    ensures res.Success? ==> forall i :: 0 <= i < |res.value.features| ==>
              && |res.value.features[i]| == Dim(space)
              && ZeroOne(res.value.features[i])
              && Sum(res.value.features[i]) > Threshold
              && '-' !in res.value.names[i]
  {
    match FirstMissingColumn(space, records)
    case Some(key) => Failure(MissingColumn(key))
    case None =>
      var kept := Kept(space, records);
      if |kept| == 0 then
        Failure(EmptyCatalog)
      else
        assert Keep(space, kept[0]);
        AssembledEntries(space, kept);
        Success(Assemble(space, kept))
  }

  /** With 15 dimensions or fewer no record can pass the threshold, so the
      build always fails. */
  lemma SmallSpaceNeverBuilds(space: Space, records: seq<Record>)
    requires Dim(space) <= 15
    ensures Build(space, records).Failure?
  {
    forall r | r in records ensures !Keep(space, r) {
      ZeroOneSumBounds(Indicators(space, r));
    }
  }

  /** A null field, an absent field and an empty list all give the attribute
      an all-zero block. */
  lemma MissingFieldGivesZeroBlock(space: Space, r: Record, k: nat, j: nat)
    requires k < |space| && j < |space[k].values|
    requires FieldOf(r, space[k].key) == Missing || FieldOf(r, space[k].key) == Present([])
    ensures Offset(space, k) + j < Dim(space)
    ensures Indicators(space, r)[Offset(space, k) + j] == 0.0
  {
    EmptyListGivesZeroBlock(space, Normalize(space, r), k, j);
  }
}
