/** Choosing the k catalog items nearest to a query. numpy's `argpartition`
    leaves the order among equal distances unspecified, so what is promised
    is a relation: k distinct indices, none farther than any index left out. */
module Selection {

  import opened Seqs

  predicate InRange(s: seq<nat>, n: nat)
  {
    forall t :: 0 <= t < |s| ==> s[t] < n
  }

  /** `idx` is a valid answer of `d.argpartition(k)[:k]`: k distinct indices
      of `d`, each at a distance no larger than that of any index not chosen. */
  ghost predicate IsKSmallest(d: seq<real>, k: nat, idx: seq<nat>)
  {
    && |idx| == k
    && Distinct(idx)
    && InRange(idx, |d|)
    && forall t, j :: 0 <= t < |idx| && 0 <= j < |d| && j !in idx ==> d[idx[t]] <= d[j]
  }

  /** The position, within `cands`, of a candidate with the smallest distance. */
  function ArgMinPos(d: seq<real>, cands: seq<nat>): (p: nat)
    requires |cands| > 0 && InRange(cands, |d|)
    ensures p < |cands|
    ensures forall q :: 0 <= q < |cands| ==> d[cands[p]] <= d[cands[q]]
  {
    if |cands| == 1 then 0
    else
      var p' := ArgMinPos(d, cands[1..]);
      if d[cands[0]] <= d[cands[1 + p']] then 0 else 1 + p'
  }

  function RemoveAt(s: seq<nat>, p: nat): seq<nat>
    requires p < |s|
  {
    s[..p] + s[p + 1..]
  }

  lemma RemoveAtMembers(s: seq<nat>, p: nat, n: nat)
    requires p < |s| && Distinct(s) && InRange(s, n)
    ensures |RemoveAt(s, p)| == |s| - 1
    ensures Distinct(RemoveAt(s, p)) && InRange(RemoveAt(s, p), n)
    ensures forall y :: y in RemoveAt(s, p) <==> y in s && y != s[p]
  {
    var r := RemoveAt(s, p);
    assert forall i :: 0 <= i < |r| ==> r[i] == if i < p then s[i] else s[i + 1];
    forall y ensures y in r <==> y in s && y != s[p] {
      if y in s && y != s[p] {
        var i :| 0 <= i < |s| && s[i] == y;
        if i < p { assert r[i] == y; } else { assert r[i - 1] == y; }
      }
    }
  }

  /** Repeatedly take a nearest remaining candidate. */
  function SmallestFrom(d: seq<real>, cands: seq<nat>, k: nat): (r: seq<nat>)
    requires k <= |cands| && Distinct(cands) && InRange(cands, |d|)
    ensures |r| == k && Distinct(r)
    ensures forall x :: x in r ==> x in cands
    ensures forall x, y :: x in r && y in cands && y !in r ==> d[x] <= d[y]
    decreases k
  {
    if k == 0 then []
    else
      var p := ArgMinPos(d, cands);
      var rest' := RemoveAt(cands, p);
      RemoveAtMembers(cands, p, |d|);
      var rest := SmallestFrom(d, rest', k - 1);
      assert forall y :: y in cands ==> d[cands[p]] <= d[y];
      [cands[p]] + rest
  }

  function Range(n: nat): (r: seq<nat>)
    ensures |r| == n && Distinct(r) && InRange(r, n)
    ensures forall j :: 0 <= j < n ==> j in r
  {
    var r := seq(n, i requires 0 <= i < n => i as nat);
    forall j | 0 <= j < n ensures j in r {
      assert r[j] == j;
    }
    r
  }

  /** The indices of `k` nearest items, for `k` up to the number of items. */
  function SmallestK(d: seq<real>, k: nat): (idx: seq<nat>)
    requires k <= |d|
    ensures IsKSmallest(d, k, idx)
  {
    var all := Range(|d|);
    var idx := SmallestFrom(d, all, k);
    assert InRange(idx, |d|) by {
      forall t | 0 <= t < |idx| ensures idx[t] < |d| {
        assert idx[t] in idx;
      }
    }
    assert forall t, j :: 0 <= t < |idx| && 0 <= j < |d| && j !in idx ==> d[idx[t]] <= d[j] by {
      forall t, j | 0 <= t < |idx| && 0 <= j < |d| && j !in idx ensures d[idx[t]] <= d[j] {
        assert idx[t] in idx && j in all;
      }
    }
    idx
  }

  /** When no two items are at the same distance, the k nearest are
      determined: any two valid answers choose the same items. */
  lemma KSmallestUnique(d: seq<real>, k: nat, a: seq<nat>, b: seq<nat>)
    requires IsKSmallest(d, k, a) && IsKSmallest(d, k, b)
    requires forall i, j :: 0 <= i < j < |d| ==> d[i] != d[j]
    ensures Elements(a) == Elements(b)
  {
    ChosenAmongChosen(d, k, a, b);
    ChosenAmongChosen(d, k, b, a);
  }

  lemma ChosenAmongChosen(d: seq<real>, k: nat, a: seq<nat>, b: seq<nat>)
    requires IsKSmallest(d, k, a) && IsKSmallest(d, k, b)
    requires forall i, j :: 0 <= i < j < |d| ==> d[i] != d[j]
    ensures Elements(a) <= Elements(b)
  {
    forall x | x in Elements(a) ensures x in Elements(b) {
      if x !in Elements(b) {
        var y := SwappedChoice(d, k, a, b, x);
        assert false;
      }
    }
  }

  /** An item chosen by one answer but not by another is matched by an item
      the other chose instead, at the same distance: the two differ only
      on ties. */
  lemma SwappedChoice(d: seq<real>, k: nat, a: seq<nat>, b: seq<nat>, x: nat) returns (y: nat)
    requires IsKSmallest(d, k, a) && IsKSmallest(d, k, b)
    requires x in Elements(a) && x !in Elements(b)
    ensures y in Elements(b) && y !in Elements(a)
    ensures x < |d| && y < |d| && d[x] == d[y]
  {
    DistinctElements(a);
    DistinctElements(b);
    y := OutsideElement(Elements(a), Elements(b), x);
    var s :| 0 <= s < |a| && a[s] == x;
    var t :| 0 <= t < |b| && b[t] == y;
    assert d[x] <= d[y] && d[y] <= d[x];
  }

  /** Of two equally large sets, if the first has an element the second
      lacks, the second has one the first lacks. */
  lemma OutsideElement(A: set<nat>, B: set<nat>, x: nat) returns (y: nat)
    requires |A| == |B| && x in A && x !in B
    ensures y in B && y !in A
  {
    var I := B * A;
    assert I <= A - {x};
    SubsetCard(I, A - {x});
    assert |B - I| > 0 by {
      assert B == (B - I) + I;
      assert |B| == |B - I| + |I|;
    }
    var z :| z in B - I;
    y := z;
  }

  lemma {:induction false} SubsetCard(A: set<nat>, B: set<nat>)
    requires A <= B
    ensures |A| <= |B|
    decreases |B|
  {
    if A != {} {
      var z :| z in A;
      SubsetCard(A - {z}, B - {z});
    }
  }
}
