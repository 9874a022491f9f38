/** Concatenation of a sequence of blocks, as `np.hstack` and a nested
    "for each attribute, for each value" loop lay values out. */
module Blocks {

  function Concat<T>(bs: seq<seq<T>>): seq<T>
  {
    if |bs| == 0 then [] else bs[0] + Concat(bs[1..])
  }

  /** Position in `Concat(bs)` where block `k` starts. */
  function Start<T>(bs: seq<seq<T>>, k: nat): nat
    requires k <= |bs|
  {
    |Concat(bs[..k])|
  }

  lemma {:induction false} ConcatSplit<T>(bs: seq<seq<T>>, k: nat)
    requires k <= |bs|
    ensures Concat(bs) == Concat(bs[..k]) + Concat(bs[k..])
  {
    if k > 0 {
      ConcatSplit(bs[1..], k - 1);
      assert bs[1..][..k - 1] == bs[..k][1..];
      assert bs[1..][k - 1..] == bs[k..];
    } else {
      assert bs[k..] == bs;
    }
  }

  /** Entry `j` of block `k` sits at `Start(bs, k) + j` of the concatenation. */
  lemma ConcatIndex<T>(bs: seq<seq<T>>, k: nat, j: nat)
    requires k < |bs| && j < |bs[k]|
    ensures Start(bs, k) + j < |Concat(bs)|
    ensures Concat(bs)[Start(bs, k) + j] == bs[k][j]
  {
    ConcatSplit(bs, k);
    assert Concat(bs[k..]) == bs[k] + Concat(bs[k + 1..]) by {
      assert bs[k..][1..] == bs[k + 1..];
    }
  }

  /** Two block sequences of the same shape concatenate to the same length
      and start each block at the same position. */
  lemma {:induction false} SameShape<T, U>(bs: seq<seq<T>>, cs: seq<seq<U>>)
    requires |bs| == |cs|
    requires forall i :: 0 <= i < |bs| ==> |bs[i]| == |cs[i]|
    ensures |Concat(bs)| == |Concat(cs)|
    ensures forall k :: 0 <= k <= |bs| ==> Start(bs, k) == Start(cs, k)
  {
    if |bs| > 0 {
      SameShape(bs[1..], cs[1..]);
      forall k | 0 < k <= |bs|
        ensures Start(bs, k) == Start(cs, k)
      {
        assert bs[..k][1..] == bs[1..][..k - 1];
        assert cs[..k][1..] == cs[1..][..k - 1];
        assert Start(bs[1..], k - 1) == Start(cs[1..], k - 1);
        assert Concat(bs[..k]) == bs[0] + Concat(bs[1..][..k - 1]);
        assert Concat(cs[..k]) == cs[0] + Concat(cs[1..][..k - 1]);
      }
      assert bs[..0] == [] && cs[..0] == [];
    } else {
      assert bs[..0] == [] && cs[..0] == [];
    }
  }

  /** Every element of the concatenation comes from some block, and back. */
  lemma {:induction false} ConcatMembers<T>(bs: seq<seq<T>>, x: T)
    ensures x in Concat(bs) <==> exists i :: 0 <= i < |bs| && x in bs[i]
  {
    if |bs| > 0 {
      ConcatMembers(bs[1..], x);
      if exists i :: 0 <= i < |bs| && x in bs[i] {
        var i :| 0 <= i < |bs| && x in bs[i];
        if i > 0 {
          assert x in bs[1..][i - 1];
        }
      }
      if exists i :: 0 <= i < |bs[1..]| && x in bs[1..][i] {
        var i :| 0 <= i < |bs[1..]| && x in bs[1..][i];
        assert x in bs[i + 1];
      }
    }
  }
}
