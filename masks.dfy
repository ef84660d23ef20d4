/**
  Boolean-mask selection, `frame[mask]` in pandas, which both cleaners use to drop rows:
  the rows whose mask entry is true, in their original order.
 */
module Masks {

  /** The items whose mask entry is true, in their original order. */
  function Select<T>(xs: seq<T>, mask: seq<bool>): (r: seq<T>)
    requires |xs| == |mask|
    ensures |r| <= |xs|
  {
    if xs == [] then []
    else
      Select(xs[..|xs| - 1], mask[..|mask| - 1])
      + (if mask[|mask| - 1] then [xs[|xs| - 1]] else [])
  }

  /** How many entries of the mask are true (`mask.sum()` in pandas). */
  function CountTrue(mask: seq<bool>): (n: nat)
    ensures n <= |mask|
  {
    if mask == [] then 0 else CountTrue(mask[..|mask| - 1]) + (if mask[|mask| - 1] then 1 else 0)
  }

  /** The positions whose mask entry is true, ascending. */
  function TrueIndices(mask: seq<bool>): (idx: seq<nat>)
    ensures forall k :: 0 <= k < |idx| ==> idx[k] < |mask| && mask[idx[k]]
    ensures forall k, l :: 0 <= k < l < |idx| ==> idx[k] < idx[l]
    ensures forall i :: 0 <= i < |mask| && mask[i] ==> i in idx
  {
    if mask == [] then []
    else
      var front := TrueIndices(mask[..|mask| - 1]);
      front + (if mask[|mask| - 1] then [|mask| - 1] else [])
  }

  /**
    The selection is the items at the true positions, in ascending order of position, and
    there are as many of them as there are true entries.
   */
  lemma {:induction false} SelectAtTrueIndices<T>(xs: seq<T>, mask: seq<bool>)
    requires |xs| == |mask|
    ensures |Select(xs, mask)| == |TrueIndices(mask)| == CountTrue(mask)
    ensures forall k :: 0 <= k < |Select(xs, mask)| ==> Select(xs, mask)[k] == xs[TrueIndices(mask)[k]]
  {
    if xs != [] {
      var n := |xs| - 1;
      SelectAtTrueIndices(xs[..n], mask[..n]);
      var front := Select(xs[..n], mask[..n]);
      var idx := TrueIndices(mask[..n]);
      forall k | 0 <= k < |front| ensures Select(xs, mask)[k] == xs[TrueIndices(mask)[k]] {
        assert Select(xs, mask)[k] == front[k] == xs[..n][idx[k]];
      }
    }
  }

  /** An item is selected exactly when it sits at a position whose mask entry is true. */
  lemma SelectMembership<T>(xs: seq<T>, mask: seq<bool>, x: T)
    requires |xs| == |mask|
    ensures x in Select(xs, mask) <==> exists i :: 0 <= i < |xs| && mask[i] && xs[i] == x
  {
    var r, idx := Select(xs, mask), TrueIndices(mask);
    SelectAtTrueIndices(xs, mask);
    if x in r {
      var k :| 0 <= k < |r| && r[k] == x;
      assert mask[idx[k]] && xs[idx[k]] == x;
    }
    if exists i :: 0 <= i < |xs| && mask[i] && xs[i] == x {
      var i :| 0 <= i < |xs| && mask[i] && xs[i] == x;
      assert i in idx;
      var k :| 0 <= k < |idx| && idx[k] == i;
      assert r[k] == x;
    }
  }

  /** One step of a left-to-right scan: the selection of a longer prefix. */
  lemma SelectSnoc<T>(xs: seq<T>, mask: seq<bool>, i: nat)
    requires |xs| == |mask| && i < |xs|
    ensures Select(xs[..i + 1], mask[..i + 1]) == Select(xs[..i], mask[..i]) + (if mask[i] then [xs[i]] else [])
    ensures CountTrue(mask[..i + 1]) == CountTrue(mask[..i]) + (if mask[i] then 1 else 0)
  {
    assert xs[..i + 1][..i] == xs[..i];
    assert mask[..i + 1][..i] == mask[..i];
  }

  /** A mask that is true everywhere selects everything. */
  lemma {:induction false} SelectAll<T>(xs: seq<T>, mask: seq<bool>)
    requires |xs| == |mask|
    requires forall i :: 0 <= i < |mask| ==> mask[i]
    ensures Select(xs, mask) == xs
  {
    if xs != [] {
      var n := |xs| - 1;
      SelectAll(xs[..n], mask[..n]);
      assert xs[..n] + [xs[n]] == xs;
    }
  }
}
