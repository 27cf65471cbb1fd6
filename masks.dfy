/**
 * Choosing and binarising one of the candidate masks the segmentation model returns.
 * Mask values are modelled as integers (the model's tensors hold 0/1 or real values).
 */
module Masks {
  import opened Raster
  import opened Wrappers

  /** One candidate region: a grid of per-pixel values, rows first. */
  type Mask = seq<seq<int>>

  /** The sum of one row's values. */
  function RowSum(row: seq<int>): int {
    if row == [] then 0 else RowSum(row[..|row| - 1]) + row[|row| - 1]
  }

  /** `mask.sum().item()`: the sum of all of the mask's values. */
  function Area(m: Mask): int {
    if m == [] then 0 else Area(m[..|m| - 1]) + RowSum(m[|m| - 1])
  }

  /** The number of cells of a row whose value is positive. */
  function RowCoverage(row: seq<int>): nat {
    if row == [] then 0 else RowCoverage(row[..|row| - 1]) + (if row[|row| - 1] > 0 then 1 else 0)
  }

  /** The number of pixels a mask covers, i.e. whose value is positive. */
  function Coverage(m: Mask): nat {
    if m == [] then 0 else Coverage(m[..|m| - 1]) + RowCoverage(m[|m| - 1])
  }

  /** Every value of the mask is 0 or 1, as in the boolean masks the model emits. */
  predicate IsZeroOne(m: Mask) {
    forall y, x :: 0 <= y < |m| && 0 <= x < |m[y]| ==> m[y][x] == 0 || m[y][x] == 1
  }

  lemma {:induction false} RowSumOfZeroOne(row: seq<int>)
    requires forall x :: 0 <= x < |row| ==> row[x] == 0 || row[x] == 1
    ensures RowSum(row) == RowCoverage(row)
  {
    if row != [] {
      RowSumOfZeroOne(row[..|row| - 1]);
    }
  }

  /** On a 0/1 mask the area the source sums is exactly the number of covered pixels. */
  lemma {:induction false} AreaOfZeroOneIsCoverage(m: Mask)
    requires IsZeroOne(m)
    ensures Area(m) == Coverage(m)
  {
    if m != [] {
      var last := m[|m| - 1];
      assert forall x :: 0 <= x < |last| ==> last[x] == 0 || last[x] == 1 by {
        forall x | 0 <= x < |last| ensures last[x] == 0 || last[x] == 1 {
          assert last[x] == m[|m| - 1][x];
        }
      }
      RowSumOfZeroOne(last);
      var init := m[..|m| - 1];
      assert IsZeroOne(init) by {
        forall y, x | 0 <= y < |init| && 0 <= x < |init[y]|
          ensures init[y][x] == 0 || init[y][x] == 1
        {
          assert init[y] == m[y];
        }
      }
      AreaOfZeroOneIsCoverage(init);
    }
  }

  /** `[mask.sum().item() for mask in masks]`. */
  function Areas(masks: seq<Mask>): seq<int> {
    seq(|masks|, k requires 0 <= k < |masks| => Area(masks[k]))
  }

  /** `i` holds the maximum of `s`, and no earlier index holds it. */
  ghost predicate IsFirstMax(s: seq<int>, i: int) {
    0 <= i < |s| &&
    (forall j :: 0 <= j < |s| ==> s[j] <= s[i]) &&
    (forall j :: 0 <= j < i ==> s[j] < s[i])
  }

  /** `np.argmax`: the first index holding the largest value. */
  function FirstArgMax(s: seq<int>): (r: nat)
    requires |s| > 0
    ensures r < |s|
    ensures forall j :: 0 <= j < |s| ==> s[j] <= s[r]
    ensures forall j :: 0 <= j < r ==> s[j] < s[r]
  {
    if |s| == 1 then 0
    else
      var k := FirstArgMax(s[..|s| - 1]);
      if s[|s| - 1] > s[k] then |s| - 1 else k
  }

  /** The first maximum is unique, so `FirstArgMax` is the only index it can be. */
  lemma FirstArgMaxIsTheFirstMax(s: seq<int>, i: int)
    requires |s| > 0
    ensures IsFirstMax(s, i) <==> i == FirstArgMax(s)
  {
  }

  /** The coverages of the worked example select the middle mask; a tie keeps the earlier one. */
  lemma FirstArgMaxExamples()
    ensures FirstArgMax([100, 500, 250]) == 1
    ensures FirstArgMax([300, 700, 700]) == 1
  {
    FirstArgMaxIsTheFirstMax([100, 500, 250], 1);
    FirstArgMaxIsTheFirstMax([300, 700, 700], 1);
  }

  /**
   * The mask selection: no candidate, no result; otherwise the index of the first
   * mask of largest area.
   */
  function SelectMask(masks: seq<Mask>): (r: Option<nat>)
    ensures r.None? <==> masks == []
    ensures r.Some? ==> r.value < |masks|
    ensures r.Some? ==> forall k :: 0 <= k < |masks| ==> Area(masks[k]) <= Area(masks[r.value])
    ensures r.Some? ==> forall k :: 0 <= k < r.value ==> Area(masks[k]) < Area(masks[r.value])
  {
    if |masks| == 0 then None
    else
      var areas := Areas(masks);
      var best := FirstArgMax(areas);
      assert forall k :: 0 <= k < |masks| ==> areas[k] == Area(masks[k]);
      Some(best)
  }

  /** `np.where(mask > 0, 255, 0).astype(np.uint8)`: a hard, two-valued alpha map. */
  function Binarise(m: Mask): (r: seq<seq<byte>>)
    ensures |r| == |m| && forall y :: 0 <= y < |m| ==> |r[y]| == |m[y]|
    ensures forall y, x :: 0 <= y < |m| && 0 <= x < |m[y]| ==> r[y][x] == 0 || r[y][x] == 255
    ensures forall y, x :: 0 <= y < |m| && 0 <= x < |m[y]| ==> (r[y][x] == 255 <==> m[y][x] > 0)
  {
    seq(|m|, y requires 0 <= y < |m| =>
      seq(|m[y]|, x requires 0 <= x < |m[y]| => if m[y][x] > 0 then 255 as byte else 0 as byte))
  }
}
