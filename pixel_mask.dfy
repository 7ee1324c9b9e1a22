/**
 * The pixel mask of a map: the polygon's vertices in image space, in order.
 * The edits follow JavaScript's `Array.prototype.splice` and index assignment.
 */
module PixelMask {

  /** A vertex `[x, y]`; the store never computes with the coordinates. */
  datatype Point = Point(x: int, y: int)

  /**
   * Where `splice(index, ...)` starts on an array of length `len`: a negative
   * index counts from the end, and the result is clamped to `0..len`.
   */
  function SpliceStart(index: int, len: nat): (j: nat)
    ensures j <= len
    ensures 0 <= index <= len ==> j == index
    ensures index > len ==> j == len
    ensures index < 0 ==> j == if len + index < 0 then 0 else len + index
  {
    if index < 0 then (if len + index < 0 then 0 else len + index)
    else if index > len then len
    else index
  }

  /** `mask.splice(index, 0, p)`: `p` lands at the start position, later points shift right. */
  function InsertPoint(mask: seq<Point>, index: int, p: Point): (r: seq<Point>)
    ensures |r| == |mask| + 1
    ensures var j := SpliceStart(index, |mask|);
      && r[j] == p
      && (forall k :: 0 <= k < j ==> r[k] == mask[k])
      && (forall k :: j <= k < |mask| ==> r[k + 1] == mask[k])
  {
    var j := SpliceStart(index, |mask|);
    mask[..j] + [p] + mask[j..]
  }

  /** `mask.splice(index, 1)`: the point at the start position goes, later points shift left; past the end nothing changes. */
  function RemovePoint(mask: seq<Point>, index: int): (r: seq<Point>)
    ensures var j := SpliceStart(index, |mask|);
      if j < |mask| then
        && |r| == |mask| - 1
        && (forall k :: 0 <= k < j ==> r[k] == mask[k])
        && (forall k :: j <= k < |r| ==> r[k] == mask[k + 1])
      else r == mask
  {
    var j := SpliceStart(index, |mask|);
    if j < |mask| then mask[..j] + mask[j + 1..] else mask
  }

  /**
   * `mask[index] = p` for an index within the array or just past its end
   * (which appends `p`).
   */
  function ReplacePoint(mask: seq<Point>, index: int, p: Point): (r: seq<Point>)
    requires 0 <= index <= |mask|
    ensures |r| >= |mask|
    ensures index < |mask| ==> |r| == |mask| && r[index] == p
    ensures forall k :: 0 <= k < |mask| && k != index ==> r[k] == mask[k]
    ensures index == |mask| ==> r == mask + [p]
  {
    if index < |mask| then mask[index := p] else mask + [p]
  }

  /** Removing at the index just inserted at gives back the mask. */
  lemma {:induction false} RemoveAfterInsert(mask: seq<Point>, index: int, p: Point)
    requires 0 <= index <= |mask|
    ensures RemovePoint(InsertPoint(mask, index, p), index) == mask
  {
    var r := InsertPoint(mask, index, p);
    assert SpliceStart(index, |r|) == index;
    assert r[..index] == mask[..index];
    assert r[index + 1..] == mask[index..];
    assert mask[..index] + mask[index..] == mask;
  }

  /** Inserting the removed point back where it was gives back the mask. */
  lemma {:induction false} InsertAfterRemove(mask: seq<Point>, index: int)
    requires 0 <= index < |mask|
    ensures InsertPoint(RemovePoint(mask, index), index, mask[index]) == mask
  {
    var r := RemovePoint(mask, index);
    assert SpliceStart(index, |r|) == index;
    assert r[..index] == mask[..index];
    assert r[index..] == mask[index + 1..];
    assert mask[..index] + [mask[index]] + mask[index + 1..] == mask;
  }

  /**
   * Past the end the two splices do not undo each other: the insert appends,
   * and the remove at the same index finds nothing to take out.
   */
  lemma RemoveAfterInsertPastEnd(mask: seq<Point>, p: Point)
    ensures RemovePoint(InsertPoint(mask, |mask| + 1, p), |mask| + 1) == mask + [p]
  {
  }

  /** Replacing a point by itself changes nothing, and replacing twice keeps only the last point. */
  lemma ReplaceLastWins(mask: seq<Point>, index: int, p: Point, q: Point)
    requires 0 <= index < |mask|
    ensures ReplacePoint(mask, index, mask[index]) == mask
    ensures ReplacePoint(ReplacePoint(mask, index, p), index, q) == ReplacePoint(mask, index, q)
  {
  }
}
