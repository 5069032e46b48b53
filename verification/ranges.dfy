/**
  Byte ranges of the file: the slice `[offset, offset + size)` a worker owns,
  and the read windows a worker streams.
 */
module Ranges {

  /** A byte range `[offset, offset + size)`; `m_Offset` and `m_Size` of a worker. */
  datatype Range = Range(offset: nat, size: nat) {
    function End(): nat { offset + size }
  }

  /** `rs` covers `[lo, hi)` with consecutive, non-overlapping ranges, in order. */
  ghost predicate Tiles(rs: seq<Range>, lo: nat, hi: nat)
    decreases |rs|
  {
    if |rs| == 0 then lo == hi
    else rs[0].offset == lo && Tiles(rs[1..], rs[0].End(), hi)
  }

  function SumSizes(rs: seq<Range>): nat
    decreases |rs|
  {
    if |rs| == 0 then 0 else rs[0].size + SumSizes(rs[1..])
  }

  /** A tiling of `[lo, hi)` starts at `lo`, ends at `hi` and its sizes add up to the length. */
  lemma {:induction false} TilesCover(rs: seq<Range>, lo: nat, hi: nat)
    requires Tiles(rs, lo, hi)
    ensures lo <= hi
    ensures SumSizes(rs) == hi - lo
    ensures forall k :: 0 <= k < |rs| ==> lo <= rs[k].offset && rs[k].End() <= hi
    decreases |rs|
  {
    if |rs| > 0 {
      TilesCover(rs[1..], rs[0].End(), hi);
      forall k | 0 < k < |rs|
        ensures lo <= rs[k].offset && rs[k].End() <= hi
      {
        assert rs[k] == rs[1..][k - 1];
      }
    }
  }

  /** Neighbouring ranges of a tiling touch: each starts where the previous one ends. */
  lemma {:induction false} TilesContiguous(rs: seq<Range>, lo: nat, hi: nat)
    requires Tiles(rs, lo, hi)
    ensures forall k :: 0 <= k < |rs| - 1 ==> rs[k].End() == rs[k + 1].offset
    decreases |rs|
  {
    if |rs| > 1 {
      TilesContiguous(rs[1..], rs[0].End(), hi);
      forall k | 0 < k < |rs| - 1
        ensures rs[k].End() == rs[k + 1].offset
      {
        assert rs[k] == rs[1..][k - 1] && rs[k + 1] == rs[1..][k];
      }
    }
  }

  /** The first range of a non-empty tiling starts at `lo` and the last one ends at `hi`. */
  lemma {:induction false} TilesEnds(rs: seq<Range>, lo: nat, hi: nat)
    requires Tiles(rs, lo, hi) && 0 < |rs|
    ensures rs[0].offset == lo
    ensures rs[|rs| - 1].End() == hi
    decreases |rs|
  {
    if |rs| > 1 {
      TilesEnds(rs[1..], rs[0].End(), hi);
      assert rs[|rs| - 1] == rs[1..][|rs| - 2];
    }
  }

  /** Appending a range that starts where a tiling stops extends the tiling. */
  lemma {:induction false} TilesSnoc(rs: seq<Range>, lo: nat, mid: nat, w: Range)
    requires Tiles(rs, lo, mid)
    requires w.offset == mid
    ensures Tiles(rs + [w], lo, w.End())
    decreases |rs|
  {
    if |rs| == 0 {
      assert (rs + [w])[1..] == [];
    } else {
      TilesSnoc(rs[1..], rs[0].End(), mid, w);
      assert (rs + [w])[1..] == rs[1..] + [w];
    }
  }
}
