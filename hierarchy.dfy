/**
 * The hierarchical index: one flat index of distinct labels per depth and,
 * per depth, an indexer of positions into it. Row p of the hierarchy is the
 * tuple of indices[d].labels[indexers[d][p]] over the depths d.
 */
module IndexHierarchy {
  import opened Labels
  import opened Errors
  import opened FlatIndex

  /** An IndexHierarchy (isStatic) or IndexHierarchyGO value; the block store is derived as Rows. */
  datatype Hierarchy = Hierarchy(indices: seq<Index>, indexers: seq<seq<nat>>, isStatic: bool)

  /** The number of rows: the length of the first indexer. */
  function Size(indexers: seq<seq<nat>>): nat {
    if indexers == [] then 0 else |indexers[0]|
  }

  /** Every depth holds the same number of rows. */
  predicate Rect(indexers: seq<seq<nat>>) {
    forall d :: 0 <= d < |indexers| ==> |indexers[d]| == Size(indexers)
  }

  /** Every indexer entry addresses a label of its depth. */
  predicate InRange(indices: seq<Index>, indexers: seq<seq<nat>>) {
    && |indices| == |indexers|
    && forall d, p :: 0 <= d < |indexers| && 0 <= p < |indexers[d]| ==> indexers[d][p] < |indices[d].labels|
  }

  /** The positions of row p, one per depth. */
  function Tuple(indexers: seq<seq<nat>>, p: nat): (t: seq<nat>)
    requires Rect(indexers) && p < Size(indexers)
    ensures |t| == |indexers| && forall d :: 0 <= d < |t| ==> t[d] == indexers[d][p]
  {
    seq(|indexers|, d requires 0 <= d < |indexers| => indexers[d][p])
  }

  function Tuples(indexers: seq<seq<nat>>): (ts: seq<seq<nat>>)
    requires Rect(indexers)
    ensures |ts| == Size(indexers)
  {
    seq(Size(indexers), p requires 0 <= p < Size(indexers) => Tuple(indexers, p))
  }

  /** The labels of row p, one per depth. */
  function Row(indices: seq<Index>, indexers: seq<seq<nat>>, p: nat): (row: seq<Label>)
    requires Rect(indexers) && InRange(indices, indexers) && p < Size(indexers)
    ensures |row| == |indices|
  {
    seq(|indices|, d requires 0 <= d < |indices| => indices[d].labels[indexers[d][p]])
  }

  /** The block store: every row, in order. */
  function Rows(indices: seq<Index>, indexers: seq<seq<nat>>): (rows: seq<seq<Label>>)
    requires Rect(indexers) && InRange(indices, indexers)
    ensures |rows| == Size(indexers)
    ensures forall p :: 0 <= p < |rows| ==> |rows[p]| == |indices|
  {
    seq(Size(indexers), p requires 0 <= p < Size(indexers) => Row(indices, indexers, p))
  }

  predicate AllValid(indices: seq<Index>, isStatic: bool) {
    forall d :: 0 <= d < |indices| ==> Valid(indices[d]) && indices[d].isStatic == isStatic
  }

  /** What the initializer establishes: two depths or more, a rectangle of in-range positions, no repeated row. */
  predicate WellFormed(h: Hierarchy) {
    && |h.indices| >= 2
    && Rect(h.indexers)
    && InRange(h.indices, h.indexers)
    && AllValid(h.indices, h.isStatic)
    && Distinct(Tuples(h.indexers))
  }

  function Depth(h: Hierarchy): nat {
    |h.indices|
  }

  function Len(h: Hierarchy): nat {
    Size(h.indexers)
  }

  function Values(h: Hierarchy): (rows: seq<seq<Label>>)
    requires WellFormed(h)
    ensures |rows| == Len(h)
  {
    Rows(h.indices, h.indexers)
  }

  /** With distinct labels at every depth, two rows agree exactly when their positions do. */
  lemma RowsDistinctIffTuples(indices: seq<Index>, indexers: seq<seq<nat>>, isStatic: bool)
    requires Rect(indexers) && InRange(indices, indexers) && AllValid(indices, isStatic)
    ensures Distinct(Rows(indices, indexers)) <==> Distinct(Tuples(indexers))
  {
    var rows, ts := Rows(indices, indexers), Tuples(indexers);
    forall p, q | 0 <= p < q < Size(indexers)
      ensures rows[p] == rows[q] <==> ts[p] == ts[q]
    {
      if rows[p] == rows[q] {
        forall d | 0 <= d < |indexers| ensures ts[p][d] == ts[q][d] {
          assert rows[p][d] == rows[q][d];
          assert Distinct(indices[d].labels);
        }
      }
    }
  }

  //---------------------------------------------------------------------------
  // initializer

  /**
   * _ensure_uniqueness: never fails for fewer than two rows; otherwise fails
   * exactly when two rows share their tuple of positions, reporting how many
   * rows repeat an earlier one and the values of the first that does.
   */
  function EnsureUniqueness(indexers: seq<seq<nat>>, values: seq<seq<Label>>): (r: Outcome)
    requires Rect(indexers) && |values| == Size(indexers)
    ensures r.Pass? <==> Distinct(Tuples(indexers))
    ensures r.Fail? ==>
      exists p ::
        && 0 <= p < |values|
        && Tuples(indexers)[p] in Tuples(indexers)[..p]
        && Distinct(Tuples(indexers)[..p])
        && r.error == NonUniqueRows(Size(indexers) - |FirstSeen(Tuples(indexers))|, values[p])
    ensures r.Fail? ==> r.error.count >= 1
  {
    var ts := Tuples(indexers);
    FirstRepeatSpec(ts);
    RepeatCountIsTotalMinusDistinct(ts);
    if Size(indexers) <= 1 then Pass
    else
      match FirstRepeat(ts)
      case None => Pass
      case Some(p) =>
        RepeatCountPositive(ts);
        Fail(NonUniqueRows(RepeatCount(ts), values[p]))
  }

  /**
   * The checks the block store makes while the rows are materialised, depth
   * by depth from `d`: an out-of-range position raises IndexError, a depth
   * of another length ErrorInitTypeBlocks.
   */
  function BlocksError(indices: seq<Index>, indexers: seq<seq<nat>>, d: nat): (r: Option<Error>)
    requires |indices| == |indexers| && d <= |indexers|
    ensures r.None? <==>
      && (forall k :: d <= k < |indexers| ==> |indexers[k]| == Size(indexers))
      && (forall k, p :: d <= k < |indexers| && 0 <= p < |indexers[k]| ==> indexers[k][p] < |indices[k].labels|)
    decreases |indexers| - d
  {
    if d == |indexers| then None
    else if exists p :: 0 <= p < |indexers[d]| && indexers[d][p] >= |indices[d].labels| then Some(IndexError)
    else if |indexers[d]| != Size(indexers) then Some(ErrorInitTypeBlocks)
    else BlocksError(indices, indexers, d + 1)
  }

  /**
   * IndexHierarchy.__init__ from indices and indexers: at least two depths,
   * every index converted to the hierarchy's mutability, the rows
   * materialised, and then uniqueness checked.
   */
  function New(indices: seq<Index>, indexers: seq<seq<nat>>, isStatic: bool): (r: Result<Hierarchy>)
    requires |indexers| == |indices|
    requires forall d :: 0 <= d < |indices| ==> Valid(indices[d])
    ensures r.Ok? <==> |indices| >= 2 && Rect(indexers) && InRange(indices, indexers) && Distinct(Tuples(indexers))
    ensures |indices| <= 1 ==> r == Err(ErrorInitIndex(MsgTwoLevels))
    ensures r.Ok? ==> WellFormed(r.value) && r.value.indexers == indexers && r.value.isStatic == isStatic
    ensures r.Ok? ==> forall d :: 0 <= d < |indices| ==> r.value.indices[d].labels == indices[d].labels
    ensures r.Ok? ==> Values(r.value) == Rows(indices, indexers)
  {
    if |indices| <= 1 then Err(ErrorInitIndex(MsgTwoLevels))
    else
      var filtered := seq(|indices|, d requires 0 <= d < |indices| => MutableImmutableFilter(isStatic, indices[d]));
      match BlocksError(filtered, indexers, 0)
      case Some(e) => Err(e)
      case None =>
        match EnsureUniqueness(indexers, Rows(filtered, indexers))
        case Fail(e) => Err(e)
        case Pass =>
          RowsSameLabels(filtered, indices, indexers);
          Ok(Hierarchy(filtered, indexers, isStatic))
  }

  /** Rows depend on the labels of each depth only. */
  lemma RowsSameLabels(a: seq<Index>, b: seq<Index>, indexers: seq<seq<nat>>)
    requires Rect(indexers) && InRange(a, indexers) && |b| == |a|
    requires forall d :: 0 <= d < |a| ==> a[d].labels == b[d].labels
    ensures InRange(b, indexers) && Rows(a, indexers) == Rows(b, indexers)
  {
    assert InRange(b, indexers) by {
      forall d, p | 0 <= d < |indexers| && 0 <= p < |indexers[d]| ensures indexers[d][p] < |b[d].labels| {
        assert a[d].labels == b[d].labels;
      }
    }
    forall p | 0 <= p < Size(indexers) ensures Rows(a, indexers)[p] == Rows(b, indexers)[p] {
      forall d | 0 <= d < |a| ensures Rows(a, indexers)[p][d] == Rows(b, indexers)[p][d] {
        assert a[d].labels == b[d].labels;
      }
    }
  }

  /** __init__ given another hierarchy: the same rows, the indices converted to this mutability. */
  function Copy(h: Hierarchy, isStatic: bool): (r: Hierarchy)
    requires WellFormed(h)
    ensures WellFormed(r) && r.isStatic == isStatic && Values(r) == Values(h)
  {
    var filtered := seq(|h.indices|, d requires 0 <= d < |h.indices| => MutableImmutableFilter(isStatic, h.indices[d]));
    var r := Hierarchy(filtered, h.indexers, isStatic);
    assert Values(r) == Values(h) by {
      forall p | 0 <= p < Len(h) ensures Values(r)[p] == Values(h)[p] {
      }
    }
    r
  }

  /** A flat index of no labels at each of `depth` depths, as _from_empty builds them. */
  function EmptyIndices(depth: nat, isStatic: bool): (r: seq<Index>)
    ensures |r| == depth && AllValid(r, isStatic)
    ensures forall d :: 0 <= d < depth ==> r[d].labels == []
  {
    seq(depth, _ => Empty(isStatic))
  }

  /**
   * _from_empty for labels that are not a 2-D array: the depth must be given
   * as an integer, and a depth of one is refused; the initializer refuses
   * fewer than two depths.
   */
  function FromEmpty(depthReference: Option<int>, isStatic: bool): (r: Result<Hierarchy>)
    ensures depthReference.None? ==> r == Err(ErrorInitIndex(MsgDepthReference))
    ensures depthReference == Some(1) ==> r == Err(ErrorInitIndex(MsgOneLevel))
    ensures r.Ok? <==> depthReference.Some? && depthReference.value >= 2
    ensures r.Ok? ==> WellFormed(r.value) && Len(r.value) == 0 && Depth(r.value) == depthReference.value
    ensures r.Ok? ==> forall d :: 0 <= d < Depth(r.value) ==> r.value.indices[d].labels == []
  {
    match depthReference
    case None => Err(ErrorInitIndex(MsgDepthReference))
    case Some(depth) =>
      if depth == 1 then Err(ErrorInitIndex(MsgOneLevel))
      else
        var n: nat := if depth < 0 then 0 else depth;
        New(EmptyIndices(n, isStatic), seq(n, _ => []), isStatic)
  }

  //---------------------------------------------------------------------------
  // adding and dropping depths

  /**
   * level_add: a new outermost depth holding the one label `level`, with an
   * all-zero indexer; every row gains `level` in front.
   */
  function LevelAdd(h: Hierarchy, level: Label): (r: Hierarchy)
    requires WellFormed(h)
    ensures WellFormed(r) && Depth(r) == Depth(h) + 1 && Len(r) == Len(h) && r.isStatic == h.isStatic
    ensures r.indexers[0] == seq(Len(h), _ => 0)
    ensures forall p :: 0 <= p < Len(h) ==> Values(r)[p] == [level] + Values(h)[p]
  {
    var r := Hierarchy([FromDistinct([level], h.isStatic)] + h.indices, [seq(Len(h), _ => 0)] + h.indexers, h.isStatic);
    PrependShape(h, r);
    PrependDistinct(h, r);
    PrependRows(h, r, level);
    r
  }

  predicate Prepends(h: Hierarchy, r: Hierarchy) {
    && |r.indices| == |h.indices| + 1 && |r.indexers| == |h.indexers| + 1
    && r.indices[1..] == h.indices && r.indexers[1..] == h.indexers
    && r.isStatic == h.isStatic
  }

  lemma PrependShape(h: Hierarchy, r: Hierarchy)
    requires WellFormed(h) && Prepends(h, r)
    requires r.indexers[0] == seq(Len(h), _ => 0) && |r.indices[0].labels| == 1
    requires Valid(r.indices[0]) && r.indices[0].isStatic == h.isStatic
    ensures Rect(r.indexers) && InRange(r.indices, r.indexers) && AllValid(r.indices, r.isStatic)
    ensures Size(r.indexers) == Len(h)
  {
    forall d | 1 <= d < |r.indexers| ensures r.indexers[d] == h.indexers[d - 1] && r.indices[d] == h.indices[d - 1] {
      assert r.indexers[1..][d - 1] == r.indexers[d];
      assert r.indices[1..][d - 1] == r.indices[d];
    }
  }

  lemma PrependDistinct(h: Hierarchy, r: Hierarchy)
    requires WellFormed(h) && Prepends(h, r) && Rect(r.indexers) && Size(r.indexers) == Len(h)
    ensures Distinct(Tuples(r.indexers))
  {
    forall p, q | 0 <= p < q < Len(h) ensures Tuples(r.indexers)[p] != Tuples(r.indexers)[q] {
      assert Tuples(r.indexers)[p][1..] == Tuples(h.indexers)[p];
      assert Tuples(r.indexers)[q][1..] == Tuples(h.indexers)[q];
    }
  }

  lemma PrependRows(h: Hierarchy, r: Hierarchy, level: Label)
    requires WellFormed(h) && WellFormed(r) && Prepends(h, r) && Size(r.indexers) == Len(h)
    requires r.indices[0].labels == [level] && r.indexers[0] == seq(Len(h), _ => 0)
    ensures forall p :: 0 <= p < Len(h) ==> Values(r)[p] == [level] + Values(h)[p]
  {
    forall p | 0 <= p < Len(h) ensures Values(r)[p] == [level] + Values(h)[p] {
      forall d | 1 <= d < Depth(r) ensures Values(r)[p][d] == Values(h)[p][d - 1] {
        assert r.indexers[1..][d - 1] == r.indexers[d];
        assert r.indices[1..][d - 1] == r.indices[d];
      }
    }
  }

  /** What level_drop returns: a flat index when one depth remains, a hierarchy otherwise. */
  datatype Dropped = Flat(index: Index) | Nested(hierarchy: Hierarchy)

  /** The labels of every row at depth d: the block store's column d. */
  function Column(h: Hierarchy, d: nat): (c: seq<Label>)
    requires WellFormed(h) && d < Depth(h)
    ensures |c| == Len(h) && forall p :: 0 <= p < Len(h) ==> c[p] == Values(h)[p][d]
  {
    seq(Len(h), p requires 0 <= p < Len(h) => Values(h)[p][d])
  }

  /** The depths [lo, hi) of h, through the initializer. */
  function KeepDepths(h: Hierarchy, lo: nat, hi: nat): (r: Result<Hierarchy>)
    requires WellFormed(h) && lo + 2 <= hi <= Depth(h)
    ensures r.Ok? <==> Distinct(Tuples(h.indexers[lo..hi]))
    ensures r.Ok? ==> WellFormed(r.value) && Depth(r.value) == hi - lo && Len(r.value) == Len(h)
    ensures r.Ok? ==> forall p :: 0 <= p < Len(h) ==> Values(r.value)[p] == Values(h)[p][lo..hi]
  {
    var ixs := h.indexers[lo..hi];
    var ins := h.indices[lo..hi];
    assert Size(ixs) == Len(h) && Rect(ixs);
    assert InRange(ins, ixs) by {
      forall d, p | 0 <= d < |ixs| && 0 <= p < |ixs[d]| ensures ixs[d][p] < |ins[d].labels| {
        assert ixs[d] == h.indexers[lo + d];
      }
    }
    assert forall p :: 0 <= p < Len(h) ==> Rows(ins, ixs)[p] == Values(h)[p][lo..hi] by {
      forall p | 0 <= p < Len(h) ensures Rows(ins, ixs)[p] == Values(h)[p][lo..hi] {
        forall d | 0 <= d < hi - lo ensures Rows(ins, ixs)[p][d] == Values(h)[p][lo + d] {
          assert ins[d] == h.indices[lo + d] && ixs[d] == h.indexers[lo + d];
        }
      }
    }
    New(ins, ixs, h.isStatic)
  }

  /** A column as a flat index of its values; a repeated value is refused as by Index.__init__. */
  function FlatColumn(h: Hierarchy, d: nat): (r: Result<Dropped>)
    requires WellFormed(h) && d < Depth(h)
    ensures r.Ok? <==> Distinct(Column(h, d))
    ensures r.Ok? ==> r.value.Flat? && Valid(r.value.index) && r.value.index.labels == Column(h, d)
    ensures r.Err? ==> r.error == NonUniqueError(Column(h, d))
  {
    match FlatIndex.New(FromLabels(Column(h, d)), false, h.isStatic)
    case Ok(ix) => Ok(Flat(ix))
    case Err(e) => Err(e)
  }

  function AsNested(r: Result<Hierarchy>): Result<Dropped> {
    match r
    case Ok(k) => Ok(Nested(k))
    case Err(e) => Err(e)
  }

  /**
   * level_drop: a negative count removes that many inner depths, a positive
   * count that many outer depths; when one depth or none would remain, the
   * outermost (negative) or innermost (positive) column becomes a flat index
   * of its values. A count of zero is not handled.
   */
  function LevelDrop(h: Hierarchy, count: int): (r: Result<Dropped>)
    requires WellFormed(h)
    ensures count == 0 ==> r == Err(NotImplementedError)
    ensures count < 0 && count <= 1 - Depth(h) ==> r == FlatColumn(h, 0)
    ensures count > 0 && count >= Depth(h) - 1 ==> r == FlatColumn(h, Depth(h) - 1)
    ensures 1 - Depth(h) < count < 0 ==> r == AsNested(KeepDepths(h, 0, Depth(h) + count))
    ensures 0 < count < Depth(h) - 1 ==> r == AsNested(KeepDepths(h, count, Depth(h)))
  {
    var depth := Depth(h);
    if count < 0 then
      if count <= 1 - depth then FlatColumn(h, 0)
      else AsNested(KeepDepths(h, 0, depth + count))
    else if count > 0 then
      if count >= depth - 1 then FlatColumn(h, depth - 1)
      else AsNested(KeepDepths(h, count, depth))
    else Err(NotImplementedError)
  }

  /**
   * Dropping depths keeps every row's remaining labels in place, and fails
   * exactly when two rows agree on the depths kept.
   */
  lemma LevelDropKeepsRows(h: Hierarchy, count: int)
    requires WellFormed(h) && 1 - Depth(h) < count < Depth(h) - 1 && count != 0
    ensures var kept := if count < 0 then h.indexers[..Depth(h) + count] else h.indexers[count..];
      Rect(kept) && (LevelDrop(h, count).Ok? <==> Distinct(Tuples(kept)))
    ensures LevelDrop(h, count).Ok? ==>
      && LevelDrop(h, count).value.Nested?
      && WellFormed(LevelDrop(h, count).value.hierarchy)
      && Len(LevelDrop(h, count).value.hierarchy) == Len(h)
      && forall p :: 0 <= p < Len(h) ==>
        Values(LevelDrop(h, count).value.hierarchy)[p] ==
          if count < 0 then Values(h)[p][..Depth(h) + count] else Values(h)[p][count..]
  {
    var depth := Depth(h);
    if count < 0 {
      assert h.indexers[0..depth + count] == h.indexers[..depth + count];
      assert forall p :: 0 <= p < Len(h) ==> Values(h)[p][0..depth + count] == Values(h)[p][..depth + count];
    } else {
      assert h.indexers[count..depth] == h.indexers[count..];
      assert forall p :: 0 <= p < Len(h) ==> Values(h)[p][count..depth] == Values(h)[p][count..];
    }
  }
}
