/**
 * Hierarchies derived from a hierarchy: selection of rows by position
 * (_extract_iloc) and relabelling of depths (relabel_at_depth).
 */
module HierarchyOps {
  import opened Labels
  import opened Errors
  import opened FlatIndex
  import opened IndexHierarchy

  //---------------------------------------------------------------------------
  // selection by position

  /** The distinct values of `s` below `bound`, ascending: the first result of ufunc_unique1d_indexer. */
  function SortedUnique(s: seq<nat>, bound: nat): (u: seq<nat>)
    ensures |u| <= bound
  {
    MaskPositions(seq(bound, v => v in s))
  }

  lemma SortedUniqueSpec(s: seq<nat>, bound: nat)
    ensures forall v :: v in SortedUnique(s, bound) <==> v in s && v < bound
    ensures Distinct(SortedUnique(s, bound))
  {
    var mask := seq(bound, v => v in s);
    MaskPositionsSpec(mask);
    var u := SortedUnique(s, bound);
    forall i, j | 0 <= i < j < |u| ensures u[i] != u[j] {
    }
  }

  /** One depth of a selection: its index keeps the labels the rows use, in position order. */
  function ExtractDepth(ix: Index, indexer: seq<nat>, keys: seq<nat>): (r: (Index, seq<nat>))
    requires Valid(ix)
    requires forall p :: 0 <= p < |indexer| ==> indexer[p] < |ix.labels|
    requires forall k :: 0 <= k < |keys| ==> keys[k] < |indexer|
    ensures Valid(r.0) && r.0.isStatic == ix.isStatic && |r.1| == |keys|
    ensures forall k :: 0 <= k < |keys| ==> r.1[k] < |r.0.labels| && r.0.labels[r.1[k]] == ix.labels[indexer[keys[k]]]
  {
    var sel := seq(|keys|, k requires 0 <= k < |keys| => indexer[keys[k]]);
    var u := SortedUnique(sel, |ix.labels|);
    SortedUniqueSpec(sel, |ix.labels|);
    assert forall i :: 0 <= i < |u| ==> u[i] in u;
    var labels := seq(|u|, i requires 0 <= i < |u| => ix.labels[u[i]]);
    assert Distinct(labels) by {
      forall i, j | 0 <= i < j < |u| ensures labels[i] != labels[j] {
        assert u[i] != u[j];
        assert ix.labels[u[i]] != ix.labels[u[j]];
      }
    }
    assert forall k :: 0 <= k < |keys| ==> sel[k] in u by {
      forall k | 0 <= k < |keys| ensures sel[k] in u {
        assert sel[k] in sel;
      }
    }
    var newIndexer := seq(|keys|, k requires 0 <= k < |keys| => IndexOf(u, sel[k]));
    (FromDistinct(labels, ix.isStatic), newIndexer)
  }

  /** A position NumPy accepts for an axis of length `n`: -n up to n-1. */
  predicate InAxis(key: int, n: nat) {
    -(n as int) <= key < n
  }

  /** Positions as NumPy reads them: a negative position counts from the end. */
  function Normalized(keys: seq<int>, n: nat): (ps: seq<nat>)
    requires forall k :: 0 <= k < |keys| ==> InAxis(keys[k], n)
    ensures |ps| == |keys|
    ensures forall k :: 0 <= k < |keys| ==> ps[k] < n && ps[k] as int == (if keys[k] < 0 then n + keys[k] else keys[k])
  {
    seq(|keys|, k requires 0 <= k < |keys| && InAxis(keys[k], n) => (if keys[k] < 0 then n + keys[k] else keys[k]) as nat)
  }

  /** A key of _extract_iloc that selects rows: none, a list of positions, a slice or a Boolean mask. */
  datatype RowsKey =
    | AllRows
    | RowList(positions: seq<int>)
    | RowSlice(start: Option<int>, stop: Option<int>, step: Option<int>)
    | RowMask(mask: seq<bool>)

  /**
   * The hierarchy of the rows at `keys`, in key order: each depth re-indexed
   * to the labels the selection uses, then built by the initializer, which
   * refuses a repeated row.
   */
  function ExtractPositions(h: Hierarchy, keys: seq<nat>): (r: Result<Hierarchy>)
    requires WellFormed(h) && forall k :: 0 <= k < |keys| ==> keys[k] < Len(h)
    ensures r.Ok? <==> Distinct(keys)
    ensures r.Ok? ==> WellFormed(r.value) && Len(r.value) == |keys| && Depth(r.value) == Depth(h)
    ensures r.Ok? ==> forall k :: 0 <= k < |keys| ==> Values(r.value)[k] == Values(h)[keys[k]]
  {
    assert forall d :: 0 <= d < Depth(h) ==> |h.indexers[d]| == Len(h);
    var parts := seq(Depth(h), d requires 0 <= d < Depth(h) => ExtractDepth(h.indices[d], h.indexers[d], keys));
    var indices := seq(Depth(h), d requires 0 <= d < Depth(h) => parts[d].0);
    var indexers := seq(Depth(h), d requires 0 <= d < Depth(h) => parts[d].1);
    ExtractRows(h, keys, indices, indexers);
    IndexHierarchy.New(indices, indexers, h.isStatic)
  }

  /**
   * _extract_iloc with a key that is not a single position. No key copies
   * the hierarchy. A list of positions fails with IndexError on a position
   * outside -n..n-1, and two keys naming the same row are refused by the
   * initializer as a repeated row. A slice selects range(*slice.indices(n)),
   * clipping its bounds and refusing only a zero step. A Boolean mask must
   * have one entry per row and selects its true positions in ascending
   * order. The result holds the selected rows, in selection order.
   */
  function ExtractIloc(h: Hierarchy, key: RowsKey): (r: Result<Hierarchy>)
    requires WellFormed(h)
    ensures key.AllRows? ==> r.Ok? && WellFormed(r.value) && r.value.isStatic == h.isStatic && Values(r.value) == Values(h)
    ensures key.RowList? && (exists k :: 0 <= k < |key.positions| && !InAxis(key.positions[k], Len(h))) ==> r == Err(IndexError)
    ensures key.RowList? ==>
      (r.Ok? <==> (forall k :: 0 <= k < |key.positions| ==> InAxis(key.positions[k], Len(h))) && Distinct(Normalized(key.positions, Len(h))))
    ensures key.RowList? && r.Ok? ==> WellFormed(r.value) && Len(r.value) == |key.positions| && Depth(r.value) == Depth(h)
    ensures key.RowList? && r.Ok? ==> forall k :: 0 <= k < |key.positions| ==>
      Values(r.value)[k] == Values(h)[if key.positions[k] < 0 then Len(h) + key.positions[k] else key.positions[k]]
    ensures key.RowSlice? && StepOr1(key.step) == 0 ==> r == Err(ValueError(MsgSliceStep))
    ensures key.RowSlice? && StepOr1(key.step) != 0 ==>
      var ps := SlicePositions(Len(h), key.start, key.stop, StepOr1(key.step));
      && r.Ok? && WellFormed(r.value) && Depth(r.value) == Depth(h) && Len(r.value) == |ps|
      && forall k :: 0 <= k < |ps| ==> Values(r.value)[k] == Values(h)[ps[k]]
    ensures key.RowMask? && |key.mask| != Len(h) ==> r == Err(IndexError)
    ensures key.RowMask? && |key.mask| == Len(h) ==>
      var ps := MaskPositions(key.mask);
      && r.Ok? && WellFormed(r.value) && Depth(r.value) == Depth(h) && Len(r.value) == |ps|
      && forall k :: 0 <= k < |ps| ==> Values(r.value)[k] == Values(h)[ps[k]]
  {
    match key
    case AllRows => Ok(Copy(h, h.isStatic))
    case RowList(keys) =>
      if exists k :: 0 <= k < |keys| && !InAxis(keys[k], Len(h)) then Err(IndexError)
      else ExtractPositions(h, Normalized(keys, Len(h)))
    case RowSlice(start, stop, step) =>
      if StepOr1(step) == 0 then Err(ValueError(MsgSliceStep))
      else ExtractPositions(h, SlicePositions(Len(h), start, stop, StepOr1(step)))
    case RowMask(mask) =>
      if |mask| != Len(h) then Err(IndexError)
      else
        MaskPositionsSpec(mask);
        ExtractPositions(h, MaskPositions(mask))
  }

  /** The whole slice `[:]` selects every row, in order. */
  lemma ExtractWholeSlice(h: Hierarchy)
    requires WellFormed(h)
    ensures ExtractIloc(h, RowSlice(None, None, None)).Ok?
    ensures Values(ExtractIloc(h, RowSlice(None, None, None)).value) == Values(h)
  {
    SliceWhole(Len(h));
  }

  lemma ExtractRows(h: Hierarchy, keys: seq<nat>, indices: seq<Index>, indexers: seq<seq<nat>>)
    requires WellFormed(h) && forall k :: 0 <= k < |keys| ==> keys[k] < Len(h)
    requires |indices| == |indexers| == Depth(h)
    requires forall d :: 0 <= d < Depth(h) ==> Valid(indices[d]) && indices[d].isStatic == h.isStatic && |indexers[d]| == |keys|
    requires forall d, k :: 0 <= d < Depth(h) && 0 <= k < |keys| ==> indexers[d][k] < |indices[d].labels|
    requires forall d, k :: 0 <= d < Depth(h) && 0 <= k < |keys| ==>
      indexers[d][k] < |indices[d].labels| && indices[d].labels[indexers[d][k]] == Values(h)[keys[k]][d]
    ensures Rect(indexers) && InRange(indices, indexers) && Size(indexers) == |keys|
    ensures Distinct(Tuples(indexers)) <==> Distinct(keys)
    ensures forall k :: 0 <= k < |keys| ==> Rows(indices, indexers)[k] == Values(h)[keys[k]]
  {
    assert Size(indexers) == |keys|;
    assert InRange(indices, indexers) by {
      forall d, k | 0 <= d < |indexers| && 0 <= k < |indexers[d]| ensures indexers[d][k] < |indices[d].labels| {
        assert 0 <= d < Depth(h);
        assert k < |keys|;
      }
    }
    var rows := Rows(indices, indexers);
    forall k | 0 <= k < |keys| ensures rows[k] == Values(h)[keys[k]] {
    }
    RowsDistinctIffTuples(indices, indexers, h.isStatic);
    RowsDistinctIffTuples(h.indices, h.indexers, h.isStatic);
    if Distinct(keys) {
      forall i, j | 0 <= i < j < |keys| ensures rows[i] != rows[j] {
        assert Values(h)[keys[i]] != Values(h)[keys[j]];
      }
    } else {
      var i, j :| 0 <= i < j < |keys| && keys[i] == keys[j];
      assert rows[i] == rows[j];
    }
  }

  /** _extract_iloc with one position: the row's labels; negative positions count from the end. */
  function ExtractRow(h: Hierarchy, key: int): (r: Result<seq<Label>>)
    requires WellFormed(h)
    ensures r.Ok? <==> -(Len(h) as int) <= key < Len(h)
    ensures r.Ok? && key >= 0 ==> r.value == Values(h)[key]
    ensures r.Ok? && key < 0 ==> r.value == Values(h)[Len(h) + key]
  {
    if 0 <= key < Len(h) then Ok(Values(h)[key])
    else if -(Len(h) as int) <= key < 0 then Ok(Values(h)[Len(h) + key])
    else Err(IndexError)
  }

  //---------------------------------------------------------------------------
  // relabelling depths

  /** A mapper given as a callable, or as a mapping whose absent keys keep their label. */
  datatype Mapper = Callable(f: Label -> Label) | Mapping(m: map<Label, Label>)

  /** get_new_label. */
  function NewLabel(mapper: Mapper, v: Label): Label {
    match mapper
    case Callable(f) => f(v)
    case Mapping(m) => if v in m then m[v] else v
  }

  function Mapped(mapper: Mapper, labels: seq<Label>): (r: seq<Label>)
    ensures |r| == |labels| && forall i :: 0 <= i < |labels| ==> r[i] == NewLabel(mapper, labels[i])
  {
    seq(|labels|, i requires 0 <= i < |labels| => NewLabel(mapper, labels[i]))
  }

  /**
   * The depth levels relabel_at_depth accepts: one level, or a non-empty list
   * of distinct levels; each within 0 .. depth-1.
   */
  function TargetDepths(dl: DepthLevel, depth: nat): (r: Result<set<nat>>)
    ensures dl.Levels? && !Distinct(dl.levels) ==> r == Err(ValueError(MsgLevelsUnique))
    ensures dl.Levels? && dl.levels == [] ==> r == Err(ValueError(MsgLevelsNonEmpty))
    ensures r.Ok? <==>
      (dl.Level? && 0 <= dl.level < depth)
      || (dl.Levels? && Distinct(dl.levels) && dl.levels != [] && forall i :: 0 <= i < |dl.levels| ==> 0 <= dl.levels[i] < depth)
    ensures r.Ok? ==> forall d: nat :: d in r.value <==> (if dl.Level? then d == dl.level else d in dl.levels)
  {
    match dl
    case Level(l) =>
      if 0 <= l < depth then Ok({l as nat}) else Err(ValueError(MsgLevelsRange))
    case Levels(ls) =>
      if !Distinct(ls) then Err(ValueError(MsgLevelsUnique))
      else if ls == [] then Err(ValueError(MsgLevelsNonEmpty))
      else if exists i :: 0 <= i < |ls| && !(0 <= ls[i] < depth) then Err(ValueError(MsgLevelsRange))
      else
        assert forall d: int :: d in ls ==> 0 <= d;
        Ok(set d | d in ls :: d as nat)
  }

  /**
   * One relabelled depth: the new labels in first-seen order, each position
   * pointing at its label's new label.
   */
  function RelabelDepth(ix: Index, indexer: seq<nat>, mapper: Mapper): (r: (Index, seq<nat>))
    requires Valid(ix) && forall p :: 0 <= p < |indexer| ==> indexer[p] < |ix.labels|
    ensures Valid(r.0) && r.0.isStatic == ix.isStatic && |r.1| == |indexer|
    ensures forall x :: x in r.0.labels <==> x in Mapped(mapper, ix.labels)
    ensures forall p :: 0 <= p < |indexer| ==>
      r.1[p] < |r.0.labels| && r.0.labels[r.1[p]] == NewLabel(mapper, ix.labels[indexer[p]])
  {
    var mapped := Mapped(mapper, ix.labels);
    var labels := FirstSeen(mapped);
    FirstSeenSpec(mapped);
    assert forall p :: 0 <= p < |indexer| ==> mapped[indexer[p]] in labels;
    (FromDistinct(labels, ix.isStatic),
     seq(|indexer|, p requires 0 <= p < |indexer| => IndexOf(labels, mapped[indexer[p]])))
  }

  /** A row after relabelling: the target depths mapped, the others kept. */
  function MapRow(row: seq<Label>, targets: set<nat>, mapper: Mapper): (r: seq<Label>)
    ensures |r| == |row|
  {
    seq(|row|, d requires 0 <= d < |row| => if d in targets then NewLabel(mapper, row[d]) else row[d])
  }

  /** The rows of h with the target depths mapped. */
  function MappedRows(h: Hierarchy, targets: set<nat>, mapper: Mapper): (rows: seq<seq<Label>>)
    requires WellFormed(h)
    ensures |rows| == Len(h) && forall p :: 0 <= p < Len(h) ==> rows[p] == MapRow(Values(h)[p], targets, mapper)
  {
    seq(Len(h), p requires 0 <= p < Len(h) => MapRow(Values(h)[p], targets, mapper))
  }

  /** The indices and indexers of every depth after relabelling the target depths. */
  function RelabelParts(h: Hierarchy, targets: set<nat>, mapper: Mapper): (r: (seq<Index>, seq<seq<nat>>))
    requires WellFormed(h)
    ensures |r.0| == |r.1| == Depth(h)
    ensures forall d :: 0 <= d < Depth(h) ==> Valid(r.0[d]) && r.0[d].isStatic == h.isStatic && |r.1[d]| == Len(h)
    ensures forall d, p :: 0 <= d < Depth(h) && 0 <= p < Len(h) ==> r.1[d][p] < |r.0[d].labels|
    ensures forall d, p :: 0 <= d < Depth(h) && 0 <= p < Len(h) ==>
      && r.1[d][p] < |r.0[d].labels|
      && r.0[d].labels[r.1[d][p]] == (if d in targets then NewLabel(mapper, Values(h)[p][d]) else Values(h)[p][d])
  {
    var parts := seq(Depth(h), d requires 0 <= d < Depth(h) =>
      if d in targets then RelabelDepth(h.indices[d], h.indexers[d], mapper) else (h.indices[d], h.indexers[d]));
    (seq(Depth(h), d requires 0 <= d < Depth(h) => parts[d].0),
     seq(Depth(h), d requires 0 <= d < Depth(h) => parts[d].1))
  }

  /**
   * relabel_at_depth with a callable or a mapping: every target depth's
   * labels are mapped, the other depths are kept, and the initializer
   * refuses the result if two rows become equal.
   */
  function RelabelAtDepth(h: Hierarchy, mapper: Mapper, dl: DepthLevel): (r: Result<Hierarchy>)
    requires WellFormed(h)
    ensures TargetDepths(dl, Depth(h)).Err? ==> r == Err(TargetDepths(dl, Depth(h)).error)
    ensures TargetDepths(dl, Depth(h)).Ok? ==>
      var targets := TargetDepths(dl, Depth(h)).value;
      && (r.Ok? <==> Distinct(MappedRows(h, targets, mapper)))
      && (r.Ok? ==> WellFormed(r.value) && Len(r.value) == Len(h) && Depth(r.value) == Depth(h))
      && (r.Ok? ==> Values(r.value) == MappedRows(h, targets, mapper))
  {
    match TargetDepths(dl, Depth(h))
    case Err(e) => Err(e)
    case Ok(targets) =>
      var (indices, indexers) := RelabelParts(h, targets, mapper);
      RelabelRows(h, targets, mapper, indices, indexers);
      IndexHierarchy.New(indices, indexers, h.isStatic)
  }

  lemma RelabelRows(h: Hierarchy, targets: set<nat>, mapper: Mapper, indices: seq<Index>, indexers: seq<seq<nat>>)
    requires WellFormed(h) && |indices| == |indexers| == Depth(h)
    requires forall d :: 0 <= d < Depth(h) ==> Valid(indices[d]) && indices[d].isStatic == h.isStatic && |indexers[d]| == Len(h)
    requires forall d, p :: 0 <= d < Depth(h) && 0 <= p < Len(h) ==> indexers[d][p] < |indices[d].labels|
    requires forall d, p :: 0 <= d < Depth(h) && 0 <= p < Len(h) ==>
      && indexers[d][p] < |indices[d].labels|
      && indices[d].labels[indexers[d][p]] == (if d in targets then NewLabel(mapper, Values(h)[p][d]) else Values(h)[p][d])
    ensures Rect(indexers) && InRange(indices, indexers) && Size(indexers) == Len(h)
    ensures Distinct(Tuples(indexers)) <==> Distinct(MappedRows(h, targets, mapper))
    ensures Rows(indices, indexers) == MappedRows(h, targets, mapper)
  {
    assert Size(indexers) == Len(h);
    assert InRange(indices, indexers) by {
      forall d, p | 0 <= d < |indexers| && 0 <= p < |indexers[d]| ensures indexers[d][p] < |indices[d].labels| {
      }
    }
    var rows := Rows(indices, indexers);
    forall p | 0 <= p < Len(h) ensures rows[p] == MapRow(Values(h)[p], targets, mapper) {
    }
    assert rows == MappedRows(h, targets, mapper);
    RowsDistinctIffTuples(indices, indexers, h.isStatic);
  }

  //---------------------------------------------------------------------------
  // relabel_at_depth as written

  /**
   * The indexer relabel_at_depth writes: only a position whose new label was
   * already taken by an earlier label is remapped; every other position keeps
   * its old value, even when an earlier merge has shifted its label down.
   */
  function RelabelDepthAsWritten(ix: Index, indexer: seq<nat>, mapper: Mapper): (r: (Index, seq<nat>))
    requires Valid(ix) && forall p :: 0 <= p < |indexer| ==> indexer[p] < |ix.labels|
    ensures Valid(r.0) && |r.1| == |indexer|
    ensures r.0.labels == RelabelDepth(ix, indexer, mapper).0.labels
    ensures forall p :: 0 <= p < |indexer| ==>
      var i := indexer[p];
      var mapped := Mapped(mapper, ix.labels);
      r.1[p] == if mapped[i] in mapped[..i] then RelabelDepth(ix, indexer, mapper).1[p] else i
  {
    var mapped := Mapped(mapper, ix.labels);
    var labels := FirstSeen(mapped);
    FirstSeenSpec(mapped);
    assert forall p :: 0 <= p < |indexer| ==> mapped[indexer[p]] in labels;
    (FromDistinct(labels, ix.isStatic),
     seq(|indexer|, p requires 0 <= p < |indexer| =>
       var i := indexer[p];
       if mapped[i] in mapped[..i] then IndexOf(labels, mapped[i]) else i))
  }

  /** relabel_at_depth as written, for one target depth. */
  function RelabelAtDepthAsWritten(h: Hierarchy, mapper: Mapper, depth: nat): (r: Result<Hierarchy>)
    requires WellFormed(h) && depth < Depth(h)
    ensures r.Ok? ==> WellFormed(r.value)
  {
    var (ix, indexer) := RelabelDepthAsWritten(h.indices[depth], h.indexers[depth], mapper);
    IndexHierarchy.New(h.indices[depth := ix], h.indexers[depth := indexer], h.isStatic)
  }

  /** Rows (a, 1), (b, 2), (c, 3). */
  function ThreeRows(): (h: Hierarchy)
    ensures WellFormed(h)
  {
    var outer := FromDistinct([Str("a"), Str("b"), Str("c")], true);
    var inner := FromDistinct([Int(1), Int(2), Int(3)], true);
    var h := Hierarchy([outer, inner], [[0, 1, 2], [0, 1, 2]], true);
    assert Len(h) == 3;
    forall p, q | 0 <= p < q < 3 ensures Tuples(h.indexers)[p] != Tuples(h.indexers)[q] {
      assert Tuples(h.indexers)[p][0] == p && Tuples(h.indexers)[q][0] == q;
    }
    h
  }

  function MergeBIntoA(): Mapper {
    Mapping(map[Str("b") := Str("a")])
  }

  lemma MergedOuterLabels()
    ensures Mapped(MergeBIntoA(), ThreeRows().indices[0].labels) == [Str("a"), Str("a"), Str("c")]
    ensures FirstSeen([Str("a"), Str("a"), Str("c")]) == [Str("a"), Str("c")]
  {
    var a, c := Str("a"), Str("c");
    assert FirstSeen([a]) == [a] by { assert [a][..0] == []; }
    assert FirstSeen([a, a]) == [a] by { assert [a, a][..1] == [a]; }
    assert [a, a, c][..2] == [a, a];
  }

  /**
   * Merging b into a at depth 0 of (a, 1), (b, 2), (c, 3): the written code
   * keeps c at its old position 2 although the new depth holds only a and c,
   * so building the rows fails with IndexError.
   */
  lemma RelabelMergeAsWrittenFails()
    ensures RelabelAtDepthAsWritten(ThreeRows(), MergeBIntoA(), 0) == Err(IndexError)
  {
    var h := ThreeRows();
    MergedOuterLabels();
    var (ix, indexer) := RelabelDepthAsWritten(h.indices[0], h.indexers[0], MergeBIntoA());
    var mapped := Mapped(MergeBIntoA(), h.indices[0].labels);
    assert mapped[..2] == [Str("a"), Str("a")];
    assert indexer[2] == 2;
    assert |ix.labels| == 2;
    var indices, indexers := h.indices[0 := ix], h.indexers[0 := indexer];
    assert indexers[0][2] >= |indices[0].labels|;
    assert BlocksError(indices, indexers, 0) == Some(IndexError);
  }

  lemma ThreeRowsValues()
    ensures Values(ThreeRows()) == [[Str("a"), Int(1)], [Str("b"), Int(2)], [Str("c"), Int(3)]]
  {
    var h := ThreeRows();
    var a, b, c := Str("a"), Str("b"), Str("c");
    assert h.indices[0].labels == [a, b, c] && h.indices[1].labels == [Int(1), Int(2), Int(3)];
    assert Len(h) == 3;
    assert Values(h)[0] == [a, Int(1)] by {
      assert Values(h)[0][0] == h.indices[0].labels[h.indexers[0][0]];
      assert Values(h)[0][1] == h.indices[1].labels[h.indexers[1][0]];
    }
    assert Values(h)[1] == [b, Int(2)] by {
      assert Values(h)[1][0] == h.indices[0].labels[h.indexers[0][1]];
      assert Values(h)[1][1] == h.indices[1].labels[h.indexers[1][1]];
    }
    assert Values(h)[2] == [c, Int(3)] by {
      assert Values(h)[2][0] == h.indices[0].labels[h.indexers[0][2]];
      assert Values(h)[2][1] == h.indices[1].labels[h.indexers[1][2]];
    }
  }

  lemma MergedRows()
    ensures MappedRows(ThreeRows(), {0}, MergeBIntoA()) == [[Str("a"), Int(1)], [Str("a"), Int(2)], [Str("c"), Int(3)]]
  {
    ThreeRowsValues();
    var rows := MappedRows(ThreeRows(), {0}, MergeBIntoA());
    assert |rows| == 3;
    assert rows[0] == MapRow([Str("a"), Int(1)], {0}, MergeBIntoA());
    assert rows[1] == MapRow([Str("b"), Int(2)], {0}, MergeBIntoA());
    assert rows[2] == MapRow([Str("c"), Int(3)], {0}, MergeBIntoA());
    assert MapRow([Str("a"), Int(1)], {0}, MergeBIntoA()) == [Str("a"), Int(1)];
    assert MapRow([Str("b"), Int(2)], {0}, MergeBIntoA()) == [Str("a"), Int(2)];
    assert MapRow([Str("c"), Int(3)], {0}, MergeBIntoA()) == [Str("c"), Int(3)];
  }

  /** The corrected relabelling of the same merge gives (a, 1), (a, 2), (c, 3). */
  lemma RelabelMergeCorrected()
    ensures RelabelAtDepth(ThreeRows(), MergeBIntoA(), Level(0)).Ok?
    ensures Values(RelabelAtDepth(ThreeRows(), MergeBIntoA(), Level(0)).value)
      == [[Str("a"), Int(1)], [Str("a"), Int(2)], [Str("c"), Int(3)]]
  {
    assert TargetDepths(Level(0), 2) == Ok({0});
    MergedRows();
    var rows := [[Str("a"), Int(1)], [Str("a"), Int(2)], [Str("c"), Int(3)]];
    assert Distinct(rows);
  }
}
