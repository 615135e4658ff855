// Selection on an IndexHierarchy: one selector per depth becomes a Boolean
// mask over the rows; the masks of all meaningful depths are combined and the
// rows that pass are returned as a single position or as a list.

module HierarchySelect {
  import opened Labels
  import opened Errors
  import opened FlatIndex
  import opened IndexHierarchy

  const MsgBroadcast := "could not broadcast input array"
  const MsgKeyLength := "Invalid key length"
  const MsgLeafSlices := "slices cannot be used in a leaf selection into an IndexHierarchy"
  const MsgTooManyDepths := "Too many depths specified"

  //---------------------------------------------------------------------------
  // the mask of one depth

  /**
   * `PositionsAllocator.get(stop)[start:]` holds q: the positions below `stop`
   * (none for a negative stop), from `start` on, a negative start counting
   * from the end as a Python slice does.
   */
  predicate InTail(q: int, start: int, stop: int) {
    var n := if stop < 0 then 0 else stop;
    var lo := if start >= 0 then start else if n + start < 0 then 0 else n + start;
    lo <= q < n
  }

  /** `np.arange(start, stop, step)` holds q. */
  predicate InArange(q: int, start: int, stop: int, step: int)
    requires step != 0
  {
    if step > 0 then start <= q < stop && (q - start) % step == 0
    else stop < q <= start && (start - q) % (-step) == 0
  }

  /** The position `loc_to_iloc` gives a slice bound's label. */
  function BoundPosition(ix: Index, v: Label): (r: Result<int>)
    requires Valid(ix)
  {
    match LocToIloc(ix, One(v))
    case Err(e) => Err(e)
    case Ok(at) => Ok(at.position)
  }

  /**
   * The slice branch of _build_mask_for_key_at_depth: the start is resolved
   * first, then the step must be an integer, then the stop is resolved and
   * made inclusive; a row passes when its position at this depth lies in
   * the resulting range.
   */
  function SliceMask(ix: Index, indexer: seq<nat>, start: Option<Label>, stop: Option<Label>, step: Option<Label>): (r: Result<seq<bool>>)
    requires Valid(ix)
    ensures r.Ok? ==> |r.value| == |indexer|
  {
    var lo := if start.None? then Ok(0) else BoundPosition(ix, start.value);
    if lo.Err? then Err(lo.error)
    else if step.Some? && !step.value.Int? then Err(TypeError)
    else
      var hi := if stop.None? then Ok(|indexer|)
                else match BoundPosition(ix, stop.value)
                     case Err(e) => Err(e)
                     case Ok(t) => Ok(t + 1);
      if hi.Err? then Err(hi.error)
      else if step.None? || step.value.value == 1 then
        Ok(seq(|indexer|, q requires 0 <= q < |indexer| => InTail(indexer[q], lo.value, hi.value)))
      else if step.value.value == 0 then Err(ZeroDivisionError)
      else
        Ok(seq(|indexer|, q requires 0 <= q < |indexer| => InArange(indexer[q], lo.value, hi.value, step.value.value)))
  }

  /**
   * _build_mask_for_key_at_depth: a Boolean mask is returned as given; any
   * other selector needs an existing depth and yields one flag per row.
   */
  function BuildMask(h: Hierarchy, d: nat, k: Key): (r: Result<seq<bool>>)
    requires WellFormed(h)
    ensures k.BoolMask? ==> r == Ok(k.mask)
    ensures !k.BoolMask? && d >= Depth(h) ==> r == Err(IndexError)
    ensures !k.BoolMask? && r.Ok? ==> |r.value| == Len(h)
  {
    if k.BoolMask? then Ok(k.mask)
    else if d >= Depth(h) then Err(IndexError)
    else
      var ix, indexer := h.indices[d], h.indexers[d];
      match k
      case Slice(start, stop, step) => SliceMask(ix, indexer, start, stop, step)
      case One(v) =>
        (match LocToIloc(ix, One(v))
         case Err(e) => Err(e)
         case Ok(at) => Ok(seq(|indexer|, q requires 0 <= q < |indexer| => indexer[q] == at.position)))
      case Many(ls) =>
        (match LocToIloc(ix, Many(ls))
         case Err(e) => Err(e)
         case Ok(each) => Ok(seq(|indexer|, q requires 0 <= q < |indexer| => indexer[q] in each.positions)))
  }

  /** A label is translated to the one position that holds it, or refused with a KeyError when no position does. */
  lemma LookupOne(ix: Index, v: Label)
    requires Valid(ix)
    ensures v in ix.labels ==> LocToIloc(ix, One(v)).Ok?
    ensures LocToIloc(ix, One(v)).Ok? ==>
      forall j :: 0 <= j < |ix.labels| ==> (ix.labels[j] == v <==> j == LocToIloc(ix, One(v)).value.position)
    ensures LocToIloc(ix, One(v)).Err? ==> LocToIloc(ix, One(v)) == Err(KeyError(v)) && v !in ix.labels
  {
    if ix.automap.Some? {
      PositionMapInverts(ix.labels);
      LocToIlocMissing(ix, v);
    } else if v in ix.labels {
      var j :| 0 <= j < |ix.labels| && ix.labels[j] == v;
      assert ix.labels[j] == Int(j);
    }
  }

  /** A list of labels is translated to positions holding exactly those labels, or refused naming one that is absent. */
  lemma LookupMany(ix: Index, ls: seq<Label>)
    requires Valid(ix)
    ensures (forall x :: x in ls ==> x in ix.labels) ==> LocToIloc(ix, Many(ls)).Ok?
    ensures LocToIloc(ix, Many(ls)).Ok? ==>
      forall j :: 0 <= j < |ix.labels| ==> (ix.labels[j] in ls <==> j in LocToIloc(ix, Many(ls)).value.positions)
    ensures LocToIloc(ix, Many(ls)).Err? ==>
      exists x :: x in ls && x !in ix.labels && LocToIloc(ix, Many(ls)) == Err(KeyError(x))
  {
    var n := |ix.labels|;
    var r := LocToIloc(ix, Many(ls));
    if ix.automap.Some? {
      PositionMapInverts(ix.labels);
      LocToIlocList(ix, ls);
      if r.Ok? {
        forall j | 0 <= j < n ensures ix.labels[j] in ls <==> j in r.value.positions {
          if ix.labels[j] in ls {
            var i :| 0 <= i < |ls| && ls[i] == ix.labels[j];
            assert ix.labels[r.value.positions[i]] == ls[i];
          }
          if j in r.value.positions {
            var i :| 0 <= i < |ls| && r.value.positions[i] == j;
            assert ls[i] in ls;
          }
        }
      }
    } else {
      if r.Ok? {
        forall j | 0 <= j < n ensures ix.labels[j] in ls <==> j in r.value.positions {
          assert ix.labels[j] == Int(j);
          if ix.labels[j] in ls {
            var i :| 0 <= i < |ls| && ls[i] == ix.labels[j];
            assert r.value.positions[i] == j;
          }
          if j in r.value.positions {
            var i :| 0 <= i < |ls| && r.value.positions[i] == j;
            assert InBounds(ls[i], n);
            assert ls[i] == Int(j);
          }
        }
      }
    }
  }

  /** The label of row q at depth d: the depth's label at the row's position. */
  lemma ValueAt(h: Hierarchy, q: nat, d: nat)
    requires WellFormed(h) && q < Len(h) && d < Depth(h)
    ensures h.indexers[d][q] < |h.indices[d].labels|
    ensures Values(h)[q][d] == h.indices[d].labels[h.indexers[d][q]]
  {
  }

  /** A single label selects exactly the rows holding it at that depth; an absent label is a KeyError. */
  lemma MaskOne(h: Hierarchy, d: nat, v: Label)
    requires WellFormed(h) && d < Depth(h)
    ensures v in h.indices[d].labels ==> BuildMask(h, d, One(v)).Ok?
    ensures BuildMask(h, d, One(v)).Ok? ==>
      forall q :: 0 <= q < Len(h) ==> (BuildMask(h, d, One(v)).value[q] <==> Values(h)[q][d] == v)
    ensures BuildMask(h, d, One(v)).Err? ==>
      BuildMask(h, d, One(v)) == Err(KeyError(v)) && v !in h.indices[d].labels
  {
    LookupOne(h.indices[d], v);
    forall q | 0 <= q < Len(h) {
      ValueAt(h, q, d);
    }
  }

  /** A list of labels selects exactly the rows whose label at that depth is listed. */
  lemma MaskMany(h: Hierarchy, d: nat, ls: seq<Label>)
    requires WellFormed(h) && d < Depth(h)
    ensures (forall x :: x in ls ==> x in h.indices[d].labels) ==> BuildMask(h, d, Many(ls)).Ok?
    ensures BuildMask(h, d, Many(ls)).Ok? ==>
      forall q :: 0 <= q < Len(h) ==> (BuildMask(h, d, Many(ls)).value[q] <==> Values(h)[q][d] in ls)
    ensures BuildMask(h, d, Many(ls)).Err? ==>
      exists x :: x in ls && x !in h.indices[d].labels && BuildMask(h, d, Many(ls)) == Err(KeyError(x))
  {
    LookupMany(h.indices[d], ls);
    forall q | 0 <= q < Len(h) {
      ValueAt(h, q, d);
    }
  }

  /**
   * A slice between two present labels is inclusive of both ends: a row
   * passes when its position at that depth lies from the start label's
   * position through the stop label's, on the step (1 when absent).
   */
  lemma SliceBetween(h: Hierarchy, d: nat, i: nat, j: nat, step: Option<Label>)
    requires WellFormed(h) && d < Depth(h)
    requires i < |h.indices[d].labels| && j < |h.indices[d].labels|
    requires step.None? || (step.value.Int? && step.value.value > 0)
    ensures
      var k := if step.None? then 1 else step.value.value;
      var r := BuildMask(h, d, Slice(Some(h.indices[d].labels[i]), Some(h.indices[d].labels[j]), step));
      && r.Ok?
      && forall q :: 0 <= q < Len(h) ==>
           (r.value[q] <==> i <= h.indexers[d][q] <= j && (h.indexers[d][q] - i) % k == 0)
  {
    var ix := h.indices[d];
    LookupOne(ix, ix.labels[i]);
    LookupOne(ix, ix.labels[j]);
  }

  /** A slice whose step is not an integer is refused with a TypeError once its start resolves. */
  lemma SliceStepMustBeInt(h: Hierarchy, d: nat, start: Option<Label>, stop: Option<Label>, step: Label)
    requires WellFormed(h) && d < Depth(h) && !step.Int?
    requires start.None? || start.value in h.indices[d].labels
    ensures BuildMask(h, d, Slice(start, stop, Some(step))) == Err(TypeError)
  {
    if start.Some? {
      LookupOne(h.indices[d], start.value);
    }
  }

  //---------------------------------------------------------------------------
  // combining the depths

  /** The full wildcard slice asks for no filtering. */
  predicate Meaningful(k: Key) {
    k != NullSlice
  }

  /** A selector without a length (a label or a slice) asks for one row when it is the only match. */
  predicate ScalarSelector(k: Key) {
    k.One? || k.Slice?
  }

  /** The depths of the key that filter, in order. */
  function MeaningfulDepths(key: seq<Key>): (ds: seq<nat>)
  {
    MaskPositions(seq(|key|, d requires 0 <= d < |key| => Meaningful(key[d])))
  }

  lemma MeaningfulDepthsSpec(key: seq<Key>)
    ensures forall d :: d in MeaningfulDepths(key) <==> 0 <= d < |key| && Meaningful(key[d])
  {
    MaskPositionsSpec(seq(|key|, d requires 0 <= d < |key| => Meaningful(key[d])));
  }

  /** Assigning `mask` to a column of `n` rows: NumPy broadcasts a single flag and refuses other lengths. */
  function Broadcast(mask: seq<bool>, n: nat): (r: Result<seq<bool>>)
    ensures r.Ok? <==> |mask| == n || |mask| == 1
    ensures r.Ok? ==> |r.value| == n
    ensures |mask| == n ==> r == Ok(mask)
    ensures r.Err? ==> r == Err(ValueError(MsgBroadcast))
  {
    if |mask| == n then Ok(mask)
    else if |mask| == 1 then Ok(seq(n, _ => mask[0]))
    else Err(ValueError(MsgBroadcast))
  }

  /** The selector at depth d fits the 2D mask: the depth exists, the mask builds and broadcasts. */
  predicate Fits(h: Hierarchy, d: nat, k: Key)
    requires WellFormed(h)
  {
    && d < Depth(h)
    && BuildMask(h, d, k).Ok?
    && Broadcast(BuildMask(h, d, k).value, Len(h)).Ok?
  }

  /** Row q passes the selector at depth d. */
  predicate Picks(h: Hierarchy, d: nat, k: Key, q: nat)
    requires WellFormed(h)
  {
    && BuildMask(h, d, k).Ok?
    && Broadcast(BuildMask(h, d, k).value, Len(h)).Ok?
    && q < Len(h)
    && Broadcast(BuildMask(h, d, k).value, Len(h)).value[q]
  }

  /** Row q passes every meaningful selector from depth `from` on. */
  predicate Selected(h: Hierarchy, key: seq<Key>, from: nat, q: nat)
    requires WellFormed(h)
  {
    forall e :: from <= e < |key| && Meaningful(key[e]) ==> Picks(h, e, key[e], q)
  }

  /**
   * The 2D-mask branch of _loc_to_iloc_single_key, from depth d on: each
   * meaningful depth builds its mask and writes it into its column, in
   * depth order, the first failure ending the walk; a row passes when every
   * column holds for it.
   */
  function CombineMasks(h: Hierarchy, key: seq<Key>, d: nat): (r: Result<seq<bool>>)
    requires WellFormed(h) && d <= |key|
    ensures r.Ok? ==> |r.value| == Len(h)
    decreases |key| - d
  {
    if d == |key| then Ok(seq(Len(h), _ => true))
    else if !Meaningful(key[d]) then CombineMasks(h, key, d + 1)
    else match BuildMask(h, d, key[d])
      case Err(e) => Err(e)
      case Ok(m) =>
        if d >= Depth(h) then Err(IndexError)
        else match Broadcast(m, Len(h))
          case Err(e) => Err(e)
          case Ok(column) =>
            match CombineMasks(h, key, d + 1)
            case Err(e) => Err(e)
            case Ok(rest) => Ok(seq(Len(h), q requires 0 <= q < Len(h) => column[q] && rest[q]))
  }

  /** The error of the first selector from depth d on that does not fit. */
  predicate FirstMisfit(h: Hierarchy, key: seq<Key>, d: nat, e: nat, err: Error)
    requires WellFormed(h)
  {
    && d <= e < |key| && Meaningful(key[e]) && !Fits(h, e, key[e])
    && (forall f :: d <= f < e && Meaningful(key[f]) ==> Fits(h, f, key[f]))
    && (BuildMask(h, e, key[e]).Err? ==> err == BuildMask(h, e, key[e]).error)
    && (BuildMask(h, e, key[e]).Ok? && e >= Depth(h) ==> err == IndexError)
    && (BuildMask(h, e, key[e]).Ok? && e < Depth(h) ==> err == ValueError(MsgBroadcast))
  }

  /**
   * The combined mask succeeds exactly when every meaningful selector fits,
   * and then holds for the rows that pass all of them; otherwise it reports
   * the first selector that does not fit.
   */
  lemma {:induction false} CombineMasksSpec(h: Hierarchy, key: seq<Key>, d: nat)
    requires WellFormed(h) && d <= |key|
    ensures CombineMasks(h, key, d).Ok? <==> forall e :: d <= e < |key| && Meaningful(key[e]) ==> Fits(h, e, key[e])
    ensures CombineMasks(h, key, d).Ok? ==>
      forall q :: 0 <= q < Len(h) ==> (CombineMasks(h, key, d).value[q] <==> Selected(h, key, d, q))
    ensures CombineMasks(h, key, d).Err? ==>
      exists e :: FirstMisfit(h, key, d, e, CombineMasks(h, key, d).error)
    decreases |key| - d
  {
    if d < |key| {
      CombineMasksSpec(h, key, d + 1);
      var r := CombineMasks(h, key, d);
      if Meaningful(key[d]) && !Fits(h, d, key[d]) {
        assert FirstMisfit(h, key, d, d, r.error);
      } else if r.Err? {
        var e :| FirstMisfit(h, key, d + 1, e, r.error);
        assert FirstMisfit(h, key, d, e, r.error);
      }
    }
  }

  //---------------------------------------------------------------------------
  // one key

  /** What _loc_to_iloc_single_key returns: one position, or the positions in ascending order. */
  datatype Selection = Scalar(position: nat) | Positions(positions: seq<nat>)

  function Found(s: Selection): seq<nat> {
    if s.Scalar? then [s.position] else s.positions
  }

  /** Every depth of the key filters and asks for one row. */
  predicate AllScalar(key: seq<Key>) {
    forall d :: 0 <= d < |key| ==> Meaningful(key[d]) && ScalarSelector(key[d])
  }

  /**
   * The mask of a key: with one meaningful depth its mask alone, otherwise
   * the combined 2D mask.
   */
  function SelectionMask(h: Hierarchy, key: seq<Key>): (r: Result<seq<bool>>)
    requires WellFormed(h)
  {
    MeaningfulDepthsSpec(key);
    var ds := MeaningfulDepths(key);
    if |ds| == 1 then (assert ds[0] in ds; BuildMask(h, ds[0], key[ds[0]])) else CombineMasks(h, key, 0)
  }

  /**
   * _loc_to_iloc_single_key: the rows the mask selects; a single row is
   * returned as its position only when every depth holds a label or a slice.
   */
  function LocToIlocSingleKey(h: Hierarchy, key: seq<Key>): (r: Result<Selection>)
    requires WellFormed(h)
  {
    MeaningfulDepthsSpec(key);
    match SelectionMask(h, key)
    case Err(e) => Err(e)
    case Ok(mask) =>
      if |mask| != Len(h) then Err(IndexError)
      else
        var found := MaskPositions(mask);
        if |found| == 1 && AllScalar(key) then Ok(Scalar(found[0])) else Ok(Positions(found))
  }

  predicate Ascending(s: seq<nat>) {
    forall i, j :: 0 <= i < j < |s| ==> s[i] < s[j]
  }

  /** An ascending sequence of positions spreads at least one apart per element. */
  lemma {:induction false} AscendingSpread(s: seq<nat>)
    requires Ascending(s)
    ensures |s| > 0 ==> s[|s| - 1] >= s[0] + |s| - 1
  {
    if |s| > 1 {
      AscendingSpread(s[..|s| - 1]);
      assert s[|s| - 2] < s[|s| - 1];
    }
  }

  /** Ascending positions that all equal p, p among them, are p alone. */
  lemma SingleValue(s: seq<nat>, p: nat)
    requires Ascending(s) && p in s && forall x :: x in s ==> x == p
    ensures s == [p]
  {
    AscendingSpread(s);
    assert s[0] in s && s[|s| - 1] in s;
  }

  lemma NoMembers(s: seq<nat>)
    requires forall x :: x !in s
    ensures s == []
  {
    HeadMember(s);
  }

  lemma HeadMember(s: seq<nat>)
    ensures |s| > 0 ==> s[0] in s
  {
  }

  /**
   * The positions a key selects are, in ascending order, exactly the rows
   * passing every meaningful selector; a scalar answer needs every depth to
   * hold a label or a slice and stands for the only such row, and a list
   * answer is given whenever that is not the case.
   */
  lemma {:induction false} SingleKeySelects(h: Hierarchy, key: seq<Key>)
    requires WellFormed(h)
    ensures var r := LocToIlocSingleKey(h, key);
      r.Ok? ==> forall q :: q in Found(r.value) <==> 0 <= q < Len(h) && Selected(h, key, 0, q)
    ensures var r := LocToIlocSingleKey(h, key);
      r.Ok? ==> Ascending(Found(r.value))
    ensures var r := LocToIlocSingleKey(h, key);
      r.Ok? ==> (r.value.Scalar? <==> |Found(r.value)| == 1 && AllScalar(key))
    ensures |MeaningfulDepths(key)| != 1 ==>
      (LocToIlocSingleKey(h, key).Ok? <==> forall e :: 0 <= e < |key| && Meaningful(key[e]) ==> Fits(h, e, key[e]))
  {
    MeaningfulDepthsSpec(key);
    var ds := MeaningfulDepths(key);
    var m := SelectionMask(h, key);
    if |ds| != 1 {
      CombineMasksSpec(h, key, 0);
    }
    if m.Ok? && |m.value| == Len(h) {
      var found := MaskPositions(m.value);
      MaskPositionsSpec(m.value);
      assert |found| == 1 ==> found == [found[0]];
      assert Found(LocToIlocSingleKey(h, key).value) == found;
      if |ds| == 1 {
        var f := ds[0];
        forall q | 0 <= q < Len(h) ensures m.value[q] <==> Selected(h, key, 0, q) {
          forall e | 0 <= e < |key| && Meaningful(key[e]) ensures e == f {
            assert e in ds;
          }
        }
      }
    }
  }

  //---------------------------------------------------------------------------
  // keys made of labels

  /** A tuple of labels as a key: one label selector per depth. */
  function LabelKey(labels: seq<Label>): (key: seq<Key>)
    ensures |key| == |labels| && AllScalar(key)
  {
    seq(|labels|, d requires 0 <= d < |labels| => One(labels[d]))
  }

  /** A label key fits at a depth unless the label is absent there, and then picks the rows holding it. */
  lemma LabelPicks(h: Hierarchy, labels: seq<Label>, e: nat)
    requires WellFormed(h) && e < |labels| <= Depth(h)
    ensures Fits(h, e, LabelKey(labels)[e]) <==> BuildMask(h, e, One(labels[e])).Ok?
    ensures !Fits(h, e, LabelKey(labels)[e]) ==>
      BuildMask(h, e, One(labels[e])) == Err(KeyError(labels[e])) && labels[e] !in h.indices[e].labels
    ensures forall q :: 0 <= q < Len(h) ==>
      (Picks(h, e, LabelKey(labels)[e], q) <==> Values(h)[q][e] == labels[e])
  {
    MaskOne(h, e, labels[e]);
    forall q | 0 <= q < Len(h) ensures Picks(h, e, LabelKey(labels)[e], q) <==> Values(h)[q][e] == labels[e] {
      if Values(h)[q][e] == labels[e] {
        ValueAt(h, q, e);
      }
    }
  }

  /**
   * HLoc of leading labels: the rows selected are exactly those that begin
   * with the labels, in order; the only refusal is a KeyError for a label
   * absent from its depth, so no row begins with the labels then.
   */
  lemma {:induction false} LeadingLabels(h: Hierarchy, labels: seq<Label>)
    requires WellFormed(h) && 1 <= |labels| <= Depth(h)
    ensures var r := LocToIlocSingleKey(h, LabelKey(labels));
      r.Ok? ==> forall q :: q in Found(r.value) <==> 0 <= q < Len(h) && Values(h)[q][..|labels|] == labels
    ensures var r := LocToIlocSingleKey(h, LabelKey(labels));
      r.Err? ==> exists e :: 0 <= e < |labels| && labels[e] !in h.indices[e].labels && r.error == KeyError(labels[e])
    ensures (forall e :: 0 <= e < |labels| ==> labels[e] in h.indices[e].labels) ==> LocToIlocSingleKey(h, LabelKey(labels)).Ok?
  {
    var key := LabelKey(labels);
    var r := LocToIlocSingleKey(h, key);
    SingleKeySelects(h, key);
    MeaningfulDepthsSpec(key);
    forall e | 0 <= e < |labels| {
      LabelPicks(h, labels, e);
    }
    forall q | 0 <= q < Len(h) ensures Selected(h, key, 0, q) <==> Values(h)[q][..|labels|] == labels {
      if Selected(h, key, 0, q) {
        forall e | 0 <= e < |labels| ensures Values(h)[q][..|labels|][e] == labels[e] {
          assert Picks(h, e, key[e], q);
        }
      }
    }
    var ds := MeaningfulDepths(key);
    if |ds| == 1 {
      assert |labels| == 1 by {
        assert 0 in ds;
      }
      assert ds == [0] by {
        assert ds[0] in ds;
      }
      MaskOne(h, 0, labels[0]);
    } else if r.Err? {
      CombineMasksSpec(h, key, 0);
      var e :| FirstMisfit(h, key, 0, e, CombineMasks(h, key, 0).error);
    }
  }

  /** A complete row of labels selects that row alone, as a single position. */
  lemma FullRowKey(h: Hierarchy, p: nat)
    requires WellFormed(h) && p < Len(h)
    ensures LocToIlocSingleKey(h, LabelKey(Values(h)[p])) == Ok(Scalar(p))
  {
    var row := Values(h)[p];
    var key := LabelKey(row);
    LeadingLabels(h, row);
    SingleKeySelects(h, key);
    forall e | 0 <= e < |row| ensures row[e] in h.indices[e].labels {
      ValueAt(h, p, e);
    }
    RowsDistinctIffTuples(h.indices, h.indexers, h.isStatic);
    var r := LocToIlocSingleKey(h, key);
    var found := Found(r.value);
    assert p in found by {
      assert Values(h)[p][..|row|] == row;
    }
    forall q | q in found ensures q == p {
      assert Values(h)[q][..|row|] == row;
      assert Values(h)[q] == row;
    }
    SingleValue(found, p);
  }

  //---------------------------------------------------------------------------
  // leaf keys and membership

  /**
   * The routes of _loc_to_iloc for a tuple: a plain tuple is a leaf
   * selection and must give one label per depth, none of them a slice or a
   * list; an HLoc may give fewer depths than the hierarchy has, never more.
   */
  datatype TupleKey = Leaf(key: seq<Key>) | HLoc(selectors: seq<Key>)

  predicate Multiple(k: Key) {
    k.Many? || k.Slice? || k.BoolMask?
  }

  function LocToIlocTuple(h: Hierarchy, t: TupleKey): (r: Result<Selection>)
    requires WellFormed(h)
    ensures t.Leaf? && |t.key| != Depth(h) ==> r == Err(RuntimeError(MsgKeyLength))
    ensures t.HLoc? && |t.selectors| > Depth(h) ==> r == Err(RuntimeError(MsgTooManyDepths))
    ensures t.HLoc? && |t.selectors| <= Depth(h) ==> r == LocToIlocSingleKey(h, t.selectors)
  {
    match t
    case Leaf(key) =>
      if |key| != Depth(h) then Err(RuntimeError(MsgKeyLength))
      else if exists d :: 0 <= d < |key| && Multiple(key[d]) then Err(RuntimeError(MsgLeafSlices))
      else LocToIlocSingleKey(h, key)
    case HLoc(selectors) =>
      if |selectors| > Depth(h) then Err(RuntimeError(MsgTooManyDepths))
      else LocToIlocSingleKey(h, selectors)
  }

  /**
   * __contains__ for a tuple: a KeyError means absent, any other error
   * propagates, a single position means present and a list means present
   * when it is not empty.
   */
  function ContainsTuple(h: Hierarchy, labels: seq<Label>): (r: Result<bool>)
    requires WellFormed(h)
  {
    match LocToIlocTuple(h, Leaf(LabelKey(labels)))
    case Err(KeyError(_)) => Ok(false)
    case Err(e) => Err(e)
    case Ok(Scalar(_)) => Ok(true)
    case Ok(Positions(ps)) => Ok(|ps| > 0)
  }

  /** A tuple of labels of the hierarchy's depth takes the single-key route. */
  lemma LeafRoute(h: Hierarchy, labels: seq<Label>)
    requires WellFormed(h) && |labels| == Depth(h)
    ensures LocToIlocTuple(h, Leaf(LabelKey(labels))) == LocToIlocSingleKey(h, LabelKey(labels))
  {
    var key := LabelKey(labels);
    assert !exists d :: 0 <= d < |key| && Multiple(key[d]);
  }

  /** A tuple that is not a row selects no position. */
  lemma AbsentRowSelectsNothing(h: Hierarchy, labels: seq<Label>)
    requires WellFormed(h) && |labels| == Depth(h) && labels !in Values(h)
    ensures LocToIlocSingleKey(h, LabelKey(labels)).Ok? ==> LocToIlocSingleKey(h, LabelKey(labels)) == Ok(Positions([]))
    ensures LocToIlocSingleKey(h, LabelKey(labels)).Err? ==> LocToIlocSingleKey(h, LabelKey(labels)).error.KeyError?
  {
    LeadingLabels(h, labels);
    var r := LocToIlocSingleKey(h, LabelKey(labels));
    if r.Ok? {
      forall q | 0 <= q < Len(h) ensures Values(h)[q][..|labels|] != labels {
        assert Values(h)[q][..|labels|] == Values(h)[q];
        assert Values(h)[q] in Values(h);
      }
      NoMembers(Found(r.value));
    }
  }

  /** A tuple of the hierarchy's depth is contained exactly when it is one of the rows; another length is an error. */
  lemma ContainsIffRow(h: Hierarchy, labels: seq<Label>)
    requires WellFormed(h)
    ensures |labels| == Depth(h) ==> ContainsTuple(h, labels) == Ok(labels in Values(h))
    ensures |labels| != Depth(h) ==> ContainsTuple(h, labels) == Err(RuntimeError(MsgKeyLength))
  {
    if |labels| == Depth(h) {
      LeafRoute(h, labels);
      if labels in Values(h) {
        var p :| 0 <= p < Len(h) && Values(h)[p] == labels;
        FullRowKey(h, p);
      } else {
        AbsentRowSelectsNothing(h, labels);
      }
    }
  }
}
