/**
 * IndexHierarchyGO: the grow-only hierarchy. append and extend grow the
 * per-depth indices at once but only queue the new rows; the indexers are
 * rebuilt from the queue, and uniqueness checked, on the next read.
 */
module HierarchyGrowOnly {
  import opened Labels
  import opened Errors
  import opened FlatIndex
  import opened IndexHierarchy

  //---------------------------------------------------------------------------
  // the queue

  /** A queued addition: one row (PendingRow) or a whole hierarchy. */
  datatype Pending = PendingRow(row: seq<Label>) | PendingHierarchy(other: Hierarchy)

  predicate PendingValid(p: Pending, depth: nat) {
    match p
    case PendingRow(row) => |row| == depth
    case PendingHierarchy(other) => WellFormed(other) && IndexHierarchy.Depth(other) == depth
  }

  predicate AllPendingValid(ps: seq<Pending>, depth: nat) {
    forall i :: 0 <= i < |ps| ==> PendingValid(ps[i], depth)
  }

  /** len of a queued addition: a row counts one, a hierarchy its rows. */
  function PendingLen(p: Pending): nat {
    if p.PendingRow? then 1 else Len(p.other)
  }

  /** sum(map(len, pending)). */
  function PendingTotal(ps: seq<Pending>): nat {
    if ps == [] then 0 else PendingTotal(ps[..|ps| - 1]) + PendingLen(ps[|ps| - 1])
  }

  /** The rows a queued addition stands for. */
  function PendingRows(p: Pending): (rows: seq<seq<Label>>)
    requires p.PendingHierarchy? ==> WellFormed(p.other)
    ensures |rows| == PendingLen(p)
  {
    if p.PendingRow? then [p.row] else Values(p.other)
  }

  /** Every row the queue stands for, in queue order. */
  function Queued(ps: seq<Pending>, depth: nat): (rows: seq<seq<Label>>)
    requires AllPendingValid(ps, depth)
    ensures |rows| == PendingTotal(ps)
    ensures forall q :: 0 <= q < |rows| ==> |rows[q]| == depth
  {
    if ps == [] then []
    else
      var init := ps[..|ps| - 1];
      assert AllPendingValid(init, depth) by {
        forall i | 0 <= i < |init| ensures PendingValid(init[i], depth) {
          assert init[i] == ps[i];
        }
      }
      Queued(init, depth) + PendingRows(ps[|ps| - 1])
  }

  /** The labels a queued addition needs at each depth are already there. */
  predicate PendingPresent(indices: seq<Index>, p: Pending)
    requires PendingValid(p, |indices|)
  {
    match p
    case PendingRow(row) => forall d :: 0 <= d < |indices| ==> row[d] in indices[d].labels
    case PendingHierarchy(other) =>
      forall d, x :: 0 <= d < |indices| && x in other.indices[d].labels ==> x in indices[d].labels
  }

  predicate AllPendingPresent(indices: seq<Index>, ps: seq<Pending>)
    requires AllPendingValid(ps, |indices|)
  {
    forall i :: 0 <= i < |ps| ==> PendingPresent(indices, ps[i])
  }

  /** Every label of every row is present at its depth. */
  predicate RowsPresent(indices: seq<Index>, rows: seq<seq<Label>>) {
    forall q :: 0 <= q < |rows| ==>
      |rows[q]| == |indices| && forall d :: 0 <= d < |indices| ==> rows[q][d] in indices[d].labels
  }

  //---------------------------------------------------------------------------
  // replaying the queue

  /** The positions of the rows' labels at depth d: what _append and _extend write. */
  function Encoded(indices: seq<Index>, rows: seq<seq<Label>>, d: nat): (c: seq<nat>)
    requires d < |indices| && RowsPresent(indices, rows)
    ensures |c| == |rows|
    ensures forall q :: 0 <= q < |rows| ==> c[q] < |indices[d].labels| && indices[d].labels[c[q]] == rows[q][d]
  {
    seq(|rows|, q requires 0 <= q < |rows| => IndexOf(indices[d].labels, rows[q][d]))
  }

  /** The indexers once the queued rows are written after the materialised ones. */
  function Replayed(indices: seq<Index>, indexers: seq<seq<nat>>, rows: seq<seq<Label>>): (r: seq<seq<nat>>)
    requires |indexers| == |indices| && RowsPresent(indices, rows)
    ensures |r| == |indexers|
  {
    seq(|indexers|, d requires 0 <= d < |indexers| => indexers[d] + Encoded(indices, rows, d))
  }

  lemma PresentAppend(indices: seq<Index>, a: seq<seq<Label>>, b: seq<seq<Label>>)
    requires RowsPresent(indices, a) && RowsPresent(indices, b)
    ensures RowsPresent(indices, a + b)
  {
    forall q | 0 <= q < |a + b|
      ensures |(a + b)[q]| == |indices| && forall e :: 0 <= e < |indices| ==> (a + b)[q][e] in indices[e].labels
    {
      if q < |a| {
        assert (a + b)[q] == a[q];
      } else {
        assert (a + b)[q] == b[q - |a|];
      }
    }
  }

  lemma EncodedAppend(indices: seq<Index>, a: seq<seq<Label>>, b: seq<seq<Label>>, d: nat)
    requires d < |indices| && RowsPresent(indices, a) && RowsPresent(indices, b)
    ensures RowsPresent(indices, a + b)
    ensures Encoded(indices, a + b, d) == Encoded(indices, a, d) + Encoded(indices, b, d)
  {
    PresentAppend(indices, a, b);
  }

  /** The queued rows are present at every depth once each queued addition's labels are. */
  lemma {:induction false} QueuedPresent(indices: seq<Index>, ps: seq<Pending>)
    requires AllPendingValid(ps, |indices|) && AllPendingPresent(indices, ps)
    ensures RowsPresent(indices, Queued(ps, |indices|))
  {
    if ps != [] {
      var init := ps[..|ps| - 1];
      var last := ps[|ps| - 1];
      assert AllPendingValid(init, |indices|) && AllPendingPresent(indices, init) by {
        forall i | 0 <= i < |init| ensures PendingValid(init[i], |indices|) && PendingPresent(indices, init[i]) {
          assert init[i] == ps[i];
        }
      }
      QueuedPresent(indices, init);
      assert PendingPresent(indices, last);
      var rows := PendingRows(last);
      assert RowsPresent(indices, rows) by {
        if last.PendingHierarchy? {
          forall q, d | 0 <= q < |rows| && 0 <= d < |indices| ensures rows[q][d] in indices[d].labels {
            ValueLabel(last.other, q, d);
          }
        }
      }
      PresentAppend(indices, Queued(init, |indices|), rows);
    }
  }

  /** A row's label at depth d is one of that depth's labels. */
  lemma ValueLabel(h: Hierarchy, q: nat, d: nat)
    requires WellFormed(h) && q < Len(h) && d < IndexHierarchy.Depth(h)
    ensures h.indexers[d][q] < |h.indices[d].labels|
    ensures Values(h)[q][d] == h.indices[d].labels[h.indexers[d][q]]
    ensures Values(h)[q][d] in h.indices[d].labels
  {
  }

  lemma QueuedSnoc(ps: seq<Pending>, k: nat, depth: nat)
    requires AllPendingValid(ps, depth) && k < |ps|
    ensures AllPendingValid(ps[..k], depth) && AllPendingValid(ps[..k + 1], depth)
    ensures Queued(ps[..k + 1], depth) == Queued(ps[..k], depth) + PendingRows(ps[k])
  {
    assert ps[..k + 1][..k] == ps[..k];
  }

  /**
   * _update_array_cache keeps every materialised row and appends the queued
   * rows after them, in queue order.
   */
  lemma ReplayRows(indices: seq<Index>, indexers: seq<seq<nat>>, rows: seq<seq<Label>>)
    requires |indices| == |indexers| >= 1 && Rect(indexers) && InRange(indices, indexers)
    requires RowsPresent(indices, rows)
    ensures Rect(Replayed(indices, indexers, rows)) && InRange(indices, Replayed(indices, indexers, rows))
    ensures Size(Replayed(indices, indexers, rows)) == Size(indexers) + |rows|
    ensures Rows(indices, Replayed(indices, indexers, rows)) == Rows(indices, indexers) + rows
  {
    var r := Replayed(indices, indexers, rows);
    var n := Size(indexers);
    assert Size(r) == n + |rows|;
    assert InRange(indices, r) by {
      forall d, p | 0 <= d < |r| && 0 <= p < |r[d]| ensures r[d][p] < |indices[d].labels| {
        if p >= n {
          assert r[d][p] == Encoded(indices, rows, d)[p - n];
        }
      }
    }
    var all := Rows(indices, indexers) + rows;
    forall p | 0 <= p < Size(r) ensures Rows(indices, r)[p] == all[p] {
      forall d | 0 <= d < |indices| ensures Rows(indices, r)[p][d] == all[p][d] {
        if p >= n {
          assert r[d][p] == Encoded(indices, rows, d)[p - n];
        }
      }
    }
  }

  /** Writing a further block of rows after the replayed ones replays both. */
  lemma ReplayStep(indices: seq<Index>, indexers: seq<seq<nat>>, rows: seq<seq<Label>>, more: seq<seq<Label>>,
                   prev: seq<seq<nat>>, news: seq<seq<nat>>)
    requires |indexers| == |indices| == |prev| == |news|
    requires RowsPresent(indices, rows) && RowsPresent(indices, more)
    requires forall d :: 0 <= d < |indices| ==> prev[d] == indexers[d] + Encoded(indices, rows, d)
    requires forall d :: 0 <= d < |indices| ==> news[d] == prev[d] + Encoded(indices, more, d)
    ensures RowsPresent(indices, rows + more)
    ensures forall d :: 0 <= d < |indices| ==> news[d] == indexers[d] + Encoded(indices, rows + more, d)
  {
    PresentAppend(indices, rows, more);
    forall d | 0 <= d < |indices| ensures news[d] == indexers[d] + Encoded(indices, rows + more, d) {
      EncodedAppend(indices, rows, more, d);
    }
  }

  /** Depth by depth agreement with the replay is agreement with Replayed. */
  lemma ReplayedEach(indices: seq<Index>, indexers: seq<seq<nat>>, rows: seq<seq<Label>>, news: seq<seq<nat>>)
    requires |indexers| == |indices| == |news| && RowsPresent(indices, rows)
    requires forall d :: 0 <= d < |indices| ==> news[d] == indexers[d] + Encoded(indices, rows, d)
    ensures news == Replayed(indices, indexers, rows)
  {
  }

  //---------------------------------------------------------------------------
  // growing the depths

  /** append's step at one depth: a label not yet present is appended to that depth's index. */
  function GrowIfAbsent(ix: Index, v: Label): (r: Index)
    requires Valid(ix)
    ensures Valid(r) && r.isStatic == ix.isStatic && v in r.labels
    ensures r.labels == if v in ix.labels then ix.labels else ix.labels + [v]
  {
    if v in ix.labels then ix else Grow(ix, v).value
  }

  /** extend's step at one depth: the labels of `other` missing here are appended, in their order there. */
  function Absorb(ix: Index, other: Index): (r: Index)
    requires Valid(ix) && Valid(other)
    ensures Valid(r) && r.isStatic == ix.isStatic
  {
    var difference := UfuncSet(Difference, other, OfIndex(ix));
    if |difference.labels| > 0 then ExtendAll(ix, difference.labels).0 else ix
  }

  /** Absorbing keeps the labels already there and adds exactly the missing ones, so every label of `other` is present after. */
  lemma AbsorbLabels(ix: Index, other: Index)
    requires Valid(ix) && Valid(other)
    ensures Absorb(ix, other).labels == ix.labels + Filter(other.labels, ix.labels, false)
    ensures forall x :: x in other.labels ==> x in Absorb(ix, other).labels
  {
    var novel := Filter(other.labels, ix.labels, false);
    DifferenceInOrder(other, ix);
    FirstClashNone(ix.labels, novel);
    ExtendAllAppendsPrefix(ix, novel);
    assert novel[..|novel|] == novel;
  }

  /** Two depth lists where each depth's labels extend the other's. */
  predicate Extends(a: seq<Index>, b: seq<Index>) {
    |a| == |b| && forall d :: 0 <= d < |a| ==> a[d].labels <= b[d].labels
  }

  /** Growing the depths by appending keeps every materialised row as it was. */
  lemma RowsGrow(a: seq<Index>, b: seq<Index>, indexers: seq<seq<nat>>)
    requires Rect(indexers) && InRange(a, indexers) && Extends(a, b)
    ensures InRange(b, indexers) && Rows(a, indexers) == Rows(b, indexers)
  {
    assert InRange(b, indexers) by {
      forall d, p | 0 <= d < |indexers| && 0 <= p < |indexers[d]| ensures indexers[d][p] < |b[d].labels| {
        assert a[d].labels <= b[d].labels;
      }
    }
    forall p | 0 <= p < Size(indexers) ensures Rows(a, indexers)[p] == Rows(b, indexers)[p] {
      forall d | 0 <= d < |a| ensures Rows(a, indexers)[p][d] == Rows(b, indexers)[p][d] {
        assert a[d].labels <= b[d].labels;
      }
    }
  }

  /** Growing the depths keeps every queued addition's labels present. */
  lemma PresentGrow(a: seq<Index>, b: seq<Index>, ps: seq<Pending>)
    requires Extends(a, b) && AllPendingValid(ps, |a|) && AllPendingPresent(a, ps)
    ensures AllPendingPresent(b, ps)
  {
    forall i | 0 <= i < |ps| ensures PendingPresent(b, ps[i]) {
      assert PendingPresent(a, ps[i]);
      if ps[i].PendingHierarchy? {
        forall d, x | 0 <= d < |b| && x in ps[i].other.indices[d].labels ensures x in b[d].labels {
          assert a[d].labels <= b[d].labels;
        }
      } else {
        forall d | 0 <= d < |b| ensures ps[i].row[d] in b[d].labels {
          assert a[d].labels <= b[d].labels;
        }
      }
    }
  }

  /**
   * append's loop over the row: each depth gains the row's label when it
   * lacks it; a label beyond the last depth stops the loop, which is
   * reported in `fits`.
   */
  method GrowEach(indices: seq<Index>, value: seq<Label>) returns (grown: seq<Index>, fits: bool)
    requires AllValid(indices, false) && |value| >= |indices|
    ensures |grown| == |indices| && AllValid(grown, false) && Extends(indices, grown)
    ensures forall d :: 0 <= d < |indices| ==> grown[d] == GrowIfAbsent(indices[d], value[d])
    ensures fits == (|value| == |indices|)
  {
    grown := indices;
    var d := 0;
    while d < |value|
      invariant 0 <= d <= |indices| && |grown| == |indices|
      invariant forall e :: 0 <= e < d ==> grown[e] == GrowIfAbsent(indices[e], value[e])
      invariant forall e :: d <= e < |indices| ==> grown[e] == indices[e]
      invariant Extends(indices, grown) && AllValid(grown, false)
    {
      if d >= |indices| {
        return grown, false;
      }
      if !FlatIndex.Contains(grown[d], value[d]) {
        ContainsIffMember(grown[d], value[d]);
        grown := grown[d := Grow(grown[d], value[d]).value];
      }
      d := d + 1;
    }
    fits := true;
  }

  /**
   * extend's loop over the depths: each depth absorbs, in order, the labels
   * of the other index at that depth that it lacks.
   */
  method AbsorbEach(indices: seq<Index>, others: seq<Index>) returns (grown: seq<Index>)
    requires AllValid(indices, false) && |others| == |indices|
    requires forall d :: 0 <= d < |others| ==> Valid(others[d])
    ensures |grown| == |indices| && AllValid(grown, false) && Extends(indices, grown)
    ensures forall d :: 0 <= d < |indices| ==> grown[d] == Absorb(indices[d], others[d])
    ensures forall d :: 0 <= d < |indices| ==>
      grown[d].labels == indices[d].labels + Filter(others[d].labels, indices[d].labels, false)
    ensures forall d, x :: 0 <= d < |indices| && x in others[d].labels ==> x in grown[d].labels
  {
    grown := indices;
    var d := 0;
    while d < |indices|
      invariant 0 <= d <= |indices| && |grown| == |indices|
      invariant forall e :: 0 <= e < d ==> grown[e] == Absorb(indices[e], others[e])
      invariant forall e :: d <= e < |indices| ==> grown[e] == indices[e]
      invariant Extends(indices, grown) && AllValid(grown, false)
    {
      grown := grown[d := Absorb(grown[d], others[d])];
      AbsorbLabels(indices[d], others[d]);
      d := d + 1;
    }
    forall e | 0 <= e < |indices|
      ensures grown[e].labels == indices[e].labels + Filter(others[e].labels, indices[e].labels, false)
      ensures forall x :: x in others[e].labels ==> x in grown[e].labels
    {
      AbsorbLabels(indices[e], others[e]);
    }
  }

  /**
   * _extend at one depth: the other hierarchy's label positions at depth d
   * remapped into `target` by _index_iloc_map, then ordered by its indexer.
   */
  method RemapDepth(target: Index, other: Hierarchy, d: nat) returns (ordered: seq<nat>)
    requires Valid(target) && WellFormed(other) && d < IndexHierarchy.Depth(other)
    requires forall x :: x in other.indices[d].labels ==> x in target.labels
    ensures |ordered| == IndexHierarchy.Len(other)
    ensures forall q :: 0 <= q < |ordered| ==>
      ordered[q] < |target.labels| && target.labels[ordered[q]] == Values(other)[q][d]
  {
    var remap := IndexIlocMap(other.indices[d], target).value;
    ordered := seq(IndexHierarchy.Len(other), q requires 0 <= q < IndexHierarchy.Len(other) => remap[other.indexers[d][q]]);
    forall q | 0 <= q < |ordered|
      ensures ordered[q] < |target.labels| && target.labels[ordered[q]] == Values(other)[q][d]
    {
      ValueLabel(other, q, d);
    }
  }

  /** Positions that name each row's label at depth d are that depth's encoding. */
  lemma EncodedFromPositions(indices: seq<Index>, rows: seq<seq<Label>>, d: nat, ordered: seq<nat>)
    requires d < |indices| && Distinct(indices[d].labels) && RowsPresent(indices, rows) && |ordered| == |rows|
    requires forall q :: 0 <= q < |rows| ==>
      ordered[q] < |indices[d].labels| && indices[d].labels[ordered[q]] == rows[q][d]
    ensures ordered == Encoded(indices, rows, d)
  {
    forall q | 0 <= q < |rows| ensures ordered[q] == Encoded(indices, rows, d)[q] {
      IndexOfDistinct(indices[d].labels, ordered[q]);
    }
  }

  //---------------------------------------------------------------------------
  // the object

  class IndexHierarchyGO {
    /** One grow-only index per depth, held by value. */
    var indices: seq<Index>
    /** The materialised indexers, one per depth. */
    var indexers: seq<seq<nat>>
    /** _pending_extensions: rows and hierarchies not yet materialised. */
    var pending: seq<Pending>
    /** Whether the indexers must be rebuilt before the next read. */
    var recache: bool

    ghost predicate Valid()
      reads this
    {
      && |indices| >= 2
      && |indexers| == |indices|
      && Rect(indexers)
      && InRange(indices, indexers)
      && AllValid(indices, false)
      && AllPendingValid(pending, |indices|)
      && AllPendingPresent(indices, pending)
      && (pending != [] ==> recache)
      && (!recache ==> Distinct(Tuples(indexers)))
    }

    /** A hierarchy whose cache is clean has passed the uniqueness check: its rows are distinct. */
    lemma CleanRowsDistinct()
      requires Valid() && !recache
      ensures Distinct(Materialized())
      ensures WellFormed(Hierarchy(indices, indexers, false))
    {
      RowsDistinctIffTuples(indices, indexers, false);
    }

    /** The materialised rows. */
    ghost function Materialized(): (rows: seq<seq<Label>>)
      reads this
      requires Valid()
    {
      Rows(indices, indexers)
    }

    /** Construction from a hierarchy: its rows, its indices made grow-only, nothing queued. */
    constructor (source: Hierarchy)
      requires WellFormed(source)
      ensures Valid() && pending == [] && !recache
      ensures Materialized() == Values(source)
      ensures |indices| == |source.indices|
      ensures forall d :: 0 <= d < |indices| ==> indices[d].labels == source.indices[d].labels
    {
      var copied := Copy(source, false);
      indices := copied.indices;
      indexers := copied.indexers;
      pending := [];
      recache := false;
      new;
      RowsSameLabels(copied.indices, source.indices, source.indexers);
    }

    /**
     * __len__: the materialised rows, plus the queued ones while the cache
     * is stale.
     */
    method Len() returns (n: nat)
      requires Valid()
      ensures n == Size(indexers) + (if recache then PendingTotal(pending) else 0)
      ensures n == |Materialized()| + (if recache then |Queued(pending, |indices|)| else 0)
    {
      n := Size(indexers);
      if recache && pending != [] {
        n := n + PendingTotal(pending);
      }
    }

    /**
     * append: each depth gains the row's label when it lacks it, then the
     * row is queued and the cache marked stale; uniqueness is not checked
     * here. A row longer than the depth count stops with IndexError once
     * every depth has been grown, and is not queued.
     */
    method Append(value: seq<Label>) returns (r: Outcome)
      requires Valid() && |value| >= |indices|
      modifies this
      ensures Valid()
      ensures |indices| == |old(indices)|
      ensures forall d :: 0 <= d < |indices| ==> indices[d] == GrowIfAbsent(old(indices)[d], value[d])
      ensures indexers == old(indexers) && Materialized() == old(Materialized())
      ensures |value| == |indices| ==> r == Pass && pending == old(pending) + [PendingRow(value)] && recache
      ensures |value| > |indices| ==> r == Fail(IndexError) && pending == old(pending) && recache == old(recache)
    {
      var grown, fits := GrowEach(indices, value);
      RowsGrow(indices, grown, indexers);
      PresentGrow(indices, grown, pending);
      indices := grown;
      if !fits {
        return Fail(IndexError);
      }
      pending := pending + [PendingRow(value)];
      recache := true;
      r := Pass;
    }

    /**
     * extend: each depth absorbs the labels of the other hierarchy's index
     * at that depth that it lacks, then the hierarchy is queued and the
     * cache marked stale; uniqueness is not checked here.
     */
    method Extend(other: Hierarchy)
      requires Valid() && WellFormed(other) && IndexHierarchy.Depth(other) == |indices|
      modifies this
      ensures Valid()
      ensures |indices| == |old(indices)|
      ensures forall d :: 0 <= d < |indices| ==> indices[d] == Absorb(old(indices)[d], other.indices[d])
      ensures forall d :: 0 <= d < |indices| ==>
        indices[d].labels == old(indices)[d].labels + Filter(other.indices[d].labels, old(indices)[d].labels, false)
      ensures indexers == old(indexers) && Materialized() == old(Materialized())
      ensures pending == old(pending) + [PendingHierarchy(other)] && recache
    {
      var grown := AbsorbEach(indices, other.indices);
      RowsGrow(indices, grown, indexers);
      PresentGrow(indices, grown, pending);
      indices := grown;
      pending := pending + [PendingHierarchy(other)];
      recache := true;
    }

    /** _append: the row's position at each depth, written after what `news` holds. */
    method WriteRow(news: seq<seq<nat>>, row: seq<Label>) returns (news': seq<seq<nat>>)
      requires Valid() && |news| == |indices| && |row| == |indices|
      requires forall d :: 0 <= d < |row| ==> row[d] in indices[d].labels
      ensures |news'| == |news|
      ensures forall d :: 0 <= d < |news| ==>
        news'[d] == news[d] + [IndexOf(indices[d].labels, row[d])]
    {
      news' := news;
      var d := 0;
      while d < |row|
        invariant 0 <= d <= |row| && |news'| == |news|
        invariant forall e :: 0 <= e < d ==> news'[e] == news[e] + [IndexOf(indices[e].labels, row[e])]
        invariant forall e :: d <= e < |news| ==> news'[e] == news[e]
      {
        ContainsIffMember(indices[d], row[d]);
        var position := Position(indices[d], row[d]);
        IndexOfDistinct(indices[d].labels, position);
        news' := news'[d := news'[d] + [position]];
        d := d + 1;
      }
    }

    /**
     * _extend: at each depth the other hierarchy's label positions are
     * remapped into this depth's index with _index_iloc_map, then ordered
     * by its indexer and written after what `news` holds.
     */
    method WriteBlock(news: seq<seq<nat>>, other: Hierarchy) returns (news': seq<seq<nat>>)
      requires Valid() && |news| == |indices|
      requires WellFormed(other) && IndexHierarchy.Depth(other) == |indices|
      requires forall d, x :: 0 <= d < |indices| && x in other.indices[d].labels ==> x in indices[d].labels
      ensures |news'| == |news|
      ensures RowsPresent(indices, Values(other))
      ensures forall d :: 0 <= d < |news| ==> news'[d] == news[d] + Encoded(indices, Values(other), d)
    {
      assert RowsPresent(indices, Values(other)) by {
        forall q, d | 0 <= q < IndexHierarchy.Len(other) && 0 <= d < |indices|
          ensures Values(other)[q][d] in indices[d].labels
        {
          ValueLabel(other, q, d);
        }
      }
      news' := news;
      var d := 0;
      while d < |indices|
        invariant 0 <= d <= |indices| && |news'| == |news|
        invariant forall e :: 0 <= e < d ==> news'[e] == news[e] + Encoded(indices, Values(other), e)
        invariant forall e :: d <= e < |news| ==> news'[e] == news[e]
      {
        var ordered := RemapDepth(indices[d], other, d);
        EncodedFromPositions(indices, Values(other), d, ordered);
        news' := news'[d := news'[d] + ordered];
        d := d + 1;
      }
    }

    /** One queued addition written after what `news` holds: a row by _append, a hierarchy by _extend. */
    method WritePending(news: seq<seq<nat>>, p: Pending) returns (news': seq<seq<nat>>)
      requires Valid() && |news| == |indices|
      requires PendingValid(p, |indices|) && PendingPresent(indices, p)
      ensures RowsPresent(indices, PendingRows(p))
      ensures |news'| == |news|
      ensures forall d :: 0 <= d < |news| ==> news'[d] == news[d] + Encoded(indices, PendingRows(p), d)
    {
      if p.PendingRow? {
        news' := WriteRow(news, p.row);
        assert RowsPresent(indices, [p.row]);
        forall d | 0 <= d < |news| ensures Encoded(indices, [p.row], d) == [IndexOf(indices[d].labels, p.row[d])] {
        }
      } else {
        news' := WriteBlock(news, p.other);
      }
    }

    /**
     * The loop of _update_array_cache: starting from the materialised
     * indexers, every queued addition is written after the previous one,
     * a row by _append and a hierarchy by _extend.
     */
    method ReplayQueue() returns (news: seq<seq<nat>>)
      requires Valid()
      ensures RowsPresent(indices, Queued(pending, |indices|))
      ensures news == Replayed(indices, indexers, Queued(pending, |indices|))
    {
      var depth := |indices|;
      news := indexers;
      var k := 0;
      ghost var rows: seq<seq<Label>> := [];
      while k < |pending|
        invariant 0 <= k <= |pending| && |news| == depth
        invariant AllPendingValid(pending[..k], depth) && rows == Queued(pending[..k], depth)
        invariant RowsPresent(indices, rows)
        invariant forall d :: 0 <= d < depth ==> news[d] == indexers[d] + Encoded(indices, rows, d)
      {
        var p := pending[k];
        assert PendingValid(p, depth) && PendingPresent(indices, p);
        QueuedSnoc(pending, k, depth);
        ghost var prev := news;
        news := WritePending(news, p);
        ReplayStep(indices, indexers, rows, PendingRows(p), prev, news);
        rows := rows + PendingRows(p);
        k := k + 1;
      }
      assert pending[..k] == pending;
      ReplayedEach(indices, indexers, rows, news);
    }

    /**
     * _update_array_cache: the materialised indexers are kept as a prefix
     * and every queued addition is written after them at consecutive
     * offsets; the queue is emptied, then uniqueness is checked, and only
     * a check that passes clears the stale flag.
     */
    method UpdateArrayCache() returns (r: Outcome)
      requires Valid()
      modifies this
      ensures Valid() && pending == [] && indices == old(indices)
      ensures RowsPresent(indices, Queued(old(pending), |indices|))
      ensures indexers == Replayed(indices, old(indexers), Queued(old(pending), |indices|))
      ensures Materialized() == old(Materialized()) + Queued(old(pending), |indices|)
      ensures r == EnsureUniqueness(indexers, Materialized())
      ensures r.Pass? ==> WellFormed(Hierarchy(indices, indexers, false))
      ensures recache == (old(recache) && r.Fail?)
    {
      var news := ReplayQueue();
      ReplayRows(indices, indexers, Queued(pending, |indices|));
      if !recache {
        assert news == indexers by {
          assert Queued(pending, |indices|) == [];
          forall d | 0 <= d < |news| ensures news[d] == indexers[d] {
            assert news[d] == indexers[d] + [];
          }
        }
      }
      pending := [];
      indexers := news;
      r := EnsureUniqueness(indexers, Rows(indices, indexers));
      if r.Pass? {
        recache := false;
      }
    }
  }

  /** While stale, __len__ already counts the rows the rebuild will materialise. */
  lemma LenMatchesReplay(indices: seq<Index>, indexers: seq<seq<nat>>, ps: seq<Pending>)
    requires |indices| == |indexers| >= 1 && Rect(indexers) && InRange(indices, indexers)
    requires AllPendingValid(ps, |indices|) && AllPendingPresent(indices, ps)
    ensures RowsPresent(indices, Queued(ps, |indices|))
    ensures Size(Replayed(indices, indexers, Queued(ps, |indices|))) == Size(indexers) + PendingTotal(ps)
  {
    QueuedPresent(indices, ps);
    ReplayRows(indices, indexers, Queued(ps, |indices|));
  }
}
