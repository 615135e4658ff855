/**
 * IndexHierarchy.from_index_items: pairs of (outer label, inner index) become
 * a two-depth hierarchy. The inner depth is one grow-only index that every
 * item extends with the labels it has not seen yet, so its labels are the
 * inner labels in order of first appearance.
 */
module IndexItems {
  import opened Labels
  import opened Errors
  import opened FlatIndex
  import opened IndexGrowOnly
  import Product
  import IndexHierarchy

  type Item = (Label, Index)

  /** The outer label of every item. */
  function OuterLabels(items: seq<Item>): (r: seq<Label>)
    ensures |r| == |items| && forall k :: 0 <= k < |items| ==> r[k] == items[k].0
  {
    seq(|items|, k requires 0 <= k < |items| => items[k].0)
  }

  /** Every inner label, item after item, repeats included. */
  function InnerStream(items: seq<Item>): seq<Label> {
    if items == [] then []
    else InnerStream(items[..|items| - 1]) + items[|items| - 1].1.labels
  }

  /** The rows contributed by one item: its outer label paired with each inner label. */
  function Pairs(outer: Label, inner: seq<Label>): (r: seq<seq<Label>>)
    ensures |r| == |inner|
  {
    seq(|inner|, i requires 0 <= i < |inner| => [outer, inner[i]])
  }

  /** The rows of the hierarchy the items describe, item after item. */
  function ItemRows(items: seq<Item>): seq<seq<Label>> {
    if items == [] then []
    else ItemRows(items[..|items| - 1]) + Pairs(items[|items| - 1].0, items[|items| - 1].1.labels)
  }

  /** The outer indexer: item k's position repeated once per inner label. */
  function Repeats(counts: seq<nat>): seq<nat> {
    if counts == [] then []
    else Repeats(counts[..|counts| - 1]) + Product.Repeat(|counts| - 1, counts[|counts| - 1])
  }

  /** The per-item inner indexers laid end to end. */
  function Concat(parts: seq<seq<nat>>): seq<nat> {
    if parts == [] then [] else Concat(parts[..|parts| - 1]) + parts[|parts| - 1]
  }

  predicate AllValid(items: seq<Item>) {
    forall k :: 0 <= k < |items| ==> Valid(items[k].1)
  }

  //---------------------------------------------------------------------------
  // first-seen order of a stream extended by distinct labels

  /**
   * Walking a stream and then a run of distinct labels adds, in the run's
   * order, exactly the labels the stream had not shown: the labels
   * Index.difference keeps.
   */
  lemma {:induction false} FirstSeenAppendDistinct(s: seq<Label>, t: seq<Label>)
    requires Distinct(t)
    ensures FirstSeen(s + t) == FirstSeen(s) + Filter(t, FirstSeen(s), false)
    decreases |t|
  {
    var fs := FirstSeen(s);
    if t == [] {
      assert s + t == s && fs + [] == fs;
    } else {
      var y, rest := t[0], t[1..];
      assert Distinct(rest) && y !in rest by {
        forall i | 0 <= i < |rest| ensures rest[i] != y {
          assert rest[i] == t[i + 1];
        }
      }
      var s' := s + [y];
      var fs' := FirstSeen(s');
      FirstSeenSnoc(s, y);
      assert s + t == s' + rest;
      FirstSeenAppendDistinct(s', rest);
      FilterIgnoresAbsent(rest, fs, y);
      if y in fs {
        assert fs' == fs;
      } else {
        assert fs' == fs + [y];
        assert (fs + [y]) + Filter(rest, fs, false) == fs + ([y] + Filter(rest, fs, false));
      }
    }
  }

  /** A filter against `b` is unchanged by adding to `b` a label that `a` does not hold. */
  lemma {:induction false} FilterIgnoresAbsent(a: seq<Label>, b: seq<Label>, y: Label)
    requires y !in a
    ensures Filter(a, b + [y], false) == Filter(a, b, false)
  {
    if a != [] {
      assert a == [a[0]] + a[1..];
      FilterIgnoresAbsent(a[1..], b, y);
      assert a[0] in b + [y] <==> a[0] in b;
    }
  }

  //---------------------------------------------------------------------------
  // the indexers address the item rows

  /**
   * Item j repeats its outer position counts[j] times, and its inner indexer
   * parts[j] maps each of its inner labels to that label's place in `keys`.
   */
  predicate Addressed(items: seq<Item>, counts: seq<nat>, parts: seq<seq<nat>>, keys: seq<Label>) {
    && |counts| == |parts| == |items|
    && (forall j :: 0 <= j < |items| ==> counts[j] == |items[j].1.labels| && |parts[j]| == counts[j])
    && (forall j, i :: 0 <= j < |items| && 0 <= i < |parts[j]| ==>
      parts[j][i] < |keys| && keys[parts[j][i]] == items[j].1.labels[i])
  }

  /**
   * Repeating each item's position and concatenating its inner indexer line
   * up with the item rows: row p is (outer label of its item, inner label
   * under the concatenated indexer).
   */
  lemma {:induction false} BlocksLineUp(items: seq<Item>, counts: seq<nat>, parts: seq<seq<nat>>, keys: seq<Label>)
    requires Addressed(items, counts, parts, keys)
    ensures |Repeats(counts)| == |Concat(parts)| == |ItemRows(items)|
    ensures forall p :: 0 <= p < |ItemRows(items)| ==>
      && Repeats(counts)[p] < |items| && Concat(parts)[p] < |keys|
      && ItemRows(items)[p] == [items[Repeats(counts)[p]].0, keys[Concat(parts)[p]]]
  {
    if items != [] {
      var n := |items| - 1;
      var items', counts', parts' := items[..n], counts[..n], parts[..n];
      BlocksLineUp(items', counts', parts', keys);
      var rs, cs, rows := Repeats(counts), Concat(parts), ItemRows(items);
      var m := |ItemRows(items')|;
      assert rows == ItemRows(items') + Pairs(items[n].0, items[n].1.labels);
      assert rs == Repeats(counts') + Product.Repeat(n, counts[n]);
      assert cs == Concat(parts') + parts[n];
      forall p | 0 <= p < |rows|
        ensures rs[p] < |items| && cs[p] < |keys| && rows[p] == [items[rs[p]].0, keys[cs[p]]]
      {
        if p < m {
          assert rows[p] == ItemRows(items')[p] && rs[p] == Repeats(counts')[p] && cs[p] == Concat(parts')[p];
          assert items'[rs[p]] == items[rs[p]];
        } else {
          var i := p - m;
          assert rs[p] == n && cs[p] == parts[n][i];
          assert rows[p] == [items[n].0, items[n].1.labels[i]];
        }
      }
    }
  }

  /** The two indexers over (outer labels, inner keys) read back exactly the item rows. */
  lemma RowsOfItems(items: seq<Item>, counts: seq<nat>, parts: seq<seq<nat>>, outer: Index, inner: Index)
    requires Addressed(items, counts, parts, inner.labels) && outer.labels == OuterLabels(items)
    ensures var indices, indexers := [outer, inner], [Repeats(counts), Concat(parts)];
      && IndexHierarchy.Rect(indexers) && IndexHierarchy.InRange(indices, indexers)
      && IndexHierarchy.Rows(indices, indexers) == ItemRows(items)
  {
    var indices, indexers := [outer, inner], [Repeats(counts), Concat(parts)];
    BlocksLineUp(items, counts, parts, inner.labels);
    assert IndexHierarchy.Rect(indexers);
    assert IndexHierarchy.InRange(indices, indexers);
    var rows := IndexHierarchy.Rows(indices, indexers);
    forall p | 0 <= p < |rows| ensures rows[p] == ItemRows(items)[p] {
      assert rows[p] == [outer.labels[indexers[0][p]], inner.labels[indexers[1][p]]];
    }
  }

  /** Distinct outer labels over indices of distinct labels give distinct rows. */
  lemma {:induction false} ItemRowsDistinct(items: seq<Item>)
    requires AllValid(items) && Distinct(OuterLabels(items))
    ensures Distinct(ItemRows(items))
    ensures forall p :: 0 <= p < |ItemRows(items)| ==> |ItemRows(items)[p]| == 2 && ItemRows(items)[p][0] in OuterLabels(items)
  {
    if items != [] {
      var n := |items| - 1;
      var items' := items[..n];
      assert OuterLabels(items') == OuterLabels(items)[..n];
      assert Distinct(OuterLabels(items')) by {
        forall i, j | 0 <= i < j < n ensures OuterLabels(items')[i] != OuterLabels(items')[j] {
          assert OuterLabels(items)[i] != OuterLabels(items)[j];
        }
      }
      ItemRowsDistinct(items');
      var pre, block := ItemRows(items'), Pairs(items[n].0, items[n].1.labels);
      var rows := ItemRows(items);
      assert rows == pre + block;
      assert items[n].0 !in OuterLabels(items') by {
        forall j | 0 <= j < n ensures OuterLabels(items')[j] != items[n].0 {
          assert OuterLabels(items)[j] != OuterLabels(items)[n];
        }
      }
      forall p, q | 0 <= p < q < |rows| ensures rows[p] != rows[q] {
        if q >= |pre| && p < |pre| {
          assert rows[q][0] == items[n].0 && rows[p][0] in OuterLabels(items');
        } else if p >= |pre| {
          assert Valid(items[n].1);
          assert rows[p][1] == items[n].1.labels[p - |pre|] && rows[q][1] == items[n].1.labels[q - |pre|];
        }
      }
      forall p | 0 <= p < |rows| ensures |rows[p]| == 2 && rows[p][0] in OuterLabels(items) {
        if p < |pre| {
          assert rows[p] == pre[p];
          assert OuterLabels(items') <= OuterLabels(items);
        } else {
          assert OuterLabels(items)[n] == items[n].0;
        }
      }
    }
  }

  //---------------------------------------------------------------------------
  // the constructor

  /** What holds after walking the items `done`: the outer labels, the inner keys in first-seen order, and indexers addressing them. */
  predicate Walked(done: seq<Item>, labels: seq<Label>, counts: seq<nat>, parts: seq<seq<nat>>, keys: seq<Label>) {
    && labels == OuterLabels(done)
    && keys == FirstSeen(InnerStream(done))
    && Addressed(done, counts, parts, keys)
  }

  /** The keys grew by the index's unseen labels, and the indexer maps each of its labels into the grown keys. */
  predicate Absorbed(keys: seq<Label>, index: Index, keys': seq<Label>, indexer: seq<nat>) {
    && keys' == keys + Filter(index.labels, keys, false)
    && |indexer| == |index.labels|
    && forall i :: 0 <= i < |index.labels| ==> indexer[i] < |keys'| && keys'[indexer[i]] == index.labels[i]
  }

  /** One item of the walk: the keys grow by the item's unseen labels, and its indexer addresses the grown keys. */
  lemma WalkStep(done: seq<Item>, item: Item, labels: seq<Label>, counts: seq<nat>, parts: seq<seq<nat>>,
                 keys: seq<Label>, keys': seq<Label>, indexer: seq<nat>)
    requires Valid(item.1)
    requires Walked(done, labels, counts, parts, keys)
    requires Absorbed(keys, item.1, keys', indexer)
    ensures Walked(done + [item], labels + [item.0], counts + [|item.1.labels|], parts + [indexer], keys')
  {
    var done' := done + [item];
    assert done'[..|done|] == done;
    assert InnerStream(done') == InnerStream(done) + item.1.labels;
    assert OuterLabels(done') == OuterLabels(done) + [item.0];
    FirstSeenAppendDistinct(InnerStream(done), item.1.labels);
    AddressedSnoc(done, item, counts, parts, keys, keys', indexer);
  }

  /** Appending keys keeps every earlier indexer entry meaningful; the new item's indexer is added on top. */
  lemma AddressedSnoc(items: seq<Item>, item: Item, counts: seq<nat>, parts: seq<seq<nat>>,
                      keys: seq<Label>, keys': seq<Label>, indexer: seq<nat>)
    requires Addressed(items, counts, parts, keys) && keys <= keys'
    requires |indexer| == |item.1.labels|
    requires forall i :: 0 <= i < |indexer| ==> indexer[i] < |keys'| && keys'[indexer[i]] == item.1.labels[i]
    ensures Addressed(items + [item], counts + [|item.1.labels|], parts + [indexer], keys')
  {
    var items', counts', parts' := items + [item], counts + [|item.1.labels|], parts + [indexer];
    forall j | 0 <= j < |items'| ensures counts'[j] == |items'[j].1.labels| && |parts'[j]| == counts'[j] {
      if j < |items| {
        assert items'[j] == items[j] && counts'[j] == counts[j] && parts'[j] == parts[j];
      }
    }
    forall j, i | 0 <= j < |items'| && 0 <= i < |parts'[j]|
      ensures parts'[j][i] < |keys'| && keys'[parts'[j][i]] == items'[j].1.labels[i]
    {
      if j < |items| {
        assert items'[j] == items[j] && parts'[j] == parts[j];
        assert keys'[parts[j][i]] == keys[parts[j][i]];
      }
    }
  }

  /** Extending the inner index by labels it lacks appends all of them. */
  method ExtendNovel(inner: IndexGO, novel: seq<Label>)
    requires inner.Valid() && Distinct(novel)
    requires forall x :: x in novel ==> x !in inner.labelsMutable
    modifies inner
    ensures inner.Valid() && inner.labelsMutable == old(inner.labelsMutable) + novel
  {
    FirstClashNone(inner.labelsMutable, novel);
    ExtendAllAppendsPrefix(inner.View(), novel);
    var _ := inner.Extend(novel);
    assert novel[..|novel|] == novel;
  }

  /**
   * One later item: the grow-only inner index is extended by index.difference
   * of it (the new labels, in the item's order), and the item's inner
   * indexer maps each of its labels to its position there.
   */
  method Absorb(inner: IndexGO, index: Index) returns (indexer: seq<nat>)
    requires inner.Valid() && Valid(index)
    modifies inner
    ensures inner.Valid()
    ensures inner.labelsMutable == old(inner.labelsMutable) + Filter(index.labels, old(inner.labelsMutable), false)
    ensures |indexer| == |index.labels|
    ensures forall i :: 0 <= i < |index.labels| ==>
      indexer[i] < |inner.labelsMutable| && inner.labelsMutable[indexer[i]] == index.labels[i]
  {
    inner.UpdateArrayCache();
    var novel := UfuncSet(Difference, index, OfIndex(inner.View()));
    DifferenceInOrder(index, inner.View());
    if |novel.labels| > 0 {
      ExtendNovel(inner, novel.labels);
    }
    inner.UpdateArrayCache();
    assert forall x :: x in index.labels ==> x in inner.labelsMutable;
    indexer := IndexIlocMap(index, inner.View()).value;
  }

  /** The first item's index becomes the grow-only inner index with the identity indexer; every later one is absorbed. */
  method StepItem(inner: IndexGO?, index: Index) returns (inner': IndexGO, indexer: seq<nat>)
    requires Valid(index) && (inner != null ==> inner.Valid())
    modifies inner
    ensures inner'.Valid() && (if inner == null then fresh(inner') else inner' == inner)
    ensures Absorbed(if inner == null then [] else old(inner.labelsMutable), index, inner'.labelsMutable, indexer)
  {
    if inner == null {
      inner' := new IndexGO(index);
      indexer := Range(|index.labels|);
      FilterNothing(index.labels);
    } else {
      inner' := inner;
      indexer := Absorb(inner, index);
    }
  }

  /** One turn of the loop: absorb the item's index and record its outer label, count and inner indexer. */
  method WalkOne(inner: IndexGO?, item: Item, ghost done: seq<Item>, labels: seq<Label>, counts: seq<nat>,
                 parts: seq<seq<nat>>, ghost keys: seq<Label>)
    returns (inner': IndexGO, labels': seq<Label>, counts': seq<nat>, parts': seq<seq<nat>>, ghost keys': seq<Label>)
    requires Valid(item.1) && Walked(done, labels, counts, parts, keys)
    requires inner == null ==> keys == []
    requires inner != null ==> inner.Valid() && inner.labelsMutable == keys
    modifies inner
    ensures inner'.Valid() && inner'.labelsMutable == keys'
    ensures if inner == null then fresh(inner') else inner' == inner
    ensures Walked(done + [item], labels', counts', parts', keys')
  {
    var indexer;
    inner', indexer := StepItem(inner, item.1);
    keys' := inner'.labelsMutable;
    WalkStep(done, item, labels, counts, parts, keys, keys', indexer);
    labels', counts', parts' := labels + [item.0], counts + [|item.1.labels|], parts + [indexer];
  }

  /**
   * The loop over the items. The first item's index becomes the grow-only
   * inner index with the identity indexer; every later item goes through
   * Absorb. The inner index is returned as a reader sees it.
   */
  method WalkItems(items: seq<Item>) returns (labels: seq<Label>, innerView: Index, counts: seq<nat>, parts: seq<seq<nat>>)
    requires AllValid(items)
    ensures Valid(innerView) && Walked(items, labels, counts, parts, innerView.labels)
  {
    labels, counts, parts := [], [], [];
    var inner: IndexGO? := null;
    ghost var keys: seq<Label> := [];
    ghost var done: seq<Item> := [];
    for k := 0 to |items|
      invariant (inner == null) == (k == 0)
      invariant inner == null ==> keys == []
      invariant inner != null ==> fresh(inner) && inner.Valid() && inner.labelsMutable == keys
      invariant done == items[..k]
      invariant Walked(done, labels, counts, parts, keys)
    {
      inner, labels, counts, parts, keys := WalkOne(inner, items[k], done, labels, counts, parts, keys);
      PrefixSnoc(items, k);
      done := done + [items[k]];
    }
    assert done == items;
    innerView := if inner == null then Empty(false) else inner.View();
  }

  /** With distinct outer labels, the walk's indexers form a hierarchy whose rows are the item rows. */
  lemma AssembleItems(items: seq<Item>, counts: seq<nat>, parts: seq<seq<nat>>, outer: Index, inner: Index, isStatic: bool)
    requires AllValid(items) && Distinct(OuterLabels(items))
    requires Addressed(items, counts, parts, inner.labels)
    requires Valid(outer) && Valid(inner) && outer.labels == OuterLabels(items)
    requires outer.isStatic == isStatic && inner.isStatic == isStatic
    ensures var r := IndexHierarchy.New([outer, inner], [Repeats(counts), Concat(parts)], isStatic);
      r.Ok? && IndexHierarchy.Values(r.value) == ItemRows(items)
  {
    RowsOfItems(items, counts, parts, outer, inner);
    ItemRowsDistinct(items);
    IndexHierarchy.RowsDistinctIffTuples([outer, inner], [Repeats(counts), Concat(parts)], isStatic);
  }

  /**
   * from_index_items. No item gives an empty two-depth hierarchy; otherwise
   * the outer index refuses repeated outer labels, and the result holds one
   * row per (outer label, inner label) pair, with the inner labels at depth
   * 1 in order of first appearance.
   */
  method FromIndexItems(items: seq<Item>, isStatic: bool) returns (r: Result<IndexHierarchy.Hierarchy>)
    requires AllValid(items)
    ensures items == [] ==> r == IndexHierarchy.FromEmpty(Some(2), isStatic)
    ensures items != [] ==> (r.Ok? <==> Distinct(OuterLabels(items)))
    ensures items != [] && r.Err? ==> r.error == NonUniqueError(OuterLabels(items))
    ensures items != [] && r.Ok? ==>
      && IndexHierarchy.WellFormed(r.value)
      && IndexHierarchy.Values(r.value) == ItemRows(items)
      && IndexHierarchy.Depth(r.value) == 2
      && r.value.indices[0].labels == OuterLabels(items)
      && r.value.indices[1].labels == FirstSeen(InnerStream(items))
      && r.value.isStatic == isStatic
  {
    var labels, innerView, counts, parts := WalkItems(items);
    if labels == [] {
      return IndexHierarchy.FromEmpty(Some(2), isStatic);
    }
    var innerIndex := MutableImmutableFilter(isStatic, innerView);
    var outer := FlatIndex.New(FromLabels(labels), false, isStatic);
    if outer.Err? {
      return Err(outer.error);
    }
    AssembleItems(items, counts, parts, outer.value, innerIndex, isStatic);
    r := IndexHierarchy.New([outer.value, innerIndex], [Repeats(counts), Concat(parts)], isStatic);
  }

  lemma PrefixSnoc(items: seq<Item>, k: nat)
    requires k < |items|
    ensures items[..k + 1] == items[..k] + [items[k]]
  {
  }

  lemma FilterNothing(t: seq<Label>)
    ensures Filter(t, [], false) == t
  {
    if t != [] {
      FilterNothing(t[1..]);
    }
  }
}
