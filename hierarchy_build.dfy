/**
 * IndexHierarchy.from_labels: rows of labels streamed into one dictionary
 * of first-seen labels and one indexer per depth, with an optional
 * continuation token that repeats the previous row's label at its depth.
 */
module HierarchyBuild {
  import opened Labels
  import opened Errors
  import opened FlatIndex
  import opened IndexHierarchy

  /** Every row has `depth` labels. */
  predicate Uniform(rows: seq<seq<Label>>, depth: nat) {
    forall p :: 0 <= p < |rows| ==> |rows[p]| == depth
  }

  /**
   * One row with its continuation tokens replaced: a token takes the
   * previous row's label at its depth; in the first row it stays a label.
   */
  function ResolveRow(row: seq<Label>, prev: Option<seq<Label>>, token: Option<Label>): (r: seq<Label>)
    requires prev.Some? ==> |prev.value| == |row|
    ensures |r| == |row|
    ensures forall d :: 0 <= d < |row| ==>
      r[d] == if token.Some? && row[d] == token.value && prev.Some? then prev.value[d] else row[d]
  {
    seq(|row|, d requires 0 <= d < |row| =>
      if token.Some? && row[d] == token.value && prev.Some? then prev.value[d] else row[d])
  }

  /** The rows as the hierarchy will hold them: every continuation token resolved, in order. */
  function Resolve(rows: seq<seq<Label>>, token: Option<Label>, depth: nat): (r: seq<seq<Label>>)
    requires Uniform(rows, depth)
    ensures |r| == |rows| && Uniform(r, depth)
  {
    if rows == [] then []
    else
      var init := Resolve(rows[..|rows| - 1], token, depth);
      var prev := if init == [] then None else Some(init[|init| - 1]);
      init + [ResolveRow(rows[|rows| - 1], prev, token)]
  }

  /** The labels of every row at depth d. */
  function Col(rows: seq<seq<Label>>, depth: nat, d: nat): (c: seq<Label>)
    requires Uniform(rows, depth) && d < depth
    ensures |c| == |rows| && forall p :: 0 <= p < |rows| ==> c[p] == rows[p][d]
  {
    seq(|rows|, p requires 0 <= p < |rows| => rows[p][d])
  }

  /** Depth d's labels: its values in first-seen order (the keys of its hash map). */
  function LabelsAt(rows: seq<seq<Label>>, depth: nat, d: nat): seq<Label>
    requires Uniform(rows, depth) && d < depth
  {
    FirstSeen(Col(rows, depth, d))
  }

  /** Depth d's indexer: each row's position of its label among the depth's labels. */
  function IndexerAt(rows: seq<seq<Label>>, depth: nat, d: nat): (ix: seq<nat>)
    requires Uniform(rows, depth) && d < depth
    ensures |ix| == |rows|
  {
    var c := Col(rows, depth, d);
    FirstSeenSpec(c);
    assert forall p :: 0 <= p < |rows| ==> c[p] in c;
    seq(|rows|, p requires 0 <= p < |rows| => IndexOf(FirstSeen(c), rows[p][d]))
  }

  /** Every indexer entry addresses its row's label among the depth's labels. */
  lemma IndexerAtSpec(rows: seq<seq<Label>>, depth: nat, d: nat)
    requires Uniform(rows, depth) && d < depth
    ensures forall p :: 0 <= p < |rows| ==>
      IndexerAt(rows, depth, d)[p] < |LabelsAt(rows, depth, d)| && LabelsAt(rows, depth, d)[IndexerAt(rows, depth, d)[p]] == rows[p][d]
  {
    var c := Col(rows, depth, d);
    FirstSeenSpec(c);
    assert forall p :: 0 <= p < |rows| ==> c[p] in c;
  }

  function SpecIndices(rows: seq<seq<Label>>, depth: nat, isStatic: bool): (r: seq<Index>)
    requires Uniform(rows, depth)
    ensures |r| == depth && AllValid(r, isStatic)
    ensures forall d :: 0 <= d < depth ==> r[d].labels == LabelsAt(rows, depth, d)
  {
    seq(depth, d requires 0 <= d < depth =>
      FirstSeenSpec(Col(rows, depth, d));
      FromDistinct(LabelsAt(rows, depth, d), isStatic))
  }

  function SpecLabels(rows: seq<seq<Label>>, depth: nat): (r: seq<seq<Label>>)
    requires Uniform(rows, depth)
    ensures |r| == depth && forall d :: 0 <= d < depth ==> r[d] == LabelsAt(rows, depth, d)
  {
    seq(depth, d requires 0 <= d < depth => LabelsAt(rows, depth, d))
  }

  function SpecIndexers(rows: seq<seq<Label>>, depth: nat): (r: seq<seq<nat>>)
    requires Uniform(rows, depth)
    ensures |r| == depth && forall d :: 0 <= d < depth ==> r[d] == IndexerAt(rows, depth, d)
  {
    seq(depth, d requires 0 <= d < depth => IndexerAt(rows, depth, d))
  }

  /**
   * from_labels as a value: no rows defer to _from_empty; a first row of one
   * label, or a later row of another length than the first, is refused;
   * otherwise each depth's first-seen labels and indexer go to the
   * initializer.
   */
  function FromLabelsValue(rows: seq<seq<Label>>, token: Option<Label>, depthReference: Option<int>, isStatic: bool): Result<Hierarchy> {
    if rows == [] then FromEmpty(depthReference, isStatic)
    else if |rows[0]| == 1 then Err(ErrorInitIndex(MsgOneLevel))
    else if !Uniform(rows, |rows[0]|) then Err(ErrorInitIndex(MsgRowDepth))
    else
      var depth := |rows[0]|;
      var resolved := Resolve(rows, token, depth);
      IndexHierarchy.New(SpecIndices(resolved, depth, isStatic), SpecIndexers(resolved, depth), isStatic)
  }

  /** One more row adds its label at the end of every column. */
  lemma ColSnoc(rows: seq<seq<Label>>, row: seq<Label>, depth: nat, d: nat)
    requires Uniform(rows, depth) && |row| == depth && d < depth
    ensures Uniform(rows + [row], depth)
    ensures Col(rows + [row], depth, d) == Col(rows, depth, d) + [row[d]]
  {
  }

  /** Depth d's labels gain the new row's label exactly when it is new there. */
  lemma LabelsSnoc(rows: seq<seq<Label>>, row: seq<Label>, depth: nat, d: nat)
    requires Uniform(rows, depth) && |row| == depth && d < depth
    ensures Uniform(rows + [row], depth)
    ensures LabelsAt(rows + [row], depth, d) ==
      if row[d] in LabelsAt(rows, depth, d) then LabelsAt(rows, depth, d) else LabelsAt(rows, depth, d) + [row[d]]
  {
    ColSnoc(rows, row, depth, d);
    FirstSeenSnoc(Col(rows, depth, d), row[d]);
  }

  /** Depth d's indexer keeps its entries and appends the new row's position. */
  lemma {:induction false} IndexerSnoc(rows: seq<seq<Label>>, row: seq<Label>, depth: nat, d: nat)
    requires Uniform(rows, depth) && |row| == depth && d < depth
    ensures Uniform(rows + [row], depth)
    ensures row[d] in LabelsAt(rows + [row], depth, d)
    ensures IndexerAt(rows + [row], depth, d) ==
      IndexerAt(rows, depth, d) + [IndexOf(LabelsAt(rows + [row], depth, d), row[d])]
  {
    var rs := rows + [row];
    LabelsSnoc(rows, row, depth, d);
    var old_, new_ := LabelsAt(rows, depth, d), LabelsAt(rs, depth, d);
    var tail := if row[d] in old_ then [] else [row[d]];
    assert new_ == old_ + tail;
    assert row[d] in new_ by {
      if row[d] !in old_ {
        assert new_[|old_|] == row[d];
      }
    }
    var lhs, rhs := IndexerAt(rs, depth, d), IndexerAt(rows, depth, d) + [IndexOf(new_, row[d])];
    forall p | 0 <= p < |rows| ensures lhs[p] == rhs[p] {
      FirstSeenSpec(Col(rows, depth, d));
      assert rows[p][d] in old_ by { assert Col(rows, depth, d)[p] in Col(rows, depth, d); }
      IndexOfPrefix(old_, tail, rows[p][d]);
    }
    assert lhs[|rows|] == rhs[|rows|];
  }

  /** Resolving one more row appends that row, resolved against the last resolved row. */
  lemma ResolveSnoc(rows: seq<seq<Label>>, i: nat, token: Option<Label>, depth: nat)
    requires Uniform(rows, depth) && i < |rows|
    ensures Resolve(rows[..i + 1], token, depth) ==
      Resolve(rows[..i], token, depth) +
        [ResolveRow(rows[i], if i == 0 then None else Some(Resolve(rows[..i], token, depth)[i - 1]), token)]
  {
    assert rows[..i + 1][..i] == rows[..i];
  }

  /** A new label goes to the end of the hash map's keys, at the next position. */
  lemma ObserveNew(keys: seq<Label>, x: Label)
    requires Distinct(keys) && x !in keys
    ensures x in keys + [x] && IndexOf(keys + [x], x) == |keys|
    ensures PositionMap(keys + [x]) == PositionMap(keys)[x := |keys|]
  {
    assert (keys + [x])[..|keys|] == keys;
  }

  /** A known label keeps the position the hash map recorded for it. */
  lemma ObserveKnown(keys: seq<Label>, x: Label, pos: nat)
    requires Distinct(keys) && pos < |keys| && x == keys[pos]
    ensures x in keys && IndexOf(keys, x) == pos && x in PositionMap(keys) && PositionMap(keys)[x] == pos
  {
    IndexOfDistinct(keys, pos);
    PositionMapInverts(keys);
  }

  /**
   * One label of one row at one depth: an active continuation token repeats
   * the last position (in the first row it is itself stored at position 0),
   * a label not yet in the hash map takes the next position, and a known
   * label its recorded one. `x` is the label the row ends up holding there.
   */
  method ObserveLabel(hashMap: map<Label, nat>, keys: seq<Label>, indexer: seq<nat>, v: Label, isToken: bool, ghost x: Label)
    returns (hashMap': map<Label, nat>, keys': seq<Label>, indexer': seq<nat>)
    requires Ready(hashMap, keys, indexer, v, isToken, x)
    ensures Stepped(keys, indexer, x, hashMap', keys', indexer')
  {
    var pos: nat;
    if isToken && indexer != [] {
      // repeat the last observed position
      pos := indexer[|indexer| - 1];
      ObserveKnown(keys, x, pos);
      keys', hashMap' := keys, hashMap;
    } else if isToken {
      // the first row: the token is a label at position 0
      pos := 0;
      ObserveNew(keys, v);
      hashMap' := hashMap[v := pos];
      keys' := keys + [v];
    } else if v !in hashMap {
      pos := |keys|;
      PositionMapInverts(keys);
      ObserveNew(keys, v);
      hashMap' := hashMap[v := pos];
      keys' := keys + [v];
    } else {
      PositionMapInverts(keys);
      pos := hashMap[v];
      ObserveKnown(keys, v, pos);
      keys', hashMap' := keys, hashMap;
    }
    indexer' := indexer + [pos];
  }

  /** A depth's hash-map keys after one more label: unchanged if known, else extended. */
  function Observed(keys: seq<Label>, x: Label): (r: seq<Label>)
    ensures x in r
  {
    if x in keys then keys else keys + [x]
  }

  /** What ObserveLabel asks of one depth's state: the hash map and the indexer agree with the keys. */
  predicate Ready(hashMap: map<Label, nat>, keys: seq<Label>, indexer: seq<nat>, v: Label, isToken: bool, x: Label) {
    && Distinct(keys) && hashMap == PositionMap(keys)
    && (forall p :: 0 <= p < |indexer| ==> indexer[p] < |keys|)
    && (isToken && indexer != [] ==> x == keys[indexer[|indexer| - 1]])
    && (!(isToken && indexer != []) ==> x == v)
    && (indexer == [] ==> keys == [])
  }

  /** One depth's state after observing label x: what ObserveLabel guarantees. */
  predicate Stepped(keys: seq<Label>, indexer: seq<nat>, x: Label, hashMap': map<Label, nat>, keys': seq<Label>, indexer': seq<nat>) {
    && keys' == Observed(keys, x)
    && hashMap' == PositionMap(keys')
    && x in keys'
    && indexer' == indexer + [IndexOf(keys', x)]
  }

  /** One row through every depth, left to right; `row` is the row as resolved. */
  method ObserveRow(hashMaps: seq<map<Label, nat>>, keys: seq<seq<Label>>, indexers: seq<seq<nat>>,
                    labelRow: seq<Label>, token: Option<Label>, ghost row: seq<Label>)
    returns (hashMaps': seq<map<Label, nat>>, keys': seq<seq<Label>>, indexers': seq<seq<nat>>)
    requires |hashMaps| == |keys| == |indexers| == |labelRow| == |row|
    requires forall e :: 0 <= e < |keys| ==>
      Ready(hashMaps[e], keys[e], indexers[e], labelRow[e], token.Some? && labelRow[e] == token.value, row[e])
    ensures |hashMaps'| == |keys'| == |indexers'| == |keys|
    ensures forall e :: 0 <= e < |keys| ==> Stepped(keys[e], indexers[e], row[e], hashMaps'[e], keys'[e], indexers'[e])
  {
    hashMaps', keys', indexers' := [], [], [];
    var d := 0;
    while d < |labelRow|
      invariant 0 <= d <= |labelRow|
      invariant |hashMaps'| == |keys'| == |indexers'| == d
      invariant forall e :: 0 <= e < d ==> Stepped(keys[e], indexers[e], row[e], hashMaps'[e], keys'[e], indexers'[e])
    {
      var v := labelRow[d];
      var m, k, ix := ObserveLabel(hashMaps[d], keys[d], indexers[d], v, token.Some? && v == token.value, row[d]);
      hashMaps', keys', indexers' := hashMaps' + [m], keys' + [k], indexers' + [ix];
      d := d + 1;
    }
  }

  /** Before a row is observed, every depth's state is ready for it. */
  lemma {:induction false} RowReady(rows: seq<seq<Label>>, row: seq<Label>, depth: nat, token: Option<Label>, labelRow: seq<Label>,
                                    hashMaps: seq<map<Label, nat>>, keys: seq<seq<Label>>, indexers: seq<seq<nat>>)
    requires Uniform(rows, depth) && |labelRow| == depth
    requires row == ResolveRow(labelRow, if rows == [] then None else Some(rows[|rows| - 1]), token)
    requires keys == SpecLabels(rows, depth) && indexers == SpecIndexers(rows, depth) && hashMaps == PositionMaps(keys)
    ensures forall e :: 0 <= e < |keys| ==>
      Ready(hashMaps[e], keys[e], indexers[e], labelRow[e], token.Some? && labelRow[e] == token.value, row[e])
  {
    forall e | 0 <= e < depth
      ensures Ready(hashMaps[e], keys[e], indexers[e], labelRow[e], token.Some? && labelRow[e] == token.value, row[e])
    {
      FirstSeenSpec(Col(rows, depth, e));
      IndexerAtSpec(rows, depth, e);
      if rows == [] {
        assert Col(rows, depth, e) == [];
      }
    }
  }

  /** After a row is observed, every depth holds the state of one more row. */
  lemma {:induction false} RowDone(rows: seq<seq<Label>>, row: seq<Label>, depth: nat,
                                   keys: seq<seq<Label>>, indexers: seq<seq<nat>>,
                                   hashMaps': seq<map<Label, nat>>, keys': seq<seq<Label>>, indexers': seq<seq<nat>>)
    requires Uniform(rows, depth) && |row| == depth
    requires keys == SpecLabels(rows, depth) && indexers == SpecIndexers(rows, depth)
    requires |hashMaps'| == |keys'| == |indexers'| == depth
    requires forall e :: 0 <= e < depth ==> Stepped(keys[e], indexers[e], row[e], hashMaps'[e], keys'[e], indexers'[e])
    ensures Uniform(rows + [row], depth)
    ensures keys' == SpecLabels(rows + [row], depth) && indexers' == SpecIndexers(rows + [row], depth)
    ensures hashMaps' == PositionMaps(keys')
  {
    forall e | 0 <= e < depth
      ensures keys'[e] == LabelsAt(rows + [row], depth, e) && indexers'[e] == IndexerAt(rows + [row], depth, e)
    {
      LabelsSnoc(rows, row, depth, e);
      IndexerSnoc(rows, row, depth, e);
    }
  }

  /** The hash map of every depth. */
  function PositionMaps(keys: seq<seq<Label>>): (r: seq<map<Label, nat>>)
    ensures |r| == |keys| && forall d :: 0 <= d < |keys| ==> r[d] == PositionMap(keys[d])
  {
    seq(|keys|, d requires 0 <= d < |keys| => PositionMap(keys[d]))
  }

  /**
   * The loop of from_labels: every row, in order, through the hash maps and
   * indexers of the depths; a row of another length than `depth` stops it.
   */
  method ObserveRows(rows: seq<seq<Label>>, token: Option<Label>, depth: nat)
    returns (r: Option<(seq<map<Label, nat>>, seq<seq<Label>>, seq<seq<nat>>)>)
    ensures r.None? <==> !Uniform(rows, depth)
    ensures r.Some? ==>
      && r.value.1 == SpecLabels(Resolve(rows, token, depth), depth)
      && r.value.2 == SpecIndexers(Resolve(rows, token, depth), depth)
      && r.value.0 == PositionMaps(r.value.1)
  {
    var hashMaps: seq<map<Label, nat>> := seq(depth, _ => map[]);
    var keys: seq<seq<Label>> := seq(depth, _ => []);
    var indexers: seq<seq<nat>> := seq(depth, _ => []);
    assert keys == SpecLabels([], depth) && indexers == SpecIndexers([], depth) && hashMaps == PositionMaps(keys);
    var i := 0;
    ghost var resolved: seq<seq<Label>> := [];
    while i < |rows|
      invariant 0 <= i <= |rows| && Uniform(rows[..i], depth)
      invariant resolved == Resolve(rows[..i], token, depth)
      invariant keys == SpecLabels(resolved, depth) && indexers == SpecIndexers(resolved, depth)
      invariant hashMaps == PositionMaps(keys)
    {
      if |rows[i]| != depth {
        assert !Uniform(rows, depth) by { assert |rows[i]| != depth; }
        return None;
      }
      assert Uniform(rows[..i + 1], depth) by { assert rows[..i + 1] == rows[..i] + [rows[i]]; }
      ghost var row := ResolveRow(rows[i], if i == 0 then None else Some(resolved[i - 1]), token);
      ResolveSnoc(rows[..i + 1], i, token, depth);
      assert rows[..i + 1][..i] == rows[..i] && rows[..i + 1][i] == rows[i];
      RowReady(resolved, row, depth, token, rows[i], hashMaps, keys, indexers);
      var hashMaps', keys', indexers' := ObserveRow(hashMaps, keys, indexers, rows[i], token, row);
      RowDone(resolved, row, depth, keys, indexers, hashMaps', keys', indexers');
      hashMaps, keys, indexers := hashMaps', keys', indexers';
      resolved := resolved + [row];
      i := i + 1;
    }
    assert rows[..i] == rows;
    r := Some((hashMaps, keys, indexers));
  }

  /**
   * from_labels: no rows defer to _from_empty, a first row of one label is
   * refused, and otherwise the rows are observed and every depth's hash
   * map becomes its index.
   */
  method FromLabels(rows: seq<seq<Label>>, token: Option<Label>, depthReference: Option<int>, isStatic: bool)
    returns (r: Result<Hierarchy>)
    ensures r == FromLabelsValue(rows, token, depthReference, isStatic)
  {
    if rows == [] {
      return FromEmpty(depthReference, isStatic);
    }
    var depth := |rows[0]|;
    if depth == 1 {
      return Err(ErrorInitIndex(MsgOneLevel));
    }
    var observed := ObserveRows(rows, token, depth);
    if observed.None? {
      return Err(ErrorInitIndex(MsgRowDepth));
    }
    var (_, keys, indexers) := observed.value;
    ghost var resolved := Resolve(rows, token, depth);
    var indices := seq(depth, d requires 0 <= d < depth => FirstSeenSpec(Col(resolved, depth, d)); FromDistinct(keys[d], isStatic));
    assert indices == SpecIndices(resolved, depth, isStatic);
    r := IndexHierarchy.New(indices, indexers, isStatic);
  }

  /**
   * What from_labels builds from uniform rows: the hierarchy's rows are the
   * resolved rows, each depth lists its distinct values in first-seen order,
   * and it is refused exactly when two resolved rows are equal.
   */
  lemma FromLabelsRows(rows: seq<seq<Label>>, token: Option<Label>, depthReference: Option<int>, isStatic: bool)
    requires rows != [] && |rows[0]| != 1 && Uniform(rows, |rows[0]|)
    ensures var r := FromLabelsValue(rows, token, depthReference, isStatic);
      var resolved := Resolve(rows, token, |rows[0]|);
      && (r.Ok? <==> |rows[0]| >= 2 && Distinct(resolved))
      && (r.Ok? ==> Values(r.value) == resolved)
      && (r.Ok? ==> forall d :: 0 <= d < |rows[0]| ==> r.value.indices[d].labels == FirstSeen(Col(resolved, |rows[0]|, d)))
  {
    var depth := |rows[0]|;
    var resolved := Resolve(rows, token, depth);
    var indices, indexers := SpecIndices(resolved, depth, isStatic), SpecIndexers(resolved, depth);
    if depth >= 2 {
      assert Size(indexers) == |rows| by {
        assert indexers[0] == IndexerAt(resolved, depth, 0);
      }
      assert Rect(indexers);
      forall d | 0 <= d < depth ensures forall p :: 0 <= p < |rows| ==>
        indexers[d][p] < |indices[d].labels| && indices[d].labels[indexers[d][p]] == resolved[p][d]
      {
        IndexerAtSpec(resolved, depth, d);
      }
      assert InRange(indices, indexers);
      var rs := Rows(indices, indexers);
      forall p | 0 <= p < |rows| ensures rs[p] == resolved[p] {
        assert Row(indices, indexers, p) == resolved[p];
      }
      assert rs == resolved;
      RowsDistinctIffTuples(indices, indexers, isStatic);
    }
  }

  /** A continuation token repeats the label above it; in the first row it is itself the label. */
  lemma ContinuationRepeats(rows: seq<seq<Label>>, token: Label, depth: nat, p: nat, d: nat)
    requires Uniform(rows, depth) && p < |rows| && d < depth && rows[p][d] == token
    ensures p == 0 ==> Resolve(rows, Some(token), depth)[0][d] == token
    ensures p > 0 ==> Resolve(rows, Some(token), depth)[p][d] == Resolve(rows, Some(token), depth)[p - 1][d]
  {
    var n := |rows|;
    if p < n - 1 {
      ContinuationRepeats(rows[..n - 1], token, depth, p, d);
      var init := Resolve(rows[..n - 1], Some(token), depth);
      assert Resolve(rows, Some(token), depth)[..n - 1] == init;
      if p > 0 {
        assert Resolve(rows, Some(token), depth)[p - 1] == init[p - 1];
      }
      assert Resolve(rows, Some(token), depth)[p] == init[p];
    }
  }
}
