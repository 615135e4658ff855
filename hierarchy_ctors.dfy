/**
 * The other ways of building an IndexHierarchy: the product of levels, a
 * nested dictionary (tree), pairs of outer label and inner index, and
 * delimited strings.
 */
module HierarchyConstructors {
  import opened Labels
  import opened Errors
  import opened FlatIndex
  import opened IndexHierarchy
  import opened Product
  import opened HierarchyBuild

  //---------------------------------------------------------------------------
  // from_product

  /** One argument of from_product: an index, or what an index is built from. */
  datatype Level = LevelIndex(index: Index) | LevelLabels(init: Initializer)

  predicate LevelValid(lvl: Level) {
    match lvl
    case LevelIndex(ix) => Valid(ix)
    case LevelLabels(init) => init.FromIndex? ==> Valid(init.source)
  }

  /** An index argument is taken as an immutable index; anything else goes to the index constructor. */
  function LevelToIndex(lvl: Level, isStatic: bool): (r: Result<Index>)
    requires LevelValid(lvl)
    ensures r.Ok? ==> Valid(r.value)
    ensures lvl.LevelIndex? ==> r.Ok? && r.value.labels == lvl.index.labels
    ensures lvl.LevelLabels? && lvl.init.FromLabels? ==>
      (r.Ok? <==> Distinct(lvl.init.items)) && (r.Ok? ==> r.value.labels == lvl.init.items)
  {
    match lvl
    case LevelIndex(ix) => Ok(MutableImmutableFilter(true, ix))
    case LevelLabels(init) => FlatIndex.New(init, false, isStatic)
  }

  /** The indices of the levels, in order; the first level that cannot be built raises. */
  function LevelIndices(levels: seq<Level>, isStatic: bool): (r: Result<seq<Index>>)
    requires forall k :: 0 <= k < |levels| ==> LevelValid(levels[k])
    ensures r.Ok? <==> forall k :: 0 <= k < |levels| ==> LevelToIndex(levels[k], isStatic).Ok?
    ensures r.Ok? ==> |r.value| == |levels|
    ensures r.Ok? ==> forall k :: 0 <= k < |levels| ==> r.value[k] == LevelToIndex(levels[k], isStatic).value
    ensures r.Err? ==> exists k :: 0 <= k < |levels| && LevelToIndex(levels[k], isStatic) == Err(r.error)
  {
    if levels == [] then Ok([])
    else
      match LevelToIndex(levels[0], isStatic)
      case Err(e) => Err(e)
      case Ok(first) =>
        match LevelIndices(levels[1..], isStatic)
        case Err(e) => Err(e)
        case Ok(rest) =>
          assert forall k :: 1 <= k < |levels| ==> levels[k] == levels[1..][k - 1];
          Ok([first] + rest)
  }

  function Lengths(indices: seq<Index>): (ls: seq<nat>)
    ensures |ls| == |indices| && forall d :: 0 <= d < |indices| ==> ls[d] == |indices[d].labels|
  {
    seq(|indices|, d requires 0 <= d < |indices| => |indices[d].labels|)
  }

  /**
   * from_product: a single level is refused; otherwise each level becomes an
   * index, the indexers come from the closed-form product builder (which
   * fails on an empty level), and the initializer validates the result.
   */
  function FromProduct(levels: seq<Level>, isStatic: bool): (r: Result<Hierarchy>)
    requires forall k :: 0 <= k < |levels| ==> LevelValid(levels[k])
    ensures |levels| == 1 ==> r == Err(ErrorInitIndex(MsgOneLevel))
    ensures (&& |levels| != 1 && LevelIndices(levels, isStatic).Ok?
             && exists d :: 0 <= d < |levels| && |LevelIndices(levels, isStatic).value[d].labels| == 0) ==>
      r == Err(ValueError(MsgNothingToConcatenate))
  {
    if |levels| == 1 then Err(ErrorInitIndex(MsgOneLevel))
    else
      match LevelIndices(levels, isStatic)
      case Err(e) => Err(e)
      case Ok(indices) =>
        match BuildIndexersFromProduct(Lengths(indices))
        case Err(e) => Err(e)
        case Ok(indexers) => IndexHierarchy.New(indices, indexers, isStatic)
  }

  /**
   * With at least two levels, every level built and none empty, the
   * product always succeeds: it has the product of the level lengths as
   * rows, and row p holds, at depth d, the label the p-th tuple of the
   * cartesian product selects.
   */
  lemma FromProductRows(levels: seq<Level>, isStatic: bool)
    requires forall k :: 0 <= k < |levels| ==> LevelValid(levels[k])
    requires |levels| >= 2 && LevelIndices(levels, isStatic).Ok?
    requires forall d :: 0 <= d < |levels| ==> |LevelIndices(levels, isStatic).value[d].labels| > 0
    ensures var r := FromProduct(levels, isStatic);
      var indices := LevelIndices(levels, isStatic).value;
      var ls := Lengths(indices);
      && r.Ok?
      && Len(r.value) == Prod(ls)
      && forall p, d :: 0 <= p < Prod(ls) && 0 <= d < |levels| ==>
        CartesianProduct(ls)[p][d] < |indices[d].labels| &&
        Values(r.value)[p][d] == indices[d].labels[CartesianProduct(ls)[p][d]]
  {
    var indices := LevelIndices(levels, isStatic).value;
    var ls := Lengths(indices);
    ProductIsCartesian(ls);
    var indexers := BuildIndexersFromProduct(ls).value;
    ProdPositive(ls);
    assert Size(indexers) == Prod(ls);
    assert Rect(indexers);
    forall d, p | 0 <= d < |indexers| && 0 <= p < |indexers[d]|
      ensures indexers[d][p] < |indices[d].labels|
    {
      CartesianEntries(ls, p, d);
    }
    assert InRange(indices, indexers);
    assert Tuples(indexers) == CartesianProduct(ls) by {
      forall p | 0 <= p < Prod(ls) ensures Tuples(indexers)[p] == CartesianProduct(ls)[p] {
      }
    }
    CartesianDistinct(ls);
    forall p, d | 0 <= p < Prod(ls) && 0 <= d < |levels|
      ensures CartesianProduct(ls)[p][d] < |indices[d].labels|
    {
      CartesianEntries(ls, p, d);
    }
  }

  //---------------------------------------------------------------------------
  // from_tree

  /** A tree: a dictionary from labels to subtrees, or a leaf sequence of labels. */
  datatype Tree = Leaves(labels: seq<Label>) | Branches(children: seq<(Label, Tree)>)

  /** Every row of a subtree, prefixed by its key. */
  function Prefixed(key: Label, rows: seq<seq<Label>>): (r: seq<seq<Label>>)
    ensures |r| == |rows| && forall i :: 0 <= i < |rows| ==> r[i] == [key] + rows[i]
  {
    seq(|rows|, i requires 0 <= i < |rows| => [key] + rows[i])
  }

  /** _from_tree: a leaf sequence yields one row per label; a dictionary its subtrees' rows, key first. */
  function TreeRows(t: Tree): seq<seq<Label>>
    decreases t, 1, 0
  {
    match t
    case Leaves(ls) => seq(|ls|, i requires 0 <= i < |ls| => [ls[i]])
    case Branches(cs) => BranchRows(t, |cs|)
  }

  /** The rows of the first n entries of a dictionary, in insertion order. */
  function BranchRows(t: Tree, n: nat): seq<seq<Label>>
    requires t.Branches? && n <= |t.children|
    decreases t, 0, n
  {
    if n == 0 then []
    else BranchRows(t, n - 1) + Prefixed(t.children[n - 1].0, TreeRows(t.children[n - 1].1))
  }

  /** A dictionary never repeats a key; a leaf sequence may repeat a label. */
  predicate KeysDistinct(t: Tree) {
    match t
    case Leaves(_) => true
    case Branches(cs) =>
      && (forall i, j :: 0 <= i < j < |cs| ==> cs[i].0 != cs[j].0)
      && forall i :: 0 <= i < |cs| ==> KeysDistinct(cs[i].1)
  }

  /** Every leaf sequence of the tree is free of repeats. */
  predicate LeavesDistinct(t: Tree) {
    match t
    case Leaves(ls) => Distinct(ls)
    case Branches(cs) => forall i :: 0 <= i < |cs| ==> LeavesDistinct(cs[i].1)
  }

  /** Every leaf of the tree sits `depth` levels down. */
  predicate Balanced(t: Tree, depth: nat) {
    match t
    case Leaves(_) => depth == 1
    case Branches(cs) => depth >= 2 && forall i :: 0 <= i < |cs| ==> Balanced(cs[i].1, depth - 1)
  }

  /** Rows of a dictionary start with one of its keys. */
  lemma {:induction false} BranchRowsKeys(t: Tree, n: nat)
    requires t.Branches? && n <= |t.children|
    ensures forall r :: r in BranchRows(t, n) ==>
      |r| >= 1 && exists i :: 0 <= i < n && r[0] == t.children[i].0
  {
    if n > 0 {
      BranchRowsKeys(t, n - 1);
      var last := Prefixed(t.children[n - 1].0, TreeRows(t.children[n - 1].1));
      forall r | r in BranchRows(t, n) ensures |r| >= 1 && exists i :: 0 <= i < n && r[0] == t.children[i].0 {
        if r in last {
          var k :| 0 <= k < |last| && last[k] == r;
          assert r[0] == t.children[n - 1].0;
        } else {
          assert r in BranchRows(t, n - 1);
        }
      }
    }
  }

  /** Appending two sequences keeps them distinct when each is and they share nothing. */
  lemma DistinctAppend<T>(a: seq<T>, b: seq<T>)
    requires Distinct(a) && Distinct(b) && forall x :: x in a ==> x !in b
    ensures Distinct(a + b)
  {
    forall i, j | 0 <= i < j < |a + b| ensures (a + b)[i] != (a + b)[j] {
      if i < |a| && j >= |a| {
        assert (a + b)[i] in a;
        assert (a + b)[j] == b[j - |a|];
      }
    }
  }

  /**
   * A tree whose leaf sequences hold no repeats yields no repeated row:
   * dictionary keys separate the subtrees, and each subtree's rows are
   * distinct already.
   */
  lemma {:induction false} TreeRowsDistinct(t: Tree)
    requires KeysDistinct(t) && LeavesDistinct(t)
    ensures Distinct(TreeRows(t))
    decreases t, 1, 0
  {
    match t
    case Leaves(ls) =>
      var rows := TreeRows(t);
      forall i, j | 0 <= i < j < |rows| ensures rows[i] != rows[j] {
        assert rows[i][0] == ls[i] && rows[j][0] == ls[j];
      }
    case Branches(cs) => BranchRowsDistinct(t, |cs|);
  }

  lemma {:induction false} BranchRowsDistinct(t: Tree, n: nat)
    requires t.Branches? && n <= |t.children|
    requires KeysDistinct(t) && LeavesDistinct(t)
    ensures Distinct(BranchRows(t, n))
    decreases t, 0, n
  {
    if n > 0 {
      var key, sub := t.children[n - 1].0, t.children[n - 1].1;
      BranchRowsDistinct(t, n - 1);
      TreeRowsDistinct(sub);
      var rows := TreeRows(sub);
      var last := Prefixed(key, rows);
      forall i, j | 0 <= i < j < |last| ensures last[i] != last[j] {
        assert last[i][1..] == rows[i] && last[j][1..] == rows[j];
      }
      BranchRowsKeys(t, n - 1);
      forall r | r in BranchRows(t, n - 1) ensures r !in last {
        var i :| 0 <= i < n - 1 && r[0] == t.children[i].0;
        assert r[0] != key;
        assert forall k :: 0 <= k < |last| ==> last[k][0] == key;
      }
      DistinctAppend(BranchRows(t, n - 1), last);
    }
  }

  /** A tree whose leaves all sit `depth` levels down yields rows of length `depth`. */
  lemma {:induction false} TreeRowsUniform(t: Tree, depth: nat)
    requires Balanced(t, depth)
    ensures Uniform(TreeRows(t), depth)
    decreases t, 1, 0
  {
    match t
    case Leaves(_) =>
    case Branches(cs) => BranchRowsUniform(t, |cs|, depth);
  }

  lemma {:induction false} BranchRowsUniform(t: Tree, n: nat, depth: nat)
    requires t.Branches? && n <= |t.children| && Balanced(t, depth)
    ensures Uniform(BranchRows(t, n), depth)
    decreases t, 0, n
  {
    if n > 0 {
      BranchRowsUniform(t, n - 1, depth);
      TreeRowsUniform(t.children[n - 1].1, depth - 1);
    }
  }

  /** Without a continuation token every row is kept as it is. */
  lemma {:induction false} ResolveWithoutToken(rows: seq<seq<Label>>, depth: nat)
    requires Uniform(rows, depth)
    ensures Resolve(rows, None, depth) == rows
  {
    if rows != [] {
      var init := rows[..|rows| - 1];
      ResolveWithoutToken(init, depth);
      var last := ResolveRow(rows[|rows| - 1], if init == [] then None else Some(init[|init| - 1]), None);
      assert last == rows[|rows| - 1];
      assert init + [rows[|rows| - 1]] == rows;
    }
  }

  /** from_tree: the rows the tree yields, given to from_labels. */
  function FromTree(t: Tree, isStatic: bool): (r: Result<Hierarchy>)
    requires t.Branches?
  {
    FromLabelsValue(TreeRows(t), None, None, isStatic)
  }

  /**
   * A balanced tree with at least one path and no repeat in any leaf
   * sequence always builds, and its rows are the tree's paths in insertion
   * order.
   */
  lemma FromTreeRows(t: Tree, depth: nat, isStatic: bool)
    requires t.Branches? && TreeRows(t) != [] && KeysDistinct(t) && LeavesDistinct(t) && Balanced(t, depth)
    ensures FromTree(t, isStatic).Ok?
    ensures Values(FromTree(t, isStatic).value) == TreeRows(t)
  {
    var rows := TreeRows(t);
    TreeRowsUniform(t, depth);
    TreeRowsDistinct(t);
    assert |rows[0]| == depth;
    ResolveWithoutToken(rows, depth);
    FromLabelsRows(rows, None, None, isStatic);
  }
}
