/**
 * IndexGO: the grow-only flat index. Appends go to mutable storage at once;
 * the arrays readers see (labels, positions) are rebuilt lazily, on the
 * first read after a change.
 */
module IndexGrowOnly {
  import opened Labels
  import opened Errors
  import opened FlatIndex

  class IndexGO {
    /** The label-to-position map; None while every label is its own position. */
    var automap: Option<map<Label, nat>>
    /** The cached label array (_labels), possibly behind the mutable labels. */
    var labels: seq<Label>
    /** The cached positions (_positions). */
    var positions: seq<nat>
    var labelsMutable: seq<Label>
    var positionsMutableCount: nat
    /** Whether the cached arrays must be rebuilt before the next read. */
    var recache: bool

    /** The index as a reader sees it once the cache is rebuilt. */
    function View(): Index
      reads this
    {
      Index(automap, labelsMutable, Range(positionsMutableCount), false)
    }

    ghost predicate Valid()
      reads this
    {
      && positionsMutableCount == |labelsMutable|
      && FlatIndex.Valid(View())
      && labels <= labelsMutable
      && positions == Range(|labels|)
      && (!recache ==> labels == labelsMutable)
    }

    /** Construction from an index: the mutable storage starts as a copy of its labels. */
    constructor (source: Index)
      requires FlatIndex.Valid(source)
      ensures Valid() && !recache
      ensures View() == source.(isStatic := false)
    {
      var ix := New(FromIndex(source), false, false).value;
      automap := ix.automap;
      labels := ix.labels;
      positions := ix.positions;
      labelsMutable := ix.labels;
      positionsMutableCount := |ix.labels|;
      recache := false;
    }

    /** __contains__, answered from the mutable storage. */
    function Contains(v: Label): (b: bool)
      reads this
      requires Valid()
      ensures b <==> v in labelsMutable
    {
      ContainsIffMember(View(), v);
      FlatIndex.Contains(View(), v)
    }

    /**
     * Whether __contains__ reads len(self) for `v`: without a map a
     * non-negative integer is compared with the length, and __len__ rebuilds
     * a stale cache first.
     */
    predicate Refreshes(v: Label)
      reads this
    {
      automap.None? && v.Int? && v.value >= 0
    }

    /** __contains__ as the source runs it, with the cache rebuild of a length read. */
    method IsMember(v: Label) returns (b: bool)
      requires Valid()
      modifies this
      ensures Valid() && View() == old(View())
      ensures b <==> v in labelsMutable
      ensures old(Refreshes(v)) ==> !recache && labels == labelsMutable
      ensures !old(Refreshes(v)) ==> unchanged(this)
    {
      if Refreshes(v) {
        var n := Len();
        ContainsIffMember(View(), v);
        b := v.value < n;
      } else {
        b := Contains(v);
      }
    }

    /** _update_array_cache: the cached arrays catch up with the mutable storage. */
    method UpdateArrayCache()
      requires Valid()
      modifies this
      ensures Valid() && !recache
      ensures labels == labelsMutable && positions == Range(positionsMutableCount)
      ensures automap == old(automap) && labelsMutable == old(labelsMutable)
      ensures positionsMutableCount == old(positionsMutableCount)
    {
      labels := labelsMutable;
      positions := Range(positionsMutableCount);
      recache := false;
    }

    /** __len__: a read, so the cache is rebuilt first. */
    method Len() returns (n: nat)
      requires Valid()
      modifies this
      ensures Valid() && !recache && View() == old(View())
      ensures n == |labelsMutable| && labels == labelsMutable
    {
      if recache {
        UpdateArrayCache();
      }
      n := |labels|;
    }

    /**
     * append: the membership test comes first (and may rebuild the cache, as
     * IsMember says); a present label raises KeyError; otherwise the label
     * takes the next position, the map gains it (or is built once the labels
     * stop being positions), and the cache is marked stale.
     */
    method Append(v: Label) returns (r: Outcome)
      requires Valid()
      modifies this
      ensures Valid()
      ensures Grow(old(View()), v).Err? ==>
        && r == Fail(KeyError(v)) && View() == old(View())
        && (old(Refreshes(v)) ==> !recache && labels == labelsMutable)
        && (!old(Refreshes(v)) ==> unchanged(this))
      ensures Grow(old(View()), v).Ok? ==>
        && r == Pass
        && View() == Grow(old(View()), v).value
        && recache
        && labels == (if old(Refreshes(v)) then old(labelsMutable) else old(labels))
    {
      var present := IsMember(v);
      if present {
        return Fail(KeyError(v));
      }
      var initializeMap := false;
      if automap.None? {
        if !(v.Int? && v.value == positionsMutableCount) {
          initializeMap := true;
        }
      } else {
        automap := Some(automap.value[v := positionsMutableCount]);
      }
      labelsMutable := labelsMutable + [v];
      if initializeMap {
        automap := Some(PositionMap(labelsMutable));
      }
      positionsMutableCount := positionsMutableCount + 1;
      recache := true;
      r := Pass;
    }

    /**
     * extend: append each label in turn; the first refused label stops the
     * loop with its KeyError, and the labels before it stay appended. The
     * refused label's membership test may have rebuilt the cache.
     */
    method Extend(values: seq<Label>) returns (r: Outcome)
      requires Valid()
      modifies this
      ensures Valid()
      ensures (View(), r) == ExtendAll(old(View()), values)
      ensures r.Pass? ==> recache == (old(recache) || |labelsMutable| > old(|labelsMutable|))
      ensures r.Fail? && r.error.KeyError? ==>
        recache == (!Refreshes(r.error.missing) && (old(recache) || |labelsMutable| > old(|labelsMutable|)))
    {
      var i := 0;
      while i < |values|
        invariant 0 <= i <= |values| && Valid()
        invariant ExtendAll(View(), values[i..]) == ExtendAll(old(View()), values)
        invariant |labelsMutable| >= old(|labelsMutable|)
        invariant recache == (old(recache) || |labelsMutable| > old(|labelsMutable|))
      {
        assert values[i..][0] == values[i] && values[i..][1..] == values[i + 1..];
        var out := Append(values[i]);
        if out.Fail? {
          return out;
        }
        i := i + 1;
      }
      assert values[i..] == [];
      r := Pass;
    }
  }
}
