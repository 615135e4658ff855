/**
 * build_indexers_from_product: the per-depth indexers of the cartesian
 * product of depths of the given lengths, built by repetition rather than by
 * enumerating the product.
 */
module Product {
  import opened Labels
  import opened Errors

  /** The product of the lengths. */
  function Prod(ls: seq<nat>): nat {
    if ls == [] then 1 else ls[0] * Prod(ls[1..])
  }

  /** np.tile of one value: `v` repeated `k` times. */
  function Repeat(v: nat, k: nat): (r: seq<nat>)
    ensures |r| == k && forall i :: 0 <= i < k ==> r[i] == v
  {
    seq(k, _ => v)
  }

  /** One group: every value below `len`, each repeated `reps` times, concatenated. */
  function Group(len: nat, reps: nat): (r: seq<nat>)
    ensures |r| == len * reps
  {
    if len == 0 then [] else Group(len - 1, reps) + Repeat(len - 1, reps)
  }

  /** np.tile of an array: `s` repeated `k` times. */
  function Tile(s: seq<nat>, k: nat): (r: seq<nat>)
    ensures |r| == |s| * k
  {
    if k == 0 then [] else Tile(s, k - 1) + s
  }

  const MsgNothingToConcatenate := "need at least one array to concatenate"

  /**
   * The indexers for lengths L_0 .. L_{k-1}: depth d is the group of its
   * L_d values, each repeated prod(L_j, j > d) times, the group tiled
   * prod(L_j, j < d) times. An empty depth leaves np.hstack nothing to join.
   */
  function BuildIndexersFromProduct(ls: seq<nat>): (r: Result<seq<seq<nat>>>)
    ensures r.Ok? <==> forall d :: 0 <= d < |ls| ==> ls[d] > 0
    ensures r.Err? ==> r.error == ValueError(MsgNothingToConcatenate)
    ensures r.Ok? ==> |r.value| == |ls|
  {
    if exists d :: 0 <= d < |ls| && ls[d] == 0 then Err(ValueError(MsgNothingToConcatenate))
    else Ok(seq(|ls|, d requires 0 <= d < |ls| => Indexer(ls, d)))
  }

  /** Depth d's indexer. */
  function Indexer(ls: seq<nat>, d: nat): seq<nat>
    requires d < |ls|
  {
    Tile(Group(ls[d], Prod(ls[d + 1..])), Prod(ls[..d]))
  }

  /** itertools.product(range(L_0), ..., range(L_{k-1})), in order. */
  function CartesianProduct(ls: seq<nat>): (r: seq<seq<nat>>)
    ensures |r| == Prod(ls)
    ensures forall p :: 0 <= p < |r| ==> |r[p]| == |ls|
  {
    if ls == [] then [[]] else Blocks(ls[0], CartesianProduct(ls[1..]), |ls| - 1)
  }

  /** Each tail of `ts`, prefixed by each value below `len` in turn. */
  function Blocks(len: nat, ts: seq<seq<nat>>, width: nat): (r: seq<seq<nat>>)
    requires forall p :: 0 <= p < |ts| ==> |ts[p]| == width
    ensures |r| == len * |ts|
    ensures forall p :: 0 <= p < |r| ==> |r[p]| == width + 1
  {
    if len == 0 then []
    else Blocks(len - 1, ts, width) + seq(|ts|, i requires 0 <= i < |ts| => [len - 1] + ts[i])
  }

  //---------------------------------------------------------------------------
  // arithmetic of blocks

  /** Position p of blocks of width n: which block, and where inside it. */
  function Split(p: nat, n: nat): (r: (nat, nat))
    requires n > 0
    ensures p == r.0 * n + r.1 && r.1 < n
    decreases p
  {
    if p < n then (0, p) else var (q, m) := Split(p - n, n); (q + 1, m)
  }

  lemma {:induction false} SplitBound(p: nat, n: nat, len: nat)
    requires n > 0 && p < len * n
    ensures Split(p, n).0 < len
    decreases p
  {
    if p >= n {
      assert p - n < (len - 1) * n;
      SplitBound(p - n, n, len - 1);
    }
  }

  lemma {:induction false} MulMono(a: nat, b: nat, n: nat)
    requires a <= b
    ensures a * n <= b * n
    decreases b - a
  {
    if a < b {
      MulMono(a, b - 1, n);
      assert (b - 1) * n + n == b * n;
    }
  }

  lemma InBlock(q: nat, r: nat, n: nat, len: nat)
    requires q < len && r < n
    ensures q * n + r < len * n
  {
    MulMono(q + 1, len, n);
    assert (q + 1) * n == q * n + n;
  }

  lemma {:induction false} GroupAt(len: nat, reps: nat, q: nat, r: nat)
    requires q < len && r < reps
    ensures q * reps + r < |Group(len, reps)| && Group(len, reps)[q * reps + r] == q
  {
    InBlock(q, r, reps, len);
    if q < len - 1 {
      GroupAt(len - 1, reps, q, r);
    }
  }

  lemma {:induction false} TileAt(s: seq<nat>, k: nat, q: nat, r: nat)
    requires q < k && r < |s|
    ensures q * |s| + r < |Tile(s, k)| && Tile(s, k)[q * |s| + r] == s[r]
  {
    InBlock(q, r, |s|, k);
    assert |s| * k == k * |s|;
    if q < k - 1 {
      TileAt(s, k - 1, q, r);
      assert |s| * (k - 1) == (k - 1) * |s|;
    } else {
      assert |s| * (k - 1) == q * |s|;
    }
  }

  lemma {:induction false} BlocksAt(len: nat, ts: seq<seq<nat>>, width: nat, q: nat, r: nat)
    requires forall i :: 0 <= i < |ts| ==> |ts[i]| == width
    requires q < len && r < |ts|
    ensures q * |ts| + r < |Blocks(len, ts, width)|
    ensures Blocks(len, ts, width)[q * |ts| + r] == [q] + ts[r]
  {
    InBlock(q, r, |ts|, len);
    if q < len - 1 {
      BlocksAt(len - 1, ts, width, q, r);
    }
  }

  lemma {:induction false} TileAdd(s: seq<nat>, a: nat, b: nat)
    ensures Tile(s, a + b) == Tile(s, a) + Tile(s, b)
    decreases b
  {
    if b > 0 {
      TileAdd(s, a, b - 1);
    }
  }

  lemma {:induction false} TileMul(s: seq<nat>, a: nat, b: nat)
    ensures Tile(s, a * b) == Tile(Tile(s, b), a)
    decreases a
  {
    if a > 0 {
      TileMul(s, a - 1, b);
      TileAdd(s, (a - 1) * b, b);
      assert (a - 1) * b + b == a * b;
    }
  }

  lemma {:induction false} ProdPositive(ls: seq<nat>)
    requires forall d :: 0 <= d < |ls| ==> ls[d] > 0
    ensures Prod(ls) > 0
  {
    if ls != [] {
      ProdPositive(ls[1..]);
    }
  }

  lemma {:induction false} ProdSplit(ls: seq<nat>, d: nat)
    requires d < |ls|
    ensures Prod(ls[..d]) * (ls[d] * Prod(ls[d + 1..])) == Prod(ls)
  {
    if d > 0 {
      var rest := ls[1..];
      ProdSplit(rest, d - 1);
      assert rest[d - 1] == ls[d] && rest[d..] == ls[d + 1..];
      ProdHead(ls, d);
      MulAssoc(ls[0], Prod(rest[..d - 1]), ls[d] * Prod(ls[d + 1..]));
    } else {
      assert ls[..0] == [] && ls[1..] == ls[d + 1..];
    }
  }

  /** A non-empty prefix's product is its first length times the product of the rest of it. */
  lemma ProdHead(ls: seq<nat>, d: nat)
    requires 0 < d <= |ls|
    ensures Prod(ls[..d]) == ls[0] * Prod(ls[1..][..d - 1])
  {
    assert ls[..d][0] == ls[0];
    assert ls[..d][1..] == ls[1..][..d - 1];
  }

  lemma MulAssoc(a: nat, b: nat, c: nat)
    ensures (a * b) * c == a * (b * c)
  {
  }

  lemma IndexerLength(ls: seq<nat>, d: nat)
    requires d < |ls|
    ensures |Indexer(ls, d)| == Prod(ls)
  {
    ProdSplit(ls, d);
    var g := Group(ls[d], Prod(ls[d + 1..]));
    var c := Prod(ls[..d]);
    assert |Indexer(ls, d)| == |g| * c;
    MulComm(|g|, c);
  }

  lemma MulComm(x: nat, y: nat)
    ensures x * y == y * x
  {
  }

  //---------------------------------------------------------------------------
  // the indexers are the product

  /** The first depth's indexer at p is the block p falls in. */
  lemma IndexerFirst(ls: seq<nat>, p: nat)
    requires ls != [] && Prod(ls[1..]) > 0 && p < Prod(ls)
    ensures p < |Indexer(ls, 0)| && Indexer(ls, 0)[p] == Split(p, Prod(ls[1..])).0
  {
    var P := Prod(ls[1..]);
    var (q, r) := Split(p, P);
    SplitBound(p, P, ls[0]);
    assert ls[..0] == [] && ls[1..] == ls[0 + 1..];
    assert Indexer(ls, 0) == Tile(Group(ls[0], P), 1);
    assert Tile(Group(ls[0], P), 1) == Group(ls[0], P);
    GroupAt(ls[0], P, q, r);
  }

  /** A later depth's indexer at p is the tail's indexer at p's place inside its block. */
  lemma IndexerLater(ls: seq<nat>, d: nat, p: nat)
    requires 0 < d < |ls| && Prod(ls[1..]) > 0 && p < Prod(ls)
    ensures p < |Indexer(ls, d)| && Split(p, Prod(ls[1..])).1 < |Indexer(ls[1..], d - 1)|
    ensures Indexer(ls, d)[p] == Indexer(ls[1..], d - 1)[Split(p, Prod(ls[1..])).1]
  {
    var rest := ls[1..];
    var (q, r) := Split(p, Prod(rest));
    SplitBound(p, Prod(rest), ls[0]);
    var g := Group(ls[d], Prod(ls[d + 1..]));
    assert ls[d + 1..] == rest[d..];
    assert ls[..d] == [ls[0]] + rest[..d - 1];
    assert ls[..d][1..] == rest[..d - 1];
    assert Indexer(ls, d) == Tile(g, ls[0] * Prod(rest[..d - 1]));
    TileMul(g, ls[0], Prod(rest[..d - 1]));
    IndexerLength(rest, d - 1);
    TileAt(Indexer(rest, d - 1), ls[0], q, r);
  }

  /** Depth d's indexer at position p is coordinate d of the p-th tuple of the product. */
  lemma {:induction false} IndexerIsCartesian(ls: seq<nat>, d: nat, p: nat)
    requires forall k :: 0 <= k < |ls| ==> ls[k] > 0
    requires d < |ls| && p < Prod(ls)
    ensures p < |Indexer(ls, d)| && Indexer(ls, d)[p] == CartesianProduct(ls)[p][d]
  {
    var rest := ls[1..];
    assert forall k :: 0 <= k < |rest| ==> rest[k] == ls[k + 1];
    ProdPositive(rest);
    var (q, r) := Split(p, Prod(rest));
    SplitBound(p, Prod(rest), ls[0]);
    BlocksAt(ls[0], CartesianProduct(rest), |ls| - 1, q, r);
    if d == 0 {
      IndexerFirst(ls, p);
    } else {
      IndexerLater(ls, d, p);
      IndexerIsCartesian(rest, d - 1, r);
    }
  }

  /**
   * Row p of the product read across the indexers is the p-th tuple of
   * itertools.product; every indexer has the product's length.
   */
  lemma ProductIsCartesian(ls: seq<nat>)
    requires forall d :: 0 <= d < |ls| ==> ls[d] > 0
    ensures BuildIndexersFromProduct(ls).Ok?
    ensures var ix := BuildIndexersFromProduct(ls).value;
      forall d :: 0 <= d < |ls| ==> |ix[d]| == Prod(ls)
    ensures var ix := BuildIndexersFromProduct(ls).value;
      forall d, p :: 0 <= d < |ls| && 0 <= p < Prod(ls) ==> ix[d][p] == CartesianProduct(ls)[p][d]
  {
    forall d | 0 <= d < |ls| ensures |Indexer(ls, d)| == Prod(ls) {
      IndexerLength(ls, d);
    }
    forall d, p | 0 <= d < |ls| && 0 <= p < Prod(ls)
      ensures Indexer(ls, d)[p] == CartesianProduct(ls)[p][d]
    {
      IndexerIsCartesian(ls, d, p);
    }
  }

  /** The tuples of a cartesian product are pairwise distinct. */
  lemma {:induction false} CartesianDistinct(ls: seq<nat>)
    ensures Distinct(CartesianProduct(ls))
  {
    if ls != [] {
      CartesianDistinct(ls[1..]);
      BlocksDistinct(ls[0], CartesianProduct(ls[1..]), |ls| - 1);
    }
  }

  lemma {:induction false} BlocksDistinct(len: nat, ts: seq<seq<nat>>, width: nat)
    requires forall p :: 0 <= p < |ts| ==> |ts[p]| == width
    requires Distinct(ts)
    ensures Distinct(Blocks(len, ts, width))
    ensures forall p :: 0 <= p < |Blocks(len, ts, width)| ==> Blocks(len, ts, width)[p][0] < len
  {
    if len > 0 {
      BlocksDistinct(len - 1, ts, width);
      var a := Blocks(len - 1, ts, width);
      var b := seq(|ts|, i requires 0 <= i < |ts| => [len - 1] + ts[i]);
      forall i, j | 0 <= i < j < |a + b| ensures (a + b)[i] != (a + b)[j] {
        if j < |a| {
        } else if i >= |a| {
          var i', j' := i - |a|, j - |a|;
          assert b[i'][1..] == ts[i'] && b[j'][1..] == ts[j'];
        } else {
          assert (a + b)[i][0] < len - 1;
          assert (a + b)[j][0] == len - 1;
        }
      }
    }
  }

  /** Every entry of depth d's indexer lies below L_d: it addresses a label of that depth. */
  lemma ProductInRange(ls: seq<nat>, d: nat, p: nat)
    requires forall k :: 0 <= k < |ls| ==> ls[k] > 0
    requires d < |ls| && p < Prod(ls)
    ensures BuildIndexersFromProduct(ls).Ok?
    ensures p < |BuildIndexersFromProduct(ls).value[d]|
    ensures BuildIndexersFromProduct(ls).value[d][p] < ls[d]
  {
    IndexerIsCartesian(ls, d, p);
    CartesianEntries(ls, p, d);
  }

  lemma {:induction false} CartesianEntries(ls: seq<nat>, p: nat, d: nat)
    requires p < Prod(ls) && d < |ls|
    ensures CartesianProduct(ls)[p][d] < ls[d]
  {
    var rest := ls[1..];
    var cpr := CartesianProduct(rest);
    var P := |cpr|;
    assert Prod(ls) == ls[0] * P;
    var (q, r) := Split(p, P);
    SplitBound(p, P, ls[0]);
    BlocksAt(ls[0], cpr, |ls| - 1, q, r);
    if d > 0 {
      CartesianEntries(rest, r, d - 1);
    }
  }
}
