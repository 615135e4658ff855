/**
 * Labels and the vocabulary of sequences shared by the flat and the
 * hierarchical index: distinctness, first-seen order, label-to-position maps.
 */
module Labels {

  datatype Option<T> = None | Some(value: T)

  /**
   * A hashable label. Integers are kept apart from every other label because
   * an index whose labels are its own positions (loc_is_iloc) answers
   * membership with an integer test rather than a hash lookup.
   */
  datatype Label = Int(value: int) | Str(text: string)

  predicate Distinct<T(==)>(s: seq<T>) {
    forall i, j :: 0 <= i < j < |s| ==> s[i] != s[j]
  }

  /** The positions 0 .. n-1, as PositionsAllocator hands them out. */
  function Range(n: nat): (r: seq<nat>)
    ensures |r| == n && forall i :: 0 <= i < n ==> r[i] == i
  {
    seq(n, i => i)
  }

  /** The first position of `x` in `s`. */
  function IndexOf<T(==)>(s: seq<T>, x: T): (i: nat)
    requires x in s
    ensures i < |s| && s[i] == x
    ensures forall j :: 0 <= j < i ==> s[j] != x
  {
    if s[0] == x then 0 else 1 + IndexOf(s[1..], x)
  }

  lemma IndexOfDistinct<T>(s: seq<T>, i: nat)
    requires Distinct(s) && i < |s|
    ensures IndexOf(s, s[i]) == i
  {
  }

  lemma IndexOfPrefix<T>(s: seq<T>, t: seq<T>, x: T)
    requires x in s
    ensures x in s + t && IndexOf(s + t, x) == IndexOf(s, x)
  {
    var k := IndexOf(s, x);
    assert (s + t)[k] == x;
    var k' := IndexOf(s + t, x);
    assert k' <= k;
    assert s[k'] == (s + t)[k'];
  }

  /**
   * The map a hash table builds when every element of `s` is inserted with
   * its position; a later duplicate would overwrite an earlier one.
   */
  function PositionMap<T>(s: seq<T>): map<T, nat>
  {
    if s == [] then map[] else PositionMap(s[..|s| - 1])[s[|s| - 1] := |s| - 1]
  }

  lemma {:induction false} PositionMapInverts<T>(s: seq<T>)
    requires Distinct(s)
    ensures forall x :: x in PositionMap(s) <==> x in s
    ensures forall i :: 0 <= i < |s| ==> s[i] in PositionMap(s) && PositionMap(s)[s[i]] == i
  {
    if s != [] {
      var init := s[..|s| - 1];
      PositionMapInverts(init);
      assert forall x :: x in s <==> x in init || x == s[|s| - 1];
    }
  }

  lemma PositionMapLookup<T>(s: seq<T>, x: T)
    requires Distinct(s) && x in s
    ensures x in PositionMap(s) && PositionMap(s)[x] == IndexOf(s, x)
  {
    PositionMapInverts(s);
  }

  /**
   * The distinct elements of `s` in order of first appearance: the key order
   * of a Python dict filled by walking `s`.
   */
  function FirstSeen<T(==)>(s: seq<T>): (r: seq<T>)
    ensures |r| <= |s|
  {
    if s == [] then []
    else
      var p := FirstSeen(s[..|s| - 1]);
      if s[|s| - 1] in p then p else p + [s[|s| - 1]]
  }

  lemma FirstSeenSnoc<T>(s: seq<T>, x: T)
    ensures FirstSeen(s + [x]) == if x in FirstSeen(s) then FirstSeen(s) else FirstSeen(s) + [x]
  {
    assert (s + [x])[..|s|] == s;
  }

  lemma {:induction false} FirstSeenSpec<T>(s: seq<T>)
    ensures Distinct(FirstSeen(s))
    ensures forall x :: x in FirstSeen(s) <==> x in s
  {
    if s != [] {
      var init := s[..|s| - 1];
      FirstSeenSpec(init);
      assert s == init + [s[|s| - 1]];
      assert forall x :: x in s <==> x in init || x == s[|s| - 1];
    }
  }

  /** Growing the input only appends to its first-seen order. */
  lemma {:induction false} FirstSeenPrefix<T>(s: seq<T>, t: seq<T>)
    ensures FirstSeen(s) <= FirstSeen(s + t)
    decreases |t|
  {
    if t == [] {
      assert s + t == s;
    } else {
      var t' := t[..|t| - 1];
      var x := t[|t| - 1];
      FirstSeenPrefix(s, t');
      assert s + t == (s + t') + [x];
      FirstSeenSnoc(s + t', x);
      var a, b := FirstSeen(s), FirstSeen(s + t');
      if x !in b {
        assert FirstSeen(s + t) == b + [x];
        assert forall i :: 0 <= i < |a| ==> (b + [x])[i] == a[i];
      }
    }
  }

  /** The first position whose element already occurred earlier, if any. */
  function FirstRepeat<T(==)>(s: seq<T>): Option<nat>
  {
    if s == [] then None
    else match FirstRepeat(s[..|s| - 1])
      case Some(p) => Some(p)
      case None => if s[|s| - 1] in s[..|s| - 1] then Some(|s| - 1) else None
  }

  lemma {:induction false} FirstRepeatSpec<T>(s: seq<T>)
    ensures FirstRepeat(s).None? <==> Distinct(s)
    ensures FirstRepeat(s).Some? ==>
      var p := FirstRepeat(s).value;
      p < |s| && s[p] in s[..p] && Distinct(s[..p])
  {
    if s != [] {
      var init := s[..|s| - 1];
      FirstRepeatSpec(init);
      match FirstRepeat(init)
      case Some(p) =>
        assert init[..p] == s[..p];
        assert init[p] == s[p];
        assert !Distinct(s) by {
          var j :| 0 <= j < p && init[j] == init[p];
          assert s[j] == s[p];
        }
      case None =>
        if s[|s| - 1] in init {
          assert s[..|s| - 1] == init;
          var j :| 0 <= j < |init| && init[j] == s[|s| - 1];
          assert s[j] == s[|s| - 1];
        } else {
          forall i, j | 0 <= i < j < |s| ensures s[i] != s[j] {
            if j == |s| - 1 {
              assert s[i] == init[i];
            } else {
              assert s[i] == init[i] && s[j] == init[j];
            }
          }
        }
    }
  }

  /** How many positions repeat an element seen at an earlier position. */
  function RepeatCount<T(==)>(s: seq<T>): nat
  {
    if s == [] then 0
    else RepeatCount(s[..|s| - 1]) + (if s[|s| - 1] in s[..|s| - 1] then 1 else 0)
  }

  /** Counting repeats is the same as total minus distinct. */
  lemma {:induction false} RepeatCountIsTotalMinusDistinct<T>(s: seq<T>)
    ensures |FirstSeen(s)| <= |s|
    ensures RepeatCount(s) == |s| - |FirstSeen(s)|
  {
    if s != [] {
      var init := s[..|s| - 1];
      RepeatCountIsTotalMinusDistinct(init);
      FirstSeenSpec(init);
    }
  }

  /** The elements of `s` at the positions where `keep` is true, in order. */
  function Keep<T>(s: seq<T>, keep: seq<bool>): (r: seq<T>)
    requires |keep| == |s|
    ensures |r| <= |s|
  {
    if s == [] then []
    else Keep(s[..|s| - 1], keep[..|s| - 1]) + (if keep[|s| - 1] then [s[|s| - 1]] else [])
  }

  lemma {:induction false} KeepMembers<T>(s: seq<T>, keep: seq<bool>)
    requires |keep| == |s|
    ensures forall x :: x in Keep(s, keep) <==> exists i :: 0 <= i < |s| && keep[i] && s[i] == x
  {
    if s != [] {
      var n := |s| - 1;
      KeepMembers(s[..n], keep[..n]);
      forall x ensures x in Keep(s, keep) <==> exists i :: 0 <= i < |s| && keep[i] && s[i] == x {
        if x in Keep(s[..n], keep[..n]) {
          var i :| 0 <= i < n && keep[..n][i] && s[..n][i] == x;
          assert keep[i] && s[i] == x;
        }
        if exists i :: 0 <= i < |s| && keep[i] && s[i] == x {
          var i :| 0 <= i < |s| && keep[i] && s[i] == x;
          if i < n {
            assert keep[..n][i] && s[..n][i] == x;
          }
        }
      }
    }
  }

  /**
   * Keeping is reading the kept positions in ascending order: entry k of the
   * result is the element at the k-th true position of the mask.
   */
  lemma {:induction false} KeepAtMaskPositions<T>(s: seq<T>, keep: seq<bool>)
    requires |keep| == |s|
    ensures |Keep(s, keep)| == |MaskPositions(keep)|
    ensures forall k :: 0 <= k < |Keep(s, keep)| ==>
      MaskPositions(keep)[k] < |s| && Keep(s, keep)[k] == s[MaskPositions(keep)[k]]
  {
    if s != [] {
      var n := |s| - 1;
      KeepAtMaskPositions(s[..n], keep[..n]);
      assert keep[..|keep| - 1] == keep[..n];
    }
  }

  /** Keeping a sub-sequence of a distinct sequence keeps it distinct. */
  lemma {:induction false} KeepDistinct<T>(s: seq<T>, keep: seq<bool>)
    requires |keep| == |s| && Distinct(s)
    ensures Distinct(Keep(s, keep))
  {
    if s != [] {
      var n := |s| - 1;
      assert Distinct(s[..n]);
      KeepDistinct(s[..n], keep[..n]);
      if keep[n] {
        KeepMembers(s[..n], keep[..n]);
        assert s[n] !in Keep(s[..n], keep[..n]);
      }
    }
  }

  /** The positions where `mask` is true, ascending: NumPy's `positions[mask]`. */
  function MaskPositions(mask: seq<bool>): (r: seq<nat>)
    ensures |r| <= |mask|
    ensures forall k :: 0 <= k < |r| ==> r[k] < |mask|
  {
    if mask == [] then []
    else MaskPositions(mask[..|mask| - 1]) + (if mask[|mask| - 1] then [|mask| - 1] else [])
  }

  lemma {:induction false} MaskPositionsSpec(mask: seq<bool>)
    ensures forall p :: p in MaskPositions(mask) <==> 0 <= p < |mask| && mask[p]
    ensures forall i, j :: 0 <= i < j < |MaskPositions(mask)| ==> MaskPositions(mask)[i] < MaskPositions(mask)[j]
  {
    if mask != [] {
      var n := |mask| - 1;
      var init := mask[..n];
      var prev := MaskPositions(init);
      MaskPositionsSpec(init);
      assert MaskPositions(mask) == prev + (if mask[n] then [n] else []);
      forall p ensures p in prev <==> 0 <= p < n && mask[p] {
        if 0 <= p < n {
          assert init[p] == mask[p];
        }
      }
      forall i | 0 <= i < |prev| ensures prev[i] < n {
        assert prev[i] in prev;
      }
    }
  }

  //---------------------------------------------------------------------------
  // slices of positions

  /** The step a slice walks by: 1 when absent. */
  function StepOr1(step: Option<int>): int {
    if step.None? then 1 else step.value
  }

  /**
   * One bound as slice.indices(n) adjusts it: a negative bound counts from
   * the end, then the bound is clipped to the positions the walk can reach
   * (0 .. n for a forward step, -1 .. n-1 for a backward one).
   */
  function AdjustBound(b: int, n: nat, step: int): (r: int)
    requires step != 0
    ensures step > 0 ==> 0 <= r <= n
    ensures step < 0 ==> -1 <= r < n
    ensures 0 <= b < n ==> r == b
    ensures -(n as int) <= b < 0 ==> r == b + n
  {
    if b < 0 then
      if b + n < 0 then (if step < 0 then -1 else 0) else b + n
    else if b >= n then (if step < 0 then n - 1 else n)
    else b
  }

  /** slice.indices(n): the first position walked and the exclusive end, for a non-zero step. */
  function SliceIndices(n: nat, start: Option<int>, stop: Option<int>, step: int): (r: (int, int))
    requires step != 0
    ensures step > 0 ==> 0 <= r.0 <= n && 0 <= r.1 <= n
    ensures step < 0 ==> -1 <= r.0 < n && -1 <= r.1 < n
  {
    var first := if start.None? then (if step < 0 then n - 1 else 0) else AdjustBound(start.value, n, step);
    var end := if stop.None? then (if step < 0 then -1 else n) else AdjustBound(stop.value, n, step);
    (first, end)
  }

  /** range(first, end, step). */
  function Stride(first: int, end: int, step: int): (r: seq<int>)
    requires step != 0
    decreases if step > 0 then end - first else first - end
  {
    if (step > 0 && first < end) || (step < 0 && first > end) then [first] + Stride(first + step, end, step)
    else []
  }

  /** A range walks strictly away from `first` and stops before `end`. */
  lemma {:induction false} StrideBounds(first: int, end: int, step: int)
    requires step != 0
    ensures forall k :: 0 <= k < |Stride(first, end, step)| ==>
      if step > 0 then first <= Stride(first, end, step)[k] < end else end < Stride(first, end, step)[k] <= first
    ensures forall i, j :: 0 <= i < j < |Stride(first, end, step)| ==>
      if step > 0 then Stride(first, end, step)[i] < Stride(first, end, step)[j]
      else Stride(first, end, step)[i] > Stride(first, end, step)[j]
    decreases if step > 0 then end - first else first - end
  {
    if (step > 0 && first < end) || (step < 0 && first > end) {
      var r, tail := Stride(first, end, step), Stride(first + step, end, step);
      StrideBounds(first + step, end, step);
      assert forall k :: 1 <= k < |r| ==> r[k] == tail[k - 1];
    }
  }

  lemma MulStep(k: int, step: int)
    ensures step + (k - 1) * step == k * step
  {
  }

  /** Entry k of a range is first + k * step. */
  lemma {:induction false} StrideAt(first: int, end: int, step: int)
    requires step != 0
    ensures forall k :: 0 <= k < |Stride(first, end, step)| ==> Stride(first, end, step)[k] == first + k * step
    decreases if step > 0 then end - first else first - end
  {
    if (step > 0 && first < end) || (step < 0 && first > end) {
      var r, tail := Stride(first, end, step), Stride(first + step, end, step);
      StrideAt(first + step, end, step);
      forall k | 1 <= k < |r| ensures r[k] == first + k * step {
        MulStep(k, step);
        assert r[k] == tail[k - 1];
      }
    }
  }

  /** A range stops at the first step that would reach or pass `end`. */
  lemma {:induction false} StrideEnds(first: int, end: int, step: int)
    requires step != 0
    ensures step > 0 ==> first + |Stride(first, end, step)| * step >= end
    ensures step < 0 ==> first + |Stride(first, end, step)| * step <= end
    decreases if step > 0 then end - first else first - end
  {
    if (step > 0 && first < end) || (step < 0 && first > end) {
      var tail := Stride(first + step, end, step);
      StrideEnds(first + step, end, step);
      MulStep(|tail| + 1, step);
    }
  }

  /**
   * The positions a slice selects from n positions, in the order it walks
   * them: range(*slice.indices(n)).
   */
  function SlicePositions(n: nat, start: Option<int>, stop: Option<int>, step: int): (ps: seq<nat>)
    requires step != 0
    ensures forall k :: 0 <= k < |ps| ==> ps[k] < n
    ensures Distinct(ps)
    ensures ps == Stride(SliceIndices(n, start, stop, step).0, SliceIndices(n, start, stop, step).1, step)
  {
    var bounds := SliceIndices(n, start, stop, step);
    var walk := Stride(bounds.0, bounds.1, step);
    StrideBounds(bounds.0, bounds.1, step);
    seq(|walk|, k requires 0 <= k < |walk| => walk[k] as nat)
  }

  /** The slice with no bounds and no step selects every position, in order. */
  lemma SliceWhole(n: nat)
    ensures SlicePositions(n, None, None, 1) == Range(n)
  {
    var ps := SlicePositions(n, None, None, 1);
    StrideAt(0, n, 1);
    StrideBounds(0, n, 1);
    StrideEnds(0, n, 1);
    assert 0 + |ps| * 1 == |ps|;
    assert |ps| > 0 ==> ps[|ps| - 1] == |ps| - 1;
  }

  /** The slice `[::-1]` walks every position from the last to the first. */
  lemma SliceReversed(n: nat)
    ensures |SlicePositions(n, None, None, -1)| == n
    ensures forall k :: 0 <= k < n ==> SlicePositions(n, None, None, -1)[k] == n - 1 - k
  {
    var ps := SlicePositions(n, None, None, -1);
    StrideAt(n - 1, -1, -1);
    StrideBounds(n - 1, -1, -1);
    StrideEnds(n - 1, -1, -1);
    assert (n - 1) + |ps| * -1 == n - 1 - |ps|;
    assert |ps| > 0 ==> ps[|ps| - 1] == n - |ps|;
  }
}
