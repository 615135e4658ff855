/**
 * The flat index: a bijection between distinct labels and the positions
 * 0 .. n-1, backed by a hash map from label to position, or by no map at all
 * when every label is already its own position (loc_is_iloc).
 */
module FlatIndex {
  import opened Labels
  import opened Errors

  /**
   * An index value. `automap` is None exactly when the index is loc_is_iloc;
   * `isStatic` separates the immutable Index from the grow-only IndexGO.
   */
  datatype Index = Index(automap: Option<map<Label, nat>>, labels: seq<Label>, positions: seq<nat>, isStatic: bool)

  /** Labels that are exactly their positions: Int(0), Int(1), ... */
  predicate IsPositionLabels(s: seq<Label>) {
    forall i :: 0 <= i < |s| ==> s[i] == Int(i)
  }

  predicate Valid(ix: Index) {
    && ix.positions == Range(|ix.labels|)
    && Distinct(ix.labels)
    && (ix.automap.None? ==> IsPositionLabels(ix.labels))
    && (ix.automap.Some? ==> ix.automap.value == PositionMap(ix.labels))
  }

  /** An index built from labels already known to be distinct. */
  function FromDistinct(labels: seq<Label>, isStatic: bool): (r: Index)
    requires Distinct(labels)
    ensures Valid(r) && r.labels == labels && r.automap.Some? && r.isStatic == isStatic
  {
    Index(Some(PositionMap(labels)), labels, Range(|labels|), isStatic)
  }

  //---------------------------------------------------------------------------
  // construction

  datatype Initializer =
    | FromLabels(items: seq<Label>)
    | FromString(text: string)
    | FromIndex(source: Index)

  /** How often `x` occurs in `s`. */
  function Occurrences(s: seq<Label>, x: Label): nat {
    multiset(s)[x]
  }

  /** Insert `x` after every element at least as frequent in `all`: a stable descending insertion. */
  function InsertByCount(s: seq<Label>, x: Label, all: seq<Label>): (r: seq<Label>)
    ensures multiset(r) == multiset(s) + multiset{x}
  {
    if s == [] then [x]
    else if Occurrences(all, s[0]) < Occurrences(all, x) then [x] + s
    else
      assert s == [s[0]] + s[1..];
      [s[0]] + InsertByCount(s[1..], x, all)
  }

  /** Distinct labels ordered by descending frequency, ties in input order: Counter.most_common. */
  function SortByCount(xs: seq<Label>, all: seq<Label>): (r: seq<Label>)
    ensures multiset(r) == multiset(xs)
  {
    if xs == [] then []
    else
      assert xs == xs[..|xs| - 1] + [xs[|xs| - 1]];
      InsertByCount(SortByCount(xs[..|xs| - 1], all), xs[|xs| - 1], all)
  }

  predicate ByCountDescending(s: seq<Label>, all: seq<Label>) {
    forall i, j :: 0 <= i < j < |s| ==> Occurrences(all, s[i]) >= Occurrences(all, s[j])
  }

  function RepeatedOnly(s: seq<Label>, all: seq<Label>): (r: seq<Label>)
    ensures |r| <= |s|
    ensures forall x :: x in r ==> x in s && Occurrences(all, x) > 1
  {
    if s == [] then []
    else (if Occurrences(all, s[0]) > 1 then [s[0]] else []) + RepeatedOnly(s[1..], all)
  }

  /** The examples of the non-unique report: of the ten most common labels, those seen more than once. */
  function DuplicateExamples(labels: seq<Label>): seq<Label> {
    var ranked := SortByCount(FirstSeen(labels), labels);
    RepeatedOnly(if |ranked| <= 10 then ranked else ranked[..10], labels)
  }

  /** The error raised when labels are not unique. */
  function NonUniqueError(labels: seq<Label>): Error {
    NonUniqueLabels(|labels| - |FirstSeen(labels)|, DuplicateExamples(labels))
  }

  lemma {:induction false} InsertByCountSorted(s: seq<Label>, x: Label, all: seq<Label>)
    requires ByCountDescending(s, all)
    ensures ByCountDescending(InsertByCount(s, x, all), all)
  {
    if s != [] {
      if Occurrences(all, s[0]) < Occurrences(all, x) {
        assert forall k :: 0 <= k < |s| ==> Occurrences(all, s[0]) >= Occurrences(all, s[k]);
      } else {
        InsertByCountSorted(s[1..], x, all);
        var t := InsertByCount(s[1..], x, all);
        forall k | 0 <= k < |t| ensures Occurrences(all, s[0]) >= Occurrences(all, t[k]) {
          InsertByCountMembers(s[1..], x, all);
          assert t[k] in t;
          if t[k] != x {
            var m :| 0 <= m < |s[1..]| && s[1..][m] == t[k];
            assert s[m + 1] == t[k];
          }
        }
      }
    }
  }

  lemma {:induction false} InsertByCountMembers(s: seq<Label>, x: Label, all: seq<Label>)
    ensures forall y :: y in InsertByCount(s, x, all) <==> y in s || y == x
  {
    if s != [] && Occurrences(all, s[0]) >= Occurrences(all, x) {
      InsertByCountMembers(s[1..], x, all);
      assert forall y :: y in s <==> y == s[0] || y in s[1..];
    }
  }

  lemma {:induction false} SortByCountSorted(xs: seq<Label>, all: seq<Label>)
    ensures ByCountDescending(SortByCount(xs, all), all)
  {
    if xs != [] {
      SortByCountSorted(xs[..|xs| - 1], all);
      InsertByCountSorted(SortByCount(xs[..|xs| - 1], all), xs[|xs| - 1], all);
    }
  }

  lemma RepeatedOnlyKeepsFirst(s: seq<Label>, all: seq<Label>)
    requires s != [] && Occurrences(all, s[0]) > 1
    ensures RepeatedOnly(s, all) != []
  {
  }

  lemma RepeatedTwice(labels: seq<Label>, i: nat, j: nat)
    requires i < j < |labels| && labels[i] == labels[j]
    ensures Occurrences(labels, labels[i]) > 1
  {
    var x := labels[i];
    assert labels == labels[..j] + [labels[j]] + labels[j + 1..];
    assert labels[..j][i] == x;
    assert x in multiset(labels[..j]);
    assert multiset(labels) == multiset(labels[..j]) + multiset{x} + multiset(labels[j + 1..]);
  }

  /**
   * The non-unique report counts total minus distinct labels, and names
   * between one and ten labels, each of which occurs more than once.
   */
  lemma NonUniqueReport(labels: seq<Label>)
    requires !Distinct(labels)
    ensures NonUniqueError(labels).count == |labels| - |FirstSeen(labels)| >= 1
    ensures 1 <= |NonUniqueError(labels).examples| <= 10
    ensures forall x :: x in NonUniqueError(labels).examples ==> Occurrences(labels, x) > 1
  {
    RepeatCountIsTotalMinusDistinct(labels);
    RepeatCountPositive(labels);
    var ranked := SortByCount(FirstSeen(labels), labels);
    MostFrequentIsRepeated(labels);
    var top := if |ranked| <= 10 then ranked else ranked[..10];
    assert top[0] == ranked[0];
    RepeatedOnlyKeepsFirst(top, labels);
  }

  /** When some label repeats, the most frequent label ranks first and repeats too. */
  lemma MostFrequentIsRepeated(labels: seq<Label>)
    requires !Distinct(labels)
    ensures SortByCount(FirstSeen(labels), labels) != []
    ensures Occurrences(labels, SortByCount(FirstSeen(labels), labels)[0]) > 1
  {
    var i, j :| 0 <= i < j < |labels| && labels[i] == labels[j];
    RepeatedTwice(labels, i, j);
    var x := labels[i];
    FirstSeenSpec(labels);
    var ranked := SortByCount(FirstSeen(labels), labels);
    assert x in labels;
    assert x in FirstSeen(labels);
    assert x in multiset(FirstSeen(labels));
    assert x in multiset(ranked);
    var k :| 0 <= k < |ranked| && ranked[k] == x;
    SortByCountSorted(FirstSeen(labels), labels);
    assert k == 0 || Occurrences(labels, ranked[0]) >= Occurrences(labels, ranked[k]);
  }

  lemma {:induction false} RepeatCountPositive<T>(s: seq<T>)
    requires !Distinct(s)
    ensures RepeatCount(s) >= 1
  {
    var init := s[..|s| - 1];
    var i, j :| 0 <= i < j < |s| && s[i] == s[j];
    if j == |s| - 1 {
      assert s[i] == init[i];
      assert s[|s| - 1] in init;
    } else {
      assert init[i] == init[j];
      RepeatCountPositive(init);
    }
  }

  /**
   * Index.__init__: a bare string is rejected; labels are taken as they are
   * when the caller states they are positions; otherwise the map is built and
   * a repeated label is reported; another index lends its map and positions.
   */
  function New(init: Initializer, locIsIloc: bool, isStatic: bool): (r: Result<Index>)
    requires init.FromIndex? ==> Valid(init.source)
    requires locIsIloc ==> !init.FromString?
    requires locIsIloc && init.FromLabels? ==> IsPositionLabels(init.items)
    ensures r.Ok? ==> Valid(r.value) && r.value.isStatic == isStatic
    ensures init.FromLabels? ==> (r.Ok? <==> locIsIloc || Distinct(init.items))
    ensures init.FromLabels? && r.Ok? ==>
      r.value.labels == init.items && (r.value.automap.None? <==> locIsIloc)
    ensures init.FromLabels? && r.Err? ==> r.error == NonUniqueError(init.items)
    ensures init.FromString? ==> r == Err(ErrorInitIndex(MsgSingleString))
    ensures init.FromIndex? ==> r == Ok(init.source.(isStatic := isStatic))
  {
    match init
    case FromIndex(src) =>
      // the map is shared only between two immutable indices; an equal one is rebuilt otherwise
      var m := if src.isStatic && isStatic then src.automap
               else if src.automap.None? then None
               else Some(PositionMap(src.labels));
      Ok(Index(m, src.labels, src.positions, isStatic))
    case FromString(_) =>
      Err(ErrorInitIndex(MsgSingleString))
    case FromLabels(items) =>
      if locIsIloc then
        assert Distinct(items) by {
          forall i, j | 0 <= i < j < |items| ensures items[i] != items[j] {
            assert items[i] == Int(i) && items[j] == Int(j);
          }
        }
        Ok(Index(None, items, Range(|items|), isStatic))
      else if Distinct(items) then Ok(FromDistinct(items, isStatic))
      else Err(NonUniqueError(items))
  }

  /**
   * mutable_immutable_index_filter: an index of the requested mutability
   * holding the same labels and the same map.
   */
  function MutableImmutableFilter(targetStatic: bool, ix: Index): (r: Index)
    requires Valid(ix)
    ensures Valid(r) && r.isStatic == targetStatic
    ensures r.labels == ix.labels && r.automap == ix.automap
    ensures targetStatic && ix.isStatic ==> r == ix
  {
    if targetStatic && ix.isStatic then ix
    else New(FromIndex(ix), false, targetStatic).value
  }

  //---------------------------------------------------------------------------
  // membership and key translation

  /** Index.__contains__. */
  function Contains(ix: Index, v: Label): bool {
    if ix.automap.None? then v.Int? && 0 <= v.value < |ix.labels|
    else v in ix.automap.value
  }

  /** Membership answered by the map, or by the integer test, is membership in the labels. */
  lemma ContainsIffMember(ix: Index, v: Label)
    requires Valid(ix)
    ensures Contains(ix, v) <==> v in ix.labels
  {
    if ix.automap.None? {
      if v.Int? && 0 <= v.value < |ix.labels| {
        assert ix.labels[v.value] == v;
      }
    } else {
      PositionMapInverts(ix.labels);
    }
  }

  /**
   * The private _loc_to_iloc of one present label: the label itself when
   * loc_is_iloc, else its map entry; it is the label's position.
   */
  function Position(ix: Index, v: Label): (p: nat)
    requires Valid(ix) && Contains(ix, v)
    ensures p < |ix.labels| && ix.labels[p] == v
  {
    ContainsIffMember(ix, v);
    if ix.automap.None? then v.value
    else PositionMapLookup(ix.labels, v); ix.automap.value[v]
  }

  /** A label-domain key. */
  datatype Key =
    | One(item: Label)
    | Many(items: seq<Label>)
    | Slice(start: Option<Label>, stop: Option<Label>, step: Option<Label>)
    | BoolMask(mask: seq<bool>)

  /** The full wildcard slice, NULL_SLICE. */
  const NullSlice: Key := Slice(None, None, None)

  /** A position-domain key. */
  datatype ILocKey =
    | At(position: int)
    | Each(positions: seq<int>)
    | ISlice(start: Option<int>, stop: Option<int>, step: Option<int>)
    | IMask(mask: seq<bool>)

  predicate IntOrAbsent(b: Option<Label>) {
    b.None? || b.value.Int?
  }

  function IntOf(b: Option<Label>): Option<int>
    requires IntOrAbsent(b)
  {
    if b.None? then None else Some(b.value.value)
  }

  /** NumPy accepts an integer position p of n elements when -n <= p < n. */
  predicate InBounds(v: Label, n: nat) {
    v.Int? && -(n as int) <= v.value < n
  }

  /** The first element that is not an in-bounds integer position, if any. */
  function FirstOutOfBounds(ls: seq<Label>, n: nat): (r: Option<Label>)
    ensures r.None? <==> forall i :: 0 <= i < |ls| ==> InBounds(ls[i], n)
    ensures r.Some? ==> r.value in ls && !InBounds(r.value, n)
  {
    if ls == [] then None
    else if !InBounds(ls[0], n) then Some(ls[0])
    else
      var rest := FirstOutOfBounds(ls[1..], n);
      assert forall i :: 1 <= i < |ls| ==> ls[i] == ls[1..][i - 1];
      rest
  }

  /** The first label not in `m`, if any. */
  function FirstMissing(ls: seq<Label>, m: map<Label, nat>): (r: Option<Label>)
    ensures r.None? <==> forall i :: 0 <= i < |ls| ==> ls[i] in m
    ensures r.Some? ==> r.value in ls && r.value !in m
  {
    if ls == [] then None
    else if ls[0] !in m then Some(ls[0])
    else
      var rest := FirstMissing(ls[1..], m);
      assert forall i :: 1 <= i < |ls| ==> ls[i] == ls[1..][i - 1];
      rest
  }

  /**
   * A label slice on a loc_is_iloc index, with the open stop read as "through
   * the end": the bounds must be integers, the step non-zero, and an explicit
   * stop lies inside the index; the stop becomes inclusive.
   */
  function LocIsIlocSlice(n: nat, start: Option<Label>, stop: Option<Label>, step: Option<Label>): (r: Result<ILocKey>)
  {
    if !(IntOrAbsent(start) && IntOrAbsent(stop) && IntOrAbsent(step)) then Err(LocInvalid)
    else if step == Some(Int(0)) then Err(ValueError("slice step cannot be zero"))
    else if start.None? && stop.None? && step.None? then Ok(ISlice(None, None, None))
    else if stop.Some? && stop.value.value >= n then Err(LocInvalid)
    else Ok(ISlice(IntOf(start), if stop.None? then None else Some(stop.value.value + 1), IntOf(step)))
  }

  /**
   * The same slice branch as the source writes it: an open stop that is not
   * the full wildcard reaches the comparison `stop >= len(self)` with None,
   * which raises TypeError.
   */
  function LocIsIlocSliceAsWritten(n: nat, start: Option<Label>, stop: Option<Label>, step: Option<Label>): (r: Result<ILocKey>)
  {
    if !(IntOrAbsent(start) && IntOrAbsent(stop) && IntOrAbsent(step)) then Err(LocInvalid)
    else if step == Some(Int(0)) then Err(ValueError("slice step cannot be zero"))
    else if start.None? && stop.None? && step.None? then Ok(ISlice(None, None, None))
    else if stop.None? then Err(TypeError)
    else if stop.value.value >= n then Err(LocInvalid)
    else Ok(ISlice(IntOf(start), Some(stop.value.value + 1), IntOf(step)))
  }

  /** On a loc_is_iloc index, `ix.loc_to_iloc(slice(1, None))` is refused as written and accepted once corrected. */
  lemma OpenStopSliceRejectedAsWritten()
    ensures LocIsIlocSliceAsWritten(3, Some(Int(1)), None, None) == Err(TypeError)
    ensures LocIsIlocSlice(3, Some(Int(1)), None, None) == Ok(ISlice(Some(1), None, None))
  {
  }

  /** The corrected slice branch accepts exactly the well-formed slices that stay inside the index. */
  lemma LocIsIlocSliceAccepts(n: nat, start: Option<Label>, stop: Option<Label>, step: Option<Label>)
    ensures LocIsIlocSlice(n, start, stop, step).Ok? <==>
      IntOrAbsent(start) && IntOrAbsent(stop) && IntOrAbsent(step) && step != Some(Int(0))
      && (stop.Some? ==> stop.value.value < n)
    ensures LocIsIlocSlice(n, start, stop, step).Ok? && stop.Some? ==>
      LocIsIlocSlice(n, start, stop, step).value.stop == Some(stop.value.value + 1)
  {
  }

  /** The label slice of LocMap: both ends resolved through the map, the stop made inclusive. */
  function MapSlice(m: map<Label, nat>, start: Option<Label>, stop: Option<Label>, step: Option<Label>): (r: Result<ILocKey>)
  {
    if !IntOrAbsent(step) then Err(TypeError)
    else if start.Some? && start.value !in m then Err(KeyError(start.value))
    else if stop.Some? && stop.value !in m then Err(KeyError(stop.value))
    else Ok(ISlice(if start.None? then None else Some(m[start.value]),
                   if stop.None? then None else Some(m[stop.value] + 1),
                   IntOf(step)))
  }

  /**
   * Index.loc_to_iloc. Without a map the key is tried as NumPy positions:
   * integers in -n .. n-1 pass, anything else is a KeyError, and a Boolean
   * mask yields the selected positions. With a map the key is looked up
   * label by label (the documented behaviour of LocMap).
   */
  function LocToIloc(ix: Index, key: Key): (r: Result<ILocKey>)
    requires Valid(ix)
    ensures key.One? && r.Ok? ==> r.value.At?
    ensures key.Many? && r.Ok? ==> r.value.Each? && |r.value.positions| == |key.items|
  {
    var n := |ix.labels|;
    if ix.automap.None? then
      match key
      case BoolMask(mask) =>
        if |mask| == n then Ok(Each(MaskPositions(mask))) else Err(IndexError)
      case One(v) =>
        if InBounds(v, n) then Ok(At(v.value)) else Err(KeyError(v))
      case Many(ls) =>
        (match FirstOutOfBounds(ls, n)
         case Some(v) => Err(KeyError(v))
         case None => Ok(Each(seq(|ls|, i requires 0 <= i < |ls| => ls[i].value))))
      case Slice(start, stop, step) =>
        LocIsIlocSlice(n, start, stop, step)
    else
      var m := ix.automap.value;
      match key
      case BoolMask(mask) => Ok(IMask(mask))
      case One(v) => if v in m then Ok(At(m[v])) else Err(KeyError(v))
      case Many(ls) =>
        (match FirstMissing(ls, m)
         case Some(v) => Err(KeyError(v))
         case None => Ok(Each(seq(|ls|, i requires 0 <= i < |ls| => m[ls[i]]))))
      case Slice(start, stop, step) => MapSlice(m, start, stop, step)
  }

  /** Every label translates to its own position. */
  lemma LocToIlocFindsLabel(ix: Index, i: nat)
    requires Valid(ix) && i < |ix.labels|
    ensures LocToIloc(ix, One(ix.labels[i])) == Ok(At(i))
  {
    if ix.automap.Some? {
      PositionMapInverts(ix.labels);
    }
  }

  /** With a map, a label translates exactly when it is present; otherwise the error names it. */
  lemma LocToIlocMissing(ix: Index, v: Label)
    requires Valid(ix) && ix.automap.Some?
    ensures LocToIloc(ix, One(v)).Ok? <==> v in ix.labels
    ensures v !in ix.labels ==> LocToIloc(ix, One(v)) == Err(KeyError(v))
  {
    PositionMapInverts(ix.labels);
  }

  /** A list of labels translates to their positions in order, or names the first absent one. */
  lemma LocToIlocList(ix: Index, ls: seq<Label>)
    requires Valid(ix) && ix.automap.Some?
    ensures LocToIloc(ix, Many(ls)).Ok? <==> forall x :: x in ls ==> x in ix.labels
    ensures LocToIloc(ix, Many(ls)).Ok? ==>
      forall i :: 0 <= i < |ls| ==>
        0 <= LocToIloc(ix, Many(ls)).value.positions[i] < |ix.labels|
        && ix.labels[LocToIloc(ix, Many(ls)).value.positions[i]] == ls[i]
  {
    PositionMapInverts(ix.labels);
    if forall x :: x in ls ==> x in ix.labels {
      forall i | 0 <= i < |ls| ensures ls[i] in ix.automap.value {
        assert ls[i] in ls;
      }
      forall i | 0 <= i < |ls|
        ensures ix.labels[LocToIloc(ix, Many(ls)).value.positions[i]] == ls[i]
      {
        PositionMapLookup(ix.labels, ls[i]);
      }
    }
  }

  /**
   * _depth_level_validate: a flat index has only depth 0, also spelt -1,
   * given alone or as a one-element list.
   */
  datatype DepthLevel = Level(level: int) | Levels(levels: seq<int>)

  function DepthLevelValidate(dl: DepthLevel): (r: Outcome)
    ensures r.Pass? <==>
      (dl.Level? && -1 <= dl.level <= 0) || (dl.Levels? && |dl.levels| == 1 && -1 <= dl.levels[0] <= 0)
    ensures r.Fail? ==> r.error == RuntimeError(MsgDepthLevel)
  {
    var level :=
      match dl
      case Level(l) => Some(l)
      case Levels(ls) => if |ls| != 1 then None else Some(ls[0]);
    if level.None? then Fail(RuntimeError(MsgDepthLevel))
    else if level.value > 0 || level.value < -1 then Fail(RuntimeError(MsgDepthLevel))
    else Pass
  }

  //---------------------------------------------------------------------------
  // derived indices

  /** An iloc key for _drop_iloc. */
  datatype DropKey =
    | DropNothing
    | DropMask(mask: seq<bool>)
    | DropAt(positions: seq<int>)
    | DropSlice(start: Option<int>, stop: Option<int>, step: Option<int>)

  /** Whether position i of n is named by some (possibly negative) entry of `ps`. */
  predicate Named(ps: seq<int>, n: nat, i: nat) {
    exists k :: 0 <= k < |ps| && (ps[k] == i || ps[k] == i - n)
  }

  /** The keep mask of a Boolean drop key: every position it does not select. */
  function Unmasked(mask: seq<bool>): (keep: seq<bool>)
    ensures |keep| == |mask| && forall i :: 0 <= i < |mask| ==> keep[i] == !mask[i]
  {
    seq(|mask|, i requires 0 <= i < |mask| => !mask[i])
  }

  /** The keep mask of a position-list drop key over n positions: every position it does not name. */
  function Unnamed(ps: seq<int>, n: nat): (keep: seq<bool>)
    ensures |keep| == n && forall i :: 0 <= i < n ==> keep[i] == !Named(ps, n, i)
  {
    seq(n, i requires 0 <= i < n => !Named(ps, n, i))
  }

  /** The keep mask of a slice drop key over n positions: every position the slice does not walk. */
  function Unsliced(n: nat, start: Option<int>, stop: Option<int>, step: int): (keep: seq<bool>)
    requires step != 0
    ensures |keep| == n && forall i :: 0 <= i < n ==> keep[i] == (i !in SlicePositions(n, start, stop, step))
  {
    seq(n, i requires 0 <= i < n => i !in SlicePositions(n, start, stop, step))
  }

  /**
   * _drop_iloc: the labels left after deleting the selected positions, in
   * order, as a new index of the same mutability; np.delete refuses a
   * position outside -n .. n-1 and a mask of another length, and deletes
   * the positions range(*slice.indices(n)) of a slice, which clips its
   * bounds and refuses only a zero step.
   */
  function DropIloc(ix: Index, key: DropKey): (r: Result<Index>)
    requires Valid(ix)
    ensures r.Ok? ==> Valid(r.value) && r.value.isStatic == ix.isStatic
    ensures key.DropNothing? ==> r.Ok? && r.value.labels == ix.labels
    ensures key.DropNothing? && ix.isStatic ==> r == Ok(ix)
    ensures key.DropMask? ==> (r.Ok? <==> |key.mask| == |ix.labels|)
    ensures key.DropMask? && r.Ok? ==>
      forall x :: x in r.value.labels <==>
        exists i :: 0 <= i < |ix.labels| && !key.mask[i] && ix.labels[i] == x
    ensures key.DropMask? && r.Ok? ==> r.value.labels == Keep(ix.labels, Unmasked(key.mask))
    ensures key.DropAt? ==> (r.Ok? <==> forall k :: 0 <= k < |key.positions| ==> -|ix.labels| <= key.positions[k] < |ix.labels|)
    ensures key.DropAt? && r.Ok? ==>
      forall x :: x in r.value.labels <==>
        exists i :: 0 <= i < |ix.labels| && !Named(key.positions, |ix.labels|, i) && ix.labels[i] == x
    ensures key.DropAt? && r.Ok? ==> r.value.labels == Keep(ix.labels, Unnamed(key.positions, |ix.labels|))
    ensures key.DropSlice? ==> (r.Ok? <==> StepOr1(key.step) != 0)
    ensures key.DropSlice? && r.Err? ==> r.error == ValueError(MsgSliceStep)
    ensures key.DropSlice? && StepOr1(key.step) != 0 ==>
      && r.Ok?
      && (forall x :: x in r.value.labels <==>
            exists i :: 0 <= i < |ix.labels| && i !in SlicePositions(|ix.labels|, key.start, key.stop, StepOr1(key.step)) && ix.labels[i] == x)
      && r.value.labels == Keep(ix.labels, Unsliced(|ix.labels|, key.start, key.stop, StepOr1(key.step)))
  {
    var n := |ix.labels|;
    match key
    case DropNothing =>
      if ix.isStatic then Ok(ix) else Ok(FromDistinct(ix.labels, false))
    case DropMask(mask) =>
      if |mask| != n then Err(IndexError)
      else
        var keep := Unmasked(mask);
        KeepMembers(ix.labels, keep);
        KeepDistinct(ix.labels, keep);
        Ok(FromDistinct(Keep(ix.labels, keep), ix.isStatic))
    case DropAt(ps) =>
      if exists k :: 0 <= k < |ps| && !(-n <= ps[k] < n) then Err(IndexError)
      else
        var keep := Unnamed(ps, n);
        KeepMembers(ix.labels, keep);
        KeepDistinct(ix.labels, keep);
        Ok(FromDistinct(Keep(ix.labels, keep), ix.isStatic))
    case DropSlice(start, stop, step) =>
      if StepOr1(step) == 0 then Err(ValueError(MsgSliceStep))
      else
        var keep := Unsliced(n, start, stop, StepOr1(step));
        KeepMembers(ix.labels, keep);
        KeepDistinct(ix.labels, keep);
        Ok(FromDistinct(Keep(ix.labels, keep), ix.isStatic))
  }

  //---------------------------------------------------------------------------
  // set operations

  datatype SetOp = Union | Intersection | Difference

  /** equals(other, compare_dtype=True), with the dtype read off the labels. */
  predicate Equals(a: Index, b: Index) {
    a.labels == b.labels
  }

  /** The elements of `a` whose presence in `b` is `present`, in the order of `a`. */
  function Filter(a: seq<Label>, b: seq<Label>, present: bool): (r: seq<Label>)
    ensures forall x :: x in r <==> x in a && ((x in b) == present)
    ensures Distinct(a) ==> Distinct(r)
  {
    if a == [] then []
    else
      var rest := Filter(a[1..], b, present);
      assert forall x :: x in a <==> x == a[0] || x in a[1..];
      assert Distinct(a) ==> a[0] !in a[1..] by {
        if Distinct(a) {
          forall k | 0 <= k < |a[1..]| ensures a[1..][k] != a[0] {
            assert a[1..][k] == a[k + 1];
          }
        }
      }
      if (a[0] in b) == present then [a[0]] + rest else rest
  }

  /** Whether a label belongs to the result of `op`, given its membership in each operand. */
  predicate SetOpHolds(op: SetOp, inSelf: bool, inOther: bool) {
    match op
    case Union => inSelf || inOther
    case Intersection => inSelf && inOther
    case Difference => inSelf && !inOther
  }

  /** The labels of the general path, in first-seen order. */
  function SetLabels(op: SetOp, a: seq<Label>, b: seq<Label>): (r: seq<Label>)
    requires Distinct(a) && Distinct(b)
    ensures Distinct(r)
    ensures forall x :: x in r <==> SetOpHolds(op, x in a, x in b)
  {
    match op
    case Intersection => Filter(a, b, true)
    case Difference => Filter(a, b, false)
    case Union =>
      var extra := Filter(b, a, false);
      assert Distinct(a + extra) by {
        forall i, j | 0 <= i < j < |a + extra| ensures (a + extra)[i] != (a + extra)[j] {
          if j >= |a| && i < |a| {
            assert (a + extra)[j] in extra;
            assert (a + extra)[i] in a;
          }
        }
      }
      a + extra
  }

  function Empty(isStatic: bool): (r: Index)
    ensures Valid(r) && r.labels == []
  {
    FromDistinct([], isStatic)
  }

  /** The second operand of a set operation: another index, or the values of an array or other iterable, which may repeat. */
  datatype Operand = OfIndex(index: Index) | OfValues(values: seq<Label>)

  predicate ValidOperand(other: Operand) {
    other.OfIndex? ==> Valid(other.index)
  }

  /** The operand's values, each once: an index's labels, or the first sighting of each value. */
  function OperandLabels(other: Operand): (ls: seq<Label>)
    requires ValidOperand(other)
    ensures Distinct(ls)
    ensures forall x :: x in ls <==> x in (if other.OfIndex? then other.index.labels else other.values)
  {
    match other
    case OfIndex(ix) => ix.labels
    case OfValues(vs) => FirstSeenSpec(vs); FirstSeen(vs)
  }

  /**
   * Index._ufunc_set. An equal index short-circuits: union and intersection
   * give the index itself, difference gives an empty index; values that are
   * not an index never compare equal. Otherwise the result holds exactly the
   * labels the operation selects.
   */
  function UfuncSet(op: SetOp, self: Index, other: Operand): (r: Index)
    requires Valid(self) && ValidOperand(other)
    ensures Valid(r) && r.isStatic == self.isStatic
    ensures forall x :: x in r.labels <==>
      SetOpHolds(op, x in self.labels, x in (if other.OfIndex? then other.index.labels else other.values))
    ensures other.OfIndex? && Equals(self, other.index) && op != Difference ==> r == self
    ensures other.OfIndex? && Equals(self, other.index) && op == Difference ==> r == Empty(self.isStatic)
  {
    if other.OfIndex? && Equals(self, other.index) then
      if op == Difference then Empty(self.isStatic) else self
    else
      var ls := SetLabels(op, self.labels, OperandLabels(other));
      if ls == self.labels then New(FromIndex(self), false, self.isStatic).value
      else FromDistinct(ls, self.isStatic)
  }

  /**
   * A difference with another index keeps the labels of `self` absent from
   * it, in the order of `self`: such an operand is passed as unique, which
   * lets setdiff1d keep the first operand's order.
   */
  lemma DifferenceInOrder(self: Index, other: Index)
    requires Valid(self) && Valid(other)
    ensures UfuncSet(Difference, self, OfIndex(other)).labels == Filter(self.labels, other.labels, false)
  {
    var f := Filter(self.labels, other.labels, false);
    assert f != [] ==> f[0] in f;
  }

  /**
   * _index_iloc_map: for every label of `self`, its position in `other`; a
   * label missing from `other` raises KeyError naming the first label of
   * self.difference(other).
   */
  function IndexIlocMap(self: Index, other: Index): (r: Result<seq<nat>>)
    requires Valid(self) && Valid(other)
    ensures r.Ok? <==> forall x :: x in self.labels ==> x in other.labels
    ensures r.Ok? ==> |r.value| == |self.labels|
    ensures r.Ok? ==> forall i :: 0 <= i < |self.labels| ==>
      r.value[i] < |other.labels| && other.labels[r.value[i]] == self.labels[i]
    ensures r.Err? ==>
      var diff := UfuncSet(Difference, self, OfIndex(other)).labels;
      diff != [] && r.error == KeyError(diff[0]) && diff[0] in self.labels && diff[0] !in other.labels
  {
    if |self.labels| == 0 then Ok([])
    else
      var missing := Filter(self.labels, other.labels, false);
      if missing == [] then
        assert forall i :: 0 <= i < |self.labels| ==> self.labels[i] in other.labels by {
          forall i | 0 <= i < |self.labels| ensures self.labels[i] in other.labels {
            assert self.labels[i] in self.labels;
          }
        }
        Ok(seq(|self.labels|, i requires 0 <= i < |self.labels| => IndexOf(other.labels, self.labels[i])))
      else
        assert missing[0] in missing;
        DifferenceInOrder(self, other);
        Err(KeyError(missing[0]))
  }

  //---------------------------------------------------------------------------
  // grow-only growth, as values

  /**
   * IndexGO.append on values: a present label is refused with KeyError;
   * otherwise the label takes the next position, and the index keeps no map
   * only while every label is still its own position.
   */
  function Grow(ix: Index, v: Label): (r: Result<Index>)
    requires Valid(ix)
    ensures r.Err? <==> v in ix.labels
    ensures r.Err? ==> r.error == KeyError(v)
    ensures r.Ok? ==> Valid(r.value) && r.value.labels == ix.labels + [v] && r.value.isStatic == ix.isStatic
    ensures r.Ok? ==> (r.value.automap.None? <==> ix.automap.None? && v == Int(|ix.labels|))
  {
    ContainsIffMember(ix, v);
    if Contains(ix, v) then Err(KeyError(v))
    else
      var ls := ix.labels + [v];
      assert ls[..|ls| - 1] == ix.labels;
      var m :=
        if ix.automap.None? then (if v.Int? && v.value == |ix.labels| then None else Some(PositionMap(ls)))
        else Some(ix.automap.value[v := |ix.labels|]);
      assert Distinct(ls) by {
        forall i, j | 0 <= i < j < |ls| ensures ls[i] != ls[j] {
          if j == |ix.labels| {
            assert ls[i] == ix.labels[i];
          }
        }
      }
      Ok(Index(m, ls, Range(|ls|), ix.isStatic))
  }

  /** Grow by each label in turn, stopping at the first refused one (IndexGO.extend). */
  function ExtendAll(ix: Index, vs: seq<Label>): (r: (Index, Outcome))
    requires Valid(ix)
    ensures Valid(r.0) && r.0.isStatic == ix.isStatic
    decreases |vs|
  {
    if vs == [] then (ix, Pass)
    else
      match Grow(ix, vs[0])
      case Err(e) => (ix, Fail(e))
      case Ok(next) => ExtendAll(next, vs[1..])
  }

  /** The number of leading labels of `vs` that can be appended to `existing` one by one. */
  function FirstClash(existing: seq<Label>, vs: seq<Label>): (k: nat)
    ensures k <= |vs|
    decreases |vs|
  {
    if vs == [] then 0
    else if vs[0] in existing then 0
    else 1 + FirstClash(existing + [vs[0]], vs[1..])
  }

  /** Labels that are new and pairwise distinct never clash. */
  lemma {:induction false} FirstClashNone(existing: seq<Label>, vs: seq<Label>)
    requires Distinct(vs) && forall x :: x in vs ==> x !in existing
    ensures FirstClash(existing, vs) == |vs|
    decreases |vs|
  {
    if vs != [] {
      assert vs[0] in vs;
      forall x | x in vs[1..] ensures x !in existing + [vs[0]] {
        var k :| 0 <= k < |vs[1..]| && vs[1..][k] == x;
        assert vs[k + 1] == x;
      }
      FirstClashNone(existing + [vs[0]], vs[1..]);
    }
  }

  /**
   * extend appends the longest clash-free prefix of the new labels and then
   * raises KeyError for the first label already present, if there is one.
   */
  lemma {:induction false} ExtendAllAppendsPrefix(ix: Index, vs: seq<Label>)
    requires Valid(ix)
    ensures var k := FirstClash(ix.labels, vs);
      && ExtendAll(ix, vs).0.labels == ix.labels + vs[..k]
      && (ExtendAll(ix, vs).1 == if k == |vs| then Pass else Fail(KeyError(vs[k])))
    decreases |vs|
  {
    if vs != [] && vs[0] !in ix.labels {
      var next := Grow(ix, vs[0]).value;
      ExtendAllAppendsPrefix(next, vs[1..]);
      var k' := FirstClash(next.labels, vs[1..]);
      assert vs[..k' + 1] == [vs[0]] + vs[1..][..k'];
      assert ix.labels + [vs[0]] + vs[1..][..k'] == ix.labels + vs[..k' + 1];
      assert k' < |vs[1..]| ==> vs[1..][k'] == vs[k' + 1];
    }
  }
}
