/**
 * IndexHierarchy.from_labels_delimited: every label is one string holding
 * the labels of all depths, optionally wrapped in brackets, separated by a
 * delimiter, each part written as a literal. Evaluating a literal is not part
 * of this model; it is passed in as `eval`.
 */
module DelimitedLabels {
  import opened Labels
  import opened Errors
  import opened IndexHierarchy
  import opened HierarchyBuild
  import HierarchyConstructors

  const MsgEmptySeparator := "empty separator"
  const MsgMalformed := "A label is malformed. This may be due to not quoting a string label"

  //---------------------------------------------------------------------------
  // str.split with an explicit separator

  /** Whether `sep` occurs in `s` starting at position i. */
  predicate OccursAt(s: string, sep: string, i: nat) {
    i + |sep| <= |s| && s[i..i + |sep|] == sep
  }

  /**
   * str.split(sep) for a non-empty separator: cut at every occurrence of
   * `sep`, scanning left to right and resuming after each cut.
   */
  function SplitOn(s: string, sep: string): (parts: seq<string>)
    requires sep != []
    ensures |parts| >= 1
    decreases |s|
  {
    if |s| < |sep| then [s]
    else if s[..|sep|] == sep then [[]] + SplitOn(s[|sep|..], sep)
    else
      var rest := SplitOn(s[1..], sep);
      [[s[0]] + rest[0]] + rest[1..]
  }

  /** str.join: the parts with `sep` between consecutive ones. */
  function Join(parts: seq<string>, sep: string): string
    requires |parts| >= 1
  {
    if |parts| == 1 then parts[0] else parts[0] + sep + Join(parts[1..], sep)
  }

  /** Joining the parts with the separator gives back the string that was split. */
  lemma {:induction false} SplitJoin(s: string, sep: string)
    requires sep != []
    ensures Join(SplitOn(s, sep), sep) == s
    decreases |s|
  {
    if |s| < |sep| {
    } else if s[..|sep|] == sep {
      SplitJoin(s[|sep|..], sep);
      var rest := SplitOn(s[|sep|..], sep);
      assert SplitOn(s, sep) == [[]] + rest;
      assert ([[]] + rest)[1..] == rest;
      assert s == s[..|sep|] + s[|sep|..];
    } else {
      SplitJoin(s[1..], sep);
      var rest := SplitOn(s[1..], sep);
      var parts := [[s[0]] + rest[0]] + rest[1..];
      assert s == [s[0]] + s[1..];
      if |rest| == 1 {
        assert Join(parts, sep) == [s[0]] + rest[0];
      } else {
        assert parts[1..] == rest[1..];
        assert Join(rest, sep) == rest[0] + sep + Join(rest[1..], sep);
        assert Join(parts, sep) == ([s[0]] + rest[0]) + sep + Join(rest[1..], sep);
      }
    }
  }

  /** Splitting yields more than one part exactly when the separator occurs somewhere. */
  lemma {:induction false} SplitManyIffOccurs(s: string, sep: string)
    requires sep != []
    ensures |SplitOn(s, sep)| > 1 <==> exists i :: 0 <= i < |s| && OccursAt(s, sep, i)
    decreases |s|
  {
    if |s| < |sep| {
      forall i | 0 <= i < |s| ensures !OccursAt(s, sep, i) {
      }
    } else if s[..|sep|] == sep {
      assert OccursAt(s, sep, 0);
    } else {
      SplitManyIffOccurs(s[1..], sep);
      var rest := s[1..];
      assert |SplitOn(s, sep)| == |SplitOn(rest, sep)|;
      if exists i :: 0 <= i < |rest| && OccursAt(rest, sep, i) {
        var i :| 0 <= i < |rest| && OccursAt(rest, sep, i);
        assert s[i + 1..i + 1 + |sep|] == rest[i..i + |sep|];
        assert OccursAt(s, sep, i + 1);
      }
      if exists i :: 0 <= i < |s| && OccursAt(s, sep, i) {
        var i :| 0 <= i < |s| && OccursAt(s, sep, i);
        assert i != 0;
        assert s[i..i + |sep|] == rest[i - 1..i - 1 + |sep|];
        assert OccursAt(rest, sep, i - 1);
      }
    }
  }

  //---------------------------------------------------------------------------
  // to_label

  /**
   * The text between optional brackets: a leading '[' or '(' and a trailing
   * ']' or ')' are each dropped on their own.
   */
  function Unbracket(raw: string): (body: string)
    requires raw != []
    ensures |body| <= |raw|
  {
    var start := if raw[0] == '[' || raw[0] == '(' then 1 else 0;
    var stop := if raw[|raw| - 1] == ']' || raw[|raw| - 1] == ')' then |raw| - 1 else |raw|;
    if start <= stop then raw[start..stop] else []
  }

  /** Wrapping text in a matching pair of brackets and unwrapping it gives the text back. */
  lemma UnbracketWrapped(text: string, open: char, close: char)
    requires (open == '[' && close == ']') || (open == '(' && close == ')')
    ensures Unbracket([open] + text + [close]) == text
  {
    var raw := [open] + text + [close];
    assert raw[1..|raw| - 1] == text;
  }

  /** Text that neither starts nor ends with a bracket is left alone. */
  lemma UnbracketPlain(raw: string)
    requires raw != []
    requires raw[0] != '[' && raw[0] != '('
    requires raw[|raw| - 1] != ']' && raw[|raw| - 1] != ')'
    ensures Unbracket(raw) == raw
  {
    assert raw[0..|raw|] == raw;
  }

  /** Evaluate every part as a literal; the first ValueError becomes the malformed-label error, other errors pass through. */
  function EvalAll(parts: seq<string>, eval: string -> Result<Label>): (r: Result<seq<Label>>)
    ensures r.Ok? <==> forall k :: 0 <= k < |parts| ==> eval(parts[k]).Ok?
    ensures r.Ok? ==> |r.value| == |parts| && forall k :: 0 <= k < |parts| ==> r.value[k] == eval(parts[k]).value
  {
    if parts == [] then Ok([])
    else match eval(parts[0])
      case Err(e) => Err(if e.ValueError? then ValueError(MsgMalformed) else e)
      case Ok(x) =>
        assert forall k :: 1 <= k < |parts| ==> parts[k] == parts[1..][k - 1];
        match EvalAll(parts[1..], eval)
        case Err(e) => Err(e)
        case Ok(xs) => Ok([x] + xs)
  }

  /** The error reported is the one of the first part that fails to evaluate. */
  lemma {:induction false} EvalAllFirstError(parts: seq<string>, eval: string -> Result<Label>)
    requires EvalAll(parts, eval).Err?
    ensures exists k :: (
      && 0 <= k < |parts| && eval(parts[k]).Err?
      && (forall j :: 0 <= j < k ==> eval(parts[j]).Ok?)
      && EvalAll(parts, eval).error == (if eval(parts[k]).error.ValueError? then ValueError(MsgMalformed) else eval(parts[k]).error))
  {
    if eval(parts[0]).Ok? {
      var tail := parts[1..];
      EvalAllFirstError(tail, eval);
      var k :| 0 <= k < |tail| && eval(tail[k]).Err? &&
        (forall j :: 0 <= j < k ==> eval(tail[j]).Ok?) &&
        EvalAll(tail, eval).error == (if eval(tail[k]).error.ValueError? then ValueError(MsgMalformed) else eval(tail[k]).error);
      assert tail[k] == parts[k + 1];
      assert forall j :: 0 <= j < k + 1 ==> eval(parts[j]).Ok? by {
        forall j | 0 <= j < k + 1 ensures eval(parts[j]).Ok? {
          if j > 0 {
            assert parts[j] == tail[j - 1];
          }
        }
      }
    }
  }

  /**
   * to_label: an empty string raises IndexError; the text between optional
   * brackets is split on the delimiter; fewer than two parts raise
   * RuntimeError; otherwise every part is evaluated.
   */
  function ToLabel(raw: string, delimiter: string, eval: string -> Result<Label>): (r: Result<seq<Label>>)
    ensures raw == [] ==> r == Err(IndexError)
    ensures raw != [] && delimiter == [] ==> r == Err(ValueError(MsgEmptySeparator))
    ensures r.Ok? ==> raw != [] && delimiter != [] && |r.value| == |SplitOn(Unbracket(raw), delimiter)| >= 2
    ensures raw != [] && delimiter != [] ==>
      var body := Unbracket(raw);
      var parts := SplitOn(body, delimiter);
      && (|parts| <= 1 ==> r == Err(RuntimeError(MsgDelimited + ": " + body)))
      && (|parts| > 1 ==> r == EvalAll(parts, eval))
  {
    if raw == [] then Err(IndexError)
    else
      var body := Unbracket(raw);
      if delimiter == [] then Err(ValueError(MsgEmptySeparator))
      else
        var parts := SplitOn(body, delimiter);
        if |parts| <= 1 then Err(RuntimeError(MsgDelimited + ": " + body))
        else EvalAll(parts, eval)
  }

  /** Text without the delimiter between its brackets is refused; text that parses holds the delimiter. */
  lemma ToLabelNeedsDelimiter(raw: string, delimiter: string, eval: string -> Result<Label>)
    requires raw != [] && delimiter != []
    ensures (!exists i :: 0 <= i < |Unbracket(raw)| && OccursAt(Unbracket(raw), delimiter, i)) ==>
      ToLabel(raw, delimiter, eval) == Err(RuntimeError(MsgDelimited + ": " + Unbracket(raw)))
    ensures ToLabel(raw, delimiter, eval).Ok? ==>
      exists i :: 0 <= i < |Unbracket(raw)| && OccursAt(Unbracket(raw), delimiter, i)
  {
    SplitManyIffOccurs(Unbracket(raw), delimiter);
  }

  //---------------------------------------------------------------------------
  // the constructor

  /**
   * The labels of the rows after the first, in stream order: each is parsed,
   * then its depth is compared with the first row's; the first failure wins.
   */
  function ParseRest(labels: seq<string>, delimiter: string, eval: string -> Result<Label>, depth: nat): (r: Result<seq<seq<Label>>>)
    ensures r.Ok? ==> |r.value| == |labels| && Uniform(r.value, depth)
    ensures r.Ok? ==> forall k :: 0 <= k < |labels| ==> ToLabel(labels[k], delimiter, eval) == Ok(r.value[k])
  {
    if labels == [] then Ok([])
    else match ToLabel(labels[0], delimiter, eval)
      case Err(e) => Err(e)
      case Ok(row) =>
        if |row| != depth then Err(ErrorInitIndex(MsgRowDepth))
        else match ParseRest(labels[1..], delimiter, eval, depth)
          case Err(e) => Err(e)
          case Ok(rows) =>
            assert forall k :: 1 <= k < |labels| ==> labels[k] == labels[1..][k - 1];
            Ok([row] + rows)
  }

  /** All rows parsed, the first fixing the depth. */
  function ParseRows(labels: seq<string>, delimiter: string, eval: string -> Result<Label>): (r: Result<seq<seq<Label>>>)
    ensures r.Ok? ==> |r.value| == |labels|
    ensures r.Ok? && labels != [] ==> |r.value[0]| >= 2 && Uniform(r.value, |r.value[0]|)
    ensures r.Ok? ==> forall k :: 0 <= k < |labels| ==> ToLabel(labels[k], delimiter, eval) == Ok(r.value[k])
  {
    if labels == [] then Ok([])
    else match ToLabel(labels[0], delimiter, eval)
      case Err(e) => Err(e)
      case Ok(first) =>
        match ParseRest(labels[1..], delimiter, eval, |first|)
        case Err(e) => Err(e)
        case Ok(rows) =>
          assert forall k :: 1 <= k < |labels| ==> labels[k] == labels[1..][k - 1];
          Ok([first] + rows)
  }

  /**
   * from_labels_delimited: the parsed rows go to from_labels without a
   * continuation token or depth reference. A failure while parsing or a row
   * of another depth is raised as soon as the stream reaches it.
   */
  function FromLabelsDelimited(labels: seq<string>, delimiter: string, eval: string -> Result<Label>, isStatic: bool): (r: Result<Hierarchy>)
    ensures labels == [] ==> r == Err(ErrorInitIndex(MsgDepthReference))
    ensures ParseRows(labels, delimiter, eval).Err? ==> r == Err(ParseRows(labels, delimiter, eval).error)
  {
    match ParseRows(labels, delimiter, eval)
    case Err(e) => Err(e)
    case Ok(rows) => FromLabelsValue(rows, None, None, isStatic)
  }

  /**
   * When every label parses, to the same depth, the hierarchy exists exactly
   * when the parsed rows are distinct, and it holds those rows in order.
   */
  lemma FromLabelsDelimitedRows(labels: seq<string>, delimiter: string, eval: string -> Result<Label>, isStatic: bool)
    requires labels != [] && ParseRows(labels, delimiter, eval).Ok?
    ensures var rows := ParseRows(labels, delimiter, eval).value;
      var r := FromLabelsDelimited(labels, delimiter, eval, isStatic);
      && (r.Ok? <==> Distinct(rows))
      && (r.Ok? ==> Values(r.value) == rows)
  {
    var rows := ParseRows(labels, delimiter, eval).value;
    HierarchyConstructors.ResolveWithoutToken(rows, |rows[0]|);
    FromLabelsRows(rows, None, None, isStatic);
  }

  /** A row whose parsed depth differs from the first row's stops the stream, unless an earlier label failed first. */
  lemma {:induction false} MismatchStops(labels: seq<string>, delimiter: string, eval: string -> Result<Label>, depth: nat, k: nat)
    requires k < |labels|
    requires forall j :: 0 <= j < k ==> ToLabel(labels[j], delimiter, eval).Ok? && |ToLabel(labels[j], delimiter, eval).value| == depth
    requires ToLabel(labels[k], delimiter, eval).Ok? && |ToLabel(labels[k], delimiter, eval).value| != depth
    ensures ParseRest(labels, delimiter, eval, depth) == Err(ErrorInitIndex(MsgRowDepth))
  {
    if k > 0 {
      assert forall j :: 0 <= j < k - 1 ==> labels[1..][j] == labels[j + 1];
      MismatchStops(labels[1..], delimiter, eval, depth, k - 1);
    }
  }
}
