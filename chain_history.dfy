/**
 * Lines 34-46: for every selected chain, its history is fetched and each point
 * with both `date` and `tvl` becomes a row `(day, chain, value)` appended to
 * `all_rows`. An exception while handling a chain abandons the rest of that chain
 * (the rows it already appended stay) and the loop goes on with the next chain.
 */
module ChainHistory {
  import opened Options
  import opened CivilDate

  /** The `date` field of a point: an integer `int(ts)` accepts, or a value it rejects. */
  datatype Stamp = Seconds(value: int) | NotAnInteger

  /** The `tvl` field of a point: a number `float(tvl)` accepts, or a value it rejects. */
  datatype Amount = Number(value: real) | NotANumber

  /**
   * One element of the history list. `p.get(...)` yields None both for a missing
   * field and for a JSON null. An element that is not an object makes `p.get` raise.
   */
  datatype Point = Record(date: Option<Stamp>, tvl: Option<Amount>) | NotARecord

  /** What `session.get(...).json()` gave for one chain: a list of points, or an exception. */
  datatype Response = Points(points: seq<Point>) | FetchFailed

  datatype Row = Row(day: string, chain: string, tvl: real)

  /** The effect of one point: no row, one row, or an exception that ends the chain. */
  datatype Outcome = Skip | Emit(row: Row) | Raise

  /** A point with both fields present (line 41 lets it through). */
  predicate HasFields(p: Point)
  {
    p.Record? && p.date.Some? && p.tvl.Some?
  }

  /** Lines 40-43 applied to one point of `chain`. */
  function PointOutcome(chain: string, p: Point): (o: Outcome)
    ensures o.Skip? <==> p.Record? && !HasFields(p)
    ensures o.Emit? ==> HasFields(p) && o.row.chain == chain && IsDayLabel(o.row.day)
    ensures o.Emit? ==> p.date.value.Seconds? && DayLabel(p.date.value.value) == Some(o.row.day)
    ensures o.Emit? <==>
      HasFields(p) && p.date.value.Seconds? && InDateRange(p.date.value.value) && p.tvl.value.Number?
    ensures o.Emit? ==> o.row.tvl == p.tvl.value.value
  {
    match p
    case NotARecord => Raise
    case Record(date, tvl) =>
      if date.None? || tvl.None? then Skip
      else match date.value
        case NotAnInteger => Raise
        case Seconds(ts) =>
          match DayLabel(ts)
          case None => Raise
          case Some(day) =>
            match tvl.value
            case NotANumber => Raise
            case Number(v) => Emit(Row(day, chain, v))
  }

  /** The rows one chain's points append: in order, up to the first point that raises. */
  function ChainRows(chain: string, points: seq<Point>): (rows: seq<Row>)
    ensures |rows| <= |points|
  {
    if points == [] then []
    else match PointOutcome(chain, points[0])
      case Raise => []
      case Skip => ChainRows(chain, points[1..])
      case Emit(row) => [row] + ChainRows(chain, points[1..])
  }

  function ResponseRows(chain: string, response: Response): seq<Row>
  {
    match response
    case FetchFailed => []
    case Points(points) => ChainRows(chain, points)
  }

  /** `all_rows` after the loop has handled `names[i]` with `responses[i]` for every i. */
  function AllRows(names: seq<string>, responses: seq<Response>): seq<Row>
    requires |names| == |responses|
  {
    if names == [] then []
    else
      var n := |names| - 1;
      AllRows(names[..n], responses[..n]) + ResponseRows(names[n], responses[n])
  }

  /** Index of the first point that raises, or the number of points when none does. */
  function FirstRaise(chain: string, points: seq<Point>): (k: nat)
    ensures k <= |points|
    ensures forall i :: 0 <= i < k ==> !PointOutcome(chain, points[i]).Raise?
    ensures k < |points| ==> PointOutcome(chain, points[k]).Raise?
  {
    if points == [] || PointOutcome(chain, points[0]).Raise? then 0
    else 1 + FirstRaise(chain, points[1..])
  }

  /** The number of points that have both `date` and `tvl`. */
  function CountWithFields(points: seq<Point>): nat
  {
    if points == [] then 0 else (if HasFields(points[0]) then 1 else 0) + CountWithFields(points[1..])
  }

  /** The rows of the points that produce one, in point order, ignoring exceptions. */
  function Emitted(chain: string, points: seq<Point>): (rows: seq<Row>)
    ensures (forall i :: 0 <= i < |points| ==> !PointOutcome(chain, points[i]).Raise?) ==>
      |rows| == CountWithFields(points)
  {
    if points == [] then []
    else
      (match PointOutcome(chain, points[0]) case Emit(row) => [row] case _ => [])
      + Emitted(chain, points[1..])
  }

  /**
   * A chain contributes the rows of the points before its first exception and
   * nothing from that point on.
   */
  lemma {:induction false} ChainRowsUpToRaise(chain: string, points: seq<Point>)
    ensures ChainRows(chain, points) == Emitted(chain, points[..FirstRaise(chain, points)])
  {
    var k := FirstRaise(chain, points);
    if points != [] && !PointOutcome(chain, points[0]).Raise? {
      ChainRowsUpToRaise(chain, points[1..]);
      assert points[..k][0] == points[0] && points[..k][1..] == points[1..][..k - 1];
    }
  }

  /** Without an exception, every point with both fields adds exactly one row and the others none. */
  lemma ChainRowsWithoutRaise(chain: string, points: seq<Point>)
    requires forall i :: 0 <= i < |points| ==> !PointOutcome(chain, points[i]).Raise?
    ensures ChainRows(chain, points) == Emitted(chain, points)
    ensures |ChainRows(chain, points)| == CountWithFields(points)
  {
    ChainRowsUpToRaise(chain, points);
    assert points[..|points|] == points;
  }

  /** `all_rows` only grows: what it holds after i chains is a prefix of what it holds after j. */
  lemma {:induction false} AllRowsGrows(names: seq<string>, responses: seq<Response>, i: nat, j: nat)
    requires |names| == |responses| && i <= j <= |names|
    ensures AllRows(names[..i], responses[..i]) <= AllRows(names[..j], responses[..j])
    decreases j - i
  {
    if i < j {
      AllRowsGrows(names, responses, i, j - 1);
      assert names[..j][..j - 1] == names[..j - 1] && responses[..j][..j - 1] == responses[..j - 1];
    }
  }

  /** Every row names a selected chain and carries a `YYYY-MM-DD` day. */
  lemma {:induction false} AllRowsWellFormed(names: seq<string>, responses: seq<Response>)
    requires |names| == |responses|
    ensures forall r :: r in AllRows(names, responses) ==> r.chain in names && IsDayLabel(r.day)
  {
    if names != [] {
      var n := |names| - 1;
      AllRowsWellFormed(names[..n], responses[..n]);
      assert forall r :: r in ResponseRows(names[n], responses[n]) ==> r.chain == names[n] && IsDayLabel(r.day) by {
        if responses[n].Points? {
          ChainRowsWellFormed(names[n], responses[n].points);
        }
      }
    }
  }

  lemma {:induction false} ChainRowsWellFormed(chain: string, points: seq<Point>)
    ensures forall r :: r in ChainRows(chain, points) ==> r.chain == chain && IsDayLabel(r.day)
  {
    if points != [] {
      ChainRowsWellFormed(chain, points[1..]);
    }
  }

  /** Unfolds `ChainRows` once, at point `j`. */
  lemma ChainRowsAt(chain: string, points: seq<Point>, j: int)
    requires 0 <= j < |points|
    ensures ChainRows(chain, points[j..]) ==
      match PointOutcome(chain, points[j])
      case Raise => []
      case Skip => ChainRows(chain, points[j + 1..])
      case Emit(row) => [row] + ChainRows(chain, points[j + 1..])
  {
    assert points[j..][1..] == points[j + 1..];
  }

  /**
   * Lines 39-43: appends the rows of one chain's points to `allRows`. Each point is
   * handled as `PointOutcome` says; the first exception leaves the loop.
   */
  method AppendChainRows(allRows: seq<Row>, chain: string, points: seq<Point>) returns (allRows': seq<Row>)
    ensures allRows' == allRows + ChainRows(chain, points)
  {
    allRows' := allRows;
    var j := 0;
    while j < |points|
      invariant 0 <= j <= |points|
      invariant allRows + ChainRows(chain, points) == allRows' + ChainRows(chain, points[j..])
    {
      ChainRowsAt(chain, points, j);
      var outcome := PointOutcome(chain, points[j]);
      match outcome {
        case Raise =>
          break;
        case Skip =>
        case Emit(row) =>
          allRows' := allRows' + [row];
      }
      j := j + 1;
    }
  }

  /** Lines 34-46. `responses[i]` is what the server returned for `names[i]`. */
  method CollectRows(names: seq<string>, responses: seq<Response>) returns (allRows: seq<Row>)
    requires |names| == |responses|
    ensures allRows == AllRows(names, responses)
  {
    allRows := [];
    var i := 0;
    while i < |names|
      invariant 0 <= i <= |names|
      invariant allRows == AllRows(names[..i], responses[..i])
    {
      match responses[i] {
        case FetchFailed =>
        case Points(points) =>
          allRows := AppendChainRows(allRows, names[i], points);
      }
      assert names[..i + 1][..i] == names[..i] && responses[..i + 1][..i] == responses[..i];
      i := i + 1;
    }
    assert names[..i] == names && responses[..i] == responses;
  }
}
