/**
 * One prediction request: the uploaded table is prepared, the label list
 * and the session are resolved, the table's width is checked against the
 * model's declared input width before the model runs, and each row's
 * predicted index is turned into a label with list indexing.
 *
 * The model is an opaque classifier from a row of numbers to an index, one
 * call per row, chosen by the session it was loaded into.
 */
module Predict {
  import opened Wrappers
  import opened Features
  import opened ModelSource

  /** The declared input width of a model: a number, a symbolic name, or none. */
  datatype Dim = Fixed(n: nat) | Symbolic(name: string) | NoDim

  datatype PredictError =
    | NotOneColumn(name: string)
    | Unresolved(cause: SourceError)
    | FeatureMismatch(got: nat, expected: Dim)
    | IndexOutOfRange(index: int)

  /**
   * The width check: a declared number must equal the table's width, a
   * symbolic width is never equal to a number, and no declared width means
   * no check.
   */
  function CheckWidth(width: nat, expected: Dim): (r: Option<PredictError>)
    ensures r.None? <==> expected == NoDim || expected == Fixed(width)
    ensures r.Some? ==> r.value == FeatureMismatch(width, expected)
  {
    match expected
    case NoDim => None
    case Fixed(n) => if n == width then None else Some(FeatureMismatch(width, expected))
    case Symbolic(_) => Some(FeatureMismatch(width, expected))
  }

  /** List indexing: a negative index counts from the end; anything else outside the list fails. */
  function PyIndex<T>(xs: seq<T>, i: int): (r: Option<T>)
    ensures r.Some? <==> -|xs| <= i < |xs|
    ensures 0 <= i < |xs| ==> r == Some(xs[i])
    ensures -|xs| <= i < 0 ==> r == Some(xs[|xs| + i])
  {
    if 0 <= i < |xs| then Some(xs[i])
    else if -|xs| <= i < 0 then Some(xs[|xs| + i])
    else None
  }

  predicate InRange<T>(xs: seq<T>, i: int) {
    -|xs| <= i < |xs|
  }

  /**
   * The label of every prediction, in order; the first index outside the
   * label list fails the whole mapping.
   */
  function MapLabels(classes: seq<string>, preds: seq<int>): (r: Result<seq<string>, PredictError>)
    ensures r.Ok? <==> forall k :: 0 <= k < |preds| ==> InRange(classes, preds[k])
    ensures r.Ok? ==> |r.value| == |preds| && forall k :: 0 <= k < |preds| ==> PyIndex(classes, preds[k]) == Some(r.value[k])
    ensures r.Err? ==> exists k :: 0 <= k < |preds| && !InRange(classes, preds[k])
                        && r.error == IndexOutOfRange(preds[k])
                        && forall m :: 0 <= m < k ==> InRange(classes, preds[m])
    decreases |preds|
  {
    if preds == [] then Ok([])
    else match PyIndex(classes, preds[0])
      case None => Err(IndexOutOfRange(preds[0]))
      case Some(l) =>
        var rest := MapLabels(classes, preds[1..]);
        if rest.Err? then
          ghost var k :| 0 <= k < |preds[1..]| && !InRange(classes, preds[1..][k])
                         && rest.error == IndexOutOfRange(preds[1..][k])
                         && forall m :: 0 <= m < k ==> InRange(classes, preds[1..][m]);
          assert preds[k + 1] == preds[1..][k];
          assert forall m :: 1 <= m < k + 1 ==> preds[m] == preds[1..][m - 1];
          rest
        else
          assert forall k :: 1 <= k < |preds| ==> preds[k] == preds[1..][k - 1];
          Ok([l] + rest.value)
  }

  /** Every column has `height` cells. */
  predicate Shaped(cols: seq<Column>, height: nat) {
    forall j :: 0 <= j < |cols| ==> |cols[j].cells| == height
  }

  /** Row `k` of a prepared table as numbers, in column order. */
  function Row(cols: seq<Column>, height: nat, k: nat): (row: seq<real>)
    requires Shaped(cols, height) && AllFinite(cols) && k < height
    ensures |row| == |cols|
  {
    seq(|cols|, j requires 0 <= j < |cols| => cols[j].cells[k].x)
  }

  /** The model's index for every row, top row first. */
  function Predictions(cols: seq<Column>, height: nat, model: seq<real> -> int): (p: seq<int>)
    requires Shaped(cols, height) && AllFinite(cols)
    ensures |p| == height && forall k :: 0 <= k < height ==> p[k] == model(Row(cols, height, k))
  {
    seq(height, k requires 0 <= k < height => model(Row(cols, height, k)))
  }

  /**
   * The outcome of a request on a prepared table, given the resolved label
   * list and session: resolution errors first (labels before session), then
   * the width check, then the labelled predictions.
   */
  function Outcome(cols: seq<Column>, height: nat,
                   classes: Result<seq<string>, SourceError>, session: Result<Session, SourceError>,
                   width: Session -> Dim, classify: Session -> seq<real> -> int): Result<seq<string>, PredictError>
    requires Shaped(cols, height) && AllFinite(cols)
  {
    if classes.Err? then Err(Unresolved(classes.error))
    else if session.Err? then Err(Unresolved(session.error))
    else match CheckWidth(|cols|, width(session.value))
      case Some(e) => Err(e)
      case None => MapLabels(classes.value, Predictions(cols, height, classify(session.value)))
  }

  /**
   * A table whose width the model does not accept fails with both widths,
   * whatever the model would have predicted: the model is not consulted.
   */
  lemma WidthMismatchBeforeModel(cols: seq<Column>, height: nat, classes: seq<string>, s: Session,
                                 width: Session -> Dim, classify: Session -> seq<real> -> int, other: Session -> seq<real> -> int)
    requires Shaped(cols, height) && AllFinite(cols)
    requires width(s) != NoDim && width(s) != Fixed(|cols|)
    ensures Outcome(cols, height, Ok(classes), Ok(s), width, classify) == Err(FeatureMismatch(|cols|, width(s)))
    ensures Outcome(cols, height, Ok(classes), Ok(s), width, classify) == Outcome(cols, height, Ok(classes), Ok(s), width, other)
  {
  }

  /**
   * A successful request yields one label per row, in row order, each the
   * label list's entry at the model's index for that row.
   */
  lemma OutcomeLabels(cols: seq<Column>, height: nat, classes: seq<string>, s: Session,
                      width: Session -> Dim, classify: Session -> seq<real> -> int)
    requires Shaped(cols, height) && AllFinite(cols)
    requires Outcome(cols, height, Ok(classes), Ok(s), width, classify).Ok?
    ensures var labels := Outcome(cols, height, Ok(classes), Ok(s), width, classify).value;
            && |labels| == height
            && forall k :: 0 <= k < height ==> PyIndex(classes, classify(s)(Row(cols, height, k))) == Some(labels[k])
  {
  }

  /** An index past the end of the label list fails rather than being clamped. */
  lemma IndexPastEndFails(classes: seq<string>, preds: seq<int>, k: nat)
    requires k < |preds| && preds[k] >= |classes|
    ensures MapLabels(classes, preds).Err?
  {
  }

  /**
   * A request: the table is prepared in place, then the label list and the
   * session are resolved through the process-wide memo, the width is
   * checked and the predictions are labelled. A name that two kept columns
   * share once trimmed fails the preparation, before anything is resolved.
   */
  method PredictAttack(frame: Frame, res: ModelResolver, w: World,
                       width: Session -> Dim, classify: Session -> seq<real> -> int)
    returns (r: Result<seq<string>, PredictError>)
    requires frame.Valid() && res.Valid()
    modifies frame, res
    ensures frame.Valid() && res.Valid() && frame.height == old(frame.height)
    ensures !Preparable(old(frame.columns)) ==>
              var d := DropLabel(StripNames(old(frame.columns)));
              && r == Err(NotOneColumn(d[FirstShared(d)].name))
              && frame.columns == CoercedUntilShared(d)
              && unchanged(res)
    ensures Preparable(old(frame.columns)) ==> frame.columns == Prepare(old(frame.columns))
    ensures r.Ok? ==> |r.value| == frame.height
    ensures Preparable(old(frame.columns)) ==>
              var f := if old(res.fetched).Some? then old(res.fetched).value else FetchRemote(res.enabled, w.remote);
              var c := if old(res.classes).Some? then Ok(old(res.classes).value) else ResolveClasses(f.classes, w.labelsFile);
              var s := if old(res.session).Some? then Ok(old(res.session).value)
                       else ResolveSession(res.runtime, f.modelBytes, w.modelFile);
              && r == Outcome(frame.columns, frame.height, c, s, width, classify)
              && res.classes == (if c.Ok? then Some(c.value) else None)
              && res.session == (if c.Ok? && s.Ok? then Some(s.value) else old(res.session))
              && res.fetched == (if old(res.classes).None? || (old(res.session).None? && res.runtime)
                                 then Some(f) else old(res.fetched))
    ensures old(res.fetched).Some? ==> res.fetched == old(res.fetched) && res.fetches == old(res.fetches)
    ensures r.Ok? ==> res.fetched.Some? && res.classes.Some? && res.session.Some?
  {
    var shared := frame.PrepareInPlace();
    if shared.Some? {
      return Err(NotOneColumn(shared.value));
    }
    var classes := res.Classes(w);
    if classes.Err? {
      return Err(Unresolved(classes.error));
    }
    var session := res.GetSession(w);
    if session.Err? {
      return Err(Unresolved(session.error));
    }
    var e := CheckWidth(frame.Width(), width(session.value));
    if e.Some? {
      return Err(e.value);
    }
    var preds := Predictions(frame.columns, frame.height, classify(session.value));
    r := MapLabels(classes.value, preds);
  }

  /**
   * Two requests served by one process: once a request has succeeded, the
   * next one uses the same label list and session and queries nothing.
   */
  method ConsecutiveRequests(first: Frame, second: Frame, res: ModelResolver, w1: World, w2: World,
                             width: Session -> Dim, classify: Session -> seq<real> -> int)
    returns (r1: Result<seq<string>, PredictError>, r2: Result<seq<string>, PredictError>)
    requires first.Valid() && second.Valid() && res.Valid() && first != second
    modifies first, second, res
    ensures r1.Ok? && Preparable(old(second.columns)) ==>
              && res.fetches == 1
              && res.classes.Some? && res.session.Some?
              && Shaped(second.columns, second.height) && AllFinite(second.columns)
              && r2 == Outcome(second.columns, second.height, Ok(res.classes.value), Ok(res.session.value), width, classify)
  {
    r1 := PredictAttack(first, res, w1, width, classify);
    ghost var warm := r1.Ok?;
    ghost var classes, session := res.classes, res.session;
    ghost var cols := second.columns;
    assert warm ==> res.fetched.Some? && classes.Some? && session.Some? && res.fetches == 1;
    r2 := PredictAttack(second, res, w2, width, classify);
    if warm && Preparable(cols) {
      assert res.classes == classes && res.session == session;
      PreparedShape(cols);
    }
  }
}
