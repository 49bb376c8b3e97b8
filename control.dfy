/**
 * The control file once read: for every row, the method keyword and the
 * parameters written next to it. A parameter the method needs may be
 * absent, or present with text that does not convert to its type; the two
 * are distinct failures. Reading the file itself is not part of this model.
 */
module Control {
  import opened Wrappers
  import D = Discretisations

  /** A parameter as the control file holds it. */
  datatype Param<T> = Absent | Unconvertible(text: string) | Given(value: T)

  /** The method keywords the control file can name. */
  datatype Method =
    | Floor
    | Ceil
    | Round
    | ArithmeticMean
    | HarmonicMean
    | Median
    | Manual
    | BracketMedians
    | PearsonTukey
    | Nominal

  /** One control-file entry: a method keyword and the two parameters a method may need. */
  datatype Directive = Directive(kind: Method, threshold: Param<real>, brackets: Param<nat>)

  /** The control file: the entry of every row it lists. */
  type ControlFile = map<nat, Directive>

  /**
   * The strategy a directive selects for a row. A method whose parameter
   * is absent is a missing-parameter failure; one whose parameter does not
   * convert is a bad-parameter failure. Parameters a method does not use
   * are not looked at.
   */
  function ToStrategy(row: nat, d: Directive): (r: Result<D.Strategy, D.Error>)
    ensures r.Failure? <==> (d.kind == Manual && !d.threshold.Given?) || (d.kind == BracketMedians && !d.brackets.Given?)
    ensures r.Failure? && d.kind == Manual ==>
      r.error == (if d.threshold.Absent? then D.MissingParameter(row, D.Threshold) else D.BadParameter(row, D.Threshold))
    ensures r.Failure? && d.kind == BracketMedians ==>
      r.error == (if d.brackets.Absent? then D.MissingParameter(row, D.NumberOfBrackets) else D.BadParameter(row, D.NumberOfBrackets))
  {
    match d.kind
    case Floor => Success(D.Floor)
    case Ceil => Success(D.Ceil)
    case Round => Success(D.Round)
    case ArithmeticMean => Success(D.ByAMean)
    case HarmonicMean => Success(D.ByHMean)
    case Median => Success(D.ByMedian)
    case Manual =>
      (match d.threshold
       case Absent => Failure(D.MissingParameter(row, D.Threshold))
       case Unconvertible(_) => Failure(D.BadParameter(row, D.Threshold))
       case Given(t) => Success(D.Manually(t)))
    case BracketMedians =>
      (match d.brackets
       case Absent => Failure(D.MissingParameter(row, D.NumberOfBrackets))
       case Unconvertible(_) => Failure(D.BadParameter(row, D.NumberOfBrackets))
       case Given(k) => Success(D.BracketMedians(k)))
    case PearsonTukey => Success(D.PearsonTukey)
    case Nominal => Success(D.Nominal)
  }

  /** The control-file entry that selects a strategy, with no unused parameter. */
  function DirectiveOf(s: D.Strategy): Directive
  {
    match s
    case Floor => Directive(Floor, Absent, Absent)
    case Ceil => Directive(Ceil, Absent, Absent)
    case Round => Directive(Round, Absent, Absent)
    case ByAMean => Directive(ArithmeticMean, Absent, Absent)
    case ByHMean => Directive(HarmonicMean, Absent, Absent)
    case ByMedian => Directive(Median, Absent, Absent)
    case Manually(t) => Directive(Manual, Given(t), Absent)
    case BracketMedians(k) => Directive(BracketMedians, Absent, Given(k))
    case PearsonTukey => Directive(PearsonTukey, Absent, Absent)
    case Nominal => Directive(Nominal, Absent, Absent)
  }

  /** Every strategy can be written in a control file and is read back unchanged. */
  lemma DirectiveRoundTrip(row: nat, s: D.Strategy)
    ensures ToStrategy(row, DirectiveOf(s)) == Success(s)
  {
  }

  /** Parameters a method does not use do not change what it selects. */
  lemma UnusedParametersIgnored(row: nat, m: Method, t1: Param<real>, t2: Param<real>, b1: Param<nat>, b2: Param<nat>)
    requires m != Manual && m != BracketMedians
    ensures ToStrategy(row, Directive(m, t1, b1)) == ToStrategy(row, Directive(m, t2, b2))
  {
  }

  /** The control file lists a row, and its entry selects a strategy. */
  predicate RowConfigured(control: ControlFile, row: nat)
  {
    row in control && ToStrategy(row, control[row]).Success?
  }

  /** The control file fails at a row with a given error. */
  predicate ConfigFailsAt(control: ControlFile, row: nat, e: D.Error)
  {
    if row !in control then e == D.MissingDirective(row)
    else ToStrategy(row, control[row]) == Failure(e)
  }

  /** Row is the first row that fails, and it fails with e. */
  predicate FirstFailure(control: ControlFile, row: nat, e: D.Error)
  {
    ConfigFailsAt(control, row, e) && forall k :: 0 <= k < row ==> RowConfigured(control, k)
  }

  /**
   * The strategies of rows 0 .. n - 1 as the control file selects them.
   * The first row that the file does not list, or whose entry fails,
   * decides the failure.
   */
  function Configure(control: ControlFile, n: nat): (r: Result<seq<D.Strategy>, D.Error>)
    ensures r.Success? <==> forall row :: 0 <= row < n ==> RowConfigured(control, row)
    ensures r.Success? ==> |r.value| == n && forall row :: 0 <= row < n ==> row in control && ToStrategy(row, control[row]) == Success(r.value[row])
    ensures r.Failure? ==> exists row :: 0 <= row < n && FirstFailure(control, row, r.error)
  {
    if n == 0 then Success([])
    else
      match Configure(control, n - 1)
      case Failure(e) =>
        Failure(e)
      case Success(prefix) =>
        var row := n - 1;
        if row !in control then
          assert !RowConfigured(control, row);
          assert FirstFailure(control, row, D.MissingDirective(row));
          Failure(D.MissingDirective(row))
        else
          match ToStrategy(row, control[row])
          case Failure(e) =>
            assert !RowConfigured(control, row);
            assert FirstFailure(control, row, e);
            Failure(e)
          case Success(s) => Success(prefix + [s])
  }

  /** Once the rows up to m fail, every longer configuration fails with the same error. */
  lemma {:induction false} FailureSticks(control: ControlFile, m: nat, n: nat)
    requires m <= n && Configure(control, m).Failure?
    ensures Configure(control, n) == Configure(control, m)
  {
    if m < n {
      FailureSticks(control, m, n - 1);
    }
  }

  /**
   * A manual-threshold entry without its threshold fails the whole
   * configuration, and when every earlier row is configured the failure is
   * the missing threshold of that row.
   */
  lemma ManualWithoutThresholdFails(control: ControlFile, n: nat, row: nat)
    requires row < n && row in control
    requires control[row].kind == Manual && control[row].threshold.Absent?
    ensures Configure(control, n).Failure?
    ensures (forall k :: 0 <= k < row ==> RowConfigured(control, k)) ==>
      Configure(control, n).error == D.MissingParameter(row, D.Threshold)
  {
    assert !RowConfigured(control, row);
    var e := Configure(control, n).error;
    var f :| 0 <= f < n && FirstFailure(control, f, e);
    assert !RowConfigured(control, f);
    if forall k :: 0 <= k < row ==> RowConfigured(control, k) {
      assert f == row;
    }
  }
}
