/**
 * One discretisation per variable: the method chosen for a row, the
 * statistics and cut points computed from that row's values, and the
 * classification of a value into the row's code space. A descriptor is
 * what other components read to encode a fresh value the same way.
 */
module Discretisations {
  import opened Wrappers
  import opened Statistics
  import opened Codes
  import opened Brackets

  /** A raw sample once read: missing, or a parsed number. */
  datatype Cell = Missing | Value(x: real)

  /** The method chosen for a row, with its parameters. */
  datatype Strategy =
    | Floor
    | Ceil
    | Round
    | ByAMean
    | ByHMean
    | ByMedian
    | Manually(threshold: real)
    | BracketMedians(numberOfBrackets: nat)
    | PearsonTukey
    | Nominal

  /** The parameters a control-file entry may carry. */
  datatype Parameter = Threshold | NumberOfBrackets

  datatype Error =
    | MissingDirective(row: nat)
    | MissingParameter(row: nat, param: Parameter)
    | BadParameter(row: nat, param: Parameter)
    | FormatError(row: nat, col: nat)
    | DomainError(row: nat)
    | AccessBeforeReady(row: nat)

  /**
   * The lower and upper quantiles whose values separate the low tail, the
   * central mass and the high tail in the Pearson-Tukey method.
   */
  datatype Tails = Tails(low: real, high: real)

  predicate ValidTails(t: Tails) {
    0.0 <= t.low <= t.high <= 1.0
  }

  /** The method of a row and the cut points computed from its values. */
  datatype Descriptor = Descriptor(strategy: Strategy, cuts: seq<real>)

  predicate IsSplit(s: Strategy) {
    s.ByAMean? || s.ByHMean? || s.ByMedian? || s.Manually?
  }

  /** Reads one raw sample: the canonical missing token, or a parsable number. */
  function ReadCell(s: string, na: string, parse: string -> Option<real>): Option<Cell>
  {
    if s == na then Some(Missing)
    else match parse(s)
      case None => None
      case Some(v) => Some(Value(v))
  }

  /**
   * Reads a row of raw samples. It fails with a format error at the first
   * sample that is neither missing nor a number.
   */
  function ReadCells(row: nat, raw: seq<string>, na: string, parse: string -> Option<real>): (r: Result<seq<Cell>, Error>)
    ensures r.Success? <==> forall c :: 0 <= c < |raw| ==> ReadCell(raw[c], na, parse).Some?
    ensures r.Success? ==> |r.value| == |raw|
    ensures r.Success? ==> forall c :: 0 <= c < |raw| ==> ReadCell(raw[c], na, parse) == Some(r.value[c])
    ensures r.Failure? ==> r.error.FormatError? && r.error.row == row && r.error.col < |raw|
    ensures r.Failure? ==> ReadCell(raw[r.error.col], na, parse).None?
    ensures r.Failure? ==> forall c :: 0 <= c < r.error.col ==> ReadCell(raw[c], na, parse).Some?
  {
    if raw == [] then Success([])
    else
      var last := |raw| - 1;
      assert forall c :: 0 <= c < last ==> raw[..last][c] == raw[c];
      match ReadCells(row, raw[..last], na, parse)
      case Failure(e) => Failure(e)
      case Success(prefix) =>
        match ReadCell(raw[last], na, parse)
        case None => Failure(FormatError(row, last))
        case Some(cell) => Success(prefix + [cell])
  }

  /** The numbers of a row, in order, with the missing samples left out. */
  function Values(cells: seq<Cell>): (r: seq<real>)
    ensures |r| <= |cells|
    ensures forall i :: 0 <= i < |r| ==> Value(r[i]) in cells
    ensures forall c :: 0 <= c < |cells| && cells[c].Value? ==> cells[c].x in r
  {
    if cells == [] then []
    else
      var rest := Values(cells[1..]);
      assert forall i :: 0 <= i < |rest| ==> Value(rest[i]) in cells by {
        forall i | 0 <= i < |rest| ensures Value(rest[i]) in cells {
          assert Value(rest[i]) in cells[1..];
        }
      }
      if cells[0].Value? then [cells[0].x] + rest else rest
  }

  /** The cut points of the Pearson-Tukey method: the low and high tail quantiles. */
  function TailCuts(vs: seq<real>, tails: Tails): (cuts: seq<real>)
    requires |vs| > 0 && ValidTails(tails)
    ensures |cuts| == 2 && cuts[0] <= cuts[1]
  {
    var s := Sort(vs);
    var lo := QuantileIndex(|s|, tails.low);
    var hi := QuantileIndex(|s|, tails.high);
    QuantileIndexMonotone(|s|, tails.low, tails.high);
    [s[lo], s[hi]]
  }

  /** When the statistic a method needs is undefined for the row's values. */
  predicate Undefined(strategy: Strategy, vs: seq<real>)
  {
    match strategy
    case ByAMean => |vs| == 0
    case ByHMean => |vs| == 0 || exists i :: 0 <= i < |vs| && vs[i] <= 0.0
    case ByMedian => |vs| == 0
    case BracketMedians(k) => k == 0
    case PearsonTukey => |vs| == 0
    case _ => false
  }

  /**
   * The cut points of a method over a row's values: the statistic or
   * threshold of a two-code method, the bracket edges, or the tail quantiles.
   */
  function Cuts(strategy: Strategy, vs: seq<real>, tails: Tails): (cuts: seq<real>)
    requires ValidTails(tails) && !Undefined(strategy, vs)
    ensures IsSplit(strategy) ==> |cuts| == 1
    ensures strategy.BracketMedians? ==> |cuts| < strategy.numberOfBrackets
    ensures strategy.PearsonTukey? ==> |cuts| == 2
  {
    match strategy
    case ByAMean => [Mean(vs)]
    case ByHMean => [HarmonicMean(vs)]
    case ByMedian => [Median(vs)]
    case Manually(t) => [t]
    case BracketMedians(k) => BracketEdges(Sort(vs), k)
    case PearsonTukey => TailCuts(vs, tails)
    case _ => []
  }

  /**
   * Builds the descriptor of a row from its cells. Only the non-missing
   * values enter any statistic; a statistic undefined for them is a domain
   * error.
   */
  function Describe(row: nat, strategy: Strategy, cells: seq<Cell>, tails: Tails): (r: Result<Descriptor, Error>)
    requires ValidTails(tails)
    ensures r.Failure? <==> Undefined(strategy, Values(cells))
    ensures r.Failure? ==> r.error == DomainError(row)
    ensures r.Success? ==> r.value.strategy == strategy
  {
    var vs := Values(cells);
    if Undefined(strategy, vs) then Failure(DomainError(row))
    else Success(Descriptor(strategy, Cuts(strategy, vs, tails)))
  }

  /** The statistic or threshold a two-code method compares every value with. */
  function SplitPoint(strategy: Strategy, vs: seq<real>): real
    requires IsSplit(strategy) && !Undefined(strategy, vs)
  {
    match strategy
    case ByAMean => Mean(vs)
    case ByHMean => HarmonicMean(vs)
    case ByMedian => Median(vs)
    case Manually(t) => t
  }

  /** The code of a value under a numeric descriptor. */
  function Classify(d: Descriptor, x: real): (r: int)
    requires !d.strategy.Nominal?
    ensures d.strategy.Floor? || d.strategy.Ceil? || d.strategy.Round? ==> -1.0 < r as real - x < 1.0
    ensures !(d.strategy.Floor? || d.strategy.Ceil? || d.strategy.Round?) ==> 0 <= r <= |d.cuts|
  {
    match d.strategy
    case Floor => FloorCode(x)
    case Ceil => CeilCode(x)
    case Round => RoundWithinHalf(x); RoundCode(x)
    case _ => Rank(d.cuts, x)
  }

  /** The code written for a cell: the missing code for a missing sample. */
  function Encode(d: Descriptor, cell: Cell): (r: int)
    requires !d.strategy.Nominal?
    ensures cell.Missing? ==> r == MissingCode
    ensures !(d.strategy.Floor? || d.strategy.Ceil? || d.strategy.Round?) ==> (r == MissingCode <==> cell.Missing?)
  {
    match cell
    case Missing => MissingCode
    case Value(x) => Classify(d, x)
  }

  /** Every numeric method is monotone: x <= y implies code(x) <= code(y). */
  lemma ClassifyMonotone(d: Descriptor, x: real, y: real)
    requires !d.strategy.Nominal? && x <= y
    ensures Classify(d, x) <= Classify(d, y)
  {
    match d.strategy
    case Floor =>
      assert FloorCode(x) as real <= y;
    case Ceil =>
      assert x <= CeilCode(y) as real;
    case Round =>
      RoundMonotone(x, y);
    case _ =>
      RankMonotone(d.cuts, x, y);
  }

  /**
   * The two-code methods: the code is 1 exactly when the value is at or
   * above the row's statistic (or threshold), and 0 otherwise.
   */
  lemma SplitCode(row: nat, strategy: Strategy, cells: seq<Cell>, tails: Tails, x: real)
    requires ValidTails(tails) && IsSplit(strategy)
    requires Describe(row, strategy, cells, tails).Success?
    ensures var d := Describe(row, strategy, cells, tails).value;
      Classify(d, x) == if x >= SplitPoint(strategy, Values(cells)) then 1 else 0
  {
    var d := Describe(row, strategy, cells, tails).value;
    assert d.cuts == [SplitPoint(strategy, Values(cells))];
    SingleCut(d.cuts[0], x);
  }

  /** Bracket medians codes lie in 0 .. numberOfBrackets - 1; Pearson-Tukey codes in 0 .. 2. */
  lemma CodeRanges(row: nat, strategy: Strategy, cells: seq<Cell>, tails: Tails, x: real)
    requires ValidTails(tails) && Describe(row, strategy, cells, tails).Success?
    requires strategy.BracketMedians? || strategy.PearsonTukey? || IsSplit(strategy)
    ensures var c := Classify(Describe(row, strategy, cells, tails).value, x);
      && (strategy.BracketMedians? ==> 0 <= c < strategy.numberOfBrackets)
      && (strategy.PearsonTukey? ==> 0 <= c <= 2)
      && (IsSplit(strategy) ==> 0 <= c <= 1)
  {
  }

  /** Removing a missing sample does not change the values a statistic sees. */
  lemma {:induction false} ValuesSkipMissing(a: seq<Cell>, b: seq<Cell>)
    ensures Values(a + [Missing] + b) == Values(a + b)
  {
    if a == [] {
      assert a + [Missing] + b == [Missing] + b;
      assert ([Missing] + b)[1..] == b;
      assert a + b == b;
    } else {
      assert (a + [Missing] + b)[1..] == a[1..] + [Missing] + b;
      assert (a + b)[1..] == a[1..] + b;
      ValuesSkipMissing(a[1..], b);
    }
  }

  /**
   * Missing samples are excluded from every statistic: inserting one
   * anywhere in a row leaves its descriptor unchanged.
   */
  lemma MissingCellsIgnored(row: nat, strategy: Strategy, a: seq<Cell>, b: seq<Cell>, tails: Tails)
    requires ValidTails(tails)
    ensures Describe(row, strategy, a + [Missing] + b, tails) == Describe(row, strategy, a + b, tails)
  {
    ValuesSkipMissing(a, b);
  }

  /**
   * A row whose values are not all equal gets both codes under the
   * arithmetic-mean split.
   */
  lemma MeanSplitYieldsBothCodes(row: nat, cells: seq<Cell>, tails: Tails, i: nat, j: nat)
    requires ValidTails(tails)
    requires i < |cells| && j < |cells| && cells[i].Value? && cells[j].Value? && cells[i].x != cells[j].x
    ensures Describe(row, ByAMean, cells, tails).Success?
    ensures var d := Describe(row, ByAMean, cells, tails).value;
      (exists c :: 0 <= c < |cells| && Encode(d, cells[c]) == 0) &&
      (exists c :: 0 <= c < |cells| && Encode(d, cells[c]) == 1)
  {
    var vs := Values(cells);
    assert cells[i].x in vs && cells[j].x in vs;
    var i', j' :| 0 <= i' < |vs| && 0 <= j' < |vs| && vs[i'] == cells[i].x && vs[j'] == cells[j].x;
    MeanSplitsNonConstant(vs, i', j');
    var d := Describe(row, ByAMean, cells, tails).value;
    var lo :| 0 <= lo < |vs| && vs[lo] < Mean(vs);
    var hi :| 0 <= hi < |vs| && vs[hi] >= Mean(vs);
    var cl := CellOf(cells, vs[lo]);
    var ch := CellOf(cells, vs[hi]);
    SplitCode(row, ByAMean, cells, tails, vs[lo]);
    SplitCode(row, ByAMean, cells, tails, vs[hi]);
  }

  /** A column holding a given value of the row. */
  function CellOf(cells: seq<Cell>, v: real): (c: nat)
    requires Value(v) in cells
    ensures c < |cells| && cells[c] == Value(v)
  {
    if cells[0] == Value(v) then 0 else 1 + CellOf(cells[1..], v)
  }

  /** Every sorted value of a row stands in some column of it. */
  lemma SortedValueInRow(cells: seq<Cell>, k: nat)
    requires k < |Sort(Values(cells))|
    ensures Value(Sort(Values(cells))[k]) in cells
  {
    var vs := Values(cells);
    var s := Sort(vs);
    assert s[k] in multiset(vs);
    var i :| 0 <= i < |vs| && vs[i] == s[k];
  }

  /** The Pearson-Tukey descriptor of a row with values: its cuts are the two tail quantiles. */
  lemma PearsonTukeyDescriptor(row: nat, cells: seq<Cell>, tails: Tails)
    requires ValidTails(tails) && |Values(cells)| > 0
    ensures Describe(row, PearsonTukey, cells, tails) == Success(Descriptor(PearsonTukey, TailCuts(Values(cells), tails)))
  {
  }

  /** Against the cuts s[lo], s[hi] of distinct sorted values, s[0], s[lo] and the last value rank 0, 1 and 2. */
  lemma TailRanks(s: seq<real>, lo: nat, hi: nat)
    requires StrictlySorted(s) && 0 < lo < hi < |s|
    ensures Rank([s[lo], s[hi]], s[0]) == 0
    ensures Rank([s[lo], s[hi]], s[lo]) == 1
    ensures Rank([s[lo], s[hi]], s[|s| - 1]) == 2
  {
    RankOfSplitPoint([s[lo], s[hi]], s[0], 0);
    RankOfSplitPoint([s[lo], s[hi]], s[lo], 1);
    RankOfSplitPoint([s[lo], s[hi]], s[|s| - 1], 2);
  }

  ghost predicate SpreadForTails(cells: seq<Cell>, tails: Tails)
    requires ValidTails(tails)
  {
    var s := Sort(Values(cells));
    |s| > 0 && StrictlySorted(s) && 0 < QuantileIndex(|s|, tails.low) < QuantileIndex(|s|, tails.high)
  }

  /**
   * A spread row (distinct values, both tail quantiles strictly inside and
   * apart) gets all three Pearson-Tukey codes.
   */
  lemma PearsonTukeyYieldsThreeCodes(row: nat, cells: seq<Cell>, tails: Tails)
    requires ValidTails(tails) && SpreadForTails(cells, tails)
    ensures Describe(row, PearsonTukey, cells, tails).Success?
    ensures var d := Describe(row, PearsonTukey, cells, tails).value;
      && (exists c :: 0 <= c < |cells| && Encode(d, cells[c]) == 0)
      && (exists c :: 0 <= c < |cells| && Encode(d, cells[c]) == 1)
      && (exists c :: 0 <= c < |cells| && Encode(d, cells[c]) == 2)
  {
    var vs := Values(cells);
    var s := Sort(vs);
    var n := |s|;
    var lo, hi := QuantileIndex(n, tails.low), QuantileIndex(n, tails.high);
    PearsonTukeyDescriptor(row, cells, tails);
    var d := Descriptor(PearsonTukey, [s[lo], s[hi]]);
    assert TailCuts(vs, tails) == [s[lo], s[hi]];
    TailRanks(s, lo, hi);
    SortedValueInRow(cells, 0);
    SortedValueInRow(cells, lo);
    SortedValueInRow(cells, n - 1);
    var c0, c1, c2 := CellOf(cells, s[0]), CellOf(cells, s[lo]), CellOf(cells, s[n - 1]);
    assert Encode(d, cells[c0]) == 0;
    assert Encode(d, cells[c1]) == 1;
    assert Encode(d, cells[c2]) == 2;
  }

  /** A row of five numbers 1, 2, 3, 4, 5, in this order. */
  ghost predicate OneToFive(cells: seq<Cell>) {
    |cells| == 5 && forall c :: 0 <= c < 5 ==> cells[c] == Value((c + 1) as real)
  }

  /** The values of a row without missing samples are its numbers, in order. */
  lemma {:induction false} ValuesOfComplete(cells: seq<Cell>)
    requires forall c :: 0 <= c < |cells| ==> cells[c].Value?
    ensures |Values(cells)| == |cells|
    ensures forall c :: 0 <= c < |cells| ==> Values(cells)[c] == cells[c].x
  {
    if cells != [] {
      ValuesOfComplete(cells[1..]);
    }
  }

  /** The median of 1, 2, 3, 4, 5 is 3. */
  lemma MedianOfOneToFive(cells: seq<Cell>)
    requires OneToFive(cells)
    ensures |Values(cells)| > 0 && Median(Values(cells)) == 3.0
  {
    ValuesOfComplete(cells);
    var vs := Values(cells);
    assert cells[0].x == 1.0 && cells[1].x == 2.0 && cells[2].x == 3.0 && cells[3].x == 4.0 && cells[4].x == 5.0;
    assert |vs| == 5 && vs[0] == 1.0 && vs[1] == 2.0 && vs[2] == 3.0 && vs[3] == 4.0 && vs[4] == 5.0;
    assert Sorted(vs);
    SortAscending(vs);
    assert Median(vs) == MiddleOf(vs) == 3.0;
  }

  /** The row 1, 2, 3, 4, 5 split at its median 3 gives the codes 0, 0, 1, 1, 1. */
  lemma MedianExample(cells: seq<Cell>, tails: Tails)
    requires ValidTails(tails) && OneToFive(cells)
    ensures Describe(0, ByMedian, cells, tails) == Success(Descriptor(ByMedian, [3.0]))
    ensures forall c :: 0 <= c < 5 ==> Encode(Descriptor(ByMedian, [3.0]), cells[c]) == if c < 2 then 0 else 1
  {
    MedianOfOneToFive(cells);
    forall c | 0 <= c < 5 ensures Encode(Descriptor(ByMedian, [3.0]), cells[c]) == if c < 2 then 0 else 1 {
      SingleCut(3.0, cells[c].x);
    }
  }
}
