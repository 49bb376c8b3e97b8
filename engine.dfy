/**
 * The discretiser: it owns a copy of the raw sample matrix (one row per
 * variable, one column per sample), writes integer codes into a coded
 * matrix of the same shape that the caller owns, and registers the labels
 * of categorical rows in two registries the caller owns as well.
 *
 * The coded matrix is indexed [column, row], as the point read is. The raw
 * matrix is indexed [row][column].
 */
module Engine {
  import opened Wrappers
  import opened Codes
  import opened Statistics
  import opened Discretisations
  import opened Labels
  import Control

  /** The label registries shared with the rest of the network. */
  class Registries {
    /** Label to code. */
    var forward: map<string, int>
    /** (code, row) to label. */
    var reverse: map<(int, int), string>

    constructor ()
      ensures forward == map[] && reverse == map[]
    {
      forward := map[];
      reverse := map[];
    }
  }

  /** A sample written with one of the missing-value spellings becomes the canonical token. */
  function NormalizeCell(s: string, na: string, spellings: set<string>): string
  {
    if s in spellings then na else s
  }

  function NormalizeRow(samples: seq<string>, na: string, spellings: set<string>): (r: seq<string>)
    ensures |r| == |samples|
  {
    seq(|samples|, c requires 0 <= c < |samples| => NormalizeCell(samples[c], na, spellings))
  }

  /** The raw matrix with every missing-value spelling replaced by the canonical token. */
  function NormalizeMatrix(m: seq<seq<string>>, na: string, spellings: set<string>): (r: seq<seq<string>>)
    ensures |r| == |m| && forall row :: 0 <= row < |m| ==> |r[row]| == |m[row]|
    ensures forall row, c :: 0 <= row < |m| && 0 <= c < |m[row]| ==>
      && (m[row][c] in spellings ==> r[row][c] == na)
      && (m[row][c] !in spellings ==> r[row][c] == m[row][c])
      && (r[row][c] in spellings ==> r[row][c] == na)
  {
    seq(|m|, row requires 0 <= row < |m| => NormalizeRow(m[row], na, spellings))
  }

  /** Normalising normalised data changes nothing. */
  lemma NormalizeIdempotent(m: seq<seq<string>>, na: string, spellings: set<string>)
    ensures NormalizeMatrix(NormalizeMatrix(m, na, spellings), na, spellings) == NormalizeMatrix(m, na, spellings)
  {
    var once := NormalizeMatrix(m, na, spellings);
    forall row | 0 <= row < |m|
      ensures NormalizeRow(once[row], na, spellings) == once[row]
    {
    }
  }

  /** The coded matrix holds its values from before a call everywhere outside one row. */
  twostate predicate OnlyRowWritten(a: array2<int>, row: nat)
    reads a
  {
    forall c, r :: 0 <= c < a.Length0 && 0 <= r < a.Length1 && r != row ==> a[c, r] == old(a[c, r])
  }

  /** The coded matrix holds its values from before a call everywhere. */
  twostate predicate NothingWritten(a: array2<int>)
    reads a
  {
    forall c, r :: 0 <= c < a.Length0 && 0 <= r < a.Length1 ==> a[c, r] == old(a[c, r])
  }

  /** Codes already handed out while numbering a row: the i-th new label got code i. */
  ghost predicate Numbered(order: seq<string>, seen: map<string, int>)
  {
    && Distinct(order)
    && (forall l :: l in seen ==> l in order)
    && forall i :: 0 <= i < |order| ==> order[i] in seen && seen[order[i]] == i
  }

  /** The numbering finds a label's code, and a label it has not seen is not yet numbered. */
  lemma NumberedLookup(order: seq<string>, seen: map<string, int>, l: string)
    requires Numbered(order, seen)
    ensures l in seen ==> l in order && seen[l] == IndexOf(order, l)
    ensures l !in seen ==> l !in order
  {
    if l in seen {
      var i := IndexOf(order, l);
      assert seen[order[i]] == i;
    }
  }

  /** Numbering a new label gives it the next code. */
  lemma NumberedExtend(order: seq<string>, seen: map<string, int>, l: string)
    requires Numbered(order, seen) && l !in seen
    ensures Numbered(order + [l], seen[l := |order|])
    ensures IndexOf(order + [l], l) == |order|
  {
    NumberedLookup(order, seen, l);
    var order' := order + [l];
    assert order'[|order|] == l;
    assert forall i :: 0 <= i < |order| ==> order'[i] == order[i];
  }

  /**
   * The state of numbering a row after its first c samples: the labels in
   * order of first appearance, the code of each, the registries updated
   * with them, and the codes of the samples read so far.
   */
  ghost predicate NumberedUpTo(samples: seq<string>, na: string, row: nat, c: nat, order: seq<string>,
                               seen: map<string, int>, codes: seq<int>,
                               forward: map<string, int>, reverse: map<(int, int), string>,
                               forward0: map<string, int>, reverse0: map<(int, int), string>)
  {
    && c <= |samples|
    && order == FirstSeen(samples[..c], na)
    && Numbered(order, seen)
    && forward == Forward(forward0, order)
    && reverse == Reverse(reverse0, order, row)
    && |codes| == c
    && forall j :: 0 <= j < c ==> codes[j] == LabelCode(samples, na, samples[j])
  }

  /** The forward registry once row k has registered its labels, if it is categorical. */
  function RowForward(forward: map<string, int>, raw: seq<seq<string>>, strategies: seq<Strategy>,
                      na: string, k: nat): map<string, int>
    requires k < |raw| && k < |strategies|
  {
    if strategies[k].Nominal? then Forward(forward, FirstSeen(raw[k], na)) else forward
  }

  /** The reverse registry once row k has registered its labels, if it is categorical. */
  function RowReverse(reverse: map<(int, int), string>, raw: seq<seq<string>>, strategies: seq<Strategy>,
                      na: string, k: nat): map<(int, int), string>
    requires k < |raw| && k < |strategies|
  {
    if strategies[k].Nominal? then Reverse(reverse, FirstSeen(raw[k], na), k) else reverse
  }

  /**
   * The forward registry after the categorical rows among 0 .. done - 1
   * have registered their labels, in row order.
   */
  function ForwardFold(forward0: map<string, int>, raw: seq<seq<string>>, strategies: seq<Strategy>,
                       na: string, done: nat): map<string, int>
    requires done <= |raw| && done <= |strategies|
  {
    if done == 0 then forward0
    else RowForward(ForwardFold(forward0, raw, strategies, na, done - 1), raw, strategies, na, done - 1)
  }

  /**
   * The reverse registry after the categorical rows among 0 .. done - 1
   * have registered their labels, in row order.
   */
  function ReverseFold(reverse0: map<(int, int), string>, raw: seq<seq<string>>, strategies: seq<Strategy>,
                       na: string, done: nat): map<(int, int), string>
    requires done <= |raw| && done <= |strategies|
  {
    if done == 0 then reverse0
    else RowReverse(ReverseFold(reverse0, raw, strategies, na, done - 1), raw, strategies, na, done - 1)
  }

  /**
   * fwds and revs list the registries before each row and after the last:
   * each entry is the one before it with that row's labels registered.
   */
  ghost predicate RegistryTrace(fwds: seq<map<string, int>>, revs: seq<map<(int, int), string>>,
                                raw: seq<seq<string>>, strategies: seq<Strategy>, na: string)
    requires |raw| <= |strategies|
  {
    && |fwds| == |raw| + 1 && |revs| == |raw| + 1
    && (forall k {:trigger RowForward(fwds[k], raw, strategies, na, k)} :: 0 <= k < |raw| ==>
          fwds[k + 1] == RowForward(fwds[k], raw, strategies, na, k))
    && (forall k {:trigger RowReverse(revs[k], raw, strategies, na, k)} :: 0 <= k < |raw| ==>
          revs[k + 1] == RowReverse(revs[k], raw, strategies, na, k))
  }

  /** The folds from (forward0, reverse0), listed row by row, form a registry trace. */
  lemma FoldTrace(forward0: map<string, int>, reverse0: map<(int, int), string>,
                  raw: seq<seq<string>>, strategies: seq<Strategy>, na: string)
    returns (fwds: seq<map<string, int>>, revs: seq<map<(int, int), string>>)
    requires |raw| <= |strategies|
    ensures RegistryTrace(fwds, revs, raw, strategies, na)
    ensures fwds[0] == forward0 && revs[0] == reverse0
    ensures fwds[|raw|] == ForwardFold(forward0, raw, strategies, na, |raw|)
    ensures revs[|raw|] == ReverseFold(reverse0, raw, strategies, na, |raw|)
  {
    fwds := seq(|raw| + 1, k requires 0 <= k <= |raw| => ForwardFold(forward0, raw, strategies, na, k));
    revs := seq(|raw| + 1, k requires 0 <= k <= |raw| => ReverseFold(reverse0, raw, strategies, na, k));
  }

  /** The registries are those of the categorical rows among 0 .. done - 1 folded into (forward0, reverse0). */
  ghost predicate Folded(forward: map<string, int>, reverse: map<(int, int), string>,
                         forward0: map<string, int>, reverse0: map<(int, int), string>,
                         raw: seq<seq<string>>, strategies: seq<Strategy>, na: string, done: nat)
    requires done <= |raw| && done <= |strategies|
  {
    forward == ForwardFold(forward0, raw, strategies, na, done) && reverse == ReverseFold(reverse0, raw, strategies, na, done)
  }

  /** Some label of a categorical row among 0 .. done - 1 is l. */
  ghost predicate RegisteredLabel(raw: seq<seq<string>>, strategies: seq<Strategy>, na: string, done: nat, l: string)
    requires done <= |raw| && done <= |strategies|
  {
    exists k :: 0 <= k < done && strategies[k].Nominal? && l in raw[k] && l != na
  }

  /** key is (code, row) for a label code of a categorical row among 0 .. done - 1. */
  ghost predicate WrittenKey(raw: seq<seq<string>>, strategies: seq<Strategy>, na: string, done: nat, key: (int, int))
    requires done <= |raw| && done <= |strategies|
  {
    0 <= key.1 < done && strategies[key.1].Nominal? && 0 <= key.0 < |FirstSeen(raw[key.1], na)|
  }

  /**
   * The forward registry holds exactly its earlier labels and the labels of
   * the categorical rows, and an earlier label keeps its code.
   */
  lemma {:induction false} ForwardFoldKeys(forward0: map<string, int>, raw: seq<seq<string>>, strategies: seq<Strategy>,
                                           na: string, done: nat, l: string)
    requires done <= |raw| && done <= |strategies|
    ensures l in ForwardFold(forward0, raw, strategies, na, done) <==>
      l in forward0 || RegisteredLabel(raw, strategies, na, done, l)
    ensures l in forward0 ==> ForwardFold(forward0, raw, strategies, na, done)[l] == forward0[l]
  {
    if done > 0 {
      ForwardFoldKeys(forward0, raw, strategies, na, done - 1, l);
      var k := done - 1;
      if RegisteredLabel(raw, strategies, na, done, l) && !RegisteredLabel(raw, strategies, na, k, l) {
        var j :| 0 <= j < done && strategies[j].Nominal? && l in raw[j] && l != na;
        assert j == k;
      }
      if strategies[k].Nominal? && l in raw[k] && l != na {
        assert RegisteredLabel(raw, strategies, na, done, l);
      }
      if RegisteredLabel(raw, strategies, na, k, l) {
        var j :| 0 <= j < k && strategies[j].Nominal? && l in raw[j] && l != na;
        assert RegisteredLabel(raw, strategies, na, done, l);
      }
    }
  }

  /**
   * The reverse registry holds exactly its earlier keys and the (code, row)
   * keys of the categorical rows; a written key maps to the label with that
   * code in its row, and any other key keeps its earlier label.
   */
  lemma {:induction false} ReverseFoldEntries(reverse0: map<(int, int), string>, raw: seq<seq<string>>,
                                              strategies: seq<Strategy>, na: string, done: nat, key: (int, int))
    requires done <= |raw| && done <= |strategies|
    ensures key in ReverseFold(reverse0, raw, strategies, na, done) <==>
      key in reverse0 || WrittenKey(raw, strategies, na, done, key)
    ensures WrittenKey(raw, strategies, na, done, key) ==>
      ReverseFold(reverse0, raw, strategies, na, done)[key] == FirstSeen(raw[key.1], na)[key.0]
    ensures key in reverse0 && !WrittenKey(raw, strategies, na, done, key) ==>
      ReverseFold(reverse0, raw, strategies, na, done)[key] == reverse0[key]
  {
    if done > 0 {
      ReverseFoldEntries(reverse0, raw, strategies, na, done - 1, key);
    }
  }

  class Discretiser {
    /** The discretiser's own copy of the raw samples, [row][column]. */
    var raw: seq<seq<string>>
    /** The caller's coded matrix, [column, row]. */
    const observations: array2<int>
    /** The caller's label registries. */
    const registries: Registries
    /** The strategy of every row, as the control file selects it. */
    var discretisations: seq<Strategy>
    /** The descriptor of every row discretised so far. */
    var descriptors: map<nat, Descriptor>
    /** The canonical missing token. */
    const na: string
    /** Every spelling of a missing sample. */
    const naSpellings: set<string>
    /** Conversion of a sample to a number. */
    const parse: string -> Option<real>
    /** The quantiles of the Pearson-Tukey method. */
    const tails: Tails

    /** The raw and coded matrices have the same shape. */
    ghost predicate Valid()
      reads this`raw
    {
      && ValidTails(tails)
      && observations.Length1 == |raw|
      && forall row :: 0 <= row < |raw| ==> |raw[row]| == observations.Length0
    }

    /** The samples of a row, read as cells. */
    function RowCells(row: nat): Result<seq<Cell>, Error>
      reads this`raw
      requires row < |raw|
    {
      ReadCells(row, raw[row], na, parse)
    }

    /** The descriptor a numeric strategy computes for a row, or why it cannot. */
    function RowDescriptor(row: nat, strategy: Strategy): Result<Descriptor, Error>
      reads this`raw
      requires Valid() && row < |raw|
    {
      match RowCells(row)
      case Failure(e) => Failure(e)
      case Success(cells) => Describe(row, strategy, cells, tails)
    }

    /** A row can be discretised with a strategy. */
    predicate RowReady(row: nat, strategy: Strategy)
      reads this`raw
      requires Valid() && row < |raw|
    {
      strategy.Nominal? || RowDescriptor(row, strategy).Success?
    }

    /** The code a strategy gives the sample in column c of a row. */
    ghost function CodeOf(row: nat, strategy: Strategy, c: nat): (r: int)
      reads this`raw
      requires Valid() && row < |raw| && c < observations.Length0 && RowReady(row, strategy)
      ensures raw[row][c] == na ==> r == MissingCode
      ensures strategy.Nominal? ==> (r == MissingCode <==> raw[row][c] == na)
    {
      if strategy.Nominal? then LabelCode(raw[row], na, raw[row][c])
      else Encode(RowDescriptor(row, strategy).value, RowCells(row).value[c])
    }

    /** Codes do not decrease when the values of a numeric row increase. */
    ghost predicate RowMonotone(row: nat)
      reads this`raw, observations
      requires Valid() && row < |raw| && RowCells(row).Success?
    {
      var cells := RowCells(row).value;
      forall c1, c2 :: 0 <= c1 < observations.Length0 && 0 <= c2 < observations.Length0
        && cells[c1].Value? && cells[c2].Value? && cells[c1].x <= cells[c2].x
        ==> observations[c1, row] <= observations[c2, row]
    }

    /**
     * What a numeric row method leaves behind: on success the row's codes
     * under the row's descriptor and that descriptor recorded, the rest of
     * the coded matrix untouched; on failure the error and nothing changed.
     */
    twostate predicate RowRecorded(row: nat, strategy: Strategy, new outcome: Outcome<Error>)
      reads this`raw, this`descriptors, observations
      requires Valid() && row < |raw| && !strategy.Nominal?
    {
      var plan := RowDescriptor(row, strategy);
      && (outcome.Pass? <==> plan.Success?)
      && (outcome.Fail? ==> outcome.error == plan.error && descriptors == old(descriptors) && NothingWritten(observations))
      && (outcome.Pass? ==>
            && descriptors == old(descriptors)[row := plan.value]
            && OnlyRowWritten(observations, row)
            && forall c :: 0 <= c < observations.Length0 ==> observations[c, row] == Encode(plan.value, RowCells(row).value[c]))
    }

    /** A discretiser of the raw matrix into the caller's coded matrix. */
    constructor (original: seq<seq<string>>, obs: array2<int>, reg: Registries, na: string,
                 naSpellings: set<string>, parse: string -> Option<real>, tails: Tails)
      requires ValidTails(tails)
      requires obs.Length1 == |original| && forall row :: 0 <= row < |original| ==> |original[row]| == obs.Length0
      ensures Valid()
      ensures raw == original && observations == obs && registries == reg
      ensures this.na == na && this.naSpellings == naSpellings && this.parse == parse && this.tails == tails
      ensures discretisations == [] && descriptors == map[]
    {
      raw := original;
      observations := obs;
      registries := reg;
      this.na := na;
      this.naSpellings := naSpellings;
      this.parse := parse;
      this.tails := tails;
      discretisations := [];
      descriptors := map[];
    }

    /**
     * A discretiser that discretises every row as the control file says
     * right away.
     */
    static method WithControlFile(original: seq<seq<string>>, control: Control.ControlFile, obs: array2<int>,
                                  reg: Registries, na: string, naSpellings: set<string>,
                                  parse: string -> Option<real>, tails: Tails)
      returns (d: Discretiser, outcome: Outcome<Error>)
      requires ValidTails(tails)
      requires obs.Length1 == |original| && forall row :: 0 <= row < |original| ==> |original[row]| == obs.Length0
      modifies obs, reg
      ensures fresh(d) && d.Valid() && d.observations == obs && d.registries == reg
      ensures d.raw == NormalizeMatrix(original, na, naSpellings)
      ensures outcome.Fail? ==> NothingWritten(obs) && unchanged(reg) && d.descriptors == map[]
      ensures outcome.Fail? && Control.Configure(control, |original|).Failure? ==>
        outcome.error == Control.Configure(control, |original|).error
      ensures outcome.Fail? && Control.Configure(control, |original|).Success? ==>
        exists row :: d.FirstUnready(Control.Configure(control, |original|).value, row, outcome.error)
      ensures outcome.Pass? ==> Control.Configure(control, |original|).Success?
      ensures outcome.Pass? ==> d.discretisations == Control.Configure(control, |original|).value
      ensures outcome.Pass? ==> forall row :: 0 <= row < |original| ==>
        d.RowReady(row, d.discretisations[row]) && row in d.descriptors
        && d.descriptors[row] == d.PlannedDescriptor(row, d.discretisations[row])
      ensures outcome.Pass? ==> forall row, c :: 0 <= row < |original| && 0 <= c < obs.Length0 ==>
        obs[c, row] == d.CodeOf(row, d.discretisations[row], c)
      ensures outcome.Pass? ==> forall row, c :: (0 <= row < |original| && 0 <= c < obs.Length0
        && d.discretisations[row].Nominal? && d.raw[row][c] != na) ==>
        d.raw[row][c] in reg.forward &&
        (obs[c, row], row) in reg.reverse && reg.reverse[(obs[c, row], row)] == d.raw[row][c]
      ensures outcome.Pass? ==> forall l :: l in old(reg.forward) ==>
        l in reg.forward && reg.forward[l] == old(reg.forward)[l]
      ensures outcome.Pass? ==> forall key :: key in old(reg.reverse) && !(0 <= key.1 < |original| && d.discretisations[key.1].Nominal?) ==>
        key in reg.reverse && reg.reverse[key] == old(reg.reverse)[key]
      ensures outcome.Pass? ==> reg.forward == ForwardFold(old(reg.forward), d.raw, d.discretisations, na, |original|)
      ensures outcome.Pass? ==> reg.reverse == ReverseFold(old(reg.reverse), d.raw, d.discretisations, na, |original|)
    {
      d := new Discretiser(original, obs, reg, na, naSpellings, parse, tails);
      outcome := d.Discretise(control);
    }

    /**
     * The code at (col, row). A row that has not been discretised yet is an
     * access-before-ready failure.
     */
    method GetEntry(col: nat, row: nat) returns (r: Result<int, Error>)
      requires Valid() && col < observations.Length0 && row < observations.Length1
      ensures r.Success? <==> row in descriptors
      ensures r.Success? ==> r.value == observations[col, row]
      ensures r.Failure? ==> r.error == AccessBeforeReady(row)
    {
      if row in descriptors {
        r := Success(observations[col, row]);
      } else {
        r := Failure(AccessBeforeReady(row));
      }
    }

    /** Replaces every missing-value spelling of the raw matrix by the canonical token. */
    method AdaptFormat()
      requires Valid()
      modifies this`raw
      ensures Valid()
      ensures raw == NormalizeMatrix(old(raw), na, naSpellings)
    {
      var row := 0;
      while row < |raw|
        invariant 0 <= row <= |raw| == |old(raw)|
        invariant forall k :: 0 <= k < |raw| ==>
          raw[k] == if k < row then NormalizeRow(old(raw)[k], na, naSpellings) else old(raw)[k]
      {
        var samples := raw[row];
        var c := 0;
        while c < |samples|
          invariant 0 <= c <= |samples| == |old(raw)[row]|
          invariant forall j :: 0 <= j < |samples| ==>
            samples[j] == if j < c then NormalizeCell(old(raw)[row][j], na, naSpellings) else old(raw)[row][j]
        {
          if samples[c] in naSpellings {
            samples := samples[c := na];
          }
          c := c + 1;
        }
        raw := raw[row := samples];
        row := row + 1;
      }
    }

    /**
     * Selects the strategy of every row from the control file: the first row
     * the file does not list, or whose entry is incomplete, fails the call.
     */
    method CreateDiscretisationClasses(control: Control.ControlFile) returns (outcome: Outcome<Error>)
      requires Valid()
      modifies this`discretisations
      ensures outcome.Pass? <==> Control.Configure(control, |raw|).Success?
      ensures outcome.Pass? ==> discretisations == Control.Configure(control, |raw|).value
      ensures outcome.Fail? ==> outcome.error == Control.Configure(control, |raw|).error
      ensures outcome.Fail? ==> discretisations == old(discretisations)
    {
      var selected := [];
      var row := 0;
      while row < |raw|
        invariant 0 <= row <= |raw|
        invariant Control.Configure(control, row) == Success(selected)
      {
        if row !in control {
          Control.FailureSticks(control, row + 1, |raw|);
          return Fail(MissingDirective(row));
        }
        match Control.ToStrategy(row, control[row]) {
          case Failure(e) =>
            Control.FailureSticks(control, row + 1, |raw|);
            return Fail(e);
          case Success(s) =>
            selected := selected + [s];
        }
        row := row + 1;
      }
      discretisations := selected;
      outcome := Pass;
    }

    /** Writes a row of codes into the coded matrix. */
    method WriteRow(row: nat, codes: seq<int>)
      requires row < observations.Length1 && |codes| == observations.Length0
      modifies observations
      ensures OnlyRowWritten(observations, row)
      ensures forall c :: 0 <= c < observations.Length0 ==> observations[c, row] == codes[c]
    {
      var c := 0;
      while c < observations.Length0
        invariant 0 <= c <= observations.Length0
        invariant forall j :: 0 <= j < c ==> observations[j, row] == codes[j]
        invariant forall j, r :: (0 <= j < observations.Length0 && 0 <= r < observations.Length1 && (r != row || j >= c) ==>
          observations[j, r] == old(observations[j, r]))
      {
        observations[c, row] := codes[c];
        c := c + 1;
      }
    }

    /** A row coded by one descriptor has codes that follow the order of its values. */
    lemma EncodedRowMonotone(row: nat, d: Descriptor)
      requires Valid() && row < |raw| && RowCells(row).Success? && !d.strategy.Nominal?
      requires forall c :: 0 <= c < observations.Length0 ==> observations[c, row] == Encode(d, RowCells(row).value[c])
      ensures RowMonotone(row)
    {
      var cells := RowCells(row).value;
      forall c1, c2 | 0 <= c1 < observations.Length0 && 0 <= c2 < observations.Length0
        && cells[c1].Value? && cells[c2].Value? && cells[c1].x <= cells[c2].x
        ensures observations[c1, row] <= observations[c2, row]
      {
        ClassifyMonotone(d, cells[c1].x, cells[c2].x);
      }
    }

    /**
     * The step every numeric method shares: read the row, compute its
     * descriptor, write its codes.
     */
    method DiscretiseRow(row: nat, strategy: Strategy) returns (outcome: Outcome<Error>)
      requires Valid() && row < |raw| && !strategy.Nominal?
      modifies observations, this`descriptors
      ensures Valid()
      ensures RowRecorded(row, strategy, outcome)
      ensures outcome.Pass? ==> RowMonotone(row)
    {
      match RowCells(row) {
        case Failure(e) =>
          outcome := Fail(e);
        case Success(cells) =>
          match Describe(row, strategy, cells, tails) {
            case Failure(e) =>
              outcome := Fail(e);
            case Success(d) =>
              WriteRow(row, seq(|cells|, c requires 0 <= c < |cells| => Encode(d, cells[c])));
              descriptors := descriptors[row := d];
              outcome := Pass;
              EncodedRowMonotone(row, d);
          }
      }
    }

    /** Each value becomes the largest integer not above it. */
    method DiscretiseFloor(row: nat) returns (outcome: Outcome<Error>)
      requires Valid() && row < |raw|
      modifies observations, this`descriptors
      ensures Valid()
      ensures RowRecorded(row, Floor, outcome)
      ensures outcome.Pass? <==> RowCells(row).Success?
      ensures outcome.Pass? ==> forall c :: 0 <= c < observations.Length0 ==>
        var cell := RowCells(row).value[c];
        (cell.Missing? ==> observations[c, row] == MissingCode) &&
        (cell.Value? ==> observations[c, row] as real <= cell.x < observations[c, row] as real + 1.0)
    {
      outcome := DiscretiseRow(row, Floor);
    }

    /** Each value becomes the smallest integer not below it. */
    method DiscretiseCeil(row: nat) returns (outcome: Outcome<Error>)
      requires Valid() && row < |raw|
      modifies observations, this`descriptors
      ensures Valid()
      ensures RowRecorded(row, Ceil, outcome)
      ensures outcome.Pass? <==> RowCells(row).Success?
      ensures outcome.Pass? ==> forall c :: 0 <= c < observations.Length0 ==>
        var cell := RowCells(row).value[c];
        (cell.Missing? ==> observations[c, row] == MissingCode) &&
        (cell.Value? ==> cell.x <= observations[c, row] as real < cell.x + 1.0)
    {
      outcome := DiscretiseRow(row, Ceil);
    }

    /** Each value becomes the nearest integer, halves rounded away from zero. */
    method DiscretiseRound(row: nat) returns (outcome: Outcome<Error>)
      requires Valid() && row < |raw|
      modifies observations, this`descriptors
      ensures Valid()
      ensures RowRecorded(row, Round, outcome)
      ensures outcome.Pass? <==> RowCells(row).Success?
      ensures outcome.Pass? ==> forall c :: 0 <= c < observations.Length0 ==>
        var cell := RowCells(row).value[c];
        (cell.Missing? ==> observations[c, row] == MissingCode) &&
        (cell.Value? ==> (-0.5 <= observations[c, row] as real - cell.x <= 0.5 &&
           observations[c, row] == if cell.x >= 0.0 then (cell.x + 0.5).Floor else -((-cell.x + 0.5).Floor)))
    {
      outcome := DiscretiseRow(row, Round);
      if outcome.Pass? {
        forall c | 0 <= c < observations.Length0 && RowCells(row).value[c].Value?
          ensures var x := RowCells(row).value[c].x;
            -0.5 <= observations[c, row] as real - x <= 0.5 &&
            observations[c, row] == if x >= 0.0 then (x + 0.5).Floor else -((-x + 0.5).Floor)
        {
          RoundWithinHalf(RowCells(row).value[c].x);
          RoundIsNearestHalfAway(RowCells(row).value[c].x);
        }
      }
    }

    /**
     * The shared contract of the two-code methods: a value at or above the
     * row's statistic (or the threshold) is 1, a value below it 0.
     */
    twostate predicate SplitWritten(row: nat, strategy: Strategy, new outcome: Outcome<Error>)
      reads this`raw, observations
      requires Valid() && row < |raw| && IsSplit(strategy)
    {
      outcome.Pass? ==>
        && RowCells(row).Success?
        && !Undefined(strategy, Values(RowCells(row).value))
        && forall c :: 0 <= c < observations.Length0 ==>
             var cell := RowCells(row).value[c];
             (cell.Missing? ==> observations[c, row] == MissingCode) &&
             (cell.Value? ==> (observations[c, row] ==
                if cell.x >= SplitPoint(strategy, Values(RowCells(row).value)) then 1 else 0))
    }

    /** Shows the split contract from the shared row contract. */
    lemma SplitFromRecorded(row: nat, strategy: Strategy, d: Descriptor)
      requires Valid() && row < |raw| && IsSplit(strategy)
      requires RowDescriptor(row, strategy) == Success(d)
      ensures RowCells(row).Success? && !Undefined(strategy, Values(RowCells(row).value))
      ensures forall c :: 0 <= c < |raw[row]| && RowCells(row).value[c].Value? ==>
        Classify(d, RowCells(row).value[c].x) ==
          if RowCells(row).value[c].x >= SplitPoint(strategy, Values(RowCells(row).value)) then 1 else 0
    {
      var cells := RowCells(row).value;
      forall c | 0 <= c < |raw[row]| && cells[c].Value?
        ensures Classify(d, cells[c].x) == if cells[c].x >= SplitPoint(strategy, Values(cells)) then 1 else 0
      {
        SplitCode(row, strategy, cells, tails, cells[c].x);
      }
    }

    /** Each value is compared with the arithmetic mean of the row's values. */
    method DiscretiseByAMean(row: nat) returns (outcome: Outcome<Error>)
      requires Valid() && row < |raw|
      modifies observations, this`descriptors
      ensures Valid()
      ensures RowRecorded(row, ByAMean, outcome)
      ensures SplitWritten(row, ByAMean, outcome)
      ensures outcome.Pass? ==> Values(RowCells(row).value) != []
    {
      outcome := DiscretiseRow(row, ByAMean);
      if outcome.Pass? {
        SplitFromRecorded(row, ByAMean, RowDescriptor(row, ByAMean).value);
      }
    }

    /** Each value is compared with the harmonic mean of the row's values. */
    method DiscretiseByHMean(row: nat) returns (outcome: Outcome<Error>)
      requires Valid() && row < |raw|
      modifies observations, this`descriptors
      ensures Valid()
      ensures RowRecorded(row, ByHMean, outcome)
      ensures SplitWritten(row, ByHMean, outcome)
      ensures outcome.Pass? ==> Values(RowCells(row).value) != [] && AllPositive(Values(RowCells(row).value))
    {
      outcome := DiscretiseRow(row, ByHMean);
      if outcome.Pass? {
        SplitFromRecorded(row, ByHMean, RowDescriptor(row, ByHMean).value);
      }
    }

    /** Each value is compared with the median of the row's values. */
    method DiscretiseByMedian(row: nat) returns (outcome: Outcome<Error>)
      requires Valid() && row < |raw|
      modifies observations, this`descriptors
      ensures Valid()
      ensures RowRecorded(row, ByMedian, outcome)
      ensures SplitWritten(row, ByMedian, outcome)
      ensures outcome.Pass? ==> Values(RowCells(row).value) != []
    {
      outcome := DiscretiseRow(row, ByMedian);
      if outcome.Pass? {
        SplitFromRecorded(row, ByMedian, RowDescriptor(row, ByMedian).value);
      }
    }

    /** Each value is compared with a threshold given by the caller. */
    method DiscretiseManually(row: nat, threshold: real) returns (outcome: Outcome<Error>)
      requires Valid() && row < |raw|
      modifies observations, this`descriptors
      ensures Valid()
      ensures RowRecorded(row, Manually(threshold), outcome)
      ensures SplitWritten(row, Manually(threshold), outcome)
      ensures outcome.Pass? <==> RowCells(row).Success?
    {
      outcome := DiscretiseRow(row, Manually(threshold));
      if outcome.Pass? {
        SplitFromRecorded(row, Manually(threshold), RowDescriptor(row, Manually(threshold)).value);
      }
    }

    /**
     * The sorted values are cut into numberOfBrackets groups of near-equal
     * size, and a value's code is the number of later groups whose first
     * value is at or below it. For distinct values that is the index of the
     * value's group; equal values share one code, so a group whose first
     * value equals the previous group's values is merged into it and lower
     * codes can go unused. Codes lie in 0 .. numberOfBrackets - 1 and follow
     * the order of the values.
     */
    method DiscretiseBracketMedians(row: nat, numberOfBrackets: nat) returns (outcome: Outcome<Error>)
      requires Valid() && row < |raw|
      modifies observations, this`descriptors
      ensures Valid()
      ensures RowRecorded(row, BracketMedians(numberOfBrackets), outcome)
      ensures outcome.Pass? ==> numberOfBrackets > 0 && RowCells(row).Success? && RowMonotone(row)
      ensures outcome.Pass? ==> forall c :: 0 <= c < observations.Length0 ==>
        var cell := RowCells(row).value[c];
        (cell.Missing? ==> observations[c, row] == MissingCode) &&
        (cell.Value? ==> 0 <= observations[c, row] < numberOfBrackets)
    {
      var strategy := BracketMedians(numberOfBrackets);
      outcome := DiscretiseRow(row, strategy);
      if outcome.Pass? {
        var cells := RowCells(row).value;
        forall c | 0 <= c < observations.Length0 && cells[c].Value?
          ensures 0 <= observations[c, row] < numberOfBrackets
        {
          CodeRanges(row, strategy, cells, tails, cells[c].x);
        }
      }
    }

    /**
     * Values in the low tail become 0, the central mass 1, the high tail 2;
     * the cut points are the row's values at the two tail quantiles.
     */
    method DiscretisePearsonTukey(row: nat) returns (outcome: Outcome<Error>)
      requires Valid() && row < |raw|
      modifies observations, this`descriptors
      ensures Valid()
      ensures RowRecorded(row, PearsonTukey, outcome)
      ensures outcome.Pass? ==> RowCells(row).Success? && RowMonotone(row)
      ensures outcome.Pass? ==> (Values(RowCells(row).value) != [] &&
        descriptors[row].cuts == TailCuts(Values(RowCells(row).value), tails))
      ensures outcome.Pass? ==> forall c :: 0 <= c < observations.Length0 ==>
        var cell := RowCells(row).value[c];
        (cell.Missing? ==> observations[c, row] == MissingCode) &&
        (cell.Value? ==> 0 <= observations[c, row] <= 2)
    {
      outcome := DiscretiseRow(row, PearsonTukey);
      if outcome.Pass? {
        var cells := RowCells(row).value;
        PearsonTukeyDescriptor(row, cells, tails);
        forall c | 0 <= c < observations.Length0 && cells[c].Value?
          ensures 0 <= observations[c, row] <= 2
        {
          CodeRanges(row, PearsonTukey, cells, tails, cells[c].x);
        }
      }
    }

    /**
     * Finds the code of a (non-missing) label met while numbering a row: the
     * code it already has in the row, or the next unused code, in which case
     * the label is registered.
     */
    method NextCode(l: string, row: nat, order: seq<string>, seen: map<string, int>,
                    ghost forward0: map<string, int>, ghost reverse0: map<(int, int), string>)
      returns (code: int, order': seq<string>, seen': map<string, int>)
      requires Numbered(order, seen)
      requires registries.forward == Forward(forward0, order)
      requires registries.reverse == Reverse(reverse0, order, row)
      modifies registries
      ensures order' == if l in order then order else order + [l]
      ensures Numbered(order', seen')
      ensures l in order' && code == IndexOf(order', l)
      ensures registries.forward == Forward(forward0, order')
      ensures registries.reverse == Reverse(reverse0, order', row)
    {
      NumberedLookup(order, seen, l);
      if l in seen {
        code, order', seen' := seen[l], order, seen;
      } else {
        code := |order|;
        NumberedExtend(order, seen, l);
        ForwardStep(forward0, order, l);
        ReverseStep(reverse0, order, l, row);
        if l !in registries.forward {
          registries.forward := registries.forward[l := code];
        }
        registries.reverse := registries.reverse[(code, row) := l];
        order', seen' := order + [l], seen[l := code];
      }
    }

    /** Reads the next sample of a row: finds its code and registers it if it is a new label. */
    method NumberNext(row: nat, samples: seq<string>, c: nat, order: seq<string>, seen: map<string, int>, codes: seq<int>,
                      ghost forward0: map<string, int>, ghost reverse0: map<(int, int), string>)
      returns (order': seq<string>, seen': map<string, int>, codes': seq<int>)
      requires c < |samples|
      requires NumberedUpTo(samples, na, row, c, order, seen, codes, registries.forward, registries.reverse, forward0, reverse0)
      modifies registries
      ensures NumberedUpTo(samples, na, row, c + 1, order', seen', codes', registries.forward, registries.reverse, forward0, reverse0)
    {
      var l := samples[c];
      var code: int;
      if l == na {
        code, order', seen' := MissingCode, order, seen;
      } else {
        code, order', seen' := NextCode(l, row, order, seen, forward0, reverse0);
      }
      NumberingStep(samples, na, c, order, order', code);
      codes' := codes + [code];
      forall j | 0 <= j < c
        ensures codes'[j] == LabelCode(samples, na, samples[j])
      {
        assert codes'[j] == codes[j];
      }
    }

    /**
     * Numbers the labels of a categorical row in order of first appearance
     * and registers every label: the forward registry gains the labels it
     * lacks, the reverse registry maps (code, row) back to the label.
     */
    method NumberLabels(row: nat) returns (codes: seq<int>)
      requires row < |raw|
      modifies registries
      ensures |codes| == |raw[row]|
      ensures forall c :: 0 <= c < |raw[row]| ==> codes[c] == LabelCode(raw[row], na, raw[row][c])
      ensures registries.forward == Forward(old(registries.forward), FirstSeen(raw[row], na))
      ensures registries.reverse == Reverse(old(registries.reverse), FirstSeen(raw[row], na), row)
    {
      ghost var forward0, reverse0 := registries.forward, registries.reverse;
      var samples := raw[row];
      var order: seq<string> := [];
      var seen: map<string, int> := map[];
      codes := [];
      var c := 0;
      assert samples[..0] == [];
      while c < |samples|
        invariant NumberedUpTo(samples, na, row, c, order, seen, codes, registries.forward, registries.reverse, forward0, reverse0)
      {
        order, seen, codes := NumberNext(row, samples, c, order, seen, codes, forward0, reverse0);
        c := c + 1;
      }
      assert samples[..c] == samples;
    }

    /**
     * Maps the labels of a categorical row to integer codes: numbers and
     * registers them, then writes the codes, so that the reverse registry
     * gives back the label of every code written.
     */
    method MapNamesToInt(row: nat)
      requires Valid() && row < |raw|
      modifies observations, registries, this`descriptors
      ensures Valid()
      ensures descriptors == old(descriptors)[row := Descriptor(Nominal, [])]
      ensures OnlyRowWritten(observations, row)
      ensures forall c :: 0 <= c < observations.Length0 ==> observations[c, row] == LabelCode(raw[row], na, raw[row][c])
      ensures registries.forward == Forward(old(registries.forward), FirstSeen(raw[row], na))
      ensures registries.reverse == Reverse(old(registries.reverse), FirstSeen(raw[row], na), row)
      ensures forall c :: 0 <= c < observations.Length0 && raw[row][c] != na ==>
        raw[row][c] in registries.forward &&
        (observations[c, row], row) in registries.reverse && registries.reverse[(observations[c, row], row)] == raw[row][c]
    {
      ghost var reverse0 := registries.reverse;
      var codes := NumberLabels(row);
      WriteRow(row, codes);
      descriptors := descriptors[row := Descriptor(Nominal, [])];
      forall c | 0 <= c < observations.Length0 && raw[row][c] != na
        ensures raw[row][c] in registries.forward
        ensures (observations[c, row], row) in registries.reverse && registries.reverse[(observations[c, row], row)] == raw[row][c]
      {
        ReverseRoundTrip(reverse0, raw[row], na, row, c);
      }
    }

    /** The descriptor a ready row records: its cut points, or none for a categorical row. */
    ghost function PlannedDescriptor(row: nat, strategy: Strategy): Descriptor
      reads this`raw
      requires Valid() && row < |raw| && RowReady(row, strategy)
    {
      if strategy.Nominal? then Descriptor(Nominal, []) else RowDescriptor(row, strategy).value
    }

    /** Discretises one row with its strategy, dispatching to the method that implements it. */
    method ApplyStrategy(row: nat, strategy: Strategy)
      requires Valid() && row < |raw| && RowReady(row, strategy)
      modifies observations, registries, this`descriptors
      ensures Valid()
      ensures descriptors == old(descriptors)[row := PlannedDescriptor(row, strategy)]
      ensures OnlyRowWritten(observations, row)
      ensures forall c :: 0 <= c < observations.Length0 ==> observations[c, row] == CodeOf(row, strategy, c)
      ensures !strategy.Nominal? ==> unchanged(registries)
      ensures strategy.Nominal? ==>
        && registries.forward == Forward(old(registries.forward), FirstSeen(raw[row], na))
        && registries.reverse == Reverse(old(registries.reverse), FirstSeen(raw[row], na), row)
      ensures strategy.Nominal? ==> forall c :: 0 <= c < observations.Length0 && raw[row][c] != na ==>
        raw[row][c] in registries.forward &&
        (observations[c, row], row) in registries.reverse && registries.reverse[(observations[c, row], row)] == raw[row][c]
      ensures forall l :: l in old(registries.forward) ==>
        l in registries.forward && registries.forward[l] == old(registries.forward)[l]
      ensures forall key :: key in old(registries.reverse) && !(key.1 == row && strategy.Nominal?) ==>
        key in registries.reverse && registries.reverse[key] == old(registries.reverse)[key]
    {
      var outcome := Pass;
      match strategy {
        case Floor => outcome := DiscretiseFloor(row);
        case Ceil => outcome := DiscretiseCeil(row);
        case Round => outcome := DiscretiseRound(row);
        case ByAMean => outcome := DiscretiseByAMean(row);
        case ByHMean => outcome := DiscretiseByHMean(row);
        case ByMedian => outcome := DiscretiseByMedian(row);
        case Manually(t) => outcome := DiscretiseManually(row, t);
        case BracketMedians(k) => outcome := DiscretiseBracketMedians(row, k);
        case PearsonTukey => outcome := DiscretisePearsonTukey(row);
        case Nominal => MapNamesToInt(row);
      }
    }

    /** The first row whose strategy cannot be applied, and why. */
    ghost predicate FirstUnready(strategies: seq<Strategy>, row: nat, e: Error)
      reads this`raw
      requires Valid() && |strategies| == |raw|
    {
      && row < |raw|
      && !RowReady(row, strategies[row])
      && RowDescriptor(row, strategies[row]) == Failure(e)
      && forall k :: 0 <= k < row ==> RowReady(k, strategies[k])
    }

    /** Checks that every row can be discretised with its strategy, changing nothing. */
    method PlanAll(strategies: seq<Strategy>) returns (outcome: Outcome<Error>)
      requires Valid() && |strategies| == |raw|
      ensures outcome.Pass? <==> forall row :: 0 <= row < |raw| ==> RowReady(row, strategies[row])
      ensures outcome.Fail? ==> exists row :: FirstUnready(strategies, row, outcome.error)
    {
      var row := 0;
      while row < |raw|
        invariant 0 <= row <= |raw|
        invariant forall k :: 0 <= k < row ==> RowReady(k, strategies[k])
      {
        if !RowReady(row, strategies[row]) {
          var e := RowDescriptor(row, strategies[row]).error;
          assert FirstUnready(strategies, row, e);
          return Fail(e);
        }
        row := row + 1;
      }
      outcome := Pass;
    }

    /** Every row's strategy can be applied. */
    ghost predicate AllReady()
      reads this`raw, this`discretisations
      requires Valid()
    {
      |discretisations| == |raw| && forall row :: 0 <= row < |raw| ==> RowReady(row, discretisations[row])
    }

    /** Rows 0 .. done - 1 hold their codes and have their descriptors recorded. */
    ghost predicate CodedUpTo(done: nat)
      reads this`raw, this`discretisations, this`descriptors, observations
      requires Valid() && AllReady() && done <= |raw|
    {
      && (forall k :: 0 <= k < done ==>
            k in descriptors && descriptors[k] == PlannedDescriptor(k, discretisations[k]))
      && (forall k, c :: 0 <= k < done && 0 <= c < observations.Length0 ==>
            observations[c, k] == CodeOf(k, discretisations[k], c))
    }

    /** Rows 0 .. done - 1 are discretised, and the registries are entry done of the trace (fwds, revs). */
    ghost predicate AppliedUpTo(done: nat, fwds: seq<map<string, int>>, revs: seq<map<(int, int), string>>)
      reads this`raw, this`discretisations, this`descriptors, observations, registries
      requires Valid() && AllReady() && done <= |raw|
    {
      && CodedUpTo(done)
      && done < |fwds| && done < |revs|
      && registries.forward == fwds[done] && registries.reverse == revs[done]
    }

    /** Discretising row done alone keeps the earlier rows' codes and adds its own. */
    twostate lemma CodedExtends(done: nat)
      requires old(Valid()) && old(AllReady()) && done < old(|raw|)
      requires old(CodedUpTo(done))
      requires unchanged(this`raw, this`discretisations)
      requires Valid() && AllReady()
      requires OnlyRowWritten(observations, done)
      requires descriptors == old(descriptors)[done := PlannedDescriptor(done, discretisations[done])]
      requires forall c :: 0 <= c < observations.Length0 ==> observations[c, done] == CodeOf(done, discretisations[done], c)
      ensures CodedUpTo(done + 1)
    {
      forall k, c | 0 <= k < done && 0 <= c < observations.Length0
        ensures observations[c, k] == CodeOf(k, discretisations[k], c)
      {
        assert observations[c, k] == old(observations[c, k]);
      }
    }

    /** Discretises row done, extending the rows discretised by one. */
    method ApplyNext(done: nat, ghost fwds: seq<map<string, int>>, ghost revs: seq<map<(int, int), string>>)
      requires Valid() && AllReady() && done < |raw|
      requires RegistryTrace(fwds, revs, raw, discretisations, na) && AppliedUpTo(done, fwds, revs)
      modifies observations, registries, this`descriptors
      ensures Valid() && AllReady()
      ensures AppliedUpTo(done + 1, fwds, revs)
    {
      ApplyStrategy(done, discretisations[done]);
      CodedExtends(done);
      assert registries.forward == RowForward(fwds[done], raw, discretisations, na, done);
      assert registries.reverse == RowReverse(revs[done], raw, discretisations, na, done);
    }

    /** With every row discretised, each row's codes, descriptor and labels are in place. */
    lemma AppliedAll(forward0: map<string, int>, reverse0: map<(int, int), string>)
      requires Valid() && AllReady() && CodedUpTo(|raw|)
      requires Folded(registries.forward, registries.reverse, forward0, reverse0, raw, discretisations, na, |raw|)
      ensures forall row :: 0 <= row < |raw| ==>
        row in descriptors && descriptors[row] == PlannedDescriptor(row, discretisations[row])
      ensures forall row, c :: 0 <= row < |raw| && 0 <= c < observations.Length0 ==>
        observations[c, row] == CodeOf(row, discretisations[row], c)
      ensures forall row, c :: (0 <= row < |raw| && 0 <= c < observations.Length0
        && discretisations[row].Nominal? && raw[row][c] != na) ==>
        raw[row][c] in registries.forward &&
        (observations[c, row], row) in registries.reverse && registries.reverse[(observations[c, row], row)] == raw[row][c]
      ensures forall l :: l in forward0 ==>
        l in registries.forward && registries.forward[l] == forward0[l]
      ensures forall key :: key in reverse0 && !(0 <= key.1 < |raw| && discretisations[key.1].Nominal?) ==>
        key in registries.reverse && registries.reverse[key] == reverse0[key]
    {
      var n := |raw|;
      forall row, c | (0 <= row < n && 0 <= c < observations.Length0
        && discretisations[row].Nominal? && raw[row][c] != na)
        ensures raw[row][c] in registries.forward
        ensures (observations[c, row], row) in registries.reverse
        ensures registries.reverse[(observations[c, row], row)] == raw[row][c]
      {
        var l := raw[row][c];
        assert l in raw[row];
        assert RegisteredLabel(raw, discretisations, na, n, l);
        ForwardFoldKeys(forward0, raw, discretisations, na, n, l);
        var key := (observations[c, row], row);
        assert observations[c, row] == LabelCode(raw[row], na, l);
        assert WrittenKey(raw, discretisations, na, n, key);
        ReverseFoldEntries(reverse0, raw, discretisations, na, n, key);
      }
      forall l | l in forward0
        ensures l in registries.forward && registries.forward[l] == forward0[l]
      {
        ForwardFoldKeys(forward0, raw, discretisations, na, n, l);
      }
      forall key | key in reverse0 && !(0 <= key.1 < n && discretisations[key.1].Nominal?)
        ensures key in registries.reverse && registries.reverse[key] == reverse0[key]
      {
        ReverseFoldEntries(reverse0, raw, discretisations, na, n, key);
      }
    }

    /** Discretises every row with its strategy, in row order. */
    method ApplyAll()
      requires Valid() && AllReady()
      modifies observations, registries, this`descriptors
      ensures Valid()
      ensures forall row :: 0 <= row < |raw| ==>
        row in descriptors && descriptors[row] == PlannedDescriptor(row, discretisations[row])
      ensures forall row, c :: 0 <= row < |raw| && 0 <= c < observations.Length0 ==>
        observations[c, row] == CodeOf(row, discretisations[row], c)
      ensures forall row, c :: (0 <= row < |raw| && 0 <= c < observations.Length0
        && discretisations[row].Nominal? && raw[row][c] != na) ==>
        raw[row][c] in registries.forward &&
        (observations[c, row], row) in registries.reverse && registries.reverse[(observations[c, row], row)] == raw[row][c]
      ensures forall l :: l in old(registries.forward) ==>
        l in registries.forward && registries.forward[l] == old(registries.forward)[l]
      ensures forall key :: key in old(registries.reverse) && !(0 <= key.1 < |raw| && discretisations[key.1].Nominal?) ==>
        key in registries.reverse && registries.reverse[key] == old(registries.reverse)[key]
      ensures registries.forward == ForwardFold(old(registries.forward), raw, discretisations, na, |raw|)
      ensures registries.reverse == ReverseFold(old(registries.reverse), raw, discretisations, na, |raw|)
    {
      ghost var forward0, reverse0 := registries.forward, registries.reverse;
      ghost var fwds, revs := FoldTrace(forward0, reverse0, raw, discretisations, na);
      ApplyRows(0, fwds, revs);
      AppliedAll(forward0, reverse0);
    }

    /** Discretises the rows one after another, from row done to the last. */
    method ApplyRows(done: nat, ghost fwds: seq<map<string, int>>, ghost revs: seq<map<(int, int), string>>)
      requires Valid() && AllReady() && done <= |raw|
      requires RegistryTrace(fwds, revs, raw, discretisations, na) && AppliedUpTo(done, fwds, revs)
      modifies observations, registries, this`descriptors
      ensures Valid() && AllReady() && AppliedUpTo(|raw|, fwds, revs)
      decreases |raw| - done
    {
      if done < |raw| {
        ApplyNext(done, fwds, revs);
        ApplyRows(done + 1, fwds, revs);
      }
    }

    /**
     * Discretises the whole matrix as the control file says: missing-value
     * spellings are normalised, every row's strategy is selected, and then
     * every row is discretised. A missing directive or parameter, a sample
     * that does not parse or a statistic that is undefined fails the call,
     * and then neither the coded matrix nor the registries have changed.
     */
    method Discretise(control: Control.ControlFile) returns (outcome: Outcome<Error>)
      requires Valid()
      modifies this`raw, this`discretisations, this`descriptors, observations, registries
      ensures Valid()
      ensures raw == NormalizeMatrix(old(raw), na, naSpellings)
      ensures outcome.Fail? ==> NothingWritten(observations) && unchanged(registries) && descriptors == old(descriptors)
      ensures outcome.Fail? && Control.Configure(control, |raw|).Failure? ==>
        outcome.error == Control.Configure(control, |raw|).error
      ensures outcome.Fail? && Control.Configure(control, |raw|).Success? ==>
        exists row :: FirstUnready(Control.Configure(control, |raw|).value, row, outcome.error)
      ensures outcome.Pass? ==> Control.Configure(control, |raw|).Success?
      ensures outcome.Pass? ==> discretisations == Control.Configure(control, |raw|).value
      ensures outcome.Pass? ==> forall row :: 0 <= row < |raw| ==>
        RowReady(row, discretisations[row]) && row in descriptors && descriptors[row] == PlannedDescriptor(row, discretisations[row])
      ensures outcome.Pass? ==> forall l :: l in old(registries.forward) ==>
        l in registries.forward && registries.forward[l] == old(registries.forward)[l]
      ensures outcome.Pass? ==> forall key :: key in old(registries.reverse) && !(0 <= key.1 < |raw| && discretisations[key.1].Nominal?) ==>
        key in registries.reverse && registries.reverse[key] == old(registries.reverse)[key]
      ensures outcome.Pass? ==> forall row, c :: 0 <= row < |raw| && 0 <= c < observations.Length0 ==>
        observations[c, row] == CodeOf(row, discretisations[row], c)
      ensures outcome.Pass? ==> forall row, c :: (0 <= row < |raw| && 0 <= c < observations.Length0
        && discretisations[row].Nominal? && raw[row][c] != na) ==>
        raw[row][c] in registries.forward &&
        (observations[c, row], row) in registries.reverse && registries.reverse[(observations[c, row], row)] == raw[row][c]
      ensures outcome.Pass? ==> registries.forward == ForwardFold(old(registries.forward), raw, discretisations, na, |raw|)
      ensures outcome.Pass? ==> registries.reverse == ReverseFold(old(registries.reverse), raw, discretisations, na, |raw|)
    {
      AdaptFormat();
      outcome := CreateDiscretisationClasses(control);
      if outcome.Fail? {
        return;
      }
      outcome := PlanAll(discretisations);
      if outcome.Fail? {
        return;
      }
      ApplyAll();
    }
  }
}
