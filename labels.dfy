/**
 * The nominal (categorical) mapping of a row: every distinct label, in the
 * order it first appears along the row, receives the next unused code
 * starting at 0; the canonical missing token is left out of the numbering
 * and maps to the missing code. The forward registry maps a label to a
 * code, the reverse registry maps (code, row) back to the label.
 */
module Labels {
  import opened Codes

  ghost predicate Distinct(s: seq<string>) {
    forall i, j :: 0 <= i < j < |s| ==> s[i] != s[j]
  }

  /** The labels of a row in order of first appearance, the missing token left out. */
  function FirstSeen(row: seq<string>, na: string): (order: seq<string>)
    ensures Distinct(order)
    ensures forall l :: l in order <==> l in row && l != na
  {
    if row == [] then []
    else
      var last := |row| - 1;
      var prefix := FirstSeen(row[..last], na);
      var l := row[last];
      assert row == row[..last] + [l];
      if l == na || l in prefix then prefix else prefix + [l]
  }

  /** The position of a label in a sequence of labels. */
  function IndexOf(order: seq<string>, l: string): (i: nat)
    requires l in order
    ensures i < |order| && order[i] == l
    ensures forall j :: 0 <= j < i ==> order[j] != l
  {
    if order[0] == l then 0 else 1 + IndexOf(order[1..], l)
  }

  /** The code of a label of a row: its rank of first appearance, or the missing code. */
  function LabelCode(row: seq<string>, na: string, l: string): (r: int)
    requires l in row
    ensures r == MissingCode <==> l == na
    ensures l != na ==> 0 <= r < |FirstSeen(row, na)| && FirstSeen(row, na)[r] == l
  {
    if l == na then MissingCode else IndexOf(FirstSeen(row, na), l)
  }

  /**
   * The forward registry after a row's labels are registered in order:
   * a label already present keeps its code, a new one gets its position.
   */
  function Forward(fwd: map<string, int>, order: seq<string>): (m: map<string, int>)
    ensures m.Keys == fwd.Keys + set l | l in order
    ensures forall l :: l in fwd ==> m[l] == fwd[l]
  {
    if order == [] then fwd
    else
      var last := |order| - 1;
      var prefix := Forward(fwd, order[..last]);
      assert order == order[..last] + [order[last]];
      if order[last] in prefix then prefix else prefix[order[last] := last]
  }

  /** The reverse registry after a row's labels are registered: (code, row) maps to the label. */
  function Reverse(rev: map<(int, int), string>, order: seq<string>, row: int): (m: map<(int, int), string>)
    ensures forall i :: 0 <= i < |order| ==> (i, row) in m && m[(i, row)] == order[i]
    ensures forall k :: k in rev && (k.1 != row || !(0 <= k.0 < |order|)) ==> k in m && m[k] == rev[k]
    ensures forall k :: k in m ==> k in rev || (k.1 == row && 0 <= k.0 < |order|)
  {
    if order == [] then rev
    else
      var last := |order| - 1;
      Reverse(rev, order[..last], row)[(last, row) := order[last]]
  }

  /** Numbering a longer row extends the numbering of its prefix. */
  lemma {:induction false} FirstSeenPrefix(row: seq<string>, na: string, c: nat)
    requires c <= |row|
    ensures FirstSeen(row[..c], na) <= FirstSeen(row, na)
  {
    if c < |row| {
      var last := |row| - 1;
      assert row[..last][..c] == row[..c];
      FirstSeenPrefix(row[..last], na, c);
      var shorter, whole := FirstSeen(row[..last], na), FirstSeen(row, na);
      assert shorter <= whole;
      assert FirstSeen(row[..c], na) <= shorter;
    } else {
      assert row[..c] == row;
    }
  }

  /** A label keeps its position when labels are appended after it. */
  lemma IndexOfPrefix(order: seq<string>, longer: seq<string>, l: string)
    requires order <= longer && l in order
    ensures l in longer && IndexOf(longer, l) == IndexOf(order, l)
  {
    var i := IndexOf(order, l);
    assert longer[i] == l;
    var k := IndexOf(longer, l);
    assert k <= i;
    assert order[k] == l;
  }

  /**
   * The code of a label depends only on the part of the row up to it: it
   * is already fixed when the label first appears.
   */
  lemma LabelCodeOfPrefix(row: seq<string>, na: string, c: nat, l: string)
    requires c <= |row| && l in row[..c]
    ensures l in row && LabelCode(row[..c], na, l) == LabelCode(row, na, l)
  {
    assert l in row by {
      var i :| 0 <= i < c && row[..c][i] == l;
      assert row[i] == l;
    }
    if l != na {
      FirstSeenPrefix(row, na, c);
      IndexOfPrefix(FirstSeen(row[..c], na), FirstSeen(row, na), l);
    }
  }

  /**
   * Equal labels of a row get equal codes and distinct labels distinct
   * codes; the missing token alone gets the missing code.
   */
  lemma LabelCodesInjective(row: seq<string>, na: string, a: string, b: string)
    requires a in row && b in row && a != na && b != na
    ensures LabelCode(row, na, a) == LabelCode(row, na, b) <==> a == b
    ensures 0 <= LabelCode(row, na, a) < |FirstSeen(row, na)|
  {
    var order := FirstSeen(row, na);
    if IndexOf(order, a) == IndexOf(order, b) {
      assert order[IndexOf(order, a)] == a;
    }
  }

  /**
   * A label that appears for the first time at column c receives the next
   * unused code: the number of distinct labels seen before it.
   */
  lemma FirstAppearanceGetsNextCode(row: seq<string>, na: string, c: nat)
    requires c < |row| && row[c] != na && row[c] !in row[..c]
    ensures LabelCode(row, na, row[c]) == |FirstSeen(row[..c], na)|
  {
    var l := row[c];
    var before := FirstSeen(row[..c], na);
    assert row[..c + 1][..c] == row[..c];
    assert FirstSeen(row[..c + 1], na) == before + [l];
    assert l in row[..c + 1];
    LabelCodeOfPrefix(row, na, c + 1, l);
    assert IndexOf(before + [l], l) == |before| by {
      assert l !in before;
    }
  }

  /** The reverse registry returns the label of every code registered for the row. */
  lemma ReverseRoundTrip(rev: map<(int, int), string>, row: seq<string>, na: string, r: int, c: nat)
    requires c < |row| && row[c] != na
    ensures var m := Reverse(rev, FirstSeen(row, na), r);
      (LabelCode(row, na, row[c]), r) in m && m[(LabelCode(row, na, row[c]), r)] == row[c]
  {
    var order := FirstSeen(row, na);
    assert row[c] in order;
  }

  /**
   * The forward registry maps a label new to it to the label's code in the
   * row; a label it already held keeps its earlier code.
   */
  lemma {:induction false} ForwardCodes(fwd: map<string, int>, order: seq<string>, i: nat)
    requires Distinct(order) && i < |order|
    ensures order[i] in Forward(fwd, order)
    ensures order[i] !in fwd ==> Forward(fwd, order)[order[i]] == i
  {
    var last := |order| - 1;
    assert order == order[..last] + [order[last]];
    if i < last {
      ForwardCodes(fwd, order[..last], i);
      assert order[..last][i] == order[i];
    }
  }

  /** Reading one more sample extends the first-appearance order by that sample if it is new. */
  lemma FirstSeenStep(row: seq<string>, na: string, c: nat)
    requires c < |row|
    ensures FirstSeen(row[..c + 1], na) ==
      if row[c] == na || row[c] in FirstSeen(row[..c], na) then FirstSeen(row[..c], na)
      else FirstSeen(row[..c], na) + [row[c]]
  {
    assert row[..c + 1][..c] == row[..c];
  }

  /**
   * One step of numbering a row: the missing token gets the missing code;
   * a label already met keeps its position, a new one is appended; either
   * way the code found is the label's code in the whole row.
   */
  lemma NumberingStep(row: seq<string>, na: string, c: nat, order: seq<string>, order': seq<string>, code: int)
    requires c < |row| && order == FirstSeen(row[..c], na)
    requires row[c] == na ==> code == MissingCode && order' == order
    requires row[c] != na ==>
      && order' == (if row[c] in order then order else order + [row[c]])
      && row[c] in order' && code == IndexOf(order', row[c])
    ensures order' == FirstSeen(row[..c + 1], na)
    ensures code == LabelCode(row, na, row[c])
  {
    FirstSeenStep(row, na, c);
    var l := row[c];
    assert row[..c + 1][c] == l;
    assert code == LabelCode(row[..c + 1], na, l);
    LabelCodeOfPrefix(row, na, c + 1, l);
  }

  /** Registering one more label in the forward registry. */
  lemma ForwardStep(fwd: map<string, int>, order: seq<string>, l: string)
    ensures Forward(fwd, order + [l]) ==
      if l in Forward(fwd, order) then Forward(fwd, order) else Forward(fwd, order)[l := |order|]
  {
    assert (order + [l])[..|order|] == order;
  }

  /** Registering one more label in the reverse registry. */
  lemma ReverseStep(rev: map<(int, int), string>, order: seq<string>, l: string, row: int)
    ensures Reverse(rev, order + [l], row) == Reverse(rev, order, row)[(|order|, row) := l]
  {
    assert (order + [l])[..|order|] == order;
  }

  /** The row red, blue, red, green. */
  ghost predicate RedBlueRedGreen(row: seq<string>) {
    row == ["red", "blue", "red", "green"]
  }

  /** Reading one more label after a prefix of literals. */
  lemma FirstSeenSnoc(prefix: seq<string>, l: string, na: string)
    ensures FirstSeen(prefix + [l], na) ==
      if l == na || l in FirstSeen(prefix, na) then FirstSeen(prefix, na) else FirstSeen(prefix, na) + [l]
  {
    assert (prefix + [l])[..|prefix|] == prefix;
  }

  /** The row a, b, a, c built one element at a time. */
  lemma RepeatLiterals<T>(row: seq<T>, a: T, b: T, c: T)
    requires |row| == 4 && row[0] == a && row[1] == b && row[2] == a && row[3] == c
    ensures [] + [a] == [a] && [a] + [b] == [a, b] && [a, b] + [a] == [a, b, a]
    ensures row == [a, b, a] + [c]
  {
  }

  /** A row a, b of two distinct labels is numbered a 0, b 1, and so is a, b, a. */
  lemma FirstSeenOfPair(a: string, b: string, na: string)
    requires a != b && na != a && na != b
    ensures FirstSeen([a, b], na) == [a, b]
    ensures FirstSeen([a, b, a], na) == [a, b]
  {
    RepeatLiterals([a, b, a, a], a, b, a);
    FirstSeenSnoc([], a, na);
    FirstSeenSnoc([a], b, na);
    FirstSeenSnoc([a, b], a, na);
  }

  /** A row a, b, a, c of three distinct labels is numbered a 0, b 1, c 2. */
  lemma FirstSeenOfRepeat(row: seq<string>, a: string, b: string, c: string, na: string)
    requires |row| == 4 && row[0] == a && row[1] == b && row[2] == a && row[3] == c
    requires a != b && a != c && b != c && na != a && na != b && na != c
    ensures FirstSeen(row, na) == [a, b, c]
  {
    FirstSeenOfPair(a, b, na);
    RepeatLiterals(row, a, b, c);
    FirstSeenSnoc([a, b, a], c, na);
  }

  /** The row red, blue, red, green is numbered red 0, blue 1, green 2. */
  lemma RedBlueRedGreenOrder(row: seq<string>, na: string)
    requires RedBlueRedGreen(row) && na !in row
    ensures FirstSeen(row, na) == ["red", "blue", "green"]
  {
    FirstSeenOfRepeat(row, "red", "blue", "green", na);
  }

  /**
   * The row red, blue, red, green (with a missing token other than these
   * labels) is written as 0, 1, 0, 2, and the reverse registry maps
   * (0, row) back to red.
   */
  lemma RedBlueRedGreenCodes(row: seq<string>, na: string, r: int)
    requires RedBlueRedGreen(row) && na !in row
    ensures LabelCode(row, na, row[0]) == 0 && LabelCode(row, na, row[1]) == 1
    ensures LabelCode(row, na, row[2]) == 0 && LabelCode(row, na, row[3]) == 2
    ensures Reverse(map[], FirstSeen(row, na), r)[(0, r)] == "red"
  {
    RedBlueRedGreenOrder(row, na);
    var order := ["red", "blue", "green"];
    assert IndexOf(order, "blue") == 1;
    assert IndexOf(order, "green") == 2;
  }

  /** An empty forward registry becomes {red: 0, blue: 1, green: 2} for the row red, blue, red, green. */
  lemma RedBlueRedGreenForward(row: seq<string>, na: string)
    requires RedBlueRedGreen(row) && na !in row
    ensures Forward(map[], FirstSeen(row, na)) == map["red" := 0, "blue" := 1, "green" := 2]
  {
    RedBlueRedGreenOrder(row, na);
    var order := ["red", "blue", "green"];
    assert Forward(map[], ["red"]) == map["red" := 0] by {
      assert ["red"][..0] == [];
    }
    assert Forward(map[], ["red", "blue"]) == map["red" := 0, "blue" := 1] by {
      assert ["red", "blue"][..1] == ["red"];
    }
    assert order[..2] == ["red", "blue"];
  }

  /**
   * Because a reverse key carries the row, the same code can stand for
   * different labels in different rows.
   */
  lemma CodesReusedAcrossRows(rev: map<(int, int), string>, na: string)
    requires na != "red" && na != "blue"
    ensures LabelCode(["red"], na, "red") == LabelCode(["blue"], na, "blue") == 0
    ensures var m := Reverse(Reverse(rev, FirstSeen(["red"], na), 0), FirstSeen(["blue"], na), 1);
      m[(0, 0)] == "red" && m[(0, 1)] == "blue"
  {
    assert ["red"][..0] == [] && ["blue"][..0] == [];
    assert FirstSeen(["red"], na) == ["red"];
    assert FirstSeen(["blue"], na) == ["blue"];
  }
}
