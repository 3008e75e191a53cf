/**
 * ExpressionSet (gsea_api/expression_set.py): an expression matrix with one class label per
 * column, and the label and header logic of its GSEA file formats (.cls, and the head of .gct).
 */
module ExpressionData {
  import opened Wrappers
  import opened Text
  import opened SeqFacts

  /** A data frame: row labels, column labels, and rows of cells (None for a null cell). */
  datatype Frame = Frame(index: seq<string>, columns: seq<string>, cells: seq<seq<Option<real>>>)

  predicate WellFormed(f: Frame) {
    |f.cells| == |f.index| && forall r :: 0 <= r < |f.cells| ==> |f.cells[r]| == |f.columns|
  }

  datatype ExpressionSet = ExpressionSet(joined: Frame, classes: seq<string>)

  /** What every constructed expression set satisfies: one label per column. */
  predicate Valid(es: ExpressionSet) {
    WellFormed(es.joined) && |es.classes| == |es.joined.columns|
  }

  datatype ExpressionError =
    | ClassCountMismatch  // ValueError: Number of classes different from the number of columns
    | LabelAbsent         // the assertion of contrast

  /** ExpressionSet(data, classes) */
  function New(data: Frame, classes: seq<string>): (r: Result<ExpressionSet, ExpressionError>)
    ensures r.Failure? <==> |data.columns| != |classes|
    ensures r.Failure? ==> r.error == ClassCountMismatch
    ensures r.Success? ==> r.value.joined == data && r.value.classes == classes
    ensures r.Success? && WellFormed(data) ==> Valid(r.value)
  {
    if |data.columns| != |classes| then Failure(ClassCountMismatch) else Success(ExpressionSet(data, classes))
  }

  /** [x] * n */
  function Repeat(x: string, n: nat): (r: seq<string>)
    ensures |r| == n && forall i :: 0 <= i < n ==> r[i] == x
  {
    if n == 0 then [] else Repeat(x, n - 1) + [x]
  }

  /** The labels of from_cases_and_controls: the case name per case column, then the control name per control column. */
  function CaseControlLabels(cases: nat, controls: nat, caseName: string, controlName: string): (r: seq<string>)
    ensures |r| == cases + controls
    ensures forall i :: 0 <= i < cases ==> r[i] == caseName
    ensures forall i :: cases <= i < |r| ==> r[i] == controlName
  {
    Repeat(caseName, cases) + Repeat(controlName, controls)
  }

  /** Labels built for as many case and control columns as the joined data has are accepted. */
  lemma CaseControlLabelsFit(data: Frame, cases: nat, controls: nat, caseName: string, controlName: string)
    requires |data.columns| == cases + controls
    ensures New(data, CaseControlLabels(cases, controls, caseName, controlName)).Success?
  {
  }

  // ----- contrast -----

  /** The positions whose label is in `keep`, in increasing order: a boolean mask as positions. */
  function Positions(labels: seq<string>, keep: set<string>): (r: seq<nat>)
    ensures forall k :: 0 <= k < |r| ==> r[k] < |labels| && labels[r[k]] in keep
    ensures forall k, k' :: 0 <= k < k' < |r| ==> r[k] < r[k']
    ensures forall i :: 0 <= i < |labels| && labels[i] in keep ==> i in r
  {
    if |labels| == 0 then []
    else
      var p := Positions(labels[..|labels| - 1], keep);
      assert forall i :: 0 <= i < |labels| - 1 ==> labels[..|labels| - 1][i] == labels[i];
      p + (if labels[|labels| - 1] in keep then [|labels| - 1] else [])
  }

  function Pick<T>(s: seq<T>, positions: seq<nat>): (r: seq<T>)
    requires forall k :: 0 <= k < |positions| ==> positions[k] < |s|
    ensures |r| == |positions| && forall k :: 0 <= k < |r| ==> r[k] == s[positions[k]]
  {
    seq(|positions|, k requires 0 <= k < |positions| => s[positions[k]])
  }

  /** df[labels]: for each label in turn, every column carrying it (pandas selects by label). */
  function LabelColumns(columns: seq<string>, labels: seq<string>): (r: seq<nat>)
    ensures forall k :: 0 <= k < |r| ==> r[k] < |columns|
  {
    if |labels| == 0 then [] else Positions(columns, {labels[0]}) + LabelColumns(columns, labels[1..])
  }

  /** The frame restricted to the given column positions; the rows stay. */
  function SelectColumns(f: Frame, positions: seq<nat>): (r: Frame)
    requires WellFormed(f)
    requires forall k :: 0 <= k < |positions| ==> positions[k] < |f.columns|
    ensures WellFormed(r) && r.index == f.index && |r.columns| == |positions|
    ensures forall k :: 0 <= k < |positions| ==> r.columns[k] == f.columns[positions[k]]
    ensures forall i, k :: 0 <= i < |r.cells| && 0 <= k < |positions| ==> r.cells[i][k] == f.cells[i][positions[k]]
  {
    Frame(f.index, Pick(f.columns, positions),
          seq(|f.cells|, r requires 0 <= r < |f.cells| => Pick(f.cells[r], positions)))
  }

  /** contrast(case, control): the columns labelled case or control, with their labels. */
  function Contrast(es: ExpressionSet, caseLabel: string, controlLabel: string): (r: Result<ExpressionSet, ExpressionError>)
    requires Valid(es)
    ensures (caseLabel !in es.classes || controlLabel !in es.classes) ==> r == Failure(LabelAbsent)
  {
    if caseLabel !in es.classes || controlLabel !in es.classes then Failure(LabelAbsent)
    else
      var mask := Positions(es.classes, {caseLabel, controlLabel});
      var labels := Pick(es.joined.columns, mask);
      New(SelectColumns(es.joined, LabelColumns(es.joined.columns, labels)), Pick(es.classes, mask))
  }

  /** With distinct column labels, a label selects exactly its own column. */
  lemma LabelColumnsDistinct(columns: seq<string>, mask: seq<nat>)
    requires NoDuplicates(columns)
    requires forall k :: 0 <= k < |mask| ==> mask[k] < |columns|
    ensures LabelColumns(columns, Pick(columns, mask)) == mask
    decreases |mask|
  {
    if |mask| > 0 {
      var labels := Pick(columns, mask);
      PositionsOfDistinct(columns, mask[0]);
      assert labels[1..] == Pick(columns, mask[1..]);
      LabelColumnsDistinct(columns, mask[1..]);
    }
  }

  lemma {:induction false} PositionsNone(labels: seq<string>, keep: set<string>)
    requires forall i :: 0 <= i < |labels| ==> labels[i] !in keep
    ensures Positions(labels, keep) == []
    decreases |labels|
  {
    if |labels| > 0 {
      PositionsNone(labels[..|labels| - 1], keep);
    }
  }

  /** In distinct labels, a label occurs at its one position only. */
  lemma {:induction false} PositionsOfDistinct(labels: seq<string>, i: nat)
    requires NoDuplicates(labels) && i < |labels|
    ensures Positions(labels, {labels[i]}) == [i]
    decreases |labels|
  {
    var q, y := labels[..|labels| - 1], labels[|labels| - 1];
    if i == |labels| - 1 {
      forall k | 0 <= k < |q| ensures q[k] !in {y} {
        assert q[k] == labels[k];
      }
      PositionsNone(q, {y});
    } else {
      assert q[i] == labels[i];
      assert NoDuplicates(q) by {
        forall k, k' | 0 <= k < k' < |q| ensures q[k] != q[k'] {
          assert q[k] == labels[k] && q[k'] == labels[k'];
        }
      }
      PositionsOfDistinct(q, i);
      assert y != labels[i];
    }
  }

  /**
   * With distinct column labels, contrast keeps exactly the columns labelled case or control,
   * in order, with their labels, and every row.
   */
  lemma ContrastKeeps(es: ExpressionSet, caseLabel: string, controlLabel: string)
    requires Valid(es) && NoDuplicates(es.joined.columns)
    requires caseLabel in es.classes && controlLabel in es.classes
    ensures var r := Contrast(es, caseLabel, controlLabel);
      var mask := Positions(es.classes, {caseLabel, controlLabel});
      && r.Success? && Valid(r.value)
      && r.value.joined.index == es.joined.index
      && r.value.joined.columns == Pick(es.joined.columns, mask)
      && r.value.classes == Pick(es.classes, mask)
    ensures var r := Contrast(es, caseLabel, controlLabel);
      var mask := Positions(es.classes, {caseLabel, controlLabel});
      forall i, k :: 0 <= i < |es.joined.cells| && 0 <= k < |mask| ==>
        r.value.joined.cells[i][k] == es.joined.cells[i][mask[k]]
    ensures forall x :: x in Contrast(es, caseLabel, controlLabel).value.classes <==> x == caseLabel || x == controlLabel
  {
    var mask := Positions(es.classes, {caseLabel, controlLabel});
    LabelColumnsDistinct(es.joined.columns, mask);
    var selected := SelectColumns(es.joined, mask);
    var classes := Pick(es.classes, mask);
    assert Contrast(es, caseLabel, controlLabel) == New(selected, classes);
    ContrastLabels(es.classes, caseLabel, controlLabel);
  }

  /** The labels a contrast keeps are exactly the two asked for, when both occur. */
  lemma ContrastLabels(classes: seq<string>, caseLabel: string, controlLabel: string)
    requires caseLabel in classes && controlLabel in classes
    ensures var mask := Positions(classes, {caseLabel, controlLabel});
      forall x :: x in Pick(classes, mask) <==> x == caseLabel || x == controlLabel
  {
    var mask := Positions(classes, {caseLabel, controlLabel});
    var kept := Pick(classes, mask);
    forall x | x == caseLabel || x == controlLabel ensures x in kept {
      var i :| 0 <= i < |classes| && classes[i] == x;
      var k :| 0 <= k < |mask| && mask[k] == i;
      assert kept[k] == x;
    }
  }

  // ----- safe_classes and to_cls -----

  /** safe_classes: every label with its spaces replaced by underscores. */
  function SafeClasses(classes: seq<string>): (r: seq<string>)
    ensures |r| == |classes|
    ensures forall i :: 0 <= i < |r| ==> r[i] == ReplaceChar(classes[i], ' ', '_')
  {
    seq(|classes|, i requires 0 <= i < |classes| => ReplaceChar(classes[i], ' ', '_'))
  }

  /** The safe labels hold no space: each is one field of the space-separated .cls lines. */
  lemma SafeClassesHaveNoSpace(classes: seq<string>)
    ensures forall i :: 0 <= i < |classes| ==> ' ' !in SafeClasses(classes)[i]
  {
    forall i | 0 <= i < |classes| ensures ' ' !in SafeClasses(classes)[i] {
      var s := SafeClasses(classes)[i];
      assert forall k :: 0 <= k < |s| ==> s[k] != ' ';
    }
  }

  /**
   * The .cls label lines read back field by field: split on spaces, the last line gives every
   * safe label and the class line (after "# ") the distinct ones, because no safe label holds a space.
   */
  lemma ClsLinesSplit(classes: seq<string>)
    requires |classes| > 0
    ensures Split(Join(" ", SafeClasses(classes)), ' ') == SafeClasses(classes)
    ensures Split(Join(" ", FirstAppearances(SafeClasses(classes))), ' ') == FirstAppearances(SafeClasses(classes))
  {
    var safe := SafeClasses(classes);
    SafeClassesHaveNoSpace(classes);
    SplitJoin(safe, ' ');
    var distinct := FirstAppearances(safe);
    FirstAppearancesDistinct(safe);
    assert safe[0] in Elements(safe);
    forall i | 0 <= i < |distinct| ensures ' ' !in distinct[i] {
      assert distinct[i] in Elements(safe);
    }
    SplitJoin(distinct, ' ');
  }

  /** The distinct labels in order of first appearance. */
  function FirstAppearances(s: seq<string>): seq<string> {
    if |s| == 0 then []
    else
      var p := FirstAppearances(s[..|s| - 1]);
      if s[|s| - 1] in p then p else p + [s[|s| - 1]]
  }

  /** First appearances list every label once, no other, and so as many as there are distinct labels. */
  lemma {:induction false} FirstAppearancesDistinct(s: seq<string>)
    ensures NoDuplicates(FirstAppearances(s))
    ensures Elements(FirstAppearances(s)) == Elements(s)
    ensures |FirstAppearances(s)| == |Elements(s)|
  {
    if |s| > 0 {
      var p, x := s[..|s| - 1], s[|s| - 1];
      assert s == p + [x];
      FirstAppearancesDistinct(p);
      var q := FirstAppearances(p);
      assert Elements(s) == Elements(p) + {x};
      if x !in q {
        assert Elements(q + [x]) == Elements(q) + {x};
      }
    }
    CardElements(FirstAppearances(s));
  }

  /** First appearances keep the order in which the labels first occur. */
  lemma {:induction false} FirstAppearancesOrder(s: seq<string>, i: nat, j: nat)
    requires i < j < |FirstAppearances(s)|
    ensures exists a :: 0 <= a < |s| && s[a] == FirstAppearances(s)[i] && FirstAppearances(s)[j] !in s[..a + 1]
  {
    var p, x := s[..|s| - 1], s[|s| - 1];
    var q := FirstAppearances(p);
    FirstAppearancesDistinct(p);
    if j < |q| {
      FirstAppearancesOrder(p, i, j);
      var a :| 0 <= a < |p| && p[a] == q[i] && q[j] !in p[..a + 1];
      assert s[..a + 1] == p[..a + 1];
    } else {
      assert FirstAppearances(s) == q + [x] && x !in q;
      assert q[i] in Elements(q);
      var a :| 0 <= a < |p| && p[a] == q[i];
      assert x !in Elements(p);
      assert s[..a + 1] == p[..a + 1];
      assert x !in p[..a + 1] by {
        assert forall y :: y in p[..a + 1] ==> y in p;
      }
    }
  }

  /**
   * to_cls: the three writes of a GSEA categorical class file: the counts of labels and of
   * distinct labels, then '#' and the distinct labels, then all labels.
   */
  method ToCls(es: ExpressionSet) returns (written: seq<string>)
    ensures var safe := SafeClasses(es.classes);
      written == [
        NatToString(|safe|) + " " + NatToString(|Elements(safe)|) + " 1\n",
        "# " + Join(" ", FirstAppearances(safe)) + "\n",
        Join(" ", safe)]
  {
    var classes := SafeClasses(es.classes);
    written := [NatToString(|classes|) + " " + NatToString(|Elements(classes)|) + " 1\n"];
    var classesSet: seq<string> := [];
    for i := 0 to |classes|
      invariant classesSet == FirstAppearances(classes[..i])
    {
      assert classes[..i + 1][..i] == classes[..i];
      if classes[i] !in classesSet {
        classesSet := classesSet + [classes[i]];
      }
    }
    assert classes[..|classes|] == classes;
    written := written + ["# " + Join(" ", classesSet) + "\n"];
    written := written + [Join(" ", classes)];
  }

  /** The second line of to_cls names as many labels as the first line counts. */
  lemma ClsHeaderAgrees(classes: seq<string>)
    ensures |FirstAppearances(SafeClasses(classes))| == |Elements(SafeClasses(classes))|
    ensures NoDuplicates(FirstAppearances(SafeClasses(classes)))
  {
    FirstAppearancesDistinct(SafeClasses(classes));
  }

  // ----- to_gct -----

  predicate NoNulls(f: Frame) {
    forall r, c :: 0 <= r < |f.cells| && 0 <= c < |f.cells[r]| ==> f.cells[r][c].Some?
  }

  /**
   * The head of to_gct: '#1.2' is written before the null check fails; with no nulls, the
   * row and column counts follow, tab-separated. The table itself is not modelled.
   */
  method ToGctHeader(es: ExpressionSet) returns (written: seq<string>, ok: bool)
    ensures ok <==> NoNulls(es.joined)
    ensures ok ==> written == ["#1.2\n", NatToString(|es.joined.index|) + "\t" + NatToString(|es.joined.columns|) + "\n"]
    ensures !ok ==> written == ["#1.2\n"]
  {
    written := ["#1.2\n"];
    if !NoNulls(es.joined) {
      return written, false;
    }
    written := written + [NatToString(|es.joined.index|) + "\t" + NatToString(|es.joined.columns|) + "\n"];
    ok := true;
  }
}
