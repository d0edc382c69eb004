/** The summary lines that QCmanager::print writes for one variable on the coordinating
    process, as structured values instead of text. */
module QCReport {
  import opened QCFlags
  import opened QCTally

  /** One report line: a non-empty rejection bucket, or the closing "passed out of" line. */
  datatype Entry = Rejected(category: Category, count: nat) | Passed(pass: nat, total: nat)

  datatype Line = Line(variable: string, entry: Entry)

  /** The lines written for one variable from its reduced counters: nothing off the
      coordinating process; on it, one line per non-empty rejection bucket in a fixed order,
      then the pass/total line. */
  function Report(variable: string, t: Tally, coordinator: bool): seq<Line> {
    if !coordinator then []
    else Rejections(variable, t, PrintOrder, [Line(variable, Passed(t.pass, t.nobs))])
  }

  /** The rejection line of one bucket, written only when the bucket is not empty. */
  function LineIf(variable: string, c: Category, count: nat): seq<Line> {
    if count > 0 then [Line(variable, Rejected(c, count))] else []
  }

  /** The order in which the rejection buckets are reported. It differs from the order in
      which they are counted: thinning is reported before the first-guess check. */
  const PrintOrder: seq<Category> :=
    [Missing, PreQC, Bounds, Domain, Black, HFailed, Thinned, FGuess, Gnss]

  /** Position of a category in PrintOrder; Pass, which has no rejection line, comes last. */
  function PrintRank(c: Category): (k: nat)
    ensures k <= |PrintOrder|
    ensures k < |PrintOrder| ==> PrintOrder[k] == c
    ensures k == |PrintOrder| <==> c == Pass
  {
    match c
    case Missing => 0
    case PreQC => 1
    case Bounds => 2
    case Domain => 3
    case Black => 4
    case HFailed => 5
    case Thinned => 6
    case FGuess => 7
    case Gnss => 8
    case Pass => 9
  }

  /** A line that reports bucket `c` of `t` for `variable`, the bucket being non-empty. */
  predicate ReportsBucket(l: Line, variable: string, t: Tally, c: Category) {
    l == Line(variable, Rejected(c, Bucket(t, c))) && Bucket(t, c) > 0
  }

  /** Print rank of the category a line reports; the pass/total line ranks last. */
  function LineRank(l: Line): nat {
    if l.entry.Rejected? then PrintRank(l.entry.category) else |PrintOrder|
  }

  /** Every line of `r` reports a non-empty bucket, of a category listed in `order`. */
  predicate OnlyBucketsOf(r: seq<Line>, variable: string, t: Tally, order: seq<Category>) {
    forall i :: 0 <= i < |r| ==>
      r[i].entry.Rejected? && r[i].entry.category in order
      && ReportsBucket(r[i], variable, t, r[i].entry.category)
  }

  /** The lines of `r` are in strictly increasing print rank. */
  predicate InPrintOrder(r: seq<Line>) {
    forall i, j :: 0 <= i < j < |r| ==> LineRank(r[i]) < LineRank(r[j])
  }

  /** Reference definition: walk a list of categories and keep a line for each non-empty
      bucket, then append `tail`. */
  function Rejections(variable: string, t: Tally, order: seq<Category>, tail: seq<Line>): seq<Line> {
    if order == [] then tail
    else LineIf(variable, order[0], Bucket(t, order[0])) + Rejections(variable, t, order[1..], tail)
  }

  /** The walk ends with its tail. */
  lemma {:induction false} RejectionsTail(variable: string, t: Tally, order: seq<Category>, tail: seq<Line>)
    ensures Rejections(variable, t, order, tail) == Rejections(variable, t, order, []) + tail
  {
    if order != [] {
      RejectionsTail(variable, t, order[1..], tail);
    }
  }

  /** Every line of the walk reports a non-empty bucket of the list, with its count. */
  lemma {:induction false} RejectionsSound(variable: string, t: Tally, order: seq<Category>)
    ensures OnlyBucketsOf(Rejections(variable, t, order, []), variable, t, order)
  {
    if order != [] {
      var rest := order[1..];
      RejectionsSound(variable, t, rest);
      var head := LineIf(variable, order[0], Bucket(t, order[0]));
      var r' := Rejections(variable, t, rest, []);
      var r := head + r';
      forall i | 0 <= i < |r|
        ensures r[i].entry.Rejected? && r[i].entry.category in order
        ensures ReportsBucket(r[i], variable, t, r[i].entry.category)
      {
        if i >= |head| {
          assert r[i] == r'[i - |head|];
          assert r'[i - |head|].entry.Rejected?;
          assert r'[i - |head|].entry.category in rest;
        } else {
          assert Bucket(t, order[0]) > 0;
          assert r[i] == Line(variable, Rejected(order[0], Bucket(t, order[0])));
        }
      }
    }
  }

  /** Every non-empty bucket of the list is reported by the walk. */
  lemma {:induction false} RejectionsComplete(variable: string, t: Tally, order: seq<Category>, c: Category)
    requires c in order && Bucket(t, c) > 0
    ensures Line(variable, Rejected(c, Bucket(t, c))) in Rejections(variable, t, order, [])
  {
    if order[0] != c {
      RejectionsComplete(variable, t, order[1..], c);
    }
  }

  /** Over a list in increasing print rank, the walk's lines are in increasing print rank. */
  lemma {:induction false} RejectionsOrdered(variable: string, t: Tally, order: seq<Category>)
    requires forall i, j :: 0 <= i < j < |order| ==> PrintRank(order[i]) < PrintRank(order[j])
    ensures InPrintOrder(Rejections(variable, t, order, []))
  {
    if order != [] {
      var rest := order[1..];
      RejectionsOrdered(variable, t, rest);
      RejectionsSound(variable, t, rest);
      var head := LineIf(variable, order[0], Bucket(t, order[0]));
      var r' := Rejections(variable, t, rest, []);
      var r := head + r';
      forall j | 0 <= j < |r'|
        ensures PrintRank(order[0]) < LineRank(r'[j])
      {
        var k :| 0 <= k < |rest| && rest[k] == r'[j].entry.category;
        assert rest[k] == order[k + 1];
      }
      forall i, j | 0 <= i < j < |r|
        ensures LineRank(r[i]) < LineRank(r[j])
      {
        if i >= |head| {
          assert r[i] == r'[i - |head|] && r[j] == r'[j - |head|];
        } else {
          assert r[j] == r'[j - |head|];
        }
      }
    }
  }

  /** The coordinator's report is the walk over PrintOrder followed by the pass/total line. */
  lemma {:induction false} ReportSplits(variable: string, t: Tally)
    ensures Report(variable, t, true)
         == Rejections(variable, t, PrintOrder, []) + [Line(variable, Passed(t.pass, t.nobs))]
  {
    RejectionsTail(variable, t, PrintOrder, [Line(variable, Passed(t.pass, t.nobs))]);
  }

  /** PrintOrder lists every category but Pass, in increasing print rank. */
  lemma {:induction false} PrintOrderRanked()
    ensures forall i, j :: 0 <= i < j < |PrintOrder| ==> PrintRank(PrintOrder[i]) < PrintRank(PrintOrder[j])
    ensures forall c :: c != Pass <==> c in PrintOrder
  {
    forall i, j | 0 <= i < j < |PrintOrder|
      ensures PrintRank(PrintOrder[i]) < PrintRank(PrintOrder[j])
    {
      assert PrintRank(PrintOrder[i]) == i && PrintRank(PrintOrder[j]) == j;
    }
    forall c | c != Pass ensures c in PrintOrder {
      assert PrintOrder[PrintRank(c)] == c;
    }
  }

  /** Over PrintOrder, the walk reports exactly the non-empty buckets. */
  lemma {:induction false} RejectionsExact(variable: string, t: Tally, c: Category)
    requires c != Pass
    ensures Bucket(t, c) > 0
        <==> Line(variable, Rejected(c, Bucket(t, c))) in Rejections(variable, t, PrintOrder, [])
  {
    PrintOrderRanked();
    RejectionsSound(variable, t, PrintOrder);
    if Bucket(t, c) > 0 {
      RejectionsComplete(variable, t, PrintOrder, c);
    }
  }

  /** The shape of the report: empty off the coordinator; on it, the last line is
      "<pass> passed out of <total>", every earlier line reports a non-empty rejection
      bucket with its count, each such bucket is reported, and in the print order. */
  lemma {:induction false} ReportShape(variable: string, t: Tally, coordinator: bool)
    ensures !coordinator ==> Report(variable, t, coordinator) == []
    ensures coordinator ==>
      var r := Report(variable, t, coordinator);
      |r| >= 1 && r[|r| - 1] == Line(variable, Passed(t.pass, t.nobs))
      && (forall i :: 0 <= i < |r| - 1 ==>
            r[i].variable == variable && r[i].entry.Rejected?
            && r[i].entry.category != Pass
            && r[i].entry.count == Bucket(t, r[i].entry.category) > 0)
      && (forall c :: c != Pass ==>
            (Bucket(t, c) > 0 <==> Line(variable, Rejected(c, Bucket(t, c))) in r[..|r| - 1]))
      && (forall i, j :: 0 <= i < j < |r| - 1 ==>
            PrintRank(r[i].entry.category) < PrintRank(r[j].entry.category))
  {
    if coordinator {
      var rej := Rejections(variable, t, PrintOrder, []);
      var r := Report(variable, t, coordinator);
      ReportSplits(variable, t);
      assert r[..|r| - 1] == rej;
      PrintOrderRanked();
      RejectionsSound(variable, t, PrintOrder);
      RejectionsOrdered(variable, t, PrintOrder);
      forall c | c != Pass
        ensures Bucket(t, c) > 0 <==> Line(variable, Rejected(c, Bucket(t, c))) in rej
      {
        RejectionsExact(variable, t, c);
      }
      forall i | 0 <= i < |r| - 1
        ensures r[i].variable == variable && r[i].entry.Rejected? && r[i].entry.category != Pass
        ensures r[i].entry.count == Bucket(t, r[i].entry.category) > 0
      {
        assert r[i] == rej[i];
        assert ReportsBucket(rej[i], variable, t, rej[i].entry.category);
      }
      forall i, j | 0 <= i < j < |r| - 1
        ensures PrintRank(r[i].entry.category) < PrintRank(r[j].entry.category)
      {
        assert r[i] == rej[i] && r[j] == rej[j];
        assert LineRank(rej[i]) < LineRank(rej[j]);
      }
    }
  }

  /** The number of pass/total lines in a text. */
  function PassedLines(r: seq<Line>): nat {
    if r == [] then 0
    else PassedLines(r[..|r| - 1]) + (if r[|r| - 1].entry.Passed? then 1 else 0)
  }

  lemma {:induction false} PassedLinesAppend(a: seq<Line>, b: seq<Line>)
    ensures PassedLines(a + b) == PassedLines(a) + PassedLines(b)
  {
    if b == [] {
      assert a + b == a;
    } else {
      assert (a + b)[..|a + b| - 1] == a + b[..|b| - 1];
      PassedLinesAppend(a, b[..|b| - 1]);
    }
  }

  lemma {:induction false} NoPassedLines(r: seq<Line>)
    requires forall i :: 0 <= i < |r| ==> r[i].entry.Rejected?
    ensures PassedLines(r) == 0
  {
    if r != [] {
      NoPassedLines(r[..|r| - 1]);
    }
  }

  /** The coordinator's report of one variable holds exactly one pass/total line. */
  lemma {:induction false} ReportPassedOnce(variable: string, t: Tally)
    ensures PassedLines(Report(variable, t, true)) == 1
  {
    var tail := [Line(variable, Passed(t.pass, t.nobs))];
    var rej := Rejections(variable, t, PrintOrder, []);
    RejectionsTail(variable, t, PrintOrder, tail);
    RejectionsSound(variable, t, PrintOrder);
    NoPassedLines(rej);
    PassedLinesAppend(rej, tail);
    assert tail[..0] == [];
  }
}
