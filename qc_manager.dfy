/** The QC manager filter (ufo/filters/QCmanager.cc): a borrowed nvars x nlocs flag matrix
    that it marks in place at construction and after H(x), and summarises at teardown. */
module QCFilter {
  import opened QCFlags
  import opened QCTally
  import opened QCReport

  /** What the manager reads from the observation space: the observed variables, the
      number of locations held by this process, and the observation values (ObsValue),
      one row per variable. */
  datatype ObsSpace = ObsSpace(variables: seq<string>, nlocs: nat, obsValue: seq<seq<Measure>>) {
    /** The value matrix is loaded with the dimensions of the space. */
    predicate Valid() {
      |obsValue| == |variables| && forall v :: 0 <= v < |obsValue| ==> |obsValue[v]| == nlocs
    }
  }

  /** The communicator as print uses it: this process's rank, and for each variable the
      counters contributed to the sum reduction by every other process. */
  datatype Comm = Comm(rank: nat, others: seq<seq<Tally>>)

  /** The construction assertions, in the order they are checked. */
  datatype Violation = NoFlags | NoErrors | FlagVariables | FlagLocations | ErrorVariables | ErrorLocations

  /** The first construction assertion that fails, if any: both handles present, and the
      flag and error matrices shaped nvars x nlocs. */
  function CheckConstruction(obsdb: ObsSpace, qcflags: array2?<int>, obserr: array2?<Measure>): (r: Option<Violation>)
    ensures r == None <==>
      qcflags != null && obserr != null
      && qcflags.Length0 == |obsdb.variables| && qcflags.Length1 == obsdb.nlocs
      && obserr.Length0 == |obsdb.variables| && obserr.Length1 == obsdb.nlocs
    ensures r == Some(NoFlags) <==> qcflags == null
    ensures r == Some(NoErrors) <==> qcflags != null && obserr == null
  {
    if qcflags == null then Some(NoFlags)
    else if obserr == null then Some(NoErrors)
    else if qcflags.Length0 != |obsdb.variables| then Some(FlagVariables)
    else if qcflags.Length1 != obsdb.nlocs then Some(FlagLocations)
    else if obserr.Length0 != |obsdb.variables| then Some(ErrorVariables)
    else if obserr.Length1 != obsdb.nlocs then Some(ErrorLocations)
    else None
  }

  /** Row `v` of a matrix: the values of variable `v` at every location. */
  ghost function RowOf<T>(a: array2<T>, v: nat): (r: seq<T>)
    requires v < a.Length0
    reads a
    ensures |r| == a.Length1
  {
    seq(a.Length1, l requires 0 <= l < a.Length1 reads a => a[v, l])
  }

  /** The constructor's missing-data pass over one variable. */
  function DetectRow(row: seq<int>, values: seq<Measure>, errors: seq<Measure>): (r: seq<int>)
    requires |values| == |row| && |errors| == |row|
    ensures |r| == |row|
    ensures forall l :: 0 <= l < |row| ==>
      (r[l] == MISSING <==>
         row[l] == MISSING || row[l] == IMISS || values[l] == MissingValue || errors[l] == MissingValue)
    ensures forall l :: 0 <= l < |row| && r[l] != MISSING ==> r[l] == row[l]
  {
    seq(|row|, l requires 0 <= l < |row| => AfterMissingCheck(row[l], values[l], errors[l]))
  }

  /** postFilter's pass over one variable, given that variable's H(x) values by location. */
  function MarkRow(row: seq<int>, hofx: seq<Measure>): (r: seq<int>)
    requires |hofx| == |row|
    ensures |r| == |row|
    ensures forall l :: 0 <= l < |row| ==>
      (r[l] != row[l] <==> row[l] == PASS && hofx[l] == MissingValue)
    ensures forall l :: 0 <= l < |row| && r[l] != row[l] ==> r[l] == HFAILED
  {
    seq(|row|, l requires 0 <= l < |row| => AfterHofx(row[l], hofx[l]))
  }

  /** Position of (location jobs, variable jv) in the H(x) vector: location varies slowly,
      variable fast, so the position determines the pair and stays inside the vector. */
  function HofxIndex(nvars: nat, nlocs: nat, jobs: nat, jv: nat): (i: nat)
    requires jobs < nlocs && jv < nvars
    ensures i < nvars * nlocs
    ensures i / nvars == jobs && i % nvars == jv
  {
    DivModOf(nvars, jobs, jv);
    BelowProduct(nvars, nlocs, jobs, jv);
    nvars * jobs + jv
  }

  lemma {:induction false} DivModOf(n: nat, q: nat, r: nat)
    requires r < n
    ensures (n * q + r) / n == q && (n * q + r) % n == r
  {
    var a := n * q + r;
    var d, m := a / n, a % n;
    assert a == n * d + m && 0 <= m < n;
    assert n * (q + 1) == n * q + n;
    assert n * (d + 1) == n * d + n;
    MulMono(n, q + 1, d);
    MulMono(n, d + 1, q);
  }

  lemma {:induction false} MulMono(n: nat, a: nat, b: nat)
    ensures a <= b ==> n * a <= n * b
  {
    if a < b {
      MulMono(n, a, b - 1);
      assert n * b == n * (b - 1) + n;
    }
  }

  lemma {:induction false} BelowProduct(n: nat, m: nat, q: nat, r: nat)
    requires q < m && r < n
    ensures n * q + r < n * m
  {
    assert n * q + r < n * q + n == n * (q + 1);
    assert n * (q + 1) <= n * m;
  }

  /** Every position of the H(x) vector is the position of exactly one cell. */
  lemma {:induction false} HofxIndexOnto(nvars: nat, nlocs: nat, i: nat)
    requires i < nvars * nlocs
    ensures i / nvars < nlocs && i % nvars < nvars
    ensures HofxIndex(nvars, nlocs, i / nvars, i % nvars) == i
  {
    assert nvars > 0;
    var q := i / nvars;
    assert i == nvars * q + i % nvars;
    MulMono(nvars, nlocs, q);
  }

  /** The H(x) values of variable `v`, by location. */
  function HofxColumn(hofx: seq<Measure>, nvars: nat, nlocs: nat, v: nat): (c: seq<Measure>)
    requires v < nvars && |hofx| == nvars * nlocs
    ensures |c| == nlocs
  {
    seq(nlocs, l requires 0 <= l < nlocs => hofx[HofxIndex(nvars, nlocs, l, v)])
  }

  /** The same column read with the two indices swapped (variable slow, location fast). */
  function SwappedColumn(hofx: seq<Measure>, nvars: nat, nlocs: nat, v: nat): (c: seq<Measure>)
    requires v < nvars && |hofx| == nvars * nlocs
    ensures |c| == nlocs
  {
    seq(nlocs, l requires 0 <= l < nlocs => (BelowProduct(nlocs, nvars, v, l); hofx[nlocs * v + l]))
  }

  /** A non-square example: 2 variables, 3 locations, H(x) missing at position 1 only. */
  const SwapExample: seq<Measure> := [Value(1.0), MissingValue, Value(1.0), Value(1.0), Value(1.0), Value(1.0)]

  /** On the example the missing H(x) at position 1 belongs to location 0 of variable 1,
      while the swapped ordering reads it as location 1 of variable 0. */
  lemma {:induction false} SwappedOrderReadsWrongCell()
    ensures HofxColumn(SwapExample, 2, 3, 0) == [Value(1.0), Value(1.0), Value(1.0)]
    ensures HofxColumn(SwapExample, 2, 3, 1) == [MissingValue, Value(1.0), Value(1.0)]
    ensures SwappedColumn(SwapExample, 2, 3, 0) == [Value(1.0), MissingValue, Value(1.0)]
  {
    ExampleColumn(0, [Value(1.0), Value(1.0), Value(1.0)]);
    ExampleColumn(1, [MissingValue, Value(1.0), Value(1.0)]);
    var sw := SwappedColumn(SwapExample, 2, 3, 0);
    assert sw[0] == Value(1.0) && sw[1] == MissingValue && sw[2] == Value(1.0);
  }

  lemma {:induction false} ExampleColumn(v: nat, expected: seq<Measure>)
    requires v < 2 && |expected| == 3
    requires forall l :: 0 <= l < 3 ==> expected[l] == SwapExample[2 * l + v]
    ensures HofxColumn(SwapExample, 2, 3, v) == expected
  {
    var c := HofxColumn(SwapExample, 2, 3, v);
    forall l | 0 <= l < 3 ensures c[l] == expected[l] {
      assert HofxIndex(2, 3, l, v) == 2 * l + v;
    }
  }

  /** So postFilter marks location 0 of variable 1, where the swapped ordering would mark
      location 1 of variable 0. */
  lemma {:induction false} SwappedOrderMarksWrongCell()
    ensures MarkRow([PASS, PASS, PASS], HofxColumn(SwapExample, 2, 3, 0)) == [PASS, PASS, PASS]
    ensures MarkRow([PASS, PASS, PASS], HofxColumn(SwapExample, 2, 3, 1)) == [HFAILED, PASS, PASS]
    ensures MarkRow([PASS, PASS, PASS], SwappedColumn(SwapExample, 2, 3, 0)) == [PASS, HFAILED, PASS]
  {
    SwappedOrderReadsWrongCell();
  }

  class QCmanager {
    /** The observed variables of the space (observed_). */
    const observed: seq<string>
    /** The number of locations on this process (obsdb_.nlocs()). */
    const nlocs: nat
    /** The borrowed flag matrix (flags_), nvars x nlocs. */
    const flags: array2<int>

    ghost predicate Valid() {
      flags.Length0 == |observed| && flags.Length1 == nlocs
    }

    /** Builds the manager over borrowed flag and error matrices and runs the missing-data
        pass: every cell whose flag is the integer sentinel or whose value or error is
        missing becomes `missing`; every other cell keeps its flag. */
    constructor (obsdb: ObsSpace, qcflags: array2?<int>, obserr: array2?<Measure>)
      requires obsdb.Valid()
      requires CheckConstruction(obsdb, qcflags, obserr) == None
      modifies qcflags
      ensures observed == obsdb.variables && nlocs == obsdb.nlocs && flags == qcflags
      ensures Valid()
      ensures forall v :: 0 <= v < |observed| ==>
        RowOf(flags, v) == DetectRow(old(RowOf(qcflags, v)), obsdb.obsValue[v], RowOf(obserr, v))
    {
      observed := obsdb.variables;
      nlocs := obsdb.nlocs;
      flags := qcflags;
      new;
      var obs := obsdb.obsValue;
      var jv := 0;
      while jv < |observed|
        invariant 0 <= jv <= |observed|
        invariant forall v, l :: 0 <= v < jv && 0 <= l < nlocs ==>
          qcflags[v, l] == AfterMissingCheck(old(qcflags[v, l]), obs[v][l], obserr[v, l])
        invariant forall v, l :: jv <= v < |observed| && 0 <= l < nlocs ==>
          qcflags[v, l] == old(qcflags[v, l])
      {
        var jobs := 0;
        while jobs < nlocs
          invariant 0 <= jobs <= nlocs
          invariant forall v, l :: 0 <= v < jv && 0 <= l < nlocs ==>
            qcflags[v, l] == AfterMissingCheck(old(qcflags[v, l]), obs[v][l], obserr[v, l])
          invariant forall l :: 0 <= l < jobs ==>
            qcflags[jv, l] == AfterMissingCheck(old(qcflags[jv, l]), obs[jv][l], obserr[jv, l])
          invariant forall v, l :: jv <= v < |observed| && 0 <= l < nlocs && (v != jv || jobs <= l) ==>
            qcflags[v, l] == old(qcflags[v, l])
        {
          if flags[jv, jobs] == IMISS || obs[jv][jobs] == MissingValue || obserr[jv, jobs] == MissingValue {
            flags[jv, jobs] := MISSING;
          }
          jobs := jobs + 1;
        }
        jv := jv + 1;
      }
      forall v | 0 <= v < |observed|
        ensures RowOf(flags, v) == DetectRow(old(RowOf(qcflags, v)), obsdb.obsValue[v], RowOf(obserr, v))
      {
        assert forall l :: 0 <= l < nlocs ==> old(RowOf(qcflags, v))[l] == old(qcflags[v, l]);
      }
    }

    /** postFilter: every passing cell whose H(x) value is missing becomes `Hfailed`; the
        H(x) value of location jobs, variable jv is at position nvars * jobs + jv. */
    method PostFilter(hofx: seq<Measure>)
      requires Valid() && |hofx| == |observed| * nlocs
      modifies flags
      ensures forall v :: 0 <= v < |observed| ==>
        RowOf(flags, v) == MarkRow(old(RowOf(flags, v)), HofxColumn(hofx, |observed|, nlocs, v))
    {
      var nvars := |observed|;
      var jv := 0;
      while jv < nvars
        invariant 0 <= jv <= nvars
        invariant forall v, l :: 0 <= v < jv && 0 <= l < nlocs ==>
          flags[v, l] == AfterHofx(old(flags[v, l]), hofx[HofxIndex(nvars, nlocs, l, v)])
        invariant forall v, l :: jv <= v < nvars && 0 <= l < nlocs ==> flags[v, l] == old(flags[v, l])
      {
        var jobs := 0;
        while jobs < nlocs
          invariant 0 <= jobs <= nlocs
          invariant forall v, l :: 0 <= v < jv && 0 <= l < nlocs ==>
            flags[v, l] == AfterHofx(old(flags[v, l]), hofx[HofxIndex(nvars, nlocs, l, v)])
          invariant forall l :: 0 <= l < jobs ==>
            flags[jv, l] == AfterHofx(old(flags[jv, l]), hofx[HofxIndex(nvars, nlocs, l, jv)])
          invariant forall v, l :: jv <= v < nvars && 0 <= l < nlocs && (v != jv || jobs <= l) ==>
            flags[v, l] == old(flags[v, l])
        {
          var iobs := HofxIndex(nvars, nlocs, jobs, jv);
          if flags[jv, jobs] == 0 && hofx[iobs] == MissingValue {
            flags[jv, jobs] := HFAILED;
          }
          jobs := jobs + 1;
        }
        jv := jv + 1;
      }
      forall v | 0 <= v < nvars
        ensures RowOf(flags, v) == MarkRow(old(RowOf(flags, v)), HofxColumn(hofx, nvars, nlocs, v))
      {
        assert forall l :: 0 <= l < nlocs ==> old(RowOf(flags, v))[l] == old(flags[v, l]);
      }
    }

    /** The counters of variable jj on this process: one scan over its locations. */
    method LocalTally(jj: nat) returns (t: Tally)
      requires Valid() && jj < |observed|
      ensures t == CountRow(RowOf(flags, jj), nlocs)
    {
      t := Empty(nlocs);
      ghost var row := RowOf(flags, jj);
      var jobs := 0;
      while jobs < nlocs
        invariant 0 <= jobs <= nlocs
        invariant t == CountRow(row[..jobs], nlocs)
      {
        var code := flags[jj, jobs];
        if code == PASS { t := t.(pass := t.pass + 1); }
        if code == MISSING { t := t.(missing := t.missing + 1); }
        if code == PRE_QC { t := t.(preQC := t.preQC + 1); }
        if code == BOUNDS { t := t.(bounds := t.bounds + 1); }
        if code == DOMAIN { t := t.(domain := t.domain + 1); }
        if code == BLACK { t := t.(black := t.black + 1); }
        if code == HFAILED { t := t.(hfailed := t.hfailed + 1); }
        if code == FGUESS { t := t.(fguess := t.fguess + 1); }
        if code == THINNED { t := t.(thinned := t.thinned + 1); }
        if code == GNSSRO_LOW || code == GNSSRO_HIGH { t := t.(gnss := t.gnss + 1); }
        assert row[..jobs + 1][..jobs] == row[..jobs];
        jobs := jobs + 1;
      }
      assert row[..nlocs] == row;
    }

    /** The flag matrix as one row per variable. */
    ghost function Rows(): (rows: seq<seq<int>>)
      requires Valid()
      reads flags
      ensures |rows| == |observed|
      ensures forall v :: 0 <= v < |observed| ==> rows[v] == RowOf(flags, v)
    {
      seq(|observed|, v requires 0 <= v < |observed| reads flags => RowOf(flags, v))
    }

    /** One variable's turn in print: scan this process's row, reduce over all processes,
        and the lines to write; `globals` names the reduced counters of every variable. */
    method ReportVariable(comm: Comm, jj: nat, ghost globals: seq<Tally>) returns (text: seq<Line>, conserved: bool)
      requires Valid() && |comm.others| == |observed| && jj < |observed|
      requires globals == Reduced(LocalTallies(Rows(), nlocs), comm)
      ensures text == Report(observed[jj], globals[jj], comm.rank == 0)
      ensures conserved == Conserves(globals[jj])
    {
      var local := LocalTally(jj);
      var global := Merge(local, AllReduce(comm.others[jj]));
      assert global == globals[jj];
      text := Report(observed[jj], global, comm.rank == 0);
      conserved := Conserves(global);
    }

    /** print, run by the destructor: for each variable in turn, scan, reduce, report
        on rank 0, then assert conservation. Returns the lines written and, when an
        assertion fails, the variable at which the run aborts. */
    method Print(comm: Comm) returns (lines: seq<Line>, failure: Option<nat>)
      requires Valid() && |comm.others| == |observed|
      ensures (lines, failure)
           == PrintRun(observed, Reduced(LocalTallies(Rows(), nlocs), comm), comm.rank == 0, |observed|)
    {
      ghost var globals := Reduced(LocalTallies(Rows(), nlocs), comm);
      lines := [];
      var jj := 0;
      while jj < |observed|
        invariant 0 <= jj <= |observed|
        invariant (lines, None) == PrintRun(observed, globals, comm.rank == 0, jj)
      {
        var text, conserved := ReportVariable(comm, jj, globals);
        lines := lines + text;
        if !conserved {
          PrintRunStops(observed, globals, comm.rank == 0, jj + 1, |observed|);
          return lines, Some(jj);
        }
        jj := jj + 1;
      }
      failure := None;
    }
  }

  /** The counters of every variable on this process, one scan per row. */
  function LocalTallies(rows: seq<seq<int>>, nlocs: nat): (ts: seq<Tally>)
    ensures |ts| == |rows|
    ensures forall v :: 0 <= v < |rows| ==> ts[v] == CountRow(rows[v], nlocs)
  {
    seq(|rows|, v requires 0 <= v < |rows| => CountRow(rows[v], nlocs))
  }

  /** The counters of every variable after the sum reduction: this process's counters
      merged with those of every other process. */
  function Reduced(locals: seq<Tally>, comm: Comm): (gs: seq<Tally>)
    requires |comm.others| == |locals|
    ensures |gs| == |locals|
    ensures forall v :: 0 <= v < |locals| ==> gs[v] == Merge(locals[v], AllReduce(comm.others[v]))
  {
    seq(|locals|, v requires 0 <= v < |locals| => Merge(locals[v], AllReduce(comm.others[v])))
  }

  /** When every process scans its own rows, the reduced counters of a variable are those
      of one scan over its locations on this process followed by those of every other
      process. */
  lemma {:induction false} ReducedCounts(rows: seq<seq<int>>, nlocs: nat, peers: seq<seq<seq<int>>>, rank: nat, v: nat)
    requires |peers| == |rows| && v < |rows|
    ensures var comm := Comm(rank, seq(|peers|, w requires 0 <= w < |peers| => PartitionTallies(peers[w])));
      Reduced(LocalTallies(rows, nlocs), comm)[v]
        == CountRow(rows[v] + Concat(peers[v]), nlocs + |Concat(peers[v])|)
  {
    AllReducePartitions(peers[v]);
    CountRowAppend(rows[v], Concat(peers[v]), nlocs, |Concat(peers[v])|);
  }

  /** What print does over the first n variables, given each variable's reduced
      counters: the lines written, and the variable whose conservation assertion fails
      first, after which nothing more is done. */
  function PrintRun(names: seq<string>, globals: seq<Tally>, coordinator: bool, n: nat): (seq<Line>, Option<nat>)
    requires n <= |names| && |globals| == |names|
  {
    if n == 0 then ([], None)
    else
      var (lines, failure) := PrintRun(names, globals, coordinator, n - 1);
      if failure.Some? then (lines, failure)
      else
        (lines + Report(names[n - 1], globals[n - 1], coordinator),
         if Conserves(globals[n - 1]) then None else Some(n - 1))
  }

  /** Once an assertion has failed, print does nothing more. */
  lemma {:induction false} PrintRunStops(names: seq<string>, globals: seq<Tally>, coordinator: bool, k: nat, n: nat)
    requires k <= n <= |names| && |globals| == |names|
    requires PrintRun(names, globals, coordinator, k).1.Some?
    ensures PrintRun(names, globals, coordinator, n) == PrintRun(names, globals, coordinator, k)
    decreases n
  {
    if n > k {
      PrintRunStops(names, globals, coordinator, k, n - 1);
    }
  }

  /** The run aborts where the first failing variable says, and the text written is the
      reports of every variable up to and including that one, or of all of them. */
  lemma {:induction false} PrintRunSplits(names: seq<string>, globals: seq<Tally>, coordinator: bool, n: nat)
    requires n <= |names| && |globals| == |names|
    ensures PrintRun(names, globals, coordinator, n).1 == FirstFailure(globals, n)
    ensures FirstFailure(globals, n) == None ==>
      PrintRun(names, globals, coordinator, n).0 == Reports(names, globals, coordinator, n)
    ensures FirstFailure(globals, n).Some? ==>
      FirstFailure(globals, n).value < n
      && PrintRun(names, globals, coordinator, n).0 == Reports(names, globals, coordinator, FirstFailure(globals, n).value + 1)
  {
    if n > 0 {
      PrintRunSplits(names, globals, coordinator, n - 1);
    }
  }

  /** The variable at which print aborts, looking at the first n variables: the first
      whose reduced counters fail the conservation assertion. */
  function FirstFailure(globals: seq<Tally>, n: nat): Option<nat>
    requires n <= |globals|
  {
    if n == 0 then None
    else if FirstFailure(globals, n - 1).Some? then FirstFailure(globals, n - 1)
    else if Conserves(globals[n - 1]) then None
    else Some(n - 1)
  }

  /** Print completes without a failed assertion exactly when the reduced counters of
      every variable add up to the reduced location count. */
  lemma {:induction false} PrintCompletes(globals: seq<Tally>, n: nat)
    requires n <= |globals|
    ensures FirstFailure(globals, n) == None <==> forall v :: 0 <= v < n ==> Conserves(globals[v])
  {
    if n > 0 {
      PrintCompletes(globals, n - 1);
    }
  }

  /** Print aborts at variable k exactly when k is the first variable whose reduced
      counters fail the conservation assertion. */
  lemma {:induction false} PrintFailsFirst(globals: seq<Tally>, n: nat, k: nat)
    requires n <= |globals|
    ensures FirstFailure(globals, n) == Some(k)
        <==> k < n && !Conserves(globals[k]) && forall v :: 0 <= v < k ==> Conserves(globals[v])
  {
    if n > 0 {
      PrintFailsFirst(globals, n - 1, k);
      PrintCompletes(globals, n - 1);
    }
  }

  /** The text print writes for the first m variables: their reports, one after the
      other. */
  function Reports(names: seq<string>, globals: seq<Tally>, coordinator: bool, m: nat): seq<Line>
    requires m <= |names| && |globals| == |names|
  {
    if m == 0 then []
    else Reports(names, globals, coordinator, m - 1) + Report(names[m - 1], globals[m - 1], coordinator)
  }

  /** Off rank 0 print writes nothing; on rank 0 every variable's report ends with its
      pass/total line, so the text holds one such line per reported variable. */
  lemma {:induction false} ReportsLines(names: seq<string>, globals: seq<Tally>, coordinator: bool, m: nat)
    requires m <= |names| && |globals| == |names|
    ensures !coordinator ==> Reports(names, globals, coordinator, m) == []
    ensures coordinator ==> PassedLines(Reports(names, globals, coordinator, m)) == m
  {
    if m > 0 {
      ReportsLines(names, globals, coordinator, m - 1);
      if coordinator {
        PassedLinesAppend(Reports(names, globals, coordinator, m - 1), Report(names[m - 1], globals[m - 1], true));
        ReportPassedOnce(names[m - 1], globals[m - 1]);
      }
    }
  }

  /** One variable's assertion, in terms of flags: it holds exactly when neither this
      process's row nor any other process's row of the variable holds a code that no
      bucket counts. */
  lemma {:induction false} VariableConservesIffKnown(row: seq<int>, peers: seq<seq<int>>)
    ensures Conserves(Merge(CountRow(row, |row|), AllReduce(PartitionTallies(peers))))
        <==> AllKnown(row) && forall p :: 0 <= p < |peers| ==> AllKnown(peers[p])
  {
    var a, b := CountRow(row, |row|), AllReduce(PartitionTallies(peers));
    SumCountRow(row, |row|);
    ConservesIffKnown(row);
    AllReducePartitions(peers);
    SumCountRow(Concat(peers), |Concat(peers)|);
    GlobalConservesIffKnown(peers);
    MergeConservesIff(a, b);
  }

  /** End to end: when every process holds rows of its own locations and contributes
      their counters to the reduction, print completes exactly when no process holds a flag
      outside the enumerated codes. */
  lemma {:induction false} PrintCompletesIffKnown(rows: seq<seq<int>>, nlocs: nat, peers: seq<seq<seq<int>>>, rank: nat)
    requires |peers| == |rows|
    requires forall v :: 0 <= v < |rows| ==> |rows[v]| == nlocs
    ensures var comm := Comm(rank, seq(|peers|, v requires 0 <= v < |peers| => PartitionTallies(peers[v])));
      FirstFailure(Reduced(LocalTallies(rows, nlocs), comm), |rows|) == None
      <==> forall v :: 0 <= v < |rows| ==>
             AllKnown(rows[v]) && forall p :: 0 <= p < |peers[v]| ==> AllKnown(peers[v][p])
  {
    var comm := Comm(rank, seq(|peers|, v requires 0 <= v < |peers| => PartitionTallies(peers[v])));
    var globals := Reduced(LocalTallies(rows, nlocs), comm);
    PrintCompletes(globals, |rows|);
    forall v | 0 <= v < |rows|
      ensures Conserves(globals[v])
          <==> AllKnown(rows[v]) && forall p :: 0 <= p < |peers[v]| ==> AllKnown(peers[v][p])
    {
      VariableConservesIffKnown(rows[v], peers[v]);
    }
  }

  /** Relabelling some cells of a row with one target code can only shrink the other
      buckets. */
  lemma {:induction false} RelabelShrinksOtherBuckets(row: seq<int>, r: seq<int>, target: int, nobs: nat, c: Category)
    requires |r| == |row|
    requires forall l :: 0 <= l < |row| ==> r[l] == row[l] || r[l] == target
    requires CategoryOf(target) != Some(c)
    ensures Bucket(CountRow(r, nobs), c) <= Bucket(CountRow(row, nobs), c)
  {
    if row != [] {
      var n := |row| - 1;
      RelabelShrinksOtherBuckets(row[..n], r[..n], target, nobs, c);
      BumpBucket(CountRow(row[..n], nobs), row[n], c);
      BumpBucket(CountRow(r[..n], nobs), r[n], c);
    }
  }

  /** After the missing-data pass no bucket but `missing` has grown, and the conservation
      assertion holds exactly when every cell was either a counted code, the integer
      sentinel, or had a missing value or error. */
  lemma {:induction false} DetectRowTally(row: seq<int>, values: seq<Measure>, errors: seq<Measure>)
    requires |values| == |row| && |errors| == |row|
    ensures var after := CountRow(DetectRow(row, values, errors), |row|);
      (forall c :: c != Missing ==> Bucket(after, c) <= Bucket(CountRow(row, |row|), c))
      && (Conserves(after) <==>
            forall l :: 0 <= l < |row| ==>
              Known(row[l]) || row[l] == IMISS || values[l] == MissingValue || errors[l] == MissingValue)
  {
    var r := DetectRow(row, values, errors);
    forall c | c != Missing
      ensures Bucket(CountRow(r, |row|), c) <= Bucket(CountRow(row, |row|), c)
    {
      RelabelShrinksOtherBuckets(row, r, MISSING, |row|, c);
    }
    ConservesIffKnown(r);
  }

  /** postFilter only moves cells from the pass bucket to the Hfailed bucket: the sum of
      the two is unchanged, every other bucket is unchanged, and so is conservation. */
  lemma {:induction false} MarkRowTally(row: seq<int>, hofx: seq<Measure>, nobs: nat)
    requires |hofx| == |row|
    ensures var before := CountRow(row, nobs);
      var after := CountRow(MarkRow(row, hofx), nobs);
      after.pass <= before.pass
      && after.pass + after.hfailed == before.pass + before.hfailed
      && after == before.(pass := after.pass, hfailed := after.hfailed)
      && Sum(after) == Sum(before)
  {
    if row != [] {
      var n := |row| - 1;
      assert MarkRow(row, hofx)[..n] == MarkRow(row[..n], hofx[..n]);
      MarkRowTally(row[..n], hofx[..n], nobs);
    }
  }

  /** Applying postFilter's rule a second time with the same H(x) changes nothing. */
  lemma {:induction false} MarkRowIdempotent(row: seq<int>, hofx: seq<Measure>)
    requires |hofx| == |row|
    ensures MarkRow(MarkRow(row, hofx), hofx) == MarkRow(row, hofx)
  {
  }

  /** Applying the missing-data rule a second time with the same inputs changes nothing. */
  lemma {:induction false} DetectRowIdempotent(row: seq<int>, values: seq<Measure>, errors: seq<Measure>)
    requires |values| == |row| && |errors| == |row|
    ensures DetectRow(DetectRow(row, values, errors), values, errors) == DetectRow(row, values, errors)
  {
  }

  /** One variable over five locations: values missing at location 2, errors at location
      4, H(x) missing at locations 1, 2 and 4. */
  lemma {:induction false} FiveLocationScenario()
    ensures var flags := DetectRow([PASS, PASS, PASS, PASS, PASS],
                                   [Value(1.0), Value(2.0), MissingValue, Value(4.0), Value(5.0)],
                                   [Value(0.1), Value(0.1), Value(0.1), Value(0.1), MissingValue]);
      flags == [PASS, PASS, MISSING, PASS, MISSING]
      && MarkRow(flags, [Value(1.0), MissingValue, MissingValue, Value(4.0), MissingValue])
           == [PASS, HFAILED, MISSING, PASS, MISSING]
      && CountRow([PASS, HFAILED, MISSING, PASS, MISSING], 5) == Empty(5).(pass := 2, missing := 2, hfailed := 1)
  {
    var row := [PASS, HFAILED, MISSING, PASS, MISSING];
    assert row[..1][..0] == [];
    assert CountRow(row[..1], 5) == Empty(5).(pass := 1);
    assert row[..2][..1] == row[..1];
    assert CountRow(row[..2], 5) == Empty(5).(pass := 1, hfailed := 1);
    assert row[..3][..2] == row[..2];
    assert CountRow(row[..3], 5) == Empty(5).(pass := 1, missing := 1, hfailed := 1);
    assert row[..4][..3] == row[..3];
    assert CountRow(row[..4], 5) == Empty(5).(pass := 2, missing := 1, hfailed := 1);
    assert row[..5] == row && row[..5][..4] == row[..4];
  }
}
