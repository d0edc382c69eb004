/** The per-variable tally of QCmanager::print: ten bucket counters and the location count,
    the cross-process sum reduction and the conservation law checked at the end. */
module QCTally {
  import opened QCFlags

  /** The counters of one variable: `nobs` is iobs, the others are the ten buckets. */
  datatype Tally = Tally(nobs: nat, pass: nat, missing: nat, preQC: nat, bounds: nat,
                         domain: nat, black: nat, hfailed: nat, fguess: nat, thinned: nat,
                         gnss: nat)

  /** The counters before the scan: iobs is the local location count, every bucket 0. */
  function Empty(nobs: nat): Tally {
    Tally(nobs, 0, 0, 0, 0, 0, 0, 0, 0, 0, 0)
  }

  /** The count held in the bucket of category `c`. */
  function Bucket(t: Tally, c: Category): nat {
    match c
    case Pass => t.pass
    case Missing => t.missing
    case PreQC => t.preQC
    case Bounds => t.bounds
    case Domain => t.domain
    case Black => t.black
    case HFailed => t.hfailed
    case FGuess => t.fguess
    case Thinned => t.thinned
    case Gnss => t.gnss
  }

  /** One step of the scan: the ten independent tests of the loop body, each incrementing
      its own counter. */
  function Bump(t: Tally, code: int): Tally {
    t.(pass := t.pass + (if code == PASS then 1 else 0),
       missing := t.missing + (if code == MISSING then 1 else 0),
       preQC := t.preQC + (if code == PRE_QC then 1 else 0),
       bounds := t.bounds + (if code == BOUNDS then 1 else 0),
       domain := t.domain + (if code == DOMAIN then 1 else 0),
       black := t.black + (if code == BLACK then 1 else 0),
       hfailed := t.hfailed + (if code == HFAILED then 1 else 0),
       fguess := t.fguess + (if code == FGUESS then 1 else 0),
       thinned := t.thinned + (if code == THINNED then 1 else 0),
       gnss := t.gnss + (if code == GNSSRO_LOW || code == GNSSRO_HIGH then 1 else 0))
  }

  /** The counters after scanning `row` from left to right, starting from Empty(nobs). */
  function CountRow(row: seq<int>, nobs: nat): Tally {
    if row == [] then Empty(nobs) else Bump(CountRow(row[..|row| - 1], nobs), row[|row| - 1])
  }

  /** The left-hand side of the conservation assertion: all ten buckets added up. */
  function Sum(t: Tally): nat {
    t.pass + t.missing + t.preQC + t.bounds + t.domain + t.black + t.hfailed + t.thinned
      + t.fguess + t.gnss
  }

  /** The conservation assertion of print. */
  predicate Conserves(t: Tally) {
    Sum(t) == t.nobs
  }

  /** Field-by-field sum of two processes' counters: one step of allReduceInPlace(sum). */
  function Merge(a: Tally, b: Tally): Tally {
    Tally(a.nobs + b.nobs, a.pass + b.pass, a.missing + b.missing, a.preQC + b.preQC,
          a.bounds + b.bounds, a.domain + b.domain, a.black + b.black, a.hfailed + b.hfailed,
          a.fguess + b.fguess, a.thinned + b.thinned, a.gnss + b.gnss)
  }

  /** The sum reduction over the counters of a sequence of processes. */
  function AllReduce(ts: seq<Tally>): Tally {
    if ts == [] then Empty(0) else Merge(AllReduce(ts[..|ts| - 1]), ts[|ts| - 1])
  }

  /** Number of entries of `row` equal to `code`. */
  function Occurrences(row: seq<int>, code: int): (n: nat)
    ensures n <= |row|
    ensures n == 0 <==> forall l :: 0 <= l < |row| ==> row[l] != code
  {
    if row == [] then 0
    else Occurrences(row[..|row| - 1], code) + (if row[|row| - 1] == code then 1 else 0)
  }

  /** Every entry of `row` is counted by some bucket. */
  predicate AllKnown(row: seq<int>) {
    forall l :: 0 <= l < |row| ==> Known(row[l])
  }

  /** Number of entries of `row` that no bucket counts. */
  function Unknown(row: seq<int>): (n: nat)
    ensures n <= |row|
    ensures n == 0 <==> AllKnown(row)
  {
    if row == [] then 0
    else Unknown(row[..|row| - 1]) + (if Known(row[|row| - 1]) then 0 else 1)
  }

  /** Concatenation of the rows held by several processes. */
  function Concat(parts: seq<seq<int>>): (r: seq<int>)
    ensures parts == [] ==> r == []
  {
    if parts == [] then [] else Concat(parts[..|parts| - 1]) + parts[|parts| - 1]
  }

  /** Each scan step increments exactly the bucket the code belongs to, and none when the
      code belongs to no bucket; the location count is not touched. */
  lemma {:induction false} BumpBucket(t: Tally, code: int, c: Category)
    ensures Bump(t, code).nobs == t.nobs
    ensures Bucket(Bump(t, code), c) == Bucket(t, c) + (if CategoryOf(code) == Some(c) then 1 else 0)
  {
  }

  lemma {:induction false} BumpSum(t: Tally, code: int)
    ensures Sum(Bump(t, code)) == Sum(t) + (if Known(code) then 1 else 0)
  {
    var b := Bump(t, code);
    if Known(code) {
      assert Sum(b) == Sum(t) + 1;
    } else {
      assert b == t;
    }
  }

  /** Every bucket of the scan holds the number of locations carrying its code (codes 76
      and 77 both in the GNSSRO bucket). */
  lemma {:induction false} CountRowCounts(row: seq<int>, nobs: nat)
    ensures CountRow(row, nobs).nobs == nobs
    ensures CountRow(row, nobs).pass == Occurrences(row, PASS)
    ensures CountRow(row, nobs).missing == Occurrences(row, MISSING)
    ensures CountRow(row, nobs).preQC == Occurrences(row, PRE_QC)
    ensures CountRow(row, nobs).bounds == Occurrences(row, BOUNDS)
    ensures CountRow(row, nobs).domain == Occurrences(row, DOMAIN)
    ensures CountRow(row, nobs).black == Occurrences(row, BLACK)
    ensures CountRow(row, nobs).hfailed == Occurrences(row, HFAILED)
    ensures CountRow(row, nobs).fguess == Occurrences(row, FGUESS)
    ensures CountRow(row, nobs).thinned == Occurrences(row, THINNED)
    ensures CountRow(row, nobs).gnss == Occurrences(row, GNSSRO_LOW) + Occurrences(row, GNSSRO_HIGH)
  {
    if row != [] {
      CountRowCounts(row[..|row| - 1], nobs);
    }
  }

  lemma {:induction false} BucketsBounded(row: seq<int>, nobs: nat, c: Category)
    ensures Bucket(CountRow(row, nobs), c) <= |row|
  {
    if row != [] {
      BucketsBounded(row[..|row| - 1], nobs, c);
      BumpBucket(CountRow(row[..|row| - 1], nobs), row[|row| - 1], c);
    }
  }

  /** The buckets of a scan add up to the number of scanned locations minus the locations
      whose code no bucket counts. */
  lemma {:induction false} SumCountRow(row: seq<int>, nobs: nat)
    ensures CountRow(row, nobs).nobs == nobs
    ensures Sum(CountRow(row, nobs)) + Unknown(row) == |row|
  {
    if row != [] {
      SumCountRow(row[..|row| - 1], nobs);
      BumpSum(CountRow(row[..|row| - 1], nobs), row[|row| - 1]);
    }
  }

  /** The conservation assertion holds for one process's scan exactly when every flag of
      the row is one of the enumerated codes. */
  lemma {:induction false} ConservesIffKnown(row: seq<int>)
    ensures Conserves(CountRow(row, |row|)) <==> AllKnown(row)
  {
    SumCountRow(row, |row|);
  }

  /** Merging adds the bucket sums and the location counts. */
  lemma {:induction false} MergeSum(a: Tally, b: Tally)
    ensures Sum(Merge(a, b)) == Sum(a) + Sum(b)
    ensures Merge(a, b).nobs == a.nobs + b.nobs
  {
  }

  /** Counters that never exceed their location count conserve when merged exactly when
      each of them conserves. */
  lemma {:induction false} MergeConservesIff(a: Tally, b: Tally)
    requires Sum(a) <= a.nobs && Sum(b) <= b.nobs
    ensures Conserves(Merge(a, b)) <==> Conserves(a) && Conserves(b)
  {
    MergeSum(a, b);
  }

  /** Scanning two consecutive stretches of locations and merging the counters is the
      same as scanning their concatenation. */
  lemma {:induction false} CountRowAppend(a: seq<int>, b: seq<int>, na: nat, nb: nat)
    ensures CountRow(a + b, na + nb) == Merge(CountRow(a, na), CountRow(b, nb))
  {
    if b == [] {
      assert a + b == a;
      CountRowShift(a, na, nb);
    } else {
      assert (a + b)[..|a + b| - 1] == a + b[..|b| - 1];
      CountRowAppend(a, b[..|b| - 1], na, nb);
    }
  }

  lemma {:induction false} CountRowShift(a: seq<int>, na: nat, nb: nat)
    ensures CountRow(a, na + nb) == Merge(CountRow(a, na), Empty(nb))
  {
    if a != [] {
      CountRowShift(a[..|a| - 1], na, nb);
    }
  }

  /** The counters of all processes, each scanning its own rows. */
  function PartitionTallies(parts: seq<seq<int>>): (ts: seq<Tally>)
    ensures |ts| == |parts|
    ensures forall p :: 0 <= p < |parts| ==> ts[p] == CountRow(parts[p], |parts[p]|)
  {
    if parts == [] then []
    else PartitionTallies(parts[..|parts| - 1]) + [CountRow(parts[|parts| - 1], |parts[|parts| - 1]|)]
  }

  /** The reduced counters of disjoint partitions equal the counters of one scan over all
      their locations. */
  lemma {:induction false} AllReducePartitions(parts: seq<seq<int>>)
    ensures AllReduce(PartitionTallies(parts)) == CountRow(Concat(parts), |Concat(parts)|)
  {
    if parts != [] {
      var init := parts[..|parts| - 1];
      var last := parts[|parts| - 1];
      AllReducePartitions(init);
      AllReduceSnoc(PartitionTallies(init), CountRow(last, |last|));
      CountRowAppend(Concat(init), last, |Concat(init)|, |last|);
    }
  }

  /** Adding one more process to the reduction merges its counters in. */
  lemma {:induction false} AllReduceSnoc(ts: seq<Tally>, t: Tally)
    ensures AllReduce(ts + [t]) == Merge(AllReduce(ts), t)
  {
    assert (ts + [t])[..|ts|] == ts;
  }

  /** If every process's counters pass the conservation assertion, so do the reduced ones. */
  lemma {:induction false} AllReduceConserves(ts: seq<Tally>)
    requires forall p :: 0 <= p < |ts| ==> Conserves(ts[p])
    ensures Conserves(AllReduce(ts))
  {
    if ts != [] {
      AllReduceConserves(ts[..|ts| - 1]);
      MergeSum(AllReduce(ts[..|ts| - 1]), ts[|ts| - 1]);
    }
  }

  lemma {:induction false} UnknownAppend(a: seq<int>, b: seq<int>)
    ensures Unknown(a + b) == Unknown(a) + Unknown(b)
  {
    if b == [] {
      assert a + b == a;
    } else {
      assert (a + b)[..|a + b| - 1] == a + b[..|b| - 1];
      UnknownAppend(a, b[..|b| - 1]);
    }
  }

  /** Global conservation after the reduction holds exactly when no process holds a flag
      that no bucket counts. */
  lemma {:induction false} GlobalConservesIffKnown(parts: seq<seq<int>>)
    ensures Conserves(AllReduce(PartitionTallies(parts)))
        <==> forall p :: 0 <= p < |parts| ==> AllKnown(parts[p])
  {
    AllReducePartitions(parts);
    ConservesIffKnown(Concat(parts));
    ConcatUnknown(parts);
  }

  lemma {:induction false} ConcatUnknown(parts: seq<seq<int>>)
    ensures Unknown(Concat(parts)) == 0
        <==> forall p :: 0 <= p < |parts| ==> AllKnown(parts[p])
  {
    if parts != [] {
      var init := parts[..|parts| - 1];
      var last := parts[|parts| - 1];
      ConcatUnknown(init);
      UnknownAppend(Concat(init), last);
      assert forall p :: 0 <= p < |init| ==> parts[p] == init[p];
    }
  }
}
