/** Quality-control flag codes, the missing-value sentinels and the two per-cell rules
    that the QC manager applies to a flag (ufo/filters/QCmanager.cc). */
module QCFlags {

  datatype Option<+T> = None | Some(value: T)

  /** An observation value, observation error or H(x) value. The manager only ever compares
      these with the floating-point missing sentinel, so they carry no arithmetic. */
  datatype Measure = MissingValue | Value(x: real)

  // The QC flag codes. The header that defines them (ufo/filters/QCflags.h) is not part of
  // this model: the values below are distinct placeholders, with pass = 0 because
  // postFilter tests a flag against the literal 0 where print uses QCflags::pass.
  const PASS: int := 0
  const MISSING: int := 1
  const PRE_QC: int := 2
  const BOUNDS: int := 3
  const DOMAIN: int := 4
  const BLACK: int := 5
  const HFAILED: int := 6
  const THINNED: int := 7
  const FGUESS: int := 10
  /** The two raw codes of the GNSSRO reality check, reported as one bucket. */
  const GNSSRO_LOW: int := 76
  const GNSSRO_HIGH: int := 77

  /** The integer missing-value sentinel (util::missingValue for int). */
  const IMISS: int := -2147483647

  /** The ten reporting buckets of the summary. */
  datatype Category = Pass | Missing | PreQC | Bounds | Domain | Black | HFailed | FGuess | Thinned | Gnss

  /** The bucket a code is counted in, or None for a code that no bucket counts. */
  function CategoryOf(code: int): (c: Option<Category>)
    ensures c == Some(Pass) <==> code == PASS
    ensures c == Some(Missing) <==> code == MISSING
    ensures c == Some(HFailed) <==> code == HFAILED
    ensures c == Some(Gnss) <==> code == GNSSRO_LOW || code == GNSSRO_HIGH
    ensures code == IMISS ==> c == None
  {
    if code == PASS then Some(Pass)
    else if code == MISSING then Some(Missing)
    else if code == PRE_QC then Some(PreQC)
    else if code == BOUNDS then Some(Bounds)
    else if code == DOMAIN then Some(Domain)
    else if code == BLACK then Some(Black)
    else if code == HFAILED then Some(HFailed)
    else if code == FGUESS then Some(FGuess)
    else if code == THINNED then Some(Thinned)
    else if code == GNSSRO_LOW || code == GNSSRO_HIGH then Some(Gnss)
    else None
  }

  /** A code the summary counts in one of its buckets. */
  predicate Known(code: int) {
    CategoryOf(code).Some?
  }

  /** Missing-data rule of the constructor: a cell becomes `missing` when its flag is the
      integer sentinel or its value or error is the missing sentinel; otherwise it keeps
      whatever flag it had. */
  function AfterMissingCheck(flag: int, obs: Measure, err: Measure): int {
    if flag == IMISS || obs == MissingValue || err == MissingValue then MISSING else flag
  }

  /** Rule of postFilter: a passing cell whose H(x) is missing becomes `Hfailed`. */
  function AfterHofx(flag: int, hofx: Measure): int {
    if flag == 0 && hofx == MissingValue then HFAILED else flag
  }
}
