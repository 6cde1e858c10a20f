/**
 * The metadata preparation script: keep the studies that have a centre
 * coordinate, compute each study's duration and turn every remaining row of
 * the metadata table into one study record (the records the dashboards later
 * read as `ctx.studies`).
 *
 * A cell that pandas reads as NaN is `None`.  Numeric columns are real
 * numbers; Python's `int()` on them truncates toward zero and fails on NaN,
 * which aborts the whole script before anything is written.
 */
module PrepareData {
  import opened Common

  datatype MetaRow = MetaRow(
    studyId: Option<real>,
    realm: Option<string>,
    climate: Option<string>,
    taxa: Option<string>,
    cenLatitude: Option<real>,
    cenLongitude: Option<real>,
    habitat: Option<string>,
    protectedArea: Option<string>,
    startYear: Option<real>,
    endYear: Option<real>,
    numberOfSpecies: Option<real>,
    numberOfSamples: Option<real>,
    abundanceType: Option<string>)

  /** One entry of the records list written out as JSON. */
  datatype StudyRecord = StudyRecord(
    studyId: int,
    realm: string,
    climate: string,
    taxa: string,
    lat: real,
    lon: real,
    habitat: string,
    protectedArea: string,
    startYear: int,
    endYear: int,
    duration: int,
    numberSpecies: int,
    numberSamples: int,
    abundanceType: string)

  /** Python's `int()` on a float: truncation toward zero. */
  function IntOf(x: real): (n: int)
    ensures x >= 0.0 ==> n as real <= x < n as real + 1.0
    ensures x < 0.0 ==> n as real - 1.0 < x <= n as real
  {
    if x >= 0.0 then x.Floor else -((-x).Floor)
  }

  /** Python's `str()` on a cell: a NaN cell prints as "nan". */
  function StrOf(c: Option<string>): string
  {
    match c
    case None => "nan"
    case Some(s) => s
  }

  /** The `dropna(subset=[CEN_LATITUDE, CEN_LONGITUDE])` row mask. */
  predicate HasCoordinates(row: MetaRow)
  {
    row.cenLatitude.Some? && row.cenLongitude.Some?
  }

  /** The rows left after dropping those without a centre coordinate. */
  function KeptRows(meta: seq<MetaRow>): (kept: seq<MetaRow>)
    ensures forall row :: row in kept <==> row in meta && HasCoordinates(row)
    ensures IsSubsequence(kept, meta)
    ensures forall i :: 0 <= i < |kept| ==> HasCoordinates(kept[i])
  {
    var kept := Filter(meta, HasCoordinates);
    assert forall i :: 0 <= i < |kept| ==> kept[i] in kept;
    kept
  }

  /** END_YEAR - START_YEAR + 1, computed on the float columns. */
  function Duration(row: MetaRow): Option<real>
  {
    if row.startYear.Some? && row.endYear.Some? then
      Some(row.endYear.value - row.startYear.value + 1.0)
    else None
  }

  /**
   * The record built for one kept row, or `None` when one of the `int()`
   * conversions meets a NaN (which raises in the script).
   */
  function ToRecord(row: MetaRow): (r: Option<StudyRecord>)
    requires HasCoordinates(row)
    ensures r.Some? <==>
      row.studyId.Some? && row.startYear.Some? && row.endYear.Some?
      && row.numberOfSpecies.Some? && row.numberOfSamples.Some?
    ensures r.Some? ==>
      r.value.lat == row.cenLatitude.value && r.value.lon == row.cenLongitude.value
  {
    if row.studyId.Some? && row.startYear.Some? && row.endYear.Some?
       && row.numberOfSpecies.Some? && row.numberOfSamples.Some?
    then
      Some(StudyRecord(
        IntOf(row.studyId.value),
        StrOf(row.realm),
        StrOf(row.climate),
        StrOf(row.taxa),
        row.cenLatitude.value,
        row.cenLongitude.value,
        StrOf(row.habitat),
        StrOf(row.protectedArea),
        IntOf(row.startYear.value),
        IntOf(row.endYear.value),
        IntOf(Duration(row).value),
        IntOf(row.numberOfSpecies.value),
        IntOf(row.numberOfSamples.value),
        StrOf(row.abundanceType)))
    else None
  }

  /**
   * The record-building loop.  On success there is one record per kept row,
   * in the same order; on failure the error is the position (among the kept
   * rows) of the first row whose integer conversion fails, and no records are
   * produced.
   */
  method PrepareStudies(meta: seq<MetaRow>) returns (result: Result<seq<StudyRecord>, nat>)
    ensures result.Success? <==>
      forall i :: 0 <= i < |KeptRows(meta)| ==> ToRecord(KeptRows(meta)[i]).Some?
    ensures result.Success? ==>
      |result.value| == |KeptRows(meta)|
      && forall i :: 0 <= i < |result.value| ==>
           result.value[i] == ToRecord(KeptRows(meta)[i]).value
    ensures result.Failure? ==>
      result.error < |KeptRows(meta)|
      && ToRecord(KeptRows(meta)[result.error]).None?
      && forall i :: 0 <= i < result.error ==> ToRecord(KeptRows(meta)[i]).Some?
  {
    var kept := KeptRows(meta);
    var records: seq<StudyRecord> := [];
    var i := 0;
    while i < |kept|
      invariant 0 <= i <= |kept|
      invariant |records| == i
      invariant forall j :: 0 <= j < i ==> ToRecord(kept[j]).Some?
      invariant forall j :: 0 <= j < i ==> records[j] == ToRecord(kept[j]).value
    {
      var rec := ToRecord(kept[i]);
      if rec.None? {
        return Failure(i);
      }
      records := records + [rec.value];
      i := i + 1;
    }
    result := Success(records);
  }

  /** A whole number survives `int()` unchanged. */
  lemma IntOfWhole(n: int)
    ensures IntOf(n as real) == n
  {
    if n < 0 {
      assert -(n as real) == (-n) as real;
    }
  }

  /** `int()` of a float is at least 1 exactly when the float is. */
  lemma IntOfAtLeastOne(x: real)
    ensures IntOf(x) >= 1 <==> x >= 1.0
  {
  }

  /** A study lasts at least one year exactly when it does not end before it starts. */
  lemma DurationAtLeastOne(row: MetaRow)
    requires HasCoordinates(row) && ToRecord(row).Some?
    ensures ToRecord(row).value.duration >= 1 <==> row.endYear.value >= row.startYear.value
  {
    IntOfAtLeastOne(row.endYear.value - row.startYear.value + 1.0);
  }

  /** With whole-number years, the record's years and duration are the integer ones. */
  lemma WholeYears(row: MetaRow, start: int, end: int)
    requires HasCoordinates(row) && ToRecord(row).Some?
    requires row.startYear == Some(start as real) && row.endYear == Some(end as real)
    ensures ToRecord(row).value.startYear == start
    ensures ToRecord(row).value.endYear == end
    ensures ToRecord(row).value.duration == end - start + 1
  {
    IntOfWhole(start);
    IntOfWhole(end);
    assert (end as real) - (start as real) + 1.0 == (end - start + 1) as real;
    IntOfWhole(end - start + 1);
  }
}
