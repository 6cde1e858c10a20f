/**
 * The "active studies per year" timeline: the study records are turned into
 * year spans, and for every year from the earliest start to the latest end
 * a row counts, per realm, the studies running that year.
 *
 * The records come from the metadata preparation, whose years are integers,
 * so the `Number.isFinite` test of the timeline always passes for them and
 * only `end >= start` decides whether a record is kept.
 */
module StudyTimeline {
  import opened Common
  import opened PrepareData

  /** A parsed study: its first and last year and its realm. */
  datatype Span = Span(start: int, end: int, realm: string)

  /** One row of the stacked chart: a year and a count per realm key. */
  datatype YearRow = YearRow(year: int, counts: map<string, nat>)

  const UnknownRealm: string := "Unknown"

  /** The realms the chart knows, in stacking order. */
  const RealmOrder: seq<string> := ["Marine", "Terrestrial", "Freshwater", "Unknown"]

  /** `d.realm || "Unknown"`: the empty string is falsy. */
  function RealmOrUnknown(realm: string): (r: string)
    ensures r != ""
    ensures realm != "" ==> r == realm
  {
    if realm == "" then UnknownRealm else realm
  }

  function ToSpan(d: StudyRecord): Span
  {
    Span(d.startYear, d.endYear, RealmOrUnknown(d.realm))
  }

  predicate KeepsSpan(d: StudyRecord)
  {
    d.endYear >= d.startYear
  }

  /** The parse-and-keep step: a record is kept iff it does not end before it starts. */
  function ParseStudies(meta: seq<StudyRecord>): (spans: seq<Span>)
    ensures |spans| <= |meta|
    ensures forall i :: 0 <= i < |spans| ==> spans[i].start <= spans[i].end && spans[i].realm != ""
  {
    var kept := Filter(meta, KeepsSpan);
    assert forall i :: 0 <= i < |kept| ==> kept[i] in kept;
    seq(|kept|, i requires 0 <= i < |kept| => ToSpan(kept[i]))
  }

  /** Every record that does not end before it starts appears in the timeline. */
  lemma ParseStudiesKeeps(meta: seq<StudyRecord>, d: StudyRecord)
    requires d in meta && KeepsSpan(d)
    ensures ToSpan(d) in ParseStudies(meta)
  {
    var kept := Filter(meta, KeepsSpan);
    var i :| 0 <= i < |kept| && kept[i] == d;
    assert ParseStudies(meta)[i] == ToSpan(d);
  }

  /** Every span of the timeline comes from a record that does not end before it starts. */
  lemma ParseStudiesSound(meta: seq<StudyRecord>, sp: Span)
    requires sp in ParseStudies(meta)
    ensures exists d :: d in meta && KeepsSpan(d) && sp == ToSpan(d)
  {
    var kept := Filter(meta, KeepsSpan);
    var i :| 0 <= i < |kept| && ParseStudies(meta)[i] == sp;
    assert kept[i] in kept;
  }

  /** `d3.min(studies, d => d.start)`. */
  function MinStart(spans: seq<Span>): (m: int)
    requires spans != []
    ensures forall i :: 0 <= i < |spans| ==> m <= spans[i].start
    ensures exists i :: 0 <= i < |spans| && spans[i].start == m
  {
    if |spans| == 1 then spans[0].start
    else
      var m := MinStart(spans[1..]);
      assert forall i :: 1 <= i < |spans| ==> spans[1..][i - 1] == spans[i];
      if spans[0].start <= m then spans[0].start else m
  }

  /** `d3.max(studies, d => d.end)`. */
  function MaxEnd(spans: seq<Span>): (m: int)
    requires spans != []
    ensures forall i :: 0 <= i < |spans| ==> spans[i].end <= m
    ensures exists i :: 0 <= i < |spans| && spans[i].end == m
  {
    if |spans| == 1 then spans[0].end
    else
      var m := MaxEnd(spans[1..]);
      assert forall i :: 1 <= i < |spans| ==> spans[1..][i - 1] == spans[i];
      if spans[0].end >= m then spans[0].end else m
  }

  predicate HasRealm(spans: seq<Span>, r: string)
  {
    exists s :: s in spans && s.realm == r
  }

  /** The known realms that occur among the studies, in stacking order. */
  function PresentRealms(spans: seq<Span>): (realms: seq<string>)
    ensures forall r :: r in realms <==> r in RealmOrder && HasRealm(spans, r)
    ensures IsSubsequence(realms, RealmOrder)
  {
    Filter(RealmOrder, r => HasRealm(spans, r))
  }

  predicate Active(s: Span, y: int)
  {
    s.start <= y <= s.end
  }

  /** The number of studies of realm `realm` running in year `y`. */
  function ActiveCount(spans: seq<Span>, realm: string, y: int): (n: nat)
    ensures n <= |spans|
  {
    if spans == [] then 0
    else (if Active(spans[0], y) && spans[0].realm == realm then 1 else 0)
         + ActiveCount(spans[1..], realm, y)
  }

  lemma {:induction false} ActiveCountSnoc(spans: seq<Span>, s: Span, realm: string, y: int)
    ensures ActiveCount(spans + [s], realm, y)
         == ActiveCount(spans, realm, y) + (if Active(s, y) && s.realm == realm then 1 else 0)
  {
    if spans != [] {
      assert (spans + [s])[1..] == spans[1..] + [s];
      ActiveCountSnoc(spans[1..], s, realm, y);
    } else {
      assert [s][1..] == [];
    }
  }

  /**
   * What the row of year `y` holds: a key for every present known realm and
   * for every realm with a study running that year, and under each key the
   * number of studies of that realm running that year.
   */
  ghost predicate RowCounts(row: YearRow, spans: seq<Span>, realms: seq<string>, y: int)
  {
    row.year == y
    && (forall r :: r in row.counts <==> r in realms || ActiveCount(spans, r, y) > 0)
    && (forall r :: r in row.counts ==> row.counts[r] == ActiveCount(spans, r, y))
  }

  /** A realm has a positive count in year `y` exactly when one of its studies runs that year. */
  lemma {:induction false} ActiveCountPositive(spans: seq<Span>, r: string, y: int)
    ensures ActiveCount(spans, r, y) > 0 <==> exists s :: s in spans && Active(s, y) && s.realm == r
  {
    if spans != [] {
      ActiveCountPositive(spans[1..], r, y);
      assert forall s :: s in spans <==> s == spans[0] || s in spans[1..];
    }
  }

  /** The keys of the row of year `y`: the present known realms and the realms running that year. */
  function RowKeys(spans: seq<Span>, realms: seq<string>, y: int): set<string>
  {
    (set r | r in realms) + (set s | s in spans && Active(s, y) :: s.realm)
  }

  /** The row the chart should show for year `y`. */
  function ExpectedRow(spans: seq<Span>, realms: seq<string>, y: int): YearRow
  {
    YearRow(y, map r | r in RowKeys(spans, realms, y) :: ActiveCount(spans, r, y))
  }

  /** The expected row holds exactly the per-realm counts of running studies. */
  lemma ExpectedRowCounts(spans: seq<Span>, realms: seq<string>, y: int)
    ensures RowCounts(ExpectedRow(spans, realms, y), spans, realms, y)
  {
    forall r ensures r in RowKeys(spans, realms, y) <==> r in realms || ActiveCount(spans, r, y) > 0 {
      ActiveCountPositive(spans, r, y);
    }
  }

  /** The counts characterise a row completely: a row holding them is the expected row. */
  lemma RowCountsUnique(row: YearRow, spans: seq<Span>, realms: seq<string>, y: int)
    requires RowCounts(row, spans, realms, y)
    ensures row == ExpectedRow(spans, realms, y)
  {
    var e := ExpectedRow(spans, realms, y);
    ExpectedRowCounts(spans, realms, y);
    assert row.counts.Keys == e.counts.Keys;
  }

  /** One row of the chart: zero for every present realm, then one per running study. */
  method BuildYearRow(spans: seq<Span>, realms: seq<string>, y: int) returns (row: YearRow)
    ensures row == ExpectedRow(spans, realms, y)
  {    var counts: map<string, nat> := map[];
    for k := 0 to |realms|
      invariant forall r :: r in counts <==> r in realms[..k]
      invariant forall r :: r in counts ==> counts[r] == 0
    {
      counts := counts[realms[k] := 0];
      assert realms[..k + 1] == realms[..k] + [realms[k]];
    }
    assert realms[..|realms|] == realms;
    for j := 0 to |spans|
      invariant forall r :: r in counts <==> r in realms || ActiveCount(spans[..j], r, y) > 0
      invariant forall r :: r in counts ==> counts[r] == ActiveCount(spans[..j], r, y)
    {
      var s := spans[j];
      assert spans[..j + 1] == spans[..j] + [s];
      forall r ensures ActiveCount(spans[..j + 1], r, y)
                    == ActiveCount(spans[..j], r, y) + (if Active(s, y) && s.realm == r then 1 else 0) {
        ActiveCountSnoc(spans[..j], s, r, y);
      }
      if Active(s, y) {
        counts := counts[s.realm := (if s.realm in counts then counts[s.realm] else 0) + 1];
      }
    }
    assert spans[..|spans|] == spans;
    row := YearRow(y, counts);
    RowCountsUnique(row, spans, realms, y);
  }

  /** Row `i` of `rows` is the expected row of year `minYear + i`. */
  ghost predicate RowsFrom(rows: seq<YearRow>, spans: seq<Span>, realms: seq<string>, minYear: int)
  {
    forall i :: 0 <= i < |rows| ==> rows[i] == ExpectedRow(spans, realms, minYear + i)
  }

  /** The rows for the years `minYear .. maxYear`, in order. */
  method BuildRows(spans: seq<Span>, realms: seq<string>, minYear: int, maxYear: int)
    returns (rows: seq<YearRow>)
    requires minYear <= maxYear + 1
    ensures |rows| == maxYear - minYear + 1
    ensures RowsFrom(rows, spans, realms, minYear)
  {
    rows := [];
    var y := minYear;
    while y <= maxYear
      invariant minYear <= y <= maxYear + 1
      invariant |rows| == y - minYear
      invariant forall i :: 0 <= i < |rows| ==> rows[i] == ExpectedRow(spans, realms, minYear + i)
    {
      var row := BuildYearRow(spans, realms, y);
      rows := rows + [row];
      y := y + 1;
    }
  }

  /**
   * The timeline rows: one per year from the earliest start to the latest
   * end, in order, or none at all when no study is kept.
   */
  method BuildTimeline(meta: seq<StudyRecord>) returns (rows: seq<YearRow>)
    ensures ParseStudies(meta) == [] ==> rows == []
    ensures ParseStudies(meta) != [] ==>
      |rows| == MaxEnd(ParseStudies(meta)) - MinStart(ParseStudies(meta)) + 1
    ensures ParseStudies(meta) != [] ==>
      RowsFrom(rows, ParseStudies(meta), PresentRealms(ParseStudies(meta)), MinStart(ParseStudies(meta)))
  {
    var spans := ParseStudies(meta);
    if spans == [] {
      return [];
    }
    var minYear := MinStart(spans);
    var maxYear := MaxEnd(spans);
    assert minYear <= maxYear by {
      var i :| 0 <= i < |spans| && spans[i].start == minYear;
    }
    rows := BuildRows(spans, PresentRealms(spans), minYear, maxYear);
  }

  /** The number of years in `lo .. hi - 1` during which `s` runs. */
  function ActiveYears(s: Span, lo: int, hi: int): (n: nat)
    decreases hi - lo
  {
    if lo >= hi then 0 else (if Active(s, lo) then 1 else 0) + ActiveYears(s, lo + 1, hi)
  }

  /** A study inside the range is running in exactly `end - start + 1` of its years. */
  lemma {:induction false} ActiveYearsOfSpan(s: Span, lo: int, hi: int)
    requires lo <= s.start <= s.end < hi
    ensures ActiveYears(s, lo, hi) == s.end - s.start + 1
    decreases hi - lo
  {
    if lo < s.start {
      ActiveYearsOfSpan(s, lo + 1, hi);
    } else {
      ActiveYearsFrom(s, lo, hi);
    }
  }

  lemma {:induction false} ActiveYearsFrom(s: Span, lo: int, hi: int)
    requires s.start <= lo && lo <= s.end + 1 && s.end < hi
    ensures ActiveYears(s, lo, hi) == s.end - lo + 1
    decreases hi - lo
  {
    if lo <= s.end {
      ActiveYearsFrom(s, lo + 1, hi);
    } else {
      ActiveYearsNone(s, lo, hi);
    }
  }

  lemma {:induction false} ActiveYearsNone(s: Span, lo: int, hi: int)
    requires s.end < lo
    ensures ActiveYears(s, lo, hi) == 0
    decreases hi - lo
  {
    if lo < hi {
      ActiveYearsNone(s, lo + 1, hi);
    }
  }

  /**
   * Every kept study is counted in exactly `end - start + 1` rows of the
   * timeline (those of the years it runs), since the rows cover every year
   * from the earliest start to the latest end.
   */
  lemma EachStudyCountedPerYear(spans: seq<Span>, s: Span)
    requires s in spans
    requires forall i :: 0 <= i < |spans| ==> spans[i].start <= spans[i].end
    ensures ActiveYears(s, MinStart(spans), MaxEnd(spans) + 1) == s.end - s.start + 1
  {
    var i :| 0 <= i < |spans| && spans[i] == s;
    ActiveYearsOfSpan(s, MinStart(spans), MaxEnd(spans) + 1);
  }

  /** A running study contributes at least one to its realm's count that year. */
  lemma {:induction false} ActiveStudyIsCounted(spans: seq<Span>, s: Span, y: int)
    requires s in spans && Active(s, y)
    ensures ActiveCount(spans, s.realm, y) >= 1
  {
    if spans[0] != s {
      assert s in spans[1..];
      ActiveStudyIsCounted(spans[1..], s, y);
    }
  }
}
