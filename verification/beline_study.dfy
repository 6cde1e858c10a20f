/**
 * The per-study map view: the registry of studies built from the study list,
 * the load-once cache of each study's samples, the year filter of the map and
 * the play/pause year animation.
 *
 * File contents arrive as parameters: the study list as its rows, and a
 * study's sample file as the parsed rows or the error the fetch failed with.
 * `+x` on a CSV field gives `None` where JavaScript would give NaN.
 */
module BelineStudy {
  import opened Common

  /** One row of the study list; a missing column reads as the empty string. */
  datatype ListRow = ListRow(studyId: string, filePath: string, studyName: string)

  /** A registry entry: where the samples are, the cached samples (null until loaded) and the display name. */
  datatype StudyConfig = StudyConfig(filePath: string, data: Option<seq<Sample>>, name: string)

  /** An entry of the study selector. */
  datatype MenuOption = MenuOption(value: string, text: string)

  /** One parsed sample row of a study file. */
  datatype Sample = Sample(
    abundance: Option<real>,
    latitude: Option<real>,
    longitude: Option<real>,
    year: Option<int>,
    validName: string,
    studyId: Option<int>,
    rawId: string)

  const DefaultNamePrefix: string := "Étude "

  // ---------------------------------------------------------------------
  // The study registry
  // ---------------------------------------------------------------------

  /** A list row is registered iff it has both an id and a file path (empty strings are falsy). */
  predicate Registers(d: ListRow)
  {
    d.studyId != "" && d.filePath != ""
  }

  /** `d.STUDY_NAME || "Étude " + id`. */
  function DisplayName(d: ListRow): string
  {
    if d.studyName != "" then d.studyName else DefaultNamePrefix + d.studyId
  }

  function EntryFor(d: ListRow): StudyConfig
  {
    StudyConfig(d.filePath, None, DisplayName(d))
  }

  /** The registry after the rows, processed in order; a later row with the same id wins. */
  function Registry(rows: seq<ListRow>): map<string, StudyConfig>
  {
    if rows == [] then map[]
    else
      var d := rows[|rows| - 1];
      var before := Registry(rows[..|rows| - 1]);
      if Registers(d) then before[d.studyId := EntryFor(d)] else before
  }

  /** The selector entries, one per registered row, in order. */
  function Menu(rows: seq<ListRow>): seq<MenuOption>
  {
    if rows == [] then []
    else
      var d := rows[|rows| - 1];
      Menu(rows[..|rows| - 1]) + (if Registers(d) then [MenuOption(d.studyId, DisplayName(d))] else [])
  }

  /** Reading the study list: fill the registry and the (emptied) selector row by row. */
  method LoadStudyList(rows: seq<ListRow>) returns (config: map<string, StudyConfig>, options: seq<MenuOption>)
    ensures config == Registry(rows)
    ensures options == Menu(rows)
  {
    config := map[];
    options := [];
    for i := 0 to |rows|
      invariant config == Registry(rows[..i])
      invariant options == Menu(rows[..i])
    {
      var d := rows[i];
      assert rows[..i + 1][..i] == rows[..i];
      if d.studyId != "" && d.filePath != "" {
        config := config[d.studyId := StudyConfig(d.filePath, None, DisplayName(d))];
        options := options + [MenuOption(d.studyId, DisplayName(d))];
      }
    }
    assert rows[..|rows|] == rows;
  }

  /** An id is registered iff some row with that id has both an id and a file path. */
  lemma {:induction false} RegistryKeys(rows: seq<ListRow>, id: string)
    ensures id in Registry(rows) <==> exists i :: 0 <= i < |rows| && Registers(rows[i]) && rows[i].studyId == id
  {
    if rows != [] {
      var n := |rows| - 1;
      RegistryKeys(rows[..n], id);
      assert forall i :: 0 <= i < n ==> rows[..n][i] == rows[i];
    }
  }

  /**
   * The entry of an id is built from the LAST registered row with that id,
   * with no data loaded.
   */
  lemma {:induction false} RegistryLastWins(rows: seq<ListRow>, i: nat)
    requires i < |rows| && Registers(rows[i])
    requires forall j :: i < j < |rows| ==> !(Registers(rows[j]) && rows[j].studyId == rows[i].studyId)
    ensures rows[i].studyId in Registry(rows)
    ensures Registry(rows)[rows[i].studyId] == EntryFor(rows[i])
  {
    var n := |rows| - 1;
    if i < n {
      assert rows[..n][i] == rows[i];
      assert forall j :: i < j < n ==> rows[..n][j] == rows[j];
      RegistryLastWins(rows[..n], i);
    }
  }

  /** No entry of a fresh registry holds data. */
  lemma {:induction false} RegistryUnloaded(rows: seq<ListRow>)
    ensures forall id :: id in Registry(rows) ==> Registry(rows)[id].data.None?
  {
    if rows != [] {
      RegistryUnloaded(rows[..|rows| - 1]);
    }
  }

  /** One selector entry per registered row, each pointing at a registered id. */
  lemma {:induction false} MenuMatchesRegistry(rows: seq<ListRow>)
    ensures |Menu(rows)| == CountIf(rows, Registers)
    ensures forall o :: o in Menu(rows) ==> o.value in Registry(rows)
  {
    if rows != [] {
      var n := |rows| - 1;
      MenuMatchesRegistry(rows[..n]);
      CountIfSnoc(rows[..n], rows[n], Registers);
      assert rows[..n] + [rows[n]] == rows;
    }
  }

  // ---------------------------------------------------------------------
  // Samples
  // ---------------------------------------------------------------------

  /** A sample is kept iff its abundance and coordinates are numbers. */
  predicate IsValidSample(d: Sample)
  {
    d.abundance.Some? && d.latitude.Some? && d.longitude.Some?
  }

  /** The validity filter of a freshly loaded file: the valid rows, in order. */
  function ValidSamples(raw: seq<Sample>): (r: seq<Sample>)
    ensures forall d :: d in r <==> d in raw && IsValidSample(d)
    ensures IsSubsequence(r, raw)
  {
    Filter(raw, IsValidSample)
  }

  /**
   * The points shown for the slider's year: the samples whose year is
   * exactly that year, in order (a year that is NaN matches no slider value).
   */
  function RowsForYear(data: seq<Sample>, year: int): (r: seq<Sample>)
    ensures forall d :: d in r <==> d in data && d.year == Some(year)
    ensures IsSubsequence(r, data)
  {
    Filter(data, (d: Sample) => d.year == Some(year))
  }

  /** Each sample is shown in exactly one year, or in none when its year is NaN. */
  lemma RowsForYearDisjoint(data: seq<Sample>, y1: int, y2: int, d: Sample)
    requires y1 != y2
    ensures !(d in RowsForYear(data, y1) && d in RowsForYear(data, y2))
  {
  }

  /** The registry of studies and the samples cached in it. */
  class StudyCache {
    var config: map<string, StudyConfig>

    /** Cached samples are always valid ones. */
    ghost predicate Valid()
      reads this
    {
      forall id :: id in config && config[id].data.Some? ==>
        forall i :: 0 <= i < |config[id].data.value| ==> IsValidSample(config[id].data.value[i])
    }

    /** The cache over a registry built from the study list. */
    constructor(rows: seq<ListRow>)
      ensures Valid()
      ensures config == Registry(rows)
    {
      config := Registry(rows);
      RegistryUnloaded(rows);
    }

    /**
     * Loading the samples of a study.  An id the registry does not hold (the
     * empty selector's "") makes the lookup of its entry throw: nothing is
     * returned and the cache is unchanged.  Samples already cached are
     * returned as they are, without a fetch (an empty list counts as cached).
     * Otherwise a fetched file is filtered to its valid rows, which are
     * cached and returned; a failed fetch yields no samples and leaves the
     * cache unset.
     */
    method LoadData(studyId: string, fetched: Result<seq<Sample>, string>) returns (r: Option<seq<Sample>>)
      requires Valid()
      modifies this
      ensures Valid()
      ensures studyId !in old(config) ==> r.None? && config == old(config)
      ensures studyId in old(config) ==> r.Some? && studyId in config
      ensures studyId in old(config) && old(config[studyId].data).Some? ==>
        r.value == old(config[studyId].data).value && config == old(config)
      ensures studyId in old(config) && old(config[studyId].data).None? && fetched.Success? ==>
        r.value == ValidSamples(fetched.value)
        && config == old(config)[studyId := old(config[studyId]).(data := Some(r.value))]
      ensures studyId in old(config) && old(config[studyId].data).None? && fetched.Failure? ==>
        r.value == [] && config == old(config)
      ensures r.Some? ==> forall i :: 0 <= i < |r.value| ==> IsValidSample(r.value[i])
    {
      if studyId !in config {
        return None;
      }
      var entry := config[studyId];
      if entry.data.Some? {
        return Some(entry.data.value);
      }
      match fetched {
        case Success(raw) =>
          var data := ValidSamples(raw);
          forall i | 0 <= i < |data| ensures IsValidSample(data[i]) {
            assert data[i] in data;
          }
          config := config[studyId := entry.(data := Some(data))];
          r := Some(data);
        case Failure(_) =>
          r := Some([]);
      }
    }
  }

  // ---------------------------------------------------------------------
  // Year playback
  // ---------------------------------------------------------------------

  /** The year shown after one tick from `y`: the next one, wrapping to `minYear` past `maxYear`. */
  function NextYear(y: int, minYear: int, maxYear: int): int
  {
    if y + 1 > maxYear then minYear else y + 1
  }

  /** The year after `n` ticks from `y`. */
  function AfterTicks(y: int, n: nat, minYear: int, maxYear: int): int
    decreases n
  {
    if n == 0 then y else AfterTicks(NextYear(y, minYear, maxYear), n - 1, minYear, maxYear)
  }

  /** Every tick from the playback's starting range shows a year of the slider. */
  lemma NextYearInRange(y: int, minYear: int, maxYear: int)
    requires minYear <= maxYear && minYear - 1 <= y <= maxYear
    ensures minYear <= NextYear(y, minYear, maxYear) <= maxYear
  {
  }

  lemma {:induction false} AfterTicksAdd(y: int, a: nat, b: nat, minYear: int, maxYear: int)
    ensures AfterTicks(y, a + b, minYear, maxYear)
         == AfterTicks(AfterTicks(y, a, minYear, maxYear), b, minYear, maxYear)
    decreases a
  {
    if a > 0 {
      AfterTicksAdd(NextYear(y, minYear, maxYear), a - 1, b, minYear, maxYear);
    }
  }

  /** Without reaching the end, `n` ticks advance the year by `n`. */
  lemma {:induction false} AfterTicksStraight(y: int, n: nat, minYear: int, maxYear: int)
    requires y + n <= maxYear
    ensures AfterTicks(y, n, minYear, maxYear) == y + n
    decreases n
  {
    if n > 0 {
      AfterTicksStraight(y + 1, n - 1, minYear, maxYear);
    }
  }

  /**
   * The animation is a cycle through all the years: after one tick per year
   * of the range, it is back at the year it started from.
   */
  lemma AfterTicksCycle(y: int, minYear: int, maxYear: int)
    requires minYear <= y <= maxYear
    ensures AfterTicks(y, maxYear - minYear + 1, minYear, maxYear) == y
  {
    var toEnd: nat := maxYear - y;
    var fromStart: nat := y - minYear;
    AfterTicksStraight(y, toEnd, minYear, maxYear);
    AfterTicksAdd(y, toEnd, 1 + fromStart, minYear, maxYear);
    AfterTicksAdd(maxYear, 1, fromStart, minYear, maxYear);
    AfterTicksStraight(minYear, fromStart, minYear, maxYear);
  }

  /**
   * The `value` of a range input after the browser's sanitisation: clamped
   * into its `[min, max]`.
   */
  function Clamp(v: int, lo: int, hi: int): (r: int)
    requires lo <= hi
    ensures lo <= r <= hi
    ensures lo <= v <= hi ==> r == v
  {
    if v < lo then lo else if v > hi then hi else v
  }

  /**
   * The closure of a running timer: its `currentYear`, the slider bounds read
   * when it started, and the samples it redraws.
   */
  datatype Timer = Timer(year: int, minYear: int, maxYear: int, data: seq<Sample>)

  /**
   * The year slider, its play/pause button and the interval timer.  The
   * timer handle is a global of the page: rendering another study rebinds
   * the listeners but neither clears a running timer nor changes what that
   * timer's callback captured.
   */
  class Player {
    /** The slider's bounds and its value. */
    var minYear: int
    var maxYear: int
    var sliderValue: int
    /**
     * Whether the slider's value has been set since the page loaded (by a
     * drag or by a tick); from then on its `value` attribute no longer moves it.
     */
    var dirty: bool
    /** Whether a render has bound the slider's and the button's listeners, and the samples they hold. */
    var listening: bool
    var data: seq<Sample>
    /** The samples drawn on the map. */
    var shown: seq<Sample>
    /** Whether the interval timer is set, and the button's label. */
    var playing: bool
    var buttonText: string
    /** What the running timer's callback captured. */
    var timer: Timer

    ghost predicate Valid()
      reads this
    {
      minYear <= maxYear && minYear <= sliderValue <= maxYear
      && (playing ==> timer.minYear <= timer.maxYear && timer.minYear - 1 <= timer.year <= timer.maxYear)
    }

    /** The page as loaded: the slider as the markup gives it, no listeners, no timer, no points. */
    constructor(min0: int, max0: int, value0: int, initialText: string)
      requires min0 <= max0
      ensures Valid()
      ensures minYear == min0 && maxYear == max0 && sliderValue == Clamp(value0, min0, max0) && !dirty
      ensures !listening && data == [] && shown == []
      ensures !playing && buttonText == initialText
    {
      minYear, maxYear := min0, max0;
      sliderValue := Clamp(value0, min0, max0);
      dirty, listening := false, false;
      data, shown := [], [];
      playing := false;
      buttonText := initialText;
      timer := Timer(min0, min0, max0, []);
    }

    /**
     * Rendering a study whose valid samples are `newData`, spanning the years
     * `minY..maxY`.  A study without samples only clears the points.
     * Otherwise the slider takes the new bounds; its value goes to `minY`
     * only if it was never set, and is otherwise clamped into the new range.
     * The listeners are rebound to the new samples and the points redrawn.
     * A running timer goes on as it was.
     */
    method Render(newData: seq<Sample>, minY: int, maxY: int)
      requires Valid() && minY <= maxY
      modifies this
      ensures Valid()
      ensures playing == old(playing) && buttonText == old(buttonText) && dirty == old(dirty)
      ensures timer == old(timer)
      ensures newData == [] ==>
        minYear == old(minYear) && maxYear == old(maxYear) && sliderValue == old(sliderValue)
        && listening == old(listening) && data == old(data) && shown == []
      ensures newData != [] ==> minYear == minY && maxYear == maxY && listening && data == newData
      ensures newData != [] ==>
        sliderValue == (if old(dirty) then Clamp(old(sliderValue), minY, maxY) else minY)
      ensures newData != [] ==> shown == RowsForYear(newData, sliderValue)
    {
      if newData == [] {
        shown := [];
        return;
      }
      var value := if dirty then Clamp(sliderValue, minY, maxY) else minY;
      minYear, maxYear, sliderValue := minY, maxY, value;
      listening, data, shown := true, newData, RowsForYear(newData, value);
    }

    /** The user drags the slider to `y`; once a render has bound its listener, the points follow. */
    method SlideTo(y: int)
      requires Valid()
      modifies this
      ensures Valid()
      ensures sliderValue == Clamp(y, minYear, maxYear) && dirty
      ensures minYear == old(minYear) && maxYear == old(maxYear)
      ensures listening == old(listening) && data == old(data)
      ensures shown == if listening then RowsForYear(data, sliderValue) else old(shown)
      ensures playing == old(playing) && buttonText == old(buttonText)
      ensures timer == old(timer)
    {
      sliderValue := Clamp(y, minYear, maxYear);
      dirty := true;
      if listening {
        shown := RowsForYear(data, sliderValue);
      }
    }

    /**
     * A click on the play button, once a render has bound it: stop a running
     * timer, or start one over the slider's current bounds and the samples of
     * the last render, restarting from the first year when the slider is at
     * the last.
     */
    method PlayClicked()
      requires Valid()
      modifies this
      ensures Valid()
      ensures minYear == old(minYear) && maxYear == old(maxYear) && sliderValue == old(sliderValue)
      ensures dirty == old(dirty) && listening == old(listening) && data == old(data) && shown == old(shown)
      ensures !listening ==>
        playing == old(playing) && buttonText == old(buttonText) && timer == old(timer)
      ensures listening ==> playing == !old(playing)
      ensures listening && old(playing) ==>
        buttonText == "Play" && timer == old(timer)
      ensures listening && !old(playing) ==>
        buttonText == "Pause"
        && timer == Timer(if sliderValue >= maxYear then minYear - 1 else sliderValue, minYear, maxYear, data)
    {
      if !listening {
        return;
      }
      var currentYear := sliderValue;
      if playing {
        playing := false;
        buttonText := "Play";
        return;
      }
      buttonText := "Pause";
      if currentYear >= maxYear {
        currentYear := minYear - 1;
      }
      timer := Timer(currentYear, minYear, maxYear, data);
      playing := true;
    }

    /**
     * One timer tick: the callback's year moves to the next one of the bounds
     * it started with, wrapping to the first; it is written to the slider
     * (clamped into the slider's current range) and the samples the timer
     * holds are redrawn for the slider's year.
     */
    method Tick()
      requires Valid() && playing
      modifies this
      ensures Valid() && playing
      ensures minYear == old(minYear) && maxYear == old(maxYear) && buttonText == old(buttonText)
      ensures listening == old(listening) && data == old(data)
      ensures timer == old(timer).(year := NextYear(old(timer).year, timer.minYear, timer.maxYear))
      ensures timer.minYear <= timer.year <= timer.maxYear
      ensures sliderValue == Clamp(timer.year, minYear, maxYear) && dirty
      ensures shown == RowsForYear(timer.data, sliderValue)
    {
      var currentYear := timer.year + 1;
      if currentYear > timer.maxYear {
        currentYear := timer.minYear;
      }
      timer := timer.(year := currentYear);
      sliderValue := Clamp(currentYear, minYear, maxYear);
      dirty := true;
      shown := RowsForYear(timer.data, sliderValue);
    }
  }
}
