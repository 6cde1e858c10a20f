/**
 * The realm / protected-area filter that the three study dashboards apply to
 * the loaded study records before drawing them (each dashboard carries its
 * own identical copy of `applyFilters`).
 */
module StudyFilters {
  import opened Common
  import opened PrepareData

  /** The realm selector's value that disables the realm filter. */
  const AllRealms: string := "all"

  /** The only `protected_area` value the protected-only box lets through. */
  const ProtectedValue: string := "TRUE"

  /** Whether one study survives the two filter controls. */
  predicate Passes(d: StudyRecord, realmValue: string, protectedOnly: bool)
  {
    !(realmValue != AllRealms && d.realm != realmValue)
    && !(protectedOnly && d.protectedArea != ProtectedValue)
  }

  /**
   * The studies shown for the current state of the realm selector and the
   * protected-only box, in their original order.
   */
  function ApplyFilters(studies: seq<StudyRecord>, realmValue: string, protectedOnly: bool)
    : (r: seq<StudyRecord>)
    ensures forall d :: d in r <==>
      d in studies
      && (realmValue == AllRealms || d.realm == realmValue)
      && (!protectedOnly || d.protectedArea == ProtectedValue)
    ensures IsSubsequence(r, studies)
  {
    Filter(studies, d => Passes(d, realmValue, protectedOnly))
  }

  /** With "all" selected and the box unchecked, every study is shown, in order. */
  lemma DefaultFiltersKeepAll(studies: seq<StudyRecord>)
    ensures ApplyFilters(studies, AllRealms, false) == studies
  {
    FilterKeepsAll(studies, d => Passes(d, AllRealms, false));
  }

  /** Re-applying the filters to their own output changes nothing. */
  lemma ApplyFiltersIdempotent(studies: seq<StudyRecord>, realmValue: string, protectedOnly: bool)
    ensures ApplyFilters(ApplyFilters(studies, realmValue, protectedOnly), realmValue, protectedOnly)
         == ApplyFilters(studies, realmValue, protectedOnly)
  {
    FilterIdempotent(studies, d => Passes(d, realmValue, protectedOnly));
  }

  /** Filtering by the realm first and the protected flag second gives the same list. */
  lemma {:induction false} FiltersCompose(studies: seq<StudyRecord>, realmValue: string)
    ensures ApplyFilters(ApplyFilters(studies, realmValue, false), AllRealms, true)
         == ApplyFilters(studies, realmValue, true)
  {
    if studies != [] {
      FiltersCompose(studies[1..], realmValue);
    }
  }

  /**
   * Checking the protected-only box never shows a study that was hidden:
   * the protected-only list is a subsequence of the unchecked one.
   */
  lemma {:induction false} ProtectedOnlyNarrows(studies: seq<StudyRecord>, realmValue: string)
    ensures IsSubsequence(ApplyFilters(studies, realmValue, true), ApplyFilters(studies, realmValue, false))
  {
    if studies != [] {
      ProtectedOnlyNarrows(studies[1..], realmValue);
      var s := studies[0];
      var t := ApplyFilters(studies[1..], realmValue, true);
      var f := ApplyFilters(studies[1..], realmValue, false);
      if Passes(s, realmValue, true) {
        assert ApplyFilters(studies, realmValue, true) == [s] + t;
        assert ApplyFilters(studies, realmValue, false) == [s] + f;
        assert ([s] + t)[1..] == t;
        assert ([s] + f)[1..] == f;
      } else if Passes(s, realmValue, false) {
        assert ApplyFilters(studies, realmValue, true) == t;
        assert ApplyFilters(studies, realmValue, false) == [s] + f;
        assert ([s] + f)[1..] == f;
        SubsequenceOfTail(t, [s] + f);
      }
    }
  }

  /** A subsequence of a list's tail is a subsequence of the list. */
  lemma SubsequenceOfTail<T>(r: seq<T>, s: seq<T>)
    requires s != [] && IsSubsequence(r, s[1..])
    ensures IsSubsequence(r, s)
  {
  }
}
