# BioTime dashboards: a verified model of their data logic

BioTime is a set of D3 dashboards, plus two Python preparation scripts, over the
BioTime biodiversity time-series database. Most of it draws SVG. This project
models, in Dafny, the parts that compute something that can be stated exactly:

- **Metadata preparation** (`prepare_data.dfy`, module `PrepareData`). Rows
  without a centre coordinate are dropped and each study's duration is
  computed. Every remaining row becomes one study record; Python's `int()`
  truncates toward zero and aborts the script on NaN.
- **Study filters** (`study_filters.dfy`, module `StudyFilters`). This is the
  realm selector and protected-only box of `applyFilters`. The function exists
  in three identical copies, one per dashboard; a single model serves all three.
- **Active-studies timeline** (`study_timeline.dfy`, module `StudyTimeline`).
  Study records become year spans. For each year from the earliest start to
  the latest end, the studies running that year are counted per realm, using
  the nested loops of the source.
- **Treemap labels and ids** (`treemap_labels.dfy`, module `TreemapLabels`).
  Labels are truncated to the tile width at about 7 px per character. A
  node's code is sanitised into a DOM id.
- **Page navigation** (`page_navigation.dfy`, module `PageNavigation`). This is
  the "next section" button: a loop finds the last section above a probe line,
  and the button scrolls to the section after it.
- **Map selection tools** (`map_tools.dfy`, module `MapTools`). This covers the
  move / rectangle / freehand tools as a class over the state their listeners
  share. It also covers rectangle normalisation, the freehand point list, and
  the arithmetic that zooms onto a drawn shape's bounding box.
- **Per-study map** (`beline_study.dfy`, module `BelineStudy`). It includes:
  - the study registry built from the study list;
  - the load-once sample cache with its validity filter;
  - the year filter of the map;
  - the play/pause year animation as a class. It holds the slider, the
    listeners of the last render and the page's single interval timer. A
    study change (`StudyCache.LoadData` followed by `Player.Render`) rebinds
    the listeners, but a running timer keeps the bounds and samples it
    captured.
- **Radial taxonomy tree** (`taxonomy_tree.dfy`, module `TaxonomyTree`). It
  includes:
  - the JSON-to-node conversion;
  - the parent map and the path to the root;
  - the depth collapse, the expand-all and collapse of the depth slider, and
    the click toggle, all of which move a node's list between `children` and
    `_children`;
  - the label-opacity rule.

  A node is identified by its position (the child indices from the root),
  since the hierarchy's shape never changes once built. The page's globals
  form the class `TaxonomyView`.
- **Taxonomy builder** (`taxonomy_trie.dfy`, module `TaxonomyTrie`). Seven-level
  classification rows are merged into a nested dictionary, with the same
  nested loop as the source and the required-column check.
  - The dictionary is represented by what it determines: each node's `length`
    keyed by its name path, and the creation order. The creation order is the
    key order of every `children` dictionary.

`common.dfy` (module `Common`) holds `Option`, `Result` and the order-preserving
`Filter`, which is what every `Array.prototype.filter` and pandas row mask here
amounts to.

File contents, the DOM and user gestures arrive as parameters:
- a fetched CSV arrives as its parsed rows, or the error it failed with;
- a section's `offsetTop` arrives as a map entry;
- a mouse position arrives as a `Point`.

The parent map is filled by walking each node's skeleton, whose sub-node list
is the node's `children` followed by its `_children`. That is the order of the
two `forEach` loops of `traverse`; a well-formed hierarchy never has both fields.

## Model

| member | source | states |
|---|---|---|
| Common.Filter | irene/viz/main.js:169-183 | the result has exactly the elements of the input that pass the test, in their original order (a subsequence) and no longer than the input |
| Common.FilterKeepsAll | irene/viz/main.js:169-183 | a filter that every element passes returns the list unchanged |
| Common.FilterIdempotent | irene/viz/main.js:169-183 | filtering a filtered list again with the same test changes nothing |
| Common.FilterLength | irene/prepare_data.py:23 | the filtered list has as many elements as the input has elements passing the test |
| Common.CountIfSnoc | Beline/Study.js:32-49 | appending one element raises the count by one exactly when that element passes |
| PrepareData.IntOf | irene/prepare_data.py:32 | `int()` truncates toward zero: for x >= 0 the result is the largest integer <= x, for x < 0 the smallest integer >= x |
| PrepareData.KeptRows | irene/prepare_data.py:23 | a row is kept iff it has both CEN_LATITUDE and CEN_LONGITUDE, and the kept rows keep their order |
| PrepareData.ToRecord | irene/prepare_data.py:31-46 | a record exists iff the five columns passed to `int()` are all present (NaN raises); latitude and longitude are copied unchanged |
| PrepareData.PrepareStudies | irene/prepare_data.py:23-50 | succeeds iff every kept row converts, and then yields exactly one record per kept row in the same order, so the printed count is the number of kept rows; otherwise it fails at the first row that does not convert, with every earlier row convertible |
| PrepareData.IntOfWhole | irene/prepare_data.py:40-41 | `int()` of a whole-number year is that year |
| PrepareData.IntOfAtLeastOne | irene/prepare_data.py:42 | `int()` of a float is >= 1 exactly when the float is >= 1 |
| PrepareData.DurationAtLeastOne | irene/prepare_data.py:26 | a record's duration is at least one year iff END_YEAR >= START_YEAR |
| PrepareData.WholeYears | irene/prepare_data.py:26 | with whole-number years, the record holds those years and duration end - start + 1 |
| StudyFilters.ApplyFilters | irene/viz/main.js:165-183 | a study is shown iff it is in the list, its realm equals the selected realm or "all" is selected, and it is protected ("TRUE") or the box is unchecked; the result keeps the original order (same code at irene/main.js:139-157 and irene/main/main.js:207-225) |
| StudyFilters.DefaultFiltersKeepAll | irene/main.js:143-157 | with "all" selected and the box unchecked, the whole list is shown unchanged |
| StudyFilters.ApplyFiltersIdempotent | irene/main/main.js:211-225 | applying the filters to their own output changes nothing |
| StudyFilters.FiltersCompose | irene/viz/main.js:171-180 | filtering by realm and then by protected flag equals filtering by both at once |
| StudyFilters.ProtectedOnlyNarrows | irene/viz/main.js:177-180 | checking the protected-only box yields a subsequence of the unchecked result |
| StudyTimeline.RealmOrUnknown | irene/viz/main.js:609 | an empty realm becomes "Unknown" and any other is kept, so no span has an empty realm |
| StudyTimeline.ParseStudies | irene/viz/main.js:605-611 | every parsed span has start <= end and a non-empty realm, and there are no more spans than records |
| StudyTimeline.ParseStudiesKeeps | irene/viz/main.js:605-611 | every record with end >= start yields a span |
| StudyTimeline.ParseStudiesSound | irene/viz/main.js:605-611 | every span comes from a record with end >= start |
| StudyTimeline.MinStart | irene/viz/main.js:613 | the least start year: at most every start, and attained by some span |
| StudyTimeline.MaxEnd | irene/viz/main.js:614 | the greatest end year: at least every end, and attained by some span |
| StudyTimeline.PresentRealms | irene/viz/main.js:619-620 | exactly the four known realms that some study has, in the order Marine, Terrestrial, Freshwater, Unknown |
| StudyTimeline.ActiveCount | irene/viz/main.js:627-628 | the count of running studies of a realm never exceeds the number of studies |
| StudyTimeline.ActiveCountSnoc | irene/viz/main.js:627-628 | one more study raises a realm's count exactly when it runs that year with that realm |
| StudyTimeline.ActiveCountPositive | irene/viz/main.js:628 | a realm's count for year y is positive iff some study of that realm runs in y |
| StudyTimeline.ExpectedRowCounts | irene/viz/main.js:624-631 | the expected row has a key for every present realm and every realm running that year, and each key holds the number of that realm's studies running that year |
| StudyTimeline.RowCountsUnique | irene/viz/main.js:624-631 | any row with those keys and counts is the expected row |
| StudyTimeline.BuildYearRow | irene/viz/main.js:625-630 | the row the two loops build (zero per present realm, then one more per running study) is the expected row of that year |
| StudyTimeline.BuildRows | irene/viz/main.js:616-631 | one row per year of minYear..maxYear inclusive, row i being the expected row of year minYear + i |
| StudyTimeline.BuildTimeline | irene/viz/main.js:605-631 | no rows when no study is kept; otherwise exactly maxEnd - minStart + 1 rows, row i counting the studies running in year minStart + i per present realm |
| StudyTimeline.ActiveYearsOfSpan | irene/viz/main.js:628 | a study inside a range of years runs in exactly end - start + 1 of them |
| StudyTimeline.ActiveYearsFrom | irene/viz/main.js:628 | from a year inside a study's span, it runs in end - year + 1 of the remaining years |
| StudyTimeline.ActiveYearsNone | irene/viz/main.js:628 | a study that ended before a range runs in none of its years |
| StudyTimeline.EachStudyCountedPerYear | irene/viz/main.js:616-631 | every kept study runs in exactly end - start + 1 of the timeline's years minStart..maxEnd |
| StudyTimeline.ActiveStudyIsCounted | irene/viz/main.js:627-628 | a study running in year y adds at least one to its realm's count for y |
| TreemapLabels.SliceTo | irene/viz/main.js:375-377 | `slice(0, end)` is a prefix of the text: the first `end` characters when end is in range, the whole text when end is past the end |
| TreemapLabels.EmptyLabelReadsUndefined | irene/viz/main.js:369 | as written, an empty description in a tiny tile is labelled "undefined…" |
| TreemapLabels.TruncateLabel | irene/viz/main.js:364-378 | the label is the text or a prefix of it plus "…"; a tiny tile (w < 40 or h < 20) shows at most its first character plus "…"; otherwise the label has at most floor(w/7) characters, is the text unchanged iff the text fits, and for a text that does not fit is its first floor(w/7) - 1 characters plus "…", the longest such label that fits |
| TreemapLabels.TruncationAgreesOnNonTiny | irene/viz/main.js:364-378 | the corrected truncation equals the one as written on every input except the empty text in a tiny tile |
| TreemapLabels.WideTileHasRoom | irene/viz/main.js:372-375 | a tile at least 40 px wide fits at least 5 characters, so the `maxChars <= 3` branch is never reached |
| TreemapLabels.ReplaceChar | irene/viz/main.js:431-432 | `replaceAll` of one character replaces exactly its occurrences and keeps every other character at its place |
| TreemapLabels.KeepIdChars | irene/viz/main.js:433 | deleting non-id characters leaves only word characters and '-', never lengthening the text |
| TreemapLabels.SanitizeId | irene/viz/main.js:429-434 | a sanitised id holds only word characters and '-' |
| TreemapLabels.SanitizeIdByChar | irene/viz/main.js:430-433 | the id is built character by character: '>' and '\|' become '_', other word characters and '-' are kept, everything else is deleted |
| TreemapLabels.ReplaceCharAppend | irene/viz/main.js:431-432 | replacing a character commutes with concatenation |
| TreemapLabels.KeepIdCharsAppend | irene/viz/main.js:433 | deleting non-id characters commutes with concatenation |
| TreemapLabels.SanitizeIdAppend | irene/viz/main.js:429-434 | the id of a concatenation is the concatenation of the ids |
| TreemapLabels.SanitizeIdKeepsClean | irene/viz/main.js:429-434 | a code made only of id characters is its own id |
| TreemapLabels.SanitizeIdIdempotent | irene/viz/main.js:429-434 | sanitising an id again changes nothing |
| TreemapLabels.SanitizeIdSeparator | irene/viz/main.js:430-433 | a '>' or '\|' separator becomes one '_' rather than being deleted, so codes differing only in those separators (or '_') get the same id |
| PageNavigation.LastReached | irene/main.js:267-272 | the index found is 0 or a section that exists with its top at or above the probe line, and no later section does |
| PageNavigation.NextSection | irene/main.js:263-276 | after the loop, `currentIdx` is the last existing section at or above the probe line (0 if none); the target is the following section capped at the last; the page scrolls iff the target element exists (same code at irene/main/main.js:333-346 and irene/viz/main.js:300-313) |
| PageNavigation.TargetInRange | irene/main.js:274 | the button always targets the second or third section, never past the last |
| PageNavigation.LastReachedMonotone | irene/main/main.js:337-342 | scrolling further down never moves the current section back up |
| MapTools.RectFromDrag | irene/main/main.js:442-452 | the dragged rectangle has non-negative width and height, holds both corners, and lies inside every box that holds both corners |
| MapTools.MinX | irene/main/main.js:418 | the least x of the vertices, attained by a vertex |
| MapTools.MaxX | irene/main/main.js:418 | the greatest x of the vertices, attained by a vertex |
| MapTools.MinY | irene/main/main.js:418 | the least y of the vertices, attained by a vertex |
| MapTools.MaxY | irene/main/main.js:418 | the greatest y of the vertices, attained by a vertex |
| MapTools.PathBBox | irene/main/main.js:416-418 | the freehand path's box contains every vertex and each of its four sides touches a vertex |
| MapTools.BBoxToView | irene/main/main.js:463-481 | for a box with some extent, a positive scale maps the box centre to the view centre and fits the box in 90% of the view, touching the 90% bound on one side; a box with zero width and height gives the infinite scale |
| MapTools.ScaleFits | irene/main/main.js:469-470 | the finite scale is positive, fits the box in 90% of the view and touches that bound on one side, so no larger scale fits |
| MapTools.ClickWithoutDragIsNonFinite | irene/main/main.js:426-460 | a click without a drag, with either selection tool, asks for an infinite zoom |
| MapTools.ToolController.constructor | irene/main/main.js:92-139 | after setup, the move tool is selected, no tool listener is bound and nothing is drawn |
| MapTools.ToolController.SelectTool | irene/main/main.js:98-133 | the tool becomes the chosen one, exactly its button is pressed, zoom and pan are accepted iff it is the move tool, its mousedown/mouseup listeners are bound, and the drawing state is unchanged |
| MapTools.ToolController.MouseDown | irene/main/main.js:390-440 | the rectangle tool records the start point and appends an empty rectangle there; the freehand tool restarts the point list with the single point and appends a one-point path; both then follow the mouse |
| MapTools.ToolController.MouseMove | irene/main/main.js:404-452 | the rectangle being dragged (the last one appended) becomes the normalised box from the start point; the freehand list gains the point at its end, keeping the earlier ones, and the first freehand path is redrawn from it |
| MapTools.ToolController.MouseUp | irene/main/main.js:411-460 | the selection tools unbind mousemove, zoom onto the bounding box of the first shape of their kind, then remove that shape; with no such shape the zoom is not changed |
| BelineStudy.LoadStudyList | Beline/Study.js:20-53 | the loop builds exactly the registry and the selector options that the row-by-row definition gives |
| BelineStudy.RegistryKeys | Beline/Study.js:37-38 | an id is registered iff some row has that id and a non-empty file path |
| BelineStudy.RegistryLastWins | Beline/Study.js:38-42 | an id's entry comes from the last registering row with that id, with no data and the display name (STUDY_NAME, or "Étude " + id when it is empty) |
| BelineStudy.RegistryUnloaded | Beline/Study.js:40 | no entry of a fresh registry holds data |
| BelineStudy.MenuMatchesRegistry | Beline/Study.js:45-47 | there is one option per registering row, and each option's value is a registered id |
| BelineStudy.ValidSamples | Beline/Study.js:82-87 | exactly the loaded rows whose abundance, latitude and longitude are numbers are kept, in order |
| BelineStudy.RowsForYear | Beline/Study.js:252-258 | exactly the samples whose year equals the slider's value are shown, in order |
| BelineStudy.RowsForYearDisjoint | Beline/Study.js:256-258 | no sample is shown in two different years |
| BelineStudy.StudyCache.constructor | Beline/Study.js:150 | the cache starts as the registry built from the study list |
| BelineStudy.StudyCache.LoadData | Beline/Study.js:59-100 | an id the registry does not hold (the empty selector's "") yields nothing and leaves the cache unchanged, as the throwing lookup does; cached data (even an empty list) is returned without a fetch and the cache is unchanged; a successful fetch caches and returns its valid rows; a failed fetch returns no rows and leaves the cache unset; every returned row is valid |
| BelineStudy.NextYearInRange | Beline/Study.js:345-353 | from the year playback starts at, or any year it shows, the next tick shows a year within the slider's range |
| BelineStudy.AfterTicksAdd | Beline/Study.js:349-356 | a + b ticks equal a ticks followed by b ticks |
| BelineStudy.AfterTicksStraight | Beline/Study.js:350 | without reaching the last year, n ticks advance the year by n |
| BelineStudy.AfterTicksCycle | Beline/Study.js:350-353 | after one tick per year of the range, playback is back at the year it started from, so it cycles through every year |
| BelineStudy.Player.constructor | Beline/Study.js:6 | as the page loads, no timer is set, no listener is bound and no point is drawn; the slider is as its markup gives it and its value has never been set |
| BelineStudy.Player.Render | Beline/Study.js:189-243 | a study without samples only clears the points; otherwise the slider takes the study's bounds, its value goes to the first year only if it was never set and is otherwise clamped into the new range, the listeners are rebound to the study's samples and its points for the slider's year are drawn; a running timer keeps going with what it captured, and the button label is unchanged |
| BelineStudy.Player.SlideTo | Beline/Study.js:224-231 | a drag sets the slider's value (clamped into its range) and, once a render has bound the listener, draws that render's samples of that year; the timer is untouched |
| BelineStudy.Player.PlayClicked | Beline/Study.js:325-347 | before any render nothing happens; otherwise a click stops a running timer (button "Play"), whichever study started it, or starts one (button "Pause") that captures the slider's current bounds and the last render's samples, restarting before the first year when the slider is at or past the last |
| BelineStudy.Player.Tick | Beline/Study.js:349-359 | a tick moves the timer's year to the next one of the bounds it started with, wrapping to the first after the last; the slider takes that year clamped into its current range, and the timer's own samples are drawn for it |
| TaxonomyTree.ConvertJsonToD3 | Alex/Tree2.js:42-52 | one child per key of `children`, named after the key, in key order; a node has no `children` field iff its object has no or an empty `children` |
| TaxonomyTree.Hierarchy | Alex/Tree2.js:140 | the hierarchy node keeps the name, has nothing hidden, is a leaf iff its data has no children, and is well formed |
| TaxonomyTree.AtWellFormed | Alex/Tree2.js:140 | every node of a well-formed hierarchy is well formed and sits at its position |
| TaxonomyTree.CollapseAt | Alex/Tree2.js:74-87 | after a depth collapse every node keeps its position and name; a leaf stays a leaf; a node is expanded iff it was and is shallower than the target or protected; a node is collapsed iff it was, or it was expanded at or below the target and unprotected |
| TaxonomyTree.CollapseKeepsSkeleton | Alex/Tree2.js:79-86 | collapsing adds or removes no node: the hierarchy stays well formed and each node holds the same list |
| TaxonomyTree.ExpandAllAt | Alex/Tree2.js:299 | after expand-all, every node keeps its position, name and leaf status, and every non-leaf is expanded |
| TaxonomyTree.ExpandAllKeepsSkeleton | Alex/Tree2.js:299 | expand-all adds or removes no node |
| TaxonomyTree.SliderStatusAt | Alex/Tree2.js:293-310 | after the slider handler, a node with sub-nodes is expanded iff its depth is below the new depth, and collapsed otherwise |
| TaxonomyTree.Toggle | Alex/Tree2.js:269-275 | the toggle keeps the node's position and name |
| TaxonomyTree.ToggleStatus | Alex/Tree2.js:269-275 | a collapsed node becomes expanded and an expanded one collapsed; a leaf stays a leaf; the held list is unchanged; toggling twice restores the node |
| TaxonomyTree.ReplaceAtOthers | Alex/Tree2.js:269-275 | changing one node in place puts the new node there, keeps the nodes below it, and leaves every other node's position and status as they were |
| TaxonomyTree.ReplaceSame | Alex/Tree2.js:269-275 | putting a node back in its place changes nothing |
| TaxonomyTree.ReplaceTwice | Alex/Tree2.js:269-275 | a second in-place change of the same node overrides the first |
| TaxonomyTree.ReplaceKeepsSkeleton | Alex/Tree2.js:269-275 | changing a node in place without changing its list adds or removes no node |
| TaxonomyTree.ClickEffect | Alex/Tree2.js:267-278 | a click on a named node expands it if collapsed, collapses it if expanded, leaves a leaf alone, leaves every other node's status unchanged, and adds or removes no node |
| TaxonomyTree.ClickUnnamed | Alex/Tree2.js:268 | a click on the unnamed root changes nothing |
| TaxonomyTree.ClickTwice | Alex/Tree2.js:267-278 | two clicks on the same node restore the hierarchy |
| TaxonomyTree.SkeletonWellFormed | Alex/Tree2.js:58-59 | the skeleton of a well-formed hierarchy lists each node's held sub-nodes, each at its position |
| TaxonomyTree.SkeletonAt | Alex/Tree2.js:58-59 | the positions of a hierarchy and of its skeleton are the same |
| TaxonomyTree.ShapeEntriesSpec | Alex/Tree2.js:56-60 | traversing a subtree maps exactly the positions below it (itself included), itself to the given parent and every other one to its parent |
| TaxonomyTree.KidsEntriesSpec | Alex/Tree2.js:58-59 | traversing the first k sub-nodes maps exactly what they reach, each to its parent |
| TaxonomyTree.ReachesAmongSpec | Alex/Tree2.js:58-59 | the first k sub-nodes reach exactly the positions below the node whose next index is under k |
| TaxonomyTree.ReachesKid | Alex/Tree2.js:58-59 | sub-node j reaches exactly the positions below the node whose next index is j |
| TaxonomyTree.ShapeAtPrefix | Alex/Tree2.js:67-70 | the ancestors of a node are nodes |
| TaxonomyTree.ParentMapSpec | Alex/Tree2.js:54-62 | the parent map built from the root has exactly the nodes as keys, hidden or not; the root maps to null and every other node to its parent, which is a key too |
| TaxonomyTree.Prefixes | Alex/Tree2.js:64-72 | a node's ancestor set is exactly the prefixes of its position, the node and the root included |
| TaxonomyTree.PrefixesFromStep | Alex/Tree2.js:67-70 | each round of the walk up adds the next shorter prefix |
| TaxonomyTree.VisibleAncestorsExpanded | Alex/Tree2.js:182 | a drawn node is a node of the hierarchy, and every proper ancestor of it is expanded |
| TaxonomyTree.LabelOpacity | Alex/Tree2.js:236-241 | a label's opacity is 0 or 1 |
| TaxonomyTree.UpdateLabels | Alex/Tree2.js:186-241 | after a redraw from a node, a drawn node's label shows iff the node is that node or one of its ancestors, a leaf, or collapsed |
| TaxonomyTree.ClickLabels | Alex/Tree2.js:267-278 | after a click on a named node, a drawn node's label shows iff the node is the clicked one or one of its ancestors, a leaf, or collapsed |
| TaxonomyTree.SliderPositions | Alex/Tree2.js:299-304 | the slider handler keeps exactly the same node positions |
| TaxonomyTree.SliderNodeAt | Alex/Tree2.js:299-304 | after the slider handler, a node with sub-nodes is expanded iff its depth is below the new depth |
| TaxonomyTree.SliderLabels | Alex/Tree2.js:236-241 | after the slider handler, nothing deeper than the new depth is drawn, and a drawn node's label shows iff it is the root, a leaf, or at the new depth |
| TaxonomyTree.TaxonomyView.constructor | Alex/Tree2.js:138-151 | createTreemap builds the hierarchy and its parent map, selects the root's path and collapses below the initial depth 2, protecting the root; no node is added or removed |
| TaxonomyTree.TaxonomyView.BuildParentMap | Alex/Tree2.js:54-62 | the old entries are cleared and the map becomes the traversal from the root with no parent |
| TaxonomyTree.TaxonomyView.Traverse | Alex/Tree2.js:56-60 | the map gains exactly the entries of the subtree: the node to its parent, then each sub-node's entries in order |
| TaxonomyTree.TaxonomyView.GetPathToRoot | Alex/Tree2.js:64-72 | following the parent map upwards collects exactly the node and all its ancestors; a position not in the map yields just itself |
| TaxonomyTree.TaxonomyView.Update | Alex/Tree2.js:180-186 | a redraw from a source sets the source path and the selected path to the source's path to the root (just the source itself when it is not a node) |
| TaxonomyTree.TaxonomyView.Click | Alex/Tree2.js:267-278 | a click on an unnamed node changes nothing; otherwise the node is toggled, no node is added or removed, and both paths become the clicked node's path to the root |
| TaxonomyTree.TaxonomyView.SetDepth | Alex/Tree2.js:293-311 | the slider expands everything, collapses from the new depth with nothing protected, records the depth, redraws from the root, and keeps the parent map valid |
| TaxonomyTrie.LeadCount | Alex/csv2Newickjson.py:32 | the number of leading whitespace characters, all of them whitespace, followed by a non-whitespace one |
| TaxonomyTrie.TrailCount | Alex/csv2Newickjson.py:32 | the number of trailing whitespace characters, all of them whitespace, preceded by a non-whitespace one |
| TaxonomyTrie.Strip | Alex/csv2Newickjson.py:32 | `strip()` returns the middle of the text; everything outside it is whitespace, and it neither starts nor ends with whitespace |
| TaxonomyTrie.StripTrimmed | Alex/csv2Newickjson.py:32 | text without whitespace at either end is its own stripped form |
| TaxonomyTrie.NodeName | Alex/csv2Newickjson.py:32-38 | a NaN cell, text empty after stripping, or "nan" in any case becomes 'not specified'; any other cell becomes its stripped text; a name is never empty |
| TaxonomyTrie.NodeNameIdempotent | Alex/csv2Newickjson.py:32-38 | normalising an already normalised name changes nothing |
| TaxonomyTrie.BranchLength | Alex/csv2Newickjson.py:43 | the length of a level lies in (0, 1] |
| TaxonomyTrie.Chain | Alex/csv2Newickjson.py:30-38 | a row's chain has one name per level, seven in all |
| TaxonomyTrie.ChainAt | Alex/csv2Newickjson.py:30-38 | the chain's name at level i is the normalised cell of that level's column |
| TaxonomyTrie.RowChains | Alex/csv2Newickjson.py:26 | one seven-name chain per row, in row order |
| TaxonomyTrie.BuildStructuredTaxonomy | Alex/csv2Newickjson.py:14-60 | the row loop builds exactly the tree given by inserting every row's chain in row order |
| TaxonomyTrie.InsertRowLevels | Alex/csv2Newickjson.py:27-57 | the level loop for one row builds exactly the tree given by inserting the row's chain |
| TaxonomyTrie.VisitKeys | Alex/csv2Newickjson.py:49-57 | a level's node is added only if absent; an existing node is never overwritten, and the creation order is only appended to |
| TaxonomyTrie.VisitValid | Alex/csv2Newickjson.py:49-54 | adding a node of one to seven levels keeps every node created exactly once |
| TaxonomyTrie.VisitLengths | Alex/csv2Newickjson.py:43-54 | a new node gets the length of its level |
| TaxonomyTrie.InsertLevelsKeys | Alex/csv2Newickjson.py:30-57 | inserting a chain's first k levels adds exactly its prefixes of length 1..k, keeps every node with its length, and only appends to the creation order |
| TaxonomyTrie.InsertLevelsValid | Alex/csv2Newickjson.py:30-57 | inserting a seven-name chain keeps every node one to seven levels deep and created once |
| TaxonomyTrie.InsertLevelsLengths | Alex/csv2Newickjson.py:43-54 | inserting a chain keeps every node's length equal to that of its level |
| TaxonomyTrie.InsertLevelsPresent | Alex/csv2Newickjson.py:49-57 | a chain whose nodes all exist changes nothing |
| TaxonomyTrie.InsertChainIdempotent | Alex/csv2Newickjson.py:49-57 | inserting the same row twice gives the same tree as inserting it once |
| TaxonomyTrie.BuildFromValid | Alex/csv2Newickjson.py:26-57 | the tree built from any rows has nodes one to seven levels deep, each created once, with the length 1/(i+1) of its level index i |
| TaxonomyTrie.BuildFromKeys | Alex/csv2Newickjson.py:26-57 | the nodes of the tree are exactly the prefixes of the rows' chains, so rows sharing a name prefix share its nodes |
| TaxonomyTrie.BuildFromSpec | Alex/csv2Newickjson.py:14-60 | the built tree is valid, every node has its level's length, and its nodes are exactly the prefixes of the rows' chains |
| TaxonomyTrie.BuiltParents | Alex/csv2Newickjson.py:46-57 | every node below the top level has its parent in the tree |
| TaxonomyTrie.ChildNamesSpec | Alex/csv2Newickjson.py:46-54 | a name is among a node's children iff the node extended by it was created, and no parent has two children with the same name |
| TaxonomyTrie.TopLevelIsKingdoms | Alex/csv2Newickjson.py:60 | the returned top level holds exactly the rows' kingdom names, each once |
| TaxonomyTrie.TopLevelNode | Alex/csv2Newickjson.py:60 | a one-name path is a node iff it is some row's kingdom name |
| TaxonomyTrie.MissingColumns | Alex/csv2Newickjson.py:74 | the reported columns are exactly the absent required ones, in level order |
| TaxonomyTrie.CreateTaxonomyJsonFile | Alex/csv2Newickjson.py:62-91 | it fails iff a required column is absent, reporting the missing columns in level order (nothing is built); otherwise it yields the tree built from all rows |

## Left out

- Everything that draws: D3 joins, transitions, tooltips, legends, scales, colour, the Mercator projection and the radial link and label geometry.
- Network and file I/O: fetched and read files are parameters; the JSON dump, the printed messages and console logging are not modelled.
- Library layouts whose code is not part of this model: `d3.stratify`, `hierarchy.sum`, `d3.treemap`, `d3.cluster`, `d3.stack`, `topojson`.
- Timers: `setInterval` and `clearInterval` become the `Player.Tick` and `Player.PlayClicked` steps; timing, and the order in which ticks and other events interleave, is not modelled.
- `BelineStudy.Player.Render`: the study's first and last years are parameters; the `d3.min`/`d3.max` over its sample years (which skip NaN years) is not modelled.
- `BelineStudy.Player`: the clamping of the slider's value into its range is the HTML range input's value sanitisation, which the browser performs, not code of this repository.
- `BelineStudy.Player.Tick`: what the redraw does with the samples (join, colours and sizes) is drawing; only which samples are drawn is modelled.
- `MapTools.ToolController.constructor`: the buttons' initial `aria-pressed` comes from the page markup, which is not part of this model, so it is a parameter.
- `MapTools.ToolController.MouseUp`: the zoom is recorded as the requested transform only. How d3 animates it and constrains it to the zoom's extents is not modelled.
- `MapTools.ToolController.MouseUp`: with no shape to zoom onto, the source throws on a null node. The model leaves the remaining state unchanged instead.
- `MapTools.BBoxToView`: JavaScript's infinite scale appears only as `NonFinite`. Division by zero in only one dimension is modelled as `Math.min` ignoring the infinite ratio.
- `ctx.tempProj` in `bboxToView` is written but never read, so it is not modelled.
- `StudyTimeline.ParseStudies`: the records come from the metadata preparation with integer years, so `Number.isFinite` always holds. Records with null or text years (`+` on JSON values) are not modelled.
- `StudyTimeline.BuildYearRow`: a realm literally named "year" would overwrite the row's `year` field in the source. The model keeps the year apart from the counts.
- `TreemapLabels.TruncateLabel`: string length counts characters. JavaScript counts UTF-16 code units, so a label with characters outside the Basic Multilingual Plane is measured differently.
- `TaxonomyTree`: a node is identified by its position, not by object identity. The `uniqueId`, `colorGroup` and layout coordinates that the page stores on nodes are not modelled.
- `TaxonomyTree.TaxonomyView.Update`: only the two path sets are modelled. The highlighting of labels and links is drawing.
- `TaxonomyTrie`: the nested dictionary is represented by its node lengths and creation order, which determine it. The JSON text written out is not modelled.
- `PrepareData.ToRecord`: `float()` of the coordinates and `str()` of text cells are identities on the model's values. A text cell that pandas reads as a number is not distinguished.
- `TaxonomyTree.ConvertJsonToD3`: other members of a taxon object (such as `length`) are read by nothing, so they are not modelled.

## Findings

| source | as written | input that shows it | evidently intended | confidence | as-written member | corrected member |
|---|---|---|---|---|---|---|
| irene/viz/main.js:369 | a tiny tile shows `text[0] + "…"` | an empty description (the caller passes "" for a missing one at line 542) in a 10 × 10 tile gives "undefined…" | the first character if there is one, as `text.slice(0, 1)` in the `maxChars <= 3` branch does, giving "…" for the empty text | not executed | TreemapLabels.EmptyLabelReadsUndefined | TreemapLabels.TruncateLabel |
