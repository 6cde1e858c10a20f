/**
 * The taxonomy JSON builder (Alex/csv2Newickjson.py).
 *
 * Every row of the species table is a seven-level classification. The
 * builder walks the levels from kingdom to species, creating each missing
 * node below the current one and moving down into it, so the rows are merged
 * into one nested dictionary (a trie on names).
 *
 * The nested dictionary is represented here by what it determines: the map
 * from each node's name path (kingdom first) to its `length`, and the order
 * in which the nodes were created, which is the order of every `children`
 * dictionary (Python dictionaries keep insertion order).
 */
module TaxonomyTrie {
  import opened Common

  /** The levels, broadest first. */
  const TaxonomicLevels: seq<string> := ["kingdom", "phylum", "class", "order", "family", "genus", "species"]

  /** The number of levels, `TOTAL_LEVELS`. */
  const LevelCount: nat := 7

  const NotSpecified: string := "not specified"

  /** A table cell as pandas reads it: missing (NaN) or text. */
  datatype Cell = Missing | Text(text: string)

  /** A row: column name -> cell. */
  type Row = map<string, Cell>

  /** A node's name path below the internal "Root" node. */
  type Path = seq<string>

  /**
   * The nested dictionary below "Root": each node's `length`, keyed by its
   * path, and the nodes' paths in creation order.
   */
  datatype Taxonomy = Taxonomy(lengths: map<Path, real>, created: seq<Path>)

  // ---------------------------------------------------------------------------
  // Name normalisation
  // ---------------------------------------------------------------------------

  /** The characters Python's `str.strip()` removes (`str.isspace`). */
  predicate IsSpace(c: char)
  {
    c == ' ' || ('\t' <= c <= '\r') || ('\U{1c}' <= c <= '\U{1f}') || c == '\U{85}' || c == '\U{a0}' ||
    c == '\U{1680}' || ('\U{2000}' <= c <= '\U{200a}') || c == '\U{2028}' || c == '\U{2029}' ||
    c == '\U{202f}' || c == '\U{205f}' || c == '\U{3000}'
  }

  /** Number of leading whitespace characters. */
  function LeadCount(s: string): (n: nat)
    ensures n <= |s|
    ensures forall k :: 0 <= k < n ==> IsSpace(s[k])
    ensures n < |s| ==> !IsSpace(s[n])
  {
    if s == [] || !IsSpace(s[0]) then 0 else 1 + LeadCount(s[1..])
  }

  /** Number of trailing whitespace characters. */
  function TrailCount(s: string): (n: nat)
    ensures n <= |s|
    ensures forall k :: |s| - n <= k < |s| ==> IsSpace(s[k])
    ensures n < |s| ==> !IsSpace(s[|s| - n - 1])
  {
    if s == [] || !IsSpace(s[|s| - 1]) then 0 else 1 + TrailCount(s[..|s| - 1])
  }

  /**
   * `str.strip()`: the text between the leading and the trailing whitespace;
   * it neither starts nor ends with whitespace.
   */
  function Strip(s: string): (r: string)
    ensures |r| <= |s|
    ensures LeadCount(s) + |r| <= |s| && r == s[LeadCount(s)..LeadCount(s) + |r|]
    ensures forall k :: 0 <= k < |s| && !(LeadCount(s) <= k < LeadCount(s) + |r|) ==> IsSpace(s[k])
    ensures r != [] ==> !IsSpace(r[0]) && !IsSpace(r[|r| - 1])
  {
    var t := s[LeadCount(s)..];
    t[..|t| - TrailCount(t)]
  }

  /** Text without whitespace at either end is its own stripped form. */
  lemma StripTrimmed(s: string)
    requires s != [] ==> !IsSpace(s[0]) && !IsSpace(s[|s| - 1])
    ensures Strip(s) == s
  {
    var r := Strip(s);
    if s != [] {
      assert LeadCount(s) == 0;
    }
  }

  /** `name.lower() == 'nan'`. */
  predicate IsNanText(name: string)
  {
    |name| == 3 && name[0] in "nN" && name[1] in "aA" && name[2] in "nN"
  }

  /**
   * The node name for a cell: 'not specified' for a missing cell, for text
   * that is empty after stripping, and for "nan" in any letter case; the
   * stripped text otherwise.
   */
  function NodeName(c: Cell): (name: string)
    ensures name != ""
    ensures c.Missing? ==> name == NotSpecified
    ensures c.Text? && Strip(c.text) != "" && !IsNanText(Strip(c.text)) ==> name == Strip(c.text)
    ensures c.Text? && (Strip(c.text) == "" || IsNanText(Strip(c.text))) ==> name == NotSpecified
  {
    match c
    case Missing => NotSpecified
    case Text(s) =>
      var name := Strip(s);
      if name == "" || IsNanText(name) then NotSpecified else name
  }

  /** Names are already normalised: reading a produced name back gives the same name. */
  lemma NodeNameIdempotent(c: Cell)
    ensures NodeName(Text(NodeName(c))) == NodeName(c)
  {
    var n := NodeName(c);
    if n == NotSpecified {
      StripTrimmed(n);
    } else {
      StripTrimmed(n);
    }
  }

  // ---------------------------------------------------------------------------
  // The specification of build_structured_taxonomy
  // ---------------------------------------------------------------------------

  /** `LENGTH_CONSTANT / (i + 1)` with `LENGTH_CONSTANT` = 1.0. */
  function BranchLength(i: nat): (len: real)
    ensures 0.0 < len <= 1.0
  {
    1.0 / ((i + 1) as real)
  }

  /** A row has a cell for every level. */
  predicate HasLevels(row: Row)
  {
    forall i :: 0 <= i < |TaxonomicLevels| ==> TaxonomicLevels[i] in row
  }

  predicate AllHaveLevels(rows: seq<Row>)
  {
    forall j :: 0 <= j < |rows| ==> HasLevels(rows[j])
  }

  /** The normalised names of a row's seven levels, kingdom first. */
  function Chain(row: Row): (c: seq<string>)
    requires HasLevels(row)
    ensures |c| == |TaxonomicLevels| == LevelCount
  {
    seq(|TaxonomicLevels|, i requires 0 <= i < |TaxonomicLevels| => NodeName(row[TaxonomicLevels[i]]))
  }

  /** The chain's name at level index `i` is the normalised cell of that level. */
  lemma ChainAt(row: Row, i: nat)
    requires HasLevels(row) && i < |TaxonomicLevels|
    ensures Chain(row)[i] == NodeName(row[TaxonomicLevels[i]])
  {
  }

  /** The chains of all rows, in row order. */
  function RowChains(rows: seq<Row>): (cs: seq<seq<string>>)
    requires AllHaveLevels(rows)
    ensures |cs| == |rows| && forall j :: 0 <= j < |rows| ==> cs[j] == Chain(rows[j])
    ensures SevenLevels(cs)
  {
    seq(|rows|, j requires 0 <= j < |rows| => Chain(rows[j]))
  }

  // ---------------------------------------------------------------------------
  // The specification of build_structured_taxonomy, on name chains
  // ---------------------------------------------------------------------------

  /** One visit of a node path: create it with its level's length unless it already exists. */
  function Visit(t: Taxonomy, p: Path): Taxonomy
    requires |p| > 0
  {
    if p in t.lengths then t else Taxonomy(t.lengths[p := BranchLength(|p| - 1)], t.created + [p])
  }

  /** The tree after visiting the first `k` levels of `chain`. */
  function InsertLevels(t: Taxonomy, chain: seq<string>, k: nat): Taxonomy
    requires k <= |chain|
  {
    if k == 0 then t else Visit(InsertLevels(t, chain, k - 1), chain[..k])
  }

  function InsertChain(t: Taxonomy, chain: seq<string>): Taxonomy
  {
    InsertLevels(t, chain, |chain|)
  }

  /** The tree after the first `k` chains. */
  function BuildFrom(chains: seq<seq<string>>, k: nat): Taxonomy
    requires k <= |chains|
  {
    if k == 0 then Taxonomy(map[], []) else InsertChain(BuildFrom(chains, k - 1), chains[k - 1])
  }

  // ---------------------------------------------------------------------------
  // build_structured_taxonomy
  // ---------------------------------------------------------------------------

  /**
   * build_structured_taxonomy: for every row, start at "Root" and, level by
   * level, create the named child if it is absent, then move into it.
   */
  method BuildStructuredTaxonomy(rows: seq<Row>) returns (t: Taxonomy)
    requires AllHaveLevels(rows)
    ensures t == BuildFrom(RowChains(rows), |rows|)
  {
    ghost var chains := RowChains(rows);
    var lengths: map<Path, real> := map[];
    var created: seq<Path> := [];
    var r := 0;
    while r < |rows|
      invariant 0 <= r <= |rows|
      invariant Taxonomy(lengths, created) == BuildFrom(chains, r)
    {
      lengths, created := InsertRowLevels(lengths, created, rows[r]);
      r := r + 1;
    }
    t := Taxonomy(lengths, created);
  }

  /** The inner loop for one row; `current` is the path of `current_node`. */
  method InsertRowLevels(lengths0: map<Path, real>, created0: seq<Path>, row: Row)
    returns (lengths: map<Path, real>, created: seq<Path>)
    requires HasLevels(row)
    ensures Taxonomy(lengths, created) == InsertChain(Taxonomy(lengths0, created0), Chain(row))
  {
    lengths, created := lengths0, created0;
    ghost var chain := Chain(row);
    var current: Path := [];
    var i := 0;
    while i < |TaxonomicLevels|
      invariant 0 <= i <= |TaxonomicLevels|
      invariant current == chain[..i]
      invariant Taxonomy(lengths, created) == InsertLevels(Taxonomy(lengths0, created0), chain, i)
    {
      var nodeName := NodeName(row[TaxonomicLevels[i]]);
      var branchLength := BranchLength(i);
      var child := current + [nodeName];
      ChainAt(row, i);
      assert chain[..i + 1] == chain[..i] + [chain[i]];
      if child !in lengths {
        lengths := lengths[child := branchLength];
        created := created + [child];
      }
      current := child;
      i := i + 1;
    }
  }

  // ---------------------------------------------------------------------------
  // Properties of the built tree
  // ---------------------------------------------------------------------------

  ghost predicate NoDuplicates<T>(s: seq<T>)
  {
    forall i, j :: 0 <= i < j < |s| ==> s[i] != s[j]
  }

  /** `q` is the path of one of the nodes the chain passes through. */
  predicate OnChain(chain: seq<string>, q: Path)
  {
    1 <= |q| <= |chain| && q == chain[..|q|]
  }

  /**
   * The shape invariant of the nested dictionary: every node sits one to
   * seven levels below Root, and every node was created exactly once.
   */
  ghost predicate TrieValid(t: Taxonomy)
  {
    && (forall q :: q in t.lengths ==> 1 <= |q| <= LevelCount)
    && (forall q :: q in t.lengths <==> q in t.created)
    && NoDuplicates(t.created)
  }

  /** Every node's length is the one of its level: 1/(i+1) at level index i. */
  ghost predicate LengthsByLevel(t: Taxonomy)
  {
    forall q :: q in t.lengths ==> |q| >= 1 && t.lengths[q] == BranchLength(|q| - 1)
  }

  /** Visiting adds the path if it is new and never overwrites an existing node or reorders the created ones. */
  lemma VisitKeys(t: Taxonomy, p: Path)
    requires |p| >= 1
    ensures forall q :: q in Visit(t, p).lengths <==> q in t.lengths || q == p
    ensures p in t.lengths ==> Visit(t, p) == t
    ensures forall q :: q in t.lengths ==> Visit(t, p).lengths[q] == t.lengths[q]
    ensures t.created <= Visit(t, p).created
  {
  }

  /** Visiting a path of one to seven names keeps the shape invariant. */
  lemma VisitValid(t: Taxonomy, p: Path)
    requires TrieValid(t) && 1 <= |p| <= LevelCount
    ensures TrieValid(Visit(t, p))
  {
    if p !in t.lengths {
      var t' := Visit(t, p);
      assert p !in t.created;
      forall q ensures q in t'.lengths <==> q in t'.created {
        assert q in t'.created <==> q in t.created || q == p;
      }
      forall i, j | 0 <= i < j < |t'.created| ensures t'.created[i] != t'.created[j] {
        if j == |t.created| {
          assert t.created[i] in t.created;
        }
      }
    }
  }

  /** Visiting gives a new node its level's length. */
  lemma VisitLengths(t: Taxonomy, p: Path)
    requires LengthsByLevel(t) && |p| >= 1
    ensures LengthsByLevel(Visit(t, p))
  {
  }

  /**
   * Inserting the first `k` levels of a chain adds exactly the chain's
   * prefixes of length 1..k, keeps every existing node with its length, and
   * only appends to the creation order.
   */
  lemma {:induction false} InsertLevelsKeys(t: Taxonomy, chain: seq<string>, k: nat)
    requires k <= |chain|
    ensures forall q :: q in InsertLevels(t, chain, k).lengths <==> q in t.lengths || OnChain(chain[..k], q)
    ensures forall q :: q in t.lengths ==> InsertLevels(t, chain, k).lengths[q] == t.lengths[q]
    ensures t.created <= InsertLevels(t, chain, k).created
  {
    if k > 0 {
      InsertLevelsKeys(t, chain, k - 1);
      VisitKeys(InsertLevels(t, chain, k - 1), chain[..k]);
      forall q ensures OnChain(chain[..k], q) <==> OnChain(chain[..k - 1], q) || q == chain[..k] {
        if 1 <= |q| <= k - 1 {
          assert chain[..k][..|q|] == chain[..k - 1][..|q|];
        }
      }
    }
  }

  lemma {:induction false} InsertLevelsValid(t: Taxonomy, chain: seq<string>, k: nat)
    requires TrieValid(t) && |chain| == LevelCount && k <= |chain|
    ensures TrieValid(InsertLevels(t, chain, k))
  {
    if k > 0 {
      InsertLevelsValid(t, chain, k - 1);
      VisitValid(InsertLevels(t, chain, k - 1), chain[..k]);
    }
  }

  lemma {:induction false} InsertLevelsLengths(t: Taxonomy, chain: seq<string>, k: nat)
    requires LengthsByLevel(t) && k <= |chain|
    ensures LengthsByLevel(InsertLevels(t, chain, k))
  {
    if k > 0 {
      InsertLevelsLengths(t, chain, k - 1);
      VisitLengths(InsertLevels(t, chain, k - 1), chain[..k]);
    }
  }

  /** When every prefix of the chain is already a node, inserting it changes nothing. */
  lemma {:induction false} InsertLevelsPresent(t: Taxonomy, chain: seq<string>, k: nat)
    requires k <= |chain|
    requires forall m :: 1 <= m <= k ==> chain[..m] in t.lengths
    ensures InsertLevels(t, chain, k) == t
  {
    if k > 0 {
      InsertLevelsPresent(t, chain, k - 1);
    }
  }

  /** Inserting the same row a second time leaves the tree unchanged. */
  lemma InsertChainIdempotent(t: Taxonomy, chain: seq<string>)
    ensures InsertChain(InsertChain(t, chain), chain) == InsertChain(t, chain)
  {
    InsertLevelsKeys(t, chain, |chain|);
    forall m | 1 <= m <= |chain| ensures chain[..m] in InsertChain(t, chain).lengths {
      assert chain[..|chain|][..m] == chain[..m];
      assert OnChain(chain[..|chain|], chain[..m]);
    }
    InsertLevelsPresent(InsertChain(t, chain), chain, |chain|);
  }

  /** Every chain has one name per level. */
  predicate SevenLevels(chains: seq<seq<string>>)
  {
    forall j :: 0 <= j < |chains| ==> |chains[j]| == LevelCount
  }

  lemma {:induction false} BuildFromValid(chains: seq<seq<string>>, k: nat)
    requires k <= |chains| && SevenLevels(chains)
    ensures TrieValid(BuildFrom(chains, k)) && LengthsByLevel(BuildFrom(chains, k))
  {
    if k > 0 {
      BuildFromValid(chains, k - 1);
      InsertLevelsValid(BuildFrom(chains, k - 1), chains[k - 1], |chains[k - 1]|);
      InsertLevelsLengths(BuildFrom(chains, k - 1), chains[k - 1], |chains[k - 1]|);
    }
  }

  /** After the first `k` rows, the nodes are exactly the nodes on those rows' chains. */
  lemma {:induction false} BuildFromKeys(chains: seq<seq<string>>, k: nat)
    requires k <= |chains|
    ensures forall q :: q in BuildFrom(chains, k).lengths <==> exists j :: 0 <= j < k && OnChain(chains[j], q)
  {
    if k > 0 {
      BuildFromKeys(chains, k - 1);
      var t := BuildFrom(chains, k - 1);
      var chain := chains[k - 1];
      InsertLevelsKeys(t, chain, |chain|);
      assert chain[..|chain|] == chain;
      var t' := BuildFrom(chains, k);
      forall q
        ensures q in t'.lengths <==> exists j :: 0 <= j < k && OnChain(chains[j], q)
      {
        if q in t.lengths {
          var j :| 0 <= j < k - 1 && OnChain(chains[j], q);
          assert 0 <= j < k && OnChain(chains[j], q);
        } else if OnChain(chain, q) {
          assert OnChain(chains[k - 1], q);
        }
        if exists j :: 0 <= j < k && OnChain(chains[j], q) {
          var j :| 0 <= j < k && OnChain(chains[j], q);
          if j < k - 1 {
            assert q in t.lengths;
          }
        }
      }
    }
  }

  /**
   * The built tree: one to seven levels deep, every node created once and
   * with the length of its level, and the nodes are exactly those on the
   * rows' chains.
   */
  lemma BuildFromSpec(chains: seq<seq<string>>)
    requires SevenLevels(chains)
    ensures TrieValid(BuildFrom(chains, |chains|))
    ensures forall q :: q in BuildFrom(chains, |chains|).lengths ==> BuildFrom(chains, |chains|).lengths[q] == BranchLength(|q| - 1)
    ensures forall q :: q in BuildFrom(chains, |chains|).lengths <==> exists j :: 0 <= j < |chains| && OnChain(chains[j], q)
  {
    BuildFromValid(chains, |chains|);
    BuildFromKeys(chains, |chains|);
  }

  /** The built tree is prefix-closed: the parent of every node below the top level is a node. */
  lemma BuiltParents(chains: seq<seq<string>>, q: Path)
    requires SevenLevels(chains)
    requires q in BuildFrom(chains, |chains|).lengths && |q| > 1
    ensures q[..|q| - 1] in BuildFrom(chains, |chains|).lengths
  {
    BuildFromKeys(chains, |chains|);
    var j :| 0 <= j < |chains| && OnChain(chains[j], q);
    assert OnChain(chains[j], q[..|q| - 1]);
  }

  /** The names of `p`'s children, in the order they were created (the order of its `children` dictionary). */
  function ChildNames(created: seq<Path>, p: Path): seq<string>
  {
    if created == [] then []
    else
      var c := created[0];
      (if |c| == |p| + 1 && c[..|p|] == p then [c[|p|]] else []) + ChildNames(created[1..], p)
  }

  /** A name is among `p`'s children exactly when `p` extended by it was created; no name appears twice. */
  lemma {:induction false} ChildNamesSpec(created: seq<Path>, p: Path)
    requires NoDuplicates(created)
    ensures forall x :: x in ChildNames(created, p) <==> p + [x] in created
    ensures NoDuplicates(ChildNames(created, p))
  {
    if created != [] {
      var c := created[0];
      ChildNamesSpec(created[1..], p);
      if |c| == |p| + 1 && c[..|p|] == p {
        assert c == p + [c[|p|]];
        assert p + [c[|p|]] !in created[1..];
      }
      forall x ensures p + [x] in created <==> p + [x] == c || p + [x] in created[1..] {
        assert created == [c] + created[1..];
      }
      forall x | p + [x] == c ensures |c| == |p| + 1 && c[..|p|] == p && c[|p|] == x {
      }
    }
  }

  /**
   * The returned top level (Root's `children`) holds exactly the first
   * (kingdom) names of the chains, each once.
   */
  lemma TopLevelIsKingdoms(chains: seq<seq<string>>)
    requires SevenLevels(chains)
    ensures forall x :: x in ChildNames(BuildFrom(chains, |chains|).created, []) <==>
      exists j :: 0 <= j < |chains| && chains[j][0] == x
    ensures NoDuplicates(ChildNames(BuildFrom(chains, |chains|).created, []))
  {
    var t := BuildFrom(chains, |chains|);
    BuildFromValid(chains, |chains|);
    BuildFromKeys(chains, |chains|);
    ChildNamesSpec(t.created, []);
    forall x
      ensures x in ChildNames(t.created, []) <==> exists j :: 0 <= j < |chains| && chains[j][0] == x
    {
      assert [] + [x] == [x];
      TopLevelNode(chains, t, x);
    }
  }

  lemma TopLevelNode(chains: seq<seq<string>>, t: Taxonomy, x: string)
    requires SevenLevels(chains)
    requires forall q :: q in t.lengths <==> exists j :: 0 <= j < |chains| && OnChain(chains[j], q)
    ensures [x] in t.lengths <==> exists j :: 0 <= j < |chains| && chains[j][0] == x
  {
    if exists j :: 0 <= j < |chains| && chains[j][0] == x {
      var j :| 0 <= j < |chains| && chains[j][0] == x;
      assert chains[j][..1] == [x];
      assert OnChain(chains[j], [x]);
    }
    if [x] in t.lengths {
      var j :| 0 <= j < |chains| && OnChain(chains[j], [x]);
      assert chains[j][0] == x;
    }
  }

  // ---------------------------------------------------------------------------
  // create_taxonomy_json_file: the required-column check
  // ---------------------------------------------------------------------------

  /** The table pandas reads: its column names and its rows. */
  datatype Frame = Frame(columns: seq<string>, rows: seq<Row>)

  /** Every row has a cell for every column (a DataFrame is rectangular). */
  ghost predicate Rectangular(f: Frame)
  {
    forall j, c :: 0 <= j < |f.rows| && c in f.columns ==> c in f.rows[j]
  }

  /** The required columns the table lacks, in level order. */
  function MissingColumns(columns: seq<string>): (missing: seq<string>)
    ensures forall l :: l in missing <==> l in TaxonomicLevels && l !in columns
    ensures IsSubsequence(missing, TaxonomicLevels)
  {
    Filter(TaxonomicLevels, l => l !in columns)
  }

  /**
   * create_taxonomy_json_file after reading the table: with a required
   * column absent it reports the missing columns (and writes nothing);
   * otherwise it builds the tree that is then written out.
   */
  method CreateTaxonomyJsonFile(f: Frame) returns (r: Result<Taxonomy, seq<string>>)
    requires Rectangular(f)
    ensures r.Failure? <==> exists l :: l in TaxonomicLevels && l !in f.columns
    ensures r.Failure? ==> r.error == MissingColumns(f.columns) && r.error != []
    ensures r.Success? ==> AllHaveLevels(f.rows) && r.value == BuildFrom(RowChains(f.rows), |f.rows|)
  {
    var missing := MissingColumns(f.columns);
    if missing != [] {
      return Failure(missing);
    }
    forall j | 0 <= j < |f.rows| ensures HasLevels(f.rows[j]) {
      forall i | 0 <= i < |TaxonomicLevels| ensures TaxonomicLevels[i] in f.rows[j] {
        var l := TaxonomicLevels[i];
        assert l !in missing;
        assert l in f.columns;
      }
    }
    var tree := BuildStructuredTaxonomy(f.rows);
    return Success(tree);
  }
}
