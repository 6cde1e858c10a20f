/**
 * The radial taxonomy tree's state (Alex/Tree2.js).
 *
 * The page loads a nested name -> children JSON object, turns it into a node
 * tree, lets d3 wrap it into a hierarchy, and from then on only moves each
 * node's list of sub-nodes between the `children` field (drawn) and the
 * `_children` field (hidden). The hierarchy's shape therefore never changes
 * after it is built, so a node is identified here by its position: the
 * sequence of child indices that leads to it from the root. The root is `[]`,
 * a node's depth (d3's `depth`) is the length of its position, and its
 * ancestors are the proper prefixes of its position.
 */
module TaxonomyTree {
  import opened Common

  // ---------------------------------------------------------------------------
  // Input JSON and its conversion (convertJsonToD3_2)
  // ---------------------------------------------------------------------------

  /** A JSON object member: a taxon name and the object stored under it. */
  datatype JsonEntry = JsonEntry(key: string, value: JsonTaxon)

  /** The `children` member of a taxon object: absent (or null), or an object with keys in key order. */
  datatype JsonChildren = NoChildren | ChildObject(entries: seq<JsonEntry>)

  /** A taxon object of the taxonomy file; its other members (`length`) are not read. */
  datatype JsonTaxon = JsonTaxon(children: JsonChildren)

  /** The `children` field of a converted node: deleted, or an array of nodes. */
  datatype D3Kids = NoKids | Kids(nodes: seq<D3Node>)

  /** `{ name, children }` as built by convertJsonToD3_2. */
  datatype D3Node = D3Node(name: string, children: D3Kids)

  /** `nodeContainer.children || {}`: the members of the children object, or none. */
  function EntriesOf(c: JsonTaxon): seq<JsonEntry>
  {
    match c.children
    case NoChildren => []
    case ChildObject(es) => es
  }

  /**
   * convertJsonToD3_2: one child node per key of `children`, in key order,
   * each converted recursively; a taxon with no or an empty `children`
   * object becomes a node without a `children` field.
   */
  function ConvertJsonToD3(c: JsonTaxon, name: string): (node: D3Node)
    ensures node.name == name
    ensures node.children.NoKids? <==> EntriesOf(c) == []
    ensures node.children.Kids? ==>
      |node.children.nodes| == |EntriesOf(c)| &&
      forall i :: 0 <= i < |EntriesOf(c)| ==> node.children.nodes[i].name == EntriesOf(c)[i].key
  {
    match c.children
    case NoChildren => D3Node(name, NoKids)
    case ChildObject(es) =>
      if |es| == 0 then D3Node(name, NoKids)
      else D3Node(name, Kids(seq(|es|, i requires 0 <= i < |es| => ConvertJsonToD3(es[i].value, es[i].key))))
  }

  // ---------------------------------------------------------------------------
  // The d3 hierarchy and the two sub-node fields
  // ---------------------------------------------------------------------------

  /** Position of a node: the child indices leading to it from the root. */
  type NodeId = seq<nat>

  /** A sub-node field of a hierarchy node: null/undefined, or an array of nodes. */
  datatype Slot = Absent | Present(nodes: seq<HNode>)

  /**
   * A hierarchy node: its identity, `data.name`, and the two fields the page
   * swaps, `children` (drawn) and `_children` (hidden).
   */
  datatype HNode = HNode(id: NodeId, name: string, children: Slot, hidden: Slot)

  /** d3's `depth`. */
  function Depth(n: HNode): nat
  {
    |n.id|
  }

  predicate IsExpanded(n: HNode)
  {
    n.children.Present?
  }

  /** `d._children && !d.children` */
  predicate IsCollapsed(n: HNode)
  {
    n.children.Absent? && n.hidden.Present?
  }

  /** `!d.children && !d._children` */
  predicate IsLeaf(n: HNode)
  {
    n.children.Absent? && n.hidden.Absent?
  }

  /**
   * The list a node holds, whichever field it is in. This is the field the
   * page reads first: `children` when present, otherwise `_children`.
   */
  function Held(n: HNode): seq<HNode>
  {
    if n.children.Present? then n.children.nodes
    else if n.hidden.Present? then n.hidden.nodes
    else []
  }

  /** The node at relative position `p` below `n`, following the held lists. */
  function At(n: HNode, p: NodeId): Option<HNode>
    decreases |p|
  {
    if p == [] then Some(n)
    else if p[0] < |Held(n)| then At(Held(n)[p[0]], p[1..])
    else None
  }

  /**
   * The shape of a hierarchy as d3.hierarchy and the page keep it: never
   * both fields at once, no empty array, and every sub-node at index i of a
   * node with position q has position q + [i].
   */
  ghost predicate WellFormed(n: HNode)
  {
    !(n.children.Present? && n.hidden.Present?) &&
    SlotWellFormed(n.children, n.id) && SlotWellFormed(n.hidden, n.id)
  }

  ghost predicate SlotWellFormed(s: Slot, parent: NodeId)
  {
    s.Present? ==>
      |s.nodes| > 0 &&
      forall i :: 0 <= i < |s.nodes| ==> s.nodes[i].id == parent + [i] && WellFormed(s.nodes[i])
  }

  /**
   * d3.hierarchy(rootNode, d => d.children): a node gets a `children` array
   * exactly when its data has a non-empty `children` array; nothing is hidden
   * yet.
   */
  function Hierarchy(d: D3Node, id: NodeId): (n: HNode)
    ensures n.id == id && n.name == d.name && n.hidden.Absent?
    ensures IsLeaf(n) <==> d.children.NoKids? || |d.children.nodes| == 0
    ensures WellFormed(n)
  {
    match d.children
    case NoKids => HNode(id, d.name, Absent, Absent)
    case Kids(ds) =>
      if |ds| == 0 then HNode(id, d.name, Absent, Absent)
      else HNode(id, d.name, Present(seq(|ds|, i requires 0 <= i < |ds| => Hierarchy(ds[i], id + [i]))), Absent)
  }

  // ---------------------------------------------------------------------------
  // What never changes: the skeleton
  // ---------------------------------------------------------------------------

  /** A node with its identity, its name and the skeletons of what it holds, whichever field that is in. */
  datatype Shape = Shape(id: NodeId, name: string, kids: seq<Shape>)

  /** The hierarchy with the drawn/hidden distinction erased; `children` is listed before `_children`. */
  function Skeleton(n: HNode): Shape
  {
    Shape(n.id, n.name, SlotSkeleton(n.children) + SlotSkeleton(n.hidden))
  }

  function SlotSkeleton(s: Slot): seq<Shape>
  {
    match s
    case Absent => []
    case Present(ks) => seq(|ks|, i requires 0 <= i < |ks| => Skeleton(ks[i]))
  }

  lemma HeldWellFormed(n: HNode, j: nat)
    requires WellFormed(n) && j < |Held(n)|
    ensures WellFormed(Held(n)[j]) && Held(n)[j].id == n.id + [j]
  {
  }

  /** Every node of a well-formed hierarchy is well formed and sits at its position. */
  lemma {:induction false} AtWellFormed(n: HNode, p: NodeId)
    requires WellFormed(n) && At(n, p).Some?
    ensures WellFormed(At(n, p).value) && At(n, p).value.id == n.id + p
    decreases |p|
  {
    if p != [] {
      HeldWellFormed(n, p[0]);
      AtWellFormed(Held(n)[p[0]], p[1..]);
      assert n.id + [p[0]] + p[1..] == n.id + p;
    }
  }

  // ---------------------------------------------------------------------------
  // collapseBelowDepth
  // ---------------------------------------------------------------------------

  /**
   * collapseBelowDepth(d, targetDepth, pathToKeepVisible): an expanded node
   * at depth >= targetDepth that is not protected has its `children` moved to
   * `_children`; then the call recurses into `children` and into `_children`,
   * so already hidden subtrees are reached too.
   */
  function CollapseBelowDepth(n: HNode, targetDepth: int, keep: set<NodeId>): HNode
  {
    var mustCollapse := Depth(n) >= targetDepth && n.children.Present?;
    var isProtected := |keep| > 0 && n.id in keep;
    if mustCollapse && !isProtected then
      n.(children := Absent, hidden := CollapseSlot(n.children, targetDepth, keep))
    else
      n.(children := CollapseSlot(n.children, targetDepth, keep), hidden := CollapseSlot(n.hidden, targetDepth, keep))
  }

  function CollapseSlot(s: Slot, targetDepth: int, keep: set<NodeId>): (r: Slot)
    ensures r.Present? == s.Present?
    ensures r.Present? ==> |r.nodes| == |s.nodes|
  {
    match s
    case Absent => Absent
    case Present(ks) => Present(seq(|ks|, i requires 0 <= i < |ks| => CollapseBelowDepth(ks[i], targetDepth, keep)))
  }

  lemma HeldCollapse(n: HNode, targetDepth: int, keep: set<NodeId>)
    ensures var c := CollapseBelowDepth(n, targetDepth, keep);
      |Held(c)| == |Held(n)| &&
      forall j :: 0 <= j < |Held(n)| ==> Held(c)[j] == CollapseBelowDepth(Held(n)[j], targetDepth, keep)
  {
  }

  /**
   * For every node: it stays where it is, a leaf stays a leaf, and it is
   * expanded afterwards exactly when it was expanded and is shallower than
   * the target or protected; every node it collapses was expanded.
   */
  lemma {:induction false} CollapseAt(n: HNode, targetDepth: int, keep: set<NodeId>, p: NodeId)
    requires At(n, p).Some?
    ensures At(CollapseBelowDepth(n, targetDepth, keep), p).Some?
    ensures var m, m' := At(n, p).value, At(CollapseBelowDepth(n, targetDepth, keep), p).value;
      && m'.id == m.id && m'.name == m.name
      && (IsLeaf(m') <==> IsLeaf(m))
      && (IsExpanded(m') <==> IsExpanded(m) && (Depth(m) < targetDepth || m.id in keep))
      && (IsCollapsed(m') <==> IsCollapsed(m) || (IsExpanded(m) && Depth(m) >= targetDepth && m.id !in keep))
    decreases |p|
  {
    if p != [] {
      HeldCollapse(n, targetDepth, keep);
      CollapseAt(Held(n)[p[0]], targetDepth, keep, p[1..]);
    }
  }

  /** Collapsing keeps the hierarchy well formed and adds or removes no node: the skeleton is unchanged. */
  lemma {:induction false} CollapseKeepsSkeleton(n: HNode, targetDepth: int, keep: set<NodeId>)
    requires WellFormed(n)
    ensures WellFormed(CollapseBelowDepth(n, targetDepth, keep))
    ensures Skeleton(CollapseBelowDepth(n, targetDepth, keep)) == Skeleton(n)
    decreases n, 1
  {
    CollapseSlotKeepsSkeleton(n.children, n.id, targetDepth, keep);
    CollapseSlotKeepsSkeleton(n.hidden, n.id, targetDepth, keep);
    var c := CollapseBelowDepth(n, targetDepth, keep);
    if Depth(n) >= targetDepth && n.children.Present? && !(|keep| > 0 && n.id in keep) {
      assert SlotSkeleton(c.children) + SlotSkeleton(c.hidden) == SlotSkeleton(n.children) + SlotSkeleton(n.hidden);
    }
  }

  lemma {:induction false} CollapseSlotKeepsSkeleton(s: Slot, parent: NodeId, targetDepth: int, keep: set<NodeId>)
    requires SlotWellFormed(s, parent)
    ensures SlotWellFormed(CollapseSlot(s, targetDepth, keep), parent)
    ensures SlotSkeleton(CollapseSlot(s, targetDepth, keep)) == SlotSkeleton(s)
    decreases s, 0
  {
    if s.Present? {
      var ks := s.nodes;
      forall i | 0 <= i < |ks|
        ensures WellFormed(CollapseBelowDepth(ks[i], targetDepth, keep))
        ensures Skeleton(CollapseBelowDepth(ks[i], targetDepth, keep)) == Skeleton(ks[i])
      {
        CollapseKeepsSkeleton(ks[i], targetDepth, keep);
      }
    }
  }

  // ---------------------------------------------------------------------------
  // The slider's expand-all step
  // ---------------------------------------------------------------------------

  /**
   * `vizRoot.each(d => { if (d._children) { d.children = d._children; d._children = null; } })`:
   * d3 runs the callback on a node before it walks that node's `children`,
   * so the walk reaches every node.
   */
  function ExpandAll(n: HNode): HNode
  {
    if n.hidden.Present? then n.(children := ExpandSlot(n.hidden), hidden := Absent)
    else n.(children := ExpandSlot(n.children))
  }

  function ExpandSlot(s: Slot): (r: Slot)
    ensures r.Present? == s.Present?
    ensures r.Present? ==> |r.nodes| == |s.nodes|
  {
    match s
    case Absent => Absent
    case Present(ks) => Present(seq(|ks|, i requires 0 <= i < |ks| => ExpandAll(ks[i])))
  }

  lemma HeldExpand(n: HNode)
    requires !(n.children.Present? && n.hidden.Present?)
    ensures |Held(ExpandAll(n))| == |Held(n)|
    ensures forall j :: 0 <= j < |Held(n)| ==> Held(ExpandAll(n))[j] == ExpandAll(Held(n)[j])
  {
  }

  /** After expanding everything, every node that holds sub-nodes draws them. */
  lemma {:induction false} ExpandAllAt(n: HNode, p: NodeId)
    requires WellFormed(n) && At(n, p).Some?
    ensures At(ExpandAll(n), p).Some?
    ensures var m, m' := At(n, p).value, At(ExpandAll(n), p).value;
      && m'.id == m.id && m'.name == m.name
      && (IsLeaf(m') <==> IsLeaf(m))
      && (!IsLeaf(m') ==> IsExpanded(m'))
    decreases |p|
  {
    HeldExpand(n);
    if p != [] {
      HeldWellFormed(n, p[0]);
      ExpandAllAt(Held(n)[p[0]], p[1..]);
    }
  }

  lemma {:induction false} ExpandAllKeepsSkeleton(n: HNode)
    requires WellFormed(n)
    ensures WellFormed(ExpandAll(n))
    ensures Skeleton(ExpandAll(n)) == Skeleton(n)
    decreases n, 1
  {
    ExpandSlotKeepsSkeleton(n.children, n.id);
    ExpandSlotKeepsSkeleton(n.hidden, n.id);
    var e := ExpandAll(n);
    if n.hidden.Present? {
      assert SlotSkeleton(e.children) + SlotSkeleton(e.hidden) == SlotSkeleton(n.children) + SlotSkeleton(n.hidden);
    }
  }

  lemma {:induction false} ExpandSlotKeepsSkeleton(s: Slot, parent: NodeId)
    requires SlotWellFormed(s, parent)
    ensures SlotWellFormed(ExpandSlot(s), parent)
    ensures SlotSkeleton(ExpandSlot(s)) == SlotSkeleton(s)
    decreases s, 0
  {
    if s.Present? {
      var ks := s.nodes;
      forall i | 0 <= i < |ks|
        ensures WellFormed(ExpandAll(ks[i])) && Skeleton(ExpandAll(ks[i])) == Skeleton(ks[i])
      {
        ExpandAllKeepsSkeleton(ks[i]);
      }
    }
  }

  /** The slider's handler: expand everything, then collapse from `newDepth` with nothing protected. */
  function SliderState(root: HNode, newDepth: int): HNode
  {
    CollapseBelowDepth(ExpandAll(root), newDepth, {})
  }

  /** After the slider handler, a node with sub-nodes is expanded exactly when its depth is below the new depth. */
  lemma SliderStatusAt(root: HNode, newDepth: int, p: NodeId)
    requires WellFormed(root) && At(root, p).Some?
    ensures At(SliderState(root, newDepth), p).Some?
    ensures var m, m' := At(root, p).value, At(SliderState(root, newDepth), p).value;
      && m'.id == m.id
      && (IsLeaf(m') <==> IsLeaf(m))
      && (!IsLeaf(m') ==> (IsExpanded(m') <==> Depth(m') < newDepth))
      && (!IsLeaf(m') ==> (IsCollapsed(m') <==> Depth(m') >= newDepth))
  {
    ExpandAllAt(root, p);
    CollapseAt(ExpandAll(root), newDepth, {}, p);
  }

  // ---------------------------------------------------------------------------
  // The click toggle
  // ---------------------------------------------------------------------------

  /**
   * The click handler's swap: a collapsed node gets its `_children` back as
   * `children`; otherwise an expanded node moves `children` to `_children`;
   * a leaf is left alone.
   */
  function Toggle(m: HNode): (t: HNode)
    ensures t.id == m.id && t.name == m.name
  {
    if m.children.Absent? && m.hidden.Present? then m.(children := m.hidden, hidden := Absent)
    else if m.children.Present? then m.(hidden := m.children, children := Absent)
    else m
  }

  /** The toggle expands a collapsed node, collapses an expanded one, keeps a leaf, and keeps the held list. */
  lemma ToggleStatus(m: HNode)
    requires WellFormed(m)
    ensures IsExpanded(Toggle(m)) <==> IsCollapsed(m)
    ensures IsCollapsed(Toggle(m)) <==> IsExpanded(m)
    ensures IsLeaf(Toggle(m)) <==> IsLeaf(m)
    ensures Held(Toggle(m)) == Held(m)
    ensures WellFormed(Toggle(m)) && Skeleton(Toggle(m)) == Skeleton(m)
    ensures Toggle(Toggle(m)) == m
  {
    var t := Toggle(m);
    assert SlotSkeleton(t.children) + SlotSkeleton(t.hidden) == SlotSkeleton(m.children) + SlotSkeleton(m.hidden);
  }

  /** `n` with the node at relative position `p` replaced by `x`, inside whichever field holds the path. */
  function ReplaceAt(n: HNode, p: NodeId, x: HNode): HNode
    decreases |p|
  {
    if p == [] then x
    else if p[0] < |Held(n)| then
      var k := ReplaceAt(Held(n)[p[0]], p[1..], x);
      if n.children.Present? then n.(children := Present(n.children.nodes[p[0] := k]))
      else n.(hidden := Present(n.hidden.nodes[p[0] := k]))
    else n
  }

  /** The click handler on the node at `p`: nothing happens for a missing or unnamed node. */
  function ClickAt(root: HNode, p: NodeId): HNode
  {
    match At(root, p)
    case None => root
    case Some(m) => if m.name == "" then root else ReplaceAt(root, p, Toggle(m))
  }

  /** Same identity, name and status: the fields that differ, if any, are deeper in the subtree. */
  predicate SameStatus(a: HNode, b: HNode)
  {
    a.id == b.id && a.name == b.name &&
    a.children.Present? == b.children.Present? && a.hidden.Present? == b.hidden.Present?
  }

  /**
   * Replacing the node at `p` by one holding the same list: the node at `p`
   * becomes `x`, every other node keeps its position and status, and the
   * nodes below `p` are exactly those that were there.
   */
  lemma {:induction false} ReplaceAtOthers(n: HNode, p: NodeId, x: HNode, q: NodeId)
    requires At(n, p).Some? && Held(x) == Held(At(n, p).value)
    ensures At(ReplaceAt(n, p, x), p) == Some(x)
    ensures At(ReplaceAt(n, p, x), q).Some? <==> At(n, q).Some?
    ensures q != p && At(n, q).Some? ==> SameStatus(At(ReplaceAt(n, p, x), q).value, At(n, q).value)
    ensures |q| > |p| && q[..|p|] == p ==> At(ReplaceAt(n, p, x), q) == At(n, q)
    decreases |p|
  {
    if p == [] {
      if q != [] && q[0] < |Held(n)| {
        assert Held(x)[q[0]] == Held(n)[q[0]];
      }
    } else {
      var n' := ReplaceAt(n, p, x);
      var k := ReplaceAt(Held(n)[p[0]], p[1..], x);
      assert Held(n') == Held(n)[p[0] := k];
      ReplaceAtOthers(Held(n)[p[0]], p[1..], x, p[1..]);
      if q != [] && q[0] == p[0] {
        ReplaceAtOthers(Held(n)[p[0]], p[1..], x, q[1..]);
        if |q| > |p| && q[..|p|] == p {
          assert q[1..][..|p[1..]|] == p[1..];
        }
      }
    }
  }

  /** Replacing a node by itself changes nothing. */
  lemma {:induction false} ReplaceSame(n: HNode, p: NodeId)
    requires At(n, p).Some?
    ensures ReplaceAt(n, p, At(n, p).value) == n
    decreases |p|
  {
    if p != [] {
      ReplaceSame(Held(n)[p[0]], p[1..]);
      if n.children.Present? {
        assert n.children.nodes[p[0] := Held(n)[p[0]]] == n.children.nodes;
      } else {
        assert n.hidden.nodes[p[0] := Held(n)[p[0]]] == n.hidden.nodes;
      }
    }
  }

  /** A second replacement at the same position undoes the first. */
  lemma {:induction false} ReplaceTwice(n: HNode, p: NodeId, x: HNode, y: HNode)
    requires At(n, p).Some? && Held(x) == Held(At(n, p).value)
    ensures ReplaceAt(ReplaceAt(n, p, x), p, y) == ReplaceAt(n, p, y)
    decreases |p|
  {
    if p != [] {
      var j := p[0];
      var n' := ReplaceAt(n, p, x);
      ReplaceAtOthers(n, p, x, []);
      ReplaceTwice(Held(n)[j], p[1..], x, y);
      var k := ReplaceAt(Held(n)[j], p[1..], x);
      var z := ReplaceAt(Held(n)[j], p[1..], y);
      assert ReplaceAt(k, p[1..], y) == z;
      if n.children.Present? {
        assert n.children.nodes[j := k][j := z] == n.children.nodes[j := z];
      } else {
        assert n.hidden.nodes[j := k][j := z] == n.hidden.nodes[j := z];
      }
    }
  }

  /** Replacing a node of a well-formed hierarchy by a well-formed node with the same position and skeleton keeps both. */
  lemma {:induction false} ReplaceKeepsSkeleton(n: HNode, p: NodeId, x: HNode)
    requires WellFormed(n) && At(n, p).Some?
    requires WellFormed(x) && x.id == At(n, p).value.id && Skeleton(x) == Skeleton(At(n, p).value)
    ensures WellFormed(ReplaceAt(n, p, x)) && Skeleton(ReplaceAt(n, p, x)) == Skeleton(n)
    decreases |p|
  {
    if p != [] {
      var j := p[0];
      var c := Held(n)[j];
      HeldWellFormed(n, j);
      ReplaceKeepsSkeleton(c, p[1..], x);
      var k := ReplaceAt(c, p[1..], x);
      var n' := ReplaceAt(n, p, x);
      if n.children.Present? {
        assert n'.children.nodes == n.children.nodes[j := k];
        assert SlotSkeleton(n'.children) == SlotSkeleton(n.children);
      } else {
        assert n'.hidden.nodes == n.hidden.nodes[j := k];
        assert SlotSkeleton(n'.hidden) == SlotSkeleton(n.hidden);
      }
    }
  }

  /**
   * A click on the named node at `p` toggles exactly that node: it expands
   * if collapsed, collapses if expanded, a leaf stays a leaf, and every
   * other node keeps its status. The hierarchy keeps its skeleton.
   */
  lemma ClickEffect(root: HNode, p: NodeId, q: NodeId)
    requires WellFormed(root) && At(root, p).Some? && At(root, p).value.name != ""
    ensures At(ClickAt(root, p), p).Some?
    ensures var m, m' := At(root, p).value, At(ClickAt(root, p), p).value;
      (IsExpanded(m') <==> IsCollapsed(m)) && (IsCollapsed(m') <==> IsExpanded(m)) && (IsLeaf(m') <==> IsLeaf(m))
    ensures At(ClickAt(root, p), q).Some? <==> At(root, q).Some?
    ensures q != p && At(root, q).Some? ==> SameStatus(At(ClickAt(root, p), q).value, At(root, q).value)
    ensures WellFormed(ClickAt(root, p)) && Skeleton(ClickAt(root, p)) == Skeleton(root)
  {
    var m := At(root, p).value;
    AtWellFormed(root, p);
    ToggleStatus(m);
    ReplaceAtOthers(root, p, Toggle(m), q);
    ReplaceKeepsSkeleton(root, p, Toggle(m));
  }

  /** A click on the unnamed root (or on any unnamed node) changes nothing. */
  lemma ClickUnnamed(root: HNode, p: NodeId)
    requires At(root, p).Some? ==> At(root, p).value.name == ""
    ensures ClickAt(root, p) == root
  {
  }

  /** Two clicks on the same node restore the hierarchy. */
  lemma ClickTwice(root: HNode, p: NodeId)
    requires WellFormed(root)
    ensures ClickAt(ClickAt(root, p), p) == root
  {
    if At(root, p).Some? && At(root, p).value.name != "" {
      var m := At(root, p).value;
      AtWellFormed(root, p);
      ToggleStatus(m);
      ReplaceAtOthers(root, p, Toggle(m), p);
      ReplaceTwice(root, p, Toggle(m), m);
      ReplaceSame(root, p);
    }
  }

  // ---------------------------------------------------------------------------
  // The parent map and the path to the root
  // ---------------------------------------------------------------------------

  /** The skeleton at relative position `p`. */
  function ShapeAt(s: Shape, p: NodeId): Option<Shape>
    decreases |p|
  {
    if p == [] then Some(s)
    else if p[0] < |s.kids| then ShapeAt(s.kids[p[0]], p[1..])
    else None
  }

  /** Every sub-shape at index i of a shape with position q has position q + [i]. */
  ghost predicate ShapeWellFormed(s: Shape)
  {
    forall i :: 0 <= i < |s.kids| ==> s.kids[i].id == s.id + [i] && ShapeWellFormed(s.kids[i])
  }

  /** A well-formed hierarchy has a well-formed skeleton that follows the held lists. */
  lemma {:induction false} SkeletonWellFormed(n: HNode)
    requires WellFormed(n)
    ensures ShapeWellFormed(Skeleton(n))
    ensures |Skeleton(n).kids| == |Held(n)|
    ensures forall i :: 0 <= i < |Held(n)| ==> Skeleton(n).kids[i] == Skeleton(Held(n)[i])
    decreases n
  {
    var ks := Held(n);
    SkeletonKids(n);
    forall i | 0 <= i < |ks|
      ensures Skeleton(n).kids[i].id == n.id + [i] && ShapeWellFormed(Skeleton(n).kids[i])
    {
      HeldWellFormed(n, i);
      SkeletonWellFormed(ks[i]);
    }
  }

  lemma SkeletonKids(n: HNode)
    requires !(n.children.Present? && n.hidden.Present?)
    ensures |Skeleton(n).kids| == |Held(n)|
    ensures forall i :: 0 <= i < |Held(n)| ==> Skeleton(n).kids[i] == Skeleton(Held(n)[i])
  {
    if n.children.Present? {
      assert Skeleton(n).kids == SlotSkeleton(n.children);
    } else {
      assert Skeleton(n).kids == SlotSkeleton(n.hidden);
    }
  }

  /** The positions of a hierarchy and of its skeleton are the same. */
  lemma {:induction false} SkeletonAt(n: HNode, p: NodeId)
    requires WellFormed(n)
    ensures At(n, p).Some? <==> ShapeAt(Skeleton(n), p).Some?
    decreases |p|
  {
    SkeletonWellFormed(n);
    if p != [] && p[0] < |Held(n)| {
      HeldWellFormed(n, p[0]);
      SkeletonAt(Held(n)[p[0]], p[1..]);
    }
  }

  /** The parent of a position: none for the root, otherwise the position with its last index dropped. */
  function Parent(q: NodeId): Option<NodeId>
  {
    if q == [] then None else Some(q[..|q| - 1])
  }

  /**
   * The entries `traverse(node, parent)` adds to the parent map: the node
   * itself, then each sub-node's entries in order (the node's `children`
   * first, then its `_children`, which is the skeleton's order).
   */
  function ShapeEntries(s: Shape, parent: Option<NodeId>): map<NodeId, Option<NodeId>>
    decreases s, 1, 0
  {
    map[s.id := parent] + KidsEntries(s, |s.kids|)
  }

  /** The entries added by traversing the first `k` sub-shapes of `s`. */
  function KidsEntries(s: Shape, k: nat): map<NodeId, Option<NodeId>>
    requires k <= |s.kids|
    decreases s, 0, k
  {
    if k == 0 then map[] else KidsEntries(s, k - 1) + ShapeEntries(s.kids[k - 1], Some(s.id))
  }

  /** `q` lies below the shape `s` (or is `s` itself) and is reached from it. */
  ghost predicate Reaches(s: Shape, q: NodeId)
  {
    |s.id| <= |q| && q[..|s.id|] == s.id && ShapeAt(s, q[|s.id|..]).Some?
  }

  /** `q` is reached from one of the first `k` sub-shapes of `s`. */
  ghost predicate ReachesAmong(s: Shape, q: NodeId, k: nat)
    requires k <= |s.kids|
  {
    k > 0 && (ReachesAmong(s, q, k - 1) || Reaches(s.kids[k - 1], q))
  }

  /**
   * The traversal from a shape maps exactly the positions it reaches, the
   * shape itself to `parent` and every other one to its parent position.
   */
  lemma {:induction false} ShapeEntriesSpec(s: Shape, parent: Option<NodeId>, q: NodeId)
    requires ShapeWellFormed(s)
    ensures q in ShapeEntries(s, parent) <==> Reaches(s, q)
    ensures q in ShapeEntries(s, parent) ==> ShapeEntries(s, parent)[q] == if q == s.id then parent else Parent(q)
    decreases s, 1, 0
  {
    KidsEntriesSpec(s, |s.kids|, q);
    ReachesAmongSpec(s, q, |s.kids|);
    if q == s.id {
      assert q[|s.id|..] == [];
    }
  }

  lemma {:induction false} KidsEntriesSpec(s: Shape, k: nat, q: NodeId)
    requires ShapeWellFormed(s) && k <= |s.kids|
    ensures q in KidsEntries(s, k) <==> ReachesAmong(s, q, k)
    ensures q in KidsEntries(s, k) ==> KidsEntries(s, k)[q] == Parent(q)
    decreases s, 0, k
  {
    if k > 0 {
      var c := s.kids[k - 1];
      var before := KidsEntries(s, k - 1);
      var last := ShapeEntries(c, Some(s.id));
      assert KidsEntries(s, k) == before + last;
      KidsEntriesSpec(s, k - 1, q);
      ShapeEntriesSpec(c, Some(s.id), q);
      if q in last {
        assert (before + last)[q] == last[q];
        if q == c.id {
          assert c.id[..|c.id| - 1] == s.id;
        }
      } else if q in before {
        assert (before + last)[q] == before[q];
      }
    }
  }

  /** What the first `k` sub-shapes reach is what the shape reaches below itself through an index under `k`. */
  lemma {:induction false} ReachesAmongSpec(s: Shape, q: NodeId, k: nat)
    requires ShapeWellFormed(s) && k <= |s.kids|
    ensures ReachesAmong(s, q, k) <==> Reaches(s, q) && |q| > |s.id| && q[|s.id|] < k
  {
    if k > 0 {
      ReachesAmongSpec(s, q, k - 1);
      ReachesKid(s, k - 1, q);
    }
  }

  /** What the sub-shape at index `j` reaches is what the shape reaches through index `j`. */
  lemma ReachesKid(s: Shape, j: nat, q: NodeId)
    requires ShapeWellFormed(s) && j < |s.kids|
    ensures Reaches(s.kids[j], q) <==> Reaches(s, q) && |q| > |s.id| && q[|s.id|] == j
  {
    var c := s.kids[j];
    var d := |s.id|;
    assert c.id == s.id + [j];
    if |q| > d {
      assert q[d..][1..] == q[d + 1..];
      if q[..d + 1] == c.id {
        assert q[..d] == s.id && q[d] == j;
      }
      if q[..d] == s.id && q[d] == j {
        assert q[..d + 1] == c.id;
      }
    }
  }

  /** Positions reached from the skeleton are closed under taking prefixes. */
  lemma {:induction false} ShapeAtPrefix(s: Shape, p: NodeId, k: nat)
    requires ShapeAt(s, p).Some? && k <= |p|
    ensures ShapeAt(s, p[..k]).Some?
    decreases |p|
  {
    if k > 0 {
      ShapeAtPrefix(s.kids[p[0]], p[1..], k - 1);
      assert p[..k][1..] == p[1..][..k - 1];
    }
  }

  /**
   * The parent map built from the root of a well-formed hierarchy: its keys
   * are exactly the positions of the hierarchy's nodes (hidden or not), the
   * root maps to null and every other node to its parent, which is a key too.
   */
  lemma ParentMapSpec(root: HNode, q: NodeId)
    requires WellFormed(root) && root.id == []
    ensures q in ShapeEntries(Skeleton(root), None) <==> At(root, q).Some?
    ensures q in ShapeEntries(Skeleton(root), None) ==> ShapeEntries(Skeleton(root), None)[q] == Parent(q)
    ensures q in ShapeEntries(Skeleton(root), None) && q != [] ==> q[..|q| - 1] in ShapeEntries(Skeleton(root), None)
  {
    var sk := Skeleton(root);
    SkeletonWellFormed(root);
    ShapeEntriesSpec(sk, None, q);
    assert q[|sk.id|..] == q;
    SkeletonAt(root, q);
    if q in ShapeEntries(sk, None) && q != [] {
      var q' := q[..|q| - 1];
      ShapeAtPrefix(sk, q, |q| - 1);
      ShapeEntriesSpec(sk, None, q');
      assert q'[|sk.id|..] == q';
    }
  }

  /** The positions of `q` and all its ancestors. */
  function Prefixes(q: NodeId): (r: set<NodeId>)
    ensures q in r && [] in r
    ensures forall a :: a in r ==> |a| <= |q| && a == q[..|a|]
    ensures forall k :: 0 <= k <= |q| ==> q[..k] in r
  {
    assert q[..|q|] == q && q[..0] == [];
    PrefixesFrom(q, 0)
  }

  /** The prefixes of `q` of length at least `k`. */
  function PrefixesFrom(q: NodeId, k: nat): set<NodeId>
  {
    set j | k <= j <= |q| :: q[..j]
  }

  /** Lowering the least length by one adds the prefix of that length. */
  lemma PrefixesFromStep(q: NodeId, k: nat)
    requires k <= |q|
    ensures PrefixesFrom(q, k) == PrefixesFrom(q, k + 1) + {q[..k]}
  {
    forall a | a in PrefixesFrom(q, k) ensures a in PrefixesFrom(q, k + 1) + {q[..k]} {
      var j :| k <= j <= |q| && a == q[..j];
    }
  }

  // ---------------------------------------------------------------------------
  // Visibility and labels
  // ---------------------------------------------------------------------------

  /** The node at `p` if it is drawn, i.e. reached through `children` fields only. */
  function VisibleAt(n: HNode, p: NodeId): Option<HNode>
    decreases |p|
  {
    if p == [] then Some(n)
    else if n.children.Present? && p[0] < |n.children.nodes| then VisibleAt(n.children.nodes[p[0]], p[1..])
    else None
  }

  /** A drawn node is a node of the hierarchy, and every one of its proper ancestors is expanded. */
  lemma {:induction false} VisibleAncestorsExpanded(n: HNode, p: NodeId, k: nat)
    requires VisibleAt(n, p).Some? && k < |p|
    ensures At(n, p) == VisibleAt(n, p)
    ensures At(n, p[..k]).Some? && IsExpanded(At(n, p[..k]).value)
    decreases |p|
  {
    if k == 0 {
      assert p[..k] == [];
    } else {
      VisibleAncestorsExpanded(n.children.nodes[p[0]], p[1..], k - 1);
      assert p[..k][1..] == p[1..][..k - 1];
    }
    if |p| > 1 {
      VisibleAncestorsExpanded(n.children.nodes[p[0]], p[1..], 0);
    }
  }

  /**
   * The label's opacity in `update`: 1 when the node is on the path from the
   * update's source to the root, is a leaf, or is collapsed; 0 otherwise.
   */
  function LabelOpacity(m: HNode, sourcePath: set<NodeId>): (o: nat)
    ensures o <= 1
  {
    if m.id in sourcePath || IsLeaf(m) || IsCollapsed(m) then 1 else 0
  }

  /**
   * After a redraw from the node at `source`, a drawn node's label shows
   * exactly when the node is on the path from `source` to the root, is a
   * leaf, or is collapsed: an expanded node off that path has its label
   * hidden.
   */
  lemma UpdateLabels(root: HNode, source: NodeId, p: NodeId)
    requires WellFormed(root) && root.id == [] && At(root, source).Some?
    requires VisibleAt(root, p).Some?
    ensures var m := VisibleAt(root, p).value;
      LabelOpacity(m, Prefixes(source)) == 1 <==>
        (|p| <= |source| && p == source[..|p|]) || IsLeaf(m) || IsCollapsed(m)
  {
    if p != [] {
      VisibleAncestorsExpanded(root, p, 0);
    }
    AtWellFormed(root, p);
    assert At(root, p).value.id == p by {
      assert root.id + p == p;
    }
  }

  /**
   * After a click on a named node, a drawn node's label shows exactly when
   * the node is the clicked one or one of its ancestors, is a leaf, or is
   * collapsed.
   */
  lemma ClickLabels(root: HNode, clicked: NodeId, p: NodeId)
    requires WellFormed(root) && root.id == [] && At(root, clicked).Some?
    requires At(root, clicked).value.name != ""
    requires VisibleAt(ClickAt(root, clicked), p).Some?
    ensures var m := VisibleAt(ClickAt(root, clicked), p).value;
      LabelOpacity(m, Prefixes(clicked)) == 1 <==>
        (|p| <= |clicked| && p == clicked[..|p|]) || IsLeaf(m) || IsCollapsed(m)
  {
    ClickEffect(root, clicked, clicked);
    if clicked == [] {
      assert ClickAt(root, clicked) == Toggle(root);
    } else {
      ClickEffect(root, clicked, []);
    }
    UpdateLabels(ClickAt(root, clicked), clicked, p);
  }

  /** The slider handler keeps the hierarchy well formed and its positions. */
  lemma SliderPositions(root: HNode, newDepth: int, q: NodeId)
    requires WellFormed(root)
    ensures At(SliderState(root, newDepth), q).Some? <==> At(root, q).Some?
  {
    ExpandAllKeepsSkeleton(root);
    CollapseKeepsSkeleton(ExpandAll(root), newDepth, {});
    SkeletonAt(root, q);
    SkeletonAt(SliderState(root, newDepth), q);
  }

  /** After the slider handler, the node at `p` has position `p` and is expanded exactly when it has sub-nodes and depth below `newDepth`. */
  lemma SliderNodeAt(root: HNode, newDepth: int, p: NodeId)
    requires WellFormed(root) && root.id == [] && At(SliderState(root, newDepth), p).Some?
    ensures var m' := At(SliderState(root, newDepth), p).value;
      m'.id == p && (!IsLeaf(m') ==> (IsExpanded(m') <==> |p| < newDepth) && (IsCollapsed(m') <==> |p| >= newDepth))
  {
    SliderPositions(root, newDepth, p);
    AtWellFormed(root, p);
    assert At(root, p).value.id == p by {
      assert root.id + p == p;
    }
    SliderStatusAt(root, newDepth, p);
  }

  /**
   * After the slider is moved to `newDepth` (and the redraw from the root),
   * a drawn node's label shows exactly when it is the root, a leaf, or sits
   * at depth `newDepth`; nothing deeper than `newDepth` is drawn.
   */
  lemma SliderLabels(root: HNode, newDepth: int, p: NodeId)
    requires WellFormed(root) && root.id == []
    requires VisibleAt(SliderState(root, newDepth), p).Some?
    ensures p == [] || |p| <= newDepth
    ensures LabelOpacity(VisibleAt(SliderState(root, newDepth), p).value, {[]}) == 1 <==>
      p == [] || IsLeaf(VisibleAt(SliderState(root, newDepth), p).value) || |p| == newDepth
  {
    var st := SliderState(root, newDepth);
    if p != [] {
      VisibleAncestorsExpanded(st, p, |p| - 1);
      SliderNodeAt(root, newDepth, p[..|p| - 1]);
      SliderNodeAt(root, newDepth, p);
    }
  }


  // ---------------------------------------------------------------------------
  // The page's state: createTreemap, update, click and the depth slider
  // ---------------------------------------------------------------------------

  /** `ctx.COLLAPSE_DEPTH` when the page loads. */
  const InitialCollapseDepth: int := 2

  /** The hierarchy d3 builds from the loaded taxonomy object (wrapped under an unnamed root). */
  function InitialHierarchy(data: seq<JsonEntry>): HNode
  {
    Hierarchy(ConvertJsonToD3(JsonTaxon(ChildObject(data)), ""), [])
  }

  /**
   * The module-level state of the page: `vizRoot`, `nodeParentMap`,
   * `selectedPath`, the `sourcePath` of the last redraw and
   * `ctx.COLLAPSE_DEPTH`.
   */
  class TaxonomyView {
    var root: HNode
    var parentMap: map<NodeId, Option<NodeId>>
    var selectedPath: set<NodeId>
    var sourcePath: set<NodeId>
    var collapseDepth: int

    /** The hierarchy is well formed, rooted at position [], and the parent map was built from it. */
    ghost predicate Valid()
      reads this
    {
      WellFormed(root) && root.id == [] && parentMap == ShapeEntries(Skeleton(root), None)
    }

    /**
     * createTreemap: convert and wrap the data, build the parent map, select
     * the root's path, collapse below the initial depth protecting that
     * path, and draw from the root.
     */
    constructor (data: seq<JsonEntry>)
      ensures Valid()
      ensures root == CollapseBelowDepth(InitialHierarchy(data), InitialCollapseDepth, {[]})
      ensures Skeleton(root) == Skeleton(InitialHierarchy(data))
      ensures selectedPath == {[]} && sourcePath == {[]}
      ensures collapseDepth == InitialCollapseDepth
    {
      root := InitialHierarchy(data);
      parentMap := map[];
      selectedPath := {};
      sourcePath := {};
      collapseDepth := InitialCollapseDepth;
      new;
      BuildParentMap();
      selectedPath := GetPathToRoot([]);
      assert selectedPath == {[]};
      CollapseKeepsSkeleton(root, collapseDepth, selectedPath);
      root := CollapseBelowDepth(root, collapseDepth, selectedPath);
      Update([]);
    }

    /** buildParentMap: clear the map, then traverse from the root with no parent. */
    method BuildParentMap()
      modifies this`parentMap
      ensures parentMap == ShapeEntries(Skeleton(root), None)
    {
      parentMap := map[];
      Traverse(Skeleton(root), None);
    }

    /**
     * traverse(node, parent): record the parent, then traverse the node's
     * `children` and then its `_children`. The skeleton lists exactly those
     * sub-nodes in that order, so the walk goes over the skeleton's kids.
     */
    method Traverse(s: Shape, parent: Option<NodeId>)
      modifies this`parentMap
      ensures parentMap == old(parentMap) + ShapeEntries(s, parent)
      decreases s
    {
      ghost var start := old(parentMap) + map[s.id := parent];
      parentMap := parentMap[s.id := parent];
      assert parentMap == start + KidsEntries(s, 0);
      var i := 0;
      while i < |s.kids|
        invariant 0 <= i <= |s.kids|
        invariant parentMap == start + KidsEntries(s, i)
      {
        Traverse(s.kids[i], Some(s.id));
        assert parentMap == start + KidsEntries(s, i + 1) by {
          MapUnionAssoc(start, KidsEntries(s, i), ShapeEntries(s.kids[i], Some(s.id)));
        }
        i := i + 1;
      }
      MapUnionAssoc(old(parentMap), map[s.id := parent], KidsEntries(s, |s.kids|));
    }

    /**
     * getPathToRoot: follow the parent map upwards from `q`, collecting every
     * position met. For a node of the hierarchy that is the node and all its
     * ancestors; a position the map does not know yields just itself.
     */
    method GetPathToRoot(q: NodeId) returns (path: set<NodeId>)
      requires Valid()
      ensures At(root, q).Some? ==> path == Prefixes(q)
      ensures At(root, q).None? ==> path == {q}
    {
      ParentMapSpec(root, q);
      path := {};
      var current := Some(q);
      ghost var k: nat := |q| + 1;
      assert path == PrefixesFrom(q, k);
      while current.Some?
        invariant k <= |q| + 1
        invariant current.Some? ==> k == |current.value| + 1 && current.value == q[..|current.value|]
        invariant current.Some? && current.value != q ==> current.value in parentMap && q in parentMap
        invariant path == PrefixesFrom(q, k)
        invariant current.None? ==> if q in parentMap then k == 0 else path == {q}
        decreases k
      {
        var c := current.value;
        ParentMapSpec(root, c);
        PrefixesFromStep(q, |c|);
        path := path + {c};
        k := |c|;
        if c in parentMap {
          current := parentMap[c];
          if c != [] {
            assert c[..|c| - 1] == q[..|c| - 1];
          }
        } else {
          current := None;
          assert c == q;
          assert path == {q};
        }
      }
    }

    /** update(source), as far as its state goes: the source's root path becomes both `sourcePath` and `selectedPath`. */
    method Update(source: NodeId)
      requires Valid()
      modifies this`sourcePath, this`selectedPath
      ensures sourcePath == selectedPath == if At(root, source).Some? then Prefixes(source) else {source}
    {
      sourcePath := GetPathToRoot(source);
      selectedPath := GetPathToRoot(source);
    }

    /** click(event, d) on the node at `p`. An unnamed node is ignored; otherwise it is toggled and the view redrawn from it. */
    method Click(p: NodeId)
      requires Valid() && At(root, p).Some?
      modifies this
      ensures Valid()
      ensures root == ClickAt(old(root), p) && Skeleton(root) == Skeleton(old(root))
      ensures parentMap == old(parentMap) && collapseDepth == old(collapseDepth)
      ensures old(At(root, p)).value.name == "" ==> unchanged(this)
      ensures old(At(root, p)).value.name != "" ==> sourcePath == selectedPath == Prefixes(p)
    {
      var m := At(root, p).value;
      if m.name == "" {
        return;
      }
      ClickEffect(root, p, p);
      root := ClickAt(root, p);
      Update(p);
    }

    /** The slider's input handler: expand everything, collapse from `newDepth` unprotected, remember the depth, redraw from the root. */
    method SetDepth(newDepth: int)
      requires Valid()
      modifies this
      ensures Valid()
      ensures root == SliderState(old(root), newDepth) && Skeleton(root) == Skeleton(old(root))
      ensures parentMap == old(parentMap)
      ensures collapseDepth == newDepth
      ensures sourcePath == selectedPath == {[]}
    {
      ExpandAllKeepsSkeleton(root);
      root := ExpandAll(root);
      CollapseKeepsSkeleton(root, newDepth, {});
      root := CollapseBelowDepth(root, newDepth, {});
      collapseDepth := newDepth;
      Update([]);
    }
  }

  lemma MapUnionAssoc<K, V>(a: map<K, V>, b: map<K, V>, c: map<K, V>)
    ensures a + (b + c) == (a + b) + c
  {
  }
}
