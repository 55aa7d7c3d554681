/** The data side of the sets manager: colouring the canonical hierarchy, listing node
    keys, listing leaf paths, appending them to the colour table, grafting intersection
    nodes into the user-defined hierarchy, and splitting selection keys between the two. */
module SetsManager {
  import opened Common
  import opened SetTree
  import opened SetIntersections

  // ---------------------------------------------------------------------------
  // processNode / processSets

  /** `processNode(node, prevPath, setColor, theme)`: the node with every colour resolved
      from the colour table by full path. The recursive call passes no theme, so below the
      root the fallback is `getDefaultColor(undefined)`. */
  function ProcessNode(node: Node, prevPath: Path, setColor: Option<seq<ColorEntry>>,
                       theme: Option<string>, defaultColor: Option<string> -> Color): (r: Node)
    ensures r.name == node.name && r.members == node.members
    ensures (r.children.Children? <==> node.children.Children?) && |Kids(r)| == |Kids(node)|
    ensures FindColorEntry(setColor.GetOr([]), prevPath + [node.name]).None? ==> r.color == Some(defaultColor(theme))
    decreases node, 1
  {
    var nodePath := prevPath + [node.name];
    node.(children := match node.children
                      case NoChildren => NoChildren
                      case Children(cs) => Children(ProcessChildren(cs, nodePath, setColor, defaultColor)),
          color := Some(ResolvedColor(setColor.GetOr([]), nodePath, defaultColor(theme))))
  }

  function ProcessChildren(cs: seq<Node>, nodePath: Path, setColor: Option<seq<ColorEntry>>,
                           defaultColor: Option<string> -> Color): (r: seq<Node>)
    ensures |r| == |cs|
    ensures forall i :: 0 <= i < |cs| ==> r[i].name == cs[i].name && r[i].members == cs[i].members
    decreases cs, 0
  {
    seq(|cs|, i requires 0 <= i < |cs| => ProcessNode(cs[i], nodePath, setColor, None, defaultColor))
  }

  /** `processSets(sets, setColor, theme)` on the `tree` of `sets`; `[]` when `sets` is absent. */
  function ProcessSets(sets: Option<seq<Node>>, setColor: Option<seq<ColorEntry>>,
                       theme: Option<string>, defaultColor: Option<string> -> Color): (r: seq<Node>)
    ensures sets.None? ==> r == []
    ensures sets.Some? ==> |r| == |sets.value|
  {
    match sets
    case None => []
    case Some(tree) => seq(|tree|, i requires 0 <= i < |tree| => ProcessNode(tree[i], [], setColor, theme, defaultColor))
  }

  /** The node with every colour removed: its shape, names and member lists. */
  function EraseColors(n: Node): Node
    decreases n, 1
  {
    n.(children := match n.children
                   case NoChildren => NoChildren
                   case Children(cs) => Children(EraseAll(cs)),
       color := None)
  }

  function EraseAll(cs: seq<Node>): (r: seq<Node>)
    ensures |r| == |cs|
    decreases cs, 0
  {
    seq(|cs|, i requires 0 <= i < |cs| => EraseColors(cs[i]))
  }

  /** Processing only recolours: names, member lists and the shape of the tree are kept. */
  lemma {:induction false} ProcessNodeKeepsShape(node: Node, prevPath: Path, setColor: Option<seq<ColorEntry>>,
                                                 theme: Option<string>, defaultColor: Option<string> -> Color)
    ensures EraseColors(ProcessNode(node, prevPath, setColor, theme, defaultColor)) == EraseColors(node)
    decreases node
  {
    match node.children
    case NoChildren =>
    case Children(cs) =>
      var nodePath := prevPath + [node.name];
      var ps := ProcessChildren(cs, nodePath, setColor, defaultColor);
      forall i | 0 <= i < |cs| ensures EraseColors(ps[i]) == EraseColors(cs[i]) {
        ProcessNodeKeepsShape(cs[i], nodePath, setColor, None, defaultColor);
      }
      assert EraseAll(ps) == EraseAll(cs);
  }

  /** Node `n`, found under `prevPath`, has the colour resolved from `table` for its full
      path with fallback `fallback`, and so do its descendants with fallback `below`. */
  ghost predicate ColoredFrom(n: Node, prevPath: Path, table: seq<ColorEntry>, fallback: Color, below: Color)
    decreases n, 1
  {
    n.color == Some(ResolvedColor(table, prevPath + [n.name], fallback)) &&
    match n.children
    case NoChildren => true
    case Children(cs) => ColoredAll(cs, prevPath + [n.name], table, below)
  }

  ghost predicate ColoredAll(cs: seq<Node>, prevPath: Path, table: seq<ColorEntry>, below: Color)
    decreases cs, 0
  {
    forall i :: 0 <= i < |cs| ==> ColoredFrom(cs[i], prevPath, table, below, below)
  }

  /** Every processed node takes the colour of the first table entry for its path; without
      one, the root falls back to the theme's default colour and every descendant to the
      default colour for no theme. */
  lemma {:induction false} ProcessNodeColors(node: Node, prevPath: Path, setColor: Option<seq<ColorEntry>>,
                                             theme: Option<string>, defaultColor: Option<string> -> Color)
    ensures ColoredFrom(ProcessNode(node, prevPath, setColor, theme, defaultColor), prevPath,
                        setColor.GetOr([]), defaultColor(theme), defaultColor(None))
    decreases node
  {
    match node.children
    case NoChildren =>
    case Children(cs) =>
      var nodePath := prevPath + [node.name];
      var ps := ProcessChildren(cs, nodePath, setColor, defaultColor);
      forall i | 0 <= i < |cs|
        ensures ColoredFrom(ps[i], nodePath, setColor.GetOr([]), defaultColor(None), defaultColor(None))
      {
        ProcessNodeColors(cs[i], nodePath, setColor, None, defaultColor);
      }
  }

  /** `processSets` keeps each root's shape and colours each root tree from the table. */
  lemma ProcessSetsColors(sets: seq<Node>, setColor: Option<seq<ColorEntry>>,
                          theme: Option<string>, defaultColor: Option<string> -> Color)
    ensures forall i :: 0 <= i < |sets| ==>
              EraseColors(ProcessSets(Some(sets), setColor, theme, defaultColor)[i]) == EraseColors(sets[i]) &&
              ColoredFrom(ProcessSets(Some(sets), setColor, theme, defaultColor)[i], [],
                          setColor.GetOr([]), defaultColor(theme), defaultColor(None))
  {
    forall i | 0 <= i < |sets|
      ensures EraseColors(ProcessSets(Some(sets), setColor, theme, defaultColor)[i]) == EraseColors(sets[i]) &&
              ColoredFrom(ProcessSets(Some(sets), setColor, theme, defaultColor)[i], [],
                          setColor.GetOr([]), defaultColor(theme), defaultColor(None))
    {
      ProcessNodeKeepsShape(sets[i], [], setColor, theme, defaultColor);
      ProcessNodeColors(sets[i], [], setColor, theme, defaultColor);
    }
  }

  // ---------------------------------------------------------------------------
  // getAllKeys

  /** The full path of every node of the tree rooted at `n`, in pre-order. */
  function NodePaths(n: Node, prevPath: Path): (r: seq<Path>)
    ensures |r| == Size(n)
    decreases n, 1
  {
    var p := prevPath + [n.name];
    [p] + match n.children
          case NoChildren => []
          case Children(cs) => NodePathsOfAll(cs, p)
  }

  function NodePathsOfAll(cs: seq<Node>, prevPath: Path): (r: seq<Path>)
    ensures |r| == SizeOfAll(cs)
    decreases cs, 0
  {
    if cs == [] then [] else NodePathsOfAll(cs[..|cs| - 1], prevPath) + NodePaths(cs[|cs| - 1], prevPath)
  }

  /** `q` is a path below `prevPath` that ends in `name`. */
  predicate PathTo(q: Path, prevPath: Path, name: string)
  {
    |q| > |prevPath| && q[..|prevPath|] == prevPath && q[|q| - 1] == name
  }

  lemma PathToShorten(q: Path, prevPath: Path, step: string, name: string)
    requires PathTo(q, prevPath + [step], name)
    ensures PathTo(q, prevPath, name)
  {
    assert q[..|prevPath|] == q[..|prevPath| + 1][..|prevPath|];
  }

  /** The `i`-th path names the `i`-th node of the pre-order walk and extends `prevPath`. */
  lemma {:induction false} NodePathsNameNodes(n: Node, prevPath: Path)
    ensures forall i :: 0 <= i < Size(n) ==> PathTo(NodePaths(n, prevPath)[i], prevPath, PreOrder(n)[i].name)
    decreases n, 1
  {
    var p := prevPath + [n.name];
    assert p[..|prevPath|] == prevPath;
    match n.children
    case NoChildren =>
    case Children(cs) =>
      NodePathsOfAllNameNodes(cs, p);
      forall i | 1 <= i < Size(n) ensures PathTo(NodePaths(n, prevPath)[i], prevPath, PreOrder(n)[i].name) {
        assert NodePaths(n, prevPath)[i] == NodePathsOfAll(cs, p)[i - 1];
        assert PreOrder(n)[i] == PreOrderOfAll(cs)[i - 1];
        PathToShorten(NodePathsOfAll(cs, p)[i - 1], prevPath, n.name, PreOrderOfAll(cs)[i - 1].name);
      }
  }

  lemma {:induction false} NodePathsOfAllNameNodes(cs: seq<Node>, prevPath: Path)
    ensures forall i :: 0 <= i < SizeOfAll(cs) ==> PathTo(NodePathsOfAll(cs, prevPath)[i], prevPath, PreOrderOfAll(cs)[i].name)
    decreases cs, 0
  {
    if cs != [] {
      var init := cs[..|cs| - 1];
      var last := cs[|cs| - 1];
      NodePathsOfAllNameNodes(init, prevPath);
      NodePathsNameNodes(last, prevPath);
      var k := SizeOfAll(init);
      var ps, ns := NodePathsOfAll(cs, prevPath), PreOrderOfAll(cs);
      assert ps == NodePathsOfAll(init, prevPath) + NodePaths(last, prevPath);
      assert ns == PreOrderOfAll(init) + PreOrder(last);
      forall i | 0 <= i < SizeOfAll(cs) ensures PathTo(ps[i], prevPath, ns[i].name) {
        if i < k {
          assert ps[i] == NodePathsOfAll(init, prevPath)[i] && ns[i] == PreOrderOfAll(init)[i];
        } else {
          assert ps[i] == NodePaths(last, prevPath)[i - k] && ns[i] == PreOrder(last)[i - k];
        }
      }
    }
  }

  /** `getAllKeys(node, path)` for a present node: the key of the node's own path, then
      the keys of its descendants. A leaf's single key is a one-element list here, as every
      caller flattens the result. */
  function AllKeys<K>(node: Node, path: Path, pathToKey: Path -> K): (r: seq<K>)
    ensures |r| == Size(node)
    ensures r[0] == pathToKey(path + [node.name])
    decreases node, 1
  {
    var newPath := path + [node.name];
    [pathToKey(newPath)] + match node.children
                           case NoChildren => []
                           case Children(cs) => AllKeysOfAll(cs, newPath, pathToKey)
  }

  /** `nodes.flatMap(v => getAllKeys(v, path))`. */
  function AllKeysOfAll<K>(cs: seq<Node>, path: Path, pathToKey: Path -> K): (r: seq<K>)
    ensures |r| == SizeOfAll(cs)
    decreases cs, 0
  {
    if cs == [] then [] else AllKeysOfAll(cs[..|cs| - 1], path, pathToKey) + AllKeys(cs[|cs| - 1], path, pathToKey)
  }

  /** `getAllKeys(node, path)`: `null` for an absent node. */
  function GetAllKeys<K>(node: Option<Node>, path: Path, pathToKey: Path -> K): (r: Option<seq<K>>)
    ensures r.None? <==> node.None?
    ensures r.Some? ==> |r.value| == Size(node.value) && r.value[0] == pathToKey(path + [node.value.name])
  {
    match node
    case None => None
    case Some(n) => Some(AllKeys(n, path, pathToKey))
  }

  /** `getAllKeys` lists exactly one key per node: the key of that node's full path, in
      pre-order. */
  lemma {:induction false} AllKeysArePathKeys<K>(node: Node, path: Path, pathToKey: Path -> K)
    ensures forall i :: 0 <= i < Size(node) ==> AllKeys(node, path, pathToKey)[i] == pathToKey(NodePaths(node, path)[i])
    decreases node, 1
  {
    match node.children
    case NoChildren =>
    case Children(cs) =>
      AllKeysOfAllArePathKeys(cs, path + [node.name], pathToKey);
  }

  lemma {:induction false} AllKeysOfAllArePathKeys<K>(cs: seq<Node>, path: Path, pathToKey: Path -> K)
    ensures forall i :: 0 <= i < SizeOfAll(cs) ==> AllKeysOfAll(cs, path, pathToKey)[i] == pathToKey(NodePathsOfAll(cs, path)[i])
    decreases cs, 0
  {
    if cs != [] {
      AllKeysOfAllArePathKeys(cs[..|cs| - 1], path, pathToKey);
      AllKeysArePathKeys(cs[|cs| - 1], path, pathToKey);
    }
  }

  // ---------------------------------------------------------------------------
  // findPaths

  /** A node that `findPaths` reports: no children, or an empty children array. */
  predicate IsLeaf(n: Node)
  {
    n.children.NoChildren? || |n.children.nodes| == 0
  }

  /** `findPaths(node, path)`: one `{ path, colors }` entry per leaf, left to right. */
  function FindPaths(node: Node, path: Path): (r: seq<ColorEntry>)
    ensures |r| > 0
    decreases node, 1
  {
    var currentPath := path + [node.name];
    match node.children
    case NoChildren => [ColorEntry(currentPath, node.color)]
    case Children(cs) =>
      if |cs| > 0 then FindPathsOfAll(cs, currentPath) else [ColorEntry(currentPath, node.color)]
  }

  function FindPathsOfAll(cs: seq<Node>, path: Path): (r: seq<ColorEntry>)
    ensures |r| >= |cs|
    decreases cs, 0
  {
    if cs == [] then [] else FindPathsOfAll(cs[..|cs| - 1], path) + FindPaths(cs[|cs| - 1], path)
  }

  /** The leaves of the tree rooted at `n`, in pre-order. */
  function Leaves(n: Node): seq<Node>
  {
    Filter(PreOrder(n), IsLeaf)
  }

  function LeavesOfAll(cs: seq<Node>): seq<Node>
  {
    Filter(PreOrderOfAll(cs), IsLeaf)
  }

  /** Entry `e` stands for leaf `d` at or below `path`: it carries d's colour and a path
      that starts with `path` and ends in d's name. */
  predicate EntryFor(e: ColorEntry, d: Node, path: Path)
  {
    e.color == d.color && |e.path| > 0 && |e.path| >= |path| && e.path[..|path|] == path && e.path[|e.path| - 1] == d.name
  }

  lemma EntryForShorten(e: ColorEntry, d: Node, path: Path, step: string)
    requires EntryFor(e, d, path + [step])
    ensures EntryFor(e, d, path)
  {
    assert e.path[..|path|] == e.path[..|path| + 1][..|path|];
  }

  /** `findPaths` reports the leaves of the tree and only those, in pre-order, each with
      its own colour under a path that starts with the node's own path. */
  lemma {:induction false} FindPathsAreLeaves(node: Node, path: Path)
    ensures |FindPaths(node, path)| == |Leaves(node)|
    ensures forall i :: 0 <= i < |Leaves(node)| ==> EntryFor(FindPaths(node, path)[i], Leaves(node)[i], path + [node.name])
    decreases node, 1
  {
    var p := path + [node.name];
    if IsLeaf(node) {
      LeafIsOwnLeaf(node);
      assert FindPaths(node, path) == [ColorEntry(p, node.color)];
      assert p[..|p|] == p;
    } else {
      var cs := node.children.nodes;
      assert FindPaths(node, path) == FindPathsOfAll(cs, p);
      FindPathsOfAllAreLeaves(cs, p);
      InnerLeaves(node);
    }
  }

  /** A leaf is its own only leaf. */
  lemma LeafIsOwnLeaf(node: Node)
    requires IsLeaf(node)
    ensures Leaves(node) == [node]
  {
    assert [node][..0] == [];
    match node.children
    case NoChildren =>
    case Children(cs) => assert PreOrderOfAll(cs) == [];
    assert PreOrder(node) == [node];
  }

  /** The leaves of an inner node are those of its children. */
  lemma InnerLeaves(node: Node)
    requires !IsLeaf(node)
    ensures Leaves(node) == LeavesOfAll(node.children.nodes)
  {
    var cs := node.children.nodes;
    assert PreOrder(node) == [node] + PreOrderOfAll(cs);
    FilterAppend([node], PreOrderOfAll(cs), IsLeaf);
    assert [node][..0] == [];
  }

  lemma {:induction false} FindPathsOfAllAreLeaves(cs: seq<Node>, path: Path)
    ensures |FindPathsOfAll(cs, path)| == |LeavesOfAll(cs)|
    ensures forall i :: 0 <= i < |LeavesOfAll(cs)| ==> EntryFor(FindPathsOfAll(cs, path)[i], LeavesOfAll(cs)[i], path)
    decreases cs, 0
  {
    if cs != [] {
      var init := cs[..|cs| - 1];
      var last := cs[|cs| - 1];
      FindPathsOfAllAreLeaves(init, path);
      FindPathsAreLeaves(last, path);
      FilterAppend(PreOrderOfAll(init), PreOrder(last), IsLeaf);
      var es, ls := FindPathsOfAll(cs, path), LeavesOfAll(cs);
      var esInit, lsInit := FindPathsOfAll(init, path), LeavesOfAll(init);
      var esLast, lsLast := FindPaths(last, path), Leaves(last);
      assert es == esInit + esLast;
      assert ls == lsInit + lsLast;
      var k := |lsInit|;
      forall i | 0 <= i < |ls| ensures EntryFor(es[i], ls[i], path) {
        if i < k {
          assert es[i] == esInit[i] && ls[i] == lsInit[i];
        } else {
          assert es[i] == esLast[i - k] && ls[i] == lsLast[i - k];
          EntryForShorten(es[i], ls[i], path, last.name);
        }
      }
    }
  }

  /** `pathsAndColors`: the leaf entries of every root of the user-defined tree, root by
      root; none when that tree is absent. */
  function LeafEntries(additionalSets: Option<seq<Node>>): seq<ColorEntry>
  {
    match additionalSets
    case None => []
    case Some(tree) => FindPathsOfAll(tree, [])
  }

  /** The colour table `setColor`, which the view appends to on every render. */
  class ColorTable {
    var entries: seq<ColorEntry>

    constructor (entries: seq<ColorEntry>)
      ensures this.entries == entries
    {
      this.entries := entries;
    }

    /** Lines 269-279: collect every leaf path of the user-defined tree, then push one
        entry per leaf onto the table. */
    method AppendLeafPaths(additionalSets: Option<seq<Node>>)
      modifies this
      ensures entries == old(entries) + LeafEntries(additionalSets)
    {
      var pathsAndColors: seq<ColorEntry> := [];
      if additionalSets.Some? {
        var tree := additionalSets.value;
        var i := 0;
        while i < |tree|
          invariant 0 <= i <= |tree|
          invariant pathsAndColors == FindPathsOfAll(tree[..i], [])
        {
          assert tree[..i + 1][..i] == tree[..i];
          pathsAndColors := pathsAndColors + FindPaths(tree[i], []);
          i := i + 1;
        }
        assert tree[..|tree|] == tree;
      }
      var j := 0;
      while j < |pathsAndColors|
        invariant 0 <= j <= |pathsAndColors|
        invariant entries == old(entries) + pathsAndColors[..j]
      {
        entries := entries + [ColorEntry(pathsAndColors[j].path, pathsAndColors[j].color)];
        assert pathsAndColors[..j + 1] == pathsAndColors[..j] + [pathsAndColors[j]];
        j := j + 1;
      }
      assert pathsAndColors[..|pathsAndColors|] == pathsAndColors;
    }
  }

  // ---------------------------------------------------------------------------
  // processAdditionalSets / processAdditionalNode

  /** `additionalSets.tree?.[0]?.children?.length ?? 0`. */
  function TargetIndex(tree: seq<Node>): (index: nat)
    ensures |tree| > 0 && tree[0].children.Children? ==> index == |tree[0].children.nodes|
    ensures |tree| == 0 || tree[0].children.NoChildren? ==> index == 0
  {
    if |tree| == 0 then 0
    else match tree[0].children
         case NoChildren => 0
         case Children(cs) => |cs|
  }

  /** `node.children?.[index - 1]`: absent for index 0, a node without children, or an
      index past the end. */
  function TargetChild(node: Node, index: nat): (r: Option<Node>)
    ensures r.Some? <==> 0 < index <= |Kids(node)|
    ensures r.Some? ==> r.value == Kids(node)[index - 1]
  {
    if index == 0 then None
    else match node.children
         case NoChildren => None
         case Children(cs) => if index - 1 < |cs| then Some(cs[index - 1]) else None
  }

  /** The in-place update of lines 57-62: the target child, when present, gets the
      intersection nodes appended to its children; nothing else changes. */
  function Grafted(node: Node, index: nat, existing: seq<Node>): (r: Node)
    ensures r.name == node.name && r.members == node.members && r.color == node.color
    ensures r.children.Children? <==> node.children.Children?
    ensures |Kids(r)| == |Kids(node)|
    ensures forall j :: 0 <= j < |Kids(node)| && j != index - 1 ==> Kids(r)[j] == Kids(node)[j]
    ensures 0 < index <= |Kids(node)| ==>
              var t := Kids(node)[index - 1];
              Kids(r)[index - 1] == t.(children := Children(Kids(t) + Intersections(t, existing)))
  {
    match TargetChild(node, index)
    case None => node
    case Some(t) =>
      var cs := node.children.nodes;
      var intersections := IntersectionsOf(Some(t), existing);
      node.(children := Children(cs[index - 1 := t.(children := Children(Kids(t) + intersections))]))
  }

  /** `{ ...node, children: [...(node.children || [])] }`. */
  function CopyWithChildren(node: Node): (r: Node)
    ensures r.children == Children(Kids(node))
    ensures r.name == node.name && r.members == node.members && r.color == node.color
  {
    node.(children := Children(Kids(node)))
  }

  /** The tree `processAdditionalSets` returns: every root copied with a children array,
      after the target child of each root was grafted. */
  function ProcessedAdditional(tree: seq<Node>, existing: seq<Node>): (r: seq<Node>)
    ensures |r| == |tree|
  {
    var index := TargetIndex(tree);
    seq(|tree|, i requires 0 <= i < |tree| => CopyWithChildren(Grafted(tree[i], index, existing)))
  }

  /** When the first root has no children, the index is 0, no child is a target and the
      result is a plain copy of the tree. */
  lemma NoTargetWithoutFirstRootChildren(tree: seq<Node>, existing: seq<Node>)
    requires |tree| == 0 || IsLeaf(tree[0])
    ensures forall i :: 0 <= i < |tree| ==> ProcessedAdditional(tree, existing)[i] == CopyWithChildren(tree[i])
  {
    assert TargetIndex(tree) == 0;
  }

  /** Each root's target child is the one at the first root's child count minus one, and it
      gains exactly the intersection nodes computed for it; its siblings are unchanged. */
  lemma TargetGainsIntersections(tree: seq<Node>, existing: seq<Node>, i: int)
    requires 0 <= i < |tree|
    ensures var index := TargetIndex(tree);
            var out := ProcessedAdditional(tree, existing)[i];
            out.name == tree[i].name && |Kids(out)| == |Kids(tree[i])| &&
            (forall j :: 0 <= j < |Kids(tree[i])| && j != index - 1 ==> Kids(out)[j] == Kids(tree[i])[j]) &&
            (0 < index <= |Kids(tree[i])| ==>
               Kids(Kids(out)[index - 1]) == Kids(Kids(tree[i])[index - 1]) + Intersections(Kids(tree[i])[index - 1], existing))
  {
    var index := TargetIndex(tree);
    var g := Grafted(tree[i], index, existing);
    assert ProcessedAdditional(tree, existing)[i] == CopyWithChildren(g);
  }

  /** The user-defined hierarchy (`additionalSets`), whose nodes `processAdditionalSets`
      updates in place. */
  class UserSets {
    var tree: seq<Node>

    constructor (tree: seq<Node>)
      ensures this.tree == tree
    {
      this.tree := tree;
    }
  }

  /** `processAdditionalSets(additionalSets, setColor, theme, existingSets)`: the grafting
      of lines 57-62 stays in `additionalSets`, so it is repeated on every later call. */
  method ProcessAdditionalSets(additionalSets: UserSets?, existing: seq<Node>) returns (tree: seq<Node>)
    modifies additionalSets
    ensures additionalSets == null ==> tree == []
    ensures additionalSets != null ==>
              tree == ProcessedAdditional(old(additionalSets.tree), existing) &&
              |additionalSets.tree| == |old(additionalSets.tree)| &&
              forall i :: 0 <= i < |additionalSets.tree| ==>
                additionalSets.tree[i] == Grafted(old(additionalSets.tree)[i], TargetIndex(old(additionalSets.tree)), existing)
  {
    tree := [];
    if additionalSets != null {
      var roots := additionalSets.tree;
      var index := TargetIndex(roots);
      var i := 0;
      while i < |roots|
        invariant 0 <= i <= |roots|
        invariant |additionalSets.tree| == |roots|
        invariant forall j :: 0 <= j < i ==> additionalSets.tree[j] == Grafted(roots[j], index, existing)
        invariant forall j :: i <= j < |roots| ==> additionalSets.tree[j] == roots[j]
        invariant |tree| == i
        invariant forall j :: 0 <= j < i ==> tree[j] == CopyWithChildren(Grafted(roots[j], index, existing))
      {
        var grafted := ProcessAdditionalNode(roots[i], index, existing);
        additionalSets.tree := additionalSets.tree[i := grafted];
        tree := tree + [CopyWithChildren(grafted)];
        i := i + 1;
      }
    }
  }

  /** `processAdditionalNode(node, path, setColor, theme, existingSets, index)` up to the
      copy: the intersections of the target child, appended to its children when it exists. */
  method ProcessAdditionalNode(node: Node, index: nat, existing: seq<Node>) returns (r: Node)
    ensures r == Grafted(node, index, existing)
  {
    var target := TargetChild(node, index);
    var intersections := FindIntersections(target, existing);
    r := node;
    if target.Some? {
      var t := target.value;
      var updated := t.(children := Children(Kids(t) + intersections));
      r := node.(children := Children(node.children.nodes[index - 1 := updated]));
    }
  }

  // ---------------------------------------------------------------------------
  // Selection and expansion keys

  /** Keys split between the canonical tree and the user-defined one. */
  datatype KeySplit<K> = KeySplit(canonical: seq<K>, additional: seq<K>)

  /** `(paths || []).map(pathToKey)`. */
  function SelectionKeys<K>(paths: Option<seq<Path>>, pathToKey: Path -> K): (r: seq<K>)
    ensures |r| == |paths.GetOr([])|
    ensures forall i :: 0 <= i < |r| ==> r[i] == pathToKey(paths.GetOr([])[i])
  {
    var ps := paths.GetOr([]);
    seq(|ps|, i requires 0 <= i < |ps| => pathToKey(ps[i]))
  }

  /** Lines 289-293: `keys` split by membership in `additionalSetKeys`, each part in the
      original order. The two parts together hold every key exactly as often as `keys`. */
  function SplitKeys<K(==)>(keys: seq<K>, additionalSetKeys: seq<K>): (r: KeySplit<K>)
    ensures multiset(r.canonical) + multiset(r.additional) == multiset(keys)
    ensures forall i :: 0 <= i < |r.canonical| ==> r.canonical[i] in keys && r.canonical[i] !in additionalSetKeys
    ensures forall i :: 0 <= i < |r.additional| ==> r.additional[i] in keys && r.additional[i] in additionalSetKeys
    ensures forall i :: 0 <= i < |keys| && keys[i] in additionalSetKeys ==> keys[i] in r.additional
    ensures forall i :: 0 <= i < |keys| && keys[i] !in additionalSetKeys ==> keys[i] in r.canonical
    ensures SubsequenceOf(r.canonical, keys) && SubsequenceOf(r.additional, keys)
  {
    var inAdditional := k => k in additionalSetKeys;
    FilterSplit(keys, inAdditional);
    FiltersKeepOrder(keys, inAdditional);
    assert forall i :: 0 <= i < |keys| && keys[i] in additionalSetKeys ==> keys[i] in Filter(keys, inAdditional) by {
      forall i | 0 <= i < |keys| && keys[i] in additionalSetKeys ensures keys[i] in Filter(keys, inAdditional) {
        FilterKeeps(keys, inAdditional, i);
      }
    }
    assert forall i :: 0 <= i < |keys| && keys[i] !in additionalSetKeys ==> keys[i] in Reject(keys, inAdditional) by {
      forall i | 0 <= i < |keys| && keys[i] !in additionalSetKeys ensures keys[i] in Reject(keys, inAdditional) {
        RejectKeeps(keys, inAdditional, i);
      }
    }
    KeySplit(Reject(keys, inAdditional), Filter(keys, inAdditional))
  }

  /** The keys of every node of the processed user-defined tree (lines 281-284). */
  function AdditionalSetKeys<K>(processedAdditional: seq<Node>, pathToKey: Path -> K): (r: seq<K>)
    ensures |r| == SizeOfAll(processedAdditional)
  {
    AllKeysOfAll(processedAdditional, [], pathToKey)
  }
}
