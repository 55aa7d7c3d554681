/** `getCellsFromPath`, written identically in the interaction-matrix and volcano-plot
    views: the ids of the cells of one selected set, taken from the dataset's membership
    map and from the user-defined hierarchy, canonical ids first. */
module PathResolver {
  import opened Common
  import opened SetTree

  /** One `[cellId, groups]` entry of `obsSetsMembership.entries()`, in insertion order;
      `groups` is `None` when the value is not an array. */
  datatype MembershipEntry = MembershipEntry(cellId: CellId, groups: Option<seq<seq<string>>>)

  /** `parts.map(norm)`, where `norm` is `s => s.trim().toLowerCase()`. */
  function NormAll(parts: seq<string>, norm: string -> string): (r: seq<string>)
    ensures |r| == |parts|
    ensures forall i :: 0 <= i < |parts| ==> r[i] == norm(parts[i])
  {
    seq(|parts|, i requires 0 <= i < |parts| => norm(parts[i]))
  }

  /** `lowerPath`: the normalised path segments joined with `/`. */
  function LowerPath(path: Path, norm: string -> string): (r: string)
    ensures |path| == 0 ==> r == ""
    ensures |path| == 1 ==> r == norm(path[0])
  {
    Join(NormAll(path, norm), "/")
  }

  /** `groups.flat(2).map(norm).join("/")` for a list of group paths. */
  function GroupsKey(groups: seq<seq<string>>, norm: string -> string): string
  {
    Join(NormAll(Flatten(groups), norm), "/")
  }

  /** The test of lines 71-73: the groups value is an array and its joined, normalised
      names contain `lowerPath`. */
  predicate CanonicalMatch(e: MembershipEntry, lowerPath: string, norm: string -> string)
  {
    e.groups.Some? && Includes(GroupsKey(e.groups.value, norm), lowerPath)
  }

  /** `fromOriginalSets`: the ids of the matching membership entries, in entry order. */
  function FromOriginalSets(membership: seq<MembershipEntry>, lowerPath: string, norm: string -> string): (r: seq<CellId>)
    ensures |r| <= |membership|
  {
    if |membership| == 0 then []
    else
      var init := FromOriginalSets(membership[..|membership| - 1], lowerPath, norm);
      var e := membership[|membership| - 1];
      if CanonicalMatch(e, lowerPath, norm) then init + [e.cellId] else init
  }

  /** A canonical id is reported exactly when some membership entry for it matches. */
  lemma {:induction false} FromOriginalSetsIff(membership: seq<MembershipEntry>, lowerPath: string, norm: string -> string, id: CellId)
    ensures id in FromOriginalSets(membership, lowerPath, norm) <==>
            exists i :: 0 <= i < |membership| && membership[i].cellId == id && CanonicalMatch(membership[i], lowerPath, norm)
  {
    if |membership| > 0 {
      var init := membership[..|membership| - 1];
      FromOriginalSetsIff(init, lowerPath, norm, id);
      assert forall i :: 0 <= i < |init| ==> init[i] == membership[i];
    }
  }

  /** The ids of the membership entries, in entry (insertion) order. */
  function EntryIds(membership: seq<MembershipEntry>): (r: seq<CellId>)
    ensures |r| == |membership|
    ensures forall i :: 0 <= i < |membership| ==> r[i] == membership[i].cellId
  {
    seq(|membership|, i requires 0 <= i < |membership| => membership[i].cellId)
  }

  /** The canonical ids keep the map's insertion order: `m` lists, in increasing order,
      exactly the positions of the matching entries, and the result is their ids. */
  lemma {:induction false} FromOriginalSetsInEntryOrder(membership: seq<MembershipEntry>, lowerPath: string, norm: string -> string)
    returns (m: seq<nat>)
    ensures Embeds(m, FromOriginalSets(membership, lowerPath, norm), EntryIds(membership))
    ensures forall i :: 0 <= i < |m| ==> CanonicalMatch(membership[m[i]], lowerPath, norm)
    ensures forall k :: 0 <= k < |membership| && CanonicalMatch(membership[k], lowerPath, norm) ==> k in m
  {
    if |membership| == 0 {
      m := [];
    } else {
      var n := |membership| - 1;
      var init := membership[..n];
      var m0 := FromOriginalSetsInEntryOrder(init, lowerPath, norm);
      var r0 := FromOriginalSets(init, lowerPath, norm);
      var ids := EntryIds(membership);
      assert ids[..n] == EntryIds(init);
      EmbedsInPrefix(m0, r0, ids);
      MatchesOfPrefix(membership, m0, lowerPath, norm);
      if CanonicalMatch(membership[n], lowerPath, norm) {
        assert FromOriginalSets(membership, lowerPath, norm) == r0 + [ids[n]];
        m := m0 + [n];
        EmbedsExtend(m0, r0, ids);
      } else {
        assert FromOriginalSets(membership, lowerPath, norm) == r0;
        m := m0;
      }
    }
  }

  /** The matching positions found in all but the last entry are matching positions of
      the whole list, and every matching position before the last is among them. */
  lemma MatchesOfPrefix(membership: seq<MembershipEntry>, m0: seq<nat>, lowerPath: string, norm: string -> string)
    requires |membership| > 0
    requires forall i :: 0 <= i < |m0| ==> m0[i] < |membership| - 1 && CanonicalMatch(membership[..|membership| - 1][m0[i]], lowerPath, norm)
    requires forall k :: 0 <= k < |membership| - 1 && CanonicalMatch(membership[..|membership| - 1][k], lowerPath, norm) ==> k in m0
    ensures forall i :: 0 <= i < |m0| ==> CanonicalMatch(membership[m0[i]], lowerPath, norm)
    ensures forall k :: 0 <= k < |membership| - 1 && CanonicalMatch(membership[k], lowerPath, norm) ==> k in m0
  {
    assert forall k :: 0 <= k < |membership| - 1 ==> membership[..|membership| - 1][k] == membership[k];
  }

  /** The ids of the entries whose groups value is an array, in entry order. */
  function IdsWithGroups(membership: seq<MembershipEntry>): seq<CellId>
  {
    if |membership| == 0 then []
    else
      var init := IdsWithGroups(membership[..|membership| - 1]);
      var e := membership[|membership| - 1];
      if e.groups.Some? then init + [e.cellId] else init
  }

  /** The empty selection path is contained in every joined group string, so it selects
      every cell whose groups value is an array. */
  lemma {:induction false} EmptyPathMatchesAll(membership: seq<MembershipEntry>, norm: string -> string)
    ensures FromOriginalSets(membership, LowerPath([], norm), norm) == IdsWithGroups(membership)
  {
    assert LowerPath([], norm) == "";
    if |membership| > 0 {
      var e := membership[|membership| - 1];
      EmptyPathMatchesAll(membership[..|membership| - 1], norm);
      if e.groups.Some? {
        IncludesEmpty(GroupsKey(e.groups.value, norm));
      }
    }
  }

  /** `currentPath ? `${currentPath}/${name}` : name`: an empty prefix is falsy, so the
      separator is left out. */
  function Step(currentPath: string, name: string): string
  {
    if currentPath != "" then currentPath + "/" + name else name
  }

  /** The `fullPath` that `traverse` computes for the node reached by `names` (already
      normalised), one `Step` per level. */
  function CumulativePath(names: seq<string>): string
  {
    if |names| == 0 then "" else Step(CumulativePath(names[..|names| - 1]), names[|names| - 1])
  }

  /** While no normalised name is empty, the cumulative path is the `/`-join of the names,
      the same string `lowerPath` builds from a selection path. */
  lemma {:induction false} CumulativePathIsJoin(names: seq<string>)
    requires forall i :: 0 <= i < |names| ==> names[i] != ""
    ensures CumulativePath(names) == Join(names, "/")
  {
    if |names| > 1 {
      var init := names[..|names| - 1];
      CumulativePathIsJoin(init);
      JoinAppend(init, "/", names[|names| - 1]);
      assert init + [names[|names| - 1]] == names;
    } else if |names| == 1 {
      assert names[..0] == [];
    }
  }

  /** `traverse([node], currentPath)` for one node: a node whose full path equals
      `lowerPath` yields its set's ids (none without a set) and is not descended into;
      any other node yields what its children yield. */
  function UserIds(node: Node, currentPath: string, lowerPath: string, norm: string -> string): seq<CellId>
    decreases node, 1
  {
    var fullPath := Step(currentPath, norm(node.name));
    if fullPath == lowerPath then
      match node.members
      case Some(ms) => Ids(ms)
      case None => []
    else
      match node.children
      case NoChildren => []
      case Children(cs) => UserIdsOfAll(cs, fullPath, lowerPath, norm)
  }

  /** `traverse(nodes, currentPath)`: the nodes' results concatenated in order. */
  function UserIdsOfAll(nodes: seq<Node>, currentPath: string, lowerPath: string, norm: string -> string): seq<CellId>
    decreases nodes, 0
  {
    if nodes == [] then []
    else UserIdsOfAll(nodes[..|nodes| - 1], currentPath, lowerPath, norm) + UserIds(nodes[|nodes| - 1], currentPath, lowerPath, norm)
  }

  /** `fromUserDefinedSets`: nothing when the user-defined tree is absent. */
  function FromUserDefinedSets(tree: Option<seq<Node>>, lowerPath: string, norm: string -> string): seq<CellId>
  {
    match tree
    case None => []
    case Some(roots) => UserIdsOfAll(roots, "", lowerPath, norm)
  }

  /** `getCellsFromPath(pathArray)`: canonical ids followed by user-defined ids, kept
      with repetitions. */
  function CellsFromPath(path: Path, membership: seq<MembershipEntry>, tree: Option<seq<Node>>, norm: string -> string): (r: seq<CellId>)
    ensures tree.None? ==> r == FromOriginalSets(membership, LowerPath(path, norm), norm)
    ensures FromOriginalSets(membership, LowerPath(path, norm), norm) <= r
  {
    var lowerPath := LowerPath(path, norm);
    FromOriginalSets(membership, lowerPath, norm) + FromUserDefinedSets(tree, lowerPath, norm)
  }

  /** The result of each node is part of the result of the list holding it. */
  lemma {:induction false} UserIdsOfAllContains(nodes: seq<Node>, currentPath: string, lowerPath: string, norm: string -> string, i: int, x: CellId)
    requires 0 <= i < |nodes| && x in UserIds(nodes[i], currentPath, lowerPath, norm)
    ensures x in UserIdsOfAll(nodes, currentPath, lowerPath, norm)
    decreases |nodes|
  {
    var init := nodes[..|nodes| - 1];
    if i < |nodes| - 1 {
      assert init[i] == nodes[i];
      UserIdsOfAllContains(init, currentPath, lowerPath, norm, i, x);
    }
  }

  /** A node whose full path equals `lowerPath` contributes every id of its set. */
  lemma UserIdsMatched(nodes: seq<Node>, currentPath: string, lowerPath: string, norm: string -> string, i: int)
    requires 0 <= i < |nodes| && Step(currentPath, norm(nodes[i].name)) == lowerPath && nodes[i].members.Some?
    ensures forall m :: m in nodes[i].members.value ==> m.id in UserIdsOfAll(nodes, currentPath, lowerPath, norm)
  {
    forall m | m in nodes[i].members.value ensures m.id in UserIdsOfAll(nodes, currentPath, lowerPath, norm) {
      IdsOfMember(nodes[i].members.value, m);
      UserIdsOfAllContains(nodes, currentPath, lowerPath, norm, i, m.id);
    }
  }

  /** A node whose full path differs from `lowerPath` passes on everything its children
      find under that full path. */
  lemma UserIdsDescend(nodes: seq<Node>, currentPath: string, lowerPath: string, norm: string -> string, i: int)
    requires 0 <= i < |nodes| && Step(currentPath, norm(nodes[i].name)) != lowerPath && nodes[i].children.Children?
    ensures forall x :: x in UserIdsOfAll(nodes[i].children.nodes, Step(currentPath, norm(nodes[i].name)), lowerPath, norm) ==>
              x in UserIdsOfAll(nodes, currentPath, lowerPath, norm)
  {
    forall x | x in UserIdsOfAll(nodes[i].children.nodes, Step(currentPath, norm(nodes[i].name)), lowerPath, norm)
      ensures x in UserIdsOfAll(nodes, currentPath, lowerPath, norm)
    {
      UserIdsOfAllContains(nodes, currentPath, lowerPath, norm, i, x);
    }
  }

  /** The full path `traverse` computes for every node of the tree rooted at `node`, in
      pre-order (the order of `PreOrder`). */
  function FullPaths(node: Node, currentPath: string, norm: string -> string): (r: seq<string>)
    ensures |r| == Size(node)
    ensures r[0] == Step(currentPath, norm(node.name))
    decreases node, 1
  {
    var fullPath := Step(currentPath, norm(node.name));
    match node.children
    case NoChildren => [fullPath]
    case Children(cs) => [fullPath] + FullPathsOfAll(cs, fullPath, norm)
  }

  function FullPathsOfAll(nodes: seq<Node>, currentPath: string, norm: string -> string): (r: seq<string>)
    ensures |r| == SizeOfAll(nodes)
    decreases nodes, 0
  {
    if nodes == [] then [] else FullPathsOfAll(nodes[..|nodes| - 1], currentPath, norm) + FullPaths(nodes[|nodes| - 1], currentPath, norm)
  }

  /** `x` belongs to the set of the `i`-th node (in pre-order) of the tree rooted at
      `node`, and that node's full path is `lowerPath`. */
  ghost predicate FoundAt(node: Node, currentPath: string, lowerPath: string, norm: string -> string, i: int, x: CellId)
  {
    0 <= i < Size(node) && FullPaths(node, currentPath, norm)[i] == lowerPath &&
    PreOrder(node)[i].members.Some? && x in Ids(PreOrder(node)[i].members.value)
  }

  /** The same over the trees rooted at `nodes`, numbered across them in pre-order. */
  ghost predicate FoundAtAll(nodes: seq<Node>, currentPath: string, lowerPath: string, norm: string -> string, i: int, x: CellId)
  {
    0 <= i < SizeOfAll(nodes) && FullPathsOfAll(nodes, currentPath, norm)[i] == lowerPath &&
    PreOrderOfAll(nodes)[i].members.Some? && x in Ids(PreOrderOfAll(nodes)[i].members.value)
  }

  /** Every user-defined id comes from the set of a node whose full path equals
      `lowerPath`. */
  lemma {:induction false} UserIdsSound(node: Node, currentPath: string, lowerPath: string, norm: string -> string)
    ensures forall x :: x in UserIds(node, currentPath, lowerPath, norm) ==>
              exists i :: FoundAt(node, currentPath, lowerPath, norm, i, x)
    decreases node, 1
  {
    var fullPath := Step(currentPath, norm(node.name));
    if fullPath == lowerPath {
      if node.members.Some? {
        forall x | x in UserIds(node, currentPath, lowerPath, norm) ensures exists i :: FoundAt(node, currentPath, lowerPath, norm, i, x) {
          assert FoundAt(node, currentPath, lowerPath, norm, 0, x);
        }
      }
    } else if node.children.Children? {
      var cs := node.children.nodes;
      UserIdsOfAllSound(cs, fullPath, lowerPath, norm);
      assert UserIds(node, currentPath, lowerPath, norm) == UserIdsOfAll(cs, fullPath, lowerPath, norm);
      assert FullPaths(node, currentPath, norm) == [fullPath] + FullPathsOfAll(cs, fullPath, norm);
      assert PreOrder(node) == [node] + PreOrderOfAll(cs);
      forall x | x in UserIds(node, currentPath, lowerPath, norm) ensures exists i :: FoundAt(node, currentPath, lowerPath, norm, i, x) {
        var j :| FoundAtAll(cs, fullPath, lowerPath, norm, j, x);
        assert FullPaths(node, currentPath, norm)[j + 1] == FullPathsOfAll(cs, fullPath, norm)[j];
        assert PreOrder(node)[j + 1] == PreOrderOfAll(cs)[j];
        assert FoundAt(node, currentPath, lowerPath, norm, j + 1, x);
      }
    }
  }

  lemma {:induction false} UserIdsOfAllSound(nodes: seq<Node>, currentPath: string, lowerPath: string, norm: string -> string)
    ensures forall x :: x in UserIdsOfAll(nodes, currentPath, lowerPath, norm) ==>
              exists i :: FoundAtAll(nodes, currentPath, lowerPath, norm, i, x)
    decreases nodes, 0
  {
    if nodes != [] {
      var init := nodes[..|nodes| - 1];
      var last := nodes[|nodes| - 1];
      UserIdsOfAllSound(init, currentPath, lowerPath, norm);
      UserIdsSound(last, currentPath, lowerPath, norm);
      assert UserIdsOfAll(nodes, currentPath, lowerPath, norm) == UserIdsOfAll(init, currentPath, lowerPath, norm) + UserIds(last, currentPath, lowerPath, norm);
      forall x | x in UserIdsOfAll(nodes, currentPath, lowerPath, norm) ensures exists i :: FoundAtAll(nodes, currentPath, lowerPath, norm, i, x) {
        if x in UserIdsOfAll(init, currentPath, lowerPath, norm) {
          var j :| FoundAtAll(init, currentPath, lowerPath, norm, j, x);
          FoundInEarlierTree(nodes, currentPath, lowerPath, norm, j, x);
        } else {
          var j :| FoundAt(last, currentPath, lowerPath, norm, j, x);
          FoundInLastTree(nodes, currentPath, lowerPath, norm, j, x);
        }
      }
    }
  }

  lemma FoundInEarlierTree(nodes: seq<Node>, currentPath: string, lowerPath: string, norm: string -> string, j: int, x: CellId)
    requires nodes != [] && FoundAtAll(nodes[..|nodes| - 1], currentPath, lowerPath, norm, j, x)
    ensures FoundAtAll(nodes, currentPath, lowerPath, norm, j, x)
  {
    var init := nodes[..|nodes| - 1];
    assert FullPathsOfAll(nodes, currentPath, norm) == FullPathsOfAll(init, currentPath, norm) + FullPaths(nodes[|nodes| - 1], currentPath, norm);
    assert PreOrderOfAll(nodes) == PreOrderOfAll(init) + PreOrder(nodes[|nodes| - 1]);
  }

  lemma FoundInLastTree(nodes: seq<Node>, currentPath: string, lowerPath: string, norm: string -> string, j: int, x: CellId)
    requires nodes != [] && FoundAt(nodes[|nodes| - 1], currentPath, lowerPath, norm, j, x)
    ensures FoundAtAll(nodes, currentPath, lowerPath, norm, SizeOfAll(nodes[..|nodes| - 1]) + j, x)
  {
    var init := nodes[..|nodes| - 1];
    var last := nodes[|nodes| - 1];
    var k := SizeOfAll(init);
    assert FullPathsOfAll(nodes, currentPath, norm) == FullPathsOfAll(init, currentPath, norm) + FullPaths(last, currentPath, norm);
    assert PreOrderOfAll(nodes) == PreOrderOfAll(init) + PreOrder(last);
    assert FullPathsOfAll(nodes, currentPath, norm)[k + j] == FullPaths(last, currentPath, norm)[j];
    assert PreOrderOfAll(nodes)[k + j] == PreOrder(last)[j];
  }

  /** An id is resolved for a path exactly when a membership entry for it matches, or the
      user-defined tree yields it. */
  lemma CellsFromPathIff(path: Path, membership: seq<MembershipEntry>, tree: Option<seq<Node>>, norm: string -> string, id: CellId)
    ensures id in CellsFromPath(path, membership, tree, norm) <==>
            (exists i :: 0 <= i < |membership| && membership[i].cellId == id && CanonicalMatch(membership[i], LowerPath(path, norm), norm)) ||
            id in FromUserDefinedSets(tree, LowerPath(path, norm), norm)
  {
    FromOriginalSetsIff(membership, LowerPath(path, norm), norm, id);
  }

  /** Every resolved id comes from a matching membership entry or from the set of a
      user-defined node whose full path equals the lowered path. */
  lemma CellsFromPathSound(path: Path, membership: seq<MembershipEntry>, tree: Option<seq<Node>>, norm: string -> string, id: CellId)
    requires id in CellsFromPath(path, membership, tree, norm)
    ensures (exists i :: 0 <= i < |membership| && membership[i].cellId == id && CanonicalMatch(membership[i], LowerPath(path, norm), norm)) ||
            (tree.Some? && exists i :: FoundAtAll(tree.value, "", LowerPath(path, norm), norm, i, id))
  {
    CellsFromPathIff(path, membership, tree, norm, id);
    if tree.Some? {
      UserIdsOfAllSound(tree.value, "", LowerPath(path, norm), norm);
    }
  }
}
