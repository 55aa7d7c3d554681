/** `findGroupSet` and `findIntersections` of the sets manager: the "Intersection with X"
    nodes derived for a user-defined set against the canonical (dataset) hierarchy. */
module SetIntersections {
  import opened Common
  import opened SetTree

  // ---------------------------------------------------------------------------
  // findGroupSet

  /** The member list of `group` and of each of its descendants that has one, in pre-order. */
  function GroupSets(group: Node): (r: seq<seq<Member>>)
    ensures |r| <= Size(group)
    ensures group.members.Some? ==> |r| > 0 && r[0] == group.members.value
    decreases group, 1
  {
    (match group.members case Some(ms) => [ms] case None => []) +
    (match group.children case NoChildren => [] case Children(cs) => GroupSetsOfAll(cs))
  }

  function GroupSetsOfAll(cs: seq<Node>): (r: seq<seq<Member>>)
    ensures |r| <= SizeOfAll(cs)
    decreases cs, 0
  {
    if cs == [] then [] else GroupSetsOfAll(cs[..|cs| - 1]) + GroupSets(cs[|cs| - 1])
  }

  /** The member lists of those of `ns` that have one, in order. */
  function SetsOf(ns: seq<Node>): seq<seq<Member>>
  {
    if ns == [] then []
    else SetsOf(ns[..|ns| - 1]) + (match ns[|ns| - 1].members case Some(ms) => [ms] case None => [])
  }

  lemma {:induction false} SetsOfAppend(a: seq<Node>, b: seq<Node>)
    ensures SetsOf(a + b) == SetsOf(a) + SetsOf(b)
    decreases |b|
  {
    if b == [] {
      assert a + b == a;
    } else {
      assert (a + b)[..|a + b| - 1] == a + b[..|b| - 1];
      SetsOfAppend(a, b[..|b| - 1]);
    }
  }

  /** `findGroupSet` yields one entry per node that has a set, walking the tree in
      pre-order, so the group's own set (if any) comes first. */
  lemma {:induction false} GroupSetsArePreOrder(group: Node)
    ensures GroupSets(group) == SetsOf(PreOrder(group))
    decreases group, 1
  {
    assert SetsOf([group]) == (match group.members case Some(ms) => [ms] case None => []) by {
      assert [group][..0] == [];
    }
    match group.children
    case NoChildren =>
    case Children(cs) =>
      GroupSetsOfAllArePreOrder(cs);
      SetsOfAppend([group], PreOrderOfAll(cs));
  }

  lemma {:induction false} GroupSetsOfAllArePreOrder(cs: seq<Node>)
    ensures GroupSetsOfAll(cs) == SetsOf(PreOrderOfAll(cs))
    decreases cs, 0
  {
    if cs != [] {
      GroupSetsOfAllArePreOrder(cs[..|cs| - 1]);
      GroupSetsArePreOrder(cs[|cs| - 1]);
      SetsOfAppend(PreOrderOfAll(cs[..|cs| - 1]), PreOrder(cs[|cs| - 1]));
    }
  }

  /** `findGroupSet(existingGroup)` (SetsManager.js:70-84). */
  method FindGroupSet(group: Node) returns (sets: seq<seq<Member>>)
    ensures sets == GroupSets(group)
    decreases group
  {
    sets := [];
    if group.members.Some? {
      sets := sets + [group.members.value];
    }
    var own := sets;
    if group.children.Children? {
      var cs := group.children.nodes;
      var i := 0;
      while i < |cs|
        invariant 0 <= i <= |cs|
        invariant sets == own + GroupSetsOfAll(cs[..i])
      {
        var childSets := FindGroupSet(cs[i]);
        assert cs[..i + 1][..i] == cs[..i];
        sets := sets + childSets;
        i := i + 1;
      }
      assert cs[..|cs|] == cs;
    }
  }

  // ---------------------------------------------------------------------------
  // findIntersections

  /** The ids of every member of child group `c` and of its descendants
      (`findGroupSet(c).flat()`, first components). */
  function GroupMemberIds(c: Node): seq<CellId>
  {
    Ids(Flatten(GroupSets(c)))
  }

  /** The name of the node derived from child group `c`. */
  function DerivedName(c: Node): string
  {
    "Intersection with " + c.name
  }

  /** Derived nodes are leaves that carry a member list, and no two of them share both
      name and colour. */
  predicate WellFormed(results: seq<Node>)
  {
    (forall i :: 0 <= i < |results| ==> results[i].children == NoChildren && results[i].members.Some?) &&
    (forall i, j :: 0 <= i < j < |results| ==>
       !(results[i].name == results[j].name && results[i].color == results[j].color))
  }

  /** `intersectionResults.find(r => r.name === name && r.color === color)`, as the index
      of the first such node, or `|results|` when there is none. */
  function FindDerived(results: seq<Node>, name: string, color: Option<Color>): (k: nat)
    ensures k <= |results|
    ensures k < |results| ==> results[k].name == name && results[k].color == color
    ensures forall j :: 0 <= j < k ==> !(results[j].name == name && results[j].color == color)
  {
    if |results| == 0 then 0
    else if results[0].name == name && results[0].color == color then 0
    else
      var k := FindDerived(results[1..], name, color);
      assert forall j :: 1 <= j < k + 1 ==> results[j] == results[1..][j - 1];
      1 + k
  }

  /** Lines 106-121: cell `id` is shared with child group `c`; `[id, null]` is pushed onto
      the derived node with c's derived name and colour, or a new derived node is added. */
  function AddHit(results: seq<Node>, c: Node, id: CellId): (r: seq<Node>)
    requires WellFormed(results)
    ensures WellFormed(r)
  {
    var k := FindDerived(results, DerivedName(c), c.color);
    if k < |results| then
      results[k := results[k].(members := Some(results[k].members.value + [Member(id, None)]))]
    else
      results + [Node(DerivedName(c), NoChildren, Some([Member(id, None)]), c.color)]
  }

  /** Lines 104-124: one canonical cell id `eid` of child group `c` against each member of
      the new set `ms`, in order. */
  function MatchLeafMembers(results: seq<Node>, c: Node, eid: CellId, ms: seq<Member>): (r: seq<Node>)
    requires WellFormed(results)
    ensures WellFormed(r)
    decreases |ms|
  {
    if |ms| == 0 then results
    else
      var prev := MatchLeafMembers(results, c, eid, ms[..|ms| - 1]);
      if ms[|ms| - 1].id == eid then AddHit(prev, c, eid) else prev
  }

  /** Lines 100-125: each member of child group `c`'s flattened sets, in order. */
  function MatchGroupMembers(results: seq<Node>, c: Node, merged: seq<Member>, ms: seq<Member>): (r: seq<Node>)
    requires WellFormed(results)
    ensures WellFormed(r)
    decreases |merged|
  {
    if |merged| == 0 then results
    else MatchLeafMembers(MatchGroupMembers(results, c, merged[..|merged| - 1], ms), c, merged[|merged| - 1].id, ms)
  }

  /** Lines 95-127: each child group of one top-level group, in order. */
  function MatchChildGroups(results: seq<Node>, cs: seq<Node>, ms: seq<Member>): (r: seq<Node>)
    requires WellFormed(results)
    ensures WellFormed(r)
    decreases |cs|
  {
    if |cs| == 0 then results
    else
      var c := cs[|cs| - 1];
      MatchGroupMembers(MatchChildGroups(results, cs[..|cs| - 1], ms), c, Flatten(GroupSets(c)), ms)
  }

  /** Lines 92-130: the derived nodes of the new set `ms` against the child groups `cs` of
      one top-level group. */
  function IntersectGroup(cs: seq<Node>, ms: seq<Member>): (r: seq<Node>)
    ensures WellFormed(r)
  {
    MatchChildGroups([], cs, ms)
  }

  /** Lines 91-132: the walk over the top-level groups. Each group that has children
      replaces the results so far (`results = intersectionResults`). */
  function DirectIntersections(groups: seq<Node>, ms: seq<Member>): (r: seq<Node>)
    ensures WellFormed(r)
  {
    if |groups| == 0 then []
    else
      var g := groups[|groups| - 1];
      if g.children.Children? then IntersectGroup(g.children.nodes, ms)
      else DirectIntersections(groups[..|groups| - 1], ms)
  }

  /** `findIntersections(node, existingGroups)` for a present node (lines 87-142): the
      node's own derived nodes, then those of its children, left to right. */
  function Intersections(node: Node, groups: seq<Node>): (r: seq<Node>)
    ensures forall d :: d in r ==> d.children.NoChildren? && d.members.Some?
    decreases node, 1
  {
    (match node.members case Some(ms) => DirectIntersections(groups, ms) case None => []) +
    (match node.children case NoChildren => [] case Children(cs) => IntersectionsOfAll(cs, groups))
  }

  function IntersectionsOfAll(cs: seq<Node>, groups: seq<Node>): (r: seq<Node>)
    ensures forall d :: d in r ==> d.children.NoChildren? && d.members.Some?
    decreases cs, 0
  {
    if cs == [] then [] else IntersectionsOfAll(cs[..|cs| - 1], groups) + Intersections(cs[|cs| - 1], groups)
  }

  /** `findIntersections(node, existingGroups)`, where `node` may be `undefined`. */
  function IntersectionsOf(node: Option<Node>, groups: seq<Node>): (r: seq<Node>)
    ensures node.None? ==> r == []
    ensures forall d :: d in r ==> d.children.NoChildren? && d.members.Some?
  {
    match node
    case None => []
    case Some(n) => Intersections(n, groups)
  }

  /** `findIntersections` (SetsManager.js:87-143). */
  method FindIntersections(node: Option<Node>, groups: seq<Node>) returns (results: seq<Node>)
    ensures results == IntersectionsOf(node, groups)
  {
    results := [];
    if node.Some? {
      results := FindIntersectionsAt(node.value, groups);
    }
  }

  /** The body of `findIntersections` once `node` is known to be present. */
  method FindIntersectionsAt(node: Node, groups: seq<Node>) returns (results: seq<Node>)
    ensures results == Intersections(node, groups)
    decreases node, 1
  {
    results := [];
    if node.members.Some? {
      results := IntersectTopGroups(groups, node.members.value);
    }
    if node.children.Children? {
      var below := FindIntersectionsBelow(node.children.nodes, groups);
      results := results + below;
    }
  }

  /** Lines 136-140: the children's results appended one child at a time. */
  method FindIntersectionsBelow(cs: seq<Node>, groups: seq<Node>) returns (results: seq<Node>)
    ensures results == IntersectionsOfAll(cs, groups)
    decreases cs, 0
  {
    results := [];
    var i := 0;
    while i < |cs|
      invariant 0 <= i <= |cs|
      invariant results == IntersectionsOfAll(cs[..i], groups)
    {
      IntersectionsOfAllStep(cs, groups, i);
      var childResults := FindIntersectionsAt(cs[i], groups);
      results := results + childResults;
      i := i + 1;
    }
    assert cs[..|cs|] == cs;
  }

  /** One more child adds its own results at the end. */
  lemma IntersectionsOfAllStep(cs: seq<Node>, groups: seq<Node>, i: nat)
    requires i < |cs|
    ensures IntersectionsOfAll(cs[..i + 1], groups) == IntersectionsOfAll(cs[..i], groups) + Intersections(cs[i], groups)
  {
    assert cs[..i + 1][..i] == cs[..i];
  }

  /** Lines 91-132: the walk over the top-level groups for a node whose set is `ms`. */
  method IntersectTopGroups(groups: seq<Node>, ms: seq<Member>) returns (results: seq<Node>)
    ensures results == DirectIntersections(groups, ms)
  {
    results := [];
    var gi := 0;
    while gi < |groups|
      invariant 0 <= gi <= |groups|
      invariant results == DirectIntersections(groups[..gi], ms)
    {
      assert groups[..gi + 1][..gi] == groups[..gi];
      var group := groups[gi];
      if group.children.Children? {
        results := IntersectChildGroups(group.children.nodes, ms);
      }
      gi := gi + 1;
    }
    assert groups[..|groups|] == groups;
  }

  /** Lines 93-128: `intersectionResults` built for the child groups `cs` of one
      top-level group against the node's set `ms`. */
  method IntersectChildGroups(cs: seq<Node>, ms: seq<Member>) returns (intersectionResults: seq<Node>)
    ensures intersectionResults == IntersectGroup(cs, ms)
  {
    intersectionResults := [];
    var ci := 0;
    while ci < |cs|
      invariant 0 <= ci <= |cs|
      invariant intersectionResults == MatchChildGroups([], cs[..ci], ms)
    {
      assert cs[..ci + 1][..ci] == cs[..ci];
      var childGroup := cs[ci];
      var existingGroupSet := FindGroupSet(childGroup);
      var merged := Flatten(existingGroupSet);
      ghost var beforeChild := intersectionResults;
      var ei := 0;
      while ei < |merged|
        invariant 0 <= ei <= |merged|
        invariant WellFormed(intersectionResults)
        invariant intersectionResults == MatchGroupMembers(beforeChild, childGroup, merged[..ei], ms)
      {
        assert merged[..ei + 1][..ei] == merged[..ei];
        intersectionResults := RecordHits(intersectionResults, childGroup, merged[ei].id, ms);
        ei := ei + 1;
      }
      assert merged[..|merged|] == merged;
      ci := ci + 1;
    }
    assert cs[..|cs|] == cs;
  }

  /** Lines 104-123: canonical cell `existingCellId` of `childGroup` against each member
      of the set `ms`; each match is recorded in the derived node for `childGroup`. */
  method RecordHits(results: seq<Node>, childGroup: Node, existingCellId: CellId, ms: seq<Member>) returns (intersectionResults: seq<Node>)
    requires WellFormed(results)
    ensures intersectionResults == MatchLeafMembers(results, childGroup, existingCellId, ms)
  {
    intersectionResults := results;
    var mi := 0;
    while mi < |ms|
      invariant 0 <= mi <= |ms|
      invariant intersectionResults == MatchLeafMembers(results, childGroup, existingCellId, ms[..mi])
    {
      assert ms[..mi + 1][..mi] == ms[..mi];
      if existingCellId == ms[mi].id {
        var k := FindDerived(intersectionResults, DerivedName(childGroup), childGroup.color);
        if k < |intersectionResults| {
          var existing := intersectionResults[k];
          intersectionResults := intersectionResults[k := existing.(members := Some(existing.members.value + [Member(existingCellId, None)]))];
        } else {
          intersectionResults := intersectionResults + [Node(DerivedName(childGroup), NoChildren, Some([Member(existingCellId, None)]), childGroup.color)];
        }
      }
      mi := mi + 1;
    }
    assert ms[..|ms|] == ms;
  }

  // ---------------------------------------------------------------------------
  // Which top-level group contributes

  /** Only the last top-level group that has children contributes derived nodes: the
      groups after it have no children, and the ones before it are overwritten. */
  lemma {:induction false} LastGroupWithChildrenWins(groups: seq<Node>, ms: seq<Member>, i: int)
    requires 0 <= i < |groups| && groups[i].children.Children?
    requires forall j :: i < j < |groups| ==> groups[j].children.NoChildren?
    ensures DirectIntersections(groups, ms) == IntersectGroup(groups[i].children.nodes, ms)
    decreases |groups|
  {
    if i < |groups| - 1 {
      var init := groups[..|groups| - 1];
      assert init[i] == groups[i];
      LastGroupWithChildrenWins(init, ms, i);
    }
  }

  /** Without a top-level group that has children there are no derived nodes. */
  lemma {:induction false} NoGroupWithChildren(groups: seq<Node>, ms: seq<Member>)
    requires forall j :: 0 <= j < |groups| ==> groups[j].children.NoChildren?
    ensures DirectIntersections(groups, ms) == []
    decreases |groups|
  {
    if |groups| > 0 {
      NoGroupWithChildren(groups[..|groups| - 1], ms);
    }
  }

  // ---------------------------------------------------------------------------
  // Soundness: what a derived node holds

  /** Derived node `r`, built from the new set `ms` and child groups `cs`, is a non-empty
      list of `[id, null]` pairs; each id is in `ms` and in the flattened sets of a child
      group of `cs` whose derived name and colour `r` carries. */
  ghost predicate SoundDerived(r: Node, cs: seq<Node>, ms: seq<Member>)
  {
    r.members.Some? && |r.members.value| > 0 &&
    forall x :: x in r.members.value ==>
      x.value == None && x.id in Ids(ms) &&
      exists c :: c in cs && r.name == DerivedName(c) && r.color == c.color && x.id in GroupMemberIds(c)
  }

  ghost predicate AllSound(results: seq<Node>, cs: seq<Node>, ms: seq<Member>)
  {
    forall r :: r in results ==> SoundDerived(r, cs, ms)
  }

  lemma AddHitSound(results: seq<Node>, cs: seq<Node>, ms: seq<Member>, c: Node, id: CellId)
    requires WellFormed(results) && AllSound(results, cs, ms)
    requires c in cs && id in Ids(ms) && id in GroupMemberIds(c)
    ensures AllSound(AddHit(results, c, id), cs, ms)
  {
    var k := FindDerived(results, DerivedName(c), c.color);
    var r' := AddHit(results, c, id);
    if k < |results| {
      var old_ := results[k];
      assert SoundDerived(old_, cs, ms);
      var upd := r'[k];
      forall x | x in upd.members.value
        ensures x.value == None && x.id in Ids(ms) &&
                exists c' :: c' in cs && upd.name == DerivedName(c') && upd.color == c'.color && x.id in GroupMemberIds(c')
      {
        if x !in old_.members.value {
          assert x == Member(id, None);
        }
      }
      assert SoundDerived(upd, cs, ms);
      forall r | r in r' ensures SoundDerived(r, cs, ms) {
        var i :| 0 <= i < |r'| && r'[i] == r;
        if i != k {
          assert r == results[i];
        }
      }
    } else {
      var fresh_ := Node(DerivedName(c), NoChildren, Some([Member(id, None)]), c.color);
      assert SoundDerived(fresh_, cs, ms);
    }
  }

  lemma {:induction false} MatchLeafMembersSound(results: seq<Node>, cs: seq<Node>, ms: seq<Member>, c: Node, eid: CellId, part: seq<Member>)
    requires WellFormed(results) && AllSound(results, cs, ms)
    requires c in cs && eid in GroupMemberIds(c) && part <= ms
    ensures AllSound(MatchLeafMembers(results, c, eid, part), cs, ms)
    decreases |part|
  {
    if |part| > 0 {
      var init := part[..|part| - 1];
      MatchLeafMembersSound(results, cs, ms, c, eid, init);
      if part[|part| - 1].id == eid {
        assert part[|part| - 1] == ms[|part| - 1];
        IdsOfMember(ms, part[|part| - 1]);
        AddHitSound(MatchLeafMembers(results, c, eid, init), cs, ms, c, eid);
      }
    }
  }

  lemma {:induction false} MatchGroupMembersSound(results: seq<Node>, cs: seq<Node>, ms: seq<Member>, c: Node, part: seq<Member>)
    requires WellFormed(results) && AllSound(results, cs, ms)
    requires c in cs && part <= Flatten(GroupSets(c))
    ensures AllSound(MatchGroupMembers(results, c, part, ms), cs, ms)
    decreases |part|
  {
    if |part| > 0 {
      var init := part[..|part| - 1];
      var e := part[|part| - 1];
      MatchGroupMembersSound(results, cs, ms, c, init);
      assert e == Flatten(GroupSets(c))[|part| - 1];
      IdsOfMember(Flatten(GroupSets(c)), e);
      MatchLeafMembersSound(MatchGroupMembers(results, c, init, ms), cs, ms, c, e.id, ms);
    }
  }

  lemma {:induction false} MatchChildGroupsSound(results: seq<Node>, cs: seq<Node>, ms: seq<Member>, part: seq<Node>)
    requires WellFormed(results) && AllSound(results, cs, ms)
    requires part <= cs
    ensures AllSound(MatchChildGroups(results, part, ms), cs, ms)
    decreases |part|
  {
    if |part| > 0 {
      var init := part[..|part| - 1];
      var c := part[|part| - 1];
      MatchChildGroupsSound(results, cs, ms, init);
      assert c == cs[|part| - 1];
      MatchGroupMembersSound(MatchChildGroups(results, init, ms), cs, ms, c, Flatten(GroupSets(c)));
    }
  }

  /** Every node derived against one top-level group is named "Intersection with X" and
      coloured like X for a child group X of it, is non-empty, and pairs with `null` only
      ids found both in the new set and in X's flattened descendant sets. */
  lemma IntersectGroupSound(cs: seq<Node>, ms: seq<Member>)
    ensures AllSound(IntersectGroup(cs, ms), cs, ms)
  {
    MatchChildGroupsSound([], cs, ms, cs);
  }

  // ---------------------------------------------------------------------------
  // Completeness: every shared id is recorded

  /** Some derived node called `name` with colour `color` holds `[id, null]`. */
  ghost predicate Has(results: seq<Node>, name: string, color: Option<Color>, id: CellId)
  {
    exists r :: r in results && r.name == name && r.color == color && r.members.Some? && Member(id, None) in r.members.value
  }

  lemma AddHitKeeps(results: seq<Node>, c: Node, eid: CellId, name: string, color: Option<Color>, id: CellId)
    requires WellFormed(results) && Has(results, name, color, id)
    ensures Has(AddHit(results, c, eid), name, color, id)
  {
    var k := FindDerived(results, DerivedName(c), c.color);
    var r :| r in results && r.name == name && r.color == color && r.members.Some? && Member(id, None) in r.members.value;
    var i :| 0 <= i < |results| && results[i] == r;
    var r' := AddHit(results, c, eid);
    if k < |results| && i == k {
      assert r'[k].members.value == r.members.value + [Member(eid, None)];
      assert r'[k] in r';
    } else {
      assert r'[i] == r;
    }
  }

  lemma AddHitAdds(results: seq<Node>, c: Node, id: CellId)
    requires WellFormed(results)
    ensures Has(AddHit(results, c, id), DerivedName(c), c.color, id)
  {
    var k := FindDerived(results, DerivedName(c), c.color);
    var r' := AddHit(results, c, id);
    if k < |results| {
      assert r'[k] in r';
      assert Member(id, None) in r'[k].members.value;
    } else {
      assert r'[|results|] in r';
    }
  }

  lemma {:induction false} MatchLeafMembersKeeps(results: seq<Node>, c: Node, eid: CellId, part: seq<Member>, name: string, color: Option<Color>, id: CellId)
    requires WellFormed(results) && Has(results, name, color, id)
    ensures Has(MatchLeafMembers(results, c, eid, part), name, color, id)
    decreases |part|
  {
    if |part| > 0 {
      var init := part[..|part| - 1];
      MatchLeafMembersKeeps(results, c, eid, init, name, color, id);
      if part[|part| - 1].id == eid {
        AddHitKeeps(MatchLeafMembers(results, c, eid, init), c, eid, name, color, id);
      }
    }
  }

  lemma {:induction false} MatchLeafMembersHit(results: seq<Node>, c: Node, eid: CellId, part: seq<Member>)
    requires WellFormed(results) && eid in Ids(part)
    ensures Has(MatchLeafMembers(results, c, eid, part), DerivedName(c), c.color, eid)
    decreases |part|
  {
    var init := part[..|part| - 1];
    var prev := MatchLeafMembers(results, c, eid, init);
    if part[|part| - 1].id == eid {
      AddHitAdds(prev, c, eid);
    } else {
      var i :| 0 <= i < |part| && Ids(part)[i] == eid;
      assert Ids(init)[i] == eid;
      MatchLeafMembersHit(results, c, eid, init);
    }
  }

  lemma {:induction false} MatchGroupMembersKeeps(results: seq<Node>, c: Node, part: seq<Member>, ms: seq<Member>, name: string, color: Option<Color>, id: CellId)
    requires WellFormed(results) && Has(results, name, color, id)
    ensures Has(MatchGroupMembers(results, c, part, ms), name, color, id)
    decreases |part|
  {
    if |part| > 0 {
      var init := part[..|part| - 1];
      MatchGroupMembersKeeps(results, c, init, ms, name, color, id);
      MatchLeafMembersKeeps(MatchGroupMembers(results, c, init, ms), c, part[|part| - 1].id, ms, name, color, id);
    }
  }

  lemma {:induction false} MatchGroupMembersHit(results: seq<Node>, c: Node, part: seq<Member>, ms: seq<Member>, id: CellId)
    requires WellFormed(results) && id in Ids(part) && id in Ids(ms)
    ensures Has(MatchGroupMembers(results, c, part, ms), DerivedName(c), c.color, id)
    decreases |part|
  {
    var init := part[..|part| - 1];
    var prev := MatchGroupMembers(results, c, init, ms);
    if part[|part| - 1].id == id {
      MatchLeafMembersHit(prev, c, id, ms);
    } else {
      var i :| 0 <= i < |part| && Ids(part)[i] == id;
      assert Ids(init)[i] == id;
      MatchGroupMembersHit(results, c, init, ms, id);
      MatchLeafMembersKeeps(prev, c, part[|part| - 1].id, ms, DerivedName(c), c.color, id);
    }
  }

  lemma {:induction false} MatchChildGroupsKeeps(results: seq<Node>, part: seq<Node>, ms: seq<Member>, name: string, color: Option<Color>, id: CellId)
    requires WellFormed(results) && Has(results, name, color, id)
    ensures Has(MatchChildGroups(results, part, ms), name, color, id)
    decreases |part|
  {
    if |part| > 0 {
      var init := part[..|part| - 1];
      var c := part[|part| - 1];
      MatchChildGroupsKeeps(results, init, ms, name, color, id);
      MatchGroupMembersKeeps(MatchChildGroups(results, init, ms), c, Flatten(GroupSets(c)), ms, name, color, id);
    }
  }

  lemma {:induction false} MatchChildGroupsHit(results: seq<Node>, part: seq<Node>, ms: seq<Member>, c: Node, id: CellId)
    requires WellFormed(results) && c in part && id in GroupMemberIds(c) && id in Ids(ms)
    ensures Has(MatchChildGroups(results, part, ms), DerivedName(c), c.color, id)
    decreases |part|
  {
    var init := part[..|part| - 1];
    var last := part[|part| - 1];
    var prev := MatchChildGroups(results, init, ms);
    if last == c {
      MatchGroupMembersHit(prev, c, Flatten(GroupSets(c)), ms, id);
    } else {
      assert c in init;
      MatchChildGroupsHit(results, init, ms, c, id);
      MatchGroupMembersKeeps(prev, last, Flatten(GroupSets(last)), ms, DerivedName(c), c.color, id);
    }
  }

  /** Conversely, every id that the new set shares with a child group X of the top-level
      group is recorded as `[id, null]` in the node named "Intersection with X" with X's
      colour. */
  lemma IntersectGroupComplete(cs: seq<Node>, ms: seq<Member>, c: Node, id: CellId)
    requires c in cs && id in GroupMemberIds(c) && id in Ids(ms)
    ensures Has(IntersectGroup(cs, ms), DerivedName(c), c.color, id)
  {
    MatchChildGroupsHit([], cs, ms, c, id);
  }

  // ---------------------------------------------------------------------------
  // The whole recursive result

  /** Every node derived for `node` and its descendants comes from a node of that subtree
      that has a set, checked against the children of some top-level group. */
  lemma {:induction false} IntersectionsSound(node: Node, groups: seq<Node>)
    ensures forall r :: r in Intersections(node, groups) ==>
              exists d, g :: d in PreOrder(node) && d.members.Some? && g in groups && g.children.Children? &&
                             SoundDerived(r, g.children.nodes, d.members.value)
    decreases node, 1
  {
    var direct := match node.members case Some(ms) => DirectIntersections(groups, ms) case None => [];
    var below := match node.children case NoChildren => [] case Children(cs) => IntersectionsOfAll(cs, groups);
    assert Intersections(node, groups) == direct + below;
    forall r | r in direct
      ensures exists d, g :: d in PreOrder(node) && d.members.Some? && g in groups && g.children.Children? &&
                             SoundDerived(r, g.children.nodes, d.members.value)
    {
      var ms := node.members.value;
      var i := LastWithChildren(groups, ms);
      LastGroupWithChildrenWins(groups, ms, i);
      IntersectGroupSound(groups[i].children.nodes, ms);
      assert PreOrder(node)[0] == node;
      assert groups[i] in groups;
    }
    match node.children
    case NoChildren =>
    case Children(cs) =>
      IntersectionsOfAllSound(cs, groups);
      forall r | r in below
        ensures exists d, g :: d in PreOrder(node) && d.members.Some? && g in groups && g.children.Children? &&
                               SoundDerived(r, g.children.nodes, d.members.value)
      {
        var d, g :| d in PreOrderOfAll(cs) && d.members.Some? && g in groups && g.children.Children? &&
                    SoundDerived(r, g.children.nodes, d.members.value);
        assert PreOrder(node) == [node] + PreOrderOfAll(cs);
      }
  }

  lemma {:induction false} IntersectionsOfAllSound(cs: seq<Node>, groups: seq<Node>)
    ensures forall r :: r in IntersectionsOfAll(cs, groups) ==>
              exists d, g :: d in PreOrderOfAll(cs) && d.members.Some? && g in groups && g.children.Children? &&
                             SoundDerived(r, g.children.nodes, d.members.value)
    decreases cs, 0
  {
    if cs != [] {
      var init := cs[..|cs| - 1];
      var last := cs[|cs| - 1];
      IntersectionsOfAllSound(init, groups);
      IntersectionsSound(last, groups);
      assert PreOrderOfAll(cs) == PreOrderOfAll(init) + PreOrder(last);
    }
  }

  /** The index of the last top-level group with children, when a non-empty result shows
      that one exists. */
  lemma {:induction false} LastWithChildren(groups: seq<Node>, ms: seq<Member>) returns (i: int)
    requires DirectIntersections(groups, ms) != []
    ensures 0 <= i < |groups| && groups[i].children.Children?
    ensures forall j :: i < j < |groups| ==> groups[j].children.NoChildren?
    decreases |groups|
  {
    var n := |groups| - 1;
    if groups[n].children.Children? {
      i := n;
    } else {
      var init := groups[..n];
      i := LastWithChildren(init, ms);
      assert forall j :: i < j < n ==> groups[j] == init[j];
    }
  }
}
