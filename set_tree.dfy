/** The obs-set hierarchy shared by the sets manager and the statistical-plot views:
    nodes with a name, optional children, an optional member list and an optional colour,
    and the colour table (`obsSetColor`) that maps node paths to colours. */
module SetTree {
  import opened Common

  type CellId = string

  /** Names from a root down to a node. */
  type Path = seq<string>

  /** An RGB triple `[r, g, b]`. */
  datatype Color = Color(r: int, g: int, b: int)

  /** One `set` entry `[cellId, value]`; derived intersection members carry `null`. */
  datatype Member = Member(id: CellId, value: Option<real>)

  /** A node's `children` array, or its absence. A separate (non-generic) type so that
      recursion through the children is well founded. */
  datatype Children = NoChildren | Children(nodes: seq<Node>)

  /** `members` is the node's `set` array (a reserved word in Dafny). */
  datatype Node = Node(name: string, children: Children, members: Option<seq<Member>>, color: Option<Color>)

  /** One `{ path, color }` entry of the colour table; `color` may be missing for entries
      appended from nodes that had none. */
  datatype ColorEntry = ColorEntry(path: Path, color: Option<Color>)

  /** The children of `n`, or `[]` (`node.children || []`). */
  function Kids(n: Node): seq<Node>
  {
    match n.children
    case NoChildren => []
    case Children(cs) => cs
  }

  /** The ids of a member list (`set.map(([cellId]) => cellId)`). */
  function Ids(ms: seq<Member>): (r: seq<CellId>)
    ensures |r| == |ms|
    ensures forall i :: 0 <= i < |ms| ==> r[i] == ms[i].id
  {
    seq(|ms|, i requires 0 <= i < |ms| => ms[i].id)
  }

  lemma IdsOfMember(ms: seq<Member>, m: Member)
    requires m in ms
    ensures m.id in Ids(ms)
  {
    var i :| 0 <= i < |ms| && ms[i] == m;
    assert Ids(ms)[i] == m.id;
  }

  /** The number of nodes in the tree rooted at `n`. */
  function Size(n: Node): nat
    decreases n, 1
  {
    match n.children
    case NoChildren => 1
    case Children(cs) => 1 + SizeOfAll(cs)
  }

  function SizeOfAll(cs: seq<Node>): nat
    decreases cs, 0
  {
    if cs == [] then 0 else SizeOfAll(cs[..|cs| - 1]) + Size(cs[|cs| - 1])
  }

  /** Every node of the tree rooted at `n`, in pre-order: a node before its descendants,
      siblings left to right. */
  function PreOrder(n: Node): (r: seq<Node>)
    ensures |r| == Size(n) && r[0] == n
    decreases n, 1
  {
    match n.children
    case NoChildren => [n]
    case Children(cs) => [n] + PreOrderOfAll(cs)
  }

  function PreOrderOfAll(cs: seq<Node>): (r: seq<Node>)
    ensures |r| == SizeOfAll(cs)
    decreases cs, 0
  {
    if cs == [] then [] else PreOrderOfAll(cs[..|cs| - 1]) + PreOrder(cs[|cs| - 1])
  }

  /** `setColor.find(d => isEqual(d.path, path))`: the first entry for `path`. */
  function FindColorEntry(table: seq<ColorEntry>, path: Path): (r: Option<ColorEntry>)
    ensures r.None? <==> forall i :: 0 <= i < |table| ==> table[i].path != path
    ensures r.Some? ==> exists i :: 0 <= i < |table| && table[i] == r.value && table[i].path == path
                                    && forall j :: 0 <= j < i ==> table[j].path != path
  {
    if |table| == 0 then None
    else if table[0].path == path then Some(table[0])
    else
      var r := FindColorEntry(table[1..], path);
      assert forall i :: 0 < i < |table| ==> table[i] == table[1..][i - 1];
      r
  }

  /** `find(...)?.color || fallback`: the colour of the first entry for `path`, or
      `fallback` when there is no entry or that entry has no colour. */
  function ResolvedColor(table: seq<ColorEntry>, path: Path, fallback: Color): Color
  {
    match FindColorEntry(table, path)
    case Some(e) => e.color.GetOr(fallback)
    case None => fallback
  }

  /** The colour stored in the earliest entry for a path is the one resolved; a path
      without entries resolves to the fallback, never to another path's colour. */
  lemma ResolvedColorIsFirstEntry(table: seq<ColorEntry>, path: Path, fallback: Color, i: int)
    requires 0 <= i < |table| && table[i].path == path
    requires forall j :: 0 <= j < i ==> table[j].path != path
    ensures ResolvedColor(table, path, fallback) == table[i].color.GetOr(fallback)
  {
    var e := FindColorEntry(table, path);
    var k :| 0 <= k < |table| && table[k] == e.value && table[k].path == path
             && forall j :: 0 <= j < k ==> table[j].path != path;
    assert k == i;
  }

  /** Appending to the colour table never changes a path that already had an entry, and a
      path that had none resolves to the first appended colour for it (a colour set for
      `[10, 20, 30]` comes back unchanged). */
  lemma {:induction false} AppendedColorResolves(table: seq<ColorEntry>, extra: seq<ColorEntry>, path: Path, fallback: Color)
    ensures (exists i :: 0 <= i < |table| && table[i].path == path) ==>
              ResolvedColor(table + extra, path, fallback) == ResolvedColor(table, path, fallback)
    ensures (forall i :: 0 <= i < |table| ==> table[i].path != path) ==>
              ResolvedColor(table + extra, path, fallback) == ResolvedColor(extra, path, fallback)
  {
    if |table| > 0 {
      assert (table + extra)[1..] == table[1..] + extra;
      AppendedColorResolves(table[1..], extra, path, fallback);
      if table[0].path != path {
        assert forall i :: 1 <= i < |table| ==> table[i] == table[1..][i - 1];
        assert forall i :: 0 <= i < |table| - 1 ==> table[1..][i] == table[i + 1];
      }
    } else {
      assert table + extra == extra;
    }
  }
}
