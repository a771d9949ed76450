/** The scene graph (src/ui/root.rs): viewports name their parents, and building the graph walks each
    viewport's ancestors, reusing the offsets already computed for earlier ones. */
module Scene {
  import opened Prelude
  import opened Scanline

  type Id = nat

  datatype Viewport = Viewport(
    id: Id, startRow: nat, startCol: nat, numRows: nat, scroll: nat, visible: bool, parent: Option<Id>, buff: CharBuff)

  type Viewports = seq<Viewport>

  // ---------------------------------------------------------------- forests

  ghost predicate Distinct(vps: Viewports) {
    forall i, j | 0 <= i < j < |vps| :: vps[i].id != vps[j].id
  }

  ghost predicate IsParent(vps: Viewports, child: nat, parent: nat) {
    child < |vps| && parent < |vps| && vps[child].parent == Some(vps[parent].id)
  }

  ghost predicate Linked(vps: Viewports, chain: seq<nat>, k: nat)
    requires k + 1 < |chain|
  {
    IsParent(vps, chain[k], chain[k + 1])
  }

  /** The viewport and its ancestors up to one without a parent. */
  ghost predicate IsChain(vps: Viewports, i: nat, chain: seq<nat>) {
    && chain != [] && chain[0] == i
    && (forall k | 0 <= k < |chain| :: chain[k] < |vps|)
    && (forall k | 0 <= k < |chain| - 1 :: Linked(vps, chain, k))
    && vps[chain[|chain| - 1]].parent == None
  }

  /** Distinct ids, and every viewport has an ancestry that ends: no missing parent and no cycle. */
  ghost predicate Forest(vps: Viewports) {
    Distinct(vps) && forall i: nat | i < |vps| :: HasChain(vps, i)
  }

  ghost predicate HasChain(vps: Viewports, i: nat) {
    exists chain :: IsChain(vps, i, chain)
  }

  ghost function Chain(vps: Viewports, i: nat): (c: seq<nat>)
    requires Forest(vps) && i < |vps|
    ensures IsChain(vps, i, c)
  {
    assert HasChain(vps, i);
    var c :| IsChain(vps, i, c);
    c
  }

  lemma {:induction false} ChainIsUnique(vps: Viewports, i: nat, c: seq<nat>, d: seq<nat>)
    requires Distinct(vps) && IsChain(vps, i, c) && IsChain(vps, i, d)
    ensures c == d
    decreases |c|
  {
    assert |c| > 1 ==> Linked(vps, c, 0);
    assert |d| > 1 ==> Linked(vps, d, 0);
    if |c| > 1 {
      assert c[1] == d[1];
      ChainTail(vps, i, c);
      ChainTail(vps, i, d);
      ChainIsUnique(vps, c[1], c[1..], d[1..]);
      assert c == [i] + c[1..] && d == [i] + d[1..];
    }
  }

  lemma ChainTail(vps: Viewports, i: nat, c: seq<nat>)
    requires IsChain(vps, i, c) && |c| > 1
    ensures IsChain(vps, c[1], c[1..])
  {
    forall k | 0 <= k < |c[1..]| - 1 ensures Linked(vps, c[1..], k) {
      assert Linked(vps, c, k + 1);
    }
  }

  lemma {:induction false} ChainFrom(vps: Viewports, i: nat, k: nat)
    requires Forest(vps) && i < |vps| && k < |Chain(vps, i)|
    ensures Chain(vps, i)[k] < |vps| && Chain(vps, Chain(vps, i)[k]) == Chain(vps, i)[k..]
  {
    var c := Chain(vps, i);
    if k == 0 {
      assert c[0..] == c;
    } else {
      ChainFrom(vps, i, k - 1);
      var j := c[k - 1];
      ChainTail(vps, j, c[k - 1..]);
      assert c[k - 1..][1..] == c[k..];
      ChainIsUnique(vps, c[k], Chain(vps, c[k]), c[k..]);
    }
  }

  /** The sum of the positions along a chain: a viewport's place on the root pane. */
  function Total(vps: Viewports, chain: seq<nat>): (nat, nat)
    requires forall k | 0 <= k < |chain| :: chain[k] < |vps|
  {
    if chain == [] then (0, 0)
    else
      var (row, col) := Total(vps, chain[1..]);
      (vps[chain[0]].startRow + row, vps[chain[0]].startCol + col)
  }

  ghost function Place(vps: Viewports, i: nat): (nat, nat)
    requires Forest(vps) && i < |vps|
  {
    Total(vps, Chain(vps, i))
  }

  ghost function Depth(vps: Viewports, i: nat): nat
    requires Forest(vps) && i < |vps|
  {
    |Chain(vps, i)| - 1
  }

  // ---------------------------------------------------------------- the depth the walk records

  /** The first ancestor from `k` on that was listed, and so processed, before `i`. */
  function FirstEarlier(chain: seq<nat>, i: nat, k: nat): (m: nat)
    requires k <= |chain|
    ensures k <= m <= |chain|
    ensures m < |chain| ==> chain[m] < i
    ensures forall j | k <= j < m :: chain[j] >= i
    decreases |chain| - k
  {
    if k == |chain| || chain[k] < i then k else FirstEarlier(chain, i, k + 1)
  }

  lemma {:induction false} FirstEarlierIs(chain: seq<nat>, i: nat, k: nat, m: nat)
    requires k <= m <= |chain| && (m < |chain| ==> chain[m] < i) && forall j | k <= j < m :: chain[j] >= i
    ensures FirstEarlier(chain, i, k) == m
    decreases m - k
  {
    if k < m {
      FirstEarlierIs(chain, i, k + 1, m);
    }
  }

  /** Reaching a processed ancestor, the walk takes that ancestor's depth plus one and forgets how far
      it had walked. */
  ghost function WalkedDepth(vps: Viewports, i: nat): nat
    requires Forest(vps) && i < |vps|
    decreases i
  {
    var c := Chain(vps, i);
    var m := FirstEarlier(c, i, 1);
    if m < |c| then WalkedDepth(vps, c[m]) + 1 else |c| - 1
  }

  lemma {:induction false} WalkedIsNeverDeeper(vps: Viewports, i: nat)
    requires Forest(vps) && i < |vps|
    ensures WalkedDepth(vps, i) <= Depth(vps, i)
    decreases i
  {
    var c := Chain(vps, i);
    var m := FirstEarlier(c, i, 1);
    if m < |c| {
      ChainFrom(vps, i, m);
      WalkedIsNeverDeeper(vps, c[m]);
    }
  }

  /** No viewport is listed after one of its ancestors but before its parent. */
  ghost predicate NoSkips(vps: Viewports)
    requires Forest(vps)
  {
    forall i: nat | i < |vps| :: NoSkipAt(vps, i)
  }

  ghost predicate NoSkipAt(vps: Viewports, i: nat)
    requires Forest(vps) && i < |vps|
  {
    var c := Chain(vps, i);
    (exists k :: 1 <= k < |c| && c[k] < i) ==> c[1] < i
  }

  lemma {:induction false} ExactWithoutSkips(vps: Viewports, i: nat)
    requires Forest(vps) && i < |vps| && NoSkips(vps)
    ensures WalkedDepth(vps, i) == Depth(vps, i)
    decreases i
  {
    var c := Chain(vps, i);
    var m := FirstEarlier(c, i, 1);
    if m < |c| {
      assert NoSkipAt(vps, i);
      assert m == 1;
      ChainFrom(vps, i, 1);
      ExactWithoutSkips(vps, c[1]);
    }
  }

  lemma SkipIsShallow(vps: Viewports, i: nat)
    requires Forest(vps) && i < |vps| && !NoSkipAt(vps, i)
    ensures WalkedDepth(vps, i) < Depth(vps, i)
  {
    var c := Chain(vps, i);
    var m := FirstEarlier(c, i, 1);
    var k :| 1 <= k < |c| && c[k] < i;
    assert 1 < m <= k;
    ChainFrom(vps, i, m);
    WalkedIsNeverDeeper(vps, c[m]);
  }

  /** The recorded depths are the true ones exactly when no viewport is listed after an ancestor but
      before its parent. */
  lemma DepthsAreExactIff(vps: Viewports)
    requires Forest(vps)
    ensures (forall i: nat | i < |vps| :: WalkedDepth(vps, i) == Depth(vps, i)) <==> NoSkips(vps)
  {
    if NoSkips(vps) {
      forall i: nat | i < |vps| ensures WalkedDepth(vps, i) == Depth(vps, i) {
        ExactWithoutSkips(vps, i);
      }
    }
    if forall i: nat | i < |vps| :: WalkedDepth(vps, i) == Depth(vps, i) {
      forall i: nat | i < |vps| ensures NoSkipAt(vps, i) {
        assert WalkedDepth(vps, i) == Depth(vps, i);
        if !NoSkipAt(vps, i) {
          SkipIsShallow(vps, i);
        }
      }
    }
  }

  /** In particular with every parent listed before its children. */
  ghost predicate ParentsFirst(vps: Viewports) {
    forall i: nat, p: nat | IsParent(vps, i, p) :: p < i
  }

  lemma ParentsFirstIsExact(vps: Viewports, i: nat)
    requires Forest(vps) && ParentsFirst(vps) && i < |vps|
    ensures WalkedDepth(vps, i) == Depth(vps, i)
  {
    forall j: nat | j < |vps| ensures NoSkipAt(vps, j) {
      var c := Chain(vps, j);
      if |c| > 1 {
        assert Linked(vps, c, 0);
      }
    }
    ExactWithoutSkips(vps, i);
  }

  /** A grandchild listed between its grandparent and its parent: it is recorded at depth 1. */
  function SkippingList(): Viewports {
    var buff := CharBuff(1, []);
    [Viewport(1, 0, 0, 1, 0, true, None, buff),
     Viewport(3, 0, 0, 1, 0, true, Some(2), buff),
     Viewport(2, 0, 0, 1, 0, true, Some(1), buff)]
  }

  lemma SkippedDepth()
    ensures Forest(SkippingList())
    ensures WalkedDepth(SkippingList(), 1) == 1 && Depth(SkippingList(), 1) == 2
  {
    var vps := SkippingList();
    assert IsChain(vps, 0, [0]);
    assert Linked(vps, [2, 0], 0);
    assert IsChain(vps, 2, [2, 0]);
    assert Linked(vps, [1, 2, 0], 0) && Linked(vps, [1, 2, 0], 1);
    assert IsChain(vps, 1, [1, 2, 0]);
    assert HasChain(vps, 0) && HasChain(vps, 1) && HasChain(vps, 2);
    ChainIsUnique(vps, 0, Chain(vps, 0), [0]);
    ChainIsUnique(vps, 1, Chain(vps, 1), [1, 2, 0]);
    FirstEarlierIs([1, 2, 0], 1, 1, 2);
    FirstEarlierIs([0], 0, 1, 1);
    assert WalkedDepth(vps, 0) == 0;
  }

  // ---------------------------------------------------------------- building the graph

  datatype Graph = Graph(
    viewports: Viewports, table: map<Id, nat>, offsets: map<Id, (nat, nat)>, hierarchy: seq<seq<Id>>)

  ghost predicate Indexes(vps: Viewports, n: nat, table: map<Id, nat>)
    requires n <= |vps|
  {
    && (forall i | 0 <= i < n :: vps[i].id in table && table[vps[i].id] == i)
    && (forall id | id in table :: table[id] < n && vps[table[id]].id == id)
  }

  method BuildTable(vps: Viewports) returns (table: map<Id, nat>)
    requires Distinct(vps)
    ensures Indexes(vps, |vps|, table)
  {
    table := map[];
    for i := 0 to |vps|
      invariant Indexes(vps, i, table)
    {
      table := table[vps[i].id := i];
    }
  }

  /** Each viewport's id, with its parent's index if it has a parent. */
  ghost predicate IsTree(vps: Viewports, n: nat, tree: map<Id, Option<nat>>)
    requires n <= |vps|
  {
    forall i | 0 <= i < n ::
      && vps[i].id in tree
      && (tree[vps[i].id] == None <==> vps[i].parent == None)
      && (tree[vps[i].id].Some? ==> IsParent(vps, i, tree[vps[i].id].value))
  }

  lemma ParentIsListed(vps: Viewports, i: nat)
    requires Forest(vps) && i < |vps| && vps[i].parent.Some?
    ensures |Chain(vps, i)| > 1 && IsParent(vps, i, Chain(vps, i)[1])
  {
    var c := Chain(vps, i);
    if |c| > 1 {
      assert Linked(vps, c, 0);
    }
  }

  method BuildTree(vps: Viewports, table: map<Id, nat>) returns (tree: map<Id, Option<nat>>)
    requires Forest(vps) && Indexes(vps, |vps|, table)
    ensures IsTree(vps, |vps|, tree)
  {
    tree := map[];
    for i := 0 to |vps|
      invariant IsTree(vps, i, tree)
    {
      match vps[i].parent
      case None =>
        tree := tree[vps[i].id := None];
      case Some(parent) =>
        ParentIsListed(vps, i);
        tree := tree[vps[i].id := Some(table[parent])];
    }
  }

  /** The offsets of the first `n` viewports, and of no other, are their places. */
  ghost predicate Placed(vps: Viewports, n: nat, offsets: map<Id, (nat, nat)>)
    requires Forest(vps) && n <= |vps|
  {
    && (forall i | 0 <= i < n :: vps[i].id in offsets && offsets[vps[i].id] == Place(vps, i))
    && (forall i | n <= i < |vps| :: vps[i].id !in offsets)
  }

  lemma KnownIsEarlier(vps: Viewports, n: nat, offsets: map<Id, (nat, nat)>, p: nat)
    requires Forest(vps) && n <= |vps| && Placed(vps, n, offsets) && p < |vps|
    ensures vps[p].id in offsets <==> p < n
    ensures p < n ==> offsets[vps[p].id] == Place(vps, p)
  {
  }

  lemma TreeGivesParent(vps: Viewports, tree: map<Id, Option<nat>>, i: nat)
    requires i < |vps| && IsTree(vps, |vps|, tree)
    ensures vps[i].id in tree && (tree[vps[i].id] == None ==> vps[i].parent == None)
    ensures tree[vps[i].id].Some? ==> IsParent(vps, i, tree[vps[i].id].value)
  {
  }

  /** A place is the viewport's own position on top of its parent's place. */
  lemma PlaceOnParent(vps: Viewports, i: nat, parent: nat)
    requires Forest(vps) && IsParent(vps, i, parent)
    ensures Place(vps, i).0 == vps[i].startRow + Place(vps, parent).0
    ensures Place(vps, i).1 == vps[i].startCol + Place(vps, parent).1
    ensures Depth(vps, i) == Depth(vps, parent) + 1
  {
    NextIsParent(vps, i, 0, parent);
    ChainFrom(vps, i, 1);
  }

  lemma PlaceOfRoot(vps: Viewports, i: nat)
    requires Forest(vps) && i < |vps| && vps[i].parent == None
    ensures Place(vps, i) == (vps[i].startRow, vps[i].startCol)
  {
    LastIsRoot(vps, i, 0);
    assert Chain(vps, i)[1..] == [];
    assert Total(vps, Chain(vps, i)[1..]) == (0, 0);
  }

  /** The walk from viewport `i` has come `k` steps up to `cur`, past no processed ancestor. */
  ghost predicate WalkedTo(vps: Viewports, i: nat, k: nat, cur: nat)
    requires Forest(vps) && i < |vps|
  {
    var c := Chain(vps, i);
    k < |c| && cur == c[k] && forall j | 1 <= j <= k :: c[j] >= i
  }

  lemma WalkSteps(vps: Viewports, i: nat, k: nat, cur: nat, parent: nat)
    requires Forest(vps) && i < |vps| && WalkedTo(vps, i, k, cur) && IsParent(vps, cur, parent) && parent >= i
    ensures WalkedTo(vps, i, k + 1, parent)
  {
    NextIsParent(vps, i, k, parent);
  }

  lemma WalkMeets(vps: Viewports, i: nat, k: nat, cur: nat, parent: nat)
    requires Forest(vps) && i < |vps| && WalkedTo(vps, i, k, cur) && IsParent(vps, cur, parent) && parent < i
    ensures WalkedDepth(vps, i) == WalkedDepth(vps, parent) + 1
  {
    NextIsParent(vps, i, k, parent);
    FirstEarlierIs(Chain(vps, i), i, 1, k + 1);
  }

  lemma WalkEnds(vps: Viewports, i: nat, k: nat, cur: nat)
    requires Forest(vps) && i < |vps| && WalkedTo(vps, i, k, cur) && vps[cur].parent == None
    ensures WalkedDepth(vps, i) == k
  {
    LastIsRoot(vps, i, k);
    FirstEarlierIs(Chain(vps, i), i, 1, k + 1);
  }

  /** The state of the walk: what it has added up stops just short of the place of `cur`. */
  ghost predicate Walking(vps: Viewports, i: nat, k: nat, cur: nat, row: nat, col: nat)
    requires Forest(vps) && i < |vps|
  {
    && cur < |vps| && WalkedTo(vps, i, k, cur)
    && row + Place(vps, cur).0 == Place(vps, i).0 + vps[cur].startRow
    && col + Place(vps, cur).1 == Place(vps, i).1 + vps[cur].startCol
  }

  lemma WalkingStarts(vps: Viewports, i: nat)
    requires Forest(vps) && i < |vps|
    ensures Walking(vps, i, 0, i, vps[i].startRow, vps[i].startCol)
  {
  }

  lemma WalkingOn(vps: Viewports, i: nat, k: nat, cur: nat, row: nat, col: nat, parent: nat)
    requires Forest(vps) && i < |vps| && Walking(vps, i, k, cur, row, col) && IsParent(vps, cur, parent) && parent >= i
    ensures Walking(vps, i, k + 1, parent, row + vps[parent].startRow, col + vps[parent].startCol)
    ensures Depth(vps, parent) < Depth(vps, cur)
  {
    PlaceOnParent(vps, cur, parent);
    WalkSteps(vps, i, k, cur, parent);
  }

  lemma WalkingMeets(vps: Viewports, i: nat, k: nat, cur: nat, row: nat, col: nat, parent: nat)
    requires Forest(vps) && i < |vps| && Walking(vps, i, k, cur, row, col) && IsParent(vps, cur, parent) && parent < i
    ensures (row + Place(vps, parent).0, col + Place(vps, parent).1) == Place(vps, i)
    ensures WalkedDepth(vps, i) == WalkedDepth(vps, parent) + 1
  {
    PlaceOnParent(vps, cur, parent);
    WalkMeets(vps, i, k, cur, parent);
  }

  lemma WalkingEnds(vps: Viewports, i: nat, k: nat, cur: nat, row: nat, col: nat)
    requires Forest(vps) && i < |vps| && Walking(vps, i, k, cur, row, col) && vps[cur].parent == None
    ensures (row, col) == Place(vps, i) && WalkedDepth(vps, i) == k
  {
    WalkEnds(vps, i, k, cur);
    PlaceOfRoot(vps, cur);
  }

  /** Walks from viewport `i` towards the root until an ancestor with known offset, and stops. */
  method Walk(vps: Viewports, tree: map<Id, Option<nat>>, offsets: map<Id, (nat, nat)>, depths: seq<nat>, i: nat)
    returns (row: nat, col: nat, depth: nat)
    requires Forest(vps) && i < |vps| && IsTree(vps, |vps|, tree) && Placed(vps, i, offsets)
    requires |depths| == i && forall j | 0 <= j < i :: depths[j] == WalkedDepth(vps, j)
    ensures (row, col) == Place(vps, i) && depth == WalkedDepth(vps, i)
  {
    row, col := vps[i].startRow, vps[i].startCol;
    var cur := i;
    depth := 0;
    WalkingStarts(vps, i);
    TreeGivesParent(vps, tree, cur);
    while tree[vps[cur].id].Some?
      invariant cur < |vps| && vps[cur].id in tree && Walking(vps, i, depth, cur, row, col)
      decreases Depth(vps, cur)
    {
      var parent := tree[vps[cur].id].value;
      TreeGivesParent(vps, tree, cur);
      KnownIsEarlier(vps, i, offsets, parent);
      if vps[parent].id in offsets {
        WalkingMeets(vps, i, depth, cur, row, col, parent);
        row, col := row + offsets[vps[parent].id].0, col + offsets[vps[parent].id].1;
        depth := depths[parent] + 1;
        return;
      }
      WalkingOn(vps, i, depth, cur, row, col, parent);
      row, col := row + vps[parent].startRow, col + vps[parent].startCol;
      cur := parent;
      depth := depth + 1;
      TreeGivesParent(vps, tree, cur);
    }
    TreeGivesParent(vps, tree, cur);
    WalkingEnds(vps, i, depth, cur, row, col);
  }

  lemma NextIsParent(vps: Viewports, i: nat, k: nat, parent: nat)
    requires Forest(vps) && i < |vps| && k < |Chain(vps, i)| && IsParent(vps, Chain(vps, i)[k], parent)
    ensures k + 1 < |Chain(vps, i)| && Chain(vps, i)[k + 1] == parent
  {
    var c := Chain(vps, i);
    if k + 1 < |c| {
      assert Linked(vps, c, k);
    }
  }

  lemma LastIsRoot(vps: Viewports, i: nat, k: nat)
    requires Forest(vps) && i < |vps| && k < |Chain(vps, i)| && vps[Chain(vps, i)[k]].parent == None
    ensures k == |Chain(vps, i)| - 1
  {
    var c := Chain(vps, i);
    forall j | 0 <= j < |c| - 1 ensures vps[c[j]].parent.Some? {
      assert Linked(vps, c, j);
    }
  }

  /** The ids of the first `n` viewports with depth `d`, in list order. */
  function LevelIds(vps: Viewports, depths: seq<nat>, d: nat, n: nat): seq<Id>
    requires n <= |vps| == |depths|
  {
    if n == 0 then []
    else if depths[n - 1] == d then LevelIds(vps, depths, d, n - 1) + [vps[n - 1].id]
    else LevelIds(vps, depths, d, n - 1)
  }

  method BuildHierarchy(vps: Viewports, depths: seq<nat>, maxDepth: nat) returns (hierarchy: seq<seq<Id>>)
    requires |depths| == |vps| && forall i | 0 <= i < |depths| :: depths[i] <= maxDepth
    ensures |hierarchy| == maxDepth + 1
    ensures forall d | 0 <= d <= maxDepth :: hierarchy[d] == LevelIds(vps, depths, d, |vps|)
  {
    hierarchy := seq(maxDepth + 1, _ => []);
    for i := 0 to |vps|
      invariant |hierarchy| == maxDepth + 1
      invariant forall d | 0 <= d <= maxDepth :: hierarchy[d] == LevelIds(vps, depths, d, i)
    {
      hierarchy := hierarchy[depths[i] := hierarchy[depths[i]] + [vps[i].id]];
    }
  }

  ghost predicate Recorded(vps: Viewports, depths: seq<nat>)
    requires Forest(vps)
  {
    |depths| == |vps| && forall i | 0 <= i < |vps| :: depths[i] == WalkedDepth(vps, i)
  }

  /** The levels list the viewports by recorded depth. */
  ghost predicate Leveled(vps: Viewports, depths: seq<nat>, hierarchy: seq<seq<Id>>) {
    && |depths| == |vps| && (forall i | 0 <= i < |vps| :: depths[i] < |hierarchy|)
    && (forall d | 0 <= d < |hierarchy| :: hierarchy[d] == LevelIds(vps, depths, d, |vps|))
  }

  /** The graph of a list of viewports. */
  ghost predicate IsGraph(vps: Viewports, g: Graph)
    requires Forest(vps)
  {
    && g.viewports == vps && Indexes(vps, |vps|, g.table) && Placed(vps, |vps|, g.offsets)
    && exists depths :: Recorded(vps, depths) && Leveled(vps, depths, g.hierarchy)
  }

  method NewSceneGraph(vps: Viewports) returns (g: Graph)
    requires Forest(vps)
    ensures IsGraph(vps, g)
  {
    var table := BuildTable(vps);
    var tree := BuildTree(vps, table);
    var offsets: map<Id, (nat, nat)> := map[];
    var depths: seq<nat> := [];
    var maxDepth := 0;
    for i := 0 to |vps|
      invariant Placed(vps, i, offsets)
      invariant |depths| == i && forall j | 0 <= j < i :: depths[j] == WalkedDepth(vps, j) && depths[j] <= maxDepth
    {
      var row, col, depth := Walk(vps, tree, offsets, depths, i);
      offsets := offsets[vps[i].id := (row, col)];
      depths := depths + [depth];
      maxDepth := if depth > maxDepth then depth else maxDepth;
    }
    var hierarchy := BuildHierarchy(vps, depths, maxDepth);
    assert Recorded(vps, depths) && Leveled(vps, depths, hierarchy);
    g := Graph(vps, table, offsets, hierarchy);
  }

  // ---------------------------------------------------------------- what the levels hold

  lemma {:induction false} LevelHolds(vps: Viewports, depths: seq<nat>, d: nat, n: nat, id: Id)
    requires n <= |vps| == |depths|
    ensures id in LevelIds(vps, depths, d, n) <==> exists i :: 0 <= i < n && vps[i].id == id && depths[i] == d
  {
    if n > 0 {
      LevelHolds(vps, depths, d, n - 1, id);
    }
  }

  /** The viewport is on level `d` and on no other. */
  ghost predicate OnLevel(hierarchy: seq<seq<Id>>, id: Id, d: nat) {
    && d < |hierarchy|
    && forall e: nat | e < |hierarchy| :: id in hierarchy[e] <==> e == d
  }

  lemma LevelOfDepth(vps: Viewports, depths: seq<nat>, hierarchy: seq<seq<Id>>, i: nat, d: nat)
    requires Distinct(vps) && Leveled(vps, depths, hierarchy) && i < |vps|
    ensures OnLevel(hierarchy, vps[i].id, d) <==> d == depths[i]
  {
    forall e: nat | e < |hierarchy|
      ensures vps[i].id in hierarchy[e] <==> e == depths[i]
    {
      LevelHolds(vps, depths, e, |vps|, vps[i].id);
    }
    assert OnLevel(hierarchy, vps[i].id, depths[i]);
    assert vps[i].id in hierarchy[depths[i]];
  }

  /** Each level holds exactly the viewports of its depth, exactly when no viewport is listed between
      an ancestor and its parent. */
  lemma LevelsAreDepthsIff(vps: Viewports, g: Graph)
    requires Forest(vps) && IsGraph(vps, g)
    ensures (forall i: nat | i < |vps| :: OnLevel(g.hierarchy, vps[i].id, Depth(vps, i))) <==> NoSkips(vps)
  {
    DepthsAreExactIff(vps);
    var depths :| Recorded(vps, depths) && Leveled(vps, depths, g.hierarchy);
    forall i: nat | i < |vps|
      ensures OnLevel(g.hierarchy, vps[i].id, Depth(vps, i)) <==> WalkedDepth(vps, i) == Depth(vps, i)
    {
      LevelOfDepth(vps, depths, g.hierarchy, i, Depth(vps, i));
    }
  }
}
