/** The class `ExtensiveFormGame` built from a root node: construction (the
    root checks, growing the tree, naming, sorting) and the methods that
    change or read its information sets. */
module EfgGame {
  import opened Wrappers
  import opened Seqs
  import opened Sorting
  import opened EfgEntities
  import opened EfgTree
  import opened EfgNaming
  import opened EfgInfoSets

  datatype GameError =
    | RootNoActions        // AttributeError: root node has no actions
    | RootNoChildren       // AttributeError: root node has no children
    | RootNoPlayer         // AttributeError: root node has no player
    | TreeError(e: GrowError)

  /** The checks `__init__` makes on the root, in order. */
  function RootError(r: NodeRec): Option<GameError>
  {
    if r.actions.NoActions? then Some(RootNoActions)
    else if r.children.NoChildren? then Some(RootNoChildren)
    else if r.player.NoPlayer? then Some(RootNoPlayer)
    else None
  }

  function PlayerName(ps: seq<PlayerRec>, f: PlayerField): Name
  {
    if f.IsPlayer? && f.p < |ps| then ps[f.p].name else Unnamed
  }

  /** Players ordered by name, `players.sort(key=attrgetter('name'))`. */
  function PlayerNameLe(ps: seq<PlayerRec>): (PlayerField, PlayerField) -> bool
  {
    (a: PlayerField, b: PlayerField) => NameLe(PlayerName(ps, a), PlayerName(ps, b))
  }

  function LeafName(ls: seq<LeafRec>, l: nat): Name
  {
    if l < |ls| then ls[l].name else Unnamed
  }

  /** Leaves ordered by name, `leafs.sort(key=attrgetter('name', 'payoffs'))`. */
  function LeafNameLe(ls: seq<LeafRec>): (nat, nat) -> bool
  {
    (a: nat, b: nat) => NameLe(LeafName(ls, a), LeafName(ls, b))
  }

  lemma PlayerNameLeTotalPreorder(ps: seq<PlayerRec>)
    ensures TotalPreorder(PlayerNameLe(ps))
  {
    NameLeTotalPreorder();
    var le := PlayerNameLe(ps);
    forall a, b ensures le(a, b) || le(b, a) {
      assert NameLe(PlayerName(ps, a), PlayerName(ps, b)) || NameLe(PlayerName(ps, b), PlayerName(ps, a));
    }
    forall a, b, c | le(a, b) && le(b, c) ensures le(a, c) {
      assert NameLe(PlayerName(ps, a), PlayerName(ps, c));
    }
  }

  lemma LeafNameLeTotalPreorder(ls: seq<LeafRec>)
    ensures TotalPreorder(LeafNameLe(ls))
  {
    NameLeTotalPreorder();
    var le := LeafNameLe(ls);
    forall a, b ensures le(a, b) || le(b, a) {
      assert NameLe(LeafName(ls, a), LeafName(ls, b)) || NameLe(LeafName(ls, b), LeafName(ls, a));
    }
    forall a, b, c | le(a, b) && le(b, c) ensures le(a, c) {
      assert NameLe(LeafName(ls, a), LeafName(ls, c));
    }
  }

  // ---------------------------------------------------------------------
  // The loops of `set_info_set`, `remove_info_set` and
  // `_grow_info_set_graph_dictionary`, on the list of groups.
  // ---------------------------------------------------------------------

  /** `for info_set in [s for s in info_sets if x in s]: info_sets.remove(info_set)`:
      the groups that do not hold x, in their order. */
  method RemoveHolding(info: seq<seq<nat>>, x: nat) returns (r: seq<seq<nat>>)
    ensures r == Filter(Not(Holds(x)), info)
  {
    var holding := Filter(Holds(x), info);
    r := info;
    var k := 0;
    while k < |holding|
      invariant 0 <= k <= |holding|
      invariant Filter(Not(Holds(x)), r) == Filter(Not(Holds(x)), info)
      invariant multiset(Filter(Holds(x), r)) == multiset(holding[k..])
    {
      RemoveHoldingStep(x, info, r, holding[k..]);
      assert holding[k..][0] == holding[k] && holding[k..][1..] == holding[k + 1..];
      r := RemoveFirst(r, holding[k]);
      k := k + 1;
    }
    RemoveHoldingDone(x, info, r);
  }

  /** Removing the next group that holds x leaves the others alone. */
  lemma RemoveHoldingStep(x: nat, info: seq<seq<nat>>, r: seq<seq<nat>>, rest: seq<seq<nat>>)
    requires rest != []
    requires Filter(Not(Holds(x)), r) == Filter(Not(Holds(x)), info)
    requires multiset(Filter(Holds(x), r)) == multiset(rest)
    ensures rest[0] in r
    ensures Filter(Not(Holds(x)), RemoveFirst(r, rest[0])) == Filter(Not(Holds(x)), info)
    ensures multiset(Filter(Holds(x), RemoveFirst(r, rest[0]))) == multiset(rest[1..])
  {
    var g, p := rest[0], Holds(x);
    HeadIn(Filter(p, r), rest);
    RemoveFirstFilter(p, r, g);
    RemoveFirstFilterCount(p, r, g);
  }

  /** With no group holding x left, the groups are those that never held it. */
  lemma RemoveHoldingDone(x: nat, info: seq<seq<nat>>, r: seq<seq<nat>>)
    requires Filter(Not(Holds(x)), r) == Filter(Not(Holds(x)), info)
    requires multiset(Filter(Holds(x), r)) == multiset{}
    ensures r == Filter(Not(Holds(x)), info)
  {
    forall g | g in r ensures Not(Holds(x))(g) {
      assert g in Filter(Holds(x), r) <==> g in multiset(Filter(Holds(x), r));
    }
    FilterAllTrue(Not(Holds(x)), r);
  }

  lemma AvoidsSnoc(pre: seq<nat>, x: nat)
    ensures forall g :: Avoids(pre + [x])(g) == (Avoids(pre)(g) && Not(Holds(x))(g))
  {
    forall g ensures Avoids(pre + [x])(g) == (Avoids(pre)(g) && Not(Holds(x))(g)) {
      assert Disjoint(pre + [x], g) <==> Disjoint(pre, g) && x !in g;
    }
  }

  /** Dropping the groups that hold x from those avoiding `pre` leaves the
      groups avoiding `pre + [x]`. */
  lemma KeptSnoc(info: seq<seq<nat>>, pre: seq<nat>, x: nat)
    ensures Filter(Not(Holds(x)), Kept(info, pre)) == Kept(info, pre + [x])
  {
    AvoidsSnoc(pre, x);
    FilterFilter(Avoids(pre), Not(Holds(x)), Avoids(pre + [x]), info);
  }

  lemma KeptNothing(info: seq<seq<nat>>)
    ensures Kept(info, []) == info
  {
    FilterAllTrue(Avoids([]), info);
  }

  /** The outer loop `for node_to_be_set in node_list`: the groups that hold
      none of the listed nodes. */
  method RemoveTouching(info: seq<seq<nat>>, nodeList: seq<nat>) returns (r: seq<seq<nat>>)
    ensures r == Kept(info, nodeList)
  {
    KeptNothing(info);
    r := info;
    var i := 0;
    assert nodeList[..0] == [];
    while i < |nodeList|
      invariant 0 <= i <= |nodeList|
      invariant r == Kept(info, nodeList[..i])
    {
      var x := nodeList[i];
      assert nodeList[..i + 1] == nodeList[..i] + [x];
      KeptSnoc(info, nodeList[..i], x);
      r := RemoveHolding(r, x);
      i := i + 1;
    }
    assert nodeList[..|nodeList|] == nodeList;
  }

  /** `for node in nodes: if not any(node in s for s in info_sets): info_sets.append([node])` */
  method AddLoose(info: seq<seq<nat>>, nodes: seq<nat>) returns (r: seq<seq<nat>>)
    requires Distinct(nodes)
    ensures r == info + Singletons(Loose(info, nodes))
  {
    r := info;
    var j := 0;
    while j < |nodes|
      invariant 0 <= j <= |nodes|
      invariant r == info + Singletons(Loose(info, nodes[..j]))
    {
      var n := nodes[j];
      assert nodes[..j + 1] == nodes[..j] + [n];
      assert n !in nodes[..j] by {
        forall m | 0 <= m < j ensures nodes[m] != n { }
      }
      LooseSnoc(info, nodes[..j], n);
      if !Covered(r, n) {
        r := r + [[n]];
      }
      j := j + 1;
    }
    assert nodes[..|nodes|] == nodes;
  }

  /** One more node: it gets a singleton exactly when no group holds it. */
  lemma LooseSnoc(info: seq<seq<nat>>, pre: seq<nat>, n: nat)
    requires n !in pre
    ensures var r := info + Singletons(Loose(info, pre));
      (if Covered(r, n) then r else r + [[n]]) == info + Singletons(Loose(info, pre + [n]))
  {
    CoveredPlusSingletons(info, Loose(info, pre), n);
    FilterSnoc(Uncovered(info), pre, n);
    SingletonsAppend(Loose(info, pre), [n]);
    assert Singletons([n]) == [[n]];
  }

  /** `for node_to_be_readded in node_list: info_sets.append([node_to_be_readded])` */
  method AddSingletons(info: seq<seq<nat>>, g: seq<nat>) returns (r: seq<seq<nat>>)
    ensures r == info + Singletons(g)
  {
    r := info;
    var k := 0;
    while k < |g|
      invariant 0 <= k <= |g|
      invariant r == info + Singletons(g[..k])
    {
      assert g[..k + 1] == g[..k] + [g[k]];
      SingletonsAppend(g[..k], [g[k]]);
      r := r + [[g[k]]];
      k := k + 1;
    }
    assert g[..|g|] == g;
  }

  /** The inner loop over `info_set_2` for one group a. */
  method GraphRow(ns: seq<NodeRec>, info: seq<seq<nat>>, d0: map<seq<nat>, seq<seq<nat>>>, a: seq<nat>)
    returns (d: map<seq<nat>, seq<seq<nat>>>)
    ensures d == if Successors(ns, info, a) == [] then d0 else d0[a := Successors(ns, info, a)]
  {
    d := d0;
    ghost var linked := LinkedFrom(ns, a);
    var row: seq<seq<nat>> := [];
    var j := 0;
    while j < |info|
      invariant 0 <= j <= |info|
      invariant RowSoFar(linked, info[..j], a, d0, row, d)
    {
      var b := info[j];
      assert info[..j + 1] == info[..j] + [b];
      var keep := LinkedFrom(ns, a)(b);
      RowStep(linked, info[..j], b, a, d0, row, d);
      if keep {
        row := row + [b];
        d := d0[a := row];
      }
      j := j + 1;
    }
    assert info[..|info|] == info;
  }

  /** After the groups `pre`, `row` lists those a leads to, and the
      dictionary holds that row under a once it is non-empty. */
  ghost predicate RowSoFar(linked: seq<nat> -> bool, pre: seq<seq<nat>>, a: seq<nat>,
                           d0: map<seq<nat>, seq<seq<nat>>>, row: seq<seq<nat>>, d: map<seq<nat>, seq<seq<nat>>>)
  {
    row == Filter(linked, pre) && d == if row == [] then d0 else d0[a := row]
  }

  lemma RowStep(linked: seq<nat> -> bool, pre: seq<seq<nat>>, b: seq<nat>, a: seq<nat>,
                d0: map<seq<nat>, seq<seq<nat>>>, row: seq<seq<nat>>, d: map<seq<nat>, seq<seq<nat>>>)
    requires RowSoFar(linked, pre, a, d0, row, d)
    ensures linked(b) ==> RowSoFar(linked, pre + [b], a, d0, row + [b], d0[a := row + [b]])
    ensures !linked(b) ==> RowSoFar(linked, pre + [b], a, d0, row, d)
  {
    FilterSnoc(linked, pre, b);
  }

  /** `_grow_info_set_graph_dictionary()`: each group with a child in another
      group is mapped to the list of those groups, in order. */
  method InfoSetGraphDictionary(ns: seq<NodeRec>, info: seq<seq<nat>>) returns (d: map<seq<nat>, seq<seq<nat>>>)
    ensures forall a :: a in d <==> a in info && Successors(ns, info, a) != []
    ensures forall a :: a in d ==> d[a] == Successors(ns, info, a)
  {
    d := map[];
    var i := 0;
    while i < |info|
      invariant 0 <= i <= |info|
      invariant forall a :: a in d <==> a in info[..i] && Successors(ns, info, a) != []
      invariant forall a :: a in d ==> d[a] == Successors(ns, info, a)
    {
      d := GraphRow(ns, info, d, info[i]);
      assert info[..i + 1] == info[..i] + [info[i]];
      i := i + 1;
    }
    assert info[..|info|] == info;
  }

  /** The groups `set_info_set` leaves: the untouched groups, the sorted
      list, a singleton for each node left without a group, sorted by first
      name. */
  method SetGroups(ns: seq<NodeRec>, info0: seq<seq<nat>>, nodes: seq<nat>, nodeList: seq<nat>)
    returns (info: seq<seq<nat>>)
    requires Distinct(nodes)
    ensures info == SetInfoSetSpec(ns, info0, nodes, nodeList)
  {
    info := RemoveTouching(info0, nodeList);
    info := info + [NewGroup(ns, nodeList)];
    info := AddLoose(info, nodes);
    info := SortBy(info, FirstNameLe(ns));
  }

  /** The new groups keep the game's groups in range and covering, and keep
      a partition a partition when the list is distinct and within the game. */
  lemma SetInfoSetPreserves(ns: seq<NodeRec>, info0: seq<seq<nat>>, nodes: seq<nat>, nodeList: seq<nat>)
    requires GroupsWithin(info0, |ns|) && Within(nodes, |ns|) && Within(nodeList, |ns|) && nodeList != []
    requires Distinct(nodes)
    ensures GroupsWithin(SetInfoSetSpec(ns, info0, nodes, nodeList), |ns|)
    ensures forall n :: n in nodes ==> Covered(SetInfoSetSpec(ns, info0, nodes, nodeList), n)
    ensures (Partition(info0, nodes) && Distinct(nodeList) && (forall x :: x in nodeList ==> x in nodes)) ==>
      Partition(SetInfoSetSpec(ns, info0, nodes, nodeList), nodes)
  {
    SetInfoSetWithin(ns, info0, nodes, nodeList);
    SetInfoSetCovers(ns, info0, nodes, nodeList);
    if Partition(info0, nodes) && Distinct(nodeList) && (forall x :: x in nodeList ==> x in nodes) {
      SetInfoSetPartition(ns, info0, nodes, nodeList);
    }
  }

  /** The groups `remove_info_set` leaves: the group removed, a singleton for
      each of its members added, sorted by first name. */
  method RemoveGroup(ns: seq<NodeRec>, info0: seq<seq<nat>>, g: seq<nat>) returns (info: seq<seq<nat>>)
    requires g in info0
    ensures info == RemoveInfoSetSpec(ns, info0, g)
  {
    info := AddSingletons(RemoveFirst(info0, g), g);
    info := SortBy(info, FirstNameLe(ns));
  }

  /** Removing a group keeps the groups in range and covering, and keeps a
      partition a partition. */
  lemma RemoveInfoSetPreserves(ns: seq<NodeRec>, info0: seq<seq<nat>>, nodes: seq<nat>, g: seq<nat>)
    requires g in info0 && GroupsWithin(info0, |ns|)
    ensures GroupsWithin(RemoveInfoSetSpec(ns, info0, g), |ns|)
    ensures forall n :: Covered(info0, n) ==> Covered(RemoveInfoSetSpec(ns, info0, g), n)
    ensures Partition(info0, nodes) ==> Partition(RemoveInfoSetSpec(ns, info0, g), nodes)
  {
    RemoveInfoSetWithin(ns, info0, g);
    RemoveInfoSetCovers(ns, info0, g);
    if Partition(info0, nodes) {
      RemoveInfoSetPartition(ns, info0, nodes, g);
    }
  }

  class Game {
    const arena: Arena
    const root: nat
    var nodes: seq<nat>
    var players: seq<PlayerField>
    var leafs: seq<nat>
    var infoSets: seq<seq<nat>>
    var treeDictionary: map<nat, seq<Entity>>

    /** The arena is well formed, the node list has no repeats, every group
        is non-empty, and every node of the game is in some group. */
    ghost predicate Valid()
      reads this, arena
    {
      && arena.Valid()
      && root < |arena.nodes|
      && Distinct(nodes)
      && Within(nodes, |arena.nodes|)
      && GroupsWithin(infoSets, |arena.nodes|)
      && (forall n :: n in nodes ==> Covered(infoSets, n))
    }

    constructor (arena: Arena, root: nat, nodes: seq<nat>, players: seq<PlayerField>, leafs: seq<nat>,
                 infoSets: seq<seq<nat>>, treeDictionary: map<nat, seq<Entity>>)
      ensures this.arena == arena && this.root == root && this.nodes == nodes && this.players == players
      ensures this.leafs == leafs && this.infoSets == infoSets && this.treeDictionary == treeDictionary
    {
      this.arena := arena;
      this.root := root;
      this.nodes := nodes;
      this.players := players;
      this.leafs := leafs;
      this.infoSets := infoSets;
      this.treeDictionary := treeDictionary;
    }

    /** `set_info_set(node_list)`: on passing the checks, the listed nodes
        become one group and every node left without a group gets a group of
        its own; the groups stay a partition when the list is a list of
        distinct nodes of the game. */
    method SetInfoSet(nodeList: seq<nat>) returns (r: Outcome<InfoSetError>)
      requires Valid() && Within(nodeList, |arena.nodes|)
      modifies this
      ensures Valid()
      ensures nodes == old(nodes) && players == old(players) && leafs == old(leafs)
      ensures treeDictionary == old(treeDictionary)
      ensures r == SetInfoSetCheck(arena.nodes, nodeList)
      ensures r.Fail? ==> infoSets == old(infoSets)
      ensures r.Pass? ==> infoSets == SetInfoSetSpec(arena.nodes, old(infoSets), nodes, nodeList)
      ensures (r.Pass? && old(Partition(infoSets, nodes)) && Distinct(nodeList) &&
               (forall x :: x in nodeList ==> x in nodes)) ==> Partition(infoSets, nodes)
    {
      r := SetInfoSetCheck(arena.nodes, nodeList);
      if r.Fail? {
        return;
      }
      SetInfoSetCheckMeaning(arena.nodes, nodeList);
      ghost var info0 := infoSets;
      infoSets := SetGroups(arena.nodes, infoSets, nodes, nodeList);
      SetInfoSetPreserves(arena.nodes, info0, nodes, nodeList);
    }

    /** `remove_info_set(node_list)`: a group that exists is replaced by a
        group of its own for each of its members; anything else is an error
        and changes nothing. */
    method RemoveInfoSet(g: seq<nat>) returns (r: Outcome<InfoSetError>)
      requires Valid()
      modifies this
      ensures Valid()
      ensures nodes == old(nodes) && players == old(players) && leafs == old(leafs)
      ensures treeDictionary == old(treeDictionary)
      ensures r.Pass? <==> g in old(infoSets)
      ensures r.Fail? ==> r.error == NotAGroup && infoSets == old(infoSets)
      ensures r.Pass? ==> infoSets == RemoveInfoSetSpec(arena.nodes, old(infoSets), g)
      ensures (r.Pass? && old(Partition(infoSets, nodes))) ==> Partition(infoSets, nodes)
    {
      if g !in infoSets {
        return Fail(NotAGroup);
      }
      ghost var info0 := infoSets;
      infoSets := RemoveGroup(arena.nodes, infoSets, g);
      RemoveInfoSetPreserves(arena.nodes, info0, nodes, g);
      r := Pass;
    }

    /** `perfect_info()`, as written: compares the groups with the name-sorted
        singletons of the nodes. A true answer means perfect information;
        on a name-sorted partition with no two names equal the answer is
        exact. */
    function PerfectInformation(): (b: bool)
      reads this, arena
      ensures b ==> EfgInfoSets.PerfectInfo(infoSets)
      ensures (Partition(infoSets, nodes) && Distinct(nodes) && SortedBy(infoSets, FirstNameLe(arena.nodes)) &&
               NamesDistinct(arena.nodes, nodes)) ==> (b <==> EfgInfoSets.PerfectInfo(infoSets))
    {
      PerfectInfoAsWrittenMeaning(arena.nodes, infoSets, nodes);
      infoSets == SortBy(Singletons(nodes), FirstNameLe(arena.nodes))
    }

    /** `_grow_info_set_graph_dictionary()` on the game's groups; iterating
        `nd.children` needs every grouped node to have a children list. */
    method InfoSetGraph() returns (d: map<seq<nat>, seq<seq<nat>>>)
      requires Valid()
      requires forall g, n :: g in infoSets && n in g ==> arena.nodes[n].children.Kids?
      ensures forall a :: a in d <==> a in infoSets && Successors(arena.nodes, infoSets, a) != []
      ensures forall a :: a in d ==> d[a] == Successors(arena.nodes, infoSets, a)
    {
      d := InfoSetGraphDictionary(arena.nodes, infoSets);
    }
  }

  /** The tree's node list holds the nodes reached from the root, as `order` does. */
  lemma TreeNodesOrder(ns: seq<NodeRec>, root: nat, t: TreeDict, order: seq<nat>)
    requires root < |ns| && Grown(ns, root, t)
    requires forall n: nat :: n in order <==> Reaches(ns, root, n)
    ensures forall n :: n in t.nodes <==> n in order
    ensures Within(order, |ns|)
    ensures forall n: nat :: n in t.d <==> Reaches(ns, root, n)
  {
    assert Reaches(ns, root, root);
    forall n | n in order ensures n < |ns| {
      ReachesBounded(ns, root, n);
    }
  }

  /** The naming pass and the sorts at the end of `__init__`, once the tree
      has been grown. */
  method BuildGame(arena: Arena, root: nat, order: seq<nat>, tree: TreeDict) returns (g: Game)
    requires arena.Valid() && root < |arena.nodes| && Distinct(order) && Within(order, |arena.nodes|)
    requires Distinct(tree.nodes) && forall n :: n in tree.nodes <==> n in order
    modifies arena
    ensures fresh(g) && g.arena == arena && g.root == root && g.Valid() && g.treeDictionary == tree.d
    ensures arena.players == old(arena.players)
    ensures SameButNodeNames(old(arena.nodes), arena.nodes) && SameButLeafNames(old(arena.leaves), arena.leaves)
    ensures var v := VisitAll(old(arena.nodes), root, Start(old(arena.nodes), old(arena.leaves)), order);
      && NodeNames(arena.nodes) == v.nodeNames && LeafNames(arena.leaves) == v.leafNames
      && g.players == SortBy(v.players, PlayerNameLe(arena.players))
      && g.leafs == SortBy(v.leafs, LeafNameLe(arena.leaves))
    ensures g.nodes == SortBy(order, NodeNameLe(arena.nodes))
    ensures Partition(g.infoSets, g.nodes) && EfgInfoSets.PerfectInfo(g.infoSets)
    ensures SortedBy(g.infoSets, FirstNameLe(arena.nodes))
    ensures NamesDistinct(arena.nodes, g.nodes) ==> g.PerfectInformation()
  {
    var info := Singletons(tree.nodes);
    var found, leafs := NameEntities(arena, root, order);
    var ns := arena.nodes;
    var players := SortBy(found, PlayerNameLe(arena.players));
    var nodes := SortBy(order, NodeNameLe(ns));
    var sortedLeafs := SortBy(leafs, LeafNameLe(arena.leaves));
    info := SortBy(info, FirstNameLe(ns));
    SortPerm(order, NodeNameLe(ns));
    SortedMembers(order, NodeNameLe(ns));
    DistinctPerm(order, nodes);
    InitialInfoSets(ns, tree.nodes, nodes);
    g := new Game(arena, root, nodes, players, sortedLeafs, info, tree.d);
    forall h | h in info ensures h != [] && Within(h, |ns|) {
      forall m | m in h ensures m < |ns| {
        assert Covered(info, m);
      }
    }
  }

  /** `ExtensiveFormGame(root)`. `order` is the order in which the naming
      pass visits the nodes (`nodes.sort(key=attrgetter('parent', 'actions'))`
      sorts by object address); it lists each node reached from the root once. */
  method NewGame(arena: Arena, root: nat, order: seq<nat>) returns (r: Result<Game, GameError>)
    requires arena.Valid() && root < |arena.nodes| && !arena.nodes[root].player.NonPlayer?
    requires Distinct(order) && forall n: nat :: n in order <==> Reaches(arena.nodes, root, n)
    modifies arena
    ensures RootError(old(arena.nodes[root])).Some? ==> r == Failure(RootError(old(arena.nodes[root])).value)
    ensures RootError(old(arena.nodes[root])).None? ==>
      (r.Success? <==> AllReachedOk(old(arena.nodes), root) && OneParent(old(arena.nodes), root))
    ensures r.Failure? ==> unchanged(arena)
    ensures r.Success? ==>
      var g := r.value;
      var v := VisitAll(old(arena.nodes), root, Start(old(arena.nodes), old(arena.leaves)), order);
      && fresh(g) && g.arena == arena && g.root == root && g.Valid()
      && arena.players == old(arena.players)
      && SameButNodeNames(old(arena.nodes), arena.nodes) && SameButLeafNames(old(arena.leaves), arena.leaves)
      && NodeNames(arena.nodes) == v.nodeNames && LeafNames(arena.leaves) == v.leafNames
      && g.players == SortBy(v.players, PlayerNameLe(arena.players))
      && g.nodes == SortBy(order, NodeNameLe(arena.nodes))
      && g.leafs == SortBy(v.leafs, LeafNameLe(arena.leaves))
      && Partition(g.infoSets, g.nodes) && EfgInfoSets.PerfectInfo(g.infoSets)
      && SortedBy(g.infoSets, FirstNameLe(arena.nodes))
      && (NamesDistinct(arena.nodes, g.nodes) ==> g.PerfectInformation())
      && (forall n: nat :: n in g.treeDictionary <==> Reaches(old(arena.nodes), root, n))
      && (forall n :: n in g.treeDictionary ==> g.treeDictionary[n] == KidsOf(old(arena.nodes)[n]))
  {
    var e := RootError(arena.nodes[root]);
    if e.Some? {
      return Failure(e.value);
    }
    ghost var ns0 := arena.nodes;
    var t := GrowTree(arena.nodes, |arena.leaves|, root);
    if t.Failure? {
      return Failure(TreeError(t.error));
    }
    TreeNodesOrder(ns0, root, t.value, order);
    var g := BuildGame(arena, root, order, t.value);
    r := Success(g);
  }
}
