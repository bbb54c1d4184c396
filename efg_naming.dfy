/** Default names and the player and leaf lists (`_check_node_names_and_find_players`):
    walking the nodes in a given order, every player met is collected once,
    an unnamed root becomes "Tree Root", other unnamed nodes become
    "Node 1", "Node 2", ... and every leaf child is listed, the unnamed ones
    becoming "Leaf 1", "Leaf 2", ...  Names already given are kept. */
module EfgNaming {
  import opened Strings
  import opened Seqs
  import opened Sorting
  import opened EfgEntities
  import opened EfgTree

  const TreeRootLabel: string := "Tree Root"

  function NodeLabel(k: nat): string { "Node " + NatToString(k) }

  function LeafLabel(k: nat): string { "Leaf " + NatToString(k) }

  /** The state of the loop: every node's and leaf's name, the two counters,
      and the player and leaf lists built so far. */
  datatype Naming = Naming(nodeNames: seq<Name>, leafNames: seq<Name>, nodeIndex: nat, leafIndex: nat,
                           players: seq<PlayerField>, leafs: seq<nat>)

  function NodeNames(ns: seq<NodeRec>): (r: seq<Name>)
    ensures |r| == |ns| && forall i :: 0 <= i < |ns| ==> r[i] == ns[i].name
  {
    seq(|ns|, i requires 0 <= i < |ns| => ns[i].name)
  }

  function LeafNames(ls: seq<LeafRec>): (r: seq<Name>)
    ensures |r| == |ls| && forall i :: 0 <= i < |ls| ==> r[i] == ls[i].name
  {
    seq(|ls|, i requires 0 <= i < |ls| => ls[i].name)
  }

  /** `node_index = 1`, `leaf_index = 1`, with empty player and leaf lists. */
  function Start(ns: seq<NodeRec>, ls: seq<LeafRec>): Naming
  {
    Naming(NodeNames(ns), LeafNames(ls), 1, 1, [], [])
  }

  // ---------------------------------------------------------------------
  // The loop, step by step.
  // ---------------------------------------------------------------------

  /** One pass of `for child in node.children`. */
  function VisitChild(st: Naming, e: Entity): Naming
    requires e.LeafRef? ==> e.l < |st.leafNames|
  {
    match e
    case NodeRef(_) => st
    case LeafRef(l) =>
      if st.leafNames[l] == Unnamed then
        st.(leafNames := st.leafNames[l := Named(LeafLabel(st.leafIndex))], leafIndex := st.leafIndex + 1,
            leafs := st.leafs + [l])
      else
        st.(leafs := st.leafs + [l])
  }

  predicate LeavesWithin(kids: seq<Entity>, nl: nat)
  {
    forall e :: e in kids && e.LeafRef? ==> e.l < nl
  }

  function VisitChildren(st: Naming, kids: seq<Entity>): (r: Naming)
    requires LeavesWithin(kids, |st.leafNames|)
    ensures |r.leafNames| == |st.leafNames|
    ensures r.nodeNames == st.nodeNames && r.nodeIndex == st.nodeIndex && r.players == st.players
    decreases |kids|
  {
    if kids == [] then st
    else VisitChild(VisitChildren(st, kids[..|kids| - 1]), kids[|kids| - 1])
  }

  lemma KidsWithin(ns: seq<NodeRec>, nl: nat, n: nat)
    requires ChildrenEarlier(ns, nl) && n < |ns|
    ensures LeavesWithin(KidsOf(ns[n]), nl)
  {
    forall e | e in KidsOf(ns[n]) && e.LeafRef? ensures e.l < nl {
      var k :| 0 <= k < |KidsOf(ns[n])| && KidsOf(ns[n])[k] == e;
      assert EntityExists(KidsOf(ns[n])[k], n, nl);
    }
  }

  /** The player, root and node-name steps for node n, before its children. */
  function NameNode(root: nat, st: Naming, n: nat, p: PlayerField): (r: Naming)
    requires n < |st.nodeNames|
    ensures |r.nodeNames| == |st.nodeNames| && r.leafNames == st.leafNames && r.leafIndex == st.leafIndex
    ensures r.leafs == st.leafs
  {
    var s1 := if p in st.players then st else st.(players := st.players + [p]);
    var s2 := if n == root && s1.nodeNames[n] == Unnamed then s1.(nodeNames := s1.nodeNames[n := Named(TreeRootLabel)]) else s1;
    if s2.nodeNames[n] == Unnamed then
      s2.(nodeNames := s2.nodeNames[n := Named(NodeLabel(s2.nodeIndex))], nodeIndex := s2.nodeIndex + 1)
    else s2
  }

  /** The body of `for node in self.nodes` for node n. */
  function VisitNode(ns: seq<NodeRec>, root: nat, st: Naming, n: nat): (r: Naming)
    requires n < |ns| && |st.nodeNames| == |ns| && ChildrenEarlier(ns, |st.leafNames|)
    ensures |r.nodeNames| == |ns| && |r.leafNames| == |st.leafNames|
  {
    KidsWithin(ns, |st.leafNames|, n);
    VisitChildren(NameNode(root, st, n, ns[n].player), KidsOf(ns[n]))
  }

  predicate Within(order: seq<nat>, nn: nat)
  {
    forall n :: n in order ==> n < nn
  }

  /** The whole loop over `order`. */
  function VisitAll(ns: seq<NodeRec>, root: nat, st: Naming, order: seq<nat>): (r: Naming)
    requires Within(order, |ns|) && |st.nodeNames| == |ns| && ChildrenEarlier(ns, |st.leafNames|)
    ensures |r.nodeNames| == |ns| && |r.leafNames| == |st.leafNames|
    decreases |order|
  {
    if order == [] then st
    else
      var pre := order[..|order| - 1];
      assert forall n :: n in pre ==> n in order;
      assert order[|order| - 1] in order;
      VisitNode(ns, root, VisitAll(ns, root, st, pre), order[|order| - 1])
  }

  // ---------------------------------------------------------------------
  // What the loop computes, stated directly.
  // ---------------------------------------------------------------------

  /** Whether n is a node that starts unnamed and is not the root. */
  function UnnamedNode(ns: seq<NodeRec>, root: nat): nat -> bool
  {
    (n: nat) => n < |ns| && ns[n].name == Unnamed && n != root
  }

  /** The nodes of `order` that start unnamed, other than the root, in order:
      the k-th of them becomes "Node k". */
  function UnnamedNodes(ns: seq<NodeRec>, root: nat, order: seq<nat>): seq<nat>
  {
    Filter(UnnamedNode(ns, root), order)
  }

  function FinalNodeName(ns: seq<NodeRec>, root: nat, order: seq<nat>, n: nat): Name
    requires n < |ns|
  {
    if ns[n].name.Named? || n !in order then ns[n].name
    else if n == root then Named(TreeRootLabel)
    else Named(NodeLabel(IndexOf(UnnamedNodes(ns, root, order), n) + 1))
  }

  /** The leaf children in `kids`, in order. */
  function LeafIds(kids: seq<Entity>): seq<nat>
    decreases |kids|
  {
    if kids == [] then []
    else LeafIds(kids[..|kids| - 1]) + (if kids[|kids| - 1].LeafRef? then [kids[|kids| - 1].l] else [])
  }

  /** Every visit of a leaf, in the order the loop makes them. */
  function LeafVisits(ns: seq<NodeRec>, order: seq<nat>): seq<nat>
    decreases |order|
  {
    if order == [] then []
    else LeafVisits(ns, order[..|order| - 1]) + LeafIds(KidsAt(ns, order[|order| - 1]))
  }

  /** The leaves that start unnamed, in order of first visit: the k-th of them
      becomes "Leaf k". */
  function UnnamedLeaves(ls: seq<LeafRec>, visits: seq<nat>): seq<nat>
  {
    Dedupe(Filter(UnnamedLeaf(ls), visits))
  }

  function UnnamedLeaf(ls: seq<LeafRec>): nat -> bool
  {
    (l: nat) => l < |ls| && ls[l].name == Unnamed
  }

  function FinalLeafName(ls: seq<LeafRec>, visits: seq<nat>, l: nat): Name
    requires l < |ls|
  {
    if ls[l].name.Named? || l !in visits then ls[l].name
    else Named(LeafLabel(IndexOf(UnnamedLeaves(ls, visits), l) + 1))
  }

  function PlayerAt(ns: seq<NodeRec>, n: nat): PlayerField
  {
    if n < |ns| then ns[n].player else NoPlayer
  }

  /** The player of each node of `order`, repeats included. */
  function PlayersMet(ns: seq<NodeRec>, order: seq<nat>): (r: seq<PlayerField>)
    ensures |r| == |order| && forall i :: 0 <= i < |order| ==> r[i] == PlayerAt(ns, order[i])
    decreases |order|
  {
    if order == [] then [] else PlayersMet(ns, order[..|order| - 1]) + [PlayerAt(ns, order[|order| - 1])]
  }

  // ---------------------------------------------------------------------
  // The loop meets the direct statement.
  // ---------------------------------------------------------------------

  ghost predicate NodesNamed(ns: seq<NodeRec>, root: nat, order: seq<nat>, st: Naming)
  {
    && |st.nodeNames| == |ns|
    && st.nodeIndex == |UnnamedNodes(ns, root, order)| + 1
    && forall n {:trigger st.nodeNames[n]} :: 0 <= n < |ns| ==> st.nodeNames[n] == FinalNodeName(ns, root, order, n)
  }

  ghost predicate LeavesNamed(ls: seq<LeafRec>, visits: seq<nat>, st: Naming)
  {
    && |st.leafNames| == |ls|
    && st.leafs == visits
    && st.leafIndex == |UnnamedLeaves(ls, visits)| + 1
    && forall l {:trigger st.leafNames[l]} :: 0 <= l < |ls| ==> st.leafNames[l] == FinalLeafName(ls, visits, l)
  }

  lemma UnnamedLeafIn(ls: seq<LeafRec>, visits: seq<nat>, x: nat)
    ensures x in UnnamedLeaves(ls, visits) <==> x in visits && x < |ls| && ls[x].name == Unnamed
  {
    assert UnnamedLeaf(ls)(x) == (x < |ls| && ls[x].name == Unnamed);
  }

  lemma UnnamedLeavesSnoc(ls: seq<LeafRec>, visits: seq<nat>, l: nat)
    ensures UnnamedLeaves(ls, visits + [l]) ==
      if l < |ls| && ls[l].name == Unnamed && l !in visits then UnnamedLeaves(ls, visits) + [l]
      else UnnamedLeaves(ls, visits)
  {
    var p := UnnamedLeaf(ls);
    assert p(l) == (l < |ls| && ls[l].name == Unnamed);
    FilterSnoc(p, visits, l);
    DedupeSnoc(Filter(p, visits), l);
    if p(l) {
      assert Filter(p, visits + [l]) == Filter(p, visits) + [l];
      assert l in Dedupe(Filter(p, visits)) <==> l in visits;
    } else {
      assert Filter(p, visits + [l]) == Filter(p, visits);
    }
  }

  lemma VisitChildLeaves(ls: seq<LeafRec>, visits: seq<nat>, st: Naming, e: Entity)
    requires LeavesNamed(ls, visits, st) && (e.LeafRef? ==> e.l < |ls|)
    ensures LeavesNamed(ls, visits + LeafIds([e]), VisitChild(st, e))
  {
    assert LeafIds([e]) == LeafIds([][..0]) + (if e.LeafRef? then [e.l] else []);
    if e.LeafRef? {
      VisitLeafNames(ls, visits, st, e.l);
    }
  }

  lemma VisitLeafNames(ls: seq<LeafRec>, visits: seq<nat>, st: Naming, l: nat)
    requires LeavesNamed(ls, visits, st) && l < |ls|
    ensures LeavesNamed(ls, visits + [l], VisitChild(st, LeafRef(l)))
  {
    var r := VisitChild(st, LeafRef(l));
    forall m | 0 <= m < |ls| && m != l ensures r.leafNames[m] == FinalLeafName(ls, visits + [l], m) {
      VisitOtherLeaf(ls, visits, st, l, m);
    }
    VisitedLeafNamed(ls, visits, st, l);
  }

  /** A visit to l keeps every other leaf's name, which is already final. */
  lemma VisitOtherLeaf(ls: seq<LeafRec>, visits: seq<nat>, st: Naming, l: nat, m: nat)
    requires LeavesNamed(ls, visits, st) && l < |ls| && m < |ls| && m != l
    ensures VisitChild(st, LeafRef(l)).leafNames[m] == FinalLeafName(ls, visits + [l], m)
  {
    assert VisitChild(st, LeafRef(l)).leafNames[m] == st.leafNames[m];
    OtherLeafKept(ls, visits, l, m);
  }

  /** A visit to l does not change the final name of another leaf. */
  lemma OtherLeafKept(ls: seq<LeafRec>, visits: seq<nat>, l: nat, m: nat)
    requires m < |ls| && m != l
    ensures FinalLeafName(ls, visits + [l], m) == FinalLeafName(ls, visits, m)
  {
    UnnamedLeavesSnoc(ls, visits, l);
    UnnamedLeafIn(ls, visits, m);
    var u, u' := UnnamedLeaves(ls, visits), UnnamedLeaves(ls, visits + [l]);
    if ls[m].name.Unnamed? && m in visits {
      assert u + u'[|u|..] == u';
      IndexOfAppend(u, u'[|u|..], m);
    }
  }

  lemma VisitedLeafNamed(ls: seq<LeafRec>, visits: seq<nat>, st: Naming, l: nat)
    requires LeavesNamed(ls, visits, st) && l < |ls|
    ensures VisitChild(st, LeafRef(l)).leafNames[l] == FinalLeafName(ls, visits + [l], l)
    ensures VisitChild(st, LeafRef(l)).leafIndex == |UnnamedLeaves(ls, visits + [l])| + 1
  {
    UnnamedLeavesSnoc(ls, visits, l);
    UnnamedLeafIn(ls, visits, l);
    if ls[l].name.Unnamed? && l !in visits {
      FirstVisitNamed(ls, visits, l);
    } else if ls[l].name.Unnamed? {
      var u := UnnamedLeaves(ls, visits);
      assert l in u;
      IndexOfAppend(u, [], l);
    }
  }

  /** At its first visit an unnamed leaf takes the next default name. */
  lemma FirstVisitNamed(ls: seq<LeafRec>, visits: seq<nat>, l: nat)
    requires l < |ls| && ls[l].name.Unnamed? && l !in visits
    ensures FinalLeafName(ls, visits + [l], l) == Named(LeafLabel(|UnnamedLeaves(ls, visits)| + 1))
  {
    UnnamedLeavesSnoc(ls, visits, l);
    UnnamedLeafIn(ls, visits, l);
    IndexOfSnoc(UnnamedLeaves(ls, visits), l);
  }

  lemma {:induction false} VisitChildrenLeaves(ls: seq<LeafRec>, visits: seq<nat>, st: Naming, kids: seq<Entity>)
    requires LeavesNamed(ls, visits, st) && LeavesWithin(kids, |ls|)
    ensures LeavesNamed(ls, visits + LeafIds(kids), VisitChildren(st, kids))
    decreases |kids|
  {
    if kids != [] {
      var pre, e := kids[..|kids| - 1], kids[|kids| - 1];
      VisitChildrenLeaves(ls, visits, st, pre);
      VisitChildLeaves(ls, visits + LeafIds(pre), VisitChildren(st, pre), e);
      assert LeafIds([e]) == LeafIds([][..0]) + (if e.LeafRef? then [e.l] else []);
      assert visits + LeafIds(kids) == visits + LeafIds(pre) + LeafIds([e]);
    }
  }

  /** Leaf names and the leaf list: every visit of a leaf is listed, and an
      unnamed leaf is named at its first visit. */
  lemma {:induction false} VisitAllLeaves(ns: seq<NodeRec>, ls: seq<LeafRec>, root: nat, order: seq<nat>)
    requires Within(order, |ns|) && ChildrenEarlier(ns, |ls|)
    ensures LeavesNamed(ls, LeafVisits(ns, order), VisitAll(ns, root, Start(ns, ls), order))
    decreases |order|
  {
    if order == [] {
      assert UnnamedLeaves(ls, []) == [];
    } else {
      var pre, n := order[..|order| - 1], order[|order| - 1];
      assert forall x :: x in pre ==> x in order;
      assert n in order;
      VisitAllLeaves(ns, ls, root, pre);
      var st := VisitAll(ns, root, Start(ns, ls), pre);
      KidsWithin(ns, |ls|, n);
      VisitChildrenLeaves(ls, LeafVisits(ns, pre), NameNode(root, st, n, ns[n].player), KidsOf(ns[n]));
    }
  }

  lemma UnnamedNodeIn(ns: seq<NodeRec>, root: nat, order: seq<nat>, x: nat)
    ensures x in UnnamedNodes(ns, root, order) <==> x in order && x < |ns| && ns[x].name == Unnamed && x != root
  {
    assert UnnamedNode(ns, root)(x) == (x < |ns| && ns[x].name == Unnamed && x != root);
  }

  lemma UnnamedNodesSnoc(ns: seq<NodeRec>, root: nat, order: seq<nat>, n: nat)
    ensures UnnamedNodes(ns, root, order + [n]) ==
      if n < |ns| && ns[n].name == Unnamed && n != root then UnnamedNodes(ns, root, order) + [n]
      else UnnamedNodes(ns, root, order)
  {
    FilterSnoc(UnnamedNode(ns, root), order, n);
  }

  lemma NameNodeNames(ns: seq<NodeRec>, root: nat, order: seq<nat>, st: Naming, n: nat)
    requires NodesNamed(ns, root, order, st) && n < |ns| && n !in order
    ensures NodesNamed(ns, root, order + [n], NameNode(root, st, n, ns[n].player))
  {
    var r := NameNode(root, st, n, ns[n].player);
    forall m | 0 <= m < |ns| && m != n ensures r.nodeNames[m] == FinalNodeName(ns, root, order + [n], m) {
      NameNodeOther(ns, root, order, st, n, m);
    }
    NameNodeSelf(ns, root, order, st, n);
  }

  /** Naming node n leaves the final name of every other node as it was. */
  lemma NameNodeOther(ns: seq<NodeRec>, root: nat, order: seq<nat>, st: Naming, n: nat, m: nat)
    requires NodesNamed(ns, root, order, st) && n < |ns| && n !in order && m < |ns| && m != n
    ensures NameNode(root, st, n, ns[n].player).nodeNames[m] == FinalNodeName(ns, root, order + [n], m)
  {
    UnnamedNodesSnoc(ns, root, order, n);
    UnnamedNodeIn(ns, root, order, m);
    var u, u' := UnnamedNodes(ns, root, order), UnnamedNodes(ns, root, order + [n]);
    NameNodeKeeps(root, st, n, ns[n].player, m);
    if ns[m].name.Unnamed? && m in order && m != root {
      assert u + u'[|u|..] == u';
      IndexOfAppend(u, u'[|u|..], m);
    }
  }

  /** Naming node n touches no other node's name. */
  lemma NameNodeKeeps(root: nat, st: Naming, n: nat, p: PlayerField, m: nat)
    requires n < |st.nodeNames| && m < |st.nodeNames| && m != n
    ensures NameNode(root, st, n, p).nodeNames[m] == st.nodeNames[m]
  {
  }

  /** Node n gets its final name, and the counter moves past it when it is
      named by default. */
  lemma NameNodeSelf(ns: seq<NodeRec>, root: nat, order: seq<nat>, st: Naming, n: nat)
    requires NodesNamed(ns, root, order, st) && n < |ns| && n !in order
    ensures NameNode(root, st, n, ns[n].player).nodeNames[n] == FinalNodeName(ns, root, order + [n], n)
    ensures NameNode(root, st, n, ns[n].player).nodeIndex == |UnnamedNodes(ns, root, order + [n])| + 1
  {
    UnnamedNodesSnoc(ns, root, order, n);
    UnnamedNodeIn(ns, root, order, n);
    var u, u' := UnnamedNodes(ns, root, order), UnnamedNodes(ns, root, order + [n]);
    assert st.nodeNames[n] == ns[n].name;
    if ns[n].name.Unnamed? && n != root {
      IndexOfSnoc(u, n);
    }
  }

  /** Node names: the nodes of `order` are named as `FinalNodeName` says. */
  lemma {:induction false} VisitAllNodes(ns: seq<NodeRec>, ls: seq<LeafRec>, root: nat, order: seq<nat>)
    requires Within(order, |ns|) && ChildrenEarlier(ns, |ls|) && Distinct(order)
    ensures NodesNamed(ns, root, order, VisitAll(ns, root, Start(ns, ls), order))
    decreases |order|
  {
    if order == [] {
      assert UnnamedNodes(ns, root, []) == [];
    } else {
      var pre, n := order[..|order| - 1], order[|order| - 1];
      assert forall x :: x in pre ==> x in order;
      assert Distinct(pre) && n !in pre && n in order;
      VisitAllNodes(ns, ls, root, pre);
      assert pre + [n] == order;
      NameNodeNames(ns, root, pre, VisitAll(ns, root, Start(ns, ls), pre), n);
    }
  }

  /** Players: each node's player is collected once, in order of first meeting. */
  lemma VisitAllPlayers(ns: seq<NodeRec>, ls: seq<LeafRec>, root: nat, order: seq<nat>)
    requires Within(order, |ns|) && ChildrenEarlier(ns, |ls|)
    ensures VisitAll(ns, root, Start(ns, ls), order).players == Dedupe(PlayersMet(ns, order))
  {
    PlayersFrom(ns, root, Start(ns, ls), order);
  }

  /** The same, from any starting state with no players yet. */
  lemma {:induction false} PlayersFrom(ns: seq<NodeRec>, root: nat, st0: Naming, order: seq<nat>)
    requires Within(order, |ns|) && |st0.nodeNames| == |ns| && ChildrenEarlier(ns, |st0.leafNames|) && st0.players == []
    ensures VisitAll(ns, root, st0, order).players == Dedupe(PlayersMet(ns, order))
    decreases |order|
  {
    if order != [] {
      var pre, n := order[..|order| - 1], order[|order| - 1];
      assert forall x :: x in pre ==> x in order;
      assert n in order;
      PlayersFrom(ns, root, st0, pre);
      var st := VisitAll(ns, root, st0, pre);
      assert VisitAll(ns, root, st0, order) == VisitNode(ns, root, st, n);
      VisitNodePlayers(ns, root, st, n);
      assert PlayersMet(ns, order) == PlayersMet(ns, pre) + [PlayerAt(ns, n)];
      DedupeSnoc(PlayersMet(ns, pre), PlayerAt(ns, n));
    }
  }

  /** Visiting node n adds its player unless it was already collected. */
  lemma VisitNodePlayers(ns: seq<NodeRec>, root: nat, st: Naming, n: nat)
    requires n < |ns| && |st.nodeNames| == |ns| && ChildrenEarlier(ns, |st.leafNames|)
    ensures VisitNode(ns, root, st, n).players ==
      if PlayerAt(ns, n) in st.players then st.players else st.players + [PlayerAt(ns, n)]
  {
    KidsWithin(ns, |st.leafNames|, n);
    var r := NameNode(root, st, n, ns[n].player);
    assert VisitNode(ns, root, st, n) == VisitChildren(r, KidsOf(ns[n]));
  }

  // ---------------------------------------------------------------------
  // Consequences.
  // ---------------------------------------------------------------------

  /** After the loop every visited node and every visited leaf has a name. */
  lemma AllVisitedNamed(ns: seq<NodeRec>, ls: seq<LeafRec>, root: nat, order: seq<nat>)
    requires Within(order, |ns|) && ChildrenEarlier(ns, |ls|) && Distinct(order)
    ensures var r := VisitAll(ns, root, Start(ns, ls), order);
      && (forall n :: n in order ==> r.nodeNames[n].Named?)
      && (forall l :: l in LeafVisits(ns, order) && l < |ls| ==> r.leafNames[l].Named?)
  {
    VisitAllNodes(ns, ls, root, order);
    VisitAllLeaves(ns, ls, root, order);
  }

  /** Two different nodes that both start unnamed end with different names. */
  lemma DefaultNodeNamesDistinct(ns: seq<NodeRec>, root: nat, order: seq<nat>, m: nat, n: nat)
    requires m < |ns| && n < |ns| && m != n && m in order && n in order
    requires ns[m].name == Unnamed && ns[n].name == Unnamed
    ensures FinalNodeName(ns, root, order, m) != FinalNodeName(ns, root, order, n)
  {
    var u := UnnamedNodes(ns, root, order);
    UnnamedNodeIn(ns, root, order, m);
    UnnamedNodeIn(ns, root, order, n);
    if m != root && n != root {
      assert m in u && n in u;
      if IndexOf(u, m) == IndexOf(u, n) {
        IndexOfInjective(u, m, n);
      }
      DefaultLabelsDistinct("Node ", IndexOf(u, m) + 1, IndexOf(u, n) + 1);
    } else if m == root {
      assert n in u;
      assert NodeLabel(IndexOf(u, n) + 1)[0] == 'N';
    } else {
      assert m in u;
      assert NodeLabel(IndexOf(u, m) + 1)[0] == 'N';
    }
  }

  /** Two different leaves that both start unnamed and are visited end with
      different names. */
  lemma DefaultLeafNamesDistinct(ls: seq<LeafRec>, visits: seq<nat>, k: nat, l: nat)
    requires k < |ls| && l < |ls| && k != l && k in visits && l in visits
    requires ls[k].name == Unnamed && ls[l].name == Unnamed
    ensures FinalLeafName(ls, visits, k) != FinalLeafName(ls, visits, l)
  {
    var u := UnnamedLeaves(ls, visits);
    UnnamedLeafIn(ls, visits, k);
    UnnamedLeafIn(ls, visits, l);
    if IndexOf(u, k) == IndexOf(u, l) {
      IndexOfInjective(u, k, l);
    }
    DefaultLabelsDistinct("Leaf ", IndexOf(u, k) + 1, IndexOf(u, l) + 1);
  }

  // ---------------------------------------------------------------------
  // The loop itself, on the arena.
  // ---------------------------------------------------------------------

  /** The nodes are those of `ns0` with only their names changed. */
  ghost predicate SameButNodeNames(ns0: seq<NodeRec>, ns: seq<NodeRec>)
  {
    |ns| == |ns0| && forall i :: 0 <= i < |ns| ==> ns[i] == ns0[i].(name := ns[i].name)
  }

  ghost predicate SameButLeafNames(ls0: seq<LeafRec>, ls: seq<LeafRec>)
  {
    |ls| == |ls0| && forall i :: 0 <= i < |ls| ==> ls[i] == ls0[i].(name := ls[i].name)
  }

  lemma RenameKeepsArenaOk(ps: seq<PlayerRec>, ns0: seq<NodeRec>, ls0: seq<LeafRec>, ns: seq<NodeRec>, ls: seq<LeafRec>)
    requires ArenaOk(ps, ns0, ls0) && SameButNodeNames(ns0, ns) && SameButLeafNames(ls0, ls)
    ensures ArenaOk(ps, ns, ls)
  {
    assert forall i :: 0 <= i < |ns| ==> KidsOf(ns[i]) == KidsOf(ns0[i]);
    assert ChildrenEarlier(ns, |ls|);
    forall i, k | 0 <= i < |ns| && 0 <= k < |KidsOf(ns[i])|
      ensures var p := ParentOf(ns, ls, KidsOf(ns[i])[k]); p.Some? && i <= p.value
    {
      assert KidsOf(ns[i])[k] == KidsOf(ns0[i])[k];
    }
  }

  /** `_check_node_names_and_find_players`, walking the nodes in `order`:
      returns the players met and the leaves listed, and renames as the
      direct statement says. */
  method NameEntities(arena: Arena, root: nat, order: seq<nat>) returns (found: seq<PlayerField>, leafs: seq<nat>)
    requires arena.Valid() && Within(order, |arena.nodes|)
    modifies arena
    ensures arena.Valid() && arena.players == old(arena.players)
    ensures SameButNodeNames(old(arena.nodes), arena.nodes) && SameButLeafNames(old(arena.leaves), arena.leaves)
    ensures var r := VisitAll(old(arena.nodes), root, Start(old(arena.nodes), old(arena.leaves)), order);
      && NodeNames(arena.nodes) == r.nodeNames && LeafNames(arena.leaves) == r.leafNames
      && found == r.players && leafs == r.leafs
  {
    ghost var ns0, ls0 := arena.nodes, arena.leaves;
    assert ChildrenEarlier(ns0, |ls0|);
    var nodeIndex, leafIndex := 1, 1;
    found, leafs := [], [];
    var i := 0;
    while i < |order|
      invariant 0 <= i <= |order|
      invariant arena.players == old(arena.players)
      invariant SameButNodeNames(ns0, arena.nodes) && SameButLeafNames(ls0, arena.leaves)
      invariant Within(order, |ns0|) && Within(order[..i], |ns0|)
      invariant Naming(NodeNames(arena.nodes), LeafNames(arena.leaves), nodeIndex, leafIndex, found, leafs)
                == VisitAll(ns0, root, Start(ns0, ls0), order[..i])
    {
      var n := order[i];
      assert order[..i + 1][..i] == order[..i] && order[..i + 1][i] == n;
      assert n in order;
      assert Within(order[..i + 1], |ns0|) by {
        var pre := order[..i + 1];
        forall x | x in pre ensures x < |ns0| {
          var j :| 0 <= j < i + 1 && pre[j] == x;
          assert order[j] in order;
        }
      }
      ghost var st := Naming(NodeNames(arena.nodes), LeafNames(arena.leaves), nodeIndex, leafIndex, found, leafs);
      nodeIndex, found := NameNodeStep(arena, root, n, nodeIndex, found, st);
      ghost var st1 := NameNode(root, st, n, ns0[n].player);
      var kids := KidsOf(arena.nodes[n]);
      assert kids == KidsOf(ns0[n]);
      KidsWithin(ns0, |ls0|, n);
      leafIndex, leafs := NameLeafChildren(arena, kids, leafIndex, leafs, st1);
      i := i + 1;
    }
    assert order[..i] == order;
    RenameKeepsArenaOk(arena.players, ns0, ls0, arena.nodes, arena.leaves);
  }

  /** The player, root and node-name steps of the walk for node n. */
  method NameNodeStep(arena: Arena, root: nat, n: nat, nodeIndex: nat, found: seq<PlayerField>, ghost st: Naming)
    returns (nodeIndex': nat, found': seq<PlayerField>)
    requires n < |arena.nodes|
    requires st == Naming(NodeNames(arena.nodes), LeafNames(arena.leaves), nodeIndex, st.leafIndex, found, st.leafs)
    modifies arena
    ensures arena.players == old(arena.players) && arena.leaves == old(arena.leaves)
    ensures SameButNodeNames(old(arena.nodes), arena.nodes)
    ensures var r := NameNode(root, st, n, arena.nodes[n].player);
      NodeNames(arena.nodes) == r.nodeNames && nodeIndex' == r.nodeIndex && found' == r.players
  {
    nodeIndex', found' := nodeIndex, found;
    var node := arena.nodes[n];
    if node.player !in found' {
      found' := found' + [node.player];
    }
    if n == root && node.name == Unnamed {
      arena.nodes := arena.nodes[n := node.(name := Named(TreeRootLabel))];
    }
    if arena.nodes[n].name == Unnamed {
      arena.nodes := arena.nodes[n := node.(name := Named(NodeLabel(nodeIndex')))];
      nodeIndex' := nodeIndex' + 1;
    }
  }

  /** The inner loop `for child in node.children`: lists every leaf child,
      naming the unnamed ones. */
  method NameLeafChildren(arena: Arena, kids: seq<Entity>, leafIndex: nat, leafs: seq<nat>, ghost st: Naming)
    returns (leafIndex': nat, leafs': seq<nat>)
    requires LeavesWithin(kids, |arena.leaves|)
    requires st.leafNames == LeafNames(arena.leaves) && st.leafIndex == leafIndex && st.leafs == leafs
    modifies arena
    ensures arena.players == old(arena.players) && arena.nodes == old(arena.nodes)
    ensures SameButLeafNames(old(arena.leaves), arena.leaves)
    ensures var r := VisitChildren(st, kids);
      LeafNames(arena.leaves) == r.leafNames && leafIndex' == r.leafIndex && leafs' == r.leafs
  {
    leafIndex', leafs' := leafIndex, leafs;
    var k := 0;
    while k < |kids|
      invariant 0 <= k <= |kids|
      invariant arena.players == old(arena.players) && arena.nodes == old(arena.nodes)
      invariant SameButLeafNames(old(arena.leaves), arena.leaves)
      invariant var r := VisitChildren(st, kids[..k]);
        LeafNames(arena.leaves) == r.leafNames && leafIndex' == r.leafIndex && leafs' == r.leafs
    {
      assert kids[..k + 1][..k] == kids[..k] && kids[..k + 1][k] == kids[k];
      assert kids[k] in kids;
      match kids[k] {
        case NodeRef(_) =>
        case LeafRef(l) =>
          var leaf := arena.leaves[l];
          if leaf.name == Unnamed {
            arena.leaves := arena.leaves[l := leaf.(name := Named(LeafLabel(leafIndex')))];
            leafIndex' := leafIndex' + 1;
          }
          leafs' := leafs' + [l];
      }
      k := k + 1;
    }
    assert kids[..k] == kids;
  }
}
