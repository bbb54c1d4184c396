/** Information sets of an extensive-form game, stated on values: a list of
    groups of node indices (`info_sets`), what `set_info_set` and
    `remove_info_set` turn it into, `perfect_info`, and the edges of the
    information-set graph (`_grow_info_set_graph_dictionary`). */
module EfgInfoSets {
  import opened Wrappers
  import opened Strings
  import opened Seqs
  import opened Sorting
  import opened EfgEntities
  import opened EfgTree
  import opened EfgNaming

  datatype InfoSetError =
    | DifferentPlayers    // AttributeError: the nodes do not share exactly one player
    | ActionsNotIterable  // TypeError: `sorted(node.actions)` on a node whose actions are False
    | DifferentActions    // AttributeError: the nodes do not share one sorted action tuple
    | NotAGroup           // ValueError: `info_sets.remove` of a list that is not a group

  // ---------------------------------------------------------------------
  // Groups and their order.
  // ---------------------------------------------------------------------

  /** The name of a group's first member, the key of `sort(key=lambda x: x[0].name)`. */
  function FirstName(ns: seq<NodeRec>, g: seq<nat>): Name
  {
    if g == [] then Unnamed else NameOf(ns, g[0])
  }

  function FirstNameLe(ns: seq<NodeRec>): (seq<nat>, seq<nat>) -> bool
  {
    (a: seq<nat>, b: seq<nat>) => NameLe(FirstName(ns, a), FirstName(ns, b))
  }

  lemma FirstNameLeTotalPreorder(ns: seq<NodeRec>)
    ensures TotalPreorder(FirstNameLe(ns))
  {
    NameLeTotalPreorder();
    var le := FirstNameLe(ns);
    forall a, b ensures le(a, b) || le(b, a) {
      assert NameLe(FirstName(ns, a), FirstName(ns, b)) || NameLe(FirstName(ns, b), FirstName(ns, a));
    }
    forall a, b, c | le(a, b) && le(b, c) ensures le(a, c) {
      assert NameLe(FirstName(ns, a), FirstName(ns, c));
    }
  }

  /** `any(n in g for g in info)` */
  predicate Covered(info: seq<seq<nat>>, n: nat)
  {
    exists g :: g in info && n in g
  }

  /** The groups split `nodes` exactly: no group twice, no empty group, no
      node twice in a group, no node in two groups, and the nodes in groups
      are the nodes of the game. */
  ghost predicate Partition(info: seq<seq<nat>>, nodes: seq<nat>)
  {
    && Distinct(info)
    && (forall g :: g in info ==> g != [] && Distinct(g))
    && (forall g, h, n :: g in info && h in info && n in g && n in h ==> g == h)
    && (forall n :: Covered(info, n) <==> n in nodes)
  }

  /** Every group is non-empty and names nodes of the arena. */
  predicate GroupsWithin(info: seq<seq<nat>>, nn: nat)
  {
    forall g :: g in info ==> g != [] && Within(g, nn)
  }

  lemma SortedMembers<T>(s: seq<T>, le: (T, T) -> bool)
    ensures forall x :: x in SortBy(s, le) <==> x in s
  {
    SortPerm(s, le);
    forall x ensures x in SortBy(s, le) <==> x in s {
      assert x in SortBy(s, le) <==> x in multiset(SortBy(s, le));
      assert x in s <==> x in multiset(s);
    }
  }

  // ---------------------------------------------------------------------
  // The checks of `set_info_set`.
  // ---------------------------------------------------------------------

  function ActionsAt(ns: seq<NodeRec>, n: nat): Actions
  {
    if n < |ns| then ns[n].actions else NoActions
  }

  /** `tuple(sorted(node.actions))` */
  function SortedLabels(ns: seq<NodeRec>): nat -> seq<string>
  {
    (n: nat) => if ActionsAt(ns, n).Acts? then SortBy(ActionsAt(ns, n).labels, StrLe) else []
  }

  /** The two checks, in order, before anything is changed. */
  function SetInfoSetCheck(ns: seq<NodeRec>, nodeList: seq<nat>): Outcome<InfoSetError>
  {
    if |Elems(PlayersMet(ns, nodeList))| != 1 then Fail(DifferentPlayers)
    else if exists n :: n in nodeList && ActionsAt(ns, n).NoActions? then Fail(ActionsNotIterable)
    else if |Elems(Map(SortedLabels(ns), nodeList))| != 1 then Fail(DifferentActions)
    else Pass
  }

  ghost predicate SamePlayer(ns: seq<NodeRec>, nodeList: seq<nat>)
  {
    nodeList != [] && forall i :: 0 <= i < |nodeList| ==> PlayerAt(ns, nodeList[i]) == PlayerAt(ns, nodeList[0])
  }

  ghost predicate SameActions(ns: seq<NodeRec>, nodeList: seq<nat>)
  {
    forall i :: 0 <= i < |nodeList| ==>
      ActionsAt(ns, nodeList[i]).Acts? && ActionsAt(ns, nodeList[0]).Acts? &&
      multiset(ActionsAt(ns, nodeList[i]).labels) == multiset(ActionsAt(ns, nodeList[0]).labels)
  }

  lemma StrLeTotalPreorder()
    ensures TotalPreorder(StrLe)
  {
    forall a, b ensures StrLe(a, b) || StrLe(b, a) {
      StrLeTotal(a, b);
    }
    forall a, b, c | StrLe(a, b) && StrLe(b, c) ensures StrLe(a, c) {
      StrLeTrans(a, b, c);
    }
  }

  /** Two action lists sort to the same tuple exactly when they hold the same
      labels the same number of times. */
  lemma SortedLabelsEqual(a: seq<string>, b: seq<string>)
    ensures SortBy(a, StrLe) == SortBy(b, StrLe) <==> multiset(a) == multiset(b)
  {
    SortPerm(a, StrLe);
    SortPerm(b, StrLe);
    if multiset(a) == multiset(b) {
      StrLeTotalPreorder();
      SortSorted(a, StrLe);
      SortSorted(b, StrLe);
      forall x, y | StrLe(x, y) && StrLe(y, x) ensures x == y {
        StrLeAntisym(x, y);
      }
      SortedUnique(SortBy(a, StrLe), SortBy(b, StrLe), StrLe);
    }
  }

  lemma CheckPlayers(ns: seq<NodeRec>, nodeList: seq<nat>)
    ensures |Elems(PlayersMet(ns, nodeList))| == 1 <==> SamePlayer(ns, nodeList)
  {
    ElemsOne(PlayersMet(ns, nodeList));
  }

  lemma CheckActions(ns: seq<NodeRec>, nodeList: seq<nat>)
    requires nodeList != [] && forall n :: n in nodeList ==> ActionsAt(ns, n).Acts?
    ensures |Elems(Map(SortedLabels(ns), nodeList))| == 1 <==> SameActions(ns, nodeList)
  {
    var sl := Map(SortedLabels(ns), nodeList);
    ElemsOne(sl);
    assert nodeList[0] in nodeList;
    forall i | 0 <= i < |nodeList|
      ensures sl[i] == sl[0] <==> multiset(ActionsAt(ns, nodeList[i]).labels) == multiset(ActionsAt(ns, nodeList[0]).labels)
    {
      assert nodeList[i] in nodeList;
      SortedLabelsEqual(ActionsAt(ns, nodeList[i]).labels, ActionsAt(ns, nodeList[0]).labels);
    }
  }

  lemma SameActionsActs(ns: seq<NodeRec>, nodeList: seq<nat>)
    requires SameActions(ns, nodeList)
    ensures forall n :: n in nodeList ==> ActionsAt(ns, n).Acts?
  {
    forall n | n in nodeList ensures ActionsAt(ns, n).Acts? {
      var i :| 0 <= i < |nodeList| && nodeList[i] == n;
    }
  }

  /** The checks pass exactly when the list is non-empty, its nodes share
      one player, each has actions, and their action lists agree up to order;
      the error says which of these fails first. */
  lemma SetInfoSetCheckMeaning(ns: seq<NodeRec>, nodeList: seq<nat>)
    ensures SetInfoSetCheck(ns, nodeList) == Fail(DifferentPlayers) <==> !SamePlayer(ns, nodeList)
    ensures SetInfoSetCheck(ns, nodeList) == Fail(ActionsNotIterable) <==>
      SamePlayer(ns, nodeList) && exists n :: n in nodeList && ActionsAt(ns, n).NoActions?
    ensures SetInfoSetCheck(ns, nodeList) == Fail(DifferentActions) <==>
      SamePlayer(ns, nodeList) && (forall n :: n in nodeList ==> ActionsAt(ns, n).Acts?) && !SameActions(ns, nodeList)
    ensures SetInfoSetCheck(ns, nodeList) == Pass <==> SamePlayer(ns, nodeList) && SameActions(ns, nodeList)
  {
    CheckPlayers(ns, nodeList);
    if SamePlayer(ns, nodeList) && forall n :: n in nodeList ==> ActionsAt(ns, n).Acts? {
      CheckActions(ns, nodeList);
    }
    if SameActions(ns, nodeList) {
      SameActionsActs(ns, nodeList);
    }
  }

  // ---------------------------------------------------------------------
  // What `set_info_set` makes of the groups.
  // ---------------------------------------------------------------------

  /** Whether a group avoids every node of the list. */
  function Avoids(nodeList: seq<nat>): seq<nat> -> bool
  {
    (g: seq<nat>) => Disjoint(nodeList, g)
  }

  /** Whether a group holds node x: `if node_to_be_set in info_set`. */
  function Holds(x: nat): seq<nat> -> bool
  {
    (g: seq<nat>) => x in g
  }

  /** The groups left after removing every group that holds a listed node. */
  function Kept(info: seq<seq<nat>>, nodeList: seq<nat>): seq<seq<nat>>
  {
    Filter(Avoids(nodeList), info)
  }

  /** `sorted(node_list, key=lambda x: x.name)` */
  function NewGroup(ns: seq<NodeRec>, nodeList: seq<nat>): seq<nat>
  {
    SortBy(nodeList, NodeNameLe(ns))
  }

  function Grouped(ns: seq<NodeRec>, info: seq<seq<nat>>, nodeList: seq<nat>): seq<seq<nat>>
  {
    Kept(info, nodeList) + [NewGroup(ns, nodeList)]
  }

  function Uncovered(info: seq<seq<nat>>): nat -> bool
  {
    (n: nat) => !Covered(info, n)
  }

  /** The nodes of `nodes` no group holds, in order. */
  function Loose(info: seq<seq<nat>>, nodes: seq<nat>): seq<nat>
  {
    Filter(Uncovered(info), nodes)
  }

  /** The groups after a successful `set_info_set(node_list)`. */
  function SetInfoSetSpec(ns: seq<NodeRec>, info: seq<seq<nat>>, nodes: seq<nat>, nodeList: seq<nat>): seq<seq<nat>>
  {
    var mid := Grouped(ns, info, nodeList);
    SortBy(mid + Singletons(Loose(mid, nodes)), FirstNameLe(ns))
  }

  /** The groups after are: the old groups that avoid the list, the list
      itself sorted by name, and a singleton for each node of the game that
      no other group holds. */
  lemma SetInfoSetMembers(ns: seq<NodeRec>, info: seq<seq<nat>>, nodes: seq<nat>, nodeList: seq<nat>)
    ensures forall h :: h in SetInfoSetSpec(ns, info, nodes, nodeList) <==>
      || (h in info && Disjoint(nodeList, h))
      || h == NewGroup(ns, nodeList)
      || (|h| == 1 && h[0] in nodes && !Covered(Grouped(ns, info, nodeList), h[0]))
  {
    forall h ensures h in SetInfoSetSpec(ns, info, nodes, nodeList) <==>
      || (h in info && Disjoint(nodeList, h))
      || h == NewGroup(ns, nodeList)
      || (|h| == 1 && h[0] in nodes && !Covered(Grouped(ns, info, nodeList), h[0]))
    {
      SetInfoSetMember(ns, info, nodes, nodeList, h);
    }
  }

  lemma SetInfoSetMember(ns: seq<NodeRec>, info: seq<seq<nat>>, nodes: seq<nat>, nodeList: seq<nat>, h: seq<nat>)
    ensures h in SetInfoSetSpec(ns, info, nodes, nodeList) <==>
      || (h in info && Disjoint(nodeList, h))
      || h == NewGroup(ns, nodeList)
      || (|h| == 1 && h[0] in nodes && !Covered(Grouped(ns, info, nodeList), h[0]))
  {
    var mid := Grouped(ns, info, nodeList);
    var singles := Singletons(Loose(mid, nodes));
    SortedMembers(mid + singles, FirstNameLe(ns));
    InSingletons(Loose(mid, nodes), h);
  }

  lemma SetInfoSetSorted(ns: seq<NodeRec>, info: seq<seq<nat>>, nodes: seq<nat>, nodeList: seq<nat>)
    ensures SortedBy(SetInfoSetSpec(ns, info, nodes, nodeList), FirstNameLe(ns))
  {
    FirstNameLeTotalPreorder(ns);
    var mid := Grouped(ns, info, nodeList);
    SortSorted(mid + Singletons(Loose(mid, nodes)), FirstNameLe(ns));
  }

  /** The listed nodes form one group, sorted by name. */
  lemma SetInfoSetGroup(ns: seq<NodeRec>, info: seq<seq<nat>>, nodes: seq<nat>, nodeList: seq<nat>)
    ensures NewGroup(ns, nodeList) in SetInfoSetSpec(ns, info, nodes, nodeList)
    ensures multiset(NewGroup(ns, nodeList)) == multiset(nodeList)
    ensures SortedBy(NewGroup(ns, nodeList), NodeNameLe(ns))
  {
    SetInfoSetMember(ns, info, nodes, nodeList, NewGroup(ns, nodeList));
    SortPerm(nodeList, NodeNameLe(ns));
    NodeNameLeTotalPreorder(ns);
    SortSorted(nodeList, NodeNameLe(ns));
  }

  lemma SetGroupHolding(ns: seq<NodeRec>, info: seq<seq<nat>>, nodes: seq<nat>, nodeList: seq<nat>, h: seq<nat>, x: nat)
    requires h in SetInfoSetSpec(ns, info, nodes, nodeList) && x in nodeList && x in h
    ensures h == NewGroup(ns, nodeList)
  {
    SetInfoSetMember(ns, info, nodes, nodeList, h);
    var mid := Grouped(ns, info, nodeList);
    var g := NewGroup(ns, nodeList);
    assert !Disjoint(nodeList, h);
    assert |h| == 1 ==> Covered(mid, h[0]) by {
      if |h| == 1 {
        assert h[0] == x;
        SortedMembers(nodeList, NodeNameLe(ns));
        assert g in mid && x in g;
      }
    }
  }

  /** No group but the new one holds a listed node. */
  lemma SetInfoSetGroupOnly(ns: seq<NodeRec>, info: seq<seq<nat>>, nodes: seq<nat>, nodeList: seq<nat>)
    ensures forall h, x :: h in SetInfoSetSpec(ns, info, nodes, nodeList) && x in nodeList && x in h ==>
      h == NewGroup(ns, nodeList)
  {
    forall h, x | h in SetInfoSetSpec(ns, info, nodes, nodeList) && x in nodeList && x in h
      ensures h == NewGroup(ns, nodeList)
    {
      SetGroupHolding(ns, info, nodes, nodeList, h, x);
    }
  }

  /** Every node of the game lies in some group afterwards. */
  lemma SetInfoSetCovers(ns: seq<NodeRec>, info: seq<seq<nat>>, nodes: seq<nat>, nodeList: seq<nat>)
    ensures forall n :: n in nodes ==> Covered(SetInfoSetSpec(ns, info, nodes, nodeList), n)
  {
    SetInfoSetMembers(ns, info, nodes, nodeList);
    var mid := Grouped(ns, info, nodeList);
    var r := SetInfoSetSpec(ns, info, nodes, nodeList);
    forall n | n in nodes ensures Covered(r, n) {
      if Covered(mid, n) {
        var g :| g in mid && n in g;
        assert g in Kept(info, nodeList) || g == NewGroup(ns, nodeList);
        assert g in r;
      } else {
        assert [n][0] == n;
        assert [n] in r;
      }
    }
  }

  /** Groups that hold none of the listed nodes are kept as they are. */
  lemma SetInfoSetKeeps(ns: seq<NodeRec>, info: seq<seq<nat>>, nodes: seq<nat>, nodeList: seq<nat>)
    ensures forall g :: g in info && Disjoint(nodeList, g) ==> g in SetInfoSetSpec(ns, info, nodes, nodeList)
  {
    SetInfoSetMembers(ns, info, nodes, nodeList);
  }

  /** The unlisted members of a group that is broken up become singletons. */
  lemma SetInfoSetSplits(ns: seq<NodeRec>, info: seq<seq<nat>>, nodes: seq<nat>, nodeList: seq<nat>)
    requires Partition(info, nodes)
    ensures forall g, n :: g in info && n in g && !Disjoint(nodeList, g) && n !in nodeList ==>
      [n] in SetInfoSetSpec(ns, info, nodes, nodeList)
  {
    SetInfoSetMembers(ns, info, nodes, nodeList);
    SortedMembers(nodeList, NodeNameLe(ns));
    var mid := Grouped(ns, info, nodeList);
    forall g, n | g in info && n in g && !Disjoint(nodeList, g) && n !in nodeList
      ensures [n] in SetInfoSetSpec(ns, info, nodes, nodeList)
    {
      assert Covered(info, n);
      forall h | h in mid ensures n !in h {
        assert h in Kept(info, nodeList) ==> h in info && Disjoint(nodeList, h);
        assert h in info && n in h ==> h == g;
      }
      assert [n][0] == n;
    }
  }

  /** The group a node lies in after `set_info_set`, when the groups before
      were a partition. */
  ghost function GroupAfterSet(ns: seq<NodeRec>, info: seq<seq<nat>>, nodeList: seq<nat>, n: nat): seq<nat>
  {
    if n in nodeList then NewGroup(ns, nodeList)
    else if exists g :: g in Kept(info, nodeList) && n in g then
      var g :| g in Kept(info, nodeList) && n in g; g
    else [n]
  }

  lemma SetGroupUnique(ns: seq<NodeRec>, info: seq<seq<nat>>, nodes: seq<nat>, nodeList: seq<nat>, g: seq<nat>, n: nat)
    requires Partition(info, nodes)
    requires g in SetInfoSetSpec(ns, info, nodes, nodeList) && n in g
    ensures g == GroupAfterSet(ns, info, nodeList, n)
  {
    SetInfoSetMembers(ns, info, nodes, nodeList);
    SortedMembers(nodeList, NodeNameLe(ns));
    var mid := Grouped(ns, info, nodeList);
    var k := Kept(info, nodeList);
    var ng := NewGroup(ns, nodeList);
    if g in info && Disjoint(nodeList, g) {
      assert g in k;
      var h :| h in k && n in h;
      assert h == g;
    } else if g == ng {
      assert n in nodeList;
    } else {
      assert g == [g[0]] && g[0] == n;
      assert !Covered(mid, n);
      assert ng in mid;
      assert n !in ng;
      forall h | h in k ensures n !in h {
        assert h in mid;
      }
    }
  }

  lemma SetInfoSetDistinct(ns: seq<NodeRec>, info: seq<seq<nat>>, nodes: seq<nat>, nodeList: seq<nat>)
    requires Partition(info, nodes) && Distinct(nodes) && nodeList != []
    ensures Distinct(SetInfoSetSpec(ns, info, nodes, nodeList))
  {
    var mid := Grouped(ns, info, nodeList);
    var k := Kept(info, nodeList);
    var ng := NewGroup(ns, nodeList);
    var singles := Singletons(Loose(mid, nodes));
    SortedMembers(nodeList, NodeNameLe(ns));
    FilterDistinct(Avoids(nodeList), info);
    assert nodeList[0] in nodeList && nodeList[0] in ng;
    forall h | h in k ensures h !in [ng] {
      assert nodeList[0] !in h;
    }
    DistinctAppend(k, [ng]);
    FilterDistinct(Uncovered(mid), nodes);
    SingletonsDistinct(Loose(mid, nodes));
    forall h | h in mid ensures h !in singles {
      InSingletons(Loose(mid, nodes), h);
      assert |h| == 1 ==> h[0] in h && Covered(mid, h[0]);
    }
    DistinctAppend(mid, singles);
    SortPerm(mid + singles, FirstNameLe(ns));
    DistinctPerm(mid + singles, SetInfoSetSpec(ns, info, nodes, nodeList));
  }

  /** `set_info_set` keeps the groups a partition of the game's nodes when the
      list is non-empty, has no repeats and names nodes of the game. */
  lemma SetInfoSetPartition(ns: seq<NodeRec>, info: seq<seq<nat>>, nodes: seq<nat>, nodeList: seq<nat>)
    requires Partition(info, nodes) && Distinct(nodes)
    requires nodeList != [] && Distinct(nodeList) && forall x :: x in nodeList ==> x in nodes
    ensures Partition(SetInfoSetSpec(ns, info, nodes, nodeList), nodes)
  {
    var r := SetInfoSetSpec(ns, info, nodes, nodeList);
    var ng := NewGroup(ns, nodeList);
    SetInfoSetDistinct(ns, info, nodes, nodeList);
    SetInfoSetMembers(ns, info, nodes, nodeList);
    SetInfoSetCovers(ns, info, nodes, nodeList);
    SortPerm(nodeList, NodeNameLe(ns));
    SortedMembers(nodeList, NodeNameLe(ns));
    DistinctPerm(nodeList, ng);
    forall g | g in r ensures g != [] && Distinct(g) {
      assert g == ng ==> |g| == |nodeList|;
    }
    forall g, h, n | g in r && h in r && n in g && n in h ensures g == h {
      SetGroupUnique(ns, info, nodes, nodeList, g, n);
      SetGroupUnique(ns, info, nodes, nodeList, h, n);
    }
    forall n: nat | Covered(r, n) ensures n in nodes {
      var g :| g in r && n in g;
      assert g in info ==> Covered(info, n);
      assert |g| == 1 ==> g == [g[0]];
    }
  }

  /** `set_info_set` keeps every group non-empty and within the arena. */
  lemma SetInfoSetWithin(ns: seq<NodeRec>, info: seq<seq<nat>>, nodes: seq<nat>, nodeList: seq<nat>)
    requires GroupsWithin(info, |ns|) && Within(nodes, |ns|) && Within(nodeList, |ns|) && nodeList != []
    ensures GroupsWithin(SetInfoSetSpec(ns, info, nodes, nodeList), |ns|)
  {
    SetInfoSetMembers(ns, info, nodes, nodeList);
    SortPerm(nodeList, NodeNameLe(ns));
    SortedMembers(nodeList, NodeNameLe(ns));
    forall g | g in SetInfoSetSpec(ns, info, nodes, nodeList) ensures g != [] && Within(g, |ns|) {
      assert |g| == 1 ==> g == [g[0]];
    }
  }

  // ---------------------------------------------------------------------
  // What `remove_info_set` makes of the groups.
  // ---------------------------------------------------------------------

  /** The groups after `remove_info_set(g)` when g is a group. */
  function RemoveInfoSetSpec(ns: seq<NodeRec>, info: seq<seq<nat>>, g: seq<nat>): seq<seq<nat>>
    requires g in info
  {
    SortBy(RemoveFirst(info, g) + Singletons(g), FirstNameLe(ns))
  }

  lemma RemoveInfoSetSorted(ns: seq<NodeRec>, info: seq<seq<nat>>, g: seq<nat>)
    requires g in info
    ensures SortedBy(RemoveInfoSetSpec(ns, info, g), FirstNameLe(ns))
  {
    FirstNameLeTotalPreorder(ns);
    SortSorted(RemoveFirst(info, g) + Singletons(g), FirstNameLe(ns));
  }

  /** With no repeated groups, the groups after are the other groups and a
      singleton for each member of g. */
  lemma RemoveInfoSetMembers(ns: seq<NodeRec>, info: seq<seq<nat>>, g: seq<nat>)
    requires g in info && Distinct(info)
    ensures forall h :: h in RemoveInfoSetSpec(ns, info, g) <==> (h in info && h != g) || (|h| == 1 && h[0] in g)
  {
    SortedMembers(RemoveFirst(info, g) + Singletons(g), FirstNameLe(ns));
    RemoveFirstDistinct(info, g);
    forall h ensures h in Singletons(g) <==> |h| == 1 && h[0] in g {
      InSingletons(g, h);
    }
  }

  /** Every node in a group before is in a group after. */
  lemma RemoveInfoSetCovers(ns: seq<NodeRec>, info: seq<seq<nat>>, g: seq<nat>)
    requires g in info
    ensures forall n :: Covered(info, n) ==> Covered(RemoveInfoSetSpec(ns, info, g), n)
  {
    var r := RemoveInfoSetSpec(ns, info, g);
    SortedMembers(RemoveFirst(info, g) + Singletons(g), FirstNameLe(ns));
    forall n: nat | Covered(info, n) ensures Covered(r, n) {
      var h :| h in info && n in h;
      if h == g {
        InSingletons(g, [n]);
        assert [n] in r && n in [n];
      } else {
        assert multiset(RemoveFirst(info, g))[h] == multiset(info)[h];
        assert h in multiset(RemoveFirst(info, g));
        assert h in r;
      }
    }
  }

  lemma RemoveInfoSetWithin(ns: seq<NodeRec>, info: seq<seq<nat>>, g: seq<nat>)
    requires g in info && GroupsWithin(info, |ns|)
    ensures GroupsWithin(RemoveInfoSetSpec(ns, info, g), |ns|)
  {
    var r := RemoveInfoSetSpec(ns, info, g);
    var rest := RemoveFirst(info, g);
    SortedMembers(rest + Singletons(g), FirstNameLe(ns));
    forall h | h in r ensures h != [] && Within(h, |ns|) {
      assert h in rest || h in Singletons(g);
      InSingletons(g, h);
      if h in rest {
        assert h in multiset(rest);
        assert h in multiset(info);
      } else {
        assert h == [h[0]] && h[0] in g;
      }
    }
  }

  ghost function GroupAfterRemove(info: seq<seq<nat>>, g: seq<nat>, n: nat): seq<nat>
  {
    if n in g then [n]
    else if exists h :: h in info && n in h then var h :| h in info && n in h; h
    else []
  }

  lemma RemoveGroupUnique(ns: seq<NodeRec>, info: seq<seq<nat>>, nodes: seq<nat>, g: seq<nat>, h: seq<nat>, n: nat)
    requires Partition(info, nodes) && g in info
    requires h in RemoveInfoSetSpec(ns, info, g) && n in h
    ensures h == GroupAfterRemove(info, g, n)
  {
    RemoveInfoSetMembers(ns, info, g);
    if h in info && h != g {
      assert n in g ==> h == g;
      var k :| k in info && n in k;
      assert k == h;
    } else {
      assert h == [h[0]] && h[0] == n;
    }
  }

  lemma RemoveInfoSetDistinct(ns: seq<NodeRec>, info: seq<seq<nat>>, nodes: seq<nat>, g: seq<nat>)
    requires Partition(info, nodes) && g in info
    ensures Distinct(RemoveInfoSetSpec(ns, info, g))
  {
    var rest := RemoveFirst(info, g);
    RemoveFirstDistinct(info, g);
    SingletonsDistinct(g);
    forall h | h in rest ensures h !in Singletons(g) {
      InSingletons(g, h);
      forall n | n in h ensures n !in g {
        assert n in g ==> h == g;
      }
      assert |h| == 1 ==> h[0] in h;
    }
    DistinctAppend(rest, Singletons(g));
    SortPerm(rest + Singletons(g), FirstNameLe(ns));
    DistinctPerm(rest + Singletons(g), RemoveInfoSetSpec(ns, info, g));
  }

  lemma RemoveInfoSetExact(ns: seq<NodeRec>, info: seq<seq<nat>>, nodes: seq<nat>, g: seq<nat>)
    requires Partition(info, nodes) && g in info
    ensures forall n: nat :: Covered(RemoveInfoSetSpec(ns, info, g), n) <==> n in nodes
  {
    var r := RemoveInfoSetSpec(ns, info, g);
    RemoveInfoSetMembers(ns, info, g);
    RemoveInfoSetCovers(ns, info, g);
    forall n: nat | Covered(r, n) ensures n in nodes {
      var h :| h in r && n in h;
      assert h in info ==> Covered(info, n);
      assert |h| == 1 && h[0] in g ==> h[0] == n && Covered(info, n);
    }
  }

  /** `remove_info_set` keeps the groups a partition of the game's nodes. */
  lemma RemoveInfoSetPartition(ns: seq<NodeRec>, info: seq<seq<nat>>, nodes: seq<nat>, g: seq<nat>)
    requires Partition(info, nodes) && g in info
    ensures Partition(RemoveInfoSetSpec(ns, info, g), nodes)
  {
    var r := RemoveInfoSetSpec(ns, info, g);
    RemoveInfoSetDistinct(ns, info, nodes, g);
    RemoveInfoSetExact(ns, info, nodes, g);
    RemoveInfoSetMembers(ns, info, g);
    forall h | h in r ensures h != [] && Distinct(h) {
      assert |h| == 1 ==> h == [h[0]];
    }
    forall h, k, n | h in r && k in r && n in h && n in k ensures h == k {
      RemoveGroupUnique(ns, info, nodes, g, h, n);
      RemoveGroupUnique(ns, info, nodes, g, k, n);
    }
  }

  // ---------------------------------------------------------------------
  // Perfect information.
  // ---------------------------------------------------------------------

  /** Every node is in an information set with no other node. */
  predicate PerfectInfo(info: seq<seq<nat>>)
  {
    forall g :: g in info ==> |g| == 1
  }

  /** `perfect_info` as written: the groups equal the name-sorted list of the
      nodes' singletons. */
  predicate PerfectInfoAsWritten(ns: seq<NodeRec>, info: seq<seq<nat>>, nodes: seq<nat>)
  {
    info == SortBy(Singletons(nodes), FirstNameLe(ns))
  }

  /** No two nodes of the game share a name. */
  ghost predicate NamesDistinct(ns: seq<NodeRec>, nodes: seq<nat>)
  {
    forall m, n :: m in nodes && n in nodes && m != n ==> NameOf(ns, m) != NameOf(ns, n)
  }

  /** When `perfect_info` answers true, every group is a singleton. */
  lemma PerfectInfoAsWrittenSound(ns: seq<NodeRec>, info: seq<seq<nat>>, nodes: seq<nat>)
    requires PerfectInfoAsWritten(ns, info, nodes)
    ensures PerfectInfo(info)
  {
    SortedMembers(Singletons(nodes), FirstNameLe(ns));
    forall g | g in info ensures |g| == 1 {
      InSingletons(nodes, g);
    }
  }

  /** A partition into singletons lists each node's singleton once. */
  lemma SingletonPartition(info: seq<seq<nat>>, nodes: seq<nat>)
    requires Partition(info, nodes) && Distinct(nodes) && PerfectInfo(info)
    ensures multiset(info) == multiset(Singletons(nodes))
  {
    SingletonsDistinct(nodes);
    forall h ensures h in info <==> h in Singletons(nodes) {
      InSingletons(nodes, h);
      if h in info {
        assert h == [h[0]] && Covered(info, h[0]);
      }
      if |h| == 1 && h[0] in nodes {
        var g :| g in info && h[0] in g;
        assert g == [g[0]];
      }
    }
    DistinctSameElems(info, Singletons(nodes));
  }

  /** With distinct names, `perfect_info` as written agrees with the
      definition on name-sorted partitions. */
  lemma PerfectInfoAsWrittenAgrees(ns: seq<NodeRec>, info: seq<seq<nat>>, nodes: seq<nat>)
    requires Partition(info, nodes) && Distinct(nodes) && SortedBy(info, FirstNameLe(ns)) && NamesDistinct(ns, nodes)
    ensures PerfectInfoAsWritten(ns, info, nodes) <==> PerfectInfo(info)
  {
    if PerfectInfoAsWritten(ns, info, nodes) {
      PerfectInfoAsWrittenSound(ns, info, nodes);
    }
    if PerfectInfo(info) {
      var le := FirstNameLe(ns);
      var s := SortBy(Singletons(nodes), le);
      SingletonPartition(info, nodes);
      SortPerm(Singletons(nodes), le);
      FirstNameLeTotalPreorder(ns);
      SortSorted(Singletons(nodes), le);
      forall x, y | x in info && y in info && le(x, y) && le(y, x) ensures x == y {
        NameLeAntisym(FirstName(ns, x), FirstName(ns, y));
        assert x == [x[0]] && y == [y[0]];
        assert Covered(info, x[0]) && Covered(info, y[0]);
      }
      SortedUnique(info, s, le);
    }
  }

  /** What the answer of `perfect_info` as written tells. */
  lemma PerfectInfoAsWrittenMeaning(ns: seq<NodeRec>, info: seq<seq<nat>>, nodes: seq<nat>)
    ensures PerfectInfoAsWritten(ns, info, nodes) ==> PerfectInfo(info)
    ensures Partition(info, nodes) && Distinct(nodes) && SortedBy(info, FirstNameLe(ns)) && NamesDistinct(ns, nodes) ==>
      (PerfectInfoAsWritten(ns, info, nodes) <==> PerfectInfo(info))
  {
    if PerfectInfoAsWritten(ns, info, nodes) {
      PerfectInfoAsWrittenSound(ns, info, nodes);
    }
    if Partition(info, nodes) && Distinct(nodes) && SortedBy(info, FirstNameLe(ns)) && NamesDistinct(ns, nodes) {
      PerfectInfoAsWrittenAgrees(ns, info, nodes);
    }
  }

  /** `set_info_set` of two or more nodes ends perfect information. */
  lemma SetInfoSetEndsPerfectInfo(ns: seq<NodeRec>, info: seq<seq<nat>>, nodes: seq<nat>, nodeList: seq<nat>)
    requires |nodeList| >= 2
    ensures !PerfectInfo(SetInfoSetSpec(ns, info, nodes, nodeList))
  {
    SetInfoSetGroup(ns, info, nodes, nodeList);
    SortPerm(nodeList, NodeNameLe(ns));
  }

  /** Grouping nodes of a game with perfect information and then removing
      that group gives perfect information again. */
  lemma RemoveAfterSet(ns: seq<NodeRec>, info: seq<seq<nat>>, nodes: seq<nat>, nodeList: seq<nat>)
    requires Partition(info, nodes) && Distinct(nodes) && PerfectInfo(info)
    requires nodeList != [] && Distinct(nodeList) && forall x :: x in nodeList ==> x in nodes
    ensures NewGroup(ns, nodeList) in SetInfoSetSpec(ns, info, nodes, nodeList)
    ensures var r := RemoveInfoSetSpec(ns, SetInfoSetSpec(ns, info, nodes, nodeList), NewGroup(ns, nodeList));
      PerfectInfo(r) && Partition(r, nodes)
  {
    var s := SetInfoSetSpec(ns, info, nodes, nodeList);
    var ng := NewGroup(ns, nodeList);
    SetInfoSetGroup(ns, info, nodes, nodeList);
    SetInfoSetPartition(ns, info, nodes, nodeList);
    SetInfoSetMembers(ns, info, nodes, nodeList);
    RemoveInfoSetPartition(ns, s, nodes, ng);
    RemoveInfoSetMembers(ns, s, ng);
  }

  /** Two nodes that share the name "X", the player and the actions. */
  function TiedNodes(): seq<NodeRec>
  {
    var rec := NodeRec(Named("X"), IsPlayer(0), Acts(["A"]), Kids([]), None);
    [rec, rec]
  }

  lemma TiedOrder()
    ensures FirstNameLe(TiedNodes())([0], [1]) && FirstNameLe(TiedNodes())([1], [0])
    ensures NodeNameLe(TiedNodes())(1, 0)
  {
    StrLeRefl("X");
  }

  lemma TiedStart()
    ensures SortBy(Singletons([0, 1]), FirstNameLe(TiedNodes())) == [[0], [1]]
  {
    TiedOrder();
    assert Singletons([0, 1]) == [[0], [1]];
    assert SortBy([[1]], FirstNameLe(TiedNodes())) == [[1]];
  }

  lemma TiedCheck()
    ensures SetInfoSetCheck(TiedNodes(), [1, 0]) == Pass
  {
    var ns := TiedNodes();
    ElemsOne(PlayersMet(ns, [1, 0]));
    ElemsOne(Map(SortedLabels(ns), [1, 0]));
    assert SortBy(["A"], StrLe) == ["A"];
  }

  lemma TiedNewGroup()
    ensures NewGroup(TiedNodes(), [1, 0]) == [1, 0]
  {
    var le := NodeNameLe(TiedNodes());
    TiedOrder();
    var one: seq<nat> := [0];
    var two: seq<nat> := [1, 0];
    assert two[1..] == one && one[1..] == [];
    var none: seq<nat> := [];
    assert SortBy(one, le) == Insert(0, none, le) == one;
    assert SortBy(two, le) == Insert(1, one, le) == two;
  }

  lemma TiedKept()
    ensures Kept([[0], [1]], [1, 0]) == []
  {
    var k := Kept([[0], [1]], [1, 0]);
    assert 0 in [1, 0] && 1 in [1, 0];
    assert !Avoids([1, 0])([0]) && !Avoids([1, 0])([1]);
  }

  lemma TiedLoose()
    ensures Loose([[1, 0]], [0, 1]) == []
  {
    var mid := [[1, 0]];
    var l := Loose(mid, [0, 1]);
    assert [1, 0] in mid && 0 in [1, 0] && 1 in [1, 0];
    assert Covered(mid, 0) && Covered(mid, 1);
  }

  lemma TiedSet()
    ensures SetInfoSetSpec(TiedNodes(), [[0], [1]], [0, 1], [1, 0]) == [[1, 0]]
  {
    var ns := TiedNodes();
    TiedNewGroup();
    TiedKept();
    var mid := Grouped(ns, [[0], [1]], [1, 0]);
    assert mid == [[1, 0]];
    TiedLoose();
    SetInfoSetNoLoose(ns, [[0], [1]], [0, 1], [1, 0]);
    SortOne([1, 0], FirstNameLe(ns));
  }

  /** When every node is grouped already, no singleton is added. */
  lemma SetInfoSetNoLoose(ns: seq<NodeRec>, info: seq<seq<nat>>, nodes: seq<nat>, nodeList: seq<nat>)
    requires Loose(Grouped(ns, info, nodeList), nodes) == []
    ensures SetInfoSetSpec(ns, info, nodes, nodeList) == SortBy(Grouped(ns, info, nodeList), FirstNameLe(ns))
  {
    var mid := Grouped(ns, info, nodeList);
    assert mid + Singletons(Loose(mid, nodes)) == mid;
  }

  lemma TiedRemove()
    ensures RemoveInfoSetSpec(TiedNodes(), [[1, 0]], [1, 0]) == [[1], [0]]
  {
    var le := FirstNameLe(TiedNodes());
    TiedOrder();
    var rest := RemoveFirst([[1, 0]], [1, 0]);
    assert rest == [];
    var sg := Singletons([1, 0]);
    assert sg[0] == [1] && sg[1] == [0];
    assert rest + sg == [[1], [0]];
    assert [[1], [0]][1..] == [[0]] && [[0]][1..] == [];
    assert SortBy([[0]], le) == Insert([0], [], le) == [[0]];
    assert SortBy([[1], [0]], le) == Insert([1], [[0]], le) == [[1], [0]];
  }

  lemma TiedEnd()
    ensures PerfectInfo([[1], [0]]) && !PerfectInfoAsWritten(TiedNodes(), [[1], [0]], [0, 1])
  {
    TiedStart();
    assert [[0], [1]][0] != [[1], [0]][0];
  }

  /** `perfect_info` as written answers false although every group is a
      singleton: two nodes share the name "X", the group [1, 0] is set and
      removed again, and the tied singletons come back in the other order. */
  lemma PerfectInfoAsWrittenMisses()
    ensures PerfectInfoAsWritten(TiedNodes(), [[0], [1]], [0, 1])
    ensures SetInfoSetCheck(TiedNodes(), [1, 0]) == Pass
    ensures var s := SetInfoSetSpec(TiedNodes(), [[0], [1]], [0, 1], [1, 0]);
      [1, 0] in s && RemoveInfoSetSpec(TiedNodes(), s, [1, 0]) == [[1], [0]]
    ensures PerfectInfo([[1], [0]]) && !PerfectInfoAsWritten(TiedNodes(), [[1], [0]], [0, 1])
  {
    TiedStart();
    TiedCheck();
    TiedSet();
    TiedRemove();
    TiedEnd();
  }

  lemma InitialDistinct(ns: seq<NodeRec>, tn: seq<nat>)
    requires Distinct(tn)
    ensures Distinct(SortBy(Singletons(tn), FirstNameLe(ns)))
  {
    SingletonsDistinct(tn);
    SortPerm(Singletons(tn), FirstNameLe(ns));
    DistinctPerm(Singletons(tn), SortBy(Singletons(tn), FirstNameLe(ns)));
  }

  lemma InitialPartition(ns: seq<NodeRec>, tn: seq<nat>, nodes: seq<nat>)
    requires Distinct(tn) && forall n :: n in tn <==> n in nodes
    ensures Partition(SortBy(Singletons(tn), FirstNameLe(ns)), nodes)
    ensures PerfectInfo(SortBy(Singletons(tn), FirstNameLe(ns)))
  {
    var info := SortBy(Singletons(tn), FirstNameLe(ns));
    InitialDistinct(ns, tn);
    SortedMembers(Singletons(tn), FirstNameLe(ns));
    forall h ensures h in info <==> |h| == 1 && h[0] in tn {
      InSingletons(tn, h);
    }
    forall g | g in info ensures g != [] && Distinct(g) && g == [g[0]] {
    }
    forall n: nat ensures Covered(info, n) <==> n in nodes {
      if n in nodes {
        assert [n] in info && n in [n];
      }
    }
  }

  /** The groups a new game starts with, `[[node] for node in nodes]` sorted by
      the first member's name: a partition into singletons, sorted, and equal
      to what `perfect_info` compares with when no two names are equal. */
  lemma InitialInfoSets(ns: seq<NodeRec>, tn: seq<nat>, nodes: seq<nat>)
    requires Distinct(tn) && Distinct(nodes) && forall n :: n in tn <==> n in nodes
    ensures var info := SortBy(Singletons(tn), FirstNameLe(ns));
      && Partition(info, nodes) && PerfectInfo(info) && SortedBy(info, FirstNameLe(ns))
      && (NamesDistinct(ns, nodes) ==> PerfectInfoAsWritten(ns, info, nodes))
  {
    var info := SortBy(Singletons(tn), FirstNameLe(ns));
    InitialPartition(ns, tn, nodes);
    FirstNameLeTotalPreorder(ns);
    SortSorted(Singletons(tn), FirstNameLe(ns));
    if NamesDistinct(ns, nodes) {
      PerfectInfoAsWrittenAgrees(ns, info, nodes);
    }
  }

  /** Appending singletons of other nodes does not change whether n is in a group. */
  lemma CoveredPlusSingletons(info: seq<seq<nat>>, s: seq<nat>, n: nat)
    requires n !in s
    ensures Covered(info + Singletons(s), n) <==> Covered(info, n)
  {
    forall g | g in Singletons(s) ensures n !in g {
      InSingletons(s, g);
      assert g == [g[0]];
    }
    if Covered(info, n) {
      var g :| g in info && n in g;
      assert g in info + Singletons(s);
    }
  }

  // ---------------------------------------------------------------------
  // The information-set graph.
  // ---------------------------------------------------------------------

  /** `any(kid in b for nd in a for kid in nd.children)` */
  predicate Linked(ns: seq<NodeRec>, a: seq<nat>, b: seq<nat>)
  {
    exists nd, x :: nd in a && x in b && NodeRef(x) in KidsAt(ns, nd)
  }

  function LinkedFrom(ns: seq<NodeRec>, a: seq<nat>): seq<nat> -> bool
  {
    (b: seq<nat>) => b != a && Linked(ns, a, b)
  }

  /** The groups a leads to, in the order of `info`. */
  function Successors(ns: seq<NodeRec>, info: seq<seq<nat>>, a: seq<nat>): seq<seq<nat>>
  {
    Filter(LinkedFrom(ns, a), info)
  }

  /** With perfect information the graph is the tree itself: one singleton
      leads to another exactly when the second node is a child of the first. */
  lemma PerfectInfoGraph(ns: seq<NodeRec>, info: seq<seq<nat>>, a: nat, b: nat)
    requires PerfectInfo(info) && [a] in info && [b] in info
    ensures [b] in Successors(ns, info, [a]) <==> a != b && NodeRef(b) in KidsAt(ns, a)
  {
    if Linked(ns, [a], [b]) {
      var nd, x :| nd in [a] && x in [b] && NodeRef(x) in KidsAt(ns, nd);
      assert nd == a && x == b;
    }
    if NodeRef(b) in KidsAt(ns, a) {
      assert a in [a] && b in [b];
    }
  }
}
