/** Players, nodes and leaves of an extensive-form game (the classes
    `EFG_Player`, `EFG_Node` and `EFG_Leaf`). Objects are records in an arena
    and are referred to by index, so object identity is index equality. A node
    can only list entities that already exist when it is built, so a child node
    always has a smaller index than its parent. */
module EfgEntities {
  import opened Wrappers
  import opened Strings
  import opened Sorting
  import opened Seqs

  /** A `name` attribute: `False` until set, otherwise a string. Python 2
      orders `False` before every string. */
  datatype Name = Unnamed | Named(s: string)

  predicate NameLe(a: Name, b: Name)
  {
    a.Unnamed? || (b.Named? && StrLe(a.s, b.s))
  }

  lemma NameLeTotalPreorder()
    ensures TotalPreorder(NameLe)
  {
    forall a: Name, b: Name ensures NameLe(a, b) || NameLe(b, a) {
      if a.Named? && b.Named? { StrLeTotal(a.s, b.s); }
    }
    forall a: Name, b: Name, c: Name | NameLe(a, b) && NameLe(b, c) ensures NameLe(a, c) {
      if a.Named? { StrLeTrans(a.s, b.s, c.s); }
    }
  }

  lemma NameLeAntisym(a: Name, b: Name)
    requires NameLe(a, b) && NameLe(b, a)
    ensures a == b
  {
    if a.Named? { StrLeAntisym(a.s, b.s); }
  }

  /** The `player` attribute of a node: `False`, an `EFG_Player` (by identity),
      or some other object the user assigned, with its Python truth value
      (`None`, `0` and `''` are false). */
  datatype PlayerField = NoPlayer | IsPlayer(p: nat) | NonPlayer(obj: nat, truthy: bool)

  /** What a node's children list holds: a node or a leaf, by identity. */
  datatype Entity = NodeRef(n: nat) | LeafRef(l: nat)

  /** `actions` is `False` for a node built from `[]`, otherwise a list. */
  datatype Actions = NoActions | Acts(labels: seq<string>)

  /** `children` is `False` unless the node was built from a mapping. */
  datatype Children = NoChildren | Kids(items: seq<Entity>)

  datatype PlayerRec = PlayerRec(name: Name)

  datatype NodeRec = NodeRec(name: Name, player: PlayerField, actions: Actions,
                             children: Children, parent: Option<nat>)

  /** A leaf after construction: its players sorted by name and the utility of
      each, in that order. */
  datatype LeafRec = LeafRec(name: Name, players: seq<nat>, utilities: seq<real>, parent: Option<nat>)

  /** The argument of `EFG_Node(...)`: a dict (its items in iteration order), a
      list of action labels, or anything else. */
  datatype NodeInput = FromMapping(entries: seq<(string, Entity)>) | FromList(labels: seq<string>) | OtherInput

  /** A key of the payoff dict of `EFG_Leaf(...)`: a player, another object
      with a `name` attribute, or an object without one. */
  datatype Key = PlayerKey(p: nat) | OtherKey(obj: nat, name: Name) | NamelessKey(obj: nat)

  /** A payoff value: one of the accepted number types, or anything else. */
  datatype Utility = Num(v: real) | NonNumeric

  datatype LeafInput = PayoffMap(entries: seq<(Key, Utility)>) | NotAMapping

  datatype EntityError =
    | NodeInputNotDictOrList   // TypeError in EFG_Node.__init__
    | LeafInputNotDict         // TypeError: leaf input must be a dictionary
    | LeafKeyHasNoName         // AttributeError while sorting the keys by name
    | LeafUtilityNotNumeric    // TypeError: bad utility type
    | LeafKeyNotPlayer         // TypeError: every key must be an EFG_Player
    | ChildrenNotIterable      // TypeError: iterating over `children` that is False

  function KidsOf(r: NodeRec): seq<Entity>
  {
    if r.children.Kids? then r.children.items else []
  }

  function Labels(entries: seq<(string, Entity)>): (r: seq<string>)
    ensures |r| == |entries| && forall k :: 0 <= k < |entries| ==> r[k] == entries[k].0
  {
    Map((e: (string, Entity)) => e.0, entries)
  }

  function Values(entries: seq<(string, Entity)>): (r: seq<Entity>)
    ensures |r| == |entries| && forall k :: 0 <= k < |entries| ==> r[k] == entries[k].1
  {
    Map((e: (string, Entity)) => e.1, entries)
  }

  // ---------------------------------------------------------------------
  // Truth values of the attributes, as `all([...])` and `if x:` see them.
  // ---------------------------------------------------------------------

  predicate ActionsTruthy(a: Actions) { a.Acts? && |a.labels| > 0 }
  predicate ChildrenTruthy(c: Children) { c.Kids? && |c.items| > 0 }
  predicate PlayerTruthy(p: PlayerField) { p.IsPlayer? || (p.NonPlayer? && p.truthy) }

  /** `_is_complete`: parent, actions, children and player are all set (and
      the lists non-empty). */
  predicate Complete(r: NodeRec)
  {
    r.parent.Some? && ActionsTruthy(r.actions) && ChildrenTruthy(r.children) && PlayerTruthy(r.player)
  }

  /** A node whose player is a falsy non-player object fails `_is_complete`
      before `_player_check` is reached; a truthy one passes the first (given
      the other attributes) and fails the second. */
  lemma NonPlayerChecks(r: NodeRec)
    requires r.player.NonPlayer?
    ensures !r.player.truthy ==> !Complete(r)
    ensures r.player.truthy ==> !PlayerOk(r)
    ensures r.player.truthy ==>
              (Complete(r) <==> r.parent.Some? && ActionsTruthy(r.actions) && ChildrenTruthy(r.children))
  {
  }

  /** `_player_check` passes: the player is `False` or an `EFG_Player`. */
  predicate PlayerOk(r: NodeRec)
  {
    !r.player.NonPlayer?
  }

  // ---------------------------------------------------------------------
  // Well-formedness of the arena.
  // ---------------------------------------------------------------------

  predicate EntityExists(e: Entity, nn: nat, nl: nat)
  {
    match e
    case NodeRef(c) => c < nn
    case LeafRef(l) => l < nl
  }

  function ParentOf(ns: seq<NodeRec>, ls: seq<LeafRec>, e: Entity): Option<nat>
    requires EntityExists(e, |ns|, |ls|)
  {
    match e
    case NodeRef(c) => ns[c].parent
    case LeafRef(l) => ls[l].parent
  }

  /** The children of node i are entities built before it. */
  predicate ChildrenEarlier(ns: seq<NodeRec>, nl: nat)
  {
    forall i, k :: 0 <= i < |ns| && 0 <= k < |KidsOf(ns[i])| ==> EntityExists(KidsOf(ns[i])[k], i, nl)
  }

  /** Every player reference names an existing player. */
  predicate PlayersExist(ps: seq<PlayerRec>, ns: seq<NodeRec>, ls: seq<LeafRec>)
  {
    && (forall i :: 0 <= i < |ns| && ns[i].player.IsPlayer? ==> ns[i].player.p < |ps|)
    && (forall l, k :: 0 <= l < |ls| && 0 <= k < |ls[l].players| ==> ls[l].players[k] < |ps|)
  }

  /** A node's or leaf's parent is a later node that lists it. */
  predicate ParentsList(ns: seq<NodeRec>, ls: seq<LeafRec>)
  {
    && (forall i :: 0 <= i < |ns| && ns[i].parent.Some? ==>
          i < ns[i].parent.value < |ns| && NodeRef(i) in KidsOf(ns[ns[i].parent.value]))
    && (forall l :: 0 <= l < |ls| && ls[l].parent.Some? ==>
          ls[l].parent.value < |ns| && LeafRef(l) in KidsOf(ns[ls[l].parent.value]))
  }

  /** Every listed child has a parent, no earlier than any node listing it:
      its parent is the last node built that lists it. */
  predicate ChildrenAdopted(ns: seq<NodeRec>, ls: seq<LeafRec>)
    requires ChildrenEarlier(ns, |ls|)
  {
    forall i, k :: 0 <= i < |ns| && 0 <= k < |KidsOf(ns[i])| ==>
      var p := ParentOf(ns, ls, KidsOf(ns[i])[k]); p.Some? && i <= p.value
  }

  ghost predicate ArenaOk(ps: seq<PlayerRec>, ns: seq<NodeRec>, ls: seq<LeafRec>)
  {
    ChildrenEarlier(ns, |ls|) && PlayersExist(ps, ns, ls) && ParentsList(ns, ls) && ChildrenAdopted(ns, ls)
  }

  /** The nodes and leaves in `kids` get `j` as their parent (`child.parent = self`). */
  function AdoptNodes(ns: seq<NodeRec>, kids: seq<Entity>, j: nat): (r: seq<NodeRec>)
    ensures |r| == |ns|
    ensures forall i :: 0 <= i < |ns| ==>
      r[i] == if NodeRef(i) in kids then ns[i].(parent := Some(j)) else ns[i]
  {
    seq(|ns|, i requires 0 <= i < |ns| => if NodeRef(i) in kids then ns[i].(parent := Some(j)) else ns[i])
  }

  function AdoptLeaves(ls: seq<LeafRec>, kids: seq<Entity>, j: nat): (r: seq<LeafRec>)
    ensures |r| == |ls|
    ensures forall l :: 0 <= l < |ls| ==>
      r[l] == if LeafRef(l) in kids then ls[l].(parent := Some(j)) else ls[l]
  {
    seq(|ls|, l requires 0 <= l < |ls| => if LeafRef(l) in kids then ls[l].(parent := Some(j)) else ls[l])
  }

  /** The record `EFG_Node(input, name, player)` starts out as. */
  function NodeFromInput(input: NodeInput, name: Name, player: PlayerField): NodeRec
    requires !input.OtherInput?
  {
    match input
    case FromMapping(entries) => NodeRec(name, player, Acts(Labels(entries)), Kids(Values(entries)), None)
    case FromList(labels) => NodeRec(name, player, if labels == [] then NoActions else Acts(labels), NoChildren, None)
  }

  // ---------------------------------------------------------------------
  // Leaf construction.
  // ---------------------------------------------------------------------

  /** The `name` used as sort key for a payoff key that has one. */
  function KeyName(ps: seq<PlayerRec>, k: Key): Name
    requires !k.NamelessKey?
    requires k.PlayerKey? ==> k.p < |ps|
  {
    if k.PlayerKey? then ps[k.p].name else k.name
  }

  predicate PlayerKeys(ps: seq<PlayerRec>, entries: seq<(Key, Utility)>)
  {
    forall k :: 0 <= k < |entries| ==> entries[k].0.PlayerKey? && entries[k].0.p < |ps|
  }

  predicate NumericValues(entries: seq<(Key, Utility)>)
  {
    forall k :: 0 <= k < |entries| ==> entries[k].1.Num?
  }

  /** The sort key of a payoff entry: its player's name. */
  function EntryName(ps: seq<PlayerRec>, e: (Key, Utility)): Name
  {
    if e.0.PlayerKey? && e.0.p < |ps| then ps[e.0.p].name else Unnamed
  }

  function EntryLe(ps: seq<PlayerRec>): ((Key, Utility), (Key, Utility)) -> bool
  {
    (a: (Key, Utility), b: (Key, Utility)) => NameLe(EntryName(ps, a), EntryName(ps, b))
  }

  lemma EntryLeTotalPreorder(ps: seq<PlayerRec>)
    ensures TotalPreorder(EntryLe(ps))
  {
    NameLeTotalPreorder();
    var le := EntryLe(ps);
    forall a, b ensures le(a, b) || le(b, a) {
      assert NameLe(EntryName(ps, a), EntryName(ps, b)) || NameLe(EntryName(ps, b), EntryName(ps, a));
    }
    forall a, b, c | le(a, b) && le(b, c) ensures le(a, c) {
      assert NameLe(EntryName(ps, a), EntryName(ps, c));
    }
  }

  function PlayerOfEntry(e: (Key, Utility)): nat
  {
    if e.0.PlayerKey? then e.0.p else 0
  }

  function ValueOfEntry(e: (Key, Utility)): real
  {
    if e.1.Num? then e.1.v else 0.0
  }

  predicate HasNamelessKey(entries: seq<(Key, Utility)>)
  {
    exists k :: 0 <= k < |entries| && entries[k].0.NamelessKey?
  }

  predicate SortedPlayers(ps: seq<PlayerRec>, players: seq<nat>)
  {
    && (forall i :: 0 <= i < |players| ==> players[i] < |ps|)
    && (forall i, j :: 0 <= i < j < |players| ==> NameLe(ps[players[i]].name, ps[players[j]].name))
  }

  /** What a constructed leaf holds: its players are the payoff keys sorted by
      name, and each utility is the payoff its player was given. */
  ghost predicate LeafMatches(ps: seq<PlayerRec>, entries: seq<(Key, Utility)>, players: seq<nat>, utilities: seq<real>)
  {
    && |players| == |utilities| == |entries|
    && SortedPlayers(ps, players)
    && multiset(players) == multiset(Map(PlayerOfEntry, entries))
    && (forall i :: 0 <= i < |players| ==> (PlayerKey(players[i]), Num(utilities[i])) in entries)
  }

  /** `EFG_Leaf.__init__(payoffs)`: the players (the keys sorted by name) and
      the utilities in that order, or the first error raised: not a dict, then
      a key without a name (while sorting), then a non-numeric utility, then a
      key that is not a player. */
  function LeafFromPayoffs(ps: seq<PlayerRec>, input: LeafInput): (r: Result<(seq<nat>, seq<real>), EntityError>)
    ensures input.NotAMapping? ==> r == Failure(LeafInputNotDict)
    ensures input.PayoffMap? && HasNamelessKey(input.entries) ==> r == Failure(LeafKeyHasNoName)
    ensures input.PayoffMap? && !HasNamelessKey(input.entries) && !NumericValues(input.entries) ==>
              r == Failure(LeafUtilityNotNumeric)
    ensures (input.PayoffMap? && !HasNamelessKey(input.entries) && NumericValues(input.entries)
             && !PlayerKeys(ps, input.entries)) ==> r == Failure(LeafKeyNotPlayer)
    ensures r.Success? <==> input.PayoffMap? && PlayerKeys(ps, input.entries) && NumericValues(input.entries)
    ensures r.Success? ==> LeafMatches(ps, input.entries, r.value.0, r.value.1)
  {
    match input
    case NotAMapping => Failure(LeafInputNotDict)
    case PayoffMap(entries) =>
      if HasNamelessKey(entries) then Failure(LeafKeyHasNoName)
      else if !NumericValues(entries) then Failure(LeafUtilityNotNumeric)
      else if !PlayerKeys(ps, entries) then Failure(LeafKeyNotPlayer)
      else
        var sorted := SortBy(entries, EntryLe(ps));
        SortedEntries(ps, entries);
        Success((Map(PlayerOfEntry, sorted), Map(ValueOfEntry, sorted)))
  }

  lemma SortedEntries(ps: seq<PlayerRec>, entries: seq<(Key, Utility)>)
    requires PlayerKeys(ps, entries) && NumericValues(entries)
    ensures var sorted := SortBy(entries, EntryLe(ps));
      LeafMatches(ps, entries, Map(PlayerOfEntry, sorted), Map(ValueOfEntry, sorted))
  {
    var le := EntryLe(ps);
    var sorted := SortBy(entries, le);
    SortPerm(entries, le);
    MapPerm(PlayerOfEntry, sorted, entries);
    EntryLeTotalPreorder(ps);
    SortSorted(entries, le);
    var players: seq<nat> := Map(PlayerOfEntry, sorted);
    var utilities: seq<real> := Map(ValueOfEntry, sorted);
    forall i | 0 <= i < |sorted| ensures sorted[i] in entries {
      assert sorted[i] in multiset(sorted);
    }
    forall i | 0 <= i < |players|
      ensures players[i] < |ps| && (PlayerKey(players[i]), Num(utilities[i])) in entries
    {
      EntryFacts(ps, entries, sorted[i]);
    }
    forall i, j | 0 <= i < j < |players| ensures NameLe(ps[players[i]].name, ps[players[j]].name) {
      EntryFacts(ps, entries, sorted[i]);
      EntryFacts(ps, entries, sorted[j]);
      assert le(sorted[i], sorted[j]);
    }
  }

  /** A payoff entry that passed the checks is a player key with a number. */
  lemma EntryFacts(ps: seq<PlayerRec>, entries: seq<(Key, Utility)>, e: (Key, Utility))
    requires PlayerKeys(ps, entries) && NumericValues(entries) && e in entries
    ensures PlayerOfEntry(e) < |ps| && e == (PlayerKey(PlayerOfEntry(e)), Num(ValueOfEntry(e)))
    ensures EntryName(ps, e) == ps[PlayerOfEntry(e)].name
  {
    var k :| 0 <= k < |entries| && entries[k] == e;
  }

  // ---------------------------------------------------------------------
  // is_terminal
  // ---------------------------------------------------------------------

  /** How many of the children are leaves. */
  function CountLeaves(kids: seq<Entity>): (n: nat)
    ensures n <= |kids|
    ensures n == |kids| <==> forall k :: 0 <= k < |kids| ==> kids[k].LeafRef?
    decreases |kids|
  {
    if kids == [] then 0
    else CountLeaves(kids[..|kids| - 1]) + (if kids[|kids| - 1].LeafRef? then 1 else 0)
  }

  /** CPython's `a is b` on two int objects made at run time: the same object
      only when the values are equal and inside the small-int cache -5..256. */
  predicate IntIs(a: int, b: int)
  {
    a == b && -5 <= a <= 256
  }

  /** `is_terminal` as written: `leaf_count is len(self.children)`. */
  predicate TerminalAsWritten(kids: seq<Entity>)
  {
    IntIs(CountLeaves(kids), |kids|)
  }

  /** A node with 257 leaf children has only leaves as children, yet the
      identity test reports it as not terminal. */
  lemma TerminalAsWrittenMisses()
    ensures var kids := seq(257, k => LeafRef(0));
      (forall k :: 0 <= k < |kids| ==> kids[k].LeafRef?) && !TerminalAsWritten(kids)
  {
  }

  /** Up to 256 children the identity test is the intended equality test. */
  lemma TerminalAsWrittenAgrees(kids: seq<Entity>)
    requires |kids| <= 256
    ensures TerminalAsWritten(kids) <==> forall k :: 0 <= k < |kids| ==> kids[k].LeafRef?
  {
  }

  // ---------------------------------------------------------------------
  // The arena.
  // ---------------------------------------------------------------------

  class Arena {
    var players: seq<PlayerRec>
    var nodes: seq<NodeRec>
    var leaves: seq<LeafRec>

    ghost predicate Valid()
      reads this
    {
      ArenaOk(players, nodes, leaves)
    }

    constructor ()
      ensures Valid() && players == [] && nodes == [] && leaves == []
    {
      players, nodes, leaves := [], [], [];
    }

    /** `EFG_Player(name)`. */
    method NewPlayer(name: Name) returns (id: nat)
      requires Valid()
      modifies this
      ensures Valid()
      ensures id == |old(players)| && players == old(players) + [PlayerRec(name)]
      ensures nodes == old(nodes) && leaves == old(leaves)
    {
      id := |players|;
      assert PlayersExist(players + [PlayerRec(name)], nodes, leaves);
      players := players + [PlayerRec(name)];
    }

    /** `EFG_Node(input, name, player)`: a dict gives the actions (its keys)
        and children (its values) and makes the new node the parent of each
        child; a list gives the actions only, `[]` meaning no actions; anything
        else raises TypeError. */
    method NewNode(input: NodeInput, name: Name, player: PlayerField) returns (r: Result<nat, EntityError>)
      requires Valid()
      requires input.FromMapping? ==>
        forall k :: 0 <= k < |input.entries| ==> EntityExists(input.entries[k].1, |nodes|, |leaves|)
      requires player.IsPlayer? ==> player.p < |players|
      modifies this
      ensures Valid() && players == old(players)
      ensures input.OtherInput? ==>
        r == Failure(NodeInputNotDictOrList) && nodes == old(nodes) && leaves == old(leaves)
      ensures !input.OtherInput? ==>
        var rec := NodeFromInput(input, name, player);
        && r == Success(|old(nodes)|)
        && nodes == AdoptNodes(old(nodes), KidsOf(rec), |old(nodes)|) + [rec]
        && leaves == AdoptLeaves(old(leaves), KidsOf(rec), |old(nodes)|)
    {
      if input.OtherInput? {
        return Failure(NodeInputNotDictOrList);
      }
      var rec := NodeFromInput(input, name, player);
      var j := |nodes|;
      var kids := KidsOf(rec);
      assert forall m :: 0 <= m < |kids| ==> EntityExists(kids[m], |nodes|, |leaves|);
      var ns0, ls0 := nodes, leaves;
      var ns, ls := AdoptAll(ns0, ls0, kids, j);
      assert rec.parent.None? && rec.player == player;
      AdoptKeepsArenaOk(players, ns0, ls0, rec);
      nodes, leaves := ns + [rec], ls;
      r := Success(j);
    }

    /** `node.player = player`. */
    method SetPlayer(i: nat, player: PlayerField)
      requires Valid() && i < |nodes|
      requires player.IsPlayer? ==> player.p < |players|
      modifies this
      ensures Valid()
      ensures nodes == old(nodes)[i := old(nodes)[i].(player := player)]
      ensures players == old(players) && leaves == old(leaves)
    {
      SetPlayerKeepsArenaOk(players, nodes, leaves, i, player);
      nodes := nodes[i := nodes[i].(player := player)];
    }

    /** `EFG_Leaf(payoffs, name)`: on success the new leaf holds the players
        sorted by name and their utilities in that order. */
    method NewLeaf(input: LeafInput, name: Name) returns (r: Result<nat, EntityError>)
      requires Valid()
      modifies this
      ensures Valid() && players == old(players) && nodes == old(nodes)
      ensures LeafFromPayoffs(old(players), input).Failure? ==>
        r == Failure(LeafFromPayoffs(old(players), input).error) && leaves == old(leaves)
      ensures LeafFromPayoffs(old(players), input).Success? ==>
        var (ps, us) := LeafFromPayoffs(old(players), input).value;
        r == Success(|old(leaves)|) && leaves == old(leaves) + [LeafRec(name, ps, us, None)]
    {
      var made := LeafFromPayoffs(players, input);
      if made.Failure? {
        return Failure(made.error);
      }
      var (ps, us) := made.value;
      NewLeafKeepsArenaOk(players, nodes, leaves, LeafRec(name, ps, us, None));
      leaves := leaves + [LeafRec(name, ps, us, None)];
      r := Success(|leaves| - 1);
    }

    /** `is_terminal`, with the count compared by value: true exactly when
        every child is a leaf; iterating over `children` that is False raises. */
    method IsTerminal(i: nat) returns (r: Result<bool, EntityError>)
      requires Valid() && i < |nodes|
      ensures nodes[i].children.NoChildren? <==> r == Failure(ChildrenNotIterable)
      ensures r.Success? ==> (r.value <==> forall k :: 0 <= k < |KidsOf(nodes[i])| ==> KidsOf(nodes[i])[k].LeafRef?)
    {
      if nodes[i].children.NoChildren? {
        return Failure(ChildrenNotIterable);
      }
      var kids := nodes[i].children.items;
      var leafCount := 0;
      var k := 0;
      while k < |kids|
        invariant 0 <= k <= |kids|
        invariant leafCount == CountLeaves(kids[..k])
      {
        assert kids[..k + 1][..k] == kids[..k];
        if kids[k].LeafRef? {
          leafCount := leafCount + 1;
        }
        k := k + 1;
      }
      assert kids[..k] == kids;
      assert kids == KidsOf(nodes[i]);
      r := Success(leafCount == |kids|);
    }
  }

  /** The `for child in ...: child.parent = self` loop of the node
      constructor, on the node and leaf records. */
  method AdoptAll(ns0: seq<NodeRec>, ls0: seq<LeafRec>, kids: seq<Entity>, j: nat)
    returns (ns: seq<NodeRec>, ls: seq<LeafRec>)
    requires forall m :: 0 <= m < |kids| ==> EntityExists(kids[m], |ns0|, |ls0|)
    ensures ns == AdoptNodes(ns0, kids, j) && ls == AdoptLeaves(ls0, kids, j)
  {
    ns, ls := ns0, ls0;
    var k := 0;
    while k < |kids|
      invariant 0 <= k <= |kids|
      invariant ns == AdoptNodes(ns0, kids[..k], j)
      invariant ls == AdoptLeaves(ls0, kids[..k], j)
    {
      assert kids[..k + 1] == kids[..k] + [kids[k]];
      AdoptStep(ns0, ls0, kids[..k], kids[k], j);
      match kids[k] {
        case NodeRef(c) =>
          ns := ns[c := ns[c].(parent := Some(j))];
        case LeafRef(l) =>
          ls := ls[l := ls[l].(parent := Some(j))];
      }
      k := k + 1;
    }
    assert kids[..k] == kids;
  }

  /** One more iteration of `for child in children: child.parent = self`. */
  lemma AdoptStep(ns: seq<NodeRec>, ls: seq<LeafRec>, kids: seq<Entity>, e: Entity, j: nat)
    requires EntityExists(e, |ns|, |ls|)
    ensures e.NodeRef? ==>
      && AdoptNodes(ns, kids + [e], j) == AdoptNodes(ns, kids, j)[e.n := AdoptNodes(ns, kids, j)[e.n].(parent := Some(j))]
      && AdoptLeaves(ls, kids + [e], j) == AdoptLeaves(ls, kids, j)
    ensures e.LeafRef? ==>
      && AdoptLeaves(ls, kids + [e], j) == AdoptLeaves(ls, kids, j)[e.l := AdoptLeaves(ls, kids, j)[e.l].(parent := Some(j))]
      && AdoptNodes(ns, kids + [e], j) == AdoptNodes(ns, kids, j)
  {
    assert forall i :: NodeRef(i) in kids + [e] <==> NodeRef(i) in kids || NodeRef(i) == e;
    assert forall l :: LeafRef(l) in kids + [e] <==> LeafRef(l) in kids || LeafRef(l) == e;
  }

  lemma SetPlayerKeepsArenaOk(ps: seq<PlayerRec>, ns: seq<NodeRec>, ls: seq<LeafRec>, i: nat, player: PlayerField)
    requires ArenaOk(ps, ns, ls) && i < |ns|
    requires player.IsPlayer? ==> player.p < |ps|
    ensures ArenaOk(ps, ns[i := ns[i].(player := player)], ls)
  {
    var ns' := ns[i := ns[i].(player := player)];
    assert forall n :: 0 <= n < |ns| ==> KidsOf(ns'[n]) == KidsOf(ns[n]) && ns'[n].parent == ns[n].parent;
    assert ChildrenEarlier(ns', |ls|);
    assert forall e :: EntityExists(e, |ns|, |ls|) ==> ParentOf(ns', ls, e) == ParentOf(ns, ls, e);
  }

  lemma NewLeafKeepsArenaOk(ps: seq<PlayerRec>, ns: seq<NodeRec>, ls: seq<LeafRec>, leaf: LeafRec)
    requires ArenaOk(ps, ns, ls) && leaf.parent.None?
    requires forall k :: 0 <= k < |leaf.players| ==> leaf.players[k] < |ps|
    ensures ArenaOk(ps, ns, ls + [leaf])
  {
    var ls' := ls + [leaf];
    assert forall e :: EntityExists(e, |ns|, |ls|) ==> ParentOf(ns, ls', e) == ParentOf(ns, ls, e);
  }

  lemma AdoptKeepsArenaOk(ps: seq<PlayerRec>, ns: seq<NodeRec>, ls: seq<LeafRec>, rec: NodeRec)
    requires ArenaOk(ps, ns, ls)
    requires forall k :: 0 <= k < |KidsOf(rec)| ==> EntityExists(KidsOf(rec)[k], |ns|, |ls|)
    requires rec.parent.None? && (rec.player.IsPlayer? ==> rec.player.p < |ps|)
    ensures ArenaOk(ps, AdoptNodes(ns, KidsOf(rec), |ns|) + [rec], AdoptLeaves(ls, KidsOf(rec), |ns|))
  {
    var ns' := AdoptNodes(ns, KidsOf(rec), |ns|) + [rec];
    var ls' := AdoptLeaves(ls, KidsOf(rec), |ns|);
    AdoptChildrenEarlier(ns, ls, rec);
    AdoptPlayersExist(ps, ns, ls, rec);
    AdoptParentsList(ns, ls, rec);
    forall i, k | 0 <= i < |ns'| && 0 <= k < |KidsOf(ns'[i])|
      ensures var p := ParentOf(ns', ls', KidsOf(ns'[i])[k]); p.Some? && i <= p.value
    {
      AdoptParentAt(ns, ls, rec, i, k);
    }
  }

  lemma AdoptChildrenEarlier(ns: seq<NodeRec>, ls: seq<LeafRec>, rec: NodeRec)
    requires ChildrenEarlier(ns, |ls|)
    requires forall k :: 0 <= k < |KidsOf(rec)| ==> EntityExists(KidsOf(rec)[k], |ns|, |ls|)
    ensures ChildrenEarlier(AdoptNodes(ns, KidsOf(rec), |ns|) + [rec], |AdoptLeaves(ls, KidsOf(rec), |ns|)|)
  {
    var ns' := AdoptNodes(ns, KidsOf(rec), |ns|) + [rec];
    assert forall i :: 0 <= i < |ns| ==> KidsOf(ns'[i]) == KidsOf(ns[i]);
  }

  lemma AdoptPlayersExist(ps: seq<PlayerRec>, ns: seq<NodeRec>, ls: seq<LeafRec>, rec: NodeRec)
    requires PlayersExist(ps, ns, ls)
    requires rec.player.IsPlayer? ==> rec.player.p < |ps|
    ensures PlayersExist(ps, AdoptNodes(ns, KidsOf(rec), |ns|) + [rec], AdoptLeaves(ls, KidsOf(rec), |ns|))
  {
    var ns' := AdoptNodes(ns, KidsOf(rec), |ns|) + [rec];
    var ls' := AdoptLeaves(ls, KidsOf(rec), |ns|);
    assert forall i :: 0 <= i < |ns| ==> ns'[i].player == ns[i].player;
    assert forall l :: 0 <= l < |ls| ==> ls'[l].players == ls[l].players;
  }

  /** After adoption, the k-th child of node i still has a parent no
      earlier than i. */
  lemma AdoptParentAt(ns: seq<NodeRec>, ls: seq<LeafRec>, rec: NodeRec, i: nat, k: nat)
    requires ChildrenEarlier(ns, |ls|) && ChildrenAdopted(ns, ls)
    requires forall k :: 0 <= k < |KidsOf(rec)| ==> EntityExists(KidsOf(rec)[k], |ns|, |ls|)
    requires i <= |ns|
    requires k < |KidsOf((AdoptNodes(ns, KidsOf(rec), |ns|) + [rec])[i])|
    ensures
      var ns', ls' := AdoptNodes(ns, KidsOf(rec), |ns|) + [rec], AdoptLeaves(ls, KidsOf(rec), |ns|);
      var c := KidsOf(ns'[i])[k];
      EntityExists(c, |ns'|, |ls'|) && var p := ParentOf(ns', ls', c); p.Some? && i <= p.value
  {
    var j := |ns|;
    var kids := KidsOf(rec);
    var ns' := AdoptNodes(ns, kids, j) + [rec];
    var ls' := AdoptLeaves(ls, kids, j);
    if i < j {
      assert ns'[i] == AdoptNodes(ns, kids, j)[i];
      assert KidsOf(ns'[i]) == KidsOf(ns[i]);
      var c := KidsOf(ns[i])[k];
      assert EntityExists(c, i, |ls|);
      if c !in kids {
        assert ParentOf(ns', ls', c) == ParentOf(ns, ls, c);
      }
    } else {
      assert ns'[i] == rec;
    }
  }

  lemma AdoptParentsList(ns: seq<NodeRec>, ls: seq<LeafRec>, rec: NodeRec)
    requires ParentsList(ns, ls) && rec.parent.None?
    ensures ParentsList(AdoptNodes(ns, KidsOf(rec), |ns|) + [rec], AdoptLeaves(ls, KidsOf(rec), |ns|))
  {
    var j := |ns|;
    var kids := KidsOf(rec);
    var ns' := AdoptNodes(ns, kids, j) + [rec];
    var ls' := AdoptLeaves(ls, kids, j);
    assert forall i :: 0 <= i < j ==> KidsOf(ns'[i]) == KidsOf(ns[i]);
    forall i | 0 <= i < |ns'| && ns'[i].parent.Some?
      ensures i < ns'[i].parent.value < |ns'| && NodeRef(i) in KidsOf(ns'[ns'[i].parent.value])
    {
      if NodeRef(i) !in kids {
        assert ns'[i] == ns[i];
      }
    }
    forall l | 0 <= l < |ls'| && ls'[l].parent.Some?
      ensures ls'[l].parent.value < |ns'| && LeafRef(l) in KidsOf(ns'[ls'[l].parent.value])
    {
      if LeafRef(l) !in kids {
        assert ls'[l] == ls[l];
      }
    }
  }
}
