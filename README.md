# Game theory in Sage: a verified Dafny model

This project models the sequential core of Sage's game-theory package and the
cyclotomic-coset routine of its commutative rings, and proves properties of
that model in Dafny.

- **Extensive-form games** (`src/sage/game_theory/extensive_form_game.py`).
  - Players, nodes and leaves live in an `Arena` class (`efg_entities.dfy`). Nodes and leaves are records indexed by number, and a node's children refer to earlier records.
  - Tree growth (`efg_tree.dfy`) is the worklist walk of `_grow_tree_dictionary` and the tree test of `_grow_tree`. The test is stated as our own predicate: every vertex is connected to the root, and there is one edge fewer than vertices. `_is_complete` is the predicate `Complete`, and `_player_check` is `PlayerOk`.
  - Default naming and player collection (`efg_naming.dfy`) is modelled as a loop over a node order.
  - The information-set partition (`efg_infosets.dfy`) is a specification of what `set_info_set`, `remove_info_set` and `perfect_info` do, with lemmas about it.
  - The `ExtensiveFormGame` class (`efg_game.dfy`) holds the mutable `info_sets` list and the construction from a root node.
  - Gambit conversion (`gambit_bridge.dfy`) is reduced to its pure label and index logic: blank-action renaming, the child-index lookup, the generation layering and its deepest-first conversion order, and the missing-outcome error.
- **Solver-output parsing** (`src/sage/game_theory/parser.py`, `parser.dfy`): `format_gambit`, `format_gambit_efg_tree` and `format_lrs`. Probabilities are opaque values of a type parameter `V`, and `sage_eval` is a function parameter.
- **Cyclotomic cosets** (`src/sage/categories/commutative_rings.py`, `cyclotomic.dfy`): the orbits of x ↦ q·x in Z/nZ.
- **Normal-form catalog** (`src/sage/game_theory/catalog.py`, `catalog.dfy`): the payoff guards and matrix layouts, with each game's pure equilibria stated as predicates on the matrices.
- **Shared modules:**
  - `seqs.dfy`: sequence helpers;
  - `sorting.dfy`: Python's stable `sorted` as insertion sort, with permutation, sortedness, stability and uniqueness lemmas;
  - `strings.dfy`: Python's string order, `"%i" % n` and `str.split()`;
  - `wrappers.dfy`: Option and Result.

**Exceptions.** A Python exception becomes a `Failure` (or `Fail`) value that names the exception's cause. Where the source raises before any mutation, the model proves that nothing changed.

**Code versus documentation.** `AntiCoordinationGame`'s docstring (catalog.py:346) says the inequalities are A > B, D > C, a > c and d > b. The code (catalog.py:353) requires A < B, D < C, a < c and d < b. The model follows the code.

## Model

| member | source | states |
|---|---|---|
| EfgEntities.Labels | src/sage/game_theory/extensive_form_game.py:2820 | a node built from a dictionary has the keys as its actions, in dictionary order |
| EfgEntities.Values | src/sage/game_theory/extensive_form_game.py:2821 | its children are the dictionary values, position for position with the actions |
| EfgEntities.AdoptNodes | src/sage/game_theory/extensive_form_game.py:2822-2823 | every child node gets the new node as parent; every other node is unchanged |
| EfgEntities.AdoptLeaves | src/sage/game_theory/extensive_form_game.py:2822-2823 | every child leaf gets the new node as parent; every other leaf is unchanged |
| EfgEntities.AdoptAll | src/sage/game_theory/extensive_form_game.py:2822-2823 | the loop `child.parent = self` ends with exactly the adopted node and leaf records |
| EfgEntities.Arena.NewPlayer | src/sage/game_theory/extensive_form_game.py:3165 | a new player with the given name is appended and nodes and leaves are unchanged |
| EfgEntities.Arena.NewNode | src/sage/game_theory/extensive_form_game.py:2811-2832 | input that is neither a dictionary nor a list fails with the TypeError and changes nothing; otherwise the node is appended (an empty list gives "no actions") and its children are adopted |
| EfgEntities.Arena.SetPlayer | src/sage/game_theory/extensive_form_game.py:3153-3158 | reassigning a node's player changes that field of that node and nothing else |
| EfgEntities.Complete | src/sage/game_theory/extensive_form_game.py:2911 | the definition of `_is_complete`: the parent is set, the action and child lists are non-empty, and the player is truthy: an `EFG_Player`, or another object whose Python truth value is true, so `False`, `None`, `0` and `''` all fail |
| EfgEntities.PlayerOk | src/sage/game_theory/extensive_form_game.py:2963-2965 | the definition of a passing `_player_check`: the player is unset (`False`) or an `EFG_Player`, never another object |
| EfgEntities.NonPlayerChecks | src/sage/game_theory/extensive_form_game.py:1882-1887 | a falsy non-player object fails the completeness check, which the walk runs first; a truthy one passes it, given the other attributes, and then fails the player check |
| EfgEntities.NameLeTotalPreorder | src/sage/game_theory/extensive_form_game.py:3013 | ordering by name, with unset names first, is total and transitive, as sorting requires |
| EfgEntities.LeafFromPayoffs | src/sage/game_theory/extensive_form_game.py:3008-3027 | errors come in the source's order: not a dictionary, a key without a name, a non-numeric utility, a key that is not a player. It succeeds exactly when none applies; then the players are the keys sorted by name and the utilities are their payoffs in that order |
| EfgEntities.Arena.NewLeaf | src/sage/game_theory/extensive_form_game.py:3008-3027 | a rejected payoff dictionary adds nothing; an accepted one appends a parentless leaf with those players and utilities |
| EfgEntities.CountLeaves | src/sage/game_theory/extensive_form_game.py:2941-2944 | the leaf count is at most the number of children and equals it exactly when every child is a leaf |
| EfgEntities.TerminalAsWritten | src/sage/game_theory/extensive_form_game.py:2945 | the as-written terminal test: the leaf count and the number of children are the same integer object, which holds only for equal values in CPython's shared range -5 to 256 |
| EfgEntities.Arena.IsTerminal | src/sage/game_theory/extensive_form_game.py:2941-2948 | iterating children that are `False` fails with the TypeError; otherwise the answer is true exactly when every child is a leaf |
| EfgEntities.TerminalAsWrittenAgrees | src/sage/game_theory/extensive_form_game.py:2945 | with at most 256 children, the identity test `is` gives the intended answer |
| EfgEntities.TerminalAsWrittenMisses | src/sage/game_theory/extensive_form_game.py:2945 | a node whose 257 children are all leaves fails the identity test |
| EfgTree.MakeTreeDict | src/sage/game_theory/extensive_form_game.py:1890-1892 | the dictionary maps exactly the given nodes to their children, and its key list holds those nodes once each, sorted by name |
| EfgTree.GrowTreeDictionary | src/sage/game_theory/extensive_form_game.py:1877-1892 | succeeds exactly when every node below the root is complete and has a valid player; a failure names a node that breaks the check it reports; success gives the root and every node below it, each mapped to its children |
| EfgTree.PushChildren | src/sage/game_theory/extensive_form_game.py:1881-1888 | looking through one node's children either finds a justified error or pushes every child node and records every child |
| EfgTree.WalkDone | src/sage/game_theory/extensive_form_game.py:1879-1888 | once the worklist is empty, every node reachable from the root has been expanded and checked |
| EfgTree.KeysAreReached | src/sage/game_theory/extensive_form_game.py:1890-1891 | the dictionary's keys are the root and the nodes recorded as children, which are the nodes below the root |
| EfgTree.GrownKey | src/sage/game_theory/extensive_form_game.py:1892 | a node is listed exactly when it is reachable from the root |
| EfgTree.GrownConnected | src/sage/game_theory/extensive_form_game.py:1828 | the graph built from the dictionary joins every vertex to the root |
| EfgTree.TreeTest | src/sage/game_theory/extensive_form_game.py:1829 | the definition of the tree test on the built graph: one edge fewer than vertices |
| EfgTree.TreeTestDistinct | src/sage/game_theory/extensive_form_game.py:1829 | the count test edges + 1 = vertices holds exactly when no child is listed twice |
| EfgTree.EdgesDistinctOneParent | src/sage/game_theory/extensive_form_game.py:1829 | no child is listed twice exactly when no node or leaf below the root has two parents or two places under one parent |
| EfgTree.GrowTree | src/sage/game_theory/extensive_form_game.py:1827-1832 | succeeds exactly when the checks of the walk pass and every entity has one parent; a failure is either a justified error of the walk or "not a tree" with the walk's checks passed and some entity under two parents; success gives a connected graph that passes the tree test |
| EfgNaming.NameNodeStep | src/sage/game_theory/extensive_form_game.py:2076-2082 | one node's player step and name step agree with the specification of one visit |
| EfgNaming.NameLeafChildren | src/sage/game_theory/extensive_form_game.py:2083-2089 | the inner loop lists every leaf child and names the unnamed ones, as the specification of the children's visit says |
| EfgNaming.NameEntities | src/sage/game_theory/extensive_form_game.py:2072-2089 | the loop changes only names, and the names, the player list and the leaf list equal those of the specification `VisitAll` |
| EfgNaming.VisitAllNodes | src/sage/game_theory/extensive_form_game.py:2078-2082 | named nodes keep their names; an unnamed root becomes "Tree Root"; the k-th other unnamed node in traversal order becomes "Node k" |
| EfgNaming.VisitAllLeaves | src/sage/game_theory/extensive_form_game.py:2083-2089 | the leaf list has one entry per visit of a leaf child, in order; named leaves keep their names; the k-th unnamed leaf to be first visited becomes "Leaf k" |
| EfgNaming.FirstVisitNamed | src/sage/game_theory/extensive_form_game.py:2084-2086 | at its first visit an unnamed leaf takes the next default leaf name |
| EfgNaming.VisitAllPlayers | src/sage/game_theory/extensive_form_game.py:2076-2077 | each node's player is collected once, in the order the players are first met |
| EfgNaming.AllVisitedNamed | src/sage/game_theory/extensive_form_game.py:2072-2089 | after the loop every visited node and leaf has a name |
| EfgNaming.DefaultNodeNamesDistinct | src/sage/game_theory/extensive_form_game.py:2080-2082 | two different unnamed nodes end with different names |
| EfgNaming.DefaultLeafNamesDistinct | src/sage/game_theory/extensive_form_game.py:2083-2086 | two different unnamed visited leaves end with different names |
| EfgNaming.RenameKeepsArenaOk | src/sage/game_theory/extensive_form_game.py:2078-2086 | changing only names keeps the arena's structure invariant |
| EfgInfoSets.CheckPlayers | src/sage/game_theory/extensive_form_game.py:1596 | the set of players has one element exactly when the list is non-empty and all its nodes have the same player |
| EfgInfoSets.SortedLabelsEqual | src/sage/game_theory/extensive_form_game.py:1598 | two sorted action tuples are equal exactly when the action lists are equal as multisets |
| EfgInfoSets.CheckActions | src/sage/game_theory/extensive_form_game.py:1598 | the set of sorted action tuples has one element exactly when all nodes have the same actions up to order |
| EfgInfoSets.SetInfoSetCheck | src/sage/game_theory/extensive_form_game.py:1596-1599 | the definition of the checks `set_info_set` runs before changing anything: the listed nodes must share one player, every one must have actions, and their action sets must agree up to order, tested in that order |
| EfgInfoSets.SetInfoSetCheckMeaning | src/sage/game_theory/extensive_form_game.py:1596-1599 | each error happens exactly when its condition holds, in order (different players, actions not iterable, different actions); the checks pass exactly when players and actions agree |
| EfgInfoSets.SetInfoSetSpec | src/sage/game_theory/extensive_form_game.py:1601-1611 | the reference definition of the groups after `set_info_set`: the groups that avoid the list, the list sorted by name, and a singleton for each node left ungrouped, all stably sorted by the name of their first member |
| EfgInfoSets.SetInfoSetMembers | src/sage/game_theory/extensive_form_game.py:1601-1609 | the new groups are the old groups that avoid the list, the list sorted by name, and a singleton for each node that no group then holds |
| EfgInfoSets.SetInfoSetGroup | src/sage/game_theory/extensive_form_game.py:1605 | the listed nodes form one of the groups, sorted by name and with the same members |
| EfgInfoSets.SetInfoSetGroupOnly | src/sage/game_theory/extensive_form_game.py:1601-1605 | any group that holds a listed node is the new group |
| EfgInfoSets.SetInfoSetSorted | src/sage/game_theory/extensive_form_game.py:1611 | the groups are sorted by their first member's name |
| EfgInfoSets.SetInfoSetCovers | src/sage/game_theory/extensive_form_game.py:1607-1609 | every node of the game lies in some group |
| EfgInfoSets.SetInfoSetKeeps | src/sage/game_theory/extensive_form_game.py:1601-1604 | every old group disjoint from the list is kept |
| EfgInfoSets.SetInfoSetSplits | src/sage/game_theory/extensive_form_game.py:1601-1609 | an unlisted member of a broken-up group becomes a singleton |
| EfgInfoSets.SetInfoSetDistinct | src/sage/game_theory/extensive_form_game.py:1601-1611 | starting from a partition, no group appears twice |
| EfgInfoSets.SetInfoSetPartition | src/sage/game_theory/extensive_form_game.py:1601-1611 | for a list of distinct nodes of the game, a partition of the nodes stays a partition |
| EfgInfoSets.SetInfoSetWithin | src/sage/game_theory/extensive_form_game.py:1601-1611 | groups stay non-empty and made of nodes of the arena |
| EfgInfoSets.SetInfoSetEndsPerfectInfo | src/sage/game_theory/extensive_form_game.py:1605 | grouping two or more nodes loses perfect information |
| EfgInfoSets.RemoveInfoSetSpec | src/sage/game_theory/extensive_form_game.py:1645-1648 | the reference definition of the groups after `remove_info_set(g)` for a current group g: the other groups plus a singleton for each member of g, stably sorted by the name of their first member |
| EfgInfoSets.RemoveInfoSetMembers | src/sage/game_theory/extensive_form_game.py:1645-1647 | the new groups are the old ones other than the removed group, plus a singleton for each of its members |
| EfgInfoSets.RemoveInfoSetSorted | src/sage/game_theory/extensive_form_game.py:1648 | the groups are sorted by their first member's name |
| EfgInfoSets.RemoveInfoSetCovers | src/sage/game_theory/extensive_form_game.py:1645-1647 | no node loses its group |
| EfgInfoSets.RemoveInfoSetExact | src/sage/game_theory/extensive_form_game.py:1645-1648 | starting from a partition, the groups hold exactly the game's nodes |
| EfgInfoSets.RemoveInfoSetDistinct | src/sage/game_theory/extensive_form_game.py:1645-1648 | starting from a partition, no group appears twice |
| EfgInfoSets.RemoveInfoSetPartition | src/sage/game_theory/extensive_form_game.py:1645-1648 | a partition stays a partition |
| EfgInfoSets.RemoveAfterSet | src/sage/game_theory/extensive_form_game.py:1645-1648 | from perfect information, setting a group and then removing it gives perfect information again, still a partition |
| EfgInfoSets.PerfectInfo | src/sage/game_theory/extensive_form_game.py:1652-1654 | the documented meaning of perfect information: every group holds exactly one node |
| EfgInfoSets.PerfectInfoAsWritten | src/sage/game_theory/extensive_form_game.py:1678-1680 | the as-written `perfect_info` test: the groups equal the name-sorted list of the singletons of the nodes |
| EfgInfoSets.PerfectInfoAsWrittenSound | src/sage/game_theory/extensive_form_game.py:1678-1680 | when `perfect_info` answers true, every group is a singleton |
| EfgInfoSets.SingletonPartition | src/sage/game_theory/extensive_form_game.py:1678-1679 | a partition into singletons has the same groups as the singletons of the nodes |
| EfgInfoSets.PerfectInfoAsWrittenAgrees | src/sage/game_theory/extensive_form_game.py:1678-1680 | on a name-sorted partition with distinct names, `perfect_info` is true exactly when every group is a singleton |
| EfgInfoSets.PerfectInfoAsWrittenMeaning | src/sage/game_theory/extensive_form_game.py:1678-1680 | both directions above in one statement |
| EfgInfoSets.PerfectInfoAsWrittenMisses | src/sage/game_theory/extensive_form_game.py:1678-1680 | two nodes with the same name: after `set_info_set` and `remove_info_set`, every group is a singleton and yet `perfect_info` answers false |
| EfgInfoSets.InitialPartition | src/sage/game_theory/extensive_form_game.py:713 | the initial groups, one singleton per node, form a partition with perfect information |
| EfgInfoSets.InitialInfoSets | src/sage/game_theory/extensive_form_game.py:721 | once sorted by first name, the initial groups are a sorted partition with perfect information, on which `perfect_info` is true when names are distinct |
| EfgInfoSets.PerfectInfoGraph | src/sage/game_theory/extensive_form_game.py:1960-1968 | with perfect information, one singleton leads to another exactly when the second node is a child of the first |
| EfgGame.RemoveHolding | src/sage/game_theory/extensive_form_game.py:1602-1604 | removing every group that holds a node leaves exactly the groups without it, in order |
| EfgGame.RemoveTouching | src/sage/game_theory/extensive_form_game.py:1601-1604 | removing, node by node, every group that holds a listed node leaves exactly the groups that avoid the list |
| EfgGame.AddLoose | src/sage/game_theory/extensive_form_game.py:1607-1609 | a singleton is appended for each node that no group holds, in node order |
| EfgGame.AddSingletons | src/sage/game_theory/extensive_form_game.py:1646-1647 | a singleton is appended for each member of the removed group |
| EfgGame.SetGroups | src/sage/game_theory/extensive_form_game.py:1601-1611 | the in-place steps of `set_info_set` produce the specified groups |
| EfgGame.SetInfoSetPreserves | src/sage/game_theory/extensive_form_game.py:1601-1611 | the game's invariant and the partition carry over `set_info_set` |
| EfgGame.RemoveGroup | src/sage/game_theory/extensive_form_game.py:1645-1648 | the in-place steps of `remove_info_set` produce the specified groups |
| EfgGame.RemoveInfoSetPreserves | src/sage/game_theory/extensive_form_game.py:1645-1648 | the game's invariant and the partition carry over `remove_info_set` |
| EfgGame.GraphRow | src/sage/game_theory/extensive_form_game.py:1962-1967 | one group's row is its successors in group order, written only when it has one |
| EfgGame.InfoSetGraphDictionary | src/sage/game_theory/extensive_form_game.py:1960-1968 | the keys are exactly the groups with a successor; each maps to the other groups that one of its nodes has a child in, in group order |
| EfgGame.Game.SetInfoSet | src/sage/game_theory/extensive_form_game.py:1596-1611 | the result is the check's verdict; a failure changes nothing; a success gives the specified groups and keeps the partition; no other field changes |
| EfgGame.Game.RemoveInfoSet | src/sage/game_theory/extensive_form_game.py:1645-1648 | fails with the ValueError of `list.remove` exactly when the list is not a current group, changing nothing; otherwise gives the specified groups and keeps the partition |
| EfgGame.Game.PerfectInformation | src/sage/game_theory/extensive_form_game.py:1678-1680 | a true answer means every group is a singleton; on a name-sorted partition with distinct names the answer is exact |
| EfgGame.Game.InfoSetGraph | src/sage/game_theory/extensive_form_game.py:2016-2017 | the graph's edges run from each group to its successors |
| EfgGame.BuildGame | src/sage/game_theory/extensive_form_game.py:710-721 | names are assigned as specified, and players, nodes and leaves are sorted by name; the groups start as a name-sorted partition into singletons |
| EfgGame.NewGame | src/sage/game_theory/extensive_form_game.py:702-721 | the root checks fail in order (no actions, no children, no player); otherwise it succeeds exactly when the tree grows, and then gives the named, sorted game with perfect information and the tree dictionary of the nodes reachable from the root |
| GambitBridge.ChildIndex | src/sage/game_theory/extensive_form_game.py:2477-2481 | an entity without a parent fails; otherwise the result is the last position at which the parent lists the entity |
| GambitBridge.ChildIndexUnique | src/sage/game_theory/extensive_form_game.py:2478-2481 | when no child is listed twice, the matching position is unique |
| GambitBridge.Renamed | src/sage/game_theory/extensive_form_game.py:1174-1181 | the reference definition of the relabelling: the k-th blank label, counting from 1, becomes "Action k", the other labels are kept, and the length is unchanged |
| GambitBridge.RenamedIndex | src/sage/game_theory/extensive_form_game.py:1177-1180 | a blank label at position i becomes "Action k", where k is 1 plus the number of blanks before i; other labels are kept |
| GambitBridge.NoBlankLeft | src/sage/game_theory/extensive_form_game.py:1178-1179 | no label is blank afterwards |
| GambitBridge.NoBlanksRenamedSame | src/sage/game_theory/extensive_form_game.py:1178 | labels without blanks are left as they are |
| GambitBridge.RenamedIdempotent | src/sage/game_theory/extensive_form_game.py:1174-1181 | renaming twice is the same as renaming once |
| GambitBridge.RenamedFreshDistinct | src/sage/game_theory/extensive_form_game.py:1178-1180 | two blank labels get different names |
| GambitBridge.RenameBlankActions | src/sage/game_theory/extensive_form_game.py:1174-1181 | the labels array is renamed in place as specified |
| GambitBridge.LayerMember | src/sage/game_theory/extensive_form_game.py:1083-1094 | generation k holds exactly the nodes at depth k |
| GambitBridge.LayerDistinct | src/sage/game_theory/extensive_form_game.py:1087-1090 | no node appears twice in a generation |
| GambitBridge.LayerEmpty | src/sage/game_theory/extensive_form_game.py:1091-1094 | a generation is empty exactly when it lies beyond the tree's height, where the loop stops |
| GambitBridge.NextGeneration | src/sage/game_theory/extensive_form_game.py:1087-1090 | the next list is the current generation's children, in order |
| GambitBridge.GenerationLayers | src/sage/game_theory/extensive_form_game.py:1083-1094 | the loop builds the list of all generations |
| GambitBridge.GenerationsLayered | src/sage/game_theory/extensive_form_game.py:1083-1094 | that list has one entry per depth, and entry k is generation k |
| GambitBridge.ConversionOrder | src/sage/game_theory/extensive_form_game.py:1096-1104 | the reference definition of the conversion order: generation by generation, from the deepest to the root |
| GambitBridge.ConversionOrderMembers | src/sage/game_theory/extensive_form_game.py:1096-1104 | every node of the tree is converted |
| GambitBridge.ConversionOrderDistinct | src/sage/game_theory/extensive_form_game.py:1096-1104 | no node is converted twice |
| GambitBridge.ChildrenConvertedFirst | src/sage/game_theory/extensive_form_game.py:1096-1104 | every child is converted before its parent |
| GambitBridge.RootConvertedLast | src/sage/game_theory/extensive_form_game.py:1096-1100 | the root is converted last |
| GambitBridge.ConvertGeneration | src/sage/game_theory/extensive_form_game.py:1101-1104 | converting one generation either meets a terminal node without an outcome or converts the whole generation |
| GambitBridge.ConvertTree | src/sage/game_theory/extensive_form_game.py:1096-1104 | fails with the missing-outcome AttributeError of lines 1255-1257 exactly when some terminal node has no outcome; otherwise converts the nodes deepest generation first |
| Parser.SplitAsWritten | src/sage/game_theory/parser.py:311-314 | the as-written split: one tuple per player, player 0 taking the first `counts[0]` entries and every later tuple starting at the length of the tuple before it |
| Parser.SplitByPlayer | src/sage/game_theory/parser.py:311-314 | the intended split: one tuple per player, each starting where the earlier players' counts end |
| Parser.SplitAsWrittenFirst | src/sage/game_theory/parser.py:311 | player 0 gets the first `len(strategies)` entries |
| Parser.SplitAsWrittenTwoPlayers | src/sage/game_theory/parser.py:311-314 | with at most two players the code's split is the contiguous one |
| Parser.SplitAsWrittenThreePlayers | src/sage/game_theory/parser.py:313-314 | three players with one strategy each: profile [1, 2, 3] is cut into [1], [2], [2] |
| Parser.SplitByPlayerThreePlayers | src/sage/game_theory/parser.py:313-314 | the contiguous split gives [1], [2], [3] for that profile |
| Parser.SplitByPlayerTiles | src/sage/game_theory/parser.py:311-314 | in the contiguous split each player's tuple has that player's strategy count, and the tuples laid end to end are the profile's prefix |
| Parser.FormatGambit | src/sage/game_theory/parser.py:308-317 | no players gives the IndexError exactly when there is a profile; otherwise each profile is split as the code splits it, which is the contiguous split for up to two players |
| Parser.ActionDictKeys | src/sage/game_theory/parser.py:597-598 | the action dictionary's keys are the action labels |
| Parser.ActionDictAt | src/sage/game_theory/parser.py:597-598 | an action label maps to the slice entry at its action index (for the last occurrence of a label) |
| Parser.AssignAt | src/sage/game_theory/parser.py:599-600 | every member maps to the action dictionary; other keys keep their values |
| Parser.AssignMembers | src/sage/game_theory/parser.py:599-600 | the member loop makes that assignment |
| Parser.ActionCountPrefix | src/sage/game_theory/parser.py:593-596 | the running offset before an information set plus its action count stays within the player's total count |
| Parser.TotalActionsPrefix | src/sage/game_theory/parser.py:589-596 | the offset carried across players stays within the total count |
| Parser.PlayerEntry | src/sage/game_theory/parser.py:591-602 | one player's dictionary fails with the IndexError exactly when a slice runs past the profile's end; otherwise it is the specified dictionary |
| Parser.PlayerDictKeys | src/sage/game_theory/parser.py:599-600 | a node label is a key exactly when it is a member of one of the player's information sets |
| Parser.PlayerDictAt | src/sage/game_theory/parser.py:591-600 | a member maps to the action dictionary of the last information set that lists it, cut at the running offset |
| Parser.MembersShareDict | src/sage/game_theory/parser.py:599-600 | the members of one information set map to the same action dictionary |
| Parser.ProfileEntry | src/sage/game_theory/parser.py:588-602 | one profile fails exactly when the total action count exceeds its length; otherwise there is one single-dictionary list per player, in order |
| Parser.ProfileDictsAt | src/sage/game_theory/parser.py:589-602 | player p's dictionary is cut at the offset equal to the action counts of the players before p |
| Parser.EfgTreeValue | src/sage/game_theory/parser.py:585-604 | member m of information set j of player p, under action i, holds the profile entry at offset (counts before p) + (counts before j) + i |
| Parser.FormatEfgTree | src/sage/game_theory/parser.py:585-604 | one entry per profile, in order; fails exactly when some profile is shorter than the total action count |
| Parser.GroupRuns | src/sage/game_theory/parser.py:195 | the definition of `groupby` over the lines: maximal runs of neighbouring lines of one kind, non-empty whenever there are lines |
| Parser.GroupRunsJoin | src/sage/game_theory/parser.py:195 | the groups laid end to end give back the lines |
| Parser.GroupRunsUniform | src/sage/game_theory/parser.py:195 | each group is non-empty and consists only of break lines or only of other lines |
| Parser.GroupRunsMaximal | src/sage/game_theory/parser.py:195 | neighbouring groups differ in kind, so every group is a maximal run |
| Parser.FieldsAt | src/sage/game_theory/parser.py:197 | a vector line keeps its whitespace-separated fields, evaluated, without the first and the last |
| Parser.AppendPairs | src/sage/game_theory/parser.py:198-200 | one pair `[s1, s2]` is appended per non-last line of the block, in order |
| Parser.CollectEquilibria | src/sage/game_theory/parser.py:195-200 | the loop over blocks collects every block's pairs, in order |
| Parser.FormatLrs | src/sage/game_theory/parser.py:192-202 | the equilibria are the pairs of the blocks of the output after its 7 header lines |
| Parser.PairsHas | src/sage/game_theory/parser.py:198-200 | every non-last line gives a pair with the last line's vector |
| Parser.PairsSource | src/sage/game_theory/parser.py:198-200 | every pair comes from one such line |
| Parser.BlocksHas | src/sage/game_theory/parser.py:195-200 | every block's pairs are among the equilibria |
| Parser.BlocksSource | src/sage/game_theory/parser.py:195-200 | every equilibrium comes from one block |
| Parser.LrsEquilibria | src/sage/game_theory/parser.py:192-202 | the reference definition of the equilibria `format_lrs` returns: the pairs of every block of the output after its 7 header lines |
| Parser.LrsEquilibriaHas | src/sage/game_theory/parser.py:195-200 | each non-last line of a block whose first line starts with '2' gives an equilibrium |
| Parser.LrsEquilibriaSource | src/sage/game_theory/parser.py:195-200 | every equilibrium comes from a non-last line of such a block, paired with that block's last line |
| Parser.LrsDocExample | src/sage/game_theory/parser.py:155-165 | the documented lrs output gives exactly the two documented equilibria |
| Cyclotomic.Invertible | src/sage/categories/commutative_rings.py:157-159 | the definition of `~q` succeeding: some residue y has q·y = 1 in Z/nZ |
| Cyclotomic.Start | src/sage/categories/commutative_rings.py:161-164 | the definition of the starting set `rest`: all of Z/nZ without `cosets`, the given elements reduced mod n otherwise; either way only residues |
| Cyclotomic.StepInjective | src/sage/categories/commutative_rings.py:154-159 | multiplication by an invertible q is injective on Z/nZ |
| Cyclotomic.IterPow | src/sage/categories/commutative_rings.py:169-174 | after k multiplications x becomes x·q^k mod n |
| Cyclotomic.PeriodExists | src/sage/categories/commutative_rings.py:171 | for invertible q the inner loop returns to x0 within n steps, so it ends |
| Cyclotomic.Period | src/sage/categories/commutative_rings.py:171-174 | the first return to x0 comes at a step between 1 and n |
| Cyclotomic.Orbit | src/sage/categories/commutative_rings.py:169-174 | the orbit lists x0, x0·q, … up to the first return |
| Cyclotomic.OrbitDistinct | src/sage/categories/commutative_rings.py:169-174 | an orbit has no repeats and consists of residues |
| Cyclotomic.OrbitIsPowers | src/sage/categories/commutative_rings.py:169-174 | the orbit of x0 is the set of all x0·q^k |
| Cyclotomic.OrbitClosed | src/sage/categories/commutative_rings.py:169-174 | an orbit is closed under multiplication by q |
| Cyclotomic.OrbitsMeet | src/sage/categories/commutative_rings.py:168-174 | two orbits that share an element are the same set |
| Cyclotomic.ZeroOrbit | src/sage/categories/commutative_rings.py:96-97 | the orbit of 0 is [0] |
| Cyclotomic.TraceOrbit | src/sage/categories/commutative_rings.py:168-174 | the inner loop builds the orbit of x0 and discards its elements from `rest` |
| Cyclotomic.SortedOrbit | src/sage/categories/commutative_rings.py:175 | the sorted orbit is ascending, without repeats, and has the same elements |
| Cyclotomic.FinishCosets | src/sage/categories/commutative_rings.py:178 | sorting the collected orbits gives the specified result |
| Cyclotomic.CyclotomicCosets | src/sage/categories/commutative_rings.py:154-179 | fails with the ValueError exactly when q is not invertible; otherwise it returns the sorted list of the distinct sorted orbits that meet the start set, covering it |
| Cyclotomic.CosetsUnique | src/sage/categories/commutative_rings.py:166-179 | the result does not depend on the order in which `rest.pop()` picks elements |
| Cyclotomic.CosetsAreOrbits | src/sage/categories/commutative_rings.py:168-174 | each coset is closed under q and equals {x0·q^k} for one element x0 of the start set |
| Cyclotomic.CosetsPartitionRing | src/sage/categories/commutative_rings.py:161-177 | without `cosets`, the cosets are disjoint and cover every element of the ring |
| Cyclotomic.CosetsExclusive | src/sage/categories/commutative_rings.py:166-177 | no element lies in two cosets |
| Cyclotomic.CosetsMeetGiven | src/sage/categories/commutative_rings.py:163-177 | with `cosets` given, every coset holds one of the given elements |
| Cyclotomic.GivenInOneCoset | src/sage/categories/commutative_rings.py:163-177 | with `cosets` given, every given element lies in exactly one coset |
| Cyclotomic.ZeroCosetFirst | src/sage/categories/commutative_rings.py:96-99 | when 0 is among the start elements, the first coset is [0] |
| Cyclotomic.Invertible26 | src/sage/categories/commutative_rings.py:123 | 3 is invertible in Z/26Z |
| Cyclotomic.Example26 | src/sage/categories/commutative_rings.py:123-124 | Zmod(26) with q = 3 and cosets = [1] gives [[1, 3, 9]] |
| Catalog.PrisonersDilemma | src/sage/game_theory/catalog.py:96-99 | fails exactly unless T > R > P > S; otherwise player 1's matrix is [[R, S], [T, P]] and player 2's is its transpose |
| Catalog.PrisonersDilemmaDilemma | src/sage/game_theory/catalog.py:72-73 | defecting strictly dominates for both players, mutual defection is the only pure equilibrium, and mutual cooperation pays both more |
| Catalog.PrisonersDilemmaDefaults | src/sage/game_theory/catalog.py:16 | the default arguments R = -2, P = -4, S = -5, T = 0 pass the guard and give [[-2, -5], [0, -4]] and its transpose |
| Catalog.CoordinationGame | src/sage/game_theory/catalog.py:176-179 | fails exactly unless A > B, D > C, a > c and d > b; otherwise the matrices are [[A, C], [B, D]] and [[a, c], [b, d]] |
| Catalog.CoordinationEquilibria | src/sage/game_theory/catalog.py:152-153 | the guard holds exactly when both matching profiles are strict equilibria, and then neither mismatched profile is an equilibrium |
| Catalog.CoordinationGameDefaults | src/sage/game_theory/catalog.py:104 | the default arguments A = 10, a = 5, B = b = C = c = 0, D = 5, d = 10 pass the guard, and both matching profiles are strict equilibria |
| Catalog.AntiCoordinationGame | src/sage/game_theory/catalog.py:353-356 | fails exactly unless A < B, D < C, a < c and d < b; otherwise the matrices are as for coordination |
| Catalog.AntiCoordinationEquilibria | src/sage/game_theory/catalog.py:335-336 | the guard holds exactly when both mismatched profiles are strict equilibria, and then neither matching profile is an equilibrium |
| Catalog.AntiCoordinationGameDefaults | src/sage/game_theory/catalog.py:287 | the default arguments A = a = 3, B = 5, b = C = 1, c = 5, D = d = 0 pass the guard, and both mismatched profiles are strict equilibria |
| Catalog.BattleOfTheSexes | src/sage/game_theory/catalog.py:230 | the fixed arguments pass the guard, and both matching profiles are strict equilibria |
| Catalog.StagHunt | src/sage/game_theory/catalog.py:282 | the fixed arguments pass the guard, and both matching profiles are strict equilibria |
| Catalog.HawkDove | src/sage/game_theory/catalog.py:407 | the fixed arguments pass the guard, and both mismatched profiles are strict equilibria |
| Catalog.Chicken | src/sage/game_theory/catalog.py:635 | the fixed arguments pass the guard, and both mismatched profiles are strict equilibria |
| Catalog.Pigs | src/sage/game_theory/catalog.py:454-455 | the definition of the pigs' matrices [[4, 2], [6, 0]] and [[2, 3], [-1, 0]], a 2 by 2 game |
| Catalog.MatchingPennies | src/sage/game_theory/catalog.py:491-492 | the definition of matching pennies: the zero-sum game of [[1, -1], [-1, 1]], a 2 by 2 game |
| Catalog.RPS | src/sage/game_theory/catalog.py:534-535 | the definition of rock-paper-scissors: the zero-sum game of the 3 by 3 win/lose matrix |
| Catalog.RPSLS | src/sage/game_theory/catalog.py:587-592 | the definition of rock-paper-scissors-lizard-Spock: the zero-sum game of the 5 by 5 win/lose matrix |
| Catalog.PigsEquilibrium | src/sage/game_theory/catalog.py:451-456 | the only pure equilibrium is (0, 1) |
| Catalog.MatchingPenniesNoPureNash | src/sage/game_theory/catalog.py:488-492 | no profile is a pure equilibrium |
| Catalog.RPSNoPureNash | src/sage/game_theory/catalog.py:531-535 | no profile is a pure equilibrium |
| Catalog.RPSLSSkew | src/sage/game_theory/catalog.py:587-591 | the matrix is skew-symmetric and every off-diagonal entry decides |
| Catalog.RPSLSNoPureNash | src/sage/game_theory/catalog.py:584-592 | no profile is a pure equilibrium |
| Catalog.NoPureNashWhenBeaten | src/sage/game_theory/catalog.py:491-492 | in a zero-sum game with a skew-symmetric matrix where every off-diagonal entry decides and every strategy is beaten, no profile is a pure equilibrium |
| Catalog.TravellersDilemma | src/sage/game_theory/catalog.py:719-720 | an (m−1)×(m−1) game whose entry for claims m−i and m−j is min plus 2·sign of the difference, with player 2's matrix the transpose |
| Catalog.TravellersPayments | src/sage/game_theory/catalog.py:719 | equal claims are paid in full; the lower claimant gets the lower claim plus 2 and the higher claimant the lower claim minus 2 |
| Catalog.TravellersCorner | src/sage/game_theory/catalog.py:699 | the top-left entry is m and the one below it m + 1 (10 and 11 for the default m = 10) |
| Catalog.TravellersLeastIsNash | src/sage/game_theory/catalog.py:700-701 | both players claiming 2 is a pure equilibrium |
| Catalog.TravellersEquilibrium | src/sage/game_theory/catalog.py:700-701 | it is the only pure equilibrium |
| Catalog.TravellersDilemmaDefault | src/sage/game_theory/catalog.py:639 | the default max_value = 10 gives nine claims, and both claiming 2 is the only pure equilibrium |

## Left out

- Gambit itself: building gambit games, moves and outcomes in `_sage_to_gambit` and `_gambit_to_sage_create_node_or_leaf` (lines 1258-1264), plus `_gambit_to_sage_setup_info_sets`, `_gambit_to_sage_setup_attributes` and `_gambit_to_sage_check_node_names_for_renaming`. These are foreign-library calls. The gambit tree is an abstract datatype that records only whether a node has an outcome.
- `obtain_nash`, the LCP and lrs solvers, `NormalFormGame` and Sage's `matrix`: external solvers and library types. The catalog's equilibria are stated as pure-equilibrium predicates on the matrices instead.
- Plotting (`plot`, `plot_info_sets`) and `__repr__`/`__hash__` strings: graphics and display only.
- The dictionary-style methods of `EFG_Leaf`: trivial container access.
- Sage's `Graph`, `Graph.is_tree` and `DiGraph`: replaced by our own tree predicate and by a map from groups to successor lists.
- `_grow_player_tree_dictionary`: it returns an intermediate value and never builds its result.
- Floating point and Sage number types: utilities are `real`, and the leaf's numeric-type test is a per-value flag (`Num` or `NonNumeric`). The `float(utility)` conversion is not modelled.
- Parser probabilities are opaque values, and `sage_eval` is an uninterpreted function parameter (`eval`, or `read` for a whole line).
- Object identity:
  - players compare by identity (`EFG_Player` defines no equality);
  - `action.label is ''` is modelled as equality with the empty string;
  - `leaf_count is len(...)` is modelled by CPython's small-integer cache, which covers −5 to 256.
- Sort ties broken by object addresses: sorting nodes by `('name', 'parent')`, leaves by `('name', 'payoffs')`, and the naming order by `('parent', 'actions')`. Ties are kept in input order, and the naming order is the parameter `order`, any arrangement of the reachable nodes.
- Cycles created by reassigning `children` after construction: there the walk in `_grow_tree_dictionary` would not terminate. The arena lets a node's children refer only to records created before it.
- Catalog default arguments: Dafny functions take no defaults, so `PrisonersDilemma()`, `CoordinationGame()`, `AntiCoordinationGame()` and `TravellersDilemma()` with no arguments are the same functions applied to the documented values (catalog.py lines 16, 104, 287 and 639). Lemmas show these values pass the guards.
- Catalog payoffs: they are integers. The source's guards and `matrix(...)` also accept rationals and other ordered Sage numbers. Those payoffs are not modelled, because every documented game uses integers.
- Finite rings other than Z/nZ (the `GF(q^k)` examples): the ring is specialised to Z/nZ.
- EfgGame.NewGame: requires the root's player to be absent or an `EFG_Player`. The source does not run `_player_check` on the root, so its behaviour for any other root player is not modelled.
- EfgEntities.Arena.NewNode: requires every child to be a node or leaf already in the arena, and a given player to be a player of the arena. The source accepts any objects and fails later.
- EfgGame.Game.SetInfoSet: requires the listed nodes to be nodes of the arena. The partition is proved kept only when they are distinct nodes of the game, because a repeated or foreign node produces a group the source never intended.
- EfgGame.Game.InfoSetGraph: requires every grouped node to have a children list, which construction guarantees. The TypeError of iterating `False` is not modelled.

## Findings

| source | as written | input that shows it | evidently intended | confidence | as-written member | corrected member |
|---|---|---|---|---|---|---|
| src/sage/game_theory/extensive_form_game.py:2945 | `leaf_count is len(self.children)` compares integer objects by identity, which CPython shares only for small integers | a node with 257 children that are all leaves: `is_terminal()` returns False | `leaf_count == len(self.children)`: true exactly when every child is a leaf | not executed | EfgEntities.TerminalAsWrittenMisses | EfgEntities.Arena.IsTerminal |
| src/sage/game_theory/parser.py:313-314 | each later player's tuple starts at the length of the previous tuple, not at the running total | three players with one strategy each and profile [1, 2, 3]: the result is [(1,), (2,), (2,)] | offsets are running totals, giving [(1,), (2,), (3,)] | not executed | Parser.SplitAsWrittenThreePlayers | Parser.SplitByPlayerTiles |
| src/sage/game_theory/extensive_form_game.py:1678-1680 | `perfect_info` compares the groups with a freshly name-sorted list of singletons, so equal names in a different order compare unequal | two nodes 0 and 1 both named "X": `set_info_set([1, 0])` then `remove_info_set([1, 0])` leaves [[1], [0]], while the comparison list is [[0], [1]], so the answer is False | true exactly when every group is a singleton | not executed | EfgInfoSets.PerfectInfoAsWrittenMisses | EfgInfoSets.RemoveAfterSet |
