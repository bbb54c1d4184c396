/** Growing the game tree from its root (`_grow_tree_dictionary` and
    `_grow_tree`): a worklist walk that checks every node it reaches and
    collects each node's children, followed by a test that the collected
    graph is a tree. */
module EfgTree {
  import opened Wrappers
  import opened Seqs
  import opened Sorting
  import opened EfgEntities

  datatype GrowError =
    | NodeNotComplete   // AttributeError: a node in the tree is not complete
    | NotAPlayer        // TypeError: a node's player is not an EFG_Player
    | NotATree          // TypeError: the relationship is not a tree

  /** The dictionary `node -> node.children` and the name-sorted list of its keys. */
  datatype TreeDict = TreeDict(d: map<nat, seq<Entity>>, nodes: seq<nat>)

  /** The children of node n; nothing for an index outside the arena. */
  function KidsAt(ns: seq<NodeRec>, n: nat): seq<Entity>
  {
    if n < |ns| then KidsOf(ns[n]) else []
  }

  // ---------------------------------------------------------------------
  // Reachability along children.
  // ---------------------------------------------------------------------

  /** Node b is a, or lies below a child node of a. */
  ghost predicate Reaches(ns: seq<NodeRec>, a: nat, b: nat)
    decreases a
  {
    a < |ns| && b < |ns| &&
    (a == b || exists c: nat :: c < a && NodeRef(c) in KidsOf(ns[a]) && Reaches(ns, c, b))
  }

  /** The nodes strictly below the root. */
  ghost predicate Below(ns: seq<NodeRec>, root: nat, b: nat)
  {
    b != root && Reaches(ns, root, b)
  }

  /** Every node below the root passes `_is_complete` and `_player_check`. */
  ghost predicate AllReachedOk(ns: seq<NodeRec>, root: nat)
  {
    forall b: nat :: Below(ns, root, b) ==> Complete(ns[b]) && PlayerOk(ns[b])
  }

  lemma {:induction false} ReachesBounded(ns: seq<NodeRec>, a: nat, b: nat)
    requires Reaches(ns, a, b)
    ensures b <= a < |ns|
    decreases a
  {
    if a != b {
      var c: nat :| c < a && NodeRef(c) in KidsOf(ns[a]) && Reaches(ns, c, b);
      ReachesBounded(ns, c, b);
    }
  }

  /** A child node of a reached node is reached. */
  lemma {:induction false} ReachesChild(ns: seq<NodeRec>, a: nat, b: nat, c: nat)
    requires Reaches(ns, a, b) && c < b && NodeRef(c) in KidsOf(ns[b])
    ensures Reaches(ns, a, c)
    decreases a
  {
    if a == b {
      assert Reaches(ns, c, c);
    } else {
      var m: nat :| m < a && NodeRef(m) in KidsOf(ns[a]) && Reaches(ns, m, b);
      ReachesChild(ns, m, b, c);
    }
  }

  /** A set that holds a and every earlier child node of its members holds all that a reaches. */
  lemma {:induction false} ReachesClosed(ns: seq<NodeRec>, s: set<nat>, a: nat, b: nat)
    requires a in s && Reaches(ns, a, b) && Closed(ns, s, [])
    ensures b in s
    decreases a
  {
    if a != b {
      var c: nat :| c < a && NodeRef(c) in KidsOf(ns[a]) && Reaches(ns, c, b);
      ReachesClosed(ns, s, c, b);
    }
  }

  /** A node below a is a child node of some node a reaches. */
  lemma {:induction false} ReachesParent(ns: seq<NodeRec>, a: nat, b: nat)
    requires Reaches(ns, a, b) && a != b
    ensures exists p: nat :: Reaches(ns, a, p) && b < p && NodeRef(b) in KidsOf(ns[p])
    decreases a
  {
    var c: nat :| c < a && NodeRef(c) in KidsOf(ns[a]) && Reaches(ns, c, b);
    assert Reaches(ns, a, a);
    if c == b {
      assert Reaches(ns, a, a) && b < a && NodeRef(b) in KidsOf(ns[a]);
    } else {
      ReachesParent(ns, c, b);
      var p: nat :| Reaches(ns, c, p) && b < p && NodeRef(b) in KidsOf(ns[p]);
      ReachesTrans(ns, a, c, p);
    }
  }

  lemma {:induction false} ReachesTrans(ns: seq<NodeRec>, a: nat, b: nat, c: nat)
    requires Reaches(ns, a, b) && Reaches(ns, b, c)
    ensures Reaches(ns, a, c)
    decreases a
  {
    if a != b {
      var m: nat :| m < a && NodeRef(m) in KidsOf(ns[a]) && Reaches(ns, m, b);
      ReachesTrans(ns, m, b, c);
    }
  }

  // ---------------------------------------------------------------------
  // Termination weight of the worklist: the number of paths down from a node.
  // ---------------------------------------------------------------------

  function Weight(ns: seq<NodeRec>, n: nat): nat
    decreases n, if n < |ns| then |KidsOf(ns[n])| + 1 else 0
  {
    if n < |ns| then 1 + KidsWeight(ns, n, KidsOf(ns[n])) else 1
  }

  /** The weights of the child nodes in `kids` (children of node n). */
  function KidsWeight(ns: seq<NodeRec>, n: nat, kids: seq<Entity>): nat
    decreases n, |kids|
  {
    if kids == [] then 0
    else
      var last := kids[|kids| - 1];
      KidsWeight(ns, n, kids[..|kids| - 1]) + (if last.NodeRef? && last.n < n then Weight(ns, last.n) else 0)
  }

  function SumWeight(ns: seq<NodeRec>, l: seq<nat>): nat
    decreases |l|
  {
    if l == [] then 0 else SumWeight(ns, l[..|l| - 1]) + Weight(ns, l[|l| - 1])
  }

  // ---------------------------------------------------------------------
  // Invariants of the walk.
  // ---------------------------------------------------------------------

  /** x was reached from the root and, unless it is the root, passed both checks. */
  ghost predicate Vetted(ns: seq<NodeRec>, root: nat, x: nat)
  {
    Reaches(ns, root, x) && (x == root || (Complete(ns[x]) && PlayerOk(ns[x])))
  }

  ghost predicate AllVetted(ns: seq<NodeRec>, root: nat, l: seq<nat>)
  {
    forall x :: x in l ==> Vetted(ns, root, x)
  }

  /** Every child node of an expanded node is expanded or waiting. */
  ghost predicate Closed(ns: seq<NodeRec>, expanded: set<nat>, toCheck: seq<nat>)
  {
    forall e: nat, c: nat :: e in expanded && e < |ns| && c < e && NodeRef(c) in KidsOf(ns[e]) ==> c in expanded || c in toCheck
  }

  /** Every child of an expanded node has been recorded. */
  ghost predicate Recorded(ns: seq<NodeRec>, expanded: set<nat>, checked: seq<Entity>)
  {
    forall e, x :: e in expanded && e < |ns| && x in KidsOf(ns[e]) ==> x in checked
  }

  /** Every recorded node lies below the root. */
  ghost predicate RecordedBelow(ns: seq<NodeRec>, root: nat, checked: seq<Entity>)
  {
    forall x: nat :: NodeRef(x) in checked ==> Below(ns, root, x)
  }

  function NodeIds(es: seq<Entity>): set<nat>
  {
    set e | e in es && e.NodeRef? :: e.n
  }

  function NameOf(ns: seq<NodeRec>, n: nat): Name
  {
    if n < |ns| then ns[n].name else Unnamed
  }

  /** Nodes ordered by name, as `sorted(..., key=attrgetter('name'))`. */
  function NodeNameLe(ns: seq<NodeRec>): (nat, nat) -> bool
  {
    (a: nat, b: nat) => NameLe(NameOf(ns, a), NameOf(ns, b))
  }

  lemma NodeNameLeTotalPreorder(ns: seq<NodeRec>)
    ensures TotalPreorder(NodeNameLe(ns))
  {
    NameLeTotalPreorder();
    var le := NodeNameLe(ns);
    forall a, b ensures le(a, b) || le(b, a) {
      assert NameLe(NameOf(ns, a), NameOf(ns, b)) || NameLe(NameOf(ns, b), NameOf(ns, a));
    }
    forall a, b, c | le(a, b) && le(b, c) ensures le(a, c) {
      assert NameLe(NameOf(ns, a), NameOf(ns, c));
    }
  }

  function Range(n: nat): (r: seq<nat>)
    ensures |r| == n && Distinct(r) && forall i :: 0 <= i < n ==> r[i] == i
  {
    seq(n, i requires 0 <= i < n => i)
  }

  /** The keys in index order (the order the dictionary yields them in),
      stably sorted by name. */
  function SortedKeys(ns: seq<NodeRec>, keys: set<nat>): seq<nat>
  {
    SortBy(Filter(x => x in keys, Range(|ns|)), NodeNameLe(ns))
  }

  lemma SortedKeysOk(ns: seq<NodeRec>, keys: set<nat>)
    requires forall x :: x in keys ==> x < |ns|
    ensures Distinct(SortedKeys(ns, keys))
    ensures forall n :: n in SortedKeys(ns, keys) <==> n in keys
    ensures SortedBy(SortedKeys(ns, keys), NodeNameLe(ns))
  {
    var order := Filter(x => x in keys, Range(|ns|));
    var le := NodeNameLe(ns);
    var nodes := SortBy(order, le);
    SortPerm(order, le);
    NodeNameLeTotalPreorder(ns);
    SortSorted(order, le);
    FilterDistinct(x => x in keys, Range(|ns|));
    DistinctPerm(order, nodes);
    forall n | n in nodes ensures n in keys {
      assert n in multiset(nodes);
      assert n in order;
    }
    forall n | n in keys ensures n in nodes {
      assert Range(|ns|)[n] == n;
      assert n in Range(|ns|);
      assert n in order;
      assert n in multiset(order);
    }
  }

  /** The dictionary `node -> node.children` on the given keys, with its keys
      sorted by name. */
  function MakeTreeDict(ns: seq<NodeRec>, keys: set<nat>): (t: TreeDict)
    requires forall x :: x in keys ==> x < |ns|
    ensures t.d.Keys == keys && forall n :: n in t.d ==> t.d[n] == KidsOf(ns[n])
    ensures Distinct(t.nodes) && forall n :: n in t.nodes <==> n in keys
    ensures SortedBy(t.nodes, NodeNameLe(ns))
  {
    SortedKeysOk(ns, keys);
    TreeDict(map x | x in keys :: KidsOf(ns[x]), SortedKeys(ns, keys))
  }

  // ---------------------------------------------------------------------
  // The walk.
  // ---------------------------------------------------------------------

  /** `_grow_tree_dictionary`: pops nodes off a stack starting with the root;
      each child node must be complete (else AttributeError) and have a
      player (else TypeError) and is pushed; every child is recorded. The
      result maps the root and each recorded node to its children, with the
      keys sorted by name. */
  method GrowTreeDictionary(ns: seq<NodeRec>, nl: nat, root: nat) returns (r: Result<TreeDict, GrowError>)
    requires ChildrenEarlier(ns, nl) && root < |ns|
    ensures r.Success? <==> AllReachedOk(ns, root)
    ensures r.Failure? ==> Justified(ns, root, r.error)
    ensures r.Success? ==> Grown(ns, root, r.value)
  {
    var toCheck: seq<nat> := [root];
    var checked: seq<Entity> := [];
    ghost var expanded: set<nat> := {};
    assert Reaches(ns, root, root);
    while toCheck != []
      invariant AllVetted(ns, root, toCheck)
      invariant forall x :: x in expanded ==> Vetted(ns, root, x)
      invariant root in expanded || root in toCheck
      invariant Closed(ns, expanded, toCheck)
      invariant Recorded(ns, expanded, checked)
      invariant RecordedBelow(ns, root, checked)
      decreases SumWeight(ns, toCheck)
    {
      var checking := toCheck[|toCheck| - 1];
      var rest := toCheck[..|toCheck| - 1];
      assert toCheck == rest + [checking];
      assert SumWeight(ns, toCheck) == SumWeight(ns, rest) + Weight(ns, checking);
      assert Vetted(ns, root, checking);
      var pushed := PushChildren(ns, nl, root, checking, rest, checked);
      if pushed.Failure? {
        return Failure(pushed.error);
      }
      ClosedStep(ns, expanded, rest, checking, pushed.value.0);
      RecordedStep(ns, expanded, checked, checking);
      toCheck, checked := pushed.value.0, pushed.value.1;
      expanded := expanded + {checking};
    }
    WalkDone(ns, root, expanded);
    KeysAreReached(ns, root, expanded, checked);
    var keys := NodeIds(checked) + {root};
    var t := MakeTreeDict(ns, keys);
    r := Success(t);
  }

  /** The dictionary holds the root and every node below it, each mapped to
      its children, and its key list is those nodes without repeats, sorted
      by name. */
  ghost predicate Grown(ns: seq<NodeRec>, root: nat, t: TreeDict)
  {
    && (forall n: nat :: n in t.d <==> n == root || Below(ns, root, n))
    && (forall n :: n in t.d ==> n < |ns| && t.d[n] == KidsOf(ns[n]))
    && Distinct(t.nodes)
    && (forall n :: n in t.nodes <==> n in t.d)
    && SortedBy(t.nodes, NodeNameLe(ns))
  }

  /** The error names a node below the root that fails the check it reports. */
  ghost predicate Justified(ns: seq<NodeRec>, root: nat, e: GrowError)
  {
    || (e == NodeNotComplete && exists b: nat :: Below(ns, root, b) && !Complete(ns[b]))
    || (e == NotAPlayer && exists b: nat :: Below(ns, root, b) && Complete(ns[b]) && !PlayerOk(ns[b]))
  }

  /** After the children `kids` of `checking` have been looked at: the stack
      gained their weight, holds only vetted nodes, keeps what it held and
      holds every child node among them; the record gained exactly `kids`,
      all below the root. */
  ghost predicate PushedSoFar(ns: seq<NodeRec>, root: nat, checking: nat, toCheck: seq<nat>, checked: seq<Entity>,
                              kids: seq<Entity>, stack: seq<nat>, seen: seq<Entity>)
  {
    && SumWeight(ns, stack) == SumWeight(ns, toCheck) + KidsWeight(ns, checking, kids)
    && AllVetted(ns, root, stack)
    && (forall x :: x in toCheck ==> x in stack)
    && Pushed(kids, checking, stack)
    && seen == checked + kids
    && RecordedBelow(ns, root, seen)
  }

  /** One pass of `for child in checking.children`: checks each child node and
      pushes it onto the stack, and records every child. */
  method PushChildren(ns: seq<NodeRec>, nl: nat, root: nat, checking: nat, toCheck: seq<nat>, checked: seq<Entity>)
    returns (r: Result<(seq<nat>, seq<Entity>), GrowError>)
    requires ChildrenEarlier(ns, nl) && Reaches(ns, root, checking)
    requires AllVetted(ns, root, toCheck) && RecordedBelow(ns, root, checked)
    ensures r.Failure? ==> Justified(ns, root, r.error) && !AllReachedOk(ns, root)
    ensures r.Success? ==> PushedSoFar(ns, root, checking, toCheck, checked, KidsOf(ns[checking]), r.value.0, r.value.1)
  {
    ReachesBounded(ns, root, checking);
    var stack, seen := toCheck, checked;
    var kids := KidsOf(ns[checking]);
    var k := 0;
    while k < |kids|
      invariant 0 <= k <= |kids|
      invariant PushedSoFar(ns, root, checking, toCheck, checked, kids[..k], stack, seen)
    {
      var child := kids[k];
      if child.NodeRef? {
        var c := child.n;
        assert EntityExists(kids[k], checking, nl);
        ReachesChild(ns, root, checking, c);
        if !Complete(ns[c]) {
          BadChild(ns, root, c, NodeNotComplete);
          return Failure(NodeNotComplete);
        }
        if !PlayerOk(ns[c]) {
          BadChild(ns, root, c, NotAPlayer);
          return Failure(NotAPlayer);
        }
      }
      PushStep(ns, root, checking, toCheck, checked, kids, k, stack, seen);
      if child.NodeRef? {
        stack := stack + [child.n];
      }
      seen := seen + [child];
      k := k + 1;
    }
    assert kids[..k] == kids;
    r := Success((stack, seen));
  }

  /** Looking at one more child, a vetted node below the root when it is a
      node, keeps `PushedSoFar`. */
  lemma PushStep(ns: seq<NodeRec>, root: nat, checking: nat, toCheck: seq<nat>, checked: seq<Entity>,
                 kids: seq<Entity>, k: nat, stack: seq<nat>, seen: seq<Entity>)
    requires k < |kids| && PushedSoFar(ns, root, checking, toCheck, checked, kids[..k], stack, seen)
    requires kids[k].NodeRef? ==>
      kids[k].n < checking && Reaches(ns, root, kids[k].n) && kids[k].n != root &&
      Complete(ns[kids[k].n]) && PlayerOk(ns[kids[k].n])
    ensures PushedSoFar(ns, root, checking, toCheck, checked, kids[..k + 1],
                        if kids[k].NodeRef? then stack + [kids[k].n] else stack, seen + [kids[k]])
  {
    var pre := kids[..k + 1];
    assert pre[..k] == kids[..k] && pre[k] == kids[k];
    assert pre == kids[..k] + [kids[k]];
    if kids[k].NodeRef? {
      PushVetted(ns, root, stack, kids[k].n);
      assert (stack + [kids[k].n])[..|stack|] == stack;
    }
    RecordChild(ns, root, seen, kids[k]);
  }

  /** Every child node of `checking` among `kids` is on the stack. */
  ghost predicate Pushed(kids: seq<Entity>, checking: nat, stack: seq<nat>)
  {
    forall c: nat :: NodeRef(c) in kids && c < checking ==> c in stack
  }

  lemma BadChild(ns: seq<NodeRec>, root: nat, c: nat, e: GrowError)
    requires Reaches(ns, root, c) && c != root && e != NotATree
    requires e == NodeNotComplete ==> !Complete(ns[c])
    requires e == NotAPlayer ==> Complete(ns[c]) && !PlayerOk(ns[c])
    ensures Justified(ns, root, e) && !AllReachedOk(ns, root)
  {
    assert Below(ns, root, c);
  }

  lemma PushVetted(ns: seq<NodeRec>, root: nat, stack: seq<nat>, c: nat)
    requires AllVetted(ns, root, stack) && Reaches(ns, root, c) && Complete(ns[c]) && PlayerOk(ns[c])
    ensures AllVetted(ns, root, stack + [c])
    ensures SumWeight(ns, stack + [c]) == SumWeight(ns, stack) + Weight(ns, c)
  {
    assert (stack + [c])[..|stack|] == stack;
  }

  lemma RecordChild(ns: seq<NodeRec>, root: nat, seen: seq<Entity>, child: Entity)
    requires RecordedBelow(ns, root, seen)
    requires child.NodeRef? ==> Reaches(ns, root, child.n) && child.n != root
    ensures RecordedBelow(ns, root, seen + [child])
  {
    forall x: nat | NodeRef(x) in seen + [child] ensures Below(ns, root, x) {
      if NodeRef(x) !in seen {
        assert NodeRef(x) == child;
      }
    }
  }

  /** Expanding node `checking` (taken off the end of the stack) keeps the
      expanded set closed once its child nodes are pushed. */
  lemma ClosedStep(ns: seq<NodeRec>, expanded: set<nat>, rest: seq<nat>, checking: nat, toCheck: seq<nat>)
    requires checking < |ns| && Closed(ns, expanded, rest + [checking])
    requires forall x :: x in rest ==> x in toCheck
    requires Pushed(KidsOf(ns[checking]), checking, toCheck)
    ensures Closed(ns, expanded + {checking}, toCheck)
  {
    forall e: nat, c: nat | e in expanded + {checking} && e < |ns| && c < e && NodeRef(c) in KidsOf(ns[e])
      ensures c in expanded + {checking} || c in toCheck
    {
      if e != checking {
        assert c in expanded || c in rest + [checking];
      }
    }
  }

  lemma RecordedStep(ns: seq<NodeRec>, expanded: set<nat>, checked: seq<Entity>, checking: nat)
    requires checking < |ns| && Recorded(ns, expanded, checked)
    ensures Recorded(ns, expanded + {checking}, checked + KidsOf(ns[checking]))
  {
  }

  /** When the stack is empty, every node below the root has been expanded,
      so all of them passed the checks. */
  lemma WalkDone(ns: seq<NodeRec>, root: nat, expanded: set<nat>)
    requires root in expanded && Closed(ns, expanded, [])
    requires forall x :: x in expanded ==> Vetted(ns, root, x)
    ensures AllReachedOk(ns, root)
    ensures forall b: nat :: Reaches(ns, root, b) ==> b in expanded
  {
    forall b: nat | Reaches(ns, root, b) ensures b in expanded {
      ReachesClosed(ns, expanded, root, b);
    }
    forall b: nat | Below(ns, root, b) ensures Complete(ns[b]) && PlayerOk(ns[b]) {
      assert Vetted(ns, root, b);
    }
  }

  /** After the walk, the recorded nodes are exactly the nodes below the root. */
  lemma KeysAreReached(ns: seq<NodeRec>, root: nat, expanded: set<nat>, checked: seq<Entity>)
    requires root < |ns| && root in expanded && Closed(ns, expanded, [])
    requires Recorded(ns, expanded, checked) && RecordedBelow(ns, root, checked)
    ensures forall n: nat :: n in NodeIds(checked) + {root} <==> n == root || Below(ns, root, n)
    ensures forall n :: n in NodeIds(checked) + {root} ==> n < |ns|
  {
    forall n: nat | Below(ns, root, n) ensures n in NodeIds(checked) {
      ReachesParent(ns, root, n);
      var p: nat :| Reaches(ns, root, p) && n < p && NodeRef(n) in KidsOf(ns[p]);
      ReachesClosed(ns, expanded, root, p);
    }
    forall n | n in NodeIds(checked) ensures Below(ns, root, n) && n < |ns| {
      assert NodeRef(n) in checked;
      ReachesBounded(ns, root, n);
    }
  }

  // ---------------------------------------------------------------------
  // The tree test: `Graph(d).is_tree()`.
  // ---------------------------------------------------------------------

  /** The edges of `Graph(d)`, one per (node, child) pair. */
  function EdgeList(ns: seq<NodeRec>, nodes: seq<nat>): seq<Entity>
  {
    Flatten(Map((n: nat) => KidsAt(ns, n), nodes))
  }

  /** The vertices of `Graph(d)`: the keys and every child. */
  function Vertices(ns: seq<NodeRec>, nodes: seq<nat>): set<Entity>
  {
    (set n | n in nodes :: NodeRef(n)) + Elems(EdgeList(ns, nodes))
  }

  /** A connected graph is a tree when it has one edge fewer than vertices. */
  predicate TreeTest(ns: seq<NodeRec>, nodes: seq<nat>)
  {
    |EdgeList(ns, nodes)| + 1 == |Vertices(ns, nodes)|
  }

  /** The graph joins every vertex to the root: each key lies below the root
      and every vertex is the root or a child of a key. */
  ghost predicate ConnectedToRoot(ns: seq<NodeRec>, root: nat, nodes: seq<nat>)
  {
    && (forall n :: n in nodes ==> Reaches(ns, root, n))
    && (forall v :: v in Vertices(ns, nodes) ==> v == NodeRef(root) || exists n :: n in nodes && v in KidsAt(ns, n))
  }

  /** No entity hangs below the root twice: no reached node lists a child
      twice and no two reached nodes share a child. */
  ghost predicate OneParent(ns: seq<NodeRec>, root: nat)
  {
    && (forall a: nat :: Reaches(ns, root, a) ==> Distinct(KidsOf(ns[a])))
    && (forall a: nat, b: nat, x :: Reaches(ns, root, a) && Reaches(ns, root, b) && a != b && x in KidsOf(ns[a]) ==> x !in KidsOf(ns[b]))
  }

  lemma GrownKey(ns: seq<NodeRec>, root: nat, t: TreeDict, n: nat)
    requires Grown(ns, root, t) && root < |ns|
    ensures n in t.nodes <==> Reaches(ns, root, n)
  {
    if n == root {
      assert Reaches(ns, root, root);
    }
  }

  /** The graph grown from the root is connected. */
  lemma GrownConnected(ns: seq<NodeRec>, root: nat, t: TreeDict)
    requires Grown(ns, root, t) && root < |ns|
    ensures ConnectedToRoot(ns, root, t.nodes)
  {
    var ss := Map((n: nat) => KidsAt(ns, n), t.nodes);
    forall n | n in t.nodes ensures Reaches(ns, root, n) {
      GrownKey(ns, root, t, n);
    }
    forall v | v in Vertices(ns, t.nodes) && v != NodeRef(root)
      ensures exists n :: n in t.nodes && v in KidsAt(ns, n)
    {
      if v in Elems(EdgeList(ns, t.nodes)) {
        var i :| 0 <= i < |ss| && v in ss[i];
        assert t.nodes[i] in t.nodes && v in KidsAt(ns, t.nodes[i]);
      } else {
        var n :| n in t.nodes && v == NodeRef(n);
        GrownKey(ns, root, t, n);
        ReachesParent(ns, root, n);
        var p: nat :| Reaches(ns, root, p) && n < p && NodeRef(n) in KidsOf(ns[p]);
        GrownKey(ns, root, t, p);
      }
    }
  }

  /** The root is nobody's child: children come before their parents. */
  lemma RootNotAnEdge(ns: seq<NodeRec>, nl: nat, root: nat, t: TreeDict)
    requires ChildrenEarlier(ns, nl) && root < |ns| && Grown(ns, root, t)
    ensures NodeRef(root) !in EdgeList(ns, t.nodes)
  {
    var ss := Map((n: nat) => KidsAt(ns, n), t.nodes);
    forall i | 0 <= i < |ss| ensures NodeRef(root) !in ss[i] {
      var n := t.nodes[i];
      GrownKey(ns, root, t, n);
      ReachesBounded(ns, root, n);
      NoLaterChild(ns, nl, n, root);
    }
  }

  /** A node lists no child node numbered at or after itself. */
  lemma NoLaterChild(ns: seq<NodeRec>, nl: nat, n: nat, c: nat)
    requires ChildrenEarlier(ns, nl) && n < |ns| && n <= c
    ensures NodeRef(c) !in KidsOf(ns[n])
  {
    forall k | 0 <= k < |KidsOf(ns[n])| ensures KidsOf(ns[n])[k] != NodeRef(c) {
      assert EntityExists(KidsOf(ns[n])[k], n, nl);
    }
  }

  /** The vertices of a grown graph are its edges' targets and the root. */
  lemma GrownVertices(ns: seq<NodeRec>, root: nat, t: TreeDict)
    requires root < |ns| && Grown(ns, root, t)
    ensures Vertices(ns, t.nodes) == Elems(EdgeList(ns, t.nodes)) + {NodeRef(root)}
  {
    var es := EdgeList(ns, t.nodes);
    var ss := Map((n: nat) => KidsAt(ns, n), t.nodes);
    GrownConnected(ns, root, t);
    assert root in t.nodes by { GrownKey(ns, root, t, root); }
    forall v | v in Vertices(ns, t.nodes) && v != NodeRef(root) ensures v in Elems(es) {
      var n :| n in t.nodes && v in KidsAt(ns, n);
      var i :| 0 <= i < |t.nodes| && t.nodes[i] == n;
      assert v in ss[i];
    }
  }

  /** On a grown dictionary, the count test holds exactly when no edge repeats. */
  lemma TreeTestDistinct(ns: seq<NodeRec>, nl: nat, root: nat, t: TreeDict)
    requires ChildrenEarlier(ns, nl) && root < |ns| && Grown(ns, root, t)
    ensures TreeTest(ns, t.nodes) <==> Distinct(EdgeList(ns, t.nodes))
  {
    var es := EdgeList(ns, t.nodes);
    RootNotAnEdge(ns, nl, root, t);
    GrownVertices(ns, root, t);
    assert |Vertices(ns, t.nodes)| == |Elems(es)| + 1;
    ElemsCard(es);
  }

  /** On a grown dictionary, no edge repeats exactly when every entity below
      the root has one parent. */
  lemma EdgesDistinctOneParent(ns: seq<NodeRec>, root: nat, t: TreeDict)
    requires root < |ns| && Grown(ns, root, t)
    ensures Distinct(EdgeList(ns, t.nodes)) <==> OneParent(ns, root)
  {
    var ss := Map((n: nat) => KidsAt(ns, n), t.nodes);
    FlattenDistinct(ss);
    if Distinct(EdgeList(ns, t.nodes)) {
      DistinctEdgesOneParent(ns, root, t, ss);
    }
    if OneParent(ns, root) {
      OneParentDistinctEdges(ns, root, t, ss);
    }
  }

  lemma OneParentDistinctEdges(ns: seq<NodeRec>, root: nat, t: TreeDict, ss: seq<seq<Entity>>)
    requires root < |ns| && Grown(ns, root, t) && OneParent(ns, root)
    requires |ss| == |t.nodes| && forall i :: 0 <= i < |ss| ==> ss[i] == KidsAt(ns, t.nodes[i])
    ensures forall i :: 0 <= i < |ss| ==> Distinct(ss[i])
    ensures forall i, j :: 0 <= i < j < |ss| ==> Disjoint(ss[i], ss[j])
  {
    forall i | 0 <= i < |ss| ensures Distinct(ss[i]) {
      GrownKey(ns, root, t, t.nodes[i]);
    }
    forall i, j | 0 <= i < j < |ss| ensures Disjoint(ss[i], ss[j]) {
      GrownKey(ns, root, t, t.nodes[i]);
      GrownKey(ns, root, t, t.nodes[j]);
    }
  }

  lemma DistinctEdgesOneParent(ns: seq<NodeRec>, root: nat, t: TreeDict, ss: seq<seq<Entity>>)
    requires root < |ns| && Grown(ns, root, t)
    requires |ss| == |t.nodes| && forall i :: 0 <= i < |ss| ==> ss[i] == KidsAt(ns, t.nodes[i])
    requires forall i :: 0 <= i < |ss| ==> Distinct(ss[i])
    requires forall i, j :: 0 <= i < j < |ss| ==> Disjoint(ss[i], ss[j])
    ensures OneParent(ns, root)
  {
    forall a: nat | Reaches(ns, root, a) ensures Distinct(KidsOf(ns[a])) {
      GrownKey(ns, root, t, a);
      var i :| 0 <= i < |t.nodes| && t.nodes[i] == a;
      assert ss[i] == KidsOf(ns[a]);
    }
    forall a: nat, b: nat, x | Reaches(ns, root, a) && Reaches(ns, root, b) && a != b && x in KidsOf(ns[a])
      ensures x !in KidsOf(ns[b])
    {
      GrownKey(ns, root, t, a);
      GrownKey(ns, root, t, b);
      var i :| 0 <= i < |t.nodes| && t.nodes[i] == a;
      var j :| 0 <= j < |t.nodes| && t.nodes[j] == b;
      assert ss[i] == KidsOf(ns[a]) && ss[j] == KidsOf(ns[b]);
      if i < j {
        assert Disjoint(ss[i], ss[j]);
      } else {
        assert Disjoint(ss[j], ss[i]);
      }
    }
  }

  /** `_grow_tree`: grows the dictionary and rejects it unless it is a tree
      (TypeError "Relationship between nodes does not correspond to a tree"). */
  method GrowTree(ns: seq<NodeRec>, nl: nat, root: nat) returns (r: Result<TreeDict, GrowError>)
    requires ChildrenEarlier(ns, nl) && root < |ns|
    ensures r.Success? <==> AllReachedOk(ns, root) && OneParent(ns, root)
    ensures r.Failure? ==> Justified(ns, root, r.error) || (r.error == NotATree && AllReachedOk(ns, root) && !OneParent(ns, root))
    ensures r.Success? ==> Grown(ns, root, r.value) && ConnectedToRoot(ns, root, r.value.nodes) && TreeTest(ns, r.value.nodes)
  {
    var g := GrowTreeDictionary(ns, nl, root);
    if g.Failure? {
      return Failure(g.error);
    }
    var t := g.value;
    TreeTestDistinct(ns, nl, root, t);
    EdgesDistinctOneParent(ns, root, t);
    GrownConnected(ns, root, t);
    if TreeTest(ns, t.nodes) {
      r := Success(t);
    } else {
      r := Failure(NotATree);
    }
  }
}
