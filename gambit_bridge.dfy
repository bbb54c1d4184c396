/** The label and index logic of the conversions between the game engine
    and gambit: finding a child's action index, renaming blank actions, and
    the order in which a gambit tree is converted (deepest generation first,
    refusing terminal nodes without an outcome). The gambit library itself
    is not modelled; a gambit tree is the plain datatype below. */
module GambitBridge {
  import opened Wrappers
  import opened Strings
  import opened Seqs
  import opened EfgEntities

  datatype BridgeError =
    | NoParent                  // the child's `parent` is False: it has no `actions`
    | NoMatchingAction          // `child_index` is never bound
    | TerminalWithoutOutcome    // AttributeError raised during conversion

  // ---------------------------------------------------------------------
  // _sage_to_gambit_get_gambit_child_index
  // ---------------------------------------------------------------------

  /** After the first i actions, `found` is the last position among them
      whose child is `child`, if any. */
  ghost predicate LastFound(kids: seq<Entity>, child: Entity, i: nat, found: Option<nat>)
    requires i <= |kids|
  {
    && (found.None? <==> child !in kids[..i])
    && (found.Some? ==>
         found.value < i && kids[found.value] == child &&
         forall j :: found.value < j < i ==> kids[j] != child)
  }

  lemma LastFoundStep(kids: seq<Entity>, child: Entity, i: nat, found: Option<nat>, next: Option<nat>)
    requires i < |kids| && LastFound(kids, child, i, found)
    requires next == if kids[i] == child then Some(i) else found
    ensures LastFound(kids, child, i + 1, next)
  {
    assert kids[..i + 1] == kids[..i] + [kids[i]];
  }

  /** The position, among the actions of `child`'s parent, whose child is
      `child` (by identity). The loop does not stop at a match, so when the
      child is listed more than once the last position is returned. */
  method ChildIndex(ns: seq<NodeRec>, ls: seq<LeafRec>, child: Entity) returns (r: Result<nat, BridgeError>)
    requires EntityExists(child, |ns|, |ls|) && ParentsList(ns, ls)
    ensures r == Failure(NoParent) <==> ParentOf(ns, ls, child).None?
    ensures r != Failure(NoMatchingAction)
    ensures r.Success? ==>
      var kids := KidsOf(ns[ParentOf(ns, ls, child).value]);
      && r.value < |kids| && kids[r.value] == child
      && forall j :: r.value < j < |kids| ==> kids[j] != child
  {
    var parent := ParentOf(ns, ls, child);
    if parent.None? {
      return Failure(NoParent);
    }
    var kids := KidsOf(ns[parent.value]);
    assert child in kids;
    var found: Option<nat> := None;
    var i := 0;
    while i < |kids|
      invariant 0 <= i <= |kids|
      invariant LastFound(kids, child, i, found)
    {
      var next := if kids[i] == child then Some(i) else found;
      LastFoundStep(kids, child, i, found, next);
      found := next;
      i := i + 1;
    }
    assert kids[..i] == kids;
    r := Success(found.value);
  }

  /** When the parent lists the child once, that is the index found. */
  lemma ChildIndexUnique(kids: seq<Entity>, child: Entity, i: nat, j: nat)
    requires Distinct(kids) && i < |kids| && j < |kids| && kids[i] == child && kids[j] == child
    ensures i == j
  {
  }

  // ---------------------------------------------------------------------
  // _gambit_to_sage_rename_blank_actions
  // ---------------------------------------------------------------------

  /** How many labels are blank. */
  function Blanks(s: seq<string>): (n: nat)
    ensures n <= |s|
    decreases |s|
  {
    if s == [] then 0 else Blanks(s[..|s| - 1]) + (if s[|s| - 1] == "" then 1 else 0)
  }

  function ActionLabel(k: nat): string
  {
    "Action " + NatToString(k)
  }

  /** The labels of an information set after renaming: the k-th blank label
      (counting from 1) becomes "Action k", the others are kept. */
  function Renamed(s: seq<string>): (r: seq<string>)
    ensures |r| == |s|
    decreases |s|
  {
    if s == [] then []
    else
      var init := s[..|s| - 1];
      Renamed(init) + [if s[|s| - 1] == "" then ActionLabel(1 + Blanks(init)) else s[|s| - 1]]
  }

  /** Renaming keeps the length and the non-blank labels, and gives a blank
      label the number of blanks up to and including it. */
  lemma RenamedAt(s: seq<string>)
    ensures |Renamed(s)| == |s|
    ensures forall i :: 0 <= i < |s| ==>
      Renamed(s)[i] == if s[i] == "" then ActionLabel(1 + Blanks(s[..i])) else s[i]
  {
    forall i | 0 <= i < |s|
      ensures Renamed(s)[i] == if s[i] == "" then ActionLabel(1 + Blanks(s[..i])) else s[i]
    {
      RenamedIndex(s, i);
    }
  }

  lemma {:induction false} RenamedIndex(s: seq<string>, i: nat)
    requires i < |s|
    ensures Renamed(s)[i] == if s[i] == "" then ActionLabel(1 + Blanks(s[..i])) else s[i]
    decreases |s|
  {
    var init := s[..|s| - 1];
    if i < |init| {
      RenamedIndex(init, i);
      assert s[..i] == init[..i] && s[i] == init[i];
    } else {
      assert s[..i] == init;
    }
  }

  /** After renaming no label is blank. */
  lemma NoBlankLeft(s: seq<string>)
    ensures forall i :: 0 <= i < |Renamed(s)| ==> Renamed(s)[i] != ""
  {
    RenamedAt(s);
    forall i | 0 <= i < |s| ensures Renamed(s)[i] != "" {
      if s[i] == "" {
        assert |ActionLabel(1 + Blanks(s[..i]))| > 0;
      }
    }
  }

  lemma {:induction false} NoBlanksRenamedSame(s: seq<string>)
    requires forall i :: 0 <= i < |s| ==> s[i] != ""
    ensures Renamed(s) == s && Blanks(s) == 0
    decreases |s|
  {
    if s != [] {
      NoBlanksRenamedSame(s[..|s| - 1]);
    }
  }

  /** Renaming twice is renaming once; this is why visiting every node of an
      information set, each visit renaming the shared actions, is harmless. */
  lemma RenamedIdempotent(s: seq<string>)
    ensures Renamed(Renamed(s)) == Renamed(s)
  {
    NoBlankLeft(s);
    NoBlanksRenamedSame(Renamed(s));
  }

  /** A blank label strictly before another one is counted in its prefix. */
  lemma {:induction false} BlanksGrow(s: seq<string>, i: nat, j: nat)
    requires i < j <= |s| && s[i] == ""
    ensures Blanks(s[..i]) < Blanks(s[..j])
    decreases j
  {
    assert s[..j][..j - 1] == s[..j - 1];
    if j - 1 == i {
      assert s[..j - 1] == s[..i];
    } else {
      BlanksGrow(s, i, j - 1);
    }
  }

  /** Two blank labels get different names. */
  lemma RenamedFreshDistinct(s: seq<string>, i: nat, j: nat)
    requires i < j < |s| && s[i] == "" && s[j] == ""
    ensures Renamed(s)[i] != Renamed(s)[j]
  {
    RenamedAt(s);
    BlanksGrow(s, i, j);
    DefaultLabelsDistinct("Action ", 1 + Blanks(s[..i]), 1 + Blanks(s[..j]));
  }

  /** The renaming loop, over the information set's action labels in place
      (`gambit_node.infoset.actions[i].label = ...`). A node without an
      information set is left alone and is not passed here. The blank test
      `label is ''` agrees with `==` because CPython keeps one empty string. */
  method RenameBlankActions(labels: array<string>)
    modifies labels
    ensures labels[..] == Renamed(old(labels[..]))
  {
    ghost var s := labels[..];
    var next := 1;
    var i := 0;
    while i < labels.Length
      invariant 0 <= i <= labels.Length
      invariant labels[..i] == Renamed(s[..i])
      invariant labels[i..] == s[i..]
      invariant next == 1 + Blanks(s[..i])
    {
      assert s[..i + 1][..i] == s[..i];
      assert labels[i] == s[i] by { assert labels[i..][0] == s[i..][0]; }
      if labels[i] == "" {
        labels[i] := "Action " + NatToString(next);
        next := next + 1;
      }
      assert labels[..i + 1] == labels[..i] + [labels[i]];
      i := i + 1;
    }
    assert labels[..] == labels[..i] && s == s[..i];
  }

  // ---------------------------------------------------------------------
  // A gambit tree and its generations
  // ---------------------------------------------------------------------

  /** A gambit node: whether it has an outcome, and its children in order.
      It is terminal when it has no children. */
  datatype GambitTree = GambitNode(hasOutcome: bool, kids: seq<GambitTree>)

  /** A node of the tree, named by the child positions leading to it. */
  type Path = seq<nat>

  predicate ValidPath(t: GambitTree, p: Path)
    decreases |p|
  {
    p == [] || (p[0] < |t.kids| && ValidPath(t.kids[p[0]], p[1..]))
  }

  function At(t: GambitTree, p: Path): GambitTree
    requires ValidPath(t, p)
    decreases |p|
  {
    if p == [] then t else At(t.kids[p[0]], p[1..])
  }

  /** A terminal node that `_gambit_to_sage_create_node_or_leaf` refuses. */
  predicate MissingOutcome(n: GambitTree)
  {
    n.kids == [] && !n.hasOutcome
  }

  /** The length of the longest path. */
  function Height(t: GambitTree): nat
    decreases t, |t.kids| + 1
  {
    TallestKid(t, |t.kids|)
  }

  /** The length of the longest path through one of the first c children. */
  function TallestKid(t: GambitTree, c: nat): nat
    requires c <= |t.kids|
    decreases t, c
  {
    if c == 0 then 0
    else
      var h, rest := 1 + Height(t.kids[c - 1]), TallestKid(t, c - 1);
      if h > rest then h else rest
  }

  lemma {:induction false} TallestKidBound(t: GambitTree, c: nat, i: nat)
    requires i < c <= |t.kids|
    ensures 1 + Height(t.kids[i]) <= TallestKid(t, c)
    decreases c
  {
    if i < c - 1 {
      TallestKidBound(t, c - 1, i);
    }
  }

  lemma {:induction false} TallestKidWitness(t: GambitTree, c: nat) returns (i: nat)
    requires 0 < c <= |t.kids|
    ensures i < c && TallestKid(t, c) == 1 + Height(t.kids[i])
    decreases c
  {
    if c == 1 || 1 + Height(t.kids[c - 1]) > TallestKid(t, c - 1) {
      i := c - 1;
    } else {
      i := TallestKidWitness(t, c - 1);
    }
  }

  /** `len(node.children)` for the node at p (0 off the tree). */
  function KidCount(t: GambitTree, p: Path): nat
    decreases |p|
  {
    if p == [] then |t.kids|
    else if p[0] < |t.kids| then KidCount(t.kids[p[0]], p[1..])
    else 0
  }

  lemma {:induction false} ValidSnoc(t: GambitTree, p: Path, i: nat)
    ensures ValidPath(t, p) ==> KidCount(t, p) == |At(t, p).kids|
    ensures ValidPath(t, p + [i]) <==> ValidPath(t, p) && i < KidCount(t, p)
    ensures ValidPath(t, p + [i]) ==> At(t, p + [i]) == At(t, p).kids[i]
    decreases |p|
  {
    if p != [] {
      assert (p + [i])[1..] == p[1..] + [i];
      if p[0] < |t.kids| {
        ValidSnoc(t.kids[p[0]], p[1..], i);
      }
    }
  }

  /** A path is no longer than the tree is high. */
  lemma {:induction false} PathWithinHeight(t: GambitTree, p: Path)
    requires ValidPath(t, p)
    ensures |p| <= Height(t)
    decreases |p|
  {
    if p != [] {
      PathWithinHeight(t.kids[p[0]], p[1..]);
      TallestKidBound(t, |t.kids|, p[0]);
    }
  }

  /** For every length up to the height there is a path of that length. */
  lemma {:induction false} PathOfLength(t: GambitTree, k: nat)
    requires k <= Height(t)
    ensures exists p :: ValidPath(t, p) && |p| == k
    decreases k
  {
    if k == 0 {
      assert ValidPath(t, []);
    } else {
      var i := TallestKidWitness(t, |t.kids|);
      PathOfLength(t.kids[i], k - 1);
      var q :| ValidPath(t.kids[i], q) && |q| == k - 1;
      var p := [i] + q;
      assert p[1..] == q;
      assert ValidPath(t, p) && |p| == k;
    }
  }

  /** The children of a node, as paths. */
  function Children(t: GambitTree, p: Path): seq<Path>
  {
    seq(KidCount(t, p), i requires 0 <= i < KidCount(t, p) => p + [i])
  }

  /** A path is a child of p exactly when it extends p by one position below
      p's child count. */
  lemma ChildrenMember(t: GambitTree, p: Path, x: Path)
    ensures x in Children(t, p) <==>
      |x| == |p| + 1 && x[..|p|] == p && x[|p|] < KidCount(t, p)
  {
    if x in Children(t, p) {
      var i :| 0 <= i < |Children(t, p)| && Children(t, p)[i] == x;
      assert x == p + [i];
    }
    if |x| == |p| + 1 && x[..|p|] == p && x[|p|] < KidCount(t, p) {
      assert x == p + [x[|p|]];
      assert Children(t, p)[x[|p|]] == x;
    }
  }

  lemma ChildrenDistinct(t: GambitTree, p: Path)
    ensures Distinct(Children(t, p))
  {
    var cs := Children(t, p);
    forall a, b | 0 <= a < b < |cs| ensures cs[a] != cs[b] {
      assert cs[a][|p|] == a;
      assert cs[b][|p|] == b;
    }
  }

  /** The next generation: the children of each node, node by node. */
  function NextLayer(t: GambitTree, layer: seq<Path>): seq<Path>
    decreases |layer|
  {
    if layer == [] then []
    else NextLayer(t, layer[..|layer| - 1]) + Children(t, layer[|layer| - 1])
  }

  /** The next generation holds the children of the given nodes. */
  lemma {:induction false} NextLayerMember(t: GambitTree, layer: seq<Path>, q: Path)
    ensures q in NextLayer(t, layer) <==>
      |q| > 0 && q[..|q| - 1] in layer && q[|q| - 1] < KidCount(t, q[..|q| - 1])
    decreases |layer|
  {
    if layer != [] {
      var init, last := layer[..|layer| - 1], layer[|layer| - 1];
      NextLayerMember(t, init, q);
      ChildrenMember(t, last, q);
      assert layer == init + [last];
    }
  }

  /** Children of distinct nodes are distinct. */
  lemma {:induction false} NextLayerDistinct(t: GambitTree, layer: seq<Path>)
    requires Distinct(layer)
    ensures Distinct(NextLayer(t, layer))
    decreases |layer|
  {
    if layer != [] {
      var init, last := layer[..|layer| - 1], layer[|layer| - 1];
      assert layer == init + [last];
      DistinctAppend(init, [last]);
      NextLayerDistinct(t, init);
      ChildrenDistinct(t, last);
      forall x | x in NextLayer(t, init) ensures x !in Children(t, last) {
        NextLayerMember(t, init, x);
        ChildrenMember(t, last, x);
      }
      DistinctAppend(NextLayer(t, init), Children(t, last));
    }
  }

  /** Generation k: the children of generation k - 1, starting from the root. */
  function Layer(t: GambitTree, k: nat): seq<Path>
  {
    if k == 0 then [[]] else NextLayer(t, Layer(t, k - 1))
  }

  /** Generation k holds exactly the nodes at depth k. */
  lemma {:induction false} LayerMember(t: GambitTree, k: nat, q: Path)
    ensures q in Layer(t, k) <==> ValidPath(t, q) && |q| == k
    decreases k
  {
    if k > 0 {
      NextLayerMember(t, Layer(t, k - 1), q);
      if |q| > 0 {
        var p, i := q[..|q| - 1], q[|q| - 1];
        assert q == p + [i];
        ValidSnoc(t, p, i);
        LayerMember(t, k - 1, p);
      }
    }
  }

  /** No node appears twice in a generation. */
  lemma {:induction false} LayerDistinct(t: GambitTree, k: nat)
    ensures Distinct(Layer(t, k))
    decreases k
  {
    if k > 0 {
      LayerDistinct(t, k - 1);
      NextLayerDistinct(t, Layer(t, k - 1));
    }
  }

  /** A generation is empty exactly when it lies below the deepest node. */
  lemma LayerEmpty(t: GambitTree, k: nat)
    ensures Layer(t, k) == [] <==> k > Height(t)
  {
    if k <= Height(t) {
      PathOfLength(t, k);
      var p :| ValidPath(t, p) && |p| == k;
      LayerMember(t, k, p);
    } else if Layer(t, k) != [] {
      var p := Layer(t, k)[0];
      LayerMember(t, k, p);
      PathWithinHeight(t, p);
    }
  }

  /** The first m generations, the root's first. */
  function FirstGenerations(t: GambitTree, m: nat): (r: seq<seq<Path>>)
    ensures |r| == m
  {
    seq(m, k requires 0 <= k < m => Layer(t, k))
  }

  /** All generations. */
  function Generations(t: GambitTree): seq<seq<Path>>
  {
    FirstGenerations(t, Height(t) + 1)
  }

  lemma FirstGenerationsStep(t: GambitTree, m: nat)
    ensures FirstGenerations(t, m + 1) == FirstGenerations(t, m) + [Layer(t, m)]
  {
    assert FirstGenerations(t, m + 1)[..m] == FirstGenerations(t, m);
  }

  /** One pass of the `for node in node_list` loop: the children of each
      node of `current`, node by node. */
  method NextGeneration(t: GambitTree, current: seq<Path>) returns (next: seq<Path>)
    ensures next == NextLayer(t, current)
  {
    next := [];
    var j := 0;
    while j < |current|
      invariant 0 <= j <= |current|
      invariant next == NextLayer(t, current[..j])
    {
      var node := current[j];
      var kidCount := KidCount(t, node);
      ghost var cs := Children(t, node);
      var i := 0;
      while i < kidCount
        invariant 0 <= i <= kidCount
        invariant next == NextLayer(t, current[..j]) + cs[..i]
      {
        assert cs[..i + 1] == cs[..i] + [node + [i]];
        next := next + [node + [i]];
        i := i + 1;
      }
      assert current[..j + 1][..j] == current[..j];
      assert cs[..i] == cs;
      j := j + 1;
    }
    assert current[..j] == current;
  }

  /** The generation list `node_indexed_dict` of `_gambit_to_sage`: a loop
      that, from the root, collects each generation's children until one
      generation has none. */
  method GenerationLayers(t: GambitTree) returns (layers: seq<seq<Path>>)
    ensures layers == Generations(t)
  {
    layers := [[[]]];
    var current: seq<Path> := [[]];
    assert layers == FirstGenerations(t, 1);
    while current != []
      invariant 1 <= |layers| <= Height(t) + 1
      invariant layers == FirstGenerations(t, |layers|)
      invariant current != [] ==> current == Layer(t, |layers| - 1)
      invariant current == [] ==> |layers| == Height(t) + 1
      decreases Height(t) + 1 - |layers|, |current|
    {
      LayerEmpty(t, |layers| - 1);
      var next := NextGeneration(t, current);
      assert next == Layer(t, |layers|);
      LayerEmpty(t, |layers|);
      if next != [] {
        FirstGenerationsStep(t, |layers|);
        layers := layers + [next];
      }
      current := next;
    }
  }

  // ---------------------------------------------------------------------
  // The conversion order
  // ---------------------------------------------------------------------

  /** `gs` lists the generations of t: entry k holds each node at depth k
      once. */
  ghost predicate LayeredBy(t: GambitTree, gs: seq<seq<Path>>)
  {
    && |gs| == Height(t) + 1
    && (forall k {:trigger Distinct(gs[k])} :: 0 <= k < |gs| ==> Distinct(gs[k]))
    && (forall k, x :: 0 <= k < |gs| && x in gs[k] ==> ValidPath(t, x) && |x| == k)
    && (forall x {:trigger ValidPath(t, x)} :: ValidPath(t, x) && |x| < |gs| ==> x in gs[|x|])
  }

  lemma GenerationsLayered(t: GambitTree)
    ensures LayeredBy(t, Generations(t))
  {
    var gs := Generations(t);
    forall k | 0 <= k < |gs| ensures Distinct(gs[k]) {
      LayerDistinct(t, k);
    }
    forall k, x | 0 <= k < |gs| && x in gs[k] ensures ValidPath(t, x) && |x| == k {
      LayerMember(t, k, x);
    }
    forall x | ValidPath(t, x) && |x| < |gs| ensures x in gs[|x|] {
      LayerMember(t, |x|, x);
    }
  }

  /** The nodes of the last c entries of `gs`, the last entry first, each
      entry in its own order. */
  function Converted(gs: seq<seq<Path>>, c: nat): seq<Path>
    requires c <= |gs|
  {
    if c == 0 then [] else Converted(gs, c - 1) + gs[|gs| - c]
  }

  /** The order in which `_gambit_to_sage` converts the nodes: generation by
      generation from the deepest. */
  function ConversionOrder(t: GambitTree): seq<Path>
  {
    Converted(Generations(t), Height(t) + 1)
  }

  /** The deepest c generations hold the nodes deeper than Height(t) - c. */
  lemma {:induction false} ConvertedMember(t: GambitTree, gs: seq<seq<Path>>, c: nat, p: Path)
    requires LayeredBy(t, gs) && c <= |gs|
    ensures p in Converted(gs, c) <==> ValidPath(t, p) && |gs| - c <= |p|
    decreases c
  {
    if ValidPath(t, p) {
      PathWithinHeight(t, p);
    }
    if c > 0 {
      var k := |gs| - c;
      ConvertedMember(t, gs, c - 1, p);
      assert Converted(gs, c) == Converted(gs, c - 1) + gs[k];
      assert p in gs[k] <==> ValidPath(t, p) && |p| == k;
    }
  }

  lemma {:induction false} ConvertedDistinct(t: GambitTree, gs: seq<seq<Path>>, c: nat)
    requires LayeredBy(t, gs) && c <= |gs|
    ensures Distinct(Converted(gs, c))
    decreases c
  {
    if c > 0 {
      var k := |gs| - c;
      ConvertedDistinct(t, gs, c - 1);
      forall x | x in Converted(gs, c - 1) ensures x !in gs[k] {
        ConvertedMember(t, gs, c - 1, x);
      }
      DistinctAppend(Converted(gs, c - 1), gs[k]);
    }
  }

  /** The first generations converted are a prefix of the later lists. */
  lemma {:induction false} ConvertedPrefix(gs: seq<seq<Path>>, b: nat, c: nat)
    requires b <= c <= |gs|
    ensures |Converted(gs, b)| <= |Converted(gs, c)|
    ensures Converted(gs, c)[..|Converted(gs, b)|] == Converted(gs, b)
    decreases c
  {
    if b < c {
      ConvertedPrefix(gs, b, c - 1);
      var pre, whole := Converted(gs, c - 1), Converted(gs, c);
      assert whole[..|pre|] == pre;
      assert whole[..|pre|][..|Converted(gs, b)|] == whole[..|Converted(gs, b)|];
    }
  }

  /** Every node is converted. */
  lemma ConversionOrderMembers(t: GambitTree, p: Path)
    ensures p in ConversionOrder(t) <==> ValidPath(t, p)
  {
    var gs := Generations(t);
    GenerationsLayered(t);
    ConvertedMember(t, gs, |gs|, p);
    assert ConversionOrder(t) == Converted(gs, |gs|);
  }

  /** No node is converted twice. */
  lemma ConversionOrderDistinct(t: GambitTree)
    ensures Distinct(ConversionOrder(t))
  {
    GenerationsLayered(t);
    ConvertedDistinct(t, Generations(t), Height(t) + 1);
  }

  /** A node is converted after each of its children, so the converted
      children exist when its own dictionary is built. */
  lemma ChildrenConvertedFirst(t: GambitTree, p: Path, i: nat)
    requires ValidPath(t, p + [i])
    ensures p + [i] in ConversionOrder(t) && p in ConversionOrder(t)
    ensures IndexOf(ConversionOrder(t), p + [i]) < IndexOf(ConversionOrder(t), p)
  {
    GenerationsLayered(t);
    ChildBeforeParent(t, Generations(t), p, i);
  }

  lemma ChildBeforeParent(t: GambitTree, gs: seq<seq<Path>>, p: Path, i: nat)
    requires LayeredBy(t, gs) && ValidPath(t, p + [i])
    ensures p + [i] in Converted(gs, |gs|) && p in Converted(gs, |gs|)
    ensures IndexOf(Converted(gs, |gs|), p + [i]) < IndexOf(Converted(gs, |gs|), p)
  {
    ValidSnoc(t, p, i);
    PathWithinHeight(t, p + [i]);
    ConvertedMember(t, gs, |gs|, p);
    ConvertedMember(t, gs, |gs|, p + [i]);
    var b := |gs| - 1 - |p|;
    ConvertedMember(t, gs, b, p);
    ConvertedMember(t, gs, b, p + [i]);
    ConvertedPrefix(gs, b, |gs|);
    var order, pre := Converted(gs, |gs|), Converted(gs, b);
    assert order[..|pre|] == pre;
    var ic := IndexOf(pre, p + [i]);
    assert order[ic] == p + [i];
    // The first p + [i] lies in `pre`, and p lies past it.
    assert p + [i] in order[..ic + 1];
    assert p !in order[..|pre|];
  }

  /** The root is converted last. */
  lemma RootConvertedLast(t: GambitTree)
    ensures |ConversionOrder(t)| > 0 && ConversionOrder(t)[|ConversionOrder(t)| - 1] == []
  {
    assert Generations(t)[0] == [[]];
  }

  /** The conversion loop of `_gambit_to_sage`: the generations are visited
      from the deepest, and each node is turned into a leaf or a node; the
      first terminal node without an outcome stops the conversion. On
      success the result is the order in which the nodes were converted. */
  method ConvertTree(t: GambitTree) returns (r: Result<seq<Path>, BridgeError>)
    ensures r.Failure? <==> exists p :: ValidPath(t, p) && MissingOutcome(At(t, p))
    ensures r.Failure? ==> r.error == TerminalWithoutOutcome
    ensures r.Success? ==> r.value == ConversionOrder(t)
  {
    var layers := GenerationLayers(t);
    GenerationsAreLayers(t, layers);
    r := ConvertLayers(t, layers);
    if r.Success? {
      NothingMissing(t, r.value);
    }
  }

  /** The outer loop of the conversion, over the generations `layers`
      from the deepest. */
  method ConvertLayers(t: GambitTree, layers: seq<seq<Path>>) returns (r: Result<seq<Path>, BridgeError>)
    requires |layers| == Height(t) + 1
    requires forall k :: 0 <= k < |layers| ==> layers[k] == Layer(t, k)
    ensures r.Failure? ==> r.error == TerminalWithoutOutcome && exists p :: ValidPath(t, p) && MissingOutcome(At(t, p))
    ensures r.Success? ==> r.value == Converted(layers, |layers|) && AllPresent(t, r.value)
  {
    var h := |layers| - 1;
    var done: seq<Path> := [];
    var c := 0;
    while c < |layers|
      invariant 0 <= c <= |layers|
      invariant done == Converted(layers, c)
      invariant AllPresent(t, done)
    {
      var generation := layers[h - c];
      r := ConvertGeneration(t, generation, h - c, done);
      if r.Failure? {
        return;
      }
      ConvertedStep(layers, c);
      done := r.value;
      c := c + 1;
    }
    r := Success(done);
  }

  lemma GenerationsAreLayers(t: GambitTree, layers: seq<seq<Path>>)
    requires layers == Generations(t)
    ensures |layers| == Height(t) + 1
    ensures forall k :: 0 <= k < |layers| ==> layers[k] == Layer(t, k)
  {
  }

  lemma ConvertedStep(gs: seq<seq<Path>>, c: nat)
    requires c < |gs|
    ensures Converted(gs, c + 1) == Converted(gs, c) + gs[|gs| - 1 - c]
  {
  }

  /** Each node converted so far is a node of t with an outcome or children. */
  ghost predicate AllPresent(t: GambitTree, done: seq<Path>)
  {
    forall m :: 0 <= m < |done| ==> ValidPath(t, done[m]) && !MissingOutcome(At(t, done[m]))
  }

  lemma AllPresentSnoc(t: GambitTree, done: seq<Path>, p: Path)
    requires AllPresent(t, done) && ValidPath(t, p) && !MissingOutcome(At(t, p))
    ensures AllPresent(t, done + [p])
  {
  }

  /** Once every node has been converted, none lacks an outcome. */
  lemma NothingMissing(t: GambitTree, done: seq<Path>)
    requires done == ConversionOrder(t) && AllPresent(t, done)
    ensures forall p :: ValidPath(t, p) ==> !MissingOutcome(At(t, p))
  {
    forall p | ValidPath(t, p) ensures !MissingOutcome(At(t, p)) {
      ConversionOrderMembers(t, p);
      var m :| 0 <= m < |done| && done[m] == p;
    }
  }

  /** The inner loop of the conversion: one generation, node by node. */
  method ConvertGeneration(t: GambitTree, generation: seq<Path>, ghost k: nat, done0: seq<Path>)
    returns (r: Result<seq<Path>, BridgeError>)
    requires generation == Layer(t, k) && AllPresent(t, done0)
    ensures r.Failure? ==> r.error == TerminalWithoutOutcome && exists p :: ValidPath(t, p) && MissingOutcome(At(t, p))
    ensures r.Success? ==> r.value == done0 + generation && AllPresent(t, r.value)
  {
    var done := done0;
    var j := 0;
    while j < |generation|
      invariant 0 <= j <= |generation|
      invariant done == done0 + generation[..j]
      invariant AllPresent(t, done)
    {
      var node := generation[j];
      LayerMember(t, k, node);
      if MissingOutcome(At(t, node)) {
        return Failure(TerminalWithoutOutcome);
      }
      AllPresentSnoc(t, done, node);
      assert generation[..j + 1] == generation[..j] + [node];
      done := done + [node];
      j := j + 1;
    }
    assert generation[..j] == generation;
    r := Success(done);
  }
}
