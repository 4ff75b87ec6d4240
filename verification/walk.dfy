/**
 * What the depth-first walk `all_nodes` produces, stated as functions of the
 * search tree: the pre-order list of visited nodes, the parent/child pairs in
 * the order their edges are appended, the node map the visits build and the
 * edge list with sequential ids.
 */
module Walk {
  import opened Wrappers
  import opened MctsNodes
  import opened TreeSnapshots
  import opened DataFactories

  /** A parent/child relation met by the walk: the edge `parent.id -> child.id`. */
  datatype Pair = Pair(parent: MctsNode, child: MctsNode)

  /** The nodes of `t` in depth-first pre-order, children left to right. */
  function Preorder(t: MctsNode): seq<MctsNode>
    decreases t, 1
  {
    match t.children
    case Absent => [t]
    case Present(cs) => [t] + PreorderOf(t, |cs|)
  }

  /** The pre-order lists of the first `k` children of `t`, concatenated. */
  function PreorderOf(t: MctsNode, k: nat): seq<MctsNode>
    requires t.children.Present? && k <= |t.children.nodes|
    decreases t, 0, k
  {
    if k == 0 then [] else PreorderOf(t, k - 1) + Preorder(t.children.nodes[k - 1])
  }

  /** The parent/child pairs of `t` in the order the walk appends their edges. */
  function Pairs(t: MctsNode): seq<Pair>
    decreases t, 1
  {
    match t.children
    case Absent => []
    case Present(cs) => PairsOf(t, |cs|)
  }

  /** The pairs the walk appends while handling the first `k` children of `t`. */
  function PairsOf(t: MctsNode, k: nat): seq<Pair>
    requires t.children.Present? && k <= |t.children.nodes|
    decreases t, 0, k
  {
    if k == 0 then []
    else
      var c := t.children.nodes[k - 1];
      PairsOf(t, k - 1) + [Pair(t, c)] + Pairs(c)
  }

  /** The node record stored for a visited node. */
  function NodeOf(n: MctsNode): Node
  {
    Node(n.id, NodeDataOf(n))
  }

  /** The native ids of a list of search nodes. */
  function Ids(ns: seq<MctsNode>): set<NodeId>
  {
    set n | n in ns :: n.id
  }

  /** The node map after visiting `ns` in order starting from `m`; a later visit of an id overwrites an earlier one. */
  function InsertAll(m: map<NodeId, Node>, ns: seq<MctsNode>): (r: map<NodeId, Node>)
    decreases |ns|
    ensures r.Keys == m.Keys + Ids(ns)
  {
    if ns == [] then m else InsertAll(m[ns[0].id := NodeOf(ns[0])], ns[1..])
  }

  /**
   * The keys the node dictionary gains, in the order it first meets them,
   * while visiting `ns` when it already holds the keys `seen`: a dictionary
   * keeps a key at the position of its first insertion.
   */
  function NewIds(seen: set<NodeId>, ns: seq<MctsNode>): seq<NodeId>
    decreases |ns|
  {
    if ns == [] then []
    else
      var rest := NewIds(seen + {ns[0].id}, ns[1..]);
      if ns[0].id in seen then rest else [ns[0].id] + rest
  }

  /** The keys gained are exactly the visited ids not already present, and each is listed once. */
  lemma {:induction false} NewIdsSpec(seen: set<NodeId>, ns: seq<MctsNode>)
    decreases |ns|
    ensures forall k :: k in NewIds(seen, ns) <==> k in Ids(ns) && k !in seen
    ensures forall i, j :: 0 <= i < j < |NewIds(seen, ns)| ==> NewIds(seen, ns)[i] != NewIds(seen, ns)[j]
  {
    if ns != [] {
      NewIdsSpec(seen + {ns[0].id}, ns[1..]);
      assert forall k :: k in Ids(ns) <==> k == ns[0].id || k in Ids(ns[1..]) by {
        assert ns == [ns[0]] + ns[1..];
      }
    }
  }

  /** `list(d.values())` for a dictionary with entries `m` and key order `order`. */
  function Values(m: map<NodeId, Node>, order: seq<NodeId>): (r: seq<Node>)
    requires forall k :: k in order ==> k in m
    decreases |order|
    ensures |r| == |order|
    ensures forall i :: 0 <= i < |r| ==> order[i] in m && r[i] == m[order[i]]
  {
    if order == [] then []
    else
      var last := order[|order| - 1];
      assert last in order;
      Values(m, order[..|order| - 1]) + [m[last]]
  }

  /** Every pair's child carries reward diagnostics, so every edge payload can be built. */
  predicate Rewarded(ps: seq<Pair>)
  {
    forall i :: 0 <= i < |ps| ==> EdgeDataOf(ps[i].child).Some?
  }

  /** The edges appended for `ps` when the edge list already holds `base` edges. */
  function MakeEdges(base: nat, ps: seq<Pair>): (es: seq<Edge>)
    requires Rewarded(ps)
    decreases |ps|
    ensures |es| == |ps|
  {
    if ps == [] then []
    else [Edge(base, ps[0].parent.id, ps[0].child.id, EdgeDataOf(ps[0].child).value)] + MakeEdges(base + 1, ps[1..])
  }

  /** Edge `i` of `MakeEdges(base, ps)` has id `base + i` and joins the `i`-th pair, carrying its child's payload. */
  lemma {:induction false} MakeEdgesAt(base: nat, ps: seq<Pair>)
    requires Rewarded(ps)
    decreases |ps|
    ensures forall i :: 0 <= i < |ps| ==>
      MakeEdges(base, ps)[i] == Edge(base + i, ps[i].parent.id, ps[i].child.id, EdgeDataOf(ps[i].child).value)
  {
    if ps != [] {
      MakeEdgesAt(base + 1, ps[1..]);
    }
  }

  /** The node map one iteration's walk builds from an empty map. */
  function WalkedNodes(root: MctsNode): map<NodeId, Node>
  {
    InsertAll(map[], Preorder(root))
  }

  /** The node list one iteration's walk hands to the snapshot: the map's values in first-visit order. */
  function WalkedNodeList(root: MctsNode): seq<Node>
  {
    NewIdsSpec({}, Preorder(root));
    Values(WalkedNodes(root), NewIds({}, Preorder(root)))
  }

  /** The edge list one iteration's walk builds from an empty list. */
  function WalkedEdges(root: MctsNode): seq<Edge>
    requires Rewarded(Pairs(root))
  {
    MakeEdges(0, Pairs(root))
  }

  /** `child` is an entry of `parent`'s children collection. */
  ghost predicate IsChildOf(p: Pair)
  {
    p.parent.children.Present? && p.child in p.parent.children.nodes
  }

  ghost predicate DistinctIds(ns: seq<MctsNode>)
  {
    forall i, j :: 0 <= i < j < |ns| ==> ns[i].id != ns[j].id
  }

  // ---------------------------------------------------------------------
  // Shape of the walk

  /**
   * Edge `i` leads into the node visited `i + 1`-th in pre-order: one edge
   * per non-root node, in pre-order, so there are exactly |nodes| - 1 edges.
   */
  lemma {:induction false} PairsFollowPreorder(t: MctsNode)
    decreases t, 1
    ensures |Preorder(t)| == |Pairs(t)| + 1 && Preorder(t)[0] == t
    ensures forall i :: 0 <= i < |Pairs(t)| ==> Pairs(t)[i].child == Preorder(t)[i + 1]
  {
    match t.children
    case Absent =>
    case Present(cs) =>
      PairsOfFollowPreorderOf(t, |cs|);
  }

  lemma {:induction false} PairsOfFollowPreorderOf(t: MctsNode, k: nat)
    requires t.children.Present? && k <= |t.children.nodes|
    decreases t, 0, k
    ensures |PreorderOf(t, k)| == |PairsOf(t, k)|
    ensures forall i :: 0 <= i < |PairsOf(t, k)| ==> PairsOf(t, k)[i].child == PreorderOf(t, k)[i]
  {
    if k > 0 {
      var c := t.children.nodes[k - 1];
      var a, b := PairsOf(t, k - 1), Pairs(c);
      var a', b' := PreorderOf(t, k - 1), Preorder(c);
      PairsOfFollowPreorderOf(t, k - 1);
      PairsFollowPreorder(c);
      assert PairsOf(t, k) == a + [Pair(t, c)] + b;
      assert PreorderOf(t, k) == a' + b';
      forall i | 0 <= i < |PairsOf(t, k)| ensures PairsOf(t, k)[i].child == PreorderOf(t, k)[i] {
        if i < |a| {
        } else if i == |a| {
        } else {
          assert PairsOf(t, k)[i] == b[i - |a| - 1];
          assert PreorderOf(t, k)[i] == b'[i - |a|];
        }
      }
    }
  }

  /** The number of entries in the children collections of `t` and of every node below it. */
  function ChildEntries(t: MctsNode): nat
    decreases t, 1
  {
    match t.children
    case Absent => 0
    case Present(cs) => ChildEntriesOf(t, |cs|)
  }

  /** The entries among the first `k` children of `t`, counting each child and everything below it. */
  function ChildEntriesOf(t: MctsNode, k: nat): nat
    requires t.children.Present? && k <= |t.children.nodes|
    decreases t, 0, k
  {
    if k == 0 then 0 else ChildEntriesOf(t, k - 1) + 1 + ChildEntries(t.children.nodes[k - 1])
  }

  /** One pair, hence one edge, per entry of a children collection anywhere in the tree. */
  lemma {:induction false} PairsCountChildEntries(t: MctsNode)
    decreases t, 1
    ensures |Pairs(t)| == ChildEntries(t)
  {
    match t.children
    case Absent =>
    case Present(cs) =>
      PairsOfCountChildEntries(t, |cs|);
  }

  lemma {:induction false} PairsOfCountChildEntries(t: MctsNode, k: nat)
    requires t.children.Present? && k <= |t.children.nodes|
    decreases t, 0, k
    ensures |PairsOf(t, k)| == ChildEntriesOf(t, k)
  {
    if k > 0 {
      PairsOfCountChildEntries(t, k - 1);
      PairsCountChildEntries(t.children.nodes[k - 1]);
    }
  }

  /** Every pair joins a visited node to an entry of its own children collection. */
  lemma {:induction false} PairsAreTreeEdges(t: MctsNode)
    decreases t, 1
    ensures forall p :: p in Pairs(t) ==> IsChildOf(p) && p.parent in Preorder(t)
  {
    match t.children
    case Absent =>
    case Present(cs) =>
      PairsOfAreTreeEdges(t, |cs|);
  }

  lemma {:induction false} PairsOfAreTreeEdges(t: MctsNode, k: nat)
    requires t.children.Present? && k <= |t.children.nodes|
    decreases t, 0, k
    ensures forall p :: p in PairsOf(t, k) ==> IsChildOf(p) && (p.parent == t || p.parent in PreorderOf(t, k))
  {
    if k > 0 {
      var c := t.children.nodes[k - 1];
      PairsOfAreTreeEdges(t, k - 1);
      PairsAreTreeEdges(c);
      assert PairsOf(t, k) == PairsOf(t, k - 1) + [Pair(t, c)] + Pairs(c);
      assert PreorderOf(t, k) == PreorderOf(t, k - 1) + Preorder(c);
    }
  }

  /**
   * The converse of `PairsAreTreeEdges`: every entry `c` of the children
   * collection of every visited node `n` gets its pair, hence its edge.
   */
  lemma {:induction false} AllEntriesHavePairs(t: MctsNode, n: MctsNode, c: MctsNode)
    requires n in Preorder(t) && n.children.Present? && c in n.children.nodes
    decreases t, 1
    ensures Pair(n, c) in Pairs(t)
  {
    match t.children
    case Absent =>
    case Present(cs) =>
      if n == t {
        var k :| 0 <= k < |cs| && cs[k] == c;
        PairsOfPrefix(t, k + 1, |cs|);
        assert PairsOf(t, k + 1)[|PairsOf(t, k)|] == Pair(t, c);
      } else {
        EntriesOf(t, |cs|, n, c);
      }
  }

  lemma {:induction false} EntriesOf(t: MctsNode, k: nat, n: MctsNode, c: MctsNode)
    requires t.children.Present? && k <= |t.children.nodes|
    requires n in PreorderOf(t, k) && n.children.Present? && c in n.children.nodes
    decreases t, 0, k
    ensures Pair(n, c) in PairsOf(t, k)
  {
    var last := t.children.nodes[k - 1];
    assert PairsOf(t, k) == PairsOf(t, k - 1) + [Pair(t, last)] + Pairs(last);
    if n in PreorderOf(t, k - 1) {
      EntriesOf(t, k - 1, n, c);
    } else {
      AllEntriesHavePairs(last, n, c);
    }
  }

  /** The pairs of the first `k` children are a prefix of those of the first `m`. */
  lemma {:induction false} PairsOfPrefix(t: MctsNode, k: nat, m: nat)
    requires t.children.Present? && k <= m <= |t.children.nodes|
    decreases m
    ensures PairsOf(t, k) <= PairsOf(t, m)
  {
    if k < m {
      PairsOfPrefix(t, k, m - 1);
    }
  }

  /**
   * Sibling order: with `p` the number of edges appended for the children
   * before `cs[k]`, the edge into `cs[k]` sits at `p`, the edges of `cs[k]`'s
   * subtree follow it immediately, and the edge into `cs[k + 1]` comes right
   * after them.
   */
  lemma SiblingOrder(t: MctsNode, k: nat)
    requires t.children.Present? && k < |t.children.nodes|
    ensures var cs, p := t.children.nodes, |PairsOf(t, k)|;
      p + |Pairs(cs[k])| < |Pairs(t)| &&
      Pairs(t)[p] == Pair(t, cs[k]) &&
      Pairs(t)[p + 1 .. p + 1 + |Pairs(cs[k])|] == Pairs(cs[k]) &&
      (k + 1 < |cs| ==>
        p + 1 + |Pairs(cs[k])| < |Pairs(t)| && Pairs(t)[p + 1 + |Pairs(cs[k])|] == Pair(t, cs[k + 1]))
  {
    var cs := t.children.nodes;
    var p := |PairsOf(t, k)|;
    PairsOfPrefix(t, k + 1, |cs|);
    var front := PairsOf(t, k + 1);
    assert front == PairsOf(t, k) + [Pair(t, cs[k])] + Pairs(cs[k]);
    assert front[p + 1 .. p + 1 + |Pairs(cs[k])|] == Pairs(cs[k]);
    if k + 1 < |cs| {
      PairsOfPrefix(t, k + 2, |cs|);
      assert PairsOf(t, k + 2) == front + [Pair(t, cs[k + 1])] + Pairs(cs[k + 1]);
      assert PairsOf(t, k + 2)[|front|] == Pair(t, cs[k + 1]);
    }
  }

  /** A node without a children collection yields one node entry and no edge. */
  lemma LeafWalk(t: MctsNode)
    requires t.children.Absent?
    ensures Pairs(t) == [] && Rewarded(Pairs(t)) && WalkedEdges(t) == []
    ensures WalkedNodes(t) == map[t.id := NodeOf(t)]
  {
    var m := map[t.id := NodeOf(t)];
    assert Preorder(t) == [t];
    assert InsertAll(map[], [t]) == InsertAll(m, []) by { assert [t][1..] == []; }
    assert InsertAll(m, []) == m;
  }

  /** The walk succeeds exactly when every node below the root carries reward diagnostics. */
  lemma RewardedIff(t: MctsNode)
    ensures Rewarded(Pairs(t)) <==> forall i :: 1 <= i < |Preorder(t)| ==> GetReward(Preorder(t)[i]).Some?
  {
    PairsFollowPreorder(t);
    if !Rewarded(Pairs(t)) {
      var i :| 0 <= i < |Pairs(t)| && EdgeDataOf(Pairs(t)[i].child).None?;
      assert GetReward(Preorder(t)[i + 1]).None?;
    }
    if Rewarded(Pairs(t)) {
      forall i | 1 <= i < |Preorder(t)| ensures GetReward(Preorder(t)[i]).Some? {
        assert EdgeDataOf(Pairs(t)[i - 1].child).Some?;
      }
    }
  }

  // ---------------------------------------------------------------------
  // Node map

  lemma {:induction false} NewIdsConcat(seen: set<NodeId>, a: seq<MctsNode>, b: seq<MctsNode>)
    decreases |a|
    ensures NewIds(seen, a + b) == NewIds(seen, a) + NewIds(seen + Ids(a), b)
  {
    if a == [] {
      assert a + b == b;
      assert Ids(a) == {};
      assert seen + Ids(a) == seen;
      assert NewIds(seen, a) == [];
      assert NewIds(seen, a + b) == NewIds(seen, b);
      assert NewIds(seen, a) + NewIds(seen + Ids(a), b) == NewIds(seen, b);
    } else {
      assert (a + b)[0] == a[0];
      assert (a + b)[1..] == a[1..] + b;
      NewIdsConcat(seen + {a[0].id}, a[1..], b);
      assert seen + {a[0].id} + Ids(a[1..]) == seen + Ids(a) by {
        assert a == [a[0]] + a[1..];
      }
    }
  }

  /** A node list taken from a map along an order lists each ordered key's entry, so its id-keyed map is the map restricted to those keys. */
  lemma {:induction false} NodesByIdOfValues(m: map<NodeId, Node>, order: seq<NodeId>)
    requires forall k :: k in order ==> k in m && m[k].id == k
    decreases |order|
    ensures NodesById(Values(m, order)) == map k | k in order :: m[k]
  {
    if order != [] {
      var front, last := order[..|order| - 1], order[|order| - 1];
      assert last in order;
      var before := Values(m, front);
      assert Values(m, order) == before + [m[last]];
      LastOf(before, m[last]);
      assert NodesById(Values(m, order)) == NodesById(before)[last := m[last]];
      NodesByIdOfValues(m, front);
      RestrictedExtend(m, front, last);
      assert front + [last] == order;
    }
  }

  /** Dropping the element appended last gives back the original sequence. */
  lemma LastOf<T>(a: seq<T>, x: T)
    ensures (a + [x])[..|a|] == a && (a + [x])[|a|] == x && |a + [x]| == |a| + 1
  {
  }

  /** Extending a key order by one key extends the map it selects by that key's entry. */
  lemma RestrictedExtend(m: map<NodeId, Node>, front: seq<NodeId>, last: NodeId)
    requires forall k :: k in front ==> k in m
    requires last in m
    ensures (map k | k in front :: m[k])[last := m[last]] == map k | k in front + [last] :: m[k]
  {
    var lhs, rhs := (map k | k in front :: m[k])[last := m[last]], map k | k in front + [last] :: m[k];
    forall k ensures k in lhs <==> k in rhs {
      assert k in front + [last] <==> k in front || k == last;
    }
    assert lhs.Keys == rhs.Keys;
  }

  /**
   * The dictionary's key order after a walk from empty accumulators lists
   * every key of its node map, and each only once.
   */
  lemma WalkedKeyOrder(t: MctsNode)
    ensures forall k :: k in NewIds({}, Preorder(t)) <==> k in WalkedNodes(t)
    ensures forall i, j :: 0 <= i < j < |NewIds({}, Preorder(t))| ==> NewIds({}, Preorder(t))[i] != NewIds({}, Preorder(t))[j]
  {
    NewIdsSpec({}, Preorder(t));
  }

  /** Keyed by id, the node list handed to the snapshot is exactly the walk's node map. */
  lemma WalkedNodeListMatchesMap(t: MctsNode)
    ensures NodesById(WalkedNodeList(t)) == WalkedNodes(t)
  {
    WalkedKeyOrder(t);
    InsertAllKeyed(map[], Preorder(t));
    ValuesOfFullOrder(WalkedNodes(t), NewIds({}, Preorder(t)));
  }

  /** The node list handed to the snapshot holds each reachable id once, in first-visit order. */
  lemma WalkedNodeListIds(t: MctsNode)
    ensures NodeIds(WalkedNodeList(t)) == Ids(Preorder(t))
    ensures forall i, j :: 0 <= i < j < |WalkedNodeList(t)| ==> WalkedNodeList(t)[i].id != WalkedNodeList(t)[j].id
  {
    WalkedKeyOrder(t);
    InsertAllKeyed(map[], Preorder(t));
    ValuesOfFullOrder(WalkedNodes(t), NewIds({}, Preorder(t)));
  }

  /** Listing every key of a map once, in any order, lists its entries so that keying them by id gives the map back. */
  lemma ValuesOfFullOrder(m: map<NodeId, Node>, order: seq<NodeId>)
    requires forall k :: k in order <==> k in m
    requires forall k :: k in m ==> m[k].id == k
    requires forall i, j :: 0 <= i < j < |order| ==> order[i] != order[j]
    ensures NodesById(Values(m, order)) == m
    ensures NodeIds(Values(m, order)) == m.Keys
    ensures forall i, j :: 0 <= i < j < |order| ==> Values(m, order)[i].id != Values(m, order)[j].id
  {
    var ns := Values(m, order);
    assert NodesById(ns) == m by {
      NodesByIdOfValues(m, order);
      MapOfFullOrder(m, order);
    }
    assert forall i :: 0 <= i < |ns| ==> ns[i].id == order[i];
  }

  lemma MapOfFullOrder(m: map<NodeId, Node>, order: seq<NodeId>)
    requires forall k :: k in order <==> k in m
    ensures (map k | k in order :: m[k]) == m
  {
    var r := map k | k in order :: m[k];
    forall k ensures k in r <==> k in m {
      assert k in r <==> k in order;
    }
    assert r.Keys == m.Keys;
  }

  lemma {:induction false} InsertAllConcat(m: map<NodeId, Node>, a: seq<MctsNode>, b: seq<MctsNode>)
    decreases |a|
    ensures InsertAll(m, a + b) == InsertAll(InsertAll(m, a), b)
  {
    if a == [] {
      assert a + b == b;
    } else {
      var m' := m[a[0].id := NodeOf(a[0])];
      assert (a + b)[0] == a[0];
      assert (a + b)[1..] == a[1..] + b;
      calc {
        InsertAll(m, a + b);
        InsertAll(m', a[1..] + b);
        { InsertAllConcat(m', a[1..], b); }
        InsertAll(InsertAll(m', a[1..]), b);
        InsertAll(InsertAll(m, a), b);
      }
    }
  }

  /** Visiting nodes with distinct new ids adds one entry per node, each holding that node's record. */
  lemma {:induction false} InsertAllDistinct(m: map<NodeId, Node>, ns: seq<MctsNode>)
    requires DistinctIds(ns)
    requires forall n :: n in ns ==> n.id !in m
    decreases |ns|
    ensures |InsertAll(m, ns)| == |m| + |ns|
    ensures forall n :: n in ns ==> InsertAll(m, ns)[n.id] == NodeOf(n)
  {
    if ns != [] {
      var m' := m[ns[0].id := NodeOf(ns[0])];
      forall n | n in ns[1..] ensures n.id !in m' {
        var j :| 0 <= j < |ns[1..]| && ns[1..][j] == n;
        assert ns[j + 1] == n;
      }
      InsertAllDistinct(m', ns[1..]);
      var r := InsertAll(m', ns[1..]);
      assert ns[0].id in r && r[ns[0].id] == NodeOf(ns[0]) by {
        InsertAllKeeps(m', ns[1..], ns[0].id);
      }
    }
  }

  /** An id that no visited node carries keeps its entry. */
  lemma {:induction false} InsertAllKeeps(m: map<NodeId, Node>, ns: seq<MctsNode>, k: NodeId)
    requires k in m
    requires forall n :: n in ns ==> n.id != k
    decreases |ns|
    ensures InsertAll(m, ns)[k] == m[k]
  {
    if ns != [] {
      InsertAllKeeps(m[ns[0].id := NodeOf(ns[0])], ns[1..], k);
    }
  }

  /** Every entry of the map is stored under its own node's id. */
  lemma {:induction false} InsertAllKeyed(m: map<NodeId, Node>, ns: seq<MctsNode>)
    requires forall k :: k in m ==> m[k].id == k
    decreases |ns|
    ensures forall k :: k in InsertAll(m, ns) ==> InsertAll(m, ns)[k].id == k
  {
    if ns != [] {
      InsertAllKeyed(m[ns[0].id := NodeOf(ns[0])], ns[1..]);
    }
  }

  /**
   * The node map of a walk: its keys are exactly the ids reachable from the
   * root, each entry is stored under its own id, and when the tree's ids are
   * distinct there is one entry per tree node holding that node's record.
   */
  lemma WalkedNodesMatchTree(t: MctsNode)
    ensures WalkedNodes(t).Keys == Ids(Preorder(t))
    ensures forall k :: k in WalkedNodes(t) ==> WalkedNodes(t)[k].id == k
    ensures DistinctIds(Preorder(t)) ==>
      |WalkedNodes(t)| == |Preorder(t)| &&
      forall n :: n in Preorder(t) ==> WalkedNodes(t)[n.id] == NodeOf(n)
  {
    InsertAllKeyed(map[], Preorder(t));
    if DistinctIds(Preorder(t)) {
      InsertAllDistinct(map[], Preorder(t));
    }
  }

  // ---------------------------------------------------------------------
  // Edge list

  lemma {:induction false} MakeEdgesConcat(base: nat, a: seq<Pair>, b: seq<Pair>)
    requires Rewarded(a) && Rewarded(b)
    ensures Rewarded(a + b)
    ensures MakeEdges(base, a + b) == MakeEdges(base, a) + MakeEdges(base + |a|, b)
  {
    assert forall i :: 0 <= i < |a + b| ==> (a + b)[i] == if i < |a| then a[i] else b[i - |a|];
    MakeEdgesAt(base, a + b);
    MakeEdgesAt(base, a);
    MakeEdgesAt(base + |a|, b);
  }

  /**
   * The edge list of a walk: ids are exactly the positions 0 .. |edges| - 1,
   * edge `i` runs from a visited node to one of its children, namely the node
   * visited `i + 1`-th in pre-order, and it carries that child's payload,
   * which always has a "Q" entry.
   */
  lemma WalkedEdgesShape(t: MctsNode)
    requires Rewarded(Pairs(t))
    ensures |WalkedEdges(t)| + 1 == |Preorder(t)| && |WalkedEdges(t)| == ChildEntries(t)
    ensures IdsAreIndices(WalkedEdges(t)) && Ascending(WalkedEdges(t))
    ensures forall i :: 0 <= i < |WalkedEdges(t)| ==>
      WalkedEdges(t)[i].source == Pairs(t)[i].parent.id &&
      WalkedEdges(t)[i].target == Pairs(t)[i].child.id &&
      IsChildOf(Pairs(t)[i]) && Pairs(t)[i].parent in Preorder(t) &&
      WalkedEdges(t)[i].target == Preorder(t)[i + 1].id &&
      EdgeDataOf(Preorder(t)[i + 1]) == Some(WalkedEdges(t)[i].data) &&
      "Q" in WalkedEdges(t)[i].data
  {
    MakeEdgesAt(0, Pairs(t));
    PairsFollowPreorder(t);
    PairsAreTreeEdges(t);
    PairsCountChildEntries(t);
    forall i | 0 <= i < |Pairs(t)| ensures IsChildOf(Pairs(t)[i]) && Pairs(t)[i].parent in Preorder(t) {
      assert Pairs(t)[i] in Pairs(t);
    }
  }

  /**
   * Every entry `c` of the children collection of every visited node `n`
   * has an edge from `n` to `c` carrying `c`'s payload.
   */
  lemma AllEntriesHaveEdges(t: MctsNode, n: MctsNode, c: MctsNode)
    requires Rewarded(Pairs(t))
    requires n in Preorder(t) && n.children.Present? && c in n.children.nodes
    ensures exists i :: 0 <= i < |WalkedEdges(t)| &&
                        WalkedEdges(t)[i].source == n.id && WalkedEdges(t)[i].target == c.id &&
                        EdgeDataOf(c) == Some(WalkedEdges(t)[i].data)
  {
    AllEntriesHavePairs(t, n, c);
    var i :| 0 <= i < |Pairs(t)| && Pairs(t)[i] == Pair(n, c);
    MakeEdgesAt(0, Pairs(t));
    assert WalkedEdges(t)[i].source == n.id && WalkedEdges(t)[i].target == c.id;
  }

  /** A walk's node map and edge list form a well-formed snapshot: both ends of every edge are nodes. */
  lemma WalkedSnapshotWellFormed(t: MctsNode)
    requires Rewarded(Pairs(t))
    ensures WellFormed(WalkedNodes(t), WalkedEdges(t))
  {
    WalkedNodesMatchTree(t);
    WalkedEdgesShape(t);
    var ns, es := WalkedNodes(t), WalkedEdges(t);
    forall e | e in es ensures e.source in ns && e.target in ns {
      var i :| 0 <= i < |es| && es[i] == e;
      assert Pairs(t)[i].parent in Preorder(t);
      assert Preorder(t)[i + 1] in Preorder(t);
    }
  }

  /**
   * The node dictionary (entries `nodes`, key order `keyOrder`) and the edge
   * list `edges` are what `nodes0`, `keyOrder0` and `edges0` become after
   * visiting `visited` and appending the edges for `pairs`.
   */
  ghost predicate Extends(nodes: map<NodeId, Node>, keyOrder: seq<NodeId>, edges: seq<Edge>,
                          nodes0: map<NodeId, Node>, keyOrder0: seq<NodeId>, edges0: seq<Edge>,
                          visited: seq<MctsNode>, pairs: seq<Pair>)
  {
    Rewarded(pairs) &&
    nodes == InsertAll(nodes0, visited) &&
    keyOrder == keyOrder0 + NewIds(nodes0.Keys, visited) &&
    edges == edges0 + MakeEdges(|edges0|, pairs)
  }

  /** `Extends` by the subtrees of the first `k` children of `t` and by their pairs. */
  ghost predicate ExtendsByChildren(nodes: map<NodeId, Node>, keyOrder: seq<NodeId>, edges: seq<Edge>,
                                    nodes0: map<NodeId, Node>, keyOrder0: seq<NodeId>, edges0: seq<Edge>,
                                    t: MctsNode, k: nat)
  {
    t.children.Present? && k <= |t.children.nodes| &&
    Extends(nodes, keyOrder, edges, nodes0, keyOrder0, edges0, PreorderOf(t, k), PairsOf(t, k))
  }

  /** Once every child of `t` is handled, all of `t`'s pairs carry a payload. */
  lemma ChildrenRewarded(nodes: map<NodeId, Node>, keyOrder: seq<NodeId>, edges: seq<Edge>,
                         nodes0: map<NodeId, Node>, keyOrder0: seq<NodeId>, edges0: seq<Edge>, t: MctsNode)
    requires t.children.Present?
    requires ExtendsByChildren(nodes, keyOrder, edges, nodes0, keyOrder0, edges0, t, |t.children.nodes|)
    ensures Rewarded(Pairs(t))
  {
  }
}
