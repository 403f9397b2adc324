/** The CLI's node pool as values: every node is a slot of the pool, either on the free list or
    linked into a tree through its parent and its parent's list of items (lib/cli/cli.c). */
module CliTree {

  const CLI_NAME_LEN := 64
  const NULL := -1

  datatype Kind = Unknown | Dir | Cmd | File | Alias | Str

  /** One node. `parent` is the pool index of the parent directory, or NULL. */
  datatype Node = Node(kind: Kind, name: string, parent: int, items: seq<nat>)

  /** A node as calloc leaves it. */
  const CLEAR_NODE := Node(Unknown, "", NULL, [])

  ghost predicate NoDup<T>(s: seq<T>) {
    forall i, j :: 0 <= i < j < |s| ==> s[i] != s[j]
  }

  /** s without its first x: TAILQ_REMOVE, and cli_del_bin. */
  function Without<T(==)>(s: seq<T>, x: T): seq<T> {
    if s == [] then [] else if s[0] == x then s[1..] else [s[0]] + Without(s[1..], x)
  }

  lemma {:induction false} WithoutDrops<T>(s: seq<T>, x: T)
    requires NoDup(s)
    ensures NoDup(Without(s, x))
    ensures forall y :: y in Without(s, x) <==> y in s && y != x
  {
    if s != [] {
      assert s == [s[0]] + s[1..];
      assert forall k :: 0 <= k < |s| - 1 ==> s[1..][k] == s[k + 1];
      WithoutDrops(s[1..], x);
      var rest := Without(s[1..], x);
      assert s[0] != x ==> Without(s, x) == [s[0]] + rest;
      assert s[0] !in rest;
    }
  }

  ghost predicate InTree(nodes: seq<Node>, free: seq<nat>, i: int) {
    0 <= i < |nodes| && i !in free
  }

  /** Node i agrees with the lists it is on. */
  ghost predicate NodeOk(nodes: seq<Node>, free: seq<nat>, depth: seq<nat>, i: nat)
    requires i < |nodes| == |depth|
  {
    var n := nodes[i];
    if i in free then
      n.items == [] && NULL <= n.parent < |nodes|
    else
      && n.kind != Unknown
      && (n.kind == Dir || n.items == [])
      && NoDup(n.items)
      && (forall c :: c in n.items ==> InTree(nodes, free, c) && nodes[c].parent == i)
      && (n.parent == NULL ||
          (InTree(nodes, free, n.parent) && nodes[n.parent].kind == Dir && i in nodes[n.parent].items
           && depth[i] == depth[n.parent] + 1))
  }

  /** The pool is partitioned: the free list has no repeats, and every other node sits in a tree,
      at some depth not above `height`. */
  ghost predicate TreeOk(nodes: seq<Node>, free: seq<nat>, depth: seq<nat>, height: nat) {
    && |depth| == |nodes|
    && NoDup(free)
    && (forall f :: f in free ==> f < |nodes|)
    && (forall i: nat :: i < |nodes| ==> NodeOk(nodes, free, depth, i) && depth[i] <= height)
  }

  // --- ancestors

  ghost function Parents(nodes: seq<Node>): (p: seq<int>)
    ensures |p| == |nodes| && forall i :: 0 <= i < |nodes| ==> p[i] == nodes[i].parent
  {
    seq(|nodes|, i requires 0 <= i < |nodes| => nodes[i].parent)
  }

  /** The k-th ancestor of i, NULL beyond the last. */
  ghost function Up(parents: seq<int>, i: int, k: nat): int {
    if k == 0 then i
    else
      var u := Up(parents, i, k - 1);
      if 0 <= u < |parents| then parents[u] else NULL
  }

  /** i is a, or lies below it. */
  ghost predicate Below(parents: seq<int>, i: int, a: int) {
    exists k: nat :: Up(parents, i, k) == a
  }

  lemma BelowItself(parents: seq<int>, i: int)
    ensures Below(parents, i, i)
  {
    assert Up(parents, i, 0) == i;
  }

  lemma BelowParent(parents: seq<int>, i: int, c: int)
    requires 0 <= c < |parents| && Below(parents, i, c)
    ensures Below(parents, i, parents[c])
  {
    var k: nat :| Up(parents, i, k) == c;
    assert Up(parents, i, k + 1) == parents[c];
  }

  /** Ancestors of a tree node are in the tree, one level up each. */
  lemma {:induction false} AncestorsInTree(nodes: seq<Node>, free: seq<nat>, depth: seq<nat>,
                                           height: nat, i: nat, k: nat)
    requires TreeOk(nodes, free, depth, height) && InTree(nodes, free, i)
    requires Up(Parents(nodes), i, k) != NULL
    ensures InTree(nodes, free, Up(Parents(nodes), i, k))
    ensures depth[Up(Parents(nodes), i, k)] + k == depth[i]
  {
    if k > 0 {
      AncestorsInTree(nodes, free, depth, height, i, k - 1);
      assert NodeOk(nodes, free, depth, Up(Parents(nodes), i, k - 1));
    }
  }

  /** Everything below a node hangs below one of its items. */
  lemma BelowAnItem(nodes: seq<Node>, free: seq<nat>, depth: seq<nat>, height: nat, i: nat, a: nat)
    requires TreeOk(nodes, free, depth, height) && InTree(nodes, free, i)
    requires Below(Parents(nodes), i, a) && i != a && a < |nodes|
    ensures exists c :: c in nodes[a].items && Below(Parents(nodes), i, c)
  {
    var k: nat :| Up(Parents(nodes), i, k) == a;
    var c := Up(Parents(nodes), i, k - 1);
    AncestorsInTree(nodes, free, depth, height, i, k - 1);
    assert NodeOk(nodes, free, depth, c);
  }

  /** A directory is not below its own items. */
  lemma ParentNotBelow(nodes: seq<Node>, free: seq<nat>, depth: seq<nat>, height: nat, c: nat)
    requires TreeOk(nodes, free, depth, height) && InTree(nodes, free, c) && nodes[c].parent != NULL
    ensures !Below(Parents(nodes), nodes[c].parent, c)
  {
    var p := nodes[c].parent;
    assert NodeOk(nodes, free, depth, c);
    if Below(Parents(nodes), p, c) {
      var k: nat :| Up(Parents(nodes), p, k) == c;
      AncestorsInTree(nodes, free, depth, height, p, k);
    }
  }

  // --- adding and unlinking one node

  function Linked(nodes: seq<Node>, id: nat, node: Node): (r: seq<Node>)
    requires id < |nodes| && node.parent < |nodes|
  {
    var placed := nodes[id := node];
    if node.parent < 0 then placed
    else placed[node.parent := placed[node.parent].(items := [id] + placed[node.parent].items)]
  }

  /** Taking the head of the free list and linking it keeps the partition. */
  lemma LinkKeeps(nodes: seq<Node>, free: seq<nat>, depth: seq<nat>, height: nat, node: Node, d: nat)
    requires TreeOk(nodes, free, depth, height) && free != []
    requires node.kind != Unknown && node.items == []
    requires node.parent == NULL ||
             (InTree(nodes, free, node.parent) && nodes[node.parent].kind == Dir && d == depth[node.parent] + 1)
    ensures free[0] < |nodes|
    ensures TreeOk(Linked(nodes, free[0], node), free[1..], depth[free[0] := d],
                   if d > height then d else height)
  {
    var id := free[0];
    assert id in free;
    var nodes', free', depth' := Linked(nodes, id, node), free[1..], depth[id := d];
    assert forall f :: f in free' <==> f in free && f != id;
    forall i: nat | i < |nodes|
      ensures NodeOk(nodes', free', depth', i)
    {
      assert NodeOk(nodes, free, depth, i);
      assert NodeOk(nodes, free, depth, id);
    }
  }

  function Unlinked(nodes: seq<Node>, id: nat): (r: seq<Node>)
    requires id < |nodes| && 0 <= nodes[id].parent < |nodes|
    ensures |r| == |nodes|
  {
    var p := nodes[id].parent;
    nodes[p := nodes[p].(items := Without(nodes[p].items, id))]
  }

  /** Unlinking an empty node and freeing it keeps the partition. */
  lemma UnlinkKeeps(nodes: seq<Node>, free: seq<nat>, depth: seq<nat>, height: nat, id: nat)
    requires TreeOk(nodes, free, depth, height)
    requires InTree(nodes, free, id) && nodes[id].parent != NULL && nodes[id].items == []
    ensures 0 <= nodes[id].parent < |nodes|
    ensures TreeOk(Unlinked(nodes, id), free + [id], depth, height)
  {
    assert NodeOk(nodes, free, depth, id);
    var p := nodes[id].parent;
    var nodes', free' := Unlinked(nodes, id), free + [id];
    assert NodeOk(nodes, free, depth, p);
    WithoutDrops(nodes[p].items, id);
    forall i: nat | i < |nodes|
      ensures NodeOk(nodes', free', depth, i)
    {
      assert NodeOk(nodes, free, depth, i);
    }
  }

  // --- removing a whole subtree

  /** Exactly the tree nodes at or below `id` went to the end of the free list, each with an
      empty list of items; the parent lost `id` from its items, and no other node changed. */
  ghost predicate Removed(nodes: seq<Node>, free: seq<nat>, nodes': seq<Node>, free': seq<nat>, id: nat)
    requires id < |nodes|
  {
    && |nodes'| == |nodes| && free <= free'
    && (forall i :: i in free'[|free|..] <==> InTree(nodes, free, i) && Below(Parents(nodes), i, id))
    && (forall i :: 0 <= i < |nodes| ==>
          nodes'[i] == if i in free'[|free|..] then nodes[i].(items := [])
                       else if i == nodes[id].parent then nodes[i].(items := Without(nodes[i].items, id))
                       else nodes[i])
  }

  /** Some whole subtrees below `id` are gone, and `id` lists what is left. */
  ghost predicate Emptying(nodes: seq<Node>, free: seq<nat>, nodes': seq<Node>, free': seq<nat>, id: nat)
    requires id < |nodes|
  {
    && |nodes'| == |nodes| && free <= free'
    && (forall i :: i in free'[|free|..] ==>
          InTree(nodes, free, i) && Below(Parents(nodes), i, id) && i != id)
    && (forall i :: 0 <= i < |nodes| && i != id ==>
          nodes'[i] == if i in free'[|free|..] then nodes[i].(items := []) else nodes[i])
    && nodes'[id] == nodes[id].(items := nodes'[id].items)
  }

  lemma FreedTwice(free: seq<nat>, free': seq<nat>, free'': seq<nat>)
    requires free <= free' <= free''
    ensures forall i :: i in free''[|free|..] <==> i in free'[|free|..] || i in free''[|free'|..]
  {
    assert free''[|free|..] == free'[|free|..] + free''[|free'|..];
  }

  lemma EmptyingStep(n0: seq<Node>, f0: seq<nat>, n1: seq<Node>, f1: seq<nat>, n2: seq<Node>, f2: seq<nat>,
                     depth: seq<nat>, height: nat, id: nat)
    requires id < |n0| && Emptying(n0, f0, n1, f1, id)
    requires TreeOk(n1, f1, depth, height) && InTree(n1, f1, id) && n1[id].items != []
    requires n1[id].items[0] < |n1| && Removed(n1, f1, n2, f2, n1[id].items[0])
    ensures Emptying(n0, f0, n2, f2, id) && n2[id].items == n1[id].items[1..] && id !in f2
  {
    var c := n1[id].items[0];
    assert NodeOk(n1, f1, depth, id);
    assert Parents(n0) == Parents(n1);
    ParentNotBelow(n1, f1, depth, height, c);
    FreedTwice(f0, f1, f2);
    forall i | InTree(n1, f1, i) && Below(Parents(n1), i, c)
      ensures Below(Parents(n1), i, id)
    {
      BelowParent(Parents(n1), i, c);
    }
  }

  /** Once its items are gone, nothing but `id` itself is left below `id`. */
  lemma EmptyingDone(n0: seq<Node>, f0: seq<nat>, n1: seq<Node>, f1: seq<nat>,
                     depth: seq<nat>, height: nat, id: nat)
    requires id < |n0| && InTree(n0, f0, id) && Emptying(n0, f0, n1, f1, id)
    requires TreeOk(n1, f1, depth, height) && InTree(n1, f1, id) && n1[id].items == []
    requires n1[id].parent != NULL
    ensures 0 <= n1[id].parent < |n1|
    ensures Removed(n0, f0, Unlinked(n1, id), f1 + [id], id)
  {
    assert NodeOk(n1, f1, depth, id);
    assert Parents(n0) == Parents(n1);
    BelowItself(Parents(n0), id);
    FreedTwice(f0, f1, f1 + [id]);
    forall i | InTree(n1, f1, i) && Below(Parents(n1), i, id)
      ensures i == id
    {
      if i != id {
        BelowAnItem(n1, f1, depth, height, i, id);
      }
    }
    assert f1[|f0|..] + [id] == (f1 + [id])[|f0|..];
    ParentNotBelow(n1, f1, depth, height, id);
  }
}
