/** The CLI object's node pool and executable path, changed in place (lib/cli/cli.c): nodes are
    taken from the head of a free list and linked at the head of a directory's items; removing a
    directory walks its whole subtree; `bins` is a fixed array of directory pointers kept
    without holes. A pointer to a node is its index in the pool. */
module CliNodes {
  import opened CliPath
  import opened CliTree
  import opened TailQueue
  import opened Wrappers

  const CLI_MAX_BINS := 32
  const CLI_DEFAULT_NB_NODES := 256
  const CLI_ROOT_NAME := "/"

  lemma FreshPool(nodes: seq<Node>, free: seq<nat>, depth: seq<nat>)
    requires |nodes| == |free| == |depth|
    requires forall i :: 0 <= i < |nodes| ==> nodes[i] == CLEAR_NODE && free[i] == i && depth[i] == 0
    ensures TreeOk(nodes, free, depth, 0)
  {
    forall i: nat | i < |nodes|
      ensures NodeOk(nodes, free, depth, i)
    {
      assert free[i] in free;
    }
  }

  function Truncated(name: string): string {
    if |name| < CLI_NAME_LEN then name else name[..CLI_NAME_LEN - 1]
  }

  /** A name is kept up to its 63rd character. */
  lemma KeptName(name: string)
    ensures Truncated(name) <= name
    ensures |Truncated(name)| == if |name| < 64 then |name| else 63
  {
  }

  /** What __add_node refuses before it takes a node. */
  predicate Accepts(name: string, parent: int, kind: Kind, hasFunc: bool, hasDesc: bool) {
    match kind
    case Dir => (parent == NULL <==> name == CLI_ROOT_NAME) && !hasFunc
    case Cmd => parent != NULL && hasFunc
    case File => parent != NULL && hasFunc
    case Alias => parent != NULL && !hasFunc
    case Str => hasFunc || hasDesc
    case Unknown => false
  }

  /** The only nodes without a parent are a directory named "/" and strings; a directory and an alias
      never have a function, a command and a file always do. */
  lemma AcceptedNodes(name: string, parent: int, kind: Kind, hasFunc: bool, hasDesc: bool)
    requires Accepts(name, parent, kind, hasFunc, hasDesc)
    ensures parent == NULL ==> kind == Str || (kind == Dir && name == "/")
    ensures kind == Dir && parent != NULL ==> name != "/"
    ensures hasFunc ==> kind == Cmd || kind == File || kind == Str
    ensures !hasFunc ==> kind == Dir || kind == Alias || (kind == Str && hasDesc)
  {
  }

  ghost predicate LiveDir(nodes: seq<Node>, free: seq<nat>, i: int) {
    InTree(nodes, free, i) && nodes[i].kind == Dir
  }

  class Cli {
    var nodes: seq<Node>
    var free: seq<nat>
    var unlimited: bool
    const bins: array<int>
    ghost var depth: seq<nat>
    ghost var height: nat
    ghost var nbins: nat

    /** The pool is well formed; the path has no holes and its entries are pool nodes, not
        necessarily live ones. */
    ghost predicate Valid()
      reads this, bins
    {
      TreeOk(nodes, free, depth, height) && PathValid()
    }

    ghost predicate PathValid()
      reads this, bins
    {
      && bins.Length == CLI_MAX_BINS && nbins <= CLI_MAX_BINS
      && InPool(nodes, bins[..nbins])
      && (forall k :: nbins <= k < CLI_MAX_BINS ==> bins[k] == NULL)
    }

    /** The entries of bins. */
    ghost function Path(): seq<int>
      reads this, bins
      requires PathValid()
    {
      bins[..nbins]
    }

    /** cli_init's pool: every node on the free list, no bins. */
    constructor (nbEntries: int)
      requires nbEntries >= -1
      ensures Valid() && fresh(bins) && nbins == 0
      ensures unlimited == (nbEntries == -1)
      ensures |nodes| == if nbEntries <= 0 then CLI_DEFAULT_NB_NODES else nbEntries
      ensures |free| == |nodes| && forall i :: 0 <= i < |free| ==> free[i] == i
    {
      var n := if nbEntries <= 0 then CLI_DEFAULT_NB_NODES else nbEntries;
      unlimited := nbEntries == -1;
      nodes := seq(n, _ => CLEAR_NODE);
      free := seq(n, i => i);
      bins := new int[CLI_MAX_BINS](_ => NULL);
      depth := seq(n, _ => 0);
      height := 0;
      nbins := 0;
      new;
      FreshPool(nodes, free, depth);
    }

    /** cli_alloc, up to taking the head: an empty free list gets a new chunk of nodes if the pool
        is unlimited and memory can be had. */
    method Refill(memory: bool)
      requires Valid()
      modifies this`nodes, this`free, this`depth
      ensures Valid()
      ensures nodes == old(nodes) + Chunk(Grows(old(free), memory))
      ensures free == FreeAfter(old(free), old(|nodes|), Grows(old(free), memory))
      ensures old(free) == [] && unlimited && memory ==>
                && |nodes| == |old(nodes)| + 256 && nodes[..|old(nodes)|] == old(nodes)
                && (forall i :: |old(nodes)| <= i < |nodes| ==> nodes[i] == CLEAR_NODE)
                && |free| == 256 && forall i :: 0 <= i < 256 ==> free[i] == |old(nodes)| + i
      ensures old(free) != [] || !unlimited || !memory ==> nodes == old(nodes) && free == old(free)
    {
      if free == [] && unlimited && memory {
        ChunkKeeps(nodes, depth, height);
        depth := depth + seq(CLI_DEFAULT_NB_NODES, _ => 0);
        free := FreeAfter(free, |nodes|, true);
        nodes := nodes + Chunk(true);
      }
    }

    predicate Grows(list: seq<nat>, memory: bool)
      reads this`unlimited
    {
      list == [] && unlimited && memory
    }

    /** The end of __add_node: the head of the free list becomes the node. */
    method LinkHead(node: Node) returns (id: int)
      requires Valid() && free != [] && node.kind != Unknown && node.items == []
      requires node.parent == NULL || 0 <= node.parent < |nodes|
      modifies this`nodes, this`free, this`depth, this`height
      ensures PathValid() && Path() == old(Path())
      ensures node.parent == NULL || old(LiveDir(nodes, free, node.parent)) ==> Valid()
      ensures id == old(free)[0] < |old(nodes)| && free == old(free)[1..]
      ensures nodes == Linked(old(nodes), id, node)
    {
      ghost var d := if node.parent == NULL then 0 else depth[node.parent] + 1;
      assert free[0] in free;
      if node.parent == NULL || LiveDir(nodes, free, node.parent) {
        LinkKeeps(nodes, free, depth, height, node, d);
      }
      id := free[0];
      free := free[1..];
      nodes := Linked(nodes, id, node);
      depth := depth[id := d];
      height := if d > height then d else height;
    }

    /** __add_node: the new node, or NULL with nothing changed. Nothing checks that the parent is a
        directory, or even live; if it is not, the pool is no longer well formed. */
    method AddNode(name: Option<string>, parent: int, kind: Kind, hasFunc: bool, hasDesc: bool, memory: bool)
      returns (id: int)
      requires Valid() && (parent == NULL || 0 <= parent < |nodes|)
      modifies this`nodes, this`free, this`depth, this`height
      ensures PathValid() && Path() == old(Path())
      ensures id == NULL || parent == NULL || old(LiveDir(nodes, free, parent)) ==> Valid()
      ensures id == NULL <==> name == None || !Accepts(name.value, parent, kind, hasFunc, hasDesc)
                              || (old(free) == [] && !Grows(old(free), memory))
      ensures id == NULL ==> nodes == old(nodes) && free == old(free)
      ensures id != NULL ==>
                var grows := Grows(old(free), memory);
                var list := FreeAfter(old(free), old(|nodes|), grows);
                && list != [] && id == list[0] && free == list[1..]
                && id < |old(nodes) + Chunk(grows)|
                && nodes == Linked(old(nodes) + Chunk(grows), id,
                                   Node(kind, Truncated(name.value), parent, []))
    {
      if name == None || !Accepts(name.value, parent, kind, hasFunc, hasDesc) {
        return NULL;
      }
      Refill(memory);
      if free == [] {
        return NULL;
      }
      id := LinkHead(Node(kind, Truncated(name.value), parent, []));
    }

    /** set_cwd, of any node. */
    method SetCwd(node: nat)
      requires Valid() && node < |nodes|
      modifies this`nbins, bins
      ensures Valid() && Path() == AfterCd(old(Path()), node)
    {
      ghost var before := Path();
      bins[0] := node;
      nbins := if nbins == 0 then 1 else nbins;
      assert bins[..nbins] == AfterCd(before, node);
      assert forall e :: e in AfterCd(before, node) ==> e == node || e in before;
    }

    /** cli_create_root on a fresh pool. */
    method CreateRoot() returns (root: int)
      requires Valid() && |free| == |nodes| > 0 && Path() == []
      modifies this`nodes, this`free, this`depth, this`height, this`nbins, bins
      ensures Valid() && Path() == [root]
      ensures Rooted(nodes, free, root) && nodes[root].kind == Dir && nodes[root].name == CLI_ROOT_NAME
      ensures PathOk(nodes, free, Path())
    {
      AllFree(nodes, free, depth, height);
      ghost var first := free[0];
      assert forall f :: f in free[1..] <==> f in free && f != first;
      root := AddNode(Some(CLI_ROOT_NAME), NULL, Dir, false, false, false);
      SetCwd(root);
    }

    /** Removes the first entry of dir from the path if it is there, and closes the gap. */
    method DelBin(dir: int) returns (r: int)
      requires Valid() && (dir == NULL || 0 <= dir < |nodes|)
      modifies this`nbins, bins
      ensures Valid()
      ensures r == if dir != NULL && nodes[dir].kind == Dir && dir in old(Path()) then 0 else -1
      ensures Path() == if dir == NULL then old(Path()) else AfterFree(nodes, old(Path()), dir)
    {
      if dir == NULL || nodes[dir].kind != Dir {
        return -1;
      }
      ghost var before := Path();
      var i := 0;
      while i < CLI_MAX_BINS
        invariant 0 <= i <= CLI_MAX_BINS
        invariant forall k :: 0 <= k < i ==> bins[k] != dir
      {
        if bins[i] == dir {
          assert before[i] == dir;
          FirstOccurrence(before, i);
          RemoveSlot(i);
          return 0;
        }
        i := i + 1;
      }
      assert dir !in before;
      WithoutAbsent(before, dir);
      return -1;
    }

    /** Clears slot i and closes the gap. */
    method RemoveSlot(i: nat)
      requires Valid() && i < nbins
      modifies this`nbins, bins
      ensures Valid()
      ensures Path() == old(Path())[..i] + old(Path())[i + 1..]
    {
      ghost var before := bins[..nbins];
      bins[i] := NULL;
      if i + 1 < CLI_MAX_BINS {
        forall j | i <= j < CLI_MAX_BINS - 1 {
          bins[j] := bins[j + 1];
        }
        bins[CLI_MAX_BINS - 1] := NULL;
      }
      nbins := nbins - 1;
      ClosedGap(before, i, bins[..nbins]);
    }

    /** Appends dir to the path, unless its name is already there. */
    method AddBin(dir: int) returns (r: int)
      requires Valid() && (dir == NULL || 0 <= dir < |nodes|)
      modifies this`nbins, bins
      ensures Valid()
      ensures var b := old(Path());
              var known := dir != NULL && exists e :: e in b && nodes[e].name == nodes[dir].name;
              if dir == NULL || nodes[dir].kind != Dir then r == -1 && Path() == b
              else if known then r == 0 && Path() == b
              else if |b| < CLI_MAX_BINS then r == 0 && Path() == b + [dir]
              else r == -1 && Path() == b
    {
      if dir == NULL || nodes[dir].kind != Dir {
        return -1;
      }
      ghost var b := Path();
      var i := 0;
      while i < CLI_MAX_BINS
        invariant 0 <= i <= CLI_MAX_BINS
        invariant forall k :: 0 <= k < i && k < |b| ==> b[k] in b && nodes[b[k]].name != nodes[dir].name
      {
        var d := bins[i];
        assert i < nbins ==> d == b[i] && d in b;
        assert d != NULL <==> i < nbins;
        if d != NULL && nodes[d].name == nodes[dir].name {
          return 0;
        }
        i := i + 1;
      }
      i := 0;
      while i < CLI_MAX_BINS
        invariant 0 <= i <= CLI_MAX_BINS && i <= nbins
      {
        assert i < nbins ==> bins[i] == b[i] && b[i] in b;
        if bins[i] == NULL {
          bins[i] := dir;
          nbins := nbins + 1;
          assert bins[..nbins] == b + [dir];
          return 0;
        }
        i := i + 1;
      }
      return -1;
    }

    /** The end of cli_remove_node: an emptied node leaves the path and its parent's items, and
        goes to the tail of the free list; one that is free already is freed again. */
    method Release(id: nat)
      requires Valid() && id < |nodes| && nodes[id].items == [] && nodes[id].parent != NULL
      modifies this`nodes, this`free, this`nbins, bins
      ensures PathValid() && Path() == AfterFree(old(nodes), old(Path()), id)
      ensures 0 <= old(nodes)[id].parent < |old(nodes)| && nodes == Unlinked(old(nodes), id)
      ensures free == Freed(old(free), id)
      ensures old(InTree(nodes, free, id)) ==> Valid()
      ensures id in old(free) ==> nodes == old(nodes)
    {
      if InTree(nodes, free, id) {
        UnlinkKeeps(nodes, free, depth, height, id);
      } else {
        NotListed(nodes, free, depth, height, id);
      }
      if nodes[id].kind == Dir {
        var _ := DelBin(id);
      }
      nodes := Unlinked(nodes, id);
      free := Freed(free, id);
    }

    /** The loop of cli_remove_node over a directory's items, of which a free node has none. */
    method RemoveItems(id: nat)
      requires Valid() && id < |nodes|
      modifies this`nodes, this`free, this`nbins, bins
      ensures Valid() && |nodes| == |old(nodes)| && nodes[id].items == []
      ensures old(InTree(nodes, free, id)) ==>
                && InTree(nodes, free, id) && Emptying(old(nodes), old(free), nodes, free, id)
                && Path() == AfterFrees(old(nodes), old(Path()), free[|old(free)|..])
      ensures id in old(free) ==> nodes == old(nodes) && free == old(free) && Path() == old(Path())
      decreases height - depth[id], 1
    {
      ghost var n0, f0, b0 := nodes, free, Path();
      NothingGone(n0, f0, b0, id);
      assert NodeOk(nodes, free, depth, id);
      while nodes[id].items != []
        invariant Valid() && |nodes| == |n0|
        invariant InTree(n0, f0, id) ==> InTree(nodes, free, id) && PartlyGone(n0, f0, b0, nodes, free, Path(), id)
        invariant id in f0 ==> nodes == n0 && free == f0 && Path() == b0
        decreases |nodes[id].items|
      {
        assert InTree(n0, f0, id);
        ghost var n1, f1, b1 := nodes, free, Path();
        var n := nodes[id].items[0];
        ItemFacts(nodes, free, depth, height, id, n);
        var e := RemoveNode(n);
        assert e == 0;
        MoreGone(n0, f0, b0, n1, f1, b1, nodes, free, Path(), depth, height, id);
      }
    }

    /** Removes a node with everything below it. Nothing checks that the node is live: one that was
        freed keeps its parent and kind, and is freed again. */
    method RemoveNode(id: int) returns (r: int)
      requires Valid() && (id == NULL || 0 <= id < |nodes|)
      modifies this`nodes, this`free, this`nbins, bins
      ensures PathValid() && |nodes| == |old(nodes)|
      ensures r == if id != NULL && (old(nodes)[id].parent == NULL || old(nodes)[id].kind == Unknown) then -1 else 0
      ensures id == NULL || r != 0 ==>
                Valid() && nodes == old(nodes) && free == old(free) && Path() == old(Path())
      ensures r == 0 && old(InTree(nodes, free, id)) ==>
                && Valid() && Removed(old(nodes), old(free), nodes, free, id)
                && free != [] && free[|free| - 1] == id
                && Path() == AfterFrees(old(nodes), old(Path()), free[|old(free)|..])
      ensures r == 0 && id != NULL && id in old(free) ==>
                && nodes == old(nodes) && free == Freed(old(free), id)
                && Path() == AfterFree(nodes, old(Path()), id)
      decreases if id == NULL then 0 else height - depth[id], 2
    {
      if id == NULL {
        return 0;
      }
      var parent := nodes[id].parent;
      if parent == NULL {
        return -1;
      }
      ghost var n0, f0, b0 := nodes, free, Path();
      if nodes[id].kind == Dir {
        RemoveItems(id);
      } else if nodes[id].kind == Unknown {
        return -1;
      } else {
        LeafIsEmptied(nodes, free, depth, height, id);
      }
      if InTree(n0, f0, id) {
        assert n0[id].kind != Dir ==> free[|f0|..] == [];
        AllGone(n0, f0, b0, nodes, free, Path(), depth, height, id);
      }
      Release(id);
      return 0;
    }
  }

  ghost predicate PartlyGone(n0: seq<Node>, f0: seq<nat>, b0: seq<int>,
                             n1: seq<Node>, f1: seq<nat>, b1: seq<int>, id: nat)
    requires id < |n0|
  {
    Emptying(n0, f0, n1, f1, id) && b1 == AfterFrees(n0, b0, f1[|f0|..])
  }

  lemma NothingGone(nodes: seq<Node>, free: seq<nat>, b: seq<int>, id: nat)
    requires id < |nodes|
    ensures PartlyGone(nodes, free, b, nodes, free, b, id)
  {
    assert free[|free|..] == [];
  }

  lemma MoreGone(n0: seq<Node>, f0: seq<nat>, b0: seq<int>, n1: seq<Node>, f1: seq<nat>, b1: seq<int>,
                 n2: seq<Node>, f2: seq<nat>, b2: seq<int>, depth: seq<nat>, height: nat, id: nat)
    requires id < |n0| && PartlyGone(n0, f0, b0, n1, f1, b1, id)
    requires TreeOk(n1, f1, depth, height) && InTree(n1, f1, id) && n1[id].items != []
    requires n1[id].items[0] < |n1| && Removed(n1, f1, n2, f2, n1[id].items[0])
    requires b2 == AfterFrees(n1, b1, f2[|f1|..])
    ensures PartlyGone(n0, f0, b0, n2, f2, b2, id) && n2[id].items == n1[id].items[1..] && id !in f2
  {
    EmptyingStep(n0, f0, n1, f1, n2, f2, depth, height, id);
    PathGoesOn(n0, n1, b0, f0, f1, f2);
  }

  /** The node itself goes last. */
  lemma AllGone(n0: seq<Node>, f0: seq<nat>, b0: seq<int>, n1: seq<Node>, f1: seq<nat>, b1: seq<int>,
                depth: seq<nat>, height: nat, id: nat)
    requires id < |n0| && InTree(n0, f0, id) && PartlyGone(n0, f0, b0, n1, f1, b1, id)
    requires TreeOk(n1, f1, depth, height) && InTree(n1, f1, id) && n1[id].items == [] && n1[id].parent != NULL
    ensures 0 <= n1[id].parent < |n1| && Removed(n0, f0, Unlinked(n1, id), f1 + [id], id)
    ensures AfterFree(n1, b1, id) == AfterFrees(n0, b0, (f1 + [id])[|f0|..])
  {
    EmptyingDone(n0, f0, n1, f1, depth, height, id);
    FreedOneMore(n0, n1, b0, f1[|f0|..], id);
    assert (f1 + [id])[|f0|..] == f1[|f0|..] + [id];
  }

  lemma PathGoesOn(n0: seq<Node>, n1: seq<Node>, b0: seq<int>, f0: seq<nat>, f1: seq<nat>, f2: seq<nat>)
    requires |n0| == |n1| && forall i :: 0 <= i < |n0| ==> n0[i].kind == n1[i].kind
    requires f0 <= f1 <= f2
    ensures AfterFrees(n1, AfterFrees(n0, b0, f1[|f0|..]), f2[|f1|..]) == AfterFrees(n0, b0, f2[|f0|..])
  {
    SameKinds(n0, n1, AfterFrees(n0, b0, f1[|f0|..]), f2[|f1|..]);
    AfterFreesInTurn(n0, b0, f1[|f0|..], f2[|f1|..]);
    assert f2[|f0|..] == f1[|f0|..] + f2[|f1|..];
  }

  /** A free list as long as the pool holds every node. */
  lemma AllFree(nodes: seq<Node>, free: seq<nat>, depth: seq<nat>, height: nat)
    requires TreeOk(nodes, free, depth, height) && |free| == |nodes|
    ensures forall i :: 0 <= i < |nodes| ==> i in free
  {
    PoolIsPartitioned(nodes, free, depth, height);
    assert TreeIds(nodes, free) == {};
  }

  lemma ItemFacts(nodes: seq<Node>, free: seq<nat>, depth: seq<nat>, height: nat, id: nat, n: nat)
    requires TreeOk(nodes, free, depth, height) && InTree(nodes, free, id) && n in nodes[id].items
    ensures InTree(nodes, free, n) && nodes[n].parent == id && depth[id] < depth[n] <= height
  {
    assert NodeOk(nodes, free, depth, id);
    assert NodeOk(nodes, free, depth, n);
  }

  lemma LeafIsEmptied(nodes: seq<Node>, free: seq<nat>, depth: seq<nat>, height: nat, id: nat)
    requires TreeOk(nodes, free, depth, height) && id < |nodes| && nodes[id].kind != Dir
    ensures nodes[id].items == [] && Emptying(nodes, free, nodes, free, id)
  {
    assert NodeOk(nodes, free, depth, id);
  }

  function Chunk(grows: bool): seq<Node> {
    if grows then seq(CLI_DEFAULT_NB_NODES, _ => CLEAR_NODE) else []
  }

  function FreeAfter(free: seq<nat>, start: nat, grows: bool): seq<nat> {
    if grows then seq(CLI_DEFAULT_NB_NODES, i => start + i) else free
  }

  lemma FreedOneMore(n0: seq<Node>, n1: seq<Node>, path: seq<int>, gone: seq<nat>, id: nat)
    requires |n0| == |n1| && id < |n0| && n0[id].kind == n1[id].kind
    ensures AfterFree(n1, AfterFrees(n0, path, gone), id) == AfterFrees(n0, path, gone + [id])
  {
    assert (gone + [id])[..|gone|] == gone;
  }

  lemma {:induction false} FirstOccurrence(b: seq<int>, i: nat)
    requires i < |b| && forall k :: 0 <= k < i ==> b[k] != b[i]
    ensures Without(b, b[i]) == b[..i] + b[i + 1..]
  {
    if i > 0 {
      FirstOccurrence(b[1..], i - 1);
      assert b[..i] == [b[0]] + b[1..][..i - 1];
    }
  }

  lemma {:induction false} WithoutAbsent<T>(b: seq<T>, x: T)
    requires x !in b
    ensures Without(b, x) == b
  {
    if b != [] {
      assert b == [b[0]] + b[1..];
      WithoutAbsent(b[1..], x);
    }
  }

  lemma ClosedGap(b: seq<int>, i: nat, c: seq<int>)
    requires i < |b| && |c| == |b| - 1
    requires forall k :: 0 <= k < i ==> c[k] == b[k]
    requires forall k :: i <= k < |c| ==> c[k] == b[k + 1]
    ensures c == b[..i] + b[i + 1..]
    ensures forall e :: e in c ==> e in b
  {
  }

  lemma ChunkKeeps(nodes: seq<Node>, depth: seq<nat>, height: nat)
    requires TreeOk(nodes, [], depth, height)
    ensures TreeOk(nodes + Chunk(true), FreeAfter([], |nodes|, true),
                   depth + seq(CLI_DEFAULT_NB_NODES, _ => 0), height)
  {
    var nodes' := nodes + Chunk(true);
    var free' := FreeAfter([], |nodes|, true);
    var depth' := depth + seq(CLI_DEFAULT_NB_NODES, _ => 0);
    forall i: nat | i < |nodes'|
      ensures NodeOk(nodes', free', depth', i) && depth'[i] <= height
    {
      if i < |nodes| {
        assert NodeOk(nodes, [], depth, i);
      } else {
        assert free'[i - |nodes|] == i;
      }
    }
  }

  // --- every list of the pool, link by link

  /** Queue 0 is the free list, and queue 1 + d the items of node d. */
  ghost function ListsOf(nodes: seq<Node>, free: seq<nat>): (r: seq<seq<nat>>)
    ensures |r| == 1 + |nodes| && r[0] == free
    ensures forall d :: 0 <= d < |nodes| ==> r[1 + d] == nodes[d].items
  {
    [free] + seq(|nodes|, d requires 0 <= d < |nodes| => nodes[d].items)
  }

  ghost predicate LinksOf(l: Links, nodes: seq<Node>, free: seq<nat>) {
    AllLists(l, ListsOf(nodes, free)) && |l.next| == |nodes|
  }

  /** The items of two nodes, and those of a node and the free list, have nothing in common. */
  lemma ListsApart(nodes: seq<Node>, free: seq<nat>, depth: seq<nat>, height: nat, d: nat, e: nat)
    requires TreeOk(nodes, free, depth, height) && d < |nodes| && e < |nodes|
    ensures d != e ==> Apart(nodes[d].items, nodes[e].items)
    ensures Apart(nodes[d].items, free) && Apart(free, nodes[d].items)
  {
    assert NodeOk(nodes, free, depth, d) && NodeOk(nodes, free, depth, e);
    var t, u := nodes[d].items, nodes[e].items;
    forall i | 0 <= i < |t| ensures t[i] !in free && (d != e ==> t[i] !in u) {
      assert t[i] in t;
    }
  }

  lemma PoolListsApart(nodes: seq<Node>, free: seq<nat>, depth: seq<nat>, height: nat)
    requires TreeOk(nodes, free, depth, height)
    ensures AllApart(ListsOf(nodes, free))
  {
    var lists := ListsOf(nodes, free);
    forall q, r | 0 <= q < |lists| && 0 <= r < |lists| && q != r
      ensures Apart(lists[q], lists[r])
    {
      ListsApart(nodes, free, depth, height, if q == 0 then r - 1 else q - 1, if r == 0 then q - 1 else r - 1);
      assert q > 0 ==> lists[1 + (q - 1)] == nodes[q - 1].items;
      assert r > 0 ==> lists[1 + (r - 1)] == nodes[r - 1].items;
    }
  }

  lemma SameLists(nodes: seq<Node>, free: seq<nat>, lists: seq<seq<nat>>)
    requires |lists| == 1 + |nodes| && lists[0] == free
    requires forall d :: 0 <= d < |nodes| ==> lists[1 + d] == nodes[d].items
    ensures ListsOf(nodes, free) == lists
  {
    var r := ListsOf(nodes, free);
    forall q | 0 <= q < |lists| ensures r[q] == lists[q] {
      if q > 0 {
        assert r[1 + (q - 1)] == nodes[q - 1].items;
      }
    }
  }

  lemma ListsAfterAdd(nodes: seq<Node>, free: seq<nat>, node: Node)
    requires free != [] && free[0] < |nodes| && nodes[free[0]].items == node.items
    requires 0 <= node.parent < |nodes| && node.parent != free[0]
    ensures var q, lists := 1 + node.parent, ListsOf(nodes, free);
      ListsOf(Linked(nodes, free[0], node), free[1..])
      == lists[0 := lists[0][1..]][q := [lists[0][0]] + lists[q]]
  {
    var q, lists := 1 + node.parent, ListsOf(nodes, free);
    SameLists(Linked(nodes, free[0], node), free[1..], lists[0 := free[1..]][q := [free[0]] + lists[q]]);
  }

  lemma ListsAfterRemove(nodes: seq<Node>, free: seq<nat>, p: nat, i: nat)
    requires p < |nodes| && i < |nodes[p].items| && nodes[p].items[i] < |nodes| && NoDup(nodes[p].items)
    requires nodes[nodes[p].items[i]].parent == p
    ensures var q, lists, id := 1 + p, ListsOf(nodes, free), nodes[p].items[i];
      ListsOf(Unlinked(nodes, id), free + [id])
      == lists[0 := lists[0] + [lists[q][i]]][q := Cut(lists[q], i)]
  {
    var q, lists, id := 1 + p, ListsOf(nodes, free), nodes[p].items[i];
    CutIsWithout(nodes[p].items, i);
    SameLists(Unlinked(nodes, id), free + [id], lists[0 := free + [id]][q := Cut(lists[q], i)]);
  }

  /** The links after __add_node has taken the head of the free list are those of the pool with the
      node at the head of its parent's items. */
  lemma AddedLinks(l: Links, nodes: seq<Node>, free: seq<nat>, depth: seq<nat>, height: nat, node: Node)
    requires TreeOk(nodes, free, depth, height) && free != [] && LinksOf(l, nodes, free)
    requires node.items == [] && 0 <= node.parent < |nodes| && InTree(nodes, free, node.parent)
    ensures free[0] < |nodes|
    ensures LinksOf(InsertHead(Remove(l, 0, free[0]), 1 + node.parent, free[0]),
                    Linked(nodes, free[0], node), free[1..])
  {
    assert free[0] in free && NodeOk(nodes, free, depth, free[0]);
    PoolListsApart(nodes, free, depth, height);
    AddedAt(l, nodes, free, ListsOf(nodes, free), node, 1 + node.parent);
  }

  lemma AddedAt(l: Links, nodes: seq<Node>, free: seq<nat>, lists: seq<seq<nat>>, node: Node, q: nat)
    requires AllLists(l, lists) && AllApart(lists) && |l.next| == |nodes|
    requires lists == ListsOf(nodes, free) && q == 1 + node.parent && 1 <= q <= |nodes|
    requires free != [] && free[0] < |nodes| && nodes[free[0]].items == node.items && node.parent != free[0]
    ensures LinksOf(InsertHead(Remove(l, 0, free[0]), q, free[0]), Linked(nodes, free[0], node), free[1..])
  {
    LinkNodeMovesOnly(l, lists, q);
    ListsAfterAdd(nodes, free, node);
  }

  /** The links after cli_remove_node has freed an emptied live node are those of the pool without it
      among its parent's items and with it at the tail of the free list. */
  lemma RemovedLinks(l: Links, nodes: seq<Node>, free: seq<nat>, depth: seq<nat>, height: nat, id: nat)
    requires TreeOk(nodes, free, depth, height) && LinksOf(l, nodes, free)
    requires InTree(nodes, free, id) && nodes[id].parent != NULL
    ensures 0 <= nodes[id].parent < |nodes|
    ensures LinksOf(FreeNode(l, 1 + nodes[id].parent, 0, id), Unlinked(nodes, id), free + [id])
  {
    var i := PlaceInParent(nodes, free, depth, height, id);
    PoolListsApart(nodes, free, depth, height);
    RemovedAt(l, nodes, free, id, i);
  }

  lemma RemovedAt(l: Links, nodes: seq<Node>, free: seq<nat>, id: nat, i: nat)
    requires LinksOf(l, nodes, free) && AllApart(ListsOf(nodes, free))
    requires id < |nodes| && 0 <= nodes[id].parent < |nodes| && NoDup(nodes[nodes[id].parent].items)
    requires i < |nodes[nodes[id].parent].items| && nodes[nodes[id].parent].items[i] == id
    ensures LinksOf(FreeNode(l, 1 + nodes[id].parent, 0, id), Unlinked(nodes, id), free + [id])
  {
    FreeNodeMovesOnly(l, ListsOf(nodes, free), 1 + nodes[id].parent, i);
    ListsAfterRemove(nodes, free, nodes[id].parent, i);
  }

  lemma PlaceInParent(nodes: seq<Node>, free: seq<nat>, depth: seq<nat>, height: nat, id: nat) returns (i: nat)
    requires TreeOk(nodes, free, depth, height) && InTree(nodes, free, id) && nodes[id].parent != NULL
    ensures 0 <= nodes[id].parent < |nodes| && NoDup(nodes[nodes[id].parent].items)
    ensures i < |nodes[nodes[id].parent].items| && nodes[nodes[id].parent].items[i] == id
  {
    ParentLists(nodes, free, depth, height, id);
    var p := nodes[id].parent;
    assert NodeOk(nodes, free, depth, id) && NodeOk(nodes, free, depth, p);
    i :| 0 <= i < |nodes[p].items| && nodes[p].items[i] == id;
  }

  // --- adding under a parent that is no live directory

  /** An add keeps the pool well formed, at whatever depths, if and only if the parent is missing or
      is a live directory. */
  lemma AddKeepsTreeIff(nodes: seq<Node>, free: seq<nat>, depth: seq<nat>, height: nat, node: Node)
    requires TreeOk(nodes, free, depth, height) && free != []
    requires node.kind != Unknown && node.items == [] && (node.parent == NULL || 0 <= node.parent < |nodes|)
    ensures free[0] < |nodes|
    ensures (exists d, h :: TreeOk(Linked(nodes, free[0], node), free[1..], d, h))
            <==> node.parent == NULL || LiveDir(nodes, free, node.parent)
  {
    var id := free[0];
    assert id in free;
    if node.parent == NULL || LiveDir(nodes, free, node.parent) {
      var d := if node.parent == NULL then 0 else depth[node.parent] + 1;
      LinkKeeps(nodes, free, depth, height, node, d);
    } else {
      forall d, h | TreeOk(Linked(nodes, id, node), free[1..], d, h)
        ensures false
      {
        OnlyUnderLiveDir(nodes, free, node, d, h);
      }
    }
  }

  lemma OnlyUnderLiveDir(nodes: seq<Node>, free: seq<nat>, node: Node, depth: seq<nat>, height: nat)
    requires free != [] && NoDup(free) && free[0] < |nodes|
    requires 0 <= node.parent < |nodes| && node.items == []
    requires TreeOk(Linked(nodes, free[0], node), free[1..], depth, height)
    ensures LiveDir(nodes, free, node.parent)
  {
    var id, nodes' := free[0], Linked(nodes, free[0], node);
    assert forall f :: f in free <==> f == id || f in free[1..];
    assert NodeOk(nodes', free[1..], depth, id);
    assert nodes'[id].parent == node.parent;
  }

  /** "cd" to a command, "mkdir" there, "rm" of the command: the new directory is not free, and no
      live node lists it. */
  lemma LostUnderACommand(nodes: seq<Node>, free: seq<nat>, depth: seq<nat>, height: nat, cmd: nat, name: string)
    requires TreeOk(nodes, free, depth, height) && free != []
    requires InTree(nodes, free, cmd) && nodes[cmd].kind != Dir && nodes[cmd].parent != NULL
    ensures free[0] < |nodes| && 0 <= nodes[cmd].parent < |nodes|
    ensures var id := free[0];
            var added := Linked(nodes, id, Node(Dir, name, cmd, []));
            var nodes', free' := Unlinked(added, cmd), free[1..] + [cmd];
            InTree(nodes', free', id) && forall i :: InTree(nodes', free', i) ==> id !in nodes'[i].items
  {
    var id := free[0];
    assert id in free && id !in free[1..];
    assert NodeOk(nodes, free, depth, cmd);
    var added := Linked(nodes, id, Node(Dir, name, cmd, []));
    var nodes', free' := Unlinked(added, cmd), free[1..] + [cmd];
    forall i | InTree(nodes', free', i)
      ensures id !in nodes'[i].items
    {
      if i != id {
        assert i !in free;
        assert NodeOk(nodes, free, depth, i);
        WithoutDrops(nodes[i].items, cmd);
      }
    }
  }

  // --- freeing a free node

  /** No node lists a free one. */
  lemma NotListed(nodes: seq<Node>, free: seq<nat>, depth: seq<nat>, height: nat, id: nat)
    requires TreeOk(nodes, free, depth, height) && id in free && nodes[id].parent != NULL
    ensures 0 <= nodes[id].parent < |nodes| && Unlinked(nodes, id) == nodes
    ensures forall i :: 0 <= i < |nodes| ==> id !in nodes[i].items
  {
    assert NodeOk(nodes, free, depth, id);
    forall i | 0 <= i < |nodes| ensures id !in nodes[i].items {
      assert NodeOk(nodes, free, depth, i);
    }
    var p := nodes[id].parent;
    WithoutAbsent(nodes[p].items, id);
    assert nodes[p].(items := nodes[p].items) == nodes[p];
  }

  lemma SameFree(nodes: seq<Node>, free: seq<nat>, free': seq<nat>, depth: seq<nat>, height: nat)
    requires TreeOk(nodes, free, depth, height) && NoDup(free') && forall f :: f in free' <==> f in free
    ensures TreeOk(nodes, free', depth, height)
  {
    forall i: nat | i < |nodes| ensures NodeOk(nodes, free', depth, i) {
      assert NodeOk(nodes, free, depth, i);
    }
  }

  lemma FreedInside(free: seq<nat>, id: nat)
    requires NoDup(free) && id in free && free[|free| - 1] != id
    ensures NoDup(Freed(free, id)) && forall f :: f in Freed(free, id) <==> f in free
  {
    WithoutDrops(free, id);
  }

  lemma FreedLast(free: seq<nat>, id: nat)
    requires NoDup(free) && id in free && free[|free| - 1] == id
    ensures id !in Freed(free, id)
  {
  }

  lemma ParentLists(nodes: seq<Node>, free: seq<nat>, depth: seq<nat>, height: nat, id: nat)
    requires TreeOk(nodes, free, depth, height) && InTree(nodes, free, id) && nodes[id].parent != NULL
    ensures 0 <= nodes[id].parent < |nodes| && id in nodes[nodes[id].parent].items
  {
    assert NodeOk(nodes, free, depth, id);
  }

  /** Freeing a free node keeps the pool well formed, at whatever depths, if and only if it is not
      the last of the free list. */
  lemma FreedAgainKeepsTreeIff(nodes: seq<Node>, free: seq<nat>, depth: seq<nat>, height: nat, id: nat)
    requires TreeOk(nodes, free, depth, height) && id in free && nodes[id].parent != NULL
    ensures (exists d, h :: TreeOk(nodes, Freed(free, id), d, h)) <==> free[|free| - 1] != id
  {
    if free[|free| - 1] != id {
      FreedInside(free, id);
      SameFree(nodes, free, Freed(free, id), depth, height);
    } else {
      NotListed(nodes, free, depth, height, id);
      FreedLast(free, id);
      forall d, h | TreeOk(nodes, Freed(free, id), d, h)
        ensures false
      {
        ParentLists(nodes, Freed(free, id), d, h, id);
      }
    }
  }

  /** Taking an emptied node off its parent's items and putting it at the tail of the free list, as
      on sequences, keeps the pool well formed, at whatever depths, if and only if it was not free. */
  lemma UnlinkKeepsIff(nodes: seq<Node>, free: seq<nat>, depth: seq<nat>, height: nat, id: nat)
    requires TreeOk(nodes, free, depth, height)
    requires id < |nodes| && 0 <= nodes[id].parent < |nodes| && nodes[id].items == []
    ensures (exists d, h :: TreeOk(Unlinked(nodes, id), free + [id], d, h)) <==> id !in free
  {
    if id !in free {
      UnlinkKeeps(nodes, free, depth, height, id);
    } else {
      var k :| 0 <= k < |free| && free[k] == id;
      assert (free + [id])[k] == (free + [id])[|free|];
    }
  }

  /** The nodes that a removal frees are nodes of the pool, each freed once, and the removed one is
      among them. */
  lemma FreedIds(nodes: seq<Node>, free: seq<nat>, nodes': seq<Node>, free': seq<nat>, id: nat)
    requires InTree(nodes, free, id) && Removed(nodes, free, nodes', free', id) && NoDup(free')
    ensures var gone := free'[|free|..];
      && (forall k :: 0 <= k < |gone| ==> gone[k] < |nodes| && gone[k] in gone)
      && NoDup(gone) && id in gone
  {
    var gone := free'[|free|..];
    BelowItself(Parents(nodes), id);
    assert forall k :: 0 <= k < |gone| ==> gone[k] == free'[|free| + k] && gone[k] in gone;
  }

  /** Removing a node that lists nothing frees it alone. */
  lemma OnlyItself(nodes: seq<Node>, free: seq<nat>, depth: seq<nat>, height: nat,
                   nodes': seq<Node>, free': seq<nat>, id: nat)
    requires TreeOk(nodes, free, depth, height) && InTree(nodes, free, id) && nodes[id].items == []
    requires Removed(nodes, free, nodes', free', id) && NoDup(free')
    ensures free' == free + [id]
  {
    var gone := free'[|free|..];
    FreedIds(nodes, free, nodes', free', id);
    forall i | i in gone ensures i == id {
      if i != id {
        BelowAnItem(nodes, free, depth, height, i, id);
      }
    }
    assert Elements(gone) == {id as int};
    assert gone[0] in gone;
  }

  /** Of two entries of a freed directory one stays. */
  lemma OneOfTwoStays(nodes: seq<Node>, dir: nat, gone: seq<nat>)
    requires (forall i :: 0 <= i < |gone| ==> gone[i] < |nodes|) && NoDup(gone)
    requires dir in gone && nodes[dir].kind == Dir
    ensures AfterFrees(nodes, [dir, dir], gone) == [dir]
  {
    var after := AfterFrees(nodes, [dir, dir], gone);
    forall e: int ensures multiset(after)[e] == multiset{dir as int}[e] {
      CountAfterFrees(nodes, [dir, dir], gone, e);
    }
    assert multiset(after) == multiset{dir as int};
    assert |after| == |multiset(after)| == 1;
    assert after[0] in multiset(after);
  }

  /** From the path that Pktgen sets up: "mkdir foo", "cd /foo", "rm /foo", "cd /pktgen/bin",
      "/sbin/rm /pktgen/bin" and "/sbin/rm ." leave a pool that is not well formed: /pktgen/bin is
      the last free node when it is freed again. */
  method FreeWorkingDirectoryTwice(cli: Cli, root: nat, sbin: nat, bin: nat)
    requires cli.Valid() && cli.Path() == [root, sbin, bin] && cli.free != []
    requires root != bin && sbin != bin && LiveDir(cli.nodes, cli.free, root)
    requires LiveDir(cli.nodes, cli.free, sbin) && LiveDir(cli.nodes, cli.free, bin)
    requires cli.nodes[bin].parent != NULL
    modifies cli, cli.bins
    ensures forall d, h :: !TreeOk(cli.nodes, cli.free, d, h)
  {
    RemoveNewDirectory(cli, root, sbin, bin);
    RemoveTwice(cli, sbin, bin);
  }

  /** "cd /pktgen/bin", "/sbin/rm /pktgen/bin" and "/sbin/rm .". */
  method RemoveTwice(cli: Cli, sbin: nat, bin: nat)
    requires cli.Valid() && cli.Path() == [sbin, bin]
    requires LiveDir(cli.nodes, cli.free, bin) && cli.nodes[bin].parent != NULL
    modifies cli, cli.bins
    ensures forall d, h :: !TreeOk(cli.nodes, cli.free, d, h)
  {
    cli.SetCwd(bin);
    assert cli.Path() == [bin, bin];
    ghost var n0, f0 := cli.nodes, cli.free;
    var e := cli.RemoveNode(bin);
    FreedIds(n0, f0, cli.nodes, cli.free, bin);
    OneOfTwoStays(n0, bin, cli.free[|f0|..]);
    assert cli.bins[0] == cli.Path()[0] == bin;
    FreedAgainKeepsTreeIff(cli.nodes, cli.free, cli.depth, cli.height, bin);
    e := cli.RemoveNode(cli.bins[0]);
  }

  /** "mkdir foo", "cd /foo" and "rm /foo" take the first entry off the path. */
  method RemoveNewDirectory(cli: Cli, root: nat, sbin: nat, bin: nat)
    requires cli.Valid() && cli.Path() == [root, sbin, bin] && cli.free != []
    requires root != bin && LiveDir(cli.nodes, cli.free, root)
    requires LiveDir(cli.nodes, cli.free, sbin) && LiveDir(cli.nodes, cli.free, bin)
    requires cli.nodes[bin].parent != NULL
    modifies cli, cli.bins
    ensures cli.Valid() && cli.Path() == [sbin, bin]
    ensures LiveDir(cli.nodes, cli.free, bin) && cli.nodes[bin].parent != NULL
  {
    assert cli.free[0] in cli.free;
    var foo := cli.AddNode(Some("foo"), root, Dir, false, false, false);
    cli.SetCwd(foo);
    ghost var n1, f1, d1, h1 := cli.nodes, cli.free, cli.depth, cli.height;
    assert cli.Path() == [foo] + [sbin, bin];
    var e := cli.RemoveNode(foo);
    OnlyItself(n1, f1, d1, h1, cli.nodes, cli.free, foo);
    assert cli.free[|f1|..] == [foo];
    FirstGoes(n1, foo, [sbin, bin]);
  }

  lemma FirstGoes(nodes: seq<Node>, dir: nat, rest: seq<int>)
    requires dir < |nodes| && nodes[dir].kind == Dir
    ensures AfterFrees(nodes, [dir as int] + rest, [dir]) == rest
  {
    assert [dir][..0] == [];
    assert AfterFrees(nodes, [dir as int] + rest, []) == [dir as int] + rest;
  }

  // --- where every node of the pool is

  ghost function TreeIds(nodes: seq<Node>, free: seq<nat>): set<int> {
    set i | 0 <= i < |nodes| && InTree(nodes, free, i)
  }

  ghost function Upto(n: nat): (s: set<int>)
    ensures |s| == n && forall i :: i in s <==> 0 <= i < n
  {
    if n == 0 then {} else Upto(n - 1) + {n - 1}
  }

  ghost function Elements(s: seq<nat>): (r: set<int>)
    requires NoDup(s)
    ensures |r| == |s| && forall i :: i in r <==> i in s
  {
    if s == [] then {} else
      assert s == s[..|s| - 1] + [s[|s| - 1]];
      Elements(s[..|s| - 1]) + {s[|s| - 1] as int}
  }

  /** Free nodes and tree nodes partition the pool, so their numbers add up to nb_nodes. */
  lemma PoolIsPartitioned(nodes: seq<Node>, free: seq<nat>, depth: seq<nat>, height: nat)
    requires TreeOk(nodes, free, depth, height)
    ensures |free| + |TreeIds(nodes, free)| == |nodes|
    ensures forall i :: 0 <= i < |nodes| ==> (i in TreeIds(nodes, free) <==> i !in free)
  {
    assert TreeIds(nodes, free) == Upto(|nodes|) - Elements(free);
    assert Elements(free) <= Upto(|nodes|);
  }

  /** Following parents from a tree node ends at a tree node without a parent. */
  lemma {:induction false} ReachesATop(nodes: seq<Node>, free: seq<nat>, depth: seq<nat>, height: nat, i: nat)
    returns (top: nat)
    requires TreeOk(nodes, free, depth, height) && InTree(nodes, free, i)
    ensures InTree(nodes, free, top) && nodes[top].parent == NULL && Below(Parents(nodes), i, top)
    decreases depth[i]
  {
    assert NodeOk(nodes, free, depth, i);
    BelowItself(Parents(nodes), i);
    if nodes[i].parent == NULL {
      top := i;
    } else {
      var p := nodes[i].parent;
      top := ReachesATop(nodes, free, depth, height, p);
      var k: nat :| Up(Parents(nodes), p, k) == top;
      UpFromParent(Parents(nodes), i, k);
    }
  }

  lemma {:induction false} UpFromParent(parents: seq<int>, i: nat, k: nat)
    requires i < |parents|
    ensures Up(parents, i, k + 1) == Up(parents, parents[i], k)
  {
    if k > 0 {
      UpFromParent(parents, i, k - 1);
    } else {
      assert Up(parents, i, 1) == parents[i];
    }
  }

  /** `root` is the only tree node without a parent. */
  ghost predicate Rooted(nodes: seq<Node>, free: seq<nat>, root: int) {
    && InTree(nodes, free, root)
    && forall i :: InTree(nodes, free, i) ==> (nodes[i].parent == NULL <==> i == root)
  }

  /** With one root, every node of the pool is on the free list or below the root, never both. */
  lemma FreeOrBelowRoot(nodes: seq<Node>, free: seq<nat>, depth: seq<nat>, height: nat, root: nat, i: nat)
    requires TreeOk(nodes, free, depth, height) && Rooted(nodes, free, root) && i < |nodes|
    ensures i !in free <==> InTree(nodes, free, i) && Below(Parents(nodes), i, root)
  {
    if i !in free {
      var top := ReachesATop(nodes, free, depth, height, i);
    }
  }

  /** Removing a node never takes the root away. */
  lemma RemoveKeepsRoot(nodes: seq<Node>, free: seq<nat>, depth: seq<nat>, height: nat,
                        nodes': seq<Node>, free': seq<nat>, root: nat, id: nat)
    requires TreeOk(nodes, free, depth, height) && Rooted(nodes, free, root)
    requires InTree(nodes, free, id) && id != root && Removed(nodes, free, nodes', free', id)
    ensures Rooted(nodes', free', root)
    ensures TreeIds(nodes', free') ==
            set i | i in TreeIds(nodes, free) && !Below(Parents(nodes), i, id)
  {
    assert free' == free + free'[|free|..];
    if Below(Parents(nodes), root, id) {
      var k: nat :| Up(Parents(nodes), root, k) == id;
      NothingAboveTop(Parents(nodes), root, k);
    }
  }

  lemma {:induction false} NothingAboveTop(parents: seq<int>, top: nat, k: nat)
    requires top < |parents| && parents[top] == NULL
    ensures Up(parents, top, k) == if k == 0 then top else NULL
  {
    if k > 0 {
      NothingAboveTop(parents, top, k - 1);
    }
  }

  /** Adding a node keeps the single root exactly when the node is given a parent. __add_node does
      not insist on one for a string node, whose callers in the CLI never reach it. */
  lemma AddKeepsRootIff(nodes: seq<Node>, free: seq<nat>, depth: seq<nat>, height: nat, root: nat, node: Node)
    requires TreeOk(nodes, free, depth, height) && Rooted(nodes, free, root) && free != []
    requires node.parent == NULL || InTree(nodes, free, node.parent)
    ensures free[0] in free && free[0] < |nodes|
    ensures Rooted(Linked(nodes, free[0], node), free[1..], root) <==> node.parent != NULL
  {
    assert free[0] in free;
    assert forall f :: f in free[1..] <==> f in free && f != free[0];
    var nodes' := Linked(nodes, free[0], node);
    assert InTree(nodes', free[1..], free[0]);
    assert forall i :: 0 <= i < |nodes| && i != free[0] ==> nodes'[i].parent == nodes[i].parent;
  }
}
