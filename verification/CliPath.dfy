/** The CLI's executable path as values (lib/cli/cli.c:228-285): the entries of `bins` up to the
    first NULL. Entry 0 doubles as the current working directory, which set_cwd overwrites with any
    node (lib/cli/cli.h:390-394). */
module CliPath {
  import opened CliTree

  /** Every entry is a node of the pool. */
  ghost predicate InPool(nodes: seq<Node>, path: seq<int>) {
    forall e :: e in path ==> 0 <= e < |nodes|
  }

  /** set_cwd. */
  function AfterCd(path: seq<int>, node: int): seq<int> {
    if path == [] then [node] else path[0 := node]
  }

  /** What removing one node does to the path: the first entry of a directory goes. */
  function AfterFree(nodes: seq<Node>, path: seq<int>, id: nat): seq<int> {
    if id < |nodes| && nodes[id].kind == Dir then Without(path, id as int) else path
  }

  /** What freeing the nodes of `gone` one after the other does to the path. */
  function AfterFrees(nodes: seq<Node>, path: seq<int>, gone: seq<nat>): seq<int> {
    if gone == [] then path
    else AfterFree(nodes, AfterFrees(nodes, path, gone[..|gone| - 1]), gone[|gone| - 1])
  }

  lemma {:induction false} AfterFreesInTurn(nodes: seq<Node>, path: seq<int>, gone: seq<nat>, more: seq<nat>)
    ensures AfterFrees(nodes, AfterFrees(nodes, path, gone), more) == AfterFrees(nodes, path, gone + more)
    decreases |more|
  {
    if more == [] {
      assert gone + more == gone;
    } else {
      var last := |more| - 1;
      AfterFreesInTurn(nodes, path, gone, more[..last]);
      assert (gone + more)[..|gone + more| - 1] == gone + more[..last];
    }
  }

  /** Only the kinds of the nodes matter. */
  lemma {:induction false} SameKinds(nodes: seq<Node>, nodes': seq<Node>, path: seq<int>, gone: seq<nat>)
    requires |nodes| == |nodes'| && forall i :: 0 <= i < |nodes| ==> nodes[i].kind == nodes'[i].kind
    ensures AfterFrees(nodes, path, gone) == AfterFrees(nodes', path, gone)
    decreases |gone|
  {
    if gone != [] {
      SameKinds(nodes, nodes', path, gone[..|gone| - 1]);
    }
  }

  // --- how often a node is in the path

  lemma {:induction false} CountWithout(s: seq<int>, x: int)
    ensures multiset(Without(s, x)) == multiset(s) - multiset{x}
  {
    if s != [] {
      assert s == [s[0]] + s[1..];
      if s[0] != x {
        CountWithout(s[1..], x);
      }
    }
  }

  /** Freeing distinct nodes takes one entry of each directory that has one. */
  lemma {:induction false} CountAfterFrees(nodes: seq<Node>, path: seq<int>, gone: seq<nat>, e: int)
    requires forall i :: 0 <= i < |gone| ==> gone[i] < |nodes|
    requires NoDup(gone)
    ensures multiset(AfterFrees(nodes, path, gone))[e] ==
            if e in gone && nodes[e].kind == Dir && e in path then multiset(path)[e] - 1 else multiset(path)[e]
    decreases |gone|
  {
    if gone != [] {
      var last := |gone| - 1;
      var id := gone[last];
      CountAfterFrees(nodes, path, gone[..last], e);
      assert gone == gone[..last] + [id];
      assert id !in gone[..last];
      var before := AfterFrees(nodes, path, gone[..last]);
      if nodes[id].kind == Dir {
        CountWithout(before, id);
      }
      assert multiset(path)[e] > 0 <==> e in path;
    }
  }

  /** Some freed node is still in the path. */
  ghost predicate NamesFreed(path: seq<int>, gone: seq<nat>) {
    exists e :: e in path && e in gone
  }

  /** Freeing the nodes of a subtree leaves the path naming a freed node if and only if it named
      one of the directories twice, or one that is not a directory at all. */
  lemma NamesFreedIff(nodes: seq<Node>, path: seq<int>, gone: seq<nat>)
    requires forall i :: 0 <= i < |gone| ==> gone[i] < |nodes|
    requires NoDup(gone)
    ensures NamesFreed(AfterFrees(nodes, path, gone), gone) <==>
            exists e :: e in gone && e in path && (multiset(path)[e] >= 2 || nodes[e].kind != Dir)
  {
    var after := AfterFrees(nodes, path, gone);
    forall e | e in gone
      ensures e in after <==> e in path && (multiset(path)[e] >= 2 || nodes[e].kind != Dir)
    {
      CountAfterFrees(nodes, path, gone, e);
      assert e in after <==> multiset(after)[e] > 0;
      assert e in path <==> multiset(path)[e] > 0;
    }
  }

  // --- cd, then rm

  /** Going to a directory that is on the path, and removing it or a directory above it: the path
      still names it, although it is freed. */
  lemma CdThenRmLeavesFreed(nodes: seq<Node>, path: seq<int>, dir: nat, gone: seq<nat>)
    requires forall i :: 0 <= i < |gone| ==> gone[i] < |nodes|
    requires NoDup(gone) && dir in gone && dir < |nodes|
    requires path != [] && dir in path[1..]
    ensures NamesFreed(AfterFrees(nodes, AfterCd(path, dir), gone), gone)
  {
    var there := AfterCd(path, dir);
    assert there == [dir as int] + path[1..];
    assert multiset(there)[dir as int] == 1 + multiset(path[1..])[dir as int];
    assert multiset(path[1..])[dir as int] > 0;
    assert dir as int in there;
    NamesFreedIff(nodes, there, gone);
  }

  /** The same with a command as the working directory: cd takes any node, and only directories are
      taken off the path. */
  lemma CdToCommandThenRm(nodes: seq<Node>, path: seq<int>, cmd: nat, gone: seq<nat>)
    requires forall i :: 0 <= i < |gone| ==> gone[i] < |nodes|
    requires NoDup(gone) && cmd in gone && cmd < |nodes| && nodes[cmd].kind != Dir
    ensures NamesFreed(AfterFrees(nodes, AfterCd(path, cmd), gone), gone)
  {
    var there := AfterCd(path, cmd);
    assert there[0] == cmd;
    NamesFreedIff(nodes, there, gone);
  }

  /** Only directories are taken off the path. */
  lemma {:induction false} OthersStay(nodes: seq<Node>, path: seq<int>, gone: seq<nat>)
    requires forall i :: 0 <= i < |gone| ==> gone[i] < |nodes| && nodes[gone[i]].kind != Dir
    ensures AfterFrees(nodes, path, gone) == path
    decreases |gone|
  {
    if gone != [] {
      OthersStay(nodes, path, gone[..|gone| - 1]);
    }
  }

  /** Going to a directory and removing it with the commands in it takes away the entry that cd has
      written, and no other. */
  lemma CdThenRm(nodes: seq<Node>, path: seq<int>, dir: nat, kids: seq<nat>)
    requires path != [] && dir < |nodes| && nodes[dir].kind == Dir
    requires forall i :: 0 <= i < |kids| ==> kids[i] < |nodes| && nodes[kids[i]].kind != Dir
    ensures AfterFrees(nodes, AfterCd(path, dir), kids + [dir]) == path[1..]
  {
    OthersStay(nodes, AfterCd(path, dir), kids);
    assert (kids + [dir])[..|kids|] == kids;
    assert AfterCd(path, dir)[1..] == path[1..];
  }

  /** The path that Pktgen sets up is root, /sbin and /pktgen/bin; then "cd /pktgen/bin" and
      "rm /pktgen/bin" leave it naming /sbin, now the working directory, and the freed directory. */
  lemma CdThenRmOfBin(nodes: seq<Node>, root: nat, sbin: nat, bin: nat, kids: seq<nat>)
    requires bin < |nodes| && nodes[bin].kind == Dir
    requires forall i :: 0 <= i < |kids| ==> kids[i] < |nodes| && nodes[kids[i]].kind != Dir
    ensures AfterFrees(nodes, AfterCd([root, sbin, bin], bin), kids + [bin]) == [sbin, bin]
  {
    CdThenRm(nodes, [root, sbin, bin], bin, kids);
  }

  // --- paths without repeats

  /** No entry is repeated, every entry is a live directory, and no two have the same name. */
  ghost predicate PathOk(nodes: seq<Node>, free: seq<nat>, path: seq<int>) {
    && NoDup(path)
    && (forall e :: e in path ==> InTree(nodes, free, e) && nodes[e].kind == Dir)
    && (forall d, e :: d in path && e in path && nodes[d].name == nodes[e].name ==> d == e)
  }

  /** path without the ids in `gone`, in the same order. */
  function Minus(path: seq<int>, gone: seq<nat>): seq<int> {
    if path == [] then []
    else if path[0] in gone then Minus(path[1..], gone)
    else [path[0]] + Minus(path[1..], gone)
  }

  lemma {:induction false} MinusElements(path: seq<int>, gone: seq<nat>)
    ensures forall e :: e in Minus(path, gone) <==> e in path && e !in gone
  {
    if path != [] {
      assert path == [path[0]] + path[1..];
      MinusElements(path[1..], gone);
    }
  }

  lemma {:induction false} MinusNone(path: seq<int>, gone: seq<nat>)
    requires forall e :: e in path ==> e !in gone
    ensures Minus(path, gone) == path
  {
    if path != [] {
      assert path == [path[0]] + path[1..];
      MinusNone(path[1..], gone);
    }
  }

  lemma {:induction false} MinusTwice(path: seq<int>, gone: seq<nat>, more: seq<nat>)
    ensures Minus(Minus(path, gone), more) == Minus(path, gone + more)
  {
    if path != [] {
      MinusTwice(path[1..], gone, more);
      var rest := Minus(path[1..], gone);
      assert ([path[0]] + rest)[1..] == rest;
    }
  }

  lemma {:induction false} MinusOne(path: seq<int>, x: nat)
    requires NoDup(path)
    ensures Minus(path, [x]) == Without(path, x as int)
  {
    if path != [] {
      assert forall k :: 0 <= k < |path| - 1 ==> path[1..][k] == path[k + 1];
      if path[0] == x {
        MinusNone(path[1..], [x]);
      } else {
        MinusOne(path[1..], x);
      }
    }
  }

  lemma {:induction false} MinusNoDup(path: seq<int>, gone: seq<nat>)
    requires NoDup(path)
    ensures NoDup(Minus(path, gone))
  {
    if path != [] {
      assert forall k :: 0 <= k < |path| - 1 ==> path[1..][k] == path[k + 1];
      MinusNoDup(path[1..], gone);
      MinusElements(path[1..], gone);
      assert path[0] !in Minus(path[1..], gone);
    }
  }

  /** On a path without repeats whose entries are directories, freeing nodes takes exactly their
      entries away, so no freed node stays, and the path stays such a path. */
  lemma {:induction false} FreesTakeAll(nodes: seq<Node>, free: seq<nat>, path: seq<int>, gone: seq<nat>)
    requires PathOk(nodes, free, path)
    ensures AfterFrees(nodes, path, gone) == Minus(path, gone)
    ensures PathOk(nodes, free + gone, Minus(path, gone))
    decreases |gone|
  {
    MinusNoDup(path, gone);
    MinusElements(path, gone);
    if gone == [] {
      MinusNone(path, []);
    } else {
      var last := |gone| - 1;
      FreesTakeAll(nodes, free, path, gone[..last]);
      OneMoreFree(nodes, path, gone[..last], gone[last]);
      assert gone == gone[..last] + [gone[last]];
    }
  }

  lemma OneMoreFree(nodes: seq<Node>, path: seq<int>, gone: seq<nat>, id: nat)
    requires NoDup(path) && forall e :: e in path ==> 0 <= e < |nodes| && nodes[e].kind == Dir
    ensures AfterFree(nodes, Minus(path, gone), id) == Minus(path, gone + [id])
  {
    MinusTwice(path, gone, [id]);
    MinusNoDup(path, gone);
    MinusElements(path, gone);
    if id < |nodes| && nodes[id].kind == Dir {
      MinusOne(Minus(path, gone), id);
    } else {
      MinusNone(Minus(path, gone), [id]);
    }
  }

  /** The node is a live directory whose name no later entry has. */
  ghost predicate GoodPlace(nodes: seq<Node>, free: seq<nat>, later: seq<int>, node: int)
    requires InPool(nodes, later)
  {
    && InTree(nodes, free, node) && nodes[node].kind == Dir
    && forall e :: e in later ==> nodes[e].name != nodes[node].name
  }

  lemma GoodPlaceFollows(nodes: seq<Node>, free: seq<nat>, later: seq<int>, node: int)
    requires InPool(nodes, later) && PathOk(nodes, free, [node] + later)
    ensures GoodPlace(nodes, free, later, node)
  {
    var there := [node] + later;
    assert there[0] == node && node in there;
    assert InTree(nodes, free, node);
    forall e | e in later
      ensures nodes[e].name != nodes[node].name
    {
      var k :| 0 <= k < |later| && later[k] == e;
      assert there[k + 1] == e && e in there && node in there;
    }
  }

  lemma GoodPlaceSuffices(nodes: seq<Node>, free: seq<nat>, later: seq<int>, node: int)
    requires InPool(nodes, later) && PathOk(nodes, free, later) && GoodPlace(nodes, free, later, node)
    ensures PathOk(nodes, free, [node] + later)
  {
    var there := [node] + later;
    assert forall e :: e in there ==> e == node || e in later;
    forall i, j | 0 <= i < j < |there|
      ensures there[i] != there[j]
    {
      assert there[j] == later[j - 1] && later[j - 1] in later;
    }
  }

  /** Going somewhere keeps the path without repeats if and only if the place is a live directory
      whose name no later entry has. */
  lemma CdKeepsPathIff(nodes: seq<Node>, free: seq<nat>, path: seq<int>, node: int)
    requires PathOk(nodes, free, path) && path != []
    ensures InPool(nodes, path[1..])
    ensures PathOk(nodes, free, AfterCd(path, node)) <==> GoodPlace(nodes, free, path[1..], node)
  {
    TailIsPath(nodes, free, path);
    var later := path[1..];
    assert AfterCd(path, node) == [node] + later;
    if GoodPlace(nodes, free, later, node) {
      GoodPlaceSuffices(nodes, free, later, node);
    } else if PathOk(nodes, free, [node] + later) {
      GoodPlaceFollows(nodes, free, later, node);
    }
  }

  lemma TailIsPath(nodes: seq<Node>, free: seq<nat>, path: seq<int>)
    requires PathOk(nodes, free, path) && path != []
    ensures PathOk(nodes, free, path[1..]) && InPool(nodes, path[1..])
  {
    var later := path[1..];
    assert forall k :: 0 <= k < |later| ==> later[k] == path[k + 1];
    assert forall e :: e in later ==> e in path;
  }
}
