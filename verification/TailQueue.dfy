/** The tail queues that hold the nodes of the CLI pool (TAILQ of sys/queue.h as lib/cli/cli.c uses
    it), link by link: a node has one pair of links, so it is on one queue at a time, and every
    operation takes the queue's head on trust. Used as intended they are operations on sequences;
    freeing a node that is already free is where they are not. */
module TailQueue {
  import opened CliTree

  /** An address that holds a pointer to a node: the head of a queue, or the link in a node. */
  datatype Cell = First(q: nat) | NextOf(n: nat)

  /** tqh_first and tqh_last of every queue, tqe_next and tqe_prev of every node. */
  datatype Links = Links(first: seq<int>, last: seq<Cell>, next: seq<int>, prev: seq<Cell>)

  predicate Has(l: Links, c: Cell) {
    match c
    case First(q) => q < |l.first|
    case NextOf(n) => n < |l.next|
  }

  ghost predicate Valid(l: Links) {
    && |l.first| == |l.last| && |l.next| == |l.prev|
    && (forall q :: 0 <= q < |l.first| ==> Has(l, l.last[q]) && NULL <= l.first[q] < |l.next|)
    && (forall n :: 0 <= n < |l.next| ==> Has(l, l.prev[n]) && NULL <= l.next[n] < |l.next|)
  }

  /** *c = n. */
  ghost function Put(l: Links, c: Cell, n: int): (r: Links)
    requires Valid(l) && Has(l, c) && NULL <= n < |l.next|
    ensures Valid(r) && |r.first| == |l.first| && |r.next| == |l.next|
    ensures r.last == l.last && r.prev == l.prev
    ensures forall q :: 0 <= q < |l.first| ==> r.first[q] == if c == First(q) then n else l.first[q]
    ensures forall m :: 0 <= m < |l.next| ==> r.next[m] == if c == NextOf(m) then n else l.next[m]
  {
    match c
    case First(q) => l.(first := l.first[q := n])
    case NextOf(m) => l.(next := l.next[m := n])
  }

  ghost predicate Takes(l: Links, q: nat, n: nat) {
    Valid(l) && q < |l.first| && n < |l.next|
  }

  /** TAILQ_INSERT_TAIL. */
  ghost function InsertTail(l: Links, q: nat, n: nat): (r: Links)
    requires Takes(l, q, n)
    ensures Valid(r) && |r.first| == |l.first| && |r.next| == |l.next|
  {
    var l1 := l.(next := l.next[n := NULL], prev := l.prev[n := l.last[q]]);
    var l2 := Put(l1, l1.last[q], n);
    l2.(last := l2.last[q := NextOf(n)])
  }

  /** TAILQ_REMOVE. */
  ghost function Remove(l: Links, q: nat, n: nat): (r: Links)
    requires Takes(l, q, n)
    ensures Valid(r) && |r.first| == |l.first| && |r.next| == |l.next|
  {
    var l1 := if l.next[n] != NULL then l.(prev := l.prev[l.next[n] := l.prev[n]])
              else l.(last := l.last[q := l.prev[n]]);
    Put(l1, l1.prev[n], l1.next[n])
  }

  /** TAILQ_INSERT_HEAD. */
  ghost function InsertHead(l: Links, q: nat, n: nat): (r: Links)
    requires Takes(l, q, n)
    ensures Valid(r) && |r.first| == |l.first| && |r.next| == |l.next|
  {
    var l1 := l.(next := l.next[n := l.first[q]]);
    var l2 := if l.first[q] != NULL then l1.(prev := l1.prev[l.first[q] := NextOf(n)])
              else l1.(last := l1.last[q := NextOf(n)]);
    l2.(first := l2.first[q := n], prev := l2.prev[n := First(q)])
  }

  // --- what a queue lists

  function HeadOf(s: seq<nat>): int { if s == [] then NULL else s[0] }

  function After(s: seq<nat>, k: nat): int
    requires k < |s|
  {
    if k + 1 < |s| then s[k + 1] else NULL
  }

  function Before(q: nat, s: seq<nat>, k: nat): Cell
    requires k <= |s|
  {
    if k == 0 then First(q) else NextOf(s[k - 1])
  }

  /** Following the links from the head gives s. */
  ghost predicate Walk(l: Links, q: nat, s: seq<nat>) {
    && q < |l.first| && l.first[q] == HeadOf(s)
    && (forall k :: 0 <= k < |s| ==> s[k] < |l.next|)
    && (forall k :: 0 <= k < |s| ==> l.next[s[k]] == After(s, k))
  }

  /** Element k of a list, seen from node s[k]. */
  ghost predicate LinkedAt(l: Links, q: nat, s: seq<nat>, k: nat)
    requires Valid(l) && k < |s|
  {
    s[k] < |l.next| && l.next[s[k]] == After(s, k) && l.prev[s[k]] == Before(q, s, k)
  }

  /** The links back are right as well. An empty queue's tqh_last need not be: the items of a new
      node are never initialised. */
  ghost predicate Lists(l: Links, q: nat, s: seq<nat>)
    requires Valid(l)
  {
    && q < |l.first| && l.first[q] == HeadOf(s) && NoDup(s)
    && (forall k :: 0 <= k < |s| ==> s[k] < |l.next|)
    && (forall k :: 0 <= k < |s| ==> LinkedAt(l, q, s, k))
    && (s != [] ==> l.last[q] == Before(q, s, |s|))
  }

  /** A queue that can take a node at its tail. */
  ghost predicate Queue(l: Links, q: nat, s: seq<nat>)
    requires Valid(l)
  {
    Lists(l, q, s) && l.last[q] == Before(q, s, |s|)
  }

  lemma ListsIsWalk(l: Links, q: nat, s: seq<nat>)
    requires Valid(l) && Lists(l, q, s)
    ensures Walk(l, q, s)
  {
    forall k | 0 <= k < |s|
      ensures s[k] < |l.next| && l.next[s[k]] == After(s, k)
    {
      assert LinkedAt(l, q, s, k);
    }
  }

  lemma {:induction false} SameNodeAt(l: Links, q: nat, s: seq<nat>, t: seq<nat>, k: nat)
    requires Walk(l, q, s) && Walk(l, q, t) && k < |s| && k < |t|
    ensures s[k] == t[k]
  {
    if k > 0 {
      SameNodeAt(l, q, s, t, k - 1);
      assert l.next[s[k - 1]] == After(s, k - 1) && l.next[t[k - 1]] == After(t, k - 1);
    }
  }

  lemma NoLongerWalk(l: Links, q: nat, s: seq<nat>, t: seq<nat>)
    requires Walk(l, q, s) && Walk(l, q, t)
    ensures |t| <= |s|
  {
    if 0 < |s| < |t| {
      SameNodeAt(l, q, s, t, |s| - 1);
    }
  }

  /** A queue lists one sequence only. */
  lemma OneWalk(l: Links, q: nat, s: seq<nat>, t: seq<nat>)
    requires Walk(l, q, s) && Walk(l, q, t)
    ensures s == t
  {
    NoLongerWalk(l, q, s, t);
    NoLongerWalk(l, q, t, s);
    forall k | 0 <= k < |s| ensures s[k] == t[k] {
      SameNodeAt(l, q, s, t, k);
    }
  }

  // --- as operations on sequences

  function Cut(s: seq<nat>, i: nat): seq<nat>
    requires i < |s|
  {
    s[..i] + s[i + 1..]
  }

  lemma {:induction false} CutIsWithout(s: seq<nat>, i: nat)
    requires i < |s| && NoDup(s)
    ensures Cut(s, i) == Without(s, s[i])
  {
    if i > 0 {
      assert forall k :: 0 <= k < |s| - 1 ==> s[1..][k] == s[k + 1];
      CutIsWithout(s[1..], i - 1);
      assert Cut(s, i) == [s[0]] + Cut(s[1..], i - 1);
    }
  }

  /** What one insertion leaves in the links. */
  lemma AfterInsertTail(l: Links, q: nat, n: nat, m: nat)
    requires Takes(l, q, n) && m < |l.next|
    ensures var r := InsertTail(l, q, n);
      && r.next[m] == (if l.last[q] == NextOf(m) then n else if m == n then NULL else l.next[m])
      && r.prev[m] == (if m == n then l.last[q] else l.prev[m])
      && r.last[q] == NextOf(n)
  {
  }

  lemma AfterRemove(l: Links, q: nat, n: nat, m: nat)
    requires Takes(l, q, n) && m < |l.next| && l.next[n] != n
    ensures var r := Remove(l, q, n);
      && r.next[m] == (if l.prev[n] == NextOf(m) then l.next[n] else l.next[m])
      && r.prev[m] == (if l.next[n] == m then l.prev[n] else l.prev[m])
  {
  }

  lemma AfterInsertHead(l: Links, q: nat, n: nat, m: nat)
    requires Takes(l, q, n) && m < |l.next|
    ensures var r := InsertHead(l, q, n);
      && r.next[m] == (if m == n then l.first[q] else l.next[m])
      && r.prev[m] == (if m == n then First(q) else if l.first[q] == m then NextOf(n) else l.prev[m])
  {
  }

  lemma InsertTailAppends(l: Links, q: nat, s: seq<nat>, n: nat)
    requires Takes(l, q, n) && Queue(l, q, s) && n !in s
    ensures Queue(InsertTail(l, q, n), q, s + [n])
  {
    var r, t := InsertTail(l, q, n), s + [n];
    forall k | 0 <= k < |t|
      ensures LinkedAt(r, q, t, k)
    {
      AfterInsertTail(l, q, n, t[k]);
      if k < |s| {
        assert t[k] == s[k] && s[k] in s && LinkedAt(l, q, s, k);
      }
    }
  }

  lemma CutAt(s: seq<nat>, i: nat, k: nat)
    requires i < |s| && k < |s| - 1
    ensures Cut(s, i)[k] == if k < i then s[k] else s[k + 1]
  {
  }

  lemma CutLinks(q: nat, s: seq<nat>, i: nat, k: nat)
    requires i < |s| && k < |s| - 1
    ensures var j := if k < i then k else k + 1;
      && Cut(s, i)[k] == s[j]
      && After(Cut(s, i), k) == (if j + 1 == i then After(s, i) else After(s, j))
      && Before(q, Cut(s, i), k) == (if j == i + 1 then Before(q, s, i) else Before(q, s, j))
  {
    CutAt(s, i, k);
    if k > 0 {
      CutAt(s, i, k - 1);
    }
    if k + 1 < |s| - 1 {
      CutAt(s, i, k + 1);
    }
  }

  /** One element of the list that is left when node i is taken off. */
  lemma LinkedAfterCut(l: Links, f: nat, q: nat, s: seq<nat>, i: nat, k: nat)
    requires Valid(l) && Lists(l, f, s) && q < |l.first| && i < |s| && k < |s| - 1
    ensures LinkedAt(Remove(l, q, s[i]), f, Cut(s, i), k)
  {
    var j := if k < i then k else k + 1;
    CutLinks(f, s, i, k);
    assert LinkedAt(l, f, s, i) && LinkedAt(l, f, s, j);
    AfterRemove(l, q, s[i], s[j]);
    assert l.prev[s[i]] == NextOf(s[j]) <==> j + 1 == i;
    assert l.next[s[i]] == s[j] <==> j == i + 1;
  }

  /** Taking node i of a queue off it, whatever head is named, unless the node is the last: the head
      is written only then. */
  lemma RemoveInside(l: Links, f: nat, q: nat, s: seq<nat>, i: nat)
    requires Valid(l) && Lists(l, f, s) && q < |l.first| && i + 1 < |s|
    ensures Queue(Remove(l, q, s[i]), f, Cut(s, i))
  {
    var r, t := Remove(l, q, s[i]), Cut(s, i);
    forall k | 0 <= k < |t|
      ensures LinkedAt(r, f, t, k)
    {
      LinkedAfterCut(l, f, q, s, i, k);
    }
    CutHasNoDup(s, i);
    CutAt(s, i, |t| - 1);
    CutAt(s, i, 0);
    assert LinkedAt(l, f, s, i);
  }

  lemma CutHasNoDup(s: seq<nat>, i: nat)
    requires i < |s| && NoDup(s)
    ensures NoDup(Cut(s, i)) && s[i] !in Cut(s, i)
  {
    var t := Cut(s, i);
    assert forall k :: 0 <= k < |t| ==> t[k] == if k < i then s[k] else s[k + 1];
  }

  /** Taking the last node off with its own head named. */
  lemma RemoveLast(l: Links, q: nat, s: seq<nat>)
    requires Valid(l) && Lists(l, q, s) && s != []
    ensures Queue(Remove(l, q, s[|s| - 1]), q, s[..|s| - 1])
  {
    var i := |s| - 1;
    var r := Remove(l, q, s[i]);
    assert LinkedAt(l, q, s, i);
    forall k | 0 <= k < i
      ensures LinkedAt(r, q, s[..i], k)
    {
      assert Cut(s, i) == s[..i];
      LinkedAfterCut(l, q, q, s, i, k);
    }
    if i > 0 {
      assert LinkedAt(l, q, s, 0);
    }
  }

  /** Putting a node at the head. */
  lemma InsertHeadPrepends(l: Links, q: nat, s: seq<nat>, n: nat)
    requires Takes(l, q, n) && Lists(l, q, s) && n !in s
    ensures Queue(InsertHead(l, q, n), q, [n] + s)
  {
    var r, t := InsertHead(l, q, n), [n] + s;
    forall k | 0 <= k < |t|
      ensures LinkedAt(r, q, t, k)
    {
      AfterInsertHead(l, q, n, t[k]);
      if k > 0 {
        assert t[k] == s[k - 1] && s[k - 1] in s && LinkedAt(l, q, s, k - 1);
        assert k > 1 ==> s[0] != s[k - 1];
      }
    }
  }

  // --- the other queues

  ghost predicate Apart(s: seq<nat>, t: seq<nat>) {
    forall i :: 0 <= i < |s| ==> s[i] !in t
  }

  lemma RemoveKeepsOther(l: Links, q: nat, s: seq<nat>, i: nat, r: nat, u: seq<nat>)
    requires Valid(l) && Lists(l, q, s) && i < |s|
    requires r != q && Lists(l, r, u) && Apart(s, u)
    ensures var l' := Remove(l, q, s[i]); Lists(l', r, u) && l'.last[r] == l.last[r]
  {
    var l' := Remove(l, q, s[i]);
    assert LinkedAt(l, q, s, i);
    forall k | 0 <= k < |u|
      ensures LinkedAt(l', r, u, k)
    {
      assert LinkedAt(l, r, u, k) && u[k] in u;
      AfterRemove(l, q, s[i], u[k]);
    }
  }

  lemma InsertTailKeepsOther(l: Links, q: nat, s: seq<nat>, n: nat, r: nat, u: seq<nat>)
    requires Takes(l, q, n) && Queue(l, q, s)
    requires r != q && Lists(l, r, u) && Apart(s, u) && n !in u
    ensures var l' := InsertTail(l, q, n); Lists(l', r, u) && l'.last[r] == l.last[r]
  {
    var l' := InsertTail(l, q, n);
    forall k | 0 <= k < |u|
      ensures LinkedAt(l', r, u, k)
    {
      assert LinkedAt(l, r, u, k) && u[k] in u;
      AfterInsertTail(l, q, n, u[k]);
    }
  }

  lemma InsertHeadKeepsOther(l: Links, q: nat, s: seq<nat>, n: nat, r: nat, u: seq<nat>)
    requires Takes(l, q, n) && Lists(l, q, s)
    requires r != q && Lists(l, r, u) && Apart(s, u) && n !in u
    ensures var l' := InsertHead(l, q, n); Lists(l', r, u) && l'.last[r] == l.last[r]
  {
    var l' := InsertHead(l, q, n);
    forall k | 0 <= k < |u|
      ensures LinkedAt(l', r, u, k)
    {
      assert LinkedAt(l, r, u, k) && u[k] in u;
      AfterInsertHead(l, q, n, u[k]);
    }
  }

  /** Taking node i off its queue, whose head is named. */
  lemma RemoveTakesOut(l: Links, q: nat, s: seq<nat>, i: nat)
    requires Valid(l) && Lists(l, q, s) && i < |s|
    ensures Queue(Remove(l, q, s[i]), q, Cut(s, i))
  {
    if i + 1 < |s| {
      RemoveInside(l, q, q, s, i);
    } else {
      RemoveLast(l, q, s);
      assert Cut(s, i) == s[..i];
    }
  }

  /** The end of cli_remove_node: off the parent's items q, to the tail of the free list f. */
  ghost function FreeNode(l: Links, q: nat, f: nat, n: nat): (r: Links)
    requires Takes(l, q, n) && f < |l.first|
    ensures Valid(r) && |r.first| == |l.first| && |r.next| == |l.next|
  {
    InsertTail(Remove(l, q, n), f, n)
  }

  /** Freeing a node that is among the items moves it, and nothing else. */
  lemma FreeNodeMoves(l: Links, q: nat, f: nat, t: seq<nat>, i: nat, s: seq<nat>)
    requires Valid(l) && Lists(l, q, t) && i < |t| && Queue(l, f, s) && q != f
    requires Apart(t, s) && Apart(s, t)
    ensures var l' := FreeNode(l, q, f, t[i]); Queue(l', f, s + [t[i]]) && Lists(l', q, Cut(t, i))
  {
    var l1 := Remove(l, q, t[i]);
    RemoveTakesOut(l, q, t, i);
    RemoveKeepsOther(l, q, t, i, f, s);
    InsertTailAppends(l1, f, s, t[i]);
    CutHasNoDup(t, i);
    CutIsPart(t, i);
    InsertTailKeepsOther(l1, f, s, t[i], q, Cut(t, i));
  }

  lemma CutIsPart(t: seq<nat>, i: nat)
    requires i < |t|
    ensures forall x :: x in Cut(t, i) ==> x in t
  {
  }

  /** The end of __add_node: off the head of the free list f, to the head of the parent's items q. */
  lemma LinkNodeMoves(l: Links, q: nat, f: nat, t: seq<nat>, s: seq<nat>)
    requires Valid(l) && Lists(l, q, t) && Queue(l, f, s) && s != [] && q != f
    requires Apart(t, s) && Apart(s, t)
    ensures var l' := InsertHead(Remove(l, f, s[0]), q, s[0]); Queue(l', f, s[1..]) && Lists(l', q, [s[0]] + t)
  {
    var l1 := Remove(l, f, s[0]);
    RemoveTakesOut(l, f, s, 0);
    assert Cut(s, 0) == s[1..];
    RemoveKeepsOther(l, f, s, 0, q, t);
    assert s[0] in s;
    InsertHeadPrepends(l1, q, t, s[0]);
    CutHasNoDup(s, 0);
    InsertHeadKeepsOther(l1, q, t, s[0], f, s[1..]);
  }

  /** Every other list stays. */
  lemma FreeNodeKeeps(l: Links, q: nat, f: nat, t: seq<nat>, i: nat, s: seq<nat>, r: nat, u: seq<nat>)
    requires Valid(l) && Lists(l, q, t) && i < |t| && Queue(l, f, s) && q != f
    requires Apart(t, s) && Apart(t, u) && Apart(s, u) && r != q && r != f && Lists(l, r, u)
    ensures Lists(FreeNode(l, q, f, t[i]), r, u)
  {
    RemoveKeepsOther(l, q, t, i, r, u);
    RemoveKeepsOther(l, q, t, i, f, s);
    InsertTailKeepsOther(Remove(l, q, t[i]), f, s, t[i], r, u);
  }

  lemma LinkNodeKeeps(l: Links, q: nat, f: nat, t: seq<nat>, s: seq<nat>, r: nat, u: seq<nat>)
    requires Valid(l) && Lists(l, q, t) && Queue(l, f, s) && s != [] && q != f
    requires Apart(s, t) && Apart(t, u) && Apart(s, u) && r != q && r != f && Lists(l, r, u)
    ensures Lists(InsertHead(Remove(l, f, s[0]), q, s[0]), r, u)
  {
    RemoveKeepsOther(l, f, s, 0, r, u);
    RemoveKeepsOther(l, f, s, 0, q, t);
    InsertHeadKeepsOther(Remove(l, f, s[0]), q, t, s[0], r, u);
  }

  // --- every list at once

  /** Queue 0 is the free list, and every queue lists what it should. */
  ghost predicate AllLists(l: Links, lists: seq<seq<nat>>) {
    && Valid(l) && lists != [] && |l.first| == |lists| && Queue(l, 0, lists[0])
    && forall q :: 0 <= q < |lists| ==> Lists(l, q, lists[q])
  }

  ghost predicate AllApart(lists: seq<seq<nat>>) {
    forall q, r :: 0 <= q < |lists| && 0 <= r < |lists| && q != r ==> Apart(lists[q], lists[r])
  }

  /** The end of __add_node as the tree sees it: the first free node becomes the first item of q. */
  lemma LinkNodeMovesOnly(l: Links, lists: seq<seq<nat>>, q: nat)
    requires AllLists(l, lists) && AllApart(lists) && 0 < q < |lists| && lists[0] != []
    ensures lists[0][0] < |l.next|
    ensures AllLists(InsertHead(Remove(l, 0, lists[0][0]), q, lists[0][0]),
                     lists[0 := lists[0][1..]][q := [lists[0][0]] + lists[q]])
  {
    var s, t := lists[0], lists[q];
    var lists' := lists[0 := s[1..]][q := [s[0]] + t];
    var l' := InsertHead(Remove(l, 0, s[0]), q, s[0]);
    assert Apart(s, t) && Apart(t, s);
    LinkNodeMoves(l, q, 0, t, s);
    forall r | 0 <= r < |lists| ensures Lists(l', r, lists'[r]) {
      if r != 0 && r != q {
        assert lists'[r] == lists[r] && Apart(s, lists[r]) && Apart(t, lists[r]);
        LinkNodeKeeps(l, q, 0, t, s, r, lists[r]);
      }
    }
  }

  /** The end of cli_remove_node as the tree sees it: item i of q becomes the last free node. */
  lemma FreeNodeMovesOnly(l: Links, lists: seq<seq<nat>>, q: nat, i: nat)
    requires AllLists(l, lists) && AllApart(lists) && 0 < q < |lists| && i < |lists[q]|
    ensures lists[q][i] < |l.next|
    ensures AllLists(FreeNode(l, q, 0, lists[q][i]),
                     lists[0 := lists[0] + [lists[q][i]]][q := Cut(lists[q], i)])
  {
    var s, t := lists[0], lists[q];
    var lists' := lists[0 := s + [t[i]]][q := Cut(t, i)];
    var l' := FreeNode(l, q, 0, t[i]);
    assert Apart(s, t) && Apart(t, s);
    FreeNodeMoves(l, q, 0, t, i, s);
    forall r | 0 <= r < |lists| ensures Lists(l', r, lists'[r]) {
      if r != 0 && r != q {
        assert lists'[r] == lists[r] && Apart(s, lists[r]) && Apart(t, lists[r]);
        FreeNodeKeeps(l, q, 0, t, i, s, r, lists[r]);
      }
    }
  }

  // --- freeing a free node

  /** What following the free list from its head gives after the node is freed once more. */
  function Freed(free: seq<nat>, id: nat): seq<nat> {
    if id !in free then free + [id]
    else if free[|free| - 1] == id then free[..|free| - 1]
    else Without(free, id) + [id]
  }

  /** The list ends, and its tail pointer leads to a node that is not on it. */
  ghost predicate Severed(l: Links, f: nat, s: seq<nat>, n: nat)
    requires Valid(l)
  {
    Walk(l, f, s) && l.last[f] == NextOf(n) && n !in s
  }

  lemma SeveredIsNoQueue(l: Links, f: nat, s: seq<nat>, n: nat, u: seq<nat>)
    requires Valid(l) && Severed(l, f, s, n)
    ensures !Queue(l, f, u)
  {
    if Queue(l, f, u) {
      ListsIsWalk(l, f, u);
      OneWalk(l, f, s, u);
    }
  }

  lemma LastBySomeOtherHead(l: Links, f: nat, q: nat, s: seq<nat>)
    requires Valid(l) && Queue(l, f, s) && s != [] && q < |l.first| && q != f
    ensures var i := |s| - 1; Severed(Remove(l, q, s[i]), f, s[..i], s[i])
  {
    var i := |s| - 1;
    var r := Remove(l, q, s[i]);
    assert LinkedAt(l, f, s, i);
    forall k | 0 <= k < i
      ensures r.next[s[..i][k]] == After(s[..i], k)
    {
      assert LinkedAt(l, f, s, k);
      AfterRemove(l, q, s[i], s[k]);
    }
    if i > 0 {
      assert LinkedAt(l, f, s, 0);
    }
  }

  /** What is put at the tail of a severed list is not on it either. */
  lemma InsertTailIsLost(l: Links, f: nat, s: seq<nat>, n: nat, m: nat)
    requires Takes(l, f, m) && Severed(l, f, s, n) && m !in s
    ensures Severed(InsertTail(l, f, m), f, s, m)
  {
    var r := InsertTail(l, f, m);
    forall k | 0 <= k < |s|
      ensures r.next[s[k]] == After(s, k)
    {
      assert s[k] in s;
      AfterInsertTail(l, f, m, s[k]);
    }
  }

  ghost function InsertAll(l: Links, f: nat, more: seq<nat>): (r: Links)
    requires Valid(l) && f < |l.first| && forall k :: 0 <= k < |more| ==> more[k] < |l.next|
    ensures Valid(r) && |r.first| == |l.first| && |r.next| == |l.next|
  {
    if more == [] then l else InsertTail(InsertAll(l, f, more[..|more| - 1]), f, more[|more| - 1])
  }

  /** However many nodes are freed later, the list stays as it is. */
  lemma {:induction false} LaterFreesAreLost(l: Links, f: nat, s: seq<nat>, n: nat, more: seq<nat>)
    requires Valid(l) && f < |l.first| && (forall k :: 0 <= k < |more| ==> more[k] < |l.next| && more[k] !in s)
    requires Severed(l, f, s, n)
    ensures Walk(InsertAll(l, f, more), f, s)
    ensures Severed(InsertAll(l, f, more), f, s, if more == [] then n else more[|more| - 1])
  {
    if more != [] {
      var front := more[..|more| - 1];
      LaterFreesAreLost(l, f, s, n, front);
      InsertTailIsLost(InsertAll(l, f, front), f, s, if front == [] then n else front[|front| - 1],
                       more[|more| - 1]);
    }
  }

  /** Freeing a free node: if it is the last of the free list, the list loses it, and every node
      freed from then on; any other node goes to the tail. */
  lemma FreedAgain(l: Links, f: nat, q: nat, s: seq<nat>, i: nat)
    requires Valid(l) && Queue(l, f, s) && q < |l.first| && q != f && i < |s|
    ensures var l' := FreeNode(l, q, f, s[i]);
      && Walk(l', f, Freed(s, s[i]))
      && (if i + 1 < |s| then Queue(l', f, Freed(s, s[i])) else Severed(l', f, Freed(s, s[i]), s[i]))
      && ((exists u :: Queue(l', f, u)) <==> i + 1 < |s|)
  {
    var l1, l' := Remove(l, q, s[i]), FreeNode(l, q, f, s[i]);
    assert s[i] in s;
    if i + 1 < |s| {
      RemoveInside(l, f, q, s, i);
      CutHasNoDup(s, i);
      CutIsWithout(s, i);
      InsertTailAppends(l1, f, Cut(s, i), s[i]);
      ListsIsWalk(l', f, Freed(s, s[i]));
    } else {
      LastBySomeOtherHead(l, f, q, s);
      InsertTailIsLost(l1, f, s[..i], s[i], s[i]);
      forall u | Queue(l', f, u) ensures false {
        SeveredIsNoQueue(l', f, s[..i], s[i], u);
      }
    }
  }
}
