/** Filling the transmit pools of a port from its sequence templates (app/pktgen.c): every mbuf
    takes the template at seqIdx, which then moves on and wraps at seqCnt. */
module SeqFill {
  import opened Arithmetic
  import opened Constants

  function NextIdx(idx: nat, cnt: nat): nat {
    if idx + 1 >= cnt then 0 else idx + 1
  }

  /** seqIdx after m mbufs. */
  function IdxAfter(idx: nat, cnt: nat, m: nat): nat {
    if m == 0 then idx else NextIdx(IdxAfter(idx, cnt, m - 1), cnt)
  }

  /** The templates of m mbufs in turn. */
  function Filled(idx: nat, cnt: nat, m: nat): (used: seq<nat>)
    ensures |used| == m
  {
    if m == 0 then [] else Filled(idx, cnt, m - 1) + [IdxAfter(idx, cnt, m - 1)]
  }

  class SeqPort {
    var seqIdx: nat
    var seqCnt: nat

    /** mempool_setup_cb's choice of a template: `template` outside sequence mode. */
    method SetupMbuf(seqMode: bool, template: nat) returns (idx: nat)
      requires seqIdx < NUM_SEQ_PKTS && seqCnt <= NUM_SEQ_PKTS
      modifies this`seqIdx
      ensures idx == if seqMode then old(seqIdx) else template
      ensures seqIdx == if seqMode then NextIdx(old(seqIdx), seqCnt) else old(seqIdx)
      ensures seqIdx < NUM_SEQ_PKTS
    {
      idx := template;
      if seqMode {
        idx := seqIdx;
        seqIdx := seqIdx + 1;
        if seqIdx >= seqCnt {
          seqIdx := 0;
        }
      }
    }

    /** rte_mempool_obj_iter over one pool of m mbufs in sequence mode. */
    method FillPool(m: nat, template: nat) returns (used: seq<nat>)
      requires seqIdx < NUM_SEQ_PKTS && seqCnt <= NUM_SEQ_PKTS
      modifies this`seqIdx
      ensures used == Filled(old(seqIdx), seqCnt, m)
      ensures seqIdx == IdxAfter(old(seqIdx), seqCnt, m) < NUM_SEQ_PKTS
    {
      used := [];
      for i := 0 to m
        invariant used == Filled(old(seqIdx), seqCnt, i)
        invariant seqIdx == IdxAfter(old(seqIdx), seqCnt, i) < NUM_SEQ_PKTS
      {
        var idx := SetupMbuf(true, template);
        used := used + [idx];
      }
    }

    /** pktgen_setup_packets over the pools of all queues, one after the other. */
    method FillPools(pools: seq<nat>, template: nat) returns (used: seq<nat>)
      requires seqIdx < NUM_SEQ_PKTS && seqCnt <= NUM_SEQ_PKTS
      modifies this`seqIdx
      ensures used == Filled(old(seqIdx), seqCnt, Total(pools))
      ensures seqIdx == IdxAfter(old(seqIdx), seqCnt, Total(pools)) < NUM_SEQ_PKTS
    {
      used := [];
      assert pools[..0] == [];
      for q := 0 to |pools|
        invariant used == Filled(old(seqIdx), seqCnt, Total(pools[..q]))
        invariant seqIdx == IdxAfter(old(seqIdx), seqCnt, Total(pools[..q])) < NUM_SEQ_PKTS
      {
        var more := FillPool(pools[q], template);
        FillGoesOn(old(seqIdx), seqCnt, Total(pools[..q]), pools[q]);
        assert pools[..q + 1][..q] == pools[..q];
        used := used + more;
      }
      assert pools[..|pools|] == pools;
    }
  }

  function Total(pools: seq<nat>): nat {
    if pools == [] then 0 else Total(pools[..|pools| - 1]) + pools[|pools| - 1]
  }

  /** Filling a pool goes on where the pool before it ended. */
  lemma {:induction false} FillGoesOn(idx: nat, cnt: nat, m: nat, n: nat)
    ensures IdxAfter(IdxAfter(idx, cnt, m), cnt, n) == IdxAfter(idx, cnt, m + n)
    ensures Filled(idx, cnt, m) + Filled(IdxAfter(idx, cnt, m), cnt, n) == Filled(idx, cnt, m + n)
  {
    if n > 0 {
      FillGoesOn(idx, cnt, m, n - 1);
    }
  }

  /** However seqCnt is changed between mbufs, seqIdx names one of the 16 templates. */
  lemma {:induction false} IdxStaysATemplate(idx: nat, counts: seq<nat>)
    requires idx < NUM_SEQ_PKTS && forall i :: 0 <= i < |counts| ==> counts[i] <= NUM_SEQ_PKTS
    ensures IdxUnder(idx, counts) < NUM_SEQ_PKTS
  {
    if counts != [] {
      IdxStaysATemplate(idx, counts[..|counts| - 1]);
    }
  }

  /** seqIdx after one mbuf under each of the counts. */
  function IdxUnder(idx: nat, counts: seq<nat>): nat {
    if counts == [] then idx else NextIdx(IdxUnder(idx, counts[..|counts| - 1]), counts[|counts| - 1])
  }

  // --- fairness

  function TimesUsed(used: seq<nat>, t: nat): nat {
    if used == [] then 0
    else TimesUsed(used[..|used| - 1], t) + if used[|used| - 1] == t then 1 else 0
  }

  lemma {:induction false} RoundRobin(idx: nat, cnt: nat, m: nat)
    requires idx < cnt
    ensures IdxAfter(idx, cnt, m) == (idx + m) % cnt
  {
    if m == 0 {
      DivModUnique(idx, cnt, 0, idx);
    } else {
      RoundRobin(idx, cnt, m - 1);
      NextModulo(idx + m - 1, cnt);
    }
  }

  /** How many steps template t is ahead of idx. */
  function Ahead(idx: nat, cnt: nat, t: nat): nat
    requires idx < cnt && t < cnt
  {
    if t >= idx then t - idx else t + cnt - idx
  }

  lemma HitsAt(idx: nat, cnt: nat, t: nat, m: nat)
    requires idx < cnt && t < cnt
    ensures (idx + m) % cnt == t <==> m % cnt == Ahead(idx, cnt, t)
  {
    var q, r := m / cnt, m % cnt;
    assert m == cnt * q + r;
    if idx + r < cnt {
      DivModUnique(idx + m, cnt, q, idx + r);
    } else {
      assert cnt * (q + 1) == cnt * q + cnt;
      DivModUnique(idx + m, cnt, q + 1, idx + r - cnt);
    }
  }

  /** From any seqIdx below seqCnt, m mbufs use every template floor(m / seqCnt) times, and the
      next m mod seqCnt templates once more. */
  lemma {:induction false} FillIsFair(idx: nat, cnt: nat, m: nat, t: nat)
    requires idx < cnt && t < cnt
    ensures TimesUsed(Filled(idx, cnt, m), t) == m / cnt + if Ahead(idx, cnt, t) < m % cnt then 1 else 0
  {
    if m > 0 {
      FillIsFair(idx, cnt, m - 1, t);
      RoundRobin(idx, cnt, m - 1);
      HitsAt(idx, cnt, t, m - 1);
      NextModulo(m - 1, cnt);
      assert Filled(idx, cnt, m)[..m - 1] == Filled(idx, cnt, m - 1);
    } else {
      DivModUnique(0, cnt, 0, 0);
    }
  }

  /** A seqIdx left beyond a smaller seqCnt is used once more, and then the fill starts over. */
  lemma {:induction false} BeyondCountOnce(idx: nat, cnt: nat, m: nat)
    requires idx + 1 >= cnt
    ensures Filled(idx, cnt, m + 1) == [idx] + Filled(0, cnt, m)
  {
    FillGoesOn(idx, cnt, 1, m);
    assert Filled(idx, cnt, 1) == [idx] && IdxAfter(idx, cnt, 1) == 0 by {
      assert Filled(idx, cnt, 0) == [] && IdxAfter(idx, cnt, 0) == idx;
    }
  }
}
