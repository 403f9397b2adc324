/** The ring of recent latencies (app/pktgen.c:306-313) and the percentile read from it
    (app/pktgen-latency.c:214-236). */
module Latency {
  import opened Quantiles

  const RING_SIZE := 1024

  /** The last min(n, RING_SIZE) of the values inserted so far. */
  function Recent(inserted: seq<nat>): seq<nat> {
    if |inserted| <= RING_SIZE then inserted else inserted[|inserted| - RING_SIZE..]
  }

  /** What was inserted before the last 1024 values is forgotten, and nothing else. */
  lemma RecentOf(before: seq<nat>, recent: seq<nat>)
    requires |recent| == 1024 || (|recent| < 1024 && before == [])
    ensures Recent(before + recent) == recent
  {
  }

  lemma NextHead(n: nat)
    ensures (n % RING_SIZE + 1) % RING_SIZE == (n + 1) % RING_SIZE
  {
  }

  lemma SlotsDiffer(k: nat, n: nat)
    requires k < n < k + RING_SIZE
    ensures k % RING_SIZE != n % RING_SIZE
  {
  }

  /** Slots hold the insertions they were last given. */
  ghost predicate Holds(data: seq<nat>, inserted: seq<nat>) {
    && |data| == RING_SIZE
    && forall k :: 0 <= k < |inserted| && |inserted| - k <= RING_SIZE ==> data[k % RING_SIZE] == inserted[k]
  }

  lemma HoldsNext(data: seq<nat>, inserted: seq<nat>, value: nat)
    requires Holds(data, inserted)
    ensures Holds(data[|inserted| % RING_SIZE := value], inserted + [value])
  {
    var n, data', more := |inserted|, data[|inserted| % RING_SIZE := value], inserted + [value];
    forall k | 0 <= k < |more| && |more| - k <= RING_SIZE
      ensures data'[k % RING_SIZE] == more[k]
    {
      if k < n {
        SlotsDiffer(k, n);
        assert data[k % RING_SIZE] == inserted[k];
      }
    }
  }

  /** The ring's data, head and count for what was inserted. */
  ghost predicate RingOf(data: seq<nat>, inserted: seq<nat>, head: nat, count: nat) {
    Holds(data, inserted) && head == |inserted| % RING_SIZE && count == |Recent(inserted)|
  }

  lemma InsertIsValid(data: seq<nat>, inserted: seq<nat>, head: nat, count: nat, value: nat)
    requires RingOf(data, inserted, head, count)
    ensures head < |data| && RingOf(data[head := value], inserted + [value], (head + 1) % RING_SIZE,
                                    if count < RING_SIZE then count + 1 else count)
  {
    HoldsNext(data, inserted, value);
    NextHead(|inserted|);
  }

  lemma RotationKeepsValues(w: seq<nat>, cut: nat)
    requires cut <= |w|
    ensures multiset(w[cut..] + w[..cut]) == multiset(w)
  {
    assert w == w[..cut] + w[cut..];
  }

  lemma FullSlot(data: seq<nat>, inserted: seq<nat>, i: nat)
    requires Holds(data, inserted) && |inserted| > RING_SIZE && i < RING_SIZE
    ensures var h := |inserted| % RING_SIZE;
            data[i] == Recent(inserted)[if i < h then RING_SIZE - h + i else i - h]
  {
    var n, h := |inserted|, |inserted| % RING_SIZE;
    var k := if i < h then n - h + i else n - h - RING_SIZE + i;
    SlotOf(n, i, k);
    assert data[k % RING_SIZE] == inserted[k];
  }

  lemma FullRingIsRotated(data: seq<nat>, inserted: seq<nat>)
    requires Holds(data, inserted) && |inserted| > RING_SIZE
    ensures var w, cut := Recent(inserted), RING_SIZE - |inserted| % RING_SIZE;
            |w| == RING_SIZE && data == w[cut..] + w[..cut]
  {
    var w, cut := Recent(inserted), RING_SIZE - |inserted| % RING_SIZE;
    var rotated := w[cut..] + w[..cut];
    forall i: nat | i < RING_SIZE
      ensures data[i] == rotated[i]
    {
      FullSlot(data, inserted, i);
    }
  }

  lemma UnfilledRing(data: seq<nat>, inserted: seq<nat>)
    requires Holds(data, inserted) && |inserted| <= RING_SIZE
    ensures data[..|inserted|] == inserted
  {
    forall k: nat | k < |inserted|
      ensures data[k] == inserted[k]
    {
      assert k % RING_SIZE == k;
    }
  }

  /** Wherever the head is, the filled part of the ring holds the recent insertions. */
  lemma HoldsRecent(data: seq<nat>, inserted: seq<nat>, count: nat)
    requires Holds(data, inserted) && count == |Recent(inserted)|
    ensures multiset(data[..count]) == multiset(Recent(inserted))
  {
    if |inserted| <= RING_SIZE {
      UnfilledRing(data, inserted);
    } else {
      FullRingIsRotated(data, inserted);
      RotationKeepsValues(Recent(inserted), RING_SIZE - |inserted| % RING_SIZE);
      assert data[..count] == data;
    }
  }

  lemma SlotOf(n: nat, i: nat, k: int)
    requires n > RING_SIZE && i < RING_SIZE
    requires k == if i < n % RING_SIZE then n - n % RING_SIZE + i else n - n % RING_SIZE - RING_SIZE + i
    ensures 0 <= k < n && n - k <= RING_SIZE && k % RING_SIZE == i
  {
  }

  class LatencyRing {
    const data: array<nat>
    var head: nat
    var count: nat
    ghost var inserted: seq<nat>

    ghost predicate Valid()
      reads this, data
    {
      RingOf(data[..], inserted, head, count)
    }

    constructor ()
      ensures Valid() && fresh(data) && inserted == []
    {
      data := new nat[RING_SIZE](_ => 0);
      head, count, inserted := 0, 0, [];
    }

    method Insert(value: nat)
      requires Valid()
      modifies this, data
      ensures Valid() && inserted == old(inserted) + [value]
    {
      InsertIsValid(data[..], inserted, head, count, value);
      ghost var next := data[..][head := value];
      data[head] := value;
      assert data[..] == next;
      head := (head + 1) % RING_SIZE;
      if count < RING_SIZE {
        count := count + 1;
      }
      inserted := inserted + [value];
    }

    /** The samples are copied, the copy sorted, and two neighbours interpolated. */
    method Percentile(q: real) returns (r: nat)
      requires Valid() && 0.0 <= q <= 1.0
      ensures r == Quantile(Recent(inserted), q)
      ensures inserted == [] ==> r == 0
    {
      if count == 0 {
        return 0;
      }
      var tmp := new nat[RING_SIZE](_ => 0);
      var i := 0;
      while i < count
        invariant 0 <= i <= count
        invariant tmp[..i] == data[..i]
      {
        tmp[i] := data[i];
        i := i + 1;
      }
      HoldsRecent(data[..], inserted, count);
      assert data[..][..count] == tmp[..count];
      QuantileOfMultiset(tmp[..count], Recent(inserted), q);
      r := PercentileOf(Sorted(tmp[..count]), q, tmp[..count]);
    }
  }

  /** The interpolation of two neighbours in sorted order. */
  method PercentileOf(tmp: seq<nat>, q: real, ghost samples: seq<nat>) returns (r: nat)
    requires 0.0 <= q <= 1.0 && samples != [] && tmp == Sorted(samples)
    ensures r == Quantile(samples, q)
  {
    SortedAscends(samples);
    var pos := Position(q, |tmp|);
    var idx := pos.Floor;
    var frac := pos - idx as real;
    if idx + 1 < |tmp| {
      assert tmp[idx] <= tmp[idx + 1];
      r := tmp[idx] + Part(tmp[idx + 1] - tmp[idx], frac);
    } else {
      r := tmp[idx];
    }
  }
}
