/** The compare-and-set retry loops that update the port flag word (app/pktgen.h), one atomic
    access at a time. */
module FlagCas {
  import opened PortFlags

  /** Where a thread is in pktgen_set_port_flags or pktgen_clr_port_flags: not in one, about to
      read the word, or holding the word it read and about to compare-and-set. */
  datatype ThreadPc = Outside | Entered(op: FlagOp) | HasRead(op: FlagOp, val: FlagWord)

  datatype FlagState = FlagState(word: FlagWord, threads: seq<ThreadPc>, entered: seq<FlagOp>, applied: seq<FlagOp>)

  datatype FlagStep = Enter(t: nat, op: FlagOp) | ReadWord(t: nat) | CmpSet(t: nat)

  ghost predicate Enabled(s: FlagState, step: FlagStep) {
    && step.t < |s.threads|
    && match step
       case Enter(t, _) => s.threads[t].Outside?
       case ReadWord(t) => s.threads[t].Entered?
       case CmpSet(t) => s.threads[t].HasRead?
  }

  /** One atomic access. A failed compare-and-set goes back to reading the word. */
  ghost function Next(s: FlagState, step: FlagStep): FlagState
    requires Enabled(s, step)
  {
    match step
    case Enter(t, op) => s.(threads := s.threads[t := Entered(op)], entered := s.entered + [op])
    case ReadWord(t) => s.(threads := s.threads[t := HasRead(s.threads[t].op, s.word)])
    case CmpSet(t) =>
      var pc := s.threads[t];
      if s.word == pc.val
      then s.(word := pc.op.Effect(pc.val), threads := s.threads[t := Outside], applied := s.applied + [pc.op])
      else s.(threads := s.threads[t := Entered(pc.op)])
  }

  ghost predicate Legal(s: FlagState, steps: seq<FlagStep>)
    decreases |steps|
  {
    steps == [] || (Enabled(s, steps[0]) && Legal(Next(s, steps[0]), steps[1..]))
  }

  ghost function Run(s: FlagState, steps: seq<FlagStep>): FlagState
    requires Legal(s, steps)
    decreases |steps|
  {
    if steps == [] then s else Run(Next(s, steps[0]), steps[1..])
  }

  /** The word that results from performing whole operations one after the other. */
  ghost function Fold(word: FlagWord, ops: seq<FlagOp>): FlagWord
  {
    if ops == [] then word else ops[|ops| - 1].Effect(Fold(word, ops[..|ops| - 1]))
  }

  ghost function Held(pc: ThreadPc, op: FlagOp): nat {
    if !pc.Outside? && pc.op == op then 1 else 0
  }

  /** How many threads are inside an operation `op`. */
  ghost function InProgress(threads: seq<ThreadPc>, op: FlagOp): nat
  {
    if threads == [] then 0
    else InProgress(threads[..|threads| - 1], op) + Held(threads[|threads| - 1], op)
  }

  lemma {:induction false} InProgressUpdate(threads: seq<ThreadPc>, t: nat, pc: ThreadPc, op: FlagOp)
    requires t < |threads|
    ensures InProgress(threads[t := pc], op) + Held(threads[t], op) == InProgress(threads, op) + Held(pc, op)
  {
    var last := |threads| - 1;
    var after := threads[t := pc];
    if t == last {
      assert after[..last] == threads[..last];
    } else {
      assert after[..last] == threads[..last][t := pc];
      InProgressUpdate(threads[..last], t, pc, op);
    }
  }

  lemma {:induction false} NothingInProgress(threads: seq<ThreadPc>, op: FlagOp)
    requires forall t :: 0 <= t < |threads| ==> threads[t].Outside?
    ensures InProgress(threads, op) == 0
  {
    if threads != [] {
      NothingInProgress(threads[..|threads| - 1], op);
    }
  }

  ghost predicate Accounted(s: FlagState, op: FlagOp) {
    multiset(s.entered)[op] == multiset(s.applied)[op] + InProgress(s.threads, op)
  }

  ghost predicate FlagInv(s: FlagState, word0: FlagWord) {
    s.word == Fold(word0, s.applied) && forall op :: Accounted(s, op)
  }

  lemma StepAccounted(s: FlagState, step: FlagStep, op: FlagOp)
    requires Enabled(s, step) && Accounted(s, op)
    ensures Accounted(Next(s, step), op)
  {
    InProgressUpdate(s.threads, step.t, Next(s, step).threads[step.t], op);
  }

  lemma StepFolds(s: FlagState, step: FlagStep, word0: FlagWord)
    requires Enabled(s, step) && s.word == Fold(word0, s.applied)
    ensures Next(s, step).word == Fold(word0, Next(s, step).applied)
  {
    var s' := Next(s, step);
    if |s'.applied| > |s.applied| {
      assert s'.applied[..|s.applied|] == s.applied;
    }
  }

  lemma FlagStepInv(s: FlagState, step: FlagStep, word0: FlagWord)
    requires FlagInv(s, word0) && Enabled(s, step)
    ensures FlagInv(Next(s, step), word0)
  {
    StepFolds(s, step, word0);
    forall op
      ensures Accounted(Next(s, step), op)
    {
      StepAccounted(s, step, op);
    }
  }

  lemma {:induction false} FlagRunInv(s: FlagState, steps: seq<FlagStep>, word0: FlagWord)
    requires FlagInv(s, word0) && Legal(s, steps)
    ensures FlagInv(Run(s, steps), word0)
    decreases |steps|
  {
    if steps != [] {
      FlagStepInv(s, steps[0], word0);
      FlagRunInv(Next(s, steps[0]), steps[1..], word0);
    }
  }

  /** The retry loops are atomic: whatever the interleaving of their reads and compare-and-sets,
      the word is the one whole operations leave when performed one after the other, and every
      operation begun has been performed exactly once or is still in progress. */
  lemma FlagUpdatesAreAtomic(s: FlagState, steps: seq<FlagStep>)
    requires Legal(s, steps) && s.entered == s.applied == []
    requires forall t :: 0 <= t < |s.threads| ==> s.threads[t].Outside?
    ensures var s' := Run(s, steps);
      s'.word == Fold(s.word, s'.applied) && forall op :: Accounted(s', op)
  {
    forall op ensures Accounted(s, op) { NothingInProgress(s.threads, op); }
    FlagRunInv(s, steps, s.word);
  }

  /** No update is lost: after any interleaving, a flag named by exactly one of the operations
      performed has the value that operation gave it. */
  lemma {:induction false} SoleWriterWins(word: FlagWord, ops: seq<FlagOp>, k: nat, flag: Flag)
    requires k < |ops| && flag in ops[k].mask
    requires forall j :: 0 <= j < |ops| && j != k ==> flag !in ops[j].mask
    ensures flag in Fold(word, ops) <==> ops[k].SetBits?
    decreases |ops|
  {
    if k < |ops| - 1 {
      SoleWriterWins(word, ops[..|ops| - 1], k, flag);
    }
  }
}
