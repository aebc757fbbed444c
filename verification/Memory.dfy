/** The allocator, as the answers that it gives to the requests of a run, one after the other. */
module Memory {
  type Answers = nat -> bool

  /** Whether the request number n is granted. */
  predicate Granted(memory: Answers, n: nat) { memory(n) }

  /** One of some requests is refused. */
  ghost predicate Refused(memory: Answers, from: nat, to: nat) {
    exists n :: from <= n < to && !Granted(memory, n)
  }

  lemma {:induction false} RefusedTwo(memory: Answers, from: nat)
    ensures Refused(memory, from, from + 2) <==> !Granted(memory, from) || !Granted(memory, from + 1)
  {
  }

  lemma {:induction false} RefusedSince(memory: Answers, from: nat, mid: nat)
    requires from <= mid
    ensures forall to :: Refused(memory, mid, to) ==> Refused(memory, from, to)
  {
  }

  /** The last of some requests is refused. */
  ghost predicate LastRefused(memory: Answers, from: nat, to: nat) {
    from < to && !Granted(memory, to - 1)
  }
}
