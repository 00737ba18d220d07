/** How far stbi__zexpand can grow the output buffer. */
module Room {
  const UINT_MAX := 0xffff_ffff

  /** The capacity after doubling until `need` bytes fit. */
  function Grown(cap: nat, need: nat): (r: nat)
    requires cap > 0
    ensures r >= need && r >= cap
    decreases need - cap
  {
    if need <= cap then cap else Grown(2 * cap, need)
  }

  /** Whether a buffer that starts with `cap` bytes can come to hold `need`:
      a fixed buffer cannot grow, and an allocation must fit 32 bits and the heap. */
  predicate Fits(cap: nat, expandable: bool, heap: nat, need: nat)
    requires expandable ==> cap > 0
  {
    need <= cap || (expandable && Grown(cap, need) <= UINT_MAX && Grown(cap, need) <= heap)
  }

  lemma {:induction false} GrownMono(cap: nat, need: nat, more: nat)
    requires cap > 0 && need <= more
    ensures Grown(cap, need) <= Grown(cap, more)
    decreases more - cap
  {
    if more <= cap {
    } else {
      if need > cap { GrownMono(2 * cap, need, more); }
    }
  }

  lemma {:induction false} GrownTwice(cap: nat, need: nat, more: nat)
    requires cap > 0 && need <= more
    ensures Grown(Grown(cap, need), more) == Grown(cap, more)
    decreases need - cap
  {
    if need <= cap {
    } else {
      GrownTwice(2 * cap, need, more);
    }
  }

  /** Growing in steps reaches exactly the sizes that growing at once would. */
  lemma FitsAfterGrowth(cap: nat, heap: nat, need: nat, n: nat)
    requires cap > 0 && Fits(cap, true, heap, need)
    ensures Fits(Grown(cap, need), true, heap, n) <==> Fits(cap, true, heap, n)
  {
    if n <= need {
      GrownMono(cap, n, need);
    } else {
      GrownTwice(cap, need, n);
      GrownMono(cap, need, n);
    }
  }

  lemma FitsMono(cap: nat, expandable: bool, heap: nat, n: nat, more: nat)
    requires expandable ==> cap > 0
    requires n <= more && Fits(cap, expandable, heap, more)
    ensures Fits(cap, expandable, heap, n)
  {
    if expandable { GrownMono(cap, n, more); }
  }
}
