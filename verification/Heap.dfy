/**
 * MALLOC and FREE. Which requests are granted is settled by a plan that can be any; a free
 * of something that is not allocated is counted, not excluded.
 */
module Heap {

  class Memory {
    const plan: nat -> bool       // whether the i-th request is granted
    var asked: nat                // requests so far
    ghost var refusals: nat       // those that were not granted
    ghost var live: set<object>   // blocks handed out and not freed
    ghost var faults: nat         // frees of anything else

    constructor (plan: nat -> bool)
      ensures this.plan == plan && asked == 0 && refusals == 0 && live == {} && faults == 0
    {
      this.plan := plan;
      asked, refusals, live, faults := 0, 0, {}, 0;
    }

    /** The one place where a request for memory can fail. */
    method Grant() returns (ok: bool)
      modifies this`asked, this`refusals
      ensures ok == plan(old(asked)) && asked == old(asked) + 1
      ensures refusals == old(refusals) + if ok then 0 else 1
    {
      ok := plan(asked);
      if !ok {
        refusals := refusals + 1;
      }
      asked := asked + 1;
    }

    /** Every request from the given one on has been granted. */
    ghost predicate AllGranted(from: nat)
      reads this`asked
    {
      from <= asked && forall i :: from <= i < asked ==> plan(i)
    }

    /** The same, but for the last request, which was refused. */
    ghost predicate LastRefused(from: nat)
      reads this`asked
    {
      from < asked && !plan(asked - 1) && forall i :: from <= i < asked - 1 ==> plan(i)
    }

    /** Records a block that was just allocated. */
    ghost method Track(o: object)
      modifies this`live
      ensures live == old(live) + {o}
    {
      live := live + {o};
    }

    ghost method Free(o: object)
      modifies this`live, this`faults
      ensures live == old(live) - {o}
      ensures faults == old(faults) + if o in old(live) then 0 else 1
    {
      if o in live {
        live := live - {o};
      } else {
        faults := faults + 1;
      }
    }
  }
}
