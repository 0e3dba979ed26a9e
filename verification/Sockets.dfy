/**
 * The byte pipe under the protocols: pico_socket_read and pico_socket_write may take
 * fewer bytes than asked for, down to none, and nobody can tell in advance how many.
 */
module Sockets {
  import opened Bytes

  /** The reading end of a connection. */
  class InSocket {
    var pending: seq<byte>          // sent by the peer and not read yet
    var arrived: nat                // how many of those are here already
    ghost var consumed: seq<byte>   // everything read so far
    ghost var wanted: nat           // how many bytes the last read asked for

    ghost predicate Valid()
      reads this
    {
      arrived <= |pending|
    }

    constructor ()
      ensures Valid() && pending == [] && consumed == []
    {
      pending, arrived, consumed, wanted := [], 0, [], 0;
    }

    /** Everything that was sent has arrived. */
    ghost predicate AllHere()
      reads this
    {
      arrived == |pending|
    }

    /** How much has arrived in all. */
    ghost function Here(): nat
      reads this
    {
      |consumed| + arrived
    }

    /** The peer sends more. */
    method Deliver(bytes: seq<byte>)
      requires Valid()
      modifies this
      ensures Valid() && consumed == old(consumed) && pending == old(pending) + bytes && arrived == old(arrived)
    {
      pending := pending + bytes;
    }

    /** Any part of what was sent may arrive before the read looks. */
    method Arrive()
      requires Valid()
      modifies this`arrived
      ensures Valid() && old(arrived) <= arrived
    {
      var n :| arrived <= n <= |pending|;
      arrived := n;
    }

    /** At least one byte of what was sent arrives, unless all of it has been read. */
    method ArriveSome()
      requires Valid()
      modifies this`arrived
      ensures Valid() && old(arrived) <= arrived && (pending != [] ==> arrived > 0)
    {
      if arrived == 0 && pending != [] {
        arrived := 1;
      }
      Arrive();
    }

    /** pico_socket_read: some bytes, and at least one if any are here. */
    method Read(data: array<byte>, offset: nat, n: nat) returns (k: nat)
      requires Valid() && offset + n <= data.Length
      modifies this, data
      ensures Valid() && k <= n
      ensures n > 0 && old(arrived) > 0 ==> k > 0
      ensures k <= |old(pending)| && pending == old(pending[k..])
      ensures consumed == old(consumed) + old(pending)[..k]
      ensures data[offset..offset + k] == old(pending)[..k]
      ensures data[..offset] == old(data[..offset])
      ensures data[offset + k..] == old(data[offset + k..])
      ensures Here() >= old(Here()) && (old(AllHere()) ==> AllHere()) && wanted == n
    {
      wanted := n;
      Arrive();
      var most := if n <= arrived then n else arrived;
      k :| 0 <= k <= most && (most > 0 ==> k > 0);
      forall i | 0 <= i < k {
        data[offset + i] := pending[i];
      }
      consumed := consumed + pending[..k];
      pending, arrived := pending[k..], arrived - k;
    }

    /** consume_char: one byte, or c as it was when there is none. */
    method ConsumeChar(c: byte) returns (got: bool, c': byte)
      requires Valid()
      modifies this
      ensures Valid()
      ensures old(arrived) > 0 ==> got
      ensures got ==> old(pending) == [c'] + pending && consumed == old(consumed) + [c']
      ensures !got ==> c' == c && pending == old(pending) && consumed == old(consumed) && arrived == 0
      ensures Here() >= old(Here())
      ensures old(AllHere()) ==> AllHere() && (got <==> old(pending) != [])
    {
      Arrive();
      got := arrived > 0;
      c' := c;
      if got {
        c' := pending[0];
        consumed := consumed + [c'];
        pending, arrived := pending[1..], arrived - 1;
      }
    }
  }

  function Least(a: nat, b: nat): nat {
    if a <= b then a else b
  }

  /** From the from-th on, every write takes so many bytes, unless it is of fewer. */
  ghost predicate TakesAtLeast(from: nat, plan: nat -> nat, least: nat) {
    forall i :: from <= i ==> plan(i) >= least
  }

  /** From the from-th on, a write that takes anything takes so many bytes, unless it is of fewer. */
  ghost predicate AllOrNothing(from: nat, plan: nat -> nat, least: nat) {
    forall i :: from <= i ==> plan(i) == 0 || plan(i) >= least
  }

  /** Not every write from the i-th on takes nothing. */
  ghost predicate Resumes(plan: nat -> nat, i: nat) {
    exists j: nat :: i <= j && plan(j) > 0
  }

  /** Writes never stop taking bytes for good. */
  ghost predicate Lively(plan: nat -> nat) {
    forall i: nat :: Resumes(plan, i)
  }

  /** The writing end of a connection. How much each write takes is settled by a plan that
      can be any. */
  class OutSocket {
    const plan: nat -> nat   // the most that the i-th write takes
    var writes: nat          // writes so far
    var wire: seq<byte>      // everything the connection has accepted

    constructor (plan: nat -> nat)
      ensures this.plan == plan && writes == 0 && wire == []
    {
      this.plan, writes, wire := plan, 0, [];
    }

    /** pico_socket_write: accepts the first k bytes. */
    method Write(bytes: seq<byte>) returns (k: nat)
      modifies this
      ensures k <= |bytes| && wire == old(wire) + bytes[..k]
      ensures k == Least(|bytes|, plan(old(writes))) && writes == old(writes) + 1
    {
      k := Least(|bytes|, plan(writes));
      wire, writes := wire + bytes[..k], writes + 1;
    }
  }
}
