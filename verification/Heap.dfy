/** The allocator, with its bookkeeping: what has been obtained, and what has been released. */
module Heaps {
  import opened Bytes

  predicate AllZero(s: seq<byte>)
  {
    forall k | 0 <= k < |s| :: s[k] == 0
  }

  class Heap {
    /** Whether the k-th request is granted. */
    const grants: nat -> bool
    var calls: nat
    /** Some request has been denied since the record began. */
    var denied: bool
    ghost var obtained: set<array<byte>>
    ghost var released: set<array<byte>>

    constructor (grants: nat -> bool)
      ensures this.grants == grants && calls == 0 && !denied && obtained == released == {}
    {
      this.grants, calls, denied, obtained, released := grants, 0, false, {}, {};
    }

    /** The buffers that have been obtained and not yet released. */
    ghost function Live(): set<array<byte>>
      reads this
    {
      obtained - released
    }

    /** Begins a new record of what goes wrong. */
    method BeginRecord()
      modifies this`denied
      ensures !denied
    {
      denied := false;
    }

    method Alloc(size: nat) returns (p: array?<byte>)
      modifies this
      ensures calls == old(calls) + 1 && denied == (old(denied) || p == null)
      ensures p == null <==> !grants(old(calls))
      ensures p == null ==> obtained == old(obtained) && released == old(released) && Live() == old(Live())
      ensures p != null ==> fresh(p) && p.Length == size
                            && obtained == old(obtained) + {p} && released == old(released)
      ensures p != null ==> Live() == old(Live()) + {p}
    {
      if grants(calls) {
        p := new byte[size];
        obtained := obtained + {p};
      } else {
        p, denied := null, true;
      }
      calls := calls + 1;
    }

    /** A buffer on the stack is always there; it is to be given back like the others. */
    method Scratch(size: nat) returns (p: array<byte>)
      modifies this`obtained
      ensures fresh(p) && p.Length == size
      ensures obtained == old(obtained) + {p} && Live() == old(Live()) + {p}
    {
      p := new byte[size];
      obtained := obtained + {p};
    }

    /** A buffer is released at most once, only if it was obtained here, and only when all of it has been wiped. */
    method Free(p: array<byte>)
      requires p in Live() && AllZero(p[..])
      modifies this`released
      ensures released == old(released) + {p} && Live() == old(Live()) - {p}
    {
      released := released + {p};
    }
  }
}
