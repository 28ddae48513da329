/** An input stream that may fail at any operation. */
module Sources {
  import opened Bytes

  class Source {
    /** Whether the k-th operation fails, and how many bytes it got before that. */
    const faulty: nat -> bool
    const reach: nat -> nat
    var ops: nat
    /** The bytes not yet read. */
    var pending: seq<byte>
    /** The stream's error indicator. */
    var failed: bool
    /** An error has been seen since the record began: the indicator set, or a byte that could not be pushed back. */
    var faulted: bool

    constructor (faulty: nat -> bool, reach: nat -> nat, pending: seq<byte>)
      ensures this.faulty == faulty && this.reach == reach && ops == 0 && this.pending == pending
      ensures !failed && !faulted
    {
      this.faulty, this.reach, ops, this.pending, failed, faulted := faulty, reach, 0, pending, false, false;
    }

    /** Begins a new record of what goes wrong; the error indicator itself stays as it is. */
    method BeginRecord()
      modifies this`faulted
      ensures !faulted
    {
      faulted := false;
    }

    /** Looks at the error indicator. */
    method Ferror() returns (raised: bool)
      modifies this`faulted
      ensures raised == failed && faulted == (old(faulted) || failed)
    {
      raised, faulted := failed, faulted || failed;
    }

    /** Reads up to `max` bytes; fewer only at the end of the input or on an error. */
    method Fread(buffer: array<byte>, max: nat) returns (n: nat)
      requires max <= buffer.Length
      modifies this, buffer
      ensures n <= max && n <= |old(pending)|
      ensures buffer[..n] == old(pending)[..n] && pending == old(pending)[n..]
      ensures failed == (old(failed) || faulty(old(ops))) && faulted == old(faulted)
      ensures !faulty(old(ops)) ==> n == if |old(pending)| < max then |old(pending)| else max
    {
      n := if |pending| < max then |pending| else max;
      if faulty(ops) {
        n := if reach(ops) < n then reach(ops) else n;
        failed := true;
      }
      forall k | 0 <= k < n {
        buffer[k] := pending[k];
      }
      pending, ops := pending[n..], ops + 1;
    }

    method Fgetc() returns (c: Option<byte>)
      modifies this
      ensures failed == (old(failed) || faulty(old(ops))) && faulted == old(faulted)
      ensures faulty(old(ops)) || old(pending) == [] ==> c == None && pending == old(pending)
      ensures !faulty(old(ops)) && old(pending) != [] ==> c == Some(old(pending)[0]) && pending == old(pending)[1..]
    {
      if faulty(ops) {
        c, failed := None, true;
      } else if pending == [] {
        c := None;
      } else {
        c, pending := Some(pending[0]), pending[1..];
      }
      ops := ops + 1;
    }

    method Ungetc(c: byte) returns (ok: bool)
      modifies this
      ensures failed == old(failed) && faulted == (old(faulted) || !ok)
      ensures pending == if ok then [c] + old(pending) else old(pending)
    {
      ok := !faulty(ops);
      if ok {
        pending := [c] + pending;
      } else {
        faulted := true;
      }
      ops := ops + 1;
    }
  }
}
