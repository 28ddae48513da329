/** An output stream that may fail at any operation and at any byte of it. */
module Sinks {
  import opened Bytes

  class Sink {
    /** How many bytes the k-th operation on the stream gets through; a flush that gets none through fails. */
    const quota: nat -> nat
    var ops: nat
    /** Every byte the stream has taken, in order. */
    var data: seq<byte>
    /** The stream's error indicator: once set it stays set. */
    var failed: bool
    /** How many operations have failed. */
    var faults: nat

    constructor (quota: nat -> nat, failed: bool)
      ensures this.quota == quota && ops == faults == 0 && data == [] && this.failed == failed
    {
      this.quota, ops, faults, data, this.failed := quota, 0, 0, [], failed;
    }

    /** Whether a text does not get out if it is written and flushed from the k-th operation on. */
    predicate Loses(k: nat, text: seq<byte>)
    {
      quota(k) < |text| || quota(k + 1) == 0
    }

    lemma OnePiece(k: nat, text: seq<byte>)
      ensures Delivers(k, [text]) <==> !Loses(k, text)
    {
      assert Takes(k, [text]) <==> quota(k + 0) >= |[text][0]|;
    }

    lemma TakesOne(k: nat, piece: seq<byte>)
      ensures Takes(k, [piece]) <==> quota(k) >= |piece|
    {
      assert Takes(k, [piece]) ==> quota(k + 0) >= |[piece][0]|;
    }

    lemma TakesFirst(k: nat, piece: seq<byte>, more: seq<seq<byte>>)
      ensures Takes(k, [piece] + more) <==> quota(k) >= |piece| && Takes(k + 1, more)
    {
      hide Takes;
      TakesOne(k, piece);
      TakesMore(k, [piece], more);
    }

    lemma TakesLast(k: nat, pieces: seq<seq<byte>>, piece: seq<byte>)
      ensures Takes(k, pieces + [piece]) <==> Takes(k, pieces) && quota(k + |pieces|) >= |piece|
    {
      hide Takes;
      TakesOne(k + |pieces|, piece);
      TakesMore(k, pieces, [piece]);
    }

    lemma TakesMore(k: nat, pieces: seq<seq<byte>>, more: seq<seq<byte>>)
      ensures Takes(k, pieces + more) <==> Takes(k, pieces) && Takes(k + |pieces|, more)
    {
      var all := pieces + more;
      if Takes(k, all) {
        assert forall i | 0 <= i < |pieces| :: all[i] == pieces[i];
        forall i | 0 <= i < |more|
          ensures quota(k + |pieces| + i) >= |more[i]|
        {
          assert all[|pieces| + i] == more[i] && quota(k + (|pieces| + i)) >= |all[|pieces| + i]|;
        }
      }
      if Takes(k, pieces) && Takes(k + |pieces|, more) {
        forall i | 0 <= i < |all|
          ensures quota(k + i) >= |all[i]|
        {
          assert i >= |pieces| ==> quota(k + |pieces| + (i - |pieces|)) >= |more[i - |pieces|]|;
        }
      }
    }

    /** Whether writing these pieces, from the k-th operation on, gets them all through. */
    predicate Takes(k: nat, pieces: seq<seq<byte>>)
    {
      forall i | 0 <= i < |pieces| :: quota(k + i) >= |pieces[i]|
    }

    /** Whether it does, and the flush after it works. */
    predicate Delivers(k: nat, pieces: seq<seq<byte>>)
    {
      Takes(k, pieces) && quota(k + |pieces|) > 0
    }

    /** Writes all of `bytes`, or a proper prefix and then fails. */
    method Write(bytes: seq<byte>) returns (ok: bool)
      modifies this
      ensures ok == (quota(old(ops)) >= |bytes|)
      ensures data == old(data) + bytes[..if ok then |bytes| else quota(old(ops))]
      ensures failed == (old(failed) || !ok) && ops == old(ops) + 1
      ensures faults == old(faults) + if ok then 0 else 1
    {
      var room := quota(ops);
      ok := room >= |bytes|;
      data := data + if ok then bytes else bytes[..room];
      assert ok ==> bytes == bytes[..|bytes|];
      failed, ops, faults := failed || !ok, ops + 1, faults + if ok then 0 else 1;
    }

    method Flush() returns (ok: bool)
      modifies this
      ensures ok == (quota(old(ops)) > 0) && data == old(data)
      ensures failed == (old(failed) || !ok) && ops == old(ops) + 1
      ensures faults == old(faults) + if ok then 0 else 1
    {
      ok := quota(ops) > 0;
      failed, ops, faults := failed || !ok, ops + 1, faults + if ok then 0 else 1;
    }
  }

  /** A stream went from `before` to `after` by taking all of `text` (`complete`), or only a prefix of it. */
  predicate Gained(before: seq<byte>, after: seq<byte>, text: seq<byte>, complete: bool)
  {
    before <= after <= before + text && (complete ==> after == before + text)
  }
}
