/** The size arithmetic of sealed messages, on machine words. */
module SealSize {
  import opened Bytes
  import Base64

  const SALT_MAX_MESSAGE_LEN: nat := 1024 * 1024
  const SALT_MAX_KEY_INPUT_LEN: nat := 16 * 1024
  const SALT_MAX_KEY_ID_LEN: nat := 256
  const SALT_GITHUB_SECRET_MAX_VALUE_LEN: nat := 48 * 1024

  function Pow2(k: nat): nat
  {
    if k == 0 then 1 else 2 * Pow2(k - 1)
  }

  /** A machine whose `size_t` has `bits` bits, and the overhead of a sealed box. */
  datatype Machine = Machine(bits: nat, sealBytes: nat)
  {
    function SizeMax(): int
    {
      Pow2(bits) - 1
    }

    /** What the static assertion in the source demands. */
    predicate Valid()
    {
      bits >= 2 && SALT_MAX_MESSAGE_LEN <= SizeMax() - sealBytes
    }

    /** Arithmetic on `size_t` wraps around. */
    function Wrap(x: int): nat
      requires Pow2(bits) > 0
    {
      x % Pow2(bits)
    }

    /** libsodium's encoded length, NUL included, computed on machine words. */
    function EncodedLen(n: nat): nat
      requires Pow2(bits) > 0
    {
      Wrap(Wrap(Wrap(n + 2) / 3 * 4) + 1)
    }

    function RequiredLen(messageLen: nat): nat
      requires Pow2(bits) > 0
    {
      if messageLen > Wrap(SizeMax() - sealBytes) then SizeMax()
      else
        var sealedLen := Wrap(messageLen + sealBytes);
        if sealedLen > Wrap(SizeMax() - 1) / 4 * 3 then SizeMax() else EncodedLen(sealedLen)
    }

    /** The size as a number, with nothing to wrap around. */
    function TrueLen(messageLen: nat): nat
    {
      4 * ((messageLen + sealBytes + 2) / 3) + 1
    }
  }

  lemma {:induction false} Pow2Positive(k: nat)
    ensures Pow2(k) > 0
  {
    if k > 0 {
      Pow2Positive(k - 1);
    }
  }

  lemma Pow2Quarter(k: nat)
    requires k >= 2
    ensures Pow2(k) == 4 * Pow2(k - 2)
  {
    assert Pow2(k - 1) == 2 * Pow2(k - 2);
  }

  /**
    * The guards are tight. The function answers with the sentinel exactly when the true size is not representable,
    * and with the true size otherwise, no step of the computation wrapping around; and no true size is the sentinel.
    */
  lemma RequiredLenExact(m: Machine, n: nat)
    requires m.Valid() && n <= m.SizeMax()
    ensures Pow2(m.bits) > 0
    ensures m.RequiredLen(n) == if m.TrueLen(n) > m.SizeMax() then m.SizeMax() else m.TrueLen(n)
    ensures m.TrueLen(n) != m.SizeMax()
    ensures m.TrueLen(n) <= m.SizeMax() ==>
              && n + m.sealBytes + 2 <= m.SizeMax()
              && (n + m.sealBytes + 2) / 3 * 4 + 1 <= m.SizeMax()
  {
    hide Pow2, Machine.Wrap;
    Pow2Positive(m.bits);
    Pow2Quarter(m.bits);
    var q := Pow2(m.bits - 2);
    NoWrap(m, m.SizeMax() - m.sealBytes);
    NoWrap(m, m.SizeMax() - 1);
    assert (4 * q - 2) / 4 == q - 1;
    if n <= m.SizeMax() - m.sealBytes {
      var s := n + m.sealBytes;
      NoWrap(m, s);
      if s <= (q - 1) * 3 {
        NoWrap(m, s + 2);
        NoWrap(m, (s + 2) / 3 * 4);
        NoWrap(m, (s + 2) / 3 * 4 + 1);
      }
    }
  }

  lemma NoWrap(m: Machine, x: int)
    requires 0 <= x < Pow2(m.bits)
    ensures m.Wrap(x) == x
  {
    SmallRemainder(x, Pow2(m.bits));
  }

  lemma SmallRemainder(x: int, p: int)
    requires 0 <= x < p
    ensures x % p == x
  {
  }

  lemma RequiredLenMonotone(m: Machine, n: nat, n': nat)
    requires m.Valid() && n <= n' <= m.SizeMax()
    ensures Pow2(m.bits) > 0 && m.RequiredLen(n) <= m.RequiredLen(n')
  {
    hide Machine.RequiredLen, Pow2;
    RequiredLenExact(m, n);
    RequiredLenExact(m, n');
  }

  /** The size is that of the base64 text of the sealed message, with its NUL. */
  lemma TrueLenIsTextLen(m: Machine, sealed: seq<byte>, n: nat)
    requires |sealed| == n + m.sealBytes
    ensures m.TrueLen(n) == |Base64.Encode(sealed, true)| + 1
  {
    Base64.EncodedLength(sealed);
  }
}
