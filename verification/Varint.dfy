/** Base-128 varints as binary.Uvarint reads them and binary.PutUvarint writes them (Protocol Buffers Encoding
    guide, "Base 128 Varints"). */
module Varint {
  import opened Bytes

  /** MaxVarintLen64 */
  const MAX_VARINT_LEN := 10

  /** What Uvarint returns: a value and its length; length 0 when the bytes run out, and the negated number
      of bytes read when the value does not fit 64 bits. */
  datatype Read = Read(value: nat, n: int)

  function Uvarint(s: Bytes): Read {
    UvarintFrom(s, 0)
  }

  /** Reads on from byte k; the value counts from there, the length from the start. */
  function UvarintFrom(s: Bytes, k: nat): (r: Read)
    requires k <= |s|
    ensures r.n <= |s| && r.n <= MAX_VARINT_LEN && (r.n > 0 ==> r.n > k)
    decreases |s| - k
  {
    if k == |s| then Read(0, 0)
    else if k >= MAX_VARINT_LEN then Read(0, 0 - k - 1)
    else if s[k] < 0x80 then
      if k == MAX_VARINT_LEN - 1 && s[k] > 1 then Read(0, 0 - k - 1) else Read(s[k], k + 1)
    else
      var r := UvarintFrom(s, k + 1);
      if r.n <= 0 then Read(0, r.n) else Read(s[k] - 0x80 + r.value * 128, r.n)
  }

  function PutUvarint(v: nat): (b: Bytes)
    ensures b != []
  {
    if v < 0x80 then [v] else [0x80 + v % 128] + PutUvarint(v / 128)
  }

  /** What is left of 64 bits at byte k. */
  function Limit(k: nat): (l: nat)
    requires k < MAX_VARINT_LEN
    ensures l > 1
    decreases MAX_VARINT_LEN - k
  {
    if k == MAX_VARINT_LEN - 1 then 2 else 128 * Limit(k + 1)
  }

  lemma LimitIs64Bits()
    ensures Limit(0) == 0x1_0000_0000_0000_0000
  {
    assert Limit(5) == 0x2000_0000;
  }

  lemma {:induction false} UvarintBelow(s: Bytes, k: nat)
    requires k <= |s| && UvarintFrom(s, k).n > 0
    ensures k < MAX_VARINT_LEN && UvarintFrom(s, k).value < Limit(k)
    ensures |PutUvarint(UvarintFrom(s, k).value)| <= UvarintFrom(s, k).n - k
    decreases |s| - k
  {
    if s[k] >= 0x80 {
      UvarintBelow(s, k + 1);
      var high := UvarintFrom(s, k + 1).value;
      assert (s[k] - 0x80 + high * 128) / 128 == high;
    }
  }

  /** A varint that Uvarint accepts has 64 bits, and PutUvarint never needs more bytes for it. */
  lemma AcceptedFits(s: Bytes)
    requires Uvarint(s).n > 0
    ensures Uvarint(s).value < 0x1_0000_0000_0000_0000
    ensures |PutUvarint(Uvarint(s).value)| <= Uvarint(s).n
  {
    UvarintBelow(s, 0);
    LimitIs64Bits();
  }

  lemma {:induction false} PutReadsFrom(pre: Bytes, v: nat, rest: Bytes)
    requires |pre| < MAX_VARINT_LEN && v < Limit(|pre|)
    ensures UvarintFrom(pre + PutUvarint(v) + rest, |pre|) == Read(v, |pre| + |PutUvarint(v)|)
    decreases v
  {
    var s := pre + PutUvarint(v) + rest;
    if v >= 0x80 {
      var longer := pre + [0x80 + v % 128];
      assert s == longer + PutUvarint(v / 128) + rest;
      PutReadsFrom(longer, v / 128, rest);
    }
  }

  /** Reading gives back what was written, whatever follows, for every 64-bit value. */
  lemma UvarintRoundTrip(v: uint64, rest: Bytes)
    ensures Uvarint(PutUvarint(v) + rest) == Read(v, |PutUvarint(v)|)
    ensures |PutUvarint(v)| <= MAX_VARINT_LEN
  {
    LimitIs64Bits();
    PutReadsFrom([], v, rest);
    assert [] + PutUvarint(v) + rest == PutUvarint(v) + rest;
  }

  /** Reading depends on no byte after the varint. */
  lemma {:induction false} UvarintLocal(s: Bytes, s': Bytes, k: nat)
    requires k <= |s| && UvarintFrom(s, k).n > 0
    requires s[..UvarintFrom(s, k).n] <= s'
    ensures UvarintFrom(s', k) == UvarintFrom(s, k)
    decreases |s| - k
  {
    var n := UvarintFrom(s, k).n;
    assert s'[k] == s[..n][k] == s[k];
    if s[k] >= 0x80 {
      UvarintLocal(s, s', k + 1);
    }
  }

  lemma {:induction false} PutMonotone(v: nat, w: nat)
    requires v <= w
    ensures |PutUvarint(v)| <= |PutUvarint(w)|
    decreases w
  {
    if v >= 0x80 {
      PutMonotone(v / 128, w / 128);
    }
  }

  // ----- What the bytes mean

  function Pow128(n: nat): nat {
    if n == 0 then 1 else 128 * Pow128(n - 1)
  }

  /** The low seven bits of every byte, the first byte counting least. */
  function Base128(b: Bytes): nat {
    if b == [] then 0 else Base128(b[..|b| - 1]) + b[|b| - 1] % 128 * Pow128(|b| - 1)
  }

  lemma {:induction false} Base128First(b: Bytes)
    requires b != []
    ensures Base128(b) == b[0] % 128 + 128 * Base128(b[1..])
  {
    if |b| == 1 {
      assert b[..0] == [] && b[1..] == [];
    } else {
      var before, last := b[..|b| - 1], b[|b| - 1] % 128;
      Base128First(before);
      assert b[1..][..|b| - 2] == before[1..];
      Scaled128(last, Pow128(|b| - 2));
    }
  }

  lemma Scaled128(x: nat, p: nat)
    ensures x * (128 * p) == 128 * (x * p)
  {
  }

  /** The bytes up to the first one below 128. */
  predicate EndsAt(s: Bytes, k: nat, end: nat) {
    k <= end < |s| && s[end] < 0x80 && forall i | k <= i < end :: s[i] >= 0x80
  }

  lemma {:induction false} UvarintFromIs(s: Bytes, k: nat, end: nat)
    requires EndsAt(s, k, end) && k <= MAX_VARINT_LEN
    ensures UvarintFrom(s, k) ==
            if end > 9 then Read(0, -11)
            else if end == 9 && s[9] > 1 then Read(0, -10)
            else Read(Base128(s[k..end + 1]), end + 1)
    decreases end - k
  {
    if k <= 9 {
      Base128First(s[k..end + 1]);
      assert s[k..end + 1][1..] == s[k + 1..end + 1];
      if k < end {
        UvarintFromIs(s, k + 1, end);
      }
    }
  }

  lemma {:induction false} UvarintFromEndless(s: Bytes, k: nat)
    requires k <= |s| && k <= MAX_VARINT_LEN && forall i | k <= i < |s| :: s[i] >= 0x80
    ensures UvarintFrom(s, k) == if |s| > 10 then Read(0, -11) else Read(0, 0)
    decreases |s| - k
  {
    if k < |s| && k < MAX_VARINT_LEN {
      UvarintFromEndless(s, k + 1);
    }
  }

  /** What Uvarint returns, byte by byte: the bytes up to the first one below 128 are the value, seven bits each;
      none is below 128: length 0, or overflow after eleven; more than 64 bits: overflow at the byte that shows it. */
  lemma UvarintIs(s: Bytes, end: nat)
    ensures EndsAt(s, 0, end) && (end < 9 || (end == 9 && s[9] <= 1)) ==>
              Uvarint(s) == Read(Base128(s[..end + 1]), end + 1)
    ensures EndsAt(s, 0, end) && end == 9 && s[9] > 1 ==> Uvarint(s) == Read(0, -10)
    ensures EndsAt(s, 0, end) && end > 9 ==> Uvarint(s) == Read(0, -11)
    ensures (forall i | 0 <= i < |s| :: s[i] >= 0x80) ==> Uvarint(s) == Read(0, if |s| > 10 then -11 else 0)
  {
    if EndsAt(s, 0, end) {
      UvarintFromIs(s, 0, end);
      assert s[0..end + 1] == s[..end + 1];
    }
    if forall i | 0 <= i < |s| :: s[i] >= 0x80 {
      UvarintFromEndless(s, 0);
    }
  }
}
