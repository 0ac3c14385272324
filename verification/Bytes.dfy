/** Byte strings and the result types shared by every other module.
    A Go string is a sequence of bytes, so strings are byte sequences too. */
module Bytes {

  type byte = x: int | 0 <= x < 256

  type Bytes = seq<byte>

  type uint16 = x: int | 0 <= x < 0x1_0000

  type uint32 = x: int | 0 <= x < 0x1_0000_0000

  type uint64 = x: int | 0 <= x < 0x1_0000_0000_0000_0000

  datatype Option<+T> = None | Some(value: T)

  datatype Result<+T, +E> = Ok(value: T) | Err(error: E) {
    predicate IsFailure() { Err? }

    function PropagateFailure<U>(): Result<U, E>
      requires Err?
    {
      Err(error)
    }

    function Extract(): T
      requires Ok?
    {
      value
    }
  }

  /** The bytes of an ASCII literal. */
  function Ascii(s: string): (b: Bytes)
    requires forall i | 0 <= i < |s| :: s[i] < 128 as char
  {
    seq(|s|, i requires 0 <= i < |s| => s[i] as int)
  }

  function Lookup<K, V>(m: map<K, V>, k: K): Option<V> {
    if k in m then Some(m[k]) else None
  }

  lemma SameLookups<K(!new), V>(a: map<K, V>, b: map<K, V>)
    ensures a == b <==> forall k :: Lookup(a, k) == Lookup(b, k)
  {
    if forall k :: Lookup(a, k) == Lookup(b, k) {
      forall k ensures k in a <==> k in b {
        assert Lookup(a, k) == Lookup(b, k);
      }
      forall k | k in a ensures a[k] == b[k] {
        assert Lookup(a, k) == Lookup(b, k);
      }
    }
  }

  lemma Associates<T>(a: seq<T>, b: seq<T>, c: seq<T>)
    ensures a + b + c == a + (b + c)
  {
  }

  /** The last n bytes. */
  function Suffix(b: Bytes, n: nat): Bytes
    requires n <= |b|
  {
    b[|b| - n..]
  }

  /** binary.BigEndian: the n low-order bytes of v, most significant first. */
  function BigEndian(v: nat, n: nat): (b: Bytes)
    ensures |b| == n
  {
    if n == 0 then [] else BigEndian(v / 256, n - 1) + [v % 256]
  }

  function FromBigEndian(b: Bytes): nat {
    if b == [] then 0 else FromBigEndian(b[..|b| - 1]) * 256 + b[|b| - 1]
  }

  function Pow256(n: nat): nat {
    if n == 0 then 1 else 256 * Pow256(n - 1)
  }

  lemma Powers()
    ensures Pow256(1) == 0x100 && Pow256(2) == 0x1_0000 && Pow256(3) == 0x100_0000 && Pow256(4) == 0x1_0000_0000
  {
    assert Pow256(4) == 256 * Pow256(3) && Pow256(3) == 256 * Pow256(2) && Pow256(2) == 256 * Pow256(1);
  }

  /** n big-endian bytes keep exactly the values below 256^n. */
  lemma {:induction false} BigEndianRoundTrip(v: nat, n: nat)
    ensures FromBigEndian(BigEndian(v, n)) == v <==> v < Pow256(n)
    ensures FromBigEndian(BigEndian(v, n)) <= v
  {
    if n != 0 {
      BigEndianRoundTrip(v / 256, n - 1);
      var b := BigEndian(v, n);
      assert b[..|b| - 1] == BigEndian(v / 256, n - 1);
    }
  }

  /** value >> 8*k */
  function ShiftRight(value: nat, k: nat): nat {
    if k == 0 then value else ShiftRight(value / 256, k - 1)
  }

  lemma {:induction false} ByteOfBigEndian(value: nat, n: nat, i: nat)
    requires i < n
    ensures BigEndian(value, n)[i] == ShiftRight(value, n - i - 1) % 256
  {
    if i < n - 1 {
      ByteOfBigEndian(value / 256, n - 1, i);
    }
  }

  lemma DivideTwice(value: nat, d: nat)
    requires d > 0
    ensures value / 256 / d == value / (256 * d)
  {
    var q, r := value / 256 / d, value / 256 % d;
    var rest := 256 * r + value % 256;
    assert value == 256 * (q * d + r) + value % 256;
    assert value == 256 * d * q + rest && rest < 256 * d;
    QuotientIs(value, 256 * d, q, rest);
  }

  lemma QuotientIs(value: nat, d: nat, q: nat, rest: nat)
    requires d > 0 && value == d * q + rest && rest < d
    ensures value / d == q
  {
    var other := value / d;
    assert value == d * other + value % d;
    if other < q {
      Scaled(d, other + 1, q);
    } else {
      Scaled(d, q, other);
      NoRoom(d, other - q, rest);
    }
  }

  lemma Scaled(d: nat, a: nat, b: nat)
    requires a <= b
    ensures d * b == d * a + d * (b - a) && d * a <= d * b
  {
  }

  lemma NoRoom(d: nat, k: nat, rest: nat)
    requires rest < d && d * k <= rest
    ensures k == 0
  {
  }

  lemma {:induction false} ShiftDivides(value: nat, k: nat)
    ensures Pow256(k) > 0 && ShiftRight(value, k) == value / Pow256(k)
  {
    if k != 0 {
      ShiftDivides(value / 256, k - 1);
      DivideTwice(value, Pow256(k - 1));
    }
  }

  /** Byte i of n is value / 256^(n - i - 1), cut to 8 bits. */
  lemma BigEndianAt(value: nat, n: nat, i: nat)
    requires i < n
    ensures Pow256(n - i - 1) > 0 && BigEndian(value, n)[i] == value / Pow256(n - i - 1) % 256
  {
    ByteOfBigEndian(value, n, i);
    ShiftDivides(value, n - i - 1);
  }

  /** The number as n bytes, said byte by byte. */
  function BytesOf(value: nat, n: nat): Bytes {
    seq(n, i requires 0 <= i < n => ByteAt(value, n - i - 1))
  }

  /** The byte that counts 256^k. */
  function ByteAt(value: nat, k: nat): byte {
    PowerPositive(k);
    value / Pow256(k) % 256
  }

  lemma {:induction false} PowerPositive(k: nat)
    ensures Pow256(k) > 0
  {
    if k != 0 {
      PowerPositive(k - 1);
    }
  }

  lemma BigEndianBytes(value: nat, n: nat)
    ensures BigEndian(value, n) == BytesOf(value, n)
  {
    forall i | 0 <= i < n ensures BigEndian(value, n)[i] == BytesOf(value, n)[i] {
      BigEndianAt(value, n, i);
    }
  }

  lemma TwoBytesAre(value: nat)
    ensures BigEndian(value, 2) == [value / 0x100 % 256, value % 256]
  {
    Powers();
    BigEndianAt(value, 2, 0);
    BigEndianAt(value, 2, 1);
  }

  lemma ThreeBytesAre(value: nat)
    ensures BigEndian(value, 3) == [value / 0x1_0000 % 256, value / 0x100 % 256, value % 256]
  {
    Powers();
    BigEndianAt(value, 3, 0);
    BigEndianAt(value, 3, 1);
    BigEndianAt(value, 3, 2);
  }

  lemma FourBytesAre(value: nat)
    ensures BigEndian(value, 4) ==
            [value / 0x100_0000 % 256, value / 0x1_0000 % 256, value / 0x100 % 256, value % 256]
  {
    Powers();
    BigEndianAt(value, 4, 0);
    BigEndianAt(value, 4, 1);
    BigEndianAt(value, 4, 2);
    BigEndianAt(value, 4, 3);
  }

  predicate IsDigit(c: byte) {
    48 <= c <= 57
  }

  function Digits(n: nat): (d: Bytes)
    ensures d != [] && forall i | 0 <= i < |d| :: IsDigit(d[i])
  {
    if n < 10 then [48 + n] else Digits(n / 10) + [48 + n % 10]
  }

  /** strconv.FormatInt in base 10 */
  function Decimal(n: int): Bytes {
    if n < 0 then [45] + Digits(-n) else Digits(n)
  }

  function ParseDigits(s: Bytes): Option<nat> {
    if s == [] || !IsDigit(s[|s| - 1]) then None
    else if |s| == 1 then Some(s[0] - 48)
    else
      var high := ParseDigits(s[..|s| - 1]);
      if high.None? then None else Some(high.value * 10 + s[|s| - 1] - 48)
  }

  /** One digit is '0' and up; each further digit counts ten times less than the one before it. */
  lemma DigitsAre(n: nat, d: nat)
    requires d < 10
    ensures Digits(d) == [48 + d]
    ensures n > 0 ==> Digits(10 * n + d) == Digits(n) + [48 + d]
  {
    assert (10 * n + d) / 10 == n && (10 * n + d) % 10 == d;
  }

  /** Decimal printing and parsing are inverse. */
  lemma {:induction false} DigitsParse(n: nat)
    ensures ParseDigits(Digits(n)) == Some(n)
  {
    if n >= 10 {
      DigitsParse(n / 10);
      assert Digits(n)[..|Digits(n)| - 1] == Digits(n / 10);
    }
  }
}
