/** The summation hash of appstate/lthash/lthash.go: 128 bytes read as 64
    little-endian 16-bit words, added and subtracted word by word modulo 2^16. */
module LtHash {
  import opened Bytes

  const WORDS := 64
  const SIZE := 128

  type Sum = s: seq<uint16> | |s| == WORDS witness seq(WORDS, _ => 0)

  type Block = b: Bytes | |b| == SIZE witness seq(SIZE, _ => 0)

  function Zero(): Sum {
    seq(WORDS, _ => 0)
  }

  /** A uint16 keeps the low 16 bits. */
  function Wrap(x: int): uint16 {
    x % 0x1_0000
  }

  function Plus(a: Sum, b: Sum): Sum {
    seq(WORDS, i requires 0 <= i < WORDS => Wrap(a[i] as int + b[i] as int))
  }

  function Minus(a: Sum, b: Sum): Sum {
    seq(WORDS, i requires 0 <= i < WORDS => Wrap(a[i] as int - b[i] as int))
  }

  lemma PlusCommutes(a: Sum, b: Sum)
    ensures Plus(a, b) == Plus(b, a)
  {
  }

  lemma PlusAssociates(a: Sum, b: Sum, c: Sum)
    ensures Plus(Plus(a, b), c) == Plus(a, Plus(b, c))
  {
    forall i | 0 <= i < WORDS ensures Plus(Plus(a, b), c)[i] == Plus(a, Plus(b, c))[i] {
      WordAssociates(a[i], b[i], c[i]);
    }
  }

  lemma WordAssociates(a: int, b: int, c: int)
    ensures Wrap(Wrap(a + b) as int + c) == Wrap(a + Wrap(b + c) as int)
  {
  }

  lemma PlusZero(a: Sum)
    ensures Plus(a, Zero()) == a && Plus(Zero(), a) == a && Minus(a, Zero()) == a
  {
  }

  /** Subtraction undoes addition, and addition undoes subtraction. */
  lemma MinusInverts(a: Sum, b: Sum)
    ensures Minus(Plus(a, b), b) == a
    ensures Plus(Minus(a, b), b) == a
  {
  }

  /** Equal sums with an equal term have equal other terms. */
  lemma Cancels(a: Sum, b: Sum, c: Sum)
    requires Plus(a, c) == Plus(b, c)
    ensures a == b
  {
    MinusInverts(a, c);
    MinusInverts(b, c);
  }

  /** Terms of a subtraction followed by additions may be taken in any order. */
  lemma MinusPlusSwap(a: Sum, b: Sum, c: Sum)
    ensures Plus(Minus(a, b), c) == Minus(Plus(a, c), b)
  {
    var l := Plus(Minus(a, b), c);
    PlusAssociates(Minus(a, b), c, b);
    PlusCommutes(c, b);
    PlusAssociates(Minus(a, b), b, c);
    MinusInverts(a, b);
    MinusInverts(l, b);
  }

  /** Subtracting two terms one after the other is subtracting their sum. */
  lemma MinusPlus(a: Sum, b: Sum, c: Sum)
    ensures Minus(Minus(a, b), c) == Minus(a, Plus(b, c))
  {
    var d := Minus(Minus(a, b), c);
    MinusInverts(Minus(a, b), c);
    MinusInverts(a, b);
    PlusAssociates(d, c, b);
    PlusCommutes(b, c);
    MinusInverts(d, Plus(b, c));
  }

  /** binary.LittleEndian.Uint16 */
  function Word(low: byte, high: byte): uint16 {
    low as int + 256 * high as int
  }

  function Low(w: uint16): byte {
    w % 256
  }

  function High(w: uint16): byte {
    w / 256
  }

  lemma WordOfBytes(w: uint16)
    ensures Word(Low(w), High(w)) == w
  {
  }

  function Words(b: Block): Sum {
    seq(WORDS, i requires 0 <= i < WORDS => Word(b[2 * i], b[2 * i + 1]))
  }

  function BlockOf(s: Sum): Block {
    seq(SIZE, i requires 0 <= i < SIZE => if i % 2 == 0 then Low(s[i / 2]) else High(s[i / 2]))
  }

  /** Storing a sum as 128 bytes loses nothing. */
  lemma WordsOfBlock(s: Sum)
    ensures Words(BlockOf(s)) == s
  {
    forall i | 0 <= i < WORDS ensures Words(BlockOf(s))[i] == s[i] {
      BlockBytes(s, i);
      WordOfBytes(s[i]);
    }
  }

  /** The same in bytes: bytes 2j and 2j + 1 are one number, the low byte first, and the numbers are added or
      subtracted modulo 2^16. */
  lemma CombinedBytes(a: Block, b: Block, subtract: bool, j: nat)
    requires j < 64
    ensures var r := BlockOf(Combined(Words(a), Words(b), subtract));
            var x, y: int := a[2 * j] as int + 256 * a[2 * j + 1] as int, b[2 * j] as int + 256 * b[2 * j + 1] as int;
            r[2 * j] as int + 256 * r[2 * j + 1] as int == (if subtract then x - y else x + y) % 0x1_0000
  {
    var sums := Combined(Words(a), Words(b), subtract);
    var i := 2 * j;
    BlockBytes(sums, j);
    WordAt(a, i, j);
    WordAt(b, i, j);
    var x, y := Word(a[i], a[i + 1]), Word(b[i], b[i + 1]);
    CombinedAt(Words(a), Words(b), subtract, j, x, y);
    BytesOfWord(BlockOf(sums)[i], BlockOf(sums)[i + 1], sums[j], x, y, subtract);
  }

  lemma BytesOfWord(low: byte, high: byte, w: uint16, x: int, y: int, subtract: bool)
    requires low == Low(w) && high == High(w) && w == Operate(x, y, subtract)
    ensures low as int + 256 * high as int == (if subtract then x - y else x + y) % 0x1_0000
  {
    WordOfBytes(w);
  }

  /** The sum of the expansions of a list of items. */
  function Total(expand: Bytes -> Block, items: seq<Bytes>): Sum {
    if items == [] then Zero()
    else Plus(Total(expand, items[..|items| - 1]), Words(expand(items[|items| - 1])))
  }

  lemma TotalSnoc(expand: Bytes -> Block, items: seq<Bytes>, item: Bytes)
    ensures Total(expand, items + [item]) == Plus(Total(expand, items), Words(expand(item)))
  {
    assert (items + [item])[..|items|] == items;
  }

  function Combined(a: Sum, b: Sum, subtract: bool): Sum {
    if subtract then Minus(a, b) else Plus(a, b)
  }

  /** The bytes of b with word w stored at byte i. */
  function Stored(b: Block, i: nat, w: uint16): Block
    requires i + 1 < SIZE
  {
    b[..i] + [Low(w), High(w)] + b[i + 2..]
  }

  function Operate(x: int, y: int, subtract: bool): uint16 {
    Wrap(if subtract then x - y else x + y)
  }

  /** The 16-bit result of one round. */
  function RoundResult(b: Block, input: Block, subtract: bool, i: nat): uint16
    requires i + 1 < SIZE
  {
    Operate(Word(b[i], b[i + 1]), Word(input[i], input[i + 1]), subtract)
  }

  /** The first i bytes rewritten, the others not yet. */
  function Partly(want: Block, was: Block, i: nat): Block
    requires i <= SIZE
  {
    want[..i] + was[i..]
  }

  lemma PartlyEnds(want: Block, was: Block)
    ensures Partly(want, was, 0) == was && Partly(want, was, SIZE) == want
  {
  }

  lemma StoreNext(want: Block, was: Block, i: nat, w: uint16)
    requires i + 1 < SIZE && want[i] == Low(w) && want[i + 1] == High(w)
    ensures Stored(Partly(want, was, i), i, w) == Partly(want, was, i + 2)
  {
  }

  lemma WordAt(b: Block, i: nat, j: nat)
    requires j < WORDS && i == 2 * j
    ensures i + 1 < SIZE && Words(b)[j] == Word(b[i], b[i + 1])
  {
  }

  lemma CombinedAt(a: Sum, b: Sum, subtract: bool, j: nat, x: int, y: int)
    requires j < WORDS && x == a[j] && y == b[j]
    ensures Combined(a, b, subtract)[j] == Operate(x, y, subtract)
  {
  }

  lemma RoundIsCombined(was: Block, input: Block, subtract: bool, i: nat, j: nat)
    requires j < WORDS && i == 2 * j
    ensures RoundResult(was, input, subtract, i) == Combined(Words(was), Words(input), subtract)[j]
  {
    WordAt(was, i, j);
    WordAt(input, i, j);
    CombinedAt(Words(was), Words(input), subtract, j, Word(was[i], was[i + 1]), Word(input[i], input[i + 1]));
  }

  /** A round reads bytes that are not yet rewritten. */
  lemma PartlyRound(want: Block, was: Block, input: Block, subtract: bool, i: nat)
    requires i + 1 < SIZE
    ensures RoundResult(Partly(want, was, i), input, subtract, i) == RoundResult(was, input, subtract, i)
  {
    var now := Partly(want, was, i);
    assert now[i] == was[i] && now[i + 1] == was[i + 1];
  }

  lemma Advance(was: Block, input: Block, subtract: bool, want: Block, i: nat, j: nat, now: Block, next: Block)
    requires j < WORDS && i == 2 * j && want == BlockOf(Combined(Words(was), Words(input), subtract))
    requires now == Partly(want, was, i) && next == Stored(now, i, RoundResult(now, input, subtract, i))
    ensures next == Partly(want, was, i + 2)
  {
    var sums := Combined(Words(was), Words(input), subtract);
    BlockBytes(sums, j);
    RoundIsCombined(was, input, subtract, i, j);
    PartlyRound(want, was, input, subtract, i);
    StoreNext(want, was, i, sums[j]);
  }

  /** One round of the loop of performPointwiseWithOverflow. */
  method PerformAt(base: array<byte>, input: Block, subtract: bool, i: nat)
    requires base.Length == SIZE && i + 1 < SIZE
    modifies base
    ensures base[..] == Stored(old(base[..]), i, RoundResult(old(base[..]), input, subtract, i))
  {
    var x: int := Word(base[i], base[i + 1]);
    var y: int := Word(input[i], input[i + 1]);
    var result := Operate(x, y, subtract);
    ghost var was: Block := base[..];
    assert result == RoundResult(was, input, subtract, i);
    base[i], base[i + 1] := Low(result), High(result);
    StoredBytes(was, base[..], i, result);
  }

  lemma StoredBytes(was: Block, now: Block, i: nat, w: uint16)
    requires i + 1 < SIZE && now[i] == Low(w) && now[i + 1] == High(w)
    requires forall k | 0 <= k < SIZE && k != i && k != i + 1 :: now[k] == was[k]
    ensures now == Stored(was, i, w)
  {
  }

  /** One round brings the bytes from partly to further rewritten. */
  method PerformNext(base: array<byte>, input: Block, subtract: bool, i: nat, ghost was: Block, ghost want: Block,
                     ghost j: nat)
    requires base.Length == SIZE && j < WORDS && i == 2 * j && base[..] == Partly(want, was, i)
    requires want == BlockOf(Combined(Words(was), Words(input), subtract))
    modifies base
    ensures base[..] == Partly(want, was, i + 2)
  {
    PerformAt(base, input, subtract, i);
    Advance(was, input, subtract, want, i, j, Partly(want, was, i), base[..]);
  }

  /** performPointwiseWithOverflow: the bytes become those of the word-wise sum or difference. */
  method PerformPointwiseWithOverflow(base: array<byte>, input: Block, subtract: bool)
    requires base.Length == SIZE
    modifies base
    ensures base[..] == BlockOf(Combined(Words(old(base[..])), Words(input), subtract))
  {
    ghost var was: Block := base[..];
    ghost var want := BlockOf(Combined(Words(was), Words(input), subtract));
    PartlyEnds(want, was);
    var i := 0;
    ghost var j := 0;
    while i < base.Length
      invariant 0 <= i <= SIZE && i == 2 * j
      invariant base[..] == Partly(want, was, i)
    {
      PerformNext(base, input, subtract, i, was, want, j);
      i, j := i + 2, j + 1;
    }
  }

  lemma BlockBytes(s: Sum, j: nat)
    requires j < WORDS
    ensures BlockOf(s)[2 * j] == Low(s[j]) && BlockOf(s)[2 * j + 1] == High(s[j])
  {
    assert 2 * j % 2 == 0 && (2 * j + 1) % 2 == 1;
    assert 2 * j / 2 == j && (2 * j + 1) / 2 == j;
  }

  /** multipleOp */
  method MultipleOp(expand: Bytes -> Block, base: array<byte>, input: seq<Bytes>, subtract: bool)
    requires base.Length == SIZE
    modifies base
    ensures Words(base[..]) == Combined(old(Words(base[..])), Total(expand, input), subtract)
  {
    ghost var was := Words(base[..]);
    PlusZero(was);
    for n := 0 to |input|
      invariant Words(base[..]) == Combined(was, Total(expand, input[..n]), subtract)
    {
      PerformPointwiseWithOverflow(base, expand(input[n]), subtract);
      CombineOne(expand, was, input, n, subtract);
    }
    assert input[..|input|] == input;
  }

  lemma CombineOne(expand: Bytes -> Block, was: Sum, input: seq<Bytes>, n: nat, subtract: bool)
    requires n < |input|
    ensures Words(BlockOf(Combined(Combined(was, Total(expand, input[..n]), subtract), Words(expand(input[n])),
                                   subtract)))
         == Combined(was, Total(expand, input[..n + 1]), subtract)
  {
    var done, next := Total(expand, input[..n]), Words(expand(input[n]));
    WordsOfBlock(Combined(Combined(was, done, subtract), next, subtract));
    assert input[..n + 1] == input[..n] + [input[n]];
    TotalSnoc(expand, input[..n], input[n]);
    MinusPlus(was, done, next);
    PlusAssociates(was, done, next);
  }

  /** SubtractThenAddInPlace: all removals first, then all additions. */
  method SubtractThenAddInPlace(expand: Bytes -> Block, base: array<byte>, subtract: seq<Bytes>, add: seq<Bytes>)
    requires base.Length == SIZE
    modifies base
    ensures Words(base[..]) == Plus(Minus(old(Words(base[..])), Total(expand, subtract)), Total(expand, add))
  {
    MultipleOp(expand, base, subtract, true);
    MultipleOp(expand, base, add, false);
  }

  /** The sum of the expansions of every value of a map. */
  ghost function MapTotal<K>(expand: Bytes -> Block, m: map<K, Bytes>): Sum
    decreases |m|
  {
    if m == map[] then Zero()
    else var k :| k in m; Plus(MapTotal(expand, m - {k}), Words(expand(m[k])))
  }

  /** Any key may be taken out of the sum first. */
  lemma {:induction false} MapTotalWithout<K>(expand: Bytes -> Block, m: map<K, Bytes>, k: K)
    requires k in m
    ensures MapTotal(expand, m) == Plus(MapTotal(expand, m - {k}), Words(expand(m[k])))
    decreases |m|
  {
    var j :| j in m && MapTotal(expand, m) == Plus(MapTotal(expand, m - {j}), Words(expand(m[j])));
    if j != k {
      MapTotalWithout(expand, m - {j}, k);
      MapTotalWithout(expand, m - {k}, j);
      assert m - {j} - {k} == m - {k} - {j};
      var r, x, y := MapTotal(expand, m - {j} - {k}), Words(expand(m[j])), Words(expand(m[k]));
      PlusAssociates(r, y, x);
      PlusCommutes(x, y);
      PlusAssociates(r, x, y);
    }
  }

  /** Removing a key takes its value's expansion out of the sum. */
  lemma MapTotalRemove<K>(expand: Bytes -> Block, m: map<K, Bytes>, k: K)
    ensures MapTotal(expand, m - {k}) ==
            if k in m then Minus(MapTotal(expand, m), Words(expand(m[k]))) else MapTotal(expand, m)
  {
    if k in m {
      MapTotalWithout(expand, m, k);
      MinusInverts(MapTotal(expand, m - {k}), Words(expand(m[k])));
    } else {
      assert m - {k} == m;
    }
  }

  /** Setting a key replaces its old value's expansion by the new one's. */
  lemma MapTotalPut<K>(expand: Bytes -> Block, m: map<K, Bytes>, k: K, v: Bytes)
    ensures MapTotal(expand, m[k := v]) == Plus(MapTotal(expand, m - {k}), Words(expand(v)))
  {
    MapTotalWithout(expand, m[k := v], k);
    assert m[k := v] - {k} == m - {k};
  }

  /** The sum over a map is the sum over the part with some keys and the sum over the part without them. */
  lemma {:induction false} MapTotalSplit<K>(expand: Bytes -> Block, m: map<K, Bytes>, keys: set<K>)
    ensures MapTotal(expand, m) ==
            Plus(MapTotal(expand, m - keys), MapTotal(expand, map k | k in m && k in keys :: m[k]))
    decreases |m|
  {
    var inside := map k | k in m && k in keys :: m[k];
    if k :| k in inside {
      MapTotalSplit(expand, m - {k}, keys);
      assert m - {k} - keys == m - keys;
      assert (map j | j in m - {k} && j in keys :: (m - {k})[j]) == inside - {k};
      MapTotalWithout(expand, m, k);
      MapTotalWithout(expand, inside, k);
      PlusAssociates(MapTotal(expand, m - keys), MapTotal(expand, inside - {k}), Words(expand(m[k])));
    } else {
      forall k | k in m ensures k !in keys {
        assert k !in inside;
      }
      assert m - keys == m;
      PlusZero(MapTotal(expand, m));
    }
  }
}
