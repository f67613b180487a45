/** The machine's fixed-width numbers: bytes, and the wrap-around of 16-bit and 32-bit unsigned words. */
module Machine {
  datatype Option<T> = None | Some(value: T)

  type byte = x: int | 0 <= x < 0x100

  const TWO_16: int := 0x1_0000
  const TWO_32: int := 0x1_0000_0000

  /** What a `uint16_t` keeps of a mathematical integer. */
  function U16(x: int): (r: nat)
    ensures r < TWO_16
  {
    x % TWO_16
  }

  /** What a `uint32_t` keeps of a mathematical integer. */
  function U32(x: int): (r: nat)
    ensures r < TWO_32
  {
    x % TWO_32
  }

  /** A 32-bit sum that does not overflow. */
  method Add32(a: nat, b: nat) returns (r: nat)
    requires a + b < TWO_32
    ensures r == a + b
  {
    r := U32(a + b);
  }

  function Min(a: int, b: int): int {
    if a <= b then a else b
  }

  /** A byte of a packet or of a NUL-terminated string. Past the end it reads as zero. */
  function At(d: seq<byte>, i: nat): byte {
    if i < |d| then d[i] else 0
  }

  /** Numbers in network order. */
  function Net16(d: seq<byte>, i: nat): (r: nat)
    ensures r < TWO_16
  {
    At(d, i) as int * 0x100 + At(d, i + 1) as int
  }

  function Net32(d: seq<byte>, i: nat): (r: nat)
    ensures r < TWO_32
  {
    Net16(d, i) * 0x1_0000 + Net16(d, i + 2)
  }

  /** The bytes of a number in network order. */
  function Be16(v: nat): (r: seq<byte>)
    requires v < TWO_16
    ensures |r| == 2
  {
    [v / 0x100, v % 0x100]
  }

  function Be32(v: nat): (r: seq<byte>)
    requires v < TWO_32
    ensures |r| == 4
  {
    [v / 0x100_0000, v / TWO_16 % 0x100, v / 0x100 % 0x100, v % 0x100]
  }

  /** Numbers written in network order read back, wherever they lie. */
  lemma Net16Reads(d: seq<byte>, i: nat, v: nat)
    requires v < TWO_16 && Match(d, i, Be16(v))
    ensures Net16(d, i) == v
  {
    assert d[i + 0] == Be16(v)[0] && d[i + 1] == Be16(v)[1];
  }

  lemma Net32Reads(d: seq<byte>, i: nat, v: nat)
    requires v < TWO_32 && Match(d, i, Be32(v))
    ensures Net32(d, i) == v
  {
    var b := Be32(v);
    assert d[i + 0] == b[0] && d[i + 1] == b[1] && d[i + 2] == b[2] && d[i + 3] == b[3];
    assert v / TWO_16 == v / 0x100_0000 * 0x100 + v / TWO_16 % 0x100;
    assert v % TWO_16 == v / 0x100 % 0x100 * 0x100 + v % 0x100;
  }

  /** The bytes from position `i` on are `bytes`. */
  predicate Match(d: seq<byte>, i: nat, bytes: seq<byte>) {
    i + |bytes| <= |d| && forall k :: 0 <= k < |bytes| ==> d[i + k] == bytes[k]
  }

  lemma MatchSplit(d: seq<byte>, i: nat, a: seq<byte>, b: seq<byte>)
    requires Match(d, i, a + b)
    ensures Match(d, i, a) && Match(d, i + |a|, b)
  {
    assert forall k :: 0 <= k < |a| ==> (a + b)[k] == a[k];
    forall k | 0 <= k < |b| ensures d[i + |a| + k] == b[k] {
      assert (a + b)[|a| + k] == b[k];
    }
  }

  lemma Associative(a: seq<byte>, b: seq<byte>, c: seq<byte>)
    ensures a + b + c == a + (b + c)
  {
  }
}
