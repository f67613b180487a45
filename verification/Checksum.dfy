/** The three Internet checksums of the stack (section 2 of RFC 1071): `ip_checksum` sums words in
    the machine's own byte order and folds twice, `tcp_checksum` sums in network order and folds
    in a loop, and the DHCP client has the second form inline. All sums run in 32 bits. */
module Checksum {
  import opened Machine

  const ONES := 0xFFFF
  const IP_PROTO_TCP := 6
  const IP_HEADER_LEN := 20

  // ---------------------------------------------------------------- what is being computed

  function Word(high: byte, low: byte): nat {
    high as int * 0x100 + low as int
  }

  /** Sum of the 16-bit words in network order, an odd last byte padded with zero. */
  function BeSum(d: seq<byte>): nat {
    if |d| == 0 then 0
    else if |d| == 1 then Word(d[0], 0)
    else Word(d[0], d[1]) + BeSum(d[2..])
  }

  /** The same sum in the byte order of the processor. */
  function LeSum(d: seq<byte>): nat {
    if |d| == 0 then 0
    else if |d| == 1 then d[0]
    else Word(d[1], d[0]) + LeSum(d[2..])
  }

  /** The one's-complement 16-bit value of a sum: what is left when 0xFFFF is taken off while it can be,
      where a sum that is not zero never becomes zero. */
  function Ones(n: nat): (r: nat)
    ensures r <= ONES
  {
    if n <= ONES then n else Ones(n - ONES)
  }

  /** The two bytes that storing a 16-bit value leaves in memory. */
  function Stored(v: nat): (r: seq<byte>)
    requires v <= ONES
    ensures |r| == 2
  {
    [v % 0x100, v / 0x100]
  }

  /** `htons`. */
  function Swap(v: nat): (r: nat)
    requires v <= ONES
    ensures r <= ONES
  {
    v % 0x100 * 0x100 + v / 0x100
  }

  /** The value the checksum field must hold, as a network-order word. */
  function Complement(d: seq<byte>): (r: nat)
    ensures r <= ONES
  {
    ONES - Ones(BeSum(d))
  }

  // ---------------------------------------------------------------- arithmetic

  lemma {:induction false} OnesUnique(n: nat, r: nat, k: nat)
    requires n == r + ONES * k && 1 <= r <= ONES
    ensures Ones(n) == r
    decreases k
  {
    if k > 0 {
      OnesUnique(n - ONES, r, k - 1);
    }
  }

  lemma {:induction false} OnesSplit(n: nat) returns (k: nat)
    requires n > 0
    ensures n == Ones(n) + ONES * k && 1 <= Ones(n)
  {
    if n <= ONES {
      k := 0;
    } else {
      k := OnesSplit(n - ONES);
      k := k + 1;
    }
  }

  /** Adding the halves of a sum does not change its one's-complement value. */
  lemma FoldKeepsOnes(n: nat)
    ensures Ones(n / TWO_16 + n % TWO_16) == Ones(n)
  {
    var hi, lo := n / TWO_16, n % TWO_16;
    assert n == hi * TWO_16 + lo;
    if n > 0 {
      var k := OnesSplit(hi + lo);
      OnesUnique(n, Ones(hi + lo), k + hi);
    }
  }

  lemma SumBounds(d: seq<byte>)
    ensures 2 * BeSum(d) <= ONES * (|d| + 1)
    ensures 2 * LeSum(d) <= ONES * (|d| + 1)
  {
    if |d| >= 2 {
      SumBounds(d[2..]);
    }
  }

  // ---------------------------------------------------------------- byte order does not matter

  /** Sum of the bytes that are the high halves of the network-order words. */
  function HighSum(d: seq<byte>): nat {
    if |d| == 0 then 0 else if |d| == 1 then d[0] else d[0] + HighSum(d[2..])
  }

  lemma {:induction false} ByteOrders(d: seq<byte>)
    ensures 0x100 * BeSum(d) == LeSum(d) + ONES * HighSum(d)
    ensures HighSum(d) <= LeSum(d)
  {
    if |d| >= 2 {
      ByteOrders(d[2..]);
    }
  }

  lemma SwapIsShift(v: nat)
    requires 1 <= v <= ONES
    ensures 1 <= Swap(v) && 0x100 * v == Swap(v) + ONES * (v / 0x100)
  {
    assert v == v / 0x100 * 0x100 + v % 0x100;
  }

  lemma SwapOnes(d: seq<byte>)
    ensures Swap(Ones(BeSum(d))) == Ones(LeSum(d))
  {
    ByteOrders(d);
    if BeSum(d) > 0 {
      var k := OnesSplit(BeSum(d));
      var r := Ones(BeSum(d));
      SwapIsShift(r);
      // LeSum(d) + ONES * HighSum(d) == Swap(r) + ONES * (r / 0x100 + 0x100 * k)
      var j := r / 0x100 + 0x100 * k - HighSum(d);
      assert LeSum(d) == Swap(r) + ONES * j;
      assert 0 < LeSum(d) && Swap(r) <= ONES;
      OnesUnique(LeSum(d), Swap(r), j);
    }
  }

  lemma WordHalves(high: byte, low: byte)
    ensures Word(high, low) / 0x100 == high && Word(high, low) % 0x100 == low
  {
    var v := Word(high, low);
    assert (v / 0x100 - high) * 0x100 == low - v % 0x100;
  }

  lemma SwapOf(high: byte, low: byte)
    ensures Swap(Word(high, low)) == Word(low, high)
  {
    WordHalves(high, low);
  }

  lemma SwapComplement(v: nat)
    requires v <= ONES
    ensures Swap(ONES - v) == ONES - Swap(v)
  {
    var h, l := v / 0x100, v % 0x100;
    SwapOf(h, l);
    SwapOf(0xFF - h, 0xFF - l);
  }

  /** Summing in the processor's order and in network order stores the same two bytes. */
  lemma SameBytes(d: seq<byte>)
    ensures ONES - Ones(LeSum(d)) == Swap(Complement(d))
  {
    SwapOnes(d);
    SwapComplement(Ones(BeSum(d)));
  }

  // ---------------------------------------------------------------- the receiver's test

  lemma {:induction false} BeSumAppend(a: seq<byte>, b: seq<byte>)
    requires |a| % 2 == 0
    ensures BeSum(a + b) == BeSum(a) + BeSum(b)
  {
    if a == [] {
      assert a + b == b;
    } else {
      assert (a + b)[2..] == a[2..] + b;
      BeSumAppend(a[2..], b);
    }
  }

  lemma StoredSwap(v: nat)
    requires v <= ONES
    ensures Stored(Swap(v))[0] == v / 0x100 && Stored(Swap(v))[1] == v % 0x100
    ensures Word(v / 0x100, v % 0x100) == v
  {
    assert Swap(v) == v % 0x100 * 0x100 + v / 0x100;
  }

  lemma BeSumFirst(w: seq<byte>, rest: seq<byte>)
    requires |w| == 2
    ensures BeSum(w + rest) == Word(w[0], w[1]) + BeSum(rest)
  {
    assert (w + rest)[2..] == rest;
  }

  lemma BeSumReplaced(d: seq<byte>, at: nat, w: seq<byte>)
    requires at % 2 == 0 && at + 2 <= |d| && |w| == 2
    ensures BeSum(d[..at] + w + d[at + 2..]) == BeSum(d[..at]) + (Word(w[0], w[1]) + BeSum(d[at + 2..]))
  {
    assert d[..at] + w + d[at + 2..] == d[..at] + (w + d[at + 2..]);
    BeSumAppend(d[..at], w + d[at + 2..]);
    BeSumFirst(w, d[at + 2..]);
  }

  lemma BeSumSplit(d: seq<byte>, at: nat)
    requires at % 2 == 0 && at + 2 <= |d|
    ensures BeSum(d) == BeSum(d[..at]) + (Word(d[at], d[at + 1]) + BeSum(d[at + 2..]))
  {
    BeSumAppend(d[..at], d[at..]);
    assert d[..at] + d[at..] == d;
    BeSumStep(d, at);
  }

  lemma StoreAddsPair(d: seq<byte>, at: nat, w: seq<byte>)
    requires at % 2 == 0 && at + 2 <= |d| && d[at] == d[at + 1] == 0 && |w| == 2
    ensures BeSum(d[..at] + w + d[at + 2..]) == BeSum(d) + Word(w[0], w[1])
  {
    BeSumReplaced(d, at, w);
    BeSumSplit(d, at);
  }

  /** Storing a word in a zero field adds exactly that word to the sum. */
  lemma StoreAddsWord(d: seq<byte>, at: nat, v: nat)
    requires at % 2 == 0 && at + 2 <= |d| && d[at] == d[at + 1] == 0 && v <= ONES
    ensures BeSum(d[..at] + Stored(Swap(v)) + d[at + 2..]) == BeSum(d) + v
  {
    StoredSwap(v);
    StoreAddsPair(d, at, Stored(Swap(v)));
  }

  /** For every packet with a zero checksum field, storing the complement there makes the
      one's-complement sum over the covered bytes all ones. */
  lemma ChecksumVerifies(d: seq<byte>, at: nat)
    requires at % 2 == 0 && at + 2 <= |d| && d[at] == d[at + 1] == 0
    ensures Ones(BeSum(d[..at] + Stored(Swap(Complement(d))) + d[at + 2..])) == ONES
  {
    StoreAddsWord(d, at, Complement(d));
    if BeSum(d) == 0 {
      OnesUnique(ONES, ONES, 0);
    } else {
      var k := OnesSplit(BeSum(d));
      OnesUnique(BeSum(d) + Complement(d), ONES, k);
    }
  }

  /** The same for a TCP segment: its checksum field is at byte 16, and the pseudo-header is
      covered too. */
  lemma SegmentVerifies(srcIp: nat, destIp: nat, segment: seq<byte>)
    requires srcIp < TWO_32 && destIp < TWO_32
    requires 20 <= |segment| < TWO_16 && segment[16] == segment[17] == 0
    ensures var ph := PseudoHeader(srcIp, destIp, |segment|);
      var sent := segment[..16] + Stored(Swap(Complement(ph + segment))) + segment[18..];
      Ones(BeSum(ph + sent)) == ONES
  {
    var ph := PseudoHeader(srcIp, destIp, |segment|);
    var d := ph + segment;
    var w := Stored(Swap(Complement(d)));
    ChecksumVerifies(d, 28);
    assert d[..28] + w + d[30..] == ph + (segment[..16] + w + segment[18..]);
  }

  // ---------------------------------------------------------------- the code

  /** `while (sum >> 16) sum = (sum & 0xFFFF) + (sum >> 16)`. */
  method FoldLoop(total: nat) returns (sum: nat)
    requires total < TWO_32
    ensures sum == Ones(total)
  {
    sum := total;
    while sum / TWO_16 != 0
      invariant sum < TWO_32 && Ones(sum) == Ones(total)
      decreases sum
    {
      FoldKeepsOnes(sum);
      assert sum == sum / TWO_16 * TWO_16 + sum % TWO_16;
      sum := U32(sum % TWO_16 + sum / TWO_16);
    }
  }

  lemma SecondFold(sum: nat)
    requires sum <= 2 * ONES
    ensures U16(U32(sum + sum / TWO_16)) == sum / TWO_16 + sum % TWO_16 <= ONES
  {
    if sum < TWO_16 {
      assert sum / TWO_16 == 0;
    } else {
      assert sum / TWO_16 == 1;
    }
  }

  /** `sum = (sum >> 16) + (sum & 0xFFFF); sum += sum >> 16`, of which 16 bits are used. */
  method FoldTwice(total: nat) returns (low: nat)
    requires total < TWO_32
    ensures low == Ones(total)
  {
    var sum := Add32(total / TWO_16, total % TWO_16);
    FoldKeepsOnes(total);
    FoldKeepsOnes(sum);
    SecondFold(sum);
    sum := U32(sum + sum / TWO_16);
    low := U16(sum);
  }

  lemma BeSumStep(d: seq<byte>, i: nat)
    requires i + 2 <= |d|
    ensures BeSum(d[i..]) == Word(d[i], d[i + 1]) + BeSum(d[i + 2..])
    ensures LeSum(d[i..]) == Word(d[i + 1], d[i]) + LeSum(d[i + 2..])
  {
    assert d[i..][2..] == d[i + 2..];
  }

  /** The loop of `ip_checksum`, in the processor's order. */
  method SumNativeOrder(d: seq<byte>) returns (sum: nat)
    requires LeSum(d) < TWO_32
    ensures sum == LeSum(d)
  {
    sum := 0;
    var len: nat, at: nat := |d|, 0;
    while len > 1
      invariant at + len == |d| && sum + LeSum(d[at..]) == LeSum(d)
      decreases len
    {
      BeSumStep(d, at);
      sum := Add32(sum, Word(d[at + 1], d[at]));
      at, len := at + 2, len - 2;
    }
    if len == 1 {
      sum := Add32(sum, d[at]);
    }
  }

  /** `ip_checksum`: native order, folded twice. */
  method IpChecksum(d: seq<byte>) returns (c: nat)
    requires |d| <= 0xFFFF
    ensures c == Swap(Complement(d))
  {
    SumBounds(d);
    var sum := SumNativeOrder(d);
    var low := FoldTwice(sum);
    c := ONES - low;
    SameBytes(d);
  }

  /** The loop shared by `tcp_checksum` and the DHCP client: adds the words of `d` to `start`. */
  method SumNetworkOrder(d: seq<byte>, start: nat) returns (sum: nat)
    requires start + BeSum(d) < TWO_32
    ensures sum == start + BeSum(d)
  {
    sum := start;
    var even, odd := |d| / 2 * 2, |d| % 2 == 1;
    assert |d| == if odd then even + 1 else even;
    var i: nat := 0;
    while i < even
      invariant i <= even && even - i == 2 * (|d| / 2 - i / 2) && i == 2 * (i / 2)
      invariant sum + BeSum(d[i..]) == start + BeSum(d)
    {
      BeSumStep(d, i);
      sum := Add32(sum, Word(d[i], d[i + 1]));
      i := i + 2;
    }
    if odd {
      sum := Add32(sum, Word(d[|d| - 1], 0));
    }
  }

  /** The TCP pseudo-header, in network order. */
  function PseudoHeader(srcIp: nat, destIp: nat, len: nat): (r: seq<byte>)
    requires srcIp < TWO_32 && destIp < TWO_32 && len < TWO_16
    ensures |r| == 12
  {
    Be32(srcIp) + Be32(destIp) + [0, IP_PROTO_TCP, len / 0x100, len % 0x100]
  }

  /** Header and data in network order, folded in a loop. */
  method SumBoth(header: seq<byte>, d: seq<byte>) returns (c: nat)
    requires |header| % 2 == 0 && |header| + |d| <= 0x1_0100
    ensures c == Swap(Complement(header + d))
  {
    SumBounds(header);
    SumBounds(d);
    BeSumAppend(header, d);
    var sum := SumNetworkOrder(header, 0);
    sum := SumNetworkOrder(d, sum);
    sum := FoldLoop(sum);
    c := Swap(ONES - sum);
  }

  /** `tcp_checksum`: over pseudo-header and segment. */
  method TcpChecksum(srcIp: nat, destIp: nat, segment: seq<byte>) returns (c: nat)
    requires srcIp < TWO_32 && destIp < TWO_32 && |segment| < TWO_16
    ensures c == Swap(Complement(PseudoHeader(srcIp, destIp, |segment|) + segment))
  {
    c := SumBoth(PseudoHeader(srcIp, destIp, |segment|), segment);
  }

  /** The header checksum computed inline by `dhcp_discover`. */
  method DhcpHeaderChecksum(header: seq<byte>) returns (c: nat)
    requires |header| == IP_HEADER_LEN
    ensures c == Swap(Complement(header))
  {
    SumBounds(header);
    var sum := SumNetworkOrder(header, 0);
    sum := FoldLoop(sum);
    c := Swap(ONES - sum);
  }
}
