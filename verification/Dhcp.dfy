/** DHCP options (section 2 of RFC 2132): the writer `dhcp_add_option`, the option loop of
    `dhcp_process`, and what an offer makes of them. */
module Dhcp {
  import opened Machine

  const OPTIONS_LEN := 312
  const OPTIONS_AT := 240      // offset of the options in the packet
  const OPT_PAD := 0
  const OPT_SUBNET := 1
  const OPT_ROUTER := 3
  const OPT_DNS := 6
  const OPT_MSG_TYPE := 53
  const OPT_SERVER_ID := 54
  const OPT_END := 255
  const DHCP_OFFER := 2
  const DHCP_XID := 0x12345678

  // ---------------------------------------------------------------- option lists

  datatype Item = Pad | Opt(code: byte, data: seq<byte>)

  /** The code is not one of the markers and the length fits its byte. The data may be of any length. */
  predicate WellFormed(item: Item) {
    item.Opt? ==> item.code != OPT_PAD && item.code != OPT_END && |item.data| < 0x100
  }

  function EncodeItem(item: Item): seq<byte>
    requires WellFormed(item)
  {
    match item
    case Pad => [OPT_PAD]
    case Opt(code, data) => [code, |data|] + data
  }

  predicate AllWell(items: seq<Item>) {
    forall k :: 0 <= k < |items| ==> WellFormed(items[k])
  }

  function Encode(items: seq<Item>): seq<byte>
    requires AllWell(items)
  {
    if items == [] then [] else EncodeItem(items[0]) + Encode(items[1..])
  }

  /** The data last written for a code. */
  function LastValue(items: seq<Item>, code: byte): Option<seq<byte>> {
    if items == [] then None else
    var later := LastValue(items[1..], code);
    if later.Some? then later else if items[0].Opt? && items[0].code == code then Some(items[0].data) else None
  }

  /** The option field from that data on: what comes after it, and `tail` behind the list. A reader that
      takes more bytes than the option has takes them from there. */
  function LastField(items: seq<Item>, tail: seq<byte>, code: byte): Option<seq<byte>>
    requires AllWell(items)
  {
    if items == [] then None else
    var later := LastField(items[1..], tail, code);
    if later.Some? then later
    else if items[0].Opt? && items[0].code == code then Some(items[0].data + (Encode(items[1..]) + tail)) else None
  }

  /** The items after the option last written for a code. */
  function Following(items: seq<Item>, code: byte): (r: seq<Item>)
    ensures AllWell(items) ==> AllWell(r)
  {
    if items == [] || LastValue(items, code).None? then []
    else if LastValue(items[1..], code).Some? then Following(items[1..], code)
    else items[1..]
  }

  /** The field is the value, the items that follow, and what is behind the list. */
  lemma {:induction false} FieldIs(items: seq<Item>, tail: seq<byte>, code: byte)
    requires AllWell(items)
    ensures LastField(items, tail, code) ==
      match LastValue(items, code)
      case None => None
      case Some(v) => Some(v + (Encode(Following(items, code)) + tail))
  {
    if items != [] {
      FieldIs(items[1..], tail, code);
    }
  }

  // ---------------------------------------------------------------- the reader

  /** A 32-bit load in the processor's byte order. */
  function Load32(d: seq<byte>, i: nat): nat {
    At(d, i) as int + At(d, i + 1) as int * 0x100 + At(d, i + 2) as int * 0x1_0000 + At(d, i + 3) as int * 0x100_0000
  }

  /** The variables the option loop fills in. */
  datatype Found = Found(msgType: byte, serverIp: nat, subnet: nat, router: nat, dns: nat)

  function Take(f: Found, opt: byte, d: seq<byte>, i: nat): Found {
    if opt == OPT_MSG_TYPE then f.(msgType := At(d, i))
    else if opt == OPT_SERVER_ID then f.(serverIp := Load32(d, i))
    else if opt == OPT_SUBNET then f.(subnet := Load32(d, i))
    else if opt == OPT_ROUTER then f.(router := Load32(d, i))
    else if opt == OPT_DNS then f.(dns := Load32(d, i))
    else f
  }

  /** What the loop finds from position `i` on. */
  function Scan(d: seq<byte>, i: nat, f: Found): Found
    decreases OPTIONS_LEN - i
  {
    if i >= OPTIONS_LEN || At(d, i) == OPT_END then f
    else if At(d, i) == OPT_PAD then Scan(d, i + 1, f)
    else Scan(d, i + 2 + At(d, i + 1), Take(f, At(d, i), d, i + 2))
  }

  method ReadOptions(d: seq<byte>, serverIp: nat) returns (f: Found)
    ensures f == Scan(d, 0, Found(0, serverIp, 0, 0, 0))
  {
    f := Found(0, serverIp, 0, 0, 0);
    var i: nat := 0;
    while i < OPTIONS_LEN && At(d, i) != OPT_END
      invariant Scan(d, i, f) == Scan(d, 0, Found(0, serverIp, 0, 0, 0))
      decreases OPTIONS_LEN - i
    {
      var opt := At(d, i);
      i := i + 1;
      if opt != OPT_PAD {
        var optLen := At(d, i);
        i := i + 1;
        f := Take(f, opt, d, i);
        i := i + optLen;
      }
    }
  }

  /** The value a 32-bit option ends up with: the first four bytes of its last field, or what was there
      before. */
  function Word(field: Option<seq<byte>>, before: nat): nat {
    match field
    case None => before
    case Some(bytes) => Load32(bytes, 0)
  }

  function FirstByte(field: Option<seq<byte>>, before: byte): byte {
    match field
    case None => before
    case Some(bytes) => At(bytes, 0)
  }

  function Expected(items: seq<Item>, tail: seq<byte>, before: Found): Found
    requires AllWell(items)
  {
    Found(FirstByte(LastField(items, tail, OPT_MSG_TYPE), before.msgType),
          Word(LastField(items, tail, OPT_SERVER_ID), before.serverIp),
          Word(LastField(items, tail, OPT_SUBNET), before.subnet),
          Word(LastField(items, tail, OPT_ROUTER), before.router),
          Word(LastField(items, tail, OPT_DNS), before.dns))
  }

  lemma TakeInPlace(f: Found, code: byte, d: seq<byte>, i: nat)
    requires i <= |d|
    ensures Take(f, code, d, i) == Take(f, code, d[i..], 0)
  {
    assert At(d, i) == At(d[i..], 0) && At(d, i + 1) == At(d[i..], 1);
    assert At(d, i + 2) == At(d[i..], 2) && At(d, i + 3) == At(d[i..], 3);
  }

  /** What the first item leaves for the rest of the list. */
  function After(item: Item, rest: seq<byte>, f: Found): Found {
    if item.Opt? then Take(f, item.code, item.data + rest, 0) else f
  }

  lemma ExpectedCons(items: seq<Item>, tail: seq<byte>, f: Found)
    requires AllWell(items) && items != []
    ensures Expected(items, tail, f) == Expected(items[1..], tail, After(items[0], Encode(items[1..]) + tail, f))
  {
  }

  lemma OneStep(item: Item, rest: seq<byte>, d: seq<byte>, i: nat, f: Found)
    requires WellFormed(item) && i <= |d| && d[i..] == EncodeItem(item) + rest && i < OPTIONS_LEN
    ensures i + |EncodeItem(item)| <= |d| && d[i + |EncodeItem(item)|..] == rest
    ensures Scan(d, i, f) == Scan(d, i + |EncodeItem(item)|, After(item, rest, f))
  {
    var e := EncodeItem(item);
    assert d[i] == d[i..][0] == e[0];
    assert d[i + |e|..] == d[i..][|e|..] == rest;
    if item.Opt? {
      assert d[i + 1] == d[i..][1] == e[1];
      assert d[i + 2..] == d[i..][2..] == item.data + rest;
      TakeInPlace(f, item.code, d, i + 2);
    }
  }

  lemma EncodeFirst(items: seq<Item>, tail: seq<byte>)
    requires AllWell(items) && items != []
    ensures Encode(items) + tail == EncodeItem(items[0]) + (Encode(items[1..]) + tail)
    ensures |Encode(items)| == |EncodeItem(items[0])| + |Encode(items[1..])|
  {
    Associative(EncodeItem(items[0]), Encode(items[1..]), tail);
  }

  lemma StopsAtEnd(tail: seq<byte>, d: seq<byte>, i: nat, f: Found)
    requires tail != [] && tail[0] == OPT_END && i <= |d| && d[i..] == Encode([]) + tail
    ensures Scan(d, i, f) == f == Expected([], tail, f)
  {
    assert d[i] == d[i..][0] == tail[0];
  }

  /** For every option list, with pads anywhere, options of any length and an END marker inside the option
      field, the reader stops at END with what the last option of each code it handles and the bytes behind
      it make. */
  lemma {:induction false} ReadsBack(items: seq<Item>, tail: seq<byte>, d: seq<byte>, i: nat, f: Found)
    requires AllWell(items) && tail != [] && tail[0] == OPT_END
    requires i <= |d| && d[i..] == Encode(items) + tail && i + |Encode(items)| < OPTIONS_LEN
    ensures Scan(d, i, f) == Expected(items, tail, f)
    decreases |items|
  {
    if items == [] {
      StopsAtEnd(tail, d, i, f);
    } else {
      var rest := Encode(items[1..]) + tail;
      EncodeFirst(items, tail);
      OneStep(items[0], rest, d, i, f);
      ExpectedCons(items, tail, f);
      ReadsBack(items[1..], tail, d, i + |EncodeItem(items[0])|, After(items[0], rest, f));
    }
  }

  /** The list starts with `n` pads. */
  predicate PadsFirst(items: seq<Item>, n: nat) {
    n <= |items| && forall k :: 0 <= k < n ==> items[k].Pad?
  }

  ghost predicate ZerosFirst(d: seq<byte>, n: nat) {
    forall k :: 0 <= k < n ==> At(d, k) == 0
  }

  /** Only pads are encoded as zeros: an option starts with its code, and the list ends with END. */
  lemma {:induction false} ZerosArePads(items: seq<Item>, tail: seq<byte>, n: nat)
    requires AllWell(items) && tail != [] && tail[0] == OPT_END
    ensures ZerosFirst(Encode(items) + tail, n) <==> PadsFirst(items, n)
    decreases n
  {
    var d := Encode(items) + tail;
    if n > 0 {
      if items == [] {
        assert d == tail && At(d, 0) == OPT_END;
      } else if items[0].Opt? {
        assert At(d, 0) == items[0].code;
      } else {
        var rest := Encode(items[1..]) + tail;
        assert d == [OPT_PAD] + rest;
        ZerosArePads(items[1..], tail, n - 1);
        assert PadsFirst(items, n) <==> PadsFirst(items[1..], n - 1) by {
          assert forall k :: 0 < k < n && k < |items| ==> items[k] == items[1..][k - 1];
        }
        ZerosAfterPad(rest, n);
      }
    }
  }

  lemma ZerosAfterPad(rest: seq<byte>, n: nat)
    requires n > 0
    ensures ZerosFirst([OPT_PAD] + rest, n) <==> ZerosFirst(rest, n - 1)
  {
    var d := [OPT_PAD] + rest;
    assert forall k :: 0 < k ==> At(d, k) == At(rest, k - 1);
    if ZerosFirst(d, n) {
      forall k | 0 <= k < n - 1 ensures At(rest, k) == 0 {
        assert At(d, k + 1) == 0;
      }
    }
  }

  predicate SameFour(a: seq<byte>, b: seq<byte>) {
    At(a, 0) == At(b, 0) && At(a, 1) == At(b, 1) && At(a, 2) == At(b, 2) && At(a, 3) == At(b, 3)
  }

  lemma SameLow(a: byte, b: byte, x: int, y: int)
    ensures a as int + x * 0x100 == b as int + y * 0x100 <==> a == b && x == y
  {
  }

  lemma LoadSame(a: seq<byte>, b: seq<byte>)
    ensures Load32(a, 0) == Load32(b, 0) <==> SameFour(a, b)
  {
    var x3, y3 := At(a, 3) as int, At(b, 3) as int;
    var x2, y2 := At(a, 2) as int + x3 * 0x100, At(b, 2) as int + y3 * 0x100;
    var x1, y1 := At(a, 1) as int + x2 * 0x100, At(b, 1) as int + y2 * 0x100;
    SameLow(At(a, 2), At(b, 2), x3, y3);
    SameLow(At(a, 1), At(b, 1), x2, y2);
    SameLow(At(a, 0), At(b, 0), x1, y1);
    assert Load32(a, 0) == At(a, 0) as int + x1 * 0x100;
    assert Load32(b, 0) == At(b, 0) as int + y1 * 0x100;
  }

  lemma AtBehind(v: seq<byte>, behind: seq<byte>, k: nat)
    ensures At(v + behind, k) == At(v, k) <==> k < |v| || At(behind, k - |v|) == 0
  {
  }

  /** A short value and what is behind it make the same word as the value alone iff that is zeros. */
  lemma ZerosBehind(v: seq<byte>, behind: seq<byte>)
    ensures SameFour(v + behind, v) <==> |v| >= 4 || ZerosFirst(behind, 4 - |v|)
  {
    var d := v + behind;
    AtBehind(v, behind, 0);
    AtBehind(v, behind, 1);
    AtBehind(v, behind, 2);
    AtBehind(v, behind, 3);
    if SameFour(d, v) && |v| < 4 {
      forall k | 0 <= k < 4 - |v| ensures At(behind, k) == 0 {
        AtBehind(v, behind, |v| + k);
        assert |v| + k == 0 || |v| + k == 1 || |v| + k == 2 || |v| + k == 3;
      }
    }
  }

  /** So the last value written for a code is recovered exactly when it is as long as what is taken, four
      bytes for an address and one for the message type, or pads follow it for the bytes it lacks. */
  lemma ValueRecoveredIff(items: seq<Item>, tail: seq<byte>, code: byte, before: nat, first: byte)
    requires AllWell(items) && tail != [] && tail[0] == OPT_END && LastValue(items, code).Some?
    ensures var v, rest, field := LastValue(items, code).value, Following(items, code), LastField(items, tail, code);
      && (Word(field, before) == Load32(v, 0) <==> |v| >= 4 || PadsFirst(rest, 4 - |v|))
      && (FirstByte(field, first) == At(v, 0) <==> |v| >= 1 || PadsFirst(rest, 1))
  {
    FieldIs(items, tail, code);
    var v, rest := LastValue(items, code).value, Following(items, code);
    var behind := Encode(rest) + tail;
    LoadSame(v + behind, v);
    ZerosBehind(v, behind);
    if |v| < 4 {
      ZerosArePads(rest, tail, 4 - |v|);
    }
    ZerosArePads(rest, tail, 1);
    AtBehind(v, behind, 0);
  }

  /** A subnet mask of three bytes before the router's option: its fourth byte is the router's code. */
  lemma ShortMask(d: seq<byte>, f: Found)
    requires d == [OPT_SUBNET, 3, 255, 255, 255, OPT_ROUTER, 4, 10, 0, 0, 1, OPT_END]
    ensures Scan(d, 0, f).subnet == Load32([255, 255, 255, OPT_ROUTER], 0)
    ensures Scan(d, 0, f).subnet != Load32([255, 255, 255], 0)
  {
    var f1 := Take(f, OPT_SUBNET, d, 2);
    assert f1.subnet == Load32(d, 2) == Load32([255, 255, 255, OPT_ROUTER], 0);
    var f2 := Take(f1, OPT_ROUTER, d, 7);
    assert Scan(d, 0, f) == Scan(d, 5, f1);
    assert Scan(d, 5, f1) == Scan(d, 11, f2) == f2;
  }

  // ---------------------------------------------------------------- the writer

  /** `dhcp_add_option`. */
  method AddOption(options: array<byte>, offset: nat, code: byte, data: seq<byte>) returns (next: nat)
    requires |data| < 0x100 && offset + 2 + |data| <= options.Length
    modifies options
    ensures next == offset + 2 + |data|
    ensures options[..next] == old(options[..offset]) + [code, |data|] + data
    ensures options[next..] == old(options[next..])
  {
    next := offset;
    options[next] := code;
    next := next + 1;
    options[next] := |data|;
    next := next + 1;
    for i := 0 to |data|
      invariant next == offset + 2 + i
      invariant options[..next] == old(options[..offset]) + [code, |data|] + data[..i]
      invariant options[next..] == old(options[next..])
    {
      options[next] := data[i];
      next := next + 1;
      assert data[..i + 1] == data[..i] + [data[i]];
    }
    assert data[..|data|] == data;
  }

  lemma EncodeCons(first: Item, rest: seq<Item>)
    requires WellFormed(first) && AllWell(rest)
    ensures AllWell([first] + rest) && Encode([first] + rest) == EncodeItem(first) + Encode(rest)
  {
    assert ([first] + rest)[1..] == rest;
  }

  lemma {:induction false} EncodeSnoc(items: seq<Item>, last: Item)
    requires AllWell(items) && WellFormed(last)
    ensures AllWell(items + [last])
    ensures Encode(items + [last]) == Encode(items) + EncodeItem(last)
  {
    if items == [] {
      EncodeCons(last, []);
      assert items + [last] == [last] + [];
    } else {
      EncodeSnoc(items[1..], last);
      EncodeCarry(items[0], items[1..], last);
      assert items == [items[0]] + items[1..];
    }
  }

  lemma EncodeCarry(first: Item, rest: seq<Item>, last: Item)
    requires WellFormed(first) && AllWell(rest) && WellFormed(last)
    requires AllWell(rest + [last]) && Encode(rest + [last]) == Encode(rest) + EncodeItem(last)
    ensures AllWell([first] + rest) && AllWell([first] + rest + [last])
    ensures Encode([first] + rest + [last]) == Encode([first] + rest) + EncodeItem(last)
  {
    EncodeCons(first, rest);
    EncodeCons(first, rest + [last]);
    assert [first] + rest + [last] == [first] + (rest + [last]);
    Associative(EncodeItem(first), Encode(rest), EncodeItem(last));
  }

  /** Writes one item at the end of what is there. */
  method WriteItem(options: array<byte>, len: nat, item: Item) returns (next: nat)
    requires WellFormed(item) && len + |EncodeItem(item)| <= options.Length
    modifies options
    ensures next == len + |EncodeItem(item)|
    ensures options[..next] == old(options[..len]) + EncodeItem(item)
  {
    match item
    case Pad =>
      options[len] := OPT_PAD;
      next := len + 1;
    case Opt(code, data) =>
      next := AddOption(options, len, code, data);
      assert old(options[..len]) + [code, |data|] + data == old(options[..len]) + ([code, |data|] + data);
  }

  lemma {:induction false} EncodeGrows(items: seq<Item>, n: nat)
    requires AllWell(items) && n < |items|
    ensures WellFormed(items[n])
    ensures |Encode(items[..n])| + |EncodeItem(items[n])| <= |Encode(items)|
    decreases |items| - n
  {
    EncodeSnoc(items[..n], items[n]);
    assert items[..n] + [items[n]] == items[..n + 1];
    if n + 1 < |items| {
      EncodeGrows(items, n + 1);
    } else {
      assert items[..n + 1] == items;
    }
  }

  lemma EncodeNext(items: seq<Item>, i: nat)
    requires AllWell(items) && i < |items|
    ensures Encode(items[..i + 1]) == Encode(items[..i]) + EncodeItem(items[i])
  {
    EncodeSnoc(items[..i], items[i]);
    assert items[..i + 1] == items[..i] + [items[i]];
  }

  /** Writes a whole list and its END marker. */
  method WriteOptions(options: array<byte>, items: seq<Item>) returns (len: nat)
    requires AllWell(items)
    requires |Encode(items)| < options.Length
    modifies options
    ensures len == |Encode(items)| + 1 && options[..len] == Encode(items) + [OPT_END]
  {
    len := 0;
    for i := 0 to |items|
      invariant len <= |Encode(items)| && options[..len] == Encode(items[..i])
    {
      EncodeGrows(items, i);
      EncodeNext(items, i);
      len := WriteItem(options, len, items[i]);
    }
    assert items[..|items|] == items;
    options[len] := OPT_END;
    len := len + 1;
  }

  // ---------------------------------------------------------------- dhcp_process

  /** `__builtin_bswap32`. */
  function Swap32(v: nat): nat {
    v % 0x100 * 0x100_0000 + v / 0x100 % 0x100 * 0x1_0000 + v / 0x1_0000 % 0x100 * 0x100 + v / 0x100_0000 % 0x100
  }

  lemma LowByte(b: byte, rest: nat)
    ensures (b as int + rest * 0x100) % 0x100 == b && (b as int + rest * 0x100) / 0x100 == rest
  {
  }

  lemma DivTwice(v: nat)
    ensures v / 0x1_0000 == v / 0x100 / 0x100 && v / 0x100_0000 == v / 0x100 / 0x100 / 0x100
  {
  }

  lemma SwapLoad(d: seq<byte>, i: nat)
    ensures Swap32(Load32(d, i)) == Net32(d, i)
  {
    var b0, b1, b2, b3 := At(d, i), At(d, i + 1), At(d, i + 2), At(d, i + 3);
    var v3 := b3 as int;
    var v2 := b2 as int + v3 * 0x100;
    var v1 := b1 as int + v2 * 0x100;
    var v0 := b0 as int + v1 * 0x100;
    LowByte(b0, v1);
    LowByte(b1, v2);
    LowByte(b2, v3);
    DivTwice(v0);
    assert v0 == Load32(d, i);
  }

  datatype Interface = Interface(ipAddr: nat, netmask: nat, gateway: nat, dnsServer: nat)

  class Client {
    var serverIp: nat
    var offeredIp: nat
    var iface: Interface

    /** `dhcp_process`: -1 too short, 0 not for us or no offer, 1 configured. */
    method Process(packet: seq<byte>) returns (r: int)
      modifies this
      ensures r == -1 <==> |packet| < OPTIONS_AT
      ensures |packet| < OPTIONS_AT || Load32(packet, 4) != DHCP_XID ==>
        serverIp == old(serverIp) && offeredIp == old(offeredIp) && iface == old(iface)
      ensures |packet| >= OPTIONS_AT && Load32(packet, 4) == DHCP_XID ==>
        var f := Scan(packet[OPTIONS_AT..], 0, Found(0, old(serverIp), 0, 0, 0));
        && serverIp == f.serverIp
        && (r == 1 <==> f.msgType == DHCP_OFFER)
        && (r == 1 ==> offeredIp == Net32(packet, 16) && iface == Configured(f, Net32(packet, 16)))
        && (r != 1 ==> offeredIp == old(offeredIp) && iface == old(iface))
    {
      if |packet| < OPTIONS_AT {
        return -1;
      }
      if Load32(packet, 4) != DHCP_XID {
        return 0;
      }
      var f := ReadOptions(packet[OPTIONS_AT..], serverIp);
      serverIp := f.serverIp;
      if f.msgType == DHCP_OFFER {
        SwapLoad(packet, 16);
        offeredIp := Swap32(Load32(packet, 16));
        iface := Configured(f, offeredIp);
        return 1;
      }
      return 0;
    }
  }

  /** What `netif_set_ip` is given; the defaults are those of the code. */
  function Configured(f: Found, ip: nat): Interface {
    Interface(ip,
              if f.subnet != 0 then Swap32(f.subnet) else 0x00FF_FFFF,
              if f.router != 0 then Swap32(f.router) else 0,
              if f.dns != 0 then Swap32(f.dns) else 0x0808_0808)
  }

  /** From an offer's options to the interface: the mask, gateway and name server are the four bytes
      that the last option of each code starts with, in network order, unless absent or zero. */
  lemma OfferConfigures(items: seq<Item>, tail: seq<byte>, packet: seq<byte>, serverIp: nat)
    requires AllWell(items) && tail != [] && tail[0] == OPT_END
    requires |Encode(items)| < OPTIONS_LEN && |packet| >= OPTIONS_AT
    requires packet[OPTIONS_AT..] == Encode(items) + tail
    ensures var f := Scan(packet[OPTIONS_AT..], 0, Found(0, serverIp, 0, 0, 0));
      var c := Configured(f, Net32(packet, 16));
      && f.msgType == FirstByte(LastField(items, tail, 53), 0) && c.ipAddr == Net32(packet, 16)
      && c.netmask == Given(LastField(items, tail, 1), 0x00FF_FFFF)
      && c.gateway == Given(LastField(items, tail, 3), 0)
      && c.dnsServer == Given(LastField(items, tail, 6), 0x0808_0808)
  {
    var d := packet[OPTIONS_AT..];
    assert d[0..] == d;
    ReadsBack(items, tail, d, 0, Found(0, serverIp, 0, 0, 0));
    GivenSwaps(LastField(items, tail, OPT_SUBNET));
    GivenSwaps(LastField(items, tail, OPT_ROUTER));
    GivenSwaps(LastField(items, tail, OPT_DNS));
  }

  /** The address a field starts with, in network order. */
  function Given(field: Option<seq<byte>>, otherwise: nat): nat {
    match field
    case None => otherwise
    case Some(bytes) => if Net32(bytes, 0) != 0 then Net32(bytes, 0) else otherwise
  }

  lemma GivenSwaps(field: Option<seq<byte>>)
    ensures Word(field, 0) != 0 ==> field.Some? && Swap32(Word(field, 0)) == Net32(field.value, 0) != 0
    ensures Word(field, 0) == 0 ==> field == None || Net32(field.value, 0) == 0
  {
    match field
    case None =>
    case Some(bytes) => SwapLoad(bytes, 0);
  }
}
