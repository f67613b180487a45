/** Number printing and parsing (`utoa`, `itoa`, `int_to_str` against `htoi`, `btoi`, `atoi`,
    `str_to_int`) and the Newton square root. */
module Numbers {
  import opened Machine

  // ---------------------------------------------------------------- positional notation

  function DigitChar(d: nat): byte
    requires d < 36
  {
    if d > 9 then d - 10 + 'A' as int else d + '0' as int
  }

  /** The value of a character as a digit, 36 if it is none. */
  function DigitOf(c: byte): nat {
    if '0' as int <= c <= '9' as int then c - '0' as int
    else if 'a' as int <= c <= 'z' as int then c - 'a' as int + 10
    else if 'A' as int <= c <= 'Z' as int then c - 'A' as int + 10
    else 36
  }

  predicate IsDigit(c: byte, base: nat) {
    DigitOf(c) < base
  }

  /** `n` in base `base`, most significant digit first, no leading zeros. */
  function Digits(n: nat, base: nat): (r: seq<byte>)
    requires 2 <= base <= 36
    ensures |r| >= 1
  {
    if n < base then [DigitChar(n)] else Digits(n / base, base) + [DigitChar(n % base)]
  }

  /** The number that a string of digits denotes. */
  function Number(ds: seq<byte>, base: nat): nat {
    if ds == [] then 0
    else Number(ds[..|ds| - 1], base) * base + DigitOf(ds[|ds| - 1])
  }

  /** The digits printed are figures and capital letters, without leading zeros, and denote the number. */
  lemma {:induction false} NumberOfDigits(n: nat, base: nat)
    requires 2 <= base <= 36
    ensures Number(Digits(n, base), base) == n
    ensures forall c :: c in Digits(n, base) ==> 0x30 <= c <= 0x39 || 0x41 <= c <= 0x5A
    ensures forall c :: c in Digits(n, base) ==> IsDigit(c, base)
    ensures n > 0 ==> Digits(n, base)[0] != '0' as int
    ensures n == 0 ==> Digits(n, base) == ['0' as int]
  {
    if n < base {
      assert Number([], base) == 0;
      assert Digits(n, base)[..0] == [];
    } else {
      var q, d := n / base, DigitChar(n % base);
      DivPositive(n, base);
      NumberOfDigits(q, base);
      assert Digits(n, base)[..|Digits(q, base)|] == Digits(q, base);
    }
  }

  lemma DivPositive(n: nat, base: nat)
    requires 2 <= base <= n
    ensures 1 <= n / base < n && 2 * (n / base) <= n
    ensures n == n / base * base + n % base
  {
    var q := n / base;
    assert n == q * base + n % base;
    assert q * base > 0;
    MulAtLeastDouble(q, base);
  }

  lemma MulAtLeastDouble(q: nat, base: nat)
    requires 2 <= base && q * base > 0
    ensures 1 <= q && 2 * q <= q * base
  {
  }

  function Pow2(k: nat): nat {
    if k == 0 then 1 else 2 * Pow2(k - 1)
  }

  lemma DigitsFit(n: nat, base: nat, k: nat)
    requires 2 <= base <= 36 && n < Pow2(k) && k > 0
    ensures |Digits(n, base)| <= k
    decreases k
  {
    if n >= base {
      DivPositive(n, base);
      DigitsFit(n / base, base, k - 1);
    }
  }

  lemma {:induction false} PowAdd(a: nat, b: nat)
    ensures Pow2(a + b) == Pow2(a) * Pow2(b)
  {
    if a > 0 {
      PowAdd(a - 1, b);
    }
  }

  lemma WordDigitsFit(n: nat, base: nat)
    requires 2 <= base <= 36 && n < TWO_32
    ensures |Digits(n, base)| <= 32
  {
    assert Pow2(4) == 16;
    PowAdd(4, 4);
    PowAdd(8, 8);
    PowAdd(16, 16);
    DigitsFit(n, base, 32);
  }

  function Pow10(k: nat): nat {
    if k == 0 then 1 else 10 * Pow10(k - 1)
  }

  lemma {:induction false} DecimalsFit(n: nat, k: nat)
    requires n < Pow10(k) && k > 0
    ensures |Digits(n, 10)| <= k
    decreases k
  {
    if n >= 10 {
      DecimalsFit(n / 10, k - 1);
    }
  }

  /** A 32-bit number has at most ten decimal digits. */
  lemma WordDecimalsFit(n: nat)
    requires n < TWO_32
    ensures |Digits(n, 10)| <= 10
  {
    assert Pow10(5) == 100000;
    assert Pow10(10) == 10000000000;
    DecimalsFit(n, 10);
  }

  // ---------------------------------------------------------------- in-place reversal

  function Reversed(s: seq<byte>): (r: seq<byte>)
    ensures |r| == |s|
  {
    seq(|s|, i requires 0 <= i < |s| => s[|s| - 1 - i])
  }

  /** `strrev` on a string of length `len`. */
  method StrRev(str: array<byte>, len: nat)
    requires len <= str.Length
    modifies str
    ensures str[..len] == Reversed(old(str[..len]))
    ensures str[len..] == old(str[len..])
  {
    if len == 0 {
      return;
    }
    var start, end := 0, len - 1;
    while end > start
      invariant 0 <= start && start + end == len - 1 && end < len && start <= end + 1
      invariant forall i :: 0 <= i < start || end < i < len ==> str[i] == old(str[len - 1 - i])
      invariant forall i :: start <= i <= end || len <= i < str.Length ==> str[i] == old(str[i])
    {
      str[start], str[end] := str[end], str[start];
      start, end := start + 1, end - 1;
    }
  }

  // ---------------------------------------------------------------- printing

  /** `str` holds the NUL-terminated string `s`. */
  ghost predicate Holds(str: array<byte>, s: seq<byte>)
    reads str
  {
    |s| < str.Length && str[..|s|] == s && str[|s|] == 0
  }

  /** What is left to print once `num` has lost its last digit. */
  lemma DigitsStep(num: nat, base: nat)
    requires 2 <= base <= 36 && num > 0
    ensures num / base < num && num % base < base
    ensures Digits(num, base) == Rest(num / base, base) + [DigitChar(num % base)]
  {
    if num >= base {
      DivPositive(num, base);
    } else {
      DivSmall(num, base);
    }
  }

  lemma DivSmall(num: nat, base: nat)
    requires num < base
    ensures num / base == 0 && num % base == num
  {
  }

  function Rest(num: nat, base: nat): seq<byte>
    requires 2 <= base <= 36
  {
    if num == 0 then [] else Digits(num, base)
  }

  /** One digit off the end of a number. */
  method LastDigit(num: nat, base: nat) returns (rest: nat, digit: byte)
    requires 2 <= base <= 36 && num > 0
    ensures rest < num && Digits(num, base) == Rest(rest, base) + [digit]
  {
    DigitsStep(num, base);
    rest, digit := num / base, DigitChar(num % base);
  }

  /** The digits not yet printed are the front of all of them. */
  lemma NextToPrint(all: seq<byte>, left: seq<byte>, rest: seq<byte>, digit: byte)
    requires left <= all && left == rest + [digit]
    ensures rest <= all && all[|left| - 1] == digit
  {
    assert all[|left| - 1] == left[|left| - 1];
  }

  /** The digit loop of `utoa` and `itoa`: least significant digit first. */
  method EmitDigits(value: nat, str: array<byte>, base: nat) returns (len: nat)
    requires 0 < value < TWO_32 && 2 <= base <= 36 && str.Length >= 34
    modifies str
    ensures len <= 32 && str[..len] == Reversed(Digits(value, base))
  {
    WordDigitsFit(value, base);
    var num := value;
    ghost var all := Digits(value, base);
    ghost var left := all;             // not yet printed
    len := 0;
    while num != 0
      invariant 0 <= num && left == Rest(num, base) && len + |left| == |all| && left <= all
      invariant forall i :: 0 <= i < len ==> str[i] == all[|all| - 1 - i]
      decreases num
    {
      var digit;
      num, digit := LastDigit(num, base);
      NextToPrint(all, left, Rest(num, base), digit);
      left := Rest(num, base);
      str[len] := digit;
      len := len + 1;
    }
  }

  /** `utoa`; false stands for NULL. */
  method Utoa(value: nat, str: array<byte>, base: int) returns (ok: bool)
    requires value < TWO_32 && str.Length >= 34
    modifies str
    ensures ok <==> 2 <= base <= 36
    ensures ok ==> Holds(str, Digits(value, base))
  {
    if base < 2 || base > 36 {
      return false;
    }
    ok := true;
    if value == 0 {
      str[0], str[1] := '0' as int, 0;
      return;
    }
    var len := EmitDigits(value, str, base);
    ReversedTwice(Digits(value, base), []);
    Finish(str, len);
  }

  lemma ReversedTwice(s: seq<byte>, sign: seq<byte>)
    requires |sign| <= 1
    ensures Reversed(Reversed(s) + sign) == sign + s
    ensures sign == [] ==> Reversed(Reversed(s)) == s
  {
  }

  /** Terminates the string and turns it round. */
  method Finish(str: array<byte>, len: nat)
    requires len < str.Length
    modifies str
    ensures Holds(str, Reversed(old(str[..len])))
  {
    str[len] := 0;
    StrRev(str, len);
    assert str[len] == str[len..][0];
  }

  /** The number with its sign. */
  function Signed(value: int, base: nat): seq<byte>
    requires 2 <= base <= 36
  {
    if value < 0 then ['-' as int] + Digits(-value, base) else Digits(value, base)
  }

  /** Every digit counted down from '0' instead of up. */
  function Mirrored(ds: seq<byte>): (r: seq<byte>)
    ensures |r| == |ds|
  {
    seq(|ds|, i requires 0 <= i < |ds| => '0' as int - DigitOf(ds[i]))
  }

  /** What `itoa` prints. In a base other than 10 a negative number stays negative in the signed variable,
      so that the remainders are negative too. */
  function Printed(value: int, base: nat): seq<byte>
    requires 2 <= base <= 36
  {
    if value < 0 && base != 10 then Mirrored(Digits(-value, base)) else Signed(value, base)
  }

  /** What it means to print: a sign in base 10, the unsigned value in every other base. */
  function Intended(value: int, base: nat): seq<byte>
    requires 2 <= base <= 36 && -TWO_32 <= value
  {
    if value < 0 && base != 10 then Digits(value + TWO_32, base) else Signed(value, base)
  }

  /** It does so exactly for numbers that are not negative, and in base 10. */
  lemma PrintedIsIntendedIff(value: int, base: nat)
    requires 2 <= base <= 36 && -0x8000_0000 <= value < 0x8000_0000
    ensures Printed(value, base) == Intended(value, base) <==> value >= 0 || base == 10
  {
    if value < 0 && base != 10 {
      var p, q := Digits(-value, base), Digits(value + TWO_32, base);
      NumberOfDigits(-value, base);
      NumberOfDigits(value + TWO_32, base);
      assert p[0] in p && q[0] in q;
      assert Mirrored(p)[0] < '0' as int <= q[0];
    }
  }

  /** For example, -1 in base 16 is printed as a slash. */
  lemma MinusOneInHex()
    ensures Printed(-1, 16) == ['/' as int] && |Intended(-1, 16)| > 1
  {
    assert Digits(1, 16) == ['1' as int];
    assert Intended(-1, 16) == Digits(0xFFFF_FFFF / 16, 16) + [DigitChar(15)];
  }

  /** One digit off the end of a negative number: division and remainder truncate toward zero. */
  method LastMirrored(num: int, base: nat) returns (rest: int, c: byte, ghost digit: byte)
    requires 2 <= base <= 36 && num < 0
    ensures num < rest <= 0 && Digits(-num, base) == Rest(-rest, base) + [digit] && c == '0' as int - DigitOf(digit)
  {
    DigitsStep(-num, base);
    digit := DigitChar((-num) % base);
    var rem: int := -((-num) % base);
    var ch: int := if rem > 9 then rem - 10 + 'A' as int else rem + '0' as int;
    rest, c := -((-num) / base), ch;
  }

  /** The digit loop of `itoa` on a negative number. */
  method EmitMirrored(value: int, str: array<byte>, base: nat) returns (len: nat)
    requires -0x8000_0000 <= value < 0 && 2 <= base <= 36 && str.Length >= 34
    modifies str
    ensures len <= 32 && str[..len] == Reversed(Mirrored(Digits(-value, base)))
  {
    WordDigitsFit(-value, base);
    var num := value;
    ghost var all := Digits(-value, base);
    ghost var left := all;             // not yet printed
    len := 0;
    while num != 0
      invariant num <= 0 && left == Rest(-num, base) && len + |left| == |all| && left <= all
      invariant forall i :: 0 <= i < len ==> str[i] == '0' as int - DigitOf(all[|all| - 1 - i])
      decreases -num
    {
      var c;
      ghost var digit;
      num, c, digit := LastMirrored(num, base);
      NextToPrint(all, left, Rest(-num, base), digit);
      left := Rest(-num, base);
      str[len] := c;
      len := len + 1;
    }
  }

  /** `itoa`; not for the least value in base 10, whose negation overflows. */
  method Itoa(value: int, str: array<byte>, base: int) returns (ok: bool)
    requires -0x8000_0000 <= value < 0x8000_0000 && (base == 10 ==> value > -0x8000_0000) && str.Length >= 34
    modifies str
    ensures ok <==> 2 <= base <= 36
    ensures ok ==> Holds(str, Printed(value, base))
  {
    if base < 2 || base > 36 {
      return false;
    }
    ok := true;
    if value == 0 {
      str[0], str[1] := '0' as int, 0;
      return;
    }
    if value < 0 && base != 10 {
      var len := EmitMirrored(value, str, base);
      ReversedTwice(Mirrored(Digits(-value, base)), []);
      Finish(str, len);
      return;
    }
    var num := if value < 0 then -value else value;
    var len := EmitDigits(num, str, base);
    if value < 0 {
      ReversedTwice(Digits(num, base), ['-' as int]);
      str[len] := '-' as int;
      len := len + 1;
      assert str[..len] == Reversed(Digits(num, base)) + ['-' as int];
    } else {
      ReversedTwice(Digits(num, base), []);
    }
    Finish(str, len);
  }

  /** `int_to_str`: counts the digits, then writes them from the end. */
  method IntToStr(value: nat, buf: array<byte>)
    requires value < TWO_32 && buf.Length >= 11
    modifies buf
    ensures Holds(buf, Digits(value, 10))
  {
    if value == 0 {
      buf[0], buf[1] := '0' as int, 0;
      return;
    }
    WordDecimalsFit(value);
    ghost var all := Digits(value, 10);
    var i, tmp := 0, value;
    while tmp > 0
      invariant 0 <= tmp && 0 <= i && i + (if tmp == 0 then 0 else |Digits(tmp, 10)|) == |all|
      decreases tmp
    {
      tmp, i := tmp / 10, i + 1;
    }
    buf[i] := 0;
    var n := value;
    while n > 0
      invariant 0 <= i <= |all| && n >= 0 && buf[|all|] == 0
      invariant all[..i] == if n == 0 then [] else Digits(n, 10)
      invariant forall j :: i <= j < |all| ==> buf[j] == all[j]
      decreases n
    {
      assert all[..i][..i - 1] == all[..i - 1];
      i := i - 1;
      buf[i] := DigitChar(n % 10);
      n := n / 10;
    }
  }

  // ---------------------------------------------------------------- parsing

  predicate IsSpace(c: byte) {
    c == 32 || 9 <= c <= 13
  }

  /** End of the run of digits that starts at `i`. */
  function RunEnd(s: seq<byte>, i: nat, base: nat): (r: nat)
    requires i <= |s|
    ensures i <= r <= |s|
    ensures forall j :: i <= j < r ==> IsDigit(s[j], base)
    ensures r == |s| || !IsDigit(s[r], base)
    decreases |s| - i
  {
    if i < |s| && IsDigit(s[i], base) then RunEnd(s, i + 1, base) else i
  }

  /** First position that is not white space. */
  function SkipSpace(s: seq<byte>, i: nat): (r: nat)
    requires i <= |s|
    ensures i <= r <= |s|
    decreases |s| - i
  {
    if i < |s| && IsSpace(s[i]) then SkipSpace(s, i + 1) else i
  }

  /** Position after an optional prefix such as `0x`. */
  function SkipPrefix(s: seq<byte>, i: nat, lower: byte, upper: byte): (r: nat)
    requires i <= |s|
    ensures i <= r <= |s| || (lower == 0 || upper == 0)
  {
    if At(s, i) == '0' as int && (At(s, i + 1) == lower || At(s, i + 1) == upper) then i + 2 else i
  }

  lemma HornerWraps(x: nat, base: nat, d: nat)
    ensures U32(U32(x) * base + d) == U32(x * base + d)
  {
    var q := x / TWO_32;
    assert x == q * TWO_32 + U32(x);
    assert x * base + d == (U32(x) * base + d) + (q * base) * TWO_32 by {
      assert x * base == q * TWO_32 * base + U32(x) * base;
      assert q * TWO_32 * base == (q * base) * TWO_32;
    }
    ModAdd(U32(x) * base + d, q * base);
  }

  lemma ModAdd(a: int, k: int)
    ensures U32(a + k * TWO_32) == U32(a)
  {
    var b := a + k * TWO_32;
    assert b == (a / TWO_32 + k) * TWO_32 + U32(a);
  }

  /** The digit loops of the parsers: the value, modulo 2^32, of the digits from `from` on. */
  method ParseRun(s: seq<byte>, from: nat, base: nat) returns (n: nat, ghost to: nat)
    requires from <= |s| && 2 <= base <= 16
    ensures to == RunEnd(s, from, base) && n == U32(Number(s[from..to], base))
  {
    n := 0;
    var i := from;
    while i < |s| && IsDigit(s[i], base)
      invariant from <= i <= |s| && RunEnd(s, i, base) == RunEnd(s, from, base)
      invariant n == U32(Number(s[from..i], base))
    {
      NumberNext(s, from, i, base);
      n := Horner(n, base, DigitOf(s[i]), Number(s[from..i], base));
      i := i + 1;
    }
    to := i;
  }

  lemma NumberNext(s: seq<byte>, from: nat, i: nat, base: nat)
    requires from <= i < |s|
    ensures Number(s[from..i + 1], base) == Number(s[from..i], base) * base + DigitOf(s[i])
  {
    assert s[from..i + 1][..i - from] == s[from..i];
  }

  /** One more digit, in 32 bits. */
  method Horner(n: nat, base: nat, d: nat, ghost x: nat) returns (r: nat)
    requires n == U32(x)
    ensures r == U32(x * base + d)
  {
    HornerWraps(x, base, d);
    r := U32(n * base + d);
  }

  method SkipSpaces(s: seq<byte>) returns (i: nat)
    ensures i == SkipSpace(s, 0)
  {
    i := 0;
    while i < |s| && IsSpace(s[i])
      invariant i <= |s| && SkipSpace(s, i) == SkipSpace(s, 0)
    {
      i := i + 1;
    }
  }

  /** Where the digits of a number start, past white space and an optional prefix. */
  function NumberStart(s: seq<byte>, base: nat): (r: nat)
    ensures r <= |s|
  {
    var i := SkipSpace(s, 0);
    if base == 16 then SkipPrefix(s, i, 'x' as int, 'X' as int)
    else if base == 2 then SkipPrefix(s, i, 'b' as int, 'B' as int)
    else i
  }

  /** `htoi` for base 16 and `btoi` for base 2. */
  method ParsePrefixed(s: seq<byte>, base: nat) returns (n: nat)
    requires base == 16 || base == 2
    ensures var a := NumberStart(s, base); n == U32(Number(s[a..RunEnd(s, a, base)], base))
  {
    var i := SkipSpaces(s);
    var lower, upper := if base == 16 then 'x' as int else 'b' as int, if base == 16 then 'X' as int else 'B' as int;
    if At(s, i) == '0' as int && (At(s, i + 1) == lower || At(s, i + 1) == upper) {
      i := i + 2;
    }
    ghost var to;
    n, to := ParseRun(s, i, base);
  }

  /** `str_to_int`. */
  method StrToInt(s: seq<byte>) returns (n: nat)
    ensures n == U32(Number(s[..RunEnd(s, 0, 10)], 10))
  {
    ghost var to;
    n, to := ParseRun(s, 0, 10);
    assert s[0..to] == s[..to];
  }

  /** The digit loop of `atoi`, for numbers whose value fits. */
  method ParseSmall(s: seq<byte>, i: nat) returns (n: nat)
    requires i <= |s|
    ensures var v := Number(s[i..RunEnd(s, i, 10)], 10); v < 0x8000_0000 ==> n == v
  {
    ghost var to;
    n, to := ParseRun(s, i, 10);
  }

  /** Where the digits start, after blanks and a sign. */
  function DigitsStart(s: seq<byte>): (a: nat)
    ensures a <= |s|
  {
    var i := SkipSpace(s, 0);
    if At(s, i) == '-' as int || At(s, i) == '+' as int then i + 1 else i
  }

  /** `atoi`, for numbers whose value fits. */
  method Atoi(s: seq<byte>) returns (n: int)
    ensures var a := DigitsStart(s);
      var v: int := Number(s[a..RunEnd(s, a, 10)], 10);
      v < 0x8000_0000 ==> n == if At(s, SkipSpace(s, 0)) == '-' as int then -v else v
  {
    var i := SkipSpaces(s);
    var sign: int := 1;
    if At(s, i) == '-' as int {
      sign, i := -1, i + 1;
    } else if At(s, i) == '+' as int {
      i := i + 1;
    }
    var v: int := ParseSmall(s, i);
    n := if sign < 0 then -v else v;
  }

  // ---------------------------------------------------------------- round trips

  lemma RunOfDigits(s: seq<byte>, i: nat, base: nat)
    requires i <= |s| && forall j :: i <= j < |s| ==> IsDigit(s[j], base)
    ensures RunEnd(s, i, base) == |s|
  {
  }

  /** `htoi` undoes `utoa` in base 16 and `btoi` undoes it in base 2, for every 32-bit value. */
  lemma PrefixedRoundTrip(n: nat, base: nat)
    requires n < TWO_32 && (base == 16 || base == 2)
    ensures var s := Digits(n, base); var a := NumberStart(s, base);
      U32(Number(s[a..RunEnd(s, a, base)], base)) == n
  {
    var s := Digits(n, base);
    AllDigits(n, base);
    NoPrefix(s, base);
    RunOfDigits(s, 0, base);
    assert s[0..|s|] == s;
    SmallWord(n);
  }

  lemma AllDigits(n: nat, base: nat)
    requires 2 <= base <= 36
    ensures Number(Digits(n, base), base) == n
    ensures forall k :: 0 <= k < |Digits(n, base)| ==> IsDigit(Digits(n, base)[k], base)
  {
    NumberOfDigits(n, base);
    assert forall k :: 0 <= k < |Digits(n, base)| ==> Digits(n, base)[k] in Digits(n, base);
  }

  lemma SmallWord(n: nat)
    requires n < TWO_32
    ensures U32(n) == n
  {
  }

  /** Digits are neither blanks nor a prefix. */
  lemma NoPrefix(s: seq<byte>, base: nat)
    requires (base == 16 || base == 2) && forall k :: 0 <= k < |s| ==> IsDigit(s[k], base)
    ensures NumberStart(s, base) == 0
  {
    assert |s| > 0 ==> IsDigit(s[0], base);
    assert |s| > 1 ==> IsDigit(s[1], base);
  }

  /** `str_to_int` undoes `int_to_str`, for every 32-bit value. */
  lemma DecimalRoundTrip(n: nat)
    requires n < TWO_32
    ensures var s := Digits(n, 10); U32(Number(s[..RunEnd(s, 0, 10)], 10)) == n
  {
    var s := Digits(n, 10);
    NumberOfDigits(n, 10);
    RunOfDigits(s, 0, 10);
    assert s[..|s|] == s;
  }

  lemma SignedStart(s: seq<byte>, value: int, digits: seq<byte>)
    requires digits != [] && (forall k :: 0 <= k < |digits| ==> IsDigit(digits[k], 10))
    requires s == if value < 0 then ['-' as int] + digits else digits
    ensures SkipSpace(s, 0) == 0 && (At(s, 0) == '-' as int <==> value < 0)
    ensures DigitsStart(s) == (if value < 0 then 1 else 0) && s[DigitsStart(s)..] == digits
  {
    assert IsDigit(digits[0], 10);
  }

  lemma WholeRun(s: seq<byte>, a: nat)
    requires a <= |s| && forall k :: 0 <= k < |s[a..]| ==> IsDigit(s[a..][k], 10)
    ensures s[a..RunEnd(s, a, 10)] == s[a..]
  {
    assert forall j :: a <= j < |s| ==> s[j] == s[a..][j - a];
    RunOfDigits(s, a, 10);
  }

  /** `atoi` undoes `itoa` in base 10, for every signed value above the least. */
  lemma SignedRoundTrip(value: int)
    requires -0x8000_0000 < value < 0x8000_0000
    ensures var s := Signed(value, 10);
      var a := DigitsStart(s);
      var v: int := Number(s[a..RunEnd(s, a, 10)], 10);
      v < 0x8000_0000 && value == if At(s, SkipSpace(s, 0)) == '-' as int then -v else v
  {
    var s := Signed(value, 10);
    var n := if value < 0 then -value else value;
    NumberOfDigits(n, 10);
    assert forall k :: 0 <= k < |Digits(n, 10)| ==> Digits(n, 10)[k] in Digits(n, 10);
    SignedStart(s, value, Digits(n, 10));
    WholeRun(s, DigitsStart(s));
  }

  // ---------------------------------------------------------------- blanks, prefixes and what follows

  /** Space, tab, line feed, vertical tab, form feed and carriage return. */
  predicate AllBlank(s: seq<byte>) {
    forall i :: 0 <= i < |s| ==> s[i] in {0x20, 0x09, 0x0A, 0x0B, 0x0C, 0x0D}
  }

  /** A letter or figure that the base does not have, or anything else. */
  predicate Stops(tail: seq<byte>, base: nat) {
    tail == [] || !IsDigit(tail[0], base)
  }

  lemma {:induction false} SpaceEnds(s: seq<byte>, i: nat, k: nat)
    requires i <= k <= |s| && (forall j :: i <= j < k ==> s[j] in {0x20, 0x09, 0x0A, 0x0B, 0x0C, 0x0D})
    requires k < |s| ==> s[k] !in {0x20, 0x09, 0x0A, 0x0B, 0x0C, 0x0D}
    ensures SkipSpace(s, i) == k
    decreases k - i
  {
    if i < k {
      assert s[i] in {0x20, 0x09, 0x0A, 0x0B, 0x0C, 0x0D};
      SpaceEnds(s, i + 1, k);
    }
  }

  lemma {:induction false} RunEnds(s: seq<byte>, i: nat, k: nat, base: nat)
    requires i <= k <= |s| && (forall j :: i <= j < k ==> IsDigit(s[j], base)) && (k < |s| ==> !IsDigit(s[k], base))
    ensures RunEnd(s, i, base) == k
    decreases k - i
  {
    if i < k {
      RunEnds(s, i + 1, k, base);
    }
  }

  /** The digits of a number, with something before them and something that is no digit behind. */
  lemma DigitsBetween(front: seq<byte>, n: nat, base: nat, tail: seq<byte>, s: seq<byte>)
    requires 2 <= base <= 36 && n < TWO_32 && Stops(tail, base) && s == front + Digits(n, base) + tail
    ensures Number(s[|front|..RunEnd(s, |front|, base)], base) == n == U32(n)
  {
    var ds := Digits(n, base);
    AllDigits(n, base);
    var k := |front| + |ds|;
    forall j | |front| <= j < k ensures IsDigit(s[j], base) {
      assert s[j] == ds[j - |front|];
    }
    assert k < |s| ==> s[k] == tail[0];
    RunEnds(s, |front|, k, base);
    assert s[|front|..k] == ds;
    SmallWord(n);
  }

  /** What may stand before the digits in base 16 or 2. */
  predicate IsPrefix(prefix: seq<byte>, base: nat) {
    || prefix == []
    || (base == 16 && prefix in {[0x30, 0x78], [0x30, 0x58]})
    || (base == 2 && prefix in {[0x30, 0x62], [0x30, 0x42]})
  }

  /** Where the digits start; a zero that is followed by the letter of a prefix is taken for one. */
  lemma PrefixSkipped(blanks: seq<byte>, prefix: seq<byte>, n: nat, base: nat, tail: seq<byte>, s: seq<byte>)
    requires (base == 16 || base == 2) && AllBlank(blanks) && IsPrefix(prefix, base)
    requires s == blanks + prefix + Digits(n, base) + tail
    requires prefix == [] && n == 0 ==> tail == [] || tail[0] !in {0x78, 0x58, 0x62, 0x42}
    ensures NumberStart(s, base) == |blanks| + |prefix|
  {
    var ds, k := Digits(n, base), |blanks|;
    NumberOfDigits(n, base);
    AllDigits(n, base);
    assert forall j :: 0 <= j < k ==> s[j] == blanks[j];
    assert s[k] == (prefix + ds)[0] && ds[0] in ds && IsDigit(ds[0], base);
    SpaceEnds(s, 0, k);
    if prefix == [] {
      if |ds| > 1 {
        assert s[k] == ds[0] && (n == 0 ==> |ds| == 1);
      } else {
        assert At(s, k + 1) == At(tail, 0);
      }
    } else {
      assert s[k] == prefix[0] && s[k + 1] == prefix[1];
    }
  }

  /** `htoi` and `btoi` find a number after any blanks and a prefix, whatever follows that is no digit. */
  lemma PrefixedRead(blanks: seq<byte>, prefix: seq<byte>, n: nat, base: nat, tail: seq<byte>)
    requires (base == 16 || base == 2) && n < TWO_32 && AllBlank(blanks) && IsPrefix(prefix, base) && Stops(tail, base)
    requires prefix == [] && n == 0 ==> tail == [] || tail[0] !in {0x78, 0x58, 0x62, 0x42}
    ensures var s := blanks + prefix + Digits(n, base) + tail; var a := NumberStart(s, base);
      U32(Number(s[a..RunEnd(s, a, base)], base)) == n
  {
    var s := blanks + prefix + Digits(n, base) + tail;
    PrefixSkipped(blanks, prefix, n, base, tail, s);
    DigitsBetween(blanks + prefix, n, base, tail, s);
  }

  lemma SignSkipped(blanks: seq<byte>, sign: seq<byte>, rest: seq<byte>, s: seq<byte>)
    requires AllBlank(blanks) && (sign == [] || sign == [0x2D] || sign == [0x2B])
    requires rest != [] && IsDigit(rest[0], 10) && s == blanks + sign + rest
    ensures DigitsStart(s) == |blanks + sign| && (At(s, SkipSpace(s, 0)) == '-' as int <==> sign == [0x2D])
  {
    var k := |blanks|;
    assert forall j :: 0 <= j < k ==> s[j] == blanks[j];
    assert s[k] == (sign + rest)[0];
    SpaceEnds(s, 0, k);
  }

  /** `atoi` finds a number after any blanks and a sign, whatever follows that is no digit. */
  lemma SignedRead(blanks: seq<byte>, sign: seq<byte>, n: nat, tail: seq<byte>)
    requires n < 0x8000_0000 && AllBlank(blanks) && (sign == [] || sign == [0x2D] || sign == [0x2B]) && Stops(tail, 10)
    ensures var s := blanks + sign + Digits(n, 10) + tail; var a := DigitsStart(s);
      && Number(s[a..RunEnd(s, a, 10)], 10) == n && (At(s, SkipSpace(s, 0)) == '-' as int <==> sign == [0x2D])
  {
    var s, rest := blanks + sign + Digits(n, 10) + tail, Digits(n, 10) + tail;
    AllDigits(n, 10);
    assert s == blanks + sign + rest && rest[0] == Digits(n, 10)[0];
    SignSkipped(blanks, sign, rest, s);
    DigitsBetween(blanks + sign, n, 10, tail, s);
  }

  // ---------------------------------------------------------------- square root

  lemma MulMonotone(a: nat, b: nat, c: nat)
    requires a <= b
    ensures a * c <= b * c
  {
  }

  lemma SquareMonotone(a: nat, b: nat)
    requires a <= b
    ensures a * a <= b * b
  {
  }

  lemma MeanSquare(a: nat, b: nat)
    ensures 4 * (a * b) <= (a + b) * (a + b)
  {
    assert (a + b) * (a + b) == 4 * (a * b) + (a - b) * (a - b);
  }

  lemma DoubleSquare(a: nat)
    ensures (2 * a) * (2 * a) == 4 * (a * a)
  {
  }

  lemma Quotient(n: nat, x: nat)
    requires x > 0
    ensures n / x * x <= n < (n / x + 1) * x
  {
    assert n == n / x * x + n % x;
    assert (n / x + 1) * x == n / x * x + x;
  }

  /** The square of `r` exceeds `n` once `r` is one larger. */
  predicate Above(r: nat, n: nat) {
    n < (r + 1) * (r + 1)
  }

  lemma NewtonMean(n: nat, x: nat, q: nat)
    requires n < (q + 1) * x
    ensures Above((x + q) / 2, n)
  {
    var y := (x + q) / 2;
    MeanSquare(q + 1, x);
    SquareMonotone(q + 1 + x, 2 * (y + 1));
    DoubleSquare(y + 1);
  }

  lemma NewtonStop(n: nat, x: nat, q: nat)
    requires q * x <= n && (x + q) / 2 >= x
    ensures x * x <= n
  {
    MulMonotone(x, q, x);
  }

  lemma NewtonStep(n: nat, x: nat)
    requires x > 0
    ensures Above((x + n / x) / 2, n)
    ensures (x + n / x) / 2 >= x ==> x * x <= n
  {
    var q := n / x;
    Quotient(n, x);
    NewtonMean(n, x, q);
    if (x + q) / 2 >= x {
      NewtonStop(n, x, q);
    }
  }

  /** The next estimate stays positive and its sum fits in 32 bits. */
  lemma EstimateFits(n: nat, x: nat, q: nat)
    requires 0 < x <= n < TWO_32 - 1 && q * x <= n < (q + 1) * x && 2 * x <= n + 1
    ensures 0 < (x + q) / 2 && x + q < TWO_32
  {
    assert x < q * x + x;
    if x >= 2 {
      MulMonotone(2, x, q);
      assert 2 * q <= q * x;
    }
  }

  lemma EstimateStep(n: nat, x: nat, q: nat)
    requires 0 < x && 2 * x <= n + 1 && n < TWO_32 - 1 && q * x <= n < (q + 1) * x
    ensures x + q < TWO_32 && 0 < (x + q) / 2 && Above((x + q) / 2, n)
    ensures (x + q) / 2 >= x ==> x * x <= n
  {
    EstimateFits(n, x, q);
    NewtonMean(n, x, q);
    if (x + q) / 2 >= x {
      NewtonStop(n, x, q);
    }
  }

  method NextEstimate(n: nat, x: nat) returns (y: nat)
    requires 0 < x && 2 * x <= n + 1 && n < TWO_32 - 1
    ensures 0 < y && Above(y, n) && (y < x ==> 2 * y <= n + 1)
    ensures y >= x ==> x * x <= n && 2 * x <= n + 1
  {
    var q := n / x;
    Quotient(n, x);
    EstimateStep(n, x, q);
    var sum := Add32(x, q);
    y := sum / 2;
  }

  /** `sqrt`. `None` stands for the divide fault at `n / x`: for the largest input, and for no other,
      the first sum wraps to 0. */
  method Sqrt(n: nat) returns (r: Option<nat>)
    requires n < TWO_32
    ensures r.Some? <==> n != TWO_32 - 1
    ensures r.Some? ==> r.value * r.value <= n && Above(r.value, n)
  {
    if n == 0 || n == 1 {
      return Some(n);
    }
    var x := n;
    var y := U32(x + 1) / 2;
    if n != TWO_32 - 1 {
      assert y == (1 + n / 1) / 2;
      NewtonStep(n, 1);
    }
    while y < x
      invariant 0 < x && (n == TWO_32 - 1 ==> y == 0)
      invariant n != TWO_32 - 1 ==> 0 < y && Above(y, n) && (y < x ==> 2 * y <= n + 1)
      invariant n != TWO_32 - 1 && y >= x ==> x * x <= n && Above(x, n)
      decreases x
    {
      x := y;
      if x == 0 {
        return None;
      }
      y := NextEstimate(n, x);
    }
    return Some(x);
  }
}
