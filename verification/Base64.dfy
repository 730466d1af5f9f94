/** The Base64 encoder and decoder of jni/raop_play/base64.c against section 4 of RFC 4648. */
module Base64 {

  import opened Basics

  const TWO32 := 0x1_0000_0000
  const DECODE_ERROR := 0xFFFF_FFFF

  const UPPER := "ABCDEFGHIJKLMNOPQRSTUVWXYZ"
  const LOWER := "abcdefghijklmnopqrstuvwxyz"
  const OTHER := "0123456789+/"

  /** base64_chars */
  function Alphabet(): (s: string)
    ensures |s| == 64
  {
    UPPER + LOWER + OTHER
  }

  lemma AlphabetSize()
    ensures |UPPER| == 26 && |LOWER| == 26 && |OTHER| == 12
  {}

  /** The alphabet in closed form, from which its letters are seen to be distinct. */
  function Letter(s: nat): char
    requires s < 64
  {
    if s < 26 then 'A' + s as char
    else if s < 52 then 'a' + (s - 26) as char
    else if s < 62 then '0' + (s - 52) as char
    else if s == 62 then '+' else '/'
  }

  lemma UpperLetter(s: nat)
    requires s < 26
    ensures |UPPER| == 26 && UPPER[s] == 'A' + s as char
  {
    if s == 0 {} else if s == 1 {} else if s == 2 {} else if s == 3 {} else if s == 4 {} else if s == 5 {}
    else if s == 6 {} else if s == 7 {} else if s == 8 {}
    else if s == 9 {} else if s == 10 {} else if s == 11 {} else if s == 12 {} else if s == 13 {} else if s == 14 {}
    else if s == 15 {} else if s == 16 {} else if s == 17 {}
    else if s == 18 {} else if s == 19 {} else if s == 20 {} else if s == 21 {} else if s == 22 {} else if s == 23 {}
    else if s == 24 {} else {}
  }

  lemma LowerLetter(s: nat)
    requires s < 26
    ensures |LOWER| == 26 && LOWER[s] == 'a' + s as char
  {
    if s == 0 {} else if s == 1 {} else if s == 2 {} else if s == 3 {} else if s == 4 {} else if s == 5 {}
    else if s == 6 {} else if s == 7 {} else if s == 8 {}
    else if s == 9 {} else if s == 10 {} else if s == 11 {} else if s == 12 {} else if s == 13 {} else if s == 14 {}
    else if s == 15 {} else if s == 16 {} else if s == 17 {}
    else if s == 18 {} else if s == 19 {} else if s == 20 {} else if s == 21 {} else if s == 22 {} else if s == 23 {}
    else if s == 24 {} else {}
  }

  lemma OtherLetter(s: nat)
    requires s < 12
    ensures |OTHER| == 12 && OTHER[s] == Letter(52 + s)
  {
    if s == 0 {} else if s == 1 {} else if s == 2 {} else if s == 3 {} else if s == 4 {} else if s == 5 {}
    else if s == 6 {} else if s == 7 {} else if s == 8 {}
    else if s == 9 {} else if s == 10 {} else {}
  }

  lemma AlphabetLetter(s: nat)
    requires s < 64
    ensures Alphabet()[s] == Letter(s)
  {
    AlphabetSize();
    if s < 26 { UpperLetter(s); } else if s < 52 { LowerLetter(s - 26); } else { OtherLetter(s - 52); }
  }

  lemma AlphabetDistinct(s: nat, t: nat)
    requires s < 64 && t < 64 && Alphabet()[s] == Alphabet()[t]
    ensures s == t
  {
    AlphabetLetter(s);
    AlphabetLetter(t);
  }

  // ----- the encoding as RFC 4648 defines it, bit by bit -----

  /** b shifted right by n places. */
  function Shift(b: nat, n: nat): nat {
    if n == 0 then b else Shift(b, n - 1) / 2
  }

  /** Bit j of a byte, most significant first. */
  function Bit(b: byte, j: nat): (x: nat)
    requires j < 8
    ensures x < 2
  {
    Shift(b, 7 - j) % 2
  }

  function ByteOr0(data: seq<byte>, i: nat): byte {
    if i < |data| then data[i] else 0
  }

  /** Bit i of the data read as a bit string, zero beyond its end. */
  function BitAt(data: seq<byte>, i: nat): (b: nat)
    ensures b < 2
  {
    Bit(ByteOr0(data, i / 8), i % 8)
  }

  /** The k-th group of six bits as a number. */
  function Sextet(data: seq<byte>, k: nat): (s: nat)
    ensures s < 64
  {
    32 * BitAt(data, 6 * k) + 16 * BitAt(data, 6 * k + 1) + 8 * BitAt(data, 6 * k + 2) +
    4 * BitAt(data, 6 * k + 3) + 2 * BitAt(data, 6 * k + 4) + BitAt(data, 6 * k + 5)
  }

  function EncodedLength(n: nat): nat {
    (n + 2) / 3 * 4
  }

  /** Character k of the encoding: a sextet that starts inside the data, else the pad. */
  function EncodedChar(data: seq<byte>, k: nat): char {
    if 6 * k < 8 * |data| then Alphabet()[Sextet(data, k)] else '='
  }

  function Encoded(data: seq<byte>): (s: string)
    ensures |s| == EncodedLength(|data|)
  {
    seq(EncodedLength(|data|), k requires k >= 0 => EncodedChar(data, k))
  }

  // ----- the four characters of a group of three bytes -----

  lemma ByteFromBits(b: byte)
    ensures b == 128 * Bit(b, 0) + 64 * Bit(b, 1) + 32 * Bit(b, 2) + 16 * Bit(b, 3) +
                 8 * Bit(b, 4) + 4 * Bit(b, 5) + 2 * Bit(b, 6) + Bit(b, 7)
  {
    hide Shift;
    ShiftStep(b, 0); ShiftStep(b, 1); ShiftStep(b, 2); ShiftStep(b, 3);
    ShiftStep(b, 4); ShiftStep(b, 5); ShiftStep(b, 6); ShiftStep(b, 7);
  }

  lemma ShiftStep(b: nat, n: nat)
    ensures Shift(b, 0) == b && Shift(b, n) == 2 * Shift(b, n + 1) + Shift(b, n) % 2
  {}

  /** The number a group of three bytes stands for, as the encoder builds it. */
  function GroupValue(data: seq<byte>, g: nat): (c: nat)
    ensures c < 0x100_0000
  {
    ByteOr0(data, 3 * g) * 65536 + ByteOr0(data, 3 * g + 1) * 256 + ByteOr0(data, 3 * g + 2)
  }

  lemma Digits(c: nat, s0: nat, s1: nat, s2: nat, s3: nat)
    requires s0 < 64 && s1 < 64 && s2 < 64 && s3 < 64 && c == s0 * 262144 + s1 * 4096 + s2 * 64 + s3
    ensures c / 262144 % 64 == s0 && c / 4096 % 64 == s1 && c / 64 % 64 == s2 && c % 64 == s3
  {
    var r2 := s2 * 64 + s3;
    var r1 := s1 * 4096 + r2;
    assert c == 262144 * s0 + r1 && 0 <= r1 < 262144;
    assert c / 262144 == s0;
    assert c == 4096 * (s0 * 64 + s1) + r2 && 0 <= r2 < 4096;
    assert c / 4096 == s0 * 64 + s1;
    assert c == 64 * (s0 * 4096 + s1 * 64 + s2) + s3;
    assert c / 64 == s0 * 4096 + s1 * 64 + s2;
  }

  /** Four consecutive sextets are the base-64 digits of their group of three bytes. */
  lemma SextetsOfGroup(data: seq<byte>, g: nat)
    ensures GroupValue(data, g) == Sextet(data, 4 * g) * 262144 + Sextet(data, 4 * g + 1) * 4096 +
                                   Sextet(data, 4 * g + 2) * 64 + Sextet(data, 4 * g + 3)
  {
    hide Bit, ByteOr0;
    ByteFromBits(ByteOr0(data, 3 * g));
    ByteFromBits(ByteOr0(data, 3 * g + 1));
    ByteFromBits(ByteOr0(data, 3 * g + 2));
    SextetBitsLow(data, g);
    SextetBitsHigh(data, g);
  }

  lemma SextetBitsLow(data: seq<byte>, g: nat)
    ensures var b0, b1 := ByteOr0(data, 3 * g), ByteOr0(data, 3 * g + 1);
      Sextet(data, 4 * g)
        == 32 * Bit(b0, 0) + 16 * Bit(b0, 1) + 8 * Bit(b0, 2) + 4 * Bit(b0, 3) + 2 * Bit(b0, 4) + Bit(b0, 5) &&
      Sextet(data, 4 * g + 1)
        == 32 * Bit(b0, 6) + 16 * Bit(b0, 7) + 8 * Bit(b1, 0) + 4 * Bit(b1, 1) + 2 * Bit(b1, 2) + Bit(b1, 3)
  {
    hide Bit, ByteOr0;
  }

  lemma SextetBitsHigh(data: seq<byte>, g: nat)
    ensures var b1, b2 := ByteOr0(data, 3 * g + 1), ByteOr0(data, 3 * g + 2);
      Sextet(data, 4 * g + 2)
        == 32 * Bit(b1, 4) + 16 * Bit(b1, 5) + 8 * Bit(b1, 6) + 4 * Bit(b1, 7) + 2 * Bit(b2, 0) + Bit(b2, 1) &&
      Sextet(data, 4 * g + 3)
        == 32 * Bit(b2, 2) + 16 * Bit(b2, 3) + 8 * Bit(b2, 4) + 4 * Bit(b2, 5) + 2 * Bit(b2, 6) + Bit(b2, 7)
  {
    hide Bit, ByteOr0;
  }

  // ----- base64_encode -----

  /** The characters the encoder writes for one group are those of the standard. */
  lemma GroupChars(data: seq<byte>, g: nat)
    requires 3 * g < |data|
    ensures var c := GroupValue(data, g);
      EncodedChar(data, 4 * g) == Alphabet()[c / 262144 % 64] &&
      EncodedChar(data, 4 * g + 1) == Alphabet()[c / 4096 % 64] &&
      EncodedChar(data, 4 * g + 2) == (if 3 * g + 3 > |data| + 1 then '=' else Alphabet()[c / 64 % 64]) &&
      EncodedChar(data, 4 * g + 3) == (if 3 * g + 3 > |data| then '=' else Alphabet()[c % 64])
  {
    hide Sextet, GroupValue, Alphabet;
    SextetsOfGroup(data, g);
    Digits(GroupValue(data, g), Sextet(data, 4 * g), Sextet(data, 4 * g + 1), Sextet(data, 4 * g + 2),
           Sextet(data, 4 * g + 3));
  }

  lemma EncodedCharNotNul(data: seq<byte>, k: nat)
    ensures EncodedChar(data, k) != '\0'
  {
    hide Sextet, Alphabet;
    if 6 * k < 8 * |data| { AlphabetLetter(Sextet(data, k)); }
  }

  /** base64_encode: -1 without memory, else the length, with the text in a buffer it fits. */
  method Encode(data: seq<byte>, mallocOk: bool) returns (ret: int, str: array?<char>)
    ensures ret == -1 <==> !mallocOk
    ensures mallocOk ==> str != null && fresh(str) && str.Length == |data| * 4 / 3 + 4
    ensures mallocOk ==>
              ret == EncodedLength(|data|) && ret < str.Length && str[..ret] == Encoded(data) && str[ret] == '\0'
  {
    hide EncodedChar, Alphabet;
    if !mallocOk {
      return -1, null;
    }
    var size := |data|;
    var s := new char[size * 4 / 3 + 4];
    var i, p := 0, 0;
    ghost var g := 0;
    while i < size
      invariant i == 3 * g && p == 4 * g && p <= EncodedLength(size) < s.Length
      invariant i >= size ==> p == EncodedLength(size)
      invariant forall k: nat :: k < p ==> s[k] == EncodedChar(data, k)
    {
      GroupChars(data, g);
      var c: nat := data[i];
      i := i + 1;
      c := c * 256;
      if i < size {
        c := c + data[i];
      }
      i := i + 1;
      c := c * 256;
      if i < size {
        c := c + data[i];
      }
      i := i + 1;
      assert c == GroupValue(data, g);
      PutGroup(s, p, c, i, size);
      p := p + 4;
      g := g + 1;
    }
    s[p] := '\0';
    forall k: nat | k < p ensures s[k] != '\0' { EncodedCharNotNul(data, k); }
    var len := StrLen(s, p);
    return len, s;
  }

  method PutGroup(s: array<char>, p: nat, c: nat, i: nat, size: nat)
    requires p + 4 <= s.Length
    modifies s
    ensures s[p] == Alphabet()[c / 262144 % 64] && s[p + 1] == Alphabet()[c / 4096 % 64]
    ensures s[p + 2] == if i > size + 1 then '=' else Alphabet()[c / 64 % 64]
    ensures s[p + 3] == if i > size then '=' else Alphabet()[c % 64]
    ensures forall k :: 0 <= k < s.Length && !(p <= k < p + 4) ==> s[k] == old(s[k])
  {
    hide Alphabet;
    s[p] := Alphabet()[c / 262144 % 64];
    s[p + 1] := Alphabet()[c / 4096 % 64];
    s[p + 2] := Alphabet()[c / 64 % 64];
    s[p + 3] := Alphabet()[c % 64];
    if i > size {
      s[p + 3] := '=';
    }
    if i > size + 1 {
      s[p + 2] := '=';
    }
  }

  /** strlen of a buffer that holds a terminator. */
  method StrLen(s: array<char>, ghost end: nat) returns (n: nat)
    requires end < s.Length && s[end] == '\0' && forall k :: 0 <= k < end ==> s[k] != '\0'
    ensures n == end
  {
    n := 0;
    while s[n] != '\0'
      invariant 0 <= n <= end
      decreases end - n
    {
      n := n + 1;
    }
  }

  // ----- pos -----

  ghost function FirstIndex(c: char, i: nat): int
    requires i <= 64
    decreases 64 - i
  {
    if i == 64 then -1 else if Alphabet()[i] == c then i else FirstIndex(c, i + 1)
  }

  /** pos: the index of a character in the alphabet, -1 when it is not there. */
  method Pos(c: char) returns (r: int)
    ensures r == FirstIndex(c, 0)
    ensures if c in Alphabet() then 0 <= r < 64 && Alphabet()[r] == c else r == -1
  {
    hide Alphabet;
    var p := 0;
    while p < 64
      invariant 0 <= p <= 64
      invariant FirstIndex(c, 0) == FirstIndex(c, p)
      invariant c !in Alphabet()[..p]
    {
      if Alphabet()[p] == c {
        return p;
      }
      p := p + 1;
    }
    return -1;
  }

  lemma {:induction false} FirstIndexOfLetter(s: nat, i: nat)
    requires i <= s < 64
    ensures FirstIndex(Alphabet()[s], i) == s
    decreases s - i
  {
    hide Alphabet;
    if i < s {
      if Alphabet()[i] == Alphabet()[s] { AlphabetDistinct(i, s); }
      FirstIndexOfLetter(s, i + 1);
    }
  }

  lemma LetterIsNotPad(s: nat)
    requires s < 64
    ensures Alphabet()[s] != '='
  {
    AlphabetLetter(s);
  }

  // ----- token_decode -----

  /** Bitwise or of two numbers. */
  function BitOr(a: nat, b: nat): nat {
    if a == 0 && b == 0 then 0 else 2 * BitOr(a / 2, b / 2) + if a % 2 == 1 || b % 2 == 1 then 1 else 0
  }

  function Pow2(k: nat): (n: nat)
    ensures n >= 1
  {
    if k == 0 then 1 else 2 * Pow2(k - 1)
  }

  lemma {:induction false} BitOrZero(a: nat)
    ensures BitOr(a, 0) == a
  {
    if a > 0 { BitOrZero(a / 2); }
  }

  lemma BitOrStep(a: nat, b: nat)
    ensures BitOr(a, b) == 2 * BitOr(a / 2, b / 2) + if a % 2 == 1 || b % 2 == 1 then 1 else 0
  {}

  /** The low bits of one operand stay, the high bits of both are combined. */
  lemma {:induction false} BitOrShifted(m: nat, n: nat, v: nat, k: nat)
    requires v < Pow2(k)
    ensures BitOr(m * Pow2(k), n * Pow2(k) + v) == BitOr(m, n) * Pow2(k) + v
  {
    hide BitOr;
    if k > 0 {
      var h, g, r := m * Pow2(k - 1), n * Pow2(k - 1), BitOr(m, n) * Pow2(k - 1);
      assert m * Pow2(k) == 2 * h && n * Pow2(k) == 2 * g && BitOr(m, n) * Pow2(k) == 2 * r;
      BitOrShifted(m, n, v / 2, k - 1);
      BitOrHalves(h, g, v, r);
    }
  }

  lemma BitOrHalves(h: nat, g: nat, v: nat, r: nat)
    requires BitOr(h, g + v / 2) == r + v / 2
    ensures BitOr(2 * h, 2 * g + v) == 2 * r + v
  {
    hide BitOr;
    BitOrStep(2 * h, 2 * g + v);
    assert (2 * h) / 2 == h && (2 * g + v) / 2 == g + v / 2;
  }

  /** The marker is added to a value of 24 bits and lost in a wrapped one. */
  lemma BitOrMarker(marker: nat, v: nat)
    requires marker <= 2 && v < 0x100_0000
    ensures BitOr(marker * 0x100_0000, v) == marker * 0x100_0000 + v
    ensures BitOr(marker * 0x100_0000, 0xFF00_0000 + v) == 0xFF00_0000 + v
  {
    assert Pow2(8) == 256 && Pow2(16) == 0x1_0000 && Pow2(24) == 0x100_0000;
    BitOrShifted(marker, 0, v, 24);
    BitOrShifted(marker, 255, v, 24);
    BitOrZero(marker);
    BitOrOnes(marker);
  }

  lemma BitOrOnes(m: nat)
    requires m <= 2
    ensures BitOr(m, 255) == 255
  {
    assert BitOr(0, 3) == 3;
    assert BitOr(0, 15) == 15;
    assert BitOr(0, 63) == 63;
    assert BitOr(m / 2, 127) == 127;
  }

  /** The loop of token_decode from character i on, in 32-bit unsigned arithmetic. */
  ghost function TokenFrom(t: string, i: nat, val: nat, marker: nat): nat
    requires |t| >= 4 && i <= 4 && val < TWO32 && marker <= i
    decreases 4 - i
  {
    if i == 4 then if marker > 2 then DECODE_ERROR else BitOr(marker * 0x100_0000, val)
    else
      var v := val * 64 % TWO32;
      if t[i] == '=' then TokenFrom(t, i + 1, v, marker + 1)
      else if marker > 0 then DECODE_ERROR
      else TokenFrom(t, i + 1, (v + FirstIndex(t[i], 0)) % TWO32, marker)
  }

  ghost function Token(t: string): nat {
    if |t| < 4 then DECODE_ERROR else TokenFrom(t, 0, 0, 0)
  }

  /** One turn of the loop. */
  lemma TokenTurn(t: string, i: nat, val: nat, marker: nat)
    requires |t| >= 4 && i < 4 && val < TWO32 && marker <= i
    ensures var v := val * 64 % TWO32;
            TokenFrom(t, i, val, marker) ==
            if t[i] == '=' then TokenFrom(t, i + 1, v, marker + 1)
            else if marker > 0 then DECODE_ERROR
            else TokenFrom(t, i + 1, (v + FirstIndex(t[i], 0)) % TWO32, marker)
  {
    hide BitOr, FirstIndex, Alphabet;
  }

  lemma TokenLast(t: string, val: nat, marker: nat)
    requires |t| >= 4 && val < TWO32 && marker <= 4
    ensures TokenFrom(t, 4, val, marker) == if marker > 2 then DECODE_ERROR else BitOr(marker * 0x100_0000, val)
  {
    hide BitOr, FirstIndex, Alphabet;
  }

  method TokenDecode(t: string) returns (r: nat)
    ensures r == Token(t)
    ensures r == DECODE_ERROR <==> BadToken(t)
    ensures !BadToken(t) ==> r == if Number(t) >= 0 then Pads(t) * 0x100_0000 + Number(t) else TWO32 + Number(t)
  {
    hide BitOr, FirstIndex, Alphabet, TokenFrom, Digit, CountsAsError, Number, Shaped, Pads;
    TokenErrorIff(t);
    if !BadToken(t) { TokenIs(t); }
    var i: nat, val: nat, marker: nat := 0, 0, 0;
    if |t| < 4 {
      return DECODE_ERROR;
    }
    while i < 4
      invariant 0 <= i <= 4 && val < TWO32 && marker <= i
      invariant Token(t) == TokenFrom(t, i, val, marker)
    {
      TokenTurn(t, i, val, marker);
      val := val * 64 % TWO32;
      if t[i] == '=' {
        marker := marker + 1;
      } else if marker > 0 {
        return DECODE_ERROR;
      } else {
        var p := Pos(t[i]);
        val := (val + p) % TWO32;
      }
      i := i + 1;
    }
    TokenLast(t, val, marker);
    if marker > 2 {
      return DECODE_ERROR;
    }
    return BitOr(marker * 0x100_0000, val);
  }

  // What a token means.

  /** Pads stand only at the end, and at most two of them. */
  predicate Shaped(t: string)
    requires |t| >= 4
  {
    t[0] != '=' && t[1] != '=' && (t[2] == '=' ==> t[3] == '=')
  }

  function Pads(t: string): (n: nat)
    requires |t| >= 4
    ensures n <= 2
  {
    if t[2] == '=' then 2 else if t[3] == '=' then 1 else 0
  }

  /** The digit a character stands for: a pad is 0, and a character outside the alphabet is -1. */
  ghost function Digit(c: char): (d: int)
    ensures -1 <= d < 64
    ensures d == -1 <==> c != '=' && c !in Alphabet()
  {
    DigitCases(c);
    if c == '=' then 0 else FirstIndex(c, 0)
  }

  /** The four digits as one number, which can be negative. */
  ghost function Number(t: string): (n: int)
    requires |t| >= 4
    ensures -0x100_0000 < n < 0x100_0000
  {
    262144 * Digit(t[0]) + 4096 * Digit(t[1]) + 64 * Digit(t[2]) + Digit(t[3])
  }

  lemma {:induction false} FirstIndexCases(c: char, i: nat)
    requires i <= 64
    ensures -1 <= FirstIndex(c, i) < 64 && (FirstIndex(c, i) == -1 <==> c !in Alphabet()[i..])
    decreases 64 - i
  {
    hide Alphabet;
    if i < 64 {
      FirstIndexCases(c, i + 1);
      assert Alphabet()[i..] == [Alphabet()[i]] + Alphabet()[i + 1..];
    } else {
      assert Alphabet()[64..] == [];
    }
  }

  lemma DigitCases(c: char)
    ensures -1 <= FirstIndex(c, 0) < 64 && (FirstIndex(c, 0) == -1 <==> c !in Alphabet())
  {
    hide Alphabet, FirstIndex;
    FirstIndexCases(c, 0);
    assert Alphabet()[0..] == Alphabet();
  }

  function Wrapped(n: int): (w: nat)
    ensures w < TWO32
  {
    n % TWO32
  }

  lemma WrapStep(n: int, d: int)
    requires -0x4_0000 < n < 0x4_0000 && -1 <= d < 64
    ensures (Wrapped(n) * 64 % TWO32 + d) % TWO32 == Wrapped(64 * n + d)
  {
    if n < 0 {
      assert Wrapped(n) * 64 == 63 * TWO32 + (64 * n + TWO32);
    }
  }

  lemma TokenStep(t: string, i: nat, n: int)
    requires |t| >= 4 && i < 4 && -0x4_0000 < n < 0x4_0000 && t[i] != '='
    ensures TokenFrom(t, i, Wrapped(n), 0) == TokenFrom(t, i + 1, Wrapped(64 * n + Digit(t[i])), 0)
  {
    hide BitOr, Alphabet, FirstIndex;
    WrapStep(n, Digit(t[i]));
  }

  lemma TokenPad(t: string, i: nat, n: int, marker: nat)
    requires |t| >= 4 && i < 4 && -0x4_0000 < n < 0x4_0000 && marker <= i && t[i] == '='
    ensures TokenFrom(t, i, Wrapped(n), marker) == TokenFrom(t, i + 1, Wrapped(64 * n), marker + 1)
  {
    hide BitOr, Alphabet, FirstIndex;
    WrapStep(n, 0);
  }

  lemma TokenEnd(t: string, n: int, marker: nat)
    requires |t| >= 4 && -0x100_0000 < n < 0x100_0000 && marker <= 2
    ensures TokenFrom(t, 4, Wrapped(n), marker) == if n >= 0 then marker * 0x100_0000 + n else TWO32 + n
  {
    hide BitOr, Alphabet, FirstIndex;
    BitOrMarker(marker, if n >= 0 then n else 0x100_0000 + n);
  }

  /** After two characters that are no pads. */
  lemma TokenOfTwo(t: string)
    requires |t| >= 4 && t[0] != '=' && t[1] != '='
    ensures Token(t) == TokenFrom(t, 2, Wrapped(64 * Digit(t[0]) + Digit(t[1])), 0)
  {
    hide TokenFrom, Digit, Wrapped, Alphabet;
    WrapNothing();
    TokenStep(t, 0, 0);
    TokenStep(t, 1, Digit(t[0]));
  }

  /** The last two characters. */
  lemma TokenOfRest(t: string, n: int)
    requires |t| >= 4 && -4096 < n < 4096 && (t[2] == '=' ==> t[3] == '=')
    ensures TokenFrom(t, 2, Wrapped(n), 0)
         == TokenFrom(t, 4, Wrapped(4096 * n + 64 * Digit(t[2]) + Digit(t[3])), Pads(t))
  {
    hide TokenFrom, Digit, Wrapped, Alphabet;
    PadIsZero();
    var m := 64 * n + Digit(t[2]);
    if t[2] == '=' { TokenPad(t, 2, n, 0); } else { TokenStep(t, 2, n); }
    if t[3] == '=' { TokenPad(t, 3, m, Pads(t) - 1); } else { TokenStep(t, 3, m); }
  }

  /** What token_decode computes for any four characters with the pads in place. */
  lemma TokenIs(t: string)
    requires |t| >= 4 && Shaped(t)
    ensures Token(t) == if Number(t) >= 0 then Pads(t) * 0x100_0000 + Number(t) else TWO32 + Number(t)
  {
    hide Token, TokenFrom, Digit, Wrapped, Pads, Alphabet;
    TokenOfTwo(t);
    TokenOfRest(t, 64 * Digit(t[0]) + Digit(t[1]));
    TokenEnd(t, Number(t), Pads(t));
  }

  lemma WrapNothing()
    ensures Wrapped(0) == 0
  {}

  lemma PadIsZero()
    ensures Digit('=') == 0
  {}

  /** Whatever follows a pad, the token is refused unless only pads follow and there are at most two. */
  lemma TokenAfterPad(t: string, i: nat, val: nat, marker: nat)
    requires |t| >= 4 && i <= 4 && val < TWO32 && 0 < marker <= i
    requires (exists k :: i <= k < 4 && t[k] != '=') || marker + (4 - i) > 2
    ensures TokenFrom(t, i, val, marker) == DECODE_ERROR
    decreases 4 - i
  {
    hide BitOr, FirstIndex, Alphabet;
    if i < 4 && t[i] == '=' { TokenAfterPad(t, i + 1, val * 64 % TWO32, marker + 1); }
  }

  lemma TokenMisshapen(t: string)
    requires |t| >= 4 && !Shaped(t)
    ensures Token(t) == DECODE_ERROR
  {
    hide Digit, Wrapped, Alphabet;
    if t[0] == '=' {
      assert Token(t) == TokenFrom(t, 1, 0, 1) by { hide BitOr, FirstIndex, Alphabet; }
      hide TokenFrom;
      TokenAfterPad(t, 1, 0, 1);
    } else if t[1] == '=' {
      hide TokenFrom;
      WrapNothing();
      TokenStep(t, 0, 0);
      TokenPad(t, 1, Digit(t[0]), 0);
      TokenAfterPad(t, 2, Wrapped(64 * Digit(t[0])), 1);
    } else {
      hide Token, TokenFrom;
      TokenOfTwo(t);
      var n := 64 * Digit(t[0]) + Digit(t[1]);
      TokenPad(t, 2, n, 0);
      assert t[3] != '=';
      TokenAfterPad(t, 3, Wrapped(64 * n), 1);
    }
  }

  /** Leading As, one character outside the alphabet, then slashes: four characters that count as -1. */
  predicate CountsAsError(t: string)
    requires |t| >= 4
  {
    exists k: nat :: k < 4 && MinusOneAt(t, k)
  }

  predicate MinusOneAt(t: string, k: nat)
    requires |t| >= 4 && k < 4
  {
    t[k] != '=' && t[k] !in Alphabet() && (forall i :: 0 <= i < k ==> t[i] == 'A') &&
      forall i :: k < i < 4 ==> t[i] == '/'
  }

  lemma DigitIs(c: char, d: nat)
    requires d < 64 && c != '='
    ensures Digit(c) == d <==> c == Alphabet()[d]
  {
    hide Alphabet;
    FirstIndexOfLetter(d, 0);
    if FirstIndex(c, 0) == d { FirstIndexFinds(c, 0); }
  }

  lemma {:induction false} FirstIndexFinds(c: char, i: nat)
    requires i <= 64 && FirstIndex(c, i) >= 0
    ensures FirstIndex(c, i) < 64 && Alphabet()[FirstIndex(c, i)] == c
    decreases 64 - i
  {
    hide Alphabet;
    if i < 64 && Alphabet()[i] != c { FirstIndexFinds(c, i + 1); }
  }

  lemma EndsOfAlphabet()
    ensures Alphabet()[0] == 'A' && Alphabet()[63] == '/'
  {
    AlphabetLetter(0);
    AlphabetLetter(63);
  }

  /** A number made of digits from -1 to 63 is -1 in four ways. */
  lemma MinusOneIff(d0: int, d1: int, d2: int, d3: int)
    requires -1 <= d0 < 64 && -1 <= d1 < 64 && -1 <= d2 < 64 && -1 <= d3 < 64
    ensures 262144 * d0 + 4096 * d1 + 64 * d2 + d3 == -1 <==>
            || (d0 == 0 && d1 == 0 && d2 == 0 && d3 == -1)
            || (d0 == 0 && d1 == 0 && d2 == -1 && d3 == 63)
            || (d0 == 0 && d1 == -1 && d2 == 63 && d3 == 63)
            || (d0 == -1 && d1 == 63 && d2 == 63 && d3 == 63)
  {}

  lemma AccidentIff(t: string)
    requires |t| >= 4 && Shaped(t)
    ensures CountsAsError(t) <==> Number(t) == -1
  {
    hide Alphabet, Digit;
    EndsOfAlphabet();
    PadIsZero();
    MinusOneIff(Digit(t[0]), Digit(t[1]), Digit(t[2]), Digit(t[3]));
    forall i | 0 <= i < 4 && t[i] != '='
      ensures (Digit(t[i]) == 0 <==> t[i] == 'A') && (Digit(t[i]) == 63 <==> t[i] == '/')
    {
      DigitIs(t[i], 0);
      DigitIs(t[i], 63);
    }
    AccidentByDigits(t);
  }

  lemma AccidentByDigits(t: string)
    requires |t| >= 4 && Shaped(t) && Digit('=') == 0
    requires forall i :: 0 <= i < 4 && t[i] != '=' ==>
               (Digit(t[i]) == 0 <==> t[i] == 'A') && (Digit(t[i]) == 63 <==> t[i] == '/')
    ensures CountsAsError(t) <==>
            || (Digit(t[0]) == 0 && Digit(t[1]) == 0 && Digit(t[2]) == 0 && Digit(t[3]) == -1)
            || (Digit(t[0]) == 0 && Digit(t[1]) == 0 && Digit(t[2]) == -1 && Digit(t[3]) == 63)
            || (Digit(t[0]) == 0 && Digit(t[1]) == -1 && Digit(t[2]) == 63 && Digit(t[3]) == 63)
            || (Digit(t[0]) == -1 && Digit(t[1]) == 63 && Digit(t[2]) == 63 && Digit(t[3]) == 63)
  {
    hide Alphabet, Digit;
    assert CountsAsError(t) <==> MinusOneAt(t, 0) || MinusOneAt(t, 1) || MinusOneAt(t, 2) || MinusOneAt(t, 3);
  }

  predicate BadToken(t: string) {
    |t| < 4 || !Shaped(t) || CountsAsError(t)
  }

  /** Exactly when token_decode reports an error: too short, pads out of place, or an accident of the digits. */
  lemma TokenErrorIff(t: string)
    ensures Token(t) == DECODE_ERROR <==> BadToken(t)
  {
    hide TokenFrom, Digit, CountsAsError, Alphabet;
    if |t| >= 4 {
      if Shaped(t) {
        TokenIs(t);
        AccidentIff(t);
      } else {
        TokenMisshapen(t);
      }
    }
  }

  /** A token of letters followed by pads decodes to its digits and the number of pads. */
  lemma TokenOfDigits(t: string, s0: nat, s1: nat, s2: nat, s3: nat, pads: nat)
    requires |t| >= 4 && pads <= 2 && s0 < 64 && s1 < 64 && s2 < 64 && s3 < 64
    requires t[0] == Alphabet()[s0] && t[1] == Alphabet()[s1]
    requires if pads == 2 then t[2] == '=' && s2 == 0 else t[2] == Alphabet()[s2]
    requires if pads >= 1 then t[3] == '=' && s3 == 0 else t[3] == Alphabet()[s3]
    ensures Token(t) == pads * 0x100_0000 + s0 * 262144 + s1 * 4096 + s2 * 64 + s3
  {
    hide Token, Alphabet, Digit;
    LetterIsNotPad(s0); LetterIsNotPad(s1); LetterIsNotPad(s2); LetterIsNotPad(s3);
    DigitIs(t[0], s0); DigitIs(t[1], s1);
    if pads < 2 { DigitIs(t[2], s2); }
    if pads < 1 { DigitIs(t[3], s3); }
    PadIsZero();
    TokenIs(t);
  }

  // ----- base64_decode -----

  function TokenBytes(val: nat): (b: seq<byte>)
    ensures 1 <= |b| <= 3
  {
    var marker := val / 0x100_0000 % 256;
    [val / 65536 % 256] + (if marker < 2 then [val / 256 % 256] else []) + (if marker < 1 then [val % 256] else [])
  }

  /** The loop condition of base64_decode on the rest of the text. */
  predicate Continues(s: string) {
    s != [] && (s[0] == '=' || s[0] in Alphabet())
  }

  ghost function Prepend(a: seq<byte>, r: Option<seq<byte>>): Option<seq<byte>> {
    match r
    case None => None
    case Some(b) => Some(a + b)
  }

  /** What base64_decode makes of any string: nothing on a bad token, else all bytes up to
      the end or to the first token that starts with a character outside the alphabet. */
  ghost function Decoded(s: string): Option<seq<byte>> {
    if !Continues(s) then Some([])
    else if Token(s) == DECODE_ERROR then None
    else Prepend(TokenBytes(Token(s)), Decoded(s[4..]))
  }

  /** The bytes of a token that starts with a letter. Characters outside the alphabet are not refused: they count
      as -1, and when they make the number negative only one byte is left. */
  lemma BytesOfToken(t: string)
    requires |t| >= 4 && Shaped(t) && t[0] in Alphabet()
    ensures var n := Number(t);
            TokenBytes(Token(t)) ==
            if n >= 0 then [n / 65536, n / 256 % 256, n % 256][..3 - Pads(t)] else [n / 65536 % 256]
  {
    hide Alphabet, Digit, Token;
    var n := Number(t);
    TokenIs(t);
    if n >= 0 {
      SplitNumber(n);
      Unpacked(Pads(t), n / 65536, n / 256 % 256, n % 256);
    } else {
      assert n > -262144;
      assert (TWO32 + n) / 65536 == 65536 + n / 65536;
      assert (TWO32 + n) / 0x100_0000 == 255;
    }
  }

  lemma SplitNumber(n: nat)
    requires n < 0x100_0000
    ensures n / 65536 < 256 && n == n / 65536 * 65536 + n / 256 % 256 * 256 + n % 256
  {
    assert n / 256 / 256 == n / 65536;
  }

  /** Token k of the text is read, and so are all before it. */
  predicate Reads(s: string, k: nat) {
    4 * k <= |s| && forall j: nat :: j < k ==> Fine(s, j)
  }

  predicate Fine(s: string, j: nat) {
    4 * j <= |s| && Continues(s[4 * j..]) && !BadToken(s[4 * j..])
  }

  predicate FailsAt(s: string, k: nat) {
    Reads(s, k) && Continues(s[4 * k..]) && BadToken(s[4 * k..])
  }

  /** Exactly which strings are refused: those with a bad token before anything that ends the loop. */
  lemma {:induction false} RefusedIff(s: string)
    ensures Decoded(s).None? <==> exists k: nat :: FailsAt(s, k)
  {
    hide Token, BadToken, TokenBytes, Continues;
    TokenErrorIff(s);
    assert s[0..] == s;
    if !Continues(s) || Token(s) == DECODE_ERROR {
      if Continues(s) { assert FailsAt(s, 0); } else { NeverFails(s); }
    } else {
      LongEnough(s);
      RefusedIff(s[4..]);
      forall j: nat ensures j > 0 ==> Fine(s, j) == Fine(s[4..], j - 1) { FineLater(s, j); }
      if k: nat :| FailsAt(s[4..], k) {
        FailsLater(s, k + 1);
      }
      if k: nat :| FailsAt(s, k) {
        assert k > 0;
        FailsLater(s, k);
      }
    }
  }

  lemma NeverFails(s: string)
    requires !Continues(s)
    ensures !exists k: nat :: FailsAt(s, k)
  {
    hide Continues, BadToken;
    assert s[0..] == s;
    if k: nat :| FailsAt(s, k) {
      assert k > 0 ==> Fine(s, 0);
    }
  }

  lemma LongEnough(s: string)
    requires Token(s) != DECODE_ERROR
    ensures |s| >= 4
  {}

  lemma FineLater(s: string, j: nat)
    requires |s| >= 4
    ensures j > 0 ==> Fine(s, j) == Fine(s[4..], j - 1)
  {
    hide Continues, BadToken;
    if j > 0 && 4 * j <= |s| { assert s[4..][4 * (j - 1)..] == s[4 * j..]; }
  }

  lemma FailsLater(s: string, k: nat)
    requires |s| >= 4 && k > 0 && Fine(s, 0)
    ensures FailsAt(s, k) == FailsAt(s[4..], k - 1)
  {
    hide Continues, BadToken, Fine;
    if 4 * k <= |s| { assert s[4..][4 * (k - 1)..] == s[4 * k..]; }
    forall j: nat ensures j > 0 ==> Fine(s, j) == Fine(s[4..], j - 1) { FineLater(s, j); }
    if Reads(s[4..], k - 1) {
      forall j: nat | j < k ensures Fine(s, j) { if j > 0 { assert Fine(s[4..], j - 1); } }
    }
    if Reads(s, k) {
      forall j: nat | j < k - 1 ensures Fine(s[4..], j) { assert Fine(s, j + 1); }
    }
  }

  /** A text with a character outside the alphabet that is accepted. */
  lemma ForeignAccepted()
    ensures '!' !in Alphabet() && Decoded("B!AA") == Some([3, 240, 0])
  {
    hide Token, TokenBytes, Alphabet, Digit;
    var t := "B!AA";
    SomeLetters();
    PadIsZero();
    DigitIs('B', 1);
    DigitIs('A', 0);
    assert Number(t) == 262144 - 4096;
    assert !BadToken(t) && Continues(t);
    BytesOfToken(t);
    assert [3, 240, 0][..3] == [3, 240, 0];
    TokenErrorIff(t);
    EndsAfter(t);
  }

  lemma SomeLetters()
    ensures Alphabet()[1] == 'B' && Alphabet()[0] == 'A' && '!' !in Alphabet()
  {
    AlphabetLetter(0);
    AlphabetLetter(1);
    forall d | 0 <= d < 64 ensures Alphabet()[d] != '!' { AlphabetLetter(d); }
  }

  /** A text of one good token. */
  lemma EndsAfter(t: string)
    requires |t| == 4 && Continues(t) && Token(t) != DECODE_ERROR
    ensures Decoded(t) == Some(TokenBytes(Token(t)))
  {
    hide Token, TokenBytes;
    assert t[4..] == [];
    assert TokenBytes(Token(t)) + [] == TokenBytes(Token(t));
  }

  /** base64_decode: the number of bytes written, or -1. */
  method Decode(str: string, data: array<byte>) returns (ret: int)
    requires data.Length >= |str| / 4 * 3
    modifies data
    ensures match Decoded(str)
            case None => ret == -1
            case Some(bytes) => ret == |bytes| <= data.Length && data[..ret] == bytes
    ensures ret == -1 <==> exists k: nat :: FailsAt(str, k)
  {
    hide Continues, TokenBytes, Token, BadToken, Number, Shaped, Pads, FailsAt;
    RefusedIff(str);
    var p, q := 0, 0;
    assert str[0..] == str;
    PrependNothing(Decoded(str));
    while Continues(str[p..])
      invariant 0 <= p <= |str| && 0 <= q <= p / 4 * 3 && p % 4 == 0
      invariant Decoded(str) == Prepend(data[..q], Decoded(str[p..]))
      decreases |str| - p
    {
      ghost var done := data[..q];
      var val := TokenDecode(str[p..]);
      if val == DECODE_ERROR {
        return -1;
      }
      LongEnough(str[p..]);
      assert str[p..][4..] == str[p + 4..];
      q := PutBytes(data, q, val);
      PrependTwice(done, TokenBytes(val), Decoded(str[p + 4..]));
      p := p + 4;
    }
    return q;
  }

  method PutBytes(data: array<byte>, at: nat, val: nat) returns (q: nat)
    requires at + 3 <= data.Length
    modifies data
    ensures at <= q <= at + 3 && data[..q] == old(data[..at]) + TokenBytes(val)
  {
    q := at;
    var marker := val / 0x100_0000 % 256;
    data[q] := val / 65536 % 256;
    q := q + 1;
    if marker < 2 {
      data[q] := val / 256 % 256;
      q := q + 1;
    }
    if marker < 1 {
      data[q] := val % 256;
      q := q + 1;
    }
  }

  lemma PrependNothing(r: Option<seq<byte>>)
    ensures Prepend([], r) == r
  {
    if r.Some? { assert [] + r.value == r.value; }
  }

  lemma PrependTwice(a: seq<byte>, b: seq<byte>, r: Option<seq<byte>>)
    ensures Prepend(a, Prepend(b, r)) == Prepend(a + b, r)
  {
    if r.Some? { assert a + (b + r.value) == a + b + r.value; }
  }

  // ----- round trip -----

  lemma SextetBeyond(data: seq<byte>, k: nat)
    requires 6 * k >= 8 * |data|
    ensures Sextet(data, k) == 0
  {
    hide Bit;
    BitsOfZero();
  }

  lemma BitsOfZero()
    ensures forall j: nat :: j < 8 ==> Bit(0, j) == 0
  {
    forall j: nat | j < 8 ensures Bit(0, j) == 0 { ShiftOfZero(7 - j); }
  }

  lemma {:induction false} ShiftOfZero(n: nat)
    ensures Shift(0, n) == 0
  {
    if n > 0 { ShiftOfZero(n - 1); }
  }

  lemma SextetShift(data: seq<byte>, k: nat)
    requires |data| >= 3
    ensures Sextet(data, k + 4) == Sextet(data[3..], k)
  {
    hide Bit;
    forall i: nat ensures BitAt(data, i + 24) == BitAt(data[3..], i) {}
    assert 6 * (k + 4) == 6 * k + 24;
  }

  /** The encoding of the data after its first group is the text after its first token. */
  lemma EncodedRest(data: seq<byte>)
    requires |data| >= 3
    ensures Encoded(data)[4..] == Encoded(data[3..])
  {
    hide Sextet, Alphabet;
    forall k: nat | k < EncodedLength(|data| - 3) ensures EncodedChar(data, k + 4) == EncodedChar(data[3..], k) {
      SextetShift(data, k);
    }
  }

  lemma FirstToken(data: seq<byte>)
    requires |data| > 0
    ensures Continues(Encoded(data))
    ensures Token(Encoded(data)) == (if |data| >= 3 then 0 else 3 - |data|) * 0x100_0000 + GroupValue(data, 0)
  {
    hide Sextet, GroupValue, Token, Alphabet;
    var t, pads := Encoded(data), if |data| >= 3 then 0 else 3 - |data|;
    if pads >= 1 { SextetBeyond(data, 3); }
    if pads >= 2 { SextetBeyond(data, 2); }
    TokenOfDigits(t, Sextet(data, 0), Sextet(data, 1), Sextet(data, 2), Sextet(data, 3), pads);
    SextetsOfGroup(data, 0);
  }

  lemma FirstBytes(data: seq<byte>)
    requires |data| > 0
    ensures TokenBytes((if |data| >= 3 then 0 else 3 - |data|) * 0x100_0000 + GroupValue(data, 0)) ==
            data[..if |data| >= 3 then 3 else |data|]
  {
    var b0: nat, b1: nat, b2: nat := ByteOr0(data, 0), ByteOr0(data, 1), ByteOr0(data, 2);
    var m := if |data| >= 3 then 0 else 3 - |data|;
    Unpacked(m, b0, b1, b2);
    assert GroupValue(data, 0) == b0 * 65536 + b1 * 256 + b2;
    hide GroupValue;
    if m == 0 {
      assert data[..3] == [b0, b1, b2];
    } else if m == 1 {
      assert data[..2] == [b0, b1];
    } else {
      assert data[..1] == [b0];
    }
  }

  lemma Unpacked(m: nat, b0: nat, b1: nat, b2: nat)
    requires m <= 2 && b0 < 256 && b1 < 256 && b2 < 256
    ensures TokenBytes(m * 0x100_0000 + (b0 * 65536 + b1 * 256 + b2)) == [b0, b1, b2][..3 - m]
  {
    var c := b0 * 65536 + b1 * 256 + b2;
    var val := m * 0x100_0000 + c;
    assert c < 0x100_0000;
    assert val / 0x100_0000 == m;
    assert val == 65536 * (256 * m + b0) + (b1 * 256 + b2) && 0 <= b1 * 256 + b2 < 65536;
    assert val / 65536 == 256 * m + b0;
    assert val == 256 * (65536 * m + b0 * 256 + b1) + b2;
    assert val / 256 == 65536 * m + b0 * 256 + b1;
  }

  /** Decoding the encoding of any byte string gives it back. */
  lemma {:induction false} RoundTrip(data: seq<byte>)
    ensures Decoded(Encoded(data)) == Some(data)
    decreases |data|
  {
    hide Token, TokenBytes, Encoded, Continues, GroupValue;
    if data == [] {
      EncodedEmpty();
    } else {
      var t, rest := Encoded(data), if |data| >= 3 then data[3..] else [];
      FirstToken(data);
      FirstBytes(data);
      if |data| >= 3 { EncodedRest(data); } else { EncodedEmpty(); assert t[4..] == []; }
      RoundTrip(rest);
      assert data == data[..if |data| >= 3 then 3 else |data|] + rest;
    }
  }

  lemma EncodedEmpty()
    ensures Encoded([]) == [] && !Continues([])
  {}
}
