/** The message collector of jni/openssl/crypto/md32_common.h around an arbitrary block
    function: whatever way a message is split over HASH_UPDATE calls, HASH_FINAL feeds the
    block function exactly the padded message. */
module HashCollector {

  import opened Basics

  const TWO29 := 0x2000_0000
  const TWO32 := 0x1_0000_0000
  const TWO64 := 0x1_0000_0000_0000_0000

  // ----- division by the block size -----

  lemma DivModUnique(x: int, q: int, r: int, k: int)
    requires k > 0 && x == q * k + r && 0 <= r < k
    ensures x / k == q && x % k == r
  {
    var q' := x / k;
    assert x == q' * k + x % k;
    if q > q' { MulAtLeast(q, q', k); } else if q < q' { MulAtLeast(q', q, k); }
  }

  lemma BlockBounds(x: nat, k: nat)
    requires k > 0
    ensures 0 <= x / k * k <= x && x - x / k * k < k
    ensures x / k == 0 ==> x < k
  {
    assert x == x / k * k + x % k;
  }

  // ----- the padded message -----

  function Zeros(n: nat): (z: seq<byte>)
    ensures |z| == n && forall i :: 0 <= i < n ==> z[i] == 0
  {
    seq(n, _ => 0)
  }

  /** A 32-bit word as bytes, HOST_l2c. */
  function WordBytes(l: nat, bigEndian: bool): (b: seq<byte>)
    requires l < TWO32
    ensures |b| == 4
  {
    var b0, b1, b2, b3 := l / 0x100_0000 % 256, l / 0x1_0000 % 256, l / 0x100 % 256, l % 256;
    if bigEndian then [b0, b1, b2, b3] else [b3, b2, b1, b0]
  }

  /** A 64-bit count as bytes: high word first exactly when the byte order is big-endian. */
  function CountBytes(n: nat, bigEndian: bool): (b: seq<byte>)
    requires n < TWO64
    ensures |b| == 8
  {
    var hi, lo := WordBytes(n / TWO32, bigEndian), WordBytes(n % TWO32, bigEndian);
    if bigEndian then hi + lo else lo + hi
  }

  /** The least number of zero bytes after which marker, zeros and count end a block. */
  function PadLength(len: nat, cblock: nat): (k: nat)
    requires cblock >= 8
    ensures k < cblock && (len + 1 + k + 8) % cblock == 0
  {
    var q, r := (len + 9) / cblock, (len + 9) % cblock;
    assert len + 9 == q * cblock + r;
    if r == 0 then 0
    else
      assert len + 9 + (cblock - r) == (q + 1) * cblock + 0;
      DivModUnique(len + 9 + (cblock - r), q + 1, 0, cblock);
      cblock - r
  }

  /** Section 5.1.1 of FIPS 180-4 and sections 3.1 and 3.2 of RFC 1321. */
  function Padded(m: seq<byte>, cblock: nat, bigEndian: bool): (p: seq<byte>)
    requires cblock >= 8
    ensures |p| % cblock == 0
  {
    m + [0x80] + Zeros(PadLength(|m|, cblock)) + CountBytes(8 * |m| % TWO64, bigEndian)
  }

  /** Eight bytes as a number, the first weighing 256^7. */
  function BigEndian(b: seq<int>): int
    requires |b| == 8
  {
    b[0] * 0x100_0000_0000_0000 + b[1] * 0x1_0000_0000_0000 + b[2] * 0x100_0000_0000 + b[3] * 0x1_0000_0000 +
    b[4] * 0x100_0000 + b[5] * 0x1_0000 + b[6] * 0x100 + b[7]
  }

  /** Eight bytes as a number, the last weighing 256^7. */
  function LittleEndian(b: seq<int>): int
    requires |b| == 8
  {
    b[0] + b[1] * 0x100 + b[2] * 0x1_0000 + b[3] * 0x100_0000 +
    b[4] * 0x1_0000_0000 + b[5] * 0x100_0000_0000 + b[6] * 0x1_0000_0000_0000 + b[7] * 0x100_0000_0000_0000
  }

  lemma FourBytes(l: int)
    requires 0 <= l < TWO32
    ensures l / 0x100_0000 % 256 * 0x100_0000 + l / 0x1_0000 % 256 * 0x1_0000 + l / 0x100 % 256 * 0x100 + l % 256 == l
  {
    assert l / 0x1_0000 == l / 0x100 / 256 && l / 0x100_0000 == l / 0x1_0000 / 256;
  }

  /** Both byte orders write the count itself, one from the front and one from the back. */
  lemma CountValue(n: nat)
    requires n < TWO64
    ensures BigEndian(CountBytes(n, true)) == n && LittleEndian(CountBytes(n, false)) == n
  {
    FourBytes(n / TWO32);
    FourBytes(n % TWO32);
  }

  /** What padding is, byte by byte: the message, one byte 0x80, fewer zeros than a block, and the
      number of bits modulo 2^64 in eight bytes of the digest's byte order. */
  lemma PaddedBytes(m: seq<byte>, cblock: nat, bigEndian: bool)
    requires cblock >= 8
    ensures var p := Padded(m, cblock, bigEndian);
            var c := |p| - 8;
            |p| % cblock == 0 && |m| + 1 <= c < |m| + 1 + cblock &&
            p[..|m|] == m && p[|m|] == 0x80 && (forall i :: |m| < i < c ==> p[i] == 0) &&
            (if bigEndian then BigEndian(p[c..]) else LittleEndian(p[c..])) == 8 * |m| % TWO64
  {
    hide CountBytes, PadLength, BigEndian, LittleEndian;
    var p := Padded(m, cblock, bigEndian);
    assert p[|p| - 8..] == CountBytes(8 * |m| % TWO64, bigEndian);
    CountValue(8 * |m| % TWO64);
  }

  /** PadLength for a message of n whole blocks and num more bytes. */
  lemma PadLengthCases(len: nat, n: nat, num: nat, cblock: nat)
    requires cblock >= 8 && len == n * cblock + num && num < cblock
    ensures PadLength(len, cblock) == if num + 9 <= cblock then cblock - num - 9 else 2 * cblock - num - 9
  {
    hide PadLength;
    var k := if num + 9 <= cblock then cblock - num - 9 else 2 * cblock - num - 9;
    var k' := PadLength(len, cblock);
    var b := if num + 9 <= cblock then n + 1 else n + 2;
    assert b * cblock == n * cblock + (if num + 9 <= cblock then cblock else 2 * cblock);
    var b' := (len + 9 + k') / cblock;
    Divides(len + 9 + k', cblock);
    SameMultiple(len + 9, k, k', b, b', cblock);
  }

  lemma Divides(x: nat, c: nat)
    requires c > 0 && x % c == 0
    ensures x == x / c * c
  {}

  lemma SameMultiple(base: nat, k: nat, k': nat, b: nat, b': nat, c: nat)
    requires base + k == b * c && base + k' == b' * c && k < c && k' < c
    ensures k == k'
  {
    if b > b' { MulAtLeast(b, b', c); } else if b < b' { MulAtLeast(b', b, c); }
  }

  // ----- feeding blocks -----

  /** The state after the block function has seen all whole blocks of bytes, in order. */
  function Fold<H>(f: (H, seq<byte>) -> H, h: H, bytes: seq<byte>, cblock: nat): H
    requires cblock > 0
  {
    if |bytes| < cblock then h else Fold(f, f(h, bytes[..cblock]), bytes[cblock..], cblock)
  }

  lemma {:induction false} FoldAppend<H>(f: (H, seq<byte>) -> H, h: H, a: seq<byte>, b: seq<byte>, cblock: nat, n: nat)
    requires cblock > 0 && |a| == n * cblock
    ensures Fold(f, h, a + b, cblock) == Fold(f, Fold(f, h, a, cblock), b, cblock)
    decreases n
  {
    if n == 0 {
      assert a + b == b;
    } else {
      MulAtLeast(n, 0, cblock);
      assert (n - 1) * cblock == n * cblock - cblock;
      assert (a + b)[..cblock] == a[..cblock] && (a + b)[cblock..] == a[cblock..] + b;
      FoldAppend(f, f(h, a[..cblock]), a[cblock..], b, cblock, n - 1);
    }
  }

  function Concat(chunks: seq<seq<byte>>): seq<byte> {
    if chunks == [] then [] else Concat(chunks[..|chunks| - 1]) + chunks[|chunks| - 1]
  }

  lemma {:induction false} ConcatLength(blocks: seq<seq<byte>>, cblock: nat)
    requires forall i :: 0 <= i < |blocks| ==> |blocks[i]| == cblock
    ensures |Concat(blocks)| == |blocks| * cblock
  {
    if blocks != [] {
      ConcatLength(blocks[..|blocks| - 1], cblock);
      assert |blocks| * cblock == (|blocks| - 1) * cblock + cblock;
    }
  }

  /** Fold is the end of the chain of states that the blocks make one after another. */
  lemma {:induction false} FoldChain<H>(f: (H, seq<byte>) -> H, blocks: seq<seq<byte>>, rest: seq<byte>, cblock: nat,
                                        states: seq<H>)
    requires cblock > 0 && |states| == |blocks| + 1 && |rest| < cblock
    requires forall i :: 0 <= i < |blocks| ==> |blocks[i]| == cblock && states[i + 1] == f(states[i], blocks[i])
    ensures Fold(f, states[0], Concat(blocks) + rest, cblock) == states[|blocks|]
  {
    var n := |blocks| - 1;
    if n < 0 {
      assert Concat(blocks) + rest == rest;
    } else {
      var init, last := Concat(blocks[..n]), blocks[n];
      ConcatLength(blocks[..n], cblock);
      FoldChain(f, blocks[..n], [], cblock, states[..n + 1]);
      assert init + [] == init;
      FoldAppend(f, states[0], init, last + rest, cblock, n);
      assert Concat(blocks) + rest == init + (last + rest);
      assert (last + rest)[..cblock] == last && (last + rest)[cblock..] == rest;
    }
  }

  // ----- the split bit count -----

  lemma ShiftedLength(len: nat)
    ensures 8 * (len % TWO32) % TWO32 == 8 * (len % TWO29)
    ensures 8 * len == len / TWO29 * TWO32 + 8 * (len % TWO29)
  {}

  lemma Carry(nl: nat, r: nat, l: nat)
    requires nl < TWO32 && r < TWO29 && l == (nl + 8 * r) % TWO32
    ensures nl + 8 * r == (if l < nl then TWO32 else 0) + l
  {}

  lemma Mod64(n: nat, l: nat)
    requires l < TWO32
    ensures (n * TWO32 + l) % TWO64 == n % TWO32 * TWO32 + l
  {}

  lemma AddMod64(a: nat, b: nat)
    ensures (a % TWO64 + b) % TWO64 == (a + b) % TWO64
  {}

  /** The additions of HASH_UPDATE keep Nh:Nl equal to the bit count modulo 2^64. */
  lemma BitCount(nl: nat, nh: nat, total: nat, len: nat, l: nat, carry: nat, nh': nat)
    requires nl < TWO32 && nh < TWO32 && nh * TWO32 + nl == 8 * total % TWO64
    requires l == (nl + 8 * (len % TWO32) % TWO32) % TWO32
    requires carry == if l < nl then 1 else 0
    requires nh' == ((nh + carry) % TWO32 + len / TWO29) % TWO32
    ensures nh' * TWO32 + l == 8 * (total + len) % TWO64
  {
    ShiftedLength(len);
    Carry(nl, len % TWO29, l);
    var n := nh + carry + len / TWO29;
    assert nh' == n % TWO32 by { Mod32(nh + carry, len / TWO29); }
    assert nh * TWO32 + nl + 8 * len == n * TWO32 + l;
    Mod64(n, l);
    AddMod64(8 * total, 8 * len);
  }

  lemma Mod32(a: nat, b: nat)
    ensures (a % TWO32 + b) % TWO32 == (a + b) % TWO32
  {}

  // ----- the collector -----

  /** HASH_CTX with the chaining state h of the digest and its block function. */
  class Collector<H> {
    const block: (H, seq<byte>) -> H
    const cblock: nat
    const bigEndian: bool
    const data: array<byte>
    var h: H
    var Nl: nat
    var Nh: nat
    var num: nat
    ghost var h0: H           // the initial chaining state
    ghost var msg: seq<byte>  // all input since then
    ghost var fed: seq<byte>  // the part of it given to the block function
    ghost var blocks: nat     // and its number of blocks

    /** The buffer and the chaining state reflect all of msg; unused buffer bytes are zero. */
    ghost predicate Collected()
      reads this`h, this`num, this`h0, this`msg, this`fed, this`blocks, data
    {
      data.Length == cblock && cblock >= 8 && num < cblock &&
      msg == fed + data[..num] &&
      data[num..] == Zeros(cblock - num) &&
      |fed| == blocks * cblock && h == Fold(block, h0, fed, cblock)
    }

    /** Nh:Nl is the number of bits in n bytes, modulo 2^64. */
    ghost predicate Counted(n: nat)
      reads this`Nl, this`Nh
    {
      Nl < TWO32 && Nh < TWO32 && Nh * TWO32 + Nl == 8 * n % TWO64
    }

    ghost predicate Valid()
      reads this, data
    {
      Collected() && Counted(|msg|)
    }

    constructor (block: (H, seq<byte>) -> H, h: H, cblock: nat, bigEndian: bool)
      requires cblock >= 8
      ensures Valid() && msg == [] && h0 == h && fresh(data)
      ensures this.block == block && this.cblock == cblock && this.bigEndian == bigEndian
    {
      this.block, this.cblock, this.bigEndian := block, cblock, bigEndian;
      data := new byte[cblock](_ => 0);
      this.h, h0, Nl, Nh, num, msg, fed, blocks := h, h, 0, 0, 0, [], [], 0;
    }

    /** HASH_UPDATE */
    method Update(input: seq<byte>) returns (ret: int)
      requires Valid()
      modifies this, data
      ensures Valid() && ret == 1 && h0 == old(h0)
      ensures msg == old(msg) + input
    {
      hide Counted, Fold;
      if |input| == 0 {
        return 1;
      }
      AddLength(|input|);
      UpdateBlocks(input);
      return 1;
    }

    /** HASH_UPDATE after the count: completes the buffered block, feeds whole blocks, keeps the rest. */
    method UpdateBlocks(input: seq<byte>)
      requires Collected()
      modifies this`h, this`num, this`msg, this`fed, this`blocks, data
      ensures Collected() && msg == old(msg) + input
    {
      assert cblock >= 8 && num < cblock;
      hide Collected;
      var at := 0;
      if num != 0 {
        if num + |input| >= cblock {
          at := cblock - num;
          CompleteBlock(input[..at]);
        } else {
          AppendPartial(input);
          return;
        }
      }
      UpdateRest(input, at, old(msg));
    }

    /** The input from `at` on, when the buffer is empty. */
    method UpdateRest(input: seq<byte>, at: nat, ghost before: seq<byte>)
      requires Collected() && cblock >= 8 && at <= |input| && num == 0 && msg == before + input[..at]
      modifies this`h, this`num, this`msg, this`fed, this`blocks, data
      ensures Collected() && msg == before + input
    {
      hide Collected;
      var n := (|input| - at) / cblock;
      BlockBounds(|input| - at, cblock);
      var next := at + n * cblock;
      ExtendPrefix(before, input, at, next);
      ExtendPrefix(before, input, next, |input|);
      if n > 0 {
        FeedWhole(input[at..next], n);
      }
      if next != |input| {
        AppendPartial(input[next..]);
      }
    }

    method AddLength(len: nat)
      requires Counted(|msg|)
      modifies this`Nl, this`Nh
      ensures Counted(|msg| + len)
    {
      var l := (Nl + 8 * (len % TWO32) % TWO32) % TWO32;
      ghost var nl, nh := Nl, Nh;
      if l < Nl {
        Nh := (Nh + 1) % TWO32;
      }
      Nh := (Nh + len / TWO29) % TWO32;
      Nl := l;
      BitCount(nl, nh, |msg|, len, l, if l < nl then 1 else 0, Nh);
    }

    /** Gives one block to the block function. */
    method Feed(b: seq<byte>)
      requires cblock > 0 && |b| == cblock && |fed| == blocks * cblock && h == Fold(block, h0, fed, cblock)
      modifies this`h, this`fed, this`blocks
      ensures fed == old(fed) + b && |fed| == blocks * cblock && h == Fold(block, h0, fed, cblock)
    {
      FoldAppend(block, h0, fed, b, cblock, blocks);
      assert b[..cblock] == b && b[cblock..] == [];
      h := block(h, b);
      assert (blocks + 1) * cblock == blocks * cblock + cblock;
      fed, blocks := fed + b, blocks + 1;
    }

    /** Fills the buffer to a whole block, feeds it and clears it. */
    method CompleteBlock(piece: seq<byte>)
      requires Collected() && num + |piece| == cblock
      modifies this`h, this`num, this`msg, this`fed, this`blocks, data
      ensures Collected() && num == 0 && msg == old(msg) + piece
    {
      hide Fold;
      ghost var kept := data[..num];
      CopyIn(data, num, piece);
      ghost var whole := data[..];
      assert whole == kept + piece;
      assert msg + piece == fed + whole;
      Feed(data[..]);
      num := 0;
      Clear(data, 0, cblock);
      msg := msg + piece;
      assert data[..0] == [] && data[0..] == data[..] == Zeros(cblock);
    }

    /** Keeps a piece that does not complete the block. */
    method AppendPartial(piece: seq<byte>)
      requires Collected() && num + |piece| < cblock
      modifies this`num, this`msg, data
      ensures Collected() && msg == old(msg) + piece
    {
      hide Fold;
      CopyIn(data, num, piece);
      num := num + |piece|;
      msg := msg + piece;
    }

    /** Feeds n blocks straight from the input. */
    method FeedWhole(piece: seq<byte>, n: nat)
      requires Collected() && num == 0 && |piece| == n * cblock
      modifies this`h, this`msg, this`fed, this`blocks
      ensures Collected() && num == 0 && msg == old(msg) + piece
    {
      FoldAppend(block, h0, fed, piece, cblock, blocks);
      h := Fold(block, h, piece, cblock);
      assert (blocks + n) * cblock == blocks * cblock + n * cblock;
      msg, fed, blocks := msg + piece, fed + piece, blocks + n;
    }

    /** HASH_FINAL: the digest state is that of the padded message. */
    method Final() returns (ret: int, digest: H)
      requires Valid()
      modifies this`h, this`num, this`fed, this`blocks, data
      ensures ret == 1 && digest == h == Fold(block, h0, Padded(msg, cblock, bigEndian), cblock)
      ensures num == 0 && data[..] == Zeros(cblock)
    {
      hide Fold, Padded, PadLength, CountBytes;
      PadLengthCases(|msg|, blocks, num, cblock);
      var n := PutMarker();
      ghost var tail := data[..n];
      Clear(data, n, cblock - 8);
      PutCount();
      PaddedParts(msg, fed, tail, data[..], cblock, bigEndian, n, num);
      Feed(data[..]);
      num := 0;
      Clear(data, 0, cblock);
      return 1, h;
    }

    /** Puts the marker byte; when the count no longer fits, closes this block and starts another. */
    method PutMarker() returns (n: nat)
      requires Collected()
      modifies this`h, this`fed, this`blocks, data
      ensures |fed| == blocks * cblock && h == Fold(block, h0, fed, cblock)
      ensures n <= cblock - 8
      ensures if num + 9 <= cblock then n == num + 1 && fed + data[..n] == msg + [0x80]
              else n == 0 && fed == msg + [0x80] + Zeros(cblock - num - 1)
    {
      hide Fold, Zeros;
      n := num;
      ghost var before := data[..];
      data[n] := 0x80;
      n := n + 1;
      ghost var marked := data[..];
      assert marked == before[num := 0x80];
      MarkerFits(msg, fed, before, num);
      if n > cblock - 8 {
        Clear(data, n, cblock);
        n := 0;
        MarkerCloses(msg, fed, before, num, Zeros(cblock - num - 1));
        Feed(data[..]);
      }
    }

    /** Writes the bit count into the last eight bytes. */
    method PutCount()
      requires data.Length == cblock >= 8 && Counted(|msg|)
      modifies data
      ensures data[..] == old(data[..cblock - 8]) + CountBytes(8 * |msg| % TWO64, bigEndian)
    {
      hide WordBytes;
      ghost var before := data[..];
      var hi, lo := WordBytes(Nh, bigEndian), WordBytes(Nl, bigEndian);
      if bigEndian {
        CopyIn(data, cblock - 8, hi);
        CopyIn(data, cblock - 4, lo);
        TwoWords(before, cblock, hi, lo);
      } else {
        CopyIn(data, cblock - 8, lo);
        CopyIn(data, cblock - 4, hi);
        TwoWords(before, cblock, lo, hi);
      }
    }
  }

  /** Writing one word after the other writes both. */
  lemma TwoWords(before: seq<byte>, cblock: nat, first: seq<byte>, second: seq<byte>)
    requires |before| == cblock >= 8 && |first| == |second| == 4
    ensures var once := before[..cblock - 8] + first + before[cblock - 4..];
            once[..cblock - 4] + second + once[cblock..] == before[..cblock - 8] + (first + second)
  {
    var once := before[..cblock - 8] + first + before[cblock - 4..];
    assert once[..cblock - 4] == before[..cblock - 8] + first;
    assert once[cblock..] == [];
  }

  lemma MarkerFits(msg: seq<byte>, fed: seq<byte>, before: seq<byte>, num: nat)
    requires num < |before| && msg == fed + before[..num]
    ensures fed + before[num := 0x80][..num + 1] == msg + [0x80]
  {
    assert before[num := 0x80][..num + 1] == before[..num] + [0x80];
  }

  lemma MarkerCloses(msg: seq<byte>, fed: seq<byte>, before: seq<byte>, num: nat, rest: seq<byte>)
    requires num < |before| && msg == fed + before[..num]
    ensures fed + (before[num := 0x80][..num + 1] + rest + before[num := 0x80][|before|..]) == msg + [0x80] + rest
  {
    assert before[num := 0x80][..num + 1] == before[..num] + [0x80];
    assert before[num := 0x80][|before|..] == [];
  }

  lemma ZerosAppend(a: nat, b: nat)
    ensures Zeros(a) + Zeros(b) == Zeros(a + b)
  {}

  /** The two layouts HASH_FINAL can produce are both the padded message. */
  lemma PaddedParts(msg: seq<byte>, fed: seq<byte>, tail: seq<byte>, last: seq<byte>, cblock: nat, bigEndian: bool,
                    n: nat, num: nat)
    requires cblock >= 8 && n <= cblock - 8 && |tail| == n && num < cblock
    requires last == tail + Zeros(cblock - 8 - n) + CountBytes(8 * |msg| % TWO64, bigEndian)
    requires PadLength(|msg|, cblock) == if num + 9 <= cblock then cblock - num - 9 else 2 * cblock - num - 9
    requires if num + 9 <= cblock then n == num + 1 && fed + tail == msg + [0x80]
             else n == 0 && fed == msg + [0x80] + Zeros(cblock - num - 1)
    ensures fed + last == Padded(msg, cblock, bigEndian)
  {
    hide CountBytes;
    var count := CountBytes(8 * |msg| % TWO64, bigEndian);
    if num + 9 <= cblock {
      assert fed + last == (fed + tail) + Zeros(cblock - 8 - n) + count;
    } else {
      ZerosAppend(cblock - num - 1, cblock - 8);
      assert fed + last == msg + [0x80] + (Zeros(cblock - num - 1) + Zeros(cblock - 8)) + count;
    }
  }

  lemma ExtendPrefix(a: seq<byte>, s: seq<byte>, i: nat, j: nat)
    requires i <= j <= |s|
    ensures a + s[..i] + s[i..j] == a + s[..j]
    ensures s[..|s|] == s && s[j..] == s[j..|s|]
  {
    assert s[..i] + s[i..j] == s[..j];
  }

  /** memcpy */
  method CopyIn(to: array<byte>, at: nat, from: seq<byte>)
    requires at + |from| <= to.Length
    modifies to
    ensures to[..] == old(to[..at]) + from + old(to[at + |from|..])
  {
    var i := 0;
    while i < |from|
      invariant 0 <= i <= |from|
      invariant forall k :: 0 <= k < to.Length ==> to[k] == if at <= k < at + i then from[k - at] else old(to[k])
    {
      to[at + i] := from[i];
      i := i + 1;
    }
  }

  /** memset to zero */
  method Clear(to: array<byte>, lo: nat, hi: nat)
    requires lo <= hi <= to.Length
    modifies to
    ensures to[..] == old(to[..lo]) + Zeros(hi - lo) + old(to[hi..])
  {
    var i := lo;
    while i < hi
      invariant lo <= i <= hi
      invariant forall k :: 0 <= k < to.Length ==> to[k] == if lo <= k < i then 0 else old(to[k])
    {
      to[i] := 0;
      i := i + 1;
    }
  }

  /** However a message is cut into chunks, the digest is the one-shot digest of the whole. */
  method DigestInChunks<H>(block: (H, seq<byte>) -> H, iv: H, cblock: nat, bigEndian: bool, chunks: seq<seq<byte>>)
    returns (digest: H)
    requires cblock >= 8
    ensures digest == Fold(block, iv, Padded(Concat(chunks), cblock, bigEndian), cblock)
  {
    var c := new Collector(block, iv, cblock, bigEndian);
    var i := 0;
    while i < |chunks|
      invariant 0 <= i <= |chunks|
      invariant c.Valid() && c.h0 == iv && fresh(c) && fresh(c.data)
      invariant c.msg == Concat(chunks[..i])
    {
      var _ := c.Update(chunks[i]);
      assert chunks[..i + 1][..i] == chunks[..i];
      i := i + 1;
    }
    assert chunks[..|chunks|] == chunks;
    var _, d := c.Final();
    digest := d;
  }
}
