/** bits_write of jni/raop_play/audio_stream.h: bit fields appended to a byte buffer, most
    significant bit first. */
module BitWriter {

  /** Bit j of a byte, most significant first. */
  function Nth(b: bv8, j: nat): bool
    requires j < 8
  {
    if j == 0 then b & 0x80 != 0 else if j == 1 then b & 0x40 != 0 else if j == 2 then b & 0x20 != 0
    else if j == 3 then b & 0x10 != 0 else if j == 4 then b & 0x08 != 0 else if j == 5 then b & 0x04 != 0
    else if j == 6 then b & 0x02 != 0 else b & 0x01 != 0
  }

  function Shl(b: bv8, n: nat): bv8 {
    if n == 0 then b else Shl(b, n - 1) << 1
  }

  function Shr(b: bv8, n: nat): bv8 {
    if n == 0 then b else Shr(b, n - 1) >> 1
  }

  /** The shifts are those of the machine. */
  lemma ShiftsAreNative(b: bv8, n: nat)
    requires n <= 8
    ensures Shl(b, n) == b << n && Shr(b, n) == b >> n
  {
    if n == 0 {} else if n == 1 {} else if n == 2 { ShiftsAreNative(b, 1); } else if n == 3 { ShiftsAreNative(b, 2); }
    else if n == 4 { ShiftsAreNative(b, 3); } else if n == 5 { ShiftsAreNative(b, 4); }
    else if n == 6 { ShiftsAreNative(b, 5); } else if n == 7 { ShiftsAreNative(b, 6); } else { ShiftsAreNative(b, 7); }
  }

  lemma NthOr(x: bv8, y: bv8, j: nat)
    requires j < 8
    ensures Nth(x | y, j) == (Nth(x, j) || Nth(y, j))
  {
    if j == 0 {} else if j == 1 {} else if j == 2 {} else if j == 3 {}
    else if j == 4 {} else if j == 5 {} else if j == 6 {} else {}
  }

  lemma NthShiftOne(x: bv8, j: nat)
    requires j < 8
    ensures Nth(x << 1, j) == (j + 1 < 8 && Nth(x, j + 1))
    ensures Nth(x >> 1, j) == (j > 0 && Nth(x, j - 1))
  {
    if j == 0 {} else if j == 1 {} else if j == 2 {} else if j == 3 {}
    else if j == 4 {} else if j == 5 {} else if j == 6 {} else {}
  }

  lemma {:induction false} NthShl(x: bv8, n: nat, j: nat)
    requires j < 8
    ensures Nth(Shl(x, n), j) == (j + n < 8 && Nth(x, j + n))
    decreases n
  {
    hide Nth;
    if n > 0 {
      NthShiftOne(Shl(x, n - 1), j);
      if j + 1 < 8 { NthShl(x, n - 1, j + 1); }
    }
  }

  lemma {:induction false} NthShr(x: bv8, n: nat, j: nat)
    requires j < 8
    ensures Nth(Shr(x, n), j) == (j >= n && Nth(x, j - n))
    decreases n
  {
    hide Nth;
    if n > 0 {
      NthShiftOne(Shr(x, n - 1), j);
      if j > 0 { NthShr(x, n - 1, j - 1); }
    }
  }

  lemma NthZero(j: nat)
    requires j < 8
    ensures !Nth(0, j)
  {}

  /** Bit i of a byte string. */
  function BitOf(bytes: seq<bv8>, i: nat): bool
    requires i < 8 * |bytes|
  {
    Nth(bytes[i / 8], i % 8)
  }

  /** The first n bits of a byte string. */
  function Bits(bytes: seq<bv8>, n: nat): (s: seq<bool>)
    requires n <= 8 * |bytes|
    ensures |s| == n
  {
    seq(n, i requires 0 <= i < n => BitOf(bytes, i))
  }

  /** The blen low bits of d, most significant first. */
  function Field(d: bv8, blen: nat): (s: seq<bool>)
    requires blen <= 8
    ensures |s| == blen
  {
    seq(blen, i requires 0 <= i < blen => Nth(d, 8 - blen + i))
  }

  /** d has no bit above its low blen bits: d < 2^blen. */
  predicate Fits(d: bv8, blen: nat) {
    Shr(d, blen) == 0
  }

  lemma FitsHighBits(d: bv8, blen: nat, j: nat)
    requires blen <= 8 && Fits(d, blen) && j < 8 - blen
    ensures !Nth(d, j)
  {
    hide Nth;
    NthShr(d, blen, j + blen);
    NthZero(j + blen);
  }

  /** The byte pointer and bit position bits_write moves; position 8 means the byte is full. */
  class Writer {
    const buf: array<bv8>
    var p: nat
    var bpos: nat

    constructor (buf: array<bv8>)
      requires buf.Length > 0
      ensures this.buf == buf && Valid() && Written() == 0
    {
      this.buf := buf;
      p, bpos := 0, 0;
    }

    /** Bits below the position in a started byte are still zero. */
    ghost predicate Valid()
      reads this, buf
    {
      p < buf.Length && bpos <= 8 && (bpos > 0 ==> ZeroFrom(buf[p], bpos))
    }

    /** How many bits have been written. */
    ghost function Written(): nat
      reads this
    {
      8 * p + bpos
    }

    /** Everything written so far. */
    ghost function Content(): (s: seq<bool>)
      requires Valid()
      reads this, buf
      ensures |s| == Written()
    {
      Bits(buf[..], Written())
    }

    /** bits_write: appends the field and nothing else. */
    method Write(d: bv8, blen: nat)
      requires Valid() && 1 <= blen <= 8 && Fits(d, blen)
      requires Written() + blen <= 8 * buf.Length
      modifies this, buf
      ensures Valid() && Written() == old(Written()) + blen
      ensures Content() == old(Content()) + Field(d, blen)
      ensures forall i :: p < i < buf.Length ==> buf[i] == old(buf[i])
    {
      hide Nth, Shl, Shr, Fits, Bits, Field, ZeroFrom;
      ghost var before := buf[..];
      var lb := 7 - bpos;
      var rb := lb - blen + 1;
      if rb >= 0 {
        var bd := Shl(d, rb);
        if bpos != 0 {
          buf[p] := buf[p] | bd;
        } else {
          buf[p] := bd;
        }
        AppendedLow(before, p, bpos, d, blen);
        assert buf[..] == before[p := buf[p]];
        bpos := bpos + blen;
      } else {
        var bd := Shr(d, -rb);
        buf[p] := buf[p] | bd;
        p := p + 1;
        buf[p] := Shl(d, 8 + rb);
        AppendedSplit(before, p - 1, bpos, d, blen);
        assert buf[..] == before[p - 1 := buf[p - 1]][p := buf[p]];
        bpos := -rb;
      }
    }
  }

  /** The current byte after a field that fits into it. */
  function PlaceLow(b: bv8, bpos: nat, d: bv8, blen: nat): bv8
    requires bpos + blen <= 8
  {
    if bpos != 0 then b | Shl(d, 8 - bpos - blen) else Shl(d, 8 - bpos - blen)
  }

  lemma PlacedLow(b: bv8, bpos: nat, d: bv8, blen: nat, j: nat)
    requires 1 <= blen <= 8 && bpos + blen <= 8 && Fits(d, blen) && j < 8
    requires bpos > 0 && j >= bpos ==> !Nth(b, j)
    ensures Nth(PlaceLow(b, bpos, d, blen), j) ==
            if j < bpos then Nth(b, j) else j < bpos + blen && Nth(d, 8 - blen + j - bpos)
  {
    hide Nth, Shl, Fits;
    var n := 8 - bpos - blen;
    NthOr(b, Shl(d, n), j);
    NthShl(d, n, j);
    if j < bpos { FitsHighBits(d, blen, j + n); }
  }

  lemma BitInByte(bytes: seq<bv8>, i: nat, p: nat)
    requires i < 8 * |bytes| && 8 * p <= i < 8 * p + 8
    ensures p < |bytes| && BitOf(bytes, i) == Nth(bytes[p], i - 8 * p)
  {
    assert i / 8 == p && i % 8 == i - 8 * p;
  }

  lemma BitBefore(bytes: seq<bv8>, bytes': seq<bv8>, i: nat, p: nat)
    requires i < 8 * p && p <= |bytes| && p <= |bytes'| && bytes[..p] == bytes'[..p]
    ensures BitOf(bytes, i) == BitOf(bytes', i)
  {
    assert bytes[i / 8] == bytes[..p][i / 8];
  }

  ghost predicate ZeroFrom(b: bv8, n: nat) {
    forall j :: n <= j < 8 ==> !Nth(b, j)
  }

  /** Bit i of what was there, followed by the field. */
  ghost function Expected(before: seq<bv8>, n: nat, d: bv8, blen: nat, i: nat): bool
    requires n <= 8 * |before| && blen <= 8 && i < n + blen
  {
    if i < n then BitOf(before, i) else Nth(d, 8 - blen + i - n)
  }

  lemma AllExpected(before: seq<bv8>, after: seq<bv8>, n: nat, d: bv8, blen: nat)
    requires n <= 8 * |before| && blen <= 8 && n + blen <= 8 * |after|
    requires forall i: nat :: i < n + blen ==> BitOf(after, i) == Expected(before, n, d, blen, i)
    ensures Bits(after, n + blen) == Bits(before, n) + Field(d, blen)
  {
    hide Nth, BitOf;
  }

  lemma LowBitAt(before: seq<bv8>, p: nat, bpos: nat, d: bv8, blen: nat, i: nat)
    requires p < |before| && 1 <= blen <= 8 && bpos + blen <= 8 && Fits(d, blen) && i < 8 * p + bpos + blen
    requires bpos > 0 ==> ZeroFrom(before[p], bpos)
    ensures BitOf(before[p := PlaceLow(before[p], bpos, d, blen)], i) == Expected(before, 8 * p + bpos, d, blen, i)
  {
    hide Nth, Shl, Fits, PlaceLow, BitOf;
    var after := before[p := PlaceLow(before[p], bpos, d, blen)];
    if i < 8 * p {
      BitBefore(before, after, i, p);
    } else {
      BitInByte(before, i, p);
      BitInByte(after, i, p);
      PlacedLow(before[p], bpos, d, blen, i - 8 * p);
    }
  }

  lemma AppendedLow(before: seq<bv8>, p: nat, bpos: nat, d: bv8, blen: nat)
    requires p < |before| && 1 <= blen <= 8 && bpos + blen <= 8 && Fits(d, blen)
    requires bpos > 0 ==> ZeroFrom(before[p], bpos)
    ensures var b := PlaceLow(before[p], bpos, d, blen);
            Bits(before[p := b], 8 * p + bpos + blen) == Bits(before, 8 * p + bpos) + Field(d, blen) &&
            ZeroFrom(b, bpos + blen)
  {
    hide Nth, Shl, Fits, PlaceLow, BitOf, Expected, Bits, Field;
    var b := PlaceLow(before[p], bpos, d, blen);
    forall j: nat | bpos + blen <= j < 8 ensures !Nth(b, j) { PlacedLow(before[p], bpos, d, blen, j); }
    var after, n := before[p := b], 8 * p + bpos;
    forall i: nat | i < n + blen ensures BitOf(after, i) == Expected(before, n, d, blen, i) {
      LowBitAt(before, p, bpos, d, blen, i);
    }
    AllExpected(before, after, n, d, blen);
  }

  /** The current byte after a field that crosses into the next. */
  function PlaceHigh(b: bv8, bpos: nat, d: bv8, blen: nat): bv8
    requires bpos + blen >= 8
  {
    b | Shr(d, bpos + blen - 8)
  }

  lemma PlacedHigh(b: bv8, bpos: nat, d: bv8, blen: nat, j: nat)
    requires 1 <= blen <= 8 && bpos <= 8 < bpos + blen && Fits(d, blen) && j < 8
    requires j >= bpos ==> !Nth(b, j)
    ensures Nth(PlaceHigh(b, bpos, d, blen), j) == if j < bpos then Nth(b, j) else Nth(d, j - (bpos + blen - 8))
  {
    hide Nth, Shr, Fits;
    var k := bpos + blen - 8;
    NthOr(b, Shr(d, k), j);
    NthShr(d, k, j);
    if k <= j < bpos { FitsHighBits(d, blen, j - k); }
  }

  lemma SplitBitAt(before: seq<bv8>, p: nat, bpos: nat, d: bv8, blen: nat, i: nat)
    requires p + 1 < |before| && 1 <= blen <= 8 && bpos <= 8 < bpos + blen && Fits(d, blen) && i < 8 * p + bpos + blen
    requires ZeroFrom(before[p], bpos)
    ensures BitOf(before[p := PlaceHigh(before[p], bpos, d, blen)][p + 1 := Shl(d, 16 - bpos - blen)], i) ==
            Expected(before, 8 * p + bpos, d, blen, i)
  {
    hide Nth, Shl, Fits, PlaceHigh, BitOf;
    var after := before[p := PlaceHigh(before[p], bpos, d, blen)][p + 1 := Shl(d, 16 - bpos - blen)];
    if i < 8 * p {
      BitBefore(before, after, i, p);
    } else if i < 8 * p + 8 {
      BitInByte(before, i, p);
      BitInByte(after, i, p);
      PlacedHigh(before[p], bpos, d, blen, i - 8 * p);
    } else {
      BitInByte(after, i, p + 1);
      NthShl(d, 16 - bpos - blen, i - 8 * p - 8);
    }
  }

  lemma AppendedSplit(before: seq<bv8>, p: nat, bpos: nat, d: bv8, blen: nat)
    requires p + 1 < |before| && 1 <= blen <= 8 && bpos <= 8 < bpos + blen && Fits(d, blen)
    requires ZeroFrom(before[p], bpos)
    ensures var b, b' := PlaceHigh(before[p], bpos, d, blen), Shl(d, 16 - bpos - blen);
            Bits(before[p := b][p + 1 := b'], 8 * p + bpos + blen) == Bits(before, 8 * p + bpos) + Field(d, blen) &&
            ZeroFrom(b', bpos + blen - 8)
  {
    hide Nth, Shl, Fits, PlaceHigh, BitOf, Expected, Bits, Field;
    var b, b' := PlaceHigh(before[p], bpos, d, blen), Shl(d, 16 - bpos - blen);
    forall j: nat | bpos + blen - 8 <= j < 8 ensures !Nth(b', j) { NthShl(d, 16 - bpos - blen, j); }
    var after, n := before[p := b][p + 1 := b'], 8 * p + bpos;
    forall i: nat | i < n + blen ensures BitOf(after, i) == Expected(before, n, d, blen, i) {
      SplitBitAt(before, p, bpos, d, blen, i);
    }
    AllExpected(before, after, n, d, blen);
  }
}
