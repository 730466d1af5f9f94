/** Four-byte words in 32-bit registers, as GET_UINT32, PUT_UINT32 and the (uint8) casts see them. */
module AesWords {
  import opened Gf256
  import opened AesSpec

  function Byte0(x: bv32): bv8 { ((x >> 24) & 0xFF) as bv8 }
  function Byte1(x: bv32): bv8 { ((x >> 16) & 0xFF) as bv8 }
  function Byte2(x: bv32): bv8 { ((x >> 8) & 0xFF) as bv8 }
  function Byte3(x: bv32): bv8 { (x & 0xFF) as bv8 }

  /** GET_UINT32 */
  function Pack(w: Word): bv32 {
    ((w.b0 as bv32) << 24) | ((w.b1 as bv32) << 16) | ((w.b2 as bv32) << 8) | (w.b3 as bv32)
  }

  function Unpack(x: bv32): Word {
    Word(Byte0(x), Byte1(x), Byte2(x), Byte3(x))
  }

  lemma UnpackPack(w: Word)
    ensures Unpack(Pack(w)) == w
  {}

  lemma PackUnpack(x: bv32)
    ensures Pack(Unpack(x)) == x
  {}

  function Xor(x: bv32, y: bv32): bv32 {
    x ^ y
  }

  lemma UnpackXor(x: bv32, y: bv32)
    ensures Unpack(Xor(x, y)) == AddWord(Unpack(x), Unpack(y))
  {}

  // ----- columns of the two mixing matrices, which the tables hold -----

  function Mix0(s: bv8): Word { Word(Mul(2, s), s, s, Mul(3, s)) }
  function Mix1(s: bv8): Word { Word(Mul(3, s), Mul(2, s), s, s) }
  function Mix2(s: bv8): Word { Word(s, Mul(3, s), Mul(2, s), s) }
  function Mix3(s: bv8): Word { Word(s, s, Mul(3, s), Mul(2, s)) }

  function InvMix0(s: bv8): Word { Word(Mul(0x0E, s), Mul(0x09, s), Mul(0x0D, s), Mul(0x0B, s)) }
  function InvMix1(s: bv8): Word { Word(Mul(0x0B, s), Mul(0x0E, s), Mul(0x09, s), Mul(0x0D, s)) }
  function InvMix2(s: bv8): Word { Word(Mul(0x0D, s), Mul(0x0B, s), Mul(0x0E, s), Mul(0x09, s)) }
  function InvMix3(s: bv8): Word { Word(Mul(0x09, s), Mul(0x0D, s), Mul(0x0B, s), Mul(0x0E, s)) }

  function SumWords(a: Word, b: Word, c: Word, d: Word): Word {
    AddWord(AddWord(a, b), AddWord(c, d))
  }

  lemma MixColumnByTables(w: Word)
    ensures MixColumn(w) == SumWords(Mix0(w.b0), Mix1(w.b1), Mix2(w.b2), Mix3(w.b3))
  {
    hide Add, Mul;
    Sum4Rotate(Mul(2, w.b1), Mul(3, w.b2), w.b3, w.b0);
    Sum4Halves(Mul(2, w.b2), Mul(3, w.b3), w.b0, w.b1);
    Sum4Rotate(Mul(3, w.b0), w.b1, w.b2, Mul(2, w.b3));
  }

  lemma InvMixColumnByTables(w: Word)
    ensures InvMixColumn(w) == SumWords(InvMix0(w.b0), InvMix1(w.b1), InvMix2(w.b2), InvMix3(w.b3))
  {
    hide Add, Mul;
    Sum4Rotate(Mul(0x0E, w.b1), Mul(0x0B, w.b2), Mul(0x0D, w.b3), Mul(0x09, w.b0));
    Sum4Halves(Mul(0x0E, w.b2), Mul(0x0B, w.b3), Mul(0x0D, w.b0), Mul(0x09, w.b1));
    Sum4Rotate(Mul(0x0B, w.b0), Mul(0x0D, w.b1), Mul(0x09, w.b2), Mul(0x0E, w.b3));
  }

  /** ROTR8 moves every byte of a word one place to the right. */
  function RotR8(x: bv32): bv32 {
    (x << 24) | (x >> 8)
  }

  lemma RotR8Pack(w: Word)
    ensures RotR8(Pack(w)) == Pack(Word(w.b3, w.b0, w.b1, w.b2))
  {}

  /** A word built by joining four shifted bytes with exclusive or. */
  function JoinBytes(a: bv8, b: bv8, c: bv8, d: bv8): bv32 {
    (d as bv32) ^ ((c as bv32) << 8) ^ ((b as bv32) << 16) ^ ((a as bv32) << 24)
  }

  lemma JoinIsPack(a: bv8, b: bv8, c: bv8, d: bv8)
    ensures JoinBytes(a, b, c, d) == Pack(Word(a, b, c, d))
  {
    hide Pack;
    UnpackJoin(a, b, c, d);
    PackUnpack(JoinBytes(a, b, c, d));
  }

  lemma UnpackJoin(a: bv8, b: bv8, c: bv8, d: bv8)
    ensures Unpack(JoinBytes(a, b, c, d)) == Word(a, b, c, d)
  {}

  // ----- table lookups -----

  type Table = seq<bv32>

  /** A group of four tables such as FT0..FT3. */
  datatype Quad = Quad(t0: Table, t1: Table, t2: Table, t3: Table) {
    predicate Sized() {
      |t0| == |t1| == |t2| == |t3| == 256
    }

    /** One row of all four tables replaced: each word is the one before it, rotated. */
    function SetRow(i: int, w: bv32): (q: Quad)
      requires Sized() && 0 <= i < 256
      ensures q.Sized()
    {
      Quad(t0[i := w], t1[i := RotR8(w)], t2[i := RotR8(RotR8(w))], t3[i := RotR8(RotR8(RotR8(w)))])
    }
  }

  /** The exclusive or of a word and one entry from each of four tables. */
  function Lookup(k: bv32, t: Quad, a: bv8, b: bv8, c: bv8, d: bv8): bv32
    requires t.Sized()
  {
    IndexLaws(a, b); IndexLaws(c, d); IndexLaws(d, d); IndexLaws(b, b);
    Xor(Xor(Xor(Xor(k, t.t0[Index(a)]), t.t1[Index(b)]), t.t2[Index(c)]), t.t3[Index(d)])
  }

  lemma UnpackLookup(k: bv32, p: Word, q: Word, r: Word, s: Word)
    ensures Unpack(Xor(Xor(Xor(Xor(k, Pack(p)), Pack(q)), Pack(r)), Pack(s)))
         == AddWord(SumWords(p, q, r, s), Unpack(k))
  {
    hide Add, AddWord, Xor, Pack, Unpack;
    var p', q', r', s' := Pack(p), Pack(q), Pack(r), Pack(s);
    UnpackPack(p); UnpackPack(q); UnpackPack(r); UnpackPack(s);
    UnpackXor(k, p');
    UnpackXor(Xor(k, p'), q');
    UnpackXor(Xor(Xor(k, p'), q'), r');
    UnpackXor(Xor(Xor(Xor(k, p'), q'), r'), s');
    AddWordLaws(Unpack(k), p, q);
    AddWordLaws(Unpack(k), AddWord(p, q), r);
    AddWordLaws(AddWord(AddWord(p, q), r), s, Unpack(k));
    AddWordLaws(AddWord(p, q), r, s);
    AddWordLaws(Unpack(k), AddWord(AddWord(p, q), r), s);
    AddWordLaws(Unpack(k), SumWords(p, q, r, s), s);
  }

  lemma AddWordLaws(u: Word, v: Word, w: Word)
    ensures AddWord(u, v) == AddWord(v, u)
    ensures AddWord(u, AddWord(v, w)) == AddWord(AddWord(u, v), w)
  {
    hide Add;
    AddLaws(u.b0, v.b0, w.b0); AddLaws(u.b1, v.b1, w.b1); AddLaws(u.b2, v.b2, w.b2); AddLaws(u.b3, v.b3, w.b3);
  }

  lemma XorPack(v: Word, w: Word)
    ensures Xor(Pack(v), Pack(w)) == Pack(AddWord(v, w))
  {
    hide Xor, Pack, Unpack, AddWord;
    UnpackXor(Pack(v), Pack(w));
    UnpackPack(v); UnpackPack(w);
    PackUnpack(Xor(Pack(v), Pack(w)));
  }

  /** Four one-byte table entries shifted into place. */
  function JoinEntries(a: bv32, b: bv32, c: bv32, d: bv32): bv32 {
    (a << 24) ^ (b << 16) ^ (c << 8) ^ d
  }

  /** A byte in a table of words. */
  function Wide(x: bv8): bv32 {
    x as bv32
  }

  lemma UnpackJoinEntries(a: bv8, b: bv8, c: bv8, d: bv8)
    ensures Unpack(JoinEntries(Wide(a), Wide(b), Wide(c), Wide(d))) == Word(a, b, c, d)
  {}

  // ----- blocks -----

  /** The state of a 16-byte block: byte 4c + r is row r of column c. */
  function StateOf(b: seq<bv8>): State
    requires |b| == 16
  {
    State(Word(b[0], b[1], b[2], b[3]), Word(b[4], b[5], b[6], b[7]),
          Word(b[8], b[9], b[10], b[11]), Word(b[12], b[13], b[14], b[15]))
  }

  function WordBytes(w: Word): seq<bv8> {
    [w.b0, w.b1, w.b2, w.b3]
  }

  function BytesOf(s: State): (b: seq<bv8>)
    ensures |b| == 16 && StateOf(b) == s
  {
    WordBytes(s.c0) + WordBytes(s.c1) + WordBytes(s.c2) + WordBytes(s.c3)
  }

  lemma BytesOfState(b: seq<bv8>)
    requires |b| == 16
    ensures BytesOf(StateOf(b)) == b
  {}

  function UnpackState(x0: bv32, x1: bv32, x2: bv32, x3: bv32): State {
    State(Unpack(x0), Unpack(x1), Unpack(x2), Unpack(x3))
  }
}
