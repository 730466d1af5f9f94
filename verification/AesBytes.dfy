/** The cipher byte by byte, as FIPS 197 indexes it: what one round and the key expansion put at
    each position, without the word operations they are made of, and the standard's own values. */
module AesBytes {
  import opened Gf256
  import opened AesSpec
  import opened AesWords

  /** Byte j of a word, counted from its most significant end. */
  function ByteAt(x: bv32, j: nat): bv8
    requires j < 4
  {
    if j == 0 then ((x >> 24) & 0xFF) as bv8
    else if j == 1 then ((x >> 16) & 0xFF) as bv8
    else if j == 2 then ((x >> 8) & 0xFF) as bv8
    else (x & 0xFF) as bv8
  }

  /** Byte r of a column. */
  function Row(w: Word, r: nat): bv8
    requires r < 4
  {
    if r == 0 then w.b0 else if r == 1 then w.b1 else if r == 2 then w.b2 else w.b3
  }

  function Column(s: State, c: nat): Word
    requires c < 4
  {
    if c == 0 then s.c0 else if c == 1 then s.c1 else if c == 2 then s.c2 else s.c3
  }

  /** Entry s[r, c] of the state. */
  function Entry(s: State, r: nat, c: nat): bv8
    requires r < 4 && c < 4
  {
    Row(Column(s, c), r)
  }

  /** 2^n as a field product. */
  function PowerOfTwo(n: nat): bv8 {
    if n == 0 then 1 else Mul(2, PowerOfTwo(n - 1))
  }

  // ----- one round -----

  lemma AddedByte(v: Word, w: Word, r: nat)
    requires r < 4
    ensures Row(AddWord(v, w), r) == Add(Row(v, r), Row(w, r))
  {
    hide Add;
    if r == 0 {} else if r == 1 {} else if r == 2 {} else {}
  }

  lemma SubstitutedByte(w: Word, r: nat)
    requires r < 4
    ensures Row(SubWord(w), r) == SBox(Row(w, r))
  {
    hide SBox;
    if r == 0 {} else if r == 1 {} else if r == 2 {} else {}
  }

  lemma MixedByte(w: Word, r: nat)
    requires r < 4
    ensures Row(MixColumn(w), r) == MixRow(Row(w, r), Row(w, (r + 1) % 4), Row(w, (r + 2) % 4), Row(w, (r + 3) % 4))
  {
    hide MixRow;
    if r == 0 { assert (r + 1) % 4 == 1 && (r + 2) % 4 == 2 && (r + 3) % 4 == 3; }
    else if r == 1 { assert (r + 1) % 4 == 2 && (r + 2) % 4 == 3 && (r + 3) % 4 == 0; }
    else if r == 2 { assert (r + 1) % 4 == 3 && (r + 2) % 4 == 0 && (r + 3) % 4 == 1; }
    else { assert (r + 1) % 4 == 0 && (r + 2) % 4 == 1 && (r + 3) % 4 == 2; }
  }

  lemma ShiftedByte(s: State, r: nat, c: nat)
    requires r < 4 && c < 4
    ensures Entry(ShiftRows(s), r, c) == Entry(s, r, (c + r) % 4)
  {
    if r == 0 { if c == 0 {} else if c == 1 {} else if c == 2 {} else {} }
    else if r == 1 { if c == 0 {} else if c == 1 {} else if c == 2 {} else {} }
    else if r == 2 { if c == 0 {} else if c == 1 {} else if c == 2 {} else {} }
    else { if c == 0 {} else if c == 1 {} else if c == 2 {} else {} }
  }

  /** The substituted byte of row r that the row shift brings to column c. */
  ghost function Moved(s: State, r: nat, c: nat): bv8
    requires r < 4 && c < 4
  {
    SBox(Entry(s, r, (c + r) % 4))
  }

  lemma ShiftedColumn(s: State, r: nat, c: nat)
    requires r < 4 && c < 4
    ensures Row(Column(ShiftRows(SubBytes(s)), c), r) == Moved(s, r, c)
  {
    hide SBox, Row, ShiftRows, SubWord;
    ShiftedByte(SubBytes(s), r, c);
    SubstitutedByte(Column(s, (c + r) % 4), r);
  }

  lemma ColumnOfRound(s: State, k: State, c: nat)
    requires c < 4
    ensures Column(Round(s, k), c) == AddWord(MixColumn(Column(ShiftRows(SubBytes(s)), c)), Column(k, c))
    ensures Column(LastRound(s, k), c) == AddWord(Column(ShiftRows(SubBytes(s)), c), Column(k, c))
  {
    hide AddWord, MixColumn, ShiftRows, SubBytes;
  }

  /** Entry r, c after a round: four moved bytes of its column times 2, 3, 1 and 1, plus the key. */
  ghost function RoundByte(s: State, k: State, r: nat, c: nat): bv8
    requires r < 4 && c < 4
  {
    Mul(2, Moved(s, r, c)) ^ Mul(3, Moved(s, (r + 1) % 4, c)) ^
    Moved(s, (r + 2) % 4, c) ^ Moved(s, (r + 3) % 4, c) ^ Entry(k, r, c)
  }

  lemma SumIsXor(a: bv8, b: bv8, c: bv8, d: bv8, k: bv8)
    ensures Add(Sum4(a, b, c, d), k) == a ^ b ^ c ^ d ^ k
  {}

  /** Section 5.1: what a round leaves at each entry. */
  lemma RoundBytes(s: State, k: State, r: nat, c: nat)
    requires r < 4 && c < 4
    ensures Entry(Round(s, k), r, c) == RoundByte(s, k, r, c)
  {
    hide Mul, SBox, Row, AddWord, MixColumn, ShiftRows, SubBytes, Round, Add, Sum4, Moved;
    var w := Column(ShiftRows(SubBytes(s)), c);
    ColumnOfRound(s, k, c);
    AddedByte(MixColumn(w), Column(k, c), r);
    MixedByte(w, r);
    ShiftedColumn(s, r, c);
    ShiftedColumn(s, (r + 1) % 4, c);
    ShiftedColumn(s, (r + 2) % 4, c);
    ShiftedColumn(s, (r + 3) % 4, c);
    SumIsXor(Mul(2, Moved(s, r, c)), Mul(3, Moved(s, (r + 1) % 4, c)),
             Moved(s, (r + 2) % 4, c), Moved(s, (r + 3) % 4, c), Entry(k, r, c));
  }

  /** The last round has no column mixing. */
  lemma LastRoundBytes(s: State, k: State, r: nat, c: nat)
    requires r < 4 && c < 4
    ensures Entry(LastRound(s, k), r, c) == Moved(s, r, c) ^ Entry(k, r, c)
  {
    hide SBox, Row, AddWord, ShiftRows, SubBytes, LastRound;
    ColumnOfRound(s, k, c);
    AddedByte(Column(ShiftRows(SubBytes(s)), c), Column(k, c), r);
    ShiftedColumn(s, r, c);
  }

  /** Byte 4c + r of a block is entry s[r, c], in both directions (section 3.4). */
  lemma BlockBytes(b: seq<bv8>, r: nat, c: nat)
    requires |b| == 16 && r < 4 && c < 4
    ensures Entry(StateOf(b), r, c) == b[4 * c + r]
  {
    if r == 0 { if c == 0 {} else if c == 1 {} else if c == 2 {} else {} }
    else if r == 1 { if c == 0 {} else if c == 1 {} else if c == 2 {} else {} }
    else if r == 2 { if c == 0 {} else if c == 1 {} else if c == 2 {} else {} }
    else { if c == 0 {} else if c == 1 {} else if c == 2 {} else {} }
  }

  lemma SameColumn(v: Word, w: Word)
    requires forall r: nat :: r < 4 ==> Row(v, r) == Row(w, r)
    ensures v == w
  {
    assert Row(v, 0) == Row(w, 0) && Row(v, 1) == Row(w, 1) && Row(v, 2) == Row(w, 2) && Row(v, 3) == Row(w, 3);
  }

  lemma SameState(s: State, t: State)
    requires forall r: nat, c: nat :: r < 4 && c < 4 ==> Entry(s, r, c) == Entry(t, r, c)
    ensures s == t
  {
    forall c: nat | c < 4 ensures Column(s, c) == Column(t, c) {
      forall r: nat | r < 4 ensures Row(Column(s, c), r) == Row(Column(t, c), r) {
        assert Entry(s, r, c) == Entry(t, r, c);
      }
      SameColumn(Column(s, c), Column(t, c));
    }
    assert Column(s, 0) == Column(t, 0) && Column(s, 1) == Column(t, 1);
    assert Column(s, 2) == Column(t, 2) && Column(s, 3) == Column(t, 3);
  }

  /** u is s with the key k added, entry by entry. */
  ghost predicate Keyed(s: State, k: State, u: State) {
    forall r: nat, c: nat :: r < 4 && c < 4 ==> Entry(u, r, c) == Entry(s, r, c) ^ Entry(k, r, c)
  }

  /** u follows s by a round with the key k, entry by entry. */
  ghost predicate Mixed(s: State, k: State, u: State) {
    forall r: nat, c: nat :: r < 4 && c < 4 ==> Entry(u, r, c) == RoundByte(s, k, r, c)
  }

  /** u follows s by the last round, which does not mix. */
  ghost predicate Unmixed(s: State, k: State, u: State) {
    forall r: nat, c: nat :: r < 4 && c < 4 ==> Entry(u, r, c) == Moved(s, r, c) ^ Entry(k, r, c)
  }

  lemma KeyedIsAdded(s: State, k: State, u: State)
    requires Keyed(s, k, u)
    ensures u == AddRoundKey(s, k)
  {
    hide Row, AddWord;
    forall r: nat, c: nat | r < 4 && c < 4 ensures Entry(u, r, c) == Entry(AddRoundKey(s, k), r, c) {
      AddedByte(Column(s, c), Column(k, c), r);
    }
    SameState(u, AddRoundKey(s, k));
  }

  lemma MixedIsRound(s: State, k: State, u: State)
    requires Mixed(s, k, u)
    ensures u == Round(s, k)
  {
    hide Entry, RoundByte, Round;
    forall r: nat, c: nat | r < 4 && c < 4 ensures Entry(u, r, c) == Entry(Round(s, k), r, c) {
      RoundBytes(s, k, r, c);
    }
    SameState(u, Round(s, k));
  }

  lemma UnmixedIsLastRound(s: State, k: State, u: State)
    requires Unmixed(s, k, u)
    ensures u == LastRound(s, k)
  {
    hide Entry, SBox, LastRound;
    forall r: nat, c: nat | r < 4 && c < 4 ensures Entry(u, r, c) == Entry(LastRound(s, k), r, c) {
      LastRoundBytes(s, k, r, c);
    }
    SameState(u, LastRound(s, k));
  }

  /** A run of the cipher given entry by entry: the key added, nr - 1 mixing rounds, one without. */
  ghost predicate CipherRun(run: seq<State>, s: State, keys: Schedule, nr: nat) {
    nr > 0 && |run| == nr + 1 && Keyed(s, keys(0), run[0]) &&
    (forall i: nat :: 1 <= i < nr ==> Mixed(run[i - 1], keys(i), run[i])) &&
    Unmixed(run[nr - 1], keys(nr), run[nr])
  }

  lemma {:induction false} RunIsRounds(run: seq<State>, s: State, keys: Schedule, nr: nat, n: nat)
    requires CipherRun(run, s, keys, nr) && n < nr
    ensures run[n] == Rounds(s, keys, n)
  {
    hide Keyed, Mixed, Unmixed, AddRoundKey, Round;
    if n == 0 {
      KeyedIsAdded(s, keys(0), run[0]);
    } else {
      RunIsRounds(run, s, keys, nr, n - 1);
      MixedIsRound(run[n - 1], keys(n), run[n]);
    }
  }

  /** Every such run ends in the cipher's output, for every block, schedule and number of rounds. */
  lemma RunIsCipher(run: seq<State>, s: State, keys: Schedule, nr: nat)
    requires CipherRun(run, s, keys, nr)
    ensures run[nr] == Cipher(s, keys, nr)
  {
    hide Keyed, Mixed, Unmixed, LastRound, Rounds;
    RunIsRounds(run, s, keys, nr, nr - 1);
    UnmixedIsLastRound(run[nr - 1], keys(nr), run[nr]);
  }

  // ----- key expansion -----

  lemma {:induction false} XPowIsPower(n: nat)
    ensures XPow(n) == PowerOfTwo(n)
  {
    hide Mul, Xtime;
    if n > 0 {
      XPowIsPower(n - 1);
      MulSmall(PowerOfTwo(n - 1));
    }
  }

  /** The ten round constants, the last two reduced by the field polynomial. */
  lemma RoundConstants()
    ensures PowerOfTwo(0) == 0x01 && PowerOfTwo(1) == 0x02 && PowerOfTwo(2) == 0x04 && PowerOfTwo(3) == 0x08
    ensures PowerOfTwo(4) == 0x10 && PowerOfTwo(5) == 0x20 && PowerOfTwo(6) == 0x40 && PowerOfTwo(7) == 0x80
    ensures PowerOfTwo(8) == 0x1B && PowerOfTwo(9) == 0x36
  {
    hide Mul;
    MulSmall(0x01); MulSmall(0x02); MulSmall(0x04); MulSmall(0x08); MulSmall(0x10);
    MulSmall(0x20); MulSmall(0x40); MulSmall(0x80); MulSmall(0x1B);
    assert PowerOfTwo(2) == 0x04;
    assert PowerOfTwo(4) == 0x10;
    assert PowerOfTwo(6) == 0x40;
    assert PowerOfTwo(8) == 0x1B;
  }

  lemma PackedByte(w: Word, j: nat)
    requires j < 4
    ensures ByteAt(Pack(w), j) == Row(w, j)
  {
    if j == 0 {} else if j == 1 {} else if j == 2 {} else {}
  }

  lemma RotatedByte(w: Word, j: nat)
    requires j < 4
    ensures Row(RotWord(w), j) == Row(w, (j + 1) % 4)
  {
    if j == 0 {} else if j == 1 {} else if j == 2 {} else {}
  }

  lemma RconByte(i: nat, j: nat)
    requires i > 0 && j < 4
    ensures Row(Rcon(i), j) == if j == 0 then PowerOfTwo(i - 1) else 0
  {
    hide XPow, PowerOfTwo;
    XPowIsPower(i - 1);
  }

  /** Section 5.2 for byte j of word k: the byte nk words back, plus a byte of the word before it.
      That one is substituted and taken one place further on, with a power of 2 added to the first,
      where a group starts, and only substituted in the middle of a group of eight. */
  ghost predicate Follows(back: bv32, prev: bv32, next: bv32, nk: nat, k: nat, j: nat)
    requires 0 < nk <= k && j < 4
  {
    if k % nk == 0 then
      GroupNumber(k, nk);
      ByteAt(next, j) == ByteAt(back, j) ^
        (SBox(ByteAt(prev, (j + 1) % 4)) ^ (if j == 0 then PowerOfTwo(k / nk - 1) else 0))
    else if nk > 6 && k % nk == 4 then
      ByteAt(next, j) == ByteAt(back, j) ^ SBox(ByteAt(prev, j))
    else
      ByteAt(next, j) == ByteAt(back, j) ^ ByteAt(prev, j)
  }

  lemma GroupNumber(k: nat, nk: nat)
    requires 0 < nk <= k
    ensures k / nk >= 1
  {}

  lemma KeyWordFollows(key: seq<Word>, k: nat, j: nat)
    requires 0 < |key| <= k && j < 4
    ensures Follows(Pack(KeyWord(key, k - |key|)), Pack(KeyWord(key, k - 1)), Pack(KeyWord(key, k)), |key|, k, j)
  {
    hide Pack, ByteAt, Row, SBox, PowerOfTwo, Rcon, RotWord, AddWord, SubWord;
    var back, prev, next := KeyWord(key, k - |key|), KeyWord(key, k - 1), KeyWord(key, k);
    PackedByte(next, j);
    PackedByte(back, j);
    PackedByte(prev, j);
    if k % |key| == 0 {
      GroupNumber(k, |key|);
      PackedByte(prev, (j + 1) % 4);
      FirstWordByte(back, prev, next, k / |key|, j);
    } else if |key| > 6 && k % |key| == 4 {
      AddedByte(back, SubWord(prev), j);
      SubstitutedByte(prev, j);
    } else {
      AddedByte(back, prev, j);
    }
  }

  lemma FirstWordByte(back: Word, prev: Word, w: Word, i: nat, j: nat)
    requires i > 0 && j < 4 && w == AddWord(back, AddWord(SubWord(RotWord(prev)), Rcon(i)))
    ensures Row(w, j) == Row(back, j) ^ (SBox(Row(prev, (j + 1) % 4)) ^ (if j == 0 then PowerOfTwo(i - 1) else 0))
  {
    hide Row, SBox, PowerOfTwo, Rcon, RotWord, AddWord, SubWord;
    AddedByte(back, AddWord(SubWord(RotWord(prev)), Rcon(i)), j);
    AddedByte(SubWord(RotWord(prev)), Rcon(i), j);
    SubstitutedByte(RotWord(prev), j);
    RotatedByte(prev, j);
    RconByte(i, j);
  }

  // ----- values printed in the standard -----

  lemma SBoxAt(x: bv8, y: bv8)
    requires MulUnrolled(x, y) == 1
    ensures SBox(x) == Affine(y)
  {
    hide Mul, MulUnrolled, Affine;
    MulIsUnrolled(x, y);
    InverseUnique(x, y);
  }

  lemma RotatedExample()
    ensures SubWord(Word(0xCF, 0x4F, 0x3C, 0x09)) == Word(0x8A, 0x84, 0xEB, 0x01)
  {
    hide SBox;
    SBoxAt(0xCF, 0xE6);
    SBoxAt(0x4F, 0x09);
    SBoxAt(0x3C, 0x77);
    SBoxAt(0x09, 0x4F);
  }

  /** Appendix A.1: the first word derived from the key 2b7e1516 28aed2a6 abf71588 09cf4f3c. */
  lemma FirstDerivedWord()
    ensures KeyWord([Word(0x2B, 0x7E, 0x15, 0x16), Word(0x28, 0xAE, 0xD2, 0xA6),
                     Word(0xAB, 0xF7, 0x15, 0x88), Word(0x09, 0xCF, 0x4F, 0x3C)], 4) == Word(0xA0, 0xFA, 0xFE, 0x17)
  {
    hide SubWord;
    RotatedExample();
    assert XPow(0) == 1;
  }
}
