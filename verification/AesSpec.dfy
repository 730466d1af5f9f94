/** The cipher of FIPS 197 on bytes: the S-box, the round transformations of section 5.1,
    the key expansion of section 5.2 and the equivalent inverse cipher of section 5.3.5. */
module AesSpec {
  import opened Gf256

  /** A four-byte word, most significant byte first; also a column of the state. */
  datatype Word = Word(b0: bv8, b1: bv8, b2: bv8, b3: bv8)

  /** The state array by columns: byte r of column c is the standard's s[r, c]. */
  datatype State = State(c0: Word, c1: Word, c2: Word, c3: Word)

  // ----- S-box -----

  /** The affine map of the S-box: x plus its rotations by 1 to 4, plus 63. */
  function Affine(x: bv8): bv8 {
    x ^ ((x << 1) | (x >> 7)) ^ ((x << 2) | (x >> 6)) ^ ((x << 3) | (x >> 5)) ^ ((x << 4) | (x >> 4)) ^ 0x63
  }

  function InvAffine(x: bv8): bv8 {
    ((x << 1) | (x >> 7)) ^ ((x << 3) | (x >> 5)) ^ ((x << 6) | (x >> 2)) ^ 0x05
  }

  /** Equation 5.1 of FIPS 197: output bit i adds five input bits and a bit of 63. */
  lemma AffineBits(x: bv8, i: nat)
    requires i < 8
    ensures Bit(Affine(x), i) ==
      (Bit(x, i) != (Bit(x, (i + 4) % 8) != (Bit(x, (i + 5) % 8) !=
        (Bit(x, (i + 6) % 8) != (Bit(x, (i + 7) % 8) != Bit(0x63, i))))))
  {
    if i == 0 {} else if i == 1 {} else if i == 2 {} else if i == 3 {}
    else if i == 4 {} else if i == 5 {} else if i == 6 {} else {}
  }

  lemma AffineInverse(x: bv8)
    ensures InvAffine(Affine(x)) == x && Affine(InvAffine(x)) == x
  {}

  ghost function SBox(x: bv8): bv8 {
    Affine(Inverse(x))
  }

  ghost function InvSBox(x: bv8): bv8 {
    Inverse(InvAffine(x))
  }

  lemma SBoxInverse(x: bv8)
    ensures InvSBox(SBox(x)) == x && SBox(InvSBox(x)) == x
  {
    hide Affine, InvAffine, Mul;
    AffineInverse(Inverse(x));
    AffineInverse(x);
    InverseInvolutive(x);
    InverseInvolutive(InvAffine(x));
  }

  // ----- columns -----

  function Sum4(a: bv8, b: bv8, c: bv8, d: bv8): bv8 {
    Add(Add(a, b), Add(c, d))
  }

  lemma Sum4Swap(a: bv8, b: bv8, c: bv8, d: bv8, a': bv8, b': bv8, c': bv8, d': bv8)
    ensures Sum4(Add(a, a'), Add(b, b'), Add(c, c'), Add(d, d')) == Add(Sum4(a, b, c, d), Sum4(a', b', c', d'))
  {
    hide Add;
    AddSwap(a, a', b, b');
    AddSwap(c, c', d, d');
    AddSwap(Add(a, b), Add(a', b'), Add(c, d), Add(c', d'));
  }

  /** A row of the MixColumns matrix times a column. */
  function MixRow(a: bv8, b: bv8, c: bv8, d: bv8): bv8 {
    Sum4(Mul(0x02, a), Mul(0x03, b), c, d)
  }

  /** A row of the InvMixColumns matrix times a column. */
  function InvMixRow(a: bv8, b: bv8, c: bv8, d: bv8): bv8 {
    Sum4(Mul(0x0E, a), Mul(0x0B, b), Mul(0x0D, c), Mul(0x09, d))
  }

  /** Both matrices are circulant: each row is the one above it rotated right. */
  function MixColumn(w: Word): Word {
    Word(MixRow(w.b0, w.b1, w.b2, w.b3), MixRow(w.b1, w.b2, w.b3, w.b0),
         MixRow(w.b2, w.b3, w.b0, w.b1), MixRow(w.b3, w.b0, w.b1, w.b2))
  }

  function InvMixColumn(w: Word): Word {
    Word(InvMixRow(w.b0, w.b1, w.b2, w.b3), InvMixRow(w.b1, w.b2, w.b3, w.b0),
         InvMixRow(w.b2, w.b3, w.b0, w.b1), InvMixRow(w.b3, w.b0, w.b1, w.b2))
  }

  function AddWord(v: Word, w: Word): Word {
    Word(Add(v.b0, w.b0), Add(v.b1, w.b1), Add(v.b2, w.b2), Add(v.b3, w.b3))
  }

  lemma InvMixRowLinear(a: bv8, b: bv8, c: bv8, d: bv8, a': bv8, b': bv8, c': bv8, d': bv8)
    ensures InvMixRow(Add(a, a'), Add(b, b'), Add(c, c'), Add(d, d')) ==
            Add(InvMixRow(a, b, c, d), InvMixRow(a', b', c', d'))
  {
    hide Add, Mul, Sum4;
    MulDistributes(a, a', 0x0E); MulDistributes(b, b', 0x0B);
    MulDistributes(c, c', 0x0D); MulDistributes(d, d', 0x09);
    Sum4Swap(Mul(0x0E, a), Mul(0x0B, b), Mul(0x0D, c), Mul(0x09, d),
             Mul(0x0E, a'), Mul(0x0B, b'), Mul(0x0D, c'), Mul(0x09, d'));
  }

  /** InvMixColumns is linear: this is what lets the round keys be transformed ahead of time. */
  lemma InvMixColumnLinear(v: Word, w: Word)
    ensures InvMixColumn(AddWord(v, w)) == AddWord(InvMixColumn(v), InvMixColumn(w))
  {
    hide Add, InvMixRow;
    InvMixRowLinear(v.b0, v.b1, v.b2, v.b3, w.b0, w.b1, w.b2, w.b3);
    InvMixRowLinear(v.b1, v.b2, v.b3, v.b0, w.b1, w.b2, w.b3, w.b0);
    InvMixRowLinear(v.b2, v.b3, v.b0, v.b1, w.b2, w.b3, w.b0, w.b1);
    InvMixRowLinear(v.b3, v.b0, v.b1, v.b2, w.b3, w.b0, w.b1, w.b2);
  }

  lemma InvMixRowScale(a: bv8, b: bv8, c: bv8, d: bv8, x: bv8)
    ensures InvMixRow(Mul(a, x), Mul(b, x), Mul(c, x), Mul(d, x)) == Mul(InvMixRow(a, b, c, d), x)
  {
    hide Add, Mul;
    MulAssociates(0x0E, a, x); MulAssociates(0x0B, b, x);
    MulAssociates(0x0D, c, x); MulAssociates(0x09, d, x);
    var p, q, r, s := Mul(0x0E, a), Mul(0x0B, b), Mul(0x0D, c), Mul(0x09, d);
    MulDistributes(p, q, x); MulDistributes(r, s, x);
    MulDistributes(Add(p, q), Add(r, s), x);
  }

  /** The first row of the InvMixColumns matrix times the MixColumns matrix. */
  lemma InvMixRowOfMatrix()
    ensures InvMixRow(2, 1, 1, 3) == 1 && InvMixRow(3, 2, 1, 1) == 0
    ensures InvMixRow(1, 3, 2, 1) == 0 && InvMixRow(1, 1, 3, 2) == 0
  {
    hide Mul;
    MulSmall(0x0E); MulSmall(0x0B); MulSmall(0x0D); MulSmall(0x09);
  }

  lemma InvMixRowOfMixed(a: bv8, b: bv8, c: bv8, d: bv8)
    ensures InvMixRow(MixRow(a, b, c, d), MixRow(b, c, d, a), MixRow(c, d, a, b), MixRow(d, a, b, c)) == a
  {
    hide Add, Mul, InvMixRow;
    var a2, b2, c2, d2 := Mul(0x02, a), Mul(0x02, b), Mul(0x02, c), Mul(0x02, d);
    var a3, b3, c3, d3 := Mul(0x03, a), Mul(0x03, b), Mul(0x03, c), Mul(0x03, d);
    assert MixRow(b, c, d, a) == Sum4(a, b2, c3, d) by { Sum4Rotate(b2, c3, d, a); }
    assert MixRow(c, d, a, b) == Sum4(a, b, c2, d3) by { Sum4Halves(c2, d3, a, b); }
    assert MixRow(d, a, b, c) == Sum4(a3, b, c, d2) by { Sum4Rotate(a3, b, c, d2); }
    InvMixRowLinear(a2, a, a, a3, b3, b2, b, b);
    InvMixRowLinear(c, c3, c2, c, d, d, d3, d2);
    InvMixRowLinear(Add(a2, b3), Add(a, b2), Add(a, b), Add(a3, b), Add(c, d), Add(c3, d), Add(c2, d3), Add(c, d2));
    MulOne(a); MulOne(b); MulOne(c); MulOne(d);
    InvMixRowScale(2, 1, 1, 3, a); InvMixRowScale(3, 2, 1, 1, b);
    InvMixRowScale(1, 3, 2, 1, c); InvMixRowScale(1, 1, 3, 2, d);
    InvMixRowOfMatrix();
    MulZero(b); MulZero(c); MulZero(d);
    AddLaws(a, 0, 0); AddLaws(0, 0, 0);
  }

  lemma Sum4Rotate(a: bv8, b: bv8, c: bv8, d: bv8)
    ensures Sum4(a, b, c, d) == Sum4(d, a, b, c)
  {
    hide Add;
    AddLaws(Add(a, b), c, d);
    AddLaws(a, b, c);
    AddLaws(d, a, Add(b, c));
    AddLaws(Add(a, Add(b, c)), d, 0);
  }

  lemma Sum4Halves(a: bv8, b: bv8, c: bv8, d: bv8)
    ensures Sum4(a, b, c, d) == Sum4(c, d, a, b)
  {
    hide Add;
    AddLaws(Add(a, b), Add(c, d), 0);
  }

  lemma InvMixColumnInverts(w: Word)
    ensures InvMixColumn(MixColumn(w)) == w
  {
    hide MixRow, InvMixRow;
    InvMixRowOfMixed(w.b0, w.b1, w.b2, w.b3);
    InvMixRowOfMixed(w.b1, w.b2, w.b3, w.b0);
    InvMixRowOfMixed(w.b2, w.b3, w.b0, w.b1);
    InvMixRowOfMixed(w.b3, w.b0, w.b1, w.b2);
  }

  // ----- round transformations -----

  ghost function SubWord(w: Word): Word {
    Word(SBox(w.b0), SBox(w.b1), SBox(w.b2), SBox(w.b3))
  }

  ghost function InvSubWord(w: Word): Word {
    Word(InvSBox(w.b0), InvSBox(w.b1), InvSBox(w.b2), InvSBox(w.b3))
  }

  function RotWord(w: Word): Word {
    Word(w.b1, w.b2, w.b3, w.b0)
  }

  ghost function SubBytes(s: State): State {
    State(SubWord(s.c0), SubWord(s.c1), SubWord(s.c2), SubWord(s.c3))
  }

  ghost function InvSubBytes(s: State): State {
    State(InvSubWord(s.c0), InvSubWord(s.c1), InvSubWord(s.c2), InvSubWord(s.c3))
  }

  /** Row r moves left by r columns. */
  function ShiftRows(s: State): State {
    State(Word(s.c0.b0, s.c1.b1, s.c2.b2, s.c3.b3), Word(s.c1.b0, s.c2.b1, s.c3.b2, s.c0.b3),
          Word(s.c2.b0, s.c3.b1, s.c0.b2, s.c1.b3), Word(s.c3.b0, s.c0.b1, s.c1.b2, s.c2.b3))
  }

  /** Row r moves right by r columns. */
  function InvShiftRows(s: State): State {
    State(Word(s.c0.b0, s.c3.b1, s.c2.b2, s.c1.b3), Word(s.c1.b0, s.c0.b1, s.c3.b2, s.c2.b3),
          Word(s.c2.b0, s.c1.b1, s.c0.b2, s.c3.b3), Word(s.c3.b0, s.c2.b1, s.c1.b2, s.c0.b3))
  }

  function MixColumns(s: State): State {
    State(MixColumn(s.c0), MixColumn(s.c1), MixColumn(s.c2), MixColumn(s.c3))
  }

  function InvMixColumns(s: State): State {
    State(InvMixColumn(s.c0), InvMixColumn(s.c1), InvMixColumn(s.c2), InvMixColumn(s.c3))
  }

  function AddRoundKey(s: State, k: State): State {
    State(AddWord(s.c0, k.c0), AddWord(s.c1, k.c1), AddWord(s.c2, k.c2), AddWord(s.c3, k.c3))
  }

  // ----- cipher and equivalent inverse cipher -----

  /** Round keys by round number. */
  type Schedule = nat -> State

  ghost function Round(s: State, k: State): State {
    AddRoundKey(MixColumns(ShiftRows(SubBytes(s))), k)
  }

  ghost function LastRound(s: State, k: State): State {
    AddRoundKey(ShiftRows(SubBytes(s)), k)
  }

  /** The state after the initial key addition and n full rounds. */
  ghost function Rounds(s: State, keys: Schedule, n: nat): State {
    if n == 0 then AddRoundKey(s, keys(0)) else Round(Rounds(s, keys, n - 1), keys(n))
  }

  /** Cipher of section 5.1 with nr rounds. */
  ghost function Cipher(s: State, keys: Schedule, nr: nat): State
    requires nr > 0
  {
    LastRound(Rounds(s, keys, nr - 1), keys(nr))
  }

  ghost function InvRound(s: State, k: State): State {
    AddRoundKey(InvMixColumns(InvShiftRows(InvSubBytes(s))), k)
  }

  ghost function InvLastRound(s: State, k: State): State {
    AddRoundKey(InvShiftRows(InvSubBytes(s)), k)
  }

  ghost function InvRounds(s: State, keys: Schedule, n: nat): State {
    if n == 0 then AddRoundKey(s, keys(0)) else InvRound(InvRounds(s, keys, n - 1), keys(n))
  }

  /** EqInvCipher of section 5.3.5: the order of the rounds of Cipher, with inverse steps. */
  ghost function EqInvCipher(s: State, keys: Schedule, nr: nat): State
    requires nr > 0
  {
    InvLastRound(InvRounds(s, keys, nr - 1), keys(nr))
  }

  /** The schedule the equivalent inverse cipher needs: reversed, the inner keys transformed. */
  function InverseSchedule(keys: Schedule, nr: nat): Schedule {
    (r: nat) => if r == 0 || r >= nr then keys(if r >= nr then 0 else nr) else InvMixColumns(keys(nr - r))
  }

  lemma AddRoundKeyTwice(s: State, k: State)
    ensures AddRoundKey(AddRoundKey(s, k), k) == s
  {
    hide AddWord;
    AddWordTwice(s.c0, k.c0); AddWordTwice(s.c1, k.c1); AddWordTwice(s.c2, k.c2); AddWordTwice(s.c3, k.c3);
  }

  lemma AddWordTwice(v: Word, w: Word)
    ensures AddWord(AddWord(v, w), w) == v
  {
    hide Add;
    AddLaws(v.b0, w.b0, w.b0); AddLaws(v.b1, w.b1, w.b1); AddLaws(v.b2, w.b2, w.b2); AddLaws(v.b3, w.b3, w.b3);
    AddLaws(w.b0, 0, 0); AddLaws(w.b1, 0, 0); AddLaws(w.b2, 0, 0); AddLaws(w.b3, 0, 0);
  }

  lemma InvMixColumnsInverts(s: State)
    ensures InvMixColumns(MixColumns(s)) == s
  {
    hide InvMixColumn, MixColumn;
    InvMixColumnInverts(s.c0); InvMixColumnInverts(s.c1); InvMixColumnInverts(s.c2); InvMixColumnInverts(s.c3);
  }

  lemma InvMixColumnsLinear(s: State, k: State)
    ensures InvMixColumns(AddRoundKey(s, k)) == AddRoundKey(InvMixColumns(s), InvMixColumns(k))
  {
    hide InvMixColumn, AddWord;
    InvMixColumnLinear(s.c0, k.c0); InvMixColumnLinear(s.c1, k.c1);
    InvMixColumnLinear(s.c2, k.c2); InvMixColumnLinear(s.c3, k.c3);
  }

  /** Byte substitution and row shifts commute, so one undoes both. */
  lemma SubShiftInverts(s: State)
    ensures InvShiftRows(InvSubBytes(ShiftRows(SubBytes(s)))) == s
  {
    hide SBox, InvSBox;
    SBoxInverse(s.c0.b0); SBoxInverse(s.c0.b1); SBoxInverse(s.c0.b2); SBoxInverse(s.c0.b3);
    SBoxInverse(s.c1.b0); SBoxInverse(s.c1.b1); SBoxInverse(s.c1.b2); SBoxInverse(s.c1.b3);
    SBoxInverse(s.c2.b0); SBoxInverse(s.c2.b1); SBoxInverse(s.c2.b2); SBoxInverse(s.c2.b3);
    SBoxInverse(s.c3.b0); SBoxInverse(s.c3.b1); SBoxInverse(s.c3.b2); SBoxInverse(s.c3.b3);
  }

  /** After n inverse rounds the decrypter holds the substituted state of n rounds before the end. */
  lemma {:induction false} InverseRoundsMirror(s: State, keys: Schedule, nr: nat, n: nat)
    requires n < nr
    ensures InvRounds(Cipher(s, keys, nr), InverseSchedule(keys, nr), n) ==
            ShiftRows(SubBytes(Rounds(s, keys, nr - 1 - n)))
  {
    hide AddRoundKey, MixColumns, InvMixColumns, SubBytes, InvSubBytes, ShiftRows, InvShiftRows;
    if n == 0 {
      AddRoundKeyTwice(ShiftRows(SubBytes(Rounds(s, keys, nr - 1))), keys(nr));
    } else {
      InverseRoundsMirror(s, keys, nr, n - 1);
      var before, k := Rounds(s, keys, nr - 1 - n), keys(nr - n);
      var mixed := MixColumns(ShiftRows(SubBytes(before)));
      SubShiftInverts(Rounds(s, keys, nr - n));
      InvMixColumnsLinear(AddRoundKey(mixed, k), k);
      AddRoundKeyTwice(mixed, k);
      InvMixColumnsInverts(ShiftRows(SubBytes(before)));
    }
  }

  /** For every block and every schedule, the equivalent inverse cipher undoes the cipher. */
  lemma EqInvCipherInverts(s: State, keys: Schedule, nr: nat)
    requires nr > 0
    ensures EqInvCipher(Cipher(s, keys, nr), InverseSchedule(keys, nr), nr) == s
  {
    hide AddRoundKey, MixColumns, InvMixColumns, SubBytes, InvSubBytes, ShiftRows, InvShiftRows, Cipher, InvRounds;
    InverseRoundsMirror(s, keys, nr, nr - 1);
    SubShiftInverts(Rounds(s, keys, 0));
    AddRoundKeyTwice(s, keys(0));
  }

  // ----- key expansion -----

  /** Rcon[j] of section 5.2 for j >= 1: x^(j-1) in the first byte. */
  function Rcon(j: nat): Word {
    Word(XPow(j - 1), 0, 0, 0)
  }

  function XPow(j: int): bv8 {
    if j <= 0 then 1 else Xtime(XPow(j - 1))
  }

  /** Word i of KeyExpansion for a key of nk words. */
  ghost function KeyWord(key: seq<Word>, i: nat): Word
    requires |key| > 0
  {
    var nk := |key|;
    if i < nk then key[i]
    else
      var temp := KeyWord(key, i - 1);
      AddWord(KeyWord(key, i - nk),
        if i % nk == 0 then AddWord(SubWord(RotWord(temp)), Rcon(i / nk))
        else if nk > 6 && i % nk == 4 then SubWord(temp)
        else temp)
  }

  ghost function RoundKeys(key: seq<Word>): Schedule
    requires |key| > 0
  {
    (r: nat) => State(KeyWord(key, 4 * r), KeyWord(key, 4 * r + 1), KeyWord(key, 4 * r + 2), KeyWord(key, 4 * r + 3))
  }
}
