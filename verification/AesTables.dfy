/** The lookup tables of jni/raop_play/aes.c: what they must hold and how they are generated. */
module AesTables {
  import opened Gf256
  import opened AesSpec
  import opened AesWords

  // ----- what the tables hold -----

  ghost predicate IsSBox(t: Table) {
    |t| == 256 && forall x: bv8 :: t[Index(x)] == SBox(x) as bv32
  }

  ghost predicate IsInvSBox(t: Table) {
    |t| == 256 && forall x: bv8 :: t[Index(x)] == InvSBox(x) as bv32
  }

  /** The four rotations of a matrix column that a group of four tables holds for one byte. */
  function MixEntry(s: bv8): State {
    State(Mix0(s), Mix1(s), Mix2(s), Mix3(s))
  }

  function InvMixEntry(s: bv8): State {
    State(InvMix0(s), InvMix1(s), InvMix2(s), InvMix3(s))
  }

  ghost function ForwardEntry(x: bv8): State {
    MixEntry(SBox(x))
  }

  ghost function ReverseEntry(x: bv8): State {
    InvMixEntry(InvSBox(x))
  }

  ghost predicate EntryAt(t: Quad, i: int, e: State)
    requires t.Sized() && 0 <= i < 256
  {
    t.t0[i] == Pack(e.c0) && t.t1[i] == Pack(e.c1) && t.t2[i] == Pack(e.c2) && t.t3[i] == Pack(e.c3)
  }

  /** The tables hold the entries of all bytes below n. */
  ghost predicate Holds(t: Quad, entry: bv8 -> State, n: int) {
    t.Sized() &&
    forall x: bv8 :: Index(x) < n ==> EntryAt(t, Index(x), entry(x))
  }

  /** FT0..FT3: substitution followed by a column of MixColumns. */
  ghost predicate ForwardTables(t: Quad) {
    Holds(t, ForwardEntry, 256)
  }

  /** RT0..RT3: inverse substitution followed by a column of InvMixColumns. */
  ghost predicate ReverseTables(t: Quad) {
    Holds(t, ReverseEntry, 256)
  }

  /** KT0..KT3: a column of InvMixColumns alone. */
  ghost predicate KeyTables(t: Quad) {
    Holds(t, InvMixEntry, 256)
  }

  ghost predicate IsRcon(t: Table) {
    |t| == 10 && forall j :: 0 <= j < 10 ==> t[j] == Pack(Rcon(j + 1))
  }

  // ----- the pow and log tables -----

  lemma PowIndexDistinct255(a: nat, b: nat)
    requires 1 <= a < b <= 255
    ensures PowIndex(a) != PowIndex(b)
  {
    hide PowIndex;
    if b < 255 {
      PowIndexDistinct(a, b);
    } else {
      PowIndex255();
      PowIndexDistinct(0, a);
    }
  }

  lemma PowIndex255()
    ensures PowIndex(255) == PowIndex(0)
  {
    hide Pow;
    PowValues();
    PowZero();
  }

  lemma PowIndexRange(n: nat)
    ensures 0 <= PowIndex(n) < 256
  {
    hide Pow;
  }

  lemma PowStep(n: nat)
    ensures Pow(n + 1) == Times3(Pow(n))
  {}

  ghost predicate IsPow(pow: seq<bv8>) {
    |pow| == 256 && forall i: nat :: i < 256 ==> pow[i] == Pow(i)
  }

  ghost predicate IsLog(log: seq<nat>) {
    |log| == 256 && forall x: bv8 :: x != 0 ==> log[Index(x)] == Log(x)
  }

  /** The first loop of aes_gen_tables; log[1] is first set to 0 and ends as 255. */
  method GenPowLog() returns (pow: array<bv8>, log: array<nat>)
    ensures pow.Length == log.Length == 256 && IsPow(pow[..]) && IsLog(log[..])
  {
    hide Pow, Times3;
    pow, log := new bv8[256], new nat[256];
    var i, x: bv8 := 0, 1;
    PowZero();
    while i < 256
      invariant 0 <= i <= 256
      invariant x == Pow(i)
      invariant forall j: nat :: j < i ==> pow[j] == Pow(j)
      invariant forall n: nat :: 1 <= n < i ==> 0 <= PowIndex(n) < 256 && log[PowIndex(n)] == n
    {
      hide PowIndex;
      pow[i] := x;
      log[Index(x)] := i;
      forall n: nat | 1 <= n < i ensures PowIndex(n) != PowIndex(i) { PowIndexDistinct255(n, i); }
      PowIndexRange(i);
      PowStep(i);
      i, x := i + 1, Times3(x);
    }
    forall x: bv8 | x != 0 ensures log[Index(x)] == Log(x) {
      assert PowIndex(Log(x)) == Index(x);
    }
  }

  // ----- S-boxes -----

  /** The rotations of the S-box loop amount to the affine map. */
  function AffineSteps(x0: bv8): bv8 {
    var y1 := (x0 << 1) | (x0 >> 7);
    var x1 := x0 ^ y1;
    var y2 := (y1 << 1) | (y1 >> 7);
    var x2 := x1 ^ y2;
    var y3 := (y2 << 1) | (y2 >> 7);
    var x3 := x2 ^ y3;
    var y4 := (y3 << 1) | (y3 >> 7);
    x3 ^ (y4 ^ 0x63)
  }

  lemma AffineStepsCorrect(x: bv8)
    ensures AffineSteps(x) == Affine(x)
  {}

  lemma PowOfLogIsInverse(x: bv8)
    requires x != 0
    ensures Pow(255 - Log(x)) == Inverse(x)
  {
    hide Pow, Mul;
    LogInverse(x);
    InverseUnique(x, Pow(255 - Log(x)));
  }

  lemma SBoxZero()
    ensures SBox(0) == 0x63
  {}

  lemma SBoxInjective(x: bv8, y: bv8)
    requires x != y
    ensures Index(SBox(x)) != Index(SBox(y))
  {
    hide SBox, InvSBox;
    SBoxInverse(x);
    SBoxInverse(y);
  }

  ghost predicate SBoxesBelow(f: Table, r: Table, n: int)
    requires |f| == |r| == 256
  {
    forall x: bv8 :: Index(x) < n ==> f[Index(x)] == SBox(x) as bv32 && r[Index(SBox(x))] == x as bv32
  }

  lemma SBoxesStepAt(f: Table, r: Table, n: int, b: bv8, x: bv8)
    requires |f| == |r| == 256 && SBoxesBelow(f, r, n) && Index(b) == n && Index(x) <= n
    ensures f[n := SBox(b) as bv32][Index(x)] == SBox(x) as bv32
    ensures r[Index(SBox(b)) := b as bv32][Index(SBox(x))] == x as bv32
  {
    hide SBox, Index;
    IndexLaws(b, x); IndexLaws(x, b);
    IndexLaws(SBox(b), SBox(x)); IndexLaws(SBox(x), SBox(b));
    if x != b { SBoxInjective(x, b); }
  }

  lemma SBoxesStep(f: Table, r: Table, n: int, b: bv8)
    requires |f| == |r| == 256 && SBoxesBelow(f, r, n) && Index(b) == n
    ensures SBoxesBelow(f[n := SBox(b) as bv32], r[Index(SBox(b)) := b as bv32], n + 1)
  {
    hide SBox, Index;
    forall x: bv8 | Index(x) <= n { SBoxesStepAt(f, r, n, b, x); }
  }

  lemma SBoxesComplete(f: Table, r: Table)
    requires |f| == |r| == 256 && SBoxesBelow(f, r, 256)
    ensures IsSBox(f) && IsInvSBox(r)
  {
    hide SBox, InvSBox;
    forall y: bv8 ensures r[Index(y)] == InvSBox(y) as bv32 { SBoxInverse(y); }
  }

  lemma SBoxByTables(pow: seq<bv8>, log: seq<nat>, b: bv8)
    requires IsPow(pow) && IsLog(log) && Index(b) > 0
    ensures 0 <= log[Index(b)] <= 255 && AffineSteps(pow[255 - log[Index(b)]]) == SBox(b)
  {
    hide Pow, Affine, AffineSteps, Mul;
    PowOfLogIsInverse(b);
    AffineStepsCorrect(Inverse(b));
  }

  method GenSBoxes(pow: array<bv8>, log: array<nat>, f0: Table, r0: Table) returns (f: Table, r: Table)
    requires IsPow(pow[..]) && IsLog(log[..]) && |f0| == |r0| == 256
    ensures |f| == |r| == 256 && IsSBox(f) && IsInvSBox(r)
  {
    hide SBoxesBelow, AffineSteps, IsSBox, IsInvSBox, Index, Log, Pow;
    f, r := f0[0x00 := 0x63], r0[0x63 := 0x00];
    SBoxesStart(f0, r0);
    var i := 1;
    while i < 256
      invariant 1 <= i <= 256 && |f| == |r| == 256
      invariant SBoxesBelow(f, r, i)
    {
      var b := i as bv8;
      IndexOf(i);
      SBoxByTables(pow[..], log[..], b);
      var x := AffineSteps(pow[255 - log[i]]);
      IndexLaws(x, x);
      SBoxesStep(f, r, i, b);
      f, r := f[i := x as bv32], r[Index(x) := b as bv32];
      i := i + 1;
    }
    SBoxesComplete(f, r);
  }

  lemma SBoxesStart(f: Table, r: Table)
    requires |f| == |r| == 256
    ensures SBoxesBelow(f[0x00 := 0x63], r[0x63 := 0x00], 1)
  {
    hide SBox;
    SBoxZero();
    SBoxesStep(f, r, 0, 0);
  }

  // ----- mixing tables -----

  lemma HoldsStep(t: Quad, entry: bv8 -> State, b: bv8, w0: bv32, w1: bv32, w2: bv32, w3: bv32)
    requires t.Sized() && Holds(t, entry, Index(b)) && entry(b) == State(Unpack(w0), Unpack(w1), Unpack(w2), Unpack(w3))
    ensures var i := Index(b);
            Holds(Quad(t.t0[i := w0], t.t1[i := w1], t.t2[i := w2], t.t3[i := w3]), entry, i + 1)
  {
    hide Index, Pack, Unpack;
    PackUnpack(w0); PackUnpack(w1); PackUnpack(w2); PackUnpack(w3);
    forall x: bv8 { IndexLaws(x, b); }
  }

  lemma RotationsUnpacked(w: Word)
    ensures var f := Pack(w);
            UnpackState(f, RotR8(f), RotR8(RotR8(f)), RotR8(RotR8(RotR8(f)))) ==
            State(w, Word(w.b3, w.b0, w.b1, w.b2), Word(w.b2, w.b3, w.b0, w.b1), Word(w.b1, w.b2, w.b3, w.b0))
  {
    hide Pack, RotR8, Unpack;
    var w1, w2, w3 := Word(w.b3, w.b0, w.b1, w.b2), Word(w.b2, w.b3, w.b0, w.b1), Word(w.b1, w.b2, w.b3, w.b0);
    RotR8Pack(w); RotR8Pack(w1); RotR8Pack(w2);
    UnpackPack(w); UnpackPack(w1); UnpackPack(w2); UnpackPack(w3);
  }

  /** A forward entry from a substituted byte and its double. */
  function ForwardWord(x: bv8): bv32 {
    JoinBytes(Xtime(x), x, x, Times3(x))
  }

  lemma ForwardWordCorrect(x: bv8)
    ensures var f := ForwardWord(x);
            UnpackState(f, RotR8(f), RotR8(RotR8(f)), RotR8(RotR8(RotR8(f)))) == MixEntry(x)
  {
    hide Pack, RotR8, Unpack, JoinBytes, Mul, Xtime, Times3;
    MulSmall(x);
    JoinIsPack(Xtime(x), x, x, Times3(x));
    RotationsUnpacked(Mix0(x));
  }

  /** The MUL macro. */
  function TableMul(pow: seq<bv8>, log: seq<nat>, x: bv8, y: bv8): bv8
    requires |pow| == 256 && |log| == 256
  {
    if x != 0 && y != 0 then pow[(log[Index(x)] + log[Index(y)]) % 255] else 0
  }

  lemma TableMulCorrect(pow: seq<bv8>, log: seq<nat>, x: bv8, y: bv8)
    requires IsPow(pow) && IsLog(log)
    ensures TableMul(pow, log, x, y) == Mul(x, y)
  {
    hide Pow, Mul, Index;
    MulZero(x); MulZero(y);
    if x != 0 && y != 0 {
      MulOfPows(x, y);
      PowMod(Log(x) + Log(y));
    }
  }

  /** A reverse entry, multiplied out with the MUL macro. */
  function ReverseWord(pow: seq<bv8>, log: seq<nat>, y: bv8): bv32
    requires |pow| == |log| == 256
  {
    JoinBytes(TableMul(pow, log, 0x0E, y), TableMul(pow, log, 0x09, y),
              TableMul(pow, log, 0x0D, y), TableMul(pow, log, 0x0B, y))
  }

  lemma ReverseWordCorrect(pow: seq<bv8>, log: seq<nat>, y: bv8)
    requires IsPow(pow) && IsLog(log)
    ensures var r := ReverseWord(pow, log, y);
            UnpackState(r, RotR8(r), RotR8(RotR8(r)), RotR8(RotR8(RotR8(r)))) == InvMixEntry(y)
  {
    hide Pack, RotR8, Unpack, JoinBytes, Mul, TableMul, Pow, Log;
    TableMulCorrect(pow, log, 0x0E, y); TableMulCorrect(pow, log, 0x09, y);
    TableMulCorrect(pow, log, 0x0D, y); TableMulCorrect(pow, log, 0x0B, y);
    JoinIsPack(Mul(0x0E, y), Mul(0x09, y), Mul(0x0D, y), Mul(0x0B, y));
    RotationsUnpacked(InvMix0(y));
  }

  // ----- lookups -----

  /** Four table lookups and a key word make one column of a full round. */
  lemma ForwardLookup(k: bv32, t: Quad, a: bv8, b: bv8, c: bv8, d: bv8)
    requires ForwardTables(t)
    ensures Unpack(Lookup(k, t, a, b, c, d)) ==
            AddWord(MixColumn(SubWord(Word(a, b, c, d))), Unpack(k))
  {
    hide SBox, Index, Pack, Unpack, Xor, AddWord, MixColumn, Mix0, Mix1, Mix2, Mix3;
    IndexLaws(a, a); IndexLaws(b, b); IndexLaws(c, c); IndexLaws(d, d);
    MixColumnByTables(SubWord(Word(a, b, c, d)));
    UnpackLookup(k, Mix0(SBox(a)), Mix1(SBox(b)), Mix2(SBox(c)), Mix3(SBox(d)));
  }

  lemma ReverseLookup(k: bv32, t: Quad, a: bv8, b: bv8, c: bv8, d: bv8)
    requires ReverseTables(t)
    ensures Unpack(Lookup(k, t, a, b, c, d)) ==
            AddWord(InvMixColumn(InvSubWord(Word(a, b, c, d))), Unpack(k))
  {
    hide InvSBox, Index, Pack, Unpack, Xor, AddWord, InvMixColumn, InvMix0, InvMix1, InvMix2, InvMix3;
    IndexLaws(a, a); IndexLaws(b, b); IndexLaws(c, c); IndexLaws(d, d);
    InvMixColumnByTables(InvSubWord(Word(a, b, c, d)));
    UnpackLookup(k, InvMix0(InvSBox(a)), InvMix1(InvSBox(b)), InvMix2(InvSBox(c)), InvMix3(InvSBox(d)));
  }

  lemma KeyLookup(t: Quad, w: Word)
    requires KeyTables(t)
    ensures Lookup(0, t, w.b0, w.b1, w.b2, w.b3) == Pack(InvMixColumn(w))
  {
    hide Index, Pack, Unpack, Xor, AddWord, InvMixColumn, InvMix0, InvMix1, InvMix2, InvMix3;
    IndexLaws(w.b0, w.b0); IndexLaws(w.b1, w.b1); IndexLaws(w.b2, w.b2); IndexLaws(w.b3, w.b3);
    InvMixColumnByTables(w);
    UnpackLookup(0, InvMix0(w.b0), InvMix1(w.b1), InvMix2(w.b2), InvMix3(w.b3));
    AddWordZero(InvMixColumn(w));
    PackUnpack(Lookup(0, t, w.b0, w.b1, w.b2, w.b3));
  }

  lemma AddWordZero(w: Word)
    ensures AddWord(w, Unpack(0)) == w
  {}
}
