/** jni/raop_play/aes.c with generated tables: the key schedules and the block routines. */
module Aes {
  import opened Gf256
  import opened AesSpec
  import opened AesWords
  import opened AesTables
  import opened AesBytes

  /** aes_context: both key schedules and the number of rounds. */
  class Context {
    const erk: array<bv32>
    const drk: array<bv32>
    var nr: int

    constructor ()
      ensures erk.Length == drk.Length == 64 && erk != drk && fresh(erk) && fresh(drk)
    {
      erk, drk := new bv32[64], new bv32[64];
      nr := 0;
    }

    ghost predicate Valid()
      reads this
    {
      erk.Length == drk.Length == 64 && erk != drk
    }

    /** erk is the key expansion of a key, drk the schedule of the equivalent inverse cipher. */
    ghost predicate Scheduled(words: seq<Word>)
      requires |words| > 0
      reads this, erk, drk
    {
      nr > 0 && KeysUpTo(erk, RoundKeys(words), nr) && KeysUpTo(drk, InverseSchedule(RoundKeys(words), nr), nr)
    }
  }

  /** The global tables of the file and their generation flags. */
  class Tables {
    var FSb: Table
    var RSb: Table
    var RCON: Table
    var FT: Quad
    var RT: Quad
    var KT: Quad
    var doInit: bool
    var ktInit: bool

    ghost predicate Sized()
      reads this
    {
      |FSb| == |RSb| == 256 && |RCON| == 10 && FT.Sized() && RT.Sized() && KT.Sized()
    }

    ghost predicate Generated()
      reads this
    {
      IsSBox(FSb) && IsInvSBox(RSb) && IsRcon(RCON) &&
      ForwardTables(FT) && ReverseTables(RT)
    }

    /** A cleared flag means that the tables it guards are right. */
    ghost predicate Valid()
      reads this
    {
      Sized() && (!doInit ==> Generated()) && (!ktInit ==> KeyTables(KT))
    }

    constructor ()
      ensures Valid() && doInit && ktInit
    {
      var zeros := seq(256, _ => 0 as bv32);
      FSb, RSb := zeros, zeros;
      FT, RT, KT := Quad(zeros, zeros, zeros, zeros), Quad(zeros, zeros, zeros, zeros),
        Quad(zeros, zeros, zeros, zeros);
      RCON := seq(10, _ => 0 as bv32);
      doInit, ktInit := true, true;
    }

    /** aes_gen_tables */
    method GenTables()
      requires Sized()
      modifies this
      ensures Sized() && Generated()
      ensures doInit == old(doInit) && ktInit == old(ktInit)
      ensures KT == old(KT)
    {
      hide IsSBox, IsInvSBox, IsPow, IsLog, IsRcon, ForwardTables, ReverseTables;
      var pow, log := GenPowLog();
      GenRcon();
      FSb, RSb := GenSBoxes(pow, log, FSb, RSb);
      GenMixTables(pow, log);
    }

    method GenRcon()
      requires |RCON| == 10
      modifies this`RCON
      ensures |RCON| == 10 && IsRcon(RCON)
    {
      hide Xtime, Pack;
      var i, x: bv8 := 0, 1;
      while i < 10
        invariant 0 <= i <= 10 && |RCON| == 10
        invariant x == XPow(i)
        invariant forall j :: 0 <= j < i ==> RCON[j] == Pack(Rcon(j + 1))
      {
        RconWord(x);
        RCON := RCON[i := (x as bv32) << 24];
        i, x := i + 1, Xtime(x);
      }
    }

    method GenMixTables(pow: array<bv8>, log: array<nat>)
      requires Sized() && pow.Length == log.Length == 256 && IsPow(pow[..]) && IsLog(log[..]) && IsSBox(FSb)
      requires IsInvSBox(RSb)
      modifies this`FT, this`RT
      ensures Sized() && ForwardTables(FT) && ReverseTables(RT)
    {
      hide Holds, IsSBox, IsInvSBox, IsPow, IsLog, ForwardWord, ReverseWord, RotR8, Byte3;
      HoldsNothing(FT, ForwardEntry);
      HoldsNothing(RT, ReverseEntry);
      var i := 0;
      while i < 256
        invariant 0 <= i <= 256 && Sized()
        invariant Holds(FT, ForwardEntry, i)
        invariant Holds(RT, ReverseEntry, i)
      {
        ForwardStep(FSb, FT, i);
        FT := FT.SetRow(i, ForwardWord(Byte3(FSb[i])));
        ReverseStep(pow[..], log[..], RSb, RT, i);
        RT := RT.SetRow(i, ReverseWord(pow[..], log[..], Byte3(RSb[i])));
        i := i + 1;
      }
    }

    // ----- aes_set_key -----

    /** RK[nk] of a group: the word with the rotated substitution and round constant. */
    method PutFirst(rk: array<bv32>, nk: nat, k: nat, i: nat, ghost words: seq<Word>)
      requires Sized() && IsSBox(FSb) && IsRcon(RCON)
      requires 0 < nk == |words| <= k < rk.Length && k % nk == 0 && i < 10 && i + 1 == k / nk
      requires Expanded(rk, words, k)
      modifies rk
      ensures Expanded(rk, words, k + 1)
    {
      hide IsSBox, FirstWord, Pack, KeyWord, Rcon;
      FirstWordCorrect(FSb, words, k);
      rk[k] := FirstWord(FSb, RCON[i], rk[k - nk], rk[k - 1]);
    }

    /** RK[12] of a group of eight: the word with the plain substitution. */
    method PutMiddle(rk: array<bv32>, nk: nat, k: nat, ghost words: seq<Word>)
      requires Sized() && IsSBox(FSb)
      requires 6 < nk == |words| <= k < rk.Length && k % nk == 4
      requires Expanded(rk, words, k)
      modifies rk
      ensures Expanded(rk, words, k + 1)
    {
      hide IsSBox, MiddleWord, Pack, KeyWord;
      MiddleWordCorrect(FSb, words, k);
      rk[k] := MiddleWord(FSb, rk[k - nk], rk[k - 1]);
    }

    method PutNext(rk: array<bv32>, nk: nat, k: nat, ghost words: seq<Word>)
      requires 0 < nk == |words| <= k < rk.Length && k % nk != 0 && !(nk > 6 && k % nk == 4)
      requires Expanded(rk, words, k)
      modifies rk
      ensures Expanded(rk, words, k + 1)
    {
      hide Pack, KeyWord, Xor;
      NextWordCorrect(words, k);
      rk[k] := Xor(rk[k - nk], rk[k - 1]);
    }

    method Expand128(rk: array<bv32>, ghost words: seq<Word>)
      requires Sized() && IsSBox(FSb) && IsRcon(RCON)
      requires rk.Length == 64 && |words| == 4 && Expanded(rk, words, 4)
      modifies rk
      ensures Expanded(rk, words, 44) && ExpandedByBytes(rk, 4, 44)
    {
      hide IsSBox, IsRcon, Expanded, ExpandedByBytes;
      var i, p := 0, 0;
      while i < 10
        invariant 0 <= i <= 10 && p == 4 * i
        invariant Expanded(rk, words, 4 + p)
      {
        PutFirst(rk, 4, p + 4, i, words);
        PutNext(rk, 4, p + 5, words);
        PutNext(rk, 4, p + 6, words);
        PutNext(rk, 4, p + 7, words);
        i, p := i + 1, p + 4;
      }
      ExpandedIsByBytes(rk, words, 44);
    }

    method Expand192(rk: array<bv32>, ghost words: seq<Word>)
      requires Sized() && IsSBox(FSb) && IsRcon(RCON)
      requires rk.Length == 64 && |words| == 6 && Expanded(rk, words, 6)
      modifies rk
      ensures Expanded(rk, words, 54) && ExpandedByBytes(rk, 6, 54)
    {
      hide IsSBox, IsRcon, Expanded, ExpandedByBytes;
      var i, p := 0, 0;
      while i < 8
        invariant 0 <= i <= 8 && p == 6 * i
        invariant Expanded(rk, words, 6 + p)
      {
        PutFirst(rk, 6, p + 6, i, words);
        PutNext(rk, 6, p + 7, words);
        PutNext(rk, 6, p + 8, words);
        PutNext(rk, 6, p + 9, words);
        PutNext(rk, 6, p + 10, words);
        PutNext(rk, 6, p + 11, words);
        i, p := i + 1, p + 6;
      }
      ExpandedIsByBytes(rk, words, 54);
    }

    /** The last group of eight ends exactly at the end of the 64-word array. */
    method Expand256(rk: array<bv32>, ghost words: seq<Word>)
      requires Sized() && IsSBox(FSb) && IsRcon(RCON)
      requires rk.Length == 64 && |words| == 8 && Expanded(rk, words, 8)
      modifies rk
      ensures Expanded(rk, words, 64) && ExpandedByBytes(rk, 8, 64)
    {
      hide IsSBox, IsRcon, Expanded, ExpandedByBytes;
      var i, p := 0, 0;
      while i < 7
        invariant 0 <= i <= 7 && p == 8 * i
        invariant Expanded(rk, words, 8 + p)
      {
        PutFirst(rk, 8, p + 8, i, words);
        PutNext(rk, 8, p + 9, words);
        PutNext(rk, 8, p + 10, words);
        PutNext(rk, 8, p + 11, words);
        PutMiddle(rk, 8, p + 12, words);
        PutNext(rk, 8, p + 13, words);
        PutNext(rk, 8, p + 14, words);
        PutNext(rk, 8, p + 15, words);
        i, p := i + 1, p + 8;
      }
      ExpandedIsByBytes(rk, words, 64);
    }

    /** The KT loop: KT0[i] = RT0[FSb[i]] and likewise for the others. */
    method GenKeyTables()
      requires Sized() && Generated()
      modifies this`KT
      ensures Sized() && KeyTables(KT)
    {
      hide Holds, IsSBox, Byte3, ForwardTables, ReverseTables, Index, InvMixEntry, Unpack;
      HoldsNothing(KT, InvMixEntry);
      var i := 0;
      while i < 256
        invariant 0 <= i <= 256 && Sized()
        invariant Holds(KT, InvMixEntry, i)
      {
        var j := Index(Byte3(FSb[i]));
        IndexOf(i);
        KeyTableEntry(FSb, RT, i);
        HoldsStep(KT, InvMixEntry, i as bv8, RT.t0[j], RT.t1[j], RT.t2[j], RT.t3[j]);
        KT := Quad(KT.t0[i := RT.t0[j]], KT.t1[i := RT.t1[j]], KT.t2[i := RT.t2[j]], KT.t3[i := RT.t3[j]]);
        i := i + 1;
      }
    }

    /** drk: the last round key, then the inner keys backwards through InvMixColumns, then the first. */
    method InvertKeys(erk: array<bv32>, drk: array<bv32>, nr: int, ghost keys: Schedule)
      requires Sized() && KeyTables(KT)
      requires 1 <= nr <= 14 && erk.Length == drk.Length == 64 && erk != drk
      requires KeysUpTo(erk, keys, nr)
      modifies drk
      ensures KeysUpTo(drk, InverseSchedule(keys, nr), nr)
    {
      hide KeyTables, Pack, InvMixColumn, KeysAt;
      ghost var inv := InverseSchedule(keys, nr);
      var sk, rk := 0, 4 * nr;
      PutCopied(erk, rk, drk, sk, nr, keys, 0, inv);
      sk, rk := sk + 4, rk + 4;
      var i := 1;
      while i < nr
        invariant 1 <= i <= nr && sk == 4 * i && rk == 4 * (nr - i) + 8
        invariant forall r: nat :: r < i ==> KeysAt(drk, inv, r)
      {
        rk := rk - 8;
        PutInverted(erk, rk, drk, sk, nr - i, keys, i, inv);
        sk, rk, i := sk + 4, rk + 4, i + 1;
      }
      rk := rk - 8;
      PutCopied(erk, rk, drk, sk, 0, keys, nr, inv);
    }

    /** Copies round key n of erk to place m of drk. */
    method PutCopied(erk: array<bv32>, rk: nat, drk: array<bv32>, sk: nat,
                     ghost n: nat, ghost keys: Schedule, ghost m: nat, ghost inv: Schedule)
      requires erk != drk && rk == 4 * n && sk == 4 * m && sk + 4 <= drk.Length
      requires KeysAt(erk, keys, n) && inv(m) == keys(n)
      modifies drk
      ensures forall r: nat :: r != m && old(KeysAt(drk, inv, r)) ==> KeysAt(drk, inv, r)
      ensures KeysAt(drk, inv, m)
    {
      hide Pack;
      drk[sk], drk[sk + 1], drk[sk + 2], drk[sk + 3] := erk[rk], erk[rk + 1], erk[rk + 2], erk[rk + 3];
    }

    /** Puts round key n of erk, passed through InvMixColumns, at place m of drk. */
    method PutInverted(erk: array<bv32>, rk: nat, drk: array<bv32>, sk: nat,
                       ghost n: nat, ghost keys: Schedule, ghost m: nat, ghost inv: Schedule)
      requires Sized() && KeyTables(KT)
      requires erk != drk && rk == 4 * n && sk == 4 * m && sk + 4 <= drk.Length
      requires KeysAt(erk, keys, n) && inv(m) == InvMixColumns(keys(n))
      modifies drk
      ensures forall r: nat :: r != m && old(KeysAt(drk, inv, r)) ==> KeysAt(drk, inv, r)
      ensures KeysAt(drk, inv, m)
    {
      hide KeyTables, Pack, InvMixColumn, MixKeyWord;
      ghost var k := keys(n);
      MixKeyWordCorrect(KT, k.c0);
      MixKeyWordCorrect(KT, k.c1);
      MixKeyWordCorrect(KT, k.c2);
      MixKeyWordCorrect(KT, k.c3);
      drk[sk] := MixKeyWord(KT, erk[rk]);
      drk[sk + 1] := MixKeyWord(KT, erk[rk + 1]);
      drk[sk + 2] := MixKeyWord(KT, erk[rk + 2]);
      drk[sk + 3] := MixKeyWord(KT, erk[rk + 3]);
    }

    /** aes_set_key: 1 for an unsupported key size, else 0 and both schedules. */
    method SetKey(ctx: Context, key: seq<bv8>, nbits: int) returns (ret: int)
      requires Valid() && ctx.Valid()
      requires nbits == 128 || nbits == 192 || nbits == 256 ==> |key| >= nbits / 8
      modifies this, ctx, ctx.erk, ctx.drk
      ensures Valid() && !doInit && ctx.Valid()
      ensures ret == if nbits == 128 || nbits == 192 || nbits == 256 then 0 else 1
      ensures ret == 1 ==> ctx.nr == old(ctx.nr) && ctx.erk[..] == old(ctx.erk[..]) && ctx.drk[..] == old(ctx.drk[..])
      ensures ret == 0 ==> ctx.nr == nbits / 32 + 6 && ctx.Scheduled(KeyWords(key, nbits / 32))
      ensures ret == 0 ==> forall i: nat, j: nat :: i < nbits / 32 && j < 4 ==> ByteAt(ctx.erk[i], j) == key[4 * i + j]
      ensures ret == 0 ==> ExpandedByBytes(ctx.erk, nbits / 32, 4 * (nbits / 32 + 6) + 4)
    {
      hide KeyTables, ForwardTables, ReverseTables, IsSBox, IsInvSBox, IsRcon, Pack, KeyWord, KeysUpTo, Expanded,
           ExpandedByBytes, ByteAt;
      if doInit {
        GenTables();
        doInit := false;
      }
      if nbits == 128 {
        ctx.nr := 10;
      } else if nbits == 192 {
        ctx.nr := 12;
      } else if nbits == 256 {
        ctx.nr := 14;
      } else {
        return 1;
      }
      var nk := nbits / 32;
      ghost var words := KeyWords(key, nk);
      LoadKey(ctx.erk, key, nk, words);
      ExpandKey(ctx.erk, nk, words);
      ExpandedKeys(ctx.erk, words, ctx.nr);
      LoadedBytes(ctx.erk, key, nk);
      if ktInit {
        GenKeyTables();
        ktInit := false;
      }
      InvertKeys(ctx.erk, ctx.drk, ctx.nr, RoundKeys(words));
      return 0;
    }

    method LoadKey(rk: array<bv32>, key: seq<bv8>, nk: nat, ghost words: seq<Word>)
      requires 0 < nk <= rk.Length && |key| >= 4 * nk && words == KeyWords(key, nk)
      modifies rk
      ensures Expanded(rk, words, nk)
    {
      hide Pack;
      var i := 0;
      while i < nk
        invariant 0 <= i <= nk
        invariant forall k: nat :: k < i ==> rk[k] == Pack(words[k])
      {
        rk[i] := Pack(Word(key[4 * i], key[4 * i + 1], key[4 * i + 2], key[4 * i + 3]));
        i := i + 1;
      }
    }

    method ExpandKey(rk: array<bv32>, nk: nat, ghost words: seq<Word>)
      requires Sized() && Generated()
      requires rk.Length == 64 && |words| == nk && (nk == 4 || nk == 6 || nk == 8) && Expanded(rk, words, nk)
      modifies rk
      ensures Expanded(rk, words, 4 * (nk + 6) + 4)
      ensures ExpandedByBytes(rk, nk, 4 * (nk + 6) + 4)
    {
      hide IsSBox, IsRcon, Pack, KeyWord;
      if nk == 4 {
        Expand128(rk, words);
      } else if nk == 6 {
        Expand192(rk, words);
      } else {
        Expand256(rk, words);
      }
    }

    // ----- aes_encrypt and aes_decrypt -----

    /** AES_FROUND with the round key at p. */
    method ForwardRound(rk: array<bv32>, p: nat, y0: bv32, y1: bv32, y2: bv32, y3: bv32,
                        ghost s: State, ghost keys: Schedule, ghost r: nat, ghost nr: nat)
      returns (x0: bv32, x1: bv32, x2: bv32, x3: bv32)
      requires Sized() && ForwardTables(FT)
      requires 1 <= r <= nr && p == 4 * r && KeysUpTo(rk, keys, nr)
      requires UnpackState(y0, y1, y2, y3) == Rounds(s, keys, r - 1)
      ensures UnpackState(x0, x1, x2, x3) == Rounds(s, keys, r)
    {
      hide ForwardTables, Pack, Unpack, Lookup, Byte0, Byte1, Byte2, Byte3, Round;
      assert KeysAt(rk, keys, r);
      x0 := Lookup(rk[p], FT, Byte0(y0), Byte1(y1), Byte2(y2), Byte3(y3));
      x1 := Lookup(rk[p + 1], FT, Byte0(y1), Byte1(y2), Byte2(y3), Byte3(y0));
      x2 := Lookup(rk[p + 2], FT, Byte0(y2), Byte1(y3), Byte2(y0), Byte3(y1));
      x3 := Lookup(rk[p + 3], FT, Byte0(y3), Byte1(y0), Byte2(y1), Byte3(y2));
      ForwardRoundCorrect(FT, keys(r), y0, y1, y2, y3);
    }

    /** AES_RROUND with the round key at p. */
    method ReverseRound(rk: array<bv32>, p: nat, y0: bv32, y1: bv32, y2: bv32, y3: bv32,
                        ghost s: State, ghost keys: Schedule, ghost r: nat, ghost nr: nat)
      returns (x0: bv32, x1: bv32, x2: bv32, x3: bv32)
      requires Sized() && ReverseTables(RT)
      requires 1 <= r <= nr && p == 4 * r && KeysUpTo(rk, keys, nr)
      requires UnpackState(y0, y1, y2, y3) == InvRounds(s, keys, r - 1)
      ensures UnpackState(x0, x1, x2, x3) == InvRounds(s, keys, r)
    {
      hide ReverseTables, Pack, Unpack, Lookup, Byte0, Byte1, Byte2, Byte3, InvRound;
      assert KeysAt(rk, keys, r);
      x0 := Lookup(rk[p], RT, Byte0(y0), Byte1(y3), Byte2(y2), Byte3(y1));
      x1 := Lookup(rk[p + 1], RT, Byte0(y1), Byte1(y0), Byte2(y3), Byte3(y2));
      x2 := Lookup(rk[p + 2], RT, Byte0(y2), Byte1(y1), Byte2(y0), Byte3(y3));
      x3 := Lookup(rk[p + 3], RT, Byte0(y3), Byte1(y2), Byte2(y1), Byte3(y0));
      ReverseRoundCorrect(RT, keys(r), y0, y1, y2, y3);
    }

    /** The last round of the cipher: substitution only. */
    method LastForwardRound(rk: array<bv32>, p: nat, y0: bv32, y1: bv32, y2: bv32, y3: bv32,
                            ghost keys: Schedule, ghost nr: nat)
      returns (x0: bv32, x1: bv32, x2: bv32, x3: bv32)
      requires Sized() && IsSBox(FSb) && p == 4 * nr && KeysUpTo(rk, keys, nr)
      ensures UnpackState(x0, x1, x2, x3) == LastRound(UnpackState(y0, y1, y2, y3), keys(nr))
    {
      hide IsSBox, Pack, Unpack, Substitute, Xor, Byte0, Byte1, Byte2, Byte3, LastRound;
      assert KeysAt(rk, keys, nr);
      x0 := Xor(rk[p], Substitute(FSb, Byte0(y0), Byte1(y1), Byte2(y2), Byte3(y3)));
      x1 := Xor(rk[p + 1], Substitute(FSb, Byte0(y1), Byte1(y2), Byte2(y3), Byte3(y0)));
      x2 := Xor(rk[p + 2], Substitute(FSb, Byte0(y2), Byte1(y3), Byte2(y0), Byte3(y1)));
      x3 := Xor(rk[p + 3], Substitute(FSb, Byte0(y3), Byte1(y0), Byte2(y1), Byte3(y2)));
      LastForwardRoundCorrect(FSb, keys(nr), y0, y1, y2, y3);
    }

    method LastReverseRound(rk: array<bv32>, p: nat, y0: bv32, y1: bv32, y2: bv32, y3: bv32,
                            ghost keys: Schedule, ghost nr: nat)
      returns (x0: bv32, x1: bv32, x2: bv32, x3: bv32)
      requires Sized() && IsInvSBox(RSb) && p == 4 * nr && KeysUpTo(rk, keys, nr)
      ensures UnpackState(x0, x1, x2, x3) == InvLastRound(UnpackState(y0, y1, y2, y3), keys(nr))
    {
      hide IsInvSBox, Pack, Unpack, Substitute, Xor, Byte0, Byte1, Byte2, Byte3, InvLastRound;
      assert KeysAt(rk, keys, nr);
      x0 := Xor(rk[p], Substitute(RSb, Byte0(y0), Byte1(y3), Byte2(y2), Byte3(y1)));
      x1 := Xor(rk[p + 1], Substitute(RSb, Byte0(y1), Byte1(y0), Byte2(y3), Byte3(y2)));
      x2 := Xor(rk[p + 2], Substitute(RSb, Byte0(y2), Byte1(y1), Byte2(y0), Byte3(y3)));
      x3 := Xor(rk[p + 3], Substitute(RSb, Byte0(y3), Byte1(y2), Byte2(y1), Byte3(y0)));
      LastReverseRoundCorrect(RSb, keys(nr), y0, y1, y2, y3);
    }

    /** All rounds but the last. */
    method RoundLoop(rk: array<bv32>, nr: int, a0: bv32, a1: bv32, a2: bv32, a3: bv32, ghost s: State,
                     ghost keys: Schedule)
      returns (p: nat, y0: bv32, y1: bv32, y2: bv32, y3: bv32)
      requires Sized() && ForwardTables(FT) && KeysUpTo(rk, keys, RoundCount(nr))
      requires UnpackState(a0, a1, a2, a3) == Rounds(s, keys, 0)
      ensures p == 4 * RoundCount(nr) && UnpackState(y0, y1, y2, y3) == Rounds(s, keys, RoundCount(nr) - 1)
    {
      hide ForwardTables, ReverseTables, KeysUpTo, Rounds, InvRounds, UnpackState;
      ghost var n := RoundCount(nr);
      y0, y1, y2, y3 := ForwardRound(rk, 4, a0, a1, a2, a3, s, keys, 1, n);
      var x0, x1, x2, x3 := ForwardRound(rk, 8, y0, y1, y2, y3, s, keys, 2, n);
      y0, y1, y2, y3 := ForwardRound(rk, 12, x0, x1, x2, x3, s, keys, 3, n);
      x0, x1, x2, x3 := ForwardRound(rk, 16, y0, y1, y2, y3, s, keys, 4, n);
      y0, y1, y2, y3 := ForwardRound(rk, 20, x0, x1, x2, x3, s, keys, 5, n);
      x0, x1, x2, x3 := ForwardRound(rk, 24, y0, y1, y2, y3, s, keys, 6, n);
      y0, y1, y2, y3 := ForwardRound(rk, 28, x0, x1, x2, x3, s, keys, 7, n);
      x0, x1, x2, x3 := ForwardRound(rk, 32, y0, y1, y2, y3, s, keys, 8, n);
      y0, y1, y2, y3 := ForwardRound(rk, 36, x0, x1, x2, x3, s, keys, 9, n);
      p := 40;
      if nr > 10 {
        x0, x1, x2, x3 := ForwardRound(rk, 40, y0, y1, y2, y3, s, keys, 10, n);
        y0, y1, y2, y3 := ForwardRound(rk, 44, x0, x1, x2, x3, s, keys, 11, n);
        p := 48;
      }
      if nr > 12 {
        x0, x1, x2, x3 := ForwardRound(rk, 48, y0, y1, y2, y3, s, keys, 12, n);
        y0, y1, y2, y3 := ForwardRound(rk, 52, x0, x1, x2, x3, s, keys, 13, n);
        p := 56;
      }
    }

    /** All rounds but the last. */
    method InvRoundLoop(rk: array<bv32>, nr: int, a0: bv32, a1: bv32, a2: bv32, a3: bv32, ghost s: State,
                        ghost keys: Schedule)
      returns (p: nat, y0: bv32, y1: bv32, y2: bv32, y3: bv32)
      requires Sized() && ReverseTables(RT) && KeysUpTo(rk, keys, RoundCount(nr))
      requires UnpackState(a0, a1, a2, a3) == InvRounds(s, keys, 0)
      ensures p == 4 * RoundCount(nr) && UnpackState(y0, y1, y2, y3) == InvRounds(s, keys, RoundCount(nr) - 1)
    {
      hide ForwardTables, ReverseTables, KeysUpTo, Rounds, InvRounds, UnpackState;
      ghost var n := RoundCount(nr);
      y0, y1, y2, y3 := ReverseRound(rk, 4, a0, a1, a2, a3, s, keys, 1, n);
      var x0, x1, x2, x3 := ReverseRound(rk, 8, y0, y1, y2, y3, s, keys, 2, n);
      y0, y1, y2, y3 := ReverseRound(rk, 12, x0, x1, x2, x3, s, keys, 3, n);
      x0, x1, x2, x3 := ReverseRound(rk, 16, y0, y1, y2, y3, s, keys, 4, n);
      y0, y1, y2, y3 := ReverseRound(rk, 20, x0, x1, x2, x3, s, keys, 5, n);
      x0, x1, x2, x3 := ReverseRound(rk, 24, y0, y1, y2, y3, s, keys, 6, n);
      y0, y1, y2, y3 := ReverseRound(rk, 28, x0, x1, x2, x3, s, keys, 7, n);
      x0, x1, x2, x3 := ReverseRound(rk, 32, y0, y1, y2, y3, s, keys, 8, n);
      y0, y1, y2, y3 := ReverseRound(rk, 36, x0, x1, x2, x3, s, keys, 9, n);
      p := 40;
      if nr > 10 {
        x0, x1, x2, x3 := ReverseRound(rk, 40, y0, y1, y2, y3, s, keys, 10, n);
        y0, y1, y2, y3 := ReverseRound(rk, 44, x0, x1, x2, x3, s, keys, 11, n);
        p := 48;
      }
      if nr > 12 {
        x0, x1, x2, x3 := ReverseRound(rk, 48, y0, y1, y2, y3, s, keys, 12, n);
        y0, y1, y2, y3 := ReverseRound(rk, 52, x0, x1, x2, x3, s, keys, 13, n);
        p := 56;
      }
    }

    /** aes_encrypt; input and output may be the same bytes. */
    method Encrypt(ctx: Context, input: array<bv8>, src: nat, output: array<bv8>, dst: nat, ghost keys: Schedule)
      requires Valid() && !doInit && ctx.Valid()
      requires src + 16 <= input.Length && dst + 16 <= output.Length
      requires KeysUpTo(ctx.erk, keys, RoundCount(ctx.nr))
      modifies output
      ensures output[dst..dst + 16] == BytesOf(Cipher(StateOf(old(input[src..src + 16])), keys, RoundCount(ctx.nr)))
      ensures forall j :: 0 <= j < output.Length && !(dst <= j < dst + 16) ==> output[j] == old(output[j])
    {
      hide Rounds, InvRounds, IsSBox, IsInvSBox, IsRcon, ForwardTables, ReverseTables, KeyTables, KeysUpTo, UnpackState,
           StateOf, BytesOf, LastRound, InvLastRound;
      ghost var s := StateOf(input[src..src + 16]);
      var x0, x1, x2, x3 := LoadBlock(input, src, ctx.erk, keys, RoundCount(ctx.nr));
      var p, y0, y1, y2, y3 := RoundLoop(ctx.erk, ctx.nr, x0, x1, x2, x3, s, keys);
      x0, x1, x2, x3 := LastForwardRound(ctx.erk, p, y0, y1, y2, y3, keys, RoundCount(ctx.nr));
      StoreBlock(output, dst, x0, x1, x2, x3);
    }

    /** aes_decrypt; input and output may be the same bytes. */
    method Decrypt(ctx: Context, input: array<bv8>, src: nat, output: array<bv8>, dst: nat, ghost keys: Schedule)
      requires Valid() && !doInit && ctx.Valid()
      requires src + 16 <= input.Length && dst + 16 <= output.Length
      requires KeysUpTo(ctx.drk, keys, RoundCount(ctx.nr))
      modifies output
      ensures output[dst..dst + 16]
           == BytesOf(EqInvCipher(StateOf(old(input[src..src + 16])), keys, RoundCount(ctx.nr)))
      ensures forall j :: 0 <= j < output.Length && !(dst <= j < dst + 16) ==> output[j] == old(output[j])
    {
      hide Rounds, InvRounds, IsSBox, IsInvSBox, IsRcon, ForwardTables, ReverseTables, KeyTables, KeysUpTo, UnpackState,
           StateOf, BytesOf, LastRound, InvLastRound;
      ghost var s := StateOf(input[src..src + 16]);
      var x0, x1, x2, x3 := LoadBlock(input, src, ctx.drk, keys, RoundCount(ctx.nr));
      var p, y0, y1, y2, y3 := InvRoundLoop(ctx.drk, ctx.nr, x0, x1, x2, x3, s, keys);
      x0, x1, x2, x3 := LastReverseRound(ctx.drk, p, y0, y1, y2, y3, keys, RoundCount(ctx.nr));
      StoreBlock(output, dst, x0, x1, x2, x3);
    }
  }

  /** The number of rounds the two `if` statements of the block routines make. */
  function RoundCount(nr: int): nat {
    if nr > 12 then 14 else if nr > 10 then 12 else 10
  }

  /** GET_UINT32 four times and the first key addition. */
  method LoadBlock(input: array<bv8>, src: nat, rk: array<bv32>, ghost keys: Schedule, ghost nr: nat)
    returns (x0: bv32, x1: bv32, x2: bv32, x3: bv32)
    requires src + 16 <= input.Length && rk.Length >= 4 && KeysUpTo(rk, keys, nr)
    ensures UnpackState(x0, x1, x2, x3) == Rounds(StateOf(input[src..src + 16]), keys, 0)
    ensures UnpackState(x0, x1, x2, x3) == InvRounds(StateOf(input[src..src + 16]), keys, 0)
  {
    hide Pack, Unpack, Xor, AddWord;
    assert KeysAt(rk, keys, 0);
    x0 := Xor(Pack(Word(input[src], input[src + 1], input[src + 2], input[src + 3])), rk[0]);
    x1 := Xor(Pack(Word(input[src + 4], input[src + 5], input[src + 6], input[src + 7])), rk[1]);
    x2 := Xor(Pack(Word(input[src + 8], input[src + 9], input[src + 10], input[src + 11])), rk[2]);
    x3 := Xor(Pack(Word(input[src + 12], input[src + 13], input[src + 14], input[src + 15])), rk[3]);
    ghost var s := StateOf(input[src..src + 16]);
    UnpackXorPack(s.c0, keys(0).c0); UnpackXorPack(s.c1, keys(0).c1);
    UnpackXorPack(s.c2, keys(0).c2); UnpackXorPack(s.c3, keys(0).c3);
  }

  lemma UnpackXorPack(v: Word, w: Word)
    ensures Unpack(Xor(Pack(v), Pack(w))) == AddWord(v, w)
  {
    hide Pack, Unpack, Xor, AddWord;
    XorPack(v, w);
    UnpackPack(AddWord(v, w));
  }

  /** PUT_UINT32 four times. */
  method StoreBlock(output: array<bv8>, dst: nat, x0: bv32, x1: bv32, x2: bv32, x3: bv32)
    requires dst + 16 <= output.Length
    modifies output
    ensures output[dst..dst + 16] == BytesOf(UnpackState(x0, x1, x2, x3))
    ensures forall j :: 0 <= j < output.Length && !(dst <= j < dst + 16) ==> output[j] == old(output[j])
  {
    StoreWord(output, dst, x0);
    StoreWord(output, dst + 4, x1);
    StoreWord(output, dst + 8, x2);
    StoreWord(output, dst + 12, x3);
  }

  method StoreWord(output: array<bv8>, dst: nat, x: bv32)
    requires dst + 4 <= output.Length
    modifies output
    ensures output[dst..dst + 4] == WordBytes(Unpack(x))
    ensures forall j :: 0 <= j < output.Length && !(dst <= j < dst + 4) ==> output[j] == old(output[j])
  {
    hide Byte0, Byte1, Byte2, Byte3;
    output[dst] := Byte0(x);
    output[dst + 1] := Byte1(x);
    output[dst + 2] := Byte2(x);
    output[dst + 3] := Byte3(x);
  }

  lemma ForwardColumn(t: Quad, k: Word, a: bv8, b: bv8, c: bv8, d: bv8)
    requires t.Sized() && ForwardTables(t)
    ensures Unpack(Lookup(Pack(k), t, a, b, c, d)) == AddWord(MixColumn(SubWord(Word(a, b, c, d))), k)
  {
    hide ForwardTables, Pack, Unpack, Lookup, MixColumn, SubWord, AddWord;
    ForwardLookup(Pack(k), t, a, b, c, d);
    UnpackPack(k);
  }

  /** One table round is one round of the cipher. */
  lemma ForwardRoundCorrect(t: Quad, k: State, y0: bv32, y1: bv32, y2: bv32, y3: bv32)
    requires t.Sized() && ForwardTables(t)
    ensures UnpackState(Lookup(Pack(k.c0), t, Byte0(y0), Byte1(y1), Byte2(y2), Byte3(y3)),
                        Lookup(Pack(k.c1), t, Byte0(y1), Byte1(y2), Byte2(y3), Byte3(y0)),
                        Lookup(Pack(k.c2), t, Byte0(y2), Byte1(y3), Byte2(y0), Byte3(y1)),
                        Lookup(Pack(k.c3), t, Byte0(y3), Byte1(y0), Byte2(y1), Byte3(y2)))
            == Round(UnpackState(y0, y1, y2, y3), k)
  {
    hide ForwardTables, Pack, Lookup, MixColumn, SBox, AddWord, Byte0, Byte1, Byte2, Byte3;
    ForwardColumn(t, k.c0, Byte0(y0), Byte1(y1), Byte2(y2), Byte3(y3));
    ForwardColumn(t, k.c1, Byte0(y1), Byte1(y2), Byte2(y3), Byte3(y0));
    ForwardColumn(t, k.c2, Byte0(y2), Byte1(y3), Byte2(y0), Byte3(y1));
    ForwardColumn(t, k.c3, Byte0(y3), Byte1(y0), Byte2(y1), Byte3(y2));
  }

  lemma ReverseColumn(t: Quad, k: Word, a: bv8, b: bv8, c: bv8, d: bv8)
    requires t.Sized() && ReverseTables(t)
    ensures Unpack(Lookup(Pack(k), t, a, b, c, d)) == AddWord(InvMixColumn(InvSubWord(Word(a, b, c, d))), k)
  {
    hide ReverseTables, Pack, Unpack, Lookup, InvMixColumn, InvSubWord, AddWord;
    ReverseLookup(Pack(k), t, a, b, c, d);
    UnpackPack(k);
  }

  lemma ReverseRoundCorrect(t: Quad, k: State, y0: bv32, y1: bv32, y2: bv32, y3: bv32)
    requires t.Sized() && ReverseTables(t)
    ensures UnpackState(Lookup(Pack(k.c0), t, Byte0(y0), Byte1(y3), Byte2(y2), Byte3(y1)),
                        Lookup(Pack(k.c1), t, Byte0(y1), Byte1(y0), Byte2(y3), Byte3(y2)),
                        Lookup(Pack(k.c2), t, Byte0(y2), Byte1(y1), Byte2(y0), Byte3(y3)),
                        Lookup(Pack(k.c3), t, Byte0(y3), Byte1(y2), Byte2(y1), Byte3(y0)))
            == InvRound(UnpackState(y0, y1, y2, y3), k)
  {
    hide ReverseTables, Pack, Lookup, InvMixColumn, InvSBox, AddWord, Byte0, Byte1, Byte2, Byte3;
    ReverseColumn(t, k.c0, Byte0(y0), Byte1(y3), Byte2(y2), Byte3(y1));
    ReverseColumn(t, k.c1, Byte0(y1), Byte1(y0), Byte2(y3), Byte3(y2));
    ReverseColumn(t, k.c2, Byte0(y2), Byte1(y1), Byte2(y0), Byte3(y3));
    ReverseColumn(t, k.c3, Byte0(y3), Byte1(y2), Byte2(y1), Byte3(y0));
  }

  lemma LastColumn(x: bv32, w: Word, k: Word)
    requires Unpack(x) == w
    ensures Unpack(Xor(Pack(k), x)) == AddWord(w, k)
  {
    hide Pack, Unpack, Xor, AddWord;
    UnpackXor(Pack(k), x);
    UnpackPack(k);
    AddWordLaws(w, k, k);
  }

  lemma LastForwardRoundCorrect(sbox: Table, k: State, y0: bv32, y1: bv32, y2: bv32, y3: bv32)
    requires |sbox| == 256 && IsSBox(sbox)
    ensures UnpackState(Xor(Pack(k.c0), Substitute(sbox, Byte0(y0), Byte1(y1), Byte2(y2), Byte3(y3))),
                        Xor(Pack(k.c1), Substitute(sbox, Byte0(y1), Byte1(y2), Byte2(y3), Byte3(y0))),
                        Xor(Pack(k.c2), Substitute(sbox, Byte0(y2), Byte1(y3), Byte2(y0), Byte3(y1))),
                        Xor(Pack(k.c3), Substitute(sbox, Byte0(y3), Byte1(y0), Byte2(y1), Byte3(y2))))
            == LastRound(UnpackState(y0, y1, y2, y3), k)
  {
    hide IsSBox, Pack, Xor, Substitute, SBox, AddWord, Byte0, Byte1, Byte2, Byte3;
    LastForwardColumn(sbox, k.c0, Byte0(y0), Byte1(y1), Byte2(y2), Byte3(y3));
    LastForwardColumn(sbox, k.c1, Byte0(y1), Byte1(y2), Byte2(y3), Byte3(y0));
    LastForwardColumn(sbox, k.c2, Byte0(y2), Byte1(y3), Byte2(y0), Byte3(y1));
    LastForwardColumn(sbox, k.c3, Byte0(y3), Byte1(y0), Byte2(y1), Byte3(y2));
  }

  lemma LastForwardColumn(sbox: Table, k: Word, a: bv8, b: bv8, c: bv8, d: bv8)
    requires |sbox| == 256 && IsSBox(sbox)
    ensures Unpack(Xor(Pack(k), Substitute(sbox, a, b, c, d))) == AddWord(SubWord(Word(a, b, c, d)), k)
  {
    hide IsSBox, Pack, Unpack, Xor, Substitute, SubWord, AddWord;
    SubstituteForward(sbox, a, b, c, d);
    LastColumn(Substitute(sbox, a, b, c, d), SubWord(Word(a, b, c, d)), k);
  }

  lemma LastReverseRoundCorrect(sbox: Table, k: State, y0: bv32, y1: bv32, y2: bv32, y3: bv32)
    requires |sbox| == 256 && IsInvSBox(sbox)
    ensures UnpackState(Xor(Pack(k.c0), Substitute(sbox, Byte0(y0), Byte1(y3), Byte2(y2), Byte3(y1))),
                        Xor(Pack(k.c1), Substitute(sbox, Byte0(y1), Byte1(y0), Byte2(y3), Byte3(y2))),
                        Xor(Pack(k.c2), Substitute(sbox, Byte0(y2), Byte1(y1), Byte2(y0), Byte3(y3))),
                        Xor(Pack(k.c3), Substitute(sbox, Byte0(y3), Byte1(y2), Byte2(y1), Byte3(y0))))
            == InvLastRound(UnpackState(y0, y1, y2, y3), k)
  {
    hide IsInvSBox, Pack, Xor, Substitute, InvSBox, AddWord, Byte0, Byte1, Byte2, Byte3;
    LastReverseColumn(sbox, k.c0, Byte0(y0), Byte1(y3), Byte2(y2), Byte3(y1));
    LastReverseColumn(sbox, k.c1, Byte0(y1), Byte1(y0), Byte2(y3), Byte3(y2));
    LastReverseColumn(sbox, k.c2, Byte0(y2), Byte1(y1), Byte2(y0), Byte3(y3));
    LastReverseColumn(sbox, k.c3, Byte0(y3), Byte1(y2), Byte2(y1), Byte3(y0));
  }

  lemma LastReverseColumn(sbox: Table, k: Word, a: bv8, b: bv8, c: bv8, d: bv8)
    requires |sbox| == 256 && IsInvSBox(sbox)
    ensures Unpack(Xor(Pack(k), Substitute(sbox, a, b, c, d))) == AddWord(InvSubWord(Word(a, b, c, d)), k)
  {
    hide IsInvSBox, Pack, Unpack, Xor, Substitute, InvSubWord, AddWord;
    SubstituteReverse(sbox, a, b, c, d);
    LastColumn(Substitute(sbox, a, b, c, d), InvSubWord(Word(a, b, c, d)), k);
  }

  /** Words 4r..4r+3 of an array are round key r. */
  ghost predicate KeysAt(rk: array<bv32>, keys: Schedule, r: nat)
    reads rk
  {
    4 * r + 3 < rk.Length &&
    rk[4 * r] == Pack(keys(r).c0) && rk[4 * r + 1] == Pack(keys(r).c1) &&
    rk[4 * r + 2] == Pack(keys(r).c2) && rk[4 * r + 3] == Pack(keys(r).c3)
  }

  ghost predicate KeysUpTo(rk: array<bv32>, keys: Schedule, nr: int)
    reads rk
  {
    forall r: nat :: r <= nr ==> KeysAt(rk, keys, r)
  }

  lemma ExpandedKeys(rk: array<bv32>, words: seq<Word>, nr: nat)
    requires |words| > 0 && Expanded(rk, words, 4 * nr + 4)
    ensures KeysUpTo(rk, RoundKeys(words), nr)
  {
    hide Pack, KeyWord;
  }

  /** Round r takes words 4r to 4r + 3 of the array, one for each column. */
  lemma RoundKeyBytes(rk: array<bv32>, keys: Schedule, nr: nat, r: nat, c: nat, j: nat)
    requires KeysUpTo(rk, keys, nr) && r <= nr && c < 4 && j < 4
    ensures 4 * r + c < rk.Length && Entry(keys(r), j, c) == ByteAt(rk[4 * r + c], j)
  {
    hide Pack, ByteAt, Row;
    assert KeysAt(rk, keys, r);
    PackedByte(Column(keys(r), c), j);
  }

  /** A word of the encryption schedule passed through the KT tables. */
  function MixKeyWord(kt: Quad, x: bv32): bv32
    requires kt.Sized()
  {
    Lookup(0, kt, Byte0(x), Byte1(x), Byte2(x), Byte3(x))
  }

  lemma MixKeyWordCorrect(kt: Quad, w: Word)
    requires kt.Sized() && KeyTables(kt)
    ensures MixKeyWord(kt, Pack(w)) == Pack(InvMixColumn(w))
  {
    hide KeyTables, Pack, InvMixColumn, Lookup, Byte0, Byte1, Byte2, Byte3;
    UnpackedBytes(w);
    KeyLookup(kt, w);
  }

  lemma ForwardStep(sbox: Table, t: Quad, i: int)
    requires 0 <= i < 256 && IsSBox(sbox) && t.Sized() && Holds(t, ForwardEntry, i)
    ensures Holds(t.SetRow(i, ForwardWord(Byte3(sbox[i]))), ForwardEntry, i + 1)
  {
    hide Holds, SBox, Index, ForwardWord, RotR8, Unpack, Byte3, MixEntry;
    var b := i as bv8;
    IndexOf(i);
    LowByte(SBox(b));
    ForwardWordCorrect(SBox(b));
    var w := ForwardWord(SBox(b));
    HoldsStep(t, ForwardEntry, b, w, RotR8(w), RotR8(RotR8(w)), RotR8(RotR8(RotR8(w))));
  }

  lemma ReverseStep(pow: seq<bv8>, log: seq<nat>, sbox: Table, t: Quad, i: int)
    requires 0 <= i < 256 && IsPow(pow) && IsLog(log) && IsInvSBox(sbox) && t.Sized() && Holds(t, ReverseEntry, i)
    ensures Holds(t.SetRow(i, ReverseWord(pow, log, Byte3(sbox[i]))), ReverseEntry, i + 1)
  {
    hide Holds, InvSBox, Index, ReverseWord, RotR8, Unpack, Byte3, InvMixEntry;
    var b := i as bv8;
    IndexOf(i);
    LowByte(InvSBox(b));
    ReverseWordCorrect(pow, log, InvSBox(b));
    var w := ReverseWord(pow, log, InvSBox(b));
    HoldsStep(t, ReverseEntry, b, w, RotR8(w), RotR8(RotR8(w)), RotR8(RotR8(RotR8(w))));
  }

  /** RT0[FSb[i]] undoes the substitution and leaves a column of InvMixColumns. */
  lemma KeyTableEntry(sbox: Table, rt: Quad, i: int)
    requires 0 <= i < 256 && |sbox| == 256 && IsSBox(sbox) && rt.Sized() && ReverseTables(rt)
    ensures var j := Index(Byte3(sbox[i]));
            0 <= j < 256 && UnpackState(rt.t0[j], rt.t1[j], rt.t2[j], rt.t3[j]) == InvMixEntry(i as bv8)
  {
    hide SBox, InvSBox, Index, Pack, Unpack, Byte3, InvMixEntry;
    var b := i as bv8;
    IndexOf(i);
    LowByte(SBox(b));
    IndexLaws(SBox(b), SBox(b));
    SBoxInverse(b);
    var e := InvMixEntry(b);
    assert EntryAt(rt, Index(SBox(b)), e);
    UnpackPack(e.c0); UnpackPack(e.c1); UnpackPack(e.c2); UnpackPack(e.c3);
  }

  /** S-box lookups of four bytes, joined: SubWord. */
  function Substitute(sbox: Table, a: bv8, b: bv8, c: bv8, d: bv8): bv32
    requires |sbox| == 256
  {
    IndexLaws(a, a); IndexLaws(b, b); IndexLaws(c, c); IndexLaws(d, d);
    JoinEntries(sbox[Index(a)], sbox[Index(b)], sbox[Index(c)], sbox[Index(d)])
  }

  lemma SBoxEntry(sbox: Table, x: bv8)
    requires |sbox| == 256 && IsSBox(sbox)
    ensures 0 <= Index(x) < 256 && sbox[Index(x)] == Wide(SBox(x))
  {
    hide SBox, Index;
    IndexLaws(x, x);
  }

  lemma SubstituteForward(sbox: Table, a: bv8, b: bv8, c: bv8, d: bv8)
    requires |sbox| == 256 && IsSBox(sbox)
    ensures Unpack(Substitute(sbox, a, b, c, d)) == SubWord(Word(a, b, c, d))
  {
    hide SBox, IsSBox, Index, JoinEntries, Unpack, Wide;
    SBoxEntry(sbox, a); SBoxEntry(sbox, b); SBoxEntry(sbox, c); SBoxEntry(sbox, d);
    UnpackJoinEntries(SBox(a), SBox(b), SBox(c), SBox(d));
  }

  lemma InvSBoxEntry(sbox: Table, x: bv8)
    requires |sbox| == 256 && IsInvSBox(sbox)
    ensures 0 <= Index(x) < 256 && sbox[Index(x)] == Wide(InvSBox(x))
  {
    hide InvSBox, Index;
    IndexLaws(x, x);
  }

  lemma SubstituteReverse(sbox: Table, a: bv8, b: bv8, c: bv8, d: bv8)
    requires |sbox| == 256 && IsInvSBox(sbox)
    ensures Unpack(Substitute(sbox, a, b, c, d)) == InvSubWord(Word(a, b, c, d))
  {
    hide InvSBox, IsInvSBox, Index, JoinEntries, Unpack, Wide;
    InvSBoxEntry(sbox, a); InvSBoxEntry(sbox, b); InvSBoxEntry(sbox, c); InvSBoxEntry(sbox, d);
    UnpackJoinEntries(InvSBox(a), InvSBox(b), InvSBox(c), InvSBox(d));
  }

  // ----- key expansion -----

  /** The words of a key given as bytes. */
  function KeyWords(key: seq<bv8>, nk: nat): (w: seq<Word>)
    requires |key| >= 4 * nk
    ensures |w| == nk
  {
    seq(nk, i requires 0 <= i < nk => Word(key[4 * i], key[4 * i + 1], key[4 * i + 2], key[4 * i + 3]))
  }

  /** The first n words of rk are those of KeyExpansion. */
  ghost predicate Expanded(rk: array<bv32>, words: seq<Word>, n: nat)
    requires |words| > 0
    reads rk
  {
    n <= rk.Length && forall k: nat :: k < n ==> rk[k] == Pack(KeyWord(words, k))
  }

  lemma LoadedBytes(rk: array<bv32>, key: seq<bv8>, nk: nat)
    requires 0 < nk && |key| >= 4 * nk && rk.Length >= 4 * (nk + 6) + 4
    requires Expanded(rk, KeyWords(key, nk), 4 * (nk + 6) + 4)
    ensures forall i: nat, j: nat :: i < nk && j < 4 ==> ByteAt(rk[i], j) == key[4 * i + j]
  {
    hide Pack, ByteAt;
    forall i: nat, j: nat | i < nk && j < 4 ensures ByteAt(rk[i], j) == key[4 * i + j] {
      PackedByte(KeyWords(key, nk)[i], j);
    }
  }

  ghost predicate ByteFollows(rk: array<bv32>, nk: nat, k: nat, j: nat)
    requires 0 < nk <= k < rk.Length && j < 4
    reads rk
  {
    Follows(rk[k - nk], rk[k - 1], rk[k], nk, k, j)
  }

  /** Every byte of the words from nk up follows from the word before it and the one nk back. */
  ghost predicate ExpandedByBytes(rk: array<bv32>, nk: nat, n: nat)
    requires nk > 0
    reads rk
  {
    n <= rk.Length && forall k: nat, j: nat :: nk <= k < n && j < 4 ==> ByteFollows(rk, nk, k, j)
  }

  lemma ExpandedIsByBytes(rk: array<bv32>, words: seq<Word>, n: nat)
    requires |words| > 0 && Expanded(rk, words, n)
    ensures ExpandedByBytes(rk, |words|, n)
  {
    hide Pack, KeyWord, Follows;
    forall k: nat, j: nat | |words| <= k < n && j < 4 ensures ByteFollows(rk, |words|, k, j) {
      KeyWordFollows(words, k, j);
    }
  }

  /** The word that starts a group of the schedule. */
  function FirstWord(sbox: Table, rcon: bv32, back: bv32, prev: bv32): bv32
    requires |sbox| == 256
  {
    Xor(Xor(back, rcon), Substitute(sbox, Byte1(prev), Byte2(prev), Byte3(prev), Byte0(prev)))
  }

  /** The extra substitution in the middle of a group of eight. */
  function MiddleWord(sbox: Table, back: bv32, prev: bv32): bv32
    requires |sbox| == 256
  {
    Xor(back, Substitute(sbox, Byte0(prev), Byte1(prev), Byte2(prev), Byte3(prev)))
  }

  lemma SubstituteWord(sbox: Table, w: Word)
    requires |sbox| == 256 && IsSBox(sbox)
    ensures Substitute(sbox, w.b0, w.b1, w.b2, w.b3) == Pack(SubWord(w))
  {
    hide IsSBox, Substitute, SBox, Pack, Unpack;
    SubstituteForward(sbox, w.b0, w.b1, w.b2, w.b3);
    PackUnpack(Substitute(sbox, w.b0, w.b1, w.b2, w.b3));
  }

  lemma UnpackedBytes(w: Word)
    ensures Byte0(Pack(w)) == w.b0 && Byte1(Pack(w)) == w.b1 && Byte2(Pack(w)) == w.b2 && Byte3(Pack(w)) == w.b3
  {
    hide Byte0, Byte1, Byte2, Byte3, Pack;
    UnpackPack(w);
  }

  lemma FirstWordCorrect(sbox: Table, words: seq<Word>, k: nat)
    requires |sbox| == 256 && IsSBox(sbox) && |words| > 0 && k >= |words| && k % |words| == 0
    ensures FirstWord(sbox, Pack(Rcon(k / |words|)), Pack(KeyWord(words, k - |words|)), Pack(KeyWord(words, k - 1))) ==
            Pack(KeyWord(words, k))
  {
    hide IsSBox, Substitute, Pack, Xor, AddWord, SubWord, Byte0, Byte1, Byte2, Byte3, Rcon;
    var back, prev, rcon := KeyWord(words, k - |words|), KeyWord(words, k - 1), Rcon(k / |words|);
    UnpackedBytes(prev);
    SubstituteWord(sbox, RotWord(prev));
    XorPack(back, rcon);
    XorPack(AddWord(back, rcon), SubWord(RotWord(prev)));
    AddWordLaws(back, rcon, SubWord(RotWord(prev)));
    AddWordLaws(rcon, SubWord(RotWord(prev)), back);
  }

  lemma MiddleWordCorrect(sbox: Table, words: seq<Word>, k: nat)
    requires |sbox| == 256 && IsSBox(sbox) && |words| > 6 && k >= |words| && k % |words| == 4
    ensures MiddleWord(sbox, Pack(KeyWord(words, k - |words|)), Pack(KeyWord(words, k - 1))) == Pack(KeyWord(words, k))
  {
    hide IsSBox, Substitute, Pack, Xor, AddWord, SubWord, Byte0, Byte1, Byte2, Byte3;
    var back, prev := KeyWord(words, k - |words|), KeyWord(words, k - 1);
    UnpackedBytes(prev);
    SubstituteWord(sbox, prev);
    XorPack(back, SubWord(prev));
  }

  lemma NextWordCorrect(words: seq<Word>, k: nat)
    requires |words| > 0 && k >= |words| && k % |words| != 0 && !(|words| > 6 && k % |words| == 4)
    ensures Xor(Pack(KeyWord(words, k - |words|)), Pack(KeyWord(words, k - 1))) == Pack(KeyWord(words, k))
  {
    hide Pack, Xor, AddWord, SubWord;
    XorPack(KeyWord(words, k - |words|), KeyWord(words, k - 1));
  }

  lemma HoldsNothing(t: Quad, entry: bv8 -> State)
    requires t.Sized()
    ensures Holds(t, entry, 0)
  {
    hide Index;
    forall x: bv8 { IndexLaws(x, x); }
  }

  lemma RconWord(x: bv8)
    ensures (x as bv32) << 24 == Pack(Word(x, 0, 0, 0))
  {}

  lemma LowByte(x: bv8)
    ensures Byte3(x as bv32) == x
  {}

  /** Set a key of any of the three sizes, encrypt a block in place and decrypt it again:
      the code itself restores the block, and in between it holds the cipher's output. */
  method EncryptThenDecrypt(tables: Tables, ctx: Context, key: seq<bv8>, nbits: int, block: array<bv8>)
    returns (middle: seq<bv8>)
    requires tables.Valid() && ctx.Valid() && block.Length == 16
    requires (nbits == 128 || nbits == 192 || nbits == 256) && |key| >= nbits / 8
    modifies tables, ctx, ctx.erk, ctx.drk, block
    ensures middle == BytesOf(Cipher(StateOf(old(block[..])), RoundKeys(KeyWords(key, nbits / 32)), nbits / 32 + 6))
    ensures block[..] == old(block[..])
  {
    hide Cipher, EqInvCipher, KeyWord, InverseSchedule, KeysUpTo, Pack, StateOf, BytesOf,
         IsSBox, IsInvSBox, IsRcon, ForwardTables, ReverseTables, KeyTables;
    var before := block[..];
    assert block[0..16] == before;
    var ret := tables.SetKey(ctx, key, nbits);
    ghost var words := KeyWords(key, nbits / 32);
    ghost var keys := RoundKeys(words);
    assert block[0..16] == before;
    tables.Encrypt(ctx, block, 0, block, 0, keys);
    middle := block[..];
    assert block[0..16] == middle;
    tables.Decrypt(ctx, block, 0, block, 0, InverseSchedule(keys, ctx.nr));
    EqInvCipherInverts(StateOf(before), keys, ctx.nr);
    BytesOfState(before);
    assert block[..] == block[0..16];
  }
}
