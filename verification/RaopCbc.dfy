/** The packet encryption of jni/raop_play/raop_client.c: AES-CBC in place (section 6.2 of
    NIST SP 800-38A) on the whole blocks of a packet, each packet from the same iv. */
module RaopCbc {
  import opened Gf256
  import opened AesSpec
  import opened AesWords
  import opened AesTables
  import opened Aes

  type Block = seq<bv8>

  function XorBlock(a: Block, b: Block): (r: Block)
    requires |a| == |b| == 16
    ensures |r| == 16
  {
    seq(16, i requires 0 <= i < 16 => Add(a[i], b[i]))
  }

  ghost function EncryptBlock(b: Block, keys: Schedule, nr: nat): (r: Block)
    requires nr > 0 && |b| == 16
    ensures |r| == 16
  {
    BytesOf(Cipher(StateOf(b), keys, nr))
  }

  /** What aes_decrypt computes with the schedule aes_set_key derives from the encryption keys. */
  ghost function DecryptBlock(b: Block, keys: Schedule, nr: nat): (r: Block)
    requires nr > 0 && |b| == 16
    ensures |r| == 16
  {
    BytesOf(EqInvCipher(StateOf(b), InverseSchedule(keys, nr), nr))
  }

  /** CBC encryption of the whole blocks; an incomplete last block is sent as it is. */
  ghost function CbcEncrypt(data: seq<bv8>, iv: Block, keys: Schedule, nr: nat): (r: seq<bv8>)
    requires nr > 0 && |iv| == 16
    ensures |r| == |data|
  {
    if |data| < 16 then data
    else
      var c := EncryptBlock(XorBlock(data[..16], iv), keys, nr);
      c + CbcEncrypt(data[16..], c, keys, nr)
  }

  ghost function CbcDecrypt(data: seq<bv8>, iv: Block, keys: Schedule, nr: nat): (r: seq<bv8>)
    requires nr > 0 && |iv| == 16
    ensures |r| == |data|
  {
    if |data| < 16 then data
    else
      XorBlock(DecryptBlock(data[..16], keys, nr), iv) + CbcDecrypt(data[16..], data[..16], keys, nr)
  }

  /** For every key schedule and block, aes_decrypt inverts aes_encrypt. */
  lemma DecryptInvertsEncrypt(b: Block, keys: Schedule, nr: nat)
    requires nr > 0 && |b| == 16
    ensures DecryptBlock(EncryptBlock(b, keys, nr), keys, nr) == b
  {
    hide Cipher, EqInvCipher, InverseSchedule;
    EqInvCipherInverts(StateOf(b), keys, nr);
    BytesOfState(b);
  }

  lemma XorBlockTwice(a: Block, b: Block)
    requires |a| == |b| == 16
    ensures XorBlock(XorBlock(a, b), b) == a
  {
    hide Add;
    forall i | 0 <= i < 16 ensures Add(Add(a[i], b[i]), b[i]) == a[i] {
      AddLaws(a[i], b[i], b[i]); AddLaws(b[i], 0, 0);
    }
  }

  /** The receiver gets back every packet, whatever its size. */
  lemma {:induction false} CbcRoundTrip(data: seq<bv8>, iv: Block, keys: Schedule, nr: nat)
    requires nr > 0 && |iv| == 16
    ensures CbcDecrypt(CbcEncrypt(data, iv, keys, nr), iv, keys, nr) == data
  {
    hide EncryptBlock, DecryptBlock, XorBlock;
    if |data| >= 16 {
      var head := data[..16];
      var c := EncryptBlock(XorBlock(head, iv), keys, nr);
      var rest := CbcEncrypt(data[16..], c, keys, nr);
      assert (c + rest)[..16] == c && (c + rest)[16..] == rest;
      CbcRoundTrip(data[16..], c, keys, nr);
      DecryptInvertsEncrypt(XorBlock(head, iv), keys, nr);
      XorBlockTwice(head, iv);
    }
  }

  lemma {:induction false} CbcTail(data: seq<bv8>, iv: Block, keys: Schedule, nr: nat, k: nat)
    requires nr > 0 && |iv| == 16 && |data| / 16 * 16 <= k < |data|
    ensures CbcEncrypt(data, iv, keys, nr)[k] == data[k]
  {
    hide EncryptBlock;
    if |data| >= 16 {
      CbcTail(data[16..], EncryptBlock(XorBlock(data[..16], iv), keys, nr), keys, nr, k - 16);
    }
  }

  /** Byte j of ciphertext block n, deciphered on its own, is the plain byte xor the byte before the
      block: iv for the first block, the previous ciphertext block for the others. */
  ghost predicate Chained(plain: seq<bv8>, sent: seq<bv8>, iv: Block, keys: Schedule, nr: nat, n: nat, j: nat)
    requires nr > 0 && |iv| == 16 && |plain| == |sent| && 16 * n + 16 <= |sent| && j < 16
  {
    DecryptBlock(sent[16 * n..16 * n + 16], keys, nr)[j] ==
    plain[16 * n + j] ^ (if n == 0 then iv[j] else sent[16 * (n - 1) + j])
  }

  lemma XorBlockByte(a: Block, b: Block, j: nat)
    requires |a| == |b| == 16 && j < 16
    ensures XorBlock(a, b)[j] == a[j] ^ b[j]
  {}

  lemma ChainedFirst(data: seq<bv8>, rest: seq<bv8>, iv: Block, keys: Schedule, nr: nat, j: nat)
    requires nr > 0 && |iv| == 16 && 16 <= |data| == 16 + |rest| && j < 16
    ensures Chained(data, EncryptBlock(XorBlock(data[..16], iv), keys, nr) + rest, iv, keys, nr, 0, j)
  {
    hide EncryptBlock, DecryptBlock, XorBlock;
    var c := EncryptBlock(XorBlock(data[..16], iv), keys, nr);
    assert (c + rest)[0..16] == c;
    DecryptInvertsEncrypt(XorBlock(data[..16], iv), keys, nr);
    XorBlockByte(data[..16], iv, j);
  }

  lemma ChainedLater(data: seq<bv8>, sent: seq<bv8>, iv: Block, keys: Schedule, nr: nat, n: nat, j: nat)
    requires nr > 0 && |iv| == 16 && |data| == |sent| && n > 0 && 16 * n + 16 <= |sent| && j < 16
    requires Chained(data[16..], sent[16..], sent[..16], keys, nr, n - 1, j)
    ensures Chained(data, sent, iv, keys, nr, n, j)
  {
    hide DecryptBlock;
    assert sent[16 * n..16 * n + 16] == sent[16..][16 * (n - 1)..16 * (n - 1) + 16];
  }

  lemma {:induction false} CbcChained(data: seq<bv8>, iv: Block, keys: Schedule, nr: nat, n: nat, j: nat)
    requires nr > 0 && |iv| == 16 && 16 * n + 16 <= |data| && j < 16
    ensures Chained(data, CbcEncrypt(data, iv, keys, nr), iv, keys, nr, n, j)
    decreases n
  {
    hide EncryptBlock, XorBlock, Chained;
    var c := EncryptBlock(XorBlock(data[..16], iv), keys, nr);
    var rest := CbcEncrypt(data[16..], c, keys, nr);
    if n == 0 {
      ChainedFirst(data, rest, iv, keys, nr, j);
    } else {
      CbcChained(data[16..], c, keys, nr, n - 1, j);
      var sent := CbcEncrypt(data, iv, keys, nr);
      assert sent[..16] == c && sent[16..] == rest;
      ChainedLater(data, sent, iv, keys, nr, n, j);
    }
  }

  lemma AllChained(data: seq<bv8>, iv: Block, keys: Schedule, nr: nat)
    requires nr > 0 && |iv| == 16
    ensures forall n: nat, j: nat :: n < |data| / 16 && j < 16 ==>
      Chained(data, CbcEncrypt(data, iv, keys, nr), iv, keys, nr, n, j)
  {
    hide CbcEncrypt, Chained;
    forall n: nat, j: nat | n < |data| / 16 && j < 16
      ensures Chained(data, CbcEncrypt(data, iv, keys, nr), iv, keys, nr, n, j)
    {
      CbcChained(data, iv, keys, nr, n, j);
    }
  }

  /** Of the whole packet, done is chained and rest is still to be chained with mask. */
  ghost predicate Remains(whole: seq<bv8>, done: seq<bv8>, rest: seq<bv8>, mask: Block, keys: Schedule, nr: nat)
    requires nr > 0 && |mask| == 16
  {
    whole == done + CbcEncrypt(rest, mask, keys, nr)
  }

  /** The parts of raopcl_data_t that encrypt uses. */
  class Client {
    const iv: array<bv8>
    const nv: array<bv8>
    const ctx: Context

    constructor (ctx: Context)
      ensures this.ctx == ctx && fresh(iv) && fresh(nv) && iv != nv && iv.Length == nv.Length == 16
    {
      iv, nv := new bv8[16], new bv8[16];
      this.ctx := ctx;
    }

    ghost predicate Valid()
      reads this, ctx
    {
      iv.Length == nv.Length == 16 && iv != nv && ctx.Valid()
    }

    /** encrypt: returns the number of bytes encrypted and changes nothing beyond them. */
    method Encrypt(tables: Tables, data: array<bv8>, size: nat, ghost keys: Schedule) returns (i: nat)
      requires Valid() && tables.Valid() && !tables.doInit
      requires size <= data.Length && data != iv && data != nv
      requires KeysUpTo(ctx.erk, keys, RoundCount(ctx.nr))
      modifies data, nv
      ensures i == size / 16 * 16
      ensures data[..size] == CbcEncrypt(old(data[..size]), iv[..], keys, RoundCount(ctx.nr))
      ensures forall n: nat, j: nat :: n < size / 16 && j < 16 ==>
        Chained(old(data[..size]), data[..size], iv[..], keys, RoundCount(ctx.nr), n, j)
      ensures data[i..] == old(data[i..])
    {
      hide CbcEncrypt, Chained, KeysUpTo, IsSBox, IsInvSBox, IsRcon, ForwardTables, ReverseTables, KeyTables;
      AllChained(data[..size], iv[..], keys, RoundCount(ctx.nr));
      i := EncryptBlocks(tables, data, size, keys);
    }

    method EncryptBlocks(tables: Tables, data: array<bv8>, size: nat, ghost keys: Schedule) returns (i: nat)
      requires Valid() && tables.Valid() && !tables.doInit
      requires size <= data.Length && data != iv && data != nv
      requires KeysUpTo(ctx.erk, keys, RoundCount(ctx.nr))
      modifies data, nv
      ensures i == size / 16 * 16
      ensures data[..size] == CbcEncrypt(old(data[..size]), iv[..], keys, RoundCount(ctx.nr))
      ensures data[i..] == old(data[i..])
    {
      hide EncryptBlock, XorBlock, KeysUpTo, CbcEncrypt, IsSBox, IsInvSBox, IsRcon, ForwardTables, ReverseTables;
      hide KeyTables, Remains;
      ghost var nr := RoundCount(ctx.nr);
      ghost var plain := data[..size];
      ghost var whole := CbcEncrypt(plain, iv[..], keys, nr);
      CopyBlock(nv, iv, 0);
      i := 0;
      assert plain[0..] == plain && data[..0] == [] && nv[..] == iv[..];
      AllRemains(plain, nv[..], keys, nr);
      while i + 16 <= size
        invariant 0 <= i <= size && i % 16 == 0
        invariant tables.Valid() && !tables.doInit && KeysUpTo(ctx.erk, keys, nr)
        invariant iv[..] == old(iv[..])
        invariant forall k :: i <= k < data.Length ==> data[k] == old(data[k])
        invariant Remains(whole, data[..i], plain[i..], nv[..], keys, nr)
      {
        ghost var done, before := data[..i], nv[..];
        assert data[i..i + 16] == plain[i..i + 16];
        EncryptNext(tables, data, i, keys);
        RemainsLess(whole, done, plain, i, before, keys, nr);
        assert data[..i + 16] == done + data[i..i + 16];
        i := i + 16;
      }
      RestRemains(whole, data[..i], plain[i..], nv[..], keys, nr);
      assert data[i..size] == plain[i..];
    }

    /** One turn of the loop: the block at i is masked with nv, enciphered and kept as the next nv. */
    method EncryptNext(tables: Tables, data: array<bv8>, i: nat, ghost keys: Schedule)
      requires Valid() && tables.Valid() && !tables.doInit
      requires i + 16 <= data.Length && data != iv && data != nv
      requires KeysUpTo(ctx.erk, keys, RoundCount(ctx.nr))
      modifies data, nv
      ensures data[i..i + 16] == EncryptBlock(XorBlock(old(data[i..i + 16]), old(nv[..])), keys, RoundCount(ctx.nr))
      ensures nv[..] == data[i..i + 16]
      ensures forall k :: 0 <= k < data.Length && !(i <= k < i + 16) ==> data[k] == old(data[k])
    {
      hide Cipher, KeysUpTo, XorBlock, BytesOf, StateOf;
      XorInto(data, i, nv);
      tables.Encrypt(ctx, data, i, data, i, keys);
      CopyBlock(nv, data, i);
    }
  }

  lemma CbcStepAt(data: seq<bv8>, i: nat, iv: Block, keys: Schedule, nr: nat)
    requires nr > 0 && |iv| == 16 && i + 16 <= |data|
    ensures var c := EncryptBlock(XorBlock(data[i..i + 16], iv), keys, nr);
            CbcEncrypt(data[i..], iv, keys, nr) == c + CbcEncrypt(data[i + 16..], c, keys, nr)
  {
    hide EncryptBlock, XorBlock;
    assert data[i..][..16] == data[i..i + 16] && data[i..][16..] == data[i + 16..];
  }

  lemma RemainsLess(whole: seq<bv8>, done: seq<bv8>, plain: seq<bv8>, i: nat, mask: Block, keys: Schedule, nr: nat)
    requires nr > 0 && |mask| == 16 && i + 16 <= |plain|
    requires Remains(whole, done, plain[i..], mask, keys, nr)
    ensures var c := EncryptBlock(XorBlock(plain[i..i + 16], mask), keys, nr);
            Remains(whole, done + c, plain[i + 16..], c, keys, nr)
  {
    hide EncryptBlock, XorBlock, CbcEncrypt;
    CbcStepAt(plain, i, mask, keys, nr);
  }

  lemma AllRemains(plain: seq<bv8>, mask: Block, keys: Schedule, nr: nat)
    requires nr > 0 && |mask| == 16
    ensures Remains(CbcEncrypt(plain, mask, keys, nr), [], plain, mask, keys, nr)
  {
    hide CbcEncrypt;
  }

  lemma RestRemains(whole: seq<bv8>, done: seq<bv8>, rest: seq<bv8>, mask: Block, keys: Schedule, nr: nat)
    requires nr > 0 && |mask| == 16 && |rest| < 16 && Remains(whole, done, rest, mask, keys, nr)
    ensures whole == done + rest
  {}

  /** memcpy of one block to the start of an array. */
  method CopyBlock(to: array<bv8>, from: array<bv8>, src: nat)
    requires to != from && to.Length == 16 && src + 16 <= from.Length
    modifies to
    ensures to[..] == from[src..src + 16]
  {
    var j := 0;
    while j < 16
      invariant 0 <= j <= 16
      invariant to[..j] == from[src..src + j]
    {
      to[j] := from[src + j];
      j := j + 1;
    }
  }

  method XorInto(data: array<bv8>, at: nat, mask: array<bv8>)
    requires data != mask && mask.Length == 16 && at + 16 <= data.Length
    modifies data
    ensures data[at..at + 16] == XorBlock(old(data[at..at + 16]), mask[..])
    ensures forall k :: 0 <= k < data.Length && !(at <= k < at + 16) ==> data[k] == old(data[k])
  {
    hide Add;
    var j := 0;
    while j < 16
      invariant 0 <= j <= 16
      invariant forall k :: 0 <= k < j ==> data[at + k] == Add(old(data[at + k]), mask[k])
      invariant forall k :: 0 <= k < data.Length && !(at <= k < at + j) ==> data[k] == old(data[k])
    {
      data[at + j] := Add(data[at + j], mask[j]);
      j := j + 1;
    }
  }
}
