/** auds_write_pcm of jni/raop_play/audio_stream.c with a memory source: the uncompressed
    audio frame it packs, and a reader that takes the frame apart again. */
module PcmFrame {
  import opened BitWriter

  const MAX_SAMPLES_IN_CHUNK := 4096

  /** A stereo frame: two 16-bit samples as the bit patterns 0..65535. */
  datatype Frame = Frame(left: nat, right: nat)

  // ----- reading a frame -----

  function Weight(bit: bool, w: nat): nat {
    if bit then w else 0
  }

  /** The byte whose eight bits start at bit `at`. */
  function ByteAt(bits: seq<bool>, at: nat): nat
    requires at + 8 <= |bits|
  {
    Weight(bits[at], 128) + Weight(bits[at + 1], 64) + Weight(bits[at + 2], 32) + Weight(bits[at + 3], 16) +
    Weight(bits[at + 4], 8) + Weight(bits[at + 5], 4) + Weight(bits[at + 6], 2) + Weight(bits[at + 7], 1)
  }

  /** Sample frame i of the payload that starts at bit `at`: two big-endian 16-bit numbers. */
  function FrameAt(bits: seq<bool>, at: nat, i: nat): Frame
    requires at + 32 * i + 32 <= |bits|
  {
    Frame(ByteAt(bits, at + 32 * i) * 256 + ByteAt(bits, at + 32 * i + 8),
          ByteAt(bits, at + 32 * i + 16) * 256 + ByteAt(bits, at + 32 * i + 24))
  }

  datatype Header = Header(channels: nat, hasSize: bool, uncompressed: bool, frames: nat, payload: nat)

  /** The 23 header bits and, when the size flag is set, 32 bits of frame count. */
  function ReadHeader(bits: seq<bool>): Header
    requires |bits| >= 55
  {
    Header(Weight(bits[0], 4) + Weight(bits[1], 2) + Weight(bits[2], 1), bits[19], bits[22],
           if bits[19]
           then ByteAt(bits, 23) * 0x100_0000 + ByteAt(bits, 31) * 0x1_0000 +
                ByteAt(bits, 39) * 0x100 + ByteAt(bits, 47)
           else MAX_SAMPLES_IN_CHUNK,
           if bits[19] then 55 else 23)
  }

  lemma ByteOfField(d: bv8)
    ensures ByteAt(Field(d, 8), 0) == FromByte(d)
  {
    hide FromByte, Nth;
    BitWeights(d);
  }

  lemma BitWeights(d: bv8)
    ensures FromByte(d)
         == Weight(Nth(d, 0), 128) + Weight(Nth(d, 1), 64) + Weight(Nth(d, 2), 32) + Weight(Nth(d, 3), 16) +
                           Weight(Nth(d, 4), 8) + Weight(Nth(d, 5), 4) + Weight(Nth(d, 6), 2) + Weight(Nth(d, 7), 1)
  {}

  // ----- what the frame holds -----

  /** Bytes as consecutive fields of eight bits. */
  ghost function ByteFields(bytes: seq<bv8>): (s: seq<bool>)
    ensures |s| == 8 * |bytes|
  {
    if bytes == [] then [] else ByteFields(bytes[..|bytes| - 1]) + Field(bytes[|bytes| - 1], 8)
  }

  ghost function HeaderBits(hasSize: bool): (s: seq<bool>)
    ensures |s| == 23
  {
    Field(1, 3) + Field(0, 4) + Field(0, 8) + Field(0, 4) + Field(if hasSize then 1 else 0, 1) + Field(0, 2) +
      Field(1, 1)
  }

  function ToByte(n: nat): bv8
    requires n < 256
  {
    n as bv8
  }

  function FromByte(b: bv8): (n: int)
    ensures 0 <= n < 256
  {
    b as int
  }

  function High(sample: nat): bv8 {
    ToByte(sample / 256 % 256)
  }

  function Low(sample: nat): bv8 {
    ToByte(sample % 256)
  }

  function FrameBytes(f: Frame): seq<bv8> {
    [High(f.left), Low(f.left), High(f.right), Low(f.right)]
  }

  function FramesBytes(frames: seq<Frame>): (b: seq<bv8>)
    ensures |b| == 4 * |frames|
  {
    if frames == [] then [] else FramesBytes(frames[..|frames| - 1]) + FrameBytes(frames[|frames| - 1])
  }

  /** The frame count, big-endian. */
  function SizeBytes(n: nat): (b: seq<bv8>)
    ensures |b| == 4
  {
    [Low(n / 0x100_0000), Low(n / 0x1_0000), Low(n / 0x100), Low(n)]
  }

  ghost function Packed(frames: seq<Frame>): seq<bool> {
    var hasSize := |frames| != MAX_SAMPLES_IN_CHUNK;
    HeaderBits(hasSize) + ByteFields((if hasSize then SizeBytes(|frames|) else []) + FramesBytes(frames))
  }

  // ----- reading back -----

  lemma ByteAtShift(a: seq<bool>, b: seq<bool>, at: nat)
    requires at + 8 <= |b|
    ensures ByteAt(a + b, |a| + at) == ByteAt(b, at)
  {}

  lemma ByteAtPrefix(a: seq<bool>, b: seq<bool>, at: nat)
    requires at + 8 <= |a|
    ensures ByteAt(a + b, at) == ByteAt(a, at)
  {}

  lemma {:induction false} ByteOfFields(bytes: seq<bv8>, i: nat)
    requires i < |bytes|
    ensures ByteAt(ByteFields(bytes), 8 * i) == FromByte(bytes[i])
  {
    hide ByteAt, Field, FromByte;
    var init, last := bytes[..|bytes| - 1], bytes[|bytes| - 1];
    if i == |bytes| - 1 {
      ByteAtShift(ByteFields(init), Field(last, 8), 0);
      ByteOfField(last);
    } else {
      ByteAtPrefix(ByteFields(init), Field(last, 8), 8 * i);
      ByteOfFields(init, i);
    }
  }

  lemma {:induction false} ByteOfFrames(frames: seq<Frame>, i: nat, j: nat)
    requires i < |frames| && j < 4
    ensures FramesBytes(frames)[4 * i + j] == FrameBytes(frames[i])[j]
  {
    hide FrameBytes;
    if i < |frames| - 1 { ByteOfFrames(frames[..|frames| - 1], i, j); }
  }

  lemma ByteValue(n: nat)
    requires n < 256
    ensures FromByte(ToByte(n)) == n
  {
    hide FromByte;
    ByteValueOf(n);
  }

  lemma ByteValueOf(n: int)
    requires 0 <= n < 256
    ensures FromByte(n as bv8) == n
  {}

  lemma HighLow(sample: nat)
    requires sample < 65536
    ensures FromByte(High(sample)) * 256 + FromByte(Low(sample)) == sample
  {
    hide ToByte, FromByte;
    ByteValue(sample / 256 % 256);
    ByteValue(sample % 256);
  }

  lemma SizeFromBytes(n: nat)
    requires n < 0x1_0000_0000
    ensures var b := SizeBytes(n);
            FromByte(b[0]) * 0x100_0000 + FromByte(b[1]) * 0x1_0000 + FromByte(b[2]) * 0x100 + FromByte(b[3]) == n
  {
    hide ToByte, FromByte;
    ByteValue(n / 0x100_0000 % 256); ByteValue(n / 0x1_0000 % 256); ByteValue(n / 0x100 % 256); ByteValue(n % 256);
    BigEndianDigits(n);
  }

  lemma BigEndianDigits(n: nat)
    requires n < 0x1_0000_0000
    ensures n / 0x100_0000 % 256 * 0x100_0000 + n / 0x1_0000 % 256 * 0x1_0000 + n / 0x100 % 256 * 0x100 + n % 256 == n
  {
    var a := n / 0x100;
    var b := a / 0x100;
    assert b == n / 0x1_0000 && b / 0x100 == n / 0x100_0000;
  }

  lemma FlagBit()
    ensures Nth(1, 7) && !Nth(0, 7) && !Nth(1, 5) && !Nth(1, 6)
  {}

  lemma HeaderFields(hasSize: bool)
    ensures forall i :: 0 <= i < 23 ==> HeaderBits(hasSize)[i] == (i == 2 || (i == 19 && hasSize) || i == 22)
  {
    hide Nth;
    var flag: bv8 := if hasSize then 1 else 0;
    ZeroField(4); ZeroField(8); ZeroField(2);
    FlagBit();
  }

  lemma ZeroField(n: nat)
    requires n <= 8
    ensures forall i :: 0 <= i < n ==> !Field(0, n)[i]
  {
    forall k: nat | k < 8 ensures !Nth(0, k) {
      if k == 0 {} else if k == 1 {} else if k == 2 {} else if k == 3 {}
      else if k == 4 {} else if k == 5 {} else if k == 6 {} else {}
    }
    hide Nth;
  }

  /** The reader finds the header, the frame count and every frame. */
  lemma PackedReadsBack(frames: seq<Frame>)
    requires 1 <= |frames| <= MAX_SAMPLES_IN_CHUNK
    requires forall i :: 0 <= i < |frames| ==> frames[i].left < 65536 && frames[i].right < 65536
    ensures var bits := Packed(frames);
            var hasSize := |frames| != MAX_SAMPLES_IN_CHUNK;
            |bits| == (if hasSize then 55 else 23) + 32 * |frames| &&
            (forall i :: 0 <= i < 23 ==> bits[i] == (i == 2 || (i == 19 && hasSize) || i == 22)) &&
            ReadHeader(bits) == Header(1, hasSize, true, |frames|, if hasSize then 55 else 23) &&
            forall i: nat :: i < |frames| ==> FrameAt(bits, ReadHeader(bits).payload, i) == frames[i]
  {
    hide FromByte, ByteAt, HeaderBits, ByteFields, FramesBytes, SizeBytes;
    var hasSize := |frames| != MAX_SAMPLES_IN_CHUNK;
    HeaderFields(hasSize);
    if hasSize {
      PackedByte(frames, 0); PackedByte(frames, 1); PackedByte(frames, 2); PackedByte(frames, 3);
      SizeFromBytes(|frames|);
    }
    forall i: nat | i < |frames| ensures FrameAt(Packed(frames), if hasSize then 55 else 23, i) == frames[i] {
      PackedFrame(frames, i);
    }
  }

  /** Byte k of the payload. */
  lemma PackedByte(frames: seq<Frame>, k: nat)
    requires k < (if |frames| != MAX_SAMPLES_IN_CHUNK then 4 else 0) + 4 * |frames|
    ensures var bytes := (if |frames| != MAX_SAMPLES_IN_CHUNK then SizeBytes(|frames|) else []) + FramesBytes(frames);
            23 + 8 * k + 8 <= |Packed(frames)| && ByteAt(Packed(frames), 23 + 8 * k) == FromByte(bytes[k])
  {
    hide FromByte, ByteAt, HeaderBits, SizeBytes, FramesBytes;
    var hasSize := |frames| != MAX_SAMPLES_IN_CHUNK;
    var bytes := (if hasSize then SizeBytes(|frames|) else []) + FramesBytes(frames);
    ByteAtShift(HeaderBits(hasSize), ByteFields(bytes), 8 * k);
    ByteOfFields(bytes, k);
  }

  lemma PackedFrame(frames: seq<Frame>, i: nat)
    requires i < |frames| && frames[i].left < 65536 && frames[i].right < 65536
    ensures var at := if |frames| != MAX_SAMPLES_IN_CHUNK then 55 else 23;
            at + 32 * i + 32 <= |Packed(frames)| && FrameAt(Packed(frames), at, i) == frames[i]
  {
    hide FromByte, ByteAt, HeaderBits, SizeBytes, FramesBytes, High, Low;
    var k := (if |frames| != MAX_SAMPLES_IN_CHUNK then 4 else 0) + 4 * i;
    PackedByte(frames, k); PackedByte(frames, k + 1); PackedByte(frames, k + 2); PackedByte(frames, k + 3);
    ByteOfFrames(frames, i, 0); ByteOfFrames(frames, i, 1); ByteOfFrames(frames, i, 2); ByteOfFrames(frames, i, 3);
    HighLow(frames[i].left); HighLow(frames[i].right);
  }

  // ----- auds_write_pcm -----

  /** The memory behind ds->u.mem.data, as 16-bit patterns. */
  type Memory = m: nat -> nat | forall i :: m(i) < 65536 witness (_ => 0)

  /** Frame i of the source; a mono sample is used for both channels. */
  function SourceFrame(mem: Memory, channels: int, i: nat): Frame {
    if channels == 1 then Frame(mem(i), mem(i)) else Frame(mem(2 * i), mem(2 * i + 1))
  }

  /** How many frames a source of memSize bytes supplies. */
  function Available(memSize: int, channels: int): nat {
    var w := if channels == 1 then 2 else 4;
    if memSize <= 0 then 0 else (memSize + w - 1) / w
  }

  /** The end-of-data test of the loop holds from that frame on. */
  lemma AvailableIff(memSize: int, channels: int, c: nat)
    ensures memSize <= c * (if channels == 1 then 2 else 4) <==> Available(memSize, channels) <= c
  {}

  /** What the frame must carry: the source frames, then silence up to bsize. */
  function FramesOf(mem: Memory, channels: int, count: nat, bsize: nat): (f: seq<Frame>)
    requires count <= bsize
    ensures |f| == bsize
  {
    seq(bsize, i requires i >= 0 => if i < count then SourceFrame(mem, channels, i) else Frame(0, 0))
  }

  function FrameSize(bsize: nat): nat {
    4 * bsize + if bsize == MAX_SAMPLES_IN_CHUNK then 3 else 7
  }

  lemma AnyByteFits(d: bv8)
    ensures Fits(d, 8)
  {
    hide Shr;
    ShiftsAreNative(d, 8);
  }

  lemma SmallFields()
    ensures Fits(0, 1) && Fits(1, 1) && Fits(0, 2) && Fits(1, 3) && Fits(0, 4)
  {
    hide Shr;
    ShiftsAreNative(0, 1); ShiftsAreNative(1, 1); ShiftsAreNative(0, 2); ShiftsAreNative(1, 3); ShiftsAreNative(0, 4);
  }

  /** Appends one byte to the fields after a header. */
  method PutByte(w: Writer, d: bv8, ghost header: seq<bool>, ghost bytes: seq<bv8>)
    requires w.Valid() && w.Content() == header + ByteFields(bytes) && w.Written() + 8 <= 8 * w.buf.Length
    modifies w, w.buf
    ensures w.Valid() && w.Content() == header + ByteFields(bytes + [d])
  {
    hide Fits, Field, Bits;
    AnyByteFits(d);
    w.Write(d, 8);
    assert (bytes + [d])[..|bytes|] == bytes;
  }

  /** The fields before the size flag. */
  method PutUnused(w: Writer)
    requires w.Valid() && w.Written() == 0 && w.buf.Length >= 3
    modifies w, w.buf
    ensures w.Valid() && w.Written() == 19 && w.Content() == Field(1, 3) + Field(0, 4) + Field(0, 8) + Field(0, 4)
  {
    hide Fits, Field, Bits;
    SmallFields();
    AnyByteFits(0);
    w.Write(1, 3);
    w.Write(0, 4);
    w.Write(0, 8);
    w.Write(0, 4);
  }

  method PutHeader(w: Writer, bsize: int)
    requires w.Valid() && w.Written() == 0 && w.buf.Length >= 3
    modifies w, w.buf
    ensures w.Valid() && w.Content() == HeaderBits(bsize != 4096)
  {
    hide Fits, Field, Bits;
    SmallFields();
    PutUnused(w);
    if bsize != 4096 {
      w.Write(1, 1);
    } else {
      w.Write(0, 1);
    }
    w.Write(0, 2);
    w.Write(1, 1);
  }

  method PutSize(w: Writer, bsize: nat, ghost header: seq<bool>)
    requires w.Valid() && w.Content() == header && w.Written() + 32 <= 8 * w.buf.Length
    modifies w, w.buf
    ensures w.Valid() && w.Content() == header + ByteFields(SizeBytes(bsize))
  {
    hide ByteFields, Low;
    ByteFieldsEmpty();
    ghost var b := SizeBytes(bsize);
    PutByte(w, Low(bsize / 0x100_0000), header, []);
    assert [] + [b[0]] == b[..1];
    PutByte(w, Low(bsize / 0x1_0000), header, b[..1]);
    assert b[..1] + [b[1]] == b[..2];
    PutByte(w, Low(bsize / 0x100), header, b[..2]);
    assert b[..2] + [b[2]] == b[..3];
    PutByte(w, Low(bsize), header, b[..3]);
    assert b[..3] + [b[3]] == b;
  }

  lemma ByteFieldsEmpty()
    ensures ByteFields([]) == []
  {}

  method PutFrame(w: Writer, f: Frame, ghost header: seq<bool>, ghost bytes: seq<bv8>)
    requires w.Valid() && w.Content() == header + ByteFields(bytes) && w.Written() + 32 <= 8 * w.buf.Length
    modifies w, w.buf
    ensures w.Valid() && w.Content() == header + ByteFields(bytes + FrameBytes(f))
    ensures w.Written() == old(w.Written()) + 32
  {
    hide ByteFields, High, Low;
    ghost var b := FrameBytes(f);
    PutByte(w, High(f.left), header, bytes);
    assert bytes + [b[0]] == bytes + b[..1];
    PutByte(w, Low(f.left), header, bytes + b[..1]);
    assert bytes + b[..1] + [b[1]] == bytes + b[..2];
    PutByte(w, High(f.right), header, bytes + b[..2]);
    assert bytes + b[..2] + [b[2]] == bytes + b[..3];
    PutByte(w, Low(f.right), header, bytes + b[..3]);
    assert bytes + b[..3] + [b[3]] == bytes + b;
  }

  /** auds_write_pcm with ds->type MEMORY: -1 when the source is empty, else a whole frame. */
  method WritePcm(buffer: array<bv8>, bsize: nat, channels: int, memSize: int, mem: Memory)
    returns (ret: int, size: nat)
    requires 1 <= bsize <= MAX_SAMPLES_IN_CHUNK && buffer.Length >= FrameSize(bsize)
    modifies buffer
    ensures ret == if memSize <= 0 then -1 else 0
    ensures ret == 0 ==> size == FrameSize(bsize) <= MAX_SAMPLES_IN_CHUNK * 4 + 16
    ensures ret == 0 ==>
      var n := Available(memSize, channels);
      Bits(buffer[..], 8 * size - 1) == Packed(FramesOf(mem, channels, if n < bsize then n else bsize, bsize))
  {
    hide Bits, Packed, Available, FramesOf, HeaderBits, FrameSize, Writer.Valid, Writer.Content, Writer.Written;
    SizeBounds(bsize);
    var w := new Writer(buffer);
    PutHeader(w, bsize);
    AvailableIff(memSize, channels, 0);
    var count := PutBody(w, bsize, channels, memSize, mem);
    if count == 0 {
      return -1, 0;
    }
    PackedLength(FramesOf(mem, channels, count, bsize));
    size := BytesUsed(w, FrameSize(bsize));
    return 0, size;
  }

  /** The bytes that hold what has been written, the last one with a bit to spare. */
  method BytesUsed(w: Writer, ghost n: nat) returns (size: nat)
    requires w.Valid() && |w.Content()| == 8 * n - 1
    ensures size == n && w.Content() == Bits(w.buf[..], 8 * n - 1)
  {
    hide ZeroFrom, Bits;
    size := w.p;
    if w.bpos != 0 {
      size := size + 1;
    }
  }

  lemma SizeBounds(bsize: nat)
    requires 1 <= bsize <= MAX_SAMPLES_IN_CHUNK
    ensures 3 <= FrameSize(bsize) <= MAX_SAMPLES_IN_CHUNK * 4 + 16
  {}

  lemma PackedLength(frames: seq<Frame>)
    ensures |Packed(frames)| == 8 * FrameSize(|frames|) - 1
  {
    hide HeaderBits, ByteFields, FramesBytes, SizeBytes;
  }

  /** Everything after the header. */
  method PutBody(w: Writer, bsize: nat, channels: int, memSize: int, mem: Memory) returns (count: nat)
    requires w.Valid() && w.Content() == HeaderBits(bsize != 4096)
    requires 1 <= bsize && w.buf.Length >= FrameSize(bsize)
    modifies w, w.buf
    ensures count == if Available(memSize, channels) < bsize then Available(memSize, channels) else bsize
    ensures w.Valid() && (count > 0 ==> w.Content() == Packed(FramesOf(mem, channels, count, bsize)))
  {
    hide Bits, ByteFields, FramesBytes, HeaderBits, SizeBytes, Available, FramesOf, Silence;
    ghost var header := HeaderBits(bsize != 4096);
    ghost var sizes := if bsize != 4096 then SizeBytes(bsize) else [];
    ByteFieldsEmpty();
    assert header + [] == header;
    if bsize != 4096 {
      PutSize(w, bsize, header);
    }
    count := PutFrames(w, bsize, channels, memSize, mem, header, sizes);
    if count == 0 {
      return;
    }
    ghost var frames := FramesOf(mem, channels, count, count);
    PutSilence(w, (bsize - count) * 4, header, sizes + FramesBytes(frames));
    SilenceCompletes(mem, channels, count, bsize, sizes);
  }

  lemma SilenceCompletes(mem: Memory, channels: int, count: nat, bsize: nat, sizes: seq<bv8>)
    requires count <= bsize
    ensures sizes + FramesBytes(FramesOf(mem, channels, count, count)) + Silence((bsize - count) * 4) ==
            sizes + FramesBytes(FramesOf(mem, channels, count, bsize))
  {
    hide FramesBytes, Silence;
    var frames, all := FramesOf(mem, channels, count, count), FramesOf(mem, channels, count, bsize);
    FramesBytesSilence(frames, all);
    AppendAssoc(sizes, FramesBytes(frames), Silence((bsize - count) * 4));
  }

  /** The sample loop: stops at the end of the source or after bsize frames. */
  method PutFrames(w: Writer, bsize: nat, channels: int, memSize: int, mem: Memory, ghost header: seq<bool>,
                   ghost sizes: seq<bv8>)
    returns (count: nat)
    requires w.Valid() && w.Content() == header + ByteFields(sizes) && w.Written() + 32 * bsize <= 8 * w.buf.Length
    requires bsize >= 1
    modifies w, w.buf
    ensures count == if Available(memSize, channels) < bsize then Available(memSize, channels) else bsize
    ensures w.Valid() && w.Content() == header + ByteFields(sizes + FramesBytes(FramesOf(mem, channels, count, count)))
  {
    hide Bits, ByteFields, FramesBytes, FramesOf, Available, FrameBytes, SourceFrame, Writer.Valid, Writer.Content;
    count := 0;
    FramesBytesEmpty();
    NoFrames(mem, channels);
    assert sizes + [] == sizes;
    while true
      invariant 0 <= count < bsize && count <= Available(memSize, channels)
      invariant w.Valid()
      invariant w.Content() == header + ByteFields(sizes + FramesBytes(FramesOf(mem, channels, count, count)))
      invariant w.Written() + 32 * (bsize - count) <= 8 * w.buf.Length
      decreases bsize - count
    {
      var nodata, one := Fetch(memSize, channels, mem, count);
      if nodata {
        break;
      }
      PutFrame(w, one, header, sizes + FramesBytes(FramesOf(mem, channels, count, count)));
      NextFrame(mem, channels, count, sizes);
      count := count + 1;
      if count == bsize {
        break;
      }
    }
  }

  lemma NoFrames(mem: Memory, channels: int)
    ensures FramesOf(mem, channels, 0, 0) == []
  {}

  /** The MEMORY case of the source switch: the next frame, and whether the source had it. */
  method Fetch(memSize: int, channels: int, mem: Memory, count: nat) returns (nodata: bool, one: Frame)
    ensures nodata <==> Available(memSize, channels) <= count
    ensures one == SourceFrame(mem, channels, count)
  {
    AvailableIff(memSize, channels, count);
    if channels == 1 {
      nodata := memSize <= count * 2;
      one := Frame(mem(count), mem(count));
    } else {
      nodata := memSize <= count * 4;
      one := Frame(mem(count * 2), mem(count * 2 + 1));
    }
  }

  lemma NextFrame(mem: Memory, channels: int, n: nat, sizes: seq<bv8>)
    ensures sizes + FramesBytes(FramesOf(mem, channels, n, n)) + FrameBytes(SourceFrame(mem, channels, n)) ==
            sizes + FramesBytes(FramesOf(mem, channels, n + 1, n + 1))
  {
    hide *;
    var frames, one := FramesOf(mem, channels, n, n), SourceFrame(mem, channels, n);
    FramesOfSnoc(mem, channels, n);
    FramesBytesSnoc(frames, one);
    AppendAssoc(sizes, FramesBytes(frames), FrameBytes(one));
  }

  lemma AppendAssoc(a: seq<bv8>, b: seq<bv8>, c: seq<bv8>)
    ensures a + b + c == a + (b + c)
  {}

  lemma FramesOfSnoc(mem: Memory, channels: int, n: nat)
    ensures FramesOf(mem, channels, n + 1, n + 1) == FramesOf(mem, channels, n, n) + [SourceFrame(mem, channels, n)]
  {}

  function Silence(n: nat): (z: seq<bv8>)
    ensures |z| == n
  {
    seq(n, _ => 0)
  }

  /** Fills the rest of the frame with zero bytes. */
  method PutSilence(w: Writer, n: nat, ghost header: seq<bool>, ghost bytes: seq<bv8>)
    requires w.Valid() && w.Content() == header + ByteFields(bytes) && w.Written() + 8 * n <= 8 * w.buf.Length
    modifies w, w.buf
    ensures w.Valid() && w.Content() == header + ByteFields(bytes + Silence(n))
  {
    hide ByteFields, Bits;
    var i := 0;
    assert bytes + Silence(0) == bytes;
    while i < n
      invariant 0 <= i <= n
      invariant w.Valid() && w.Content() == header + ByteFields(bytes + Silence(i))
    {
      PutByte(w, 0, header, bytes + Silence(i));
      assert bytes + Silence(i) + [0] == bytes + Silence(i + 1);
      i := i + 1;
    }
  }

  lemma FramesBytesEmpty()
    ensures FramesBytes([]) == []
  {}

  lemma FramesBytesSnoc(frames: seq<Frame>, f: Frame)
    ensures FramesBytes(frames + [f]) == FramesBytes(frames) + FrameBytes(f)
  {
    assert (frames + [f])[..|frames|] == frames;
  }

  lemma ZeroFrameBytes()
    ensures FrameBytes(Frame(0, 0)) == [0, 0, 0, 0]
  {}

  lemma {:induction false} FramesBytesSilence(frames: seq<Frame>, all: seq<Frame>)
    requires |frames| <= |all| && all[..|frames|] == frames
    requires forall i :: |frames| <= i < |all| ==> all[i] == Frame(0, 0)
    ensures FramesBytes(all) == FramesBytes(frames) + Silence(4 * (|all| - |frames|))
    decreases |all| - |frames|
  {
    hide FramesBytes;
    if |frames| == |all| {
      assert all == frames;
      assert FramesBytes(frames) + Silence(0) == FramesBytes(frames);
    } else {
      var n := |all| - 1;
      FramesBytesSilence(frames, all[..n]);
      FramesBytesSnoc(all[..n], all[n]);
      assert all[..n] + [all[n]] == all;
      ZeroFrameBytes();
      assert Silence(4 * (n - |frames|)) + [0, 0, 0, 0] == Silence(4 * (|all| - |frames|));
      AppendAssoc(FramesBytes(frames), Silence(4 * (n - |frames|)), [0, 0, 0, 0]);
    }
  }

  /** The written frame read back: header, count and every sample, then silence. */
  lemma FrameReadsBack(mem: Memory, channels: int, count: nat, bsize: nat, i: nat)
    requires 1 <= bsize <= MAX_SAMPLES_IN_CHUNK && count <= bsize && i < bsize
    ensures var bits := Packed(FramesOf(mem, channels, count, bsize));
            |bits| >= 55 && ReadHeader(bits).frames == bsize &&
            ReadHeader(bits).channels == 1 && ReadHeader(bits).uncompressed &&
            ReadHeader(bits).payload + 32 * i + 32 <= |bits| &&
            FrameAt(bits, ReadHeader(bits).payload, i) ==
            if i < count then SourceFrame(mem, channels, i) else Frame(0, 0)
  {
    hide Packed, ReadHeader, FrameAt;
    PackedReadsBack(FramesOf(mem, channels, count, bsize));
  }
}
