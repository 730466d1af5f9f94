# waveplay: verified models of its hard parts

waveplay captures Android audio and streams it to AirPlay receivers. This project models, in Dafny, the pieces of it
whose correctness cannot be read off one function: the table-driven AES cipher and the CBC packet encryption, the
linear and sinc sample-rate converters, the OpenSSL debug allocator, the OpenSSL hash collector, AudioFlinger's effect
and track bookkeeping, the uncompressed audio frame writer and base64. `dafny verify dfyconfig.toml` checks everything.

Code that works by changing things is modelled by classes and methods with loops, each proved against a specification
function; the properties of those functions are separate lemmas.

- **AES and CBC** (`Gf256`, `AesSpec`, `AesBytes`, `AesWords`, `AesTables`, `Aes`, `RaopCbc`). `AesSpec` is the cipher
  of FIPS 197 section 5 on words and states, and `AesBytes` says what it leaves at each byte, as the standard indexes
  it. Everything the C code does by tables is proved equal to it, from the log/antilog tables (3 generates all 255
  non-zero bytes, and `log[1]` ends as 255) to the transformed round keys. `SetKey`, `Encrypt` and `Decrypt` then
  compose to the identity for every key and block.
- **Sample-rate converters** (`Rounding`, `Linear`, `LinearStream`, `SincFilter`, `SincReach`, `SincWindow`, `Sinc`).
  Doubles are exact reals; `lrint` is rounding to nearest even. A call's contract says what it puts out, uses and
  leaves; the run theorems say that the whole output is a stateless function of the whole input, however the calls cut
  both. The linear theorem also covers ratios that change from call to call. It needs a first call with input:
  `linear_vari_process` loads its last frame from `data_in` before it looks at `input_frames`, and `FirstCallExact`
  shows that a non-empty first call is exactly the condition.
- **Debug allocator** (`MemCtrl`, `AppInfo`). The two-lock protocol is a step machine over any number of threads with
  one step for each lock operation, test and shared assignment. The info stacks and records are a heap of counted nodes:
  views never change under a thread's feet. Counts stay exact unless a reallocation lands on another record that has
  info, whose node then keeps a count that is one too high and is never freed (`DbgRealloc`, `OrphanOnRealloc`). No other
  node leaks unless an allocation replaces the last record of a node (`DbgMalloc`, `LeakOnReplace`).
- **Hash collector** (`HashCollector`), for any block function and any block size of at least 8 bytes. A block size of
  64 is that of MD5 and SHA-1; lengths are counted in two 32-bit words.
- **AudioFlinger** (`EffectSpec`, `EffectOrder`, `EffectMerge`, `Effects`, `EffectHandles`, `EffectMove`,
  `TrackCounters`, `DirectCounters`, `OutputTrack`, `TrackState`, `TrackRaces`). A locked section is one step; the HAL,
  the audio policy and effect engines are parameters or a flag. `TrackState` takes each call of start, stop and pause as
  one step, though the code releases the lock in its middle; `TrackRaces` has a step for each part and for each arrival
  at the policy. Several things one would expect do not hold, and for each the exact condition is proved:
  - Auxiliary effects write the chain's input buffer exactly until a removal at the end of the chain uncovers one
    (`RunAuxIn`, `AlwaysAuxIn`, `ExposingRun`).
  - A move changes the order inside a chain: `RebuiltOrder` gives the new order, `OrderKept` says when it is the old one,
    and `MovedTwice` when a second move restores it; `PlainStraight` shows that it always does without pre- and
    post-processing effects.
  - A move into a thread that has a chain for the session loses exactly the effects which that chain refuses by itself
    (`TakesIff`, `NothingLostIff`, `ExclusiveLost`).
  - Losing the last handle leaves a running engine running (`LoseHandle`, `DestroyedRunning`).
  - The handle in control can be wrong about its effect, after a pinned effect has lost its last handle while it was on
    or after a restore that the policy refused (`BeliefIff`, `PinnedStaysOn`, `RestoreRefused`).
  - The policy's count of a track comes out wrong exactly by the refused start calls that a stop or pause overtook
    (`SettledIff`, `RefusalOvertaken`); on the way it is right if calls arrive in order, and cannot be guaranteed with two
    pending (`OrderlyAlternates`, `RaceIff`, `StopFirst`).
  - On a direct output thread the chain misses every track started after it came (`CountRightIff`, `PlayedOnce`).
  - A fast track can be removed before the fast mixer knows it, if the HAL reports no latency (`MixFast`,
    `GoneBeforeSeen`).
- **Codecs** (`BitWriter`, `PcmFrame`, `Base64`). base64_decode does not reject characters outside the alphabet: they
  count as digit -1, and `TokenErrorIff` and `RefusedIff` say exactly which texts it refuses.

`Basics` holds what several models share.

Modelling choices: 32-bit words of the cipher are `bv32`; the tables are fields of type `seq`, so they do not alias.
The audio source of `auds_write_pcm` is a total function from positions to 16-bit words, because the C code reads one
element before it tests the size. Memory behind the converter's input is arbitrary too. Counts of frames and tracks are unbounded. Effect engines obey enable and
disable commands. `kMaxOverFlowBuffers` and the meaning of `isStopped()` (STOPPED or FLUSHED) belong to a header that is
not part of this model; the first is a parameter, the second follows the comments in `flush` and `prepareTracks_l`.

## Model

| member | source | states |
|---|---|---|
| Gf256.LogExists | jni/raop_play/aes.c:75-79 | 3 generates the multiplicative group of GF(2^8): every non-zero byte is a power of 3 with an exponent from 1 to 255 |
| Gf256.PowInjective | jni/raop_play/aes.c:75-79 | the powers 3^0 to 3^254 are pairwise different |
| Gf256.MulOfPows | jni/raop_play/aes.c:64 | field multiplication adds logarithms modulo 255 |
| Gf256.MulAssociates | jni/raop_play/aes.c:64 | field multiplication, defined by shift and reduce, is associative |
| Gf256.MulDistributes | jni/raop_play/aes.c:63-64 | it distributes over addition |
| Gf256.InverseUnique | jni/raop_play/aes.c:90-105 | a byte's inverse is the only one whose product with it is 1 |
| AesTables.GenPowLog | jni/raop_play/aes.c:75-79 | the loop builds the antilog table and its inverse, with log[1] left at 255 |
| AesTables.GenSBoxes | jni/raop_play/aes.c:90-105 | FSb is inversion followed by the affine map, RSb its inverse |
| AesSpec.AffineBits | jni/raop_play/aes.c:90-105 | the rotations of the code are equation 5.1 of FIPS 197: each output bit adds five input bits and a bit of 0x63 |
| AesSpec.SBoxInverse | jni/raop_play/aes.c:90-105 | the two substitution boxes undo each other on every byte |
| AesTables.TableMulCorrect | jni/raop_play/aes.c:64 | the MUL macro through log and antilog is field multiplication, zero included |
| Aes.Tables.GenTables | jni/raop_play/aes.c:66-137 | after generation FT0-FT3, RT0-RT3, the boxes and RCON hold what their definitions say |
| Aes.Tables.GenRcon | jni/raop_play/aes.c:83-86 | the round constants are the powers of x in the top byte |
| Aes.Tables.GenMixTables | jni/raop_play/aes.c:109-136 | every entry is a substituted byte times its MixColumns, or InvMixColumns, column |
| AesSpec.InvMixColumnInverts | jni/raop_play/aes.c:124-135 | InvMixColumns undoes MixColumns |
| AesSpec.InvMixColumnLinear | jni/raop_play/aes.c:544-581 | InvMixColumns distributes over adding a key word |
| AesSpec.InverseRoundsMirror | jni/raop_play/aes.c:714-734 | induction over rounds: the inverse rounds with transformed keys retrace the forward rounds |
| AesSpec.EqInvCipherInverts | jni/raop_play/aes.c:678-764 | the equivalent inverse cipher (section 5.3.5 of FIPS 197) undoes the cipher for every state, schedule and round count |
| AesBytes.RoundBytes | jni/raop_play/aes.c:599-622 | byte r of column c after a round is 2, 3, 1, 1 times the substituted bytes at rows r to r + 3, each from the column c plus its row, plus the key byte |
| AesBytes.LastRoundBytes | jni/raop_play/aes.c:646-668 | the same without the mixing |
| AesBytes.BlockBytes | jni/raop_play/aes.c:593-596 | byte 4c + r of a block is row r of column c |
| AesBytes.RunIsCipher | jni/raop_play/aes.c:588-674 | any run given byte by byte (key added, nr - 1 mixing rounds, one without) ends in the cipher's output, for every block, schedule and number of rounds |
| AesBytes.KeyWordFollows | jni/raop_play/aes.c:457-527 | every word of KeyExpansion follows, byte by byte, from the word before it and the one nk back |
| AesBytes.RoundConstants | jni/raop_play/aes.c:83-86 | the ten round constants are 2^0 to 2^9 in the field, the last two 0x1B and 0x36 |
| AesBytes.FirstDerivedWord | jni/raop_play/aes.c:472-476 | the first derived word of the example key in appendix A.1 of FIPS 197 is a0fafe17 |
| Aes.Tables.Expand128 | jni/raop_play/aes.c:468-482 | the 128-bit loop produces KeyExpansion (section 5.2 of FIPS 197) within the 64 words; by bytes, each is the byte four words back plus the byte before it, substituted, one place further on and with a power of 2 where a group starts |
| Aes.Tables.Expand192 | jni/raop_play/aes.c:484-500 | the same for 192 bits |
| Aes.Tables.Expand256 | jni/raop_play/aes.c:502-526 | the same for 256 bits, with the extra substitution half way |
| Aes.Tables.ExpandKey | jni/raop_play/aes.c:457-527 | all round keys are those of KeyExpansion, as words and by bytes |
| Aes.Tables.GenKeyTables | jni/raop_play/aes.c:529-542 | KT0-KT3 are RT0-RT3 at the substituted byte, which is InvMixColumns of the byte |
| Aes.Tables.InvertKeys | jni/raop_play/aes.c:544-581 | drk is erk in reverse round order with the middle keys through InvMixColumns |
| Aes.Tables.SetKey | jni/raop_play/aes.c:437-584 | error for other key sizes with nothing changed; else round count, erk and drk of the key; byte j of word i of erk is key[4i + j] for the first words, and the others follow the byte recurrence |
| Aes.RoundKeyBytes | jni/raop_play/aes.c:599-668 | round r takes words 4r to 4r + 3 of the array, one for each column |
| Aes.ForwardRoundCorrect | jni/raop_play/aes.c:599-622 | one table round equals SubBytes, ShiftRows, MixColumns, AddRoundKey |
| Aes.ReverseRoundCorrect | jni/raop_play/aes.c:689-712 | one reverse table round equals the equivalent inverse round |
| Aes.LastForwardRoundCorrect | jni/raop_play/aes.c:646-668 | the S-box last round equals SubBytes, ShiftRows, AddRoundKey |
| Aes.LastReverseRoundCorrect | jni/raop_play/aes.c:736-758 | the same for decryption |
| Aes.Tables.Encrypt | jni/raop_play/aes.c:588-674 | encryption in place is Cipher of section 5.1 of FIPS 197 |
| Aes.Tables.Decrypt | jni/raop_play/aes.c:678-764 | decryption in place is the equivalent inverse cipher with the inverted schedule |
| Aes.EncryptThenDecrypt | jni/raop_play/aes.c:437-764 | for every key of 128, 192 or 256 bits and every block, decrypting what was encrypted gives the block back |
| RaopCbc.CbcRoundTrip | jni/raop_play/raop_client.c:110-136 | CBC decryption undoes CBC encryption for data of every length |
| RaopCbc.CbcTail | jni/raop_play/raop_client.c:110-136 | bytes behind the last whole block are left as they are |
| RaopCbc.CbcChained | jni/raop_play/raop_client.c:110-136 | each ciphertext block, deciphered on its own, is its plain block xor the ciphertext block before it, iv for the first |
| RaopCbc.Client.Encrypt | jni/raop_play/raop_client.c:110-136 | in-place encryption is CBC (section 6.2 of NIST SP 800-38A) from the stored iv over 16 * floor(size / 16) bytes, which it returns; each block deciphered is the old block xor what precedes it in the output, byte by byte; the tail and the iv stay |
| Rounding.WholeAndFraction | jni/libsamplerate/common.h:136-145 | fmod_one is the fractional part and lrint of the rest the floor, for every real, whichever way lrint rounds |
| Linear.RatioInFrames | jni/libsamplerate/src_linear.c:86-87 | the ratio computed from sample counts is the one computed from frame counts |
| Linear.BlendLine | jni/libsamplerate/src_linear.c:86-87 | a moving ratio goes from the last to the new one in equal steps, one for each output frame |
| Linear.RampStep | jni/libsamplerate/src_linear.c:86-97 | output frame k + 1 comes the reciprocal of k of those steps after frame k, and that ratio is the one left |
| Linear.Converter.Reset | jni/libsamplerate/src_linear.c:206-218 | the state after a reset |
| Linear.Converter.Head | jni/libsamplerate/src_linear.c:81-97 | the frames before the first input frame interpolate between last_value and it |
| Linear.Converter.Body | jni/libsamplerate/src_linear.c:104-126 | the main loop interpolates between input frames and stops at the end of either buffer |
| Linear.Converter.VariProcess | jni/libsamplerate/src_linear.c:55-146 | one call at a constant or moving ratio: every output sample, how many frames are made and used, and the state left behind |
| Linear.Converter.SrcProcess | jni/libsamplerate/samplerate.c:116-181 | an error exactly for a ratio outside 1/256 to 256, with nothing changed; negative counts as 0; the ratio is taken over at once only if none is set yet |
| LinearStream.FedFrame | jni/libsamplerate/src_linear.c:114-118 | a call's interpolation depends only on the caller's input: the operand read behind it has weight 0 |
| LinearStream.CallStreams | jni/libsamplerate/src_linear.c:55-146 | a call in step with the stream puts out the stream's frames from where it stands and stays in step |
| LinearStream.RunStreams | jni/libsamplerate/src_linear.c:55-146 | any run, with any ratios and chunking, outputs the interpolation of x0, x0, x1, ... at positions that advance by 1 / ratio; frames used + last_position is the total |
| LinearStream.ConstantRatio | jni/libsamplerate/src_linear.c:55-146 | at one ratio r the positions are n / r, and frames used + last_position = frames generated / r |
| LinearStream.ConstantCall | jni/libsamplerate/src_linear.c:55-146 | one call at a constant ratio: exactly how many frames it makes and uses, and where it then stands |
| LinearStream.StreamValue | jni/libsamplerate/src_linear.c:90-118 | the stream at a position: its first frame up to 1, then a straight line between the two frames around it |
| LinearStream.ResampledAt | jni/libsamplerate/src_linear.c:55-146 | output frame k at ratio r is the stream at k / r |
| LinearStream.ChunkingIrrelevant | jni/libsamplerate/src_linear.c:55-146 | of two runs over one stream the shorter output is a prefix of the longer |
| LinearStream.FirstCallExact | jni/libsamplerate/src_linear.c:66-71 | whatever lies behind the input, the first call after a reset is right if and only if it is given a frame |
| LinearStream.EmptyFirstCall | jni/libsamplerate/src_linear.c:66-71 | the call that shows it: without input the first output is whatever data_in points at |
| SincFilter.ReachExact | jni/libsamplerate/src_sinc.c:424-450 | the start counts of both passes name exactly the frames within the filter's distance |
| SincFilter.SumCovers | jni/libsamplerate/src_sinc.c:417-467 | every range that covers the reach gives the same sum, so each frame in reach counts once |
| SincFilter.Interpolate | jni/libsamplerate/src_sinc.c:434-437 | the coefficient is the table interpolated at the fixed-point index; the entry past the table has weight 0 |
| SincFilter.CoeffBetween | jni/libsamplerate/src_sinc.c:434-437 | between two entries of the table the coefficient is the straight line through both, in 4096 steps |
| SincFilter.LeftPass | jni/libsamplerate/src_sinc.c:426-444 | the first do-while sums the frames up to the turning point |
| SincFilter.RightPass | jni/libsamplerate/src_sinc.c:446-464 | the second sums the others, also when start equals increment |
| SincFilter.CalcOutput | jni/libsamplerate/src_sinc.c:417-467 | both passes terminate and add up to the direct sum over every frame within distance max |
| SincReach.ReachEnough | jni/libsamplerate/src_sinc.c:274-279 | half_filter_chan_len covers every frame that an output reads, on both sides |
| SincReach.FilterCentred | jni/libsamplerate/src_sinc.c:313-319 | frame j is weighed at its distance from the position, in table steps, within (abs(j) + 1) / 2 of a step: the filter is centred on the position |
| SincWindow.FilteredTerms | jni/libsamplerate/src_sinc.c:313-325 | every output is min(ratio, 1) times the sum over the frames in reach of sample times table entry at that distance, zero for frames outside the input or past the table |
| SincWindow.FrameAt | jni/libsamplerate/src_sinc.c:327-332 | frame i of a call's or a run's output is the one at its first position plus i / ratio |
| SincReach.StepShort | jni/libsamplerate/src_sinc.c:327-332 | one output moves the window by at most half_filter_chan_len |
| Sinc.Converter.SetRatio | jni/libsamplerate/samplerate.c:171-172 | the first call's ratio is taken over, and the window is set up for it |
| Sinc.Converter.Reset | jni/libsamplerate/src_sinc.c:228-245 | the empty window |
| Sinc.Converter.MoveDown | jni/libsamplerate/src_sinc.c:370-375 | memmove keeps the window's content |
| Sinc.Converter.MakeRoom | jni/libsamplerate/src_sinc.c:356-379 | the three cases of loading and the room they leave |
| Sinc.Converter.Load | jni/libsamplerate/src_sinc.c:381-388 | whole frames of input join the window, as many as fit |
| Sinc.Converter.PadTail | jni/libsamplerate/src_sinc.c:390-411 | half_filter_chan_len + 5 zeros follow the last input, within the buffer |
| Sinc.Converter.PrepareData | jni/libsamplerate/src_sinc.c:349-414 | the window stays hf <= b_current <= b_end <= b_len and a contiguous slice of zeros, all input so far and end zeros; when it still holds too little, the input is used up or the next call moves the window |
| Sinc.TapsAgree | jni/libsamplerate/src_sinc.c:430-442 | within the reach the buffer and the stream hold the same sample, and the index is in bounds |
| Sinc.Converter.EmitFrame | jni/libsamplerate/src_sinc.c:313-325 | an output frame is the scaled filter sum on the stream at the current position, which FilteredTerms and FilterCentred describe without the fixed-point walk |
| Sinc.Converter.Advance | jni/libsamplerate/src_sinc.c:327-332 | the window slides by the whole part of the new index and never wraps |
| Sinc.Converter.Reload | jni/libsamplerate/src_sinc.c:293-308 | at every output all that the filter reads is in the window, or the input has ended |
| Sinc.Converter.Process | jni/libsamplerate/src_sinc.c:251-344 | one call at a fixed ratio: what it takes, the frames it makes, the new position, and why it stops; after the end of the input that is the termination test at its position |
| Sinc.RunFilters | jni/libsamplerate/src_sinc.c:251-344 | however input and output are chunked, all frames of a run are the filter applied to all input taken, centred on positions 1 / ratio apart (FilteredTerms, FrameAt) |
| Sinc.ChunkingIrrelevant | jni/libsamplerate/src_sinc.c:251-344 | of two runs over the same input the shorter output is a prefix of the longer |
| Sinc.OutputsBeforeEnd | jni/libsamplerate/src_sinc.c:300-310 | no output of a run comes closer to the end of all its input than the termination test allows, whenever the end became known |
| Sinc.CompleteRunsAgree | jni/libsamplerate/src_sinc.c:251-344 | two runs over the same whole input that have both stopped at its end put out the same frames, and equally many |
| Sinc.CompleteLength | jni/libsamplerate/src_sinc.c:303-307 | how many frames a complete mono run makes: the next would be less than a step before the end of the input, the last was not |
| MemCtrl.ApplyInv | jni/openssl/crypto/mem_dbg.c:157-223 | every step of every thread keeps the protocol's invariant |
| MemCtrl.RunInv | jni/openssl/crypto/mem_dbg.c:157-223 | so does every interleaving |
| MemCtrl.DisabledMeansOwned | jni/openssl/crypto/mem_dbg.c:157-223 | num_disable > 0 means that MALLOC2 is held by disabling_thread and num_disable is its nesting depth |
| MemCtrl.EnableBit | jni/openssl/crypto/mem_dbg.c:157-223 | outside the update window the ENABLE bit is clear exactly if num_disable > 0 |
| MemCtrl.NoHoldAndWait | jni/openssl/crypto/mem_dbg.c:180-199 | a thread that waits for MALLOC2 holds neither lock |
| MemCtrl.AnswerIsOwnView | jni/openssl/crypto/mem_dbg.c:225-239 | CRYPTO_is_mem_check_on answers yes exactly while checking is on, to threads that have not disabled it |
| MemCtrl.DepthCountsCalls | jni/openssl/crypto/mem_dbg.c:175-217 | in every run since checking was started, a thread outside all calls has disabled it as often as it called DISABLE less as often as it called ENABLE |
| MemCtrl.DisableCompletes | jni/openssl/crypto/mem_dbg.c:175-200 | from every reachable state with MALLOC free and MALLOC2 free or its own, a thread's own steps complete a DISABLE: num_disable one higher, ENABLE clear, MALLOC2 held by it |
| MemCtrl.NoDeadlock | jni/openssl/crypto/mem_dbg.c:157-239 | in every reachable state with a thread inside a call, some thread inside a call can move, or all of them wait for MALLOC2 while its holder is outside with checking disabled |
| MemCtrl.HolderReleases | jni/openssl/crypto/mem_dbg.c:202-217 | from the latter state the holder's own calls of ENABLE release MALLOC2, without a step of any other thread |
| AppInfo.CountOfNode | jni/openssl/crypto/mem_dbg.c:96-103 | references = 1 if the node tops its thread's stack + records pointing to it + nodes whose next it is |
| AppInfo.Store.AppInfoFree | jni/openssl/crypto/mem_dbg.c:145-155 | terminates, frees only unreferenced nodes, and leaves all counts exact |
| AppInfo.Store.PushInfo | jni/openssl/crypto/mem_dbg.c:333-381 | the thread's stack grows by one; every other stack and record reads as before; the result is always 0 |
| AppInfo.Store.PopInfo | jni/openssl/crypto/mem_dbg.c:296-331 | the top leaves the stack; records that still refer to it read as before |
| AppInfo.Store.CryptoPopInfo | jni/openssl/crypto/mem_dbg.c:383-396 | pops only while checking is on |
| AppInfo.Store.RemoveAllInfo | jni/openssl/crypto/mem_dbg.c:398-412 | empties the stack and returns its height |
| AppInfo.Store.DbgMalloc | jni/openssl/crypto/mem_dbg.c:416-502 | a new record keeps the thread's current stack; counts stay exact, also when it replaces a record; a node leaks if and only if the replaced record was its last user |
| AppInfo.Store.DbgFree | jni/openssl/crypto/mem_dbg.c:504-538 | the record goes, and its nodes if nothing else refers to them |
| AppInfo.Store.DbgRealloc | jni/openssl/crypto/mem_dbg.c:540-589 | the record moves with its info, whatever was at the new address; counts stay exact if and only if no record with info was replaced; a null old address is an allocation |
| AppInfo.LeakOnReplace | jni/openssl/crypto/mem_dbg.c:484-496 | a replacement that leaks a node |
| AppInfo.OrphanOnRealloc | jni/openssl/crypto/mem_dbg.c:568-581 | a reallocation after which a count is wrong |
| AppInfo.NoLeak | jni/openssl/crypto/mem_dbg.c:145-155 | while no node has leaked, which DbgMalloc bounds exactly, every live node is reachable from a stack or a record |
| HashCollector.Collector.Update | jni/openssl/crypto/md32_common.h:282-338 | the blocks fed and the buffer together hold the message so far, bytes behind num are zero, and Nh:Nl counts its bits modulo 2^64 |
| HashCollector.Collector.AddLength | jni/openssl/crypto/md32_common.h:291-297 | the carry between the two length words |
| HashCollector.BitCount | jni/openssl/crypto/md32_common.h:291-297 | two-word addition with that carry is addition modulo 2^64 |
| HashCollector.PadLengthCases | jni/openssl/crypto/md32_common.h:352-362 | the least padding takes one block or two, by the space left |
| HashCollector.CountValue | jni/openssl/crypto/md32_common.h:232-273 | the eight bytes of the count, weighted 256^7 to 1 or 1 to 256^7 by byte order, add up to it |
| HashCollector.PaddedBytes | jni/openssl/crypto/md32_common.h:350-366 | padding is the message, 0x80, fewer zeros than a block, and eight bytes whose value in the digest's byte order is the bit count modulo 2^64 |
| HashCollector.FoldChain | jni/openssl/crypto/md32_common.h:310-330 | folding is the chain of states that the blocks make in order |
| HashCollector.Collector.Final | jni/openssl/crypto/md32_common.h:347-383 | the digest is the block function folded over the padded message (section 5.1.1 of FIPS 180-4, sections 3.1-3.2 of RFC 1321), which PaddedBytes describes byte by byte, and the buffer is cleared |
| HashCollector.DigestInChunks | jni/openssl/crypto/md32_common.h:282-383 | every way of splitting the input gives the one-shot digest |
| EffectSpec.AddedKeeps | audioflinger/4.1.2/AudioFlinger.cpp:9226-9337 | adding an accepted effect keeps auxiliaries first, inserts in order first, any, last, exclusives alone, and the wiring |
| EffectSpec.RemovedKeeps | audioflinger/4.1.2/AudioFlinger.cpp:9340-9370 | so does removing one |
| EffectSpec.RunKeeps | audioflinger/4.1.2/AudioFlinger.cpp:9226-9370 | so does every run of additions and removals |
| EffectSpec.ExclusiveIsOnlyInsert | audioflinger/4.1.2/AudioFlinger.cpp:9279-9284 | after every run an exclusive insert effect is the only insert effect |
| EffectSpec.OnlyLastWritesOut | audioflinger/4.1.2/AudioFlinger.cpp:9318-9330 | after every run that leaves no auxiliaries, exactly the last effect writes the chain's output buffer |
| EffectSpec.RemovedAuxIn | audioflinger/4.1.2/AudioFlinger.cpp:9340-9370 | after a removal all auxiliaries write the input buffer if and only if the removal does not uncover one at the end, and they did before or the last effect went |
| EffectSpec.AddedAuxIn | audioflinger/4.1.2/AudioFlinger.cpp:9226-9337 | after an addition they do if and only if they did before or the new effect takes the end |
| EffectSpec.RunAuxIn | audioflinger/4.1.2/AudioFlinger.cpp:9226-9370 | the condition over every run of additions and removals |
| EffectSpec.AlwaysAuxIn | audioflinger/4.1.2/AudioFlinger.cpp:9226-9370 | they do throughout a run if and only if no removal of it uncovers an auxiliary |
| EffectSpec.ExposingRun | audioflinger/4.1.2/AudioFlinger.cpp:9355-9362 | three steps that leave an auxiliary effect writing the output buffer |
| EffectSpec.PlaceBetween | audioflinger/4.1.2/AudioFlinger.cpp:9267-9315 | what comes before and after the chosen place |
| EffectSpec.RebuiltKeeps | audioflinger/4.1.2/AudioFlinger.cpp:7647-7676 | re-adding a chain's effects one by one never meets an exclusive conflict and keeps order and wiring at every step |
| EffectOrder.RebuiltOrder | audioflinger/4.1.2/AudioFlinger.cpp:7647-7676 | the exact order after a move, for every chain: five parts, of which the auxiliaries, the middle and the last-position inserts come out reversed |
| EffectOrder.OrderKept | audioflinger/4.1.2/AudioFlinger.cpp:7647-7676 | a move keeps the order if and only if the parts stood in their order and the reversed ones have at most one effect |
| EffectOrder.MovedAgain | audioflinger/4.1.2/AudioFlinger.cpp:7621-7679 | after two moves every part is in its old order |
| EffectOrder.MovedTwice | audioflinger/4.1.2/AudioFlinger.cpp:7621-7679 | two moves restore a chain with distinct ids if and only if its parts stood in their order |
| EffectOrder.PlainStraight | audioflinger/4.1.2/AudioFlinger.cpp:9226-9337 | they do in every ordered chain without pre- and post-processing effects |
| EffectOrder.MoveSwaps | audioflinger/4.1.2/AudioFlinger.cpp:7647-7676 | two inserts that change places |
| EffectOrder.SecondMoveDiffers | audioflinger/4.1.2/AudioFlinger.cpp:7647-7676 | a chain that two moves do not restore |
| EffectMerge.MergedKeeps | audioflinger/4.1.2/AudioFlinger.cpp:7647-7676 | offering effects to a chain that is there keeps its order and wiring at every step |
| EffectMerge.TakesIff | audioflinger/4.1.2/AudioFlinger.cpp:7809-7843 | an effect of a moved chain gets in if and only if the other chain alone would take it |
| EffectMerge.MergedIntoNone | audioflinger/4.1.2/AudioFlinger.cpp:7647-7676 | into an empty chain every effect gets in |
| EffectMerge.ExclusiveLost | audioflinger/4.1.2/AudioFlinger.cpp:7647-7650 | an exclusive effect that is lost |
| Effects.EffectModule.UpdateState | audioflinger/4.1.2/AudioFlinger.cpp:8243-8277 | the cycle's state change; the engine runs exactly in ACTIVE and STOPPING; isEnabled does not change |
| Effects.EffectModule.SetEnabled | audioflinger/4.1.2/AudioFlinger.cpp:8559-8603 | the request takes effect unless the policy refuses it, the next state of each of the seven, and the engine rule holds |
| Effects.EffectModule.LoseHandle | audioflinger/4.1.2/AudioFlinger.cpp:8213-8218 | the engine rule survives if and only if the effect stays or its engine was off |
| Effects.DestroyedRunning | audioflinger/4.1.2/AudioFlinger.cpp:8213-8218 | an effect that is destroyed with its engine running |
| EffectHandles.HandledEffect.AddHandle | audioflinger/4.1.2/AudioFlinger.cpp:8153-8182 | the handle's place; exactly the first handle has control; the controlling handle knows whether the effect is on if and only if there was a handle before or the effect is off |
| EffectHandles.HandledEffect.RemoveHandle | audioflinger/4.1.2/AudioFlinger.cpp:8184-8221 | control and belief pass to the next in line, and when the effect is destroyed |
| EffectHandles.HandledEffect.Suspend | audioflinger/4.1.2/AudioFlinger.cpp:9503-9509 | an effect that is on goes off, and what the handle in control believes stays in step |
| EffectHandles.HandledEffect.Restore | audioflinger/4.1.2/AudioFlinger.cpp:9520-9533 | it comes back as the handle in control believes, unless the policy refuses |
| EffectHandles.EffectHandle.Enable | audioflinger/4.1.2/AudioFlinger.cpp:8873-8903 | status, handle, suspension and effect for every case |
| EffectHandles.EffectHandle.Disable | audioflinger/4.1.2/AudioFlinger.cpp:8905-8928 | status, handle and effect for every case: a handle that thinks the effect off leaves it on |
| EffectHandles.RunInOrder | audioflinger/4.1.2/AudioFlinger.cpp:8153-8221 | after every run of joining and leaving, handles are in order of priority and, within one, newest first |
| EffectHandles.ControlAfterRun | audioflinger/4.1.2/AudioFlinger.cpp:8153-8221 | the handle in control is the newest of the highest priority among those present, and no other |
| EffectHandles.BeliefIff | audioflinger/4.1.2/AudioFlinger.cpp:8873-8928 | over every run of joining, leaving, enabling, disabling, suspending and restoring: the effect is on exactly if the handle in control believes so and it is not suspended, if and only if neither fault is pending |
| EffectHandles.NeverStuckOn | audioflinger/4.1.2/AudioFlinger.cpp:8184-8221 | an effect that is not pinned is never on against that belief |
| EffectHandles.RestoreRefused | audioflinger/4.1.2/AudioFlinger.cpp:9520-9533 | a run after which an effect is off against it |
| EffectHandles.PinnedStaysOn | audioflinger/4.1.2/AudioFlinger.cpp:8163-8172 | a pinned effect that its new and only handle fails to turn off |
| Effects.EffectChain.FromId | audioflinger/4.1.2/AudioFlinger.cpp:9136-9147 | the effect of an id, the first for id 0, or none |
| Effects.EffectChain.FindPlace | audioflinger/4.1.2/AudioFlinger.cpp:9267-9315 | the search loop finds the conflict or the place |
| Effects.EffectChain.AddEffect | audioflinger/4.1.2/AudioFlinger.cpp:9226-9337 | status, new chain, buffers and owner, for every outcome |
| Effects.EffectChain.RemoveEffect | audioflinger/4.1.2/AudioFlinger.cpp:9340-9370 | the effect goes, its engine stops, and the effect before it takes over the output |
| EffectMove.GetEffectChain | audioflinger/4.1.2/AudioFlinger.cpp:7887-7896 | the chain of a session, or none |
| EffectMove.InsertedDescends | audioflinger/4.1.2/AudioFlinger.cpp:7973-7978 | chain lists stay strictly descending by session |
| EffectMove.WithoutDescends | audioflinger/4.1.2/AudioFlinger.cpp:7984-8012 | also after a removal, which leaves no chain of that session |
| EffectMove.PlaybackThread.AddEffect | audioflinger/4.1.2/AudioFlinger.cpp:7809-7843 | into the session's chain or a new one, which goes again if the effect is refused; BAD_VALUE for an id that is present; a refusal changes no chain |
| EffectMove.PlaybackThread.RemoveEffect | audioflinger/4.1.2/AudioFlinger.cpp:7845-7862 | the chain goes with its last effect |
| EffectMove.MoveEffectChain | audioflinger/4.1.2/AudioFlinger.cpp:7621-7679 | terminates, empties the old chain, keeps both lists descending, and leaves every engine running exactly if it should; a new chain gets all effects in order and wired, and one that was there gets those it takes |
| EffectMove.NothingLostIff | audioflinger/4.1.2/AudioFlinger.cpp:7647-7676 | the latter loses nothing if and only if the chain, as it was before the move, takes every effect by itself |
| TrackCounters.MixerThread.CreateTrack | audioflinger/4.1.2/AudioFlinger.cpp:1832-1840 | a new track is counted and mixes into its session's chain if there is one |
| TrackCounters.MixerThread.AddTrack | audioflinger/4.1.2/AudioFlinger.cpp:1924-1950 | a started track is counted as active once |
| TrackCounters.MixerThread.RemoveTrack | audioflinger/4.1.2/AudioFlinger.cpp:1965-1984 | a removed track is no longer counted |
| TrackCounters.MixerThread.DestroyTrack | audioflinger/4.1.2/AudioFlinger.cpp:1956-1963 | an active track stays until the mixer removes it |
| TrackCounters.MixerThread.RemoveTracks | audioflinger/4.1.2/AudioFlinger.cpp:3410-3427 | the mixer's removals keep the counters; terminated tracks go altogether |
| TrackCounters.MixerThread.AddEffectChain | audioflinger/4.1.2/AudioFlinger.cpp:7922-7982 | a new chain takes over its session's tracks with the right counts, and sends stay good |
| TrackCounters.MixerThread.RemoveEffectChain | audioflinger/4.1.2/AudioFlinger.cpp:7984-8012 | its tracks go back to the mix buffer and its counts to zero; sends stay good if and only if it is not the chain they go to |
| TrackCounters.MixerThread.AddEffect | audioflinger/4.1.2/AudioFlinger.cpp:7809-7843 | status and chain for every outcome, with counters, buffers and sends right |
| TrackCounters.MixerThread.AttachAux | audioflinger/4.1.2/AudioFlinger.cpp:8025-8046 | the status for every id, and no track sends to an effect that is not there |
| TrackCounters.MixerThread.RemoveEffect | audioflinger/4.1.2/AudioFlinger.cpp:7845-7862 | the sends to a removed auxiliary end, a chain goes with its last effect, and counters and buffers stay right |
| TrackCounters.MoveSession | audioflinger/4.1.2/AudioFlinger.cpp:7621-7679 | a move leaves the counters, main buffers and sends of both threads right |
| TrackCounters.CountDropped | audioflinger/4.1.2/AudioFlinger.cpp:1965-1984 | taking a track off a list lowers its session's count by one and no other |
| DirectCounters.DirectThread.AddTrack | audioflinger/4.1.2/AudioFlinger.cpp:1924-1950 | on a direct output a track that starts is not counted by the chain |
| DirectCounters.DirectThread.Deactivate | audioflinger/4.1.2/AudioFlinger.cpp:3877-3891 | one that goes is |
| DirectCounters.DirectThread.CountRightIff | audioflinger/4.1.2/AudioFlinger.cpp:3877-3891 | the chain's count is right if and only if no track was started since it came |
| DirectCounters.PlayedOnce | audioflinger/4.1.2/AudioFlinger.cpp:3877-3891 | a count of -1 |
| OutputTrack.Track.Write | audioflinger/4.1.2/AudioFlinger.cpp:5593-5709 | delivered ++ queued = accepted: start silence when due, the data but for a dropped suffix, closing silence after an empty write; data is lost only if the thread is gone or in standby, or all of it if the queue is full |
| OutputTrack.Track.Begin | audioflinger/4.1.2/AudioFlinger.cpp:5604-5623 | when the track is started and when silence goes first |
| OutputTrack.Track.Drain | audioflinger/4.1.2/AudioFlinger.cpp:5625-5671 | for every pattern of grants and timeouts the loop ends and delivers pending buffers before new data; if no grant has to wait or fails, everything goes out |
| OutputTrack.Track.Overflow | audioflinger/4.1.2/AudioFlinger.cpp:5673-5689 | what happens to data that was not written |
| OutputTrack.Track.Close | audioflinger/4.1.2/AudioFlinger.cpp:5691-5706 | the end of an empty write |
| OutputTrack.Track.Stop | audioflinger/4.1.2/AudioFlinger.cpp:5585-5591 | what is queued is given up |
| OutputTrack.Track.Reset | audioflinger/4.1.2/AudioFlinger.cpp:4325-4334 | the count of written frames starts again; what was delivered and accepted stays |
| OutputTrack.Track.FillAgain | audioflinger/4.1.2/AudioFlinger.cpp:5691-5706 | so an empty write to a stopped track queues a whole buffer of silence |
| OutputTrack.FrontTaken | audioflinger/4.1.2/AudioFlinger.cpp:5653-5670 | taking frames off the front buffer takes them off the front of all that is pending |
| TrackState.NeverTwice | audioflinger/4.1.2/AudioFlinger.cpp:4632-4776 | while the policy's calls alternate, it counted the track once or not at all at every moment |
| TrackState.Track.Start | audioflinger/4.1.2/AudioFlinger.cpp:4632-4676 | startOutput only from a state that is not playing, state restored when it fails |
| TrackState.Track.Stop | audioflinger/4.1.2/AudioFlinger.cpp:4678-4711 | new state by list membership and kind; stopOutput exactly if it was playing |
| TrackState.Track.Pause | audioflinger/4.1.2/AudioFlinger.cpp:4713-4734 | stopOutput exactly if it was playing |
| TrackState.Track.Flush | audioflinger/4.1.2/AudioFlinger.cpp:4736-4758 | only a track outside the active list becomes idle |
| TrackState.Track.Reset | audioflinger/4.1.2/AudioFlinger.cpp:4760-4776 | a reset happens once |
| TrackState.Track.Destroy | audioflinger/4.1.2/AudioFlinger.cpp:4434-4464 | a playing track is stopped with the policy before it terminates |
| TrackState.Track.PresentationComplete | audioflinger/4.1.2/AudioFlinger.cpp:4838-4857 | the first question fixes the frame count at which the answer turns to yes |
| TrackState.Track.MixNormal | audioflinger/4.1.2/AudioFlinger.cpp:3151-3364 | the cycle's next state and removal of a normal track; playing or not does not change, so the policy's count stays right through underrun removal |
| TrackState.Track.MixFast | audioflinger/4.1.2/AudioFlinger.cpp:3001-3149 | the same for a fast track; an idle track is never met; the fatal error for a track that the fast mixer has not seen occurs if and only if it only waits on its first cycle and the HAL reports a latency of 0 frames |
| TrackState.GoneBeforeSeen | audioflinger/4.1.2/AudioFlinger.cpp:3131-3143 | a track started, stopped and flushed between two cycles runs into it with such a HAL and with no other |
| TrackRaces.Ledger | audioflinger/4.1.2/AudioFlinger.cpp:4632-4734 | for every interleaving: what the state promises, less what the policy has counted and is still to hear, is the number of overtaken refusals |
| TrackRaces.SettledIff | audioflinger/4.1.2/AudioFlinger.cpp:4632-4734 | once all calls have ended the policy is right if and only if no refused start was overtaken |
| TrackRaces.OrderlyAlternates | audioflinger/4.1.2/AudioFlinger.cpp:4632-4734 | with calls arriving in order and refusals taken back at once, the policy is never wrong by a call |
| TrackRaces.RaceIff | audioflinger/4.1.2/AudioFlinger.cpp:4652-4702 | the next arrival keeps it so, whichever it is, if and only if at most one call is pending |
| TrackRaces.RefusalOvertaken | audioflinger/4.1.2/AudioFlinger.cpp:4666-4671 | an interleaving that leaves one stopOutput too many |
| TrackRaces.StopFirst | audioflinger/4.1.2/AudioFlinger.cpp:4652-4702 | a stopOutput that overtakes a startOutput |
| BitWriter.Writer.Write | jni/raop_play/audio_stream.h:92-111 | a field of 1 to 8 bits is appended, most significant bit first, and nothing else changes in what was written |
| PcmFrame.PackedReadsBack | jni/raop_play/audio_stream.c:131-214 | all 23 header bits, and an independent reader gets header, size and every big-endian sample back from the bits |
| PcmFrame.PackedLength | jni/raop_play/audio_stream.c:210-211 | 4 * bsize + 7 bytes, 4 * bsize + 3 for 4096 frames |
| PcmFrame.Fetch | jni/raop_play/audio_stream.c:184-194 | which source frame comes next, and when the source is exhausted |
| PcmFrame.WritePcm | jni/raop_play/audio_stream.c:131-214 | -1 for an empty source; else the buffer holds the packed frame: the source frames, then silence, within MAX_SAMPLES_IN_CHUNK * 4 + 16 bytes |
| PcmFrame.FrameReadsBack | jni/raop_play/audio_stream.c:131-214 | what WritePcm wrote parses back to the source's samples |
| Base64.SextetsOfGroup | jni/raop_play/base64.c:69-81 | the four characters of a group carry its 24 bits in order |
| Base64.Encode | jni/raop_play/base64.c:55-91 | the encoding of section 4 of RFC 4648 with padding, its length, and its fit in size * 4 / 3 + 4 characters |
| Base64.Pos | jni/raop_play/base64.c:45-53 | the index in the alphabet, or -1 |
| Base64.TokenDecode | jni/raop_play/base64.c:95-115 | the value of any four characters, with digit -1 for those outside the alphabet, and exactly which are an error |
| Base64.TokenIs | jni/raop_play/base64.c:95-115 | the digits and pads as one number, modulo 2^32 when negative |
| Base64.TokenErrorIff | jni/raop_play/base64.c:95-115 | an error means too few characters, a pad out of place, or the digits happening to make -1 |
| Base64.BytesOfToken | jni/raop_play/base64.c:124-133 | the bytes of any token that starts with a letter and has its pads in place; a negative number leaves one |
| Base64.RefusedIff | jni/raop_play/base64.c:117-136 | a text is refused if and only if a bad token comes before anything that ends the loop |
| Base64.ForeignAccepted | jni/raop_play/base64.c:117-136 | a text outside the alphabet that is accepted |
| Base64.TokenOfDigits | jni/raop_play/base64.c:95-115 | on encoder output the token is the group's number and its padding count |
| Base64.Decode | jni/raop_play/base64.c:117-136 | the bytes and their number for every string, and -1 exactly for those refused |
| Base64.RoundTrip | jni/raop_play/base64.c:55-136 | decoding the encoding of any byte string gives it back |

## Left out

- Sockets, the RTSP and RTP exchange, JNI and the select loop: input and output over services outside the repository.
- RSA, random numbers, LHASH and STACK: the hash tables are maps, the lists sequences.
- The fixed-table variant of aes.c and the filter coefficient tables: constant data; coefficients are an arbitrary function.
- Floating-point rounding in libsamplerate, and its 32-bit fixed-point overflow: reals and unbounded integers throughout.
- Sinc.Converter.Process: one fixed ratio with 4 * hf + 5 <= b_len; with a ratio that falls between calls hf grows past b_current, so the window has no invariant to keep.
- The zero-order-hold converter: the shape of the linear one with less to prove.
- src_process pointer checks (null and overlapping buffers): in and out are separate by type.
- CRYPTO_mem_leaks and the options of mem_dbg.c: printing.
- AudioFlinger's TimedTrack queue, which effects a chain suspends, output reconfiguration, volumes, dumps and binder calls.
- TrackCounters.MixerThread.AddTrack: sessions above 0 on mixer threads only; output tracks use session 0 without being counted.
- TrackRaces.Ledger: the active track list while calls race; a refused start can restore the state of a track that another start has listed.
- EffectHandles.HandledEffect.AddHandle: handles are held strongly, so there are no dead ones to skip.
- EffectHandles.HandledEffect.RemoveHandle: for the same reason the next in line is always alive.
- Sinc.Converter.SetRatio: as for Process, a ratio whose filter fits the buffer.
- EffectMove.PlaybackThread.RemoveEffect: without the sends of tracks, which TrackCounters.MixerThread.RemoveEffect has.
- The DESCRIPTOR and STREAM sources of auds_write_pcm: file reads.
