# Verification of the SDK's stateful software

Dafny models of the parts of this Bluetooth SDK that carry state and arithmetic of their own, with
proofs of what they are for. `dafny verify dfyconfig.toml` checks everything.

**Big integers (`drivers/B91/pke.c`).** Numbers are arrays of 32-bit words, lowest word first, and
`Words.Val` is the number they stand for. The comparison, the subtraction with borrow and the right
shift are proved against that number, and from them that `pke_mod` leaves `a mod b`. The PKE block
multiplies and adds modulo an odd number; it is modelled by the contracts in the comments of the
driver: a result for an odd modulus, the slots A1 and B1 left to the software, and a return code for
each operation, which may be anything (`Pke.reply`). `Pke.inRange` records whether every operand handed to it was in range: at most the
modulus for a product, below it for a sum.

**ADPCM (`application/audio/adpcm.c`).** One quantiser (the IMA ADPCM scheme, section 4.5.1 of
RFC 3551), three wire formats, an encoder and a separately written decoder for each. Proved: the error
bound of one sample, how a constant input settles from every state, that decoder and encoder stay in
lockstep, and that every Telink and Google packet decodes on its own.

**Block pools (`common/buf_pool0`).** A pool table, the blocks and the free lists inside free blocks
share one memory. `myBufFree` finds the pool by the address alone. Proved for every run: each free
list is a list without a cycle, free and held blocks are exactly the blocks of the pools, and the
address scan finds the right pool.

**Event buffers (`common/buf_pool1`).** Three groups of blocks with a header of next pointer and group
index. Proved for every run: cached counts are list lengths, a request is met exactly up to the
reported maximum, and exactly when a double free is recognised.

**Keyboard (`application/keyboard/keyboard.c`)**, **FIFO (`common/utility.c`)**, **HID report queue
(`application/app`)**, **USB framing (`common/usb_dbg/myudb_usb.c`)** and **flash writes
(`drivers/B91/flash.c`)** are modelled the same way: the method does what the C function does, and its
contract ties it to a function whose laws are lemmas.

Files: `Machine`, `Bits`, `Words`, `BigInteger`, `BigShift`, `PkeMod`; `AdpcmCodec`, `AdpcmSettling`,
`AdpcmStream`, `AdpcmFormats`, `AdpcmPackets`; `FreeList`, `PoolLayout`, `BufPool`, `EvBuffer`;
`Columns`, `Keyboard`, `DropOldest`, `MatrixQueue`, `UsbReports`, `MyFifo`, `UsbFraming`, `FlashWrite`.

## Where the code does less than it seems to

Each of these is a lemma that says exactly when the code does what is expected of it.

- `pke_mod` is right for every odd b of w words and every a below 2^(2 bits(b)). An a of up to 2 w
  words can be larger than that, and then its highest bits are dropped: the result is a mod b if and
  only if b divides the part of a above bit `bits(b) + 32 w`
  (`PkeMod.ModResultIsModIff`, `PkeMod.TooLongOperand`).
- `sub_u32` onto its own first operand reads a word back after writing it. It is right if and only if no
  word below the top one borrows by itself (`BigInteger.SubInPlaceCorrectIff`).
- `myBufInit` differs from `myBufCalcSize` for a pool of zero blocks (one is made anyway) and for blocks
  of more than 65528 bytes (their rounded length is cut to 16 bits). The sizes agree if and only if every
  pool has neither fault or both; with both it has no size in either (`PoolLayout.SizesAgreeIff`).
- `myBufInit` accepts a length that is cut and reports success. Every block has its header words to itself
  if and only if no length is cut; a cut one makes all blocks of its pool start where the next pool does
  (`PoolLayout.LaidOutIff`), and the pools are sound if and only if there is none (`BufPool.BufService.SetUp`).
- The limit tests of `myBufInit` let a block start at the limit and store its next pointer there. The word at
  the limit is overwritten if and only if a block starts there, with NULL or an address not below it, and
  with no length cut the set-up has then failed (`BufPool.BufService.Init`, `BufPool.SetUpEffect`). That word
  lies behind the heap if and only if the free size is a multiple of eight bytes
  (`BufPool.BufService.LimitBehindIff`). Pools of 200 blocks of 24 bytes and one of 8 on the whole heap are
  such a case (`BufPool.OverrunInput`).
- The limit is rounded down to eight bytes, so pools that fill the heap to the last word are refused if and
  only if its free size is 4 modulo 8 (`BufPool.BufService.FitsIff`).
- `myBufCalcSize` leaves the pointer to the pool table at 0. Once pools are set up, the service is usable
  if and only if no size was calculated since the last `myBufInit` (`BufPool.BufService.UsableIff`): the
  pools stay intact, but the scan reads whatever is at address 0 (`BufPool.LostTableMeetsNothing`).
- `myHeapAlloc` leaves a sound heap if and only if the size is at most what is left or is one of the three
  largest, for which the rounding wraps and nothing is reserved (`BufPool.BufService.HeapAlloc`).
- `ev_buf_free` recognises a block that is already free if and only if the block was handed out before
  or belongs to group 0 (`EvBuffer.DuplicateFreeSeenIff`).
- HID frames carry no header. From every state there is a number of codes to read that keeps the decoder
  in step with the encoder after all frames of n samples if and only if n is a multiple of four, and then n
  is such a number (`AdpcmPackets.HidStaysInStepIff`; a frame of one sample is the instance in
  `AdpcmPackets.HidOneSampleLost`).
- A mouse report of more than four bytes for a busy endpoint does not fit its slot
  (`UsbReports.MouseStoredIff`), and no caller sends one.
- `my_fifo_push` accepts `size - 1` bytes of data and then writes one byte beyond its slot
  (`MyFifo.OutsideUntouchedIff`). The mask picks separate slots if and only if the number of slots is a
  power of two (`MyFifo.SlotsApartIff`), and a full FIFO is noticed if and only if there are fewer than
  256 (`MyFifo.FullSeenIff`).
- An empty message is sent as an empty packet, and the receiver cannot tell it from nothing: messages
  are recovered if and only if none is empty (`UsbFraming.RecoveredIff`). The receiver checks no bound
  and stays in its buffer if and only if every message fits (`UsbFraming.AllFitIff`).

## Model

| member | source | states |
|---|---|---|
| `BigInteger.ValidWordsGet` | drivers/B91/pke.c:72-85 | the number of words in use: all words above are 0 and the top one is not |
| `BigInteger.WordsInUseValue` | drivers/B91/pke.c:72-85 | that number places the value between two powers of 2^32 |
| `BigInteger.ValidBitsGet` | drivers/B91/pke.c:32-64 | the place of the highest bit in use |
| `BigInteger.BitLengthValue` | drivers/B91/pke.c:32-64 | that place is the bit length of the value |
| `BigInteger.BigIntegerCompare` | drivers/B91/pke.c:95-116 | returns the sign of val(a) - val(b), whatever zero words lead either number |
| `BigInteger.HighestDifferenceDecides` | drivers/B91/pke.c:95-116 | the highest differing word decides the order of two values |
| `BigInteger.SubU32` | drivers/B91/pke.c:126-144 | c becomes a - b word by word with borrows, and nothing above wordLen changes; onto a itself the borrows go wrong |
| `BigInteger.SubWordsValue` | drivers/B91/pke.c:126-144 | the subtraction is a - b modulo 2^(32 len) |
| `BigInteger.SubNoBorrow` | drivers/B91/pke.c:126-144 | and is a - b outright when a is not below b |
| `BigInteger.SubInPlaceCorrectIff` | drivers/B91/pke.c:133-143 | with c == a the result is a - b modulo 2^(32 len) if and only if no word below the top is smaller than its counterpart |
| `BigShift.ShiftWithinWords` | drivers/B91/pke.c:164-176 | the branch for shifts below 32, and the word count it returns |
| `BigShift.ShiftAcrossWords` | drivers/B91/pke.c:177-192 | the branch for longer shifts: words moved down, zeros above, and the word count |
| `BigShift.Div2nU32` | drivers/B91/pke.c:156-193 | both branches leave the shifted words in place, and nothing above them changes |
| `BigShift.Div2nValue` | drivers/B91/pke.c:156-193 | those words are floor(a / 2^n) |
| `BigShift.Div2nLengthEnough` | drivers/B91/pke.c:156-193 | for any length given, all words from the returned length on are 0, and it is the length left by the shift, or one less if the highest word became 0 |
| `BigShift.Div2nLengthTrue` | drivers/B91/pke.c:156-193 | the returned length is the true word length when the length given was |
| `PkeMod.Pke.LoadOperand` | drivers/B91/pke.c:222-237 | an operand slot holds the words given and zeros above |
| `PkeMod.Pke.ModMul` | drivers/B91/pke.c:486-514 | the block's product modulo an odd modulus and its return code, the operand range on record, A1 and B1 kept but for the output |
| `PkeMod.Pke.ModAdd` | drivers/B91/pke.c:548-576 | the block's sum modulo an odd modulus, likewise |
| `PkeMod.Pke.ReduceHigh` | drivers/B91/pke.c:787-820 | the part of a above the modulus length, less b at most once, in both branches for the top word |
| `PkeMod.Pke.ShiftHighPart` | drivers/B91/pke.c:790-798 | A1 holds the bits of a above the modulus length; the copy fits the nine-word slot |
| `PkeMod.Pke.LoadMontgomery` | drivers/B91/pke.c:822-833 | A3 and B4 hold the parameters of the caller, or those the block has calculated, which is executed and may fail only without them |
| `PkeMod.Pke.LoadPowerOfTwo` | drivers/B91/pke.c:835-841 | B1 holds 2^B - b, by wrap-around where the top word of b is full |
| `PkeMod.Pke.ReduceLow` | drivers/B91/pke.c:853-879 | the low B bits of a, less b at most once, in c or in a itself |
| `PkeMod.Pke.ScaleHigh` | drivers/B91/pke.c:844-851 | B1 is congruent to the high part times 2^B, and the product's operands are at most b |
| `PkeMod.Pke.AddLow` | drivers/B91/pke.c:881 | the sum of low part and B1 is the result, and the sum's operands are below b |
| `PkeMod.Pke.HighPart` | drivers/B91/pke.c:787-851 | B1 holds the high part times 2^B modulo b; which operations of the block are executed, and whose code is returned |
| `PkeMod.Pke.ModLarger` | drivers/B91/pke.c:783-881 | the reduction of an a above b, and its return code, operation by operation |
| `PkeMod.Pke.Mod` | drivers/B91/pke.c:760-882 | an a not above b always succeeds, without the block; for an a above b the codes of the operations decide, in order; on success c is the residue of a without the bits above bits(b) + 32 w; words above c stay, and for a below 2^(2 bits(b)) every operand of the block is in range |
| `PkeMod.Pke.SucceedsIff` | drivers/B91/pke.c:822-881 | the reduction of an a above b succeeds if and only if the product, the sum and, without parameters from the caller, their first calculation succeed; the code of the second calculation counts nowhere |
| `PkeMod.ModResultIsModIff` | drivers/B91/pke.c:760-882 | for odd b that residue is a mod b if and only if b divides the dropped part of a; so it is for every a below 2^(2 bits(b)) |
| `PkeMod.TooLongOperand` | drivers/B91/pke.c:760-882 | a = 2^34 has twice as many words as b = 3, and the result is wrong |
| `PkeMod.HighInRange` | drivers/B91/pke.c:811-848 | both factors handed to the product are at most b, with the test for strictly larger in the full-word branch |
| `PkeMod.LowInRange` | drivers/B91/pke.c:853-881 | the low summand is below b after one subtraction |
| `AdpcmCodec.DecodeFollowsEncode` | application/audio/adpcm.c:75-124 | decoding the code of a sample takes the decoder to the encoder's next state, clamping included |
| `AdpcmCodec.QuantiseValue` | application/audio/adpcm.c:87-96 | the bits the encoder takes add up to what a decoder reads off them |
| `AdpcmCodec.EncodeByQuarters` | application/audio/adpcm.c:75-123 | code, prediction and index after one sample, by which quarter of the step the difference falls into, without the index table and without the shifts; both are cut at their limits |
| `AdpcmCodec.DecodeByBits` | application/audio/adpcm.c:302-339 | the low three bits of a code decide the index change, -1 below 4 and 2 to 8 above, and move the prediction by the middle of their eighth of the step, up to rounding |
| `AdpcmCodec.StepsGrowByTenths` | application/audio/adpcm.c:32-42 | the steps start at 7, grow by a tenth each, to less than one, and end at the largest sample |
| `AdpcmCodec.StepsSum` | application/audio/adpcm.c:32-42 | and their sum is 360393 |
| `AdpcmCodec.SampleError` | application/audio/adpcm.c:75-115 | without slope overload the error is at most step/8 + 2; with it the predictor moves at least 11 toward the sample and does not reach it |
| `AdpcmCodec.OverloadRaisesIndex` | application/audio/adpcm.c:87-123 | every overloaded sample raises the index by 8, up to 88 |
| `AdpcmCodec.TrackedStays` | application/audio/adpcm.c:75-123 | a difference below the step stays below the smaller steps that follow |
| `AdpcmCodec.TrackedAfterOverload` | application/audio/adpcm.c:75-123 | the first sample without overload is followed by tracking |
| `AdpcmSettling.OverloadRun` | application/audio/adpcm.c:73-124 | over n overloaded samples the index climbs by 8 n and the difference shrinks by 11 n |
| `AdpcmSettling.OverloadEnds` | application/audio/adpcm.c:73-124 | a run of overload ends within 11 samples |
| `AdpcmSettling.TrackedRun` | application/audio/adpcm.c:73-124 | after it the difference stays below the step and the index falls to 0 |
| `AdpcmSettling.SettledRun` | application/audio/adpcm.c:73-124 | 92 samples later the prediction is the input and stays |
| `AdpcmSettling.ConstantInputSettles` | application/audio/adpcm.c:73-124 | from every state, on every constant input: at most 11 overloaded samples, none after them, and from sample 103 on exactly the input at index 0 |
| `AdpcmSettling.OverloadBoundAttained` | application/audio/adpcm.c:73-124 | a run with 11 overloaded samples exists |
| `AdpcmStream.Lockstep` | application/audio/adpcm.c:73-124 | over any run, decoding the codes gives the encoder's own predictions and end state |
| `AdpcmStream.EncodeConcat` | application/audio/adpcm.c:52-125 | two calls of the encoder are one call on all samples |
| `AdpcmStream.PushCode` | application/audio/adpcm.c:98-101 | the shift register takes a code at its top and drops the oldest bits |
| `AdpcmStream.WireOrder` | application/audio/adpcm.c:98-201 | code i is in byte i / 2: the first of two in the low half in the Telink format, in the high half in the others |
| `AdpcmStream.SwapNibbles16Value` | application/audio/adpcm.c:179-183 | the masks exchange the nibbles of both bytes of a half-word |
| `AdpcmStream.SwapNibbles8Value` | application/audio/adpcm.c:371-372 | and those of a byte in the decoder |
| `AdpcmStream.UnpackPacked` | application/audio/adpcm.c:293-346 | reading nibbles out of packed bytes gives the codes back, whatever follows in memory |
| `AdpcmFormats.Encoder.EncodeSample` | application/audio/adpcm.c:75-123 | one sample gives its code and the next state |
| `AdpcmFormats.Encoder.EncodeSamples` | application/audio/adpcm.c:73-124 | a call appends exactly the packed codes of its samples, and writes no byte elsewhere |
| `AdpcmFormats.Encoder.SplitTelink` | application/audio/adpcm.c:52-125 | a call with start opens a packet with prediction, index and length; without, it extends it |
| `AdpcmFormats.Encoder.SplitGoogle` | application/audio/adpcm.c:135-204 | the same with serial number, split prediction bytes and exchanged nibbles |
| `AdpcmFormats.Encoder.StoreGoogleHeader` | application/audio/adpcm.c:145-153 | the three header words hold the serial, the prediction high byte first, and the index |
| `AdpcmFormats.TelinkHeaderReads` | application/audio/adpcm.c:63-70 | what a receiver reads: the prediction in 16 bits, low byte first, the index, and the length 124 |
| `AdpcmFormats.GoogleHeaderReads` | application/audio/adpcm.c:145-153 | what a receiver reads: serial and prediction, high byte first, and the index |
| `AdpcmFormats.Encoder.SplitHid` | application/audio/adpcm.c:213-275 | a headerless frame of the packed codes |
| `AdpcmFormats.DecodeSample` | application/audio/adpcm.c:302-339 | one code, read bit by bit, gives the decoder's next state |
| `AdpcmFormats.DecodeSamples` | application/audio/adpcm.c:295-355 | the samples put out are the predictions of the decoder over the codes in the buffer |
| `AdpcmPackets.TelinkToPcm` | application/audio/adpcm.c:284-356 | a packet is decoded from the state in its header |
| `AdpcmPackets.GoogleToPcm` | application/audio/adpcm.c:363-426 | likewise, the split prediction put together again |
| `AdpcmPackets.GooglePredictValue` | application/audio/adpcm.c:367-368 | the masks undo the byte split of the header |
| `AdpcmPackets.HidDecoder.AdpcmToPcm` | application/audio/adpcm.c:433-499 | a frame is decoded from the decoder's own last state, which moves on |
| `AdpcmPackets.TelinkRoundTrip` | application/audio/adpcm.c:52-356 | a packet decodes to the encoder's predictions for its samples |
| `AdpcmPackets.GoogleRoundTrip` | application/audio/adpcm.c:135-426 | the same for the other format |
| `AdpcmPackets.AnyTelinkPacketDecodes` | application/audio/adpcm.c:52-356 | any packet of any run decodes, alone, to its slice of the encoder's reconstruction of the run |
| `AdpcmPackets.AnyGooglePacketDecodes` | application/audio/adpcm.c:135-426 | the same for the other format |
| `AdpcmPackets.PacketInTwoCalls` | application/audio/adpcm.c:48-125 | a packet written in two calls is the packet of all samples |
| `AdpcmPackets.HidFrameDecodes` | application/audio/adpcm.c:213-499 | a frame decodes, from equal states, to the encoder's predictions for the samples sent |
| `AdpcmPackets.HidStaysInStepIff` | application/audio/adpcm.c:213-499 | from every state, for some number of codes read and some memory behind the frame, every frame of n samples leaves encoder and decoder in equal states, if and only if n is a multiple of four; reading n codes then does, whatever is behind |
| `AdpcmCodec.StandsStillIff` | application/audio/adpcm.c:75-123 | a sample leaves the quantiser where it is if and only if it is the prediction and the index is 0 |
| `AdpcmCodec.ExtremesMoveApart` | application/audio/adpcm.c:75-123 | from no state do the largest and the smallest sample lead to the same state |
| `AdpcmPackets.HidOneSampleLost` | application/audio/adpcm.c:213-275 | a frame of one sample moves the encoder and sends nothing |
| `AdpcmPackets.HidRunInStep` | application/audio/adpcm.c:213-499 | over every unbroken run of whole frames the states stay equal and the output is the reconstruction of all samples |
| `FreeList.LinkedUnique` | common/buf_pool0/myBuf.c:285-308 | one head, one list |
| `FreeList.LinkedDistinct` | common/buf_pool0/myBuf.c:285-308 | a list that ends has no cycle and no block twice |
| `FreeList.LinkedFrame` | common/buf_pool1/mempool.c:47-61 | writes outside the listed blocks leave a list alone |
| `PoolLayout.BlocksApart` | common/buf_pool0/myBuf.c:244-317 | two blocks, of one pool or of two, have no word in common |
| `PoolLayout.OwnerUnique` | common/buf_pool0/myBuf.c:447-477 | a block belongs to one pool |
| `PoolLayout.ScanFindsOwner` | common/buf_pool0/myBuf.c:447-477 | the downward scan by start address finds the pool of every block |
| `PoolLayout.SizeGap` | common/buf_pool0/myBuf.c:168-317 | how the computed and the used size differ when a pool is empty or its blocks are too long |
| `PoolLayout.SizesAgreeIff` | common/buf_pool0/myBuf.c:168-317 | they agree if and only if exactly the pools with a block have blocks of at most 65528 bytes |
| `BufPool.BufService.HeapAlloc` | common/buf_pool0/myHeap.c:73-80 | reserves whole words; the rounding and the count left wrap at 32 bits, and what is left is stated for every size |
| `BufPool.BufService.CalcSize` | common/buf_pool0/myBuf.c:168-215 | the size of table and blocks as computed beforehand; the table pointer is 0 after it, so pools that were set up are intact and lost |
| `BufPool.BufService.UsableIff` | common/buf_pool0/myBuf.c:168-317 | with pools set up, the service is in a usable state if and only if the last call that moved the table pointer was a set-up |
| `BufPool.LostTableMeetsNothing` | common/buf_pool0/myBuf.c:340-398 | with the pointer at 0 over zero words, no request is met, whatever is free |
| `BufPool.TableFitIsFirstFit` | common/buf_pool0/myBuf.c:340-398 | read through a table in place, the scan finds the first pool that fits |
| `BufPool.BufService.InitPool` | common/buf_pool0/myBuf.c:259-311 | one round: the pool's table entry, its blocks chained in order, or given up at the limit, with what it may have written |
| `BufPool.BufService.ChainBlocks` | common/buf_pool0/myBuf.c:285-308 | the free list of a pool is all its blocks in address order, ended by NULL |
| `BufPool.BufService.Init` | common/buf_pool0/myBuf.c:228-317 | succeeds if and only if the last pool ends at or below the limit, and returns the bytes used, never more than the heap has; all blocks are then free, and the pools sound if and only if no length was cut; memory changes as SetUpEffect says: nothing below the heap start or behind the limit, and the word at the limit if and only if a block starts there |
| `BufPool.BufService.LimitBehindIff` | common/buf_pool0/myBuf.c:247-303 | the word at the limit is the one behind the heap if and only if the free size is a multiple of eight bytes |
| `BufPool.BufService.FitsIff` | common/buf_pool0/myBuf.c:247-303 | the pools pass the limit tests if and only if the heap has room for them, except that they may not fill one of 4 modulo 8 bytes to the last word |
| `BufPool.OverrunInput` | common/buf_pool0/myBuf.c:285-308 | two descriptors with which a block starts at the end of the whole heap |
| `PoolLayout.LaidOutIff` | common/buf_pool0/myBuf.c:244-317 | every block has its header before the next pool starts if and only if no block length is above 65528 |
| `BufPool.BufService.SetUp` | common/buf_pool0/myHeap.c:73-104 | set-up and reservation together, for any descriptors: no underflow, the pools below the new heap start, and sound if and only if no length was cut |
| `BufPool.BufService.Alloc` | common/buf_pool0/myBuf.c:328-425 | the first block of the first pool that is long enough and has one, or NULL if and only if there is none; the block was not held; of the memory only the list head, and link and mark of the block, change |
| `BufPool.BufService.Free` | common/buf_pool0/myBuf.c:434-483 | the block goes back to the front of the list of the pool it came from; of the memory only the list head, and link and mark of the block, change |
| `BufPool.BufService.FindOwner` | common/buf_pool0/myBuf.c:447-477 | the scan reads the pool's number off the table |
| `BufPool.BufService.Use` | common/buf_pool0/myBuf.c:328-425 | whatever a holder writes into its block, table and lists stay intact |
| `BufPool.PopKeeps` | common/buf_pool0/myBuf.c:349-355 | taking the head of a list keeps every pool's list and the table |
| `BufPool.PushKeeps` | common/buf_pool0/myBuf.c:465-467 | putting a block in front of its list keeps the others |
| `BufPool.OtherBlocksKept` | common/buf_pool0/myBuf.c:349-467 | neither call changes a word of any other block, free or held |
| `BufPool.PoolConserved` | common/buf_pool0/myBuf.c:328-483 | in every state the free and held blocks of a pool are disjoint and together all its blocks, each once |
| `EvBuffer.EvBuffers.constructor` | common/buf_pool1/ev_buffer.c:130-133 | the first state |
| `EvBuffer.EvBuffers.Reset` | common/buf_pool1/ev_buffer.c:104-119 | all blocks free, the counts 8, 20 and 5, group indices in memory kept |
| `EvBuffer.EvBuffers.MempoolInit` | common/buf_pool1/mempool.c:26-41 | the blocks of an area chained in address order, nothing else written |
| `EvBuffer.EvBuffers.IsExisted` | common/buf_pool1/ev_buffer.c:74-87 | whether a block is in a group's free list |
| `EvBuffer.EvBuffers.GetFreeMaxSize` | common/buf_pool1/ev_buffer.c:293-306 | the largest request that can be met |
| `EvBuffer.EvBuffers.Allocate` | common/buf_pool1/ev_buffer.c:151-188 | the head of the first group that fits, or NULL; every group before it is empty or too small; not NULL if and only if the request is positive and at most the reported maximum; the bytes granted end inside the block; of the memory only the group index of the block changes |
| `EvBuffer.GroupSizes` | common/buf_pool1/ev_buffer.h:46-66 | the groups grant 16, 52 and 142 bytes and have 8, 20 and 5 blocks |
| `EvBuffer.BlockHoldsItem` | common/buf_pool1/mempool.h:38-43 | a block is its item raised to the next whole word, and holds all the bytes granted behind its header |
| `EvBuffer.GrantedBytesApart` | common/buf_pool1/mempool.c:26-41 | the bytes granted with a block are in no other block |
| `EvBuffer.EvBuffers.TakeBlock` | common/buf_pool1/mempool.c:47-54 | the head leaves its list, gets its group index and is held |
| `EvBuffer.EvBuffers.Free` | common/buf_pool1/ev_buffer.c:205-245 | a held block goes back to its own group; a recognised double free changes nothing |
| `EvBuffer.RequestMetIff` | common/buf_pool1/ev_buffer.c:151-306 | some group meets a request if and only if it is at most the reported maximum |
| `EvBuffer.DuplicateFreeSeenIff` | common/buf_pool1/ev_buffer.c:205-245 | a free block given back is recognised if and only if it was handed out before or is of group 0 |
| `EvBuffer.GroupConserved` | common/buf_pool1/ev_buffer.c:151-245 | free and held blocks of a group add up to its blocks, none free twice |
| `EvBuffer.BlockWrite` | common/buf_pool1/ev_buffer.c:151-188 | a holder may write anything but the group index of its block |
| `Keyboard.RemoveGhostKeys` | application/keyboard/keyboard.c:208-223 | in place, with a mask that grows from row to row, every row loses the ambiguous columns of all pairs of rows |
| `Keyboard.RunningMaskEnough` | application/keyboard/keyboard.c:208-223 | the mask of the pairs seen so far does for a row what the mask of all pairs does |
| `Keyboard.NoRectangleLeft` | application/keyboard/keyboard.c:208-223 | only pressed keys are left, and two rows share a column only if both are the same single key |
| `Keyboard.OnlyPressedLeft` | application/keyboard/keyboard.c:208-223 | no key is added, in any row |
| `Keyboard.KeyStaysIff` | application/keyboard/keyboard.c:208-223 | a key stays if and only if the rows that share its column have, like its own, no other key |
| `Keyboard.ColumnKeyStaysIff` | application/keyboard/keyboard.c:208-223 | so it is for each of the 32 columns of a row |
| `Columns.OneIff` | common/bit.h:84 | the test for a power of two, with 0 excluded, picks exactly the 32 columns |
| `Keyboard.UnchangedIff` | application/keyboard/keyboard.c:208-223 | the matrix is unchanged if and only if no pair of rows is ambiguous |
| `Keyboard.CleanedTwice` | application/keyboard/keyboard.c:208-223 | removal is idempotent |
| `Keyboard.Debounce.Filter` | application/keyboard/keyboard.c:229-267 | every row's outcome is that of its whole run of calls, filtering or not, the memories follow the run, and the result says whether the outcome changed |
| `Keyboard.FilteredKey` | application/keyboard/keyboard.c:243 | the formula is, key by key, the last two scans if they agree and the last outcome if not |
| `Keyboard.DebouncedIff` | application/keyboard/keyboard.c:229-267 | over any run, with the filter on or off at each call, a key counts as pressed if and only if some call settled it as closed and no later one as open; a filtering call settles what it and the call before it agree on, another one what it sees |
| `Keyboard.FirstCall` | application/keyboard/keyboard.c:229-267 | a first call that filters sets no key, and one that does not sets those it sees closed |
| `Keyboard.Debounce.PressedIff` | application/keyboard/keyboard.c:229-267 | so the stored outcome holds exactly the keys pressed in that sense |
| `MatrixQueue.MatrixQueue.Push` | application/keyboard/keyboard.c:455-466 | a queue of four that drops its oldest matrix |
| `MatrixQueue.MatrixQueue.Take` | application/keyboard/keyboard.c:472-477 | the oldest matrix is read out, unless there is none |
| `MatrixQueue.MatrixQueue.InOrder` | application/keyboard/keyboard.c:455-477 | over any run the queue holds the newest matrices and those read came out in order |
| `DropOldest.QueueIsNewest` | application/app/usbkb.c:142-156 | over any run of puts and takes the queue is a suffix of what was put, and what was taken a subsequence of what came before it |
| `DropOldest.SubsequencePlaces` | application/app/usbkb.c:142-156 | a subsequence: its elements stand, in order, at rising places of the other |
| `UsbReports.KeyboardSlot` | application/app/usbkb.c:146-149 | a stored keyboard report reads back as itself |
| `UsbReports.MouseSlot` | application/app/usbmouse.c:114-118 | a stored mouse report reads back as itself, over any old slot |
| `UsbReports.ReportQueue.Enqueued` | application/app/usbkb.c:146-155 | a slot filled, the byte pointers moved and the overflow test make a queue of four that drops its oldest report |
| `UsbReports.ReportQueue.ReportNormal` | application/app/usbkb.c:142-205 | a keyboard report is queued if the endpoint is busy and sent if not |
| `UsbReports.ReportQueue.ReportMouse` | application/app/usbmouse.c:106-149 | a mouse report likewise, through the same queue, and of any length: for a busy endpoint the bytes written are stated, and up to four make it a queued report |
| `UsbReports.MouseStoredIff` | application/app/usbmouse.c:114-118 | a report of any length changes its own slot only and reads back as itself if and only if it has at most four bytes |
| `UsbReports.ReportQueue.Drain` | application/app/usbkb.c:327-364 | sends the oldest report as it went in; only an empty queue or its busy endpoint stops it |
| `UsbReports.ReportQueue.InOrder` | application/app/usbkb.c:142-364 | over any interleaving the reports waiting are the newest queued, and those taken from the queue to be sent, which excludes the dropped ones, were sent in the order they were queued |
| `MyFifo.SlotsApartIff` | common/utility.c:100-154 | entries that can be queued together have separate slots if and only if the number of slots is a power of two |
| `MyFifo.FullSeenIff` | common/utility.c:102-126 | the guard notices a full FIFO if and only if it has fewer than 256 slots |
| `MyFifo.StoredIff` | common/utility.c:123-139 | what the guard accepts reads back right if and only if it leaves room for the length bytes and fits in 16 bits |
| `MyFifo.OutsideUntouchedIff` | common/utility.c:130-138 | a push leaves the bytes outside its slot alone if and only if the data fits, or the byte that sticks out is there already |
| `MyFifo.Fifo.Init` | common/utility.c:91-98 | for any size and number of slots, what the FIFO is; it is an empty queue if and only if the slots are a power of two, have room for a length and lie in memory |
| `MyFifo.Fifo.Wptr` | common/utility.c:100-107 | the free slot, or NULL if and only if the queue is full |
| `MyFifo.Fifo.WptrV2` | common/utility.c:109-116 | the same with three slots kept back |
| `MyFifo.Fifo.Enter` | common/utility.c:118-121 | an entry written into the free slot joins the queue |
| `MyFifo.Fifo.Push` | common/utility.c:123-139 | refused if and only if full or too long; else exactly the length and data bytes are written, and data that fits joins the queue |
| `MyFifo.Fifo.Get` | common/utility.c:146-154 | the slot of the oldest entry, or NULL if and only if there is none |
| `MyFifo.Fifo.Pop` | common/utility.c:141-144 | the oldest entry leaves; popped while empty, the FIFO counts as full |
| `UsbFraming.CutShape` | common/usb_dbg/myudb_usb.c:320-348 | a message becomes len/64 full packets and one short or empty one |
| `UsbFraming.RoundTrip` | common/usb_dbg/myudb_usb.c:320-438 | what the receiver returns are the messages sent, but for the empty ones |
| `UsbFraming.RecoveredIff` | common/usb_dbg/myudb_usb.c:320-438 | it returns exactly the messages sent if and only if none is empty |
| `UsbFraming.AllFitIff` | common/usb_dbg/myudb_usb.c:415-438 | the receiver stays within its buffer if and only if every message fits |
| `UsbFraming.Sender.Send` | common/usb_dbg/myudb_usb.c:320-348 | each call with a free endpoint sends the next packet of the plan, and the plan never changes |
| `UsbFraming.Receiver.GetPacket` | common/usb_dbg/myudb_usb.c:415-438 | a packet extends the message held; a short one finishes it and returns its length |
| `UsbFraming.Receiver.GetAll` | common/usb_dbg/myudb_usb.c:567-580 | over a run of packets the messages returned are those the packets make up |
| `FlashWrite.Flash.WritePageRam` | drivers/B91/flash.c:152-177 | one page program of any length: each byte of the page is cleared by the last byte that landed on it in the latch |
| `FlashWrite.LatchStep` | drivers/B91/flash.c:165-168 | a byte sent replaces what the latch held at its place, 256 bytes back |
| `FlashWrite.Flash.WritePage` | drivers/B91/flash.c:178-193 | the loop ends, sends the pieces in order, and has the effect of one plain write |
| `FlashWrite.LinearMeans` | drivers/B91/flash.c:152-193 | a plain write only clears bits, and after one to erased flash the data is read back |
| `FlashWrite.ChunksCover` | drivers/B91/flash.c:178-193 | the pieces are adjacent, make up the data and each stay inside a page |
| `FlashWrite.ChunksUseful` | drivers/B91/flash.c:178-193 | none is empty unless the data is, and all but the first begin a page |
| `FlashWrite.SplitIsLinear` | drivers/B91/flash.c:178-193 | programming the pieces is a plain write |
| `FlashWrite.OneProgramIff` | drivers/B91/flash.c:152-193 | on erased flash a single page program would be a plain write if and only if the data stays inside the page |

## Left out

- PkeMod.Pke.ModMul: the microcode is not part of this model; its result for an odd modulus is taken from the driver's comments, also for operands out of range, and for an even modulus nothing is known.
- PkeMod.Pke.ModAdd: as for the product.
- PkeMod.Pke.Mod: the Montgomery parameters are not checked to be those of b, and the register writes that set the operand width and the execution mode are not modelled; the top word of b must not be 0.
- BigShift.Div2nU32: shifts by a multiple of 32 or by the whole length are not covered, since the C code then shifts a word by 32 or leaves the array.
- AdpcmPackets.TelinkToPcm: the decoders read one byte beyond the last code and use an index byte unchecked, so the buffer must have that byte and the index must be at most 88; the same holds for the other two.
- AdpcmFormats.Encoder.SplitTelink: the output buffer must have room; samples of a last incomplete half-word move the state but are not sent.
- PoolLayout.SizesAgreeIff: for pools of less than 64 KB together, which the heap does not exceed.
- BufPool.BufService.HeapAlloc: the heap start is an address without bound.
- BufPool.BufService.Free: only for a block the caller holds; myBufFree checks nothing, and what a stray pointer does is not modelled.
- EvBuffer.EvBuffers.Free: only for the data pointer of a block of a group.
- Keyboard.Debounce.Filter: the counters for stuck keys and long presses are not modelled.
- UsbReports.ReportQueue.ReportMouse: the bytes of a longer report must end inside memory, and the queue is not described after one; the report bytes an endpoint gets, the boot protocol and the checksum variant are not modelled.
- MyFifo.Fifo.Push: negative lengths are not modelled; the number of slots is a byte as in my_fifo_init, and one byte must exist behind the buffer.
- UsbFraming.Sender.Send: the print FIFO is a list of messages; that a slot is released before it has been sent, and may be overwritten, is not modelled.
- FlashWrite.Flash.WritePageRam: command bytes, waiting and interrupt locking are not modelled; the device is taken to collect the bytes in a latch of one page, the last byte at a place counting, and to clear bits, and writes end inside the device.
- Order among all delivered HID reports: a new report may overtake queued ones when the endpoint is idle, so order is only claimed among queued reports.
- Interrupts: critical sections and interrupt handlers are single steps.
- ECC point operations, X25519 and Ed25519 in pke.c: they load operands, start microcode and read results back.
- tl_audio.c, zb_buffer.c: the filters have no stated bounds, and the second is mempool again with fewer checks.
- AES-CCM, LC3, ECC libraries: only headers are in the repository.
- Statistics, diagnosis and debug variants of the pools, and asserts, which are compiled out or only print.
- GPIO scanning, key maps, key repeat, USB descriptors and request handling, CDC and audio class, and all register-level drivers.
