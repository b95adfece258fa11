# TinyEMU

A model of the parts of the TinyEMU system emulator that are hardest to get right, with proofs of what they promise.
Values, tables and rules are datatypes and functions; the objects that the program updates in place (the CPU's
TLBs, a hash context, a decryption session, the block device, the file system, a virtqueue) are classes, and their
methods are proved against those functions.

- **Floating point** (`IeeeFormat`, `Rounding`, `Jamming`, `RoundPack`, `Normalize`, `Addition`, `Multiplication`,
  `DoubleWord`, `Fma`, `Division`, `SquareRoot`, `IntegerLoops`, `RootWords`, `Conversions`, `FormatConversions`,
  `Uniqueness`, `Powers`): every operation delivers the exact real result rounded once, with the IEEE 754 flags, for
  every format size and all five rounding modes. The specification is stated on the reals, without bits.
- **Memory management** (`PhysMemory`, `PageWalk`, `SvWalk`, `Tlb`, `MachineRuns`, `Cpu`, `Misaligned`,
  `StoreMeaning`, `StoredPages`, `SettingsExamples`, `StaleSettings`, `CodeBytes`, `InterpLoop`, `InterpSteps`,
  `SimpleFb`, `FrameRuns`): the walk finds what sv32, sv39 and sv48 say; over whole runs the three TLBs are invisible,
  no store is lost to the dirty bitmaps, every instruction is the bytes at its translated addresses and leads to the
  right one, and every row that changed is redrawn.
- **Cryptography** (`Aes`, `AesKeys`, `Rijndael`, `CbcFile`, `DecryptFile`, `Sha256`, `HashConstants`, `ShaContext`,
  `Hmac`): the table-driven cipher is the one of FIPS 197, without any table, and its inverse undoes it; decryption of a
  file that arrives in chunks, streaming SHA-256, HMAC and PBKDF2.
- **Block device** (`BlockImage`, `BlockCache`, `BlockNet`, `BlockRuns`): requests that stop for missing blocks and go
  on when they are loaded behave as one request after the other on clusters.
- **Virtio** (`DescChain`, `VirtQueue`, `VirtRing`, `BlockRequests`, `GuestLayouts`): copying through descriptor
  chains, each request answered exactly once and in order, and the bytes of a disk request from guest memory to the
  sectors and back.
- **File list** (`FileText`, `FileNumbers`, `FileList`, `FileIds`): what the one program prints the other reads back,
  and the files in it are numbered one after the other.
- **9p file system** (`FsState`, `VolumeSteps`, `FsNet`, `FsExamples`, `FileBytes`): reference counts, open counts, sizes,
  block counts, names, the cache and the states of the files stay consistent over every operation, exactly under
  conditions on its inputs; and what is written to a file is read back.

`Options`, `Sequences`, `Quotients` and `Widths` hold what several of them need.

## Model

| member | source | states |
|---|---|---|
| Fma.FmaSf | source_c/softfp_template.h:402-552 | For all finite a, b, c and all five modes the result is the exact real a*b+c rounded once, with its flags; a zero sum has the sign IEEE 754 gives it. Infinities and NaNs follow the table of special operands; a NaN comes out for a NaN or an invalid operation only, and it is the quiet one: positive, with the top bit of the mantissa alone. |
| Fma.Normalize2Sf | source_c/softfp_template.h:189-213 | A double word with a sticky low end, of any leading zero count, is normalized, rounded and packed as the exact value it stands for. |
| Addition.AddSf | source_c/softfp_template.h:234-290 | The sum of finite operands is the exact sum rounded once, with flags and sign of zero, in spite of the swap and the jamming shift to three guard bits. A NaN comes out for a NaN or an invalid operation only, and it is the quiet one: positive, with the top bit of the mantissa alone. |
| Addition.SubSf | source_c/softfp_template.h:292-296 | Flipping the sign of b and adding gives the exact difference rounded once; infinities of the same sign are invalid, an infinite b alone gives the opposite infinity, a NaN comes out for a NaN or an invalid operation only, and it is the quiet one. |
| Addition.WordClasses | source_c/softfp_template.h:215-231 | Sign, exponent, mantissa, NaN, signaling NaN and infinity as ranges and remainders of the word. |
| Addition.QuietNanIs | source_c/softfp_template.h:76 | The word for an invalid result: a NaN that is not signaling, positive, with the top bit of the mantissa and no other. |
| Multiplication.MulSf | source_c/softfp_template.h:347-399 | The exact product rounded once, also for subnormal operands and results; zero times infinity is invalid. A NaN comes out for a NaN or an invalid operation only, and it is the quiet one: positive, with the top bit of the mantissa alone. |
| Division.DivSf | source_c/softfp_template.h:587-653 | The exact quotient rounded once, from a quotient word with a sticky remainder; division of a nonzero by zero gives an infinity of the right sign and the flag, zero by zero is invalid. A NaN comes out for a NaN or an invalid operation only, and it is the quiet one: positive, with the top bit of the mantissa alone. |
| SquareRoot.SqrtSf | source_c/softfp_template.h:718-767 | The real square root rounded once, from an integer root with a sticky bit, for zero and every positive finite operand; a negative operand is invalid. A NaN comes out for a NaN or an invalid operation only, and it is the quiet one: positive, with the top bit of the mantissa alone. |
| RoundPack.RoundPackSf | source_c/softfp_template.h:106-175 | For every exact magnitude that the jammed mantissa stands for: the value rounded once, tininess detected after rounding, subnormals, carries into the exponent, saturation and overflow included. |
| Normalize.NormalizeSf | source_c/softfp_template.h:177-187 | The same for a mantissa with leading zeros, however many. |
| Rounding.RoundedMagIsCorrect | source_c/softfp_template.h:93-105 | Rounding in units of the format's last place is the correct rounding of the real number, in each mode: nothing representable lies between, ties go to even or away, and overflow is decided by the threshold. |
| Uniqueness.CorrectlyRoundedUnique | source_c/softfp_template.h:108-175 | The specification leaves no choice: two correctly rounded results of one sign are the same word. |
| Uniqueness.DeliversUnique | source_c/softfp_template.h:108-175 | The same with the sign of zero and the flags: one result and one set of flags meet the specification. |
| IntegerLoops.MulU | source_c/softfp_template.h:320-343 | The four half-word products with their carries make up the double-width product. |
| IntegerLoops.DivRemU | source_c/softfp_template.h:565-585 | The shift and subtract loop delivers quotient and remainder of a double word, also when the top bit is lost in the shift. |
| IntegerLoops.SqrtRemU | source_c/softfp_template.h:657-685 | In a type of twice the width: the iteration ends with the integer root exactly when it does not start below it; the inexact result is exact in any case. |
| IntegerLoops.SqrtRemMisses | source_c/softfp_template.h:664-675 | An input for which it starts too low: the double word 511 of 8-bit words gives 16 where the root is 22. |
| RootWords.SqrtRemWords | source_c/softfp_template.h:687-716 | In single words: every division is called with a high word below its divisor, and a sum of two words wraps exactly for the largest double word; otherwise the loop delivers what the wide one delivers. |
| RootWords.SqrtRemWraps | source_c/softfp_template.h:707-708 | The double word for which it wraps, in 8-bit words: the quotient and the root so far add up to 256, and 0 is left. |
| IntegerLoops.Mulh | source_c/riscv_cpu_template.h:150-159 | The signed high word as the code computes it, by how much it is off, and that it is right exactly when the operands have the same sign. |
| IntegerLoops.Mulhsu | source_c/riscv_cpu_template.h:161-168 | The same for a signed and an unsigned operand: right exactly when the signed one is not negative or its word is the other operand. |
| IntegerLoops.HighOfMinusOne | source_c/riscv_cpu_template.h:150-168 | An input for which both fail: the high word of -1 * 1 comes out as 1. |
| Conversions.CvtSfToInt | source_c/softfp_template_icvt.h:38-108 | A finite number goes to the integer that its mode rounds it to, saturated with the invalid flag when that integer does not fit, inexact exactly when a fraction was dropped. |
| Conversions.CvtIntToSf | source_c/softfp_template_icvt.h:125-153 | Every integer, the smallest one included, goes to the float nearest in its mode, from a mantissa jammed to a word. |
| Conversions.IntFloatInt | source_c/softfp_template_icvt.h:38-153 | An integer within the precision of the format survives the way there and back in any two modes and raises no flag. |
| Conversions.SourceSizes | source_c/softfp_template.h:1081-1091 | The integer and float formats the source converts between meet the conditions of these results, and every 32-bit integer is within the precision of a double. |
| FormatConversions.Widen | source_c/softfp_template.h:942-973 | Widening is exact for every finite number, subnormals included, keeps infinities, and makes every NaN the quiet one, invalid exactly if it was signaling. |
| FormatConversions.Narrow | source_c/softfp_template.h:975-1007 | Narrowing rounds the exact value once, with its flags; every NaN becomes the quiet one, and nothing else becomes a NaN. |
| FormatConversions.WidenNarrow | source_c/softfp_template.h:942-1007 | Narrowing undoes widening for everything but NaNs, in any mode, and raises nothing. |
| FormatConversions.SourceWidens | source_c/softfp_template.h:938-1079 | The three pairs of formats the source converts between meet the condition of these results. |
| PageWalk.SamePageTranslates | source_c/riscv_cpu.c:188-294 | One translation serves a whole page at every level of superpage: same faults, same bits to set, same distance. |
| PageWalk.WalkUpdateIsInvisible | source_c/riscv_cpu.c:275-288 | Setting the accessed and dirty bits changes no translation of any address for any access, and asks for no further update. |
| SvWalk.TranslateIs | source_c/riscv_cpu.c:188-294 | For all settings of the registers and any memory: machine mode cuts the address, no page table keeps it, and otherwise the walk of sv32, sv39 or sv48 is followed entry by entry at its addresses, with canonical addresses, the bits R, W, X and U, SUM and MXR, and pages of each size. |
| SvWalk.TouchedIs | source_c/riscv_cpu.c:275-288 | The entry found by that walk has its accessed bit set, for a write its dirty bit too, and no other bit of it and no other entry changes; without a translation nothing changes. |
| SvWalk.EntryIs | source_c/riscv_cpu.c:153-176 | Reading an entry delivers the number that the bytes at its address make, in the first range that covers it. |
| SvWalk.PermitsIs | source_c/riscv_cpu.c:252-274 | The permissions of a leaf, by its bits and the privilege of the access. |
| Tlb.HitMeansAligned | source_c/riscv_cpu_priv.h:250-280 | The single comparison of the fast path holds exactly for an aligned access to the tagged page. |
| Tlb.LoadIsPlain | source_c/riscv_cpu.c:297-436 | In a coherent machine a load, hit or miss, delivers what a full walk delivers and leaves the same memory. |
| MachineRuns.StoreIsPlain | source_c/riscv_cpu.c:439-522 | In a coherent machine a store has the effect on memory and dirty bitmaps that it has without TLBs. |
| MachineRuns.StepKeeps | source_c/riscv_cpu.c:587-1157 | Every load, store, mstatus and satp write, trap, return, fence, bitmap collection, dirty bit reset, device write and move of a range keeps dirty tracking complete, and TLB coherence under the hypotheses of that step. |
| MachineRuns.RunCoherent | source_c/riscv_cpu.c:587-1157 | In every run that meets the hypotheses each live TLB entry is what the walk would find now, with nothing left to set. |
| MachineRuns.TlbsAreInvisible | source_c/riscv_cpu.c:297-585 | Two machines with the same registers and memory but different TLBs show the same results and the same memory over the whole run. |
| MachineRuns.RunCollects | source_c/iomem.c:130-177 | After any run at all, the next bitmap collected holds every page stored to since the last one. |
| StoredPages.StoreIsCollected | source_c/iomem.c:130-177 | The same told by the operations: whatever follows a store, of the CPU at its translated address or of a device, as long as neither the bitmap is collected nor the page cleaned, the next bitmap collected holds its page. |
| MachineRuns.SetMstatusKeeps | source_c/riscv_cpu.c:674-699 | The flush rule of mstatus is enough: entries that survive a write translate as before. |
| StaleSettings.TrapStaleIff | source_c/riscv_cpu.c:1042-1120 | For all settings of the registers: a trap leaves every coherent machine with these settings coherent exactly unless it is taken in machine mode, translation is on or XLEN is short, MPRV is set and MPP is not machine mode. |
| StaleSettings.MretStaleIff | source_c/riscv_cpu.c:1143-1157 | The same for MRET in machine mode: exactly unless translation is on or XLEN is short, MPRV is set and MPP is machine mode. |
| MachineRuns.TrapReturns | source_c/riscv_cpu.c:1042-1157 | A trap goes to the supervisor exactly if it is delegated from there or below, otherwise to machine mode, and the return from it restores the privilege and XLEN, with the field of the previous privilege at the user's. |
| MachineRuns.TrapIsTransparent | source_c/riscv_cpu.c:1042-1157 | After a trap to machine mode and the return every address is translated as before, if MPRV was off or at the user's privilege. |
| SettingsExamples.TrapLeavesStaleEntry | source_c/riscv_cpu.c:1112-1117 | A coherent machine that a trap in machine mode leaves with a stale entry. |
| SettingsExamples.MretLeavesStaleEntry | source_c/riscv_cpu.c:1143-1157 | A coherent machine that MRET into machine mode leaves with a stale entry. |
| SettingsExamples.SumTakesCodeAway | source_c/riscv_cpu.c:674-699 | A supervisor on a user page clears SUM: the page it runs on could not be fetched any more, and the block goes on. |
| Cpu.State.GetPhysAddr | source_c/riscv_cpu.c:188-294 | The walk in place finds what the specification finds, sets the bits it sets, and faults exactly when it faults; what that is in entries and page numbers is `SvWalk.TranslateIs` and `TouchedIs`. |
| Cpu.State.TargetRead | source_c/riscv_cpu.c:297-436 | A read of any size at any address, aligned or joined from two, on the TLB arrays. |
| Cpu.State.TargetWrite | source_c/riscv_cpu.c:439-522 | A write of any size, byte by byte when misaligned, up to the first fault. |
| Cpu.State.FlushTlbWriteRangeRam | source_c/riscv_cpu.c:609-626 | Exactly the write entries into the address range of the buffer are dropped. |
| Cpu.State.SetMstatus | source_c/riscv_cpu.c:674-699 | The field updates and the flush of the specification. |
| Cpu.State.SetPriv | source_c/riscv_cpu.c:1021-1040 | The change of privilege and of XLEN, with a flush exactly on a change. |
| Cpu.State.RaiseException | source_c/riscv_cpu.c:1042-1120 | The privilege part of taking a trap, delegated or not. |
| Cpu.State.CollectDirtyBits | source_c/iomem.c:130-156 | The bitmap in use is handed out, the other one cleared, and the writers of the range flushed if any page is dirty. |
| Cpu.State.SetAddress | source_c/iomem.c:208-232 | Moving, enabling and disabling a range, with the flush for RAM. |
| Misaligned.MisalignedLoad | source_c/riscv_cpu.c:316-362 | Each byte of a misaligned load that succeeds is the byte in memory at its own address, little end first, across the page boundary too. |
| Misaligned.MisalignedStore | source_c/riscv_cpu.c:444-457 | A misaligned store writes the bytes that translated single stores write, until the first that faults. |
| StoreMeaning.StoreIs | source_c/riscv_cpu.c:439-522 | An aligned store leaves its bytes at the translated address and after it, and every other byte of memory as the walk left it; it fails exactly if there is no translation. |
| InterpLoop.BlockFetch | source_c/riscv_cpu.c:529-536 | Reading 32 bits at once at a pointer into the page delivers the instruction that two translated halves deliver. |
| InterpLoop.StartBlock | source_c/riscv_cpu_template.h:228-283 | The fetch that starts a block, also half way between two pages, delivers the translated instruction or the fault. |
| InterpLoop.InterpX | source_c/riscv_cpu_template.h:200-286 | Every instruction executed has the bits that translating its address gives at that time, in the machine its predecessor left: 4 bytes if the two lowest bits are set, otherwise 2, at the translated addresses one after the other; if it falls through, the next one is that many bytes further; the counter moves by at least one and passes the budget by at most 2046. Instructions may depend on their number, hence on all that was executed before. |
| InterpLoop.CodeFetched | source_c/riscv_cpu_template.h:228-283 | What a fetch delivers without faulting are the bytes at the translations of pc, pc + 1, ..., the least significant first, as many as the two lowest bits say. |
| InterpLoop.Interp | source_c/riscv_cpu.c:1229-1258 | The outer loop ends, uses up the budget unless the CPU powers down, passes it by at most 2046, and keeps the invariants; a trap is taken after an interrupt, a fault or an exception, and after nothing else. |
| InterpLoop.MstatusKeepsCodeIff | source_c/riscv_cpu.c:674-699 | Going on in the block after a write to mstatus is right exactly unless the write clears SUM in supervisor mode on a user page. |
| InterpSteps.StepsAreSound | source_c/riscv_cpu_template.h:286-1730 | What the loop asks of its instructions, wherever the run gets to, holds of instructions made of the machine's operations that meet the hypotheses of coherence there and spare the page they run on. |
| InterpSteps.TrapsAreSound | source_c/riscv_cpu.c:1042-1120 | What the loop asks of the way out holds of the machine's traps, in runs that do not get to the settings for which a trap leaves stale entries. |
| SimpleFb.Refresh | source_c/simplefb.c:48-96 | The loops over words and bits make the redraw calls of the specification, and every visible row of a dirty page lies in one of them. |
| SimpleFb.DirtyRowsAreRedrawn | source_c/simplefb.c:70-95 | Merging bands that are at most three rows apart loses no row of a dirty page. |
| SimpleFb.BandsAreTight | source_c/simplefb.c:70-95 | And no more: every row redrawn has bytes in a dirty page or is one of three rows in front of one, and more than three rows lie between any two calls. |
| SimpleFb.BandsProperIff | source_c/simplefb.c:70-95 | All calls are nonempty and on the screen, for every bitmap, exactly when no page of the buffer starts below the end of the screen. |
| FrameRuns.StoredRowsAreRedrawn | source_c/simplefb.c:48-96 | After any run, every visible row of every page stored to since the last collection is redrawn by the next refresh. |
| FrameRuns.StoreIsRedrawn | source_c/simplefb.c:48-96 | The same told by the store that changed them. |
| FrameRuns.RefreshFrame | source_c/simplefb.c:48-96 | Collecting the bitmap and refreshing does that, and starts a new collection. |
| Aes.InvCipherUndoes | source_c/aes.c:892-1268 | The equivalent inverse cipher on the reversed and unmixed schedule undoes the cipher for every block and every schedule of round keys. |
| Rijndael.CipherIsRijndael | source_c/aes.c:892-1077 | For every block and all round keys the cipher on columns is the cipher of FIPS 197 on sixteen bytes, where columns are mixed by multiplication of polynomials and bytes are substituted, shifted and added as the standard says. |
| Rijndael.SboxIs | source_c/aes.c:332-397 | The substitution without its table: S(0) is 0x63, and every other byte has an inverse y modulo x^8 + x^4 + x^3 + x + 1 such that S(x) is the sum of y, its four rotations and 0x63. |
| Rijndael.MulByTwo | source_c/aes.c:67-330 | Doubling is multiplication by x modulo that polynomial; the other multiples have lemmas of their own. |
| Rijndael.KeyWordIs | source_c/aes.c:738-834 | Each word of the schedule in bytes: the rotated and substituted word with its round constant, the substituted word, or the word before, added to the word of the step before. |
| Rijndael.RconIs | source_c/aes.c:729-733 | The round constants are the powers of x. |
| AesKeys.AesKey.SetEncryptKey | source_c/aes.c:738-834 | The in-place expansion delivers the schedule of FIPS 197 for keys of 128, 192 and 256 bits, and refuses other lengths. |
| AesKeys.AesKey.SetDecryptKey | source_c/aes.c:839-885 | The schedule is reversed in place and its inner keys are unmixed by tables. |
| AesKeys.AesKey.Encrypt | source_c/aes.c:892-1077 | The table lookups are the rounds of the standard; that they are is `Rijndael.CipherIsRijndael`. |
| AesKeys.AesKey.Decrypt | source_c/aes.c:1083-1268 | The table lookups are the rounds of the equivalent inverse cipher. |
| AesKeys.DecryptUndoesEncrypt | source_c/aes.c:738-1268 | For every key and every block, decryption with the one schedule undoes encryption with the other. |
| CbcFile.CbcDecryptInPlace | source_c/aes.c:1272-1321 | Whole blocks are decrypted in place, and the chaining value is carried to the next call. |
| CbcFile.CbcUndone | source_c/aes.c:1272-1321 | Chained decryption undoes chained encryption. |
| CbcFile.CbcCut | source_c/aes.c:1272-1321 | It may be cut between any two blocks. |
| DecryptFile.Session.Feed | source_c/fs_wget.c:356-399 | However the chunks are cut, for every length that passes, the session holds what the bytes so far decrypt to but for a block held back; it fails exactly on a wrong header. |
| DecryptFile.StuckIff | source_c/fs_wget.c:356-399 | The exact lengths that pass: otherwise the loop comes to a turn with no bytes or a negative count. |
| DecryptFile.LongChunks | source_c/fs_wget.c:364-376 | Lengths for which it fails before the first byte: 2^31 and 2^32. |
| DecryptFile.Session.Flush | source_c/fs_wget.c:402-424 | The end of the file succeeds exactly when the file has whole blocks and a sound padding, and then the padding is gone. |
| DecryptFile.Transfer | source_c/fs_wget.c:356-424 | A transfer in chunks below 2^31 bytes succeeds exactly when the file has contents, and writes these. |
| DecryptFile.ContentsOfEncrypted | source_c/fs_wget.c:356-424 | The contents of an encrypted file are the plaintext. |
| DecryptFile.ContentsIs | source_c/fs_wget.c:356-424 | Which files have contents and which these are: the four bytes of the magic number, 16 bytes for the chain, whole blocks, and a last byte from 1 to 16 that says how much is padding. |
| DecryptFile.Receive | source_c/fs_wget.c:344-424 | Any plaintext, encrypted under any key and cut into any chunks below 2^31 bytes, comes out of the transfer with the schedule expanded from that key. |
| ShaContext.Compress | source_c/sha256.c:60-176 | The unrolled rounds with rotating register names are the compression function of FIPS 180-4. |
| ShaContext.Context.Update | source_c/sha256.c:207-235 | The hash of everything put in so far is kept for a further piece of every length that passes. |
| ShaContext.StuckIff | source_c/sha256.c:217-235 | A length passes exactly when the buffer is empty, or the length survives the conversion to int, or what is left of it fills the buffer; otherwise the loop comes to a turn with no bytes or a negative count. |
| ShaContext.LongPieces | source_c/sha256.c:224-226 | Lengths for which it fails with one byte in the buffer: 2^31 and 2^32. |
| ShaContext.Context.Final | source_c/sha256.c:243-286 | The padding and the length, in one or two blocks, give the hash of the message. |
| ShaContext.Hash | source_c/sha256.c:288-295 | The hash of any message. |
| HashConstants.Roots1 | source_c/sha256.c:32-47 | The first of the round constants are the first 32 bits of the fractions of the cube roots of the primes; the others are in `Roots2` to `Roots8`. |
| HashConstants.InitialRoots | source_c/sha256.c:197-204 | The initial registers are those of the square roots of the first eight primes. |
| HashConstants.WordAtIs | source_c/sha256.c:72-76 | The words of a block, the most significant byte first. |
| HashConstants.DigestIs | source_c/sha256.c:279-282 | The digest holds the registers in order, the most significant byte first. |
| HashConstants.BigEndianIs | source_c/sha256.c:275-276 | Each byte of the length in the padding. |
| Hmac.HmacContext.Update | source_c/fs_wget.c:562-565 | The inner hash goes on over any further piece. |
| Hmac.HmacContext.Final | source_c/fs_wget.c:568-576 | HMAC of RFC 2104 from one pad that is changed in place. |
| HashConstants.HmacIs | source_c/fs_wget.c:540-576 | For the key, or its hash if it is longer than 64 bytes, filled up with zeros and added to 0x36 and to 0x5c: the hash of the outer pad and the hash of the inner pad and the message. |
| Hmac.Pbkdf2 | source_c/fs_wget.c:580-613 | PBKDF2 of RFC 8018 with HMAC-SHA-256, cut to the length asked for. |
| BlockImage.ReadRunIs | source_c/block_net.c:262-339 | Each sector that a read delivers: the one in the image if it is stale, otherwise the one in the flat array. |
| BlockImage.ReadIsFlatIff | source_c/block_net.c:262-339 | A read is the slice of the flat array exactly when the stale sectors it takes happen to be the same in both; and always when there are none. |
| BlockImage.StaleExample | source_c/block_net.c:287-324 | A read over an unwritten and a written cluster of one block that delivers stale sectors. |
| BlockImage.PatchedIsOver | source_c/block_net.c:262-339 | A write overwrites its slice of the flat array and nothing else, whatever clusters it allocates. |
| BlockCache.EvictsTheLeastUsed | source_c/block_net.c:144-168 | Only loaded blocks are dropped, from the least recently used end, and no more of them than it takes. |
| BlockNet.Device.AddBlock | source_c/block_net.c:144-168 | The loop from the back makes that room and puts the new block in front. |
| BlockNet.Device.Rw | source_c/block_net.c:262-339 | A request goes on until it is done or its block is missing; whatever it did so far, finishing it later gives the result of doing it at once. |
| BlockNet.Device.Submit | source_c/block_net.c:370-402 | A new request, finished at once or waiting. |
| BlockNet.Device.UpdateBlock | source_c/block_net.c:341-354 | A block that arrives resumes the request exactly if it waits for that block. |
| BlockNet.Device.StartGroup | source_c/block_net.c:200-237 | A group load asks for the blocks that are not in the cache, each once. |
| BlockNet.Device.GroupLoaded | source_c/block_net.c:239-260 | Each of them gets its data, whatever the requests that go on meanwhile do to the cache: the one that waited, and those that its completion submits between two blocks. |
| BlockNet.Device.CallBack | source_c/virtio.c:1050-1062 | After a completion requests are submitted, in order, until one has to wait. |
| BlockRuns.RequestsOnFlat | source_c/block_net.c:370-402 | After any sequence of requests the clusters stand for the flat array with the writes made to it. |
| BlockRuns.ReplyOnFlat | source_c/block_net.c:370-402 | The reply to each read is the slice of the flat array at that time, unless the read takes a stale sector. |
| BlockRuns.Serve | source_c/block_net.c:341-402 | Whole runs of the device, with loads in any order, evictions, and loads that complete while it is idle, are the requests one after the other. |
| DescChain.GatherScattered | source_c/virtio.c:380-442 | What was scattered over the buffers of a chain is gathered from them again. |
| GuestLayouts.LeIs | source_c/virtio.c:371-378 | Bytes in memory hold a number exactly if each is its digit in base 256, the least significant first. |
| GuestLayouts.DescriptorIs | source_c/virtio.c:108-118 | A descriptor in guest memory: address, length, the two flags, the next descriptor, each at its place. |
| VirtQueue.Queue.CopyFromRam | source_c/virtio.c:333-350 | A copy from guest memory, page by page, or its failure. |
| VirtQueue.Queue.CopyToRam | source_c/virtio.c:352-369 | A copy to guest memory changes those bytes only; one that runs into the end of memory fails and has stored what lies before it. |
| VirtQueue.Queue.Memcpy | source_c/virtio.c:380-442 | A slice of the readable or writable buffer of a chain is copied; it fails exactly when the slice does not lie in the buffer. It goes astray exactly when it comes to a descriptor with 2^31 bytes or more left. |
| VirtQueue.Queue.GetDescRwSize | source_c/virtio.c:480-515 | Refused exactly when a readable descriptor follows a writable one; otherwise both sizes narrowed to int, which are the sizes of the buffers exactly below 2^31. |
| VirtQueue.HugeDescriptor | source_c/virtio.c:485-504 | A chain for which the size is wrong: one descriptor of 2^32 - 1 bytes counts -1. |
| VirtRing.BlockQueue.RecvRequest | source_c/virtio.c:1064-1115 | A request is taken, answered or kept in progress; a second one is not taken while one is in progress. |
| VirtRing.BlockQueue.QueueNotify | source_c/virtio.c:518-544 | The available entries are taken in order until one is in progress, across the wrap of the counters. |
| VirtRing.RingIs | source_c/virtio.c:461-478 | Of the entries ever put into a ring, the one with number k is at the remainder of k by its size, until the ring has gone round, and the index is their number modulo 2^16. |
| VirtRing.BlockQueue.ReqCb | source_c/virtio.c:1050-1062 | The completion puts the answer in the used ring and goes on with the queue. |
| VirtRing.BlockQueue.AllServed | source_c/virtio.c:518-544 | When all is taken and nothing is in progress, the used ring has the answers to everything ever made available, in order. |
| VirtRing.AnsweredOnce | source_c/virtio.c:461-478 | Each read or write has exactly one answer, at the place given by those before it. |
| BlockRequests.BlockDevice.RecvRequest | source_c/virtio.c:1064-1115 | The header and the data in the buffers of a chain are the request that the disk works on; if it is done at once, a read has the disk's sectors and a status byte at the end of its write buffer, a write has changed its sectors and has a status byte, and no other guest memory changed. |
| BlockRequests.BlockDevice.Loaded | source_c/virtio.c:1016-1062 | A block that completes the request in progress leads to that answer, and one that does not changes nothing the guest sees. |
| BlockRequests.FlatAnswered | source_c/virtio.c:1016-1048 | A finished read that takes no stale sector has the bytes of the flat array in its write buffer, unless that overlaps itself. |
| GuestLayouts.ReadRequestIs | source_c/virtio.c:1064-1095 | A header of type 0 with room for n sectors and a status byte asks for n sectors from the one in the header. |
| GuestLayouts.WriteRequestIs | source_c/virtio.c:1096-1108 | A header of type 1 with the bytes of whole sectors behind it asks to write these. |
| BlockRequests.WrittenIsRead | source_c/virtio.c:1084-1108 | A read of what a write wrote delivers the bytes behind its header, as far as they are whole sectors. |
| FileText.PrintStr | source_c/build_filelist.c:41-68 | A name is printed plain or quoted and escaped. |
| FileText.ParseFname | source_c/fs_utils.c:122-188 | What is read at a place: plain up to a space, or quoted with escapes, within the room there is. |
| FileText.EscapedIs | source_c/build_filelist.c:53-66 | Control characters in two hexadecimal digits, quotes and backslashes behind a backslash, all others as they are. |
| FileText.UnescapeIs | source_c/fs_utils.c:142-170 | The escapes that are read, in letters, and exactly which are refused. |
| FileText.NameBackIff | source_c/fs_utils.c:122-188 | A printed name is read back exactly if it fits and does not begin with a quote without being quoted. |
| FileText.QuoteAlone | source_c/build_filelist.c:45-52 | A name that does not come back: a single quote. |
| FileNumbers.NumberBack | source_c/fs_utils.c:190-224 | A printed number that fits in its word is read back, through a parser with blanks, signs, prefixes, saturation and truncation. |
| FileNumbers.TimeBack | source_c/fs_utils.c:226-248 | A time is read back to the nanosecond, from a fraction without its zeros. |
| FileNumbers.PrintTime | source_c/build_filelist.c:158-166 | The loop prints the seconds and the digits of the fraction. |
| FileList.ScanDir | source_c/build_filelist.c:116-201 | The tree is printed depth first, with numbers for the files that have something in them, and links cut to 1023 bytes. |
| FileIds.ListTree | source_c/build_filelist.c:116-201 | Printing a tree whose names and link targets survive and reading it back gives the same tree, in which the files with something in them have the numbers from the first on, one after the other modulo 2^64; the counter goes on behind the last. |
| FileIds.NumbersAre | source_c/build_filelist.c:184-187 | For every tree: these numbers, and nothing else changed. |
| FileIds.Distinct | source_c/build_filelist.c:184 | Up to 2^64 files have different numbers. |
| FileList.FilelistLoadRec | source_c/fs_net.c:1899-2026 | The recursive reader builds the tree that the text stands for, its numbers stored in words, or fails. |
| FileList.ListBack | source_c/fs_net.c:1899-2026 | A printed tree whose names survive is read back whole. |
| FileList.TreeSurvives | source_c/build_filelist.c:116-201 | Wherever it stands in a text, the printed tree is read back exactly if all its names and link targets survive; links that are cut do not. |
| FsNet.FileSystem.constructor | source_c/fs_net.c:1524-1578 | The root directory with its two dots meets the invariant. |
| FsNet.FileSystem.Decref | source_c/fs_net.c:387-393 | A reference is given up; the inode is freed exactly when it was the last and no handle is left. |
| FsNet.FileSystem.Walk | source_c/fs_net.c:631-648 | Names are followed until one is not found, and the new handle is on the inode they lead to. |
| FsNet.FileSystem.Mkdir | source_c/fs_net.c:650-668 | The result for every input; a directory with its dots and its name, or an error and nothing changed; the invariant is kept exactly if the directory it is made in has not been unlinked. |
| FsNet.FileSystem.Create | source_c/fs_net.c:1082-1105 | The same for a file, and the handle moves to it. |
| FsNet.FileSystem.MakeNode | source_c/fs_net.c:1382-1419 | The same for a link or device node. |
| FsNet.FileSystem.Link | source_c/fs_net.c:1370-1380 | The same for a further name of a file. |
| FsNet.FileSystem.RenameAt | source_c/fs_net.c:1433-1455 | The result for every input; the entries afterwards are the old ones without the old name and what the new name referred to, and the new name; the invariant is kept exactly if the directory has not been unlinked. |
| FsNet.FileSystem.UnlinkAt | source_c/fs_net.c:1457-1475 | The result for every input; exactly the name goes, and the entries of the directory it referred to; the invariant is kept. |
| FsNet.FileSystem.FlushDir | source_c/fs_net.c:568-577 | Exactly the entries of the directory are deleted, while the name that is being unlinked still holds it. |
| FsNet.FileSystem.Delete | source_c/fs_net.c:579-584 | A handle is given up, and with it an inode that only it kept; the invariant is kept exactly if no load waits for the handle, or the inode goes with it. |
| FsNet.FileSystem.Open | source_c/fs_net.c:1008-1080 | The result for every input: a file opens at once when its contents are there, otherwise exactly one load is started and the handle waits for it. |
| FsNet.FileSystem.SetLoaded | source_c/fs_net.c:724-745 | A load that ends opens the handle that waits, and the file enters the cache in front. |
| FsNet.FileSystem.SetError | source_c/fs_net.c:747-758 | A load that fails leaves a file without contents and without a buffer. |
| FsNet.FileSystem.TrimCache | source_c/fs_net.c:670-697 | From the least recently used end, all files without handles leave the cache and no others, until there is room; the last one to leave was needed. |
| FsNet.FileSystem.SetUrl | source_c/fs_net.c:1674-1702 | The result for every input; an empty local file without a buffer stands for one on the server; the invariant is kept exactly if that does not happen to a file with an open handle. |
| FsNet.FileSystem.Truncate | source_c/fs_net.c:1185-1244 | The result for every input; size, blocks, buffer and cache follow; the invariant is kept exactly if the new size of a file that is here is below the old one plus 2^63. |
| FsState.DirSizeIs | source_c/fs_net.c:444-466 | The size of a directory, which the invariant ties to its entries, is 33 bytes for each of them and the letters of their names. |
| FsState.BlocksHold | source_c/fs_net.c:312-315 | The least number of blocks of 4096 bytes that hold the size; for the 4095 largest sizes it wraps around to none. |
| FsState.SumBlocksHold | source_c/fs_net.c:312-315 | The blocks counted have room for all files and directories, with less than a block each left over. |
| FsNet.FullDisk | source_c/fs_net.c:1195-1216 | On a full disk a file grows exactly within its last block. |
| FsNet.FileSystem.Write | source_c/fs_net.c:1246-1281 | The result for every input; the copy is inside the buffer exactly if the count is positive and the end, without wrapping, is below the old size plus 2^63. |
| FsNet.FileSystem.Preload | source_c/fs_net.c:872-1006 | A load is started for each of the files that has no contents yet and for which there is memory; other files change only by leaving the cache. |
| FsExamples.UrlOfOpenFile | source_c/fs_net.c:1674-1702 | A run in which an address is given to an empty file that is open. |
| FsExamples.TruncateBeyond | source_c/fs_net.c:1185-1244 | A run in which an empty file is extended to 2^63 bytes: no error, and no buffer. |
| FsExamples.WriteBeyond | source_c/fs_net.c:1246-1281 | A run in which a page is written at the end of the 64-bit range: the copy is outside the buffer. |
| FsExamples.MkdirInUnlinked | source_c/fs_net.c:650-668 | A run in which a directory is made in one that is unlinked. |
| FsExamples.DeleteWaiting | source_c/fs_net.c:579-584 | A run in which a handle is freed while a load waits for it. |
| FileBytes.File.Truncate | source_c/fs_net.c:1185-1244 | The bytes of a local file: cut, or followed by zeros, or unchanged when there is no memory. |
| FileBytes.File.Write | source_c/fs_net.c:1246-1281 | The bytes of a file after a write, with zeros between the old end and the write. |
| FileBytes.File.Read | source_c/fs_net.c:1162-1183 | The part of the file that there is. |
| FileBytes.WriteThenRead | source_c/fs_net.c:1162-1281 | What is written is read back, and all other bytes are as they were. |
| FileBytes.CutIsGone | source_c/fs_net.c:1185-1244 | Nothing that a file lost when it was cut comes back when it grows again, although the buffer may still hold it. |
| FileBytes.WritesJoin | source_c/fs_net.c:1246-1281 | Two writes next to each other are one write. |

## Findings

Properties that the code does not have, each with an input for which it fails and the exact condition under which it
holds. Line numbers are those of the table.

- `sqrtrem_u` (softfp_template.h:664-675, 694-704) starts the iteration at a power of two computed from the high word
  alone, which is below the root for some double words with both halves nonzero. Input: 511 in 8-bit words, 16 instead
  of 22 (`IntegerLoops.SqrtRemMisses`). Exact: the root comes out if and only if a < (start + 1)^2
  (`IntegerLoops.SqrtRemU`). In single words (softfp_template.h:707-708) a sum wraps for the largest double word. Input:
  `RootWords.SqrtRemWraps`. Exact: `RootWords.SqrtRemWords`. `sqrt_sf` is not affected by either: its low word is zero.
- `mulh` and `mulhsu` (riscv_cpu_template.h:150-168, compiled where there is no wider integer type) subtract the
  operand that is negative instead of the other one. Input: -1 and 1 give 1 (`IntegerLoops.HighOfMinusOne`). Exact:
  `mulh` is right if and only if the signs agree, `mulhsu` if and only if the signed operand is not negative or has
  the bits of the other one.
- A trap taken in machine mode with MPRV set changes the privilege of loads and stores without a flush
  (riscv_cpu.c:1112-1117). Input: `SettingsExamples.TrapLeavesStaleEntry`. Exact, over all settings and all coherent
  machines: `StaleSettings.TrapStaleIff`.
- MRET into machine mode with MPRV set does the same (riscv_cpu.c:1143-1157). Input:
  `SettingsExamples.MretLeavesStaleEntry`. Exact: `StaleSettings.MretStaleIff`.
- A write to mstatus goes on in the block it is in (riscv_cpu.c:674-699), which may take its own page away. Input:
  `SettingsExamples.SumTakesCodeAway`. Exact: `InterpLoop.MstatusKeepsCodeIff`.
- The frame buffer is rounded up to 64 KiB, and a page below the end of the screen makes a redraw call of negative
  height (simplefb.c:72-84). Input: the bitmap with that page alone, in the proof of `SimpleFb.BandsProperIff`. Exact: the
  calls are proper for every bitmap if and only if the last page starts no lower than the end of the screen.
- A read that begins in an unwritten cluster and runs into a written one of the same block takes the image's sectors
  (block_net.c:287-324). Input: `BlockImage.StaleExample`. Exact: `BlockImage.ReadIsFlatIff`.
- The sizes of the buffers of a chain are added up in an int (virtio.c:485-504). Input: `VirtQueue.HugeDescriptor`.
  Exact: `VirtQueue.Queue.GetDescRwSize`. What is left of a descriptor is an int as well (virtio.c:421). Exact: `astray` of
  `VirtQueue.Queue.Memcpy`.
- A name that begins with a quote and needs no quoting is printed as it is and not read back (build_filelist.c:45-52).
  Input: `FileText.QuoteAlone`. Exact: `FileText.NameBackIff`, and for whole trees `FileList.TreeSurvives`.
- `SHA256_Update` narrows an unsigned long length to int (sha256.c:224, cutils.h:77). Input: `ShaContext.LongPieces`.
  Exact: `ShaContext.StuckIff`. Every caller in the repository passes an int.
- `decrypt_file` narrows the length of a chunk in the same way (fs_wget.c:364, 376). Input: `DecryptFile.LongChunks`.
  Exact: `DecryptFile.StuckIff`.
- `fs_net_set_url` does not look at handles (fs_net.c:1687-1692): a handle that is open on an empty file then sees
  contents that are not there. Input: `FsExamples.UrlOfOpenFile`. Exact: `FsNet.FileSystem.SetUrl`.
- `fs_truncate` takes the difference of two sizes as a signed number (fs_net.c:1195): a file that grows by 2^63 or more
  gets neither the test against the quota nor a buffer. Input: `FsExamples.TruncateBeyond`. Exact:
  `FsNet.FileSystem.Truncate`.
- `fs_write` adds offset and count modulo 2^64 (fs_net.c:1265): where that wraps, the copy at fs_net.c:1279 is not in
  the buffer. Input: `FsExamples.WriteBeyond`. Exact: `FsNet.FileSystem.Write`.
- A directory that is unlinked while a handle is on it still takes new names (fs_net.c:650-668, 1082-1105, 1370-1455),
  which nothing ever deletes. Input: `FsExamples.MkdirInUnlinked`. Exact: `FsNet.FileSystem.Mkdir`, `Create`, `MakeNode`,
  `Link` and `RenameAt`.
- `fs_delete` frees a handle although a load waits for it (fs_net.c:579-584). Input: `FsExamples.DeleteWaiting`. Exact:
  `FsNet.FileSystem.Delete`.

## Left out

- Floating point: comparisons, minimum and maximum, classification; words and exponents are unbounded integers within
  the field sizes. But for the NaNs, the tables of special operands are transcribed from the code and not derived.
- Memory: RAM ranges are page aligned and in RAM; TLB coherence is proved for runs in which no live table entry is
  overwritten without a fence, no RAM range moves, ranges stay disjoint, and no trap or MRET meets the two findings
  above. The values of device reads are not modelled, only that they are not RAM.
- Cpu.State.SetAddress: a RAM range is moved to a multiple of the page size only, as its callers do.
- Instructions: what an instruction computes is abstract; it is a sequence of the machine's operations and a way to
  end. Interrupt and counter registers, XLEN changes through misa, and the choice of the trap vector are parameters.
- InterpLoop.Interp: what a run gets to is a parameter that instructions, fetches and traps keep to; coherence over
  traps is discharged for runs that do not get to the settings of the first finding on traps.
- AES: the word tables are functions. The encrypting half of `AES_cbc_encrypt` is a function only.
- CbcFile.CbcDecryptInPlace: the length is a whole number of blocks, as for its caller; the branch for a rest is not
  modelled.
- DecryptFile.Session.Feed: the callback that takes the plain bytes always succeeds.
- DecryptFile.Transfer: like Receive it is for chunks below 2^31 bytes; what happens to others is in the findings.
- ShaContext.Context.Update: the counter of bits is unbounded; the abort on its overflow at 2^64 is not modelled.
- Hmac.HmacContext.Update: lengths are below 2^31, as the parameter is an int.
- BlockNet.Device.Rw: blocks have at least eight sectors, one request is outstanding, and a mask by the block size is
  written as a remainder. Downloads are events with the data of the image.
- BlockNet.Device.Submit: requests lie in the image.
- VirtQueue.Queue.Memcpy: the chain ends and its buffers lie in RAM, apart from the descriptor table; guest RAM begins
  at address 0. The other devices and the configuration registers are not modelled.
- VirtRing.BlockQueue.Publish: the driver reuses no descriptor before the device took it; contents of sectors are the
  block device's.
- BlockRequests.BlockDevice.RecvRequest: a read and a write have a byte for the status and lie in the disk, buffers are
  below 2^31 bytes, and the buffer of a write stays until the request is done: the code frees it earlier
  (virtio.c:1103), so that what a write that had to wait then stores is not determined.
- BlockRequests.BlockDevice.Loaded: the guest leaves the chain of the request in progress as it is.
- FileNumbers.NumberBack: the host's unsigned long has 64 bits.
- FsNet.FileSystem.RenameAt: an entry is not renamed onto itself, where the code uses a freed entry, nor to a dot that
  is not in the directory.
- FsNet.FileSystem.Truncate: like the other operations that allocate it has the memory there is as a parameter, at most
  2^60 bytes.
- FsNet.FileSystem.Preload: loads of archives are one load event for each file; base URL counts, modes, owners, times,
  identifiers, special files and directory reading are left out.
- FileBytes.File.Write: sizes are below 2^63; quota and the other sizes are in FsNet.
- The JSON reader, the network, the other virtio devices, the x86 machine and the user interfaces would add easy
  members or no logic of their own.
