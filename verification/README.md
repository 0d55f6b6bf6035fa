# A model of the k1801vm1 PDP-11 emulator

Dafny models of the parts of the emulator where a simple specification is met by
code that gets there in a much more involved way, and proofs that it is met:

- **FP11 floating point** (`fp_*.dfy`): fractions of 56 bits held as two 32-bit
  halves; shift-and-add multiplication that drops a bit at each step, restoring
  division with an early exit, align-and-normalise addition, the MOD split,
  rounding, and conversion from and to integers. Each routine is a method on the
  halves, proved against a function on whole numbers; the lemmas are about that
  function.
- **DCJ11 memory management** (`mmu_walk.dfy`, `mmu.dfy`): the segment walk, and the
  windows cached beside it, which accesses use without consulting the registers. The
  cached machine is proved to be indistinguishable from one that always walks, over
  every run that reaches no register behind a window; that is every run with 22-bit
  addresses, and every run on a memory that ends below 760000 octal.
- **DCJ11 processor state** (`banks.dfy`, `restart.dfy`, `shifts.dfy`): banked stack
  pointers and register sets, trap entry and return; the restart log; the closed
  forms of the multi-bit shifts.
- **Interrupt grant** (`irq.dfy`): the scan over the sources, the processor's own
  check, and the delivery loop.
- **BK-0010 tape** (`tape_*.dfy`): the waveform of a program image, the adaptive
  decoder, and their round trip.
- **SIMH magnetic tape images** (`tap_*.dfy`): parsing in both directions, spacing,
  chunked transfers, and writing.
- **UQSSP port of the RQ controller** (`rq_ring.dfy`, `rq_port.dfy`): the handshake
  and the two rings shared with the host, as interleaved host and port steps.
- **RM05 and RK07 transfers** (`sector_buffer.dfy`, `xp_disk.dfy`, `rh_disk.dfy`): a
  dirty sector buffer against a flat disk of words.

`arith.dfy` holds machine integers and the facts about powers of two and quotients
that the others share.

Machine words are integers with their range in the type; shifts and masks are
written as multiplication, division and remainder. State that the emulator updates in
place is a class with the same fields; its methods are stated against functions of the
old state. Some methods take ghost parameters that name the recording, the list of
objects or the transfer they are working through; these play no part in what is
computed.

Where the code does something other than one might expect, the model follows it:

- The cached windows leave out the 22-bit I/O page but not the 18-bit one, so a
  window can hide a register when translation is 18 bits wide and memory reaches that
  far (`Mmu.ShadowedWitness`); a load can tell only then (`Mmu.LoadIsWalk`).
- STCfi stores C from the processor status word, not from the conversion error that it
  has just found (`FpConvert.CarryReportsError`, `FpConvert.ErrorWithoutCarry`).
- The stack pointer of a mode is read from its saved slot even when that mode is the
  current one and R6 has moved on (`Banks.Cpu.ReadModeStack`,
  `Banks.Cpu.StaleAfterPush`).
- A source whose priority does not fit in three bits can be acknowledged and then
  refused (`Irq.LostByWidth`).
- With sectors numbered from one, the RK07 address is not advanced in block order
  across the end of a track (`RhDisk.ConsecutiveMeansRoom`, `RhDisk.OneBasedWitness`).

## Model

| member | source | states |
|---|---|---|
| `FpWord.AddVal` | core/pdp11_fp.c:217-219 | adding the halves adds the numbers, modulo 2^64 |
| `FpWord.SubVal` | core/pdp11_fp.c:220-222 | subtracting the halves subtracts the numbers, modulo 2^64 |
| `FpWord.Lt` | core/pdp11_fp.c:223-223 | comparing halves compares the numbers |
| `FpWord.LshVVal` | core/pdp11_fp.c:227-232 | a left shift by any count below 64 multiplies by that power of two, modulo 2^64 |
| `FpWord.RshVVal` | core/pdp11_fp.c:233-238 | a right shift by any count up to 59 divides by that power of two |
| `FpWord.LshGuardVal` | core/pdp11_fp.c:248-255 | shifting in the guard bits multiplies by eight |
| `FpWord.RshGuardVal` | core/pdp11_fp.c:251-256 | dropping the guard bits divides by eight |
| `FpPack.RoundingError` | core/pdp11_fp.c:1448-1468 | rounding is within half a unit of the last kept place, truncation within one unit below |
| `FpPack.PackedFields` | core/pdp11_fp.c:1448-1508 | the packed word has the sign, the exponent modulo 256 and the fraction that went in |
| `FpPack.Fpu.RoundAndPack` | core/pdp11_fp.c:1448-1508 | rounding, packing, overflow and underflow, with the status left behind, on the halves |
| `FpAccuracy.OverflowWraps` | core/pdp11_fp.c:1448-1508 | overflow sets V; reported with its code the result is too small by 2^256, and masked it is zero and nothing else changes |
| `FpAccuracy.UnderflowWraps` | core/pdp11_fp.c:1448-1508 | the same for underflow, without V and too large by 2^256 |
| `FpMultiply.AccIsProduct` | core/pdp11_fp.c:1286-1323 | adding and dropping a bit at each of the 56 or 24 steps still ends in the rounded-down product |
| `FpMultiply.FracMul` | core/pdp11_fp.c:1286-1323 | all three paths (24x24, 24x56, 56x56) give the same floor(F1 * 8 * F2 / 2^56) |
| `FpMultiply.ProductRange` | core/pdp11_fp.c:1143-1172 | one normalising shift is always enough |
| `FpMultiply.MulFp11` | core/pdp11_fp.c:1143-1172 | the multiply instruction on the halves is the rounded product with its status |
| `FpMultiply.MulWithinOneUlp` | core/pdp11_fp.c:1143-1172 | what is stored for a product that neither overflows nor underflows is within one unit in the last place of the exact product, rounding or truncating, F or D |
| `FpMultiply.MulZeroAndOrder` | core/pdp11_fp.c:1143-1172 | a factor of exponent zero gives a clean zero, and the factors can be exchanged |
| `FpDivide.Split` | core/pdp11_fp.c:1336-1384 | after i steps the quotient so far and the remainder account for the dividend exactly |
| `FpDivide.EarlyExit` | core/pdp11_fp.c:1336-1384 | once the remainder is zero, the steps that are skipped only shift |
| `FpDivide.QuotientLoop` | core/pdp11_fp.c:1336-1384 | the restoring loop with its early exit and final shift leaves the quotient, inside 64 bits |
| `FpDivide.QuotientIs` | core/pdp11_fp.c:1336-1384 | the quotient is floor(dividend * 2^(count-1) / divisor) |
| `FpDivide.QuotientRange` | core/pdp11_fp.c:1336-1384 | one normalising shift is always enough |
| `FpDivide.DivFp11` | core/pdp11_fp.c:1336-1384 | the divide instruction on the halves is the rounded quotient with its status |
| `FpDivide.DivWithinOneUlp` | core/pdp11_fp.c:1336-1384 | what is stored for a quotient that neither overflows nor underflows is, times the divisor, within one unit in the last place of the dividend |
| `FpDivide.DivOfZero` | core/pdp11_fp.c:1336-1384 | a dividend of exponent zero gives a clean zero |
| `FpNormalise.NormalisedValue` | core/pdp11_fp.c:1100-1121 | normalising keeps fraction * 2^exponent and ends with the top bit set |
| `FpNormalise.Normalise` | core/pdp11_fp.c:1100-1121 | the shifting loop computes exactly that normal form |
| `FpAdd.AddFp11` | core/pdp11_fp.c:1067-1133 | the add instruction on the halves, through ordering, alignment and normalisation |
| `FpAdd.AddCommutes` | core/pdp11_fp.c:1067-1133 | the result and the status do not depend on the order of the operands |
| `FpAdd.AddZero` | core/pdp11_fp.c:1067-1133 | an operand of exponent zero adds nothing, whichever comes first |
| `FpAdd.AddWithinOneUlp` | core/pdp11_fp.c:1067-1133 | for non-zero operands without overflow or underflow the sum is within one unit in the last place |
| `FpAdd.CloseDifferenceExact` | core/pdp11_fp.c:1067-1133 | opposite signs and exponents at most three apart: the difference before rounding is exact, and it is zero only if the exact one is |
| `FpMod.ModFp11` | core/pdp11_fp.c:1184-1259 | the MOD instruction on the halves gives the fraction, the integer and the status of the split |
| `FpMod.ModOfZero` | core/pdp11_fp.c:1184-1259 | a zero operand gives two zeros and changes nothing |
| `FpMod.ModAllFraction` | core/pdp11_fp.c:1222-1225 | a product below one is all fraction: the integer is zero and the fraction that of the product, within one unit |
| `FpMod.ModAllInteger` | core/pdp11_fp.c:1226-1229 | a product with no place below the point is all integer: the fraction is zero and the integer the product truncated, within one unit below |
| `FpMod.FormatBits` | core/pdp11_fp.c:1184-1259 | with that many integer places the last place of the format is one |
| `FpMod.ModIntegerExact` | core/pdp11_fp.c:1184-1259 | with operands a and b, the integer result is exactly the whole part of the product of their fractions: no bit is lost in packing and no exception is reported |
| `FpMod.ModFractionExact` | core/pdp11_fp.c:1184-1259 | with operands a and b, the fraction before rounding is exactly the product less that integer in single precision, and less than one guarded unit below it in double; it is normalised with its value kept |
| `FpConvert.RoundedFClose` | core/pdp11_fp.c:1417-1434 | rounding overflows exactly on a fraction of all ones at the largest exponent; otherwise the single-precision result is within half a unit of the operand |
| `FpConvert.RoundedFInRange` | core/pdp11_fp.c:1417-1434 | short of the top exponent that rounding never overflows and moves the high word by one at most |
| `FpConvert.LdcIf` | core/pdp11_fp.c:567-595 | loading an integer: sign, normalised fraction, exponent, rounding in single precision, and the codes |
| `FpConvert.LoadedClose` | core/pdp11_fp.c:567-595 | the value loaded is the integer in double precision, and in single precision it is within half a unit, or truncated |
| `FpConvert.OneIs` | core/pdp11_fp.c:567-595 | the integer one is loaded as 40200 octal |
| `FpConvert.StcFi` | core/pdp11_fp.c:597-642 | storing as an integer: the value or the conversion error, the codes N, Z and V, and C from the PSW |
| `FpConvert.ErrorIsRange` | core/pdp11_fp.c:597-642 | there is a conversion error if and only if the exponent is above that of the size, or equal to it and the operand does not truncate to the most negative integer |
| `FpConvert.StcTruncates` | core/pdp11_fp.c:597-642 | without an error the integer is the operand truncated toward zero |
| `FpConvert.StcCodes` | core/pdp11_fp.c:597-642 | N is for a negative integer, Z for zero or an error, V is clear, and the error flag is set if the error is enabled |
| `FpConvert.CarryReportsError` | core/pdp11_fp.c:597-642 | C reports the error if and only if C of the PSW says whether the operand is out of range |
| `FpConvert.ErrorWithoutCarry` | core/pdp11_fp.c:632-636 | an operand with a conversion error and C clear |
| `FpConvert.DoubleRoundTrip` | core/pdp11_fp.c:567-642 | every 16-bit and 32-bit integer comes back from double precision, the most negative one included |
| `FpConvert.WordRoundTrip` | core/pdp11_fp.c:567-642 | every 16-bit integer comes back from single precision too |
| `FpConvert.SingleLongRoundTrip` | core/pdp11_fp.c:567-642 | a 32-bit integer comes back from single precision if and only if its lowest eight significant places are clear |
| `MmuWalk.PdrWordRoundTrip` | core/core.c:1182-1206 | reading a page descriptor and writing it back keeps all but the status bits |
| `MmuWalk.WalkOnWords` | core/core.c:1513-1752 | on the register words: what a walk permits, at which address, and which fault comes first otherwise |
| `MmuWalk.WindowWhere` | core/core.c:1284-1300 | which pages have a window, and where |
| `MmuWalk.RebuiltHits` | core/core.c:1250-1320 | a rebuilt entry hits wherever reading is permitted, and for writing if the page had been written |
| `MmuWalk.RebuildAgrees` | core/core.c:1250-1301 | a rebuilt window agrees with its registers |
| `MmuWalk.StatusKeepsAgreement` | core/core.c:1352-1373 | setting status bits behind the cache keeps the agreement |
| `MmuWalk.WindowIsLinear` | core/core.c:1284-1300 | every address of a window is the one the walk computes |
| `MmuWalk.HitIsWalk` | core/core.c:1303-1320 | a hit is a walk that succeeds at the same address; a read misses only where the walk aborts or there is no window |
| `MmuWalk.WindowIsSafe` | core/core.c:1284-1300 | no window reaches the 22-bit I/O page or runs past the memory, and a writable one has W set and a writable access code |
| `Mmu.WindowTarget` | core/core.c:765-900 | a hit goes where the walk would go, but for registers in the 18-bit window |
| `Mmu.AprFound` | core/core.c:992-1030 | the page registers are at their addresses |
| `Mmu.RegistersAtTop` | core/core.c:765-810 | a register is at the same offset of the I/O page with 16, 18 and 22 bits |
| `Mmu.CpuRegisters` | core/core.c:268-283 | the register block from 177744 octal has eight registers and six words that are none |
| `Mmu.NoCodeInBlock` | core/core.c:802-810 | an instruction is refused exactly where it would come from a register or from the last 28 bytes of the I/O page |
| `Mmu.Ssr0ReadBack` | core/core.c:1135-1165 | SSR0 read after a write |
| `Mmu.Ssr3ReadBack` | core/core.c:1182-1191 | SSR3 read after a write, and which bits separate the spaces |
| `Mmu.SpacesOnWords` | core/core.c:1333-1350 | which bank an access uses |
| `Mmu.PcEntriesHidden` | core/core.c:1051-1068 | SSR1 is read without the entries of the program counter |
| `Mmu.AprWritten` | core/core.c:1192-1206 | a write to either register of a page clears its status and touches no other page |
| `Mmu.FaultWord` | core/core.c:1754-1790 | the word that a first fault leaves in SSR0 |
| `Mmu.EnableIsNoted` | core/core.c:1375-1398 | the store that turns translation on is noted in the page of its own address |
| `Mmu.ShadowedWitness` | core/core.c:1284-1300 | the 18-bit window is not excluded: a concrete page whose window hides the PSW |
| `Mmu.LoadIsWalk` | core/core.c:1792-2195 | cached and walked loads reach the same place if and only if no window hides a register there |
| `Mmu.NothingHidden` | core/core.c:1284-1300 | with 22-bit addresses, or with memory below that window, no access is hidden |
| `Mmu.LatchHolds` | core/core.c:1754-1790 | the first fault, with its page, log and instruction, outlives any run without a reset or a store to SSR0, whatever faults follow |
| `Mmu.Mmu.TlbFlushAll` | core/core.c:1321-1331 | after a flush every entry agrees |
| `Mmu.Mmu.NoteWritePdrW` | core/core.c:1352-1373 | the noted page alone gets W |
| `Mmu.Mmu.Translate` | core/core.c:1513-1752 | translation gives the walk, marks the page and latches the fault |
| `Mmu.Mmu.WriteReg` | core/core.c:1135-1211 | a register write changes the registers as the J11 does and leaves the cache in agreement |
| `Mmu.Mmu.StoreReg` | core/core.c:1224-1243 | a byte store goes in by way of the whole register |
| `Mmu.Mmu.Load` | core/core.c:1792-2195 | a load gives the value at the place the registers say, whatever the cache has been through |
| `Mmu.Mmu.Fetch` | core/core.c:1940-2045 | an instruction comes from memory; a register, or with translation on a free word of the register block as well, gives an address error |
| `Mmu.Mmu.Store` | core/core.c:1865-2260 | a store changes exactly the bytes or the register at the place the registers say, and the page status |
| `Mmu.Mmu.LoadThrough` | core/core.c:1792-2195 | after the two registers of a page have been written, a load gives the memory word at the address they mean, or the fault, latched, with the page status |
| `Mmu.Mmu.StoreThrough` | core/core.c:1865-2260 | the same for a store and the bytes it changes |
| `Mmu.Mmu.Step` | core/core.c:1792-2260 | any one request that reaches no hidden register is answered as the machine without a cache answers it |
| `Mmu.Mmu.Run` | core/core.c:1792-2260 | over any run of loads, stores, fetches, instruction starts and resets that reaches no hidden register, cached and cache-free machines have the same answers, registers and memory |
| `Mmu.Mmu.MostRuns` | core/core.c:1284-1300 | these are all runs with 22-bit addresses or translation off throughout, and all runs on memories that end below 760000 octal |
| `Mmu.Mmu.WindowsAreSafe` | core/core.c:1250-1301 | in every reachable state windows are inside memory, off the I/O page, never for mode 2, and writable only with W set |
| `Banks.TrapPsw` | core/core.c:512-527 | trap entry is in kernel mode with the old mode as previous mode and everything else from the vector |
| `Banks.ReturnKeepsPrivilege` | core/core.c:529-538 | a return outside kernel mode cannot raise the privilege, leave the second register set or change the priority, and takes the codes from the popped word |
| `Banks.PswFields` | core/core.c:146-191 | where the PSW has its modes and register set |
| `Banks.Cpu.SwitchStack` | core/core.c:556-574 | changing mode saves the old stack pointer and brings in the new one |
| `Banks.Cpu.SwitchSet` | core/core.c:593-612 | changing register set exchanges R0 to R5 |
| `Banks.Cpu.SetPsw` | core/core.c:615-623 | every stack pointer and both register sets keep their values; only what is visible changes |
| `Banks.Cpu.ReadModeStack` | core/core.c:648-655 | for the current mode the slot read is the stack pointer if and only if R6 is what it was when the mode was entered or its stack pointer last written |
| `Banks.Cpu.StaleAfterPush` | core/core.c:648-655 | a push in user mode, with user as previous mode, leaves a stale slot |
| `Banks.Cpu.WriteModeStack` | core/core.c:657-669 | writing a mode's stack pointer changes that one and no other |
| `Banks.Cpu.TakeVector` | core/core.c:2423-2461 | trap entry without faults: the frame, the new PC and PSW, and what stays |
| `Banks.Cpu.ReturnFromInterrupt` | core/core.c:3022-3042 | return from interrupt without faults: what is popped and what stays |
| `Banks.Cpu.TrapAndReturn` | core/core.c:2423-3042 | a trap through any vector and its return restore PC, PSW, all registers and stack pointers, whatever the handler wrote outside the frame |
| `Restart.AppendMeans` | core/core.c:1486-1511 | a recorded step adds its amount to its register, and two entries have room |
| `Restart.KnownEntries` | core/core.c:1486-1511 | the entries of a program counter step, a push and a byte step |
| `Restart.Cpu.Begin` | core/core.c:1466-1484 | an instruction starts with an empty log and its own address, unless the log is frozen |
| `Restart.Cpu.Operands` | core/core.c:3381-4520 | the accesses of single and double operand instructions, JSR and the moves between spaces, up to the one that fails, and the registers they leave |
| `Restart.OperandAccesses` | core/core.c:2753-2801 | an immediate operand is read from the instruction, any other from data, before it is written |
| `Restart.StackAccesses` | core/core.c:3861-4005 | what JSR and the moves between spaces read and write, and where |
| `Restart.Cpu.Decode` | core/core.c:2803-2899 | every addressing mode gives its effective address or the fault on the way there, with the index added after the program counter has passed it, moves at most one register, and has recorded that before any access can fault |
| `Restart.RelativeLaw` | core/core.c:2872-2880 | an index of t less the address behind it is an operand at t |
| `Restart.Cpu.Execute` | core/core.c:2963-2985 | wherever the MMU faults, winding R0 to R6 back by at most two entries gives their values at the start, and SSR2 is the address of the instruction; a frozen log stays |
| `Restart.Cpu.FaultThenRecover` | core/core.c:1466-1511 | after a fault any instructions may run: while the freeze lasts the log restores all eight registers to the start of the instruction that faulted |
| `Shifts.LeftDenotes` | core/core.c:4109-4212 | n single left shifts give the product with 2^n, and the overflow flag says whether it fits |
| `Shifts.RightDenotes` | core/core.c:4109-4212 | n single right shifts give the quotient by 2^n rounded down |
| `Shifts.AshIsSingleShifts` | core/core.c:4109-4157 | ASH with any six-bit count is that many single shifts: word, last bit out and overflow |
| `Shifts.AshcIsSingleShifts` | core/core.c:4159-4212 | the same for ASHC and a register pair |
| `Irq.GrantIsAccepted` | lsi11/irq.c:39-100 | what the scan grants the processor accepts under the same PSW, with the same vector |
| `Irq.MaskedLevels` | lsi11/irq.c:39-92 | which PSW bits mask which sources |
| `Irq.EncodedWord` | lsi11/irq.c:17-25 | the priority is above the vector in the word that is given |
| `Irq.PirqBits` | core/core.c:305-316 | the level of the software requests is their highest bit |
| `Irq.VectorRecovered` | lsi11/irq.c:17-25 | the vector comes back if and only if it is even and fits its field |
| `Irq.LostByWidth` | lsi11/irq.c:17-25 | a granted request is lost if and only if its priority does not fit three bits and the rest is masked |
| `Irq.Requests.Poll` | lsi11/irq.c:39-100 | the first unmasked source of the highest priority is granted and it alone is acknowledged; on the DCJ11 whenever there is one |
| `Irq.Deliver` | core/core.c:4749-4767 | with vectors that raise the priority, at most seven grants, each of the software requests while they are above the priority and of a source above it otherwise, and then nothing unmasked is pending |
| `Irq.ZeroIsGrantedForEver` | core/core.c:4749-4767 | a source of priority zero that stays pending is granted on every turn |
| `TapeWave.NameField` | bk0010-01/bk_tape.c:532-546 | the sixteen bytes of the name field: the raw name with zeros behind it, or the text with blanks or zeros |
| `TapeWave.NameRecovered` | bk0010-01/bk_tape.c:532-546 | a name can be read off its field if and only if it has at most sixteen bytes and does not end in padding |
| `TapeWave.LowByteFirst` | bk0010-01/bk_tape.c:491-552 | words have their low byte first, in an image and in a recording |
| `TapeWave.StrobeWord` | bk0010-01/bk_tape.c:55-76 | a strobe is a big-endian word with its level on top |
| `TapeWave.Writer.Append` | bk0010-01/bk_tape.c:55-76 | a duration is written as strobes of at most 15 bits |
| `TapeWave.Writer.PutByte` | bk0010-01/bk_tape.c:129-144 | a byte is eight cells, lowest bit first |
| `TapeWave.Writer.PutArray` | bk0010-01/bk_tape.c:146-154 | bytes are written in order |
| `TapeWave.ComputeChecksum` | bk0010-01/bk_tape.c:156-167 | the sum with end-around carry |
| `TapeWave.Encode` | bk0010-01/bk_tape.c:491-604 | an image becomes the waveform of lead, header, payload, checksum and trailer; a short one is refused |
| `TapeRead.ReadBack` | bk0010-01/bk_tape.c:187-207 | the reader returns the written strobes one late, starting with an empty one |
| `TapeRead.Reader.GetStrobe` | bk0010-01/bk_tape.c:187-207 | on any recording the next strobe, joining glitches |
| `TapeRead.Reader.ReadBit` | bk0010-01/bk_tape.c:209-227 | on any recording the width of the next cell at the given level |
| `TapeRead.Reader.FindHeader` | bk0010-01/bk_tape.c:229-274 | on a lead of unit T at either level: that level and a threshold of exactly 3T, at the end of the lead, if and only if the lead is long enough |
| `TapeRead.Reader.SkipGap` | bk0010-01/bk_tape.c:276-292 | the gap in front of a block is passed |
| `TapeRead.Reader.ReadBits` | bk0010-01/bk_tape.c:294-306 | cells are read back into the number they were written from |
| `TapeRead.Reader.ReadBytes` | bk0010-01/bk_tape.c:276-308 | and blocks into their bytes |
| `TapeCodec.Decode` | bk0010-01/bk_tape.c:310-380 | any result is a well-formed image; of an image recorded at either level, with any word for its checksum, that image and name if the word is right, and nothing otherwise |
| `TapeCodec.DecodeDamaged` | bk0010-01/bk_tape.c:310-380 | a recording with one byte of the payload changed is refused |
| `TapeCodec.ImageTicks` | bk0010-01/bk_tape.c:491-604 | the time that the recording of an image takes, from its ones and its length |
| `TapeCodec.CellAt` | bk0010-01/bk_tape.c:84-144 | the cell of bit i of byte k starts with a pulse of two units for a one |
| `TapeCodec.RoundTrip` | bk0010-01/bk_tape.c:491-604 | encoding and decoding give back every image, cut to its stated length, and its name, for every unit from 2 to 4095 |
| `TapeCodec.ChecksumIsSum` | bk0010-01/bk_tape.c:156-167 | the checksum is the sum modulo 65535, and zero only for zeros |
| `TapeCodec.ChecksumSeesOneByte` | bk0010-01/bk_tape.c:156-167 | a change of one byte always changes the checksum |
| `TapFormat.LeRoundTrip` | lsi11/dev_tq11.c:696-728 | a number written in bytes is read back |
| `TapFormat.LengthBits` | lsi11/dev_tq11.c:236 | record lengths have 24 bits |
| `TapFormat.LowestFirst` | lsi11/dev_tq11.c:697-729 | byte i has the weight 2^(8i) |
| `TapFormat.Layout` | lsi11/dev_tq11.c:961-1042 | the bytes of a mark and of a record |
| `TapFormat.BoundariesEven` | lsi11/dev_tq11.c:731-737 | every boundary is even |
| `TapFormat.Malformed` | lsi11/dev_tq11.c:739-826 | the status of what is no object |
| `TapFormat.ParsesBothWays` | lsi11/dev_tq11.c:739-918 | the object at a place is found from either end, with the same ends |
| `TapFormat.NextAndBack` | lsi11/dev_tq11.c:739-918 | from any boundary of any image: forward to the next boundary, and back |
| `TapFormat.SpliceMeans` | lsi11/dev_tq11.c:961-1025 | a write leaves its bytes and changes no others |
| `TapFormat.Append` | lsi11/dev_tq11.c:961-1025 | an object written at the end is appended to the list |
| `TapDrive.DeliverJoin` | lsi11/dev_tq11.c:739-826 | delivery in chunks is delivery of the whole, stopped at the first failure |
| `TapDrive.WriteMeans` | lsi11/dev_tq11.c:516-529 | a DMA write changes exactly the bytes that fit |
| `TapDrive.CompareMeans` | lsi11/dev_tq11.c:1485-1500 | a comparison succeeds if and only if memory holds the bytes |
| `TapDrive.RecordsThereAndBack` | lsi11/dev_tq11.c:1055-1163 | n records forward over a stretch without marks and n back is the identity |
| `TapDrive.MarksThereAndBack` | lsi11/dev_tq11.c:1095-1200 | n marks back after n marks forward lands at the start of the first one passed |
| `TapDrive.Drive.ReadForward` | lsi11/dev_tq11.c:739-826 | on any image the status, the end, the lengths and what was delivered |
| `TapDrive.Drive.PeekPrev` | lsi11/dev_tq11.c:851-918 | on any image the status and start of the object behind, without moving |
| `TapDrive.Drive.SpaceForwardRecords` | lsi11/dev_tq11.c:1055-1093 | spacing over records ends where the list of objects says |
| `TapDrive.Drive.SpaceForwardMarks` | lsi11/dev_tq11.c:1095-1123 | spacing over marks likewise, and ends on any file |
| `TapDrive.Drive.SpaceReverseRecords` | lsi11/dev_tq11.c:1125-1163 | backward over records |
| `TapDrive.Drive.SpaceReverseMarks` | lsi11/dev_tq11.c:1165-1200 | backward over marks |
| `TapDrive.Drive.WriteRecord` | lsi11/dev_tq11.c:961-1025 | the record is written whole at the position, or nothing is when the source does not answer |
| `TapDrive.Drive.WriteMark` | lsi11/dev_tq11.c:1027-1042 | a mark is written at the position |
| `TapDrive.Drive.WriteThenRead` | lsi11/dev_tq11.c:961-1582 | append, one record back, read: the same bytes up to the count, and past the record again |
| `RqRing.VisitsPerTurn` | lsi11/dev_rq11.c:571-580 | a full turn visits every slot once |
| `RqRing.DescriptorAddress` | lsi11/dev_rq11.c:582-637 | an even 22-bit address comes back from its descriptor, before and after its release |
| `RqRing.NextIndex` | lsi11/dev_rq11.c:571-580 | the index of step t is four times t modulo the slots |
| `RqRing.ReleaseStep` | lsi11/dev_rq11.c:621-637 | releasing a descriptor keeps the hand-over counts of both rings |
| `RqRing.GiveKeeps` | lsi11/dev_rq11.c:582-637 | a host that writes only what it owns keeps them too |
| `RqPort.Port.PeekOwned` | lsi11/dev_rq11.c:582-603 | the descriptor at the position, if the port owns it |
| `RqPort.Port.Release` | lsi11/dev_rq11.c:605-637 | only the owner and flag bits and the interrupt flag change |
| `RqPort.Port.ApplyCredits` | lsi11/dev_rq11.c:760-778 | each end grants one credit and the saved ones |
| `RqPort.Port.ProcessOne` | lsi11/dev_rq11.c:1283-1359 | exactly when the port owns both descriptors and their packets are in memory a command is taken: its data is in memory, its flags are kept, its end, with its reference, is in the response buffer, and nothing else changes; what cannot be served stops the port with its code |
| `RqPort.Port.PostAttention` | lsi11/dev_rq11.c:1189-1234 | exactly when a unit wants attention, the host has enabled it and the port owns a response, the first such unit gets its packet there, and nothing else changes |
| `RqPort.Port.Serve` | lsi11/dev_rq11.c:1361-1383 | a turn of the poll serves an attention or a command, with the effect given, unless there is nothing to serve |
| `RqPort.Port.Poll` | lsi11/dev_rq11.c:1361-1383 | a poll serves eight responses, each command with the effect of its turn, or stops with nothing left that it could serve |
| `RqPort.Port.ClearCommArea` | lsi11/dev_rq11.c:653-676 | the flags and both rings are cleared, which succeeds exactly when the area lies in memory unwrapped |
| `RqPort.Port.Step4` | lsi11/dev_rq11.c:678-707 | the rings have the sizes of the first host word and are in order, exactly when they fit; otherwise the port stops with its error code |
| `RqPort.Port.SaWrite` | lsi11/dev_rq11.c:1403-1466 | every handshake step, its answer and the state it leads to |
| `RqPort.Port.IpRead` | lsi11/dev_rq11.c:1391-1401 | a purge completes, or a poll is asked for |
| `RqPort.Port.Reset` | lsi11/dev_rq11.c:1555-1581 | a reset from any state |
| `RqPort.Port.HostWrite` | lsi11/dev_rq11.c:582-637 | host writes off the rings keep the port in order |
| `RqPort.Port.HostGiveCommand` | lsi11/dev_rq11.c:582-637 | handing over a command descriptor keeps the port in order |
| `RqPort.Port.HostGiveResponse` | lsi11/dev_rq11.c:582-637 | handing over a response descriptor keeps the port in order |
| `RqPort.Port.Accounts` | lsi11/dev_rq11.c:760-1383 | in every run: one end for each command, in order; responses are ends plus attentions; credits granted are ends + 7 - those left |
| `RqPort.Port.Run` | lsi11/dev_rq11.c:566-1581 | any interleaving of fair host steps, register accesses and polls keeps all of this; short of a reset a port that is up only adds to its logs |
| `RqPort.Port.TakenOnce` | lsi11/dev_rq11.c:1283-1359 | each slot was taken as often as it was handed over, less one while the port owns it, and in ring order |
| `RqPort.Port.SentOnce` | lsi11/dev_rq11.c:1189-1359 | the same for response slots |
| `RqPort.Port.RingsApart` | lsi11/dev_rq11.c:571-707 | indices stay aligned inside two adjacent rings |
| `SectorBuffer.FilledMeans` | lsi11/dev_xp.c:310-321 | each word of a read is at its own address and no other address changes |
| `SectorBuffer.NextAddr` | lsi11/dev_xp.c:514-521 | stepping the address by two, modulo the bus |
| `SectorBuffer.Channel.EnsureSector` | lsi11/dev_xp.c:464-480 | changing sectors keeps the view of the flat disk |
| `SectorBuffer.Channel.MoveWord` | lsi11/dev_xp.c:482-512 | one word moved extends the view by that word |
| `SectorBuffer.Channel.WriteBack` | lsi11/dev_xp.c:524-529 | the disk alone is the flat disk again |
| `XpDisk.SectorRoundTrip` | lsi11/dev_xp.c:360-393 | the registers denote the sector they were made from, held at the last |
| `XpDisk.NumberedInOrder` | lsi11/dev_xp.c:360-381 | the next sector, surface and cylinder are 1, 32 and 608 sectors further on, from zero |
| `XpDisk.AddressRoundTrip` | lsi11/dev_xp.c:360-393 | the sector fixes the registers |
| `XpDisk.Controller.Step` | lsi11/dev_xp.c:514-521 | the bus address moves by two modulo 2^22 unless inhibited |
| `XpDisk.Controller.Transfer` | lsi11/dev_xp.c:459-529 | the loop moves words until done, memory fails or a check differs |
| `XpDisk.Controller.Perform` | lsi11/dev_xp.c:400-553 | after i words exactly disk words [start, start + i) are the memory words; count, address and disk address moved by i, and each error flag is set exactly when its error occurs |
| `RhDisk.NextLba` | lsi11/dev_rh11.c:221-259 | the next address is the next block until the cylinder wraps |
| `RhDisk.BusWraps` | lsi11/dev_rh11.c:303-328 | an 18-bit address is followed by 0 after its last word, and a 22-bit one goes on to its own last |
| `RhDisk.Controller.RequestedMeans` | lsi11/dev_rh11.c:465-470 | the words asked for are minus the counter as a signed number, or none |
| `RhDisk.NumberedInOrder` | lsi11/dev_rh11.c:221-241 | the next sector, head and cylinder are 1, 22 and 66 blocks further on, from zero |
| `RhDisk.OneBasedNext` | lsi11/dev_rh11.c:221-259 | with sectors from one the next address is the next block if and only if the sector is 1 to 20 |
| `RhDisk.AheadInOrder` | lsi11/dev_rh11.c:221-259 | from zero, the address j sectors on is block l + j, until the cylinder wraps |
| `RhDisk.ConsecutiveMeansRoom` | lsi11/dev_rh11.c:221-259 | the sectors a transfer touches follow each other on the disk if and only if they fit: before the cylinder wraps, or, with sectors from one, in the track up to number 21 |
| `RhDisk.OneBasedWitness` | lsi11/dev_rh11.c:221-259 | two sectors from number 21 that are not next to each other |
| `RhDisk.Controller.Step` | lsi11/dev_rh11.c:303-328 | the bus address moves by two modulo its width unless inhibited |
| `RhDisk.Controller.Transfer` | lsi11/dev_rh11.c:465-608 | as for the RM05, for sectors numbered from zero or one, where the sectors touched follow each other; the registers always end floor(i / 256) addresses on |

## Left out

- Host I/O failures, allocation failures, tracing, environment variables and register
  devices: images are sequences that read as zero past their end and can always be
  written.
- FIS instructions, which use the host's own floating point.
- Ordinary instructions, branches and the processors other than the DCJ11, but for the
  interrupt masks.
- FP11 operand addressing, instruction decoding and the traps taken after an exception;
  the exception code and status that lead to them are modelled.
- FpAdd.AddWithinOneUlp: like its counterparts for products and quotients, says nothing
  of results that overflow or underflow, whose value wraps or is cleared by the status
  rules in `FpPack.Fpu.RoundAndPack`.
- Mmu: what the processor's own registers hold (an access to one is reported as such),
  the trap taken after a fault, and buses other than plain memory of 4 MB.
- Mmu: what instructions add to SSR1, which is in `Restart`.
- Mmu.Mmu.Step: where a window does hide a register, whether a store reaches memory or
  the register depends on when the window was last rebuilt; `Mmu.Mmu.Store` says which,
  and `Mmu.Mmu.Load` says that a load reaches memory.
- Banks: yellow and red stack traps, vectors or frames that fault, and address
  translation; memory is the same for every mode.
- Restart: what operands are used for. An instruction meets the memory that it is given
  up to its last access, and its results go to registers after that; TSTSET, which sets
  R0 before its store, is not part of the model, nor are stack limit traps.
- Restart.Cpu.Execute: the register results of an instruction are not modelled, so the
  registers it leaves are those after its last access.
- Irq.Deliver: an abort while a vector is taken, which ends the loop earlier.
- Irq.Deliver: asks that every source has a priority of at least one and a vector whose
  PSW does not lower the granted level (`Irq.ZeroIsGrantedForEver` shows why).
- TapeCodec.RoundTrip: unit lengths of one, for which every short strobe is a glitch,
  and from 4096, for which the long pulse takes two strobes; and the name as a C string.
- The tape motor, its timing, and the output that the program itself writes.
- TapDrive: command packets and status codes, the mapping of bus addresses, and the
  rules of the host's stdio about switching between reading and writing.
- RqPort: the MSCP commands themselves (what they answer and transfer is a parameter of
  each step, kept off the rings), the byte order of packets in memory, and running host
  and port at the same time; each poll and each host write is one step.
- Disks: unit selection, the attached-drive checks, the UNIBUS map, images of an odd
  number of bytes, and the status register bits apart from those named.
- RhDisk.Controller.Transfer: where the sectors touched do not follow each other on the
  disk, only the registers, the flags and the memory are stated.
- RK11 and RL11 transfers, which repeat the argument.
