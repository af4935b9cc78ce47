# A verified model of the connectivity framework's core algorithms

The framework runs on dual-core wireless microcontrollers. Most of it drives hardware; this project models the parts
that are algorithms and state machines, and proves what they promise. `dafny verify dfyconfig.toml` checks everything.

- **Hardware parameters in flash** (`services/HWParameter/HWParameter.c`). Two records, PROD_DATA and App Factory Data,
  share one erase sector with a reserved area. `HwParameter.dfy` says what each function does to flash and RAM, with
  every answer the flash driver and the allocator may give; `HwParameterStore.dfy` is the code over a flash array and
  proves that it does just that; `TwoSlotStore.dfy` proves that over every fault-free run it refines a store of two
  slots in which no erase exists; `HwParameterRead.dfy` proves exactly which bytes reading accepts,
  `HwParameterFaults.dfy` what survives a fault or corruption, and `HwParameterRuns.dfy` what holds over runs in which
  any call may fail. `NorFlash.dfy` is the flash: an erase sets bits, programming clears them.
- **The CRC of both records** (`Crc16.dfy` over the polynomials of `Gf2.dfy` and the long division of
  `Gf2Division.dfy`): the table-free loop is division by the generator of ITU-T Recommendation V.41, section 2, hence no
  short error burst goes unnoticed. `Crc16Powers.dfy` proves the generator's period to be 32767, and
  `Crc16Detection.dfy` that no odd number of flipped bits and no two of them within a record go unnoticed either.
- **The radio arbiter** (`services/MWSCoexistence/MWS.c`): `Mws.dfy` has ownership, lock count and callbacks as an event
  log, `MwsChain.dfy` the priority chain and whole runs, `MwsLateRelease.dfy` what a preempted protocol's release does,
  `MwsLedger.dfy` what callers can tell from their calls alone, `MwsArbiter.dfy` the code with its list threaded
  through an array. The four protocols are generalised to any number with distinct priorities.
- **The CRC-32 of the file system port**: two nibble lookups a byte against the bitwise definition (`Crc32.dfy`), and
  that against division by the generator of IEEE Std 802.3 (`Crc32Division.dfy`).
- **The tickless timebases** (`Systicks.dfy`, `SysticksBm.dfy`): no time is lost over unbounded sleep and wake runs.
- **Memory routines** (`MemoryRoutines.dfy`): word-wise reversal, overlap-safe copy, alignment-driven copy.
- **The inter-core service** (`NbuApi.dfy`, `RxQueue.dfy`): argument marshalling, and received messages handed from the
  interrupt to the work queue's thread with the interrupt arriving between any two of the thread's steps.
- **Arithmetic and flash loops**: the temperature filter (`TemperatureFilter.dfy`), the 56-bit time stamp
  (`Timestamp.dfy`), the OTA copy loop (`OtaCopy.dfy`) and the erase planner (`ErasePlan.dfy`).
- Shared: `Arithmetic.dfy`, `MachineWords.dfy`, `Intervals.dfy`, `ByteValue.dfy`.

## Fixed choices

- The hardware-parameter store is configured with IFR placement, factory-data extension on, preserve-on-update on,
  `IFR_RSVD_SZ` 0x600, `PROD_DATA_LEN` 0x80 and `APP_FACTORY_DATA_MAX_LEN` 0x800. The sector size is left open: any
  size below 2^32 that holds the three regions. `HAL_FlashEraseSector` erases the sector its address lies in.
- A failing program call may have written any number of leading bytes, and a failing erase may have raised any bits of
  the sector. Which calls and allocations fail, and how, is a parameter (`Hal`).
- A check that follows a record length out of the sector ends the call: the model knows no memory there
  (`Status.OutOfArea`).
- `gMWS_UsePrioPreemption_d` is 1. What callbacks answer is a parameter; only the Idle callback re-enters the arbiter,
  and only to acquire, on behalf of registered protocols.
- The OS tick counter is an unbounded number; the tick period is any one up to 2^32 microseconds.
- Where C wraps, the model writes the remainder by 2^32 or 2^64 out and the theorems say exactly when it matters.

## What the code does and its documentation does not say

- `services/HWParameter/HWParameter.h` promises that an unreadable record fills the RAM structure with 0xFF and returns
  1. The code returns 1 without filling (RAM is all 0xFF whenever nothing is loaded) and returns 4 on blank flash.
  When `HAL_FlashInit` fails it returns 0 with a null pointer. The model follows the code.
- `NV_WriteHWParameters` reports success without writing when RAM and flash agree up to the CRC, so retrying a write
  that was torn in its padding reports success over an invalid record. `WriteReportsTruth` says exactly when a reported
  success means a valid record; `RetryAfterTornWrite` is the failing family.
- The total record length is a 32-bit sum, so the length guard of `NvExtendedFactoryDataValid` also admits lengths of
  2^32-22 and more (`CheckCases`). A factory-data write, a restore or an erase torn in the record's header can leave
  such a length; `TornLength`, `HeaderWraps` and `LeavesWrap` say which, `RunWrapsExactly` that nothing else does, and
  `RunStuck` that no later call gets rid of it.
- `Nv_WriteAppFactoryData` loses the reserved area and unsaved edits of the RAM copy when it has to erase
  (`ReservedAreaSurvives`, `PendingEditSurvives`, `NeighboursLost`).
- `HWParametersErase` tells nothing of a failure: RAM then reads as blank over a record still in flash
  (`EraseErasesExactly`).
- Only ten of the sixteen characters of the factory-data identifier are compared (`GetExactly`).
- The release a preempted protocol still owes is refused only while another protocol owns the transceiver; it ends a
  session the protocol has begun in the meantime (`LateReleaseIsNoOp`, `LateReleaseEndsNewSession`).
- A message that arrives before the work queue is started is serviced in the interrupt and, if another arrives after,
  once more by the queue (`ServicedHowOften`).
- Overlapping source and destination of `FLib_MemCpyReverseOrder` are reversed only if no byte that is overwritten before
  it is read differs from the one at its destination (`ReversedExactly`).
- An OTA image whose source reaches into the range erased for it loses that part (`ArrivesExactly`).
- An external-flash erase that ends less than a sector below 4 GiB wraps and misses sectors (`ErasesTheRange`).
- An accumulated error of 2^32 ticks or more never drains (`DrainsExactly`, `HugeErrorNeverDrains`); one untimed sleep
  can leave it (`UntimedSleep`).

## Model

| member | source | states |
|---|---|---|
| Crc16.ComputeCrc | services/HWParameter/HWParameter.c:115-138 | the nested loops compute the CRC function over the covered bytes, without reading outside them |
| Crc16.MixByte | services/HWParameter/HWParameter.c:122-135 | the inner loop's eight shifts mix one byte into the register |
| Crc16.CrcIsFeed | services/HWParameter/HWParameter.c:122-135 | mixing a byte in up front and shifting eight times is feeding its bits one at a time to the division register |
| Crc16.FeedIsRemainder | services/HWParameter/HWParameter.c:115-138 | M(x)*x^16 = Q(x)*G(x) + register(x) over GF(2), for every message |
| Gf2Division.DivideIsRemainder | services/HWParameter/HWParameter.c:115-138 | division one message bit at a time by any generator gives M(x)*x^d = Q(x)*G(x) + remainder |
| Gf2Division.BurstLeavesRemainder | services/HWParameter/HWParameter.c:115-138 | no burst no longer than the degree of the generator is divided by it |
| Crc16.CrcIsRemainder | services/HWParameter/HWParameter.c:115-138 | the CRC is the remainder of M(x)*x^16 by x^16+x^12+x^5+1 (section 2 of ITU-T Recommendation V.41), and the only one |
| Gf2.RemainderUnique | services/HWParameter/HWParameter.c:115-138 | quotient and remainder by a polynomial with leading and constant coefficient 1 are unique |
| Gf2.MultipleIsWide | services/HWParameter/HWParameter.c:115-138 | a nonzero multiple of the generator has two coefficients at least its degree apart |
| Crc16.CrcXor | services/HWParameter/HWParameter.c:115-138 | the CRC of the bytewise exclusive or of two equally long buffers is the exclusive or of their CRCs |
| Crc16.ZeroRegisterIsWide | services/HWParameter/HWParameter.c:115-138 | a nonzero message with CRC 0 has two set bits at least 16 apart |
| Crc16.BurstChangesCrc | services/HWParameter/HWParameter.c:180-192 | no nonzero error within 16 consecutive bits, at any position and length, leaves the CRC unchanged |
| Crc16Detection.OddChangesCrc | services/HWParameter/HWParameter.c:180-192 | no error in an odd number of bits, at any positions and length, leaves the CRC unchanged |
| Crc16Detection.PairChangesCrc | services/HWParameter/HWParameter.c:180-192 | two flipped bits leave the CRC unchanged if and only if their distance is a multiple of 32767 |
| Crc16Detection.DetectableChangesCrc | services/HWParameter/HWParameter.c:180-192 | so every burst, odd or two-bit error in up to 4095 bytes changes the CRC |
| Crc16Powers.PeriodExactly | services/HWParameter/HWParameter.c:122-135 | x^n is 1 modulo the generator exactly for the multiples of 32767 |
| Crc16Powers.PowerSquared | services/HWParameter/HWParameter.c:122-135 | doubling the number of register steps squares the register as a polynomial |
| Crc16.CrcAppended | services/HWParameter/HWParameter.c:115-138 | two appended bytes bring the CRC to 0 exactly when they are the CRC, high byte first |
| Crc16.StoredRoundTrip | services/HWParameter/HWParameter.c:180-192 | the two stored bytes read back as a CRC value exactly when they are its low and high byte |
| NorFlash.ProgramBlank | services/HWParameter/HWParameter.c:320-324 | programming blank flash stores the data and leaves the bytes behind it |
| NorFlash.ProgramAgain | services/HWParameter/HWParameter.c:329-352 | programming back what flash already holds, or a leading part of it, changes nothing |
| NorFlash.ProgramLowers | services/HWParameter/HWParameter.c:317-324 | programming raises no bit, neither of the flash nor of the data |
| HwParameter.Le32RoundTrip | services/HWParameter/HWParameter.c:645 | the declared length of a factory-data record reads back |
| TwoSlotStore.ProdImageFacts | services/HWParameter/HWParameter.c:180-192 | a sealed production record passes the check and yields its content, and blank flash does not pass |
| TwoSlotStore.AppPrefixFacts | services/HWParameter/HWParameter.c:195-236 | flash that starts with identifier, length, body and CRC field is judged by the length limits and the CRC alone |
| TwoSlotStore.AppImageFacts | services/HWParameter/HWParameter.c:195-236 | a factory-data record passes the check exactly when its length is readable, and yields its payload |
| HwParameter.CheckCases | services/HWParameter/HWParameter.c:195-236 | the length guard admits a record exactly if its length is readable or at least 2^32-22, and then the check leaves the sector; every other outcome is exact too |
| HwParameterRead.IdentifiersSpell | services/HWParameter/HWParameter.c:96-98 | the identifier bytes are the character codes of "PROD_DATA:" and "APP_FACT_DATA:  " |
| HwParameterRead.ProdValidExactly | services/HWParameter/HWParameter.c:180-192 | any 128 bytes pass the identifier and CRC check if and only if they are the record of their own content, byte for byte |
| HwParameterRead.ReadExactly | services/HWParameter/HWParameter.c:393-513 | a first read reports blank, success or error exactly if the region is blank, such a record, or neither, and fills RAM from it in the first two cases only; any other read changes nothing |
| HwParameterRead.DeclaresExactly | services/HWParameter/HWParameter.c:202-219 | a length field declares n if and only if it holds n, low byte first |
| HwParameterRead.GetExactly | services/HWParameter/HWParameter.c:195-236 | reading factory data returns p if and only if p has a readable length and the region holds the record of p, but for the six identifier bytes never compared |
| TwoSlotStore.WriteProdIs | services/HWParameter/HWParameter.c:239-354 | a fault-free production write changes its own slot, and drops only a factory-data record that could not be read anyway |
| TwoSlotStore.WriteAppIs | services/HWParameter/HWParameter.c:571-672 | a fault-free factory-data write changes its own slot, and on an erase reloads RAM from the saved record and blanks the reserved area |
| TwoSlotStore.StepRefines | services/HWParameter/HWParameter.c:393-709 | every fault-free operation on the image of two slots gives the image of the slots after the slot operation, and its status |
| TwoSlotStore.RunRefines | services/HWParameter/HWParameter.c:393-709 | so does every sequence of them: flash and RAM are at all times the one image of the two slots |
| TwoSlotStore.RunKeepsRecords | services/HWParameter/HWParameter.c:393-709 | along every run each region is blank or a valid record of what its slot holds, and reading factory data reports which |
| TwoSlotStore.ProdSlotIndependent | services/HWParameter/HWParameter.c:571-672 | over any run, nothing but the production write and erase changes the production slot |
| TwoSlotStore.AppSlotIndependent | services/HWParameter/HWParameter.c:239-354 | over any run, nothing but a factory-data write changes a readable factory-data slot |
| TwoSlotStore.WriteThenRead | services/HWParameter/HWParameter.c:523-569 | write, reset, read returns the content written, and reads as blank exactly for all-0xFF RAM on blank flash |
| TwoSlotStore.WriteAppThenGet | services/HWParameter/HWParameter.c:571-688 | factory data written is read back exactly when its length is 1 up to the limit, null is returned otherwise, and the production record stays |
| HwParameterFaults.WriteProdUntouched | services/HWParameter/HWParameter.c:251-328 | a failed init or allocation, an erase that fails without raising a bit, or a wrapping record length leaves the whole sector as it was; which of them ends the call |
| HwParameterFaults.TornErase | services/HWParameter/HWParameter.c:309-352 | an erase that fails halfway is reported, and the sector is then what was put aside, as far as it was restored, over the raised bits |
| HwParameterFaults.TornEraseGains | services/HWParameter/HWParameter.c:309-352 | such a call loses no bit of the sector, and nothing at all of what is restored |
| HwParameterFaults.WriteProdKeepsApp | services/HWParameter/HWParameter.c:329-352 | whatever else fails, each saved area whose restore succeeds survives a production write |
| HwParameterFaults.KeptStillValid | services/HWParameter/HWParameter.c:195-236 | a record kept byte for byte still passes the check and yields the same payload |
| HwParameterFaults.WriteProdHonest | services/HWParameter/HWParameter.c:239-354 | success is reported only with the record in place and everything else kept |
| HwParameterFaults.WriteReportsTruth | services/HWParameter/HWParameter.c:523-569 | a reported success means the RAM content is in flash, as a valid record exactly if it was written anew or valid before |
| HwParameterFaults.RetryAfterTornWrite | services/HWParameter/HWParameter.c:540-545 | after a first write torn in 0xFF padding the retry reports success and the record is invalid, unless its CRC is 0xFFFF |
| HwParameterFaults.WriteKeepsEdits | services/HWParameter/HWParameter.c:523-569 | however a production write ends, RAM keeps its content, and is sealed exactly if it was or the write got past the comparison |
| HwParameterFaults.EraseErasesExactly | services/HWParameter/HWParameter.c:696-709 | after an erase, which never tells a failure, RAM is blank, and the production region exactly if it was or an erase was reached that blanked it |
| HwParameterFaults.WriteAppKeepsProd | services/HWParameter/HWParameter.c:656-665 | a valid production record survives a factory-data write whose restore succeeds |
| HwParameterFaults.WriteAppHonest | services/HWParameter/HWParameter.c:571-672 | success is reported only with the record in flash and a valid production record kept |
| HwParameterFaults.ReservedAreaSurvives | services/HWParameter/HWParameter.c:608-632 | from any flash and under any faults, the reserved area survives a factory-data write exactly if no erase is needed, it was blank, or a torn erase spares it |
| HwParameterFaults.PendingEditSurvives | services/HWParameter/HWParameter.c:609-625 | from any flash and under any faults, RAM edits survive a factory-data write exactly if no erase is needed, the region holds no valid record, or there are no edits |
| HwParameterFaults.NeighboursLost | services/HWParameter/HWParameter.c:608-632 | replacing factory data loses both |
| HwParameterFaults.CorruptProdRejected | services/HWParameter/HWParameter.c:491-507 | a production record with an odd number of bits, two bits or a burst of 16 flipped in its content is refused and RAM is left alone |
| HwParameterFaults.CorruptAppRejected | services/HWParameter/HWParameter.c:195-236 | a factory-data record with such an error in its payload fails with the CRC error |
| HwParameterRuns.TornHeader | services/HWParameter/HWParameter.c:202-219 | a record torn after k bytes on blank flash reads with a wrapping length exactly if 10 <= k < 20 and its length bytes, those not reached being 0xFF, make one |
| HwParameterRuns.PatchedWraps | services/HWParameter/HWParameter.c:202-219 | the header left by a torn erase and a restore of k bytes has a wrapping length exactly if its bytes, so raised and restored, spell one |
| HwParameterRuns.StepWrapsExactly | services/HWParameter/HWParameter.c:239-709 | under every combination of driver and allocator outcomes an operation leaves a wrapping length exactly if it is a factory-data write, restore or erase torn so |
| HwParameterRuns.RunWrapsExactly | services/HWParameter/HWParameter.c:239-709 | over every run under arbitrary driver and allocator outcomes no length wraps at the end exactly if none of its operations was torn so |
| HwParameterRuns.WrapSticks | services/HWParameter/HWParameter.c:239-709 | no operation changes a region with a wrapping length |
| HwParameterRuns.RunStuck | services/HWParameter/HWParameter.c:239-709 | nor does any run, and reading the factory data leaves the sector ever after |
| HwParameterRuns.OutOfAreaExactly | services/HWParameter/HWParameter.c:239-709 | an operation leaves the sector exactly if it consults a record with a wrapping length |
| HwParameterRuns.GetOutOfAreaExactly | services/HWParameter/HWParameter.c:674-688 | so does reading the factory data |
| HwParameterRuns.FirstWriteTorn | services/HWParameter/HWParameter.c:647-651 | a first factory-data write torn behind the identifier is reported and leaves a wrapping length |
| HwParameterRuns.LengthErased | services/HWParameter/HWParameter.c:626-632 | so does an erase torn when it has raised the length of a record but none of its identifier |
| HwParameterRuns.FactoryDataSurvives | services/HWParameter/HWParameter.c:239-354 | over every run without factory-data writes in which restores succeed, whatever else fails, valid factory data reads back unchanged |
| HwParameterRuns.ProdDataSurvives | services/HWParameter/HWParameter.c:571-672 | over every run without production writes in which restores succeed, whatever else fails, a valid production record stays byte for byte |
| HwParameterStore.Store.HalFlashProgram | services/HWParameter/HWParameter.c:317-324 | a driver call at a region's address programs that region and no other, as far as it gets |
| HwParameterStore.Store.HalFlashEraseSector | services/HWParameter/HWParameter.c:309-314 | an erase blanks the sector or, failing, raises some of its bits |
| HwParameterStore.Store.NvExtendedFactoryDataValid | services/HWParameter/HWParameter.c:195-236 | the error code and total length of the record in flash, never more than the limit, with the 32-bit sum; or that the check leaves the sector |
| HwParameterStore.Store.ProdDataValid | services/HWParameter/HWParameter.c:180-192 | true exactly for the region ProdValidExactly describes: the identifier, any content, and its CRC |
| HwParameterStore.Store.RestoreSaved | services/HWParameter/HWParameter.c:329-352 | what was put aside is programmed back whatever happened before, and a failure to do so is reported |
| HwParameterStore.Store.SaveNeighbours | services/HWParameter/HWParameter.c:267-308 | what is put aside before the erase, and whether the call goes on, fails or leaves the sector |
| HwParameterStore.Store.NvWriteProdData | services/HWParameter/HWParameter.c:239-354 | the whole new sector and the status, for every driver and allocator outcome |
| HwParameterStore.Store.NV_WriteHWParameters | services/HWParameter/HWParameter.c:523-569 | the whole new state and the status of a production write |
| HwParameterStore.Store.SealRam | services/HWParameter/HWParameter.c:547-555 | identifier and CRC are filled in around unchanged content |
| HwParameterStore.Store.HWParametersReset | services/HWParameter/HWParameter.c:690-694 | RAM is all 0xFF and nothing is loaded; flash is unchanged |
| HwParameterStore.Store.HWParametersErase | services/HWParameter/HWParameter.c:696-709 | an all-0xFF production write whose status is ignored, if it returns |
| HwParameterStore.Store.NV_ReadHWParameters | services/HWParameter/HWParameter.c:393-513 | the new RAM state and the status: those of ReadHwParameters, which ReadExactly tells from the bytes of the region |
| HwParameterStore.Store.Nv_GetAppFactoryData | services/HWParameter/HWParameter.c:674-688 | the stored payload, null when the record is not valid, or that the check leaves the sector |
| HwParameterStore.Store.Nv_WriteAppFactoryData | services/HWParameter/HWParameter.c:571-672 | the whole new state and the status of a factory-data write, for every driver outcome |
| HwParameterStore.Store.SealAppData | services/HWParameter/HWParameter.c:637-645 | the caller's buffer becomes a complete record around its payload |
| HwParameterStore.Store.RestoreProd | services/HWParameter/HWParameter.c:656-665 | the saved production record is programmed back, and a failure to do so is reported |
| Mws.AcquireKeepsInv | services/MWSCoexistence/MWS.c:226-276 | an acquire keeps the log legal and in step with owner and count, succeeds exactly for the owner afterwards, and never frees a taken radio |
| Mws.AbortKeepsInv | services/MWSCoexistence/MWS.c:331-351 | so does an abort, which frees the radio exactly when it succeeds |
| Mws.ReleaseKeepsInv | services/MWSCoexistence/MWS.c:287-323 | so does a release, through all re-entrant acquires of Idle callbacks |
| Mws.SignalIdleKeepsInv | services/MWSCoexistence/MWS.c:377-402 | so does the idle notification |
| Mws.LockCountTellsOwner | services/MWSCoexistence/MWS.c:226-323 | the lock count equals the owner's outstanding acquires below 2^32, and is zero exactly without an owner unless they are a multiple of 2^32 |
| Mws.ReleaseEndsSession | services/MWSCoexistence/MWS.c:295-307 | an owner's release ends the session exactly when it returns its last acquire modulo 2^32, and otherwise changes only the count |
| Mws.ReleaseRefused | services/MWSCoexistence/MWS.c:287-323 | in any state a release is refused and changes nothing if and only if another protocol owns the radio |
| MwsLateRelease.LateReleaseIsNoOp | services/MWSCoexistence/MWS.c:287-323 | so at every state a run reaches after a protocol was preempted in it; if that protocol owns the radio again its release is taken from the new session |
| MwsLateRelease.LateReleaseEndsNewSession | services/MWSCoexistence/MWS.c:295-317 | a run in which such a release ends a session the protocol began when told the radio was idle |
| Mws.UnforcedAcquire | services/MWSCoexistence/MWS.c:247-271 | without force an owner only gives way to a strictly smaller priority value |
| Mws.PreemptionsBounded | services/MWSCoexistence/MWS.c:247-271 | at most N-1 preemptions in a row without force, whatever Abort callbacks answer |
| Mws.SignalIdleNotifies | services/MWSCoexistence/MWS.c:377-402 | the others are told in chain order up to the first that acquires, the releaser never; somebody owns the radio afterwards exactly if somebody acquired |
| MwsLedger.AcquireExactly | services/MWSCoexistence/MWS.c:226-276 | an acquire succeeds if and only if the radio is idle, the caller's own, or the caller has force or strictly smaller priority value and the owner's Abort callback answers 0; which callbacks are made, and that a denied acquire leaves owner and count alone |
| MwsLedger.AbortExactly | services/MWSCoexistence/MWS.c:331-351 | an abort succeeds if and only if the radio is idle or the owner's callback answers 0; otherwise owner and count stay |
| MwsLedger.AcquireCounts | services/MWSCoexistence/MWS.c:235-271 | a granted acquire counts one more for the owner and 1 for anybody else, a denied one changes no count |
| MwsLedger.ReleaseNotifies | services/MWSCoexistence/MWS.c:287-323 | a release on an idle radio and the owner's last one tell the others, in chain order up to the first that acquires; any other tells nobody |
| MwsLedger.RunKeepsLedger | services/MWSCoexistence/MWS.c:226-402 | over every run the owner, and modulo 2^32 the lock count, are those of a ledger kept from the calls and their statuses alone, re-entrant acquires included |
| MwsLedger.RunRegisters | services/MWSCoexistence/MWS.c:136-164 | over every run the chain holds exactly the protocols registered in it, and each got one Init callback, in order of first registration |
| MwsChain.InsertSorted | services/MWSCoexistence/MWS.c:420-455 | inserting a new protocol keeps the chain strictly sorted |
| MwsChain.InsertElements | services/MWSCoexistence/MWS.c:420-455 | and adds that protocol and no other |
| MwsChain.SplicedIn | services/MWSCoexistence/MWS.c:432-452 | the two array writes behind the last smaller priority give the linked list of the inserted chain |
| MwsChain.ChainIsSorted | services/MWSCoexistence/MWS.c:136-164 | after any registrations the chain is exactly the registered protocols in strictly increasing priority value |
| MwsChain.ChainIgnoresOrder | services/MWSCoexistence/MWS.c:136-164 | the order and repetition of registrations do not matter |
| MwsChain.StepKeepsInv | services/MWSCoexistence/MWS.c:136-455 | every operation keeps legal log, count, owner and sorted chain |
| MwsChain.RunKeepsInv | services/MWSCoexistence/MWS.c:136-455 | in every reachable state sessions have never overlapped, and log, owner, count and chain agree |
| MwsArbiter.Arbiter.MWS_Register | services/MWSCoexistence/MWS.c:136-164 | the new system state, including the threaded list, and the status |
| MwsArbiter.Arbiter.MWS_SetPriority | services/MWSCoexistence/MWS.c:420-455 | the list threaded through the array is an acyclic list of the inserted chain; the walk terminates |
| MwsArbiter.Arbiter.MWS_Acquire | services/MWSCoexistence/MWS.c:226-276 | owner, count, callbacks and status as Acquire has them, of which AcquireExactly and AcquireCounts tell when it succeeds and what it counts; the list is untouched |
| MwsArbiter.Arbiter.MWS_Release | services/MWSCoexistence/MWS.c:287-323 | the new owner, count, callbacks and status, with re-entrant acquires; the list is untouched |
| MwsArbiter.Arbiter.MWS_Abort | services/MWSCoexistence/MWS.c:331-351 | owner, count, callbacks and status as AbortOwner has them, of which AbortExactly tells when it succeeds; the list is untouched |
| MwsArbiter.Arbiter.MWS_SignalIdle | services/MWSCoexistence/MWS.c:377-402 | the walk along the array terminates and makes the callbacks of the chain walk |
| Crc32.LookupIsFourUpdates | platform/imx_rt/configs/fwk_lfs_config.c:12-23 | every table entry and shift is four bitwise updates, for every 32-bit value |
| Crc32.TableStepIsEightUpdates | platform/imx_rt/configs/fwk_lfs_config.c:19-23 | two lookups are eight updates with the byte mixed in (section 3.2.9 of IEEE Std 802.3) |
| Crc32.LfsCrc | platform/imx_rt/configs/fwk_lfs_config.c:10-26 | the table loop equals the bitwise CRC-32, for every seed and buffer; CrcIsRemainder and EveryByteCounts tell what that is |
| Crc32.CrcChains | platform/imx_rt/configs/fwk_lfs_config.c:10-26 | a buffer may be split anywhere and the calls chained |
| Crc32Division.CrcIsFeed | platform/imx_rt/configs/fwk_lfs_config.c:10-26 | the CRC is the division register fed with the message bits, each byte least significant bit first, for every seed |
| Crc32Division.CrcIsRemainder | platform/imx_rt/configs/fwk_lfs_config.c:10-26 | from seed 0 it is the remainder of M(x)*x^32 by x^32 + 0x04C11DB7 (section 3.2.9 of IEEE Std 802.3), and the only one |
| Crc32Division.CrcXor | platform/imx_rt/configs/fwk_lfs_config.c:10-26 | the CRC is linear in seed and data together |
| Crc32Division.BurstChangesCrc | platform/imx_rt/configs/fwk_lfs_config.c:10-26 | no nonzero error within 32 consecutive bits, at any position and length, leaves the CRC unchanged, whatever the seed |
| Crc32Division.EveryByteCounts | platform/imx_rt/configs/fwk_lfs_config.c:10-26 | in particular changing any one byte changes the CRC |
| Systicks.Timebase.PWR_SysticksPreProcess | services/LowPower/PWR_systicks.c:45-125 | the new error, tick count and SysTick state, and whether and how long to sleep, as PreDecides and PreDrains tell |
| Systicks.Timebase.PWR_SysticksPostProcess | services/LowPower/PWR_systicks.c:127-160 | the new error and tick count after a sleep, SysTick running |
| Systicks.PreConserves | services/LowPower/PWR_systicks.c:53-121 | ticks times period plus error is unchanged, no subtraction underflows, at most the idle time is stepped, SysTick runs exactly on aborts |
| Systicks.PostConserves | services/LowPower/PWR_systicks.c:127-160 | ticks times period plus error grows by exactly the sleep, if and only if the 64-bit error does not wrap |
| Systicks.PostWithinIdleTime | services/LowPower/PWR_systicks.c:132-158 | no more than the announced idle time is stepped, if and only if it is positive or less than a tick was slept |
| Systicks.PassConserves | services/LowPower/PWR_systicks.c:45-160 | one pass of the idle loop conserves time, modulo 2^64 always and exactly below it |
| Systicks.RunConservesExactly | services/LowPower/PWR_systicks.c:45-160 | over every run ticks times period plus error equals the total sleep reported if and only if no pass overflows the 64-bit error |
| Systicks.RunConserves | services/LowPower/PWR_systicks.c:45-160 | in particular on every run with less than 2^64 microseconds of error and sleep in all |
| Systicks.PreDecides | services/LowPower/PWR_systicks.c:53-121 | the idle loop aborts if and only if there are visible error ticks or the kernel says so; the sleep announced is unlimited exactly if no task waits or the idle time is 0, and otherwise the idle time in whole ticks |
| Systicks.TimedSleep | services/LowPower/PWR_systicks.c:45-160 | a timed sleep steps the whole ticks slept, at most those announced, and leaves the rest as error |
| Systicks.PunctualSleep | services/LowPower/PWR_systicks.c:45-160 | a sleep of exactly the announced length becomes that many ticks and leaves the error as it was |
| Systicks.PreDrains | services/LowPower/PWR_systicks.c:53-81 | one call takes min(idle time, visible ticks) off the error, visible being the ticks modulo 2^32, and never any of the hidden multiples of 2^32 ticks |
| Systicks.PreDrainsAll | services/LowPower/PWR_systicks.c:53-81 | as many calls with positive idle times as there are visible ticks leave none; hidden ones stay over every sequence of calls |
| Systicks.DrainsExactly | services/LowPower/PWR_systicks.c:53-81 | enough calls with positive idle times bring the error below one tick if and only if it is below 2^32 ticks |
| Systicks.HugeErrorNeverDrains | services/LowPower/PWR_systicks.c:53-81 | from 2^32 ticks on no sequence of calls whatever brings the error below 2^32 ticks |
| Systicks.UntimedSleep | services/LowPower/PWR_systicks.c:144-151 | one untimed sleep without prior error leaves such an error exactly if it lasts 2^32 ticks or more |
| SysticksBm.Timebase.PWR_SysticksPostProcess | services/LowPower/PWR_systicks_bm.c:74-128 | the new error and tick count after a sleep |
| SysticksBm.SleepsAccountExactly | services/LowPower/PWR_systicks_bm.c:95-119 | over any sleeps with any reload values, ticks times their reload values plus the carried error equal the total count if and only if no sum of error and count overflows 64 bits |
| SysticksBm.WakeAccounts | services/LowPower/PWR_systicks_bm.c:95-119 | one wake-up accounts for the whole sleep or, overflowing, loses 2^64 counts; the carried error is below the reload value |
| SysticksBm.DividesTotalExactly | services/LowPower/PWR_systicks_bm.c:95-119 | with one reload value ticks and error are quotient and remainder of the total exactly when nothing overflows |
| SysticksBm.ConstantAccount | services/LowPower/PWR_systicks_bm.c:95-119 | with one reload value the counts issued are ticks times it and the carried error stays below it |
| SysticksBm.SleepsDivideTotal | services/LowPower/PWR_systicks_bm.c:95-119 | so incremental accounting equals one division on all counts up to 2^64 minus the reload value |
| SysticksBm.LongCountLosesTicks | services/LowPower/PWR_systicks_bm.c:95-110 | a count that overflows 64 bits on top of the error loses ticks |
| MemoryRoutines.ReverseByteOrderInPlace | services/FunctionLib/FunctionLib.c:573-616 | the buffer is exactly reversed on the byte and the word path, and nothing else changes |
| MemoryRoutines.ReversedTwice | services/FunctionLib/FunctionLib.c:573-616 | reversing twice gives the original |
| MemoryRoutines.MemCpyReverseOrder | services/FunctionLib/FunctionLib.c:236-277 | for every overlap, on both paths: each destination byte is the opposite source byte or, where that was overwritten before it is read, unchanged; hence the reversed source when disjoint, and on the word path also when coinciding or at most two words |
| MemoryRoutines.ReversedExactly | services/FunctionLib/FunctionLib.c:236-277 | the source arrives reversed if and only if each byte overwritten before it is read equals the one at its destination |
| MemoryRoutines.NothingGone | services/FunctionLib/FunctionLib.c:236-277 | placements for which no byte is overwritten before it is read |
| MemoryRoutines.PalindromeExactly | services/FunctionLib/FunctionLib.c:265-275 | coinciding buffers on the byte path are reversed exactly if they are palindromes |
| MemoryRoutines.MemInPlaceCpy | services/FunctionLib/FunctionLib.c:426-455 | the destination is the original source for every overlap, and nothing else changes |
| MemoryRoutines.MemCpyAligned32bit | services/FunctionLib/FunctionLib.c:113-186 | exactly n bytes are copied for every n and alignment, each address written once and in order, none outside |
| MemoryRoutines.HeadAligns | services/FunctionLib/FunctionLib.c:130-159 | the bytes copied first leave the source word aligned, and there are at most three |
| NbuApi.NbuApiReq | platform/wireless_mcu/fwk_platform_ics.c:307-394 | for every table that has the entries read: the send is reached exactly if every width is 1, 2 or 4, everything fits and each argument is in signed or unsigned range; the buffer holds the payload and no write leaves it |
| NbuApi.PayloadDecodes | platform/wireless_mcu/fwk_platform_ics.c:317-381 | given the format, the payload decodes to the identifier and every argument modulo its width |
| NbuApi.LowByteFirst | platform/wireless_mcu/fwk_platform_ics.c:338-379 | byte k of an encoded argument carries its digit of weight 256^k |
| NbuApi.SentArgumentIsRecovered | platform/wireless_mcu/fwk_platform_ics.c:338-379 | an accepted argument loses nothing but its sign extension |
| NbuApi.AcceptedExactly | platform/wireless_mcu/fwk_platform_ics.c:336-379 | an argument of w bytes is accepted if and only if it is the 32-bit image of a number from -256^w/2 to 256^w-1, and w is 1, 2 or 4 |
| RxQueue.StepKeepsInv | platform/wireless_mcu/fwk_platform_ics.c:493-561 | interrupt, thread step and queue start keep order, flags and no lost wake-up |
| RxQueue.RunKeepsInv | platform/wireless_mcu/fwk_platform_ics.c:493-561 | over every interleaving dispatched, in-flight and pending messages are the deferred arrivals in order, and the interrupt serviced the others |
| RxQueue.LogTells | platform/wireless_mcu/fwk_platform_ics.c:511-561 | a submission fails exactly when the queue is not started, told from the actions of the run alone |
| RxQueue.DrainServicesAll | services/WorkQ/fwk_workq.c:79-119 | once interrupts stop, every deferred message has been dispatched exactly once and in order if and only if there was none or one arrived after the queue was started; else none has been and all are pending |
| RxQueue.ServicedHowOften | platform/wireless_mcu/fwk_platform_ics.c:493-561 | over every run a deferred message is serviced twice exactly if it arrived before the queue was started and another deferred one after, and once otherwise |
| RxQueue.RefusedIsServicedTwice | platform/wireless_mcu/fwk_platform_ics.c:539-544 | a run in which this happens |
| RxQueue.RxService.Submit | services/WorkQ/fwk_workq.c:172-229 | when submission fails, and what it sets otherwise |
| RxQueue.RxService.RxCallBack | platform/wireless_mcu/fwk_platform_ics.c:511-561 | the interrupt step, with the invariant kept |
| RxQueue.RxService.ThreadStep | services/WorkQ/fwk_workq.c:79-119 | each thread step, with the invariant kept |
| TemperatureFilter.Filter.ComputeMMA | platform/wireless_mcu/fwk_platform_sensors.c:282-318 | the result is the average after all samples so far, lies within their bounds, and no 32-bit value overflows |
| TemperatureFilter.Filter.TemperatureReady | platform/wireless_mcu/fwk_platform_sensors.c:226-270 | a value is sent exactly if it left the threshold around the last one sent, so the last one sent is always within it |
| TemperatureFilter.RunBounded | platform/wireless_mcu/fwk_platform_sensors.c:282-318 | over every run of samples in [lo, hi] the sum stays in [N*lo, N*hi] and the output in [lo, hi], with truncating division |
| TemperatureFilter.StepApproaches | platform/wireless_mcu/fwk_platform_sensors.c:301-313 | each step towards a constant input moves the output monotonically, never past it, and strictly nearer until it is there |
| TemperatureFilter.Settles | platform/wireless_mcu/fwk_platform_sensors.c:301-313 | after finitely many equal samples the output is exactly that value, for good |
| TemperatureFilter.Decays | platform/wireless_mcu/fwk_platform_sensors.c:301-313 | after any history k equal samples leave at most ((N-1)/N)^k of what the sum misses to N times their value, and N for rounding |
| TemperatureFilter.StepDecays | platform/wireless_mcu/fwk_platform_sensors.c:307-310 | each step takes off the N-th part of what is missing, within one unit of the sum |
| TemperatureFilter.CDivTruncates | platform/wireless_mcu/fwk_platform_sensors.c:309-313 | the division truncates: it is odd in the dividend, and the remainder has the dividend's sign |
| Timestamp.DeltaIsSubtraction | platform/wireless_mcu/fwk_platform.c:198-215 | the delta is the one number below 2^56 that leads from the first count to the second |
| Timestamp.DeltaRecovers | platform/wireless_mcu/fwk_platform.c:198-215 | any delay below 2^56 ticks is recovered across wrap-around |
| Timestamp.DeltasAdd | platform/wireless_mcu/fwk_platform.c:198-215 | consecutive deltas add up as long as the sum is below 2^56 |
| Timestamp.ScaleFits | platform/wireless_mcu/fwk_platform.c:744-753 | no stage of the conversion overflows 64 bits |
| Timestamp.ScaleMonotone | platform/wireless_mcu/fwk_platform.c:744-753 | the conversion is monotone |
| Timestamp.ScaleLoss | platform/wireless_mcu/fwk_platform.c:744-753 | exactly how much the early shifts lose |
| Timestamp.ScaleBound | platform/wireless_mcu/fwk_platform.c:744-753 | never above floor(d*10^6/32768), at most 16 below it, exact on multiples of 64 ticks |
| Timestamp.ScaleBoundAttained | platform/wireless_mcu/fwk_platform.c:744-753 | the 16 is attained, at 43 ticks |
| Timestamp.DelayInMicroseconds | platform/wireless_mcu/fwk_platform.c:737-757 | the same for the function as a whole, from any start count |
| OtaCopy.Device.CopyAndReboot | platform/mcxw23/fwk_platform_ota.c:70-120 | for a source anywhere in flash: at the reset, reached when no driver call fails, flash starts with the image, save that the part of its source inside the erased range reads 0xFF; flash above the erased range never changes |
| OtaCopy.ArrivesExactly | platform/mcxw23/fwk_platform_ota.c:70-120 | so the image arrives if and only if its source ends up outside the erased range or is 0xFF inside it |
| OtaCopy.Device.Program | platform/mcxw23/fwk_platform_ota.c:57-60 | what the ROM call needs, so what every call is proved to meet: whole phrases, each erased and not programmed since |
| OtaCopy.Device.CopyChunk | platform/mcxw23/fwk_platform_ota.c:95-115 | one round copies its chunk and keeps everything copied before, with one legal program call; however that ends, flash above the erased range is unchanged |
| OtaCopy.ChunkCopied | platform/mcxw23/fwk_platform_ota.c:95-115 | a padded write keeps the bytes copied so far, the source still to be read and the flash still to be written, whatever the padding and wherever the source |
| OtaCopy.PadFits | platform/mcxw23/fwk_platform_ota.c:97-99 | the padded size holds the chunk, fits the buffer, is whole phrases and stays in the erased range |
| OtaCopy.EraseFits | platform/mcxw23/fwk_platform_ota.c:83-87 | the erased length is the fewest whole sectors holding the image, inside flash, also through 32-bit arithmetic and for an empty image |
| ErasePlan.Driver.EraseExternalFlash | platform/wireless_mcu/fwk_platform_extflash.c:92-143 | the driver calls are the plan's, up to and including the first that fails; on success exactly the planned sectors are erased |
| ErasePlan.ErasesTheRange | platform/wireless_mcu/fwk_platform_extflash.c:95-107 | for a positive size the planned sectors are those meeting the range, if and only if it ends at least a sector below 4 GiB |
| ErasePlan.ZeroSize | platform/wireless_mcu/fwk_platform_extflash.c:95-107 | size 0 erases nothing, or the one sector holding an unaligned address |
| ErasePlan.PlanTiles | platform/wireless_mcu/fwk_platform_extflash.c:108-140 | the calls are consecutive pieces of 16, 8 or 1 sectors from start to end, n/16 + (n mod 16)/8 + n mod 8 of them |
| ErasePlan.TilesOnce | platform/wireless_mcu/fwk_platform_extflash.c:108-140 | consecutive pieces are pairwise disjoint and cover exactly the range |
| ErasePlan.NoFewerCalls | platform/wireless_mcu/fwk_platform_extflash.c:117-131 | no set of erases of those sizes that covers exactly the range, and nothing twice, is smaller, in any order |

## Left out

- ECC-fault recovery and the legacy-to-IFR migration of the hardware parameters, and every other placement option.
- Memory outside the sector: a factory-data payload passed in must end inside it, and what a check finds that a wrapping
  record length leads out of the sector is not modelled, only that it gets there.
- HwParameterStore.Store.Nv_GetAppFactoryData: returns the payload as a value, where the code returns a pointer into flash.
- Interrupt masking and OS critical sections: calls are atomic except in `RxQueue`, where steps interleave.
- `MWS_GetInactivityDuration`, and re-entry into the arbiter from callbacks other than Idle.
- The arbiter returns 32-bit callback answers; only zero and nonzero are told apart.
- Reading the low-power timers and converting microseconds to CPU counts in the bare-metal timebase: counts are inputs.
- Alignment faults and toolchain replacements of the memory routines.
- Sending a marshalled request and waiting for the answer; the other core's side of it.
- RxQueue.DrainServicesAll: one work item on one queue; the single-pass variant of the thread for bare metal is not modelled.
- ADC readings, trimming the crystal and sending the temperature; the filter's factor is any positive number, not only powers of two.
- Resetting the device after the OTA copy; the value of the padding bytes behind the image.
- ErasePlan.NoFewerCalls: erases that overlap could cover some ranges in fewer calls.
- The non-volatile storage of `services/NVM/Source/NV_Flash.c`: its two virtual pages and power-cut recovery are a model of their own.
- Register programming, clocks, power management, RPMSG, serial manager, cryptography, file systems and the flash driver.
