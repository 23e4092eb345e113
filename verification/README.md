# Verified models of the emulator's hard parts

A Dafny project that models six parts of a user-mode Linux emulator and proves what they
promise, for every input and over every run.

| part | modules |
|---|---|
| 80-bit soft float (`emu/float80.c`, clients in `emu/fpu.c`) | `NatArith`, `Powers`, `Rounding`, `Float80*`, `Fpu` |
| POSIX record locks (`fs/lock.c`) | `FileLocks`, `RecordLocks`, `LockRuns` |
| translated-block cache (`asbestos/asbestos.c`) | `BlockCache`, `BlockIndex` |
| descriptor tables (`fs/fd.c`, `fs/pipe.c`) | `FdTable`, `FdTableOps`, `FdRefs`, `FdSteps`, `FdReservations`, `FdRuns`, `FdEffects`, `FdClients` |
| poll registrations (`fs/poll.c`) | `Polls`, `PollSet`, `PollRuns`, `PollDeliveries`, `PollLaws`, `PollNotices`, `PollObjects` |
| software TLB (`emu/tlb.c`, `emu/tlb.h`) and page tables (`kernel/memory.c`) | `Tlb`, `TlbCache`, `PageTables` |
| interned inodes and fakefs rows (`fs/inode.c`, `fs/fake.c`) | `InodeTable`, `FakeDb`, `FakeFs` |

`Options` is shared. `dafny verify dfyconfig.toml` checks the whole project.

## How it is built

**Soft float.** A finite number denotes a real. The reference is independent of the code: a
grid of 64-bit significands with unbounded exponents above, and "the rounding of an exact
magnitude in a direction" defined on it by order alone (IEEE 754-2008 section 4.3), proved
unique. Each operation is shown to deliver that rounding of its exact result, or, where the
code does not always, exactly when it does. The rounding mode is a parameter. Machine widths
are subset types, so every intermediate value is checked to fit.

**Locks, descriptors, poll, inodes, blocks.** The code that works in place is a class whose
methods have the source's loops and are proved against functions on plain values; the
protocols are state machines whose steps are what one thread does under one lock, with
theorems over every run. What a step does to every slot, registration, row or lock is stated
apart from how it does it (`FdEffects`, `PollLaws` and the lemmas named for effects).

**TLB.** The reference is access byte by byte, each byte through its own translation. The
translation is a parameter that may change the page it is asked for but moves no other page;
the one the emulator uses is shown to be such. It maps nothing anew either, and then any
program of accesses and mapping changes is the same with the TLB as without.

## What the code does that its comments do not say

- `f80_add` to nearest misrounds one family: exponents exactly 65 apart and either the smaller
  significand is 2^64-1 and the larger odd, or the signs differ, the larger significand is 2^63
  and the smaller 2^63+1 (`Float80Add.AddExactly`, `Float80Add.AddSlipsExample`).
- `u128_normalize_round` misses only below the smallest normal: by rounding twice, or by carrying
  into an unsupported number (`Float80Subnormal.NormalizeRoundExactly`, `Float80Subnormal.MulUnsupported`,
  `Float80Subnormal.MulTieSlips`). In `f80_div` the sticky bit widens the band of lost ties for
  quotients of at least half the smallest normal (`Float80Quotient.DivExactly`, `Float80Quotient.DivTieSlips`).
- `u128_shift_right_round` by exactly 128 to nearest returns 0 for anything above one half
  (`Float80Rounding.ShiftRightRoundExact`). `f80_add` can get there, without effect on its sum.
- `f80_add` lets an infinite operand overflow like a number out of range: where the mode rounds
  that infinity toward zero, the sum is the largest finite number (`Float80Add.AddInfinite`,
  `Float80Add.InfinityLost`).
- `f80_eq` tests its first operand twice when it clears the signs of zeros. It is harmless,
  because two zeros then still compare equal and a zero never equals a non-zero number
  (`Float80Compare.EqIsSame`).
- An open of a fakefs file can intern a row other than the one it fetched, when the file is
  unlinked, its row cleaned up and its number reused before the inode is interned
  (`FakeFs.OpenKeepsItsRow`, `FakeFs.OpenTakesNewRow`). The row it interns does exist, and stays.
- A wake-only registration whose fd is closed never reports the hangup if it was a one-shot that
  had fired, or edge-triggered with a hangup already counted as delivered; otherwise the first scan
  that is accepted reports it (`PollDeliveries.HangupReportedIff`, `PollDeliveries.HangupNever`,
  `PollDeliveries.HangupLost`). The callers, fs/sock.c:5850-5857, register wake-only without the
  one-shot and edge-triggered bits, so they do not meet this.
- Waiters share one notify pipe and each takes a byte when it comes back, whatever woke it. With
  several waiters one can be left asleep beside an event that another refused
  (`PollNotices.SleeperLeftBehind`); a signal-safe waiter, which is alone, cannot
  (`PollNotices.SignalSafeWoken`).
- A rename onto a fakefs file that nobody has open leaves its row behind (`FakeFs.RenameLeaks`);
  so does whatever else displaces the last path of such a row (`FakeFs.NoOrphansIff`).

## Model

| member | source | states |
|---|---|---|
| Rounding.RoundingUnique | emu/float80.c:36-43 | for every exact magnitude (a real or a square root) and direction there is at most one correct rounding on the grid of 64-bit significands; this is the reference every arithmetic result is measured against |
| Rounding.RoundingMonotone | emu/float80.c:36-43 | correct rounding keeps order, in each direction |
| Rounding.ExactRounds | emu/float80.c:36-43 | a number of the format rounds to itself, so the reference is not empty |
| Float80.DeliveryUnique | emu/float80.c:45-54 | a sign, a mode and an exact magnitude determine one encoded result, overflow to infinity or to the largest finite number included |
| Float80.EncodingDenotes | emu/float80.c:110-127 | a delivered finite result is a supported number and denotes the rounded magnitude |
| Float80Rounding.ShiftRightRoundExact | emu/float80.c:59-91 | the shift is a correctly rounded division by a power of two in all modes, if and only if it is not a shift by exactly 128 to nearest of more than one half |
| Float80Rounding.RoundsAt64 | emu/float80.c:216-223 | cutting a full 128-bit significand (sticky bit included) to 64 bits is one correct rounding of the exact result it stands for |
| Float80Rounding.NormalizeRoundDelivers | emu/float80.c:198-231 | at or above the smallest normal, one rounding of the exact result, overflow included |
| Float80Subnormal.NormalizeRoundExactly | emu/float80.c:198-231 | for all inputs: correctly rounded if and only if the magnitude passed in is outside two bands below the smallest normal: so close to it that the significand carries to 2^63 with exponent field 0 (half a step for nearest, any excess over the last subnormal for away from zero), or, to nearest, at most 2^-65 of a least unit past a halfway point on the side away from the even unit |
| Float80Subnormal.CarriesTwice | emu/float80.c:204-229 | the carry of the two roundings is that band of the unrounded magnitude |
| Float80Subnormal.TieTwice | emu/float80.c:204-223 | the tie lost between the two roundings is that band around halfway points |
| Float80Subnormal.MulExactly | emu/float80.c:485-507 | a product of finite numbers is correctly rounded if and only if its exact magnitude is outside those bands |
| Float80Subnormal.MulTieSlips | emu/float80.c:204-223 | a product rounded to the wrong neighbour, with the right one |
| Float80Subnormal.MulUnsupported | emu/float80.c:219-229 | a product of two normal numbers that comes out as an unsupported number |
| Float80Arithmetic.MulCorrect | emu/float80.c:485-507 | the exact product rounded once whenever it is zero or at least the smallest normal |
| Float80Arithmetic.MulInfinite | emu/float80.c:488-496 | an infinite factor gives an infinity with the sign of the product, zero times infinity the default NaN |
| Float80Arithmetic.NanOperands | emu/float80.c:377-389 | which operand a NaN result is, bit for bit, signs included |
| Float80Arithmetic.QuotientBits | emu/float80.c:529-548 | the quotient loop yields exactly 128 significant bits of the quotient with the remainder folded into a sticky lowest bit |
| Float80Arithmetic.Div | emu/float80.c:509-555 | the NaN, infinity and zero results, bit for bit; the exact quotient rounded once whenever it is zero or at least the smallest normal |
| Float80Quotient.DivExactly | emu/float80.c:509-555 | for all finite non-zero operands: the returned quotient is correctly rounded if and only if the exact quotient, in whole numbers of the operands, is outside the bands, which the sticky bit widens from half the smallest normal on |
| Float80Quotient.QuotientSlipsExactly | emu/float80.c:533-550 | the bands of the exact quotient are those of the sticky one |
| Float80Quotient.DivTieSlips | emu/float80.c:533-550 | a quotient in the widened band that is not correctly rounded |
| Float80Quotient.RoundsAlike | emu/float80.c:545-548 | a sticky significand rounds to the same number as the exact result it stands for |
| Float80Normalize.Normalize | emu/float80.c:129-153 | the result is supported, denotes the same magnitude with the same sign, and a supported number is unchanged |
| Float80Sqrt.SqrtFloor | emu/float80.c:167-180 | the exact whole square root and remainder of any 128-bit value, with every intermediate value inside its machine word |
| Float80Sqrt.Sqrt | emu/float80.c:697-731 | special operands, and for every positive finite number the correctly rounded square root in all four modes |
| Float80Mod.LongDivision | emu/float80.c:588-599 | remainder and low three quotient bits of x * 2^delta by y for any delta |
| Float80Mod.RemainderUnique | emu/float80.c:557-612 | x = q*y + r, with q truncated and r below y in magnitude and of the sign of x, determines q and r |
| Float80Mod.Mod | emu/float80.c:557-612 | for all finite x and finite non-zero y the exact remainder and q mod 8, at any exponent gap; when the quotient bits are valid, and which NaN is returned when they are not |
| Float80Add.AddExactly | emu/float80.c:391-480 | for all finite operands and modes: the exact sum correctly rounded, if and only if the operands are not in the one family (nearest, exponents 65 apart) that rounds twice |
| Float80Add.AddSlipsExample | emu/float80.c:418-421 | a sum in that family |
| Float80Add.AddSigned | emu/float80.c:391-480 | the sign is the sign of the exact sum, the result is zero exactly when the sum is, and it is always a supported number, so the closing assertion holds |
| Float80Add.AddInfinite | emu/float80.c:430-480 | infinities of different signs give the default NaN; any other sum with an infinity is that infinity only where the mode does not round it toward zero, else the largest finite number |
| Float80Add.InfinityLost | emu/float80.c:212-215 | chopping, infinity plus one is the largest finite number |
| Float80Compare.LtIsLess | emu/float80.c:622-634 | less-than, although computed through the rounding subtraction, is the order of the denoted values, infinities included, in every mode |
| Float80Compare.EqIsSame | emu/float80.c:635-641 | equality of encodings after the zero signs are cleared is equality of the denoted values |
| Float80Compare.Trichotomy | emu/float80.c:614-648 | exactly one of a < b, a == b, b < a for supported non-NaN operands, even under different rounding modes |
| Float80Compare.Unordered | emu/float80.c:614-641 | a NaN or an unsupported encoding is neither less than nor equal to anything |
| Float80Convert.FromIntExact | emu/float80.c:233-245 | every 64-bit integer converts to the number it is |
| Float80Convert.IntRoundTrip | emu/float80.c:233-262 | integer to float and back is the identity in every mode |
| Float80Convert.ToIntRounds | emu/float80.c:247-262 | for every finite number the denoted value rounded to a whole number in the current mode, or the indefinite integer when that does not fit |
| Float80Convert.ToIntIndefinite | emu/float80.c:247-262 | an infinity, a NaN or an unsupported encoding gives the indefinite integer |
| Float80Convert.FromDoubleExact | emu/float80.c:273-297 | every finite binary64 pattern, subnormals included, converts without rounding |
| Float80Convert.DoubleRoundTrip | emu/float80.c:273-348 | binary64 to float80 and back returns every bit pattern: numbers, subnormals, zeros, infinities, NaNs |
| Float80Double.ToDoubleRounds | emu/float80.c:299-348 | every finite number in range is rounded once to the last place of binary64 at its magnitude, normal or subnormal, carries included |
| Float80Double.ToDoubleEnds | emu/float80.c:299-348 | past the range: infinity or the largest number by mode; zeros and infinities keep kind and sign |
| Float80Double.ToDoubleNan | emu/float80.c:299-308 | a NaN keeps its sign and the upper 52 bits of its payload and stays a NaN |
| Float80Double.FromDoubleSpecial | emu/float80.c:273-297 | an infinity or a NaN is widened with its sign and payload |
| Float80Scale.ScaleIsNormalizeRound | emu/float80.c:733-754 | the early exits of the scaling return what the general rounding would |
| Float80Scale.ScaleExactly | emu/float80.c:733-754 | scaling by any 32-bit power of two is correctly rounded if and only if the exact scaled magnitude is outside those bands |
| Float80Scale.ScaleByFloatExactly | emu/float80.c:756-796 | for every finite scale, cut to a whole number in every mode: correctly rounded if and only if the scaled magnitude does not slip; scales outside 32 bits overflow or leave at most the least subnormal |
| Float80Scale.ScaleByFloatSpecial | emu/float80.c:756-778 | NaN, zero and infinity operands, bit for bit |
| Float80Scale.ScaleSpecial | emu/float80.c:733-737 | f80_scale on a NaN, an unsupported encoding, a zero or an infinity |
| Float80Scale.XtractMeaning | emu/float80.c:798-830 | the extracted significand is in [1, 2), the exponent a whole number, and together they denote the operand |
| Float80Scale.XtractSpecial | emu/float80.c:798-821 | zero, infinity, NaN and unsupported operands, bit for bit |
| Float80Scale.XtractScaleRoundTrip | emu/float80.c:756-830 | extracting and scaling back rebuilds every finite non-zero number bit for bit, subnormals included, in every mode |
| Float80Log2.SquareHigh | emu/float80.c:183-196 | high 128 bits of a 256-bit square from 64-bit products, and the bit below them |
| Float80Log2.FractionBits | emu/float80.c:673-686 | the repeated-squaring loop computes the 80 fraction bits of the recursive definition |
| Float80Log2.LogFractionBelow | emu/float80.c:673-686 | for every significand m and every number n of bits, the fraction F satisfies 2^F <= m^(2^n): it never exceeds the true logarithm |
| Float80Log2.LogFractionMonotone | emu/float80.c:673-686 | a larger significand has a fraction at least as large |
| Float80Log2.LogFractionAbove | emu/float80.c:673-686 | for every significand m and every n, m^(2^n) < 2^(F+1) * (1 + 2^-127)^(2^n): the cuts of the squares lose no more |
| Float80Log2.LogFractionClose | emu/float80.c:673-686 | up to 80 bits the fraction is at most the logarithm and less than two of its last places below it |
| Float80Log2.FractionNearLog | emu/float80.c:650-695 | the same for the normalised significand of every positive finite operand |
| Float80Log2.Log2Rounds | emu/float80.c:688-694 | the fixed-point logarithm is rounded correctly in every mode |
| Float80Log2.Log2Monotone | emu/float80.c:650-695 | monotone over all positive finite operands in each rounding mode |
| Float80Log2.Log2 | emu/float80.c:650-695 | special operands, a NaN quieted and returned, and the value the monotonicity and bounds are about |
| Fpu.Cpu.Prem | emu/fpu.c:112-122 | the exact remainder replaces ST(0), C0, C3, C1 hold the low quotient bits, the other registers stay; an infinite ST(1) leaves ST(0); without a quotient the NaN of binary operations and the old bits |
| Fpu.Cpu.Compare | emu/fpu.c:156-162 | C0 and C3 report the order of the denoted values, C0, C2 and C3 an unordered pair |
| FileLocks.ConflictsByByte | fs/lock.c:6-19 | the interval test conflicts exactly when another owner holds one of the requested bytes and either side writes |
| FileLocks.PlaceGrants | fs/lock.c:50-136 | the pass that merges, overrides, trims and splits changes exactly the requested bytes of the requesting owner in the per-byte map |
| FileLocks.PlaceCanonical | fs/lock.c:50-136 | the pass keeps the list canonical: grouped by owner, disjoint, no adjacent ranges of one kind unmerged |
| FileLocks.CanonicalGaps | fs/lock.c:50-136 | in the list the pass leaves, two locks of one owner share no byte and two of one kind do not even touch |
| FileLocks.NotifiesIff | fs/lock.c:83-127 | waiters are notified if and only if the pass cuts into a lock of another kind of the requester |
| FileLocks.PlaceOrigins | fs/lock.c:50-136 | each lock of the new list is the request with what it took up, under the requester's process, or a piece of an old lock with its owner, kind and process |
| FileLocks.WithoutHolds | fs/lock.c:259-273 | dropping an owner removes that owner's bytes and no others |
| FileLocks.WithoutCanonical | fs/lock.c:259-273 | dropping an owner keeps the list canonical |
| RecordLocks.Inode.Test | fs/lock.c:25-32 | a conflicting lock is found if and only if there is one |
| RecordLocks.Inode.Acquire | fs/lock.c:50-136 | granted if and only if nothing conflicts; refused: nothing changes; granted: the per-byte map changes exactly as asked, the list stays canonical and compatible, waiters are notified exactly when the pass freed something |
| RecordLocks.Inode.RemoveOwnedBy | fs/lock.c:259-273 | in place: the owner's bytes go, all others stay, notified exactly when there were any |
| RecordLocks.PlaceIsGrant | fs/lock.c:50-136 | the whole pass refines the per-byte specification |
| RecordLocks.GrantCompatible | fs/lock.c:10-19 | a grant without conflict leaves no byte write-locked against another holder |
| LockRuns.SilentGrantKeepsConflicts | fs/lock.c:83-135 | after a grant that notified nobody every request that conflicted still does |
| LockRuns.NextSound | fs/lock.c:231-273 | every step keeps the list canonical and compatible and leaves asleep only threads that still conflict |
| LockRuns.RunsSound | fs/lock.c:231-273 | over every run: canonical, compatible, and no missed wakeup |
| LockRuns.TurnMeans | fs/lock.c:247-256 | a request fails or sleeps if and only if another owner holds one of its bytes, one of the two for writing; else it is granted byte by byte, and all sleepers are woken exactly when the requester gave up a byte |
| LockRuns.OthersMean | fs/lock.c:251-273 | a close drops the owner's bytes and wakes all when there were any; an interrupted sleeper only stops waiting |
| LockRuns.FromFlockExact | fs/lock.c:140-196 | a structure is accepted exactly when its start and all its bytes are possible offsets; the lock then covers those bytes, with the kind asked for, the caller's owner and process; which of the two errors otherwise |
| LockRuns.FromFlockNowhere | fs/lock.c:142-169 | the errors of a whence that gives no offset |
| LockRuns.FlockRoundTrip | fs/lock.c:198-208 | what F_GETLK reports has the bytes, kind and process of the lock it found, and reads back as that lock |
| BlockCache.NextSound | asbestos/asbestos.c:140-285 | every step of compile, insert, patch, run, invalidate and free keeps: jump cells and back lists agree, patched cells of live blocks target live blocks, running threads refer to unfreed blocks |
| BlockCache.RunsSound | asbestos/asbestos.c:140-285 | the same over every interleaving of any number of threads |
| BlockCache.ChainSound | asbestos/asbestos.c:178-244 | a chain of patched cells from an unfreed block stays among unfreed blocks, from a live block among live ones |
| BlockCache.NoUseAfterFree | asbestos/asbestos.c:164-285 | no block a running thread can reach from its cache, last block or current block along any chain of patched cells has been freed |
| BlockCache.PatchedJumpsAreFaithful | asbestos/asbestos.c:205-224 | a patched jump leads to a block compiled for the guest address the jump was compiled with |
| BlockCache.RunsItsPc | asbestos/asbestos.c:187-236 | over every run a thread only runs code compiled for the guest address it is at, found, compiled or reached by a chained jump |
| BlockCache.DispatchesOneWay | asbestos/asbestos.c:190-206 | a thread at the dispatcher has exactly one way on: a cached block for its pc, else the one in the table, else a new one |
| BlockCache.WriterAlone | asbestos/asbestos.c:262-285 | the lock for freeing is taken only when no thread runs, and none begins before it is let go |
| BlockCache.CompileEffect | asbestos/asbestos.c:194-206 | the block found or compiled for the pc is the one in the table for it, and is run and cached |
| BlockCache.EnterEffect | asbestos/asbestos.c:205-224 | entering patches exactly the jumps of the last block that go to this one, when both are live, and makes it the last |
| BlockCache.InvalidateEffect | asbestos/asbestos.c:138-157 | invalidating a block takes it out of the table and takes back every jump of a live block to it, and changes nothing else |
| BlockCache.FreeEffect | asbestos/asbestos.c:164-170 | exactly the invalidated blocks are freed |
| BlockIndex.Asbestos.Lookup | asbestos/asbestos.c:103-113 | the hash table finds exactly what a plain map from address to live block holds |
| BlockIndex.Asbestos.Resize | asbestos/asbestos.c:73-88 | rehashing keeps every block findable |
| BlockIndex.Asbestos.Insert | asbestos/asbestos.c:90-101 | the map gains the block; counts and the sum of sizes follow, through a resize as well |
| BlockIndex.Asbestos.Disconnect | asbestos/asbestos.c:140-157 | the block leaves the table and both page lists, the counters follow |
| BlockIndex.Asbestos.InvalidateRange | asbestos/asbestos.c:48-64 | exactly the blocks on the pages' lists become jetsam, and no remaining block of at most a page touches the range |
| BlockIndex.TouchesEnds | asbestos/asbestos.c:115-136 | a block of at most one page touches only its first and last page |
| BlockIndex.HitNear | asbestos/asbestos.c:43-64 | no block goes unless the page of its first or last byte is, up to a multiple of 1024, in the range |
| BlockIndex.TotalUsedSplit | asbestos/asbestos.c:90-101 | the sum over live blocks splits at any of them, which the byte counter relies on |
| FdTable.LowestFree | fs/fd.c:297-315 | the lowest number from start on that is neither occupied nor reserved |
| FdTable.PickedLowest | fs/fd.c:245-295 | reservation picks the lowest free numbers below the limit |
| FdTable.PickedFails | fs/fd.c:245-295 | it fails if and only if fewer are free than asked for |
| FdTableOps.Fds.Resize | fs/fd.c:121-172 | in place: contents, marks and generations are kept, new slots are empty |
| FdTableOps.Fds.InstallFind | fs/fd.c:297-315 | the search loop finds the lowest free number, or reports the limit or the failed allocation without a change |
| FdTableOps.Fds.Publish | fs/fd.c:317-344 | the slot gets file, flag and a new 64-bit generation |
| FdTableOps.Fds.FindNumbers | fs/fd.c:257-268 | the reservation loop picks the specified numbers |
| FdTableOps.Fds.Reserve | fs/fd.c:245-295 | all numbers are marked or nothing changes |
| FdTableOps.Fds.Clear | fs/fd.c:355-365 | in place: exactly the reservation's marks are cleared |
| FdTableOps.Fds.PublishReserved | fs/fd.c:382-408 | in place: each reserved slot gets its file, and each returned generation is the slot's |
| FdTableOps.Fds.CloseOnExec | fs/fd.c:523-530 | exactly the marked slots are emptied, their files reported in order |
| FdSteps.InstallSound | fs/fd.c:328-344 | installing consumes the caller's reference on success and on failure, keeps all counts and all reservations |
| FdSteps.CloseSlotSound | fs/fd.c:480-498 | closing a slot drops exactly its reference |
| FdSteps.DupfdSound | fs/fd.c:532-555 | duplicating to the lowest number keeps all counts and reservations |
| FdSteps.DupToSound | fs/fd.c:557-601 | a reserved target is refused; otherwise both numbers name the same file and every other slot is untouched |
| FdSteps.CloseBelowSound | fs/fd.c:104-119 | the sweep loops of exec and final release drop exactly the references of the slots they empty |
| FdReservations.ReserveSound | fs/fd.c:245-295 | all or nothing, on numbers no other reservation has |
| FdReservations.PublishedSlots | fs/fd.c:395-402 | publishing fills each reserved slot once, under a new generation, and touches no other slot |
| FdReservations.PublishSound | fs/fd.c:382-408 | the publish assertions hold, exactly the references passed in are handed over, every other reservation keeps its slots |
| FdReservations.CancelSound | fs/fd.c:367-380 | the assertions of the clearing loop hold, and every other reservation keeps its slots |
| FdReservations.CopySound | fs/fd.c:174-191 | a copied table shares every file with one more reference per slot and none of the reservations |
| FdReservations.ExitSound | fs/fd.c:104-119 | the last user of a table closes all of its slots, never while a reservation is out |
| FdReservations.LeaveSound | fs/fd.c:104-119 | a table without users is empty, one with users is untouched |
| FdEffects.InstallEffect | fs/fd.c:297-344 | the lowest free number from the start on gets the file, the flag asked for and one more install, no other number changes; exactly when it is refused, and for what |
| FdEffects.DupfdEffect | fs/fd.c:532-555 | the same for F_DUPFD with the file of the old number, whatever its flag |
| FdEffects.DupToEffect | fs/fd.c:557-601 | on success the target alone changes: the old number's file, the flag asked for and one more install; with equal numbers or on an error nothing changes; each error exactly |
| FdEffects.CloseEffect | fs/fd.c:480-498 | the number is empty and unmarked, its installs and every other number stay |
| FdEffects.FlagEffect | fs/fd.c:624-637 | the flag of an open number is set as asked and nothing else changes |
| FdEffects.SweepEffect | fs/fd.c:104-119 | exec empties the marked numbers, the end of a table all, and no other |
| FdEffects.ReserveEffect | fs/fd.c:245-295 | the lowest free numbers below the limit get their mark and nothing else changes; exactly when it is refused, and for what |
| FdEffects.PublishEffect | fs/fd.c:382-408 | each reserved number gets its file, flag and one more install and loses its mark, no other changes; the last user leaves an empty table |
| FdEffects.CancelEffect | fs/fd.c:367-380 | the reserved numbers lose their marks and no other changes; likewise at the last user |
| FdEffects.CopyEffect | fs/fd.c:174-191 | the copy has every file and flag of the original and none of its marks |
| FdEffects.UseEffect | fs/fd.c:104-119 | a share adds one task; an exit takes one, and empties the table if it was the last user |
| FdEffects.SlotEffect | fs/fd.c:297-641 | every step of a run that names a slot changes that number of that table, as above, and no other |
| FdEffects.ReferenceEffect | fs/fd.c:30-78 | passing references around changes no table |
| FdRefs.ReleaseSound | fs/fd.c:51-78 | dropping a held reference finds a non-zero count and keeps counts equal to slots plus held references |
| FdRuns.NextSound | fs/fd.c:174-601 | every step keeps counts, tables and reservations, ends no other reservation, and spends exactly the references it was given |
| FdRuns.RunsSound | fs/fd.c:174-601 | over every run: references conserved, installs only accumulate, a reservation not ended by its owner is still empty and marked |
| FdRuns.RunsLedger | fs/fd.c:30-78 | the references held by callers after a run are those gained minus those spent |
| FdRuns.TokenNamesInstallation | fs/fd.c:500-512 | a generation-matched close matches if and only if the slot still holds the very installation that returned the generation, through any run with fewer than 2^64 installs into the slot |
| FdClients.RefusedConsumes | fs/fd.c:423-457 | without numbers to reserve, receive and pair install close what they were given and leave all tables alone |
| FdClients.ReservedPublishes | fs/fd.c:423-470 | whatever other threads do between reserve and publish, publishing succeeds, consumes the references and fills the reserved numbers |
| FdClients.UnwrittenCancels | fs/fd.c:435-440 | a number that could not be written out is given back and the file closed |
| FdClients.PipeFails | fs/pipe.c:70-80 | with its refused reservation in the run, a failed pair install leaves the whole system exactly as it was before the pipe was made |
| FdClients.PipeFailsAmong | fs/pipe.c:70-80 | the same among other threads' steps: the pair and the caller give up exactly their references and change no table |
| FdClients.RollbackConsumes | fs/pipe.c:87-101 | rollback gives up both references, empties each slot whose token still matches and no other |
| FdClients.RollbackClosesItsOwn | fs/pipe.c:70-101 | from installation through any run to the rollback: the pipe's own two installations are closed, anything installed there since is kept |
| Polls.Offered | fs/poll.c:518-536 | what is offered is asked for or an error or hangup, nothing already delivered on an edge, and nothing when disarmed |
| Polls.FindIff | fs/poll.c:115-123 | a registration is found if and only if there is one for the fd; tombstones are never found |
| PollObjects.PollObject.Add | fs/poll.c:159-220 | each refusal, the freelist on a failed host update, and the new registration at the head of the list |
| PollObjects.PollObject.Mod | fs/poll.c:288-326 | the found registration is reset and armed; failures change nothing |
| PollObjects.PollObject.Del | fs/poll.c:250-286 | the found registration goes to the freelist; failures change nothing |
| PollObjects.PollObject.Wakeup | fs/poll.c:358-382 | exactly the fd's registrations that should hear of it change, and waiters are notified when anything changed |
| PollObjects.PollObject.ScanAll | fs/poll.c:516-568 | the scan loop delivers, in list order, exactly what each registration offers and the callback accepts, and looks at no fd of a tombstone |
| PollObjects.PollObject.Cleanup | fs/poll.c:328-356 | in place: the closing loop over the registrations of the fd |
| PollSet.CleanedMeaning | fs/poll.c:328-356 | after the final close wake-only registrations are tombstones with a hangup pending, others of the fd are freed, those of other fds unchanged |
| PollLaws.OfferedIff | fs/poll.c:516-536 | an event is offered if and only if the registration is armed, it was asked for or is an error or hangup, it is not closed on the edge, and it is pending or the fd is ready for it |
| PollLaws.ArmsOffers | fs/poll.c:313-319 | after ADD or MOD exactly what is asked for now and ready is offered, with the new interest and info |
| PollLaws.WakeOffers | fs/poll.c:358-382 | after a wakeup everything offered before still is, and every event of it asked for, also one delivered on the edge: at a guest registration if ready, at the others at once; an internal wakeup leaves guests and edges alone |
| PollLaws.RearmOffers | fs/poll.c:392-423 | after a rearm that the host takes all edges of an armed registration are open |
| PollLaws.HostOffers | fs/poll.c:659-669 | a host event opens the edges it names, of the registration it names |
| PollLaws.ScanOffers | fs/poll.c:538-568 | what a scan delivered is offered again only while ready and not on the edge, a one-shot offers nothing more, and all else is as before |
| PollLaws.CloseOffers | fs/poll.c:328-356 | the final close leaves a wake-only registration what it had and the hangup, and no other registration |
| PollLaws.TermsStay | fs/poll.c:159-808 | only ADD and MOD change what a registration asks for and the word it hands back |
| PollLaws.WaitersEffect | fs/poll.c:453-714 | where each waiter is after each step, and that no step moves another thread |
| PollLaws.FreelistEffect | fs/poll.c:125-220 | what goes on and comes off the freelist, and when |
| PollLaws.UserMay | fs/poll.c:159-326 | what a user may do with a poll and when: add, change, remove, and begin destruction |
| PollLaws.DestroyCloses | fs/poll.c:764-772 | once destruction has begun nothing is added, changed, removed or waited for, and waiters are woken |
| PollLaws.DestroyFrees | fs/poll.c:774-794 | destruction frees one registration at a time, none a lock holder is on its way to |
| PollLaws.EndsGone | fs/poll.c:796-805 | its last step ends the poll |
| PollLaws.NothingAfter | fs/poll.c:796-805 | after which nothing is allocated and no step is possible |
| PollObjects.PollObject.HostEvents | fs/poll.c:659-669 | host events reopen edges of registrations still in use and pass over those on the freelist |
| PollObjects.PollObject.BeginWait | fs/poll.c:453-489 | it is the step by which a thread becomes a waiter of the protocol, and is refused exactly where that step is not possible or the first waiter gets no pipe |
| PollObjects.PollObject.Return | fs/poll.c:653-676 | coming back from the host with events is the protocol step that applies them and takes one byte from the pipe |
| PollObjects.PollObject.EndWait | fs/poll.c:690-714 | it is the step by which a waiter leaves; the destroyer is told exactly when no waiter is left, and may then free every registration no lock holder is on its way to |
| PollRuns.NextSound | fs/poll.c:159-808 | no step leaves a waiter with an unallocated registration, or a thread holding an fd's poll_lock on its way to one that is gone; the poll is freed only without waiters |
| PollRuns.RunsSound | fs/poll.c:159-808 | the same over every run |
| PollDeliveries.OneShotOnce | fs/poll.c:546-560 | between two deliveries of a one-shot registration there is an ADD or a MOD |
| PollDeliveries.EdgeOnce | fs/poll.c:562-564 | between two deliveries of one edge-triggered event there is a wakeup, host event, rearm, MOD or ADD that opened it |
| PollDeliveries.ExplicitStays | fs/poll.c:538-545 | an explicit event not delivered stays pending through every run until a MOD or the removal of the registration |
| PollDeliveries.HangupReportedIff | fs/poll.c:328-342 | over every run, the first scan after the final close that the callback accepts reports the hangup of a wake-only registration if and only if at the close it was armed and had not counted a hangup as delivered |
| PollDeliveries.HangupNever | fs/poll.c:518-536 | otherwise no later step of any run reports it, and a disarmed registration reports nothing at all |
| PollDeliveries.HangupLost | fs/poll.c:334-342 | a run of ten steps of the code in which a one-shot registration fires and then loses its hangup |
| PollDeliveries.TombstoneStays | fs/poll.c:115-123 | no MOD, DEL, wakeup or close reaches a tombstone; only destruction removes it |
| PollDeliveries.HangupStays | fs/poll.c:334-342 | through every run the hangup of a tombstone is pending until delivered or the poll is destroyed |
| PollNotices.NoticeWakes | fs/poll.c:358-423 | over every run, a notice given while a thread sleeps, whatever it is about, leaves a byte in the pipe for it until another waiter comes back |
| PollNotices.NewsWakes | fs/poll.c:358-423 | over every run, whatever a sleeper was not offered when it went to sleep and is on offer later was announced in between, and its byte is there unless another waiter has come back |
| PollNotices.SignalSafeWoken | fs/poll.c:457-463 | a signal-safe waiter, being alone, misses no notice in any run |
| PollNotices.SignalSafeOffered | fs/poll.c:457-463 | so it finds the pipe filled for whatever is newly on offer |
| PollNotices.SleeperMissesIff | fs/poll.c:653-676 | after the last notice the pipe is empty for a sleeper if and only if as many other waiters have come back as there were bytes |
| PollNotices.SleeperLeftBehind | fs/poll.c:653-676 | a run of twelve steps of the code in which one of two waiters takes the byte, refuses the event and leaves the other asleep beside it |
| Tlb.StoreSplit | emu/tlb.c:37-49 | a byte-wise store over two pages is the two parts one after the other, also when both pages are one host page |
| PageTables.NofaultIsHostOf | kernel/memory.c:81-89 | walking the two-level tables and applying offset and flags gives the host byte of the mapping the tables stand for, for every address and access |
| PageTables.NofaultWalks | kernel/memory.c:69-87 | top index, bottom index and offset: readable when that entry has data, writable when moreover bit 1 is set and bit 4 clear, at data plus both offsets |
| PageTables.NofaultLawful | kernel/memory.c:270-277 | translation through the tables meets what the TLB relies on |
| TlbCache.HostPointer | emu/tlb.h:66-68 | the offset kept in an entry and the guest address meet at the host byte modulo 2^64 |
| TlbCache.Cache.Flush | emu/tlb.c:13-17 | every entry is emptied and the versions match |
| TlbCache.Cache.Refresh | emu/tlb.c:4-11 | whatever changed, every entry agrees with the MMU afterwards |
| TlbCache.Cache.HandleMiss | emu/tlb.c:51-70 | a miss returns the direct translation and leaves all entries agreeing, flushing when the translation changed the mappings |
| TlbCache.Cache.Pointer | emu/tlb.h:70-99 | hit or miss, what a direct translation gives |
| TlbCache.Cache.ReadBytes | emu/tlb.h:80-88 | for any size up to a page: the bytes direct byte-wise translation reads, or failure exactly when one is unmapped, with the faulting address |
| TlbCache.Cache.WriteBytes | emu/tlb.h:101-109 | memory as a direct byte-wise store leaves it; a failed write, cross-page or not, changes no byte |
| TlbCache.FaultsAt | emu/tlb.c:23-49 | the address reported is that of the first byte of the range that is not mapped |
| TlbCache.Cache.Execute | emu/tlb.h:70-109 | any program of loads, stores and mapping changes, with a refresh after each change, reads the same bytes, faults at the same addresses and leaves the same memory as translating every byte anew |
| TlbCache.CrossStore | emu/tlb.c:37-49 | two copies are the byte-wise store over a page boundary, wrapping at the top of the address space |
| TlbCache.CrossLoad | emu/tlb.c:23-35 | two copies are the byte-wise load over a page boundary |
| TlbCache.StoredThenLoaded | emu/tlb.h:80-109 | a byte-wise load finds what a byte-wise store put there |
| InodeTable.Inodes.Find | fs/inode.c:21-33 | the bucket search finds exactly what a plain map holds |
| InodeTable.Inodes.NumberIsLive | fs/inode.c:35-46 | true if and only if some device's inode of that mount and number is interned |
| InodeTable.Inodes.Get | fs/inode.c:48-76 | one inode per key, one more reference, a sequence number never used before for a new one; its mount sees the reference taken of FakeFs, other mounts nothing |
| InodeTable.Inodes.Release | fs/inode.c:128-148 | the last reference removes the inode, and the file system is told exactly when no other device has the number: the release of FakeFs on its mount, nothing on others |
| InodeTable.Inodes.CheckOrphaned | fs/inode.c:86-92 | the file system is told exactly when the check of FakeFs takes the lock for cleaning up |
| FakeDb.Database.OpenIdentity | fs/fake.c:24-55 | the transaction is the protocol step by which a thread fetches a number, and fails exactly where that step is not possible |
| FakeDb.Database.Link | fs/fake.c:97-108 | the transaction is the protocol step, or no change when the host refuses |
| FakeDb.Database.Unlink | fs/fake.c:110-136 | the transaction is the protocol step that leaves the thread owing an orphan check of the number returned, or no change |
| FakeDb.Database.Make | fs/fake.c:376-392 | the transaction is the protocol step, or no change when the host refuses |
| FakeDb.Database.Rename | fs/fake.c:138-149 | the paths are changed first; the transaction is the protocol step, or the rollback takes it all back |
| FakeDb.RenamedMeaning | fs/fake-db.c:134-154 | every path under the source names what it named under its new name, and any other path is as it was unless moved onto |
| FakeDb.Database.Setattr | fs/fake.c:346-361 | the transaction is the protocol step; the row of the path gets the attributes, or there is no such path and nothing changes |
| FakeDb.Database.Fsetattr | fs/fake.c:363-374 | on any open file the row is found and the transaction is the protocol step |
| FakeDb.Database.InodeOrphaned | fs/fake.c:492-498 | the transaction is the cleanup step of the holder of inodes_lock, and no row of an open file goes |
| FakeFs.NextSound | fs/inode.c:35-148 | every step under the two locks keeps: each opened file's row is there, and no number is interned while its row is being cleaned up |
| FakeFs.RunsSound | fs/generic.c:96-126 | the same over every interleaving of open, reopen, create, link, rename, unlink, stat, release and cleanup |
| FakeFs.RowOutlivesFile | fs/generic.c:96-126 | from interning to release the very row the file was opened on exists |
| FakeFs.FsetattrFindsRow | fs/fake.c:363-374 | the row that must exist does, and only its attributes change |
| FakeFs.OpenKeepsItsRow | fs/fake.c:24-55 | an open interns the row it fetched if and only if that row was not cleaned up in between |
| FakeFs.OpenTakesNewRow | fs/fake.c:24-55 | a run in which an open interns the row of a file created later under the reused number |
| FakeFs.PathsEffect | fs/fake-db.c:84-132 | the paths after each step: a link keeps its source and names the same number, a creation names the new one, an unlink takes one away, and no other path changes |
| FakeFs.RowsEffect | fs/fake-db.c:84-132 | the rows after each step: a new file has the attributes passed in, a change of attributes keeps the row, a cleanup deletes exactly the nameless row |
| FakeFs.HoldersEffect | fs/inode.c:48-148 | each step adds or removes at most its own holder, with the key and row it stands for |
| FakeFs.LockEffect | fs/generic.c:96-126 | how far the holder of inodes_lock has come after each step, and that a release cleans up exactly when no one else has the number open |
| FakeFs.NoOrphansIff | fs/fake.c:110-149 | a step leaves an orphaned row behind if and only if it displaces the last path of a number nobody has open or is about to clean up |
| FakeFs.NamedAtRest | fs/fake.c:110-149 | over every run that displaces no such path, once all files are closed and all cleanups done every row has a path and every path a row |
| FakeFs.RenameLeaks | fs/fake.c:138-149 | a rename onto an existing file that leaves its row behind |

## Left out

- BlockIndex.Asbestos.InvalidateRange: its last clause is for blocks of at most one page, which is what the compiler of blocks asserts.
- BlockCache.PatchedJumpsAreFaithful: a jump cell is either a guest address or a block; that a code pointer's low 32 bits could look like a guest address is not modelled.
- FdRuns.TokenNamesInstallation: the 64-bit generation wraps, so the slot must see fewer than 2^64 installs in between.
- FdSteps.DupToSound: dup, close and the reference counts are on values, table and counts together; the in-place class covers search, reserve, publish, clear and sweep. RLIMIT_NOFILE is at most 2^20 (kernel/resource.c:127-128), so the truncation of the limit to 32 bits in f_install_find does not arise.
- FdReservations.ReserveSound: a reservation retains, locks and releases the table in one step, so a reservation that fails while the table's last other user exits, and then closes the table itself, is not told apart from one before that exit.
- PollObjects.PollObject.Cleanup: one poll; an fd's registrations in other polls are other instances of the same steps. Rearm and destruction are steps of PollRuns, not methods.
- PollDeliveries.HangupReportedIff: and HangupNever take runs without a host event, left over from an earlier use of the registration object, that names it with a hangup; a wake-only registration has none of its own.
- FakeFs.RunsSound: one mount, transactions are atomic in the runs, a database error that makes the emulator die is not a step.
- TlbCache.Cache.Refresh: an MMU is told apart by an identity that is never reused, and the change counter does not wrap.
- LockRuns.FromFlockExact: the access-mode checks of fcntl and the truncation to the 32-bit structure are not modelled.
- f80_round, f80_neg and f80_abs, the classification bits of FXAM, and the host double functions of emu/fpu.c.
- fiber_enter, the gadgets, the return cache and the instruction decoder: running a block is moving along its jump cells or leaving.
- Socket garbage collection, listen restarts, signal registration and time limits in fs/fd.c and fs/poll.c.
- SQLite, database migration and rebuild, and the host file system: their answers are parameters; that the range of paths rename selects in SQL is the subtree is taken as given.
- Allocation failure other than as an error return, and raw list-pointer layout.
