# MPU layouter, modelled in Dafny

`main.c` of mpu_layouter plans the memory protection unit (MPU) layout of a memory block
`[addr, addr + size)`. An ARMv7-M style MPU has eight region descriptors. Each descriptor
`{base_addr, size, srd}` has:

- a size taken from 28 legal powers of two, 32 bytes to 4 GiB;
- a base aligned to that size;
- an 8-bit subregion-disable mask (srd). The region is split into eight equal subregions, and
  bit `j` of the mask switches subregion `j` off.

`try_fit` fills the descriptors greedily, slot by slot. At the current address it asks two
fitters for a region:

- `srd_fit` picks a region whose lowest subregion(s) are disabled, so coverage starts inside
  the region;
- `std_fit` picks a naturally aligned region starting at the address itself.

A successful `srd_fit` always wins, because the condition short-circuits and std_fit is never
called. std_fit is asked only when srd_fit fails. The planner returns one of:

- the number of slots used once the block is covered;
- -1 when neither fitter can place a region;
- 0 when the eight slots run out.

The model has five modules:

- `Outcomes` (`outcome.dfy`): `Outcome`, the result of an operation that may hit one of
  `calc_srd`'s `assert`s (`AssertFailed`), and `Option`.
- `Alignment` (`alignment.dfy`):
  - the `alignment` table;
  - `align_up`, `align_down` and `is_aligned` as functions;
  - `is_legal` as a method with the table loop;
  - the facts connecting the table to powers of two.
- `Subregion` (`subregion.dfy`): `calc_srd`, specified by the function `SubregionDisable` and
  implemented by the method `CalcSrd` with the source's bit-OR loop.
- `Fitters` (`fitters.dfy`):
  - `region_t` as `Region`;
  - the two fitters, specified by recursive scans of the table (`SrdScan`, `StdScan`) and
    implemented by the methods `SrdFit` and `StdFit`, which keep the source's loops and early
    returns;
  - what each fitter returns.
- `Planner` (`planner.dfy`):
  - `mem_blk_t` as `MemBlock` and `mpu_t` as the class `Mpu` with an array of eight slots;
  - the choice made in one slot (`Choose`, implemented by the method `PickSlot`);
  - the whole plan (`PlanFrom`, `PlanBlock`);
  - `try_fit` as the method `TryFit`, which writes the slots of an `Mpu` in place.

`samples.dfy` evaluates the plan for the three sample blocks of `main.c`.

Addresses and sizes are unbounded naturals. The two places where 64-bit `size_t` wrap-around
changes the outcome are recorded under "Findings".

## Model

| member | source | states |
|---|---|---|
| Alignment.AlignDown | main.c:121-124 | For a power-of-two `a`, the result is a multiple of `a`, at most `x`, and more than `x - a`. |
| Alignment.AlignDownGreatest | main.c:121-124 | `align_down` gives the greatest multiple of `a` that is at most `x`. |
| Alignment.AlignDownOffset | main.c:121-124 | An aligned base plus an offset below the alignment rounds down to the base. |
| Alignment.AlignUp | main.c:116-119 | For a power-of-two `a`, the result is a multiple of `a`, at least `x`, and less than `x + a`. |
| Alignment.AlignUpLeast | main.c:116-119 | `align_up` gives the least multiple of `a` that is at least `x`. |
| Alignment.AlignUpSmallest | main.c:174 | `align_up(alignment[SIZE_32B], A) == A` for every legal `A`, so the address-0 branch yields a region of exactly the table entry. |
| Alignment.IsAligned | main.c:126-131 | With alignment 0, the result is true exactly when `x == 0`. With a power-of-two alignment, it is true exactly when `align_down(x) == x`. |
| Alignment.IsLegal | main.c:133-144 | The table search returns true exactly when the size is a power of two from 32 bytes to 4 GiB. |
| Alignment.LegalIffInTable | main.c:83-112 | A size is legal exactly when it is one of the 28 table entries, so 0 is not legal. |
| Alignment.TableEntry | main.c:83-112 | Every table entry is a legal size. |
| Alignment.TableDescending | main.c:83-112 | Table entries strictly decrease, so a first match is a largest match. |
| Subregion.SubregionDisable | main.c:146-153 | `calc_srd` completes exactly when `addr > 0`, the base is a multiple of the size, and fewer than four whole subregions lie between the base and `addr`. Otherwise one of its asserts fails. |
| Subregion.SubregionDisableBits | main.c:151-161 | The mask disables subregion `j` exactly when that subregion lies wholly below `addr`. The mask is one of 0x00, 0x01, 0x03 and 0x07. |
| Subregion.LowBits | main.c:155-159 | The mask for `k` has bit `j` set exactly when `j < k`. |
| Subregion.CalcSrd | main.c:146-162 | The bit-OR loop returns the outcome `SubregionDisable` specifies, including both abort paths. |
| Subregion.OneSubregionMask | main.c:146-162 | An address exactly one subregion above an aligned base gives the mask 0x01. |
| Subregion.DisabledPrefixOfLowBits | main.c:155-159 | The mask for `k` disables exactly the bottom `k` subregions. |
| Fitters.QuotientSplit | main.c:182-183 | `addr - (addr / A) * A`, srd_fit's `srs`, is `addr mod A`, and the base `quotient * A` is at most `addr`. |
| Fitters.SrdPick | main.c:180-193 | The srd_fit branch that takes a candidate entry `A`: base `addr - addr mod A` (the source's `quotient * A`), size `8 * (addr mod A)`, and the mask from calc_srd, or the calc_srd abort. `SrdPickFacts` states what it yields. |
| Fitters.SrdEntry | main.c:180-194 | One iteration of srd_fit at an entry below a nonzero address. It takes the entry exactly when `8 * (addr mod A)` is legal and the aligned-down region ends by `limit`. It then returns what calc_srd gives on base `quotient * A`. |
| Fitters.SrdScan | main.c:165-201 | srd_fit as a recursive scan of the table from index `i`: the address-0 branch, the first candidate entry, or the sentinel `{0, 0, 0xFF}` when the table runs out. `SrdFitFound`, `ZeroAddressFit`, `SrdFitAdvances` and `NoRoom` state what it returns. |
| Fitters.SrdFit | main.c:165-201 | The srd_fit loop returns exactly what the srd scan of the whole table specifies. That includes the calc_srd abort and the sentinel on failure. |
| Fitters.StdScan | main.c:204-236 | std_fit as a recursive scan of the table: the address-0 branch, the first entry that is at most `addr`, divides it and ends by `limit`, or the sentinel. `StdFitFound`, `ZeroAddressFit`, `StdFitAdvances` and `NoRoom` state what it returns. |
| Fitters.StdFit | main.c:204-236 | The std_fit loop returns exactly what the std scan of the whole table specifies. |
| Fitters.ZeroAddressFit | main.c:171-177 | At address 0 both fitters give the same region: `{0, E, 0x00}` for the largest entry `E` strictly below `limit`. They succeed exactly when `limit > 32`, and otherwise write the sentinel `{0, 0, 0xFF}`. |
| Fitters.StdFitFound | main.c:204-236 | At a nonzero address std_fit succeeds exactly when some entry at most `addr` divides it and ends by `limit`. It then returns `{addr, E, 0x00}` with `E` legal, and no larger entry qualifies. Otherwise it writes the sentinel. |
| Fitters.SrdPickFacts | main.c:180-193 | At a candidate entry the size `8 * (addr mod A)` is nonzero. The outcome is an abort exactly when the base is not a multiple of the size. Otherwise the region is `{base, size, 0x01}` with `base + size / 8 == addr`, well formed, and ending by `limit`. |
| Fitters.SrdFitFound | main.c:165-201 | At a nonzero address srd_fit fails with the sentinel exactly when no entry is a candidate. Otherwise it acts on the first candidate entry: it aborts exactly when the base is misaligned, and else gives a well-formed region with mask 0x01 that starts coverage at `addr` and ends by `limit`. |
| Fitters.SrdFitAbortExample | main.c:149 | The `0 == region_base % region_size` assert is reachable: srd_fit at 0x380 with limit 0x400 aborts. |
| Fitters.SrdFitAdvances | main.c:165-201 | A region srd_fit returns starts coverage at `addr` and ends after it, at most at `limit`. A failed srd_fit leaves a region ending at 0. |
| Fitters.StdFitAdvances | main.c:204-236 | The same for std_fit. |
| Fitters.NoRoom | main.c:197-200 | With `limit <= addr` both fitters fail and write the sentinel. |
| Fitters.StdGuardWraps | main.c:221 | In 64-bit arithmetic, std_fit's limit test accepts a region that ends past `limit`, which the unbounded test rejects. |
| Fitters.SrdGuardWraps | main.c:186 | The same for srd_fit's limit test. |
| Planner.Mpu.constructor | main.c:327 | A fresh `mpu_t` has eight slots, all cleared to zero. |
| Planner.Select | main.c:249-270 | The slot choice on the two fitters' results, with std_fit's region left at `{0,0,0}` when srd_fit succeeds and the strict `srd_next > std_next` comparison. `SelectPrefersSrd` and `SelectAdvances` state what it picks. |
| Planner.SelectPrefersSrd | main.c:249-270 | An abort propagates. A successful srd_fit supplies the slot. After a failed srd_fit the slot gets std_fit's region, or nothing when std_fit fails too. |
| Planner.SelectAdvances | main.c:249-270 | Whatever region the choice yields is one of the fitters' successful regions, so it starts coverage at `addr` and ends by the block's end when theirs do. |
| Planner.Choose | main.c:249-270 | Any region chosen for a slot is well formed, starts coverage at the current address, and ends after it, at most at the end of the block. |
| Planner.ChoosePrefersSrd | main.c:249-270 | The slot takes srd_fit's region whenever srd_fit succeeds. std_fit decides only when srd_fit fails, and the planner gives up when both fail. |
| Planner.ChooseAtEnd | main.c:249-253 | At or past the end of the block both fitters fail. |
| Planner.PickSlot | main.c:246-270 | One iteration of try_fit's loop yields the slot choice `Choose` specifies. It keeps the short-circuit, the `{0,0,0}` initial regions and the `srd_next > std_next` comparison. |
| Planner.PlanFrom | main.c:244-283 | try_fit's loop from slot `i` at the address reached: the result and the regions written, slot by slot. `PlanFacts` states its outcomes. |
| Planner.PlanBlock | main.c:238-284 | try_fit on a block: the plan from the block's start, slot 0 on. `PlanBlockFacts`, `EmptyBlock` and the three sample lemmas state what it returns. |
| Planner.PlanFacts | main.c:244-283 | From slot `i`, the result is -1, 0, or a count in `i+1..8`. The written regions chain contiguously from the current address. A count means they end exactly at the end of the block. 0 means all remaining slots were used and coverage stopped short. -1 means both fitters fail where coverage stopped. |
| Planner.PlanBlockFacts | main.c:238-284 | try_fit returns -1, 0 or a count from 1 to 8. A count `n` means the `n` written regions tile the block contiguously from its start to its end. 0 means eight regions fell short. -1 means both fitters fail where coverage stopped. |
| Planner.EmptyBlock | main.c:238-253 | An empty block gives -1 with nothing written, so 0 always means the slots ran out. |
| Planner.TryFit | main.c:238-284 | The in-place loop returns the plan's result. Slots `0..n` hold exactly the plan's regions in order, and every later slot keeps its previous contents. |
| Samples.RomPlan | main.c:30 | rom `{0, 1 MiB}` gives `{0, 512K, 0}` and `{0x80000, 512K, 0}`, and try_fit returns 2. |
| Samples.SramPlan | main.c:31 | sram `{0x20000000, 384K}` gives `{0x20000000, 256K, 0}` and `{0x20040000, 128K, 0}`, and try_fit returns 2. |
| Samples.DramPlan | main.c:32 | dram `{0x60000000, 1000K}` gives six std_fit regions of 512K, 256K, 128K, 64K, 32K and 8K, ending exactly at the end of the block, and try_fit returns 6. |

## Left out

- `main`, `report` and the iteration over `MEMORIES` are output and driver code. The sample blocks appear only as inputs to the lemmas in `samples.dfy`.
- `DEBUG_LOG` tracing only prints.
- `merge_region` returns its argument unchanged. Its `num < 0` test is on an unsigned value and never holds.
- The `assert(region)` null-pointer checks are not modelled. The region out-parameters become returned `Fit` values.
- The `memset` in `main` is reflected only in the `Mpu` constructor's all-zero slots.
- `size_t` is 64-bit. 32-bit targets, where `GB(4)` is 0, are not modelled.
- Addresses are unbounded naturals, and 64-bit wrap-around is not modelled in the fitters or the plan.
  - `SrdScan`, `StdScan`, `SrdFit`, `StdFit`, `Choose`, `PlanBlock` and `TryFit` use the unbounded limit tests `SrdGuard` and `StdFits`. That is the corrected behaviour of the two rows under "Findings".
  - When a candidate region's end reaches 2^64, they therefore reject a region the C code accepts. For example, at addr = 2^64 - 4 GiB with limit 2^64 - 2 GiB, main.c:221 accepts `{addr, 4 GiB, 0}`, but `StdScan` returns `{addr, 2 GiB, 0}`.
  - The 64-bit limit tests are stated only by `StdFitsWrapped` and `SrdGuardWrapped`, in the two counterexample lemmas.
  - The wrap of `mem->addr + mem->size` is not modelled either.
- AlignDown: requires a power-of-two alignment. The bit-mask form is computed as `x - x % a`, which agrees with it exactly for powers of two, the only alignments any caller passes.
- AlignUp: requires a power-of-two alignment, for the same reason.
- SubregionDisable: requires `regionSize >= 8` and `regionBase <= addr`.
  - A size below 8 makes `srs` zero, and the division by zero is undefined behaviour.
  - An address below the base would wrap.
  - srd_fit, the only caller, always meets both.
- CalcSrd: has the same two requirements.
- TryFit: after an abort (`AssertFailed`) it states nothing about the slots. The C program would have terminated.
- `is_aligned` is never called in the source; it is modelled as a function only.
- `mem_blk_t.name` is carried in `MemBlock` but unused by `try_fit`; only `report`, which is left out, prints it.
- The model follows a build without `NDEBUG`, where the asserts at main.c:148-153 are active and abort (`AssertFailed`). With `NDEBUG` they compile away: srd_fit at 0x380 with limit 0x400 would then return the misaligned region `{0x300, 0x400, 0x01}` instead of aborting, and an address 0 or four or more subregions would go on unchecked. That build is not modelled.

## Findings

| source | as written | input that shows it | evidently intended | confidence | as-written member | corrected member |
|---|---|---|---|---|---|---|
| main.c:221 | `addr + alignment[i] <= limit` in 64-bit `size_t` | addr = 2^64 - 4 GiB, limit = 2^64 - 2 GiB, entry 4 GiB: the sum wraps to 0 and std_fit accepts a region ending 2 GiB past the block | the region ends by `limit` in unbounded arithmetic | medium; not executed | Fitters.StdGuardWraps | Fitters.StdFitFound |
| main.c:186 | `align_down(addr, size) + size <= limit` in 64-bit `size_t` | addr = 2^64 - 28, limit = 2^64 - 1, entry 32: size 32 and the end 2^64 wraps to 0, so the guard accepts a region one byte past the block | the region ends by `limit` in unbounded arithmetic | medium; not executed | Fitters.SrdGuardWraps | Fitters.SrdFitFound |
