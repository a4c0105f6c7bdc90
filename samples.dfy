/** The three sample blocks of main.c (`rom`, `sram`, `dram`) planned as the code plans them. */
module Samples {
  import opened Alignment
  import opened Outcomes
  import opened Fitters
  import opened Planner

  // ---------------------------------------------------------------------------------------------
  // Tools for pinning down the fitters at a concrete address

  /** A power of two divides every larger power of two. */
  lemma {:induction false} Pow2Divides(a: nat, b: nat)
    requires IsPow2(a) && IsPow2(b) && a <= b
    ensures b % a == 0
    decreases b
  {
    Pow2Positive(a);
    if a < b {
      Pow2Gap(a, b);
      var h := b / 2;
      assert b == 2 * h && IsPow2(h);
      Pow2Divides(a, h);
      ModZeroMultiple(h, a);
      var q := h / a;
      assert b == (2 * q) * a;
      MultipleMod(2 * q, a);
    } else {
      MultipleMod(1, a);
    }
  }

  lemma ModTransitive(x: nat, b: nat, a: nat)
    requires a > 0 && b > 0 && x % b == 0 && b % a == 0
    ensures x % a == 0
  {
    var p, q := x / b, b / a;
    assert x == p * b && b == q * a;
    assert x == (p * q) * a;
    MultipleMod(p * q, a);
  }

  /** srd_fit finds no candidate at `addr` among the entries from `lo` on. */
  predicate NoCandidateFrom(addr: nat, limit: nat, lo: nat) {
    forall j :: lo <= j < |Table| ==> !SrdCandidate(addr, limit, Table[j])
  }

  /** Entries at or above `addr` are never candidates: with none after entry `k` either, there
      is none at all. */
  lemma AboveAddress(addr: nat, limit: nat, k: nat)
    requires k < |Table| && addr <= Table[k] && NoCandidateFrom(addr, limit, k + 1)
    ensures NoCandidateFrom(addr, limit, 0)
  {
    forall j | 0 <= j < k ensures Table[k] < Table[j] {
      TableDescending(j, k);
    }
  }

  /** What entry `lo` divides, every later (smaller) entry divides. */
  lemma EntryDivides(x: nat, lo: nat, j: nat)
    requires lo <= j < |Table| && x % Table[lo] == 0
    ensures x % Table[j] == 0
  {
    TableEntry(j);
    TableEntry(lo);
    if lo < j {
      TableDescending(lo, j);
      Pow2Divides(Table[j], Table[lo]);
      ModTransitive(x, Table[lo], Table[j]);
    }
  }

  /** Once an entry divides `addr`, so does every later one, and a zero remainder gives no
      legal size: no candidate from there on. */
  lemma DividedFrom(addr: nat, limit: nat, k: nat)
    requires k < |Table| && addr % Table[k] == 0
    ensures NoCandidateFrom(addr, limit, k)
  {
    forall j | k <= j < |Table| ensures addr % Table[j] == 0 {
      EntryDivides(addr, k, j);
    }
  }

  /** Entries `lo..hi` all divide `base` and exceed `off`, so at `base + off` each leaves the
      remainder `off`; when that remainder fails srd_fit's test, none is a candidate, and with
      none after `hi` either, there is none from `lo` on. */
  lemma CommonRemainder(base: nat, off: nat, limit: nat, lo: nat, hi: nat)
    requires lo <= hi < |Table| && base % Table[lo] == 0 && off < Table[hi]
    requires !SrdGuard(base + off, limit, 8 * off) && NoCandidateFrom(base + off, limit, hi + 1)
    ensures NoCandidateFrom(base + off, limit, lo)
  {
    forall j | lo <= j <= hi ensures (base + off) % Table[j] == off {
      EntryDivides(base, lo, j);
      if j < hi {
        TableDescending(j, hi);
      }
      TableEntry(j);
      AlignDownOffset(base, off, Table[j]);
    }
  }

  /** srd_fit's guard rejects a legal size whose aligned-down region ends past `limit`. */
  lemma GuardPastLimit(base: nat, off: nat, limit: nat, k: nat)
    requires k < |Table| && base % Table[k] == 0 && off < Table[k] && limit < base + Table[k]
    ensures !SrdGuard(base + off, limit, Table[k])
  {
    TableEntry(k);
    AlignDownOffset(base, off, Table[k]);
  }

  /** srd_fit's guard rejects a size strictly between two neighbouring entries: no power of
      two lies there. */
  lemma GuardBetween(addr: nat, limit: nat, size: nat, k: nat)
    requires k + 1 < |Table| && Table[k + 1] < size < Table[k]
    ensures !SrdGuard(addr, limit, size)
  {
    var a := Table[k + 1];
    TableHalves(k + 1);
    TableEntry(k + 1);
    if IsPow2(size) {
      Pow2Gap(a, size);
    }
  }

  /** srd_fit's guard rejects a size above the largest entry. */
  lemma GuardAboveTable(addr: nat, limit: nat, size: nat)
    requires Table[0] < size
    ensures !SrdGuard(addr, limit, size)
  {
  }

  /** std_fit's region at a nonzero address when entry `k` fits and the room left is less than
      twice it: exactly entry `k`. */
  lemma StdFitExactly(addr: nat, limit: nat, k: nat)
    requires addr > 0 && k < |Table| && StdFits(addr, limit, Table[k])
    requires limit - addr < 2 * Table[k]
    ensures StdScan(addr, limit, 0) == Fit(true, Region(addr, Table[k], 0x00))
  {
    StdFitFound(addr, limit);
    TableEntry(k);
    var size := StdScan(addr, limit, 0).region.size;
    if size > Table[k] {
      Pow2Gap(Table[k], size);
    }
  }

  /** At address 0, with `limit` above entry `k` and at most twice it, both fitters give entry
      `k`. */
  lemma ZeroFitExactly(limit: nat, k: nat)
    requires k < |Table| && Table[k] < limit <= 2 * Table[k]
    ensures SrdScan(0, limit, 0) == Done(Fit(true, Region(0, Table[k], 0x00)))
  {
    ZeroAddressFit(limit);
    TableEntry(k);
    hide SrdScan, StdScan;
    assert Table[k] in Table;
    var r := StdScan(0, limit, 0).region;
    if r.size > Table[k] {
      Pow2Gap(Table[k], r.size);
    }
    assert r == Region(0, Table[k], 0x00);
  }

  /** A slot where srd_fit finds no candidate and std_fit gives entry `k`. */
  lemma StdSlot(addr: nat, end: nat, k: nat)
    requires addr > 0 && k < |Table| && StdFits(addr, end, Table[k]) && end - addr < 2 * Table[k]
    requires NoCandidateFrom(addr, end, 0)
    ensures Choose(addr, end) == Done(Some(Region(addr, Table[k], 0x00)))
  {
    SrdFitFound(addr, end);
    StdFitExactly(addr, end, k);
    ChoosePrefersSrd(addr, end);
  }

  /** A slot that places region `r` at `addr`, as seen from the plan. */
  lemma PlanSlot(addr: nat, end: nat, i: nat, r: Region)
    requires i < MpuRegions && Choose(addr, end) == Done(Some(r))
    ensures PlanFrom(addr, end, i) ==
      if End(r) < end then Prepend([r], PlanFrom(End(r), end, i + 1)) else Done(Plan(i + 1, [r]))
  {
    hide Choose, PlanFrom;
    PlanFromStep(addr, end, i);
  }

  // ---------------------------------------------------------------------------------------------
  // rom: 1 MiB at address 0

  /** At 0 both fitters take 512 KiB, the largest entry strictly below 1 MiB. */
  lemma RomSlot0()
    ensures Choose(0, MiB) == Done(Some(Region(0, 512 * KiB, 0x00)))
  {
    hide Choose, SrdScan, StdScan;
    ZeroFitExactly(MiB, 13);
    ChoosePrefersSrd(0, MiB);
  }

  /** At 512 KiB srd_fit has no candidate and std_fit takes the remaining 512 KiB. */
  lemma RomSlot1()
    ensures Choose(0x8_0000, MiB) == Done(Some(Region(0x8_0000, 512 * KiB, 0x00)))
  {
    hide Choose, SrdScan, StdScan, SrdCandidate, SrdGuard, NoCandidateFrom;
    DividedFrom(0x8_0000, MiB, 14);
    AboveAddress(0x8_0000, MiB, 13);
    StdSlot(0x8_0000, MiB, 13);
  }

  /** rom `{0, 1 MiB}`: the strict `<` at address 0 rules out a 1 MiB region, so srd_fit
      places 512 KiB at 0 and std_fit the other 512 KiB; try_fit returns 2. */
  lemma RomPlan()
    ensures PlanBlock(MemBlock("rom", 0, MiB)) ==
      Done(Plan(2, [Region(0, 512 * KiB, 0x00), Region(0x8_0000, 512 * KiB, 0x00)]))
  {
    hide Choose, PlanFrom;
    var r0, r1 := Region(0, 512 * KiB, 0x00), Region(0x8_0000, 512 * KiB, 0x00);
    RomSlot0();
    RomSlot1();
    PlanSlot(0, MiB, 0, r0);
    PlanSlot(0x8_0000, MiB, 1, r1);
    assert [r0] + [r1] == [r0, r1];
  }

  // ---------------------------------------------------------------------------------------------
  // sram: 384 KiB at 0x2000_0000

  lemma SramSlot0()
    ensures Choose(0x2000_0000, 0x2006_0000) == Done(Some(Region(0x2000_0000, 256 * KiB, 0x00)))
  {
    hide Choose, SrdScan, StdScan, SrdCandidate, SrdGuard, NoCandidateFrom;
    var addr, end := 0x2000_0000, 0x2006_0000;
    DividedFrom(addr, end, 4);
    AboveAddress(addr, end, 3);
    StdSlot(addr, end, 14);
  }

  lemma SramSlot1()
    ensures Choose(0x2004_0000, 0x2006_0000) == Done(Some(Region(0x2004_0000, 128 * KiB, 0x00)))
  {
    hide Choose, SrdScan, StdScan, SrdCandidate, SrdGuard, NoCandidateFrom;
    var addr, end := 0x2004_0000, 0x2006_0000;
    DividedFrom(addr, end, 14);
    GuardPastLimit(0x2000_0000, 0x4_0000, end, 11);
    CommonRemainder(0x2000_0000, 0x4_0000, end, 3, 13);
    AboveAddress(addr, end, 2);
    StdSlot(addr, end, 15);
  }

  /** sram `{0x2000_0000, 384 KiB}`: 256 KiB then 128 KiB, both from std_fit. */
  lemma SramPlan()
    ensures PlanBlock(MemBlock("sram", 0x2000_0000, 384 * KiB)) ==
      Done(Plan(2, [Region(0x2000_0000, 256 * KiB, 0x00), Region(0x2004_0000, 128 * KiB, 0x00)]))
  {
    hide Choose, PlanFrom;
    var r0, r1 := Region(0x2000_0000, 256 * KiB, 0x00), Region(0x2004_0000, 128 * KiB, 0x00);
    SramSlot0();
    SramSlot1();
    PlanSlot(0x2000_0000, 0x2006_0000, 0, r0);
    PlanSlot(0x2004_0000, 0x2006_0000, 1, r1);
    assert [r0] + [r1] == [r0, r1];
  }

  // ---------------------------------------------------------------------------------------------
  // dram: 1000 KiB at 0x6000_0000, ending at 0x600F_A000. At every address the 2 GiB and 4 GiB
  // entries lie above it, the 1 GiB entry asks for a region of 4 GiB or more, and the entries
  // that divide the address give no subregion; the remaining entries are ruled out one
  // remainder at a time. `DramKNoCandidateFromJ` states that at the address of slot K no table
  // entry from J on gives srd_fit a candidate.

  lemma Dram0NoCandidateFrom0()
    ensures NoCandidateFrom(0x6000_0000, 0x600F_A000, 0)
  {
    hide SrdCandidate, SrdGuard, NoCandidateFrom;
    var addr, end := 0x6000_0000, 0x600F_A000;
    DividedFrom(addr, end, 3);
    GuardPastLimit(0, addr, end, 0);
    CommonRemainder(GiB, addr - GiB, end, 2, 2);
    AboveAddress(addr, end, 1);
  }

  lemma DramSlot0()
    ensures Choose(0x6000_0000, 0x600F_A000) == Done(Some(Region(0x6000_0000, 512 * KiB, 0x00)))
  {
    hide Choose, SrdScan, StdScan, SrdCandidate, SrdGuard, NoCandidateFrom;
    var addr, end := 0x6000_0000, 0x600F_A000;
    Dram0NoCandidateFrom0();
    StdSlot(addr, end, 13);
  }

  lemma Dram1NoCandidateFrom2()
    ensures NoCandidateFrom(0x6008_0000, 0x600F_A000, 2)
  {
    hide SrdCandidate, SrdGuard, NoCandidateFrom;
    var addr, end := 0x6008_0000, 0x600F_A000;
    DividedFrom(addr, end, 13);
    GuardPastLimit(0x6000_0000, 0x8_0000, end, 10);
    CommonRemainder(0x6000_0000, 0x8_0000, end, 3, 12);
    GuardAboveTable(addr, end, 8 * (addr - GiB));
    CommonRemainder(GiB, addr - GiB, end, 2, 2);
  }

  lemma Dram1NoCandidateFrom0()
    ensures NoCandidateFrom(0x6008_0000, 0x600F_A000, 0)
  {
    hide SrdCandidate, SrdGuard, NoCandidateFrom;
    var addr, end := 0x6008_0000, 0x600F_A000;
    Dram1NoCandidateFrom2();
    AboveAddress(addr, end, 1);
  }

  lemma DramSlot1()
    ensures Choose(0x6008_0000, 0x600F_A000) == Done(Some(Region(0x6008_0000, 256 * KiB, 0x00)))
  {
    hide Choose, SrdScan, StdScan, SrdCandidate, SrdGuard, NoCandidateFrom;
    var addr, end := 0x6008_0000, 0x600F_A000;
    Dram1NoCandidateFrom0();
    StdSlot(addr, end, 14);
  }

  lemma Dram2NoCandidateFrom3()
    ensures NoCandidateFrom(0x600C_0000, 0x600F_A000, 3)
  {
    hide SrdCandidate, SrdGuard, NoCandidateFrom;
    var addr, end := 0x600C_0000, 0x600F_A000;
    DividedFrom(addr, end, 14);
    GuardPastLimit(0x6000_0000, 0xC_0000, end, 11);
    CommonRemainder(0x6008_0000, 0x4_0000, end, 13, 13);
    GuardBetween(addr, end, 0x60_0000, 9);
    CommonRemainder(0x6000_0000, 0xC_0000, end, 3, 12);
  }

  lemma Dram2NoCandidateFrom0()
    ensures NoCandidateFrom(0x600C_0000, 0x600F_A000, 0)
  {
    hide SrdCandidate, SrdGuard, NoCandidateFrom;
    var addr, end := 0x600C_0000, 0x600F_A000;
    Dram2NoCandidateFrom3();
    GuardAboveTable(addr, end, 8 * (addr - GiB));
    CommonRemainder(GiB, addr - GiB, end, 2, 2);
    AboveAddress(addr, end, 1);
  }

  lemma DramSlot2()
    ensures Choose(0x600C_0000, 0x600F_A000) == Done(Some(Region(0x600C_0000, 128 * KiB, 0x00)))
  {
    hide Choose, SrdScan, StdScan, SrdCandidate, SrdGuard, NoCandidateFrom;
    var addr, end := 0x600C_0000, 0x600F_A000;
    Dram2NoCandidateFrom0();
    StdSlot(addr, end, 15);
  }

  lemma Dram3NoCandidateFrom13()
    ensures NoCandidateFrom(0x600E_0000, 0x600F_A000, 13)
  {
    hide SrdCandidate, SrdGuard, NoCandidateFrom;
    var addr, end := 0x600E_0000, 0x600F_A000;
    DividedFrom(addr, end, 15);
    GuardPastLimit(0x6000_0000, 0xE_0000, end, 12);
    CommonRemainder(0x600C_0000, 0x2_0000, end, 14, 14);
    GuardBetween(addr, end, 0x30_0000, 10);
    CommonRemainder(0x6008_0000, 0x6_0000, end, 13, 13);
  }

  lemma Dram3NoCandidateFrom0()
    ensures NoCandidateFrom(0x600E_0000, 0x600F_A000, 0)
  {
    hide SrdCandidate, SrdGuard, NoCandidateFrom;
    var addr, end := 0x600E_0000, 0x600F_A000;
    Dram3NoCandidateFrom13();
    GuardBetween(addr, end, 0x70_0000, 9);
    CommonRemainder(0x6000_0000, 0xE_0000, end, 3, 12);
    GuardAboveTable(addr, end, 8 * (addr - GiB));
    CommonRemainder(GiB, addr - GiB, end, 2, 2);
    AboveAddress(addr, end, 1);
  }

  lemma DramSlot3()
    ensures Choose(0x600E_0000, 0x600F_A000) == Done(Some(Region(0x600E_0000, 64 * KiB, 0x00)))
  {
    hide Choose, SrdScan, StdScan, SrdCandidate, SrdGuard, NoCandidateFrom;
    var addr, end := 0x600E_0000, 0x600F_A000;
    Dram3NoCandidateFrom0();
    StdSlot(addr, end, 16);
  }

  lemma Dram4NoCandidateFrom14()
    ensures NoCandidateFrom(0x600F_0000, 0x600F_A000, 14)
  {
    hide SrdCandidate, SrdGuard, NoCandidateFrom;
    var addr, end := 0x600F_0000, 0x600F_A000;
    DividedFrom(addr, end, 16);
    GuardPastLimit(0x6008_0000, 0x7_0000, end, 13);
    CommonRemainder(0x600E_0000, 0x1_0000, end, 15, 15);
    GuardBetween(addr, end, 0x18_0000, 11);
    CommonRemainder(0x600C_0000, 0x3_0000, end, 14, 14);
  }

  lemma Dram4NoCandidateFrom2()
    ensures NoCandidateFrom(0x600F_0000, 0x600F_A000, 2)
  {
    hide SrdCandidate, SrdGuard, NoCandidateFrom;
    var addr, end := 0x600F_0000, 0x600F_A000;
    Dram4NoCandidateFrom14();
    GuardBetween(addr, end, 0x38_0000, 10);
    CommonRemainder(0x6008_0000, 0x7_0000, end, 13, 13);
    GuardBetween(addr, end, 0x78_0000, 9);
    CommonRemainder(0x6000_0000, 0xF_0000, end, 3, 12);
    GuardAboveTable(addr, end, 8 * (addr - GiB));
    CommonRemainder(GiB, addr - GiB, end, 2, 2);
  }

  lemma Dram4NoCandidateFrom0()
    ensures NoCandidateFrom(0x600F_0000, 0x600F_A000, 0)
  {
    hide SrdCandidate, SrdGuard, NoCandidateFrom;
    var addr, end := 0x600F_0000, 0x600F_A000;
    Dram4NoCandidateFrom2();
    AboveAddress(addr, end, 1);
  }

  lemma DramSlot4()
    ensures Choose(0x600F_0000, 0x600F_A000) == Done(Some(Region(0x600F_0000, 32 * KiB, 0x00)))
  {
    hide Choose, SrdScan, StdScan, SrdCandidate, SrdGuard, NoCandidateFrom;
    var addr, end := 0x600F_0000, 0x600F_A000;
    Dram4NoCandidateFrom0();
    StdSlot(addr, end, 17);
  }

  lemma Dram5NoCandidateFrom15()
    ensures NoCandidateFrom(0x600F_8000, 0x600F_A000, 15)
  {
    hide SrdCandidate, SrdGuard, NoCandidateFrom;
    var addr, end := 0x600F_8000, 0x600F_A000;
    DividedFrom(addr, end, 17);
    GuardPastLimit(0x600C_0000, 0x3_8000, end, 14);
    CommonRemainder(0x600F_0000, 0x8000, end, 16, 16);
    GuardBetween(addr, end, 0xC_0000, 12);
    CommonRemainder(0x600E_0000, 0x1_8000, end, 15, 15);
  }

  lemma Dram5NoCandidateFrom3()
    ensures NoCandidateFrom(0x600F_8000, 0x600F_A000, 3)
  {
    hide SrdCandidate, SrdGuard, NoCandidateFrom;
    var addr, end := 0x600F_8000, 0x600F_A000;
    Dram5NoCandidateFrom15();
    GuardBetween(addr, end, 0x1C_0000, 11);
    CommonRemainder(0x600C_0000, 0x3_8000, end, 14, 14);
    GuardBetween(addr, end, 0x3C_0000, 10);
    CommonRemainder(0x6008_0000, 0x7_8000, end, 13, 13);
    GuardBetween(addr, end, 0x7C_0000, 9);
    CommonRemainder(0x6000_0000, 0xF_8000, end, 3, 12);
  }

  lemma Dram5NoCandidateFrom0()
    ensures NoCandidateFrom(0x600F_8000, 0x600F_A000, 0)
  {
    hide SrdCandidate, SrdGuard, NoCandidateFrom;
    var addr, end := 0x600F_8000, 0x600F_A000;
    Dram5NoCandidateFrom3();
    GuardAboveTable(addr, end, 8 * (addr - GiB));
    CommonRemainder(GiB, addr - GiB, end, 2, 2);
    AboveAddress(addr, end, 1);
  }

  lemma DramSlot5()
    ensures Choose(0x600F_8000, 0x600F_A000) == Done(Some(Region(0x600F_8000, 8 * KiB, 0x00)))
  {
    hide Choose, SrdScan, StdScan, SrdCandidate, SrdGuard, NoCandidateFrom;
    var addr, end := 0x600F_8000, 0x600F_A000;
    Dram5NoCandidateFrom0();
    StdSlot(addr, end, 19);
  }

  /** The dram plan from slot `i` on, at the address where slot `i` starts. */
  lemma DramPlanFrom4()
    ensures PlanFrom(0x600F_0000, 0x600F_A000, 4) ==
      Done(Plan(6, [Region(0x600F_0000, 32 * KiB, 0x00), Region(0x600F_8000, 8 * KiB, 0x00)]))
  {
    hide Choose, PlanFrom;
    var end := 0x600F_A000;
    var r4, r5 := Region(0x600F_0000, 32 * KiB, 0x00), Region(0x600F_8000, 8 * KiB, 0x00);
    DramSlot5();
    PlanSlot(0x600F_8000, end, 5, r5);
    DramSlot4();
    PlanSlot(0x600F_0000, end, 4, r4);
    assert [r4] + [r5] == [r4, r5];
  }

  lemma DramPlanFrom2()
    ensures PlanFrom(0x600C_0000, 0x600F_A000, 2) ==
      Done(Plan(6, [Region(0x600C_0000, 128 * KiB, 0x00), Region(0x600E_0000, 64 * KiB, 0x00),
                    Region(0x600F_0000, 32 * KiB, 0x00), Region(0x600F_8000, 8 * KiB, 0x00)]))
  {
    hide Choose, PlanFrom;
    var end := 0x600F_A000;
    var r2, r3 := Region(0x600C_0000, 128 * KiB, 0x00), Region(0x600E_0000, 64 * KiB, 0x00);
    var r4, r5 := Region(0x600F_0000, 32 * KiB, 0x00), Region(0x600F_8000, 8 * KiB, 0x00);
    DramPlanFrom4();
    DramSlot3();
    PlanSlot(0x600E_0000, end, 3, r3);
    DramSlot2();
    PlanSlot(0x600C_0000, end, 2, r2);
    assert [r2] + ([r3] + [r4, r5]) == [r2, r3, r4, r5];
  }

  /** dram `{0x6000_0000, 1000 KiB}`: six std_fit regions of 512, 256, 128, 64, 32 and 8 KiB,
      the last ending exactly at the end of the block; try_fit returns 6. */
  lemma DramPlan()
    ensures PlanBlock(MemBlock("dram", 0x6000_0000, 1000 * KiB)) ==
      Done(Plan(6, [Region(0x6000_0000, 512 * KiB, 0x00), Region(0x6008_0000, 256 * KiB, 0x00),
                    Region(0x600C_0000, 128 * KiB, 0x00), Region(0x600E_0000, 64 * KiB, 0x00),
                    Region(0x600F_0000, 32 * KiB, 0x00), Region(0x600F_8000, 8 * KiB, 0x00)]))
  {
    hide Choose, PlanFrom;
    var end := 0x600F_A000;
    var r0, r1 := Region(0x6000_0000, 512 * KiB, 0x00), Region(0x6008_0000, 256 * KiB, 0x00);
    var rest := [Region(0x600C_0000, 128 * KiB, 0x00), Region(0x600E_0000, 64 * KiB, 0x00),
                 Region(0x600F_0000, 32 * KiB, 0x00), Region(0x600F_8000, 8 * KiB, 0x00)];
    DramPlanFrom2();
    DramSlot1();
    PlanSlot(0x6008_0000, end, 1, r1);
    assert PlanFrom(0x6008_0000, end, 1) == Done(Plan(6, [r1] + rest));
    DramSlot0();
    PlanSlot(0x6000_0000, end, 0, r0);
    assert [r0] + ([r1] + rest) == [r0, r1, rest[0], rest[1], rest[2], rest[3]];
  }
}
