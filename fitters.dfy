/** The two single-region fitters of main.c: srd_fit, which may start coverage inside a region
    by disabling its first subregion, and std_fit, which places a naturally aligned region at
    the address itself. */
module Fitters {
  import opened Alignment
  import opened Subregion
  import opened Outcomes

  /** region_t: one MPU region descriptor. */
  datatype Region = Region(baseAddr: nat, size: nat, srd: bv8)

  /** What a fitter that finds nothing writes through its region pointer. */
  function Sentinel(): Region { Region(0, 0, 0xFF) }

  /** A fitter's boolean result together with the region it wrote through its pointer. */
  datatype Fit = Fit(ok: bool, region: Region)

  /** First address past the region. */
  function End(r: Region): nat {
    r.baseAddr + r.size
  }

  /** The extent of `k` consecutive subregions of `s` bytes each. */
  function Span(k: nat, s: nat): (n: nat)
    decreases k
  {
    if k == 0 then 0 else s + Span(k - 1, s)
  }

  /** First address the region actually covers, past its disabled subregions. */
  function EffectiveStart(r: Region): nat {
    r.baseAddr + Span(DisabledPrefix(r.srd), r.size / Subregions)
  }

  /** A descriptor the hardware accepts: a legal size, a base aligned to it, and a mask that
      disables a run of fewer than four subregions from the bottom. */
  predicate WellFormed(r: Region) {
    Legal(r.size) && r.size > 0 && r.baseAddr % r.size == 0 && r.srd in {0x00, 0x01, 0x03, 0x07}
  }

  /** Region `r` is well formed, starts its coverage at `addr` and ends strictly after it. */
  predicate Starts(r: Region, addr: nat) {
    WellFormed(r) && EffectiveStart(r) == addr && addr < End(r)
  }

  /** Region `r` is well formed, starts its coverage at `addr`, and ends after it, by `limit`. */
  predicate Advances(r: Region, addr: nat, limit: nat) {
    Starts(r, addr) && End(r) <= limit
  }

  /** A region that advances ends past `addr` and by `limit`. */
  lemma AdvancesEnds(r: Region, addr: nat, limit: nat)
    requires Advances(r, addr, limit)
    ensures addr < End(r) <= limit
  {
  }

  /** With only subregion 0 disabled, coverage starts one subregion above the base. */
  lemma OneSubregionStart(r: Region)
    requires r.srd == 0x01
    ensures EffectiveStart(r) == r.baseAddr + r.size / Subregions
  {
    DisabledPrefixOfLowBits(1);
    assert LowBits(1) == 0x01;
  }

  /** With no subregion disabled, coverage starts at the base. */
  lemma NoSubregionStart(r: Region)
    requires r.srd == 0x00
    ensures EffectiveStart(r) == r.baseAddr
  {
    DisabledPrefixOfLowBits(0);
    assert LowBits(0) == 0x00;
  }

  // ---------------------------------------------------------------------------------------------
  // The tests the two fitters apply to a table entry

  /** `is_legal(size) && align_down(addr, size) + size <= limit`, with unbounded addition. */
  predicate SrdGuard(addr: nat, limit: nat, size: nat) {
    Legal(size) && AlignDown(addr, size) + size <= limit
  }

  /** Entry `a` gives srd_fit a candidate at a nonzero `addr`: `a < addr`, and eight times the
      remainder of `addr` by `a` passes SrdGuard. */
  predicate SrdCandidate(addr: nat, limit: nat, a: nat) {
    0 < a < addr && SrdGuard(addr, limit, 8 * (addr % a))
  }

  /** `addr >= alignment[i] && 0 == addr % alignment[i] && addr + alignment[i] <= limit`. */
  predicate StdFits(addr: nat, limit: nat, a: nat) {
    0 < a <= addr && addr % a == 0 && addr + a <= limit
  }

  /** `addr - (addr / a) * a`, srd_fit's `srs`, is the remainder of `addr` by `a`. */
  lemma QuotientSplit(addr: nat, a: nat)
    requires a > 0
    ensures (addr / a) * a <= addr && addr - (addr / a) * a == addr % a
  {
  }

  // ---------------------------------------------------------------------------------------------
  // The scans, as specification functions: the outcome of the table loop from index `i` on

  /** What srd_fit does with a candidate entry `a`: base `addr - addr % a` (the source's
      `quotient * alignment[i]`), size eight times the remainder, mask from calc_srd. */
  function SrdPick(addr: nat, limit: nat, a: nat): Outcome<Fit>
    requires SrdCandidate(addr, limit, a)
  {
    var srs := addr % a;
    var size := 8 * srs;
    var base := addr - srs;
    match SubregionDisable(addr, base, size)
    case AssertFailed => AssertFailed
    case Done(m) => Done(Fit(true, Region(base, size, m)))
  }

  function SrdScan(addr: nat, limit: nat, i: nat): Outcome<Fit>
    requires i <= |Table|
    decreases |Table| - i
  {
    if i == |Table| then
      Done(Fit(false, Sentinel()))
    else if addr == 0 && Table[i] < limit then
      TableEntry(i);
      AlignUpSmallest(Table[i]);
      Done(Fit(true, Region(addr, addr + AlignUp(Smallest, Table[i]), 0x00)))
    else if addr > 0 && SrdCandidate(addr, limit, Table[i]) then
      SrdPick(addr, limit, Table[i])
    else
      SrdScan(addr, limit, i + 1)
  }

  function StdScan(addr: nat, limit: nat, i: nat): Fit
    requires i <= |Table|
    decreases |Table| - i
  {
    if i == |Table| then
      Fit(false, Sentinel())
    else if addr == 0 && Table[i] < limit then
      TableEntry(i);
      AlignUpSmallest(Table[i]);
      Fit(true, Region(addr, addr + AlignUp(Smallest, Table[i]), 0x00))
    else if addr > 0 && StdFits(addr, limit, Table[i]) then
      Fit(true, Region(addr, Table[i], 0x00))
    else
      StdScan(addr, limit, i + 1)
  }

  // ---------------------------------------------------------------------------------------------
  // The fitters as written: a loop over the table that returns at the first match

  /** One step of the srd scan at entry `i`. */
  lemma SrdScanStep(addr: nat, limit: nat, i: nat)
    requires i < |Table|
    ensures addr == 0 && Table[i] < limit ==>
      Legal(Table[i]) && SrdScan(addr, limit, i) == Done(Fit(true, Region(addr, Table[i], 0x00)))
    ensures addr > 0 && SrdCandidate(addr, limit, Table[i]) ==>
      SrdScan(addr, limit, i) == SrdPick(addr, limit, Table[i])
    ensures !(addr == 0 && Table[i] < limit) && !(addr > 0 && SrdCandidate(addr, limit, Table[i])) ==>
      SrdScan(addr, limit, i) == SrdScan(addr, limit, i + 1)
  {
    TableEntry(i);
    AlignUpSmallest(Table[i]);
  }

  /** The body of srd_fit's loop for an entry `a` below a nonzero `addr`: the remainder `srs`
      of `addr` by `a`, the region size `srs * 8`, its legality and limit test, then calc_srd on
      the base `quotient * a`. `hit` says whether the entry was taken. */
  method SrdEntry(addr: nat, limit: nat, a: nat) returns (hit: bool, r: Outcome<Fit>)
    requires 0 < a < addr
    ensures hit <==> SrdCandidate(addr, limit, a)
    ensures hit ==> r == SrdPick(addr, limit, a)
  {
    var quotient := addr / a;
    var srs := addr - quotient * a;
    QuotientSplit(addr, a);
    var size := srs * 8;
    var legal := IsLegal(size);
    if legal && AlignDown(addr, size) + size <= limit {
      var base := quotient * a;
      var srd := CalcSrd(addr, base, size);
      match srd
      case AssertFailed =>
        return true, AssertFailed;
      case Done(m) =>
        return true, Done(Fit(true, Region(base, size, m)));
    }
    return false, Done(Fit(false, Sentinel()));
  }

  method SrdFit(addr: nat, limit: nat) returns (r: Outcome<Fit>)
    ensures r == SrdScan(addr, limit, 0)
  {
    for i := 0 to |Table|
      invariant SrdScan(addr, limit, i) == SrdScan(addr, limit, 0)
    {
      hide SrdScan;
      SrdScanStep(addr, limit, i);
      if addr == 0 && Table[i] < limit {
        TableEntry(i);
        AlignUpSmallest(Table[i]);
        return Done(Fit(true, Region(addr, addr + AlignUp(Smallest, Table[i]), 0x00)));
      }
      if addr > 0 && addr > Table[i] {
        TableEntry(i);
        var hit, out := SrdEntry(addr, limit, Table[i]);
        if hit {
          return out;
        }
      }
    }
    return Done(Fit(false, Sentinel()));
  }

  method StdFit(addr: nat, limit: nat) returns (r: Fit)
    ensures r == StdScan(addr, limit, 0)
  {
    for i := 0 to |Table|
      invariant StdScan(addr, limit, i) == StdScan(addr, limit, 0)
    {
      if addr == 0 && Table[i] < limit {
        TableEntry(i);
        AlignUpSmallest(Table[i]);
        return Fit(true, Region(addr, addr + AlignUp(Smallest, Table[i]), 0x00));
      }
      if addr > 0 && addr >= Table[i] {
        TableEntry(i);
        if addr % Table[i] == 0 && addr + Table[i] <= limit {
          return Fit(true, Region(addr, Table[i], 0x00));
        }
      }
    }
    return Fit(false, Sentinel());
  }

  // ---------------------------------------------------------------------------------------------
  // Address 0: the branch both fitters share

  lemma {:induction false} ZeroScanFrom(limit: nat, i: nat)
    requires i <= |Table|
    ensures SrdScan(0, limit, i) == Done(StdScan(0, limit, i))
    ensures var f := StdScan(0, limit, i);
      && (i < |Table| ==> (f.ok <==> Smallest < limit))
      && (f.ok ==> f.region.baseAddr == 0 && f.region.srd == 0x00 && Legal(f.region.size)
                   && f.region.size < limit)
      && (f.ok ==> forall j :: i <= j < |Table| && Table[j] < limit ==> Table[j] <= f.region.size)
      && (!f.ok ==> f.region == Sentinel())
    decreases |Table| - i
  {
    if i < |Table| {
      if Table[i] < limit {
        TableEntry(i);
        AlignUpSmallest(Table[i]);
        forall j | i < j < |Table| ensures Table[j] <= Table[i] {
          TableDescending(i, j);
        }
      } else {
        ZeroScanFrom(limit, i + 1);
        if i + 1 == |Table| {
          assert Table[i] == Smallest;
        }
      }
    }
  }

  /** At address 0 both fitters return the largest table entry strictly below `limit` as a
      region at 0 with no subregion disabled, and fail with the sentinel when `limit` is at most
      32 bytes. */
  lemma ZeroAddressFit(limit: nat)
    ensures SrdScan(0, limit, 0) == Done(StdScan(0, limit, 0))
    ensures StdScan(0, limit, 0).ok <==> Smallest < limit
    ensures var r := StdScan(0, limit, 0).region;
      StdScan(0, limit, 0).ok ==>
        && r.baseAddr == 0 && r.srd == 0x00 && Legal(r.size) && r.size < limit
        && forall s :: s in Table && s < limit ==> s <= r.size
    ensures !StdScan(0, limit, 0).ok ==> StdScan(0, limit, 0).region == Sentinel()
  {
    ZeroScanFrom(limit, 0);
  }

  // ---------------------------------------------------------------------------------------------
  // std_fit at a nonzero address

  /** Index of the first entry from `i` on that std_fit accepts at `addr`, or |Table|. */
  function FirstStdFit(addr: nat, limit: nat, i: nat): (j: nat)
    requires i <= |Table|
    ensures i <= j <= |Table|
    ensures forall k :: i <= k < j ==> !StdFits(addr, limit, Table[k])
    ensures j < |Table| ==> StdFits(addr, limit, Table[j])
    decreases |Table| - i
  {
    hide StdFits;
    if i == |Table| || StdFits(addr, limit, Table[i]) then i
    else FirstStdFit(addr, limit, i + 1)
  }

  /** At a nonzero address std_fit returns the first entry it accepts. */
  lemma {:induction false} StdScanFirst(addr: nat, limit: nat, i: nat)
    requires addr > 0 && i <= |Table|
    ensures var j := FirstStdFit(addr, limit, i);
      StdScan(addr, limit, i) ==
        if j == |Table| then Fit(false, Sentinel()) else Fit(true, Region(addr, Table[j], 0x00))
    decreases |Table| - i
  {
    if i < |Table| && !StdFits(addr, limit, Table[i]) {
      StdScanFirst(addr, limit, i + 1);
    }
  }

  /** std_fit at a nonzero address succeeds exactly when some table entry is at most `addr`,
      divides it, and ends by `limit`; it then returns the largest such entry as a region based
      at `addr` with no subregion disabled. Otherwise it writes the sentinel. */
  lemma StdFitFound(addr: nat, limit: nat)
    requires addr > 0
    ensures var f := StdScan(addr, limit, 0);
      && (f.ok <==> exists j :: 0 <= j < |Table| && StdFits(addr, limit, Table[j]))
      && (f.ok ==>
            && f.region.baseAddr == addr && f.region.srd == 0x00 && Legal(f.region.size)
            && f.region.size <= addr && addr % f.region.size == 0
            && addr + f.region.size <= limit
            && forall j :: 0 <= j < |Table| && Table[j] > f.region.size ==>
                 !StdFits(addr, limit, Table[j]))
      && (!f.ok ==> f.region == Sentinel())
  {
    StdScanFirst(addr, limit, 0);
    hide StdScan, FirstStdFit;
    var j := FirstStdFit(addr, limit, 0);
    if j < |Table| {
      TableEntry(j);
      FirstStdFitLargest(addr, limit);
    }
  }

  /** No entry larger than the first accepted one is accepted. */
  lemma FirstStdFitLargest(addr: nat, limit: nat)
    requires FirstStdFit(addr, limit, 0) < |Table|
    ensures var j := FirstStdFit(addr, limit, 0);
      forall k :: 0 <= k < |Table| && Table[k] > Table[j] ==> !StdFits(addr, limit, Table[k])
  {
    hide StdFits, FirstStdFit;
    var j := FirstStdFit(addr, limit, 0);
    forall k | 0 <= k < |Table| && Table[k] > Table[j]
      ensures !StdFits(addr, limit, Table[k])
    {
      if j < k {
        TableDescending(j, k);
      }
    }
  }

  // ---------------------------------------------------------------------------------------------
  // srd_fit at a nonzero address

  /** What srd_fit yields at a candidate entry: an abort exactly when the base is not a multiple
      of the size, and otherwise a region with one disabled subregion that starts coverage at
      `addr` and ends by `limit`. */
  lemma SrdPickFacts(addr: nat, limit: nat, a: nat)
    requires SrdCandidate(addr, limit, a)
    ensures var size := 8 * (addr % a);
      var base := addr - addr % a;
      var o := SrdPick(addr, limit, a);
      && size > 0
      && (o.AssertFailed? <==> base % size != 0)
      && (o.Done? ==>
            && o.value == Fit(true, Region(base, size, 0x01))
            && base + size / 8 == addr
            && Advances(o.value.region, addr, limit))
  {
    var srs := addr % a;
    var size := 8 * srs;
    var base := addr - srs;
    assert size / 8 == srs;
    if base % size == 0 {
      OneSubregionMask(base, srs);
      AlignDownOffset(base, srs, size);
      OneSubregionStart(Region(base, size, 0x01));
    }
  }

  /** Outcome `o` is what srd_fit does with entry `a`: abort exactly when the base is not a
      multiple of the size, else the region of base `addr - addr % a`, size `8 * (addr % a)`
      and mask 0x01. */
  predicate SrdPicked(addr: nat, a: nat, o: Outcome<Fit>)
    requires a > 0
  {
    var size := 8 * (addr % a);
    var base := addr - addr % a;
    && (o.AssertFailed? <==> size == 0 || base % size != 0)
    && (o.Done? ==> o.value == Fit(true, Region(base, size, 0x01)))
  }

  /** Index of the first entry from `i` on that gives srd_fit a candidate, or |Table|. */
  function FirstSrdCandidate(addr: nat, limit: nat, i: nat): (j: nat)
    requires i <= |Table|
    ensures i <= j <= |Table|
    ensures forall k :: i <= k < j ==> !SrdCandidate(addr, limit, Table[k])
    ensures j < |Table| ==> SrdCandidate(addr, limit, Table[j])
    decreases |Table| - i
  {
    if i == |Table| then i
    else if SrdCandidate(addr, limit, Table[i]) then i
    else hide SrdCandidate; FirstSrdCandidate(addr, limit, i + 1)
  }

  /** At a nonzero address srd_fit acts on the first candidate entry of the table. */
  lemma {:induction false} SrdScanFirst(addr: nat, limit: nat, i: nat)
    requires addr > 0 && i <= |Table|
    ensures var j := FirstSrdCandidate(addr, limit, i);
      SrdScan(addr, limit, i) ==
        if j == |Table| then Done(Fit(false, Sentinel())) else SrdPick(addr, limit, Table[j])
    decreases |Table| - i
  {
    if i < |Table| && !SrdCandidate(addr, limit, Table[i]) {
      SrdScanFirst(addr, limit, i + 1);
    }
  }

  /** srd_fit at a nonzero address. It fails, writing the sentinel, exactly when no table entry
      is a candidate. Otherwise it acts on the first candidate entry `Table[j]`, which is the
      largest as the table descends: it aborts exactly when the base `addr - addr % Table[j]` is
      not a multiple of the size `8 * (addr % Table[j])` (the assert at main.c:149), and else
      returns a well-formed region with exactly one disabled subregion (mask 0x01), whose
      coverage starts at `addr` and ends by `limit`. */
  lemma SrdFitFound(addr: nat, limit: nat)
    requires addr > 0
    ensures var o := SrdScan(addr, limit, 0);
      && (o == Done(Fit(false, Sentinel())) <==>
            forall j :: 0 <= j < |Table| ==> !SrdCandidate(addr, limit, Table[j]))
      && (o.Done? ==> o.value.ok || o.value.region == Sentinel())
      && (o != Done(Fit(false, Sentinel())) ==>
            exists j :: && 0 <= j < |Table| && SrdCandidate(addr, limit, Table[j])
                        && (forall k :: 0 <= k < j ==> !SrdCandidate(addr, limit, Table[k]))
                        && SrdPicked(addr, Table[j], o))
      && (o.Done? && o.value.ok ==>
            var r := o.value.region;
            Advances(r, addr, limit) && r.srd == 0x01 && r.baseAddr + r.size / 8 == addr)
  {
    SrdScanFirst(addr, limit, 0);
    hide SrdScan;
    var j := FirstSrdCandidate(addr, limit, 0);
    if j < |Table| {
      SrdPickFacts(addr, limit, Table[j]);
      hide SrdPick, Advances;
      assert SrdPicked(addr, Table[j], SrdScan(addr, limit, 0));
    }
  }

  /** At 0x380 below 0x400 no entry before 256 is a candidate: the larger ones exceed the
      address, and 512 leaves a remainder of 0x180, whose eightfold 0xC00 is not legal. */
  lemma AbortExampleEarlyEntries()
    ensures forall k :: 0 <= k < 24 ==> !SrdCandidate(0x380, 0x400, Table[k])
  {
    assert Table[22] == 0x400 && Table[23] == 0x200;
    forall k | 0 <= k < 22 ensures !SrdCandidate(0x380, 0x400, Table[k]) {
      TableDescending(k, 22);
    }
    assert !IsPow2(3) && !IsPow2(6) && !IsPow2(12) && !IsPow2(24) && !IsPow2(48);
    assert !IsPow2(96) && !IsPow2(192) && !IsPow2(384) && !IsPow2(768) && !IsPow2(1536);
    assert !IsPow2(3072);
  }

  /** Entry 256 is a candidate at 0x380 below 0x400, and acting on it aborts. */
  lemma AbortExampleEntry()
    ensures SrdCandidate(0x380, 0x400, 0x100)
    ensures SrdPick(0x380, 0x400, 0x100) == AssertFailed
  {
    assert IsPow2(1) && IsPow2(2) && IsPow2(4) && IsPow2(8) && IsPow2(16) && IsPow2(32);
    assert IsPow2(64) && IsPow2(128) && IsPow2(256) && IsPow2(512) && IsPow2(1024);
    assert AlignDown(0x380, 0x400) == 0 by {
      AlignDownOffset(0, 0x380, 0x400);
    }
    SrdPickFacts(0x380, 0x400, 0x100);
  }

  /** The abort is reachable: at 0x380 the entry 256 gives size 0x400 and base 0x300, which is not
      a multiple of 0x400. */
  lemma SrdFitAbortExample()
    ensures SrdScan(0x380, 0x400, 0) == AssertFailed
  {
    AbortExampleEarlyEntries();
    AbortExampleEntry();
    assert Table[24] == 0x100;
    assert FirstSrdCandidate(0x380, 0x400, 0) == 24;
    SrdScanFirst(0x380, 0x400, 0);
  }

  // ---------------------------------------------------------------------------------------------
  // What the planner relies on

  /** A region srd_fit returns starts its coverage at `addr` and ends after it, by `limit`; when
      srd_fit fails the region it writes ends at 0. */
  lemma SrdFitAdvances(addr: nat, limit: nat)
    ensures var o := SrdScan(addr, limit, 0);
      o.Done? ==>
        && (o.value.ok ==> Advances(o.value.region, addr, limit))
        && (!o.value.ok ==> End(o.value.region) == 0)
  {
    hide SrdScan, StdScan;
    if addr == 0 {
      ZeroAddressFit(limit);
      var f := StdScan(addr, limit, 0);
      if f.ok {
        NoSubregionStart(f.region);
      }
    } else {
      SrdFitFound(addr, limit);
    }
  }

  /** The same for std_fit. */
  lemma StdFitAdvances(addr: nat, limit: nat)
    ensures var f := StdScan(addr, limit, 0);
      && (f.ok ==> Advances(f.region, addr, limit))
      && (!f.ok ==> End(f.region) == 0)
  {
    hide SrdScan, StdScan;
    var f := StdScan(addr, limit, 0);
    if addr == 0 {
      ZeroAddressFit(limit);
    } else {
      StdFitFound(addr, limit);
    }
    if f.ok {
      NoSubregionStart(f.region);
    }
  }

  /** With no room left (`limit <= addr`) both fitters fail. */
  lemma NoRoom(addr: nat, limit: nat)
    requires limit <= addr
    ensures SrdScan(addr, limit, 0) == Done(Fit(false, Sentinel()))
    ensures StdScan(addr, limit, 0) == Fit(false, Sentinel())
  {
    if addr == 0 {
      ZeroAddressFit(limit);
    } else {
      SrdFitFound(addr, limit);
      StdFitFound(addr, limit);
      forall j | 0 <= j < |Table| ensures !SrdCandidate(addr, limit, Table[j]) {
        if 0 < Table[j] < addr {
          var size := 8 * (addr % Table[j]);
          if Legal(size) {
            assert addr < AlignDown(addr, size) + size;
          }
        }
      }
    }
  }

  // ---------------------------------------------------------------------------------------------
  // The limit tests as written, in 64-bit size_t arithmetic

  /** 2^64: `size_t` arithmetic is modulo this on the LP64 targets the source formats for. */
  const SizeMax: nat := 0x1_0000_0000_0000_0000

  /** std_fit's test as the C evaluates it: `addr + alignment[i]` wraps modulo 2^64. */
  predicate StdFitsWrapped(addr: nat, limit: nat, a: nat) {
    0 < a <= addr && addr % a == 0 && (addr + a) % SizeMax <= limit
  }

  /** srd_fit's limit test as the C evaluates it: the end of the candidate region wraps. */
  predicate SrdGuardWrapped(addr: nat, limit: nat, size: nat) {
    Legal(size) && (AlignDown(addr, size) + size) % SizeMax <= limit
  }

  /** A block that ends 2 GiB below the top of the address space: at its 4 GiB-aligned start
      the wrapped test accepts a 4 GiB region whose end, 2^64, is past the block's end, while
      the unbounded test rejects it. */
  lemma StdGuardWraps()
    ensures var addr, limit, a := SizeMax - 4 * GiB, SizeMax - 2 * GiB, 4 * GiB;
      && addr < limit < SizeMax
      && StdFitsWrapped(addr, limit, a) && !StdFits(addr, limit, a)
      && addr + a > limit
  {
    assert (SizeMax - 4 * GiB) % (4 * GiB) == 0 by {
      MultipleMod(0xFFFF_FFFF, 4 * GiB);
    }
  }

  /** A block ending at the last byte of the address space, at an address 4 bytes past a 32-byte
      boundary: the entry 32 gives a 32-byte region ending at 2^64, which the wrapped test
      accepts and the unbounded test rejects. */
  lemma SrdGuardWraps()
    ensures var addr, limit := SizeMax - 28, SizeMax - 1;
      && addr < limit < SizeMax
      && 0 < Smallest < addr && 8 * (addr % Smallest) == Smallest
      && SrdGuardWrapped(addr, limit, Smallest) && !SrdGuard(addr, limit, Smallest)
  {
    var addr := SizeMax - 28;
    assert addr == (SizeMax / 32 - 1) * 32 + 4;
    DivModUnique(addr, 32, SizeMax / 32 - 1, 4);
    assert IsPow2(1) && IsPow2(2) && IsPow2(4) && IsPow2(8) && IsPow2(16) && IsPow2(32);
    AlignDownOffset(SizeMax - 32, 4, 32) by {
      MultipleMod(SizeMax / 32 - 1, 32);
    }
  }
}

