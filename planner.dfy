/** try_fit: the greedy planner that covers one memory block with up to eight MPU regions, slot
    by slot, each slot taking srd_fit's region when srd_fit succeeds and std_fit's otherwise. */
module Planner {
  import opened Outcomes
  import opened Fitters

  /** mem_blk_t: a named block `[addr, addr + size)`. */
  datatype MemBlock = MemBlock(name: string, addr: nat, size: nat)

  /** MPU_REGIONS: the number of region slots of the MPU. */
  const MpuRegions: nat := 8

  /** mpu_t: the region slots, updated in place by TryFit. */
  class Mpu {
    const regions: array<Region>

    /** The state `main` clears an mpu_t to before each block. */
    constructor ()
      ensures regions.Length == MpuRegions && fresh(regions)
      ensures forall k :: 0 <= k < regions.Length ==> regions[k] == Region(0, 0, 0x00)
    {
      regions := new Region[MpuRegions](_ => Region(0, 0, 0x00));
    }
  }

  // ---------------------------------------------------------------------------------------------
  // One slot

  /** The slot choice of main.c:249-270 on the two fitters' results: None when both fail (the
      source returns -1). std_fit runs only when srd_fit fails, so when srd_fit succeeds `std`
      keeps its initial all-zero value and `stdFit` is not looked at. The slot takes srd's
      region when it ends strictly later than std's. */
  function Select(srdFit: Outcome<Fit>, stdFit: Fit): Outcome<Option<Region>> {
    match srdFit
    case AssertFailed => AssertFailed
    case Done(s) =>
      if !s.ok && !stdFit.ok then Done(None)
      else
        var srd := s.region;
        var std := if s.ok then Region(0, 0, 0x00) else stdFit.region;
        Done(Some(if End(srd) > End(std) then srd else std))
  }

  /** The choice is srd's region whenever srd_fit succeeds with a region that ends anywhere
      past 0; after a failed srd_fit (whose region ends at 0) it is std's region when std_fit
      succeeds, and nothing when std_fit fails too. */
  lemma SelectPrefersSrd(srdFit: Outcome<Fit>, stdFit: Fit)
    ensures srdFit.AssertFailed? <==> Select(srdFit, stdFit).AssertFailed?
    ensures srdFit.Done? && srdFit.value.ok && End(srdFit.value.region) > 0 ==>
      Select(srdFit, stdFit) == Done(Some(srdFit.value.region))
    ensures srdFit.Done? && !srdFit.value.ok && End(srdFit.value.region) == 0 && stdFit.ok ==>
      Select(srdFit, stdFit) == Done(Some(stdFit.region))
    ensures srdFit.Done? && !srdFit.value.ok && !stdFit.ok ==> Select(srdFit, stdFit) == Done(None)
  {
  }

  /** Whatever region the choice yields is one of the fitters' successful regions, so it
      advances from `addr` by `end` when both fitters' successes do. */
  lemma SelectAdvances(srdFit: Outcome<Fit>, stdFit: Fit, addr: nat, end: nat)
    requires srdFit.Done? && srdFit.value.ok ==> Advances(srdFit.value.region, addr, end)
    requires srdFit.Done? && !srdFit.value.ok ==> End(srdFit.value.region) == 0
    requires stdFit.ok ==> Advances(stdFit.region, addr, end)
    ensures Select(srdFit, stdFit).Done? && Select(srdFit, stdFit).value.Some? ==>
      Advances(Select(srdFit, stdFit).value.value, addr, end)
  {
    hide Starts, Advances, Select;
    if srdFit.Done? && srdFit.value.ok {
      AdvancesEnds(srdFit.value.region, addr, end);
    }
    SelectPrefersSrd(srdFit, stdFit);
  }

  /** The region try_fit puts in a slot at `addr`. Every region placed is well formed, starts
      its coverage at `addr`, and ends strictly after it and no later than the end of the
      block. */
  function Choose(addr: nat, end: nat): (o: Outcome<Option<Region>>)
    ensures o.Done? && o.value.Some? ==> Advances(o.value.value, addr, end)
  {
    SrdFitAdvances(addr, end);
    StdFitAdvances(addr, end);
    SelectAdvances(SrdScan(addr, end, 0), StdScan(addr, end, 0), addr, end);
    Select(SrdScan(addr, end, 0), StdScan(addr, end, 0))
  }

  /** A successful srd_fit always supplies the slot; std_fit is consulted only after srd_fit
      fails, and then the slot takes std_fit's region or the planner gives up. */
  lemma ChoosePrefersSrd(addr: nat, end: nat)
    ensures var c := Choose(addr, end);
      match SrdScan(addr, end, 0)
      case AssertFailed => c == AssertFailed
      case Done(f) =>
        if f.ok then c == Done(Some(f.region))
        else
          var g := StdScan(addr, end, 0);
          c == if g.ok then Done(Some(g.region)) else Done(None)
  {
    SrdFitAdvances(addr, end);
    StdFitAdvances(addr, end);
    SelectPrefersSrd(SrdScan(addr, end, 0), StdScan(addr, end, 0));
    hide SrdScan, StdScan;
  }

  /** At or past the end of the block both fitters fail: nothing is left to cover. */
  lemma ChooseAtEnd(addr: nat, end: nat)
    requires end <= addr
    ensures Choose(addr, end) == Done(None)
  {
    NoRoom(addr, end);
  }

  // ---------------------------------------------------------------------------------------------
  // The whole plan

  /** What try_fit returns (`ret`) and the regions it writes, in slot order. */
  datatype Plan = Plan(ret: int, written: seq<Region>)

  /** The plan from slot `i` on, with coverage reached up to `addr`. */
  function PlanFrom(addr: nat, end: nat, i: nat): Outcome<Plan>
    requires i <= MpuRegions
    decreases MpuRegions - i
  {
    if i == MpuRegions then Done(Plan(0, []))
    else
      match Choose(addr, end)
      case AssertFailed => AssertFailed
      case Done(None) => Done(Plan(-1, []))
      case Done(Some(r)) =>
        if End(r) < end then
          match PlanFrom(End(r), end, i + 1)
          case AssertFailed => AssertFailed
          case Done(p) => Done(Plan(p.ret, [r] + p.written))
        else
          Done(Plan(i + 1, [r]))
  }

  /** The plan with the regions of the earlier slots `w` in front. */
  function Prepend(w: seq<Region>, o: Outcome<Plan>): Outcome<Plan> {
    match o
    case AssertFailed => AssertFailed
    case Done(p) => Done(Plan(p.ret, w + p.written))
  }

  /** The plan for a block: from its start, slot 0 on. */
  function PlanBlock(mem: MemBlock): Outcome<Plan> {
    PlanFrom(mem.addr, mem.addr + mem.size, 0)
  }

  /** Where coverage has reached after the regions `rs`, starting at `from`. */
  function Reach(rs: seq<Region>, from: nat): nat
    decreases |rs|
  {
    if rs == [] then from else Reach(rs[1..], End(rs[0]))
  }

  /** The regions `rs` cover contiguously from `from`: each is well formed, starts its coverage
      where the previous one ended (at `from` for the first), and ends strictly after that. */
  predicate Chain(rs: seq<Region>, from: nat)
    decreases |rs|
  {
    rs == [] ||
    (Starts(rs[0], from) && Chain(rs[1..], End(rs[0])))
  }

  /** The outcomes of the plan from slot `i`:
      - a count `n > 0`: `n - i` regions written that cover `[addr, end)` exactly;
      - 0: every remaining slot written, coverage chained from `addr`, short of `end`;
      - -1: fewer regions than remaining slots, chained from `addr`, and both fitters fail
        where coverage stopped. */
  lemma {:induction false} PlanFacts(addr: nat, end: nat, i: nat)
    requires i <= MpuRegions
    ensures PlanFrom(addr, end, i).Done? ==>
      var p := PlanFrom(addr, end, i).value;
      && (p.ret == -1 || p.ret == 0 || i < p.ret <= MpuRegions)
      && Chain(p.written, addr)
      && (p.written != [] ==> addr < Reach(p.written, addr))
      && (p.ret > 0 ==> |p.written| == p.ret - i && Reach(p.written, addr) == end)
      && (p.ret == 0 ==>
            |p.written| == MpuRegions - i && (p.written != [] ==> Reach(p.written, addr) < end))
      && (p.ret == -1 ==>
            && |p.written| < MpuRegions - i
            && (p.written != [] ==> Reach(p.written, addr) < end)
            && Choose(Reach(p.written, addr), end) == Done(None))
    decreases MpuRegions - i
  {
    hide Choose, SrdScan, StdScan, WellFormed, EffectiveStart;
    if i < MpuRegions {
      match Choose(addr, end)
      case AssertFailed =>
      case Done(None) =>
      case Done(Some(r)) =>
        if End(r) < end {
          PlanFacts(End(r), end, i + 1);
          match PlanFrom(End(r), end, i + 1)
          case AssertFailed =>
          case Done(p) =>
            var w := [r] + p.written;
            assert w[1..] == p.written;
        } else {
          var w: seq<Region> := [r];
          assert w[1..] == [];
        }
    }
  }

  /** try_fit's result: -1, 0, or a count from 1 to 8. A count `n` means the `n` written slots
      tile `[mem.addr, mem.addr + mem.size)`: contiguous, each starting its coverage where the
      previous ended, the last ending exactly at the end of the block. 0 means all eight slots
      were used and coverage stopped short of the end; -1 means both fitters failed at the
      address reached, whatever slots were already written. */
  lemma PlanBlockFacts(mem: MemBlock)
    ensures PlanBlock(mem).Done? ==>
      var p := PlanBlock(mem).value;
      var end := mem.addr + mem.size;
      && -1 <= p.ret <= MpuRegions && |p.written| <= MpuRegions
      && Chain(p.written, mem.addr)
      && (p.ret > 0 ==> |p.written| == p.ret && Reach(p.written, mem.addr) == end)
      && (p.ret == 0 ==> |p.written| == MpuRegions && Reach(p.written, mem.addr) < end)
      && (p.ret == -1 ==> Choose(Reach(p.written, mem.addr), end) == Done(None))
  {
    hide Choose, PlanFrom, Chain, Reach;
    PlanFacts(mem.addr, mem.addr + mem.size, 0);
  }

  /** An empty block cannot be covered: try_fit returns -1 and writes nothing, so a 0 result
      always means the slots ran out. */
  lemma EmptyBlock(mem: MemBlock)
    requires mem.size == 0
    ensures PlanBlock(mem) == Done(Plan(-1, []))
  {
    ChooseAtEnd(mem.addr, mem.addr);
  }

  // ---------------------------------------------------------------------------------------------
  // try_fit as written

  /** One slot of the plan, in the terms of try_fit's loop. */
  lemma PlanFromStep(addr: nat, end: nat, i: nat)
    requires i < MpuRegions
    ensures match Choose(addr, end)
      case AssertFailed => PlanFrom(addr, end, i) == AssertFailed
      case Done(None) => PlanFrom(addr, end, i) == Done(Plan(-1, []))
      case Done(Some(r)) =>
        PlanFrom(addr, end, i) ==
          if End(r) < end then Prepend([r], PlanFrom(End(r), end, i + 1))
          else Done(Plan(i + 1, [r]))
  {
    hide Choose;
  }

  /** With every slot taken the plan ends with result 0. */
  lemma PlanFromExhausted(addr: nat, end: nat)
    ensures PlanFrom(addr, end, MpuRegions) == Done(Plan(0, []))
  {
  }

  /** Prepending no regions leaves a plan as it is. */
  lemma PrependNothing(o: Outcome<Plan>)
    ensures Prepend([], o) == o
  {
    if o.Done? {
      assert [] + o.value.written == o.value.written;
    }
  }

  /** Regions prepended one after another are prepended together. */
  lemma PrependTwice(w: seq<Region>, r: Region, o: Outcome<Plan>)
    ensures Prepend(w, Prepend([r], o)) == Prepend(w + [r], o)
  {
    if o.Done? {
      assert w + ([r] + o.value.written) == (w + [r]) + o.value.written;
    }
  }

  /** The region one iteration of try_fit's loop picks at `addr`: srd_fit first, std_fit only
      when srd_fit fails, None where the source returns -1, and otherwise the region whose end
      is larger, srd's on a strict win. */
  method PickSlot(addr: nat, addrEnd: nat) returns (o: Outcome<Option<Region>>)
    ensures o == Choose(addr, addrEnd)
  {
    hide SrdScan, StdScan, Choose, WellFormed, EffectiveStart, Select;
    ChoosePrefersSrd(addr, addrEnd);
    SrdFitAdvances(addr, addrEnd);
    var srd := Region(0, 0, 0x00);
    var std := Region(0, 0, 0x00);
    var srdOut := SrdFit(addr, addrEnd);
    var srdOk;
    match srdOut {
      case AssertFailed =>
        return AssertFailed;
      case Done(f) =>
        srdOk, srd := f.ok, f.region;
    }
    if !srdOk {
      StdFitAdvances(addr, addrEnd);
      var stdOut := StdFit(addr, addrEnd);
      std := stdOut.region;
      if !stdOut.ok {
        return Done(None);
      }
    }
    var srdNext := srd.baseAddr + srd.size;
    var stdNext := std.baseAddr + std.size;
    if srdNext > stdNext {
      return Done(Some(srd));
    } else {
      return Done(Some(std));
    }
  }

  /** try_fit: covers `mem` slot by slot, writing each chosen region into the next slot of
      `mpu`, and returns the plan's result. The slots it writes hold exactly the plan's regions,
      in order, and every later slot keeps its old contents. */
  method TryFit(mpu: Mpu, mem: MemBlock) returns (res: Outcome<int>)
    requires mpu.regions.Length == MpuRegions
    modifies mpu.regions
    ensures match PlanBlock(mem)
      case AssertFailed => res == AssertFailed
      case Done(p) =>
        && res == Done(p.ret) && |p.written| <= MpuRegions
        && mpu.regions[..|p.written|] == p.written
        && mpu.regions[|p.written|..] == old(mpu.regions[|p.written|..])
  {
    hide Choose, PlanFrom, Advances, SrdScan, StdScan;
    var addr := mem.addr;
    var addrNext := addr;
    var addrEnd := mem.addr + mem.size;
    PrependNothing(PlanBlock(mem));
    for i := 0 to MpuRegions
      invariant Prepend(mpu.regions[..i], PlanFrom(addr, addrEnd, i)) == PlanBlock(mem)
      invariant mpu.regions[i..] == old(mpu.regions[i..])
    {
      PlanFromStep(addr, addrEnd, i);
      ghost var before, after := mpu.regions[..i], mpu.regions[i + 1..];
      assert after == old(mpu.regions[i..])[1..] == old(mpu.regions[i + 1..]);
      var slot := PickSlot(addr, addrEnd);
      match slot {
        case AssertFailed =>
          return AssertFailed;
        case Done(None) =>
          assert before + [] == before;
          return Done(-1);
        case Done(Some(r)) =>
          mpu.regions[i] := r;
          addrNext := End(r);
      }
      assert mpu.regions[..i + 1] == before + [mpu.regions[i]];
      assert mpu.regions[i + 1..] == after;
      if addrNext < addrEnd {
        PrependTwice(before, mpu.regions[i], PlanFrom(addrNext, addrEnd, i + 1));
        addr := addrNext;
      } else {
        return Done(i + 1);
      }
    }
    PlanFromExhausted(addr, addrEnd);
    assert mpu.regions[..MpuRegions] + [] == mpu.regions[..MpuRegions];
    return Done(0);
  }
}
