/** The subregion-disable mask of a region (main.c calc_srd). A region is split into eight
    equal subregions; bit `j` of the mask set means subregion `j` is not covered. */
module Subregion {
  import opened Alignment
  import opened Outcomes

  const Subregions: nat := 8

  /** Bit `j` of the mask is set: subregion `j` is disabled. */
  predicate Bit(m: bv8, j: nat)
    requires j < 8
  {
    (m >> j) & 1 == 1
  }

  /** The mask whose low `k` bits, and only those, are set. */
  function LowBits(k: nat): (m: bv8)
    requires k < 8
    ensures forall j :: 0 <= j < 8 ==> (Bit(m, j) <==> j < k)
  {
    ((1 as bv8) << k) - 1
  }

  lemma LowBitsStep(k: nat)
    requires k < 7
    ensures LowBits(k) | ((1 as bv8) << k) == LowBits(k + 1)
  {
  }

  /** `m <= d / s` exactly when `m` whole strides of `s` fit in `d`. */
  lemma DivAtLeast(d: nat, s: nat, m: nat)
    requires s > 0
    ensures m <= d / s <==> m * s <= d
  {
    var q := d / s;
    if m <= q {
      MulMonotone(m, q, s);
    } else {
      MulMonotone(q + 1, m, s);
    }
  }

  /** The mask for `d / s` strides, fewer than four, sets bit `j` exactly when stride `j` ends
      within `d`, and is one of the four masks 0x00, 0x01, 0x03, 0x07. */
  lemma LowBitsCountStrides(d: nat, s: nat)
    requires s > 0 && d < 4 * s
    ensures d / s < 4
    ensures forall j :: 0 <= j < 8 ==> (Bit(LowBits(d / s), j) <==> (j + 1) * s <= d)
    ensures LowBits(d / s) in {0x00, 0x01, 0x03, 0x07}
  {
    var k := d / s;
    DivAtLeast(d, s, 4);
    forall j | 0 <= j < 8
      ensures Bit(LowBits(k), j) <==> (j + 1) * s <= d
    {
      hide Bit, LowBits;
      DivAtLeast(d, s, j + 1);
    }
    hide Bit;
    assert k == 0 || k == 1 || k == 2 || k == 3;
  }

  /** calc_srd: the mask that disables every subregion lying wholly below `addr`, or an abort
      when one of its three asserts fails (`addr > 0`, an aligned base, fewer than four
      disabled subregions). */
  function SubregionDisable(addr: nat, regionBase: nat, regionSize: nat): (r: Outcome<bv8>)
    requires Subregions <= regionSize && regionBase <= addr
    ensures r.Done? <==>
              addr > 0 && regionBase % regionSize == 0 && addr - regionBase < 4 * (regionSize / 8)
  {
    var srs := regionSize / 8;
    DivAtLeast(addr - regionBase, srs, 4);
    var subregions := (addr - regionBase) / srs;
    if addr == 0 || regionBase % regionSize != 0 then
      AssertFailed
    else if subregions >= 4 then
      AssertFailed
    else
      Done(LowBits(subregions))
  }

  /** The mask calc_srd computes disables subregion `j` exactly when the subregion lies wholly
      below `addr`, and it is one of 0x00, 0x01, 0x03 and 0x07: a run of fewer than four
      subregions from the bottom. */
  lemma SubregionDisableBits(addr: nat, regionBase: nat, regionSize: nat)
    requires Subregions <= regionSize && regionBase <= addr
    ensures var r := SubregionDisable(addr, regionBase, regionSize);
      r.Done? ==>
        && (forall j :: 0 <= j < 8 ==>
              (Bit(r.value, j) <==> (j + 1) * (regionSize / 8) <= addr - regionBase))
        && r.value in {0x00, 0x01, 0x03, 0x07}
  {
    var srs := regionSize / 8;
    if SubregionDisable(addr, regionBase, regionSize).Done? {
      LowBitsCountStrides(addr - regionBase, srs);
    }
  }

  /** An address one subregion above an aligned base disables exactly subregion 0. */
  lemma OneSubregionMask(regionBase: nat, srs: nat)
    requires srs > 0 && regionBase % (8 * srs) == 0
    ensures SubregionDisable(regionBase + srs, regionBase, 8 * srs) == Done(0x01)
  {
    var m := SubregionDisable(regionBase + srs, regionBase, 8 * srs);
    assert (8 * srs) / 8 == srs;
    SubregionDisableBits(regionBase + srs, regionBase, 8 * srs);
    assert Bit(m.value, 0) && !Bit(m.value, 1);
  }

  method CalcSrd(addr: nat, regionBase: nat, regionSize: nat) returns (r: Outcome<bv8>)
    requires Subregions <= regionSize && regionBase <= addr
    ensures r == SubregionDisable(addr, regionBase, regionSize)
  {
    if addr == 0 || regionBase % regionSize != 0 {
      return AssertFailed;
    }
    var srs := regionSize / 8;
    var subregions := (addr - regionBase) / srs;
    if subregions >= 4 {
      return AssertFailed;
    }
    var srd: bv8 := 0x00;
    var i := 0;
    while i < subregions
      invariant i <= subregions
      invariant srd == LowBits(i)
    {
      LowBitsStep(i);
      srd := srd | ((1 as bv8) << i);
      i := i + 1;
    }
    return Done(srd);
  }

  /** Number of disabled subregions at the bottom of the region, counted from bit `j`. */
  function PrefixFrom(m: bv8, j: nat): nat
    requires j <= 8
    decreases 8 - j
  {
    if j < 8 && Bit(m, j) then PrefixFrom(m, j + 1) else j
  }

  /** How many low-order subregions `m` disables before the first enabled one. */
  function DisabledPrefix(m: bv8): nat {
    PrefixFrom(m, 0)
  }

  lemma {:induction false} PrefixOfLowBits(k: nat, j: nat)
    requires k < 8 && j <= k
    ensures PrefixFrom(LowBits(k), j) == k
    decreases k - j
  {
    if j < k {
      PrefixOfLowBits(k, j + 1);
    }
  }

  /** The mask for `k` disabled subregions hides exactly `k` of them. */
  lemma DisabledPrefixOfLowBits(k: nat)
    requires k < 8
    ensures DisabledPrefix(LowBits(k)) == k
  {
    PrefixOfLowBits(k, 0);
  }
}
