/** The legal-size table of an ARMv7-M style MPU and the rounding helpers built on it. */
module Alignment {

  const KiB: nat := 1024
  const MiB: nat := 1024 * KiB
  const GiB: nat := 1024 * MiB

  /** Legal region sizes, largest first. Every search over it takes the first match, so the
      order is part of the behaviour. */
  const Table: seq<nat> := [
    4 * GiB, 2 * GiB, GiB,
    512 * MiB, 256 * MiB, 128 * MiB, 64 * MiB, 32 * MiB, 16 * MiB, 8 * MiB, 4 * MiB, 2 * MiB, MiB,
    512 * KiB, 256 * KiB, 128 * KiB, 64 * KiB, 32 * KiB, 16 * KiB, 8 * KiB, 4 * KiB, 2 * KiB, KiB,
    512, 256, 128, 64, 32
  ]

  /** The smallest legal size, `alignment[SIZE_32B]`. */
  const Smallest: nat := 32

  predicate IsPow2(n: nat)
    decreases n
  {
    n == 1 || (n >= 2 && n % 2 == 0 && IsPow2(n / 2))
  }

  // ---------------------------------------------------------------------------------------------
  // Arithmetic helpers

  lemma MulMonotone(p: nat, s: nat, a: nat)
    requires p <= s
    ensures p * a <= s * a
  {
  }

  /** If `p * a < s * a` then `p < s`. */
  lemma MulCancelLess(p: nat, s: nat, a: nat)
    requires p * a < s * a
    ensures p < s
  {
    if s <= p {
      MulMonotone(s, p, a);
    }
  }

  lemma DivModUnique(x: nat, a: nat, q: nat, r: nat)
    requires a > 0 && r < a && x == q * a + r
    ensures x / a == q && x % a == r
  {
    var d := x / a;
    assert d * a <= x < (q + 1) * a;
    MulCancelLess(d, q + 1, a);
    assert q * a <= x < (d + 1) * a;
    MulCancelLess(q, d + 1, a);
  }

  lemma ModZeroMultiple(x: nat, a: nat)
    requires a > 0 && x % a == 0
    ensures x == (x / a) * a
  {
  }

  lemma MultipleMod(q: nat, a: nat)
    requires a > 0
    ensures (q * a) % a == 0
  {
    DivModUnique(q * a, a, q, 0);
  }

  /** Two distinct multiples of `a` lie at least `a` apart. */
  lemma MultiplesApart(m: nat, n: nat, a: nat)
    requires a > 0 && m % a == 0 && n % a == 0 && m < n
    ensures m + a <= n
  {
    var p, q := m / a, n / a;
    assert p * a < q * a;
    MulCancelLess(p, q, a);
    MulMonotone(p + 1, q, a);
  }

  // ---------------------------------------------------------------------------------------------
  // Facts about the table

  lemma {:induction false} Pow2Double(n: nat)
    requires IsPow2(n)
    ensures IsPow2(2 * n)
  {
    assert (2 * n) / 2 == n;
  }

  lemma TableHalves(i: nat)
    requires 0 < i < |Table|
    ensures Table[i - 1] == 2 * Table[i] && Table[i] > 0
  {
  }

  lemma {:induction false} TableEntry(i: nat)
    requires i < |Table|
    ensures Legal(Table[i])
    decreases |Table| - i
  {
    if i == |Table| - 1 {
      assert IsPow2(Smallest);
    } else {
      TableEntry(i + 1);
      TableHalves(i + 1);
      Pow2Double(Table[i + 1]);
      if i > 0 {
        TableDescending(0, i);
      }
    }
  }

  /** Entries strictly decrease: the first match of any search is the largest match. */
  lemma {:induction false} TableDescending(i: nat, j: nat)
    requires i < j < |Table|
    ensures Table[j] < Table[i]
    decreases j - i
  {
    TableHalves(i + 1);
    if i + 1 < j {
      TableDescending(i + 1, j);
    }
  }

  lemma {:induction false} Pow2Positive(n: nat)
    requires IsPow2(n)
    ensures n >= 1
  {
  }

  /** A power of two above another is at least twice as large. */
  lemma {:induction false} Pow2Gap(a: nat, b: nat)
    requires IsPow2(a) && IsPow2(b) && a < b
    ensures 2 * a <= b
    decreases b
  {
    if a != 1 {
      Pow2Gap(a / 2, b / 2);
    }
  }

  lemma AlignDownIsMultiple(x: nat, a: nat)
    requires a > 0
    ensures x % a <= x && (x - x % a) % a == 0
  {
    var q := x / a;
    assert x - x % a == q * a;
    MultipleMod(q, a);
  }

  // ---------------------------------------------------------------------------------------------
  // Alignment arithmetic (main.c align_up, align_down, is_aligned, is_legal)

  /** `x - (x & (a - 1))`: for a power of two `a` the mask keeps exactly `x % a`. */
  function AlignDown(x: nat, a: nat): (r: nat)
    requires IsPow2(a)
    ensures r % a == 0 && r <= x < r + a
  {
    Pow2Positive(a);
    AlignDownIsMultiple(x, a);
    x - x % a
  }

  /** `(x + (a - 1)) & ~(a - 1)`: clearing the low bits of `x + a - 1`, i.e. rounding it down. */
  function AlignUp(x: nat, a: nat): (r: nat)
    requires IsPow2(a)
    ensures r % a == 0 && x <= r < x + a
  {
    Pow2Positive(a);
    AlignDown(x + (a - 1), a)
  }

  /** AlignUp gives the least multiple of `a` not below `x`. */
  lemma AlignUpLeast(x: nat, a: nat, m: nat)
    requires IsPow2(a) && m % a == 0 && x <= m
    ensures AlignUp(x, a) <= m
  {
    var r := AlignUp(x, a);
    Pow2Positive(a);
    if m < r {
      MultiplesApart(m, r, a);
    }
  }

  /** AlignDown gives the greatest multiple of `a` not above `x`. */
  lemma AlignDownGreatest(x: nat, a: nat, m: nat)
    requires IsPow2(a) && m % a == 0 && m <= x
    ensures m <= AlignDown(x, a)
  {
    var r := AlignDown(x, a);
    Pow2Positive(a);
    if r < m {
      MultiplesApart(r, m, a);
    }
  }

  /** An aligned base plus an offset below the alignment rounds back down to the base. */
  lemma AlignDownOffset(base: nat, off: nat, a: nat)
    requires IsPow2(a) && base % a == 0 && off < a
    ensures AlignDown(base + off, a) == base
  {
    Pow2Positive(a);
    ModZeroMultiple(base, a);
    DivModUnique(base + off, a, base / a, off);
  }

  function IsAligned(x: nat, align: nat): (r: bool)
    ensures align == 0 ==> (r <==> x == 0)
    ensures IsPow2(align) ==> (r <==> AlignDown(x, align) == x)
  {
    if x == 0 then true
    else if align == 0 then false
    else x % align == 0
  }

  /** A size the MPU accepts: a power of two from 32 bytes to 4 GiB. */
  predicate Legal(size: nat) {
    IsPow2(size) && Smallest <= size <= 4 * GiB
  }

  /** is_legal: a linear search of the table. */
  method IsLegal(size: nat) returns (legal: bool)
    ensures legal <==> Legal(size)
  {
    LegalIffInTable(size);
    for i := 0 to |Table|
      invariant forall j :: 0 <= j < i ==> Table[j] != size
    {
      if size == Table[i] {
        return true;
      }
    }
    return false;
  }

  lemma {:induction false} InTableFrom(s: nat, i: nat)
    requires i < |Table| && IsPow2(s) && Smallest <= s <= Table[i]
    ensures s in Table[i..]
    decreases |Table| - i
  {
    if s != Table[i] {
      TableEntry(i);
      Pow2Gap(s, Table[i]);
      TableHalves(i + 1);
      InTableFrom(s, i + 1);
    }
  }

  /** The table holds exactly the legal sizes; in particular 0 is not one of them. */
  lemma LegalIffInTable(s: nat)
    ensures Legal(s) <==> s in Table
  {
    if s in Table {
      var i :| 0 <= i < |Table| && Table[i] == s;
      TableEntry(i);
    }
    if Legal(s) {
      InTableFrom(s, 0);
    }
  }

  /** `align_up(alignment[SIZE_32B], A) == A` for every table entry A. */
  lemma AlignUpSmallest(a: nat)
    requires Legal(a)
    ensures AlignUp(Smallest, a) == a
  {
    AlignUpLeast(Smallest, a, a);
    var r := AlignUp(Smallest, a);
    if r < a {
      DivModUnique(r, a, 0, r);
    }
  }
}
