/** The two-level workgroup scan Spine builds from subgroup operations.
    Lanes are numbered `subgroupIndex * subgroupSize + threadIndex` (the
    local invocation index); a workgroup of `|v|` lanes splits into `|v| / s`
    subgroups of `s` lanes. Level one: every lane takes the exclusive sum
    within its subgroup, and one lane per subgroup stores the subgroup total
    in `intermediate`. Level two: every subgroup runs an exclusive add over
    the lanes `j < |v| / s` holding `intermediate[j]`, and those lanes store
    the result back. A lane's result is its level-one sum plus the stored
    level-two value of its subgroup. */
module Subgroup {

  import opened Arith
  import opened Sums

  /** A workgroup of `m` lanes split evenly into subgroups of `s` lanes. */
  predicate Lanes(m: nat, s: nat) {
    s > 0 && m % s == 0 && s <= m
  }

  /** First lane of the subgroup lane `j` belongs to. */
  function SubgroupBase(s: nat, j: nat): (base: nat)
    requires s > 0
    ensures base <= j < base + s
  {
    DivBounds(j, s);
    (j / s) * s
  }

  /** `subgroupExclusiveAdd(v)` as lane `j` sees it. */
  function SubgroupExclusiveAdd(v: seq<nat>, s: nat, j: nat): nat
    requires s > 0 && j < |v|
  {
    Sum(v[SubgroupBase(s, j)..j])
  }

  /** `subgroupAdd(v)` in subgroup `k`. */
  function SubgroupAdd(v: seq<nat>, s: nat, k: nat): nat
    requires s > 0 && (k + 1) * s <= |v|
  {
    assert (k + 1) * s == k * s + s;
    Sum(v[k * s..k * s + s])
  }

  /** Subgroup `k` lies inside the workgroup. */
  lemma SubgroupInside(m: nat, s: nat, k: nat)
    requires Lanes(m, s) && k < m / s
    ensures (k + 1) * s <= m
  {
    MulLeMono(k + 1, m / s, s);
    DivBounds(m, s);
  }

  /** Lane `j` lies in one of the `m / s` subgroups, and there are no more
      subgroups than lanes. */
  lemma LaneSubgroup(m: nat, s: nat, j: nat)
    requires Lanes(m, s) && j < m
    ensures j / s < m / s <= m
  {
    DivBounds(j, s);
    DivBounds(m, s);
    assert (m / s) * s == m;
    MulLessCancel(j / s, m / s, s);
    MulLeMono(1, s, m / s);
  }

  /** `subgroupIndex` of lane `j`. */
  function SubgroupIndex(m: nat, s: nat, j: nat): (k: nat)
    requires Lanes(m, s) && j < m
    ensures k < m / s
    ensures k * s == SubgroupBase(s, j)
  {
    LaneSubgroup(m, s, j);
    j / s
  }

  /** The subgroup totals, `intermediate[k]` after level one. */
  function Totals(v: seq<nat>, s: nat): (t: seq<nat>)
    requires Lanes(|v|, s)
    ensures |t| == |v| / s
  {
    seq(|v| / s, k requires 0 <= k < |v| / s =>
      SubgroupInside(|v|, s, k);
      SubgroupAdd(v, s, k))
  }

  /** Level-two input lane `j`: `select(0, intermediate[j], j < numSubgroups)`. */
  function SecondLevelInput(v: seq<nat>, s: nat): (u: seq<nat>)
    requires Lanes(|v|, s)
    ensures |u| == |v|
  {
    var t := Totals(v, s);
    seq(|v|, j requires 0 <= j < |v| => if j < |t| then t[j] else 0)
  }

  /** `intermediate[k]` after level two: the exclusive add of the level-two
      input as lane `k` of its subgroup sees it. */
  function SecondLevelScan(v: seq<nat>, s: nat): (inter: seq<nat>)
    requires Lanes(|v|, s)
    ensures |inter| == |v| / s
  {
    var u := SecondLevelInput(v, s);
    LaneSubgroup(|v|, s, 0);
    seq(|v| / s, k requires 0 <= k < |v| / s => SubgroupExclusiveAdd(u, s, k))
  }

  /** The scan as the kernel computes it: entry `j` is lane `j`'s result. */
  function TwoLevelScan(v: seq<nat>, s: nat): (r: seq<nat>)
    requires Lanes(|v|, s)
    ensures |r| == |v|
  {
    var inter := SecondLevelScan(v, s);
    seq(|v|, j requires 0 <= j < |v| =>
      SubgroupExclusiveAdd(v, s, j) + inter[SubgroupIndex(|v|, s, j)])
  }

  /** `sum_1` of subgroup 0: the level-two total that advances `reduction`. */
  function TwoLevelTotal(v: seq<nat>, s: nat): nat
    requires Lanes(|v|, s)
  {
    SubgroupAdd(SecondLevelInput(v, s), s, 0)
  }

  /** The first `k` subgroup totals sum to the first `k * s` lanes. */
  lemma {:induction false} TotalsPrefix(v: seq<nat>, s: nat, k: nat)
    requires Lanes(|v|, s) && k <= |v| / s
    ensures k * s <= |v|
    ensures Sum(v[..k * s]) == Sum(Totals(v, s)[..k])
    decreases k
  {
    if k == 0 {
    } else {
      TotalsPrefix(v, s, k - 1);
      SubgroupInside(|v|, s, k - 1);
      assert k * s == (k - 1) * s + s;
      SumSlice(v, (k - 1) * s, k * s);
      SumPrefixStep(Totals(v, s), k - 1);
    }
  }

  /** When every subgroup total fits in one subgroup (`|v| / s <= s`), the
      two-level scan is the flat exclusive prefix sum of the lanes. */
  lemma TwoLevelScanIsExclusiveSum(v: seq<nat>, s: nat)
    requires Lanes(|v|, s) && |v| / s <= s
    ensures forall j :: 0 <= j < |v| ==> TwoLevelScan(v, s)[j] == Sum(v[..j])
  {
    var t := Totals(v, s);
    var u := SecondLevelInput(v, s);
    forall j | 0 <= j < |v|
      ensures TwoLevelScan(v, s)[j] == Sum(v[..j])
    {
      var k := SubgroupIndex(|v|, s, j);
      assert k < s;
      DivUnique(k, s, 0);
      assert SubgroupBase(s, k) == 0;
      assert u[..k] == t[..k];
      assert u[0..k] == u[..k];
      TotalsPrefix(v, s, k);
      SumSlice(v, k * s, j);
    }
  }

  /** The level-two input of subgroup 0 is the totals padded with zeros. */
  lemma {:induction false} FirstSubgroupInput(v: seq<nat>, s: nat)
    requires Lanes(|v|, s) && |v| / s <= s
    ensures Sum(SecondLevelInput(v, s)[..s]) == Sum(Totals(v, s))
  {
    var t := Totals(v, s);
    var w := SecondLevelInput(v, s)[..s];
    var m := |v| / s;
    SumSlice(w, m, s);
    assert w[..m] == t;
    SumZeros(w[m..s]);
    assert w[..s] == w;
    assert w[0..m] == w[..m];
  }

  /** The subgroup totals add up to all lanes. */
  lemma TotalsSum(v: seq<nat>, s: nat)
    requires Lanes(|v|, s)
    ensures Sum(Totals(v, s)) == Sum(v)
  {
    var m := |v| / s;
    TotalsPrefix(v, s, m);
    DivExact(|v|, s);
    assert v[..m * s] == v;
    assert Totals(v, s)[..m] == Totals(v, s);
  }

  /** Under the same condition, subgroup 0's level-two total is the sum of all lanes. */
  lemma TwoLevelTotalIsSum(v: seq<nat>, s: nat)
    requires Lanes(|v|, s) && |v| / s <= s
    ensures TwoLevelTotal(v, s) == Sum(v)
  {
    var u := SecondLevelInput(v, s);
    assert u[0 * s..0 * s + s] == u[..s];
    FirstSubgroupInput(v, s);
    TotalsSum(v, s);
  }

  /** The level-two stage done right for any subgroup size: subgroup `k`
      receives the sum of all subgroup totals before it. */
  function SecondLevelScanCorrected(v: seq<nat>, s: nat): (inter: seq<nat>)
    requires Lanes(|v|, s)
    ensures |inter| == |v| / s
  {
    var t := Totals(v, s);
    seq(|v| / s, k requires 0 <= k < |v| / s => Sum(t[..k]))
  }

  /** The two-level scan with the corrected level two. */
  function TwoLevelScanCorrected(v: seq<nat>, s: nat): (r: seq<nat>)
    requires Lanes(|v|, s)
    ensures |r| == |v|
  {
    var inter := SecondLevelScanCorrected(v, s);
    seq(|v|, j requires 0 <= j < |v| =>
      SubgroupExclusiveAdd(v, s, j) + inter[SubgroupIndex(|v|, s, j)])
  }

  /** The amount the corrected scan advances `reduction` by. */
  function TwoLevelTotalCorrected(v: seq<nat>, s: nat): nat
    requires Lanes(|v|, s)
  {
    Sum(Totals(v, s))
  }

  /** The corrected scan is the exclusive prefix sum for every subgroup size. */
  lemma TwoLevelScanCorrectedIsExclusiveSum(v: seq<nat>, s: nat)
    requires Lanes(|v|, s)
    ensures forall j :: 0 <= j < |v| ==> TwoLevelScanCorrected(v, s)[j] == Sum(v[..j])
    ensures TwoLevelTotalCorrected(v, s) == Sum(v)
  {
    forall j | 0 <= j < |v|
      ensures TwoLevelScanCorrected(v, s)[j] == Sum(v[..j])
    {
      var k := SubgroupIndex(|v|, s, j);
      TotalsPrefix(v, s, k);
      SumSlice(v, k * s, j);
    }
    TotalsSum(v, s);
  }

  /** When the subgroup totals fit in one subgroup, the kernel's scan and
      the corrected one agree. */
  lemma TwoLevelScanAgrees(v: seq<nat>, s: nat)
    requires Lanes(|v|, s) && |v| / s <= s
    ensures TwoLevelScan(v, s) == TwoLevelScanCorrected(v, s)
    ensures TwoLevelTotal(v, s) == TwoLevelTotalCorrected(v, s)
  {
    TwoLevelScanIsExclusiveSum(v, s);
    TwoLevelTotalIsSum(v, s);
    TwoLevelScanCorrectedIsExclusiveSum(v, s);
  }

  /** `m` lanes all holding `c`. */
  function Fill(m: nat, c: nat): (v: seq<nat>)
    ensures |v| == m
  {
    seq(m, _ => c)
  }

  lemma {:induction false} SumFill(m: nat, c: nat)
    ensures Sum(Fill(m, c)) == m * c
    decreases m
  {
    if m > 0 {
      SumFill(m - 1, c);
      assert Fill(m, c)[..m - 1] == Fill(m - 1, c);
    }
  }

  /** Lane 256 of a 512-lane chunk of ones, in 16-lane subgroups, is given 0. */
  lemma SmallSubgroupLane256()
    ensures Lanes(512, 16)
    ensures TwoLevelScan(Fill(512, 1), 16)[256] == 0
  {
    var v := Fill(512, 1);
    assert SubgroupBase(16, 256) == 256;
    assert SubgroupExclusiveAdd(v, 16, 256) == 0;
    var u := SecondLevelInput(v, 16);
    assert SubgroupBase(16, 16) == 16;
    assert SecondLevelScan(v, 16)[16] == SubgroupExclusiveAdd(u, 16, 16) == 0;
    assert SubgroupIndex(512, 16, 256) == 16;
  }

  /** Subgroup 0 of level two sees only 16 of the 32 subgroup totals. */
  lemma SmallSubgroupTotal()
    ensures Lanes(512, 16)
    ensures TwoLevelTotal(Fill(512, 1), 16) == 256
  {
    var v := Fill(512, 1);
    var u := SecondLevelInput(v, 16);
    SumFill(16, 1);
    forall k | 0 <= k < 16
      ensures u[k] == 16
    {
      SubgroupInside(512, 16, k);
      assert v[k * 16..k * 16 + 16] == Fill(16, 1);
    }
    assert u[0 * 16..0 * 16 + 16] == Fill(16, 16);
    SumFill(16, 16);
  }

  /** With 16-lane subgroups a 512-lane chunk has 32 subgroup totals, but
      level two adds them only within each 16-lane subgroup: lane 256, the
      first lane of subgroup 16, is given 0 instead of the 256 ones before
      it, and `reduction` advances by 256 instead of 512. The 256-entry
      global row fails the same way with 8-lane subgroups. */
  lemma SmallSubgroupScanFails()
    ensures Lanes(512, 16) && 512 / 16 > 16
    ensures TwoLevelScan(Fill(512, 1), 16)[256] == 0 != Sum(Fill(512, 1)[..256]) == 256
    ensures TwoLevelTotal(Fill(512, 1), 16) == 256 != Sum(Fill(512, 1)) == 512
    ensures Lanes(256, 8) && TwoLevelScan(Fill(256, 1), 8)[64] == 0 != Sum(Fill(256, 1)[..64]) == 64
  {
    SmallSubgroupGlobalRowFails();
    SmallSubgroupLane256();
    SmallSubgroupTotal();
    SumFill(512, 1);
    assert Fill(512, 1)[..256] == Fill(256, 1);
    SumFill(256, 1);
  }

  /** The global-row scan has the same gap with 8-lane subgroups: 256 lanes
      make 32 subgroup totals, and lane 64, the first lane of subgroup 8, is
      given 0 instead of the 64 ones before it. */
  lemma SmallSubgroupGlobalRowFails()
    ensures Lanes(256, 8) && 256 / 8 > 8
    ensures TwoLevelScan(Fill(256, 1), 8)[64] == 0 != Sum(Fill(256, 1)[..64]) == 64
  {
    var v := Fill(256, 1);
    assert SubgroupBase(8, 64) == 64;
    assert SubgroupExclusiveAdd(v, 8, 64) == 0;
    var u := SecondLevelInput(v, 8);
    assert SubgroupBase(8, 8) == 8;
    assert SecondLevelScan(v, 8)[8] == SubgroupExclusiveAdd(u, 8, 8) == 0;
    assert SubgroupIndex(256, 8, 64) == 8;
    assert v[..64] == Fill(64, 1);
    SumFill(64, 1);
  }
}
