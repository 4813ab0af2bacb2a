/**
 * The protected address windows of the fault handler: which device a faulting
 * address belongs to, and whether it lies in a sub-range that skips the policy
 * check because its register offset does not fit in one byte.
 */
module Regions {
  import opened Viola

  /** One protected window [base, end) of a device, with an optional bypass cutoff. */
  datatype Region = Region(base: bv32, end: bv32, devid: bv8, cutoff: Option<bv32>)

  /** The static configuration table: four disjoint 4 KiB windows. */
  const REGIONS: seq<Region> := [
    Region(0xf9016000, 0xf9017000, VIB, None),
    Region(0xf9017000, 0xf9018000, CAM, None),
    Region(0xfa018000, 0xfa019000, VIB_IC, Some(0xfa018300)),
    Region(0xf901b000, 0xf901c000, VIB_CLK, Some(0xf901b400))
  ]

  predicate Contains(r: Region, addr: bv32) {
    r.base <= addr < r.end
  }

  /** The result of a successful lookup: the device and whether the policy is bypassed. */
  datatype Match = Match(devid: bv8, ignore: bool)

  function MatchIn(r: Region, addr: bv32): Match {
    Match(r.devid, r.cutoff.Some? && addr < r.cutoff.value)
  }

  /** Reference lookup: the first region of `rs` that contains `addr`. */
  function Find(rs: seq<Region>, addr: bv32): (m: Option<Match>)
    ensures m.None? <==> forall i :: 0 <= i < |rs| ==> !Contains(rs[i], addr)
  {
    if rs == [] then None
    else if Contains(rs[0], addr) then Some(MatchIn(rs[0], addr))
    else Find(rs[1..], addr)
  }

  /** The handler's own if/else chain over the address. */
  function Lookup(addr: bv32): (m: Option<Match>)
    ensures m.Some? ==> IsDevice(m.value.devid)
    ensures m.Some? && m.value.ignore ==> m.value.devid == VIB_IC || m.value.devid == VIB_CLK
  {
    if 0xf9016000 <= addr < 0xf9017000 then Some(Match(VIB, false))
    else if 0xf9017000 <= addr < 0xf9018000 then Some(Match(CAM, false))
    else if 0xfa018000 <= addr < 0xfa019000 then Some(Match(VIB_IC, addr < 0xfa018300))
    else if 0xf901b000 <= addr < 0xf901c000 then Some(Match(VIB_CLK, addr < 0xf901b400))
    else None
  }

  /** No two configured windows overlap. */
  lemma RegionsDisjoint()
    ensures forall i, j :: 0 <= i < |REGIONS| && 0 <= j < |REGIONS| && i != j ==>
      REGIONS[i].end <= REGIONS[j].base || REGIONS[j].end <= REGIONS[i].base
  {
  }

  /** The if/else chain is the table lookup. */
  lemma LookupAgreesWithTable(addr: bv32)
    ensures Lookup(addr) == Find(REGIONS, addr)
  {
    var rs := REGIONS;
    assert Find(rs, addr) == if Contains(rs[0], addr) then Some(MatchIn(rs[0], addr)) else Find(rs[1..], addr);
    assert Find(rs[1..], addr) == if Contains(rs[1], addr) then Some(MatchIn(rs[1], addr)) else Find(rs[2..], addr);
    assert Find(rs[2..], addr) == if Contains(rs[2], addr) then Some(MatchIn(rs[2], addr)) else Find(rs[3..], addr);
    assert Find(rs[3..], addr) == if Contains(rs[3], addr) then Some(MatchIn(rs[3], addr)) else Find(rs[4..], addr);
    assert rs[4..] == [];
  }

  /** Every address in a window maps to that window's device (disjointness makes it unique). */
  lemma LookupFindsOwner(addr: bv32, i: nat)
    requires i < |REGIONS| && Contains(REGIONS[i], addr)
    ensures Lookup(addr) == Some(MatchIn(REGIONS[i], addr))
  {
  }
}
