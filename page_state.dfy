/**
 * The permission controller: a lookup of the page-table entry of an address and a
 * three-state setter that arms (INVALID) or disarms (SHARED, MODIFIED) the trap.
 *
 * The page table is abstract: each level's offset function takes the address to
 * the next level's entry, `None` when that entry is empty (the `*_none` test).
 * A PTE keeps its present and write permissions apart from all its other bits.
 */
module PageState {
  import opened Viola

  /** Identifies a PTE slot: what `pte_offset_map` returns a pointer to. */
  type PteId = nat

  /** A page-table entry: the two permissions the monitor sets, and every other bit. */
  datatype Pte = Pte(present: bool, write: bool, rest: bv32)

  datatype Pmd = Pmd(highMem: bool, pteOffset: bv32 -> PteId)
  datatype Pud = Pud(pmdOffset: bv32 -> Option<Pmd>)
  datatype Pgd = Pgd(pudOffset: bv32 -> Option<Pud>)
  datatype Mm = Mm(pgdOffset: bv32 -> Option<Pgd>)

  /** Every level of the walk for `addr` is present and the page is directly mappable. */
  ghost predicate Mapped(mm: Mm, addr: bv32) {
    && mm.pgdOffset(addr).Some?
    && mm.pgdOffset(addr).value.pudOffset(addr).Some?
    && mm.pgdOffset(addr).value.pudOffset(addr).value.pmdOffset(addr).Some?
    && !mm.pgdOffset(addr).value.pudOffset(addr).value.pmdOffset(addr).value.highMem
  }

  /**
   * Level-by-level lookup; a missing `mm` means the kernel's own `init_mm`. It finds a
   * PTE exactly when the whole walk is present, and then it is the pmd's entry for `addr`.
   */
  function GetPte(mm: Option<Mm>, initMm: Mm, addr: bv32): (r: Option<PteId>)
    ensures r.Some? <==> Mapped(mm.GetOr(initMm), addr)
    ensures r.Some? ==>
      var m := mm.GetOr(initMm);
      r.value == m.pgdOffset(addr).value.pudOffset(addr).value.pmdOffset(addr).value.pteOffset(addr)
  {
    var m := mm.GetOr(initMm);
    match m.pgdOffset(addr)
    case None => None
    case Some(pgd) =>
      match pgd.pudOffset(addr)
      case None => None
      case Some(pud) =>
        match pud.pmdOffset(addr)
        case None => None
        case Some(pmd) =>
          if pmd.highMem then None else Some(pmd.pteOffset(addr))
  }

  /** A missing `mm` walks the kernel's own page table. */
  lemma NullMmIsInitMm(initMm: Mm, addr: bv32)
    ensures GetPte(None, initMm, addr) == GetPte(Some(initMm), initMm, addr)
  {
  }

  function MkPresent(p: Pte): Pte { p.(present := true) }
  function MkNotPresent(p: Pte): Pte { p.(present := false) }
  function WrProtect(p: Pte): Pte { p.(write := false) }
  function MkWrite(p: Pte): Pte { p.(write := true) }

  /** The entry after the two `set_pte_ext` calls for `state`. */
  function ApplyState(p: Pte, state: int): (q: Pte)
    ensures q.rest == p.rest
    ensures state == VIOLA_SHARED ==> q.present && !q.write
    ensures state == VIOLA_MODIFIED ==> q.present && q.write
    ensures state == VIOLA_INVALID ==> !q.present && !q.write
    ensures !IsPageState(state) ==> q == p
  {
    if state == VIOLA_SHARED then WrProtect(MkPresent(p))
    else if state == VIOLA_MODIFIED then MkWrite(MkPresent(p))
    else if state == VIOLA_INVALID then WrProtect(MkNotPresent(p))
    else p
  }

  /** Only three permission combinations are reachable; a writable page is always present. */
  lemma StatesAreExclusive(p: Pte, state: int)
    requires IsPageState(state)
    ensures ApplyState(p, state).write ==> ApplyState(p, state).present
    ensures ApplyState(p, state).present == (state != VIOLA_INVALID)
    ensures ApplyState(p, state).write == (state == VIOLA_MODIFIED)
  {
  }

  /** Setting a known state forgets the previous one: the last setting wins. */
  lemma LastStateWins(p: Pte, s1: int, s2: int)
    requires IsPageState(s2)
    ensures ApplyState(ApplyState(p, s1), s2) == ApplyState(p, s2)
  {
  }

  /**
   * The memory-management state the setter works on: the kernel's page table,
   * the contents of every PTE slot, and the number of TLB flushes so far.
   */
  class Mmu {
    const initMm: Mm
    var ptes: imap<PteId, Pte>
    ghost var flushes: nat

    ghost predicate Valid()
      reads this
    {
      forall id: PteId :: id in ptes
    }

    constructor (initMm: Mm, ptes: imap<PteId, Pte>)
      requires forall id: PteId :: id in ptes
      ensures Valid() && this.ptes == ptes && flushes == 0
    {
      this.initMm := initMm;
      this.ptes := ptes;
      flushes := 0;
    }

    /** `set_pte_ext`: store a new value in one slot. */
    method SetPteExt(id: PteId, p: Pte)
      requires Valid()
      modifies this`ptes
      ensures Valid() && ptes == old(ptes)[id := p]
    {
      ptes := ptes[id := p];
    }

    /** `flush_tlb_all`. */
    method FlushTlbAll()
      modifies this`flushes
      ensures flushes == old(flushes) + 1
    {
      flushes := flushes + 1;
    }

    /**
     * Sets the page state of `localAddr`: -EFAULT and no change when it has no PTE;
     * otherwise the permission bits of `state` (none for an unknown state), one TLB
     * flush, and 0.
     */
    method ChangePageState(localAddr: bv32, state: int) returns (ret: int)
      requires Valid()
      modifies this`ptes, this`flushes
      ensures Valid()
      ensures GetPte(None, initMm, localAddr).None? ==>
        ret == -EFAULT && ptes == old(ptes) && flushes == old(flushes)
      ensures GetPte(None, initMm, localAddr).Some? ==>
        var id := GetPte(None, initMm, localAddr).value;
        ret == 0 && ptes == old(ptes)[id := ApplyState(old(ptes)[id], state)] &&
        flushes == old(flushes) + 1
    {
      var ptep := GetPte(None, initMm, localAddr);
      if ptep.None? {
        return -EFAULT;
      }
      var id := ptep.value;
      if state == VIOLA_SHARED {
        SetPteExt(id, MkPresent(ptes[id]));
        SetPteExt(id, WrProtect(ptes[id]));
      } else if state == VIOLA_MODIFIED {
        SetPteExt(id, MkPresent(ptes[id]));
        SetPteExt(id, MkWrite(ptes[id]));
      } else if state == VIOLA_INVALID {
        SetPteExt(id, MkNotPresent(ptes[id]));
        SetPteExt(id, WrProtect(ptes[id]));
      }
      FlushTlbAll();
      ret := 0;
    }
  }
}
