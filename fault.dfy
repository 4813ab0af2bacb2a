/**
 * The trap dispatcher. For a faulting address inside a protected window it decodes
 * the trapped store, puts its low byte (and, for a wider value, its second byte)
 * through the policy engine, forwards the whole register value to the real device
 * window 0x700000 above the trapped one, and retires the store by advancing pc by
 * one A32 instruction. Any other address is left to the kernel with -ENOMEM.
 *
 * As written, a veto and the offset overflow jump to the same label as success, so
 * the register value reaches the device whatever the policy decided (`KernelFault`).
 * `KernelFaultStrict` is the corrected dispatcher, which drops the store instead.
 */
module Fault {
  import opened Viola
  import opened Regions
  import opened Decode
  import opened Policy

  /** `struct pt_regs` holds r0..r15, cpsr and orig_r0; `ARM_pc` is `uregs[15]`. */
  const NUM_UREGS: nat := 18
  const PC: nat := 15

  /** Distance from a trapped window to the device's real register window. */
  const DEVICE_WINDOW: bv32 := 0x700000

  /** Width of one A32 instruction. */
  const INSN_WIDTH: bv32 := 4

  /** One `writel` to device memory. */
  datatype MmioWrite = MmioWrite(addr: bv32, value: bv32)

  /** How the policy stage ended. */
  datatype Status = Approved | Bypassed | Denied(code: int) | OffsetOverflow

  datatype Checks = Checks(status: Status, after: Engine, checked: seq<Request>)

  /**
   * The policy stage for a matched address: nothing in a bypass sub-range; otherwise
   * the low byte at `off`, then, only if it was approved and the value is wider than
   * a byte, the second byte at `off + 1` unless `off` is already 0xff.
   */
  function CheckBytes(pol: Validators, st: Engine, m: Match, off: bv8, value: bv32): (c: Checks)
    requires st.Valid()
    ensures c.after.Valid()
    ensures c.status == Bypassed <==> m.ignore
    ensures m.ignore <==> c.checked == []
    ensures !m.ignore ==> c.checked[0] == Request(m.devid, off, LowByte(value))
    ensures |c.checked| <= 2
    ensures |c.checked| == 2 ==> c.checked[1] == Request(m.devid, off + 1, HighByte(value)) && off != 0xff
    ensures m.ignore ==> c.after == st
    ensures !m.ignore ==>
      var a1 := Access(pol, st, Request(m.devid, off, LowByte(value)));
      && (a1.ret != 0 ==> c.status == Denied(a1.ret) && c.after == a1.after)
      && (c.status == OffsetOverflow <==> a1.ret == 0 && value > 0xff && off == 0xff)
      && (a1.ret == 0 && value <= 0xff ==> c.status == Approved && c.after == a1.after)
      && (c.status == OffsetOverflow ==> c.after == a1.after)
      && (|c.checked| == 2 ==>
            var a2 := Access(pol, a1.after, Request(m.devid, off + 1, HighByte(value)));
            c.after == a2.after && c.status == (if a2.ret != 0 then Denied(a2.ret) else Approved))
  {
    if m.ignore then Checks(Bypassed, st, [])
    else
      var lo := Request(m.devid, off, LowByte(value));
      var a1 := Access(pol, st, lo);
      if a1.ret != 0 then Checks(Denied(a1.ret), a1.after, [lo])
      else if value <= 0xff then Checks(Approved, a1.after, [lo])
      else if off == 0xff then Checks(OffsetOverflow, a1.after, [lo])
      else
        var hi := Request(m.devid, off + 1, HighByte(value));
        var a2 := Access(pol, a1.after, hi);
        Checks(if a2.ret != 0 then Denied(a2.ret) else Approved, a2.after, [lo, hi])
  }

  /** Everything one fault changes or produces. */
  datatype Outcome = Outcome(ret: int, engine: Engine, checked: seq<Request>, writes: seq<MmioWrite>, uregs: seq<bv32>)

  /** The handler as written: every matched fault is written through and retired. */
  function FaultOutcome(pol: Validators, st: Engine, addr: bv32, pc1: bv8, uregs: seq<bv32>): (o: Outcome)
    requires st.Valid() && |uregs| == NUM_UREGS
    ensures o.engine.Valid() && |o.uregs| == NUM_UREGS
  {
    match Lookup(addr)
    case None => Outcome(-ENOMEM, st, [], [], uregs)
    case Some(m) =>
      var value := uregs[SourceRegister(pc1)];
      var c := CheckBytes(pol, st, m, Offset(addr), value);
      Outcome(0, c.after, c.checked, [MmioWrite(addr + DEVICE_WINDOW, value)], uregs[PC := uregs[PC] + INSN_WIDTH])
  }

  /** Whether the policy stage forbids the store from reaching the device. */
  predicate Blocks(s: Status) {
    s.Denied? || s.OffsetOverflow?
  }

  /** The corrected handler: a veto or an overflow drops the store; it is still retired. */
  function StrictOutcome(pol: Validators, st: Engine, addr: bv32, pc1: bv8, uregs: seq<bv32>): (o: Outcome)
    requires st.Valid() && |uregs| == NUM_UREGS
    ensures o.engine.Valid() && |o.uregs| == NUM_UREGS
  {
    match Lookup(addr)
    case None => Outcome(-ENOMEM, st, [], [], uregs)
    case Some(m) =>
      var value := uregs[SourceRegister(pc1)];
      var c := CheckBytes(pol, st, m, Offset(addr), value);
      var writes := if Blocks(c.status) then [] else [MmioWrite(addr + DEVICE_WINDOW, value)];
      Outcome(0, c.after, c.checked, writes, uregs[PC := uregs[PC] + INSN_WIDTH])
  }

  /** An address outside every window is not the monitor's: nothing is touched. */
  lemma NotOursTouchesNothing(pol: Validators, st: Engine, addr: bv32, pc1: bv8, uregs: seq<bv32>)
    requires st.Valid() && |uregs| == NUM_UREGS
    requires forall i :: 0 <= i < |REGIONS| ==> !Contains(REGIONS[i], addr)
    ensures FaultOutcome(pol, st, addr, pc1, uregs) == Outcome(-ENOMEM, st, [], [], uregs)
  {
    LookupAgreesWithTable(addr);
  }

  /**
   * Whatever the policy decided, a matched fault writes the full, unsplit register
   * value once to the real device window, advances pc by 4, and returns 0.
   */
  lemma MatchedAlwaysWritesThrough(pol: Validators, st: Engine, addr: bv32, pc1: bv8, uregs: seq<bv32>)
    requires st.Valid() && |uregs| == NUM_UREGS && Lookup(addr).Some?
    ensures var o := FaultOutcome(pol, st, addr, pc1, uregs);
      o.ret == 0 &&
      o.writes == [MmioWrite(addr + DEVICE_WINDOW, uregs[SourceRegister(pc1)])] &&
      o.uregs == uregs[PC := uregs[PC] + INSN_WIDTH]
  {
  }

  /** The write-back target is the window 0x700000 higher, which no trap guards. */
  lemma WriteBackIsUntrapped(addr: bv32)
    requires Lookup(addr).Some?
    ensures addr < addr + DEVICE_WINDOW
    ensures Lookup(addr + DEVICE_WINDOW).None?
  {
  }

  /** A bypassed address consults no validator and changes no shadow. */
  lemma BypassSkipsPolicy(pol: Validators, st: Engine, addr: bv32, pc1: bv8, uregs: seq<bv32>)
    requires st.Valid() && |uregs| == NUM_UREGS
    requires Lookup(addr).Some? && Lookup(addr).value.ignore
    ensures FaultOutcome(pol, st, addr, pc1, uregs).checked == []
    ensures FaultOutcome(pol, st, addr, pc1, uregs).engine == st
  {
  }

  /** Which addresses bypass: the first 0x300 bytes of the IC window and 0x400 of the clock's. */
  lemma BypassRanges(addr: bv32)
    ensures (Lookup(addr).Some? && Lookup(addr).value.ignore) <==>
      (0xfa018000 <= addr < 0xfa018300 || 0xf901b000 <= addr < 0xf901b400)
  {
  }

  /** A veto of the low byte ends the policy stage: the second byte is never checked. */
  lemma LowDenialSkipsHigh(pol: Validators, st: Engine, addr: bv32, pc1: bv8, uregs: seq<bv32>)
    requires st.Valid() && |uregs| == NUM_UREGS
    requires Lookup(addr).Some? && !Lookup(addr).value.ignore
    requires Access(pol, st, Request(Lookup(addr).value.devid, Offset(addr), LowByte(uregs[SourceRegister(pc1)]))).ret != 0
    ensures FaultOutcome(pol, st, addr, pc1, uregs).checked ==
      [Request(Lookup(addr).value.devid, Offset(addr), LowByte(uregs[SourceRegister(pc1)]))]
    ensures FaultOutcome(pol, st, addr, pc1, uregs).engine.shadows == Current(st)
  {
    var lo := Request(Lookup(addr).value.devid, Offset(addr), LowByte(uregs[SourceRegister(pc1)]));
    DenialLeavesShadows(pol, st, lo);
  }

  /**
   * The second byte is checked exactly when the low byte was approved, the register
   * is wider than a byte and the offset is not 0xff.
   */
  lemma HighByteCheckedWhen(pol: Validators, st: Engine, addr: bv32, pc1: bv8, uregs: seq<bv32>)
    requires st.Valid() && |uregs| == NUM_UREGS
    requires Lookup(addr).Some? && !Lookup(addr).value.ignore
    ensures var value := uregs[SourceRegister(pc1)];
      var lo := Request(Lookup(addr).value.devid, Offset(addr), LowByte(value));
      |FaultOutcome(pol, st, addr, pc1, uregs).checked| == 2 <==>
        Access(pol, st, lo).ret == 0 && value > 0xff && Offset(addr) != 0xff
  {
  }

  /** A veto of the second byte does not undo the low byte already committed. */
  lemma HighDenialKeepsLowByte(pol: Validators, st: Engine, m: Match, off: bv8, value: bv32)
    requires st.Valid() && IsDevice(m.devid)
    requires |CheckBytes(pol, st, m, off, value).checked| == 2
    ensures CheckBytes(pol, st, m, off, value).after.shadows.Get(m.devid)[off as int] == LowByte(value)
  {
    var lo := Request(m.devid, off, LowByte(value));
    var a1 := Access(pol, st, lo);
    var hi := Request(m.devid, off + 1, HighByte(value));
    ApprovalWritesOneByte(pol, st, lo, m.devid, off as int);
    AccessKeepsOtherBytes(pol, a1.after, hi, m.devid, off as int);
  }

  /**
   * The worked example: a store of r2 = 0x1234 at 0xf9016010, both bytes approved,
   * leaves 0x34 and 0x12 at offsets 0x10 and 0x11 of the vibrator shadow and writes
   * 0x1234 once to 0xf9716010.
   */
  lemma TwoByteStoreExample(pol: Validators, st: Engine, uregs: seq<bv32>)
    requires st.Valid() && |uregs| == NUM_UREGS && uregs[2] == 0x1234
    requires forall id, s, req :: Run(pol, id, s, req) == 0
    ensures var o := FaultOutcome(pol, st, 0xf9016010, 0x20, uregs);
      o.ret == 0 &&
      o.checked == [Request(VIB, 0x10, 0x34), Request(VIB, 0x11, 0x12)] &&
      o.engine.shadows.vib[0x10] == 0x34 && o.engine.shadows.vib[0x11] == 0x12 &&
      o.writes == [MmioWrite(0xf9716010, 0x1234)]
  {
    var lo := Request(VIB, 0x10, 0x34);
    var hi := Request(VIB, 0x11, 0x12);
    var a1 := Access(pol, st, lo);
    ApprovalWritesOneByte(pol, st, lo, VIB, 0x10);
    ApprovalWritesOneByte(pol, a1.after, hi, VIB, 0x10);
    ApprovalWritesOneByte(pol, a1.after, hi, VIB, 0x11);
  }

  /** The policy that vetoes everything. */
  function DenyAll(): Validators {
    Validators((m, s, r) => 1, (m, s, r) => 1, (m, s, r) => 1)
  }

  /** As written, a store that every validator vetoes still reaches the device. */
  lemma DeniedStoreReachesDevice(st: Engine, uregs: seq<bv32>)
    requires st.Valid() && |uregs| == NUM_UREGS
    ensures var o := FaultOutcome(DenyAll(), st, 0xf9016010, 0x20, uregs);
      o.checked == [Request(VIB, 0x10, LowByte(uregs[2]))] &&
      o.writes == [MmioWrite(0xf9716010, uregs[2])]
  {
  }

  /**
   * The corrected handler writes to the device exactly when the policy stage neither
   * vetoed nor overflowed, and otherwise behaves as the handler as written.
   */
  lemma StrictWritesOnlyWhenAllowed(pol: Validators, st: Engine, addr: bv32, pc1: bv8, uregs: seq<bv32>)
    requires st.Valid() && |uregs| == NUM_UREGS && Lookup(addr).Some?
    ensures var o := StrictOutcome(pol, st, addr, pc1, uregs);
      var w := FaultOutcome(pol, st, addr, pc1, uregs);
      var c := CheckBytes(pol, st, Lookup(addr).value, Offset(addr), uregs[SourceRegister(pc1)]);
      o == w.(writes := o.writes) &&
      (o.writes == [] <==> Blocks(c.status)) &&
      (o.writes != [] ==> o.writes == w.writes)
  {
  }

  /** In the corrected handler, a store every validator vetoes never reaches the device. */
  lemma StrictDeniedStoreDropped(st: Engine, addr: bv32, pc1: bv8, uregs: seq<bv32>)
    requires st.Valid() && |uregs| == NUM_UREGS && Lookup(addr).Some? && !Lookup(addr).value.ignore
    ensures StrictOutcome(DenyAll(), st, addr, pc1, uregs).writes == []
  {
  }

  /** In the corrected handler, a veto of the low byte drops the store. */
  lemma StrictLowVetoDropsStore(pol: Validators, st: Engine, addr: bv32, pc1: bv8, uregs: seq<bv32>)
    requires st.Valid() && |uregs| == NUM_UREGS
    requires Lookup(addr).Some? && !Lookup(addr).value.ignore
    requires Access(pol, st, Request(Lookup(addr).value.devid, Offset(addr), LowByte(uregs[SourceRegister(pc1)]))).ret != 0
    ensures StrictOutcome(pol, st, addr, pc1, uregs).writes == []
  {
  }

  /** In the corrected handler, a veto of the second byte drops the store as well. */
  lemma StrictHighVetoDropsStore(pol: Validators, st: Engine, addr: bv32, pc1: bv8, uregs: seq<bv32>)
    requires st.Valid() && |uregs| == NUM_UREGS
    requires Lookup(addr).Some? && !Lookup(addr).value.ignore
    requires var m, value := Lookup(addr).value, uregs[SourceRegister(pc1)];
      var a1 := Access(pol, st, Request(m.devid, Offset(addr), LowByte(value)));
      a1.ret == 0 && value > 0xff && Offset(addr) != 0xff &&
      Access(pol, a1.after, Request(m.devid, Offset(addr) + 1, HighByte(value))).ret != 0
    ensures StrictOutcome(pol, st, addr, pc1, uregs).writes == []
  {
  }

  /** The device bus: every `writel`, in order. */
  class Bus {
    ghost var log: seq<MmioWrite>

    constructor ()
      ensures log == []
    {
      log := [];
    }

    method Writel(value: bv32, addr: bv32)
      modifies this
      ensures log == old(log) + [MmioWrite(addr, value)]
    {
      log := log + [MmioWrite(addr, value)];
    }
  }

  /**
   * The policy stage of `viola_kernel_fault` (from the bypass test to the second
   * check): puts the low byte, and when allowed the second byte, of `value` to the
   * engine, and reports how the stage ended.
   */
  method CheckStage(engine: PolicyEngine, m: Match, off: bv8, value: bv32)
    returns (status: Status, ghost checked: seq<Request>)
    requires engine.Valid()
    modifies engine.Repr()
    ensures engine.Valid() && fresh(engine.Repr() - old(engine.Repr()))
    ensures var c := CheckBytes(engine.policy, old(engine.View()), m, off, value);
      status == c.status && checked == c.checked && engine.View() == c.after
  {
    ghost var st0 := engine.View();
    ghost var c := CheckBytes(engine.policy, st0, m, off, value);
    if m.ignore {
      return Bypassed, [];
    }
    var reg := off;
    var charVal := LowByte(value);
    var lo := Request(m.devid, reg, charVal);
    ghost var a1 := Access(engine.policy, st0, lo);
    var r;
    ghost var called;
    r, called := engine.CheckRegAccess(m.devid, reg, charVal);
    checked := [lo];
    if r != 0 {
      status := Denied(r);
      assert c == Checks(Denied(a1.ret), a1.after, [lo]);
      return;
    }
    if value > 0xff {
      if reg == 0xff {
        status := OffsetOverflow;
        assert c == Checks(OffsetOverflow, a1.after, [lo]);
        return;
      }
      charVal := HighByte(value);
      reg := reg + 1;
      var hi := Request(m.devid, reg, charVal);
      ghost var a2 := Access(engine.policy, a1.after, hi);
      r, called := engine.CheckRegAccess(m.devid, reg, charVal);
      checked := checked + [hi];
      status := if r != 0 then Denied(r) else Approved;
      assert c == Checks(if a2.ret != 0 then Denied(a2.ret) else Approved, a2.after, [lo, hi]);
    } else {
      status := Approved;
      assert c == Checks(Approved, a1.after, [lo]);
    }
  }

  /** `regs->ARM_pc += 4`: the trapped store is retired, every other register kept. */
  method Retire(regs: array<bv32>)
    requires regs.Length == NUM_UREGS
    modifies regs
    ensures regs[..] == old(regs[..])[PC := old(regs[PC]) + INSN_WIDTH]
  {
    regs[PC] := regs[PC] + INSN_WIDTH;
  }

  /**
   * `viola_kernel_fault` as written. `regs` is the saved register file, `pc1` the
   * byte at pc+1; `checked` records the requests put to the policy engine.
   */
  method KernelFault(engine: PolicyEngine, bus: Bus, regs: array<bv32>, addr: bv32, pc1: bv8)
    returns (ret: int, ghost checked: seq<Request>)
    requires engine.Valid() && regs.Length == NUM_UREGS
    requires regs !in engine.Repr() && bus !in engine.Repr()
    modifies engine.Repr(), bus, regs
    ensures engine.Valid() && fresh(engine.Repr() - old(engine.Repr()))
    ensures var o := FaultOutcome(engine.policy, old(engine.View()), addr, pc1, old(regs[..]));
      ret == o.ret && checked == o.checked && engine.View() == o.engine &&
      bus.log == old(bus.log) + o.writes && regs[..] == o.uregs
  {
    var m := Lookup(addr);
    if m.None? {
      return -ENOMEM, [];
    }
    var srcRegIndex := SourceRegister(pc1);
    var status;
    status, checked := CheckStage(engine, m.value, Offset(addr), regs[srcRegIndex]);
    // A veto and the overflow arrive here too: the store is written through regardless.
    bus.Writel(regs[srcRegIndex], addr + DEVICE_WINDOW);
    Retire(regs);
    ret := 0;
  }

  /** The corrected dispatcher: a veto or an overflow drops the store instead of writing it. */
  method KernelFaultStrict(engine: PolicyEngine, bus: Bus, regs: array<bv32>, addr: bv32, pc1: bv8)
    returns (ret: int, ghost checked: seq<Request>)
    requires engine.Valid() && regs.Length == NUM_UREGS
    requires regs !in engine.Repr() && bus !in engine.Repr()
    modifies engine.Repr(), bus, regs
    ensures engine.Valid() && fresh(engine.Repr() - old(engine.Repr()))
    ensures var o := StrictOutcome(engine.policy, old(engine.View()), addr, pc1, old(regs[..]));
      ret == o.ret && checked == o.checked && engine.View() == o.engine &&
      bus.log == old(bus.log) + o.writes && regs[..] == o.uregs
  {
    var m := Lookup(addr);
    if m.None? {
      return -ENOMEM, [];
    }
    var srcRegIndex := SourceRegister(pc1);
    var status;
    status, checked := CheckStage(engine, m.value, Offset(addr), regs[srcRegIndex]);
    if !Blocks(status) {
      bus.Writel(regs[srcRegIndex], addr + DEVICE_WINDOW);
    }
    Retire(regs);
    ret := 0;
  }
}
