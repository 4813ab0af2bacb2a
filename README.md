# Viola register-access monitor, modelled in Dafny

Viola guards four memory-mapped devices of a phone kernel: camera (id 4), vibrator
(5), vibrator IC (6) and vibrator clock (7). Their register windows are mapped
without access, so every store to them faults. The fault handler
(`viola_kernel_fault`) does the following:

- finds the device of the faulting address;
- decodes which register the trapped `STR` stores;
- puts the low byte of that register, and for a wider value its second byte, to the
  policy engine (`viola_check_reg_access`);
- forwards the whole register value to the device's real window, 0x700000 higher;
- retires the instruction by advancing `pc` by 4.

The policy engine does the following:

- creates four zeroed 256-byte shadow register files on its first call;
- consults three cross-device validators in a fixed order, stopping at the first veto;
- on unanimous approval, stores the byte in the device's shadow.

A separate setter (`viola_change_page_state`) arms or disarms the trap. It sets the
present and write permissions of the page-table entry of an address.

The project has six modules:

- `Viola` (`viola.dfy`): the page-state numbers, the device ids, the errno values and the shadow size.
- `Regions` (`regions.dfy`): the address-to-device lookup. It holds the handler's own
  if/else chain and a table of the four windows, as a reference definition.
- `Decode` (`decode.dfy`): the decode arithmetic of the trapped store.
- `PageState` (`page_state.dfy`): `viola_get_pte` as a level-by-level lookup over an
  abstract page table, and `viola_change_page_state` as a method of class `Mmu`. That
  class holds the PTE store and a ghost count of TLB flushes.
- `Policy` (`policy.dfy`): the engine, on two levels. The values are `Shadows`, `Engine`,
  `Chain`, `Commit` and `Access`, with the lemmas. Class `PolicyEngine` holds the
  once-only flag and the four shadow arrays, which stay null until the first check.
  Its methods are proved to act on those arrays exactly as `Access` describes.
- `Fault` (`fault.dfy`): the dispatcher. `CheckBytes` and `FaultOutcome` give everything
  one fault produces. `KernelFault` is the imperative handler, proved against
  `FaultOutcome`. `KernelFaultStrict` is the corrected handler, proved against
  `StrictOutcome` (see Findings).

Bytes are `bv8`, because the target's `char` is unsigned; `reg + 1` therefore wraps as
a `char` does. Registers and addresses are `bv32`. The saved register file is an
`array<bv32>` of the 18 words of `struct pt_regs`, with `ARM_pc` at index 15.

The dispatcher takes two things as parameters that the real handler reads from memory:

- the byte at `pc+1`, which the handler fetches from instruction memory;
- the validators, which are supplied as pure functions of
  (master shadow, slave shadow, request).

Each `writel` is appended to the ghost log of a `Bus` object.

The handler treats a veto as an error: it logs "not allowed by Viola"
(`kernel/viola/viola_fault.c:179` and `:191`). Each time it then jumps to `err_nomem`.
That label sits directly on top of the `writel`, so the vetoed store still reaches the
device. The model follows the code as written and records the discrepancy under Findings.

## Model

| member | source | states |
|---|---|---|
| Regions.Lookup | kernel/viola/viola_fault.c:143-166 | a matched address always yields one of the four device ids 4..7; only the vibrator-IC and vibrator-clock windows can set the bypass flag |
| Regions.Find | kernel/viola/viola_fault.c:143-166 | table lookup: there is no match exactly when no configured window contains the address |
| Regions.LookupAgreesWithTable | kernel/viola/viola_fault.c:143-166 | for every address, the handler's if/else chain gives the same result as the table of windows |
| Regions.RegionsDisjoint | kernel/viola/viola_fault.c:143-163 | the four windows are pairwise disjoint |
| Regions.LookupFindsOwner | kernel/viola/viola_fault.c:143-163 | an address inside a window maps to that window's device, with bypass set exactly below the window's cutoff |
| Decode.SourceRegister | kernel/viola/viola_fault.c:169-171 | the decoded register index is always below 16 |
| Decode.DecodeArithmetic | kernel/viola/viola_fault.c:169-173 | the register index is the byte at pc+1 divided by 16; the offset is the address mod 256; the first checked byte is the register value mod 256 |
| Decode.SourceRegisterIsRt | kernel/viola/viola_fault.c:169-171 | the nibble decoded from byte 1 of a little-endian instruction word is its Rt field, bits 15..12 |
| Decode.SplitRecombines | kernel/viola/viola_fault.c:173-188 | for a value below 0x10000, the second byte and the low byte recombine to the whole value |
| PageState.GetPte | kernel/viola/viola_fault.c:44-87 | a PTE is returned exactly when the pgd, pud and pmd entries are all present and the pmd's page is not highmem, and it is then the pmd's entry for the address |
| PageState.NullMmIsInitMm | kernel/viola/viola_fault.c:48-49 | a null `mm` walks the kernel's own `init_mm` |
| PageState.ApplyState | kernel/viola/viola_fault.c:99-120 | SHARED gives present and read-only; MODIFIED gives present and writable; INVALID gives not present and read-only; an unknown state leaves the entry as it was; all other PTE bits are kept |
| PageState.StatesAreExclusive | kernel/viola/viola_fault.c:99-115 | for a known state, the entry is present exactly when the state is not INVALID and writable exactly when it is MODIFIED |
| PageState.LastStateWins | kernel/viola/viola_fault.c:99-115 | setting a known state overrides any earlier setting |
| PageState.Mmu.ChangePageState | kernel/viola/viola_fault.c:92-129 | with no PTE: returns -EFAULT, changes no entry and does not flush; otherwise: updates only that entry as the state table says, flushes the TLB once and returns 0 |
| Policy.Zeroed | kernel/viola/viola_interface.c:39-74 | the freshly allocated shadows are all 256 bytes long and all zero |
| Policy.Chain | kernel/viola/viola_interface.c:93-114 | the validators consulted are a prefix of ic_clk, vib_ic, cam_vib; all but the last of them approved; the result is the last one's result; it is 0 exactly when all three approve, and then all three were consulted |
| Policy.Commit | kernel/viola/viola_interface.c:115-126 | exactly `shadow[devid][regoff]` becomes `regval` and every other byte of every shadow is kept; an id with no shadow stores nothing |
| Policy.Access | kernel/viola/viola_interface.c:76-130 | after any check, the shadows exist |
| Policy.DenialLeavesShadows | kernel/viola/viola_interface.c:98-114 | a veto leaves every shadow byte as it was, and some validator vetoed |
| Policy.ApprovalWritesOneByte | kernel/viola/viola_interface.c:115-126 | an approved check for a known device changes exactly one byte, its own at `regoff` |
| Policy.ApprovalOfUnknownDevice | kernel/viola/viola_interface.c:115-128 | unanimous approval for an id outside 4..7 returns 0 and stores nothing |
| Policy.AccessKeepsOtherBytes | kernel/viola/viola_interface.c:81-91 | whatever the verdict, no byte other than the requested one changes; existing shadows are never reset |
| Policy.CommitIdempotent | kernel/viola/viola_interface.c:115-126 | repeating an approved commit leaves the shadows as one commit did |
| Policy.UnaddressedBytesKeep | kernel/viola/viola_interface.c:76-130 | across any sequence of checks, a byte no request addressed keeps its value from before the sequence (zero if the shadows did not exist yet) |
| Policy.PolicyEngine.InitIomem | kernel/viola/viola_interface.c:39-74 | allocates a fresh zeroed 256-byte buffer for its own id only; any other id allocates nothing; always returns 0 |
| Policy.PolicyEngine.InitIomems | kernel/viola/viola_interface.c:81-91 | the first call allocates all four shadows, zeroed, and sets the flag |
| Policy.PolicyEngine.CommitByte | kernel/viola/viola_interface.c:115-126 | the arrays afterwards hold the result of `Commit` on their previous contents |
| Policy.PolicyEngine.CheckRegAccess | kernel/viola/viola_interface.c:76-130 | result, validators consulted and new shadow contents are those of `Access`; the shadows are allocated on the first call only and never reallocated |
| Fault.CheckBytes | kernel/viola/viola_fault.c:172-194 | bypass checks nothing and leaves the engine as it was. Otherwise the low byte at the offset is checked first. A veto of it ends the stage as Denied with its code and its engine state. An approved byte-wide value ends as Approved. The overflow status occurs exactly when the low byte was approved and a wide value sits at offset 0xff. A second check, of bits 15..8 at offset+1, happens only with an offset other than 0xff, and its verdict and engine state are the stage's |
| Fault.CheckStage | kernel/viola/viola_fault.c:172-194 | the engine calls made and the resulting status and shadows are those of `CheckBytes` |
| Fault.NotOursTouchesNothing | kernel/viola/viola_fault.c:164-166 | an address in no window returns -ENOMEM; no check, no device write, registers and shadows unchanged |
| Fault.MatchedAlwaysWritesThrough | kernel/viola/viola_fault.c:196-204 | for every matched address, whatever the checks decided: one write of the unsplit register value to addr + 0x700000, pc advanced by 4, result 0 |
| Fault.WriteBackIsUntrapped | kernel/viola/viola_fault.c:198-200 | the write-back address lies above the trapped one and in no guarded window |
| Fault.BypassSkipsPolicy | kernel/viola/viola_fault.c:175-176 | a bypassed address consults no validator and changes no shadow |
| Fault.BypassRanges | kernel/viola/viola_fault.c:149-163 | an address bypasses exactly when it is in the first 0x300 bytes of the IC window or the first 0x400 of the clock window |
| Fault.LowDenialSkipsHigh | kernel/viola/viola_fault.c:178-181 | a veto of the low byte checks nothing more and leaves the shadows as they were |
| Fault.HighByteCheckedWhen | kernel/viola/viola_fault.c:183-194 | the second byte is checked exactly when the low byte was approved, the value exceeds 0xff and the offset is not 0xff |
| Fault.HighDenialKeepsLowByte | kernel/viola/viola_fault.c:178-194 | once the second byte has been checked, the approved low byte is in the shadow, whatever the second verdict |
| Fault.TwoByteStoreExample | kernel/viola/viola_fault.c:168-204 | storing r2 = 0x1234 at 0xf9016010, all approved: 0x34 and 0x12 land at vibrator offsets 0x10 and 0x11, and 0x1234 is written once to 0xf9716010 |
| Fault.DeniedStoreReachesDevice | kernel/viola/viola_fault.c:178-200 | with every validator vetoing, the store is still written to the device |
| Fault.StrictWritesOnlyWhenAllowed | kernel/viola/viola_fault.c:178-204 | the corrected handler agrees with the original in everything except the device write; it writes exactly when the checks neither vetoed nor overflowed |
| Fault.StrictLowVetoDropsStore | kernel/viola/viola_fault.c:178-181 | in the corrected handler, for any validators, a veto of the low byte means no device write |
| Fault.StrictHighVetoDropsStore | kernel/viola/viola_fault.c:183-194 | in the corrected handler, for any validators, a veto of the second byte means no device write |
| Fault.StrictDeniedStoreDropped | kernel/viola/viola_fault.c:178-200 | in the corrected handler, a store every validator vetoes never reaches the device |
| Fault.Retire | kernel/viola/viola_fault.c:202 | pc is advanced by one 4-byte instruction (mod 2^32); every other register is kept |
| Fault.KernelFault | kernel/viola/viola_fault.c:132-208 | result, checks made, new shadows, device writes and registers are those of `FaultOutcome` |
| Fault.KernelFaultStrict | kernel/viola/viola_fault.c:132-208 | as `KernelFault`, but against `StrictOutcome`: a vetoed or overflowed store is not written |

## Left out

- Real page-table hardware is abstract:
  - the walk functions `pgd_offset`, `pud_offset`, `pmd_offset` and `pte_offset_map`;
  - the `PTE_BIT_FUNC` bit values;
  - `pte_unmap`;
  - the page-frame test behind `PageHighMem`, which becomes a flag of the pmd entry.
- PTEs: a PTE is its present flag, its write flag and its other bits. `set_pte_ext` is a store into a total map of PTE slots. `flush_tlb_all` is a ghost counter.
- `writel` and the read of instruction memory at `pc+1` are memory accesses outside the model. The first is logged on `Bus`; the second is the `pc1` parameter.
- The bodies of the three validators (`viola_main_ic_clk`, `viola_main_vib_ic`, `viola_main_cam_vib`) are not part of this model. They are parameters, assumed pure: they return a verdict and cannot change the shadows they are shown.
- `kzalloc` failure: allocation always succeeds. The source ignores `init_iomem`'s -ENOMEM and sets the flag anyway, so a failed allocation would leave a null shadow behind. The model does not capture that case.
- Concurrency: the flag and the shadows are unlocked globals, and calls are modelled one at a time.
- Logging (`PRINTK_ERR`, `PRINTK0`, `LPRINTK0`), export macros, the vibrator prototypes of `include/linux/viola.h`, and the unused `mm` and `fsr` parameters of the handler.
- Fault.KernelFault: requires the register file and the bus to be objects distinct from the engine's buffers. In the kernel they are separate memory.
- Fault.KernelFaultStrict: carries the same separation requirement as `KernelFault`.

## Findings

| source | as written | input that shows it | evidently intended | confidence | as-written member | corrected member |
|---|---|---|---|---|---|---|
| kernel/viola/viola_fault.c:196-197 | the labels `emulate:` and `err_nomem:` coincide, so a vetoed store, and a wide store at offset 0xff, fall through to the `writel` exactly like an approved one | every validator returns 1; a store of r2 at 0xf9016010 (byte at pc+1 = 0x20): the low byte is vetoed, yet r2 is written to 0xf9716010 | a veto or the offset overflow drops the store (no device write); the instruction is still retired | not executed | Fault.DeniedStoreReachesDevice | Fault.StrictWritesOnlyWhenAllowed |
