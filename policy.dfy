/**
 * The access-policy engine: four lazily created 256-byte shadow register files
 * (camera, vibrator, vibrator IC, vibrator clock), an ordered chain of three
 * cross-device validators that short-circuits on the first veto, and a commit of
 * the approved byte into the requesting device's shadow.
 *
 * The validators' bodies are not part of this model. Each one is a pure function of
 * the master shadow, the slave shadow and the request, so by construction it cannot
 * change the shadows it is shown.
 */
module Policy {
  import opened Viola

  /** The triple handed to every validator: device, register offset, byte value. */
  datatype Request = Request(devid: bv8, regoff: bv8, regval: bv8)

  /** A validator: 0 approves, anything else vetoes. */
  type Validator = (seq<bv8>, seq<bv8>, Request) -> int

  datatype Validators = Validators(icClk: Validator, vibIc: Validator, camVib: Validator)

  datatype ValidatorId = IcClk | VibIc | CamVib

  /** The order in which the chain consults the validators. */
  const CHAIN: seq<ValidatorId> := [IcClk, VibIc, CamVib]

  /** The four shadow register files, as values. */
  datatype Shadows = Shadows(cam: seq<bv8>, vib: seq<bv8>, vibIc: seq<bv8>, vibClk: seq<bv8>) {
    predicate Valid() {
      |cam| == SHADOW_SIZE && |vib| == SHADOW_SIZE &&
      |vibIc| == SHADOW_SIZE && |vibClk| == SHADOW_SIZE
    }

    /** The shadow owned by a device. */
    function Get(devid: bv8): seq<bv8>
      requires IsDevice(devid)
    {
      if devid == CAM then cam
      else if devid == VIB then vib
      else if devid == VIB_IC then vibIc
      else vibClk
    }
  }

  function Zeroes(): (z: seq<bv8>)
    ensures |z| == SHADOW_SIZE && forall i :: 0 <= i < |z| ==> z[i] == 0
  {
    seq(SHADOW_SIZE, _ => 0)
  }

  /** The shadows right after the one-time allocation: all 256-byte, all zero. */
  function Zeroed(): (s: Shadows)
    ensures s.Valid()
    ensures forall d, i :: IsDevice(d) && 0 <= i < SHADOW_SIZE ==> s.Get(d)[i] == 0
  {
    Shadows(Zeroes(), Zeroes(), Zeroes(), Zeroes())
  }

  /** The engine's state: whether the shadows exist yet, and their contents once they do. */
  datatype Engine = Engine(initialized: bool, shadows: Shadows) {
    predicate Valid() {
      initialized ==> shadows.Valid()
    }
  }

  /** The shadows a call works on: the existing ones, or fresh zeroed ones on the first call. */
  function Current(st: Engine): (s: Shadows)
    requires st.Valid()
    ensures s.Valid()
  {
    if st.initialized then st.shadows else Zeroed()
  }

  /** One validator, shown the pair of shadows it inspects. */
  function Run(pol: Validators, id: ValidatorId, s: Shadows, req: Request): int {
    match id
    case IcClk => pol.icClk(s.vibIc, s.vibClk, req)
    case VibIc => pol.vibIc(s.vib, s.vibIc, req)
    case CamVib => pol.camVib(s.cam, s.vib, req)
  }

  /** What the chain decided, and which validators it consulted, in order. */
  datatype Verdict = Verdict(ret: int, called: seq<ValidatorId>)

  /**
   * The validator chain: it consults a prefix of IcClk, VibIc, CamVib, every one but
   * the last of which approved; the verdict is the last one's result, and it is 0
   * exactly when all three approve.
   */
  function Chain(pol: Validators, s: Shadows, req: Request): (v: Verdict)
    ensures 1 <= |v.called| <= |CHAIN| && v.called == CHAIN[..|v.called|]
    ensures forall k :: 0 <= k < |v.called| - 1 ==> Run(pol, v.called[k], s, req) == 0
    ensures v.ret == Run(pol, v.called[|v.called| - 1], s, req)
    ensures v.ret == 0 <==> forall id :: Run(pol, id, s, req) == 0
    ensures v.ret == 0 ==> v.called == CHAIN
  {
    var r1 := Run(pol, IcClk, s, req);
    if r1 != 0 then Verdict(r1, [IcClk])
    else
      var r2 := Run(pol, VibIc, s, req);
      if r2 != 0 then Verdict(r2, [IcClk, VibIc])
      else
        var r3 := Run(pol, CamVib, s, req);
        Verdict(r3, [IcClk, VibIc, CamVib])
  }

  /**
   * Stores an approved byte: exactly `shadow[devid][regoff]` becomes `regval`, every
   * other byte of every shadow is kept; a request for no known device stores nothing.
   */
  function Commit(s: Shadows, req: Request): (t: Shadows)
    requires s.Valid()
    ensures t.Valid()
    ensures forall d, i :: IsDevice(d) && 0 <= i < SHADOW_SIZE ==>
      t.Get(d)[i] == if d == req.devid && i == req.regoff as int then req.regval else s.Get(d)[i]
    ensures !IsDevice(req.devid) ==> t == s
  {
    var i := req.regoff as int;
    if req.devid == VIB then s.(vib := s.vib[i := req.regval])
    else if req.devid == CAM then s.(cam := s.cam[i := req.regval])
    else if req.devid == VIB_IC then s.(vibIc := s.vibIc[i := req.regval])
    else if req.devid == VIB_CLK then s.(vibClk := s.vibClk[i := req.regval])
    else s
  }

  /** The outcome of one access check: the result, the validators consulted, the new state. */
  datatype AccessResult = AccessResult(ret: int, called: seq<ValidatorId>, after: Engine)

  /** One call of the policy check: lazy initialisation, the chain, commit on approval. */
  function Access(pol: Validators, st: Engine, req: Request): (a: AccessResult)
    requires st.Valid()
    ensures a.after.initialized && a.after.Valid()
  {
    var s := Current(st);
    var v := Chain(pol, s, req);
    AccessResult(v.ret, v.called, Engine(true, if v.ret == 0 then Commit(s, req) else s))
  }

  /** A veto leaves every shadow byte as it was (after lazy initialisation). */
  lemma DenialLeavesShadows(pol: Validators, st: Engine, req: Request)
    requires st.Valid()
    requires Access(pol, st, req).ret != 0
    ensures Access(pol, st, req).after.shadows == Current(st)
    ensures exists id :: Run(pol, id, Current(st), req) != 0
  {
  }

  /** An approved check for a known device changes exactly one byte: its own, at `regoff`. */
  lemma ApprovalWritesOneByte(pol: Validators, st: Engine, req: Request, d: bv8, i: nat)
    requires st.Valid() && IsDevice(d) && i < SHADOW_SIZE
    requires Access(pol, st, req).ret == 0
    ensures Access(pol, st, req).after.shadows.Get(d)[i] ==
      if d == req.devid && i == req.regoff as int then req.regval else Current(st).Get(d)[i]
  {
  }

  /** Approval for an id that owns no shadow returns 0 and stores nothing. */
  lemma ApprovalOfUnknownDevice(pol: Validators, st: Engine, req: Request)
    requires st.Valid() && !IsDevice(req.devid)
    requires forall id :: Run(pol, id, Current(st), req) == 0
    ensures Access(pol, st, req).ret == 0
    ensures Access(pol, st, req).after.shadows == Current(st)
  {
  }

  /**
   * Whatever the verdict, a check changes no byte other than the requested one: the
   * existing shadows are never reset, and on the first call they start out zeroed.
   */
  lemma AccessKeepsOtherBytes(pol: Validators, st: Engine, req: Request, d: bv8, i: nat)
    requires st.Valid() && IsDevice(d) && i < SHADOW_SIZE
    requires d != req.devid || i != req.regoff as int
    ensures Access(pol, st, req).after.shadows.Get(d)[i] == Current(st).Get(d)[i]
  {
  }

  /** Committing the same approved request twice stores the same shadows as once. */
  lemma CommitIdempotent(s: Shadows, req: Request)
    requires s.Valid()
    ensures Commit(Commit(s, req), req) == Commit(s, req)
  {
  }

  /** The engine's state after a sequence of checks, one after another. */
  function AccessAll(pol: Validators, st: Engine, reqs: seq<Request>): (e: Engine)
    requires st.Valid()
    ensures e.Valid()
    decreases |reqs|
  {
    if reqs == [] then st
    else AccessAll(pol, Access(pol, st, reqs[0]).after, reqs[1..])
  }

  /**
   * Across any sequence of checks, a shadow byte that no request addressed keeps
   * the value it had before the sequence began (zero, if the shadows did not exist).
   */
  lemma {:induction false} UnaddressedBytesKeep(pol: Validators, st: Engine, reqs: seq<Request>, d: bv8, i: nat)
    requires st.Valid() && IsDevice(d) && i < SHADOW_SIZE
    requires forall k :: 0 <= k < |reqs| ==> reqs[k].devid != d || reqs[k].regoff as int != i
    ensures Current(AccessAll(pol, st, reqs)).Get(d)[i] == Current(st).Get(d)[i]
    decreases |reqs|
  {
    if reqs != [] {
      var a := Access(pol, st, reqs[0]);
      assert a.after.shadows.Get(d)[i] == Current(st).Get(d)[i];
      UnaddressedBytesKeep(pol, a.after, reqs[1..], d, i);
    }
  }

  /**
   * The policy engine's mutable state: the once-only flag and the four shadow
   * buffers, which are null until the first check allocates them.
   */
  class PolicyEngine {
    const policy: Validators
    var initialized: bool
    var cam: array?<bv8>
    var vib: array?<bv8>
    var vibIc: array?<bv8>
    var vibClk: array?<bv8>

    /** The objects the engine owns. */
    ghost function Repr(): set<object>
      reads this
    {
      {this} +
      (if cam != null then {cam} else {}) + (if vib != null then {vib} else {}) +
      (if vibIc != null then {vibIc} else {}) + (if vibClk != null then {vibClk} else {})
    }

    ghost predicate Valid()
      reads this
    {
      (cam != null ==> cam.Length == SHADOW_SIZE) &&
      (vib != null ==> vib.Length == SHADOW_SIZE) &&
      (vibIc != null ==> vibIc.Length == SHADOW_SIZE) &&
      (vibClk != null ==> vibClk.Length == SHADOW_SIZE) &&
      (cam != null && vib != null ==> cam != vib) &&
      (cam != null && vibIc != null ==> cam != vibIc) &&
      (cam != null && vibClk != null ==> cam != vibClk) &&
      (vib != null && vibIc != null ==> vib != vibIc) &&
      (vib != null && vibClk != null ==> vib != vibClk) &&
      (vibIc != null && vibClk != null ==> vibIc != vibClk) &&
      (initialized ==> cam != null && vib != null && vibIc != null && vibClk != null)
    }

    /** The engine as a value: the flag, and the buffers' contents once they exist. */
    ghost function View(): (e: Engine)
      reads this, Repr()
      requires Valid()
      ensures e.Valid() && e.initialized == initialized
    {
      if initialized then Engine(true, Shadows(cam[..], vib[..], vibIc[..], vibClk[..]))
      else Engine(false, Zeroed())
    }

    constructor (policy: Validators)
      ensures Valid() && !initialized
      ensures cam == null && vib == null && vibIc == null && vibClk == null
    {
      this.policy := policy;
      initialized := false;
      cam, vib, vibIc, vibClk := null, null, null, null;
    }

    /**
     * Allocates the zeroed shadow of `devid` alone and returns 0; an id outside
     * 4..7 allocates nothing.
     */
    method InitIomem(devid: bv32) returns (ret: int)
      requires Valid()
      modifies this`cam, this`vib, this`vibIc, this`vibClk
      ensures Valid() && ret == 0 && fresh(Repr() - old(Repr()))
      ensures devid == CAM as bv32 ==> fresh(cam) && cam[..] == Zeroes()
      ensures devid == VIB as bv32 ==> fresh(vib) && vib[..] == Zeroes()
      ensures devid == VIB_IC as bv32 ==> fresh(vibIc) && vibIc[..] == Zeroes()
      ensures devid == VIB_CLK as bv32 ==> fresh(vibClk) && vibClk[..] == Zeroes()
      ensures devid != CAM as bv32 ==> cam == old(cam)
      ensures devid != VIB as bv32 ==> vib == old(vib)
      ensures devid != VIB_IC as bv32 ==> vibIc == old(vibIc)
      ensures devid != VIB_CLK as bv32 ==> vibClk == old(vibClk)
    {
      if devid == 0x4 {
        cam := new bv8[SHADOW_SIZE](_ => 0);
      }
      if devid == 0x5 {
        vib := new bv8[SHADOW_SIZE](_ => 0);
      }
      if devid == 0x6 {
        vibIc := new bv8[SHADOW_SIZE](_ => 0);
      }
      if devid == 0x7 {
        vibClk := new bv8[SHADOW_SIZE](_ => 0);
      }
      ret := 0;
    }

    /** The one-time initialisation: allocate all four shadows, then set the flag. */
    method InitIomems()
      requires Valid() && !initialized
      modifies this
      ensures Valid() && initialized && fresh(Repr() - old(Repr()))
      ensures fresh(cam) && fresh(vib) && fresh(vibIc) && fresh(vibClk)
      ensures View() == Engine(true, Zeroed())
    {
      var _ := InitIomem(0x4);
      var _ := InitIomem(0x5);
      var _ := InitIomem(0x6);
      var _ := InitIomem(0x7);
      initialized := true;
    }

    /** The commit step of an approved check: one byte of the requesting device's shadow. */
    method CommitByte(req: Request)
      requires Valid() && initialized
      modifies cam, vib, vibIc, vibClk
      ensures Valid() && initialized
      ensures View() == Engine(true, Commit(old(View()).shadows, req))
    {
      if req.devid == 0x5 {
        vib[req.regoff] := req.regval;
      }
      if req.devid == 0x4 {
        cam[req.regoff] := req.regval;
      }
      if req.devid == 0x6 {
        vibIc[req.regoff] := req.regval;
      }
      if req.devid == 0x7 {
        vibClk[req.regoff] := req.regval;
      }
    }

    /**
     * `viola_check_reg_access`: allocates the shadows on the first call, consults
     * the validators in order until one vetoes, and on unanimous approval stores
     * `regval` at `regoff` in the device's shadow. `called` records the validators
     * consulted.
     */
    method CheckRegAccess(devid: bv8, regoff: bv8, regval: bv8) returns (ret: int, ghost called: seq<ValidatorId>)
      requires Valid()
      modifies Repr()
      ensures Valid() && initialized && fresh(Repr() - old(Repr()))
      ensures !old(initialized) ==> fresh(cam) && fresh(vib) && fresh(vibIc) && fresh(vibClk)
      ensures old(initialized) ==>
        cam == old(cam) && vib == old(vib) && vibIc == old(vibIc) && vibClk == old(vibClk)
      ensures var a := Access(policy, old(View()), Request(devid, regoff, regval));
        ret == a.ret && called == a.called && View() == a.after
    {
      if !initialized {
        InitIomems();
      }
      var req := Request(devid, regoff, regval);
      ghost var s := Shadows(cam[..], vib[..], vibIc[..], vibClk[..]);
      assert s == Current(old(View()));

      ret := policy.icClk(vibIc[..], vibClk[..], req);
      called := [IcClk];
      if ret != 0 {
        return;
      }
      ret := policy.vibIc(vib[..], vibIc[..], req);
      called := called + [VibIc];
      if ret != 0 {
        return;
      }
      ret := policy.camVib(cam[..], vib[..], req);
      called := called + [CamVib];
      if ret != 0 {
        return;
      }
      CommitByte(req);
    }
  }
}
