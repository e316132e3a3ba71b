/** Decoded arm64 instructions as the TPIDRRO_EL0 scan reads them. A register is "tracked" while it holds the raw
  * TPIDRRO_EL0 value; a tracked state is the set of such registers. Inside a function an instruction is named by its
  * word index: word k is at the function's start + 4 * k.
  */
module TsdInstructions {
  import opened Wrappers

  const ADDRESS_SPACE: nat := 0x1_0000_0000_0000_0000
  const ZERO_REG: nat := 31
  const TPIDRRO_EL0: nat := 0xde83
  const ALLOWED_OFFSETS: set<nat> := {0x358}

  // VECTOR stands for the 26 SIMD loads and stores, OTHER for every opcode the scan does not name.
  datatype Op =
    | ERROR | UNKNOWN | MRS
    | B | BL | BCOND | BR | BLR | CBZ | CBNZ | TBZ | TBNZ
    | RET | SVC | BRK | HVC | SMC | DCPS1 | DCPS2 | DCPS3
    | LDR | STR | LDP | LDNP | LDXP | STP | STNP | STXR | STXP
    | VECTOR | OTHER

  // rd is also rt, and rm is also rt2: the decoder keeps each pair in one slot.
  datatype Inst = Inst(op: Op, rd: nat, rn: nat, rm: nat, imm: nat, offset: int,
                       alwaysTaken: bool, immediateOffset: bool)
  {
    predicate Decoded() {
      op != ERROR && op != UNKNOWN
    }

    predicate IsVectorDest() {
      op == VECTOR
    }

    predicate IsStoreLike() {
      op in {STNP, STP, STR, STXR, STXP}
    }

    predicate IsTestBranch() {
      op in {CBZ, CBNZ, TBZ, TBNZ}
    }

    predicate IsBranch() {
      op in {BCOND, B, BL, BR, BLR} || IsTestBranch()
    }

    predicate IsCall() {
      op == BL || op == BLR
    }

    predicate IsUnconditional() {
      op in {B, BR, BLR} || (op == BCOND && alwaysTaken)
    }

    predicate IsNoReturn() {
      op in {RET, SVC, BRK, HVC, SMC, DCPS1, DCPS2, DCPS3}
    }

    predicate EndsBlock() {
      IsBranch() || IsNoReturn()
    }

    predicate Clobbers(r: nat) {
      if IsVectorDest() || IsStoreLike() || IsTestBranch() then false
      else if op in {LDP, LDNP, LDXP} then rd == r || rm == r
      else rd == r
    }

    predicate Uses(r: nat) {
      rn == r || rm == r
    }

    // Branch displacements are added in 64-bit arithmetic, so a target wraps.
    function Target(addr: nat): Option<nat> {
      if op in {B, BL, BCOND} || IsTestBranch() then Some((addr + offset) % ADDRESS_SPACE) else None
    }

    predicate FixedOffsetAccess(r: nat) {
      (op == LDR || op == STR) && rn == r && immediateOffset
    }
  }

  // X0-X17 and X30 do not survive a call.
  predicate LostAcrossCall(r: nat) {
    r <= 17 || r == 30
  }

  predicate CalleeSaved(r: nat) {
    19 <= r <= 28
  }

  function AfterMRS(i: Inst, s: set<nat>): set<nat> {
    if i.rd == ZERO_REG then s
    else if i.imm == TPIDRRO_EL0 then s + {i.rd}
    else s - {i.rd}
  }

  // The tracked state after one instruction; None is a word the scan skips.
  function Step(i: Option<Inst>, s: set<nat>): set<nat> {
    match i
    case None => s
    case Some(inst) =>
      if inst.op == MRS then AfterMRS(inst, s)
      else
        var kept := if inst.IsCall() then set r | r in s && !LostAcrossCall(r) else s;
        set r | r in kept && !(r < 31 && inst.Clobbers(r))
  }

  predicate Gens(i: Option<Inst>, r: nat) {
    i.Some? && i.value.op == MRS && i.value.rd == r != ZERO_REG && i.value.imm == TPIDRRO_EL0
  }

  predicate Kills(i: Option<Inst>, r: nat) {
    i.Some? &&
    if i.value.op == MRS then i.value.rd == r != ZERO_REG && i.value.imm != TPIDRRO_EL0
    else (i.value.IsCall() && LostAcrossCall(r)) || (r < 31 && i.value.Clobbers(r))
  }

  // The transfer of one instruction is gen and kill, register by register: it distributes over union.
  lemma StepMeaning(i: Option<Inst>, s: set<nat>, r: nat)
    ensures r in Step(i, s) <==> Gens(i, r) || (r in s && !Kills(i, r))
  {
  }

  datatype Span = Span(addr: nat, length: nat)

  datatype Image = Image(code: map<nat, Inst>, dataInCode: seq<Span>, functionStarts: set<nat>)
  {
    // What the scan reads at `a`: nothing inside data-in-code, and nothing it cannot decode.
    function Fetch(a: nat): Option<Inst> {
      if exists s :: s in dataInCode && s.addr <= a < s.addr + s.length then None
      else if a in code && code[a].Decoded() then Some(code[a])
      else None
    }
  }

  // One function: `words` is what the scan reads at start, start + 4, and so on up to its end.
  datatype Body = Body(start: nat, words: seq<Option<Inst>>)
  {
    function End(): nat {
      start + 4 * |words|
    }

    function TargetOf(k: nat): Option<nat>
      requires k < |words|
    {
      if words[k].Some? then words[k].value.Target(start + 4 * k) else None
    }

    // A function is aligned and not empty, an mrs names its register in five bits, and no branch goes to the last word
    // of the address space (there the range check of BuildBlocks, target + 4 <= end, wraps).
    ghost predicate Valid() {
      && start % 4 == 0 && 0 < |words| && End() < ADDRESS_SPACE
      && (forall k :: 0 <= k < |words| && words[k].Some? ==> words[k].value.op == MRS ==> words[k].value.rd <= ZERO_REG)
      && (forall k :: 0 <= k < |words| ==> TargetOf(k) != Some(ADDRESS_SPACE - 4))
    }

    // The word a branch target names, when it is one of this function's.
    function WordOf(target: Option<nat>): Option<nat> {
      if target.Some? && start <= target.value < End() && target.value % 4 == 0
      then Some((target.value - start) / 4) else None
    }

    function Following(k: nat): set<nat> {
      if k + 1 < |words| then {k + 1} else {}
    }

    function Jump(k: nat): set<nat>
      requires k < |words|
    {
      if WordOf(TargetOf(k)).Some? then {WordOf(TargetOf(k)).value} else {}
    }

    // The control-flow edges the scan follows out of word k.
    function Next(k: nat): set<nat>
      requires k < |words|
    {
      match words[k]
      case None => Following(k)
      case Some(i) =>
        if i.IsNoReturn() then {}
        else if TargetOf(k).Some? then Jump(k) + (if i.IsUnconditional() then {} else Following(k))
        else if i.IsBranch() then {} else Following(k)
    }

    // A block starts at the target of a branch and after every instruction that ends one.
    function Leads(k: nat): set<nat>
      requires k < |words|
    {
      if words[k].Some? && words[k].value.EndsBlock() then Jump(k) + Following(k) else {}
    }
  }

  function BodyOf(image: Image, start: nat, end: nat): Body
    requires start <= end
  {
    Body(start, seq((end - start) / 4, (k: nat) => image.Fetch(start + 4 * k)))
  }
}
