/**
 * Where branches and jumps go (RISC-V Unprivileged ISA 20191213, section 2.5), proved of the instructions as they
 * execute.
 */
module ControlInstructions {
  import opened Bits
  import opened Words
  import opened Wrappers
  import opened Instructions
  import opened Decoder
  import Encoding
  import opened HartState
  import opened Execute
  import opened Effects
  import opened RegisterInstructions
  import CounterAccess

  /** The condition of a branch on the values of rs1 and rs2. */
  ghost predicate Condition(op: Opcode, a: u32, b: u32) {
    (op == BEQ && a == b) || (op == BNE && a != b)
    || (op == BLT && Signed(a) < Signed(b)) || (op == BGE && Signed(a) >= Signed(b))
    || (op == BLTU && a < b) || (op == BGEU && a >= b)
  }

  predicate IsBranch(op: Opcode) {
    op in {BEQ, BNE, BLT, BGE, BLTU, BGEU}
  }

  lemma BranchClass(w: u32, op: Opcode)
    requires IsOp(w, op)
    ensures IsBranch(op) ==> IsType(w, BRANCH)
    ensures op in {JAL, JALR} ==> IsType(w, JUMP)
  {
    hide DecodeType, DecodeOpcode;
    Encoding.DecodedClass(w);
  }

  lemma TakenIs(op: Opcode, a: u32, b: u32)
    requires IsBranch(op)
    ensures Taken(op, a, b) <==> Condition(op, a, b)
  {
    hide Signed;
  }

  lemma BranchExec(s: State, w: u32, ch: u32, op: Opcode)
    requires IsOp(w, op) && IsType(w, BRANCH)
    ensures Exec(s, w, ch)
         == Retire(s.(pc := Wrap(s.pc + if Taken(op, s.gpr[Rs1(w)], s.gpr[Rs2(w)]) then ImmB(w) else 4)))
  {
    hide DecodeType, DecodeOpcode, Taken, Rs1, Rs2, ImmB, Wrap;
  }

  /**
   * A branch goes to the pc plus its offset if its condition holds of rs1 and rs2, and on otherwise; only the pc
   * changes.
   */
  lemma BranchOp(s: State, w: u32, ch: u32, op: Opcode)
    requires IsOp(w, op) && IsBranch(op)
    ensures Exec(s, w, ch)
         == Retire(s.(pc := Wrap(s.pc + if Condition(op, s.gpr[Rs1(w)], s.gpr[Rs2(w)]) then ImmB(w) else 4)))
  {
    hide Exec, DecodeType, DecodeOpcode, Taken, Condition, Rs1, Rs2, ImmB, Wrap;
    BranchClass(w, op);
    TakenIs(op, s.gpr[Rs1(w)], s.gpr[Rs2(w)]);
    BranchExec(s, w, ch, op);
  }

  /** The instruction links: rd holds the address after it, the pc is `target`, and nothing else changes. */
  ghost predicate Links(s: State, w: u32, e: Effect, target: int) {
    && e.Retire?
    && Written(s.gpr, e.next.gpr, Rd(w), Wrap(s.pc + 4))
    && e.next.pc == target
    && e.next == s.(gpr := e.next.gpr, pc := e.next.pc)
  }

  /** The even address at or below `t`. */
  ghost predicate EvenBelow(t: int, target: int) {
    target % 2 == 0 && t - 1 <= target <= t
  }

  lemma JumpExec(s: State, w: u32, ch: u32)
    requires IsType(w, JUMP)
    ensures Exec(s, w, ch) == ExecJump(s, w)
  {
    hide DecodeType, ExecJump;
  }

  lemma JalLinks(s: State, w: u32)
    requires IsOp(w, JAL)
    ensures Links(s, w, ExecJump(s, w), Wrap(s.pc + ImmJ(w)))
  {
    hide DecodeOpcode, Rd, ImmJ, Wrap;
  }

  lemma JalrLinks(s: State, w: u32)
    requires IsOp(w, JALR)
    ensures exists target: int ::
      EvenBelow(Wrap(s.gpr[Rs1(w)] + ImmI(w)), target) && Links(s, w, ExecJump(s, w), target)
  {
    hide DecodeOpcode, Rd, Rs1, ImmI, Wrap;
    var t := Wrap(s.gpr[Rs1(w)] + ImmI(w));
    assert EvenBelow(t, t - t % 2);
    assert Links(s, w, ExecJump(s, w), t - t % 2);
  }

  /**
   * JAL goes to the pc plus its offset, JALR to the even address at or below rs1 plus its offset, where rs1 is read
   * before rd is written, even if they are one register.
   */
  lemma JumpOp(s: State, w: u32, ch: u32)
    ensures IsOp(w, JAL) ==> Links(s, w, Exec(s, w, ch), Wrap(s.pc + ImmJ(w)))
    ensures IsOp(w, JALR) ==>
      exists target: int :: EvenBelow(Wrap(s.gpr[Rs1(w)] + ImmI(w)), target) && Links(s, w, Exec(s, w, ch), target)
  {
    hide Exec, ExecJump, DecodeType, DecodeOpcode, Links, EvenBelow, Rs1, ImmI, ImmJ, Wrap;
    if IsOp(w, JAL) {
      BranchClass(w, JAL);
      JumpExec(s, w, ch);
      JalLinks(s, w);
    }
    if IsOp(w, JALR) {
      BranchClass(w, JALR);
      JumpExec(s, w, ch);
      JalrLinks(s, w);
    }
  }

  /** FENCE, FENCE.I, WFI and the supervisor's fences go on. */
  lemma NothingOp(s: State, w: u32, ch: u32)
    ensures IsType(w, OP_FENCE) ==> Exec(s, w, ch) == Retire(s.(pc := Wrap(s.pc + 4)))
    ensures DecodeOpcode(w) in {Some(WFI), Some(SFENCE_VMA), Some(SFENCE_INVAL_IR), Some(SFENCE_W_INVAL)}
        ==> Exec(s, w, ch) == Retire(s.(pc := Wrap(s.pc + 4)))
  {
    if IsType(w, OP_FENCE) {
      FenceExec(s, w, ch);
    }
    if DecodeOpcode(w) in {Some(WFI), Some(SFENCE_VMA), Some(SFENCE_INVAL_IR), Some(SFENCE_W_INVAL)} {
      WaitExec(s, w, ch);
    }
    hide Exec, DecodeType, DecodeOpcode;
  }

  lemma FenceExec(s: State, w: u32, ch: u32)
    requires IsType(w, OP_FENCE)
    ensures Exec(s, w, ch) == Retire(s.(pc := Wrap(s.pc + 4)))
  {
    hide DecodeType, Wrap;
  }

  lemma WaitExec(s: State, w: u32, ch: u32)
    requires DecodeOpcode(w) in {Some(WFI), Some(SFENCE_VMA), Some(SFENCE_INVAL_IR), Some(SFENCE_W_INVAL)}
    ensures Exec(s, w, ch) == Retire(s.(pc := Wrap(s.pc + 4)))
  {
    hide Exec, ExecSystem, DecodeType, DecodeOpcode, Wrap;
    WaitSystem(s, w, ch);
    WaitClass(w);
    CounterAccess.SystemIs(s, w, ch);
  }

  lemma WaitClass(w: u32)
    requires DecodeOpcode(w) in {Some(WFI), Some(SFENCE_VMA), Some(SFENCE_INVAL_IR), Some(SFENCE_W_INVAL)}
    ensures IsType(w, SYSTEM)
  {
    hide DecodeType, DecodeOpcode;
    Encoding.DecodedClass(w);
  }

  lemma WaitSystem(s: State, w: u32, ch: u32)
    requires DecodeOpcode(w) in {Some(WFI), Some(SFENCE_VMA), Some(SFENCE_INVAL_IR), Some(SFENCE_W_INVAL)}
    ensures ExecSystem(s, w, ch) == Retire(s.(pc := Wrap(s.pc + 4)))
  {
    hide DecodeOpcode, Wrap, ExecCsr, Sbi, Sret;
  }
}
