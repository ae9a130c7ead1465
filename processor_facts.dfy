/**
 * What one instruction of the interpreter does, stated about the model of
 * Processor/processor.cpp: operand order, the exit statuses, jumps, call and
 * ret, the addressing modes of push and pop, and agreement with the decoder
 * that the disassembler and the listing use.
 */
module ProcessorFacts {
  import opened Common
  import opened Encoding
  import opened Processor
  import Stack
  import Decode

  /** add, sub and mul pop the right operand, then the left, and push `left op right` unless it overflows. */
  lemma ArithmeticOrder(code: seq<Byte>, s: State, op: Opcode, rest: seq<int>, x: int, y: int)
    requires Shaped(s) && s.pc < |code| && OpcodeOf(code[s.pc]) == Some(op)
    requires op == ADD || op == SUB || op == MUL
    requires s.stack == rest + [x, y] && |s.stack| <= Stack.MaxCap
    ensures var v := if op == ADD then x + y else if op == SUB then x - y else x * y;
      && (IsInt32(v) ==> Step(code, s) == Next(s.(pc := s.pc + 1, stack := rest + [v])))
      && (!IsInt32(v) ==> Step(code, s) == Undefined)
  {
    assert (rest + [x, y])[..|rest| + 1] == rest + [x];
    assert (rest + [x])[..|rest|] == rest;
    ProductIs(x, y);
  }

  /** div by a zero right operand leaves the loop with status 4 after popping both operands. */
  lemma DivisionByZeroExits(code: seq<Byte>, s: State, rest: seq<int>, x: int)
    requires Shaped(s) && s.pc < |code| && OpcodeOf(code[s.pc]) == Some(DIV)
    requires s.stack == rest + [x, 0]
    ensures Step(code, s) == Exit(4, s.(pc := s.pc + 1, stack := rest, output := s.output + [ZeroDivision]))
  {
    assert (rest + [x, 0])[..|rest| + 1] == rest + [x];
    assert (rest + [x])[..|rest|] == rest;
  }

  /** div otherwise pushes the quotient truncated toward zero; only INT_MIN / -1 overflows. */
  lemma DivisionTruncates(code: seq<Byte>, s: State, rest: seq<int>, x: int, y: int)
    requires Shaped(s) && s.pc < |code| && OpcodeOf(code[s.pc]) == Some(DIV)
    requires s.stack == rest + [x, y] && |s.stack| <= Stack.MaxCap
    requires IsInt32(x) && IsInt32(y) && y != 0
    ensures !(x == -TWO31 && y == -1) ==> Step(code, s) == Next(s.(pc := s.pc + 1, stack := rest + [CDiv(x, y)]))
    ensures x == -TWO31 && y == -1 ==> Step(code, s) == Undefined
  {
    assert (rest + [x, y])[..|rest| + 1] == rest + [x];
    assert (rest + [x])[..|rest|] == rest;
    if !(x == -TWO31 && y == -1) {
      QuotientFits(x, y);
    } else {
      QuotientIs(TWO31, 1);
    }
  }

  lemma QuotientFits(x: int, y: int)
    requires IsInt32(x) && IsInt32(y) && y != 0 && !(x == -TWO31 && y == -1)
    ensures IsInt32(CDiv(x, y))
  {
  }

  /** C division truncates where Dafny's rounds down: -7 / 2 is -3, not -4. */
  lemma TruncatesTowardZero()
    ensures CDiv(-7, 2) == -3 && CDiv(7, -2) == -3 && CDiv(-7, -2) == 3
    ensures -7 / 2 == -4
  {
  }

  /** A conditional jump pops two operands; taken, pc is the embedded target, otherwise it skips the target field. */
  lemma ConditionalJump(code: seq<Byte>, s: State, op: Opcode, rest: seq<int>, x: int, y: int)
    requires Shaped(s) && s.pc < |code| && OpcodeOf(code[s.pc]) == Some(op) && IsConditional(op)
    requires s.stack == rest + [x, y]
    ensures Holds(op, x, y) && s.pc + 5 <= |code| ==>
      Step(code, s) == Next(s.(pc := SizeT(ReadInt32(code, s.pc + 1).value), stack := rest))
    ensures Holds(op, x, y) && s.pc + 5 > |code| ==> Step(code, s) == Undefined
    ensures !Holds(op, x, y) ==> Step(code, s) == Next(s.(pc := s.pc + 5, stack := rest))
  {
    assert (rest + [x, y])[..|rest| + 1] == rest + [x];
    assert (rest + [x])[..|rest|] == rest;
  }

  /** A negative jump target becomes a huge size_t, so the loop ends there. */
  lemma NegativeTargetEndsLoop(code: seq<Byte>, s: State)
    requires Shaped(s) && s.pc + 5 <= |code| && OpcodeOf(code[s.pc]) == Some(JMP)
    requires ReadInt32(code, s.pc + 1).value < 0 && |code| < TWO64 - TWO31
    ensures Step(code, s).Next? && Run(code, Step(code, s).s, 0) == Halted(0, Step(code, s).s)
  {
  }

  /** call pushes the offset just past its target field; a `ret` at the target resumes there. */
  lemma CallThenRet(code: seq<Byte>, s: State)
    requires Shaped(s) && s.pc + 5 <= |code| && OpcodeOf(code[s.pc]) == Some(CALL)
    requires |s.stack| < Stack.MaxCap && s.pc + 5 < TWO31
    requires var t := ReadInt32(code, s.pc + 1).value; 0 <= t < |code| && OpcodeOf(code[t]) == Some(RET)
    ensures var t := ReadInt32(code, s.pc + 1).value;
      Step(code, s) == Next(s.(pc := t, stack := s.stack + [s.pc + 5]))
    ensures var t := ReadInt32(code, s.pc + 1).value;
      Step(code, s.(pc := t, stack := s.stack + [s.pc + 5])) == Next(s.(pc := s.pc + 5))
  {
    var t := ReadInt32(code, s.pc + 1).value;
    var u := s.(pc := t, stack := s.stack + [s.pc + 5]);
    assert Step(code, s) == CallStep(code, s.(pc := s.pc + 1));
    assert (s.stack + [s.pc + 5])[..|s.stack|] == s.stack;
    assert Step(code, u) == RetStep(u.(pc := t + 1));
  }

  /** push with neither IMM nor REG reports a format error and moves on to the next byte. */
  lemma PushWithoutOperand(code: seq<Byte>, s: State)
    requires Shaped(s) && s.pc < |code| && OpcodeOf(code[s.pc]) == Some(PUSH)
    requires !HasImm(code[s.pc]) && !HasReg(code[s.pc])
    ensures Step(code, s) == Next(s.(pc := s.pc + 1, output := s.output + [PushFormatError(code[s.pc])]))
  {
  }

  /** `push N` pushes the immediate stored after the opcode. */
  lemma PushImmediate(code: seq<Byte>, s: State, x: int)
    requires Shaped(s) && s.pc + 5 <= |code| && |s.stack| < Stack.MaxCap && IsInt32(x)
    requires code[s.pc] == Instruction(PUSH, true, false, false) && code[s.pc + 1..s.pc + 5] == Int32Bytes(x)
    ensures Step(code, s) == Next(s.(pc := s.pc + 5, stack := s.stack + [x]))
  {
    InstructionFields(PUSH, true, false, false);
    ReadAfterWrite(code, s.pc + 1, x);
  }

  /** `push rx` pushes the register named by the byte after the opcode. */
  lemma PushRegister(code: seq<Byte>, s: State)
    requires Sane(s) && s.pc + 2 <= |code| && |s.stack| < Stack.MaxCap
    requires code[s.pc] == Instruction(PUSH, false, true, false) && code[s.pc + 1] < RegsNum
    ensures Step(code, s) == Next(s.(pc := s.pc + 2, stack := s.stack + [s.regs[code[s.pc + 1]]]))
  {
    InstructionFields(PUSH, false, true, false);
  }

  /** `push [N]` pushes the RAM byte at N read as a signed char; an address outside the RAM is undefined. */
  lemma PushMemory(code: seq<Byte>, s: State, a: int)
    requires Shaped(s) && s.pc + 5 <= |code| && |s.stack| < Stack.MaxCap && IsInt32(a)
    requires code[s.pc] == Instruction(PUSH, true, false, true) && code[s.pc + 1..s.pc + 5] == Int32Bytes(a)
    ensures 0 <= a < RamSize ==> Step(code, s) == Next(s.(pc := s.pc + 5, stack := s.stack + [SignedByte(s.ram[a])]))
    ensures !(0 <= a < RamSize) ==> Step(code, s) == Undefined
  {
    InstructionFields(PUSH, true, false, true);
    ReadAfterWrite(code, s.pc + 1, a);
  }

  /** pop with IMM but no MEM is a format error that does not skip the immediate bytes. */
  lemma PopFormatErrorSkipsNothing(code: seq<Byte>, s: State)
    requires Shaped(s) && s.pc < |code| && OpcodeOf(code[s.pc]) == Some(POP)
    requires var b := code[s.pc]; (HasImm(b) && !HasMem(b)) || (HasMem(b) && !HasImm(b) && !HasReg(b))
    ensures Step(code, s) == Next(s.(pc := s.pc + 1, output := s.output + [PopFormatError(code[s.pc])]))
  {
  }

  /** The operand of an instruction with only an immediate is that immediate. */
  lemma ImmediateOperand(code: seq<Byte>, pc: nat, a: int, regs: seq<int>, bias: nat)
    requires |regs| == RegsNum && pc + 4 <= |code| && IsInt32(a) && code[pc..pc + 4] == Int32Bytes(a)
    ensures FetchOperand(code, pc, true, false, regs, bias) == Fetched(a, pc + 4)
  {
    ReadAfterWrite(code, pc, a);
  }

  /** `pop [N]` stores the popped int, lowest byte first, in ram[N..N+4] and nothing else. */
  lemma PopToMemory(code: seq<Byte>, s: State, a: int)
    requires Shaped(s) && s.pc + 5 <= |code| && IsInt32(a) && s.stack != []
    requires code[s.pc] == Instruction(POP, true, false, true) && code[s.pc + 1..s.pc + 5] == Int32Bytes(a)
    requires 0 <= a <= RamSize - 4
    ensures Step(code, s) ==
      Next(s.(pc := s.pc + 5, stack := s.stack[..|s.stack| - 1], ram := Store(s.ram, a, s.stack[|s.stack| - 1])))
  {
    InstructionFields(POP, true, false, true);
    ImmediateOperand(code, s.pc + 1, a, s.regs, 1);
    assert Step(code, s) == PopStep(code, s.(pc := s.pc + 1), code[s.pc]);
  }

  /** An address outside the RAM is reported and nothing is popped: the error is not fatal. */
  lemma PopOutsideMemory(code: seq<Byte>, s: State, a: int)
    requires Shaped(s) && s.pc + 5 <= |code| && IsInt32(a)
    requires code[s.pc] == Instruction(POP, true, false, true) && code[s.pc + 1..s.pc + 5] == Int32Bytes(a)
    requires !(0 <= a < RamSize)
    ensures Step(code, s) == Next(s.(pc := s.pc + 5, output := s.output + [SegFault(a)]))
  {
    InstructionFields(POP, true, false, true);
    ImmediateOperand(code, s.pc + 1, a, s.regs, 1);
    assert Step(code, s) == PopStep(code, s.(pc := s.pc + 1), code[s.pc]);
  }

  /** An address in the last three bytes passes the range check but overruns the RAM. */
  lemma PopOverrunsMemory(code: seq<Byte>, s: State, a: int)
    requires Shaped(s) && s.pc + 5 <= |code| && IsInt32(a)
    requires code[s.pc] == Instruction(POP, true, false, true) && code[s.pc + 1..s.pc + 5] == Int32Bytes(a)
    requires RamSize - 4 < a < RamSize
    ensures Step(code, s) == Undefined
  {
    InstructionFields(POP, true, false, true);
    ImmediateOperand(code, s.pc + 1, a, s.regs, 1);
    assert Step(code, s) == PopStep(code, s.(pc := s.pc + 1), code[s.pc]);
  }

  /**
   * `pop [rx]` addresses with the register BEFORE the one named: `regs[r - 1]`,
   * so the byte of ax (0) is undefined and the byte of bx (1) uses ax.
   */
  lemma PopMemoryUsesPreviousRegister(code: seq<Byte>, s: State, r: Byte)
    requires Sane(s) && s.pc + 2 <= |code| && s.stack != []
    requires code[s.pc] == Instruction(POP, false, true, true) && code[s.pc + 1] == r
    ensures r == 0 ==> Step(code, s) == Undefined
    ensures 1 <= r <= RegsNum && 0 <= s.regs[r - 1] <= RamSize - 4 ==>
      Step(code, s) == Next(s.(pc := s.pc + 2, stack := s.stack[..|s.stack| - 1],
                               ram := Store(s.ram, s.regs[r - 1], s.stack[|s.stack| - 1])))
  {
    InstructionFields(POP, false, true, true);
  }

  /** `pop rx` stores the popped value in the register named by the next byte. */
  lemma PopToRegister(code: seq<Byte>, s: State)
    requires Shaped(s) && s.pc + 2 <= |code| && s.stack != []
    requires code[s.pc] == Instruction(POP, false, true, false) && code[s.pc + 1] < RegsNum
    ensures Step(code, s) == Next(s.(pc := s.pc + 2, stack := s.stack[..|s.stack| - 1],
                                     regs := s.regs[code[s.pc + 1] := s.stack[|s.stack| - 1]]))
  {
    InstructionFields(POP, false, true, false);
  }

  /** A bare pop prints the popped value; an empty stack makes stack_pop complain first, and gives 0. */
  lemma BarePopPrints(code: seq<Byte>, s: State)
    requires Shaped(s) && s.pc < |code| && code[s.pc] == Instruction(POP, false, false, false)
    ensures s.stack != [] ==> (Step(code, s) ==
      Next(s.(pc := s.pc + 1, stack := s.stack[..|s.stack| - 1], output := s.output + [Returned(s.stack[|s.stack| - 1])])))
    ensures s.stack == [] ==> Step(code, s) == Next(s.(pc := s.pc + 1, output := s.output + [StackEmpty, Returned(0)]))
  {
    InstructionFields(POP, false, false, false);
  }

  /** out on an empty stack: stack_pop complains on stderr, then `out: 0` is printed. */
  lemma OutOnEmptyStack(code: seq<Byte>, s: State)
    requires Shaped(s) && s.pc < |code| && OpcodeOf(code[s.pc]) == Some(OUT) && s.stack == []
    ensures Step(code, s) == Next(s.(pc := s.pc + 1, output := s.output + [StackEmpty, Out(0)]))
  {
  }

  /** `push N` onto a stack holding MAX_CAP values: stack_push complains and the value is dropped. */
  lemma PushWhenFull(code: seq<Byte>, s: State, x: int)
    requires Shaped(s) && s.pc + 5 <= |code| && |s.stack| == Stack.MaxCap && IsInt32(x)
    requires code[s.pc] == Instruction(PUSH, true, false, false) && code[s.pc + 1..s.pc + 5] == Int32Bytes(x)
    ensures Step(code, s) == Next(s.(pc := s.pc + 5, output := s.output + [StackFull]))
  {
    InstructionFields(PUSH, true, false, false);
    ReadAfterWrite(code, s.pc + 1, x);
  }

  /** in pushes the next input integer; with none left it reports an error and pushes nothing. */
  lemma InReads(code: seq<Byte>, s: State)
    requires Shaped(s) && s.pc < |code| && OpcodeOf(code[s.pc]) == Some(IN) && |s.stack| < Stack.MaxCap
    ensures s.input != [] ==> (Step(code, s) ==
      Next(s.(pc := s.pc + 1, stack := s.stack + [s.input[0]], input := s.input[1..])))
    ensures s.input == [] ==> Step(code, s) == Next(s.(pc := s.pc + 1, output := s.output + [InError]))
  {
  }

  /** The loop is left by hlt or an unknown opcode (status 0) and by div with a zero divisor (status 4), nothing else. */
  lemma StepExits(code: seq<Byte>, s: State)
    requires Shaped(s) && s.pc < |code|
    ensures Step(code, s).Exit? <==>
      || OpcodeOf(code[s.pc]) == None
      || OpcodeOf(code[s.pc]) == Some(HLT)
      || (OpcodeOf(code[s.pc]) == Some(DIV) && Stack.Popped(s.stack, 0).0 == 0)
    ensures Step(code, s).Exit? && Step(code, s).status == 4 <==>
      OpcodeOf(code[s.pc]) == Some(DIV) && Stack.Popped(s.stack, 0).0 == 0
  {
  }

  /** Every int the machine holds stays a 32-bit value. */
  lemma StepKeepsSane(code: seq<Byte>, s: State)
    requires Sane(s) && s.pc < |code|
    ensures !Step(code, s).Undefined? ==> Sane(Step(code, s).s)
  {
    match OpcodeOf(code[s.pc])
    case None =>
    case Some(op) =>
      if op == PUSH || op == POP || op == ADD || op == SUB || op == MUL || op == DIV {
        DataStepKeepsSane(code, s, op);
      } else if op != HLT {
        ControlStepKeepsSane(code, s, op);
      }
  }

  /** StepKeepsSane for push, pop and arithmetic */
  lemma DataStepKeepsSane(code: seq<Byte>, s: State, op: Opcode)
    requires Sane(s) && s.pc < |code| && OpcodeOf(code[s.pc]) == Some(op)
    requires op == PUSH || op == POP || op == ADD || op == SUB || op == MUL || op == DIV
    ensures !Step(code, s).Undefined? ==> Sane(Step(code, s).s)
  {
    var b := code[s.pc];
    var t := s.(pc := s.pc + 1);
    if op == PUSH {
      assert Step(code, s) == PushStep(code, t, b);
      PushKeepsSane(code, t, b);
    } else if op == POP {
      assert Step(code, s) == PopStep(code, t, b);
      PopKeepsSane(code, t, b);
    } else {
      assert Step(code, s) == ArithStep(t, op);
      ArithKeepsSane(t, op);
    }
  }

  /** StepKeepsSane for in, out and the jumps */
  lemma ControlStepKeepsSane(code: seq<Byte>, s: State, op: Opcode)
    requires Sane(s) && s.pc < |code| && OpcodeOf(code[s.pc]) == Some(op)
    requires op != HLT && op != PUSH && op != POP && op != ADD && op != SUB && op != MUL && op != DIV
    ensures !Step(code, s).Undefined? ==> Sane(Step(code, s).s)
  {
    var t := s.(pc := s.pc + 1);
    assert Sane(t);
    if op == IN {
      assert Step(code, s) == InStep(t);
      InKeepsSane(t);
    } else if op == OUT {
      assert Step(code, s) == OutStep(t);
      OutKeepsSane(t);
    } else if op == JMP {
      assert Step(code, s) == JumpTo(code, t);
    } else if op == CALL {
      assert Step(code, s) == CallStep(code, t);
      CallKeepsSane(code, t);
    } else if op == RET {
      assert Step(code, s) == RetStep(t);
      RetKeepsSane(t);
    } else {
      assert Step(code, s) == CondJumpStep(code, t, op);
      CondJumpKeepsSane(code, t, op);
    }
  }

  lemma InKeepsSane(s: State)
    requires Sane(s)
    ensures !InStep(s).Undefined? ==> Sane(InStep(s).s)
  {
    if s.input != [] {
      PushedKeepsInt32(s.stack, s.input[0]);
      assert AllInt32(s.input[1..]);
    }
  }

  lemma OutKeepsSane(s: State)
    requires Sane(s)
    ensures !OutStep(s).Undefined? ==> Sane(OutStep(s).s)
  {
    PopsKeepInt32(s.stack);
  }

  lemma CallKeepsSane(code: seq<Byte>, s: State)
    requires Sane(s)
    ensures !CallStep(code, s).Undefined? ==> Sane(CallStep(code, s).s)
  {
    PushedKeepsInt32(s.stack, Wrap32(s.pc + 4));
  }

  lemma RetKeepsSane(s: State)
    requires Sane(s)
    ensures !RetStep(s).Undefined? ==> Sane(RetStep(s).s)
  {
    PopsKeepInt32(s.stack);
  }

  lemma CondJumpKeepsSane(code: seq<Byte>, s: State, op: Opcode)
    requires Sane(s) && IsConditional(op)
    ensures !CondJumpStep(code, s, op).Undefined? ==> Sane(CondJumpStep(code, s, op).s)
  {
    PopsKeepInt32(s.stack);
  }

  lemma PopsKeepInt32(stack: seq<int>)
    requires AllInt32(stack)
    ensures var (y, s1) := Stack.Popped(stack, 0);
      IsInt32(y) && AllInt32(s1) && |s1| <= |stack| &&
      var (x, s2) := Stack.Popped(s1, 0);
      IsInt32(x) && AllInt32(s2) && |s2| <= |stack|
  {
  }

  lemma PushedKeepsInt32(stack: seq<int>, v: int)
    requires AllInt32(stack) && IsInt32(v) && |stack| <= Stack.MaxCap
    ensures var r := Stack.Pushed(stack, v); |r| <= Stack.MaxCap && AllInt32(r)
  {
  }

  lemma PushKeepsSane(code: seq<Byte>, s: State, b: Byte)
    requires Sane(s) && s.pc <= |code|
    ensures !PushStep(code, s, b).Undefined? ==> Sane(PushStep(code, s, b).s)
  {
    var f := FetchOperand(code, s.pc, HasImm(b), HasReg(b), s.regs, 0);
    if f.Fetched? {
      PushedKeepsInt32(s.stack, f.value);
      if HasMem(b) && 0 <= f.value < RamSize {
        PushedKeepsInt32(s.stack, SignedByte(s.ram[f.value]));
      }
    }
  }

  lemma PopKeepsSane(code: seq<Byte>, s: State, b: Byte)
    requires Sane(s) && s.pc <= |code|
    ensures !PopStep(code, s, b).Undefined? ==> Sane(PopStep(code, s, b).s)
  {
    var imm, reg, mem := HasImm(b), HasReg(b), HasMem(b);
    if (imm && !mem) || (mem && !imm && !reg) {
      assert PopStep(code, s, b).s == s.(output := s.output + [PopFormatError(b)]);
    } else if mem {
      PopMemoryKeepsSane(code, s, b);
    } else if reg {
      PopRegisterKeepsSane(code, s, b);
    } else {
      PopsKeepInt32(s.stack);
      var (v, rest) := Stack.Popped(s.stack, 0);
      assert PopStep(code, s, b).s == s.(stack := rest, output := s.output + PopNote(s.stack) + [Returned(v)]);
    }
  }

  lemma PopRegisterKeepsSane(code: seq<Byte>, s: State, b: Byte)
    requires Sane(s) && s.pc <= |code| && HasReg(b) && !HasImm(b) && !HasMem(b)
    ensures !PopStep(code, s, b).Undefined? ==> Sane(PopStep(code, s, b).s)
  {
    PopRegisterShape(code, s, b);
    PopsKeepInt32(s.stack);
    var (v, rest) := Stack.Popped(s.stack, 0);
    if s.pc < |code| && 0 <= SignedByte(code[s.pc]) < RegsNum {
      UpdateKeepsInt32(s.regs, SignedByte(code[s.pc]), v);
    }
  }

  /** pop to a register, unfolded */
  lemma PopRegisterShape(code: seq<Byte>, s: State, b: Byte)
    requires Shaped(s) && s.pc <= |code| && HasReg(b) && !HasImm(b) && !HasMem(b)
    ensures var (v, rest) := Stack.Popped(s.stack, 0);
      PopStep(code, s, b) ==
        if s.pc >= |code| || SignedByte(code[s.pc]) < 0 || SignedByte(code[s.pc]) >= RegsNum then Undefined
        else Next(s.(pc := s.pc + 1, stack := rest, regs := s.regs[SignedByte(code[s.pc]) := v], output := s.output + PopNote(s.stack)))
  {
  }

  lemma PopMemoryKeepsSane(code: seq<Byte>, s: State, b: Byte)
    requires Sane(s) && s.pc <= |code| && HasMem(b) && (HasImm(b) || HasReg(b))
    ensures !PopStep(code, s, b).Undefined? ==> Sane(PopStep(code, s, b).s)
  {
    PopsKeepInt32(s.stack);
    var (v, rest) := Stack.Popped(s.stack, 0);
    var f := FetchOperand(code, s.pc, HasImm(b), HasReg(b), s.regs, 1);
    var r := PopStep(code, s, b);
    match f
    case Bad =>
      assert r.Undefined?;
    case Fetched(a, q) =>
      if a < 0 || a >= RamSize {
        assert r.s == s.(pc := q, output := s.output + [SegFault(a)]);
      } else if a + 4 <= RamSize {
        var ram := Store(s.ram, a, v);
        assert |ram| == RamSize;
        assert r.s == s.(pc := q, stack := rest, ram := ram, output := s.output + PopNote(s.stack));
      }
  }

  lemma UpdateKeepsInt32(xs: seq<int>, i: nat, v: int)
    requires AllInt32(xs) && IsInt32(v) && i < |xs|
    ensures AllInt32(xs[i := v])
  {
  }

  lemma ArithKeepsSane(s: State, op: Opcode)
    requires Sane(s) && (op == ADD || op == SUB || op == MUL || op == DIV)
    ensures !ArithStep(s, op).Undefined? ==> Sane(ArithStep(s, op).s)
  {
    PopsKeepInt32(s.stack);
    var (y, s1) := Stack.Popped(s.stack, 0);
    var (x, s2) := Stack.Popped(s1, 0);
    var r := ArithStep(s, op);
    if op == DIV && y == 0 {
      assert r.s == s.(stack := s2, output := s.output + PopNote(s.stack) + PopNote(s1) + [ZeroDivision]);
    } else if Arith(op, x, y).Some? {
      var v := Arith(op, x, y).value;
      PushedKeepsInt32(s2, v);
      assert r.s == s.(stack := Stack.Pushed(s2, v), output := s.output + PopNote(s.stack) + PopNote(s1) + PushNote(s2));
    }
  }

  /** With every value in 32 bits, ret never meets undefined behaviour. */
  lemma RetIsDefined(code: seq<Byte>, s: State)
    requires Sane(s) && s.pc < |code| && OpcodeOf(code[s.pc]) == Some(RET)
    ensures Step(code, s).Next?
  {
    PopsKeepInt32(s.stack);
  }

  /** push consumes exactly the bytes the disassembler decodes for it. */
  lemma PushFollowsDecoder(code: seq<Byte>, s: State)
    requires Shaped(s) && s.pc < |code| && OpcodeOf(code[s.pc]) == Some(PUSH)
    requires HasImm(code[s.pc]) || HasReg(code[s.pc])
    ensures Step(code, s).Next? ==>
      Decode.DecodeAt(code, s.pc).Decoded? && Step(code, s).s.pc == Decode.DecodeAt(code, s.pc).next
  {
  }

  /** `push 2; push 3; add; out; hlt` as the assembler lays it out */
  const Example: seq<Byte> := [33, 2, 0, 0, 0, 33, 3, 0, 0, 0, 3, 8, 0]

  /** The example prints 5 and returns 0, with the stack empty again. */
  lemma AddsTwoAndThree()
    ensures var r := Run(Example, Initial([]), 5);
      r.Halted? && r.status == 0 && r.s.output == [Out(5)] && r.s.stack == []
  {
    var s0 := Initial([]);
    var s1 := s0.(pc := 5, stack := [2]);
    var s2 := s1.(pc := 10, stack := [2, 3]);
    var s3 := s2.(pc := 11, stack := [5]);
    var s4 := s3.(pc := 12, stack := [], output := [Out(5)]);
    ExamplePushesTwo(s0);
    RunContinues(Example, s0, s1, 5);
    ExamplePushesThree(s1);
    RunContinues(Example, s1, s2, 4);
    ExampleAdds(s2);
    RunContinues(Example, s2, s3, 3);
    ExampleOuts(s3);
    RunContinues(Example, s3, s4, 2);
    assert Run(Example, s4, 1) == Halted(0, s4.(pc := 13));
  }

  lemma ExamplePushesTwo(s: State)
    requires Shaped(s) && s.pc == 0 && s.stack == []
    ensures Step(Example, s) == Next(s.(pc := 5, stack := [2]))
  {
    assert Int32Bytes(2) == [2, 0, 0, 0];
    assert Example[1..5] == [2, 0, 0, 0];
    PushImmediate(Example, s, 2);
  }

  lemma ExamplePushesThree(s: State)
    requires Shaped(s) && s.pc == 5 && s.stack == [2]
    ensures Step(Example, s) == Next(s.(pc := 10, stack := [2, 3]))
  {
    assert Int32Bytes(3) == [3, 0, 0, 0];
    assert Example[6..10] == [3, 0, 0, 0];
    PushImmediate(Example, s, 3);
  }

  lemma ExampleAdds(s: State)
    requires Shaped(s) && s.pc == 10 && s.stack == [2, 3]
    ensures Step(Example, s) == Next(s.(pc := 11, stack := [5]))
  {
    assert OpcodeOf(Example[10]) == Some(ADD);
    ArithmeticOrder(Example, s, ADD, [], 2, 3);
  }

  lemma ExampleOuts(s: State)
    requires Shaped(s) && s.pc == 11 && s.stack == [5]
    ensures Step(Example, s) == Next(s.(pc := 12, stack := [], output := s.output + [Out(5)]))
  {
    assert OpcodeOf(Example[11]) == Some(OUT);
  }
}
