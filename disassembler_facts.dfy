/**
 * What the disassembler's lines say, stated through the assembler that reads
 * them (module Compiler): push and pop lines parse back to the same
 * addressing mode, register and immediate, bare commands to themselves, and a
 * jump's target is its decimal value.
 */
module DisassemblerFacts {
  import opened Common
  import opened Encoding
  import opened Decode
  import opened Disassembler
  import opened Compiler
  import CompilerFacts
  import Registers

  /** The part of an operand between the brackets: register, `+` and immediate, as present */
  function Inner(ins: Instr): string {
    (if ins.reg.Some? then RegText(ins.reg.value) else "")
      + (if ins.reg.Some? && ins.imm.Some? then "+" else "")
      + ImmText(ins)
  }

  /** The operand is the inner part, bracketed exactly when MEM is set. */
  lemma OperandBrackets(ins: Instr)
    ensures HasMem(ins.byte) ==> OperandText(ins) == "[" + Inner(ins) + "]"
    ensures !HasMem(ins.byte) ==> OperandText(ins) == Inner(ins)
  {
  }

  /** The operands a decoder produces and the assembler can write back */
  predicate Writable(ins: Instr) {
    && (ins.reg.Some? ==> ins.reg.value < Registers.RegisterCount)
    && (ins.imm.Some? ==> 0 <= ins.imm.value < TWO31)
  }

  /** The inner part holds letters, digits and `+`: no blank, no bracket. */
  lemma InnerChars(ins: Instr)
    requires Writable(ins)
    ensures forall k :: 0 <= k < |Inner(ins)| ==> (IsLower(Inner(ins)[k]) || IsDigit(Inner(ins)[k]) || Inner(ins)[k] == '+')
  {
    var r := if ins.reg.Some? then RegText(ins.reg.value) else "";
    var p := if ins.reg.Some? && ins.imm.Some? then "+" else "";
    var d := ImmText(ins);
    assert Inner(ins) == r + p + d;
    assert forall k :: 0 <= k < |r| ==> IsLower(r[k]);
    assert forall k :: 0 <= k < |d| ==> IsDigit(d[k]);
  }

  /** parse_reg_and_arg reads the inner part back as the register and the immediate. */
  lemma InnerReadsBack(ins: Instr)
    requires Writable(ins) && (ins.reg.Some? || ins.imm.Some?)
    ensures ParseRegAndArg(Inner(ins)) == Parsed(ins.imm, ins.reg)
  {
    if ins.reg.Some? {
      var i := ins.reg.value;
      assert RegText(i) == CompilerFacts.RegText(i);
      if ins.imm.Some? {
        assert Inner(ins) == CompilerFacts.RegText(i) + "+" + NatToDecimal(ins.imm.value);
        CompilerFacts.OperandRegisterPlusNumber(i, ins.imm.value);
      } else {
        assert Inner(ins) == CompilerFacts.RegText(i);
        CompilerFacts.OperandRegister(i);
      }
    } else {
      assert Inner(ins) == NatToDecimal(ins.imm.value);
      CompilerFacts.OperandNumber(ins.imm.value);
    }
  }

  /** A decoded byte is the opcode with its three flags: the assembler writes it back unchanged. */
  lemma ByteOfFlags(ins: Instr)
    requires OpcodeOf(ins.byte) == Some(ins.op)
    ensures Instruction(ins.op, HasImm(ins.byte), HasReg(ins.byte), HasMem(ins.byte)) == ins.byte
  {
  }

  /**
   * A push or pop line parses back to the same command, addressing mode,
   * register and immediate, and the assembler encodes the same first byte.
   * (With MEM set and no operand the line is `push []`, which the assembler
   * rejects.)
   */
  lemma OperandLineReadsBack(ins: Instr, t: seq<Label>)
    requires HasOperands(ins.op) && Writable(ins)
    requires ins.reg.Some? || ins.imm.Some? || !HasMem(ins.byte)
    ensures ParseStrToCmd(Line(ins), t) == (Plain(ins.op, HasMem(ins.byte), ins.imm, ins.reg), t)
    ensures WellFormed(ins) ==> Plain(ins.op, HasMem(ins.byte), ins.imm, ins.reg).Cmd() == ins.byte
  {
    if ins.reg.None? && ins.imm.None? {
      OperandBrackets(ins);
      assert Line(ins) == Mnemonic(ins.op) + " ";
      BareOperand(ins.op, t);
    } else if HasMem(ins.byte) {
      MemLineReadsBack(ins, t);
    } else {
      TokenLineReadsBack(ins, t);
    }
    if WellFormed(ins) {
      ByteOfFlags(ins);
    }
  }

  lemma MemLineReadsBack(ins: Instr, t: seq<Label>)
    requires HasOperands(ins.op) && Writable(ins) && HasMem(ins.byte) && (ins.reg.Some? || ins.imm.Some?)
    ensures ParseStrToCmd(Line(ins), t) == (Plain(ins.op, true, ins.imm, ins.reg), t)
  {
    MemLineText(ins);
    InnerReadsBack(ins);
    CompilerFacts.BracketLine(ins.op, Inner(ins), t);
  }

  lemma TokenLineReadsBack(ins: Instr, t: seq<Label>)
    requires HasOperands(ins.op) && Writable(ins) && !HasMem(ins.byte) && (ins.reg.Some? || ins.imm.Some?)
    ensures ParseStrToCmd(Line(ins), t) == (Plain(ins.op, false, ins.imm, ins.reg), t)
  {
    TokenLineText(ins);
    InnerReadsBack(ins);
    CompilerFacts.OperandLine(ins.op, Inner(ins), t);
  }

  /** With MEM set the line is the mnemonic, a blank and the bracketed inner part, which holds no `]`. */
  lemma MemLineText(ins: Instr)
    requires HasOperands(ins.op) && Writable(ins) && HasMem(ins.byte) && (ins.reg.Some? || ins.imm.Some?)
    ensures Line(ins) == Mnemonic(ins.op) + " [" + Inner(ins) + "]"
    ensures !IsJump(Code(ins.op))
    ensures 0 < |Inner(ins)| && forall k :: 0 <= k < |Inner(ins)| ==> Inner(ins)[k] != ']'
  {
    var m, o := Mnemonic(ins.op), Inner(ins);
    OperandBrackets(ins);
    assert Line(ins) == m + " " + ("[" + o + "]") == m + " [" + o + "]";
    InnerChars(ins);
  }

  /** Without MEM the line is the mnemonic, a blank and the inner part, which holds no blank and starts with no `[`. */
  lemma TokenLineText(ins: Instr)
    requires HasOperands(ins.op) && Writable(ins) && !HasMem(ins.byte) && (ins.reg.Some? || ins.imm.Some?)
    ensures Line(ins) == Mnemonic(ins.op) + " " + Inner(ins)
    ensures !IsJump(Code(ins.op))
    ensures 0 < |Inner(ins)| && Inner(ins)[0] != '[' && forall k :: 0 <= k < |Inner(ins)| ==> !IsSpace(Inner(ins)[k])
  {
    OperandBrackets(ins);
    InnerChars(ins);
  }

  /** `push ` with nothing after the blank is the command without operands. */
  lemma BareOperand(op: Opcode, t: seq<Label>)
    requires HasOperands(op)
    ensures ParseStrToCmd(Mnemonic(op) + " ", t) == (Plain(op, false, None, None), t)
  {
    CompilerFacts.MnemonicShape(op);
    CompilerFacts.ChooseCmdOfMnemonic(op);
    assert !IsJump(Code(op));
    SpacedWord(Mnemonic(op), op);
  }

  /** A command word and a blank: no operand */
  lemma SpacedWord(m: string, op: Opcode)
    requires 0 < |m| <= 4 && CompilerFacts.LowerWord(m) && ChooseCmd(m) == Some(op) && !IsJump(Code(op))
    ensures ShapeOf(m + " ") == OtherShape(Plain(op, false, None, None))
  {
    CompilerFacts.PlainWord(m, op, " ");
    assert SkipSpaces(m + " ", |m|) == |m| + 1;
  }

  /** A command without operands prints its mnemonic, which the assembler reads as that command. */
  lemma BareLineReadsBack(ins: Instr, t: seq<Label>)
    requires !HasOperands(ins.op) && !TakesTarget(ins.op)
    ensures ParseStrToCmd(Line(ins), t) == (Plain(ins.op, false, None, None), t)
  {
    CompilerFacts.BareLine(ins.op, t);
  }

  /** After pre, "%d" of v: an optional minus sign, then digits that read back as the magnitude of v. */
  lemma SignedDecimal(pre: string, v: int)
    ensures var s, sign := pre + IntToDecimal(v), if v < 0 then 1 else 0;
      |pre| + sign < |s| && s[..|pre|] == pre && (v < 0 ==> s[|pre|] == '-') &&
      (forall k :: |pre| + sign <= k < |s| ==> IsDigit(s[k])) &&
      DecimalValue(s[|pre| + sign..]) == if v < 0 then -v else v
  {
    var n: nat := if v < 0 then -v else v;
    var s, sign := pre + IntToDecimal(v), if v < 0 then 1 else 0;
    assert s[|pre| + sign..] == NatToDecimal(n);
    DecimalRoundTrip(n);
  }

  /**
   * A jump or call prints its mnemonic, a blank and the target in decimal:
   * the digits read back as the target, after a minus sign when it is negative.
   */
  lemma TargetLine(ins: Instr)
    requires TakesTarget(ins.op) && ins.imm.Some?
    ensures var pre, s, v := Mnemonic(ins.op) + " ", Line(ins), ins.imm.value;
      var sign := if v < 0 then 1 else 0;
      |pre| + sign < |s| && s[..|pre|] == pre && (v < 0 ==> s[|pre|] == '-') &&
      (forall k :: |pre| + sign <= k < |s| ==> IsDigit(s[k])) &&
      DecimalValue(s[|pre| + sign..]) == if v < 0 then -v else v
  {
    SignedDecimal(Mnemonic(ins.op) + " ", ins.imm.value);
  }
}
