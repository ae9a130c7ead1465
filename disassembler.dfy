/**
 * The disassembler (Processor/disassembler.cpp): one line of assembly text per
 * decoded instruction, in lower case, with numeric jump targets.
 */
module Disassembler {
  import opened Common
  import opened Encoding
  import opened Registers
  import opened Decode

  function Mnemonic(op: Opcode): (s: string)
    ensures |s| >= 2
  {
    match op
    case HLT => "hlt" case PUSH => "push" case POP => "pop" case ADD => "add"
    case SUB => "sub" case MUL => "mul" case DIV => "div" case IN => "in"
    case OUT => "out" case JMP => "jmp" case JA => "ja" case JAE => "jae"
    case JB => "jb" case JBE => "jbe" case JE => "je" case JNE => "jne"
    case CALL => "call" case RET => "ret"
  }

  /** The operand of push and pop: "[" reg "+" imm "]" with each part present as the flags say */
  function OperandText(ins: Instr): string
  {
    (if HasMem(ins.byte) then "[" else "")
      + (if ins.reg.Some? then RegText(ins.reg.value) else "")
      + (if ins.reg.Some? && ins.imm.Some? then "+" else "")
      + ImmText(ins)
      + (if HasMem(ins.byte) then "]" else "")
  }

  /** The name of a register the decoder has already checked */
  function RegText(r: Byte): string {
    match RegName(r)
    case Some(name) => name
    case None => ""
  }

  /** "%d" of the immediate or the target, when there is one */
  function ImmText(ins: Instr): string {
    match ins.imm
    case Some(v) => IntToDecimal(v)
    case None => ""
  }

  /** The line printed for an instruction, without its final newline */
  function Line(ins: Instr): (s: string)
    ensures HasOperands(ins.op) ==> s == Mnemonic(ins.op) + " " + OperandText(ins)
    ensures TakesTarget(ins.op) && ins.imm.Some? ==> s == Mnemonic(ins.op) + " " + IntToDecimal(ins.imm.value)
    ensures !HasOperands(ins.op) && !TakesTarget(ins.op) ==> s == Mnemonic(ins.op)
  {
    if HasOperands(ins.op) then Mnemonic(ins.op) + " " + OperandText(ins)
    else if TakesTarget(ins.op) then Mnemonic(ins.op) + " " + ImmText(ins)
    else Mnemonic(ins.op)
  }

  function Lines(items: seq<Item>): (ls: seq<string>)
    ensures |ls| == |items|
    ensures forall i :: 0 <= i < |items| ==> ls[i] == Line(items[i].ins)
  {
    if items == [] then [] else [Line(items[0].ins)] + Lines(items[1..])
  }

  datatype Outcome = Finished(status: int, lines: seq<string>) | Undefined

  /** What the disassembler prints for a prefix of the stream, and its exit code */
  function Expected(s: Stream): (r: Outcome)
    ensures r.Undefined? <==> s.stop.Overrun?
    ensures r.Finished? ==> |r.lines| == |s.items| && (r.status == 0 <==> s.stop.Complete?)
  {
    match s.stop
    case Complete => Finished(0, Lines(s.items))
    case Rejected(_) => Finished(1, Lines(s.items))
    case Overrun => Undefined
  }

  /**
   * The main loop over the byte code after the header. Every instruction the
   * decoder visits is printed, in order; the exit code is 0 when the loop runs
   * off the end and 1 at an unknown command or a wrong register, after the
   * lines already printed.
   */
  method Disassemble(code: seq<Byte>) returns (r: Outcome)
    ensures r == Expected(DecodeFrom(code, 0))
    ensures r.Finished? ==> |r.lines| == |DecodeFrom(code, 0).items|
  {
    var pc: nat := 0;
    var lines: seq<string> := [];
    ghost var done: seq<Item> := [];
    while pc < |code|
      invariant pc <= |code|
      invariant Visited(code, done, pc)
      invariant lines == Lines(done)
      decreases |code| - pc
    {
      var d := DecodeAt(code, pc);
      if d.UnknownCommand? || d.WrongRegister? {
        StopsAt(code, done, pc);
        return Finished(1, lines);
      } else if d.Truncated? {
        StopsAt(code, done, pc);
        return Undefined;
      }
      var item := Item(pc, d.ins);
      Advance(code, done, pc);
      LinesSnoc(done, item);
      lines := lines + [Line(d.ins)];
      done := done + [item];
      pc := d.next;
    }
    StopsAt(code, done, pc);
    return Finished(0, lines);
  }

  lemma {:induction false} LinesSnoc(items: seq<Item>, it: Item)
    ensures Lines(items + [it]) == Lines(items) + [Line(it.ins)]
  {
    var all := items + [it];
    assert forall i :: 0 <= i < |items| ==> all[i] == items[i];
    var a := Lines(all);
    var b := Lines(items) + [Line(it.ins)];
    assert |a| == |b|;
    forall i | 0 <= i < |a|
      ensures a[i] == b[i]
    {
      if i < |items| {
        assert all[i] == items[i];
      } else {
        assert all[i] == it;
      }
    }
  }
}
