/**
 * The instruction decoder shared by the disassembler and the listing tool
 * (Processor/disassembler.cpp and Processor/listing.cpp): at each offset an
 * opcode byte, then for push and pop an optional 4-byte immediate (IMM) and an
 * optional register byte (REG), for the eight jump-like commands a 4-byte
 * target, and nothing for the rest.
 */
module Decode {
  import opened Common
  import opened Encoding
  import opened Registers

  /** A decoded instruction: its opcode, its raw first byte and its operands */
  datatype Instr = Instr(op: Opcode, byte: Byte, imm: Option<int>, reg: Option<Byte>)

  /** push and pop carry addressing-mode operands */
  predicate HasOperands(op: Opcode) {
    op == PUSH || op == POP
  }

  /** The commands followed by a 4-byte target in the byte code */
  predicate TakesTarget(op: Opcode) {
    op == JMP || op == JA || op == JAE || op == JB || op == JBE || op == JE || op == JNE || op == CALL
  }

  /** The instructions a decoder can produce */
  predicate WellFormed(ins: Instr) {
    && OpcodeOf(ins.byte) == Some(ins.op)
    && (ins.imm.Some? ==> IsInt32(ins.imm.value))
    && (ins.reg.Some? ==> ins.reg.value < RegisterCount)
    && (HasOperands(ins.op) ==> ins.imm.Some? == HasImm(ins.byte) && ins.reg.Some? == HasReg(ins.byte))
    && (TakesTarget(ins.op) ==> ins.imm.Some? && ins.reg.None?)
    && (!HasOperands(ins.op) && !TakesTarget(ins.op) ==> ins.imm.None? && ins.reg.None?)
  }

  /** The bytes of an instruction, as the assembler lays them out */
  function Encode(ins: Instr): (b: seq<Byte>)
    ensures |b| == Size(ins) && b[0] == ins.byte
  {
    [ins.byte]
      + (if ins.imm.Some? then Int32Bytes(ins.imm.value) else [])
      + (if ins.reg.Some? then [ins.reg.value] else [])
  }

  function Size(ins: Instr): (n: nat)
    ensures 1 <= n <= 6
  {
    1 + (if ins.imm.Some? then 4 else 0) + (if ins.reg.Some? then 1 else 0)
  }

  datatype Decoded =
    | Decoded(ins: Instr, next: nat)
    | UnknownCommand(byte: Byte)    // the `default:` branch: status 1
    | WrongRegister(reg: Byte)      // get_reg_name returned NULL: status 1
    | Truncated                     // an operand read past the end of the buffer is undefined

  /** One iteration of the decoding loop, entered with the offset of the opcode byte */
  function DecodeAt(code: seq<Byte>, pc: nat): (d: Decoded)
    requires pc < |code|
    ensures d.Decoded? ==> WellFormed(d.ins) && d.next == pc + Size(d.ins) <= |code|
    ensures d.Decoded? ==> d.ins.byte == code[pc]
    ensures d.UnknownCommand? <==> OpcodeOf(code[pc]).None?
  {
    var b := code[pc];
    match OpcodeOf(b)
    case None => UnknownCommand(b)
    case Some(op) =>
      if HasOperands(op) then
        var imm := if HasImm(b) then ReadInt32(code, pc + 1) else None;
        var p := if HasImm(b) then pc + 5 else pc + 1;
        if HasImm(b) && imm.None? then Truncated
        else if HasReg(b) && p >= |code| then Truncated
        else if HasReg(b) && RegName(code[p]).None? then WrongRegister(code[p])
        else
          var reg := if HasReg(b) then Some(code[p]) else None;
          Decoded(Instr(op, b, imm, reg), if HasReg(b) then p + 1 else p)
      else if TakesTarget(op) then
        match ReadInt32(code, pc + 1)
        case None => Truncated
        case Some(target) => Decoded(Instr(op, b, Some(target), None), pc + 5)
      else Decoded(Instr(op, b, None, None), pc + 1)
  }

  /** A decoded instruction occupies exactly the bytes it re-encodes to. */
  lemma {:induction false} DecodedBytes(code: seq<Byte>, pc: nat)
    requires pc < |code| && DecodeAt(code, pc).Decoded?
    ensures var d := DecodeAt(code, pc); code[pc..d.next] == Encode(d.ins)
  {
    var d := DecodeAt(code, pc);
    var ins := d.ins;
    if ins.imm.Some? {
      BytesOfRead(code, pc + 1);
      if ins.reg.Some? {
        assert code[pc..d.next] == [code[pc]] + code[pc + 1..pc + 5] + [code[pc + 5]];
      } else {
        assert code[pc..d.next] == [code[pc]] + code[pc + 1..pc + 5];
      }
    } else if ins.reg.Some? {
      assert code[pc..d.next] == [code[pc], code[pc + 1]];
    } else {
      assert code[pc..d.next] == [code[pc]];
    }
  }

  /** The encoding of a well-formed instruction decodes back to it, whatever surrounds it. */
  lemma {:induction false} DecodeEncode(before: seq<Byte>, ins: Instr, after: seq<Byte>)
    requires WellFormed(ins)
    ensures var code := before + Encode(ins) + after;
      DecodeAt(code, |before|) == Decoded(ins, |before| + Size(ins))
  {
    var code := before + Encode(ins) + after;
    var pc := |before|;
    var e := Encode(ins);
    assert code[pc] == ins.byte;
    assert code[pc..pc + Size(ins)] == e;
    if ins.imm.Some? {
      assert code[pc + 1..pc + 5] == Int32Bytes(ins.imm.value) by {
        assert e[1..5] == Int32Bytes(ins.imm.value);
      }
      ReadAfterWrite(code, pc + 1, ins.imm.value);
    }
    if ins.reg.Some? {
      var p := pc + Size(ins) - 1;
      assert code[p] == e[Size(ins) - 1] == ins.reg.value;
    }
  }

  // ---------------------------------------------------------------------------
  // The whole decoding loop

  datatype Item = Item(pc: nat, ins: Instr)

  datatype Stop =
    | Complete                               // the loop ran off the end: status 0
    | Rejected(at: nat)                      // unknown command or wrong register: status 1
    | Overrun                                // an operand read past the end: undefined

  datatype Stream = Stream(items: seq<Item>, stop: Stop)

  /** The instructions the decoding loop visits from offset pc, and why it stops */
  function DecodeFrom(code: seq<Byte>, pc: nat): (s: Stream)
    ensures s.stop.Rejected? ==> s.stop.at < |code|
    decreases |code| - pc
  {
    if pc >= |code| then Stream([], Complete)
    else
      match DecodeAt(code, pc)
      case Decoded(ins, next) =>
        var rest := DecodeFrom(code, next);
        Stream([Item(pc, ins)] + rest.items, rest.stop)
      case UnknownCommand(_) => Stream([], Rejected(pc))
      case WrongRegister(_) => Stream([], Rejected(pc))
      case Truncated => Stream([], Overrun)
  }

  /** The instructions visited so far followed by those still ahead make up the whole stream. */
  ghost predicate Visited(code: seq<Byte>, done: seq<Item>, pc: nat) {
    DecodeFrom(code, 0).items == done + DecodeFrom(code, pc).items
      && DecodeFrom(code, 0).stop == DecodeFrom(code, pc).stop
  }

  lemma Advance(code: seq<Byte>, done: seq<Item>, pc: nat)
    requires pc < |code| && Visited(code, done, pc) && DecodeAt(code, pc).Decoded?
    ensures Visited(code, done + [Item(pc, DecodeAt(code, pc).ins)], DecodeAt(code, pc).next)
  {
    var d := DecodeAt(code, pc);
    var rest := DecodeFrom(code, d.next).items;
    assert DecodeFrom(code, pc).items == [Item(pc, d.ins)] + rest;
    assert done + ([Item(pc, d.ins)] + rest) == (done + [Item(pc, d.ins)]) + rest;
  }

  lemma StopsAt(code: seq<Byte>, done: seq<Item>, pc: nat)
    requires pc <= |code| && Visited(code, done, pc)
    requires pc < |code| ==> !DecodeAt(code, pc).Decoded?
    ensures DecodeFrom(code, 0).items == done
    ensures pc == |code| ==> DecodeFrom(code, 0).stop == Complete
    ensures pc < |code| && DecodeAt(code, pc).Truncated? ==> DecodeFrom(code, 0).stop == Overrun
    ensures pc < |code| && !DecodeAt(code, pc).Truncated? ==> DecodeFrom(code, 0).stop == Rejected(pc)
  {
    assert done + [] == done;
  }

  function EncodeAll(items: seq<Item>): (b: seq<Byte>)
  {
    if items == [] then [] else Encode(items[0].ins) + EncodeAll(items[1..])
  }

  /** Each item starts where the previous one ends. */
  predicate Consecutive(items: seq<Item>, pc: nat) {
    forall i :: 0 <= i < |items| ==>
      items[i].pc == (if i == 0 then pc else items[i - 1].pc + Size(items[i - 1].ins))
  }

  /**
   * A run that reaches the end visits consecutive instructions whose encodings
   * tile the byte code exactly: nothing is skipped and nothing is read twice.
   */
  lemma {:induction false} DecodeTiles(code: seq<Byte>, pc: nat)
    requires pc <= |code| && DecodeFrom(code, pc).stop == Complete
    ensures Consecutive(DecodeFrom(code, pc).items, pc)
    ensures EncodeAll(DecodeFrom(code, pc).items) == code[pc..]
    decreases |code| - pc
  {
    var s := DecodeFrom(code, pc);
    if pc < |code| {
      var d := DecodeAt(code, pc);
      DecodeTiles(code, d.next);
      DecodedBytes(code, pc);
      var rest := DecodeFrom(code, d.next);
      assert s.items == [Item(pc, d.ins)] + rest.items;
      assert s.items[1..] == rest.items;
      forall i | 0 <= i < |s.items|
        ensures s.items[i].pc == (if i == 0 then pc else s.items[i - 1].pc + Size(s.items[i - 1].ins))
      {
        if i > 0 {
          assert s.items[i] == rest.items[i - 1];
          if i > 1 {
            assert s.items[i - 1] == rest.items[i - 2];
          }
        }
      }
      assert code[pc..] == code[pc..d.next] + code[d.next..];
    }
  }

  /** Conversely, decoding a concatenation of well-formed encodings yields those instructions. */
  lemma {:induction false} EncodeAllDecodes(before: seq<Byte>, instrs: seq<Instr>)
    requires forall i :: 0 <= i < |instrs| ==> WellFormed(instrs[i])
    ensures DecodeFrom(before + EncodeAll(Items(instrs, |before|)), |before|).stop == Complete
    ensures DecodeFrom(before + EncodeAll(Items(instrs, |before|)), |before|).items == Items(instrs, |before|)
    decreases |instrs|
  {
    var items := Items(instrs, |before|);
    var code := before + EncodeAll(items);
    if instrs != [] {
      var e := Encode(instrs[0]);
      var tail := Items(instrs[1..], |before| + Size(instrs[0]));
      assert items[1..] == tail;
      assert code == before + e + EncodeAll(tail);
      DecodeEncode(before, instrs[0], EncodeAll(tail));
      EncodeAllDecodes(before + e, instrs[1..]);
      assert before + e + EncodeAll(tail) == (before + e) + EncodeAll(tail);
    } else {
      assert code == before;
    }
  }

  /** Instructions placed one after another from offset pc */
  function Items(instrs: seq<Instr>, pc: nat): (items: seq<Item>)
    ensures |items| == |instrs|
    ensures forall i :: 0 <= i < |items| ==> items[i].ins == instrs[i]
    ensures Consecutive(items, pc)
    decreases |instrs|
  {
    if instrs == [] then []
    else
      var rest := Items(instrs[1..], pc + Size(instrs[0]));
      assert forall i :: 1 <= i < |instrs| ==> rest[i - 1].ins == instrs[i];
      [Item(pc, instrs[0])] + rest
  }
}
