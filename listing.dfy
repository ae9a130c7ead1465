/**
 * The listing tool (Processor/listing.cpp): one row per decoded instruction
 * with its offset, its raw bytes in hexadecimal and the instruction in upper case.
 */
module Listing {
  import opened Common
  import opened Encoding
  import opened Registers
  import opened Decode
  import Disassembler

  /** ASCII upper case of one letter; other characters are kept */
  function ToUpper(c: char): (r: char)
    ensures IsLower(c) ==> IsUpper(r) && ToLower(r) == c as int
    ensures !IsLower(c) ==> r == c
  {
    if IsLower(c) then (c as int - 32) as char else c
  }

  /** The listing names an instruction by the disassembler's mnemonic in upper case. */
  function UpperMnemonic(op: Opcode): (s: string)
    ensures |s| == |Disassembler.Mnemonic(op)| >= 2
    ensures forall i :: 0 <= i < |s| ==> s[i] == ToUpper(Disassembler.Mnemonic(op)[i]) && !IsLower(s[i])
  {
    var m := Disassembler.Mnemonic(op);
    seq(|m|, i requires 0 <= i < |m| => ToUpper(m[i]))
  }

  /** Only push and pop pass their MEM flag to `print_listing`. */
  predicate ShowsMem(ins: Instr) {
    HasOperands(ins.op) && HasMem(ins.byte)
  }

  /** "%02x" of byte k of the argument, or two spaces without one */
  function ArgByteText(ins: Instr, k: nat): (s: string)
    requires k < 4
    ensures |s| == 2
  {
    match ins.imm
    case Some(v) => HexByte(Int32Bytes(v)[k])
    case None => "  "
  }

  function RegByteText(ins: Instr): (s: string)
    ensures |s| == 2
  {
    match ins.reg
    case Some(r) => HexByte(r)
    case None => "  "
  }

  /** "%02x" of a byte: always two digits */
  function HexByte(b: Byte): (s: string)
    ensures |s| == 2 && IsHexDigit(s[0]) && IsHexDigit(s[1])
    ensures HexValue(s) == b
  {
    var s := [HexDigit(b / 16), HexDigit(b % 16)];
    assert s[..1] == [HexDigit(b / 16)] && s[..1][..0] == [];
    assert HexValue(s[..1]) == b / 16;
    assert HexValue(s) == (b / 16) * 16 + b % 16;
    s
  }

  /** The fixed-width columns before the mnemonic */
  function Columns(pc: nat, ins: Instr): (s: string)
    ensures pc < 0x10000 ==> |s| == 33 && s[..4] == Hex4(pc) && s[6..8] == HexByte(ins.byte)
  {
    var head := Hex4(pc) + "  " + HexByte(ins.byte);
    var tail := "  " + [if ShowsMem(ins) then '[' else ' '] + " "
      + ArgByteText(ins, 0) + " " + ArgByteText(ins, 1) + " " + ArgByteText(ins, 2) + " " + ArgByteText(ins, 3)
      + "   " + RegByteText(ins) + " " + [if ShowsMem(ins) then ']' else ' '] + "   ";
    assert (head + tail)[..|head|] == head;
    head + tail
  }

  /** "%04lx": at least four hexadecimal digits that read back as the offset */
  function Hex4(pc: nat): (s: string)
    ensures pc < 0x10000 ==> |s| == 4
    ensures |s| >= 4 && forall i :: 0 <= i < |s| ==> IsHexDigit(s[i])
    ensures HexValue(s) == pc
  {
    if pc < 0x10000 then
      var hi, lo := HexByte(pc / 256), HexByte(pc % 256);
      HexAppendByte(hi, lo);
      hi + lo
    else Hex(pc, 4)
  }

  /** Two more digits at the end multiply the value by 256 and add theirs. */
  lemma HexAppendByte(a: string, b: string)
    requires forall i :: 0 <= i < |a| ==> IsHexDigit(a[i])
    requires |b| == 2 && IsHexDigit(b[0]) && IsHexDigit(b[1])
    ensures forall i :: 0 <= i < |a + b| ==> IsHexDigit((a + b)[i])
    ensures HexValue(a + b) == HexValue(a) * 256 + HexValue(b)
  {
    var s := a + b;
    assert s[..|s| - 1] == a + [b[0]];
    assert (a + [b[0]])[..|a|] == a;
    assert b[..1] == [b[0]] && b[..1][..0] == [];
    assert HexValue(b[..1]) == HexDigitValue(b[0]);
    assert HexValue(b) == HexDigitValue(b[0]) * 16 + HexDigitValue(b[1]);
    assert HexValue(a + [b[0]]) == HexValue(a) * 16 + HexDigitValue(b[0]);
    assert HexValue(s) == HexValue(a + [b[0]]) * 16 + HexDigitValue(b[1]);
  }

  /** The instruction in assembly form after the mnemonic, as `print_listing` spells it */
  function OperandText(ins: Instr): string {
    (if ShowsMem(ins) then "[" else "")
      + (match ins.reg case Some(r) => (match RegName(r) case Some(n) => n case None => "") case None => "")
      + (if ins.reg.Some? && ins.imm.Some? then "+" else "")
      + (match ins.imm case Some(v) => IntToDecimal(v) case None => "")
      + (if ShowsMem(ins) then "]" else "")
  }

  /**
   * One row of the listing, without its final newline: for an offset below
   * 0x10000, the offset in characters 0-3, the opcode byte in 6-7 and the
   * upper-case mnemonic and a blank from character 33 on.
   */
  function Row(pc: nat, ins: Instr): (s: string)
    ensures pc < 0x10000 ==> |s| > 33 + |UpperMnemonic(ins.op)|
    ensures pc < 0x10000 ==> s[..4] == Hex4(pc) && s[6..8] == HexByte(ins.byte)
    ensures pc < 0x10000 ==> s[33..34 + |UpperMnemonic(ins.op)|] == UpperMnemonic(ins.op) + " "
  {
    var c, m, o := Columns(pc, ins), UpperMnemonic(ins.op) + " ", OperandText(ins);
    Pieces(c, m, o);
    c + m + o
  }

  /** The first two of three pieces laid end to end are found where they were put. */
  lemma Pieces(c: string, m: string, o: string)
    ensures (c + m + o)[..|c|] == c && (c + m + o)[|c|..|c| + |m|] == m
  {
    assert (c + m + o)[..|c|] == c;
  }

  function Rows(items: seq<Item>): (rs: seq<string>)
    ensures |rs| == |items|
    ensures forall i :: 0 <= i < |items| ==> rs[i] == Row(items[i].pc, items[i].ins)
  {
    seq(|items|, i requires 0 <= i < |items| => Row(items[i].pc, items[i].ins))
  }

  datatype Outcome = Finished(status: int, rows: seq<string>) | Undefined

  /**
   * What the listing prints and its exit code: a row per decoded instruction,
   * 0 when the code ends on an instruction boundary and 1 at a rejected byte;
   * a truncated last instruction is read past the buffer.
   */
  function Expected(s: Stream): (r: Outcome)
    ensures r.Undefined? <==> s.stop.Overrun?
    ensures r.Finished? ==> |r.rows| == |s.items| && (r.status == 0 <==> s.stop.Complete?)
  {
    match s.stop
    case Complete => Finished(0, Rows(s.items))
    case Rejected(_) => Finished(1, Rows(s.items))
    case Overrun => Undefined
  }

  /**
   * The main loop: one row per instruction the decoder visits, the offset of
   * the row being that of the instruction's opcode byte; exit code 0 at the end
   * of the code and 1 at an unknown command or a wrong register.
   */
  method List(code: seq<Byte>) returns (r: Outcome)
    ensures r == Expected(DecodeFrom(code, 0))
  {
    var pc: nat := 0;
    var rows: seq<string> := [];
    ghost var done: seq<Item> := [];
    while pc < |code|
      invariant pc <= |code|
      invariant Visited(code, done, pc)
      invariant rows == Rows(done)
      decreases |code| - pc
    {
      var prevPc := pc;
      var d := DecodeAt(code, pc);
      if d.UnknownCommand? || d.WrongRegister? {
        StopsAt(code, done, pc);
        return Finished(1, rows);
      } else if d.Truncated? {
        StopsAt(code, done, pc);
        return Undefined;
      }
      Advance(code, done, pc);
      RowsSnoc(done, Item(prevPc, d.ins));
      rows := rows + [Row(prevPc, d.ins)];
      done := done + [Item(prevPc, d.ins)];
      pc := d.next;
    }
    StopsAt(code, done, pc);
    return Finished(0, rows);
  }

  lemma RowsSnoc(items: seq<Item>, it: Item)
    ensures Rows(items + [it]) == Rows(items) + [Row(it.pc, it.ins)]
  {
    var all := items + [it];
    assert forall i :: 0 <= i < |items| ==> all[i] == items[i];
    assert all[|items|] == it;
  }

  /**
   * The four argument columns of a row are the four bytes that follow the
   * opcode in the byte code, in file order.
   */
  lemma {:induction false} ArgColumnsAreCodeBytes(code: seq<Byte>, pc: nat, k: nat)
    requires pc < |code| && DecodeAt(code, pc).Decoded? && DecodeAt(code, pc).ins.imm.Some?
    requires k < 4
    ensures ArgByteText(DecodeAt(code, pc).ins, k) == HexByte(code[pc + 1 + k])
  {
    var d := DecodeAt(code, pc);
    BytesOfRead(code, pc + 1);
    assert d.ins.imm == ReadInt32(code, pc + 1);
    assert Int32Bytes(d.ins.imm.value)[k] == code[pc + 1..pc + 5][k];
  }

  /** The register column of a row is the byte that follows the immediate (or the opcode). */
  lemma RegColumnIsCodeByte(code: seq<Byte>, pc: nat)
    requires pc < |code| && DecodeAt(code, pc).Decoded? && DecodeAt(code, pc).ins.reg.Some?
    ensures var d := DecodeAt(code, pc); RegByteText(d.ins) == HexByte(code[d.next - 1])
  {
  }

  /** "%02x" is injective, so the byte columns determine the bytes. */
  lemma {:induction false} HexByteInjective(a: Byte, b: Byte)
    requires HexByte(a) == HexByte(b)
    ensures a == b
  {
    HexDigitInjective(a / 16, b / 16);
    HexDigitInjective(a % 16, b % 16);
  }

  lemma HexDigitInjective(x: nat, y: nat)
    requires x < 16 && y < 16 && HexDigit(x) == HexDigit(y)
    ensures x == y
  {
  }
}
