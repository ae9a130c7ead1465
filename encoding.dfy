/**
 * The instruction byte of the toy stack machine (Processor/processor.h): a
 * 5-bit opcode field under the mask CMD plus three addressing-mode flag bits,
 * and the little-endian 32-bit integers that follow an opcode byte.
 */
module Encoding {
  import opened Common

  const IMM: Byte := 0x20
  const REG: Byte := 0x40
  const MEM: Byte := 0x80
  const CMD: Byte := 0x1F   // the opcode field: an instruction byte modulo 32

  /** `enum commands`, in declaration order */
  datatype Opcode =
    | HLT | PUSH | POP | ADD | SUB | MUL | DIV | IN | OUT
    | JMP | JA | JAE | JB | JBE | JE | JNE | CALL | RET

  const Opcodes: seq<Opcode> :=
    [HLT, PUSH, POP, ADD, SUB, MUL, DIV, IN, OUT, JMP, JA, JAE, JB, JBE, JE, JNE, CALL, RET]

  /** The enum value of an opcode */
  function Code(op: Opcode): (b: Byte)
    ensures b < |Opcodes| && Opcodes[b] == op
  {
    match op
    case HLT => 0 case PUSH => 1 case POP => 2 case ADD => 3 case SUB => 4
    case MUL => 5 case DIV => 6 case IN => 7 case OUT => 8 case JMP => 9
    case JA => 10 case JAE => 11 case JB => 12 case JBE => 13 case JE => 14
    case JNE => 15 case CALL => 16 case RET => 17
  }

  /** `b & CMD`, the opcode field of an instruction byte */
  function Field(b: Byte): (m: Byte)
    ensures m < 32
  {
    b % 32
  }

  predicate HasImm(b: Byte) { (b / 32) % 2 == 1 }   // b & IMM
  predicate HasReg(b: Byte) { (b / 64) % 2 == 1 }   // b & REG
  predicate HasMem(b: Byte) { b >= 128 }            // b & MEM

  /** What `switch (cmd & CMD)` dispatches on: None is the `default:` branch. */
  function OpcodeOf(b: Byte): (r: Option<Opcode>)
    ensures r.Some? <==> Field(b) < 18
    ensures r.Some? ==> Code(r.value) == Field(b)
  {
    var m := Field(b);
    if m < |Opcodes| then
      CodeOfOpcodes(m);
      Some(Opcodes[m])
    else None
  }

  lemma CodeOfOpcodes(i: nat)
    requires i < |Opcodes|
    ensures Code(Opcodes[i]) == i
  {
  }

  /**
   * The flag bits the assembler ORs into an opcode, `cmd | IMM | REG | MEM`;
   * they are disjoint from each other and from the opcode field, so the OR is a sum.
   */
  function Instruction(op: Opcode, imm: bool, reg: bool, mem: bool): (b: Byte)
  {
    Code(op) + (if imm then IMM else 0) + (if reg then REG else 0) + (if mem then MEM else 0)
  }

  /** An opcode and its flags are recovered intact from the instruction byte. */
  lemma {:induction false} InstructionFields(op: Opcode, imm: bool, reg: bool, mem: bool)
    ensures var b := Instruction(op, imm, reg, mem);
      OpcodeOf(b) == Some(op) && HasImm(b) == imm && HasReg(b) == reg && HasMem(b) == mem
  {
    var c := Code(op);
    var i, r, m := if imm then 1 else 0, if reg then 1 else 0, if mem then 1 else 0;
    var b := Instruction(op, imm, reg, mem);
    assert b == c + 32 * (i + 2 * (r + 2 * m));
    assert b % 32 == c;
    assert b / 32 == i + 2 * (r + 2 * m);
    assert b / 64 == r + 2 * m;
    assert Opcodes[Field(b)] == op;
  }

  /** A zero byte is hlt. */
  lemma ZeroIsHalt()
    ensures OpcodeOf(0) == Some(HLT)
  {
  }

  /** Masked values 18..31 name no opcode. */
  lemma UnknownOpcodes(b: Byte)
    requires 18 <= Field(b)
    ensures OpcodeOf(b) == None
  {
  }

  // ---------------------------------------------------------------------------
  // 32-bit integers, stored little-endian as `*(int *)(byte_code + pc)` does

  const TWO32: int := 0x1_0000_0000
  const TWO31: int := 0x8000_0000

  predicate IsInt32(x: int) { -TWO31 <= x < TWO31 }

  /** The four bytes `(x >> 8k) & 0xff`, k = 0..3, of the two's complement of x */
  function Int32Bytes(x: int): (r: seq<Byte>)
    ensures |r| == 4
  {
    var u := Unsigned32(x);
    var q1 := u / 256;
    var q2 := q1 / 256;
    var q3 := q2 / 256;
    [u % 256, q1 % 256, q2 % 256, q3 % 256]
  }

  /** `(unsigned int) x` */
  function Unsigned32(x: int): (u: nat)
    ensures u < TWO32
    ensures 0 <= x < TWO32 ==> u == x
    ensures -TWO31 <= x < 0 ==> u == x + TWO32
  {
    x % TWO32
  }

  /** `(int) n` for an unsigned n, wrapping modulo 2^32 */
  function Wrap32(n: nat): (x: int)
    ensures IsInt32(x)
    ensures Unsigned32(x) == n % TWO32
    ensures n < TWO31 ==> x == n
  {
    var u := n % TWO32;
    if u >= TWO31 then u - TWO32 else u
  }

  /** The unsigned value of four little-endian bytes */
  function LittleEndian(b0: Byte, b1: Byte, b2: Byte, b3: Byte): (u: nat)
    ensures u < TWO32
  {
    b0 + 256 * (b1 + 256 * (b2 + 256 * b3))
  }

  /** The signed 32-bit value of four little-endian bytes */
  function Int32Of(b0: Byte, b1: Byte, b2: Byte, b3: Byte): (x: int)
    ensures IsInt32(x)
    ensures Unsigned32(x) == LittleEndian(b0, b1, b2, b3)
  {
    var u := LittleEndian(b0, b1, b2, b3);
    if u >= TWO31 then u - TWO32 else u
  }

  /** `*(int *)(code + pc)`; reading past the end is undefined, so None */
  function ReadInt32(code: seq<Byte>, pc: nat): (r: Option<int>)
    ensures r.Some? <==> pc + 4 <= |code|
    ensures r.Some? ==> IsInt32(r.value)
  {
    if pc + 4 <= |code| then Some(Int32Of(code[pc], code[pc + 1], code[pc + 2], code[pc + 3])) else None
  }

  /** Splitting a 32-bit value into bytes and joining them again is the identity. */
  lemma {:induction false} Int32RoundTrip(x: int)
    requires IsInt32(x)
    ensures var b := Int32Bytes(x); Int32Of(b[0], b[1], b[2], b[3]) == x
  {
    var u := Unsigned32(x);
    var q1 := u / 256;
    var q2 := q1 / 256;
    var q3 := q2 / 256;
    SplitByte(u);
    SplitByte(q1);
    SplitByte(q2);
    assert q3 < 256 by { LessThanTwo32(u); }
    var b := Int32Bytes(x);
    assert b[0] == u % 256 && b[1] == q1 % 256;
    assert b[2] == q2 % 256 && b[3] == q3 % 256;
    assert LittleEndian(b[0], b[1], b[2], b[3]) == u;
  }

  lemma SplitByte(n: nat)
    ensures n == n % 256 + 256 * (n / 256)
  {
  }

  lemma JoinByte(lo: nat, hi: nat)
    requires lo < 256
    ensures (lo + 256 * hi) % 256 == lo && (lo + 256 * hi) / 256 == hi
  {
  }

  lemma LessThanTwo32(u: nat)
    requires u < TWO32
    ensures u / 256 / 256 / 256 < 256
  {
  }

  /** Joining four bytes and splitting the value again gives the same bytes. */
  lemma {:induction false} BytesOfInt32(b0: Byte, b1: Byte, b2: Byte, b3: Byte)
    ensures Int32Bytes(Int32Of(b0, b1, b2, b3)) == [b0, b1, b2, b3]
  {
    var a0: int, a1: int, a2: int, a3: int := b0, b1, b2, b3;
    var n := a2 + 256 * a3;
    var m := a1 + 256 * n;
    var u := a0 + 256 * m;
    assert u == LittleEndian(b0, b1, b2, b3);
    JoinByte(a0, m);
    JoinByte(a1, n);
    JoinByte(a2, a3);
    var r := Int32Bytes(Int32Of(b0, b1, b2, b3));
    assert r[0] == a0 && r[1] == a1 && r[2] == a2 && r[3] == a3;
  }

  /** Reading back four written bytes gives the value written. */
  lemma ReadAfterWrite(code: seq<Byte>, pc: nat, x: int)
    requires IsInt32(x) && pc + 4 <= |code|
    requires code[pc..pc + 4] == Int32Bytes(x)
    ensures ReadInt32(code, pc) == Some(x)
  {
    var b := Int32Bytes(x);
    assert code[pc] == b[0] && code[pc + 1] == b[1] && code[pc + 2] == b[2] && code[pc + 3] == b[3] by {
      assert code[pc..pc + 4][0] == code[pc];
      assert code[pc..pc + 4][1] == code[pc + 1];
      assert code[pc..pc + 4][2] == code[pc + 2];
      assert code[pc..pc + 4][3] == code[pc + 3];
    }
    Int32RoundTrip(x);
  }

  /** The bytes of the value read at pc are the bytes stored there. */
  lemma BytesOfRead(code: seq<Byte>, pc: nat)
    requires pc + 4 <= |code|
    ensures Int32Bytes(ReadInt32(code, pc).value) == code[pc..pc + 4]
  {
    BytesOfInt32(code[pc], code[pc + 1], code[pc + 2], code[pc + 3]);
  }

  /** `(int)(char) b`: a byte of RAM read through a signed `char` */
  function SignedByte(b: Byte): (x: int)
    ensures -128 <= x < 128
    ensures x == b || x + 256 == b
  {
    if b >= 128 then b - 256 else b
  }
}
