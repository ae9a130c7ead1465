/**
 * The interpreter of Processor/processor.cpp: a fetch-decode-execute loop over
 * the byte code with a program counter, four int registers, a 1024-byte RAM
 * of signed chars and one stack of ints for operands and return addresses.
 *
 * Every step either continues, leaves the loop with an exit status, or reaches
 * behaviour the C program leaves undefined (a signed overflow, a read past the
 * end of the byte code, an index outside `regs` or `ram`); the last is its own
 * outcome (`Undefined` for a step, `Crashed` for a run), and nothing is claimed
 * about what happens then.
 */
module Processor {
  import opened Common
  import opened Encoding
  import Stack
  import Decode

  const RamSize: nat := 1024
  const RegsNum: nat := 4
  const TWO64: int := 0x1_0000_0000_0000_0000

  /** What the interpreter and its stack write: to stdout (the first two) and to stderr (the rest) */
  datatype Event =
    | Returned(value: int)        // "Stack returned %d": a bare pop
    | Out(value: int)             // "out: %d"
    | PushFormatError(cmd: Byte)
    | PopFormatError(cmd: Byte)
    | SegFault(addr: int)         // a pop to an address outside the RAM
    | InError                     // scanf found no integer
    | ZeroDivision
    | UnknownCommand(cmd: Byte)
    | StackEmpty                  // stack_pop: "attempt to pop from empty stack"
    | StackFull                   // stack_push: "failed to allocate more memory ..."

  /**
   * The machine: `pc`, `regs`, `ram`, the operand stack (top last), the integers
   * still to be read by `in`, and everything printed so far.
   */
  datatype State = State(pc: nat, regs: seq<int>, ram: seq<Byte>, stack: seq<int>, input: seq<int>, output: seq<Event>)

  predicate Shaped(s: State) {
    |s.regs| == RegsNum && |s.ram| == RamSize
  }

  /** Every int the machine holds fits in 32 bits. */
  predicate Sane(s: State) {
    && Shaped(s)
    && |s.stack| <= Stack.MaxCap
    && AllInt32(s.regs) && AllInt32(s.stack) && AllInt32(s.input)
  }

  predicate AllInt32(xs: seq<int>) {
    forall i :: 0 <= i < |xs| ==> IsInt32(xs[i])
  }

  /** The state before the first instruction: globals are zero, nothing printed */
  function Initial(input: seq<int>): (s: State)
    ensures Shaped(s) && s.pc == 0 && s.stack == [] && s.output == []
  {
    State(0, seq(RegsNum, _ => 0), seq(RamSize, _ => 0), [], input, [])
  }

  datatype Result = Next(s: State) | Exit(status: int, s: State) | Undefined

  // ---------------------------------------------------------------------------
  // C conversions

  /** `(size_t) x` for an int x */
  function SizeT(x: int): (n: nat)
    requires IsInt32(x)
    ensures x >= 0 ==> n == x
    ensures x < 0 ==> n >= TWO64 - TWO31
  {
    if x < 0 then x + TWO64 else x
  }

  function Abs(x: int): nat {
    if x < 0 then -x else x
  }

  /** x * y as repeated addition of x */
  function Product(x: int, y: int): int
    decreases Abs(y)
  {
    if y == 0 then 0
    else if y > 0 then Product(x, y - 1) + x
    else Product(x, y + 1) - x
  }

  lemma {:induction false} ProductIs(x: int, y: int)
    ensures Product(x, y) == x * y
    decreases Abs(y)
  {
    if y > 0 {
      ProductIs(x, y - 1);
      assert x * y == x * (y - 1) + x;
    } else if y < 0 {
      ProductIs(x, y + 1);
      assert x * y == x * (y + 1) - x;
    }
  }

  /** m / n on naturals as repeated subtraction of n */
  function Quotient(m: nat, n: nat): (q: nat)
    requires n > 0
    ensures q <= m
    ensures n >= 2 ==> 2 * q <= m
    decreases m
  {
    if m < n then 0 else 1 + Quotient(m - n, n)
  }

  lemma {:induction false} QuotientIs(m: nat, n: nat)
    requires n > 0
    ensures Quotient(m, n) == m / n
    decreases m
  {
    if m >= n {
      QuotientIs(m - n, n);
      StepDown(m, n);
    }
  }

  lemma StepDown(m: nat, n: nat)
    requires 0 < n <= m
    ensures m / n == (m - n) / n + 1
  {
    var q, r := (m - n) / n, (m - n) % n;
    assert m - n == q * n + r;
    assert (q + 1) * n == q * n + n;
    DivUnique(m, n, q + 1, r);
  }

  lemma DivUnique(m: nat, n: nat, q: int, r: int)
    requires n > 0 && 0 <= r < n && m == q * n + r
    ensures m / n == q
  {
    var d, e := m / n, m % n;
    assert m == d * n + e;
    if q > d {
      assert (q - d) * n == q * n - d * n;
      MulAtLeast(q - d, n);
    } else if q < d {
      assert (d - q) * n == d * n - q * n;
      MulAtLeast(d - q, n);
    }
  }

  lemma MulAtLeast(k: int, n: nat)
    requires k >= 1
    ensures k * n >= n
  {
    assert k * n == (k - 1) * n + n;
    assert (k - 1) * n >= 0;
  }

  /** C's `/`: the quotient truncated toward zero */
  function CDiv(x: int, y: int): (q: int)
    requires y != 0
  {
    var m: int := Quotient(Abs(x), Abs(y));
    if (x < 0) != (y < 0) then -m else m
  }

  /** On non-negative operands C's `/` and Dafny's agree. */
  lemma CDivAgrees(x: int, y: int)
    requires x >= 0 && y > 0
    ensures CDiv(x, y) == x / y
  {
    QuotientIs(x, y);
  }

  // ---------------------------------------------------------------------------
  // One instruction

  datatype Fetched = Fetched(value: int, next: nat) | Bad

  /**
   * The address or value operand of push and of the memory form of pop: the
   * immediate at pc when `imm`, plus `regs[code[p] - bias]` when `reg`, where p
   * is the byte after the immediate. `Bad` is undefined behaviour: a read past
   * the end, a register index outside 0..3, or an overflowing sum.
   */
  function FetchOperand(code: seq<Byte>, pc: nat, imm: bool, reg: bool, regs: seq<int>, bias: nat): (r: Fetched)
    requires |regs| == RegsNum && pc <= |code|
    ensures r.Fetched? ==> r.next == pc + (if imm then 4 else 0) + (if reg then 1 else 0) <= |code|
    ensures r.Fetched? ==> IsInt32(r.value)
    ensures imm && pc + 4 > |code| ==> r.Bad?
    ensures !imm && !reg ==> r == Fetched(0, pc)
  {
    if imm && pc + 4 > |code| then Bad
    else
      var a := if imm then ReadInt32(code, pc).value else 0;
      var p := if imm then pc + 4 else pc;
      if !reg then Fetched(a, p)
      else if p >= |code| then Bad
      else
        // `(size_t) byte_code[p]` of a signed char: a byte of 128 or more is a huge index
        var i := (if code[p] >= 128 then TWO64 + SignedByte(code[p]) else code[p]) - bias;
        if !(0 <= i < RegsNum) then Bad
        else if !IsInt32(a + regs[i]) then Bad
        else Fetched(a + regs[i], p + 1)
  }

  /** What stack_pop writes to stderr before it hands back its value: a complaint when the stack is empty */
  function PopNote(stack: seq<int>): seq<Event> {
    if stack == [] then [StackEmpty] else []
  }

  /** What stack_push writes to stderr: a complaint when the stack is full and cannot grow past MAX_CAP */
  function PushNote(stack: seq<int>): seq<Event> {
    if |stack| < Stack.MaxCap then [] else [StackFull]
  }

  /** `case CMD_PUSH`, entered with pc past the opcode byte b */
  function PushStep(code: seq<Byte>, s: State, b: Byte): (r: Result)
    requires Shaped(s) && s.pc <= |code|
    ensures !r.Undefined? ==> |r.s.regs| == |s.regs| && |r.s.ram| == |s.ram|
    ensures !r.Exit?
  {
    if !HasImm(b) && !HasReg(b) then
      Next(s.(output := s.output + [PushFormatError(b)]))
    else
      match FetchOperand(code, s.pc, HasImm(b), HasReg(b), s.regs, 0)
      case Bad => Undefined
      case Fetched(a, q) =>
        if !HasMem(b) then Next(s.(pc := q, stack := Stack.Pushed(s.stack, a), output := s.output + PushNote(s.stack)))
        else if 0 <= a < RamSize then
          Next(s.(pc := q, stack := Stack.Pushed(s.stack, SignedByte(s.ram[a])), output := s.output + PushNote(s.stack)))
        else Undefined
  }

  /** The RAM after `stack_pop` stores a 4-byte int at addr */
  function Store(ram: seq<Byte>, addr: nat, v: int): (r: seq<Byte>)
    requires addr + 4 <= |ram|
    ensures |r| == |ram|
    ensures r[addr..addr + 4] == Int32Bytes(v)
    ensures forall i :: 0 <= i < |ram| && !(addr <= i < addr + 4) ==> r[i] == ram[i]
  {
    ram[..addr] + Int32Bytes(v) + ram[addr + 4..]
  }

  /** `case CMD_POP`, entered with pc past the opcode byte b */
  function PopStep(code: seq<Byte>, s: State, b: Byte): (r: Result)
    requires Shaped(s) && s.pc <= |code|
    ensures !r.Undefined? ==> |r.s.regs| == |s.regs| && |r.s.ram| == |s.ram|
    ensures !r.Exit?
  {
    var imm, reg, mem := HasImm(b), HasReg(b), HasMem(b);
    var (v, rest) := Stack.Popped(s.stack, 0);
    if (imm && !mem) || (mem && !imm && !reg) then
      Next(s.(output := s.output + [PopFormatError(b)]))
    else if mem then
      match FetchOperand(code, s.pc, imm, reg, s.regs, 1)
      case Bad => Undefined
      case Fetched(a, q) =>
        if a < 0 || a >= RamSize then Next(s.(pc := q, output := s.output + [SegFault(a)]))
        else if a + 4 > RamSize then Undefined
        else Next(s.(pc := q, stack := rest, ram := Store(s.ram, a, v), output := s.output + PopNote(s.stack)))
    else if reg then
      if s.pc >= |code| || SignedByte(code[s.pc]) < 0 || SignedByte(code[s.pc]) >= RegsNum then Undefined
      else Next(s.(pc := s.pc + 1, stack := rest, regs := s.regs[SignedByte(code[s.pc]) := v], output := s.output + PopNote(s.stack)))
    else
      Next(s.(stack := rest, output := s.output + PopNote(s.stack) + [Returned(v)]))
  }

  /** The int result of add, sub, mul and div on the popped operands; None when it overflows */
  function Arith(op: Opcode, x: int, y: int): (r: Option<int>)
    requires op == ADD || op == SUB || op == MUL || (op == DIV && y != 0)
    ensures r.Some? ==> IsInt32(r.value)
  {
    var v :=
      if op == ADD then x + y
      else if op == SUB then x - y
      else if op == MUL then Product(x, y)
      else CDiv(x, y);
    if IsInt32(v) then Some(v) else None
  }

  /** add, sub, mul, div: the right operand is popped first */
  function ArithStep(s: State, op: Opcode): (r: Result)
    requires op == ADD || op == SUB || op == MUL || op == DIV
    ensures !r.Undefined? ==> |r.s.regs| == |s.regs| && |r.s.ram| == |s.ram|
    ensures r.Exit? ==> r.status == 4 && |r.s.output| > |s.output| && r.s.output[..|s.output|] == s.output
                        && r.s.output[|r.s.output| - 1] == ZeroDivision
  {
    var (y, s1) := Stack.Popped(s.stack, 0);
    var (x, s2) := Stack.Popped(s1, 0);
    var notes := s.output + PopNote(s.stack) + PopNote(s1);
    if op == DIV && y == 0 then Exit(4, s.(stack := s2, output := notes + [ZeroDivision]))
    else match Arith(op, x, y)
      case None => Undefined
      case Some(v) => Next(s.(stack := Stack.Pushed(s2, v), output := notes + PushNote(s2)))
  }

  /** The comparison of a conditional jump on (left, right) */
  predicate Holds(op: Opcode, x: int, y: int)
    requires op == JA || op == JAE || op == JB || op == JBE || op == JE || op == JNE
  {
    match op
    case JA => x > y
    case JAE => x >= y
    case JB => x < y
    case JBE => x <= y
    case JE => x == y
    case _ => x != y
  }

  predicate IsConditional(op: Opcode) {
    op == JA || op == JAE || op == JB || op == JBE || op == JE || op == JNE
  }

  /** pc := (size_t) of the target at pc; a target read past the end is undefined */
  function JumpTo(code: seq<Byte>, s: State): (r: Result)
    ensures r.Next? <==> s.pc + 4 <= |code|
    ensures r.Next? ==> r.s == s.(pc := SizeT(ReadInt32(code, s.pc).value))
    ensures !r.Exit?
  {
    match ReadInt32(code, s.pc)
    case None => Undefined
    case Some(target) => Next(s.(pc := SizeT(target)))
  }

  /** ja, jae, jb, jbe, je, jne: pop right then left; jump when the comparison holds, else skip the target */
  function CondJumpStep(code: seq<Byte>, s: State, op: Opcode): (r: Result)
    requires IsConditional(op)
    ensures !r.Undefined? ==> |r.s.regs| == |s.regs| && |r.s.ram| == |s.ram|
    ensures !r.Exit?
  {
    var (y, s1) := Stack.Popped(s.stack, 0);
    var (x, s2) := Stack.Popped(s1, 0);
    var notes := s.output + PopNote(s.stack) + PopNote(s1);
    if Holds(op, x, y) then JumpTo(code, s.(stack := s2, output := notes))
    else Next(s.(pc := s.pc + 4, stack := s2, output := notes))
  }

  /** call: push the offset just past the target field, then jump */
  function CallStep(code: seq<Byte>, s: State): (r: Result)
    ensures !r.Undefined? ==> |r.s.regs| == |s.regs| && |r.s.ram| == |s.ram|
    ensures !r.Exit?
  {
    JumpTo(code, s.(stack := Stack.Pushed(s.stack, Wrap32(s.pc + 4)), output := s.output + PushNote(s.stack)))
  }

  /** ret: pop the return offset into pc */
  function RetStep(s: State): (r: Result)
    ensures !r.Undefined? ==> |r.s.regs| == |s.regs| && |r.s.ram| == |s.ram|
    ensures !r.Exit?
  {
    var (v, rest) := Stack.Popped(s.stack, 0);
    if IsInt32(v) then Next(s.(pc := SizeT(v), stack := rest, output := s.output + PopNote(s.stack))) else Undefined
  }

  /** in: push the next integer of the input, or report that there is none */
  function InStep(s: State): (r: Result)
    ensures !r.Undefined? ==> |r.s.regs| == |s.regs| && |r.s.ram| == |s.ram|
    ensures !r.Exit?
  {
    if s.input == [] then Next(s.(output := s.output + [InError]))
    else Next(s.(stack := Stack.Pushed(s.stack, s.input[0]), input := s.input[1..], output := s.output + PushNote(s.stack)))
  }

  /** out: pop and print */
  function OutStep(s: State): (r: Result)
    ensures !r.Undefined? ==> |r.s.regs| == |s.regs| && |r.s.ram| == |s.ram|
    ensures !r.Exit?
  {
    var (v, rest) := Stack.Popped(s.stack, 0);
    Next(s.(stack := rest, output := s.output + PopNote(s.stack) + [Out(v)]))
  }

  /** One pass of `while (pc < byte_code_len)`: fetch `cmd = byte_code[pc++]` and dispatch on `cmd & CMD` */
  function Step(code: seq<Byte>, s: State): (r: Result)
    requires s.pc < |code| && Shaped(s)
    ensures !r.Undefined? ==> Shaped(r.s)
    ensures r.Exit? ==> r.status == 0 || r.status == 4
    ensures r.Exit? && r.status == 4 ==> r.s.output != [] && r.s.output[|r.s.output| - 1] == ZeroDivision
  {
    var b := code[s.pc];
    var t := s.(pc := s.pc + 1);
    match OpcodeOf(b)
    case None => Exit(0, t.(output := t.output + [UnknownCommand(b)]))
    case Some(op) =>
      match op
      case HLT => Exit(0, t)
      case PUSH => PushStep(code, t, b)
      case POP => PopStep(code, t, b)
      case ADD => ArithStep(t, op)
      case SUB => ArithStep(t, op)
      case MUL => ArithStep(t, op)
      case DIV => ArithStep(t, op)
      case IN => InStep(t)
      case OUT => OutStep(t)
      case JMP => JumpTo(code, t)
      case CALL => CallStep(code, t)
      case RET => RetStep(t)
      case _ => CondJumpStep(code, t, op)
  }

  datatype Outcome = Halted(status: int, s: State) | Crashed | OutOfFuel(s: State)

  /**
   * The loop run for at most `fuel` instructions: `Halted` when it leaves the
   * loop (pc past the end, hlt, an unknown opcode: status 0; a zero divisor:
   * status 4), `Crashed` on undefined behaviour.
   */
  function Run(code: seq<Byte>, s: State, fuel: nat): (r: Outcome)
    requires Shaped(s)
    ensures r.Halted? ==> r.status == 0 || (r.status == 4 && r.s.output != [] && r.s.output[|r.s.output| - 1] == ZeroDivision)
    decreases fuel, 1
  {
    if s.pc >= |code| then Halted(0, s)
    else if fuel == 0 then OutOfFuel(s)
    else Advance(code, s, fuel)
  }

  /** The run from a state whose next instruction executes, that instruction counted in `fuel` */
  function Advance(code: seq<Byte>, s: State, fuel: nat): (r: Outcome)
    requires Shaped(s) && s.pc < |code| && fuel > 0
    ensures r.Halted? ==> r.status == 0 || (r.status == 4 && r.s.output != [] && r.s.output[|r.s.output| - 1] == ZeroDivision)
    decreases fuel, 0
  {
    match Step(code, s)
    case Next(t) => Run(code, t, fuel - 1)
    case Exit(status, t) => Halted(status, t)
    case Undefined => Crashed
  }

  // ---------------------------------------------------------------------------
  // The loop itself, on the machine's arrays

  /** A step that continues hands the rest of the run to the next state. */
  lemma RunContinues(code: seq<Byte>, s: State, t: State, fuel: nat)
    requires Shaped(s) && s.pc < |code| && fuel > 0 && Step(code, s) == Next(t)
    ensures Shaped(t) && Run(code, s, fuel) == Run(code, t, fuel - 1)
  {
  }

  /** A step that leaves the loop ends the run with its status. */
  lemma RunStops(code: seq<Byte>, s: State, fuel: nat)
    requires Shaped(s) && s.pc < |code| && fuel > 0 && Step(code, s).Exit?
    ensures Run(code, s, fuel) == Halted(Step(code, s).status, Step(code, s).s)
  {
  }

  /** A step with undefined behaviour crashes the run. */
  lemma RunCrashes(code: seq<Byte>, s: State, fuel: nat)
    requires Shaped(s) && s.pc < |code| && fuel > 0 && Step(code, s).Undefined?
    ensures Run(code, s, fuel) == Crashed
  {
  }

  /** With pc past the end the run halts with 0; with no fuel left it stops where it is. */
  lemma RunEnds(code: seq<Byte>, s: State, fuel: nat)
    requires Shaped(s) && (s.pc >= |code| || fuel == 0)
    ensures Run(code, s, fuel) == if s.pc >= |code| then Halted(0, s) else OutOfFuel(s)
  {
  }

  datatype Kind = Continue | Stop(status: int) | Crash

  function KindOf(r: Result): Kind {
    match r
    case Next(_) => Continue
    case Exit(status, _) => Stop(status)
    case Undefined => Crash
  }

  /** The globals `regs` and `ram`, the local `pc`, the operand stack and the program's I/O */
  class Machine {
    var pc: nat
    const regs: array<int>
    const ram: array<Byte>
    var stack: seq<int>
    var input: seq<int>
    var output: seq<Event>

    predicate Valid()
      reads this
    {
      regs.Length == RegsNum && ram.Length == RamSize
    }

    function Model(): (s: State)
      reads this, regs, ram
      requires Valid()
      ensures Shaped(s)
    {
      State(pc, regs[..], ram[..], stack, input, output)
    }

    /** Zero-initialised globals, a fresh stack, and the integers stdin will supply */
    constructor (input: seq<int>)
      ensures Valid() && Model() == Initial(input)
    {
      regs := new int[RegsNum](_ => 0);
      ram := new Byte[RamSize](_ => 0);
      pc := 0;
      stack := [];
      this.input := input;
      output := [];
      new;
      assert regs[..] == seq(RegsNum, _ => 0);
      assert ram[..] == seq(RamSize, _ => 0);
    }

    /** `while (pc < byte_code_len)`, cut off after `fuel` instructions */
    method Execute(code: seq<Byte>, fuel: nat) returns (r: Outcome)
      requires Valid()
      modifies this, regs, ram
      ensures r == Run(code, old(Model()), fuel)
      ensures !r.Crashed? ==> r.s == Model()
    {
      ghost var goal := Run(code, Model(), fuel);
      var n := fuel;
      while pc < |code| && n > 0
        invariant Valid()
        invariant Run(code, Model(), n) == goal
        decreases n
      {
        var k := RunOne(code, n);
        if !k.Continue? {
          return if k.Crash? then Crashed else Halted(k.status, Model());
        }
        n := n - 1;
      }
      RunEnds(code, Model(), n);
      return if pc >= |code| then Halted(0, Model()) else OutOfFuel(Model());
    }

    /** One pass of the loop body, as it advances a run with fuel n */
    method RunOne(code: seq<Byte>, n: nat) returns (k: Kind)
      requires Valid() && pc < |code| && n > 0
      modifies this, regs, ram
      ensures k.Continue? ==> Run(code, old(Model()), n) == Run(code, Model(), n - 1)
      ensures k.Stop? ==> Run(code, old(Model()), n) == Halted(k.status, Model())
      ensures k.Crash? ==> Run(code, old(Model()), n) == Crashed
    {
      ghost var before := Model();
      k := ExecuteOne(code);
      if k.Crash? {
        RunCrashes(code, before, n);
      } else if k.Stop? {
        RunStops(code, before, n);
      } else {
        RunContinues(code, before, Model(), n);
      }
    }

    /** One pass of the loop body */
    method ExecuteOne(code: seq<Byte>) returns (k: Kind)
      requires Valid() && pc < |code|
      modifies this, regs, ram
      ensures k == KindOf(Step(code, old(Model())))
      ensures !k.Crash? ==> Model() == Step(code, old(Model())).s
    {
      ghost var s := Model();
      var b := code[pc];
      pc := pc + 1;
      ghost var t := Model();
      assert t == s.(pc := s.pc + 1);
      match OpcodeOf(b)
      case None =>
        output := output + [UnknownCommand(b)];
        return Stop(0);
      case Some(op) =>
        if op == HLT {
          return Stop(0);
        } else if op == PUSH {
          assert Step(code, s) == PushStep(code, t, b);
          k := DoPush(code, b);
        } else if op == POP {
          assert Step(code, s) == PopStep(code, t, b);
          k := DoPop(code, b);
        } else if op == ADD || op == SUB || op == MUL || op == DIV {
          assert Step(code, s) == ArithStep(t, op);
          k := DoArith(op);
        } else if op == IN {
          assert Step(code, s) == InStep(t);
          k := DoIn();
        } else if op == OUT {
          assert Step(code, s) == OutStep(t);
          k := DoOut();
        } else if op == JMP {
          assert Step(code, s) == JumpTo(code, t);
          k := DoJump(code);
        } else if op == CALL {
          assert Step(code, s) == CallStep(code, t);
          k := DoCall(code);
        } else if op == RET {
          assert Step(code, s) == RetStep(t);
          k := DoRet();
        } else {
          assert Step(code, s) == CondJumpStep(code, t, op);
          k := DoCondJump(code, op);
        }
    }

    method DoPush(code: seq<Byte>, b: Byte) returns (k: Kind)
      requires Valid() && pc <= |code|
      modifies this
      ensures k == KindOf(PushStep(code, old(Model()), b))
      ensures !k.Crash? ==> Model() == PushStep(code, old(Model()), b).s
    {
      if !HasImm(b) && !HasReg(b) {
        output := output + [PushFormatError(b)];
        return Continue;
      }
      var f := FetchOperand(code, pc, HasImm(b), HasReg(b), regs[..], 0);
      if f.Bad? {
        return Crash;
      }
      var arg := f.value;
      if HasMem(b) {
        if !(0 <= arg < RamSize) {
          return Crash;
        }
        arg := SignedByte(ram[arg]);
      }
      pc := f.next;
      output := output + PushNote(stack);
      stack := Stack.Pushed(stack, arg);
      return Continue;
    }

    method DoPop(code: seq<Byte>, b: Byte) returns (k: Kind)
      requires Valid() && pc <= |code|
      modifies this, regs, ram
      ensures k == KindOf(PopStep(code, old(Model()), b))
      ensures !k.Crash? ==> Model() == PopStep(code, old(Model()), b).s
    {
      var imm, reg, mem := HasImm(b), HasReg(b), HasMem(b);
      var popped := Stack.Popped(stack, 0);
      if (imm && !mem) || (mem && !imm && !reg) {
        output := output + [PopFormatError(b)];
        return Continue;
      }
      if mem {
        var f := FetchOperand(code, pc, imm, reg, regs[..], 1);
        if f.Bad? {
          return Crash;
        }
        var addr := f.value;
        pc := f.next;
        if addr < 0 || addr >= RamSize {
          output := output + [SegFault(addr)];
          return Continue;
        }
        if addr + 4 > RamSize {
          return Crash;
        }
        StoreInt(addr, popped.0);
        output := output + PopNote(stack);
        stack := popped.1;
        return Continue;
      }
      if reg {
        if pc >= |code| || SignedByte(code[pc]) < 0 || SignedByte(code[pc]) >= RegsNum {
          return Crash;
        }
        regs[SignedByte(code[pc])] := popped.0;
        pc := pc + 1;
        output := output + PopNote(stack);
        stack := popped.1;
        return Continue;
      }
      output := output + PopNote(stack) + [Returned(popped.0)];
      stack := popped.1;
      return Continue;
    }

    /** `stack_pop` into `&ram[addr]`: the four bytes of the int, lowest first */
    method StoreInt(addr: nat, v: int)
      requires Valid() && addr + 4 <= RamSize
      modifies ram
      ensures ram[..] == Store(old(ram[..]), addr, v)
    {
      var bytes := Int32Bytes(v);
      ram[addr] := bytes[0];
      ram[addr + 1] := bytes[1];
      ram[addr + 2] := bytes[2];
      ram[addr + 3] := bytes[3];
      ghost var want := Store(old(ram[..]), addr, v);
      assert forall i :: addr <= i < addr + 4 ==> want[i] == want[addr..addr + 4][i - addr];
      assert ram[..] == want;
    }

    method DoArith(op: Opcode) returns (k: Kind)
      requires Valid() && (op == ADD || op == SUB || op == MUL || op == DIV)
      modifies this
      ensures k == KindOf(ArithStep(old(Model()), op))
      ensures !k.Crash? ==> Model() == ArithStep(old(Model()), op).s
    {
      ghost var s := Model();
      var right := Stack.Popped(stack, 0);
      var left := Stack.Popped(right.1, 0);
      output := output + PopNote(stack) + PopNote(right.1);
      stack := left.1;
      ghost var notes := output;
      if op == DIV && right.0 == 0 {
        output := output + [ZeroDivision];
        assert Model() == s.(stack := left.1, output := notes + [ZeroDivision]);
        return Stop(4);
      }
      var v := Arith(op, left.0, right.0);
      if v.None? {
        return Crash;
      }
      output := output + PushNote(stack);
      stack := Stack.Pushed(stack, v.value);
      assert Model() == s.(stack := Stack.Pushed(left.1, v.value), output := notes + PushNote(left.1));
      return Continue;
    }

    method DoIn() returns (k: Kind)
      requires Valid()
      modifies this
      ensures k == KindOf(InStep(old(Model())))
      ensures !k.Crash? ==> Model() == InStep(old(Model())).s
    {
      if input == [] {
        output := output + [InError];
      } else {
        output := output + PushNote(stack);
        stack := Stack.Pushed(stack, input[0]);
        input := input[1..];
      }
      return Continue;
    }

    method DoOut() returns (k: Kind)
      requires Valid()
      modifies this
      ensures k == KindOf(OutStep(old(Model())))
      ensures !k.Crash? ==> Model() == OutStep(old(Model())).s
    {
      var popped := Stack.Popped(stack, 0);
      output := output + PopNote(stack) + [Out(popped.0)];
      stack := popped.1;
      return Continue;
    }

    method DoJump(code: seq<Byte>) returns (k: Kind)
      requires Valid()
      modifies this
      ensures k == KindOf(JumpTo(code, old(Model())))
      ensures !k.Crash? ==> Model() == JumpTo(code, old(Model())).s
    {
      var target := ReadInt32(code, pc);
      if target.None? {
        return Crash;
      }
      pc := SizeT(target.value);
      return Continue;
    }

    method DoCondJump(code: seq<Byte>, op: Opcode) returns (k: Kind)
      requires Valid() && IsConditional(op)
      modifies this
      ensures k == KindOf(CondJumpStep(code, old(Model()), op))
      ensures !k.Crash? ==> Model() == CondJumpStep(code, old(Model()), op).s
    {
      ghost var s := Model();
      var right := Stack.Popped(stack, 0);
      var left := Stack.Popped(right.1, 0);
      output := output + PopNote(stack) + PopNote(right.1);
      stack := left.1;
      ghost var notes := output;
      assert Model() == s.(stack := left.1, output := notes);
      if Holds(op, left.0, right.0) {
        k := DoJump(code);
      } else {
        pc := pc + 4;
        k := Continue;
        assert Model() == s.(pc := s.pc + 4, stack := left.1, output := notes);
      }
    }

    method DoCall(code: seq<Byte>) returns (k: Kind)
      requires Valid()
      modifies this
      ensures k == KindOf(CallStep(code, old(Model())))
      ensures !k.Crash? ==> Model() == CallStep(code, old(Model())).s
    {
      output := output + PushNote(stack);
      stack := Stack.Pushed(stack, Wrap32(pc + 4));
      k := DoJump(code);
    }

    method DoRet() returns (k: Kind)
      requires Valid()
      modifies this
      ensures k == KindOf(RetStep(old(Model())))
      ensures !k.Crash? ==> Model() == RetStep(old(Model())).s
    {
      var popped := Stack.Popped(stack, 0);
      if !IsInt32(popped.0) {
        return Crash;
      }
      output := output + PopNote(stack);
      stack := popped.1;
      pc := SizeT(popped.0);
      return Continue;
    }
  }
}
