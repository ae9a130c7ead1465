// The two passes of the assembler (Processor/compiler.cpp, main): where each line's
// bytes land, what the first pass gathers in the label table, what the second
// pass then writes, and the byte code that results.
//
// The reasoning works on the shapes of the lines (ShapeOf, the part of
// parse_str_to_cmd that does not look at the label table), computed once.

module CompilerPasses {
  import opened Common
  import opened Encoding
  import opened Compiler
  import opened CompilerFacts
  import Decode
  import Version

  /** Shapes ShapeOf can produce: any other shape holds a non-jump command, an error or undefined behaviour */
  predicate Shaped(sh: seq<Shape>) {
    forall j :: 0 <= j < |sh| && sh[j].OtherShape? ==> sh[j].p.Plain? || sh[j].p.Err? || sh[j].p.UndefParse?
  }

  /** The shape of every line */
  function Shapes(lines: seq<string>): (sh: seq<Shape>)
    ensures |sh| == |lines| && forall j :: 0 <= j < |lines| ==> sh[j] == ShapeOf(lines[j])
    ensures Shaped(sh)
  {
    seq(|lines|, j requires 0 <= j < |lines| => ShapeOf(lines[j]))
  }

  // ---------------------------------------------------------------------------
  // Sizes and offsets

  /** How many bytes a line occupies: nothing for a label, five for a jump, the instruction otherwise */
  function ShapeSize(s: Shape): (n: nat)
    ensures n <= 6
  {
    match s
    case DefShape(_) => 0
    case JumpShape(_, _) => 5
    case OtherShape(p) => PartSize(p)
  }

  /** The size of a parsed line by its kind (ShapeOf gives OtherShape only for non-jumps and errors) */
  function PartSize(p: Parse): (n: nat)
    ensures n <= 6
  {
    match p
    case Plain(_, _, arg, reg) => |PlainBytes(p.Cmd(), arg, reg)|
    case Jump(_, _) => 5
    case _ => 0
  }

  /** The offset in the byte code at which the line after `sh` starts */
  function Offset(sh: seq<Shape>): (n: nat)
    ensures n <= 6 * |sh|
  {
    if sh == [] then 0 else Offset(sh[..|sh| - 1]) + ShapeSize(sh[|sh| - 1])
  }

  lemma OffsetNext(sh: seq<Shape>, k: nat)
    requires k < |sh|
    ensures Offset(sh[..k + 1]) == Offset(sh[..k]) + ShapeSize(sh[k])
  {
    assert sh[..k + 1][..k] == sh[..k];
  }

  /** A step that goes on advances pc by the line's size, whatever the table holds. */
  lemma StepSize(st: Pass, s: Shape)
    requires st.Pass? && |st.table| == MaxLabelsNum
    ensures var r := Act(st, Resolve(s, st.table)); r.Pass? ==> r.pc == st.pc + ShapeSize(s)
  {
  }

  /** A line's step is the step on its shape. */
  lemma StepOfShape(st: Pass, all: seq<string>, sh: seq<Shape>, k: nat)
    requires st.Pass? && |st.table| == MaxLabelsNum && k < |all| && sh == Shapes(all)
    ensures all[k..][0] == all[k] && all[k..][1..] == all[k + 1..]
    ensures LineStep(st, all[k]) == Act(st, Resolve(sh[k], st.table))
  {
  }

  /** A pass that runs to the end leaves pc at the offset after the last line. */
  lemma {:induction false} PassLength(st: Pass, all: seq<string>, k: nat)
    requires st.Pass? && |st.table| == MaxLabelsNum && k <= |all|
    requires st.pc == Offset(Shapes(all)[..k])
    ensures RunPass(st, all[k..]).Pass? ==> RunPass(st, all[k..]).pc == Offset(Shapes(all))
    decreases |all| - k
  {
    var sh := Shapes(all);
    if k == |all| {
      assert sh[..k] == sh;
    } else {
      StepOfShape(st, all, sh, k);
      var next := LineStep(st, all[k]);
      if next.Pass? {
        StepSize(st, sh[k]);
        OffsetNext(sh, k);
        PassLength(next, all, k + 1);
      }
    }
  }

  // ---------------------------------------------------------------------------
  // The bytes of one line

  /** The instruction a non-jump line stands for */
  function PlainInstr(p: Parse): (ins: Decode.Instr)
    requires p.Plain?
    ensures ins.op == p.op && ins.imm == p.arg && ins.reg == p.reg
  {
    Decode.Instr(p.op, p.Cmd(), p.arg, p.reg)
  }

  /** The bytes written for a non-jump command are that instruction's encoding. */
  lemma PlainEncoding(p: Parse)
    requires p.Plain?
    ensures PlainBytes(p.Cmd(), p.arg, p.reg) == Decode.Encode(PlainInstr(p))
  {
  }

  /**
   * The instruction is one the disassembler decodes when the command is push
   * or pop, jbe with a bare number, or any other command without operands.
   * Operands on any other command are accepted by the assembler but not by
   * the decoder.
   */
  lemma PlainDecodable(p: Parse)
    requires p.Plain? && !IsJump(Code(p.op))
    requires (p.reg.Some? ==> p.reg.value < 4) && (p.arg.Some? ==> 0 <= p.arg.value < TWO31)
    ensures
      && (Decode.HasOperands(p.op) ==> Decode.WellFormed(PlainInstr(p)))
      && (p.op == JBE ==> (Decode.WellFormed(PlainInstr(p)) <==> p.arg.Some? && p.reg.None?))
      && (!Decode.HasOperands(p.op) && p.op != JBE ==> (Decode.WellFormed(PlainInstr(p)) <==> p.arg.None? && p.reg.None?))
  {
    PlainFields(p);
    var ins := PlainInstr(p);
    assert ins.imm.Some? ==> IsInt32(ins.imm.value);
  }

  /** The command byte of a non-jump command names its opcode and its operands. */
  lemma PlainFields(p: Parse)
    requires p.Plain? && !IsJump(Code(p.op))
    ensures var b := PlainInstr(p).byte;
      OpcodeOf(b) == Some(p.op) && HasImm(b) == p.arg.Some? && HasReg(b) == p.reg.Some?
    ensures Decode.TakesTarget(p.op) <==> p.op == JBE
  {
    InstructionFields(p.op, p.arg.Some?, p.reg.Some?, p.mem);
    JumpCommands(p.op);
  }

  /** A decodable non-jump command decodes back from its bytes, wherever they sit. */
  lemma PlainDecodes(line: string, t: seq<Label>, before: seq<Byte>, after: seq<Byte>)
    requires ParseStrToCmd(line, t).0.Plain?
    requires Decode.WellFormed(PlainInstr(ParseStrToCmd(line, t).0))
    ensures var p := ParseStrToCmd(line, t).0;
      var bytes := PlainBytes(p.Cmd(), p.arg, p.reg);
      Decode.DecodeAt(before + bytes + after, |before|) == Decode.Decoded(PlainInstr(p), |before| + |bytes|)
  {
    PlainRoundTrip(ParseStrToCmd(line, t).0, before, after);
  }

  lemma PlainRoundTrip(p: Parse, before: seq<Byte>, after: seq<Byte>)
    requires p.Plain? && !IsJump(Code(p.op))
    requires (p.reg.Some? ==> p.reg.value < 4) && (p.arg.Some? ==> 0 <= p.arg.value < TWO31)
    requires Decode.WellFormed(PlainInstr(p))
    ensures var bytes := PlainBytes(p.Cmd(), p.arg, p.reg);
      Decode.DecodeAt(before + bytes + after, |before|) == Decode.Decoded(PlainInstr(p), |before| + |bytes|)
  {
    PlainEncoding(p);
    PlainDecodable(p);
    Decode.DecodeEncode(before, PlainInstr(p), after);
  }

  /** A jump with a resolved target is the decoder's jump to that target. */
  lemma JumpDecodes(op: Opcode, target: int, before: seq<Byte>, after: seq<Byte>)
    requires IsJump(Code(op)) && IsInt32(target)
    ensures var ins := Decode.Instr(op, Code(op), Some(target), None);
      && Decode.WellFormed(ins)
      && Decode.DecodeAt(before + ([Code(op)] + Int32Bytes(target)) + after, |before|) == Decode.Decoded(ins, |before| + 5)
  {
    var ins := Decode.Instr(op, Code(op), Some(target), None);
    JumpCommands(op);
    InstructionFields(op, false, false, false);
    assert Instruction(op, false, false, false) == Code(op);
    Decode.DecodeEncode(before, ins, after);
  }

  /** The bytes a line contributes when the second pass sees table t */
  function LineBytes(s: Shape, t: seq<Label>): (b: seq<Byte>)
    ensures |b| == ShapeSize(s)
  {
    var p := Resolve(s, t).0;
    match p
    case Jump(op, i) => [Code(op)] + (if 0 <= i < |t| then Int32Bytes(t[i].shift) else [0, 0, 0, 0])
    case Plain(_, _, arg, reg) => PlainBytes(p.Cmd(), arg, reg)
    case _ => []
  }

  /** The byte code of the lines laid end to end against table t */
  function Image(sh: seq<Shape>, t: seq<Label>): (b: seq<Byte>)
    ensures |b| == Offset(sh)
  {
    if sh == [] then [] else Image(sh[..|sh| - 1], t) + LineBytes(sh[|sh| - 1], t)
  }

  lemma ImageNext(sh: seq<Shape>, k: nat, t: seq<Label>)
    requires k < |sh|
    ensures Image(sh[..k + 1], t) == Image(sh[..k], t) + LineBytes(sh[k], t)
  {
    assert sh[..k + 1][..k] == sh[..k];
  }

  /** The first n bytes of the buffer, zero where nothing was written */
  function Laid(buf: seq<Byte>, n: nat): (w: seq<Byte>)
    ensures |w| == n
  {
    Pad(buf, n)[..n]
  }

  /** Writing at the end of what has been laid down extends it by those bytes. */
  lemma WriteExtends(buf: seq<Byte>, pc: nat, bytes: seq<Byte>)
    ensures Laid(WriteAt(buf, pc, bytes), pc + |bytes|) == Laid(buf, pc) + bytes
  {
    var w := WriteAt(buf, pc, bytes);
    var lhs := Laid(w, pc + |bytes|);
    var rhs := Laid(buf, pc) + bytes;
    forall i | 0 <= i < pc + |bytes| ensures lhs[i] == rhs[i] {
      if i < pc {
        assert lhs[i] == w[i];
      } else {
        assert w[pc..pc + |bytes|] == bytes;
        assert lhs[i] == w[i] == bytes[i - pc];
      }
    }
  }

  // ---------------------------------------------------------------------------
  // The second pass

  /**
   * A line the second pass can take with table t when it starts at pc: its
   * names are already held, it is not refused, a label it defines sits in a
   * VALID slot whose shift is this very pc, and a label it jumps to is VALID.
   */
  predicate LineSettled(t: seq<Label>, s: Shape, pc: nat) {
    var (p, t1) := Resolve(s, t);
    && t1 == t
    && !p.Err? && !p.UndefParse?
    && (p.LabelDef? ==> 0 <= p.index < |t| && t[p.index].status == LabelValid && t[p.index].shift == Wrap32(pc))
    && (p.Jump? ==> 0 <= p.index < |t| && t[p.index].status == LabelValid)
  }

  /** Every line from k on is settled at its own offset */
  predicate Settled(t: seq<Label>, sh: seq<Shape>, k: nat)
    requires k <= |sh|
  {
    forall j :: k <= j < |sh| ==> LineSettled(t, sh[j], Offset(sh[..j]))
  }

  /** One settled line: the table stays as it is and the line's bytes are laid at pc. */
  lemma SettledStep(t: seq<Label>, buf: seq<Byte>, pc: nat, s: Shape)
    requires |t| == MaxLabelsNum && LineSettled(t, s, pc)
    ensures var r := Act(Pass(t, buf, pc), Resolve(s, t));
      && r.Pass? && r.table == t && r.pc == pc + ShapeSize(s)
      && Laid(r.buf, r.pc) == Laid(buf, pc) + LineBytes(s, t)
  {
    StepSize(Pass(t, buf, pc), s);
    match Resolve(s, t).0
    case LabelDef(i) => SettledDefStep(t, buf, pc, s, i);
    case Jump(op, i) => SettledJumpStep(t, buf, pc, s, op, i);
    case Plain(_, _, _, _) => SettledPlainStep(t, buf, pc, s);
  }

  lemma SettledDefStep(t: seq<Label>, buf: seq<Byte>, pc: nat, s: Shape, i: int)
    requires |t| == MaxLabelsNum && LineSettled(t, s, pc) && Resolve(s, t).0 == LabelDef(i)
    ensures var r := Act(Pass(t, buf, pc), Resolve(s, t));
      r == Pass(t, buf, pc) && LineBytes(s, t) == []
  {
    assert Act(Pass(t, buf, pc), Resolve(s, t)) == DefineLabel(t, buf, pc, i);
    DefineSettled(t, buf, pc, i);
  }

  lemma SettledJumpStep(t: seq<Label>, buf: seq<Byte>, pc: nat, s: Shape, op: Opcode, i: int)
    requires |t| == MaxLabelsNum && LineSettled(t, s, pc) && Resolve(s, t).0 == Jump(op, i)
    ensures var r := Act(Pass(t, buf, pc), Resolve(s, t));
      r.Pass? && r.table == t && Laid(r.buf, r.pc) == Laid(buf, pc) + LineBytes(s, t)
  {
    assert Act(Pass(t, buf, pc), Resolve(s, t)) == EmitJump(t, buf, pc, Code(op), i);
    JumpSettled(t, buf, pc, Code(op), i);
  }

  lemma SettledPlainStep(t: seq<Label>, buf: seq<Byte>, pc: nat, s: Shape)
    requires |t| == MaxLabelsNum && LineSettled(t, s, pc) && Resolve(s, t).0.Plain?
    ensures var r := Act(Pass(t, buf, pc), Resolve(s, t));
      r.Pass? && r.table == t && Laid(r.buf, r.pc) == Laid(buf, pc) + LineBytes(s, t)
  {
    var p := Resolve(s, t).0;
    assert Act(Pass(t, buf, pc), Resolve(s, t)) == EmitPlain(t, buf, pc, p.Cmd(), p.arg, p.reg);
    WriteExtends(buf, pc, PlainBytes(p.Cmd(), p.arg, p.reg));
  }

  lemma DefineSettled(t: seq<Label>, buf: seq<Byte>, pc: nat, i: nat)
    requires i < |t| && t[i].status == LabelValid && t[i].shift == Wrap32(pc)
    ensures DefineLabel(t, buf, pc, i) == Pass(t, buf, pc)
  {
    assert t[i := t[i].(shift := Wrap32(pc), status := LabelValid)] == t;
  }

  lemma JumpSettled(t: seq<Label>, buf: seq<Byte>, pc: nat, cmd: Byte, i: nat)
    requires i < |t| && t[i].status == LabelValid
    ensures var r := EmitJump(t, buf, pc, cmd, i);
      Laid(r.buf, r.pc) == Laid(buf, pc) + ([cmd] + Int32Bytes(t[i].shift))
  {
    var x := Int32Bytes(t[i].shift);
    assert EmitJump(t, buf, pc, cmd, i) == Pass(t, WriteAt(WriteAt(buf, pc, [cmd]), pc + 1, x), pc + 5);
    TwoWritesLaid(buf, pc, cmd, x);
  }

  /** The opcode and then its operand, each written at the end of what is laid down */
  lemma TwoWritesLaid(buf: seq<Byte>, pc: nat, cmd: Byte, x: seq<Byte>)
    ensures Laid(WriteAt(WriteAt(buf, pc, [cmd]), pc + 1, x), pc + 1 + |x|) == Laid(buf, pc) + ([cmd] + x)
  {
    var b := WriteAt(buf, pc, [cmd]);
    WriteExtends(buf, pc, [cmd]);
    WriteExtends(b, pc + 1, x);
    AppendAssoc(Laid(buf, pc), [cmd], x);
  }

  lemma AppendAssoc(a: seq<Byte>, b: seq<Byte>, c: seq<Byte>)
    ensures a + b + c == a + (b + c)
  {
  }

  /**
   * On a settled table the second pass runs to the end, leaves the table as
   * it is, and lays down exactly the image of the lines.
   */
  lemma {:induction false} SecondPass(t: seq<Label>, buf: seq<Byte>, all: seq<string>, k: nat)
    requires |t| == MaxLabelsNum && k <= |all| && Settled(t, Shapes(all), k)
    requires Laid(buf, Offset(Shapes(all)[..k])) == Image(Shapes(all)[..k], t)
    ensures var sh := Shapes(all);
      var r := RunPass(Pass(t, buf, Offset(sh[..k])), all[k..]);
      r.Pass? && r.table == t && r.pc == Offset(sh) && Laid(r.buf, r.pc) == Image(sh, t)
    decreases |all| - k
  {
    var sh := Shapes(all);
    var pc := Offset(sh[..k]);
    if k == |all| {
      assert sh[..k] == sh;
    } else {
      var st := Pass(t, buf, pc);
      StepOfShape(st, all, sh, k);
      assert LineSettled(t, sh[k], pc);
      SettledStep(t, buf, pc, sh[k]);
      var next := LineStep(st, all[k]);
      OffsetNext(sh, k);
      ImageNext(sh, k, t);
      SecondPass(t, next.buf, all, k + 1);
    }
  }

  // ---------------------------------------------------------------------------
  // The first pass

  /** Every slot holding a name in t holds the same name in u */
  predicate Extends(t: seq<Label>, u: seq<Label>) {
    && |t| == |u|
    && forall i :: 0 <= i < |t| && Occupied(t[i]) ==> Occupied(u[i]) && u[i].name == t[i].name
  }

  /** The line is not refused and its names are already held: parsing it again leaves t as it is */
  predicate Seen(t: seq<Label>, s: Shape) {
    var (p, t1) := Resolve(s, t);
    && t1 == t && !p.Err? && !p.UndefParse?
    && (p.LabelDef? ==> p.index >= 0)
    && (p.Jump? ==> p.index >= 0)
  }

  /** Some line among sh is the definition `name:` */
  predicate DefinedIn(sh: seq<Shape>, name: string) {
    exists j :: 0 <= j < |sh| && sh[j] == DefShape(name)
  }

  /** Some line among sh defines or jumps to name */
  predicate NamedIn(sh: seq<Shape>, name: string) {
    exists j :: 0 <= j < |sh| && (sh[j].DefShape? || sh[j].JumpShape?) && sh[j].name == name
  }

  /** Every name held in t comes from one of the first k lines */
  predicate Named(t: seq<Label>, sh: seq<Shape>, k: nat)
    requires k <= |sh|
  {
    forall i :: 0 <= i < |t| && Occupied(t[i]) ==> NamedIn(sh[..k], t[i].name)
  }

  /**
   * What the first pass has gathered after k lines: a packed table holding
   * exactly their names, VALID only for defined labels
   */
  predicate Gathered(t: seq<Label>, sh: seq<Shape>, k: nat)
    requires k <= |sh|
  {
    && |t| == MaxLabelsNum && Packed(t)
    && (forall j :: 0 <= j < k ==> Seen(t, sh[j]))
    && (forall i :: 0 <= i < |t| && t[i].status == LabelValid ==> DefinedIn(sh[..k], t[i].name))
    && Named(t, sh, k)
  }

  /** The label line j defines sits in a VALID slot whose shift is the line's offset */
  predicate DefPlaced(t: seq<Label>, sh: seq<Shape>, j: nat)
    requires j < |sh|
  {
    var p := Resolve(sh[j], t).0;
    p.LabelDef? && 0 <= p.index < |t| && t[p.index].status == LabelValid && t[p.index].shift == Wrap32(Offset(sh[..j]))
  }

  predicate Placed(t: seq<Label>, sh: seq<Shape>, k: nat)
    requires k <= |sh|
  {
    forall j :: 0 <= j < k && sh[j].DefShape? ==> DefPlaced(t, sh, j)
  }

  /** No label is defined on two lines */
  predicate UniqueDefs(sh: seq<Shape>) {
    forall j1, j2 :: 0 <= j1 < j2 < |sh| && sh[j1].DefShape? && sh[j2].DefShape? ==> sh[j1].name != sh[j2].name
  }

  /** A name held in t is found in the same slot of any table that extends t. */
  lemma HeldLater(t: seq<Label>, u: seq<Label>, name: string)
    requires Register(t, name).0 >= 0 && Register(t, name).1 == t && Extends(t, u)
    ensures Register(u, name) == (Register(t, name).0, u)
  {
    RegisterResult(t, name, 0);
    var i := Register(t, name).0;
    assert OthersIn(u, name, 0, i) by {
      forall k | 0 <= k < i ensures Occupied(u[k]) && u[k].name != name {
        assert Occupied(t[k]) && t[k].name != name;
      }
    }
    RegisterFinds(u, name, i);
  }

  /** A seen line stays seen, with the same parse, in any table that extends the one it was seen in. */
  lemma SeenLater(t: seq<Label>, u: seq<Label>, s: Shape)
    requires Seen(t, s) && Extends(t, u)
    ensures Seen(u, s) && Resolve(s, u).0 == Resolve(s, t).0
  {
    match s
    case DefShape(name) => HeldLater(t, u, name);
    case JumpShape(_, name) => HeldLater(t, u, name);
    case OtherShape(_) =>
  }

  lemma AllSeenLater(t: seq<Label>, u: seq<Label>, sh: seq<Shape>, k: nat)
    requires k <= |sh| && Extends(t, u) && forall j :: 0 <= j < k ==> Seen(t, sh[j])
    ensures forall j :: 0 <= j < k ==> Seen(u, sh[j]) && Resolve(sh[j], u).0 == Resolve(sh[j], t).0
  {
    forall j | 0 <= j < k ensures Seen(u, sh[j]) && Resolve(sh[j], u).0 == Resolve(sh[j], t).0 {
      SeenLater(t, u, sh[j]);
    }
  }

  /** The slot a seen label line or jump refers to holds its name. */
  lemma SeenSlot(t: seq<Label>, s: Shape)
    requires Seen(t, s) && (s.DefShape? || s.JumpShape?)
    ensures var i := Resolve(s, t).0.index; 0 <= i < |t| && Occupied(t[i]) && t[i].name == s.name
  {
    RegisterResult(t, s.name, 0);
  }

  /** A successful registration keeps the table packed and extends it, and VALID slots stay as they are. */
  lemma RegisterStep(t: seq<Label>, name: string)
    requires Packed(t) && Register(t, name).0 >= 0
    ensures var (i, t1) := Register(t, name);
      && Packed(t1) && Extends(t, t1) && Register(t1, name) == (i, t1)
      && Occupied(t1[i]) && t1[i].name == name
      && (forall x :: 0 <= x < |t| && x != i ==> t1[x] == t[x])
      && (forall x :: 0 <= x < |t| && t1[x].status == LabelValid ==> t1[x] == t[x])
      && (forall x :: 0 <= x < |t| && t[x].status == LabelValid ==> t1[x] == t[x])
  {
    RegisterResult(t, name, 0);
    RegisterKeepsPacked(t, name);
    RegisterAgain(t, name);
  }

  /** Marking a held slot VALID keeps the table packed and extends it. */
  lemma DefineStep(t: seq<Label>, buf: seq<Byte>, pc: nat, i: nat)
    requires Packed(t) && i < |t| && Occupied(t[i])
    ensures var u := DefineLabel(t, buf, pc, i).table; Packed(u) && Extends(t, u)
  {
    var u := DefineLabel(t, buf, pc, i).table;
    assert forall x :: 0 <= x < |t| ==> Occupied(u[x]) == Occupied(t[x]) && (Occupied(t[x]) ==> u[x].name == t[x].name);
  }

  /** Named carries over to the next line when at most slot i changes, and then only to the name line k mentions. */
  lemma NamedStep(t: seq<Label>, u: seq<Label>, sh: seq<Shape>, k: nat, i: nat)
    requires k < |sh| && |u| == |t| && Named(t, sh, k)
    requires forall x :: 0 <= x < |t| && x != i ==> u[x] == t[x]
    requires i < |u| && Occupied(u[i]) ==> (sh[k].DefShape? || sh[k].JumpShape?) && u[i].name == sh[k].name
    ensures Named(u, sh, k + 1)
  {
    forall x | 0 <= x < |u| && Occupied(u[x]) ensures NamedIn(sh[..k + 1], u[x].name) {
      if x == i {
        assert sh[..k + 1][k] == sh[k];
      } else {
        var j :| 0 <= j < k && (sh[..k][j].DefShape? || sh[..k][j].JumpShape?) && sh[..k][j].name == t[x].name;
        assert sh[..k + 1][j] == sh[..k][j];
      }
    }
  }

  lemma DefinedLater(sh: seq<Shape>, k: nat, name: string)
    requires k < |sh| && DefinedIn(sh[..k], name)
    ensures DefinedIn(sh[..k + 1], name)
  {
    var j :| 0 <= j < k && sh[..k][j] == DefShape(name);
    assert sh[..k + 1][j] == sh[..k][j];
  }

  /** VALID slots that did not change are still explained by the longer prefix. */
  lemma ValidLater(t: seq<Label>, u: seq<Label>, sh: seq<Shape>, k: nat)
    requires k < |sh| && |t| == |u|
    requires forall x :: 0 <= x < |t| && t[x].status == LabelValid ==> DefinedIn(sh[..k], t[x].name)
    requires forall x :: 0 <= x < |u| && u[x].status == LabelValid ==> u[x] == t[x]
    ensures forall x :: 0 <= x < |u| && u[x].status == LabelValid ==> DefinedIn(sh[..k + 1], u[x].name)
  {
    forall x | 0 <= x < |u| && u[x].status == LabelValid ensures DefinedIn(sh[..k + 1], u[x].name) {
      DefinedLater(sh, k, u[x].name);
    }
  }

  /** After a definition in slot i, every VALID slot is defined by the first k + 1 lines. */
  lemma DefValid(t: seq<Label>, u: seq<Label>, sh: seq<Shape>, k: nat, i: nat, name: string)
    requires k < |sh| && sh[k] == DefShape(name) && |u| == |t| && i < |u| && u[i].name == name
    requires forall x :: 0 <= x < |t| && x != i ==> u[x] == t[x]
    requires forall x :: 0 <= x < |t| && t[x].status == LabelValid ==> DefinedIn(sh[..k], t[x].name)
    ensures forall x :: 0 <= x < |u| && u[x].status == LabelValid ==> DefinedIn(sh[..k + 1], u[x].name)
  {
    forall x | 0 <= x < |u| && u[x].status == LabelValid ensures DefinedIn(sh[..k + 1], u[x].name) {
      if x == i {
        assert sh[..k + 1][k] == sh[k];
      } else {
        assert u[x] == t[x];
        DefinedLater(sh, k, u[x].name);
      }
    }
  }

  /** With distinct definitions, the earlier label lines keep their slots when line k defines another name. */
  lemma DefKeepsPlaced(t: seq<Label>, u: seq<Label>, sh: seq<Shape>, k: nat, i: nat, name: string)
    requires k < |sh| && sh[k] == DefShape(name) && UniqueDefs(sh) && Placed(t, sh, k)
    requires Extends(t, u) && i < |u| && u[i].name == name
    requires forall x :: 0 <= x < |t| && x != i ==> u[x] == t[x]
    requires forall j :: 0 <= j < k ==> Seen(t, sh[j]) && Resolve(sh[j], u).0 == Resolve(sh[j], t).0
    requires DefPlaced(u, sh, k)
    ensures Placed(u, sh, k + 1)
  {
    forall j | 0 <= j < k + 1 && sh[j].DefShape? ensures DefPlaced(u, sh, j) {
      if j < k {
        assert DefPlaced(t, sh, j);
        var im := Resolve(sh[j], t).0.index;
        SeenSlot(t, sh[j]);
        assert sh[j].name != name;
        assert u[im].name == sh[j].name;
        assert im != i;
      }
    }
  }

  /** A label definition in the first pass */
  lemma DefLineStep(t: seq<Label>, buf: seq<Byte>, sh: seq<Shape>, k: nat, name: string)
    requires k < |sh| && Gathered(t, sh, k) && sh[k] == DefShape(name)
    ensures var r := Act(Pass(t, buf, Offset(sh[..k])), Resolve(sh[k], t));
      r.Pass? ==> Gathered(r.table, sh, k + 1) && (UniqueDefs(sh) && Placed(t, sh, k) ==> Placed(r.table, sh, k + 1))
  {
    var (i, t1) := Register(t, name);
    if i >= 0 {
      var pc := Offset(sh[..k]);
      assert Act(Pass(t, buf, pc), Resolve(sh[k], t)) == DefineLabel(t1, buf, pc, i);
      DefLineGathered(t, buf, sh, k, name);
      if UniqueDefs(sh) && Placed(t, sh, k) {
        DefLinePlaced(t, buf, sh, k, name);
      }
    }
  }

  lemma DefLineGathered(t: seq<Label>, buf: seq<Byte>, sh: seq<Shape>, k: nat, name: string)
    requires k < |sh| && Gathered(t, sh, k) && sh[k] == DefShape(name) && Register(t, name).0 >= 0
    ensures var (i, t1) := Register(t, name); Gathered(DefineLabel(t1, buf, Offset(sh[..k]), i).table, sh, k + 1)
  {
    var pc := Offset(sh[..k]);
    var (i, t1) := Register(t, name);
    RegisterStep(t, name);
    DefineStep(t1, buf, pc, i);
    var u := DefineLabel(t1, buf, pc, i).table;
    NamedStep(t, u, sh, k, i);
    AllSeenLater(t, u, sh, k);
    HeldLater(t1, u, name);
    DefValid(t, u, sh, k, i, name);
  }

  lemma DefLinePlaced(t: seq<Label>, buf: seq<Byte>, sh: seq<Shape>, k: nat, name: string)
    requires k < |sh| && Gathered(t, sh, k) && sh[k] == DefShape(name) && Register(t, name).0 >= 0
    requires UniqueDefs(sh) && Placed(t, sh, k)
    ensures var (i, t1) := Register(t, name); Placed(DefineLabel(t1, buf, Offset(sh[..k]), i).table, sh, k + 1)
  {
    var pc := Offset(sh[..k]);
    var (i, t1) := Register(t, name);
    RegisterStep(t, name);
    DefineStep(t1, buf, pc, i);
    var u := DefineLabel(t1, buf, pc, i).table;
    AllSeenLater(t, u, sh, k);
    HeldLater(t1, u, name);
    DefKeepsPlaced(t, u, sh, k, i, name);
  }

  /** A jump in the first pass */
  lemma JumpLineStep(t: seq<Label>, buf: seq<Byte>, sh: seq<Shape>, k: nat, op: Opcode, name: string)
    requires k < |sh| && Gathered(t, sh, k) && sh[k] == JumpShape(op, name)
    ensures var r := Act(Pass(t, buf, Offset(sh[..k])), Resolve(sh[k], t));
      r.Pass? ==> Gathered(r.table, sh, k + 1) && (Placed(t, sh, k) ==> Placed(r.table, sh, k + 1))
  {
    var (i, t1) := Register(t, name);
    if i >= 0 {
      assert Act(Pass(t, buf, Offset(sh[..k])), Resolve(sh[k], t)) == EmitJump(t1, buf, Offset(sh[..k]), Code(op), i);
      JumpGathered(t, sh, k, name);
    }
  }

  lemma JumpGathered(t: seq<Label>, sh: seq<Shape>, k: nat, name: string)
    requires k < |sh| && Gathered(t, sh, k) && sh[k].JumpShape? && sh[k].name == name && Register(t, name).0 >= 0
    ensures var t1 := Register(t, name).1;
      Gathered(t1, sh, k + 1) && (Placed(t, sh, k) ==> Placed(t1, sh, k + 1))
  {
    var t1 := Register(t, name).1;
    RegisterStep(t, name);
    NamedStep(t, t1, sh, k, Register(t, name).0);
    AllSeenLater(t, t1, sh, k);
    ValidLater(t, t1, sh, k);
    if Placed(t, sh, k) {
      PlacedLater(t, t1, sh, k);
    }
  }

  /** Placed carries over to a table that extends t and keeps its VALID slots, and over a line that defines nothing. */
  lemma PlacedLater(t: seq<Label>, u: seq<Label>, sh: seq<Shape>, k: nat)
    requires k < |sh| && Placed(t, sh, k) && Extends(t, u) && !sh[k].DefShape?
    requires forall j :: 0 <= j < k ==> Seen(t, sh[j])
    requires forall x :: 0 <= x < |t| && t[x].status == LabelValid ==> u[x] == t[x]
    ensures Placed(u, sh, k + 1)
  {
    forall j | 0 <= j < k + 1 && sh[j].DefShape? ensures DefPlaced(u, sh, j) {
      assert DefPlaced(t, sh, j);
      SeenLater(t, u, sh[j]);
    }
  }

  /** Any other line in the first pass leaves the table alone. */
  lemma OtherLineStep(t: seq<Label>, buf: seq<Byte>, sh: seq<Shape>, k: nat, p: Parse)
    requires k < |sh| && Gathered(t, sh, k) && sh[k] == OtherShape(p) && (p.Plain? || p.Err? || p.UndefParse?)
    ensures var r := Act(Pass(t, buf, Offset(sh[..k])), Resolve(sh[k], t));
      r.Pass? ==> r.table == t && Gathered(r.table, sh, k + 1)
  {
    if p.Plain? {
      assert Seen(t, sh[k]);
      ValidLater(t, t, sh, k);
      NamedStep(t, t, sh, k, |t|);
    }
  }

  /** One line of the first pass: the table stays gathered, pc moves to the next line's offset, and definitions stay placed. */
  lemma FirstStep(t: seq<Label>, buf: seq<Byte>, sh: seq<Shape>, k: nat)
    requires k < |sh| && Shaped(sh) && Gathered(t, sh, k)
    ensures var r := Act(Pass(t, buf, Offset(sh[..k])), Resolve(sh[k], t));
      r.Pass? ==>
        && Gathered(r.table, sh, k + 1) && r.pc == Offset(sh[..k + 1])
        && (UniqueDefs(sh) && Placed(t, sh, k) ==> Placed(r.table, sh, k + 1))
  {
    StepSize(Pass(t, buf, Offset(sh[..k])), sh[k]);
    OffsetNext(sh, k);
    match sh[k]
    case DefShape(name) => DefLineStep(t, buf, sh, k, name);
    case JumpShape(op, name) => JumpLineStep(t, buf, sh, k, op, name);
    case OtherShape(p) =>
      OtherLineStep(t, buf, sh, k, p);
      if Placed(t, sh, k) {
        assert Placed(t, sh, k + 1);
      }
  }

  /**
   * The first pass from line k on: when it runs to the end, the table holds
   * every name of the lines, a VALID slot only for a defined label and, when
   * no label is defined twice, each definition's own offset.
   */
  lemma {:induction false} FirstPass(st: Pass, all: seq<string>, k: nat)
    requires st.Pass? && k <= |all| && Gathered(st.table, Shapes(all), k)
    requires st.pc == Offset(Shapes(all)[..k])
    ensures var sh := Shapes(all);
      var r := RunPass(st, all[k..]);
      r.Pass? ==>
        && Gathered(r.table, sh, |sh|) && r.pc == Offset(sh)
        && (UniqueDefs(sh) && Placed(st.table, sh, k) ==> Placed(r.table, sh, |sh|))
    decreases |all| - k
  {
    var sh := Shapes(all);
    if k == |all| {
      assert sh[..k] == sh;
    } else {
      StepOfShape(st, all, sh, k);
      FirstStep(st.table, st.buf, sh, k);
      var next := LineStep(st, all[k]);
      if next.Pass? {
        FirstPass(next, all, k + 1);
      }
    }
  }

  /** A gathered, placed table in which no label is left unresolved settles every line. */
  lemma Settles(t: seq<Label>, sh: seq<Shape>)
    requires Shaped(sh) && Gathered(t, sh, |sh|) && Placed(t, sh, |sh|) && AllResolved(t)
    ensures Settled(t, sh, 0)
  {
    forall j | 0 <= j < |sh| ensures LineSettled(t, sh[j], Offset(sh[..j])) {
      assert Seen(t, sh[j]);
      match sh[j]
      case DefShape(_) => assert DefPlaced(t, sh, j);
      case JumpShape(_, _) => SeenSlot(t, sh[j]);
      case OtherShape(_) =>
    }
  }

  // ---------------------------------------------------------------------------
  // The byte code, without the table

  /** The first line that defines name */
  function DefLine(sh: seq<Shape>, name: string): (j: nat)
    requires DefinedIn(sh, name)
    ensures j < |sh| && sh[j] == DefShape(name)
    ensures forall i :: 0 <= i < j ==> sh[i] != DefShape(name)
  {
    if sh[0] == DefShape(name) then 0
    else
      var j :| 0 <= j < |sh| && sh[j] == DefShape(name);
      assert sh[1..][j - 1] == sh[j];
      1 + DefLine(sh[1..], name)
  }

  /** Where a jump to name lands: the offset of the line that defines it, as a 32-bit int */
  function Target(sh: seq<Shape>, name: string): (x: int)
    requires DefinedIn(sh, name)
    ensures IsInt32(x)
  {
    Wrap32(Offset(sh[..DefLine(sh, name)]))
  }

  /** The bytes of one line in the finished byte code */
  function LineCode(s: Shape, sh: seq<Shape>): (b: seq<Byte>)
  {
    match s
    case DefShape(_) => []
    case JumpShape(op, name) => [Code(op)] + (if DefinedIn(sh, name) then Int32Bytes(Target(sh, name)) else [0, 0, 0, 0])
    case OtherShape(p) => if p.Plain? then PlainBytes(p.Cmd(), p.arg, p.reg) else []
  }

  /** The byte code of the first n lines of sh */
  function ByteCode(sh: seq<Shape>, n: nat): (b: seq<Byte>)
    requires n <= |sh|
  {
    if n == 0 then [] else ByteCode(sh, n - 1) + LineCode(sh[n - 1], sh)
  }

  /** With a gathered, placed and resolved table, a line's bytes in the second pass are its byte code. */
  lemma LineCodeOf(t: seq<Label>, sh: seq<Shape>, j: nat)
    requires j < |sh| && Shaped(sh) && Gathered(t, sh, |sh|) && Placed(t, sh, |sh|) && AllResolved(t)
    ensures LineBytes(sh[j], t) == LineCode(sh[j], sh)
  {
    match sh[j]
    case DefShape(_) =>
    case OtherShape(_) =>
    case JumpShape(op, name) =>
      assert Seen(t, sh[j]);
      SeenSlot(t, sh[j]);
      var i := Resolve(sh[j], t).0.index;
      assert t[i].status == LabelValid;
      assert sh[..|sh|] == sh;
      var d := DefLine(sh, name);
      assert DefPlaced(t, sh, d);
      assert Seen(t, sh[d]);
      SeenSlot(t, sh[d]);
      assert Resolve(sh[d], t).0.index == i;
  }

  lemma {:induction false} ImageByteCode(t: seq<Label>, sh: seq<Shape>, n: nat)
    requires n <= |sh| && forall j {:trigger LineCode(sh[j], sh)} :: 0 <= j < n ==> LineBytes(sh[j], t) == LineCode(sh[j], sh)
    ensures Image(sh[..n], t) == ByteCode(sh, n)
  {
    if n == 0 {
      assert sh[..0] == [];
    } else {
      ImageByteCode(t, sh, n - 1);
      assert LineBytes(sh[n - 1], t) == LineCode(sh[n - 1], sh);
      ByteCodeNext(t, sh, n - 1);
    }
  }

  lemma ByteCodeNext(t: seq<Label>, sh: seq<Shape>, k: nat)
    requires k < |sh| && Image(sh[..k], t) == ByteCode(sh, k) && LineBytes(sh[k], t) == LineCode(sh[k], sh)
    ensures Image(sh[..k + 1], t) == ByteCode(sh, k + 1)
  {
    ImageNext(sh, k, t);
  }

  /** The second pass over a gathered, placed and resolved table lays down the byte code. */
  lemma ResolvedImage(t: seq<Label>, sh: seq<Shape>)
    requires Shaped(sh) && Gathered(t, sh, |sh|) && Placed(t, sh, |sh|) && AllResolved(t)
    ensures Image(sh, t) == ByteCode(sh, |sh|)
  {
    forall j | 0 <= j < |sh| ensures LineBytes(sh[j], t) == LineCode(sh[j], sh) {
      LineCodeOf(t, sh, j);
    }
    ImageByteCode(t, sh, |sh|);
    assert sh[..|sh|] == sh;
  }

  /** Every jump of a gathered, resolved table names a defined label. */
  lemma ResolvedDefined(t: seq<Label>, sh: seq<Shape>)
    requires Gathered(t, sh, |sh|) && AllResolved(t)
    ensures forall j :: 0 <= j < |sh| && sh[j].JumpShape? ==> DefinedIn(sh, sh[j].name)
  {
    forall j | 0 <= j < |sh| && sh[j].JumpShape? ensures DefinedIn(sh, sh[j].name) {
      assert Seen(t, sh[j]);
      SeenSlot(t, sh[j]);
      assert sh[..|sh|] == sh;
    }
  }

  // ---------------------------------------------------------------------------
  // What main writes

  lemma FirstPassFromStart(lines: seq<string>)
    ensures var sh := Shapes(lines);
      var r := RunPass(Pass(EmptyTable(), [], 0), lines);
      r.Pass? ==> Gathered(r.table, sh, |sh|) && (UniqueDefs(sh) ==> Placed(r.table, sh, |sh|))
  {
    var sh := Shapes(lines);
    EmptyTablePacked();
    assert sh[..0] == [] && lines[0..] == lines;
    assert Gathered(EmptyTable(), sh, 0);
    FirstPass(Pass(EmptyTable(), [], 0), lines, 0);
  }

  /**
   * When no label is defined twice and main writes a file: every label a jump
   * names is defined, and the file is the header followed by the byte code,
   * each jump carrying the offset of its label's line.
   */
  lemma AssembleWrites(lines: seq<string>)
    requires UniqueDefs(Shapes(lines))
    ensures var sh := Shapes(lines);
      AssembleLines(lines).Written? ==>
        && (forall j :: 0 <= j < |sh| && sh[j].JumpShape? ==> DefinedIn(sh, sh[j].name))
        && AssembleLines(lines).file == Version.Header + ByteCode(sh, |sh|)
  {
    var sh := Shapes(lines);
    var r1 := RunPass(Pass(EmptyTable(), [], 0), lines);
    FirstPassFromStart(lines);
    if r1.Pass? && AllResolved(r1.table) {
      ResolvedDefined(r1.table, sh);
      SecondPassFromStart(r1.table, r1.buf, lines);
    }
  }

  /** The second pass over a gathered, placed and resolved table runs through and lays down the byte code. */
  lemma SecondPassFromStart(t: seq<Label>, buf: seq<Byte>, lines: seq<string>)
    requires var sh := Shapes(lines); Gathered(t, sh, |sh|) && Placed(t, sh, |sh|) && AllResolved(t)
    ensures var sh := Shapes(lines);
      var r := RunPass(Pass(t, buf, 0), lines);
      r.Pass? && Laid(r.buf, r.pc) == ByteCode(sh, |sh|)
  {
    var sh := Shapes(lines);
    Settles(t, sh);
    assert sh[..0] == [] && lines[0..] == lines;
    SecondPass(t, buf, lines, 0);
    ResolvedImage(t, sh);
  }

  /** A jump to a label that no line defines makes main abort once the first pass is through. */
  lemma UndefinedLabelAborts(lines: seq<string>, j: nat)
    requires j < |lines| && Shapes(lines)[j].JumpShape? && !DefinedIn(Shapes(lines), Shapes(lines)[j].name)
    requires RunPass(Pass(EmptyTable(), [], 0), lines).Pass?
    ensures AssembleLines(lines) == Aborted
  {
    FirstPassFromStart(lines);
    Unresolved(RunPass(Pass(EmptyTable(), [], 0), lines).table, Shapes(lines), j);
  }

  /** The slot of a jump's label that no line defines stays NAME-ONLY in a gathered table. */
  lemma Unresolved(t: seq<Label>, sh: seq<Shape>, j: nat)
    requires j < |sh| && sh[j].JumpShape? && !DefinedIn(sh, sh[j].name) && Gathered(t, sh, |sh|)
    ensures !AllResolved(t)
  {
    assert Seen(t, sh[j]);
    SeenSlot(t, sh[j]);
    assert sh[..|sh|] == sh;
  }

  /** In a gathered, placed table whose jumps all name defined labels, every slot is VALID or EMPTY. */
  lemma DefinedResolves(t: seq<Label>, sh: seq<Shape>)
    requires Gathered(t, sh, |sh|) && Placed(t, sh, |sh|)
    requires forall j :: 0 <= j < |sh| && sh[j].JumpShape? ==> DefinedIn(sh, sh[j].name)
    ensures AllResolved(t)
  {
    assert sh[..|sh|] == sh;
    forall x | 0 <= x < |t| && Occupied(t[x]) ensures t[x].status == LabelValid {
      var name := t[x].name;
      var j :| 0 <= j < |sh| && (sh[j].DefShape? || sh[j].JumpShape?) && sh[j].name == name;
      var d :| 0 <= d < |sh| && sh[d] == DefShape(name);
      SlotOfDefinition(t, sh, x, d);
    }
  }

  /** The slot holding the name of a placed definition is VALID. */
  lemma SlotOfDefinition(t: seq<Label>, sh: seq<Shape>, x: nat, d: nat)
    requires Gathered(t, sh, |sh|) && Placed(t, sh, |sh|)
    requires x < |t| && Occupied(t[x]) && d < |sh| && sh[d] == DefShape(t[x].name)
    ensures t[x].status == LabelValid
  {
    assert DefPlaced(t, sh, d);
    assert Seen(t, sh[d]);
    SeenSlot(t, sh[d]);
  }

  /**
   * When no label is defined twice, the first pass is through and every jump
   * names a defined label, main writes the file.
   */
  lemma AssembleCompletes(lines: seq<string>)
    requires UniqueDefs(Shapes(lines)) && RunPass(Pass(EmptyTable(), [], 0), lines).Pass?
    requires var sh := Shapes(lines);
      forall j :: 0 <= j < |sh| && sh[j].JumpShape? ==> DefinedIn(sh, sh[j].name)
    ensures AssembleLines(lines).Written?
  {
    var sh := Shapes(lines);
    var r1 := RunPass(Pass(EmptyTable(), [], 0), lines);
    FirstPassFromStart(lines);
    DefinedResolves(r1.table, sh);
    Settles(r1.table, sh);
    assert sh[..0] == [] && lines[0..] == lines;
    SecondPass(r1.table, r1.buf, lines, 0);
  }
}
