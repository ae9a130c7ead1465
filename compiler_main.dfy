/**
 * The assembler of Processor/compiler.cpp as the program runs it: the global
 * `labels[]` table and the `byte_code` buffer with its `pc` are the fields of
 * an Assembler object, the parse routines advance a cursor over the line, and
 * main runs the line loop twice. Each method is proved equal to the functions
 * of module Compiler.
 */
module CompilerMain {
  import opened Common
  import opened Encoding
  import Version
  import opened Compiler

  // ---------------------------------------------------------------------------
  // Cursor loops of parse_str_to_cmd and parse_reg_and_arg

  /** The lower-case word loop, which also stops at MAX_CMD_LEN */
  method ScanLower(s: string, i: nat) returns (j: nat)
    requires i <= |s|
    ensures j == LowerRun(s, i)
  {
    j := i;
    while j < |s| && IsLower(s[j]) && j != MaxCmdLen
      invariant i <= j <= |s|
      invariant LowerRun(s, j) == LowerRun(s, i)
    {
      j := j + 1;
    }
  }

  /** The `isalpha` loop that copies a register name into `reg_str` */
  method ScanAlpha(s: string, i: nat) returns (j: nat)
    requires i <= |s|
    ensures j == AlphaRun(s, i)
  {
    j := i;
    while j < |s| && IsAlpha(s[j])
      invariant i <= j <= |s|
      invariant AlphaRun(s, j) == AlphaRun(s, i)
    {
      j := j + 1;
    }
  }

  /** The cursor walk of `parse_str_to_cmd` up to the point where a label name is looked up */
  method ScanShape(s: string) returns (sh: Shape)
    ensures sh == ShapeOf(s)
  {
    var ptr := SkipWhitespace(s, 0);
    var start := ptr;
    ptr := ScanLower(s, ptr);
    if ptr < |s| && s[ptr] == ':' {
      return DefShape(s[start..ptr]);
    }
    var op := ChooseCmd(s[start..ptr]);
    if op.None? {
      return OtherShape(Err);
    }
    if IsJump(Code(op.value)) {
      var q := SkipWhitespace(s, ptr);
      var e := ScanLower(s, q);
      return JumpShape(op.value, s[q..e]);
    }
    var p := ScanOperand(s, ptr, op.value);
    return OtherShape(p);
  }

  /** The operand of a command that is no jump */
  method ScanOperand(s: string, q: nat, op: Opcode) returns (p: Parse)
    requires q <= |s|
    ensures p == Operand(s, q, op)
  {
    var ptr := SkipWhitespace(s, q);
    if ptr == |s| {
      return Plain(op, false, None, None);
    }
    var inner := Bracketed(s, ptr);
    var mem := inner.Some?;
    var operand := if mem then inner.value else s[ptr..TokenEnd(s, ptr)];
    var a := ScanRegAndArg(operand);
    if a.Reject? {
      return Err;
    }
    if a.Undef? {
      return UndefParse;
    }
    return Plain(op, mem, a.arg, a.reg);
  }

  /**
   * `parse_reg_and_arg`. The `sscanf` calls are library code and are taken as
   * the functions ScanInt and TokenEnd.
   */
  method ScanRegAndArg(s: string) returns (r: RegArg)
    ensures r == ParseRegAndArg(s)
  {
    var ptr := SkipWhitespace(s, 0);
    if ptr == |s| {
      r := Parsed(None, None);
    } else if IsDigit(s[ptr]) {
      r := ScanNumberFirst(s, ptr);
    } else if IsAlpha(s[ptr]) {
      r := ScanRegisterFirst(s, ptr);
    } else {
      r := Reject;
    }
  }

  /** The `isdigit` branch of parse_reg_and_arg */
  method ScanNumberFirst(s: string, p: nat) returns (r: RegArg)
    requires p < |s| && IsDigit(s[p])
    ensures r == NumberFirst(s, p)
  {
    var scanned := ScanInt(s, p);
    if scanned.None? {
      return Undef;
    }
    var v, q := scanned.value.0, scanned.value.1;
    var ptr := SkipWhitespace(s, q);
    if ptr == |s| {
      return Parsed(Some(v), None);
    }
    if s[ptr] == '+' {
      ptr := ptr + 1;
    }
    ptr := SkipWhitespace(s, ptr);
    assert ptr == SkipPlus(s, q);
    if ptr == |s| || !IsAlpha(s[ptr]) {
      return Reject;
    }
    var t := TokenEnd(s, ptr);
    if t - ptr > MaxRegLen {
      return Undef;
    }
    var reg := GetRegNum(s[ptr..t]);
    if reg < 0 {
      return Reject;
    }
    return Parsed(Some(v), Some(reg as Byte));
  }

  /** The `isalpha` branch of parse_reg_and_arg */
  method ScanRegisterFirst(s: string, p: nat) returns (r: RegArg)
    requires p < |s| && IsAlpha(s[p])
    ensures r == RegisterFirst(s, p)
  {
    var ptr := ScanAlpha(s, p);
    if ptr - p > MaxRegLen + 1 || (ptr - p == 1 && 'a' <= s[p] <= 'd') {
      return Undef;
    }
    var reg := GetRegNum(s[p..ptr]);
    if reg < 0 {
      return Reject;
    }
    var q := ptr;
    ptr := SkipWhitespace(s, ptr);
    if ptr == |s| {
      return Parsed(None, Some(reg as Byte));
    }
    if s[ptr] == '+' {
      ptr := ptr + 1;
    }
    ptr := SkipWhitespace(s, ptr);
    assert ptr == SkipPlus(s, q);
    if ptr < |s| && IsDigit(s[ptr]) {
      var scanned := ScanInt(s, ptr);
      if scanned.None? {
        return Undef;
      }
      return Parsed(Some(scanned.value.0), Some(reg as Byte));
    }
    return Reject;
  }

  // ---------------------------------------------------------------------------
  // The assembler's state

  /** How one line, or one pass, ends: on to the next, `goto out_err`, or undefined behaviour */
  datatype Flow = Go | Fail | Ub

  function FlowOf(r: Pass): (f: Flow)
    ensures f == Go <==> r.Pass?
    ensures f == Fail <==> r.Failed?
  {
    match r
    case Pass(_, _, _) => Go
    case Failed => Fail
    case Undefined => Ub
  }

  class Assembler {
    const labels: array<Label>
    var code: seq<Byte>   // the bytes of `byte_code` written so far; the rest is calloc'ed zero
    var pc: nat

    predicate Valid()
      reads this
    {
      labels.Length == MaxLabelsNum
    }

    function Model(): (m: Pass)
      reads this, labels
      ensures m.Pass? && |m.table| == labels.Length
    {
      Pass(labels[..], code, pc)
    }

    /** The zero-initialised globals and the calloc'ed buffer */
    constructor ()
      ensures Valid() && fresh(labels)
      ensures Model() == Pass(EmptyTable(), [], 0)
    {
      labels := new Label[MaxLabelsNum](_ => NoLabel);
      code := [];
      pc := 0;
      new;
      assert labels[..] == EmptyTable();
    }

    /** `register_label_by_name` */
    method RegisterLabel(name: string) returns (index: int)
      requires Valid()
      modifies labels
      ensures (index, labels[..]) == Register(old(labels[..]), name)
    {
      var i := 0;
      while i < labels.Length
        invariant 0 <= i <= labels.Length
        invariant labels[..] == old(labels[..])
        invariant RegisterFrom(labels[..], name, i) == Register(old(labels[..]), name)
      {
        var st := labels[i].status;
        if st == LabelValid {
          if labels[i].name == name {
            return i;
          }
        } else if st == LabelNameOnly {
          if labels[i].name == name {
            return i;
          }
        } else if st == LabelShiftOnly {
          return -1;
        } else {
          labels[i] := labels[i].(status := LabelNameOnly, name := name);
          return i;
        }
        i := i + 1;
      }
      return -1;
    }

    /** `verify_labels` */
    method VerifyLabels() returns (status: int)
      requires Valid()
      ensures status == 0 || status == -1
      ensures status == 0 <==> AllResolved(labels[..])
    {
      var i := 0;
      while i < labels.Length
        invariant 0 <= i <= labels.Length
        invariant forall k :: 0 <= k < i ==> labels[k].status == LabelValid || labels[k].status == LabelEmpty
      {
        if labels[i].status != LabelValid && labels[i].status != LabelEmpty {
          assert !AllResolved(labels[..]) by { assert labels[..][i] == labels[i]; }
          return -1;
        }
        i := i + 1;
      }
      return 0;
    }

    /** `parse_str_to_cmd`, registering the labels it names */
    method ParseStrToCmd(s: string) returns (p: Parse)
      requires Valid()
      modifies labels
      ensures (p, labels[..]) == Compiler.ParseStrToCmd(s, old(labels[..]))
    {
      var sh := ScanShape(s);
      match sh
      case DefShape(name) =>
        var i := RegisterLabel(name);
        return LabelDef(i);
      case JumpShape(op, name) =>
        var i := RegisterLabel(name);
        return Jump(op, i);
      case OtherShape(q) =>
        return q;
    }

    /** `byte_code[pc++] = b` */
    method EmitByte(b: Byte)
      modifies this
      ensures code == WriteAt(old(code), old(pc), [b]) && pc == old(pc) + 1
    {
      if pc < |code| {
        code := code[pc := b];
      } else {
        code := code + seq(pc - |code|, _ => 0) + [b];
      }
      pc := pc + 1;
    }

    /** `*(int *)(byte_code + pc) = x; pc += sizeof (int)` */
    method EmitInt(x: int)
      modifies this
      ensures code == WriteAt(old(code), old(pc), Int32Bytes(x)) && pc == old(pc) + 4
    {
      code := WriteAt(code, pc, Int32Bytes(x));
      pc := pc + 4;
    }

    /** One iteration of main's line loop */
    method ExecuteLine(line: string) returns (f: Flow)
      requires Valid()
      modifies this, labels
      ensures Valid()
      ensures f == FlowOf(LineStep(old(Model()), line))
      ensures f == Go ==> Model() == LineStep(old(Model()), line)
    {
      var parsed := ParseStrToCmd(line);
      match parsed
      case LabelDef(i) =>
        if !(0 <= i < MaxLabelsNum) {
          return Ub;
        }
        DefineAt(i);
        return Go;
      case Jump(op, i) =>
        if !(0 <= i < MaxLabelsNum) {
          return Ub;
        }
        JumpAt(Code(op), i);
        return Go;
      case Plain(_, _, arg, reg) =>
        PlainAt(parsed.Cmd(), arg, reg);
        return Go;
      case Err =>
        return Fail;
      case UndefParse =>
        return Ub;
    }

    /** The RET_LABEL branch */
    method DefineAt(i: nat)
      requires Valid() && i < MaxLabelsNum
      modifies labels
      ensures Model() == DefineLabel(old(labels[..]), code, pc, i)
    {
      labels[i] := labels[i].(shift := Wrap32(pc), status := LabelValid);
    }

    /** The `is_jump (cmd)` branch */
    method JumpAt(cmd: Byte, i: nat)
      requires Valid() && i < MaxLabelsNum
      modifies this
      ensures Model() == EmitJump(labels[..], old(code), old(pc), cmd, i)
    {
      EmitByte(cmd);
      if labels[i].status == LabelValid {
        EmitInt(labels[i].shift);
      } else {
        pc := pc + 4;
      }
    }

    /** Opcode, then the argument if IMM, then the register if REG */
    method PlainAt(cmd: Byte, arg: Option<int>, reg: Option<Byte>)
      modifies this
      ensures Model() == EmitPlain(labels[..], old(code), old(pc), cmd, arg, reg)
    {
      ghost var buf, start := code, pc;
      EmitByte(cmd);
      if arg.Some? {
        EmitInt(arg.value);
      }
      if reg.Some? {
        EmitByte(reg.value);
      }
      PlainWrites(buf, start, cmd, arg, reg);
    }

    /** `while (fgets (str, MAX_LINE_LEN, input)) { ... }` over the whole input */
    method RunPass(text: string) returns (f: Flow)
      requires Valid()
      modifies this, labels
      ensures Valid()
      ensures f == FlowOf(Compiler.RunPass(old(Model()), Lines(text)))
      ensures f == Go ==> Model() == Compiler.RunPass(old(Model()), Lines(text))
    {
      ghost var target := Compiler.RunPass(old(Model()), Lines(text));
      assert text[0..] == text;
      var pos := 0;
      while pos < |text|
        invariant Valid() && pos <= |text|
        invariant Compiler.RunPass(Model(), Lines(text[pos..])) == target
      {
        var line, next := ReadLine(text, pos);
        ghost var m := Model();
        f := ExecuteLine(line);
        PassStep(m, line, Lines(text[next..]));
        if f != Go {
          return;
        }
        pos := next;
      }
      assert text[pos..] == [];
      return Go;
    }

    /** `pc = 0; fseek (input, 0, SEEK_SET)` between the passes */
    method Rewind()
      modifies this
      ensures code == old(code) && pc == 0
    {
      pc := 0;
    }
  }

  /** The three writes of a non-jump command are the bytes PlainBytes lists. */
  lemma PlainWrites(buf: seq<Byte>, pc: nat, cmd: Byte, arg: Option<int>, reg: Option<Byte>)
    ensures var b1 := WriteAt(buf, pc, [cmd]);
      var b2 := if arg.Some? then WriteAt(b1, pc + 1, Int32Bytes(arg.value)) else b1;
      var p2 := if arg.Some? then pc + 5 else pc + 1;
      (if reg.Some? then WriteAt(b2, p2, [reg.value]) else b2) == WriteAt(buf, pc, PlainBytes(cmd, arg, reg))
  {
    if arg.Some? && reg.Some? {
      ArgRegWrites(buf, pc, cmd, arg.value, reg.value);
    } else if arg.Some? {
      ArgWrites(buf, pc, cmd, arg.value);
    } else if reg.Some? {
      RegWrites(buf, pc, cmd, reg.value);
    } else {
      assert PlainBytes(cmd, arg, reg) == [cmd];
    }
  }

  lemma ArgRegWrites(buf: seq<Byte>, pc: nat, cmd: Byte, x: int, rv: Byte)
    ensures WriteAt(WriteAt(WriteAt(buf, pc, [cmd]), pc + 1, Int32Bytes(x)), pc + 5, [rv])
         == WriteAt(buf, pc, PlainBytes(cmd, Some(x), Some(rv)))
  {
    ThreeWrites(buf, pc, [cmd], Int32Bytes(x), [rv]);
    assert PlainBytes(cmd, Some(x), Some(rv)) == [cmd] + Int32Bytes(x) + [rv];
  }

  lemma ArgWrites(buf: seq<Byte>, pc: nat, cmd: Byte, x: int)
    ensures WriteAt(WriteAt(buf, pc, [cmd]), pc + 1, Int32Bytes(x)) == WriteAt(buf, pc, PlainBytes(cmd, Some(x), None))
  {
    WriteAtConcat(buf, pc, [cmd], Int32Bytes(x));
    assert PlainBytes(cmd, Some(x), None) == [cmd] + Int32Bytes(x);
  }

  lemma RegWrites(buf: seq<Byte>, pc: nat, cmd: Byte, rv: Byte)
    ensures WriteAt(WriteAt(buf, pc, [cmd]), pc + 1, [rv]) == WriteAt(buf, pc, PlainBytes(cmd, None, Some(rv)))
  {
    WriteAtConcat(buf, pc, [cmd], [rv]);
    assert PlainBytes(cmd, None, Some(rv)) == [cmd] + [rv];
  }

  /** Three adjacent writes are one write of all three. */
  lemma ThreeWrites(buf: seq<Byte>, pc: nat, x: seq<Byte>, y: seq<Byte>, z: seq<Byte>)
    ensures WriteAt(WriteAt(WriteAt(buf, pc, x), pc + |x|, y), pc + |x| + |y|, z) == WriteAt(buf, pc, x + y + z)
  {
    WriteAtConcat(buf, pc, x, y);
    WriteAtConcat(buf, pc, x + y, z);
  }

  /** Two adjacent writes are one write of both. */
  lemma WriteAtConcat(buf: seq<Byte>, pc: nat, x: seq<Byte>, y: seq<Byte>)
    ensures WriteAt(WriteAt(buf, pc, x), pc + |x|, y) == WriteAt(buf, pc, x + y)
  {
    var l := WriteAt(WriteAt(buf, pc, x), pc + |x|, y);
    var r := WriteAt(buf, pc, x + y);
    assert |l| == |r|;
    forall i | 0 <= i < |l|
      ensures l[i] == r[i]
    {
      if pc <= i < pc + |x| {
        assert r[i] == r[pc..pc + |x + y|][i - pc] == (x + y)[i - pc];
        assert WriteAt(buf, pc, x)[i] == WriteAt(buf, pc, x)[pc..pc + |x|][i - pc];
      } else if pc + |x| <= i < pc + |x| + |y| {
        assert r[i] == r[pc..pc + |x + y|][i - pc] == (x + y)[i - pc];
        assert l[i] == l[pc + |x|..pc + |x| + |y|][i - pc - |x|];
      }
    }
  }

  /** A pass over one more line: that line's step, then the rest of the pass unless the step stopped */
  lemma PassStep(st: Pass, line: string, rest: seq<string>)
    requires st.Pass? && |st.table| == MaxLabelsNum
    ensures Compiler.RunPass(st, [line] + rest)
         == if LineStep(st, line).Pass? then Compiler.RunPass(LineStep(st, line), rest) else LineStep(st, line)
  {
    assert ([line] + rest)[0] == line && ([line] + rest)[1..] == rest;
  }

  /** `fgets (str, MAX_LINE_LEN, input)` and the `strchr (str, '\n')` cut that follows */
  method ReadLine(text: string, pos: nat) returns (line: string, next: nat)
    requires pos < |text|
    ensures pos < next <= |text|
    ensures Lines(text[pos..]) == [line] + Lines(text[next..])
  {
    var n := ChunkLen(text[pos..], 0);
    line := CLine(text[pos..pos + n]);
    next := pos + n;
    assert text[pos..][..n] == text[pos..pos + n];
    assert text[pos..][n..] == text[next..];
  }

  /** main: both passes, the check of the table between them, and the bytes written to the output file */
  method Assemble(text: string) returns (r: Assembled)
    ensures r == Compiler.Assemble(text)
  {
    var a := new Assembler();
    var f := a.RunPass(text);
    if f == Fail {
      return Aborted;
    } else if f == Ub {
      return UndefinedBehaviour;
    }
    var status := a.VerifyLabels();
    if status < 0 {
      return Aborted;
    }
    a.Rewind();
    f := a.RunPass(text);
    if f == Fail {
      return Aborted;
    } else if f == Ub {
      return UndefinedBehaviour;
    }
    var header := Version.WriteSignAndVer(Some([])).contents;
    return Written(header + Pad(a.code, a.pc)[..a.pc]);
  }
}
