/**
 * Properties of the assembler model (module Compiler): the lookups, the label
 * table, the operand syntax, the bytes each kind of line writes, and the way
 * the two passes fit together.
 */
module CompilerFacts {
  import opened Common
  import opened Encoding
  import opened Compiler
  import Registers
  import Disassembler
  import Decode

  // ---------------------------------------------------------------------------
  // choose_cmd, get_reg_num, is_jump

  /** The strcmp chain passes over names other than w. */
  lemma {:induction false} ChooseSkips(table: seq<(string, Opcode)>, w: string, lo: nat, hi: nat)
    requires lo <= hi <= |table|
    requires forall k :: lo <= k < hi ==> table[k].0 != w
    ensures ChooseFrom(table, w, lo) == ChooseFrom(table, w, hi)
    decreases hi - lo
  {
    if lo < hi {
      ChooseSkips(table, w, lo + 1, hi);
    }
  }

  /** The chain stops at the first entry equal to w. */
  lemma ChooseAt(w: string, k: nat)
    requires k < |Commands| && Commands[k].0 == w
    requires forall j :: 0 <= j < k ==> Commands[j].0 != w
    ensures ChooseCmd(w) == Some(Commands[k].1)
  {
    ChooseSkips(Commands, w, 0, k);
  }

  /** Every mnemonic the disassembler prints is the one choose_cmd maps back to its opcode. */
  lemma ChooseCmdOfMnemonic(op: Opcode)
    ensures ChooseCmd(Disassembler.Mnemonic(op)) == Some(op)
  {
    if op in {HLT, PUSH, POP, ADD, SUB, MUL} {
      ChooseStackCommand(op);
    } else if op in {DIV, IN, OUT, JMP, JA, JAE} {
      ChooseIoAndJump(op);
    } else {
      ChooseBranchCommand(op);
    }
  }

  lemma ChooseStackCommand(op: Opcode)
    requires op in {HLT, PUSH, POP, ADD, SUB, MUL}
    ensures ChooseCmd(Disassembler.Mnemonic(op)) == Some(op)
  {
    match op
    case HLT => ChooseAt("hlt", 8);
    case PUSH => ChooseAt("push", 0);
    case POP => ChooseAt("pop", 1);
    case ADD => ChooseAt("add", 2);
    case SUB => ChooseAt("sub", 3);
    case MUL => ChooseAt("mul", 4);
  }

  lemma ChooseIoAndJump(op: Opcode)
    requires op in {DIV, IN, OUT, JMP, JA, JAE}
    ensures ChooseCmd(Disassembler.Mnemonic(op)) == Some(op)
  {
    match op
    case DIV => ChooseAt("div", 5);
    case IN => ChooseAt("in", 6);
    case OUT => ChooseAt("out", 7);
    case JMP => ChooseAt("jmp", 9);
    case JA => ChooseAt("ja", 10);
    case JAE => ChooseAt("jae", 11);
  }

  lemma ChooseBranchCommand(op: Opcode)
    requires op in {JB, JBE, JE, JNE, CALL, RET}
    ensures ChooseCmd(Disassembler.Mnemonic(op)) == Some(op)
  {
    match op
    case JB => ChooseAt("jb", 12);
    case JBE => ChooseAt("jbe", 13);
    case JE => ChooseAt("je", 14);
    case JNE => ChooseAt("jne", 15);
    case CALL => ChooseAt("call", 16);
    case RET => ChooseAt("ret", 17);
  }

  /** choose_cmd knows no other words: whatever it accepts is the mnemonic of what it returns. */
  lemma ChooseCmdOnlyMnemonics(w: string)
    requires ChooseCmd(w).Some?
    ensures w == Disassembler.Mnemonic(ChooseCmd(w).value)
  {
    var k :| 0 <= k < |Commands| && Commands[k] == (w, ChooseCmd(w).value);
    MnemonicTable(k);
  }

  /** Each entry of the chain pairs an opcode with the disassembler's name for it. */
  lemma MnemonicTable(k: nat)
    requires k < |Commands|
    ensures Commands[k].0 == Disassembler.Mnemonic(Commands[k].1)
  {
  }

  /** get_reg_num undoes get_reg_name. */
  lemma GetRegNumOfRegName(i: int)
    requires 0 <= i < Registers.RegisterCount
    ensures GetRegNum(Registers.RegName(i).value) == i
  {
  }

  /** is_jump holds for exactly seven commands; jbe is not among them. */
  lemma JumpCommands(op: Opcode)
    ensures IsJump(Code(op)) <==> op in {JMP, JA, JAE, JB, JE, JNE, CALL}
    ensures !IsJump(Code(JBE)) && Decode.TakesTarget(JBE)
  {
  }

  // ---------------------------------------------------------------------------
  // register_label_by_name

  predicate Occupied(l: Label) {
    l.status == LabelValid || l.status == LabelNameOnly
  }

  /** Slots lo..hi-1 all hold names, none of them `name` */
  predicate OthersIn(t: seq<Label>, name: string, lo: nat, hi: nat)
    requires lo <= hi <= |t|
  {
    forall k :: lo <= k < hi ==> Occupied(t[k]) && t[k].name != name
  }

  /** The search passes over slots that hold other names. */
  lemma {:induction false} RegisterSkips(t: seq<Label>, name: string, lo: nat, hi: nat)
    requires lo <= hi <= |t| && OthersIn(t, name, lo, hi)
    ensures RegisterFrom(t, name, lo) == RegisterFrom(t, name, hi)
    decreases hi - lo
  {
    if lo < hi {
      RegisterSkips(t, name, lo + 1, hi);
    }
  }

  /** A name already held (VALID or NAME_ONLY) after slots holding other names gets its index back; nothing changes. */
  lemma RegisterFinds(t: seq<Label>, name: string, i: nat)
    requires i < |t| && OthersIn(t, name, 0, i) && Occupied(t[i]) && t[i].name == name
    ensures Register(t, name) == (i, t)
  {
    RegisterSkips(t, name, 0, i);
  }

  /** Otherwise the first EMPTY slot is claimed for the name and marked NAME_ONLY. */
  lemma RegisterClaims(t: seq<Label>, name: string, i: nat)
    requires i < |t| && OthersIn(t, name, 0, i) && t[i].status == LabelEmpty
    ensures Register(t, name) == (i, t[i := Label(LabelNameOnly, t[i].shift, name)])
  {
    RegisterSkips(t, name, 0, i);
  }

  /** A SHIFT_ONLY slot met on the way is an error. */
  lemma RegisterRefusesShiftOnly(t: seq<Label>, name: string, i: nat)
    requires i < |t| && OthersIn(t, name, 0, i) && t[i].status == LabelShiftOnly
    ensures Register(t, name) == (-1, t)
  {
    RegisterSkips(t, name, 0, i);
  }

  /** When every slot holds another name there is no room: -1. */
  lemma RegisterFull(t: seq<Label>, name: string)
    requires OthersIn(t, name, 0, |t|)
    ensures Register(t, name) == (-1, t)
  {
    RegisterSkips(t, name, 0, |t|);
  }

  /**
   * What a successful search leaves: the slot it returns holds the name and is
   * VALID or NAME_ONLY, the slots before it hold other names, and no other slot
   * changes; a failed search changes nothing.
   */
  lemma {:induction false} RegisterResult(t: seq<Label>, name: string, lo: nat)
    requires lo <= |t|
    ensures var (i, t1) := RegisterFrom(t, name, lo);
      && (i == -1 ==> t1 == t)
      && (i >= 0 ==> (lo <= i < |t| && OthersIn(t, name, lo, i)
                      && Occupied(t1[i]) && t1[i].name == name && t1[i].shift == t[i].shift
                      && (t[i].status == LabelEmpty ==> t1[i].status == LabelNameOnly)
                      && (t[i].status != LabelEmpty ==> t1[i] == t[i])
                      && (forall k :: 0 <= k < |t| && k != i ==> t1[k] == t[k])))
    decreases |t| - lo
  {
    if lo < |t| && Occupied(t[lo]) && t[lo].name != name {
      RegisterResult(t, name, lo + 1);
    }
  }

  /** Registering a name a second time returns the same slot and changes nothing. */
  lemma RegisterAgain(t: seq<Label>, name: string)
    requires Register(t, name).0 >= 0
    ensures var (i, t1) := Register(t, name); Register(t1, name) == (i, t1)
  {
    RegisterResult(t, name, 0);
    var (i, t1) := Register(t, name);
    assert OthersIn(t1, name, 0, i) by {
      forall k | 0 <= k < i ensures Occupied(t1[k]) && t1[k].name != name {
        assert t1[k] == t[k];
      }
    }
    RegisterFinds(t1, name, i);
  }

  /**
   * The table as the passes keep it: no SHIFT_ONLY slot, the held names fill a
   * prefix of the table, and no name is held twice.
   */
  predicate Packed(t: seq<Label>) {
    && (forall k :: 0 <= k < |t| ==> t[k].status != LabelShiftOnly)
    && (forall j, k :: 0 <= j < k < |t| && Occupied(t[k]) ==> Occupied(t[j]))
    && (forall j, k :: 0 <= j < k < |t| && Occupied(t[j]) && Occupied(t[k]) ==> t[j].name != t[k].name)
  }

  lemma EmptyTablePacked()
    ensures Packed(EmptyTable())
  {
  }

  /** Registering keeps the table packed, and fails only when all slots are held by other names. */
  lemma RegisterKeepsPacked(t: seq<Label>, name: string)
    requires Packed(t)
    ensures Packed(Register(t, name).1)
    ensures Register(t, name).0 == -1 <==> OthersIn(t, name, 0, |t|)
  {
    RegisterResult(t, name, 0);
    var (i, t1) := Register(t, name);
    if i == -1 {
      assert !OthersIn(t, name, 0, |t|) ==> false by {
        if !OthersIn(t, name, 0, |t|) {
          var k := FirstStop(t, name, 0);
          RegisterSkips(t, name, 0, k);
        }
      }
    } else {
      assert !OthersIn(t, name, 0, |t|) by {
        assert !(Occupied(t[i]) && t[i].name != name) || t1[i] == t[i] ==> true;
        if t[i].status == LabelEmpty {
        } else {
          assert t1[i] == t[i] && t[i].name == name;
        }
      }
      forall j, k | 0 <= j < k < |t1| && Occupied(t1[k])
        ensures Occupied(t1[j])
      {
        if k == i {
          assert j < i;
          assert t1[j] == t[j];
        } else if j != i {
          assert t1[j] == t[j] && t1[k] == t[k];
        }
      }
      forall j, k | 0 <= j < k < |t1| && Occupied(t1[j]) && Occupied(t1[k])
        ensures t1[j].name != t1[k].name
      {
        if k == i {
          assert t1[j] == t[j];
        } else if j == i {
          assert t1[k] == t[k];
          if t[i].status != LabelEmpty {
            assert t1[i] == t[i];
          }
        } else {
          assert t1[j] == t[j] && t1[k] == t[k];
        }
      }
    }
  }

  /** The first slot at or after lo that is not held by another name */
  function FirstStop(t: seq<Label>, name: string, lo: nat): (k: nat)
    requires lo <= |t| && !OthersIn(t, name, lo, |t|)
    ensures lo <= k < |t| && OthersIn(t, name, lo, k) && !(Occupied(t[k]) && t[k].name != name)
    decreases |t| - lo
  {
    if !(Occupied(t[lo]) && t[lo].name != name) then lo
    else
      assert !OthersIn(t, name, lo + 1, |t|);
      FirstStop(t, name, lo + 1)
  }

  // ---------------------------------------------------------------------------
  // Scanning over known text

  lemma {:induction false} DigitRunOver(s: string, i: nat, j: nat)
    requires i <= j <= |s| && (forall k :: i <= k < j ==> IsDigit(s[k]))
    requires j == |s| || !IsDigit(s[j])
    ensures DigitRun(s, i) == j
    decreases j - i
  {
    if i < j {
      DigitRunOver(s, i + 1, j);
    }
  }

  lemma {:induction false} LowerRunOver(s: string, i: nat, j: nat)
    requires i <= j <= |s| && j <= MaxCmdLen && (forall k :: i <= k < j ==> IsLower(s[k]))
    requires j == |s| || !IsLower(s[j])
    ensures LowerRun(s, i) == j
    decreases j - i
  {
    if i < j {
      LowerRunOver(s, i + 1, j);
    }
  }

  lemma {:induction false} TokenEndOver(s: string, i: nat, j: nat)
    requires i <= j <= |s| && (forall k :: i <= k < j ==> !IsSpace(s[k]))
    requires j == |s| || IsSpace(s[j])
    ensures TokenEnd(s, i) == j
    decreases j - i
  {
    if i < j {
      TokenEndOver(s, i + 1, j);
    }
  }

  lemma {:induction false} CloseBracketOver(s: string, i: nat, j: nat)
    requires i <= j < |s| && (forall k :: i <= k < j ==> s[k] != ']') && s[j] == ']'
    ensures CloseBracket(s, i) == j
    decreases j - i
  {
    if i < j {
      CloseBracketOver(s, i + 1, j);
    }
  }

  /** A decimal rendering followed by a non-digit scans back to its value. */
  lemma ScanDecimal(s: string, i: nat, n: nat)
    requires n < TWO31 && i + |NatToDecimal(n)| <= |s| && s[i..i + |NatToDecimal(n)|] == NatToDecimal(n)
    requires i + |NatToDecimal(n)| == |s| || !IsDigit(s[i + |NatToDecimal(n)|])
    ensures ScanInt(s, i) == Some((n, i + |NatToDecimal(n)|))
  {
    var d := NatToDecimal(n);
    forall k | i <= k < i + |d| ensures IsDigit(s[k]) {
      assert s[k] == s[i..i + |d|][k - i];
    }
    DigitRunOver(s, i, i + |d|);
    DecimalRoundTrip(n);
  }

  // ---------------------------------------------------------------------------
  // The operand forms parse_reg_and_arg accepts

  function RegText(i: nat): (r: string)
    requires i < Registers.RegisterCount
    ensures |r| == 2 && IsLower(r[0]) && r[1] == 'x' && GetRegNum(r) == i
  {
    Registers.RegName(i).value
  }

  /** N: a decimal number alone sets IMM. */
  lemma OperandNumber(n: nat)
    requires n < TWO31
    ensures ParseRegAndArg(NatToDecimal(n)) == Parsed(Some(n), None)
  {
    var d := NatToDecimal(n);
    assert d[0..|d|] == d;
    ScanDecimal(d, 0, n);
  }

  /** R: a register name alone sets REG. */
  lemma OperandRegister(i: nat)
    requires i < Registers.RegisterCount
    ensures ParseRegAndArg(RegText(i)) == Parsed(None, Some(i))
  {
    var r := RegText(i);
    assert AlphaRun(r, 1) == 2;
    assert r[0..2] == r;
  }

  /** N+R: a number, `+`, a register sets both. */
  lemma OperandNumberPlusRegister(n: nat, i: nat)
    requires n < TWO31 && i < Registers.RegisterCount
    ensures ParseRegAndArg(NatToDecimal(n) + "+" + RegText(i)) == Parsed(Some(n), Some(i))
  {
    var d, r := NatToDecimal(n), RegText(i);
    var s := d + "+" + r;
    assert s[0..|d|] == d && s[|d|] == '+' && s[|d| + 1..] == r;
    ScanDecimal(s, 0, n);
    PlusRegister(s, |d|, r);
    assert IsDigit(s[0]) && SkipSpaces(s, 0) == 0;
  }

  /** `+` and a register name end the line at q. */
  lemma PlusRegister(s: string, q: nat, r: string)
    requires q + 3 == |s| && s[q] == '+' && s[q + 1..] == r && |r| == 2 && IsLower(r[0]) && r[1] == 'x'
    ensures SkipSpaces(s, q) == q && SkipPlus(s, q) == q + 1 && IsAlpha(s[q + 1])
    ensures TokenEnd(s, q + 1) == |s| && s[q + 1..|s|] == r
  {
    assert s[q + 1] == r[0] && s[q + 2] == r[1];
    assert SkipSpaces(s, q + 1) == q + 1;
    TokenEndOver(s, q + 1, |s|);
  }


  /** R+N: a register, `+`, a number sets both. */
  lemma OperandRegisterPlusNumber(i: nat, n: nat)
    requires n < TWO31 && i < Registers.RegisterCount
    ensures ParseRegAndArg(RegText(i) + "+" + NatToDecimal(n)) == Parsed(Some(n), Some(i))
  {
    var d, r := NatToDecimal(n), RegText(i);
    var s := r + "+" + d;
    assert s[0..2] == r && s[2] == '+' && s[3..] == d;
    RegisterPlus(s, r, d);
    ScanDecimal(s, 3, n);
  }

  /** A register name and `+` start the line; the number follows at 3. */
  lemma RegisterPlus(s: string, r: string, d: string)
    requires |s| == 3 + |d| && 0 < |d| && s[0..2] == r && s[2] == '+' && s[3..] == d
    requires |r| == 2 && IsLower(r[0]) && r[1] == 'x' && IsDigit(d[0])
    ensures SkipSpaces(s, 0) == 0 && IsAlpha(s[0]) && AlphaRun(s, 0) == 2
    ensures SkipSpaces(s, 2) == 2 && SkipPlus(s, 2) == 3 && IsDigit(s[3])
    ensures s[3..3 + |d|] == d
  {
    assert s[0] == r[0] && s[1] == r[1] && s[3] == d[0];
    assert AlphaRun(s, 2) == 2 && AlphaRun(s, 1) == 2;
    assert SkipSpaces(s, 3) == 3;
  }


  lemma {:induction false} AlphaRunOver(s: string, i: nat, j: nat)
    requires i <= j <= |s| && (forall k :: i <= k < j ==> IsAlpha(s[k]))
    requires j == |s| || !IsAlpha(s[j])
    ensures AlphaRun(s, i) == j
    decreases j - i
  {
    if i < j {
      AlphaRunOver(s, i + 1, j);
    }
  }

  // ---------------------------------------------------------------------------
  // Whole lines

  predicate LowerWord(w: string) {
    forall k :: 0 <= k < |w| ==> IsLower(w[k])
  }

  /** Mnemonics are lower-case words of two to four letters. */
  lemma MnemonicShape(op: Opcode)
    ensures 2 <= |Disassembler.Mnemonic(op)| <= 4 && LowerWord(Disassembler.Mnemonic(op))
  {
  }

  /** A line's command word is its leading lower-case run. */
  lemma CommandWord(m: string, rest: string)
    requires 0 < |m| <= MaxCmdLen && LowerWord(m)
    requires rest == [] || !IsLower(rest[0])
    ensures SkipSpaces(m + rest, 0) == 0 && LowerRun(m + rest, 0) == |m| && (m + rest)[0..|m|] == m
  {
    var s := m + rest;
    assert forall k :: 0 <= k < |m| ==> s[k] == m[k];
    assert |m| < |s| ==> s[|m|] == rest[0];
    LowerRunOver(s, 0, |m|);
  }

  /** `name:` registers the name and is a label line. */
  lemma LabelLine(name: string, t: seq<Label>)
    requires 0 < |name| <= MaxCmdLen && LowerWord(name)
    ensures ParseStrToCmd(name + ":", t) == (LabelDef(Register(t, name).0), Register(t, name).1)
  {
    CommandWord(name, ":");
  }

  /** `jmp name` and the other jumps register the name and carry its index. */
  lemma JumpLine(op: Opcode, name: string, t: seq<Label>)
    requires IsJump(Code(op)) && 0 < |name| < MaxLineLen && LowerWord(name)
    ensures ParseStrToCmd(Disassembler.Mnemonic(op) + " " + name, t)
         == (Jump(op, Register(t, name).0), Register(t, name).1)
  {
    MnemonicShape(op);
    ChooseCmdOfMnemonic(op);
    WordThenLabel(Disassembler.Mnemonic(op), op, name);
  }

  lemma WordThenLabel(m: string, op: Opcode, name: string)
    requires 0 < |m| <= 4 && LowerWord(m) && ChooseCmd(m) == Some(op) && IsJump(Code(op))
    requires 0 < |name| < MaxLineLen && LowerWord(name)
    ensures ShapeOf(m + " " + name) == JumpShape(op, name)
  {
    var rest := " " + name;
    var s := m + rest;
    assert m + " " + name == s;
    JumpWord(m, op, rest);
    assert s[|m|] == ' ';
    assert s[|m| + 1..] == name;
    JumpNameOver(s, |m|, name);
  }

  /** A jump mnemonic followed by anything but a letter or a colon */
  lemma JumpWord(m: string, op: Opcode, rest: string)
    requires 0 < |m| <= 4 && LowerWord(m) && ChooseCmd(m) == Some(op) && IsJump(Code(op))
    requires rest == [] || (!IsLower(rest[0]) && rest[0] != ':')
    ensures ShapeOf(m + rest) == JumpShape(op, JumpName(m + rest, |m|))
  {
    WordShape(m, rest);
  }


  lemma JumpNameOver(s: string, q: nat, name: string)
    requires q < |s| <= MaxCmdLen && s[q] == ' ' && s[q + 1..] == name
    requires 0 < |name| && LowerWord(name)
    ensures JumpName(s, q) == name
  {
    assert s[q + 1] == name[0];
    assert SkipSpaces(s, q + 1) == q + 1;
    assert SkipSpaces(s, q) == q + 1;
    forall k | q + 1 <= k < |s| ensures IsLower(s[k]) {
      assert s[k] == name[k - q - 1];
    }
    LowerRunOver(s, q + 1, |s|);
    assert s[q + 1..|s|] == name;
  }

  /** A mnemonic alone is a command without operands. */
  lemma BareLine(op: Opcode, t: seq<Label>)
    requires !IsJump(Code(op))
    ensures ParseStrToCmd(Disassembler.Mnemonic(op), t) == (Plain(op, false, None, None), t)
  {
    var m := Disassembler.Mnemonic(op);
    MnemonicShape(op);
    ChooseCmdOfMnemonic(op);
    BareShape(m, op);
  }

  /** A command word alone: no operand */
  lemma BareShape(m: string, op: Opcode)
    requires 0 < |m| <= 4 && LowerWord(m) && ChooseCmd(m) == Some(op) && !IsJump(Code(op))
    ensures ShapeOf(m) == OtherShape(Plain(op, false, None, None))
  {
    PlainWord(m, op, []);
    assert m + [] == m;
    assert SkipSpaces(m, |m|) == |m|;
  }

  /** `cmd operand`: the operand is the `%s` token after the mnemonic, parsed by parse_reg_and_arg. */
  lemma OperandLine(op: Opcode, o: string, t: seq<Label>)
    requires !IsJump(Code(op))
    requires 0 < |o| && o[0] != '[' && forall k :: 0 <= k < |o| ==> !IsSpace(o[k])
    ensures ParseStrToCmd(Disassembler.Mnemonic(op) + " " + o, t) == (Operands(op, false, ParseRegAndArg(o)), t)
  {
    MnemonicShape(op);
    ChooseCmdOfMnemonic(op);
    WordThenToken(Disassembler.Mnemonic(op), op, o);
  }

  /** A known non-jump mnemonic followed by a non-letter: the line is that command's operand part. */
  lemma PlainWord(m: string, op: Opcode, rest: string)
    requires 0 < |m| <= 4 && LowerWord(m) && ChooseCmd(m) == Some(op) && !IsJump(Code(op))
    requires rest == [] || (!IsLower(rest[0]) && rest[0] != ':')
    ensures ShapeOf(m + rest) == OtherShape(Operand(m + rest, |m|, op))
  {
    WordShape(m, rest);
  }

  /** A command word followed by anything but a letter or a colon: the rest is read after the word. */
  lemma WordShape(m: string, rest: string)
    requires 0 < |m| <= 4 && LowerWord(m)
    requires rest == [] || (!IsLower(rest[0]) && rest[0] != ':')
    ensures ShapeOf(m + rest) == CommandShape(m + rest, |m|, ChooseCmd(m))
  {
    CommandWord(m, rest);
    assert |m| < |m + rest| ==> (m + rest)[|m|] == rest[0];
  }

  lemma WordThenToken(m: string, op: Opcode, o: string)
    requires 0 < |m| <= 4 && LowerWord(m) && ChooseCmd(m) == Some(op) && !IsJump(Code(op))
    requires 0 < |o| && o[0] != '[' && forall k :: 0 <= k < |o| ==> !IsSpace(o[k])
    ensures ShapeOf(m + " " + o) == OtherShape(Operands(op, false, ParseRegAndArg(o)))
  {
    var s := m + " " + o;
    SpacedText(m, o);
    PlainWord(m, op, " " + o);
    TokenOperand(s, |m|, op, o);
  }

  lemma SpacedText(m: string, o: string)
    ensures var s := m + " " + o; s == m + (" " + o) && s[|m|] == ' ' && s[|m| + 1..] == o
  {
  }

  lemma TokenOperand(s: string, q: nat, op: Opcode, o: string)
    requires q < |s| && s[q] == ' ' && s[q + 1..] == o
    requires 0 < |o| && o[0] != '[' && forall k :: 0 <= k < |o| ==> !IsSpace(o[k])
    ensures Operand(s, q, op) == Operands(op, false, ParseRegAndArg(o))
  {
    assert s[q + 1] == o[0];
    assert SkipSpaces(s, q + 1) == q + 1;
    assert SkipSpaces(s, q) == q + 1;
    forall k | q + 1 <= k < |s| ensures !IsSpace(s[k]) {
      assert s[k] == o[k - q - 1];
    }
    TokenEndOver(s, q + 1, |s|);
    assert s[q + 1..TokenEnd(s, q + 1)] == o;
    assert Bracketed(s, q + 1) == None;
  }

  /** `cmd [operand]`: the same operand syntax inside brackets, with MEM set. */
  lemma BracketLine(op: Opcode, o: string, t: seq<Label>)
    requires !IsJump(Code(op))
    requires 0 < |o| && forall k :: 0 <= k < |o| ==> o[k] != ']'
    ensures ParseStrToCmd(Disassembler.Mnemonic(op) + " [" + o + "]", t) == (Operands(op, true, ParseRegAndArg(o)), t)
  {
    MnemonicShape(op);
    ChooseCmdOfMnemonic(op);
    WordThenBracket(Disassembler.Mnemonic(op), op, o);
  }

  lemma WordThenBracket(m: string, op: Opcode, o: string)
    requires 0 < |m| <= 4 && LowerWord(m) && ChooseCmd(m) == Some(op) && !IsJump(Code(op))
    requires 0 < |o| && forall k :: 0 <= k < |o| ==> o[k] != ']'
    ensures ShapeOf(m + " [" + o + "]") == OtherShape(Operands(op, true, ParseRegAndArg(o)))
  {
    var rest := " [" + o + "]";
    BracketText(m, o);
    PlainWord(m, op, rest);
    BracketOperand(m, op, o);
  }

  lemma BracketText(m: string, o: string)
    ensures m + " [" + o + "]" == m + (" [" + o + "]") && (" [" + o + "]")[0] == ' '
  {
  }

  lemma BracketOperand(m: string, op: Opcode, o: string)
    requires 0 < |o| && forall k :: 0 <= k < |o| ==> o[k] != ']'
    ensures Operand(m + (" [" + o + "]"), |m|, op) == Operands(op, true, ParseRegAndArg(o))
  {
    var s := m + (" [" + o + "]");
    var q := |m|;
    assert s[q] == ' ' && s[q + 1] == '[';
    assert SkipSpaces(s, q + 1) == q + 1;
    assert SkipSpaces(s, q) == q + 1;
    forall k | q + 2 <= k < |s| - 1 ensures s[k] != ']' {
      assert s[k] == o[k - q - 2];
    }
    assert s[|s| - 1] == ']';
    CloseBracketOver(s, q + 2, |s| - 1);
    assert s[q + 2..|s| - 1] == o;
    assert Bracketed(s, q + 1) == Some(o);
  }

  /**
   * is_jump leaves jbe out, so `jbe name` reads the name as an operand: a
   * name of two to six letters that is not a register is rejected.
   */
  lemma JbeRejectsLabel(name: string, t: seq<Label>)
    requires 2 <= |name| <= MaxRegLen + 1 && LowerWord(name) && GetRegNum(name) < 0
    ensures ParseStrToCmd("jbe " + name, t) == (Err, t)
  {
    JbeWord(name);
    WordOperand(name);
  }

  /** A longer name overflows the six-byte `reg_str` buffer: undefined behaviour. */
  lemma JbeLongLabelOverflows(name: string, t: seq<Label>)
    requires MaxRegLen + 1 < |name| < MaxLineLen && LowerWord(name)
    ensures ParseStrToCmd("jbe " + name, t) == (UndefParse, t)
  {
    JbeWord(name);
    WordOperand(name);
  }

  lemma JbeWord(name: string)
    requires 0 < |name| && LowerWord(name)
    ensures ShapeOf("jbe " + name) == OtherShape(Operands(JBE, false, ParseRegAndArg(name)))
  {
    JbeMnemonic();
    LowerNoSpace(name);
    WordThenToken("jbe", JBE, name);
    JbeText(name);
  }

  lemma JbeText(name: string)
    ensures "jbe " + name == "jbe" + " " + name
  {
  }

  /** A lower-case word holds no white space. */
  lemma LowerNoSpace(w: string)
    requires LowerWord(w)
    ensures forall k :: 0 <= k < |w| ==> !IsSpace(w[k])
  {
    forall k | 0 <= k < |w| ensures !IsSpace(w[k]) { assert IsLower(w[k]); }
  }

  lemma JbeMnemonic()
    ensures ChooseCmd("jbe") == Some(JBE) && LowerWord("jbe")
  {
    ChooseAt("jbe", 13);
  }

  /** parse_reg_and_arg on a lone word of two or more letters: a register name, a refusal, or an overflow. */
  lemma WordOperand(name: string)
    requires 2 <= |name| && LowerWord(name)
    ensures |name| > MaxRegLen + 1 ==> ParseRegAndArg(name) == Undef
    ensures |name| <= MaxRegLen + 1 && GetRegNum(name) < 0 ==> ParseRegAndArg(name) == Reject
  {
    assert !IsSpace(name[0]) && IsAlpha(name[0]);
    assert SkipSpaces(name, 0) == 0;
    AlphaRunOver(name, 0, |name|);
    assert name[0..|name|] == name;
  }
}
