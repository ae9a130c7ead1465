/**
 * The two-pass assembler of Processor/compiler.cpp, as functions: how a source
 * line is split off by fgets, how parse_str_to_cmd and parse_reg_and_arg read
 * it, how the 20-slot label table is consulted and updated, and what each line
 * writes into the byte-code buffer. The imperative rendering of the same steps
 * is in module CompilerMain and is proved equal to these functions.
 */
module Compiler {
  import opened Common
  import opened Encoding
  import Version

  const MaxLabelsNum: nat := 20
  const MaxLineLen: nat := 20
  const MaxCmdLen: nat := 32
  const MaxRegLen: nat := 5

  // ---------------------------------------------------------------------------
  // Lines as `fgets (str, MAX_LINE_LEN, input)` delivers them

  /** How many characters one fgets call takes: through the first newline, at most MAX_LINE_LEN - 1. */
  function ChunkLen(text: string, i: nat): (n: nat)
    requires i < |text| && i < MaxLineLen - 1
    ensures i < n <= |text| && n <= MaxLineLen - 1
    ensures forall k :: i <= k < n - 1 ==> text[k] != '\n'
    decreases |text| - i
  {
    if i + 1 == MaxLineLen - 1 || text[i] == '\n' || i + 1 == |text| then i + 1 else ChunkLen(text, i + 1)
  }

  /** The C string left in `str` once `strchr (str, '\n')` is overwritten: up to the first newline or NUL */
  function CLine(chunk: string): (s: string)
    ensures |s| <= |chunk| && s == chunk[..|s|]
    ensures forall i :: 0 <= i < |s| ==> s[i] != '\n' && s[i] != '\0'
    decreases |chunk|
  {
    if chunk == [] || chunk[0] == '\n' || chunk[0] == '\0' then [] else [chunk[0]] + CLine(chunk[1..])
  }

  /** The lines one pass over the input reads */
  function Lines(text: string): (ls: seq<string>)
    ensures forall k :: 0 <= k < |ls| ==> |ls[k]| < MaxLineLen
    decreases |text|
  {
    if text == [] then []
    else
      var n := ChunkLen(text, 0);
      [CLine(text[..n])] + Lines(text[n..])
  }

  // ---------------------------------------------------------------------------
  // Cursor movements over a line; past its end the line reads as NUL

  /** `while (islower (str[ptr]) && str[ptr] != '\0' && ptr != MAX_CMD_LEN)` */
  function LowerRun(s: string, i: nat): (j: nat)
    requires i <= |s|
    ensures i <= j <= |s|
    ensures forall k :: i <= k < j ==> IsLower(s[k])
    ensures j < |s| && j != MaxCmdLen ==> !IsLower(s[j])
    decreases |s| - i
  {
    if i < |s| && IsLower(s[i]) && i != MaxCmdLen then LowerRun(s, i + 1) else i
  }

  function AlphaRun(s: string, i: nat): (j: nat)
    requires i <= |s|
    ensures i <= j <= |s|
    ensures forall k :: i <= k < j ==> IsAlpha(s[k])
    ensures j < |s| ==> !IsAlpha(s[j])
    decreases |s| - i
  {
    if i < |s| && IsAlpha(s[i]) then AlphaRun(s, i + 1) else i
  }

  function DigitRun(s: string, i: nat): (j: nat)
    requires i <= |s|
    ensures i <= j <= |s|
    ensures forall k :: i <= k < j ==> IsDigit(s[k])
    ensures j < |s| ==> !IsDigit(s[j])
    decreases |s| - i
  {
    if i < |s| && IsDigit(s[i]) then DigitRun(s, i + 1) else i
  }

  /** The end of a `%s` token: the first white-space character */
  function TokenEnd(s: string, i: nat): (j: nat)
    requires i <= |s|
    ensures i <= j <= |s|
    ensures forall k :: i <= k < j ==> !IsSpace(s[k])
    ensures j < |s| ==> IsSpace(s[j])
    decreases |s| - i
  {
    if i < |s| && !IsSpace(s[i]) then TokenEnd(s, i + 1) else i
  }

  /** The first `]` at or after i, or the end */
  function CloseBracket(s: string, i: nat): (j: nat)
    requires i <= |s|
    ensures i <= j <= |s|
    ensures forall k :: i <= k < j ==> s[k] != ']'
    ensures j < |s| ==> s[j] == ']'
    decreases |s| - i
  {
    if i < |s| && s[i] != ']' then CloseBracket(s, i + 1) else i
  }

  // ---------------------------------------------------------------------------
  // Lookups

  /** The names `choose_cmd` compares against, in the order of its strcmp chain */
  const Commands: seq<(string, Opcode)> := [
    ("push", PUSH), ("pop", POP), ("add", ADD), ("sub", SUB), ("mul", MUL), ("div", DIV),
    ("in", IN), ("out", OUT), ("hlt", HLT), ("jmp", JMP), ("ja", JA), ("jae", JAE),
    ("jb", JB), ("jbe", JBE), ("je", JE), ("jne", JNE), ("call", CALL), ("ret", RET)]

  /** `choose_cmd`: the first name in the chain equal to w, or -1 (None) */
  function ChooseCmd(w: string): (r: Option<Opcode>)
    ensures r.Some? ==> (w, r.value) in Commands
    ensures r.None? ==> forall k :: 0 <= k < |Commands| ==> Commands[k].0 != w
  {
    ChooseFrom(Commands, w, 0)
  }

  /** The chain of comparisons from entry i of the table on */
  function ChooseFrom(table: seq<(string, Opcode)>, w: string, i: nat): (r: Option<Opcode>)
    requires i <= |table|
    ensures r.Some? ==> exists k :: i <= k < |table| && table[k] == (w, r.value)
    ensures r.None? ==> forall k :: i <= k < |table| ==> table[k].0 != w
    decreases |table| - i
  {
    if i == |table| then None
    else if table[i].0 == w then Some(table[i].1)
    else ChooseFrom(table, w, i + 1)
  }

  /** `get_reg_num`: `strncmp (reg, "ax", 2)` and so on, so only the first two characters count */
  function GetRegNum(w: string): (r: int)
    ensures -1 <= r < 4
    ensures r >= 0 <==> |w| >= 2 && 'a' <= w[0] <= 'd' && w[1] == 'x'
    ensures r >= 0 ==> r == w[0] as int - 'a' as int
  {
    var c0, c1 := At(w, 0), At(w, 1);
    if c0 == 'a' && c1 == 'x' then 0
    else if c0 == 'b' && c1 == 'x' then 1
    else if c0 == 'c' && c1 == 'x' then 2
    else if c0 == 'd' && c1 == 'x' then 3
    else -1
  }

  /** `is_jump`: CMD_JAE is listed twice and CMD_JBE never */
  predicate IsJump(cmd: Byte) {
    cmd == Code(JMP) || cmd == Code(JA) || cmd == Code(JAE) || cmd == Code(JB)
      || cmd == Code(JAE) || cmd == Code(JE) || cmd == Code(JNE) || cmd == Code(CALL)
  }

  // ---------------------------------------------------------------------------
  // parse_reg_and_arg

  /** What `parse_reg_and_arg` reports: the operands it found, a rejection (-1), or undefined behaviour */
  datatype RegArg = Parsed(arg: Option<int>, reg: Option<Byte>) | Reject | Undef

  /** `sscanf ("%d")` at a digit: the digit run's value, undefined when it does not fit in an int */
  function ScanInt(s: string, i: nat): (r: Option<(int, nat)>)
    requires i <= |s|
    ensures r.Some? ==> 0 <= r.value.0 < TWO31 && i <= r.value.1 <= |s|
  {
    var j := DigitRun(s, i);
    var v := DecimalValue(s[i..j]);
    if v < TWO31 then Some((v, j)) else None
  }

  /** Past white space, an optional `+`, and white space again */
  function SkipPlus(s: string, i: nat): (j: nat)
    requires i <= |s|
    ensures i <= j <= |s|
  {
    var p := SkipSpaces(s, i);
    SkipSpaces(s, if p < |s| && s[p] == '+' then p + 1 else p)
  }

  /**
   * `parse_reg_and_arg`: white space alone gives no operand; a decimal number
   * may be followed by `+` and a register token; a register may be followed by
   * `+` and a number. A `%s` token of more than 5 characters or a letter run of
   * more than 6 overflows `reg_str`, and a single letter a-d leaves `reg_str[1]`
   * unset for get_reg_num to read: those are undefined.
   */
  function ParseRegAndArg(s: string): (r: RegArg)
    ensures r.Parsed? && r.reg.Some? ==> r.reg.value < 4
    ensures r.Parsed? && r.arg.Some? ==> 0 <= r.arg.value < TWO31
  {
    var p := SkipSpaces(s, 0);
    if p == |s| then Parsed(None, None)
    else if IsDigit(s[p]) then NumberFirst(s, p)
    else if IsAlpha(s[p]) then RegisterFirst(s, p)
    else Reject
  }

  /** The operand from a digit at p on: a number, then optionally `+` and a register token */
  function NumberFirst(s: string, p: nat): (r: RegArg)
    requires p < |s| && IsDigit(s[p])
    ensures r.Parsed? ==> r.arg.Some? && 0 <= r.arg.value < TWO31
    ensures r.Parsed? && r.reg.Some? ==> r.reg.value < 4
  {
    match ScanInt(s, p)
    case None => Undef
    case Some((v, q)) =>
      if SkipSpaces(s, q) == |s| then Parsed(Some(v), None)
      else
        var p2 := SkipPlus(s, q);
        if p2 == |s| || !IsAlpha(s[p2]) then Reject
        else
          var t := TokenEnd(s, p2);
          if t - p2 > MaxRegLen then Undef
          else if GetRegNum(s[p2..t]) < 0 then Reject
          else Parsed(Some(v), Some(GetRegNum(s[p2..t]) as Byte))
  }

  /** The operand from a letter at p on: a register, then optionally `+` and a number */
  function RegisterFirst(s: string, p: nat): (r: RegArg)
    requires p < |s| && IsAlpha(s[p])
    ensures r.Parsed? ==> r.reg.Some? && r.reg.value < 4
    ensures r.Parsed? && r.arg.Some? ==> 0 <= r.arg.value < TWO31
  {
    var q := AlphaRun(s, p);
    if q - p > MaxRegLen + 1 || (q - p == 1 && 'a' <= s[p] <= 'd') then Undef
    else if GetRegNum(s[p..q]) < 0 then Reject
    else
      var reg := GetRegNum(s[p..q]) as Byte;
      if SkipSpaces(s, q) == |s| then Parsed(None, Some(reg))
      else
        var p2 := SkipPlus(s, q);
        if p2 < |s| && IsDigit(s[p2]) then
          match ScanInt(s, p2)
          case None => Undef
          case Some((v, _)) => Parsed(Some(v), Some(reg))
        else Reject
  }

  // ---------------------------------------------------------------------------
  // The label table

  datatype Status = LabelEmpty | LabelNameOnly | LabelShiftOnly | LabelValid

  datatype Label = Label(status: Status, shift: int, name: string)

  const NoLabel: Label := Label(LabelEmpty, -1, "")

  /** The table before the first line: every slot empty */
  function EmptyTable(): (t: seq<Label>)
    ensures |t| == MaxLabelsNum
    ensures forall i :: 0 <= i < |t| ==> t[i] == NoLabel
  {
    seq(MaxLabelsNum, _ => NoLabel)
  }

  /**
   * `register_label_by_name`, continuing at slot i: a VALID or NAME_ONLY slot
   * holding the name answers; any other such slot is passed; SHIFT_ONLY is an
   * error; the first EMPTY slot is claimed for the name.
   */
  function RegisterFrom(t: seq<Label>, name: string, i: nat): (r: (int, seq<Label>))
    requires i <= |t|
    ensures -1 <= r.0 < |t| && |r.1| == |t|
    ensures r.0 == -1 ==> r.1 == t
    decreases |t| - i
  {
    if i == |t| then (-1, t)
    else match t[i].status
      case LabelValid => if t[i].name == name then (i, t) else RegisterFrom(t, name, i + 1)
      case LabelNameOnly => if t[i].name == name then (i, t) else RegisterFrom(t, name, i + 1)
      case LabelShiftOnly => (-1, t)
      case LabelEmpty => (i, t[i := t[i].(status := LabelNameOnly, name := name)])
  }

  function Register(t: seq<Label>, name: string): (r: (int, seq<Label>))
    ensures -1 <= r.0 < |t| && |r.1| == |t|
  {
    RegisterFrom(t, name, 0)
  }

  /** `verify_labels`: every slot is either VALID or EMPTY */
  predicate AllResolved(t: seq<Label>) {
    forall i :: 0 <= i < |t| ==> t[i].status == LabelValid || t[i].status == LabelEmpty
  }

  // ---------------------------------------------------------------------------
  // parse_str_to_cmd

  /** What parse_str_to_cmd returns, with what it leaves in `*cmd_ptr`, `*arg_ptr` and `*reg_num_ptr` */
  datatype Parse =
    | Plain(op: Opcode, mem: bool, arg: Option<int>, reg: Option<Byte>)   // RET_CMD, not a jump
    | Jump(op: Opcode, index: int)           // RET_CMD for a jump: the label index, or -1
    | LabelDef(index: int)                   // RET_LABEL: the label index, or -1
    | Err                                    // RET_ERR
    | UndefParse
  {
    /** `*cmd_ptr`: the opcode with IMM, REG and MEM as the operands call for */
    function Cmd(): Byte
      requires Plain? || Jump?
    {
      if Plain? then Instruction(op, arg.Some?, reg.Some?, mem) else Code(op)
    }
  }

  /** `sscanf (str + p, "[%[^]]]%n", ...)` succeeds: `[`, at least one character other than `]`, then `]` */
  function Bracketed(s: string, p: nat): (r: Option<string>)
    requires p <= |s|
  {
    if p < |s| && s[p] == '[' then
      var e := CloseBracket(s, p + 1);
      if e > p + 1 && e < |s| then Some(s[p + 1..e]) else None
    else None
  }

  /** The outcome of parse_reg_and_arg on a command's operand: a negative result is RET_ERR */
  function Operands(op: Opcode, mem: bool, a: RegArg): (r: Parse)
  {
    match a
    case Reject => Err
    case Undef => UndefParse
    case Parsed(arg, reg) => Plain(op, mem, arg, reg)
  }

  /**
   * `parse_str_to_cmd` before it consults the label table: a lower-case word;
   * a `:` after it makes the line a label definition; otherwise the word must
   * be a mnemonic. A jump takes the next lower-case word as its label;
   * anything else takes, after white space, nothing, a bracketed operand (MEM)
   * or one `%s` token as its operand.
   */
  datatype Shape = DefShape(name: string) | JumpShape(op: Opcode, name: string) | OtherShape(p: Parse)

  function ShapeOf(s: string): (r: Shape)
    ensures r.JumpShape? ==> IsJump(Code(r.op))
    ensures r.OtherShape? ==> r.p.Plain? || r.p.Err? || r.p.UndefParse?
    ensures r.OtherShape? && r.p.Plain? ==> !IsJump(Code(r.p.op))
    ensures r.OtherShape? && r.p.Plain? && r.p.reg.Some? ==> r.p.reg.value < 4
    ensures r.OtherShape? && r.p.Plain? && r.p.arg.Some? ==> 0 <= r.p.arg.value < TWO31
  {
    var p := SkipSpaces(s, 0);
    var q := LowerRun(s, p);
    if q < |s| && s[q] == ':' then DefShape(s[p..q])
    else CommandShape(s, q, ChooseCmd(s[p..q]))
  }

  /** The line after its first word, which choose_cmd mapped to op (or to nothing) */
  function CommandShape(s: string, q: nat, op: Option<Opcode>): (r: Shape)
    requires q <= |s|
    ensures r.JumpShape? ==> IsJump(Code(r.op))
    ensures r.OtherShape? ==> r.p.Plain? || r.p.Err? || r.p.UndefParse?
    ensures r.OtherShape? && r.p.Plain? ==> !IsJump(Code(r.p.op))
    ensures r.OtherShape? && r.p.Plain? && r.p.reg.Some? ==> r.p.reg.value < 4
    ensures r.OtherShape? && r.p.Plain? && r.p.arg.Some? ==> 0 <= r.p.arg.value < TWO31
  {
    match op
    case None => OtherShape(Err)
    case Some(o) => if IsJump(Code(o)) then JumpShape(o, JumpName(s, q)) else OtherShape(Operand(s, q, o))
  }

  /** `parse_str_to_cmd`: a label definition or a jump registers its name in the table. */
  function ParseStrToCmd(s: string, t: seq<Label>): (r: (Parse, seq<Label>))
    ensures |r.1| == |t|
    ensures r.0.Jump? ==> IsJump(Code(r.0.op))
    ensures r.0.Plain? ==> !IsJump(Code(r.0.op))
    ensures r.0.Plain? && r.0.reg.Some? ==> r.0.reg.value < 4
    ensures r.0.Plain? && r.0.arg.Some? ==> 0 <= r.0.arg.value < TWO31
  {
    Resolve(ShapeOf(s), t)
  }

  /** A label definition or a jump looks its name up in the table (and registers it) */
  function Resolve(sh: Shape, t: seq<Label>): (r: (Parse, seq<Label>))
    ensures |r.1| == |t|
    ensures sh.OtherShape? ==> r == (sh.p, t)
    ensures sh.DefShape? ==> r.0.LabelDef?
    ensures sh.JumpShape? ==> r.0.Jump? && r.0.op == sh.op
  {
    match sh
    case DefShape(name) => var (i, t1) := Register(t, name); (LabelDef(i), t1)
    case JumpShape(op, name) => var (i, t1) := Register(t, name); (Jump(op, i), t1)
    case OtherShape(p) => (p, t)
  }

  /** After a jump's mnemonic: the next lower-case word names its label. */
  function JumpName(s: string, q: nat): (name: string)
    requires q <= |s|
    ensures forall k :: 0 <= k < |name| ==> IsLower(name[k])
  {
    var p1 := SkipSpaces(s, q);
    s[p1..LowerRun(s, p1)]
  }

  /** After any other mnemonic: nothing, `[` operand `]`, or one `%s` token. */
  function Operand(s: string, q: nat, op: Opcode): (r: Parse)
    requires q <= |s|
    ensures r.Plain? ==> r.op == op
    ensures r.Plain? && r.reg.Some? ==> r.reg.value < 4
    ensures r.Plain? && r.arg.Some? ==> 0 <= r.arg.value < TWO31
  {
    var p1 := SkipSpaces(s, q);
    if p1 == |s| then Plain(op, false, None, None)
    else
      match Bracketed(s, p1)
      case Some(inner) => Operands(op, true, ParseRegAndArg(inner))
      case None => Operands(op, false, ParseRegAndArg(s[p1..TokenEnd(s, p1)]))
  }

  // ---------------------------------------------------------------------------
  // One line of a pass, and the passes

  /** The buffer with `bytes` written at pc; calloc'ed bytes not yet written read as zero */
  function WriteAt(buf: seq<Byte>, pc: nat, bytes: seq<Byte>): (r: seq<Byte>)
    ensures |r| == if |buf| >= pc + |bytes| then |buf| else pc + |bytes|
    ensures r[pc..pc + |bytes|] == bytes
    ensures forall i :: 0 <= i < |r| && !(pc <= i < pc + |bytes|) ==> r[i] == if i < |buf| then buf[i] else 0
  {
    var padded := Pad(buf, pc + |bytes|);
    padded[..pc] + bytes + padded[pc + |bytes|..]
  }

  function Pad(buf: seq<Byte>, n: nat): (r: seq<Byte>)
    ensures |r| == if |buf| >= n then |buf| else n
    ensures forall i :: 0 <= i < |r| ==> r[i] == if i < |buf| then buf[i] else 0
  {
    if |buf| >= n then buf else buf + seq(n - |buf|, _ => 0)
  }

  /** The bytes of a non-jump command: opcode, 4-byte argument when IMM, register byte when REG */
  function PlainBytes(cmd: Byte, arg: Option<int>, reg: Option<Byte>): (b: seq<Byte>)
    ensures |b| == 1 + (if arg.Some? then 4 else 0) + (if reg.Some? then 1 else 0)
    ensures b[0] == cmd
  {
    [cmd] + (if arg.Some? then Int32Bytes(arg.value) else []) + (if reg.Some? then [reg.value] else [])
  }

  datatype Pass = Pass(table: seq<Label>, buf: seq<Byte>, pc: nat) | Failed | Undefined

  /**
   * One iteration of the `while (fgets ...)` loop of main. `buf` holds the
   * bytes written so far; the calloc'ed buffer reads as zero beyond it.
   */
  function LineStep(st: Pass, line: string): (r: Pass)
    requires st.Pass? && |st.table| == MaxLabelsNum
    ensures r.Pass? ==> |r.table| == MaxLabelsNum && st.pc <= r.pc && |r.buf| >= |st.buf|
  {
    Act(st, ParseStrToCmd(line, st.table))
  }

  /** What main does with the outcome of parse_str_to_cmd */
  function Act(st: Pass, r: (Parse, seq<Label>)): (next: Pass)
    requires st.Pass? && |r.1| == MaxLabelsNum
    ensures next.Pass? ==> |next.table| == MaxLabelsNum && st.pc <= next.pc && |next.buf| >= |st.buf|
  {
    var (parsed, t) := r;
    match parsed
    case LabelDef(i) => if 0 <= i < MaxLabelsNum then DefineLabel(t, st.buf, st.pc, i) else Undefined
    case Jump(op, i) => if 0 <= i < MaxLabelsNum then EmitJump(t, st.buf, st.pc, Code(op), i) else Undefined
    case Plain(_, _, arg, reg) => EmitPlain(t, st.buf, st.pc, parsed.Cmd(), arg, reg)
    case Err => Failed
    case UndefParse => Undefined
  }

  /** `labels[arg].shift = (int) pc; labels[arg].status = LABEL_VALID;`, and no bytes */
  function DefineLabel(t: seq<Label>, buf: seq<Byte>, pc: nat, i: nat): (r: Pass)
    requires i < |t|
    ensures r.Pass? && r.buf == buf && r.pc == pc && |r.table| == |t|
    ensures r.table[i] == Label(LabelValid, Wrap32(pc), t[i].name)
    ensures forall k :: 0 <= k < |t| && k != i ==> r.table[k] == t[k]
  {
    Pass(t[i := t[i].(shift := Wrap32(pc), status := LabelValid)], buf, pc)
  }

  /** A jump: the opcode, then the label's shift if it is already VALID, else four untouched bytes */
  function EmitJump(t: seq<Label>, buf: seq<Byte>, pc: nat, cmd: Byte, i: nat): (r: Pass)
    requires i < |t|
    ensures r.Pass? && r.table == t && r.pc == pc + 5 && |r.buf| >= |buf|
  {
    var b := WriteAt(buf, pc, [cmd]);
    Pass(t, if t[i].status == LabelValid then WriteAt(b, pc + 1, Int32Bytes(t[i].shift)) else b, pc + 5)
  }

  /** Any other command: its bytes at pc */
  function EmitPlain(t: seq<Label>, buf: seq<Byte>, pc: nat, cmd: Byte, arg: Option<int>, reg: Option<Byte>): (r: Pass)
    ensures r.Pass? && r.table == t && |r.buf| >= |buf|
    ensures r.pc == pc + |PlainBytes(cmd, arg, reg)|
  {
    var bytes := PlainBytes(cmd, arg, reg);
    Pass(t, WriteAt(buf, pc, bytes), pc + |bytes|)
  }

  /** The loop over all lines of one pass */
  function RunPass(st: Pass, lines: seq<string>): (r: Pass)
    requires st.Pass? && |st.table| == MaxLabelsNum
    ensures r.Pass? ==> |r.table| == MaxLabelsNum && st.pc <= r.pc
    decreases |lines|
  {
    if lines == [] then st
    else
      var next := LineStep(st, lines[0]);
      if next.Pass? then RunPass(next, lines[1..]) else next
  }

  datatype Assembled = Written(file: seq<Byte>) | Aborted | UndefinedBehaviour

  /**
   * main: pass one from an empty table, abort unless every label is VALID or
   * EMPTY, pass two over the same lines with that table and the same buffer,
   * then the header and the `pc` bytes of byte code.
   */
  function Assemble(text: string): (r: Assembled)
    ensures r.Written? ==> Version.CheckSignAndVer(Some(r.file)) == Version.HeaderLength
  {
    AssembleLines(Lines(text))
  }

  /** The two passes of main over the lines fgets reads */
  function AssembleLines(lines: seq<string>): (r: Assembled)
    ensures r.Written? ==> Version.CheckSignAndVer(Some(r.file)) == Version.HeaderLength
  {
    match RunPass(Pass(EmptyTable(), [], 0), lines)
    case Failed => Aborted
    case Undefined => UndefinedBehaviour
    case Pass(t1, b1, _) =>
      if !AllResolved(t1) then Aborted
      else match RunPass(Pass(t1, b1, 0), lines)
        case Failed => Aborted
        case Undefined => UndefinedBehaviour
        case Pass(_, b2, pc2) =>
          var file := Version.WriteSignAndVer(Some([])).contents + Pad(b2, pc2)[..pc2];
          assert file[..Version.HeaderLength] == Version.Header;
          Written(file)
  }
}
