# ShareMIPT in Dafny

This project models the executable core of the ShareMIPT exercises and proves
properties about that model. Every C++ component is stated in Dafny's terms.
Code that updates state in place becomes classes and methods over arrays and
fields. Each method is proved to produce what a specification function of the
old state describes. Code that only computes becomes functions and lemmas.

- **Processor**: a toy stack machine.
  - `Encoding` holds the instruction byte layout: a 5-bit opcode plus IMM, REG and MEM flags, and little-endian 32-bit ints.
  - `Registers` holds the register names.
  - `Version` holds the `KMv4` file header.
  - `Decode` holds the instruction decoder that the disassembler (`Disassembler`) and the hex listing (`Listing`) share.
  - The two-pass assembler is split across four modules:
    - `Compiler`: the line parser, the 20-slot label table and the byte emitter, as functions;
    - `CompilerMain`: the same steps as an `Assembler` object with its label array and byte-code buffer;
    - `CompilerFacts`: single-line facts;
    - `CompilerPasses`: what the two passes write.
  - The interpreter loop comes in two forms:
    - `Processor`: a step function, a fuel-bounded run, and a `Machine` object whose fields are pc, the registers, the RAM and the stack;
    - `ProcessorFacts`: per-instruction facts.
  - The interpreter has an explicit outcome for what C leaves undefined: a signed overflow, a read past the end of the byte code, or an index outside `regs` or `ram`. A step that reaches it is `Undefined` and a run is `Crashed`. Nothing else is claimed about such a run.
- **Stack** (`Stack`): a growable stack of raw elements. It has capacity doubling and halving between MIN_CAP and MAX_CAP, struct canaries, the XOR data hash, and `check_stack` as its validity test.
- **List**: an array-backed doubly linked list with a sentinel slot and a free chain.
  - `ArrayList` gives each operation as a function on the array contents, together with the representation invariant.
  - `ListObject` performs the same writes on real arrays.
- **Score table** (`ScoreTable`): a triangular array holding one cell per unordered pair of teams.
- **Onegin** (`Onegin`, with `Sorting` for the `qsort` contract): command-line keys, splitting a text into lines, the two line orders, the keyed sort and the lines `print_text` writes.
- **Akinator** (`Akinator`): the knowledge-base tree, covering:
  - its brace-format reader and writer;
  - the path search;
  - the game walk;
  - adding a new object.
- **Differentiator**:
  - `DiffTree`: the expression tree and its parenthesised reader;
  - `DiffCalc`: the derivative rules, the constant-subtree test, tree copy and the algebraic simplifier.

## Model

| member | source | states |
|---|---|---|
| Common.Reversed | Onegin/onegin_toolkit.cpp:390-410 | the sequence read last to first: same length, element i is element n-1-i of the input |
| Common.ToLower | Onegin/onegin_toolkit.cpp:291-292 | `tolower` of an unsigned char: upper-case letters move up by 32, every other character is unchanged, and only NUL maps to 0 |
| Common.NatToDecimal | Processor/disassembler.cpp:109 | `%u` text: non-empty and made of decimal digits only |
| Common.IntToDecimal | Processor/disassembler.cpp:109 | `%d` text: the digits of the magnitude, with a leading minus sign exactly for negative values |
| Common.DigitValue | Processor/compiler.cpp:378-385 | a digit's value is below 10 and prints back as the same digit |
| Common.DecimalRoundTrip | Processor/compiler.cpp:378-385 | reading back the decimal text of n gives n |
| Common.Hex | Processor/listing.cpp:229-240 | `%0Nx` text is at least N lower-case hexadecimal digits and reads back as the number |
| Common.HexDigit | Processor/listing.cpp:229-240 | one `%x` digit is a lower-case hexadecimal digit that reads back as its value |
| Common.SkipSpaces | Akinator/akinator.cpp:172 | the cursor after the blanks stays in the buffer and stops at a character that is not a space |
| Common.SkippedBlank | Akinator/akinator.cpp:172 | every character the cursor moved over is a space |
| Common.SkipWhitespace | Akinator/akinator.cpp:172 | the `while (isspace (buf[*ptr])) (*ptr)++` loop stops where SkipSpaces says |
| Encoding.Code | Processor/processor.h:11-31 | the enum value of an opcode is its index in the enum |
| Encoding.Field | Processor/processor.h:9 | `b & CMD` is below 32 |
| Encoding.OpcodeOf | Processor/processor.h:9-31 | the masked field names an opcode exactly when it is below 18, and then that opcode's enum value is the field |
| Encoding.CodeOfOpcodes | Processor/processor.h:11-31 | the enum numbers the opcodes 0 to 17 in order |
| Encoding.InstructionFields | Processor/processor.h:6-9 | the opcode and the IMM, REG and MEM flags are recovered intact from an instruction byte built from them |
| Encoding.ZeroIsHalt | Processor/processor.h:13 | the zero byte is `hlt` |
| Encoding.UnknownOpcodes | Processor/processor.h:11-31 | masked values 18 to 31 name no opcode |
| Encoding.Int32Bytes | Processor/listing.cpp:229-236 | an int is written as four bytes |
| Encoding.Unsigned32 | Processor/listing.cpp:230 | `(unsigned int) x` is below 2^32, is x for non-negative x and x + 2^32 for negative 32-bit x |
| Encoding.LittleEndian | Processor/processor.cpp:97 | four bytes read lowest first form a value below 2^32 |
| Encoding.Int32Of | Processor/processor.cpp:97 | the signed value of four bytes is a 32-bit int whose unsigned form is the little-endian value |
| Encoding.ReadInt32 | Processor/processor.cpp:97 | `*(int *)(code + pc)` is defined exactly when four bytes remain, and then yields a 32-bit int |
| Encoding.Wrap32 | Processor/compiler.cpp:107 | `(int)` of an unsigned pc, as the label shifts and the call return offset take it: a 32-bit int congruent to pc modulo 2^32, equal to pc below 2^31 |
| Encoding.Int32RoundTrip | Processor/compiler.cpp:148-152 | splitting a 32-bit value into its four bytes and joining them again gives the value back |
| Encoding.BytesOfInt32 | Processor/processor.cpp:97 | joining four bytes and splitting the value again gives the same four bytes |
| Encoding.ReadAfterWrite | Processor/processor.cpp:97 | reading four bytes that hold the encoding of x yields x |
| Encoding.BytesOfRead | Processor/listing.cpp:229-236 | the bytes of the value read at pc are the bytes stored at pc |
| Encoding.SignedByte | Processor/processor.cpp:103 | a byte read through a signed `char` lies in -128..127 and is the byte itself or the byte minus 256 |
| Registers.RegName | Processor/registers.cpp:8-15 | `get_reg_name` gives a name exactly for 0..3, and that name is the letter a+n followed by `x` |
| Registers.RegNameInjective | Processor/registers.cpp:8-15 | two register numbers with the same name are the same number |
| Version.WriteSignAndVer | Processor/version.cpp:11-30 | status 1 without a file; otherwise status 0, the header "KMv4" at the start and every later byte kept |
| Version.CheckSignAndVer | Processor/version.cpp:32-71 | the result is 4 or -1, and it is 4 exactly when the file exists and starts with "KMv4" |
| Version.Payload | Processor/version.cpp:32-71 | the byte code after the header exists exactly when the header check passes, and the file is the header followed by it |
| Version.WriteThenCheck | Processor/version.cpp:11-71 | a header written by the assembler passes the processor's check, and the rest of the file is the byte code |
| Version.BadSignatureRefused | Processor/version.cpp:57-61 | a file whose first two bytes are not "KM" is refused |
| Decode.Encode | Processor/compiler.cpp:118-156 | an instruction occupies Size bytes, the first being its opcode byte |
| Decode.Size | Processor/compiler.cpp:118-156 | an instruction takes 1 to 6 bytes |
| Decode.DecodeAt | Processor/disassembler.cpp:79-214 | one pass of the decoding loop: a decoded instruction is well formed, starts with the byte at pc and ends inside the code; the command is unknown exactly when the opcode field names no opcode |
| Decode.DecodedBytes | Processor/disassembler.cpp:79-214 | the bytes a decoded instruction spans are exactly its encoding |
| Decode.DecodeEncode | Processor/disassembler.cpp:79-214 | the encoding of a well-formed instruction decodes back to it, whatever surrounds it |
| Decode.DecodeFrom | Processor/disassembler.cpp:78-215 | the instructions the loop visits from pc; a rejection is reported at an offset inside the code |
| Decode.StopsAt | Processor/disassembler.cpp:78-215 | once the loop has visited `done` and cannot go on, the visit list is `done` and the stop reason is end of code, overrun or rejection at pc |
| Decode.DecodeTiles | Processor/disassembler.cpp:78-215 | a run that reaches the end visits consecutive instructions whose encodings concatenate to the byte code |
| Decode.EncodeAllDecodes | Processor/disassembler.cpp:78-215 | decoding a concatenation of well-formed encodings yields exactly those instructions and reaches the end |
| Decode.Items | Processor/disassembler.cpp:78-84 | instructions laid one after another from pc keep their order and are consecutive |
| Disassembler.Mnemonic | Processor/disassembler.cpp:143-205 | every mnemonic has at least two letters |
| Disassembler.Line | Processor/disassembler.cpp:101-205 | the layout of a line: push and pop print the mnemonic, a blank and the operand; jumps and call the mnemonic, a blank and the `%d` target; the rest the mnemonic alone (what the layout says is stated by DisassemblerFacts) |
| Disassembler.Lines | Processor/disassembler.cpp:78-215 | one line per visited instruction, in order |
| Disassembler.Expected | Processor/disassembler.cpp:78-220 | the output is undefined exactly when the last instruction runs past the code; otherwise one line per decoded instruction, and exit code 0 exactly when the code ends on an instruction boundary |
| Disassembler.Disassemble | Processor/disassembler.cpp:78-220 | the loop prints a line for every instruction the decoder visits, in order, and exits 0 at the end of the code and 1 at an unknown command or a wrong register |
| Disassembler.LinesSnoc | Processor/disassembler.cpp:78-215 | one more instruction adds one more line at the end |
| DisassemblerFacts.OperandBrackets | Processor/disassembler.cpp:101-141 | push and pop bracket the register, `+` and immediate exactly when MEM is set |
| DisassemblerFacts.InnerChars | Processor/disassembler.cpp:104-109 | between the brackets there are only lower-case letters, digits and `+` |
| DisassemblerFacts.InnerReadsBack | Processor/disassembler.cpp:104-109 | parse_reg_and_arg reads the printed register and non-negative immediate back as that register and immediate |
| DisassemblerFacts.ByteOfFlags | Processor/compiler.cpp:148-156 | a decoded byte is rebuilt by the assembler from its opcode and its three flags |
| DisassemblerFacts.OperandLineReadsBack | Processor/disassembler.cpp:101-141 | a push or pop line with register below 4 and a non-negative immediate parses back to the same opcode, addressing mode, register and immediate, and a well-formed one is assembled to the same first byte |
| DisassemblerFacts.MemLineReadsBack | Processor/disassembler.cpp:101-112 | `cmd [operand]` reads back with MEM set |
| DisassemblerFacts.TokenLineReadsBack | Processor/disassembler.cpp:101-112 | `cmd operand` reads back with MEM clear |
| DisassemblerFacts.BareOperand | Processor/disassembler.cpp:101 | `push ` with nothing after the blank reads back as the command with no operand |
| DisassemblerFacts.BareLineReadsBack | Processor/disassembler.cpp:143-205 | a command without operands prints its mnemonic, which the assembler reads back as that command |
| DisassemblerFacts.SignedDecimal | Processor/disassembler.cpp:167 | `%d` of v after a prefix: a minus sign exactly for negative v, then digits whose value is the magnitude of v |
| DisassemblerFacts.TargetLine | Processor/disassembler.cpp:164-199 | a jump or call prints its mnemonic, a blank and the target: a minus sign exactly for a negative target, then digits whose value is its magnitude |
| Listing.UpperMnemonic | Processor/listing.cpp:106-188 | the listing names each opcode by the disassembler's mnemonic, letter for letter in upper case, with no lower-case letter left |
| Listing.ArgByteText | Processor/listing.cpp:215-236 | each argument column is two characters wide |
| Listing.RegByteText | Processor/listing.cpp:221-240 | the register column is two characters wide |
| Listing.HexByte | Processor/listing.cpp:229-240 | `%02x` of a byte is two hexadecimal digits that read back as the byte |
| Listing.Columns | Processor/listing.cpp:262-271 | for offsets below 0x10000 the columns before the mnemonic are 33 characters wide, start with the offset and show the opcode byte in characters 6 and 7 |
| Listing.Hex4 | Processor/listing.cpp:262-263 | `%04lx` of an offset is at least four hexadecimal digits, exactly four below 0x10000, and reads back as the offset |
| Listing.HexAppendByte | Processor/listing.cpp:262-263 | two more hexadecimal digits at the end multiply the value by 256 and add theirs |
| Listing.Row | Processor/listing.cpp:262-278 | for offsets below 0x10000 a row holds the offset in characters 0-3, the opcode byte in 6-7, and the upper-case mnemonic and a blank from character 33 on |
| Listing.Expected | Processor/listing.cpp:82-203 | the listing is undefined exactly when the last instruction runs past the code; otherwise it has one row per decoded instruction and exits 0 exactly when the code ends on an instruction boundary |
| Listing.Rows | Processor/listing.cpp:82-198 | one row per visited instruction, each with the offset of its opcode byte |
| Listing.List | Processor/listing.cpp:82-203 | the loop prints a row for every instruction the decoder visits and exits 0 at the end of the code and 1 at an unknown command or a wrong register |
| Listing.RowsSnoc | Processor/listing.cpp:82-198 | one more instruction adds one more row at the end |
| Listing.ArgColumnsAreCodeBytes | Processor/listing.cpp:228-236 | the four argument columns show the four bytes after the opcode, in file order |
| Listing.RegColumnIsCodeByte | Processor/listing.cpp:239-240 | the register column shows the last byte of the instruction |
| Listing.HexByteInjective | Processor/listing.cpp:229-240 | different bytes print different `%02x` columns |
| Compiler.ChunkLen | Processor/compiler.cpp:97 | one `fgets` call takes at least one character, stops after the first newline and takes at most MAX_LINE_LEN - 1 characters |
| Compiler.CLine | Processor/compiler.cpp:98-100 | the C string left after the newline is cut is a prefix of the chunk holding no newline and no NUL |
| Compiler.Lines | Processor/compiler.cpp:97-100 | every line a pass reads is shorter than MAX_LINE_LEN |
| Compiler.LowerRun | Processor/compiler.cpp:211-218 | the command-word loop passes only lower-case letters and stops at a non-lower-case character or at MAX_CMD_LEN |
| Compiler.AlphaRun | Processor/compiler.cpp:414-419 | the register-name loop passes only letters and stops at the first non-letter |
| Compiler.DigitRun | Processor/compiler.cpp:379 | the digits `%d` consumes are all digits and end at a non-digit |
| Compiler.TokenEnd | Processor/compiler.cpp:265 | a `%s` token holds no white space and ends at white space or at the end |
| Compiler.CloseBracket | Processor/compiler.cpp:255 | `%[^]]` stops at the first `]` |
| Compiler.ChooseFrom | Processor/compiler.cpp:319-361 | the strcmp chain answers an opcode only when an entry pairs the word with it, and answers nothing only when no entry holds the word |
| Compiler.ChooseCmd | Processor/compiler.cpp:319-361 | choose_cmd answers an opcode only when the table pairs the word with it, and nothing only when no entry holds the word |
| Compiler.GetRegNum | Processor/compiler.cpp:453-460 | `get_reg_num` is 0..3 exactly when the first two characters are a..d followed by `x`, and then it is the letter's distance from `a`; otherwise -1 |
| Compiler.ScanInt | Processor/compiler.cpp:379 | a scanned number is non-negative, fits in an int, and the cursor moves forward |
| Compiler.SkipPlus | Processor/compiler.cpp:387-394 | skipping blanks and an optional `+` never moves the cursor back or out of the line |
| Compiler.ParseRegAndArg | Processor/compiler.cpp:364-451 | a parsed register is below 4 and a parsed argument is a non-negative int |
| Compiler.NumberFirst | Processor/compiler.cpp:378-411 | the digit branch always yields an argument, a non-negative int, and any register is below 4 |
| Compiler.RegisterFirst | Processor/compiler.cpp:412-446 | the letter branch always yields a register below 4, and any argument is a non-negative int |
| Compiler.EmptyTable | Processor/compiler.cpp:34-41 | the label table starts as MAX_LABELS_NUM empty slots |
| Compiler.RegisterFrom | Processor/compiler.cpp:286-316 | the search returns -1 or a slot index, keeps the table's size, and changes nothing when it fails |
| Compiler.Register | Processor/compiler.cpp:282-317 | `register_label_by_name` returns -1 or a slot index and keeps the table's size |
| Compiler.ShapeOf | Processor/compiler.cpp:208-280 | a line is a label definition, a jump whose opcode is_jump accepts, or another command that is no jump, with a register below 4 and a non-negative argument, or an error |
| Compiler.CommandShape | Processor/compiler.cpp:223-280 | the same classification for the line after its command word |
| Compiler.ParseStrToCmd | Processor/compiler.cpp:194-280 | `parse_str_to_cmd` keeps the table's size, returns jumps only for is_jump opcodes and commands only for the others, with a register below 4 and a non-negative argument |
| Compiler.Resolve | Processor/compiler.cpp:219-221 | a label definition and a jump look their name up in the table; any other line leaves the table alone |
| Compiler.JumpName | Processor/compiler.cpp:231-243 | the label name after a jump is a run of lower-case letters |
| Compiler.Operand | Processor/compiler.cpp:248-277 | the operand part keeps the command's opcode, with a register below 4 and a non-negative argument |
| Compiler.WriteAt | Processor/compiler.cpp:148-156 | writing bytes at pc into the calloc'ed buffer places them there and leaves every other byte as it was, zero where nothing was written |
| Compiler.Pad | Processor/compiler.cpp:88 | the zero-filled buffer extends what was written with zeros |
| Compiler.PlainBytes | Processor/compiler.cpp:148-156 | a non-jump command takes its opcode byte, four bytes when IMM and one byte when REG |
| Compiler.LineStep | Processor/compiler.cpp:97-159 | one iteration of the line loop keeps the table's size and never moves pc back or shrinks the buffer |
| Compiler.Act | Processor/compiler.cpp:102-156 | what main does with a parsed line keeps the table's size and never moves pc back |
| Compiler.DefineLabel | Processor/compiler.cpp:106-109 | a label line marks its slot VALID with the current pc and changes nothing else |
| Compiler.EmitJump | Processor/compiler.cpp:118-125 | a jump always advances pc by five and leaves the table alone |
| Compiler.EmitPlain | Processor/compiler.cpp:148-156 | another command advances pc by the length of its bytes and leaves the table alone |
| Compiler.RunPass | Processor/compiler.cpp:97-159 | a pass that goes through keeps the table's size and never moves pc back |
| Compiler.Assemble | Processor/compiler.cpp:52-192 | a file main writes passes the processor's header check |
| Compiler.AssembleLines | Processor/compiler.cpp:96-192 | the same for the lines read by fgets |
| CompilerFacts.ChooseSkips | Processor/compiler.cpp:319-361 | entries that hold other words are passed over |
| CompilerFacts.ChooseAt | Processor/compiler.cpp:319-361 | the chain answers the opcode of the first entry holding the word |
| CompilerFacts.ChooseCmdOfMnemonic | Processor/compiler.cpp:319-361 | choose_cmd maps every mnemonic the disassembler prints back to its opcode |
| CompilerFacts.ChooseCmdOnlyMnemonics | Processor/compiler.cpp:319-361 | every word choose_cmd accepts is the mnemonic of what it returns |
| CompilerFacts.MnemonicTable | Processor/compiler.cpp:321-356 | every entry of the chain pairs an opcode with the disassembler's name for it |
| CompilerFacts.GetRegNumOfRegName | Processor/compiler.cpp:453-460 | get_reg_num undoes get_reg_name |
| CompilerFacts.JumpCommands | Processor/compiler.cpp:462-474 | is_jump holds for exactly jmp, ja, jae, jb, je, jne and call; jbe, which the decoder reads with a target, is not among them |
| CompilerFacts.RegisterSkips | Processor/compiler.cpp:286-298 | slots holding other names are passed over |
| CompilerFacts.RegisterFinds | Processor/compiler.cpp:288-298 | a name already held is answered with its slot and the table is unchanged |
| CompilerFacts.RegisterClaims | Processor/compiler.cpp:304-307 | otherwise the first empty slot takes the name and becomes NAME_ONLY |
| CompilerFacts.RegisterRefusesShiftOnly | Processor/compiler.cpp:299-303 | a SHIFT_ONLY slot met on the way gives -1 and changes nothing |
| CompilerFacts.RegisterFull | Processor/compiler.cpp:315-316 | when every slot holds another name the answer is -1 |
| CompilerFacts.RegisterResult | Processor/compiler.cpp:282-317 | a successful search returns a slot holding the name, VALID or NAME_ONLY, after slots holding other names, and changes no other slot; a failed one changes nothing |
| CompilerFacts.RegisterAgain | Processor/compiler.cpp:282-317 | registering a name a second time returns the same slot and changes nothing |
| CompilerFacts.EmptyTablePacked | Processor/compiler.cpp:41 | the empty table is packed (held slots first) |
| CompilerFacts.RegisterKeepsPacked | Processor/compiler.cpp:282-317 | registering keeps the table packed and fails only when every slot holds another name |
| CompilerFacts.ScanDecimal | Processor/compiler.cpp:379 | the decimal text of n followed by a non-digit scans back to n |
| CompilerFacts.OperandNumber | Processor/compiler.cpp:378-390 | `N` alone sets the argument only |
| CompilerFacts.OperandRegister | Processor/compiler.cpp:412-429 | a register name alone sets the register only |
| CompilerFacts.OperandNumberPlusRegister | Processor/compiler.cpp:378-411 | `N+rx` sets both |
| CompilerFacts.OperandRegisterPlusNumber | Processor/compiler.cpp:412-442 | `rx+N` sets both |
| CompilerFacts.MnemonicShape | Processor/compiler.cpp:321-356 | mnemonics are lower-case words of two to four letters |
| CompilerFacts.CommandWord | Processor/compiler.cpp:208-218 | a line's command word is its leading lower-case run |
| CompilerFacts.LabelLine | Processor/compiler.cpp:219-221 | `name:` registers the name and is a label line carrying its slot |
| CompilerFacts.JumpLine | Processor/compiler.cpp:230-245 | `jmp name` and the other is_jump commands register the name and carry its slot |
| CompilerFacts.BareLine | Processor/compiler.cpp:248-253 | a mnemonic alone is that command without operands |
| CompilerFacts.OperandLine | Processor/compiler.cpp:265-273 | `cmd operand`: the `%s` token after the mnemonic is parsed by parse_reg_and_arg and MEM stays clear |
| CompilerFacts.BracketLine | Processor/compiler.cpp:255-264 | `cmd [operand]`: the same operand syntax inside brackets, with MEM set |
| CompilerFacts.JbeRejectsLabel | Processor/compiler.cpp:462-474 | because is_jump leaves jbe out, `jbe name` reads the name as an operand and a name of two to six letters that is no register is rejected |
| CompilerFacts.JbeLongLabelOverflows | Processor/compiler.cpp:414-419 | a longer name overflows the six-byte `reg_str` buffer: undefined behaviour |
| CompilerFacts.WordOperand | Processor/compiler.cpp:412-424 | a lone word of two or more letters is a register, a refusal, or an overflow of `reg_str` |
| CompilerMain.ScanLower | Processor/compiler.cpp:211-218 | the loop stops where LowerRun says |
| CompilerMain.ScanAlpha | Processor/compiler.cpp:414-419 | the loop stops where AlphaRun says |
| CompilerMain.ScanShape | Processor/compiler.cpp:208-253 | the cursor walk classifies the line as ShapeOf does |
| CompilerMain.ScanOperand | Processor/compiler.cpp:248-277 | the operand part is parsed as Operand says |
| CompilerMain.ScanRegAndArg | Processor/compiler.cpp:364-451 | `parse_reg_and_arg` computes ParseRegAndArg |
| CompilerMain.ScanNumberFirst | Processor/compiler.cpp:378-411 | the digit branch computes NumberFirst |
| CompilerMain.ScanRegisterFirst | Processor/compiler.cpp:412-446 | the letter branch computes RegisterFirst |
| CompilerMain.FlowOf | Processor/compiler.cpp:111-114 | the loop goes on exactly when the step passed and jumps to `out_err` exactly when it failed |
| CompilerMain.Assembler.Model | Processor/compiler.cpp:41-60 | the globals form a pass state whose table has MAX_LABELS_NUM slots |
| CompilerMain.Assembler.constructor | Processor/compiler.cpp:41-61 | the globals start as an empty table, no bytes and pc 0 |
| CompilerMain.Assembler.RegisterLabel | Processor/compiler.cpp:282-317 | the loop over the table returns and writes what Register says |
| CompilerMain.Assembler.VerifyLabels | Processor/compiler.cpp:489-504 | `verify_labels` returns 0 or -1, and 0 exactly when every slot is VALID or EMPTY |
| CompilerMain.Assembler.ParseStrToCmd | Processor/compiler.cpp:194-280 | the method returns and leaves in the table what the function ParseStrToCmd says |
| CompilerMain.Assembler.EmitByte | Processor/compiler.cpp:148 | `byte_code[pc++] = b` writes one byte at pc and advances pc |
| CompilerMain.Assembler.EmitInt | Processor/compiler.cpp:150-151 | the int store writes its four bytes at pc and advances pc by four |
| CompilerMain.Assembler.ExecuteLine | Processor/compiler.cpp:97-159 | one loop iteration leaves the state LineStep describes and stops exactly when it fails |
| CompilerMain.Assembler.DefineAt | Processor/compiler.cpp:106-109 | the RET_LABEL branch leaves the state DefineLabel describes |
| CompilerMain.Assembler.JumpAt | Processor/compiler.cpp:118-125 | the is_jump branch leaves the state EmitJump describes |
| CompilerMain.Assembler.PlainAt | Processor/compiler.cpp:148-156 | the other branch leaves the state EmitPlain describes |
| CompilerMain.Assembler.RunPass | Processor/compiler.cpp:96-159 | the loop over all lines leaves the state RunPass describes |
| CompilerMain.Assembler.Rewind | Processor/compiler.cpp:160-162 | between passes pc returns to 0 and the buffer is kept |
| CompilerMain.PlainWrites | Processor/compiler.cpp:148-156 | the three writes of a non-jump command lay down exactly PlainBytes |
| CompilerMain.PassStep | Processor/compiler.cpp:97-159 | a pass over one more line is that line's step and then the rest unless the step stopped |
| CompilerMain.ReadLine | Processor/compiler.cpp:97-100 | `fgets` and the newline cut take the next line and move forward |
| CompilerMain.Assemble | Processor/compiler.cpp:52-192 | main computes Compiler.Assemble: both passes, the table check between them, and the bytes written |
| CompilerPasses.Shapes | Processor/compiler.cpp:194-280 | the shape of each line, in order |
| CompilerPasses.ShapeSize | Processor/compiler.cpp:106-156 | a line takes at most six bytes |
| CompilerPasses.Offset | Processor/compiler.cpp:106-156 | the offset after k lines is at most six bytes per line |
| CompilerPasses.OffsetNext | Processor/compiler.cpp:106-156 | one more line moves the offset by that line's size |
| CompilerPasses.StepSize | Processor/compiler.cpp:106-156 | a step that goes on advances pc by the line's size, whatever the table holds |
| CompilerPasses.PassLength | Processor/compiler.cpp:97-159 | a pass that runs to the end leaves pc at the offset after the last line |
| CompilerPasses.PlainInstr | Processor/compiler.cpp:148-156 | a non-jump line stands for the instruction with its opcode, argument and register |
| CompilerPasses.PlainEncoding | Processor/compiler.cpp:148-156 | the bytes written for a non-jump command are that instruction's encoding |
| CompilerPasses.PlainDecodable | Processor/compiler.cpp:248-277 | push and pop always decode; jbe decodes exactly with a bare number; any other command decodes exactly without operands, although the assembler accepts operands on it |
| CompilerPasses.PlainFields | Processor/compiler.cpp:260-272 | the command byte names the opcode, IMM exactly when there is an argument and REG exactly when there is a register |
| CompilerPasses.PlainDecodes | Processor/compiler.cpp:148-156 | a decodable non-jump command decodes back from its bytes wherever they sit |
| CompilerPasses.PlainRoundTrip | Processor/compiler.cpp:148-156 | the same, for any well-formed parsed command |
| CompilerPasses.JumpDecodes | Processor/compiler.cpp:118-125 | a jump with a resolved target is the decoder's jump to that target |
| CompilerPasses.LineBytes | Processor/compiler.cpp:106-156 | a line contributes exactly its size in bytes |
| CompilerPasses.Image | Processor/compiler.cpp:97-159 | the lines laid end to end take exactly the offset after the last line |
| CompilerPasses.WriteExtends | Processor/compiler.cpp:148-156 | writing at the end of what has been laid down extends it by those bytes |
| CompilerPasses.SettledStep | Processor/compiler.cpp:102-156 | on a settled table a line keeps the table and lays its bytes at pc |
| CompilerPasses.SecondPass | Processor/compiler.cpp:97-169 | on a settled table the second pass runs to the end, keeps the table and lays down exactly the lines' image |
| CompilerPasses.HeldLater | Processor/compiler.cpp:282-317 | a name held in a table is found in the same slot of any table that extends it |
| CompilerPasses.SeenLater | Processor/compiler.cpp:282-317 | a line seen in one table parses the same in any table extending it |
| CompilerPasses.RegisterStep | Processor/compiler.cpp:282-317 | a successful registration keeps the table packed, extends it and leaves VALID slots alone |
| CompilerPasses.DefineStep | Processor/compiler.cpp:106-109 | marking a held slot VALID keeps the table packed and extends it |
| CompilerPasses.FirstStep | Processor/compiler.cpp:97-159 | one line of the first pass keeps the table gathered, moves pc to the next line's offset and keeps definitions placed |
| CompilerPasses.FirstPass | Processor/compiler.cpp:96-159 | a first pass that runs to the end leaves a table holding every name of the lines, VALID only for defined labels and, when no label is defined twice, each at its definition's offset |
| CompilerPasses.Settles | Processor/compiler.cpp:160-169 | a gathered, placed table that verify_labels accepts settles every line |
| CompilerPasses.DefLine | Processor/compiler.cpp:106-109 | the first line defining a name |
| CompilerPasses.Target | Processor/compiler.cpp:107-122 | a jump's target is the offset of its label's line as a 32-bit int |
| CompilerPasses.LineCodeOf | Processor/compiler.cpp:118-156 | with a gathered, placed and resolved table each line's bytes in the second pass are its byte code |
| CompilerPasses.ImageByteCode | Processor/compiler.cpp:97-159 | the lines' image is the byte code when each line is |
| CompilerPasses.ResolvedImage | Processor/compiler.cpp:97-169 | the second pass over a gathered, placed and resolved table lays down the byte code |
| CompilerPasses.ResolvedDefined | Processor/compiler.cpp:489-504 | every jump of a gathered table that verify_labels accepts names a defined label |
| CompilerPasses.FirstPassFromStart | Processor/compiler.cpp:96-159 | the first pass from the empty table gathers, and places when no label is defined twice |
| CompilerPasses.AssembleWrites | Processor/compiler.cpp:52-192 | when no label is defined twice and main writes a file: every jump names a defined label, and the file is the header followed by the byte code, each jump carrying the offset of its label's line |
| CompilerPasses.SecondPassFromStart | Processor/compiler.cpp:97-170 | the second pass over a gathered, placed and resolved table runs through and lays down the byte code |
| CompilerPasses.UndefinedLabelAborts | Processor/compiler.cpp:160-167 | a jump to a label no line defines makes main abort after the first pass |
| CompilerPasses.Unresolved | Processor/compiler.cpp:489-504 | the slot of such a label stays NAME_ONLY, so verify_labels refuses the table |
| CompilerPasses.DefinedResolves | Processor/compiler.cpp:489-504 | in a gathered, placed table whose jumps all name defined labels, every slot is VALID or EMPTY |
| CompilerPasses.SlotOfDefinition | Processor/compiler.cpp:106-109 | the slot holding a defined label's name is VALID |
| CompilerPasses.AssembleCompletes | Processor/compiler.cpp:52-192 | when no label is defined twice, the first pass is through and every jump names a defined label, main writes the file |
| Stack.XorUnfold | Stack/stack.cpp:187 | the XOR of two numbers is the XOR of their halves followed by the XOR of their low bits |
| Stack.XorSelf | Stack/stack.cpp:187 | a number XOR-ed with itself is zero |
| Stack.XorAssoc | Stack/stack.cpp:187 | XOR is associative |
| Stack.XorComm | Stack/stack.cpp:187 | XOR is commutative |
| Stack.XorBelow | Stack/stack.cpp:187 | XOR of two numbers below a power of two stays below it, so the XOR of two bytes is a byte |
| Stack.XorCancel | Stack/stack.cpp:187 | XOR-ing the same byte twice cancels |
| Stack.XorZero | Stack/stack.cpp:187 | zero is XOR's identity |
| Stack.XorSwap | Stack/stack.cpp:187 | two bytes XOR-ed in turn may come in either order |
| Stack.XorInjective | Stack/stack.cpp:187 | XOR with a fixed value is injective |
| Stack.CountHash | Stack/stack.cpp:182-190 | the loop over the bytes leaves 0xad XOR-ed with every byte of the range |
| Stack.HashOfEmpty | Stack/stack.cpp:184 | an empty range hashes to 0xad |
| Stack.HashUpdate | Stack/stack.cpp:182-190 | replacing one byte changes the hash by XOR-ing out the old byte and XOR-ing in the new one |
| Stack.HashDetectsOneByte | Stack/debug.cpp:5-75 | a change to any single live byte changes the hash, so check_stack catches it |
| Stack.PushFailsOnlyWhenFull | Stack/stack.cpp:59-83 | on a stack whose capacity was reached from MIN_CAP, a push fails exactly when MAX_CAP elements are live, so MAX_CAP pushes all succeed, as Stack/unittests.cpp:139-146 expects |
| Stack.Stack.CheckStack | Stack/debug.cpp:5-75 | check_stack answers 0 exactly when the buffer exists, 0 <= size <= capacity, MIN_CAP <= capacity <= MAX_CAP, the element description is set, both canaries hold CANARY_VALUE and the stored hash is the hash of the live bytes; otherwise 1 |
| Stack.Stack.Live | Stack/stack.cpp:65-66 | the live elements are the first `size` slots |
| Stack.Stack.constructor | Stack/stack.cpp:19-50 | stack_ctor gives a stack that checks, with no live elements and MIN_CAP slots of the given element size |
| Stack.Stack.CopyPrefix | Stack/stack.cpp:75-155 | the memcpy into the new buffer copies the first `size` slots |
| Stack.Stack.AllocMore | Stack/stack.cpp:75-100 | alloc_more fails exactly when doubling would pass MAX_CAP, and then changes nothing; otherwise the fresh buffer has twice the slots and the same live elements |
| Stack.Stack.FreeMore | Stack/stack.cpp:129-155 | free_more halves the slots in a fresh buffer and keeps the live elements |
| Stack.Stack.Push | Stack/stack.cpp:52-73 | stack_push refuses a stack that fails the check and changes nothing; when the buffer is full and cannot double it reports NO_MEMORY with the contents unchanged; otherwise it appends the value, doubling the buffer first when full, and the stack checks |
| Stack.Stack.Store | Stack/stack.cpp:65-68 | copying the value into the next slot and rehashing appends it to the live elements and the stack checks |
| Stack.Stack.Rehash | Stack/stack.cpp:173-180 | get_hash stores the hash of the live bytes |
| Stack.Stack.Pop | Stack/stack.cpp:102-127 | stack_pop refuses a stack that fails the check; on an empty stack it gives zeros and POP_FROM_EMPTY and changes nothing; otherwise it removes and returns the last element and halves the buffer when less than a third stays in use and capacity is above MIN_CAP; the exit check fails exactly when that took capacity below MIN_CAP, which cannot happen on a capacity reached from MIN_CAP |
| Stack.Stack.Destroy | Stack/stack.cpp:157-171 | stack_dtor refuses a stack that fails the check; otherwise it sets size, capacity and element size to -1, drops the buffer, and the stack no longer checks |
| Stack.Zeros | Stack/stack.cpp:111 | memset leaves `elem_size` zero bytes |
| Stack.Pushed | Stack/stack.cpp:52-73 | on values: a push keeps the earlier contents as a prefix, adds one element exactly below MAX_CAP elements, and that element is the value pushed |
| Stack.Popped | Stack/stack.cpp:102-127 | on values: a pop of a non-empty stack splits off its last element; on an empty one it gives the zero value |
| Stack.PopAfterPush | Stack/stack.cpp:52-127 | a pop after a push below MAX_CAP returns the pushed value and the earlier contents |
| ArrayList.Pos | List/list.cpp:77-110 | a slot of the chain has a position holding it |
| ArrayList.SpliceIndex | List/list.cpp:102-108 | inserting after position i shifts the later positions by one |
| ArrayList.SpliceLast | List/list.cpp:93-94 | inserting after the last position appends, so insert_after on the tail is insert_back |
| ArrayList.RemoveIndex | List/list.cpp:178-182 | removing position i shifts the later positions back by one |
| ArrayList.Values | List/list.cpp:65-103 | the values of the list are the data of its slots, head to tail |
| ArrayList.DistinctCard | List/list.cpp:27-30 | a chain that visits no slot twice visits as many slots as it is long |
| ArrayList.SlotCount | List/list.cpp:11-36 | every slot but slot 0 is in the list or on the free chain, so together they hold capacity - 1 slots |
| ArrayList.InsertFailsOnlyWhenFull | List/list.cpp:55-59 | insert_back fails exactly when the list holds capacity - 1 values |
| ArrayList.AllSpare | List/list.cpp:27-30 | a new list's free chain runs through slots 1 .. capacity - 1 in increasing order |
| ArrayList.FreshValid | List/list.cpp:11-36 | list_ctor with capacity at least 2 gives an empty, well-linked list whose free chain holds every other slot |
| ArrayList.FreshChain | List/list.cpp:25-34 | the loop links each free slot to the next, the last one to 0, with prev -1 |
| ArrayList.InsertBack | List/list.cpp:51-75 | list_insert_back gives -1 with nothing changed, or the first free slot, which holds the value and is the new tail, while free moves to the next free slot |
| ArrayList.PartitionTake | List/list.cpp:65-71 | moving the first free slot to the end of the list keeps every slot in exactly one chain |
| ArrayList.InsertBackAppends | List/list.cpp:51-75 | insert_back returns -1 and changes nothing when no slot is free; otherwise it returns the first free slot, which holds the value and follows the old tail, and the list's values gain it at the end |
| ArrayList.InsertBackLinks | List/list.cpp:65-73 | after insert_back the list chain is well linked in both directions |
| ArrayList.InsertBackFree | List/list.cpp:66 | after insert_back the free chain is the old one without its first slot |
| ArrayList.PartitionSplice | List/list.cpp:102-108 | moving the first free slot into the list after some position keeps every slot in exactly one chain |
| ArrayList.PartitionRemove | List/list.cpp:178-185 | moving a list slot to the front of the free chain keeps every slot in exactly one chain |
| ArrayList.InsertAfter | List/list.cpp:77-110 | list_insert_after gives -1 with nothing changed, or the first free slot, which holds the value and has place as its prev, while free moves to the next free slot |
| ArrayList.SlotKinds | List/list.cpp:88-169 | in a valid list a slot is free exactly when its prev is -1; a list slot has next and prev inside the arrays |
| ArrayList.InsertAfterSplices | List/list.cpp:77-110 | insert_after returns -1 and changes nothing when no slot is free or place is free; otherwise place is in the list, the first free slot takes the value and the list's values gain it right after place's |
| ArrayList.LinkAfterSplices | List/list.cpp:102-108 | the writes after a slot other than the tail splice the value in after it and keep the list valid |
| ArrayList.InsertMiddleLinks | List/list.cpp:104-108 | those writes keep the list chain well linked in both directions |
| ArrayList.InsertMiddleEnds | List/list.cpp:102-108 | those writes keep head and tail |
| ArrayList.InsertMiddleNext | List/list.cpp:105-108 | every list slot's next is its successor after the writes |
| ArrayList.InsertMiddlePrev | List/list.cpp:104-106 | every list slot's prev is its predecessor after the writes |
| ArrayList.InsertMiddleFree | List/list.cpp:102-103 | the free chain loses its first slot and the values gain the new one after place's |
| ArrayList.InsertMiddleChain | List/list.cpp:102 | the rest of the free chain stays linked |
| ArrayList.ValuesSplice | List/list.cpp:103 | writing a value into a slot outside the list and splicing that slot in splices the value in |
| ArrayList.ValuesRemove | List/list.cpp:178 | clearing a list slot and removing it from the chain removes its value |
| ArrayList.FreeFront | List/list.cpp:131-185 | a cleared slot whose next is the old first free slot and which becomes `free` heads a well-linked free chain |
| ArrayList.DeleteHead | List/list.cpp:112-134 | list_delete_head gives -1 with nothing changed exactly on an empty list, otherwise 0; the old head is cleared and heads the free chain, and its successor is the new head |
| ArrayList.DeleteHeadDrops | List/list.cpp:112-134 | delete_head returns -1 and changes nothing on an empty list; otherwise it returns 0, the first value is gone and its slot heads the free chain |
| ArrayList.DeleteHeadLinks | List/list.cpp:124-132 | after delete_head the list chain is well linked and the old free chain is intact |
| ArrayList.DeleteTail | List/list.cpp:136-159 | list_delete_tail gives -1 with nothing changed exactly on an empty list, otherwise the old tail's prev, which becomes the tail; the old tail is cleared and heads the free chain |
| ArrayList.DeleteTailDrops | List/list.cpp:136-159 | delete_tail returns -1 and changes nothing on an empty list; otherwise it returns the new tail (0 when the list becomes empty), the last value is gone and its slot heads the free chain |
| ArrayList.DeleteTailValid | List/list.cpp:148-158 | the non-empty case of delete_tail keeps the list valid |
| ArrayList.DeleteTailLinks | List/list.cpp:148-157 | after delete_tail the list chain is well linked and the old free chain is intact |
| ArrayList.DeleteElement | List/list.cpp:161-188 | list_delete_element gives -1 with nothing changed, or place's prev; place is cleared and heads the free chain |
| ArrayList.DeleteElementRemoves | List/list.cpp:161-188 | delete_element returns -1 and changes nothing on a free slot; otherwise the slot is in the list, its value is removed, its slot heads the free chain, and the answer is its predecessor (0 for the head, through delete_head) |
| ArrayList.DeleteElementHead | List/list.cpp:173-174 | on the head, delete_element is delete_head |
| ArrayList.DeleteElementTail | List/list.cpp:175-176 | on the tail, delete_element is delete_tail, whose answer is the predecessor |
| ArrayList.DeleteElementMiddle | List/list.cpp:178-187 | on any other list slot the writes remove it and return its predecessor |
| ArrayList.UnlinkLinks | List/list.cpp:181-182 | linking a middle slot's neighbours to each other keeps the chain well linked |
| ArrayList.UnlinkEnds | List/list.cpp:178-185 | unlinking a middle slot keeps head and tail |
| ArrayList.UnlinkSpare | List/list.cpp:178-185 | unlinking a middle slot keeps the old free chain |
| ArrayList.UnlinkNext | List/list.cpp:182 | after the unlink every list slot's next is its successor |
| ArrayList.UnlinkPrev | List/list.cpp:181 | after the unlink every list slot's prev is its predecessor |
| ArrayList.AppendedBack | List/list.cpp:65-73 | insert_back's writes keep the list valid and append the value |
| ArrayList.LinkedAfter | List/list.cpp:102-108 | insert_after's writes keep the list valid and splice the value in |
| ArrayList.DroppedHead | List/list.cpp:124-132 | delete_head's writes keep the list valid and drop the first value |
| ArrayList.DroppedTail | List/list.cpp:148-157 | delete_tail's writes keep the list valid and drop the last value |
| ArrayList.Unlinked | List/list.cpp:178-185 | delete_element's writes keep the list valid and remove the value |
| ListObject.List.constructor | List/list.cpp:11-36 | list_ctor fills the three arrays as the fresh layout says; with capacity at least 2 the list is valid and empty and every other slot is free, in increasing order |
| ListObject.List.Dtor | List/list.cpp:38-49 | list_dtor sets capacity, head, tail and free to -1 |
| ListObject.List.InsertBack | List/list.cpp:51-75 | the arrays end as InsertBack says: -1 and nothing changed when full, otherwise the first free slot is returned and its value appended |
| ListObject.List.Append | List/list.cpp:65-73 | the writes of insert_back leave the arrays Append describes |
| ListObject.List.InsertAfter | List/list.cpp:77-110 | the arrays end as InsertAfter says: -1 and nothing changed when full or place is free, otherwise the value is spliced in after place |
| ListObject.List.InsertMiddle | List/list.cpp:97-109 | after a list slot other than the tail, the first free slot takes the value and comes right after place |
| ListObject.List.LinkAfter | List/list.cpp:102-108 | the writes leave the arrays LinkAfter describes |
| ListObject.List.DeleteHead | List/list.cpp:112-134 | the arrays end as DeleteHead says: -1 on an empty list, otherwise 0 and the first value dropped |
| ListObject.List.DropHead | List/list.cpp:124-132 | the writes leave the arrays DropHead describes |
| ListObject.List.DeleteTail | List/list.cpp:136-159 | the arrays end as DeleteTail says: -1 on an empty list, otherwise the new tail is returned and the last value dropped |
| ListObject.List.DropTail | List/list.cpp:148-157 | the writes leave the arrays DropTail describes |
| ListObject.List.DeleteElement | List/list.cpp:161-188 | the arrays end as DeleteElement says: -1 on a free slot, otherwise the slot's value is removed and its predecessor returned |
| ListObject.List.DeleteMiddle | List/list.cpp:178-187 | on a list slot other than head and tail, the value is removed and the predecessor returned |
| ListObject.List.Unlink | List/list.cpp:178-185 | the writes leave the arrays Unlink describes |
| ScoreTable.Swap | Additional/MatchOfTheCentury/table.cpp:43-99 | the same score seen from the other team exchanges the two goal counts |
| ScoreTable.TriClosed | Additional/MatchOfTheCentury/table.cpp:135-142 | `k * (k - 1) / 2` is exact: k(k-1) is twice the number of pairs below k |
| ScoreTable.TriGrows | Additional/MatchOfTheCentury/table.cpp:135 | row y of the triangle starts after every cell of the rows before it |
| ScoreTable.ProductFits | Additional/MatchOfTheCentury/table.cpp:138-143 | n * (n - 1) fits in a 32-bit int exactly when n is at most 46341 |
| ScoreTable.CellsNumber | Additional/MatchOfTheCentury/table.cpp:138-143 | for 2 to 46341 teams n * (n - 1) fits in an int, and get_cells_number gives one cell per unordered pair, at least one |
| ScoreTable.Shift | Additional/MatchOfTheCentury/table.cpp:123-136 | get_shift puts the pair x < y in row y, inside the table, and y * (y - 1) fits in an int |
| ScoreTable.ShiftInjective | Additional/MatchOfTheCentury/table.cpp:123-136 | different pairs get different cells |
| ScoreTable.ShiftOnto | Additional/MatchOfTheCentury/table.cpp:123-143 | every one of the n(n-1)/2 cells belongs to some pair |
| ScoreTable.Slot | Additional/MatchOfTheCentury/table.cpp:58-67 | the cell of a match, the lower-numbered team's pair, lies inside the table |
| ScoreTable.Stored | Additional/MatchOfTheCentury/table.cpp:58-67 | a cell holds the lower-numbered team's score first, and the stored form turns back into the score given |
| ScoreTable.Write | Additional/MatchOfTheCentury/table.cpp:43-70 | put_to_table keeps the number of cells |
| ScoreTable.Read | Additional/MatchOfTheCentury/table.cpp:87-96 | get_from_table gives the score that, stored for the same teams, is the match's cell |
| ScoreTable.SlotShared | Additional/MatchOfTheCentury/table.cpp:58-96 | two matches share a cell exactly when they name the same two teams in either order |
| ScoreTable.GetAfterPut | Additional/MatchOfTheCentury/table.cpp:43-99 | get_from_table after put_to_table with the teams in the same order returns the score put, whichever team is lower-numbered |
| ScoreTable.GetReversed | Additional/MatchOfTheCentury/table.cpp:87-96 | get_from_table with the teams the other way round returns the score swapped |
| ScoreTable.PutFrame | Additional/MatchOfTheCentury/table.cpp:43-70 | put_to_table changes the result of no other match |
| ScoreTable.FreshReadsZero | Additional/MatchOfTheCentury/table.cpp:20 | the calloc'ed table reads 0 : 0 for every match |
| ScoreTable.Table.constructor | Additional/MatchOfTheCentury/table.cpp:7-29 | allocate_table for 2 to 46341 teams, where n * (n - 1) does not overflow, gives n(n-1)/2 zeroed cells |
| ScoreTable.Table.Put | Additional/MatchOfTheCentury/table.cpp:43-70 | the array is the table Write describes |
| ScoreTable.Table.Get | Additional/MatchOfTheCentury/table.cpp:72-99 | the cell read is the table's answer for the match, teams in the order given |
| Sorting.InsertBy | Onegin/onegin_toolkit.cpp:239-241 | inserting keeps every element and adds one |
| Sorting.InsertSorted | Onegin/onegin_toolkit.cpp:239-241 | inserting into a sorted sequence keeps it sorted, for a total preorder |
| Sorting.SortBy | Onegin/onegin_toolkit.cpp:239-241 | what qsort promises for a total preorder: a permutation of the input in which no element is greater than a later one |
| Sorting.PermutationMembers | Onegin/onegin_toolkit.cpp:239-241 | every element of a permutation comes from the original |
| Onegin.KeyOf | Onegin/onegin_toolkit.cpp:82-103 | n, e, s and r switch on their own keys, and every other character, h included, switches on help |
| Onegin.KeysOf | Onegin/onegin_toolkit.cpp:77-108 | the keys of a key argument include every character's key and are among help and the four sort and print keys |
| Onegin.KeysOfFlags | Onegin/onegin_toolkit.cpp:77-108 | get_keys sets each of the four keys exactly when its letter occurs, help exactly when some other character occurs, and neither file-name key |
| Onegin.GetKeys | Onegin/onegin_toolkit.cpp:77-108 | the loop up to the terminator ORs together the keys of the characters |
| Onegin.KindOf | Onegin/onegin_toolkit.cpp:37-58 | an argument not starting with `-` ends the keys, `-o` and `-i` take a name, and any other `-...` argument is a run of key letters |
| Onegin.Scan | Onegin/onegin_toolkit.cpp:31-68 | the argument loop only adds keys, except that a missing name leaves help alone, and never sets the error key |
| Onegin.Parse | Onegin/onegin_toolkit.cpp:31-68 | parse_arguments never sets the error key; with no argument after the program's name no key is set and both names are the defaults |
| Onegin.Finish | Onegin/onegin_toolkit.cpp:62-65 | an unset name falls back to its default |
| Onegin.ParseArguments | Onegin/onegin_toolkit.cpp:31-68 | the loop over argv gives the keys and names that Parse defines |
| Onegin.KeyWordsOnly | Onegin/onegin_toolkit.cpp:36-60 | with key arguments alone the keys are OR'ed and neither name changes |
| Onegin.LettersStep | Onegin/onegin_toolkit.cpp:57-58 | a key argument at the front is consumed on its own |
| Onegin.KeysOfWordsCons | Onegin/onegin_toolkit.cpp:58 | the keys of key arguments may be taken one argument at a time |
| Onegin.PlainEndsScan | Onegin/onegin_toolkit.cpp:37-38 | everything from the first argument not starting with `-` is ignored |
| Onegin.MissingName | Onegin/onegin_toolkit.cpp:43-56 | a trailing `-o` or `-i` with no name after it replaces the keys by the help key alone |
| Onegin.NamedByTail | Onegin/onegin_toolkit.cpp:39-56 | a name given after a key in a suffix of the arguments is given in the whole |
| Onegin.InputName | Onegin/onegin_toolkit.cpp:48-63 | the input name is the starting one, the default when unset, or the argument after an `-i`; with its key set it is not the default |
| Onegin.OutputName | Onegin/onegin_toolkit.cpp:39-65 | the same for the output name and `-o` |
| Onegin.ParseNames | Onegin/onegin_toolkit.cpp:31-68 | parse_arguments' input name is the default or the argument after an `-i`, and the latter whenever KEYS_FILENAME_FROM is set; the same for the output name and `-o` |
| Onegin.Blank | Onegin/onegin_toolkit.cpp:198-203 | every newline of the buffer becomes a terminator and nothing else changes |
| Onegin.CountMonotone | Onegin/onegin_toolkit.cpp:198-203 | counting over a longer prefix counts no fewer |
| Onegin.BlankCounts | Onegin/onegin_toolkit.cpp:198-203 | a text free of NULs has as many terminators after blanking as it had newlines |
| Onegin.AfterCount | Onegin/onegin_toolkit.cpp:215-220 | the second loop records one position per terminator it passes |
| Onegin.AfterExact | Onegin/onegin_toolkit.cpp:215-220 | the recorded positions are exactly those below n that follow a terminator, strictly increasing |
| Onegin.StartsExact | Onegin/onegin_toolkit.cpp:213-220 | index[0] is the buffer's start and the other entries are exactly the positions after a terminator, in order |
| Onegin.StartsCount | Onegin/onegin_toolkit.cpp:205-220 | for a text ending in a newline there is one start per newline, so the index is filled exactly |
| Onegin.IndexText | Onegin/onegin_toolkit.cpp:193-223 | index_text blanks the newlines and returns an index with one entry per newline, holding exactly the start of the buffer and the positions after a terminator, in order |
| Onegin.BlankNewlines | Onegin/onegin_toolkit.cpp:198-203 | the first loop blanks the newlines and counts them |
| Onegin.RecordStarts | Onegin/onegin_toolkit.cpp:213-220 | the second loop records the starts |
| Onegin.Folded | Onegin/onegin_toolkit.cpp:336-337 | each character is taken through tolower |
| Onegin.StrCiCmp | Onegin/onegin_toolkit.cpp:332-341 | strcicmp of two C strings is 0 only for strings of the same length |
| Onegin.StrCiCmpZero | Onegin/onegin_toolkit.cpp:332-341 | strcicmp is 0 exactly when the strings agree ignoring ASCII case |
| Onegin.StrCiCmpAntisymmetric | Onegin/onegin_toolkit.cpp:332-341 | swapping the arguments of strcicmp negates the result |
| Onegin.StrCiCmpTransitive | Onegin/onegin_toolkit.cpp:332-341 | the order strcicmp defines is transitive |
| Onegin.SkipPunct | Onegin/onegin_toolkit.cpp:318-321 | forward, process_punctuation stops at the first character that is not punctuation, the terminator at worst |
| Onegin.Compare | Onegin/onegin_toolkit.cpp:255-267 | compare is 0 exactly when the two lines agree from their first non-punctuation character on, ignoring case |
| Onegin.BackOver | Onegin/onegin_toolkit.cpp:312-314 | the walk back over punctuation stops at a non-punctuation character or at the start |
| Onegin.LastWord | Onegin/onegin_toolkit.cpp:308-315 | backward, process_punctuation gives the last character that is not punctuation; all punctuation gives the first character, and the empty string its terminator |
| Onegin.RevKey | Onegin/onegin_toolkit.cpp:287-295 | compare_reverse visits the characters from that one back to the first |
| Onegin.RevWalk | Onegin/onegin_toolkit.cpp:287-295 | where the backward walk reports a difference it is strcicmp on the visited characters; where it reports none, strcicmp puts the first no later |
| Onegin.RevWalkIsStrCiCmp | Onegin/onegin_toolkit.cpp:287-295 | the walk is strcicmp on the visited characters exactly unless the first sequence is non-empty and, ignoring case, a proper prefix of the second; then the walk answers 0 and strcicmp a negative value |
| Onegin.CompareReverse | Onegin/onegin_toolkit.cpp:278-296 | compare_reverse is strcicmp on the characters it visits except when the first line's are, ignoring case, a proper prefix of the second's; a non-zero answer is always strcicmp's |
| Onegin.RingBring | Onegin/onegin_toolkit.cpp:278-296 | compare_reverse gives 0 for "ring" against "bring" and 'b' for "bring" against "ring": it is not antisymmetric |
| Onegin.OrderPreorder | Onegin/onegin_toolkit.cpp:234-244 | both orders the model sorts by are total preorders: compare's from the start, and strcicmp on the characters compare_reverse visits from the end |
| Onegin.SortText | Onegin/onegin_toolkit.cpp:234-244 | sort_text leaves the index alone under KEYS_NO_SORT; otherwise it returns a permutation sorted from the start, or under KEYS_SORT_FROM_END by strcicmp on the characters compare_reverse visits |
| Onegin.SortedByCompare | Onegin/onegin_toolkit.cpp:255-267 | sorted from the start means compare never finds a later line smaller |
| Onegin.SortedByCompareReverse | Onegin/onegin_toolkit.cpp:278-296 | in a permutation sorted from the end compare_reverse never finds a later line smaller nor an earlier one larger |
| Onegin.NonEmpty | Onegin/onegin_toolkit.cpp:368-394 | the lines kept are exactly the non-empty ones, in order |
| Onegin.EntriesSnoc | Onegin/onegin_toolkit.cpp:371-396 | one more written line is numbered after the others |
| Onegin.ReversedStep | Onegin/onegin_toolkit.cpp:367 | walking the index one line further back appends that line to the reversed order |
| Onegin.Texts | Onegin/onegin_toolkit.cpp:372-380 | the texts of the written lines, in order |
| Onegin.PrintedLines | Onegin/onegin_toolkit.cpp:354-417 | print_text writes every non-empty line and only those, from the last under KEYS_REVERSE; under KEYS_ENUMERATE the lines are numbered 1, 2, ... in the order written, otherwise they are not numbered |
| Onegin.NonEmptyReversed | Onegin/onegin_toolkit.cpp:366-413 | dropping empty lines commutes with reversing the order |
| Onegin.NonEmptyCons | Onegin/onegin_toolkit.cpp:368-370 | an empty line in front is dropped, any other is kept |
| Onegin.PrintedReverse | Onegin/onegin_toolkit.cpp:366-413 | under KEYS_REVERSE the same lines are written in the opposite order |
| Onegin.PrintText | Onegin/onegin_toolkit.cpp:354-417 | print_text writes the entries Printed describes |
| Onegin.PrintBackward | Onegin/onegin_toolkit.cpp:366-389 | the backward loop writes the non-empty lines from last to first |
| Onegin.PrintForward | Onegin/onegin_toolkit.cpp:390-413 | the forward loop writes the non-empty lines from first to last |
| Akinator.ScanfMode | Akinator/akinator.cpp:72-102 | scanf_mode answers each mode exactly for its words (l/load, p/play, desc, diff, draw, s/save, q/exit) and MODE_ERROR exactly for every other line |
| Akinator.Reply | Akinator/akinator.cpp:268-273 | y/yes is a yes and n/no is a no, exactly |
| Akinator.AskIsRight | Akinator/akinator.cpp:259-293 | ask_is_right reads a second line exactly when the first is no answer, and the answer is that of the last line read |
| Akinator.RunEnd | Akinator/akinator.cpp:178-180 | `%[^}{]` stops at the first brace or the terminator |
| Akinator.RunClear | Akinator/akinator.cpp:178 | the run read holds no brace and no NUL |
| Akinator.TrimEnd | Akinator/akinator.cpp:181-184 | the loop strips exactly the trailing white space, and a run starting with a non-space character keeps a name |
| Akinator.Parse | Akinator/akinator.cpp:164-215 | a tree read moves the cursor forward and stays inside the buffer |
| Akinator.Body | Akinator/akinator.cpp:168-186 | after the opening brace the cursor only moves forward; an empty run, where `cmd_buf[len - 1]` reads before the buffer, and a run of CMD_BUF_LEN or more characters, which overflows `cmd_buf`, are undefined |
| Akinator.Rest | Akinator/akinator.cpp:188-199 | after the name, a tree ends after the name's end |
| Akinator.Children | Akinator/akinator.cpp:193-199 | after the left subtree, the right subtree is read from where it ended |
| Akinator.Close | Akinator/akinator.cpp:200-207 | an inner node is read only when its closing brace follows the right subtree, just after it |
| Akinator.TrimName | Akinator/akinator.cpp:181-184 | the loop leaves the name TrimEnd describes |
| Akinator.BuildTree | Akinator/akinator.cpp:164-215 | build_tree_from_array returns a tree exactly when Parse reads one, that tree and the cursor after it, and NULL otherwise |
| Akinator.RunEndAt | Akinator/akinator.cpp:178-180 | a run of k characters ending at a brace is read as exactly those k |
| Akinator.ReadHeader | Akinator/akinator.cpp:172-184 | on `{ name ` followed by a brace the parser reads the name back and stops at that brace |
| Akinator.ParseOpens | Akinator/akinator.cpp:172-187 | an opening brace and a name hand over to what follows the name |
| Akinator.ParseLeafAt | Akinator/akinator.cpp:188-191 | where a leaf's dump lies, the parser reads that leaf and lands after it |
| Akinator.ParseQuestionAt | Akinator/akinator.cpp:193-202 | `{ f `, two subtrees the parser reads and `}` are read as the inner node |
| Akinator.DumpParts | Akinator/akinator.cpp:549-556 | an inner node's dump is `{ f `, the two subtrees' dumps and `}`, in that order |
| Akinator.DumpBraces | Akinator/akinator.cpp:544-558 | what dump_tree_to_file writes (Dump) starts with `{ ` and ends with `}` |
| Akinator.DumpWidth | Akinator/akinator.cpp:544-558 | the dump's length is the tree's width |
| Akinator.DumpIsAt | Akinator/akinator.cpp:544-558 | where a dump lies, all of its parts lie where DumpParts says, down the tree |
| Akinator.ParseDumped | Akinator/akinator.cpp:164-215 | the parser reads a clean tree back from where its dump lies, ending right after it; clean names are non-empty, brace-free, trimmed and at most 98 characters (bytes), so `name ` fits `cmd_buf` |
| Akinator.ParseDump | Akinator/akinator.cpp:164-215 | parsing what dump_tree_to_file wrote gives back a clean tree, with the cursor just after it |
| Akinator.LoadSaved | Akinator/akinator.cpp:164-215 | a saved base whose names are clean loads back as the saved tree |
| Akinator.ReadClean | Akinator/akinator.cpp:177-184 | a name the parser reads is non-empty, brace-free and trimmed |
| Akinator.ParsedClean | Akinator/akinator.cpp:164-215 | every tree the parser builds has non-empty, brace-free, trimmed names shorter than CMD_BUF_LEN |
| Akinator.ReloadLoaded | Akinator/akinator.cpp:164-215 | saving a loaded tree and loading the file again gives the same tree when every name has at most 98 characters; with a 99-character name the reload overflows `cmd_buf` |
| Akinator.ParseDumpedLong | Akinator/akinator.cpp:164-215 | the dump of a tree the parser can build, with some name of 99 characters (bytes), is undefined to read back |
| Akinator.LongNameLoads | Akinator/akinator.cpp:168-191 | `{name}` with a 99-character name loads as a leaf, but the dump of that leaf overflows `cmd_buf` when loaded |
| Akinator.Path | Akinator/akinator.cpp:394-422 | a path exists exactly when some leaf carries the name |
| Akinator.Directions | Akinator/akinator.cpp:406-412 | each pushed feature's `applicable` is the direction the path took |
| Akinator.PathTail | Akinator/akinator.cpp:402-415 | the path below an inner node starts with its feature, goes left when the left subtree has the name and right only when it does not |
| Akinator.PathReaches | Akinator/akinator.cpp:394-422 | following the path's directions reaches the leaf with that name |
| Akinator.PathFeatures | Akinator/akinator.cpp:403 | each feature on the path is the feature of the inner node it was pushed for |
| Akinator.PathLeftmost | Akinator/akinator.cpp:404-410 | the search goes left first: no leaf with the name lies left of the path |
| Akinator.SubLeaves | Akinator/akinator.cpp:222-238 | a leaf reached by a walk is a leaf of the tree |
| Akinator.FindNodeAndFillStack | Akinator/akinator.cpp:394-422 | find_node_and_fill_stack succeeds exactly when a leaf has the name; then it pushes one feature per ancestor, the parent first and the root last, and adds their number to the depth; otherwise it changes neither |
| Akinator.AddNewEntry | Akinator/akinator.cpp:295-330 | add_new_entry turns the leaf into a question on the difference text, the new object on the left and the old one on the right |
| Akinator.PlugSub | Akinator/akinator.cpp:314-327 | putting back a subtree where it was changes nothing |
| Akinator.PlugStep | Akinator/akinator.cpp:226-229 | replacing one child of a node reached by a walk is replacing at the walk one step longer |
| Akinator.Play | Akinator/akinator.cpp:217-257 | akinator_play leaves the tree Game defines: it walks left on yes and right on no, stops on a wrong answer, and on a no at the leaf expands that leaf |
| Akinator.Game | Akinator/akinator.cpp:217-257 | a game loses no leaf of the tree and keeps the root's question |
| Akinator.Walk | Akinator/akinator.cpp:217-241 | the answers a game gives, yes as true, from the root down to the leaf whose guess is asked (or to where a wrong answer stops it) always lead to a node of the tree, and the guess is asked no earlier than the first line |
| Akinator.ExpandsAlongWalkStep | Akinator/akinator.cpp:222-238 | after one answered question the game continues in the child it chose: if the game from that child expands only the leaf its walk reaches, so does the game from the node |
| Akinator.GameExpandsOneLeaf | Akinator/akinator.cpp:217-257 | a game leaves the tree unchanged, or the guess at the end of its walk (Walk) is answered no, that node is a leaf, and the tree changes only there: the leaf becomes a question whose text is the second line after the answer, with the object named on the first line after it on the yes side and the old guess on the no side |
| Akinator.ExpandedLeaf | Akinator/akinator.cpp:310-327 | after the expansion, walking there and answering yes finds the new object, and no the previous one |
| DiffTree.NewNode | Differentiator/tree.cpp:13-43 | diff_new_node answers NULL exactly for TYPE_ERR and otherwise a node holding exactly the kind, data and children it was given |
| DiffTree.TokenEnd | Differentiator/tree.cpp:102-104 | `%[^)(]` stops at the first parenthesis or the terminator |
| DiffTree.TokenEndAt | Differentiator/tree.cpp:102-104 | a run of k characters ending at a delimiter is read as exactly those k |
| DiffTree.Classify | Differentiator/tree.cpp:106-147 | the strncmp chain on the first characters: x and the operator tokens need a non-empty token, + - * / ^ are binary, ln cos sin unary, anything else a constant |
| DiffTree.Parse | Differentiator/tree.cpp:93-161 | the cursor only moves forward, and a node is read only where `(` follows the blanks |
| DiffTree.Operator | Differentiator/tree.cpp:89-104 | after the left subtree the cursor only moves forward; a token of SUB_EXPR_LEN or more characters overflows `sub_expr_buf` and is undefined |
| DiffTree.Apply | Differentiator/tree.cpp:106-147 | reading the token's right subtree moves the cursor forward only |
| DiffTree.Close | Differentiator/tree.cpp:149-158 | the node is returned only with its `)`, and NULL otherwise |
| DiffTree.BuildTree | Differentiator/tree.cpp:84-162 | build_tree_from_array returns the tree and cursor Parse describes |
| DiffTree.BuildOperator | Differentiator/tree.cpp:100-104 | the token read after the left subtree is handed on as Operator says |
| DiffTree.BuildNode | Differentiator/tree.cpp:106-147 | the branch on the token builds the node Apply describes |
| DiffTree.CloseNode | Differentiator/tree.cpp:149-158 | the closing parenthesis is checked as Close says |
| DiffTree.ParseGrammar | Differentiator/tree.cpp:84-162 | every tree the reader builds follows the grammar: x and constants have no right child, ln, cos and sin have no left child, and no node is TYPE_ERR |
| DiffTree.OperatorGrammar | Differentiator/tree.cpp:100-147 | the part after a left subtree keeps the grammar |
| DiffTree.ApplyGrammar | Differentiator/tree.cpp:106-147 | each branch on the token keeps the grammar |
| DiffTree.PrintableGrammar | Differentiator/tree.cpp:106-147 | a printable tree follows the grammar |
| DiffTree.UnparseBrackets | Differentiator/tree.cpp:84-162 | the written form (Unparse) is empty exactly for NULL and otherwise starts with `(` and ends with `)` |
| DiffTree.TailCloses | Differentiator/tree.cpp:102-158 | the part after the left subtree (Tail) is longer than its token and ends with `)` (TailParts places the token first) |
| DiffTree.UnparseWidth | Differentiator/tree.cpp:84-162 | the written form's length is the tree's width |
| DiffTree.TailWidthIs | Differentiator/tree.cpp:102-158 | the token, right operand and `)` take their width |
| DiffTree.UnparseAt | Differentiator/tree.cpp:84-162 | where a written form lies, all its parts lie where they should, down the tree |
| DiffTree.TailIsAt | Differentiator/tree.cpp:102-158 | the same for the part after the left subtree |
| DiffTree.TailParts | Differentiator/tree.cpp:102-151 | a token, an operand text and `)` lie one after the other |
| DiffTree.TextShape | Differentiator/tree.cpp:102 | a printable kind's token holds no parenthesis, starts with no blank, and only a constant's may be empty |
| DiffTree.ClassifyOper | Differentiator/tree.cpp:109-143 | the chain takes each operator's token for that operator |
| DiffTree.ClassifyText | Differentiator/tree.cpp:106-147 | the chain takes each printable kind's token for that kind |
| DiffTree.NilAt | Differentiator/tree.cpp:159-161 | neither a blank nor `(` gives NULL without moving |
| DiffTree.CloseAt | Differentiator/tree.cpp:151-153 | a `)` completes the node and is passed |
| DiffTree.TokenAt | Differentiator/tree.cpp:100-104 | a token written in full and ended by a delimiter is read back whole (OperatorAt hands it on only when it is shorter than SUB_EXPR_LEN) |
| DiffTree.TailStart | Differentiator/tree.cpp:99-100 | what follows a left subtree is neither a blank nor `(`, so no second subtree is read there |
| DiffTree.ParseUnparsed | Differentiator/tree.cpp:84-162 | the written form of a printable node, whose constant tokens are shorter than SUB_EXPR_LEN, reads back as that node, with the cursor just after it |
| DiffTree.ParseOpens | Differentiator/tree.cpp:95-104 | at `(` the reader reads the left subtree and goes on from where it ends |
| DiffTree.OperatorTail | Differentiator/tree.cpp:100-158 | the token, right subtree and `)` of a printable node complete it |
| DiffTree.OperatorAt | Differentiator/tree.cpp:100-104 | a token read whole and shorter than SUB_EXPR_LEN is passed on, with the cursor after it, to decide the node |
| DiffTree.ApplyTail | Differentiator/tree.cpp:106-153 | a printable kind's token followed by its operand and `)` builds that node |
| DiffTree.ApplyTailOp | Differentiator/tree.cpp:109-143 | an operator token followed by its operand's written form and `)` builds the operator node |
| DiffTree.ApplyClosed | Differentiator/tree.cpp:106-147 | x and constant tokens read no right subtree and close at once |
| DiffTree.ApplyOperator | Differentiator/tree.cpp:109-143 | an operator token reads its right operand and closes; ln, cos and sin drop the left subtree |
| DiffTree.ParseUnparse | Differentiator/tree.cpp:84-162 | reading the fully parenthesised form of a printable tree, constant tokens shorter than SUB_EXPR_LEN, gives the tree back, whatever follows it, and the cursor lands just after it |
| DiffTree.LongTokenOverflows | Differentiator/tree.cpp:89-104 | `(tok)` with a token of SUB_EXPR_LEN or more characters overflows `sub_expr_buf`: reading it is undefined |
| DiffCalc.Term | Differentiator/calc.cpp:10 | TERM_CONST is a single constant node with no variable |
| DiffCalc.OperNode | Differentiator/calc.cpp:22 | OPER_NODE is the node diff_new_node builds, with the variables and size of both operands |
| DiffCalc.IsConst | Differentiator/calc.cpp:465-476 | is_const_subtree holds exactly for a node whose subtree has no variable node; NULL is not constant |
| DiffCalc.VarFreeEval | Differentiator/calc.cpp:465-476 | a tree without a variable node has the same value at every x, which is what makes is_const_subtree's test sound |
| DiffCalc.Copy | Differentiator/calc.cpp:450-463 | copy_tree gives back the same tree exactly when no node of it is TYPE_ERR, and never adds variables or nodes |
| DiffCalc.Derivative | Differentiator/calc.cpp:62-133 | the derivative brings in no variable the tree did not have |
| DiffCalc.OperDerivative | Differentiator/calc.cpp:84-125 | the same for an operator node |
| DiffCalc.QuotientRule | Differentiator/calc.cpp:95-96 | the same for the quotient rule |
| DiffCalc.PowerRule | Differentiator/calc.cpp:98-108 | the same for the power rules |
| DiffCalc.ConstantDerivative | Differentiator/calc.cpp:69-75 | any subtree without a variable node has derivative TERM_CONST (0), whatever its operators |
| DiffCalc.VariableRule | Differentiator/calc.cpp:76-83 | x has derivative 1 and any other variable gives NULL |
| DiffCalc.OperatorRules | Differentiator/calc.cpp:86-123 | on every tree without error nodes, whatever its operands: d(f+g) = df + dg, d(f-g) = df - dg, d(f g) = df g + f dg; the quotient rule (dl r - l dr) / r^2; a^g ln a dg for a constant base, c f^(c-1) df for a constant exponent, NULL for f^g; ln, cos and sin use the right operand only; OPER_ERR gives NULL |
| DiffCalc.PowerRules | Differentiator/calc.cpp:98-109 | the power case alone: a^g ln a dg for a constant base, c f^(c-1) df for a constant exponent, NULL when neither side is constant |
| DiffCalc.PolyNoErr | Differentiator/calc.cpp:450-463 | a polynomial tree has no error node, so copy_tree copies it exactly |
| DiffCalc.PolyRules | Differentiator/calc.cpp:86-94 | a polynomial's operator node is +, - or * and is differentiated by the sum, difference and product rules |
| DiffCalc.PolyDerivative | Differentiator/calc.cpp:62-133 | a polynomial's derivative is a polynomial |
| DiffCalc.ExpansionValue | Differentiator/calc.cpp:86-94 | the jet computed bottom-up carries the tree's value |
| DiffCalc.ProductExpansion | Differentiator/calc.cpp:92-93 | the product of two first-order expansions, sorted by powers of h |
| DiffCalc.MulDerivative | Differentiator/calc.cpp:92-93 | on a polynomial the product rule's tree evaluates to df g + f dg |
| DiffCalc.AddDerivative | Differentiator/calc.cpp:86-91 | on a polynomial the sum and difference rules' trees evaluate to df + dg and df - dg |
| DiffCalc.ExpansionSlope | Differentiator/calc.cpp:62-133 | the jet's slope is the value of the derivative tree |
| DiffCalc.MulShifted | Differentiator/calc.cpp:92-93 | multiplying two shifted values multiplies their jets |
| DiffCalc.AddShifted | Differentiator/calc.cpp:86-91 | shifting is linear |
| DiffCalc.ExpansionShift | Differentiator/calc.cpp:62-133 | a polynomial's value at x + h is its jet's value + h slope + h^2 rest |
| DiffCalc.DerivativeFirstOrder | Differentiator/calc.cpp:62-133 | the derivative is right: for every polynomial tree t(x + h) = t(x) + h t'(x) + h^2 R for an integer R |
| DiffCalc.CopyOf | Differentiator/calc.cpp:427-436 | copy_node makes the node a copy of src, and its assert fails exactly on a NULL src |
| DiffCalc.Rewrite | Differentiator/calc.cpp:290-425 | a rewrite gives a smaller node with no new variable, fails only on a missing operand, and ln, cos, sin and OPER_ERR are never rewritten |
| DiffCalc.RewriteRules | Differentiator/calc.cpp:290-425 | with both operands present and each rule tried in the order written: 0 + R is R, L + 0 is L, L - 0 is L, 1 * R is R, 0 * R and L * 0 are 0, L * 1 is L, 0 / R is 0, L / 1 is L, 1 ^ R is 1, 0 ^ R is 0, L ^ 1 is L, L ^ 0 is 1, and nothing else changes the node |
| DiffCalc.SimplifyPlus | Differentiator/calc.cpp:290-312 | simplify_plus rewrites exactly when an operand is 0, and then to the other operand |
| DiffCalc.SimplifyMinus | Differentiator/calc.cpp:314-330 | simplify_minus rewrites exactly when the right operand is 0, and then to the left one |
| DiffCalc.SimplifyMul | Differentiator/calc.cpp:332-365 | simplify_mul rewrites exactly when an operand is 0 or 1: a factor 1 gives the other operand and a factor 0 gives 0 |
| DiffCalc.SimplifyDiv | Differentiator/calc.cpp:367-389 | simplify_div rewrites exactly when the dividend is 0, to 0, or the divisor is 1, to the dividend |
| DiffCalc.SimplifyPow | Differentiator/calc.cpp:391-425 | simplify_pow rewrites exactly when base or exponent is 0 or 1: base 1 or exponent 0 give 1, base 0 gives 0, exponent 1 gives the base |
| DiffCalc.Simplify | Differentiator/calc.cpp:237-288 | simplify_operations fails only on a NULL, never grows the tree or adds a variable; it reports a rewrite only at a binary operator node, whose own rule then shrinks it, and without a report the node keeps its kind, whatever its children's rewrites did |
| DiffCalc.SimplifyFull | Differentiator/calc.cpp:427-431 | the asserts in copy_node can only fail at a binary operator with a missing operand |
| DiffCalc.RewritePoly | Differentiator/calc.cpp:290-365 | with tests that answer yes only for constants of that value, each rule keeps a polynomial's value and shape |
| DiffCalc.SimplifyPoly | Differentiator/calc.cpp:237-365 | simplifying a polynomial never fails and gives a polynomial with the same value at every x |
| DiffCalc.FlagMissesChildRewrite | Differentiator/calc.cpp:250-281 | the flag reports only the node's own rule: in x * (0 + x) the operand becomes x and the flag stays false |
| Processor.Initial | Processor/processor.cpp:15-75 | the machine starts with pc 0, zeroed registers and RAM of the stated sizes, an empty stack and nothing printed |
| Processor.SizeT | Processor/processor.cpp:178 | `(size_t)` of an int keeps a non-negative value and sends a negative one to at least 2^64 - 2^31 |
| Processor.ProductIs | Processor/processor.cpp:145-150 | the product the machine computes for mul is the mathematical product x * y |
| Processor.Quotient | Processor/processor.cpp:151-161 | the quotient of naturals is at most the dividend, and at most half of it for a divisor of 2 or more |
| Processor.QuotientIs | Processor/processor.cpp:151-161 | repeated subtraction gives exactly the floor quotient m / n |
| Processor.CDivAgrees | Processor/processor.cpp:151-161 | on non-negative operands C's truncating `/` agrees with Euclidean division |
| Processor.FetchOperand | Processor/processor.cpp:96-124 | the operand consumes 4 bytes for an immediate and 1 for a register, never past the end of the byte code; a fetched value is a 32-bit int; an immediate that does not fit is undefined; with neither flag the operand is 0 and nothing is consumed |
| Processor.PushStep | Processor/processor.cpp:90-105 | push never leaves the loop and keeps the register file and RAM sizes |
| Processor.Store | Processor/processor.cpp:112-124 | storing an int at addr writes its four little-endian bytes at addr..addr+4 and leaves every other RAM byte as it was |
| Processor.PopStep | Processor/processor.cpp:106-132 | pop never leaves the loop and keeps the register file and RAM sizes |
| Processor.Arith | Processor/processor.cpp:133-161 | an arithmetic result that is defined is a 32-bit int |
| Processor.ArithStep | Processor/processor.cpp:133-161 | add, sub, mul and div leave the loop only with status 4, keeping what was printed before and ending with the division-by-zero report |
| Processor.JumpTo | Processor/processor.cpp:176-179 | jmp is defined exactly when the 4-byte target lies inside the byte code, and then only pc changes, to `(size_t)` of the target |
| Processor.CondJumpStep | Processor/processor.cpp:180-239 | a conditional jump never leaves the loop and keeps the register file and RAM sizes |
| Processor.CallStep | Processor/processor.cpp:240-245 | call never leaves the loop and keeps the register file and RAM sizes |
| Processor.RetStep | Processor/processor.cpp:246-249 | ret never leaves the loop and keeps the register file and RAM sizes |
| Processor.InStep | Processor/processor.cpp:162-168 | in never leaves the loop and keeps the register file and RAM sizes |
| Processor.OutStep | Processor/processor.cpp:169-172 | out never leaves the loop and keeps the register file and RAM sizes |
| Processor.Step | Processor/processor.cpp:83-255 | one pass of the loop keeps the machine's shape; it leaves the loop only with status 0 or 4, and status 4 always comes right after the division-by-zero report |
| Processor.Run | Processor/processor.cpp:83-255 | a run that halts returns 0, or 4 with the division-by-zero report as the last thing printed |
| Processor.Advance | Processor/processor.cpp:83-255 | the same for a run whose next instruction executes |
| Processor.RunContinues | Processor/processor.cpp:83-255 | a step that continues hands the rest of the run to the next state, keeping its shape |
| Processor.RunStops | Processor/processor.cpp:173-255 | a step that leaves the loop ends the run with its status and state |
| Processor.RunCrashes | Processor/processor.cpp:83-255 | a step with undefined behaviour makes the run crash |
| Processor.RunEnds | Processor/processor.cpp:83 | with pc at or past the end of the byte code the run halts with status 0 where it is |
| Processor.Machine.Model | Processor/processor.cpp:15-28 | the globals and locals of the machine make a state of the right shape |
| Processor.Machine.constructor | Processor/processor.cpp:15-75 | a fresh machine is in the initial state |
| Processor.Machine.Execute | Processor/processor.cpp:83-255 | the loop, updating the fields in place, gives the outcome of the run from the old state, and on anything but a crash its final state is the new state of the fields |
| Processor.Machine.RunOne | Processor/processor.cpp:84-254 | a pass of the loop body continues, stops or crashes exactly as the run from the old state does |
| Processor.Machine.ExecuteOne | Processor/processor.cpp:84-254 | a pass of the loop body does what Step says, in place |
| Processor.Machine.DoPush | Processor/processor.cpp:90-105 | the push case, in place, does what PushStep says |
| Processor.Machine.DoPop | Processor/processor.cpp:106-132 | the pop case, in place, does what PopStep says |
| Processor.Machine.StoreInt | Processor/processor.cpp:112-124 | the RAM afterwards is Store of the old RAM |
| Processor.Machine.DoArith | Processor/processor.cpp:133-161 | the arithmetic cases, in place, do what ArithStep says |
| Processor.Machine.DoIn | Processor/processor.cpp:162-168 | the in case, in place, does what InStep says |
| Processor.Machine.DoOut | Processor/processor.cpp:169-172 | the out case, in place, does what OutStep says |
| Processor.Machine.DoJump | Processor/processor.cpp:176-179 | the jmp case, in place, does what JumpTo says |
| Processor.Machine.DoCondJump | Processor/processor.cpp:180-239 | the conditional jumps, in place, do what CondJumpStep says |
| Processor.Machine.DoCall | Processor/processor.cpp:240-245 | the call case, in place, does what CallStep says |
| Processor.Machine.DoRet | Processor/processor.cpp:246-249 | the ret case, in place, does what RetStep says |
| ProcessorFacts.ArithmeticOrder | Processor/processor.cpp:133-150 | add, sub and mul pop the right operand first, then the left, and push `left op right`; a result outside 32 bits is undefined |
| ProcessorFacts.DivisionByZeroExits | Processor/processor.cpp:151-159 | div with a zero right operand pops both operands, reports the error and leaves the loop with status 4 |
| ProcessorFacts.DivisionTruncates | Processor/processor.cpp:151-161 | otherwise div pushes the quotient truncated toward zero; only INT_MIN / -1 overflows |
| ProcessorFacts.QuotientFits | Processor/processor.cpp:151-161 | the truncated quotient of 32-bit ints fits in 32 bits except for INT_MIN / -1 |
| ProcessorFacts.TruncatesTowardZero | Processor/processor.cpp:160 | C's `/` gives -7 / 2 == -3 where Euclidean division gives -4 |
| ProcessorFacts.ConditionalJump | Processor/processor.cpp:180-239 | a conditional jump pops two operands; when the comparison holds pc becomes the embedded target, otherwise pc skips the 4-byte target |
| ProcessorFacts.NegativeTargetEndsLoop | Processor/processor.cpp:83-179 | a negative jump target becomes a huge size_t, so the loop ends there with status 0 |
| ProcessorFacts.CallThenRet | Processor/processor.cpp:240-249 | call pushes the offset just past its target field and jumps; a ret at the target resumes exactly there |
| ProcessorFacts.PushWithoutOperand | Processor/processor.cpp:92-95 | push with neither IMM nor REG reports a format error and moves on to the next byte, the stack unchanged |
| ProcessorFacts.PushImmediate | Processor/processor.cpp:96-104 | `push N` pushes the immediate stored after the opcode and skips it |
| ProcessorFacts.PushRegister | Processor/processor.cpp:100-104 | `push rx` pushes the register named by the next byte |
| ProcessorFacts.PushMemory | Processor/processor.cpp:96-104 | `push [N]` pushes the RAM byte at N as a signed char; an address outside the RAM is undefined |
| ProcessorFacts.PopFormatErrorSkipsNothing | Processor/processor.cpp:107-111 | pop with IMM but no MEM, or MEM alone, is a format error that moves to the next byte without skipping the immediate |
| ProcessorFacts.ImmediateOperand | Processor/processor.cpp:96-99 | the operand of an immediate-only instruction is that immediate, and it consumes four bytes |
| ProcessorFacts.PopToMemory | Processor/processor.cpp:112-124 | `pop [N]` stores the popped int, lowest byte first, in ram[N..N+4] and changes nothing else |
| ProcessorFacts.PopOutsideMemory | Processor/processor.cpp:119-123 | an address outside the RAM is reported and nothing is popped: the error is not fatal |
| ProcessorFacts.PopOverrunsMemory | Processor/processor.cpp:119-124 | an address in the last three bytes passes the range check but the 4-byte store overruns the RAM |
| ProcessorFacts.PopMemoryUsesPreviousRegister | Processor/processor.cpp:117-118 | `pop [rx]` addresses with the register before the one named, so naming register 0 is undefined |
| ProcessorFacts.PopToRegister | Processor/processor.cpp:125-127 | `pop rx` stores the popped value in the register named by the next byte |
| ProcessorFacts.BarePopPrints | Processor/processor.cpp:128-131 | a bare pop prints the popped value; on an empty stack stack_pop first complains on stderr and then 0 is printed |
| ProcessorFacts.OutOnEmptyStack | Stack/stack.cpp:102-112 | `out` on an empty stack writes stack_pop's complaint and then `out: 0`, and the stack stays empty |
| ProcessorFacts.PushWhenFull | Stack/stack.cpp:52-63 | `push N` onto a stack already holding MAX_CAP values writes stack_push's complaint, drops the value and still skips the immediate |
| ProcessorFacts.InReads | Processor/processor.cpp:162-168 | in pushes the next input integer; with none left it reports an error and pushes nothing |
| ProcessorFacts.StepExits | Processor/processor.cpp:151-253 | the loop is left exactly on hlt, an unknown opcode or a zero divisor, and with status 4 exactly on the zero divisor |
| ProcessorFacts.StepKeepsSane | Processor/processor.cpp:83-255 | every defined step keeps every register, stack entry and input value a 32-bit int and the stack within its capacity |
| ProcessorFacts.DataStepKeepsSane | Processor/processor.cpp:90-161 | the same for push, pop, add, sub, mul and div |
| ProcessorFacts.ControlStepKeepsSane | Processor/processor.cpp:162-249 | the same for in, out, jmp, the conditional jumps, call and ret |
| ProcessorFacts.RetIsDefined | Processor/processor.cpp:246-249 | with every value in 32 bits, ret never meets undefined behaviour |
| ProcessorFacts.PushFollowsDecoder | Processor/processor.cpp:90-105 | push consumes exactly the bytes the disassembler decodes for it |
| ProcessorFacts.AddsTwoAndThree | Processor/processor.cpp:83-255 | the program `push 2; push 3; add; out; hlt` prints 5 and returns 0 with the stack empty again |

## Left out

- File and stream I/O, argument checks on file names, exit codes for failed opens, and prompts. The byte code, the input texts and the typed lines are sequences. What the interpreter writes to stdout and stderr is a sequence of `Processor.Event`s. These include the stack's own complaints on a pop from an empty stack (Stack/stack.cpp:110) and on a push onto a full one (Stack/stack.cpp:61). The stack's VERIFY_AT dumps and the complaint when shrinking fails are not among them. Of the other programs, only the results the rows above name are modelled, not their printed text.
- Allocation failure of malloc, calloc and realloc is not modelled: every allocation succeeds. The stack's MAX_CAP limit is the exception: it is modelled in the Stack module and in the interpreter's operand stack, but not in Akinator's feature stack (next line).
- Akinator.FindNodeAndFillStack: pushes onto an unbounded sequence. stack_push refuses a push once MAX_CAP (65536) features are held, so on a base with a leaf more than 65536 questions deep the C stack would lose features and print stack_push's complaint. The model does neither.
- One Dafny `char` stands for one byte of a C buffer. The length limits of the readers (`Akinator.CmdBufLen`, `DiffTree.SubExprLen`, and MAX_LINE_LEN as `Compiler.ChunkLen` uses it) therefore count bytes. A name typed in Cyrillic takes two UTF-8 bytes per letter, so a 60-letter name is 120 characters in the model and does not fit `cmd_buf`. No decoding, normalisation or case folding is modelled.
- Memory release and leaks are not modelled. This covers `free` on error paths, `diff_free_tree` and akinator's `free_tree`, because values have no lifetime here. `list_dtor` and `stack_dtor` are modelled as field resets.
- These are print-only, so they are not modelled:
  - `dump_stack`;
  - `list_dump` and `list_draw` (Graphviz);
  - `dump_labels`;
  - `print_table`;
  - Onegin's `print_help`;
  - all of Differentiator/dump.cpp.
- The text layout is modelled, but not the formatted printing of the disassembler and the listing.
- Onegin's `get_text` reads a file, so it is not modelled. `index_text` is given the text buffer.
- Akinator leaves out three kinds of function:
  - `akinator_get_mode`, `load_base`, `akinator_save`, `akinator_draw` and `akinator_exit` are file I/O or a menu loop. The brace format they read and write is modelled by the parser and the dump.
  - `akinator_description` and `akinator_diff` are printing walks over `find_node_and_fill_stack`, which are not modelled beyond that search.
  - The 100-byte `cmd_buf` limit of fgets on typed lines is not modelled: a typed line is one whole element of the input. The same buffer in `build_tree_from_array` is modelled: a name run of 100 or more characters there is `Undefined`.
- The Differentiator leaves out floating-point numerics:
  - `calculate_constants`, `calculate_operation` and `diff_simplify_tree`'s loop around them;
  - `is_equal` becomes the parameter `equal` of the simplifier;
  - a constant is either a literal made by the differentiator or the token `strtod` would convert.
  - `diff_read_tree` only reads a file into the buffer the parser is given.
- `DiffCalc.Eval` gives a value only to `+`, `-`, `*`, variables and literal constants. The derivative rules of the other operators are stated as tree equations (`OperatorRules`), not as values.
- The simplifier works on values: `simplify_operations` and the `simplify_*` rules return a new tree instead of overwriting the node in place through `copy_node` and freeing children. The "changed" flag is modelled as in the source.
- Akinator's `add_new_entry` and `akinator_play` likewise rewrite a value tree. They do not splice pointer nodes in place.
- Stack: three things are not modelled:
  - the raw memory layout, meaning the canary words around the data buffer, the pointer arithmetic, and the `get_hash` of the struct's own bytes. The struct canaries and the data hash are both modelled.
  - the assertion `capacity % 2 != 0` in `free_more` (Stack/stack.cpp:132), which can never hold for the power-of-two capacities. It is taken as compiled out.
- Onegin.CompareReverse: when the second line runs out first, compare_reverse reads the byte before that line. For every line but `index[0]` that byte is the previous line's terminator, and the model reads a terminator there. For `index[0]` the read is before the buffer and undefined in C; the model gives it the same terminator.
- Onegin.SortText: under KEYS_SORT_FROM_END, qsort is handed compare_reverse, which is not a consistent comparator (`Onegin.RingBring`), so section 7.22.5 of the C11 standard leaves the result undefined. The model sorts instead by strcicmp on the characters compare_reverse visits, a total preorder that agrees with compare_reverse wherever compare_reverse answers non-zero (`Onegin.SortedByCompareReverse`).
- DisassemblerFacts.OperandLineReadsBack: negative immediates and `push []` are not read back, because the assembler's parse_reg_and_arg accepts neither a minus sign nor empty brackets. The read-back is also stated for the whole line at once: the assembler reads with `fgets (str, MAX_LINE_LEN, input)` (`Compiler.ChunkLen`), so a printed line of 19 or more characters, such as `push [ax+1000000000]`, reaches parse_str_to_cmd split into pieces, which the lemma does not follow.
- `qsort` is stood in by an insertion sort: `Sorting.SortBy` is only the promise of a sorted permutation. The order of equal elements is not modelled by any property.
- Processor.Run: the interpreter run carries a fuel bound. A program that loops forever has outcome `OutOfFuel` for every fuel, and nothing is claimed about non-termination.
- The `in` instruction takes integers from an input sequence, standing in for `scanf` on stdin. Input that is not an integer is not modelled beyond "no integer left".
- Onegin.IndexText: index_text allocates one entry per newline and then writes `index[0]` and one more entry after every terminator. On an empty text, a text without a final newline, or a text that already holds a NUL, it writes past the end of the calloc'ed `index`. The method's preconditions exclude exactly these inputs, so the model gives them no result.
- Behaviour that is undefined in C is not given a result: overflowing arithmetic, reads past the end, an out-of-range register or RAM index, the unterminated `reg_str` in the assembler, the `cmd_buf` and `sub_expr_buf` overflows of the two tree readers, and `compare_reverse` reading the byte before the first line of the buffer. Such inputs reach the explicit `Undefined` outcome or, for the functions outside the interpreter, a precondition.
- Two behaviours that look unintended are modelled as written:
  - `is_jump` lists JAE twice and never JBE, so `jbe label` is not assembled as a jump (`CompilerFacts.JbeRejectsLabel`);
  - pop to memory through a register uses `regs[r - 1]` (`ProcessorFacts.PopMemoryUsesPreviousRegister`).
- The header and main files of Onegin declare signatures that do not match onegin_toolkit.cpp. The model follows the .cpp.
