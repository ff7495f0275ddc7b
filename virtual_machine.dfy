/**
 * tools/module/virtual_machine/virtual_machine_interpreter.hpp: the opcode
 * and operand-type enumerations and `memory::next_command`, which decodes the
 * 16-byte instruction at the current text address into the `info` block at
 * the start of the runtime memory and moves the text address on.
 *
 * The runtime memory `memory_` is a byte array whose first `INFO_SIZE` bytes
 * are the `info` structure, read through `reinterpret_cast`.  Its fields sit
 * at their natural alignment, as on the usual ABIs, and multi-byte values are
 * little-endian.
 */
module VirtualMachine {
  import opened Size
  import opened Numerals
  import opened Wrappers

  /** `enum class data_type : u16`, values 0 to 9. */
  datatype DataType = Int8 | UInt8 | Int16 | UInt16 | Int32 | UInt32 | Int64 | UInt64 | Float32 | Float64

  /** `enum class ASM : u16`, values 0 to 28. */
  datatype Asm =
    | Add | Sub | Mul | Div | Mod | Inc | Dec
    | And | Or | Xor | Not
    | Eq | Neq | Lt | Gt | Lte | Gte
    | Push | Pop | Alloc | Free | SetValue
    | Jmp | Jz | Jnz | Call | Ret
    | Nop | Halt

  /** The value of a `data_type` enumerator: its place in the declaration. */
  function DataTypeCode(t: DataType): (r: U16)
    ensures r < 10
  {
    match t
    case Int8 => 0 case UInt8 => 1 case Int16 => 2 case UInt16 => 3 case Int32 => 4
    case UInt32 => 5 case Int64 => 6 case UInt64 => 7 case Float32 => 8 case Float64 => 9
  }

  /** The value of an `ASM` enumerator: its place in the declaration. */
  function AsmCode(a: Asm): (r: U16)
    ensures r < 29
  {
    match a
    case Add => 0 case Sub => 1 case Mul => 2 case Div => 3 case Mod => 4 case Inc => 5
    case Dec => 6 case And => 7 case Or => 8 case Xor => 9 case Not => 10 case Eq => 11
    case Neq => 12 case Lt => 13 case Gt => 14 case Lte => 15 case Gte => 16 case Push => 17
    case Pop => 18 case Alloc => 19 case Free => 20 case SetValue => 21 case Jmp => 22 case Jz => 23
    case Jnz => 24 case Call => 25 case Ret => 26 case Nop => 27 case Halt => 28
  }

  /** The enumerator a 16-bit value names; a value past `float64` names none. */
  function DataTypeOf(code: U16): (r: Option<DataType>)
    ensures r.Some? <==> code < 10
    ensures r.Some? ==> DataTypeCode(r.value) == code
  {
    match code
    case 0 => Some(Int8) case 1 => Some(UInt8) case 2 => Some(Int16) case 3 => Some(UInt16) case 4 => Some(Int32)
    case 5 => Some(UInt32) case 6 => Some(Int64) case 7 => Some(UInt64) case 8 => Some(Float32) case 9 => Some(Float64)
    case _ => None
  }

  /** The opcode a 16-bit value names; a value past `halt` names none. */
  function AsmOf(code: U16): (r: Option<Asm>)
    ensures r.Some? <==> code < 29
    ensures r.Some? ==> AsmCode(r.value) == code
  {
    if code < 7 then Some(ArithmeticAsm(code))
    else if code < 11 then Some(LogicAsm(code))
    else if code < 17 then Some(ComparisonAsm(code))
    else if code < 22 then Some(MemoryAsm(code))
    else if code < 27 then Some(ControlAsm(code))
    else if code < 29 then Some(OtherAsm(code))
    else None
  }

  /** The arithmetic opcodes, `add` to `dec`. */
  function ArithmeticAsm(code: U16): (a: Asm)
    requires code < 7
    ensures AsmCode(a) == code
  {
    match code
    case 0 => Add case 1 => Sub case 2 => Mul case 3 => Div case 4 => Mod
    case 5 => Inc case _ => Dec
  }

  /** The logic opcodes, `and` to `not`. */
  function LogicAsm(code: U16): (a: Asm)
    requires 7 <= code < 11
    ensures AsmCode(a) == code
  {
    match code
    case 7 => And case 8 => Or case 9 => Xor case _ => Not
  }

  /** The comparison opcodes, `eq` to `gte`. */
  function ComparisonAsm(code: U16): (a: Asm)
    requires 11 <= code < 17
    ensures AsmCode(a) == code
  {
    match code
    case 11 => Eq case 12 => Neq case 13 => Lt case 14 => Gt case 15 => Lte
    case _ => Gte
  }

  /** The memory opcodes, `push` to `setvalue`. */
  function MemoryAsm(code: U16): (a: Asm)
    requires 17 <= code < 22
    ensures AsmCode(a) == code
  {
    match code
    case 17 => Push case 18 => Pop case 19 => Alloc case 20 => Free case _ => SetValue
  }

  /** The control-flow opcodes, `jmp` to `ret`. */
  function ControlAsm(code: U16): (a: Asm)
    requires 22 <= code < 27
    ensures AsmCode(a) == code
  {
    match code
    case 22 => Jmp case 23 => Jz case 24 => Jnz case 25 => Call case _ => Ret
  }

  /** The other opcodes, `nop` to `halt`. */
  function OtherAsm(code: U16): (a: Asm)
    requires 27 <= code < 29
    ensures AsmCode(a) == code
  {
    match code
    case 27 => Nop case _ => Halt
  }

  /** Decoding an enumerator's value gives the enumerator back. */
  lemma EnumRoundTrips(a: Asm, t: DataType)
    ensures AsmOf(AsmCode(a)) == Some(a)
    ensures DataTypeOf(DataTypeCode(t)) == Some(t)
  {
  }

  /** Distinct enumerators have distinct values. */
  lemma EnumCodesDistinct(a1: Asm, a2: Asm, t1: DataType, t2: DataType)
    ensures AsmCode(a1) == AsmCode(a2) ==> a1 == a2
    ensures DataTypeCode(t1) == DataTypeCode(t2) ==> t1 == t2
  {
    EnumRoundTrips(a1, t1);
    EnumRoundTrips(a2, t2);
  }

  // Widths in bytes of `u8`, `u16`, `u32` and `u64`.
  const BYTE: nat := 1
  const HALF: nat := 2
  const WORD: nat := 4
  const DWORD: nat := 8

  // Byte offsets of the `info` fields.
  const MEMORY_SIZE_AT: nat := 0
  const PROGRAM_ENTRY_AT: nat := 4
  const TEXT_DOWN_AT: nat := 8
  const TEXT_NOW_UP_AT: nat := 12
  const TEXT_UP_AT: nat := 16
  const STACK_DOWN_AT: nat := 20
  const STACK_NOW_UP_AT: nat := 24
  const STACK_UP_AT: nat := 28
  const HEAP_DOWN_AT: nat := 32
  const HEAP_UP_AT: nat := 36
  const LOG_LEVEL_AT: nat := 40
  const SECURITY_LEVEL_AT: nat := 41
  /** `u64 registers[24]`, aligned to 8 bytes. */
  const REGISTERS_AT: nat := 48
  const REGISTER_COUNT: nat := 24
  const NOW_ASM_AT: nat := 240
  const NOW_DATA_TYPE_AT: nat := 242
  const NOW_OUT_AT: nat := 244
  const NOW_IN1_AT: nat := 248
  const NOW_IN2_AT: nat := 252
  /** `sizeof(memory::info)` */
  const INFO_SIZE: nat := 256

  // Byte offsets inside an instruction.
  const OPCODE_OFFSET: nat := 0
  const TYPE_OFFSET: nat := 2
  const OUT_OFFSET: nat := 4
  const IN1_OFFSET: nat := 8
  const IN2_OFFSET: nat := 12
  /** `sizeof(ASM) + sizeof(data_type) + sizeof(bit_size) * 3` */
  const COMMAND_SIZE: nat := 16

  /** The `width` least significant bytes of `v`, least significant first. */
  function LittleEndian(v: nat, width: nat): (r: seq<U8>)
    ensures |r| == width
    decreases width
  {
    if width == 0 then [] else [v % 256] + LittleEndian(v / 256, width - 1)
  }

  /** The number that little-endian bytes stand for. */
  function Value(d: seq<U8>): (r: nat)
    ensures r < Pow(256, |d|)
  {
    if |d| == 0 then 0 else d[0] + 256 * Value(d[1..])
  }

  /** The little-endian value of `width` bytes from `at` on: a read through a `u8*`, `u16*`, `u32*` or `u64*`. */
  function Load(bytes: seq<U8>, at: nat, width: nat): (r: nat)
    requires at + width <= |bytes|
    ensures r < Pow(256, width)
  {
    Value(bytes[at..at + width])
  }

  /** The bytes after `v`, cut to `width` bytes, is stored little-endian from `at` on. */
  function Store(bytes: seq<U8>, at: nat, width: nat, v: nat): (r: seq<U8>)
    requires at + width <= |bytes|
    ensures |r| == |bytes|
  {
    var d := LittleEndian(v, width);
    seq(|bytes|, i requires 0 <= i < |bytes| => if at <= i < at + width then d[i - at] else bytes[i])
  }

  /** A store changes nothing outside its range. */
  lemma StoreOutside(bytes: seq<U8>, at: nat, width: nat, v: nat)
    requires at + width <= |bytes|
    ensures forall i :: 0 <= i < |bytes| && !(at <= i < at + width) ==> Store(bytes, at, width, v)[i] == bytes[i]
  {
  }

  /** Byte arithmetic: the low byte and the remainder of the higher bytes make the remainder of the whole. */
  lemma DigitStep(v: nat, q: nat)
    requires q > 0
    ensures v % 256 + 256 * ((v / 256) % q) == v % (256 * q)
  {
    var a, r := v / 256, v % 256;
    var c, d := a / q, a % q;
    assert v == 256 * a + r;
    assert a == c * q + d;
    assert v == c * (256 * q) + (256 * d + r);
    DivModUnique(v, 256 * q, c, 256 * d + r);
  }

  /** Euclidean division has one quotient and remainder. */
  lemma DivModUnique(v: nat, m: nat, c: nat, r: nat)
    requires m > 0 && r < m && v == c * m + r
    ensures v % m == r
  {
    var c', r' := v / m, v % m;
    assert (c - c') * m == r' - r;
    if c > c' {
      MulMonotone(1, c - c', m);
    } else if c < c' {
      MulMonotone(1, c' - c, m);
    }
  }

  /** The little-endian bytes of `v` stand for `v` cut to their width. */
  lemma {:induction false} ValueOfLittleEndian(v: nat, width: nat)
    ensures Value(LittleEndian(v, width)) == v % Pow(256, width)
    decreases width
  {
    if width > 0 {
      var d := LittleEndian(v, width);
      assert d[1..] == LittleEndian(v / 256, width - 1);
      ValueOfLittleEndian(v / 256, width - 1);
      DigitStep(v, Pow(256, width - 1));
    }
  }

  /** Storing and then loading back the same range gives the value modulo 2^(8 width). */
  lemma LoadStore(bytes: seq<U8>, at: nat, width: nat, v: nat)
    requires at + width <= |bytes|
    ensures Load(Store(bytes, at, width, v), at, width) == v % Pow(256, width)
  {
    assert Store(bytes, at, width, v)[at..at + width] == LittleEndian(v, width);
    ValueOfLittleEndian(v, width);
  }

  /** Storing a value that fits its width and loading the range back gives the value. */
  lemma LoadStoreFits(bytes: seq<U8>, at: nat, width: nat, v: nat)
    requires at + width <= |bytes| && v < Pow(256, width)
    ensures Load(Store(bytes, at, width, v), at, width) == v
  {
    LoadStore(bytes, at, width, v);
    DivModUnique(v, Pow(256, width), 0, v);
  }

  /** A load reads only its own range. */
  lemma LoadFrame(b1: seq<U8>, b2: seq<U8>, at: nat, width: nat)
    requires at + width <= |b1| && at + width <= |b2|
    requires forall i :: at <= i < at + width ==> b1[i] == b2[i]
    ensures Load(b1, at, width) == Load(b2, at, width)
  {
    assert b1[at..at + width] == b2[at..at + width];
  }

  /** A store does not change a load from a range it does not touch. */
  lemma LoadOutside(bytes: seq<U8>, at: nat, width: nat, v: nat, at2: nat, width2: nat)
    requires at + width <= |bytes| && at2 + width2 <= |bytes|
    requires at + width <= at2 || at2 + width2 <= at
    ensures Load(Store(bytes, at, width, v), at2, width2) == Load(bytes, at2, width2)
  {
    assert Store(bytes, at, width, v)[at2..at2 + width2] == bytes[at2..at2 + width2];
  }

  /** The `info` block, field by field; the raw `u16` codes of the current instruction are kept as read. */
  datatype Info = Info(
    memorySize: nat, programEntry: nat, textDown: nat, textNowUp: nat, textUp: nat,
    stackDown: nat, stackNowUp: nat, stackUp: nat, heapDown: nat, heapUp: nat,
    logLevel: nat, securityLevel: nat, registers: seq<nat>,
    nowAsm: nat, nowDataType: nat, nowOut: nat, nowIn1: nat, nowIn2: nat)

  /** `*reinterpret_cast<memory::info*>(ram)` */
  function InfoOf(ram: seq<U8>): (r: Info)
    requires |ram| >= INFO_SIZE
    ensures |r.registers| == REGISTER_COUNT
  {
    Info(Load(ram, MEMORY_SIZE_AT, WORD), Load(ram, PROGRAM_ENTRY_AT, WORD), Load(ram, TEXT_DOWN_AT, WORD),
         Load(ram, TEXT_NOW_UP_AT, WORD), Load(ram, TEXT_UP_AT, WORD), Load(ram, STACK_DOWN_AT, WORD),
         Load(ram, STACK_NOW_UP_AT, WORD), Load(ram, STACK_UP_AT, WORD), Load(ram, HEAP_DOWN_AT, WORD),
         Load(ram, HEAP_UP_AT, WORD), Load(ram, LOG_LEVEL_AT, BYTE), Load(ram, SECURITY_LEVEL_AT, BYTE),
         seq(REGISTER_COUNT, k requires 0 <= k < REGISTER_COUNT => Load(ram, REGISTERS_AT + 8 * k, DWORD)),
         Load(ram, NOW_ASM_AT, HALF), Load(ram, NOW_DATA_TYPE_AT, HALF), Load(ram, NOW_OUT_AT, WORD),
         Load(ram, NOW_IN1_AT, WORD), Load(ram, NOW_IN2_AT, WORD))
  }

  /** The text address `next_command` reads the instruction from. */
  function TextNowUp(ram: seq<U8>): nat
    requires |ram| >= INFO_SIZE
  {
    Load(ram, TEXT_NOW_UP_AT, WORD)
  }

  /** What `next_command` demands of the memory: an `info` block, and a whole instruction at the text address. */
  predicate CanDecode(ram: seq<U8>)
  {
    |ram| >= INFO_SIZE && TextNowUp(ram) + COMMAND_SIZE <= |ram|
  }

  /**
   * The memory after `next_command`, statement by statement: each field of
   * the current instruction is read from the memory as the previous
   * statements left it, then the text address moves on by 16, modulo 2^32.
   */
  function NextCommandEffect(ram: seq<U8>): (r: seq<U8>)
    requires CanDecode(ram)
    ensures |r| == |ram|
  {
    var pc := TextNowUp(ram);
    var r1 := Store(ram, NOW_ASM_AT, HALF, Load(ram, pc + OPCODE_OFFSET, HALF));
    var r2 := Store(r1, NOW_DATA_TYPE_AT, HALF, Load(r1, pc + TYPE_OFFSET, HALF));
    var r3 := Store(r2, NOW_OUT_AT, WORD, Load(r2, pc + OUT_OFFSET, WORD));
    var r4 := Store(r3, NOW_IN1_AT, WORD, Load(r3, pc + IN1_OFFSET, WORD));
    var r5 := Store(r4, NOW_IN2_AT, WORD, Load(r4, pc + IN2_OFFSET, WORD));
    Store(r5, TEXT_NOW_UP_AT, WORD, pc + COMMAND_SIZE)
  }

  /** Only the text address and the current-instruction fields of `info` are written. */
  predicate OnlyDecodeFieldsDiffer(b1: seq<U8>, b2: seq<U8>)
  {
    |b1| == |b2| &&
    forall i :: 0 <= i < |b1| && !(TEXT_NOW_UP_AT <= i < TEXT_NOW_UP_AT + 4) && !(NOW_ASM_AT <= i < INFO_SIZE) ==> b1[i] == b2[i]
  }

  /** An instruction as its five fields. */
  datatype Command = Command(opcode: U16, dataType: U16, out: U32, in1: U32, in2: U32)

  /** The instruction stored at `at`. */
  function DecodeCommand(bytes: seq<U8>, at: nat): (r: Command)
    requires at + COMMAND_SIZE <= |bytes|
  {
    Command(Load(bytes, at + OPCODE_OFFSET, HALF), Load(bytes, at + TYPE_OFFSET, HALF),
            Load(bytes, at + OUT_OFFSET, WORD), Load(bytes, at + IN1_OFFSET, WORD), Load(bytes, at + IN2_OFFSET, WORD))
  }

  /** The 16 bytes an assembler lays down for an instruction. */
  function EncodeCommand(c: Command): (r: seq<U8>)
    ensures |r| == COMMAND_SIZE
  {
    var z := seq(COMMAND_SIZE, _ => 0);
    var b1 := Store(z, OPCODE_OFFSET, HALF, c.opcode);
    var b2 := Store(b1, TYPE_OFFSET, HALF, c.dataType);
    var b3 := Store(b2, OUT_OFFSET, WORD, c.out);
    var b4 := Store(b3, IN1_OFFSET, WORD, c.in1);
    Store(b4, IN2_OFFSET, WORD, c.in2)
  }

  lemma PowFacts()
    ensures Pow(256, BYTE) == U8_LIMIT && Pow(256, HALF) == U16_LIMIT && Pow(256, WORD) == U32_LIMIT && Pow(256, DWORD) == U64_LIMIT
  {
  }

  /** Decoding what was encoded gives the instruction back. */
  lemma DecodeEncode(c: Command)
    ensures DecodeCommand(EncodeCommand(c), 0) == c
  {
    EncodedOpcode(c);
    EncodedDataType(c);
    EncodedOut(c);
    EncodedIn1(c);
    EncodedIn2(c);
  }

  lemma EncodedOpcode(c: Command)
    ensures Load(EncodeCommand(c), OPCODE_OFFSET, HALF) == c.opcode
  {
    var z := seq(COMMAND_SIZE, _ => 0);
    var b1 := Store(z, OPCODE_OFFSET, HALF, c.opcode);
    var b2 := Store(b1, TYPE_OFFSET, HALF, c.dataType);
    var b3 := Store(b2, OUT_OFFSET, WORD, c.out);
    var b4 := Store(b3, IN1_OFFSET, WORD, c.in1);
    PowFacts();
    LoadStoreFits(z, OPCODE_OFFSET, HALF, c.opcode);
    LoadOutside(b1, TYPE_OFFSET, HALF, c.dataType, OPCODE_OFFSET, HALF);
    LoadOutside(b2, OUT_OFFSET, WORD, c.out, OPCODE_OFFSET, HALF);
    LoadOutside(b3, IN1_OFFSET, WORD, c.in1, OPCODE_OFFSET, HALF);
    LoadOutside(b4, IN2_OFFSET, WORD, c.in2, OPCODE_OFFSET, HALF);
  }

  lemma EncodedDataType(c: Command)
    ensures Load(EncodeCommand(c), TYPE_OFFSET, HALF) == c.dataType
  {
    var z := seq(COMMAND_SIZE, _ => 0);
    var b1 := Store(z, OPCODE_OFFSET, HALF, c.opcode);
    var b2 := Store(b1, TYPE_OFFSET, HALF, c.dataType);
    var b3 := Store(b2, OUT_OFFSET, WORD, c.out);
    var b4 := Store(b3, IN1_OFFSET, WORD, c.in1);
    PowFacts();
    LoadStoreFits(b1, TYPE_OFFSET, HALF, c.dataType);
    LoadOutside(b2, OUT_OFFSET, WORD, c.out, TYPE_OFFSET, HALF);
    LoadOutside(b3, IN1_OFFSET, WORD, c.in1, TYPE_OFFSET, HALF);
    LoadOutside(b4, IN2_OFFSET, WORD, c.in2, TYPE_OFFSET, HALF);
  }

  lemma EncodedOut(c: Command)
    ensures Load(EncodeCommand(c), OUT_OFFSET, WORD) == c.out
  {
    var z := seq(COMMAND_SIZE, _ => 0);
    var b1 := Store(z, OPCODE_OFFSET, HALF, c.opcode);
    var b2 := Store(b1, TYPE_OFFSET, HALF, c.dataType);
    var b3 := Store(b2, OUT_OFFSET, WORD, c.out);
    var b4 := Store(b3, IN1_OFFSET, WORD, c.in1);
    PowFacts();
    LoadStoreFits(b2, OUT_OFFSET, WORD, c.out);
    LoadOutside(b3, IN1_OFFSET, WORD, c.in1, OUT_OFFSET, WORD);
    LoadOutside(b4, IN2_OFFSET, WORD, c.in2, OUT_OFFSET, WORD);
  }

  lemma EncodedIn1(c: Command)
    ensures Load(EncodeCommand(c), IN1_OFFSET, WORD) == c.in1
  {
    var z := seq(COMMAND_SIZE, _ => 0);
    var b1 := Store(z, OPCODE_OFFSET, HALF, c.opcode);
    var b2 := Store(b1, TYPE_OFFSET, HALF, c.dataType);
    var b3 := Store(b2, OUT_OFFSET, WORD, c.out);
    var b4 := Store(b3, IN1_OFFSET, WORD, c.in1);
    PowFacts();
    LoadStoreFits(b3, IN1_OFFSET, WORD, c.in1);
    LoadOutside(b4, IN2_OFFSET, WORD, c.in2, IN1_OFFSET, WORD);
  }

  lemma EncodedIn2(c: Command)
    ensures Load(EncodeCommand(c), IN2_OFFSET, WORD) == c.in2
  {
    var z := seq(COMMAND_SIZE, _ => 0);
    var b1 := Store(z, OPCODE_OFFSET, HALF, c.opcode);
    var b2 := Store(b1, TYPE_OFFSET, HALF, c.dataType);
    var b3 := Store(b2, OUT_OFFSET, WORD, c.out);
    var b4 := Store(b3, IN1_OFFSET, WORD, c.in1);
    PowFacts();
    LoadStoreFits(b4, IN2_OFFSET, WORD, c.in2);
  }

  /** The instruction does not overlap the current-instruction fields it is decoded into. */
  predicate ClearOfInfoTail(ram: seq<U8>)
    requires |ram| >= INFO_SIZE
  {
    TextNowUp(ram) + COMMAND_SIZE <= NOW_ASM_AT || TextNowUp(ram) >= INFO_SIZE
  }

  /** `next_command` leaves every byte outside the six fields it writes as it was: registers, region bounds, code and data. */
  lemma NextCommandFrame(ram: seq<U8>)
    requires CanDecode(ram)
    ensures OnlyDecodeFieldsDiffer(ram, NextCommandEffect(ram))
  {
    var pc := TextNowUp(ram);
    var r1 := Store(ram, NOW_ASM_AT, HALF, Load(ram, pc + OPCODE_OFFSET, HALF));
    var r2 := Store(r1, NOW_DATA_TYPE_AT, HALF, Load(r1, pc + TYPE_OFFSET, HALF));
    var r3 := Store(r2, NOW_OUT_AT, WORD, Load(r2, pc + OUT_OFFSET, WORD));
    var r4 := Store(r3, NOW_IN1_AT, WORD, Load(r3, pc + IN1_OFFSET, WORD));
    var r5 := Store(r4, NOW_IN2_AT, WORD, Load(r4, pc + IN2_OFFSET, WORD));
    StoreOutside(ram, NOW_ASM_AT, HALF, Load(ram, pc + OPCODE_OFFSET, HALF));
    StoreOutside(r1, NOW_DATA_TYPE_AT, HALF, Load(r1, pc + TYPE_OFFSET, HALF));
    StoreOutside(r2, NOW_OUT_AT, WORD, Load(r2, pc + OUT_OFFSET, WORD));
    StoreOutside(r3, NOW_IN1_AT, WORD, Load(r3, pc + IN1_OFFSET, WORD));
    StoreOutside(r4, NOW_IN2_AT, WORD, Load(r4, pc + IN2_OFFSET, WORD));
    StoreOutside(r5, TEXT_NOW_UP_AT, WORD, pc + COMMAND_SIZE);
  }

  /**
   * When the instruction lies clear of the fields it is decoded into, the
   * `info` block afterwards holds that instruction and the next text
   * address, and every other field is unchanged.
   */
  lemma NextCommandInfo(ram: seq<U8>)
    requires CanDecode(ram) && ClearOfInfoTail(ram)
    ensures var c, pc := DecodeCommand(ram, TextNowUp(ram)), TextNowUp(ram);
            InfoOf(NextCommandEffect(ram))
            == InfoOf(ram).(nowAsm := c.opcode, nowDataType := c.dataType, nowOut := c.out, nowIn1 := c.in1, nowIn2 := c.in2,
                            textNowUp := (pc + COMMAND_SIZE) % U32_LIMIT)
  {
    var r := NextCommandEffect(ram);
    var pc := TextNowUp(ram);
    var c := DecodeCommand(ram, pc);
    PowFacts();
    OtherFieldsKept(ram, r);
    FieldsOfEffect(ram);
  }

  /** The mirror of the frame: a load from outside the written fields sees the old bytes. */
  lemma OtherFieldsKept(a: seq<U8>, b: seq<U8>)
    requires |a| >= INFO_SIZE && OnlyDecodeFieldsDiffer(a, b)
    ensures var x, y := InfoOf(a), InfoOf(b);
            x.memorySize == y.memorySize && x.programEntry == y.programEntry && x.textDown == y.textDown
            && x.textUp == y.textUp && x.stackDown == y.stackDown && x.stackNowUp == y.stackNowUp
            && x.stackUp == y.stackUp && x.heapDown == y.heapDown && x.heapUp == y.heapUp
            && x.logLevel == y.logLevel && x.securityLevel == y.securityLevel && x.registers == y.registers
  {
    LoadFrame(a, b, MEMORY_SIZE_AT, WORD);
    LoadFrame(a, b, PROGRAM_ENTRY_AT, WORD);
    LoadFrame(a, b, TEXT_DOWN_AT, WORD);
    LoadFrame(a, b, TEXT_UP_AT, WORD);
    LoadFrame(a, b, STACK_DOWN_AT, WORD);
    LoadFrame(a, b, STACK_NOW_UP_AT, WORD);
    LoadFrame(a, b, STACK_UP_AT, WORD);
    LoadFrame(a, b, HEAP_DOWN_AT, WORD);
    LoadFrame(a, b, HEAP_UP_AT, WORD);
    LoadFrame(a, b, LOG_LEVEL_AT, BYTE);
    LoadFrame(a, b, SECURITY_LEVEL_AT, BYTE);
    forall k | 0 <= k < REGISTER_COUNT
      ensures InfoOf(a).registers[k] == InfoOf(b).registers[k]
    {
      LoadFrame(a, b, REGISTERS_AT + 8 * k, DWORD);
    }
  }

  /** The memory with an instruction's fields and the next text address written into `info`. */
  function WriteDecoded(ram: seq<U8>, c: Command, next: nat): (r: seq<U8>)
    requires |ram| >= INFO_SIZE
    ensures |r| == |ram|
  {
    var r1 := Store(ram, NOW_ASM_AT, HALF, c.opcode);
    var r2 := Store(r1, NOW_DATA_TYPE_AT, HALF, c.dataType);
    var r3 := Store(r2, NOW_OUT_AT, WORD, c.out);
    var r4 := Store(r3, NOW_IN1_AT, WORD, c.in1);
    var r5 := Store(r4, NOW_IN2_AT, WORD, c.in2);
    Store(r5, TEXT_NOW_UP_AT, WORD, next)
  }

  /** When the instruction lies clear of the fields it is decoded into, every statement reads the original instruction bytes. */
  lemma EffectReadsOriginal(ram: seq<U8>)
    requires CanDecode(ram) && ClearOfInfoTail(ram)
    ensures NextCommandEffect(ram) == WriteDecoded(ram, DecodeCommand(ram, TextNowUp(ram)), TextNowUp(ram) + COMMAND_SIZE)
  {
    var pc := TextNowUp(ram);
    var c := DecodeCommand(ram, pc);
    DecodeClear(ram);
    DecodedFields(ram, pc);
    ReadsOriginalDataType(ram, pc, c);
    ReadsOriginalOut(ram, pc, c);
    ReadsOriginalIn1(ram, pc, c);
    ReadsOriginalIn2(ram, pc, c);
  }

  /** An instruction at `pc` lies clear of the current-instruction fields of `info`, inside the memory. */
  predicate ClearAt(b: seq<U8>, pc: nat, offset: nat, w: nat)
  {
    INFO_SIZE <= |b| && pc + COMMAND_SIZE <= |b| && offset + w <= COMMAND_SIZE
    && (pc + COMMAND_SIZE <= NOW_ASM_AT || INFO_SIZE <= pc)
  }

  /** The instruction `next_command` decodes lies clear of the fields it is decoded into, field by field. */
  lemma DecodeClear(ram: seq<U8>)
    requires CanDecode(ram) && ClearOfInfoTail(ram)
    ensures var pc := TextNowUp(ram);
            ClearAt(ram, pc, TYPE_OFFSET, HALF) && ClearAt(ram, pc, OUT_OFFSET, WORD)
            && ClearAt(ram, pc, IN1_OFFSET, WORD) && ClearAt(ram, pc, IN2_OFFSET, WORD)
  {
  }

  /** Each field of the decoded instruction is the load from its offset. */
  lemma DecodedFields(ram: seq<U8>, pc: nat)
    requires pc + COMMAND_SIZE <= |ram|
    ensures var c := DecodeCommand(ram, pc);
            c.opcode == Load(ram, pc + OPCODE_OFFSET, HALF) && c.dataType == Load(ram, pc + TYPE_OFFSET, HALF)
            && c.out == Load(ram, pc + OUT_OFFSET, WORD) && c.in1 == Load(ram, pc + IN1_OFFSET, WORD)
            && c.in2 == Load(ram, pc + IN2_OFFSET, WORD)
  {
  }

  /** A read from a clear instruction is not changed by the store of `next_command`'s first statement. */
  lemma ReadPast1(b: seq<U8>, pc: nat, offset: nat, w: nat, v1: nat)
    requires ClearAt(b, pc, offset, w)
    ensures Load(Store(b, NOW_ASM_AT, HALF, v1), pc + offset, w) == Load(b, pc + offset, w)
  {
    LoadOutside(b, NOW_ASM_AT, HALF, v1, pc + offset, w);
  }

  /** ... nor by the stores of its first two statements. */
  lemma ReadPast2(b: seq<U8>, pc: nat, offset: nat, w: nat, v1: nat, v2: nat)
    requires ClearAt(b, pc, offset, w)
    ensures Load(Store(Store(b, NOW_ASM_AT, HALF, v1), NOW_DATA_TYPE_AT, HALF, v2), pc + offset, w) == Load(b, pc + offset, w)
  {
    var b1 := Store(b, NOW_ASM_AT, HALF, v1);
    ReadPast1(b, pc, offset, w, v1);
    LoadOutside(b1, NOW_DATA_TYPE_AT, HALF, v2, pc + offset, w);
  }

  /** ... nor by those of its first three. */
  lemma ReadPast3(b: seq<U8>, pc: nat, offset: nat, w: nat, v1: nat, v2: nat, v3: nat)
    requires ClearAt(b, pc, offset, w)
    ensures Load(Store(Store(Store(b, NOW_ASM_AT, HALF, v1), NOW_DATA_TYPE_AT, HALF, v2), NOW_OUT_AT, WORD, v3), pc + offset, w)
            == Load(b, pc + offset, w)
  {
    var b2 := Store(Store(b, NOW_ASM_AT, HALF, v1), NOW_DATA_TYPE_AT, HALF, v2);
    ReadPast2(b, pc, offset, w, v1, v2);
    LoadOutside(b2, NOW_OUT_AT, WORD, v3, pc + offset, w);
  }

  /** ... nor by those of its first four. */
  lemma ReadPast4(b: seq<U8>, pc: nat, offset: nat, w: nat, v1: nat, v2: nat, v3: nat, v4: nat)
    requires ClearAt(b, pc, offset, w)
    ensures Load(Store(Store(Store(Store(b, NOW_ASM_AT, HALF, v1), NOW_DATA_TYPE_AT, HALF, v2), NOW_OUT_AT, WORD, v3), NOW_IN1_AT, WORD, v4), pc + offset, w)
            == Load(b, pc + offset, w)
  {
    var b3 := Store(Store(Store(b, NOW_ASM_AT, HALF, v1), NOW_DATA_TYPE_AT, HALF, v2), NOW_OUT_AT, WORD, v3);
    ReadPast3(b, pc, offset, w, v1, v2, v3);
    LoadOutside(b3, NOW_IN1_AT, WORD, v4, pc + offset, w);
  }

  /** The DataType field of the instruction is read after 1 of the stores, which do not reach it. */
  lemma ReadsOriginalDataType(ram: seq<U8>, pc: nat, c: Command)
    requires ClearAt(ram, pc, TYPE_OFFSET, HALF) && c.dataType == Load(ram, pc + TYPE_OFFSET, HALF)
    ensures Load(Store(ram, NOW_ASM_AT, HALF, c.opcode), pc + TYPE_OFFSET, HALF) == c.dataType
  {
    ReadPast1(ram, pc, TYPE_OFFSET, HALF, c.opcode);
  }

  /** The Out field of the instruction is read after 2 of the stores, which do not reach it. */
  lemma ReadsOriginalOut(ram: seq<U8>, pc: nat, c: Command)
    requires ClearAt(ram, pc, OUT_OFFSET, WORD) && c.out == Load(ram, pc + OUT_OFFSET, WORD)
    ensures Load(Store(Store(ram, NOW_ASM_AT, HALF, c.opcode), NOW_DATA_TYPE_AT, HALF, c.dataType), pc + OUT_OFFSET, WORD) == c.out
  {
    ReadPast2(ram, pc, OUT_OFFSET, WORD, c.opcode, c.dataType);
  }

  /** The In1 field of the instruction is read after 3 of the stores, which do not reach it. */
  lemma ReadsOriginalIn1(ram: seq<U8>, pc: nat, c: Command)
    requires ClearAt(ram, pc, IN1_OFFSET, WORD) && c.in1 == Load(ram, pc + IN1_OFFSET, WORD)
    ensures Load(Store(Store(Store(ram, NOW_ASM_AT, HALF, c.opcode), NOW_DATA_TYPE_AT, HALF, c.dataType), NOW_OUT_AT, WORD, c.out), pc + IN1_OFFSET, WORD) == c.in1
  {
    ReadPast3(ram, pc, IN1_OFFSET, WORD, c.opcode, c.dataType, c.out);
  }

  /** The In2 field of the instruction is read after 4 of the stores, which do not reach it. */
  lemma ReadsOriginalIn2(ram: seq<U8>, pc: nat, c: Command)
    requires ClearAt(ram, pc, IN2_OFFSET, WORD) && c.in2 == Load(ram, pc + IN2_OFFSET, WORD)
    ensures Load(Store(Store(Store(Store(ram, NOW_ASM_AT, HALF, c.opcode), NOW_DATA_TYPE_AT, HALF, c.dataType), NOW_OUT_AT, WORD, c.out), NOW_IN1_AT, WORD, c.in1), pc + IN2_OFFSET, WORD) == c.in2
  {
    ReadPast4(ram, pc, IN2_OFFSET, WORD, c.opcode, c.dataType, c.out, c.in1);
  }

  /** The six fields `WriteDecoded` writes read back as written, the text address modulo 2^32. */
  lemma WriteDecodedFields(ram: seq<U8>, c: Command, next: nat)
    requires |ram| >= INFO_SIZE
    ensures var r := WriteDecoded(ram, c, next);
            Load(r, NOW_ASM_AT, HALF) == c.opcode && Load(r, NOW_DATA_TYPE_AT, HALF) == c.dataType
            && Load(r, NOW_OUT_AT, WORD) == c.out && Load(r, NOW_IN1_AT, WORD) == c.in1 && Load(r, NOW_IN2_AT, WORD) == c.in2
            && Load(r, TEXT_NOW_UP_AT, WORD) == next % U32_LIMIT
  {
    WriteDecodedOpcode(ram, c, next);
    WriteDecodedDataType(ram, c, next);
    WriteDecodedOut(ram, c, next);
    WriteDecodedIn1(ram, c, next);
    WriteDecodedIn2(ram, c, next);
    WriteDecodedTextNowUp(ram, c, next);
  }

  lemma WriteDecodedOpcode(ram: seq<U8>, c: Command, next: nat)
    requires |ram| >= INFO_SIZE
    ensures Load(WriteDecoded(ram, c, next), NOW_ASM_AT, HALF) == c.opcode
  {
    var r1 := Store(ram, NOW_ASM_AT, HALF, c.opcode);
    var r2 := Store(r1, NOW_DATA_TYPE_AT, HALF, c.dataType);
    var r3 := Store(r2, NOW_OUT_AT, WORD, c.out);
    var r4 := Store(r3, NOW_IN1_AT, WORD, c.in1);
    var r5 := Store(r4, NOW_IN2_AT, WORD, c.in2);
    PowFacts();
    LoadStoreFits(ram, NOW_ASM_AT, HALF, c.opcode);
    LoadOutside(r1, NOW_DATA_TYPE_AT, HALF, c.dataType, NOW_ASM_AT, HALF);
    LoadOutside(r2, NOW_OUT_AT, WORD, c.out, NOW_ASM_AT, HALF);
    LoadOutside(r3, NOW_IN1_AT, WORD, c.in1, NOW_ASM_AT, HALF);
    LoadOutside(r4, NOW_IN2_AT, WORD, c.in2, NOW_ASM_AT, HALF);
    LoadOutside(r5, TEXT_NOW_UP_AT, WORD, next, NOW_ASM_AT, HALF);
  }

  lemma WriteDecodedDataType(ram: seq<U8>, c: Command, next: nat)
    requires |ram| >= INFO_SIZE
    ensures Load(WriteDecoded(ram, c, next), NOW_DATA_TYPE_AT, HALF) == c.dataType
  {
    var r1 := Store(ram, NOW_ASM_AT, HALF, c.opcode);
    var r2 := Store(r1, NOW_DATA_TYPE_AT, HALF, c.dataType);
    var r3 := Store(r2, NOW_OUT_AT, WORD, c.out);
    var r4 := Store(r3, NOW_IN1_AT, WORD, c.in1);
    var r5 := Store(r4, NOW_IN2_AT, WORD, c.in2);
    PowFacts();
    LoadStoreFits(r1, NOW_DATA_TYPE_AT, HALF, c.dataType);
    LoadOutside(r2, NOW_OUT_AT, WORD, c.out, NOW_DATA_TYPE_AT, HALF);
    LoadOutside(r3, NOW_IN1_AT, WORD, c.in1, NOW_DATA_TYPE_AT, HALF);
    LoadOutside(r4, NOW_IN2_AT, WORD, c.in2, NOW_DATA_TYPE_AT, HALF);
    LoadOutside(r5, TEXT_NOW_UP_AT, WORD, next, NOW_DATA_TYPE_AT, HALF);
  }

  lemma WriteDecodedOut(ram: seq<U8>, c: Command, next: nat)
    requires |ram| >= INFO_SIZE
    ensures Load(WriteDecoded(ram, c, next), NOW_OUT_AT, WORD) == c.out
  {
    var r1 := Store(ram, NOW_ASM_AT, HALF, c.opcode);
    var r2 := Store(r1, NOW_DATA_TYPE_AT, HALF, c.dataType);
    var r3 := Store(r2, NOW_OUT_AT, WORD, c.out);
    var r4 := Store(r3, NOW_IN1_AT, WORD, c.in1);
    var r5 := Store(r4, NOW_IN2_AT, WORD, c.in2);
    PowFacts();
    LoadStoreFits(r2, NOW_OUT_AT, WORD, c.out);
    LoadOutside(r3, NOW_IN1_AT, WORD, c.in1, NOW_OUT_AT, WORD);
    LoadOutside(r4, NOW_IN2_AT, WORD, c.in2, NOW_OUT_AT, WORD);
    LoadOutside(r5, TEXT_NOW_UP_AT, WORD, next, NOW_OUT_AT, WORD);
  }

  lemma WriteDecodedIn1(ram: seq<U8>, c: Command, next: nat)
    requires |ram| >= INFO_SIZE
    ensures Load(WriteDecoded(ram, c, next), NOW_IN1_AT, WORD) == c.in1
  {
    var r1 := Store(ram, NOW_ASM_AT, HALF, c.opcode);
    var r2 := Store(r1, NOW_DATA_TYPE_AT, HALF, c.dataType);
    var r3 := Store(r2, NOW_OUT_AT, WORD, c.out);
    var r4 := Store(r3, NOW_IN1_AT, WORD, c.in1);
    var r5 := Store(r4, NOW_IN2_AT, WORD, c.in2);
    PowFacts();
    LoadStoreFits(r3, NOW_IN1_AT, WORD, c.in1);
    LoadOutside(r4, NOW_IN2_AT, WORD, c.in2, NOW_IN1_AT, WORD);
    LoadOutside(r5, TEXT_NOW_UP_AT, WORD, next, NOW_IN1_AT, WORD);
  }

  lemma WriteDecodedIn2(ram: seq<U8>, c: Command, next: nat)
    requires |ram| >= INFO_SIZE
    ensures Load(WriteDecoded(ram, c, next), NOW_IN2_AT, WORD) == c.in2
  {
    var r1 := Store(ram, NOW_ASM_AT, HALF, c.opcode);
    var r2 := Store(r1, NOW_DATA_TYPE_AT, HALF, c.dataType);
    var r3 := Store(r2, NOW_OUT_AT, WORD, c.out);
    var r4 := Store(r3, NOW_IN1_AT, WORD, c.in1);
    var r5 := Store(r4, NOW_IN2_AT, WORD, c.in2);
    PowFacts();
    LoadStoreFits(r4, NOW_IN2_AT, WORD, c.in2);
    LoadOutside(r5, TEXT_NOW_UP_AT, WORD, next, NOW_IN2_AT, WORD);
  }

  lemma WriteDecodedTextNowUp(ram: seq<U8>, c: Command, next: nat)
    requires |ram| >= INFO_SIZE
    ensures Load(WriteDecoded(ram, c, next), TEXT_NOW_UP_AT, WORD) == next % U32_LIMIT
  {
    var r1 := Store(ram, NOW_ASM_AT, HALF, c.opcode);
    var r2 := Store(r1, NOW_DATA_TYPE_AT, HALF, c.dataType);
    var r3 := Store(r2, NOW_OUT_AT, WORD, c.out);
    var r4 := Store(r3, NOW_IN1_AT, WORD, c.in1);
    var r5 := Store(r4, NOW_IN2_AT, WORD, c.in2);
    PowFacts();
    LoadStore(r5, TEXT_NOW_UP_AT, WORD, next);
  }

  /** The six written fields of the memory after `next_command`. */
  lemma FieldsOfEffect(ram: seq<U8>)
    requires CanDecode(ram) && ClearOfInfoTail(ram)
    ensures var r, pc := NextCommandEffect(ram), TextNowUp(ram);
            Load(r, NOW_ASM_AT, HALF) == Load(ram, pc + OPCODE_OFFSET, HALF)
            && Load(r, NOW_DATA_TYPE_AT, HALF) == Load(ram, pc + TYPE_OFFSET, HALF)
            && Load(r, NOW_OUT_AT, WORD) == Load(ram, pc + OUT_OFFSET, WORD)
            && Load(r, NOW_IN1_AT, WORD) == Load(ram, pc + IN1_OFFSET, WORD)
            && Load(r, NOW_IN2_AT, WORD) == Load(ram, pc + IN2_OFFSET, WORD)
            && Load(r, TEXT_NOW_UP_AT, WORD) == (pc + COMMAND_SIZE) % U32_LIMIT
  {
    EffectReadsOriginal(ram);
    WriteDecodedFields(ram, DecodeCommand(ram, TextNowUp(ram)), TextNowUp(ram) + COMMAND_SIZE);
  }

  /** `memory`: the runtime memory `memory_`, headed by its `info` block. */
  class Memory {
    const ram: array<U8>

    constructor (image: seq<U8>)
      ensures ram[..] == image && fresh(ram)
    {
      ram := new U8[|image|](i requires 0 <= i < |image| => image[i]);
    }

    /** Store `v`, cut to `width` bytes, little-endian at `at`: a write through a `u16*` or `u32*`. */
    method StoreAt(at: nat, width: nat, v: nat)
      requires at + width <= ram.Length
      modifies ram
      ensures ram[..] == Store(old(ram[..]), at, width, v)
    {
      var d := LittleEndian(v, width);
      forall k | 0 <= k < width {
        ram[at + k] := d[k];
      }
      assert ram[..] == Store(old(ram[..]), at, width, v) by {
        forall i | 0 <= i < ram.Length
          ensures ram[i] == Store(old(ram[..]), at, width, v)[i]
        {
          if at <= i < at + width {
            assert ram[at + (i - at)] == d[i - at];
          }
        }
      }
    }

    /** `next_command()`: decode the instruction at `text_now_up` into `info` and move on to the next one. */
    method NextCommand() returns (ok: bool)
      requires CanDecode(ram[..])
      modifies ram
      ensures ok
      ensures ram[..] == NextCommandEffect(old(ram[..]))
    {
      var pc := TextNowUp(ram[..]);
      StoreAt(NOW_ASM_AT, HALF, Load(ram[..], pc + OPCODE_OFFSET, HALF));
      StoreAt(NOW_DATA_TYPE_AT, HALF, Load(ram[..], pc + TYPE_OFFSET, HALF));
      StoreAt(NOW_OUT_AT, WORD, Load(ram[..], pc + OUT_OFFSET, WORD));
      StoreAt(NOW_IN1_AT, WORD, Load(ram[..], pc + IN1_OFFSET, WORD));
      StoreAt(NOW_IN2_AT, WORD, Load(ram[..], pc + IN2_OFFSET, WORD));
      StoreAt(TEXT_NOW_UP_AT, WORD, pc + COMMAND_SIZE);
      ok := true;
    }
  }
}
