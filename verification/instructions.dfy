/** The 6502 instruction set as the mnemonic structs of
    asm6502/src/instructions.rs declare it: the addressing modes, the 56
    mnemonics, the opcode byte each (mnemonic, mode) pair is given by its
    `asm6502` derive attribute, and the decode table the `Opcode` dispatcher
    consults. */
module Instructions {
  import opened Bytes

  /** An addressing mode with its operand filled in. `Relative` keeps the raw
      operand byte; nothing sign-extends it. */
  datatype AddressMode =
    | Implicit
    | Accumulator
    | Immediate(u8)
    | Zero(u8)
    | ZeroX(u8)
    | ZeroY(u8)
    | Relative(u8)
    | Absolute(u16)
    | AbsoluteX(u16)
    | AbsoluteY(u16)
    | Indirect(u16)
    | IndirectX(u8)
    | IndirectY(u8)

  /** The tag of an addressing mode, without its operand, under the usual
      datasheet abbreviation. Each tag is one key of the derive attribute:
      Imp = implicit, Acc = accumulator, Imm = immediate, Zpg = zero,
      ZpgX = zero_x, ZpgY = zero_y, Rel = relative, Abs = absolute,
      AbsX = absolute_x, AbsY = absolute_y, Ind = indirect,
      IndX = indirect_x, IndY = indirect_y. */
  datatype Mode = Imp | Acc | Imm | Zpg | ZpgX | ZpgY | Rel | Abs | AbsX | AbsY | Ind | IndX | IndY

  function ModeOf(am: AddressMode): Mode
  {
    match am
    case Implicit => Imp
    case Accumulator => Acc
    case Immediate(_) => Imm
    case Zero(_) => Zpg
    case ZeroX(_) => ZpgX
    case ZeroY(_) => ZpgY
    case Relative(_) => Rel
    case Absolute(_) => Abs
    case AbsoluteX(_) => AbsX
    case AbsoluteY(_) => AbsY
    case Indirect(_) => Ind
    case IndirectX(_) => IndX
    case IndirectY(_) => IndY
  }

  /** How many operand bytes follow the opcode byte: none for the modes
      without payload, one for a `u8` payload, two for a `u16` payload. */
  function OperandLength(k: Mode): nat
  {
    match k
    case Imp | Acc => 0
    case Imm | Zpg | ZpgX | ZpgY | Rel | IndX | IndY => 1
    case Abs | AbsX | AbsY | Ind => 2
  }

  /** The operand length depends on the payload type of the mode alone. No
      proof calls it: it ties `OperandLength` to the payload types of
      `AddressMode`, which `OperandBytes` and `ReadOperand` follow. */
  lemma OperandLengthByPayload(am: AddressMode)
    ensures OperandLength(ModeOf(am)) == 0 <==> am.Implicit? || am.Accumulator?
    ensures OperandLength(ModeOf(am)) == 2 <==>
      am.Absolute? || am.AbsoluteX? || am.AbsoluteY? || am.Indirect?
    ensures OperandLength(ModeOf(am)) <= 2
  {
  }

  /** The 56 mnemonic structs, in declaration order. */
  datatype Mnemonic =
    | ADC | AND | ASL | BCC | BCS | BEQ | BIT | BMI | BNE | BPL | BRK | BVC | BVS | CLC
    | CLD | CLI | CLV | CMP | CPX | CPY | DEC | DEX | DEY | EOR | INC | INX | INY | JMP
    | JSR | LDA | LDX | LDY | LSR | NOP | ORA | PHA | PHP | PLA | PLP | ROL | ROR | RTI
    | RTS | SBC | SEC | SED | SEI | STA | STX | STY | TAX | TAY | TSX | TXA | TXS | TYA

  /** The `#[asm6502(...)]` attributes of the mnemonic structs: the opcode
      byte of mnemonic `m` in mode `k`, or `None` when the attribute of `m`
      does not name `k`. */
  function OpcodeByte(m: Mnemonic, k: Mode): Option<u8>
  {
    match m
    case ADC => (match k case Imm => Some(0x69) case Zpg => Some(0x65) case ZpgX => Some(0x75) case Abs => Some(0x6D) case AbsX => Some(0x7D) case AbsY => Some(0x79) case IndX => Some(0x61) case IndY => Some(0x71) case _ => None)
    case AND => (match k case Imm => Some(0x29) case Zpg => Some(0x25) case ZpgX => Some(0x35) case Abs => Some(0x2D) case AbsX => Some(0x3D) case AbsY => Some(0x39) case IndX => Some(0x21) case IndY => Some(0x31) case _ => None)
    case ASL => (match k case Acc => Some(0x0A) case Zpg => Some(0x06) case ZpgX => Some(0x16) case Abs => Some(0x0E) case AbsX => Some(0x1E) case _ => None)
    case BCC => (match k case Rel => Some(0x90) case _ => None)
    case BCS => (match k case Rel => Some(0xB0) case _ => None)
    case BEQ => (match k case Rel => Some(0xF0) case _ => None)
    case BIT => (match k case Zpg => Some(0x24) case Abs => Some(0x2C) case _ => None)
    case BMI => (match k case Rel => Some(0x30) case _ => None)
    case BNE => (match k case Rel => Some(0xD0) case _ => None)
    case BPL => (match k case Rel => Some(0x10) case _ => None)
    case BRK => (match k case Imp => Some(0x00) case _ => None)
    case BVC => (match k case Rel => Some(0x50) case _ => None)
    case BVS => (match k case Rel => Some(0x70) case _ => None)
    case CLC => (match k case Imp => Some(0x18) case _ => None)
    case CLD => (match k case Imp => Some(0xD8) case _ => None)
    case CLI => (match k case Imp => Some(0x58) case _ => None)
    case CLV => (match k case Imp => Some(0xB8) case _ => None)
    case CMP => (match k case Imm => Some(0xC9) case Zpg => Some(0xC5) case ZpgX => Some(0xD5) case Abs => Some(0xCD) case AbsX => Some(0xDD) case AbsY => Some(0xD9) case IndX => Some(0xC1) case IndY => Some(0xD1) case _ => None)
    case CPX => (match k case Imm => Some(0xE0) case Zpg => Some(0xE4) case Abs => Some(0xEC) case _ => None)
    case CPY => (match k case Imm => Some(0xC0) case Zpg => Some(0xC4) case Abs => Some(0xCC) case _ => None)
    case DEC => (match k case Zpg => Some(0xC6) case ZpgX => Some(0xD6) case Abs => Some(0xCE) case AbsX => Some(0xDE) case _ => None)
    case DEX => (match k case Imp => Some(0xCA) case _ => None)
    case DEY => (match k case Imp => Some(0x88) case _ => None)
    case EOR => (match k case Imm => Some(0x49) case Zpg => Some(0x45) case ZpgX => Some(0x55) case Abs => Some(0x4D) case AbsX => Some(0x5D) case AbsY => Some(0x59) case IndX => Some(0x41) case IndY => Some(0x51) case _ => None)
    case INC => (match k case Zpg => Some(0xE6) case ZpgX => Some(0xF6) case Abs => Some(0xEE) case AbsX => Some(0xFE) case _ => None)
    case INX => (match k case Imp => Some(0xE8) case _ => None)
    case INY => (match k case Imp => Some(0xC8) case _ => None)
    case JMP => (match k case Abs => Some(0x4C) case Ind => Some(0x6C) case _ => None)
    case JSR => (match k case Abs => Some(0x20) case _ => None)
    case LDA => (match k case Imm => Some(0xA9) case Zpg => Some(0xA5) case ZpgX => Some(0xB5) case Abs => Some(0xAD) case AbsX => Some(0xBD) case AbsY => Some(0xB9) case IndX => Some(0xA1) case IndY => Some(0xB1) case _ => None)
    case LDX => (match k case Imm => Some(0xA2) case Zpg => Some(0xA6) case ZpgY => Some(0xB6) case Abs => Some(0xAE) case AbsY => Some(0xBE) case _ => None)
    case LDY => (match k case Imm => Some(0xA0) case Zpg => Some(0xA4) case ZpgX => Some(0xB4) case Abs => Some(0xAC) case AbsX => Some(0xBC) case _ => None)
    case LSR => (match k case Acc => Some(0x4A) case Zpg => Some(0x46) case ZpgX => Some(0x56) case Abs => Some(0x4E) case AbsX => Some(0x5E) case _ => None)
    case NOP => (match k case Imp => Some(0xEA) case _ => None)
    case ORA => (match k case Imm => Some(0x09) case Zpg => Some(0x05) case ZpgX => Some(0x15) case Abs => Some(0x0D) case AbsX => Some(0x1D) case AbsY => Some(0x19) case IndX => Some(0x01) case IndY => Some(0x11) case _ => None)
    case PHA => (match k case Imp => Some(0x48) case _ => None)
    case PHP => (match k case Imp => Some(0x08) case _ => None)
    case PLA => (match k case Imp => Some(0x68) case _ => None)
    case PLP => (match k case Imp => Some(0x28) case _ => None)
    case ROL => (match k case Acc => Some(0x2A) case Zpg => Some(0x26) case ZpgX => Some(0x36) case Abs => Some(0x2E) case AbsX => Some(0x3E) case _ => None)
    case ROR => (match k case Acc => Some(0x6A) case Zpg => Some(0x66) case ZpgX => Some(0x76) case Abs => Some(0x6E) case AbsX => Some(0x7E) case _ => None)
    case RTI => (match k case Imp => Some(0x40) case _ => None)
    case RTS => (match k case Imp => Some(0x60) case _ => None)
    case SBC => (match k case Imm => Some(0xE9) case Zpg => Some(0xE5) case ZpgX => Some(0xF5) case Abs => Some(0xED) case AbsX => Some(0xFD) case AbsY => Some(0xF9) case IndX => Some(0xE1) case IndY => Some(0xF1) case _ => None)
    case SEC => (match k case Imp => Some(0x38) case _ => None)
    case SED => (match k case Imp => Some(0xF8) case _ => None)
    case SEI => (match k case Imp => Some(0x78) case _ => None)
    case STA => (match k case Zpg => Some(0x85) case ZpgX => Some(0x95) case Abs => Some(0x8D) case AbsX => Some(0x9D) case AbsY => Some(0x99) case IndX => Some(0x81) case IndY => Some(0x91) case _ => None)
    case STX => (match k case Zpg => Some(0x86) case ZpgY => Some(0x96) case Abs => Some(0x8E) case _ => None)
    case STY => (match k case Zpg => Some(0x84) case ZpgX => Some(0x94) case Abs => Some(0x8C) case _ => None)
    case TAX => (match k case Imp => Some(0xAA) case _ => None)
    case TAY => (match k case Imp => Some(0xA8) case _ => None)
    case TSX => (match k case Imp => Some(0xBA) case _ => None)
    case TXA => (match k case Imp => Some(0x8A) case _ => None)
    case TXS => (match k case Imp => Some(0x9A) case _ => None)
    case TYA => (match k case Imp => Some(0x98) case _ => None)
  }

  /** The match arms the derive macro generates from an attribute `attr`
      (which byte, if any, each mode is given), in generation order: the
      first mode whose byte is the peeked byte `b`, or `None` for the
      catch-all arm. */
  function FirstArm(attr: Mode -> Option<u8>, b: u8): (r: Option<Mode>)
    ensures r.Some? ==> attr(r.value) == Some(b)
  {
    if attr(Imp) == Some(b) then Some(Imp)
    else if attr(Acc) == Some(b) then Some(Acc)
    else if attr(Imm) == Some(b) then Some(Imm)
    else if attr(Zpg) == Some(b) then Some(Zpg)
    else if attr(ZpgX) == Some(b) then Some(ZpgX)
    else if attr(ZpgY) == Some(b) then Some(ZpgY)
    else if attr(Rel) == Some(b) then Some(Rel)
    else if attr(Abs) == Some(b) then Some(Abs)
    else if attr(AbsX) == Some(b) then Some(AbsX)
    else if attr(AbsY) == Some(b) then Some(AbsY)
    else if attr(Ind) == Some(b) then Some(Ind)
    else if attr(IndX) == Some(b) then Some(IndX)
    else if attr(IndY) == Some(b) then Some(IndY)
    else None
  }

  /** The match arms of the `from_peekable` generated for mnemonic `m`: the
      mode a peeked byte selects, or `None` for the catch-all arm. */
  function ModeForByte(m: Mnemonic, b: u8): (r: Option<Mode>)
    ensures r.Some? ==> OpcodeByte(m, r.value) == Some(b)
  {
    FirstArm(k => OpcodeByte(m, k), b)
  }

  /** The decode table, indexed by opcode byte: which mnemonic and mode the
      byte stands for, or `None` for the bytes no mnemonic claims. */
  function Lookup(b: u8): Option<(Mnemonic, Mode)>
  {
    var lo := b % 0x10;
    match b / 0x10
    case 0x0 =>
      (match lo
      case 0x0 => Some((BRK, Imp))
      case 0x1 => Some((ORA, IndX))
      case 0x5 => Some((ORA, Zpg))
      case 0x6 => Some((ASL, Zpg))
      case 0x8 => Some((PHP, Imp))
      case 0x9 => Some((ORA, Imm))
      case 0xA => Some((ASL, Acc))
      case 0xD => Some((ORA, Abs))
      case 0xE => Some((ASL, Abs))
      case _ => None)
    case 0x1 =>
      (match lo
      case 0x0 => Some((BPL, Rel))
      case 0x1 => Some((ORA, IndY))
      case 0x5 => Some((ORA, ZpgX))
      case 0x6 => Some((ASL, ZpgX))
      case 0x8 => Some((CLC, Imp))
      case 0x9 => Some((ORA, AbsY))
      case 0xD => Some((ORA, AbsX))
      case 0xE => Some((ASL, AbsX))
      case _ => None)
    case 0x2 =>
      (match lo
      case 0x0 => Some((JSR, Abs))
      case 0x1 => Some((AND, IndX))
      case 0x4 => Some((BIT, Zpg))
      case 0x5 => Some((AND, Zpg))
      case 0x6 => Some((ROL, Zpg))
      case 0x8 => Some((PLP, Imp))
      case 0x9 => Some((AND, Imm))
      case 0xA => Some((ROL, Acc))
      case 0xC => Some((BIT, Abs))
      case 0xD => Some((AND, Abs))
      case 0xE => Some((ROL, Abs))
      case _ => None)
    case 0x3 =>
      (match lo
      case 0x0 => Some((BMI, Rel))
      case 0x1 => Some((AND, IndY))
      case 0x5 => Some((AND, ZpgX))
      case 0x6 => Some((ROL, ZpgX))
      case 0x8 => Some((SEC, Imp))
      case 0x9 => Some((AND, AbsY))
      case 0xD => Some((AND, AbsX))
      case 0xE => Some((ROL, AbsX))
      case _ => None)
    case 0x4 =>
      (match lo
      case 0x0 => Some((RTI, Imp))
      case 0x1 => Some((EOR, IndX))
      case 0x5 => Some((EOR, Zpg))
      case 0x6 => Some((LSR, Zpg))
      case 0x8 => Some((PHA, Imp))
      case 0x9 => Some((EOR, Imm))
      case 0xA => Some((LSR, Acc))
      case 0xC => Some((JMP, Abs))
      case 0xD => Some((EOR, Abs))
      case 0xE => Some((LSR, Abs))
      case _ => None)
    case 0x5 =>
      (match lo
      case 0x0 => Some((BVC, Rel))
      case 0x1 => Some((EOR, IndY))
      case 0x5 => Some((EOR, ZpgX))
      case 0x6 => Some((LSR, ZpgX))
      case 0x8 => Some((CLI, Imp))
      case 0x9 => Some((EOR, AbsY))
      case 0xD => Some((EOR, AbsX))
      case 0xE => Some((LSR, AbsX))
      case _ => None)
    case 0x6 =>
      (match lo
      case 0x0 => Some((RTS, Imp))
      case 0x1 => Some((ADC, IndX))
      case 0x5 => Some((ADC, Zpg))
      case 0x6 => Some((ROR, Zpg))
      case 0x8 => Some((PLA, Imp))
      case 0x9 => Some((ADC, Imm))
      case 0xA => Some((ROR, Acc))
      case 0xC => Some((JMP, Ind))
      case 0xD => Some((ADC, Abs))
      case 0xE => Some((ROR, Abs))
      case _ => None)
    case 0x7 =>
      (match lo
      case 0x0 => Some((BVS, Rel))
      case 0x1 => Some((ADC, IndY))
      case 0x5 => Some((ADC, ZpgX))
      case 0x6 => Some((ROR, ZpgX))
      case 0x8 => Some((SEI, Imp))
      case 0x9 => Some((ADC, AbsY))
      case 0xD => Some((ADC, AbsX))
      case 0xE => Some((ROR, AbsX))
      case _ => None)
    case 0x8 =>
      (match lo
      case 0x1 => Some((STA, IndX))
      case 0x4 => Some((STY, Zpg))
      case 0x5 => Some((STA, Zpg))
      case 0x6 => Some((STX, Zpg))
      case 0x8 => Some((DEY, Imp))
      case 0xA => Some((TXA, Imp))
      case 0xC => Some((STY, Abs))
      case 0xD => Some((STA, Abs))
      case 0xE => Some((STX, Abs))
      case _ => None)
    case 0x9 =>
      (match lo
      case 0x0 => Some((BCC, Rel))
      case 0x1 => Some((STA, IndY))
      case 0x4 => Some((STY, ZpgX))
      case 0x5 => Some((STA, ZpgX))
      case 0x6 => Some((STX, ZpgY))
      case 0x8 => Some((TYA, Imp))
      case 0x9 => Some((STA, AbsY))
      case 0xA => Some((TXS, Imp))
      case 0xD => Some((STA, AbsX))
      case _ => None)
    case 0xA =>
      (match lo
      case 0x0 => Some((LDY, Imm))
      case 0x1 => Some((LDA, IndX))
      case 0x2 => Some((LDX, Imm))
      case 0x4 => Some((LDY, Zpg))
      case 0x5 => Some((LDA, Zpg))
      case 0x6 => Some((LDX, Zpg))
      case 0x8 => Some((TAY, Imp))
      case 0x9 => Some((LDA, Imm))
      case 0xA => Some((TAX, Imp))
      case 0xC => Some((LDY, Abs))
      case 0xD => Some((LDA, Abs))
      case 0xE => Some((LDX, Abs))
      case _ => None)
    case 0xB =>
      (match lo
      case 0x0 => Some((BCS, Rel))
      case 0x1 => Some((LDA, IndY))
      case 0x4 => Some((LDY, ZpgX))
      case 0x5 => Some((LDA, ZpgX))
      case 0x6 => Some((LDX, ZpgY))
      case 0x8 => Some((CLV, Imp))
      case 0x9 => Some((LDA, AbsY))
      case 0xA => Some((TSX, Imp))
      case 0xC => Some((LDY, AbsX))
      case 0xD => Some((LDA, AbsX))
      case 0xE => Some((LDX, AbsY))
      case _ => None)
    case 0xC =>
      (match lo
      case 0x0 => Some((CPY, Imm))
      case 0x1 => Some((CMP, IndX))
      case 0x4 => Some((CPY, Zpg))
      case 0x5 => Some((CMP, Zpg))
      case 0x6 => Some((DEC, Zpg))
      case 0x8 => Some((INY, Imp))
      case 0x9 => Some((CMP, Imm))
      case 0xA => Some((DEX, Imp))
      case 0xC => Some((CPY, Abs))
      case 0xD => Some((CMP, Abs))
      case 0xE => Some((DEC, Abs))
      case _ => None)
    case 0xD =>
      (match lo
      case 0x0 => Some((BNE, Rel))
      case 0x1 => Some((CMP, IndY))
      case 0x5 => Some((CMP, ZpgX))
      case 0x6 => Some((DEC, ZpgX))
      case 0x8 => Some((CLD, Imp))
      case 0x9 => Some((CMP, AbsY))
      case 0xD => Some((CMP, AbsX))
      case 0xE => Some((DEC, AbsX))
      case _ => None)
    case 0xE =>
      (match lo
      case 0x0 => Some((CPX, Imm))
      case 0x1 => Some((SBC, IndX))
      case 0x4 => Some((CPX, Zpg))
      case 0x5 => Some((SBC, Zpg))
      case 0x6 => Some((INC, Zpg))
      case 0x8 => Some((INX, Imp))
      case 0x9 => Some((SBC, Imm))
      case 0xA => Some((NOP, Imp))
      case 0xC => Some((CPX, Abs))
      case 0xD => Some((SBC, Abs))
      case 0xE => Some((INC, Abs))
      case _ => None)
    case 0xF =>
      (match lo
      case 0x0 => Some((BEQ, Rel))
      case 0x1 => Some((SBC, IndY))
      case 0x5 => Some((SBC, ZpgX))
      case 0x6 => Some((INC, ZpgX))
      case 0x8 => Some((SED, Imp))
      case 0x9 => Some((SBC, AbsY))
      case 0xD => Some((SBC, AbsX))
      case 0xE => Some((INC, AbsX))
      case _ => None)
  }

  /** A decoded instruction: a mnemonic with its operand-carrying mode. */
  datatype Opcode = Opcode(mnemonic: Mnemonic, mode: AddressMode)

  /** The mnemonic supports the instruction's addressing mode. */
  predicate Legal(op: Opcode)
  {
    OpcodeByte(op.mnemonic, ModeOf(op.mode)).Some?
  }

  /** Every entry of the derive attributes is found again in the decode
      table: the mnemonic and mode are recovered from the opcode byte. The
      proof is split into groups of seven mnemonics, in declaration order,
      to keep each obligation small. */
  lemma EncodeThenLookup(m: Mnemonic, k: Mode)
    requires OpcodeByte(m, k).Some?
    ensures Lookup(OpcodeByte(m, k).value) == Some((m, k))
  {
    if m in {ADC, AND, ASL, BCC, BCS, BEQ, BIT} {
      EncodeThenLookupAdcToBit(m, k);
    } else if m in {BMI, BNE, BPL, BRK, BVC, BVS, CLC} {
      EncodeThenLookupBmiToClc(m, k);
    } else if m in {CLD, CLI, CLV, CMP, CPX, CPY, DEC} {
      EncodeThenLookupCldToDec(m, k);
    } else if m in {DEX, DEY, EOR, INC, INX, INY, JMP} {
      EncodeThenLookupDexToJmp(m, k);
    } else if m in {JSR, LDA, LDX, LDY, LSR, NOP, ORA} {
      EncodeThenLookupJsrToOra(m, k);
    } else if m in {PHA, PHP, PLA, PLP, ROL, ROR, RTI} {
      EncodeThenLookupPhaToRti(m, k);
    } else if m in {RTS, SBC, SEC, SED, SEI, STA, STX} {
      EncodeThenLookupRtsToStx(m, k);
    } else {
      EncodeThenLookupStyToTya(m, k);
    }
  }

  lemma EncodeThenLookupAdcToBit(m: Mnemonic, k: Mode)
    requires m in {ADC, AND, ASL, BCC, BCS, BEQ, BIT} && OpcodeByte(m, k).Some?
    ensures Lookup(OpcodeByte(m, k).value) == Some((m, k))
  {
  }

  lemma EncodeThenLookupBmiToClc(m: Mnemonic, k: Mode)
    requires m in {BMI, BNE, BPL, BRK, BVC, BVS, CLC} && OpcodeByte(m, k).Some?
    ensures Lookup(OpcodeByte(m, k).value) == Some((m, k))
  {
  }

  lemma EncodeThenLookupCldToDec(m: Mnemonic, k: Mode)
    requires m in {CLD, CLI, CLV, CMP, CPX, CPY, DEC} && OpcodeByte(m, k).Some?
    ensures Lookup(OpcodeByte(m, k).value) == Some((m, k))
  {
  }

  lemma EncodeThenLookupDexToJmp(m: Mnemonic, k: Mode)
    requires m in {DEX, DEY, EOR, INC, INX, INY, JMP} && OpcodeByte(m, k).Some?
    ensures Lookup(OpcodeByte(m, k).value) == Some((m, k))
  {
  }

  lemma EncodeThenLookupJsrToOra(m: Mnemonic, k: Mode)
    requires m in {JSR, LDA, LDX, LDY, LSR, NOP, ORA} && OpcodeByte(m, k).Some?
    ensures Lookup(OpcodeByte(m, k).value) == Some((m, k))
  {
  }

  lemma EncodeThenLookupPhaToRti(m: Mnemonic, k: Mode)
    requires m in {PHA, PHP, PLA, PLP, ROL, ROR, RTI} && OpcodeByte(m, k).Some?
    ensures Lookup(OpcodeByte(m, k).value) == Some((m, k))
  {
  }

  lemma EncodeThenLookupRtsToStx(m: Mnemonic, k: Mode)
    requires m in {RTS, SBC, SEC, SED, SEI, STA, STX} && OpcodeByte(m, k).Some?
    ensures Lookup(OpcodeByte(m, k).value) == Some((m, k))
  {
  }

  lemma EncodeThenLookupStyToTya(m: Mnemonic, k: Mode)
    requires m in {STY, TAX, TAY, TSX, TXA, TXS, TYA} && OpcodeByte(m, k).Some?
    ensures Lookup(OpcodeByte(m, k).value) == Some((m, k))
  {
  }

  /** Every byte of the decode table is the opcode byte the derive attributes
      give its mnemonic and mode. The proof goes row by row (sixteen bytes
      sharing a high nibble) to keep each obligation small. */
  lemma LookupThenEncode(b: u8)
    requires Lookup(b).Some?
    ensures OpcodeByte(Lookup(b).value.0, Lookup(b).value.1) == Some(b)
  {
    if b < 0x10 {
      LookupThenEncodeRow0(b);
    } else if b < 0x20 {
      LookupThenEncodeRow1(b);
    } else if b < 0x30 {
      LookupThenEncodeRow2(b);
    } else if b < 0x40 {
      LookupThenEncodeRow3(b);
    } else if b < 0x50 {
      LookupThenEncodeRow4(b);
    } else if b < 0x60 {
      LookupThenEncodeRow5(b);
    } else if b < 0x70 {
      LookupThenEncodeRow6(b);
    } else if b < 0x80 {
      LookupThenEncodeRow7(b);
    } else if b < 0x88 {
      LookupThenEncodeRow8Low(b);
    } else if b < 0x90 {
      LookupThenEncodeRow8High(b);
    } else if b < 0x98 {
      LookupThenEncodeRow9Low(b);
    } else if b < 0xA0 {
      LookupThenEncodeRow9High(b);
    } else if b < 0xB0 {
      LookupThenEncodeRowA(b);
    } else if b < 0xC0 {
      LookupThenEncodeRowB(b);
    } else if b < 0xD0 {
      LookupThenEncodeRowC(b);
    } else if b < 0xE0 {
      LookupThenEncodeRowD(b);
    } else if b < 0xF0 {
      LookupThenEncodeRowE(b);
    } else {
      LookupThenEncodeRowF(b);
    }
  }

  lemma LookupThenEncodeRow0(b: u8)
    requires 0x00 <= b < 0x10 && Lookup(b).Some?
    ensures OpcodeByte(Lookup(b).value.0, Lookup(b).value.1) == Some(b)
  {
  }

  lemma LookupThenEncodeRow1(b: u8)
    requires 0x10 <= b < 0x20 && Lookup(b).Some?
    ensures OpcodeByte(Lookup(b).value.0, Lookup(b).value.1) == Some(b)
  {
  }

  lemma LookupThenEncodeRow2(b: u8)
    requires 0x20 <= b < 0x30 && Lookup(b).Some?
    ensures OpcodeByte(Lookup(b).value.0, Lookup(b).value.1) == Some(b)
  {
  }

  lemma LookupThenEncodeRow3(b: u8)
    requires 0x30 <= b < 0x40 && Lookup(b).Some?
    ensures OpcodeByte(Lookup(b).value.0, Lookup(b).value.1) == Some(b)
  {
  }

  lemma LookupThenEncodeRow4(b: u8)
    requires 0x40 <= b < 0x50 && Lookup(b).Some?
    ensures OpcodeByte(Lookup(b).value.0, Lookup(b).value.1) == Some(b)
  {
  }

  lemma LookupThenEncodeRow5(b: u8)
    requires 0x50 <= b < 0x60 && Lookup(b).Some?
    ensures OpcodeByte(Lookup(b).value.0, Lookup(b).value.1) == Some(b)
  {
  }

  lemma LookupThenEncodeRow6(b: u8)
    requires 0x60 <= b < 0x70 && Lookup(b).Some?
    ensures OpcodeByte(Lookup(b).value.0, Lookup(b).value.1) == Some(b)
  {
  }

  lemma LookupThenEncodeRow7(b: u8)
    requires 0x70 <= b < 0x80 && Lookup(b).Some?
    ensures OpcodeByte(Lookup(b).value.0, Lookup(b).value.1) == Some(b)
  {
  }

  lemma LookupThenEncodeRow8Low(b: u8)
    requires 0x80 <= b < 0x88 && Lookup(b).Some?
    ensures OpcodeByte(Lookup(b).value.0, Lookup(b).value.1) == Some(b)
  {
  }

  lemma LookupThenEncodeRow8High(b: u8)
    requires 0x88 <= b < 0x90 && Lookup(b).Some?
    ensures OpcodeByte(Lookup(b).value.0, Lookup(b).value.1) == Some(b)
  {
  }

  lemma LookupThenEncodeRow9Low(b: u8)
    requires 0x90 <= b < 0x98 && Lookup(b).Some?
    ensures OpcodeByte(Lookup(b).value.0, Lookup(b).value.1) == Some(b)
  {
  }

  lemma LookupThenEncodeRow9High(b: u8)
    requires 0x98 <= b < 0xA0 && Lookup(b).Some?
    ensures OpcodeByte(Lookup(b).value.0, Lookup(b).value.1) == Some(b)
  {
  }

  lemma LookupThenEncodeRowA(b: u8)
    requires 0xA0 <= b < 0xB0 && Lookup(b).Some?
    ensures OpcodeByte(Lookup(b).value.0, Lookup(b).value.1) == Some(b)
  {
  }

  lemma LookupThenEncodeRowB(b: u8)
    requires 0xB0 <= b < 0xC0 && Lookup(b).Some?
    ensures OpcodeByte(Lookup(b).value.0, Lookup(b).value.1) == Some(b)
  {
  }

  lemma LookupThenEncodeRowC(b: u8)
    requires 0xC0 <= b < 0xD0 && Lookup(b).Some?
    ensures OpcodeByte(Lookup(b).value.0, Lookup(b).value.1) == Some(b)
  {
  }

  lemma LookupThenEncodeRowD(b: u8)
    requires 0xD0 <= b < 0xE0 && Lookup(b).Some?
    ensures OpcodeByte(Lookup(b).value.0, Lookup(b).value.1) == Some(b)
  {
  }

  lemma LookupThenEncodeRowE(b: u8)
    requires 0xE0 <= b < 0xF0 && Lookup(b).Some?
    ensures OpcodeByte(Lookup(b).value.0, Lookup(b).value.1) == Some(b)
  {
  }

  lemma LookupThenEncodeRowF(b: u8)
    requires 0xF0 <= b < 0x100 && Lookup(b).Some?
    ensures OpcodeByte(Lookup(b).value.0, Lookup(b).value.1) == Some(b)
  {
  }

  /** The decode table and the derive attributes describe the same relation
      between opcode bytes and (mnemonic, mode) pairs. */
  lemma LookupIff(m: Mnemonic, k: Mode, b: u8)
    ensures Lookup(b) == Some((m, k)) <==> OpcodeByte(m, k) == Some(b)
  {
    if Lookup(b) == Some((m, k)) {
      LookupThenEncode(b);
    }
    if OpcodeByte(m, k) == Some(b) {
      EncodeThenLookup(m, k);
    }
  }

  /** No byte value is assigned to two (mnemonic, mode) pairs. */
  lemma OpcodeByteInjective(m1: Mnemonic, k1: Mode, m2: Mnemonic, k2: Mode)
    requires OpcodeByte(m1, k1).Some? && OpcodeByte(m1, k1) == OpcodeByte(m2, k2)
    ensures m1 == m2 && k1 == k2
  {
    EncodeThenLookup(m1, k1);
    EncodeThenLookup(m2, k2);
  }

  /** The match arms of one mnemonic's decoder are exactly the entries of
      its attribute: the arm order cannot shadow an entry. */
  lemma ModeForByteIff(m: Mnemonic, k: Mode, b: u8)
    ensures ModeForByte(m, b) == Some(k) <==> OpcodeByte(m, k) == Some(b)
  {
    if OpcodeByte(m, k) == Some(b) {
      var r := ModeForByte(m, b);
      if r.Some? {
        OpcodeByteInjective(m, r.value, m, k);
      } else {
        OpcodeByteNotShadowed(m, k, b);
      }
    }
  }

  lemma OpcodeByteNotShadowed(m: Mnemonic, k: Mode, b: u8)
    requires OpcodeByte(m, k) == Some(b)
    ensures ModeForByte(m, b).Some?
  {
    FirstArmNotShadowed(k => OpcodeByte(m, k), k, b);
  }

  /** No mode given a byte is skipped by the generated arms: some arm, its
      own or an earlier one, matches the byte. */
  lemma FirstArmNotShadowed(attr: Mode -> Option<u8>, k: Mode, b: u8)
    requires attr(k) == Some(b)
    ensures FirstArm(attr, b).Some?
  {
  }

  /** The eight conditional branches. */
  predicate IsBranch(m: Mnemonic)
  {
    m == BPL || m == BMI || m == BVC || m == BVS || m == BCC || m == BCS || m == BNE || m == BEQ
  }

  /** Relative mode belongs to the branches alone, and they have no other mode. */
  lemma RelativeIsBranchOnly(m: Mnemonic, k: Mode)
    ensures OpcodeByte(m, Rel).Some? <==> IsBranch(m)
    ensures IsBranch(m) ==> (OpcodeByte(m, k).Some? <==> k == Rel)
  {
    BranchBytes(m);
    if IsBranch(m) {
      BranchHasRelativeOnly(m, k);
    }
  }

  /** A branch has no mode but Relative. */
  lemma BranchHasRelativeOnly(m: Mnemonic, k: Mode)
    requires IsBranch(m)
    ensures OpcodeByte(m, k).Some? <==> k == Rel
  {
    match m
    case BPL =>
    case BMI =>
    case BVC =>
    case BVS =>
    case BCC =>
    case BCS =>
    case BNE =>
    case BEQ =>
  }

  /** The opcode bytes of the eight branches: 0x10 to 0xF0 in steps of 0x20. */
  lemma BranchBytes(m: Mnemonic)
    ensures OpcodeByte(m, Rel) ==
      if m == BPL then Some(0x10) else if m == BMI then Some(0x30)
      else if m == BVC then Some(0x50) else if m == BVS then Some(0x70)
      else if m == BCC then Some(0x90) else if m == BCS then Some(0xB0)
      else if m == BNE then Some(0xD0) else if m == BEQ then Some(0xF0)
      else None
  {
  }

  /** Accumulator mode exists only for the four shifts and rotates. */
  lemma AccumulatorIsShiftOnly(m: Mnemonic)
    ensures OpcodeByte(m, Acc) ==
      if m == ASL then Some(0x0A) else if m == ROL then Some(0x2A)
      else if m == LSR then Some(0x4A) else if m == ROR then Some(0x6A)
      else None
  {
  }

  /** Zero page indexed by Y exists only for LDX and STX, and indirect mode
      only for JMP. */
  lemma ZeroYAndIndirectOwners(m: Mnemonic)
    ensures OpcodeByte(m, ZpgY) ==
      if m == LDX then Some(0xB6) else if m == STX then Some(0x96) else None
    ensures OpcodeByte(m, Ind) == if m == JMP then Some(0x6C) else None
  {
  }
}
