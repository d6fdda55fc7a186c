/** The decoder the `Asm6502` derive macro of asm6502_derive/src/lib.rs
    generates for each mnemonic struct, and the `Opcode` dispatcher over all
    mnemonics. A byte stream is a `seq<u8>` and a `Peekable` cursor is an
    index into it. */
module Decoder {
  import opened Bytes
  import opened Instructions

  /** The operand of mode `k`, read from the bytes starting at `at`: one raw
      byte for the `u8` modes, two bytes little-endian for the `u16` modes. */
  function ReadOperand(k: Mode, bytes: seq<u8>, at: nat): (am: AddressMode)
    requires at + OperandLength(k) <= |bytes|
    ensures ModeOf(am) == k
  {
    match k
    case Imp => Implicit
    case Acc => Accumulator
    case Imm => Immediate(bytes[at])
    case Zpg => Zero(bytes[at])
    case ZpgX => ZeroX(bytes[at])
    case ZpgY => ZeroY(bytes[at])
    case Rel => Relative(bytes[at])
    case Abs => Absolute(FromLe(bytes[at], bytes[at + 1]))
    case AbsX => AbsoluteX(FromLe(bytes[at], bytes[at + 1]))
    case AbsY => AbsoluteY(FromLe(bytes[at], bytes[at + 1]))
    case Ind => Indirect(FromLe(bytes[at], bytes[at + 1]))
    case IndX => IndirectX(bytes[at])
    case IndY => IndirectY(bytes[at])
  }

  /** The bytes an operand is written with after the opcode byte. */
  function OperandBytes(am: AddressMode): (r: seq<u8>)
    ensures |r| == OperandLength(ModeOf(am))
    ensures ReadOperand(ModeOf(am), r, 0) == am
  {
    match am
    case Implicit | Accumulator => []
    case Immediate(v) => [v]
    case Zero(v) => [v]
    case ZeroX(v) => [v]
    case ZeroY(v) => [v]
    case Relative(v) => [v]
    case Absolute(w) => ToLe(w)
    case AbsoluteX(w) => ToLe(w)
    case AbsoluteY(w) => ToLe(w)
    case Indirect(w) => ToLe(w)
    case IndirectX(v) => [v]
    case IndirectY(v) => [v]
  }

  /** Reading an operand and writing it back gives the bytes it was read from. */
  lemma ReadOperandBytes(k: Mode, bytes: seq<u8>, at: nat)
    requires at + OperandLength(k) <= |bytes|
    ensures OperandBytes(ReadOperand(k, bytes, at)) == bytes[at..at + OperandLength(k)]
  {
    if OperandLength(k) == 2 {
      ToLeFromLe(bytes[at], bytes[at + 1]);
    }
  }

  /** The number of bytes an instruction occupies: the opcode byte and the
      operand bytes of its mode. */
  function Size(op: Opcode): nat
  {
    1 + OperandLength(ModeOf(op.mode))
  }

  /** The bytes instruction `op` is written with: its opcode byte, then its
      operand. */
  function Encode(op: Opcode): (r: seq<u8>)
    requires Legal(op)
    ensures |r| == Size(op)
    ensures r[0] == OpcodeByte(op.mnemonic, ModeOf(op.mode)).value
  {
    [OpcodeByte(op.mnemonic, ModeOf(op.mode)).value] + OperandBytes(op.mode)
  }

  /** The generated decoder of mnemonic `m` does not reach a failing
      `unwrap`: when the peeked byte selects a mode, the bytes after it hold
      the whole operand. */
  predicate OperandsAvailable(m: Mnemonic, bytes: seq<u8>, pos: nat)
  {
    pos < |bytes| && ModeForByte(m, bytes[pos]).Some? ==>
      pos + 1 + OperandLength(ModeForByte(m, bytes[pos]).value) <= |bytes|
  }

  /** `from_peekable` of mnemonic `m`: peek at the byte under the cursor; if
      an arm of `m` claims it, consume it and then the operand bytes and
      return the mode with the cursor after them; otherwise return `None`
      without consuming anything. */
  function FromPeekable(m: Mnemonic, bytes: seq<u8>, pos: nat): (r: Option<(AddressMode, nat)>)
    requires pos <= |bytes| && OperandsAvailable(m, bytes, pos)
    ensures r.None? <==> pos == |bytes| || forall k :: OpcodeByte(m, k) != Some(bytes[pos])
    ensures r.Some? ==>
      && OpcodeByte(m, ModeOf(r.value.0)) == Some(bytes[pos])
      && r.value.1 == pos + 1 + OperandLength(ModeOf(r.value.0)) <= |bytes|
      && OperandBytes(r.value.0) == bytes[pos + 1..r.value.1]
  {
    if pos == |bytes| then None
    else
      match ModeForByte(m, bytes[pos])
      case None =>
        assert forall k :: OpcodeByte(m, k) != Some(bytes[pos]) by {
          forall k ensures OpcodeByte(m, k) != Some(bytes[pos]) {
            ModeForByteIff(m, k, bytes[pos]);
          }
        }
        None
      case Some(k) =>
        ReadOperandBytes(k, bytes, pos + 1);
        Some((ReadOperand(k, bytes, pos + 1), pos + 1 + OperandLength(k)))
  }

  /** `from_bytes` of mnemonic `m`: its decoder run on a fresh cursor at the
      start of `bytes`. */
  function FromBytes(m: Mnemonic, bytes: seq<u8>): (r: Option<AddressMode>)
    requires OperandsAvailable(m, bytes, 0)
    ensures r.Some? <==> |bytes| > 0 && ModeForByte(m, bytes[0]).Some?
    ensures r.Some? ==>
      && Legal(Opcode(m, r.value))
      && 1 + OperandLength(ModeOf(r.value)) <= |bytes|
      && bytes[..1 + OperandLength(ModeOf(r.value))] == Encode(Opcode(m, r.value))
  {
    match FromPeekable(m, bytes, 0)
    case None => None
    case Some((am, next)) =>
      assert bytes[..next] == [bytes[0]] + bytes[1..next];
      Some(am)
  }

  /** The dispatcher does not reach a failing `unwrap`: when the byte under
      the cursor is an opcode, its operand bytes are all present. */
  predicate OperandsPresent(bytes: seq<u8>, pos: nat)
  {
    pos < |bytes| && Lookup(bytes[pos]).Some? ==>
      pos + 1 + OperandLength(Lookup(bytes[pos]).value.1) <= |bytes|
  }

  /** `Opcode::from_peekable`: decode one instruction at cursor `pos` with
      the decode table, returning it with the cursor after it, or `None`
      (consuming nothing) at the end of the input or on an unmapped byte. */
  function Decode(bytes: seq<u8>, pos: nat): (r: Option<(Opcode, nat)>)
    requires pos <= |bytes| && OperandsPresent(bytes, pos)
    ensures r.None? <==> pos == |bytes| || Lookup(bytes[pos]).None?
    ensures r.Some? ==>
      && Legal(r.value.0)
      && Lookup(bytes[pos]) == Some((r.value.0.mnemonic, ModeOf(r.value.0.mode)))
      && r.value.1 == pos + Size(r.value.0) <= |bytes|
  {
    if pos == |bytes| then None
    else
      match Lookup(bytes[pos])
      case None => None
      case Some((m, k)) =>
        LookupThenEncode(bytes[pos]);
        Some((Opcode(m, ReadOperand(k, bytes, pos + 1)), pos + 1 + OperandLength(k)))
  }

  /** Decoding at a cursor where the encoding of a legal instruction starts
      gives the instruction back and moves the cursor right after it,
      whatever precedes and follows. */
  lemma DecodeEncode(bytes: seq<u8>, at: nat, op: Opcode)
    requires Legal(op)
    requires at + |Encode(op)| <= |bytes| && bytes[at..at + |Encode(op)|] == Encode(op)
    ensures OperandsPresent(bytes, at)
    ensures Decode(bytes, at) == Some((op, at + |Encode(op)|))
  {
    var k := ModeOf(op.mode);
    assert bytes[at] == Encode(op)[0];
    EncodeThenLookup(op.mnemonic, k);
    assert bytes[at + 1..at + 1 + OperandLength(k)] == OperandBytes(op.mode);
    ReadOperandBytes(k, bytes, at + 1);
    OperandBytesInjective(ReadOperand(k, bytes, at + 1), op.mode);
  }

  /** An operand is determined by its mode and its bytes. */
  lemma OperandBytesInjective(a: AddressMode, b: AddressMode)
    requires ModeOf(a) == ModeOf(b) && OperandBytes(a) == OperandBytes(b)
    ensures a == b
  {
    assert ReadOperand(ModeOf(a), OperandBytes(a), 0) == a;
    assert ReadOperand(ModeOf(b), OperandBytes(b), 0) == b;
  }

  /** A decoded instruction is the encoding of the bytes it consumed, so
      decoding is the inverse of `Encode` in both directions. */
  lemma EncodeDecode(bytes: seq<u8>, pos: nat)
    requires pos <= |bytes| && OperandsPresent(bytes, pos)
    requires Decode(bytes, pos).Some?
    ensures Decode(bytes, pos).value.1 == pos + |Encode(Decode(bytes, pos).value.0)|
    ensures bytes[pos..Decode(bytes, pos).value.1] == Encode(Decode(bytes, pos).value.0)
  {
    var (op, next) := Decode(bytes, pos).value;
    var (m, k) := Lookup(bytes[pos]).value;
    assert op == Opcode(m, ReadOperand(k, bytes, pos + 1));
    LookupThenEncode(bytes[pos]);
    ReadOperandBytes(k, bytes, pos + 1);
    assert Encode(op) == [bytes[pos]] + bytes[pos + 1..next];
    assert bytes[pos..next] == [bytes[pos]] + bytes[pos + 1..next];
  }

  /** When the dispatcher is safe, so is every mnemonic's own decoder. */
  lemma OperandsPresentForAll(m: Mnemonic, bytes: seq<u8>, pos: nat)
    requires OperandsPresent(bytes, pos)
    ensures OperandsAvailable(m, bytes, pos)
  {
    if pos < |bytes| && ModeForByte(m, bytes[pos]).Some? {
      var k := ModeForByte(m, bytes[pos]).value;
      ModeForByteIff(m, k, bytes[pos]);
      EncodeThenLookup(m, k);
    }
  }

  /** When the decoder of mnemonic `m` claims the byte under the cursor, the
      dispatcher decodes the same instruction of `m`. */
  lemma OwnerDecodesAsDispatcher(m: Mnemonic, bytes: seq<u8>, pos: nat)
    requires pos <= |bytes| && OperandsPresent(bytes, pos)
    ensures OperandsAvailable(m, bytes, pos)
    ensures FromPeekable(m, bytes, pos).Some? ==>
      Decode(bytes, pos) == Some((Opcode(m, FromPeekable(m, bytes, pos).value.0), FromPeekable(m, bytes, pos).value.1))
  {
    OperandsPresentForAll(m, bytes, pos);
    if FromPeekable(m, bytes, pos).Some? {
      var (am, next) := FromPeekable(m, bytes, pos).value;
      var k := ModeOf(am);
      LookupIff(m, k, bytes[pos]);
      var d := Decode(bytes, pos).value;
      assert d.0.mnemonic == m && ModeOf(d.0.mode) == k;
      OperandBytesInjective(d.0.mode, am);
    }
  }

  /** When the dispatcher decodes an instruction of mnemonic `m`, the decoder
      of `m` claims the byte too; the decoders of all other mnemonics reject
      it. */
  lemma DispatcherDecodesAsOwner(m: Mnemonic, bytes: seq<u8>, pos: nat)
    requires pos <= |bytes| && OperandsPresent(bytes, pos)
    ensures OperandsAvailable(m, bytes, pos)
    ensures FromPeekable(m, bytes, pos).Some? <==>
      Decode(bytes, pos).Some? && Decode(bytes, pos).value.0.mnemonic == m
  {
    OperandsPresentForAll(m, bytes, pos);
    if Decode(bytes, pos).Some? {
      var op := Decode(bytes, pos).value.0;
      var k := ModeOf(op.mode);
      LookupIff(op.mnemonic, k, bytes[pos]);
      if FromPeekable(m, bytes, pos).Some? {
        var k' := ModeOf(FromPeekable(m, bytes, pos).value.0);
        OpcodeByteInjective(m, k', op.mnemonic, k);
      }
    } else if FromPeekable(m, bytes, pos).Some? {
      var k' := ModeOf(FromPeekable(m, bytes, pos).value.0);
      LookupIff(m, k', bytes[pos]);
    }
  }

  /** `test_adc`: ADC's immediate form with operand 0xC4. */
  lemma AdcImmediateC4()
    ensures FromBytes(ADC, [0x69, 0xC4]) == Some(Immediate(0xC4))
  {
  }

  /** `test_adc`: ADC's immediate form. */
  lemma AdcImmediate()
    ensures FromBytes(ADC, [0x69, 0x01]) == Some(Immediate(0x01))
  {
  }

  /** `test_adc`: ADC's zero-page form. */
  lemma AdcZero()
    ensures FromBytes(ADC, [0x65, 0x01]) == Some(Zero(0x01))
  {
  }

  /** `test_adc`: ADC's zero-page,X form. */
  lemma AdcZeroX()
    ensures FromBytes(ADC, [0x75, 0x01]) == Some(ZeroX(0x01))
  {
  }

  /** `test_adc`: ADC's absolute form reads its operand little-endian. */
  lemma AdcAbsolute()
    ensures FromBytes(ADC, [0x6D, 0x01, 0x02]) == Some(Absolute(0x0201))
  {
  }

  /** `test_adc`: ADC's absolute,X form. */
  lemma AdcAbsoluteX()
    ensures FromBytes(ADC, [0x7D, 0x01, 0x02]) == Some(AbsoluteX(0x0201))
  {
  }

  /** `test_adc`: ADC's absolute,Y form. */
  lemma AdcAbsoluteY()
    ensures FromBytes(ADC, [0x79, 0x01, 0x02]) == Some(AbsoluteY(0x0201))
  {
  }

  /** ADC's decoder rejects AND's immediate opcode 0x29. */
  lemma AdcRejectsAnd()
    ensures FromBytes(ADC, [0x29, 0x01]) == None
  {
  }
}
