# nestle core in Dafny

This project models the byte-level core of *nestle*, an NES emulator in the
making, and proves properties of that model. The model has four parts:

- **The 6502 instruction decoder** (`asm6502`, `asm6502_derive`). The opcode
  table gives each of the 56 mnemonics its (addressing mode → opcode byte)
  attributes. The derive macro generates a decoder from that table. It peeks
  a byte, matches it against the mnemonic's attributes, consumes the opcode
  byte, then reads 0, 1 or 2 operand bytes; two-byte operands are
  little-endian. `dump` and `OpcodeIterator` repeat this rule over a buffer.
  `prettyprint` gives each instruction the address where it starts.
  (`instructions.dfy`, `decoder.dfy`, `disassembler.dfy`)
- **The segmented 64 KiB memory** (`nestle_cpu/src/memory.rs`). A
  `MemoryBuilder` collects data, mirror and read-only segments. `build`
  writes the data segments into a zeroed 0x10000-byte array and sorts the
  other segments by (start, end). Reads are little-endian. A write is
  refused when a read-only segment holds its address. Otherwise it stores
  the bytes and `sync` copies them across every mirror pair that holds the
  address. (`memory.dfy`)
- **The NROM mapper** (`nestle_cpu/src/mapper.rs`). It places a 16 KiB PRG
  ROM at 0x8000 and at 0xC000, with a mirror between the two. A 32 KiB PRG
  ROM fills 0x8000..=0xFFFF. Either way the ROM area becomes read-only.
  (`nrom.dfy`)
- **The iNES v1 container** (`nestle_ines/src/model.rs`). The layout is:
  - the magic `NES\x1a`;
  - the sizes and flags, then 9 extra header bytes;
  - a 512-byte trainer, present when bit 0x20 of the flags byte is set;
  - the PRG ROM;
  - the CHR ROM, present when its size is not zero.

  The model gives a parser and the matching `dump` serialiser, and proves
  that they are inverses. (`ines.dfy`)

Everything is a pure function over immutable values. The Rust `Memory` has one owner and changes only through `&mut self`, so the model passes it through functions instead: `WriteU8` returns the new memory. As a result the sequential copy of `sync_memory` is the recursive `AddressSpace.Copy` rather than a loop with an invariant. The memory is a
`seq<u8>` of 0x10000 bytes. A write returns the new memory together with
`Ok(())` or `Err(message)`, using the same messages as the source. `bytes.dfy`
holds the shared `u8`/`u16` types, `Option`, `Result` and the little-endian
word helpers.

The generated `Opcode::from_peekable` dispatcher and `Opcode::size()` are
used by `dump` and `prettyprint`, but they are not defined in the source.
The model defines them itself:
- `Instructions.Lookup` is a 256-entry opcode matrix.
- `Decoder.Size` is one plus the operand length.

The lemmas tie that matrix to the per-mnemonic attribute table in both
directions. They also show that the dispatcher decodes a byte exactly as
the mnemonic that owns it would.

## Model

| member | source | states |
|---|---|---|
| Instructions.OperandLengthByPayload | asm6502/src/instructions.rs:4-19 | Implicit and Accumulator carry no operand, the four 16-bit modes carry two bytes, every other mode one byte |
| Instructions.OpcodeByte | asm6502/src/instructions.rs:21-348 | the attribute table: the opcode byte each mnemonic's attribute gives a mode, or None when the attribute does not name the mode |
| Instructions.ModeForByte | asm6502_derive/src/lib.rs:127-136 | the mode a mnemonic's decoder picks for a byte is one whose table entry is that byte |
| Instructions.ModeForByteIff | asm6502_derive/src/lib.rs:127-136 | a mnemonic's decoder matches a byte in mode k exactly when the table gives that byte to (mnemonic, k) |
| Instructions.OpcodeByteNotShadowed | asm6502_derive/src/lib.rs:127-136 | no attribute of a mnemonic is hidden by an earlier match arm: each of its bytes is matched |
| Instructions.EncodeThenLookup | asm6502/src/instructions.rs:21-348 | the dispatcher maps every table entry's byte back to its (mnemonic, mode) |
| Instructions.LookupThenEncode | asm6502/src/instructions.rs:21-348 | every byte the dispatcher accepts is the table entry of the pair it returns |
| Instructions.LookupIff | asm6502/src/instructions.rs:21-348 | the dispatcher maps b to (m, k) if and only if the table assigns b to (m, k) |
| Instructions.OpcodeByteInjective | asm6502/src/instructions.rs:21-348 | no opcode byte is assigned to two (mnemonic, mode) pairs |
| Instructions.RelativeIsBranchOnly | asm6502/src/instructions.rs:57-94 | exactly the eight branch mnemonics have Relative mode, and it is their only mode |
| Instructions.BranchBytes | asm6502/src/instructions.rs:57-94 | the Relative bytes are BPL 0x10, BMI 0x30, BVC 0x50, BVS 0x70, BCC 0x90, BCS 0xB0, BNE 0xD0, BEQ 0xF0, and no other mnemonic has one |
| Instructions.AccumulatorIsShiftOnly | asm6502/src/instructions.rs:47-272 | Accumulator mode exists only for ASL 0x0A, ROL 0x2A, LSR 0x4A and ROR 0x6A |
| Instructions.ZeroYAndIndirectOwners | asm6502/src/instructions.rs:170-320 | ZeroY exists only for LDX 0xB6 and STX 0x96, and Indirect only for JMP 0x6C |
| Bytes.FromLe | asm6502_derive/src/lib.rs:87-90 | the word built from two bytes has the first as its low byte and the second as its high byte |
| Bytes.ToLe | nestle_cpu/src/memory.rs:217-219 | the two little-endian bytes of a word rebuild that word |
| Bytes.ToLeFromLe | nestle_cpu/src/memory.rs:217-219 | splitting a word built from two bytes gives those bytes back |
| Decoder.ReadOperand | asm6502_derive/src/lib.rs:57-125 | reading the operand of mode k yields an addressing mode of kind k |
| Decoder.OperandBytes | asm6502_derive/src/lib.rs:57-125 | the operand bytes of an addressing mode have its mode's length and read back as that mode |
| Decoder.ReadOperandBytes | asm6502_derive/src/lib.rs:79-90 | reading an operand keeps its bytes exactly: the raw relative byte, and the little-endian word b1 + 256*b2 |
| Decoder.OperandBytesInjective | asm6502_derive/src/lib.rs:57-125 | two addressing modes of one kind with equal operand bytes are equal |
| Decoder.Encode | asm6502/src/instructions.rs:21-348 | an instruction's encoding is its size long and starts with its table byte |
| Decoder.FromPeekable | asm6502_derive/src/lib.rs:40-50 | the decoder gives None exactly at the end of input or on a byte none of the mnemonic's attributes claims; otherwise it consumes the opcode byte and the mode's operand bytes |
| Decoder.FromBytes | asm6502_derive/src/lib.rs:151-153 | from_bytes succeeds exactly when the first byte is one of the mnemonic's, and then the input starts with the instruction's encoding |
| Decoder.Decode | asm6502/src/lib.rs:9 | the dispatcher yields None exactly at the end or on an unassigned byte; otherwise a legal instruction of the byte's table pair, and the cursor advances by its size |
| Decoder.DecodeEncode | asm6502_derive/src/lib.rs:127-136 | an encoded instruction decodes to itself, and the cursor moves past its encoding |
| Decoder.EncodeDecode | asm6502_derive/src/lib.rs:127-136 | the bytes a decode consumes are the encoding of what it returns |
| Decoder.OperandsPresentForAll | asm6502_derive/src/lib.rs:62 | when the instruction at the cursor is complete, every mnemonic's decoder has the operand bytes it needs |
| Decoder.OwnerDecodesAsDispatcher | asm6502_derive/src/lib.rs:127-136 | when a mnemonic's decoder accepts a byte, the dispatcher returns that mnemonic with the same operand and cursor |
| Decoder.DispatcherDecodesAsOwner | asm6502_derive/src/lib.rs:127-136 | a mnemonic's decoder accepts the byte exactly when the dispatcher assigns it to that mnemonic |
| Decoder.AdcImmediate | asm6502/src/instructions.rs:355 | ADC decodes 69 01 as Immediate(0x01) |
| Decoder.AdcImmediateC4 | asm6502/src/instructions.rs:354 | ADC decodes 69 C4 as Immediate(0xC4) |
| Decoder.AdcZero | asm6502/src/instructions.rs:356 | ADC decodes 65 01 as Zero(0x01) |
| Decoder.AdcZeroX | asm6502/src/instructions.rs:357 | ADC decodes 75 01 as ZeroX(0x01) |
| Decoder.AdcAbsolute | asm6502/src/instructions.rs:358-361 | ADC decodes 6D 01 02 as Absolute(0x0201) |
| Decoder.AdcAbsoluteX | asm6502/src/instructions.rs:362-365 | ADC decodes 7D 01 02 as AbsoluteX(0x0201) |
| Decoder.AdcAbsoluteY | asm6502/src/instructions.rs:366-369 | ADC decodes 79 01 02 as AbsoluteY(0x0201) |
| Decoder.AdcRejectsAnd | asm6502/src/instructions.rs:21-45 | ADC's decoder returns None on 0x29, which is AND's immediate byte |
| Disassembler.AssembleAppend | asm6502/src/lib.rs:5-14 | the encoding of two instruction lists joined is the two encodings joined |
| Disassembler.TotalSizeAppend | asm6502/src/lib.rs:17-22 | the sizes of two joined instruction lists add up |
| Disassembler.AssembleLength | asm6502/src/lib.rs:17-22 | the encoding of an instruction list is as long as the sum of its sizes |
| Disassembler.Drain | asm6502/src/lib.rs:9-11 | decoding until None yields legal instructions that cover pos..end, and stops at the end of input or on an unassigned byte |
| Disassembler.DrainAssembles | asm6502/src/lib.rs:9-11 | the decoded instructions re-encode to exactly the bytes they were decoded from |
| Disassembler.DrainAssemble | asm6502/src/lib.rs:5-14 | a buffer that starts with the encoding of a list, followed by the end or an unassigned byte, decodes to exactly that list |
| Disassembler.Dump | asm6502/src/lib.rs:5-14 | dump returns the decoded instructions in order; their encodings form a prefix of the input, and the rest is empty or starts with an unassigned byte |
| Disassembler.DumpEmpty | asm6502/src/lib.rs:9-11 | dump is empty if and only if the buffer is empty or its first byte is unassigned |
| Disassembler.AssembleSplit | asm6502/src/lib.rs:17-22 | the encoding of a list is the encoding before instruction k, then k's encoding, then the rest |
| Disassembler.AssembleAt | asm6502/src/lib.rs:17-22 | instruction k's encoding sits at the offset given by the sizes before it |
| Disassembler.AllLegalSplit | asm6502/src/lib.rs:5-14 | both parts of a legal instruction list are legal |
| Disassembler.DecodeAtOffset | asm6502/src/lib.rs:17-22 | decoding at the address of the k-th instruction of dump yields that instruction |
| Disassembler.Addresses | asm6502/src/lib.rs:16-23 | the address of the k-th instruction is the sum of the sizes before it |
| Disassembler.Opcodes | asm6502/src/iter.rs:18-22 | the iterator over a complete buffer yields exactly dump's instructions from the given cursor, which it starts at without consuming a byte |
| Disassembler.Next | asm6502/src/iter.rs:13-15 | next performs one decode step: None leaves the iterator where it was, otherwise it advances by the instruction's size |
| Disassembler.ExhaustedStaysExhausted | asm6502/src/iter.rs:13-15 | once next returns None, any number of further calls leave the cursor put and return None |
| Disassembler.CollectIsDump | asm6502/src/iter.rs:13-15 | draining the iterator yields the same instructions as dump |
| Disassembler.SimpleProgramDump | asm6502/src/lib.rs:25-29 | the test bytes decode to LDX #$08, DEX, STX $0200, CPX #$03, BNE $F8, STX $0201, BRK, covering all 14 bytes |
| Disassembler.SimpleProgramAddresses | asm6502/src/lib.rs:16-23 | the test program's instructions start at 0, 2, 3, 6, 8, 10, 13, and the program ends at 14 |
| AddressSpace.NewBuilder | nestle_cpu/src/memory.rs:96-101 | a new builder holds no segments |
| AddressSpace.AddReadonly | nestle_cpu/src/memory.rs:103-105 | add_readonly appends one read-only segment and changes nothing else |
| AddressSpace.AddMirror | nestle_cpu/src/memory.rs:107-118 | add_mirror fails if and only if src holds dest's start or end; on failure nothing changes, otherwise exactly the mirror segment is appended |
| AddressSpace.AddData | nestle_cpu/src/memory.rs:120-129 | add_data fails if and only if the byte count differs from end - start + 1; on failure nothing changes, otherwise exactly the data segment is appended |
| AddressSpace.Overwrite | nestle_cpu/src/memory.rs:135-137 | copying a data segment replaces exactly the bytes of its range with its bytes |
| AddressSpace.Flatten | nestle_cpu/src/memory.rs:133-137 | the data loop of build: a 0x10000-byte array with the data segments copied in order onto zeros |
| AddressSpace.FlattenUncovered | nestle_cpu/src/memory.rs:133-137 | a byte no data segment covers stays 0 |
| AddressSpace.FlattenLastWins | nestle_cpu/src/memory.rs:135-137 | a byte holds the value of the last data segment that covers it |
| AddressSpace.Insert | nestle_cpu/src/memory.rs:75-82 | inserting into a sorted list keeps it sorted by (start, end) and adds exactly that segment |
| AddressSpace.InsertSplit | nestle_cpu/src/memory.rs:75-82 | insertion puts the segment after every segment not greater than it, and before the rest |
| AddressSpace.Sort | nestle_cpu/src/memory.rs:139 | sorting yields a list ordered by (start, end) that is a permutation of its input |
| AddressSpace.SortStable | nestle_cpu/src/memory.rs:139 | segments with equal ranges keep their relative order, as in a stable sort |
| AddressSpace.InsertSameKey | nestle_cpu/src/memory.rs:139 | inserting a segment puts it after every segment with the same range |
| AddressSpace.Build | nestle_cpu/src/memory.rs:131-145 | build gives a 0x10000-byte array that is 0 wherever no data segment reaches, and the other segments sorted and otherwise unchanged |
| AddressSpace.BuildLastWins | nestle_cpu/src/memory.rs:135-137 | after build, each byte holds the value of the last data segment that covers it |
| AddressSpace.BuildStable | nestle_cpu/src/memory.rs:139 | build keeps the order of segments with equal ranges |
| AddressSpace.BuildReadonly | nestle_cpu/src/memory.rs:139-144 | an address is read-only after build exactly when a read-only segment added to the builder holds it |
| AddressSpace.IsReadonly | nestle_cpu/src/memory.rs:186-193 | an address is read-only exactly when some read-only segment holds it |
| AddressSpace.Target | nestle_cpu/src/memory.rs:171-181 | for a mirror segment, an address in its range is copied to the same offset in its destination, and an address in the destination to the same offset in its range; other segments copy nothing |
| AddressSpace.Copy | nestle_cpu/src/memory.rs:155-165 | sync_memory changes only the n bytes it copies to |
| AddressSpace.CopyContents | nestle_cpu/src/memory.rs:155-165 | each copied byte is read from the source after the earlier copies have been done |
| AddressSpace.CopyApart | nestle_cpu/src/memory.rs:155-165 | when source and destination do not overlap, the destination receives the source bytes |
| AddressSpace.Sync | nestle_cpu/src/memory.rs:167-184 | sync changes no byte outside the mirror counterparts of the written range |
| AddressSpace.SyncMirrorPair | nestle_cpu/src/memory.rs:167-184 | with one mirror pair holding the address, the written bytes arrive at the counterpart in the other half |
| AddressSpace.ReadU8 | nestle_cpu/src/memory.rs:195-197 | read_u8 is the byte of the array at the address; segments play no part in reads |
| AddressSpace.ReadU16 | nestle_cpu/src/memory.rs:195-201 | read_u16 is read_u8(a) + 256 * read_u8(a + 1) |
| AddressSpace.WriteU8 | nestle_cpu/src/memory.rs:203-211 | write_u8 fails, leaving memory unchanged, exactly when a read-only segment holds the address; otherwise it changes only the byte and its mirror counterparts, and never the segments |
| AddressSpace.WriteU16 | nestle_cpu/src/memory.rs:213-223 | write_u16 fails, leaving memory unchanged, exactly when a read-only segment holds the first address; otherwise it changes only the two bytes and their mirror counterparts |
| AddressSpace.WriteU8Mirrored | nestle_cpu/src/memory.rs:203-211 | a byte written inside a mirror pair reads back at the address and at its counterpart |
| AddressSpace.WriteU16Mirrored | nestle_cpu/src/memory.rs:213-223 | a word written inside a mirror pair reads back at the address and at its counterpart |
| AddressSpace.WriteU16SecondByteUnchecked | nestle_cpu/src/memory.rs:213-220 | write_u16 stores its high byte even when that address is read-only |
| AddressSpace.IterRange | nestle_cpu/src/memory.rs:225-227 | iter_range yields the bytes of the inclusive range in order |
| AddressSpace.TestMirrorBuild | nestle_cpu/src/memory.rs:236-240 | the mirror 0x0000..=0x7FFF to 0x8000..=0xFFFF is accepted, and built memory is all zero |
| AddressSpace.TestMirrorWriteU8 | nestle_cpu/src/memory.rs:242-252 | in that memory, every byte write reaches both halves |
| AddressSpace.TestMirrorBytes | nestle_cpu/src/memory.rs:242-252 | the four byte writes of the mirror test read equal in both halves |
| AddressSpace.TestMirrorWord | nestle_cpu/src/memory.rs:254-255 | the word 0xABCD written at 0x7FFE reads back at 0x7FFE and 0xFFFE |
| AddressSpace.TestReadonlyBuild | nestle_cpu/src/memory.rs:260-262 | building with read-only 0x0000..=0x7FFF keeps that one segment |
| AddressSpace.TestReadonly | nestle_cpu/src/memory.rs:264-266 | writes at 0x0000 and 0x7FFF fail and a write at 0x8000 succeeds |
| AddressSpace.TestBuilderDataBytes | nestle_cpu/src/memory.rs:271-273 | data AD DE at 0..=1 is accepted and lands at addresses 0 and 1 |
| AddressSpace.TestBuilderData | nestle_cpu/src/memory.rs:275 | read_u16(0) of that memory is 0xDEAD |
| Nrom.MapBuilder | nestle_cpu/src/mapper.rs:14-28 | the builder is complete exactly for a 16 KiB or 32 KiB PRG ROM; the mirror passes the overlap check |
| Nrom.MapImage | nestle_cpu/src/mapper.rs:13-30 | map_image succeeds exactly for a 16 KiB or 32 KiB PRG ROM |
| Nrom.MapBuilderSmall | nestle_cpu/src/mapper.rs:20-23 | a 16 KiB PRG ROM is added at 0x8000 and at 0xC000, with the high bank mirroring the low one |
| Nrom.MapBuilderLarge | nestle_cpu/src/mapper.rs:24-26 | a 32 KiB PRG ROM is added at 0x8000..=0xFFFF |
| Nrom.MappedSegments | nestle_cpu/src/mapper.rs:14-28 | mapped memory holds only the mirror of the low bank and the read-only ROM area, and the ROM area is always among its segments |
| Nrom.MappedSmall | nestle_cpu/src/mapper.rs:20-22 | a 16 KiB PRG ROM reads at 0x8000 + i and at 0xC000 + i |
| Nrom.MappedLarge | nestle_cpu/src/mapper.rs:24-26 | a 32 KiB PRG ROM reads at 0x8000 + i |
| Nrom.MappedReadonly | nestle_cpu/src/mapper.rs:28 | after mapping, an address is read-only exactly when it is in 0x8000..=0xFFFF |
| Nrom.RomWriteRefused | nestle_cpu/src/mapper.rs:28 | every byte write into 0x8000..=0xFFFF fails and leaves memory unchanged |
| Nrom.MappedLowZero | nestle_cpu/src/mapper.rs:14-29 | after mapping, 0x0000..=0x7FFF reads 0 |
| Nrom.LowNotMirrored | nestle_cpu/src/mapper.rs:14-29 | no mirror copies a write below 0x8000 |
| Nrom.LowWriteAccepted | nestle_cpu/src/mapper.rs:14-29 | a byte write below 0x8000 succeeds and changes that byte only |
| Nrom.ResetVector | nestle_cpu/src/run.rs:21 | the reset vector read at 0xFFFC is prg[n-4] + 256 * prg[n-3] for both PRG ROM sizes |
| Nrom.WordWriteIntoRom | nestle_cpu/src/mapper.rs:28 | a word written at 0x7FFF is accepted and its high byte lands at 0x8000, inside the read-only area |
| InesFormat.HasTrainer | nestle_ines/src/model.rs:7 | the trainer is present exactly when bit 0x20 of the flags byte is set |
| InesFormat.Take | nestle_ines/src/model.rs:10-11 | reading a counted field gives exactly the next n bytes |
| InesFormat.TakeIf | nestle_ines/src/model.rs:7-8 | a conditional field is present exactly when its condition holds, and then is the next n bytes |
| InesFormat.ParseHeader | nestle_ines/src/model.rs:49-56 | the header fails with a bad magic exactly when the first four bytes are not NES\x1a; it parses exactly when 16 bytes with the magic are there; sizes and flags are bytes 4, 5 and 6 |
| InesFormat.Parse | nestle_ines/src/model.rs:3-16 | an image parses exactly when the magic is right and the input holds header, trainer, PRG and CHR; it consumes exactly that many bytes |
| InesFormat.ParseSections | nestle_ines/src/model.rs:3-16 | the trainer is present exactly when bit 0x20 is set, and then is the 512 bytes after the header; PRG is the next prg_size*16384 bytes; CHR is present exactly when chr_size is not 0, and then is the next chr_size*8192 bytes |
| InesFormat.DumpHeader | nestle_ines/src/model.rs:58-67 | the header dump is 16 bytes that start with the magic and parse back to the header |
| InesFormat.Dump | nestle_ines/src/model.rs:19-35 | the dump is the header dump followed by the trainer, PRG and CHR |
| InesFormat.DumpSize | nestle_ines/src/model.rs:19-35 | an image consistent with its header dumps to the size its header announces |
| InesFormat.DumpSections | nestle_ines/src/model.rs:19-35 | each section of a consistent image sits in its dump where the parser reads it |
| InesFormat.HeaderRoundTrip | nestle_ines/src/model.rs:58-67 | dumping a parsed header gives back the 16 bytes it came from |
| InesFormat.ParseDump | nestle_ines/src/model.rs:120-132 | parsing the dump of a consistent image, whatever follows it, gives that image and consumes exactly the dump |
| InesFormat.DumpParse | nestle_ines/src/model.rs:3-35 | a parsed image is consistent with its header, and its dump is exactly the bytes it was parsed from |
| InesFormat.DefaultHeader | nestle_ines/src/model.rs:70-79 | the default header has prg_size 1, chr_size 0, flags 0, all-zero extra bytes and no trainer |
| InesFormat.DefaultInes | nestle_ines/src/model.rs:38-47 | the default image has the default header, no trainer, an empty PRG and no CHR, and is not consistent with its header |
| InesFormat.DefaultInconsistent | nestle_ines/src/model.rs:38-47 | the default image contradicts its own header, so its dump fails to parse with an early end of input |
| InesFormat.TestInesHeader | nestle_ines/src/model.rs:94-101 | the test header parses with prg_size 1, chr_size 0 and flags 0 |
| InesFormat.TestInesParse | nestle_ines/src/model.rs:103-109 | a default header followed by 16384 PRG bytes parses to that PRG |
| InesFormat.TestInesParseTrainer | nestle_ines/src/model.rs:111-133 | with flag 0x20, the dumped 512-byte trainer parses back |
| InesFormat.TestInesParseChr | nestle_ines/src/model.rs:135-157 | with chr_size 2, the dumped 16384-byte CHR parses back |

## Left out

- The counts in the opcode table (151 entries, 105 unassigned byte values) are not stated. The model proves instead that the table and the dispatcher are inverse bijections and that no byte is assigned twice.
- `Opcode`'s `Display` text is not modelled; it is not defined in the source.
- `Opcode::size()` and the `Opcode::from_peekable` dispatcher are not defined in the source either. `Decoder.Size` and `Instructions.Lookup` define them, and the owner-agreement lemmas justify that choice.
- The proc-macro machinery (darling, syn, quote) is not modelled. Only the decoder it generates is.
- I/O is not modelled:
  - `Ines::from_path` and `CPU::from_path`, except the reset-vector read;
  - the fixture tests;
  - `println!` and `log::debug!`;
  - the `pprint_binaries` hex dumper.
- `CPU::instructions` is `todo!()`, and the registers are declarations only. Neither is modelled.
- Decoder.FromPeekable: the source panics when an operand is truncated. The model makes a complete instruction a precondition (`OperandsAvailable`, `OperandsPresent`) instead of modelling the panic.
- The Relative operand is kept as the raw unsigned byte, as the source stores it; it is never sign-extended.
- `dump` is a pure function, so equal inputs give equal results.
- AddressSpace.AddData: requires `start <= end`. With `end < start` the source's `usize` subtraction `end - start + 1` panics in debug builds and wraps in release builds, where for example `add_data(5..=4, vec![])` computes length 0 and returns `Ok`. Neither outcome is modelled.
- The source's `usize` width is not modelled. Addresses are `nat` values below 0x10000.
- AddressSpace.WriteU8: the address, the write and every mirror copy must lie inside the array (`WriteDefined`). The source panics on an index of 0x10000 or more, for example a `write_u16` at 0xFFFF or a mirror copy running past the end.
- AddressSpace.WriteU16: has the same precondition as AddressSpace.WriteU8, with two bytes written.
- AddressSpace.ReadU16: requires `addr + 1 < 0x10000`. The source panics otherwise.
- AddressSpace.Build: data segments must fit inside the array and match their ranges in length (`DataFits`). The source panics otherwise.
- AddressSpace.WriteU8Mirrored: covers one mirror pair holding the address, with source and destination apart. The general case is the frame stated in AddressSpace.WriteU8 and the step-by-step copy in AddressSpace.CopyContents.
- AddressSpace.WriteU16Mirrored: has the same restriction as AddressSpace.WriteU8Mirrored: exactly one mirror segment holding the word's first address (the address `sync` looks at), with the two written bytes and their copies apart. The general case is the frame stated in AddressSpace.WriteU16 and the step-by-step copy in AddressSpace.CopyContents.
- The iNES parser does not look at bytes after CHR. `InesFormat.Parse` reports how many bytes it consumed, and trailing bytes are left unspecified.
- The trainer flag follows the code: bit 0x20 of byte 6. The iNES 1.0 format puts the trainer flag in bit 2 (0x04).
- For a 16 KiB PRG ROM, `map_image` writes the data at 0x8000 and at 0xC000 and also adds a mirror (mapper.rs:20-23). The model does the same.
- `Ines::default()` has `prg_size` 1 in its header but an empty PRG, so it is not a valid image. `InesFormat.DefaultInconsistent` states this.
