/** `dump` and `prettyprint` of asm6502/src/lib.rs and the lazy
    `OpcodeIterator` of asm6502/src/iter.rs: the decode step repeated over a
    buffer until it answers `None`. */
module Disassembler {
  import opened Bytes
  import opened Instructions
  import opened Decoder

  /** Every instruction of `ops` has an opcode byte. */
  predicate AllLegal(ops: seq<Opcode>)
  {
    ops == [] || (Legal(ops[0]) && AllLegal(ops[1..]))
  }

  /** The bytes a sequence of instructions is written with, one after the
      other. */
  function Assemble(ops: seq<Opcode>): seq<u8>
    requires AllLegal(ops)
  {
    if ops == [] then [] else Encode(ops[0]) + Assemble(ops[1..])
  }

  lemma {:induction false} AssembleAppend(a: seq<Opcode>, b: seq<Opcode>)
    requires AllLegal(a) && AllLegal(b)
    ensures AllLegal(a + b)
    ensures Assemble(a + b) == Assemble(a) + Assemble(b)
  {
    if a == [] {
      assert a + b == b;
    } else {
      var ab := a + b;
      assert ab[0] == a[0] && ab[1..] == a[1..] + b;
      AssembleAppend(a[1..], b);
      ConcatAssociative(Encode(a[0]), Assemble(a[1..]), Assemble(b));
    }
  }

  /** The total size of a sequence of instructions. */
  function TotalSize(ops: seq<Opcode>): nat
  {
    if ops == [] then 0 else Size(ops[0]) + TotalSize(ops[1..])
  }

  lemma {:induction false} TotalSizeAppend(a: seq<Opcode>, b: seq<Opcode>)
    ensures TotalSize(a + b) == TotalSize(a) + TotalSize(b)
  {
    if a == [] {
      assert a + b == b;
    } else {
      assert (a + b)[1..] == a[1..] + b;
      TotalSizeAppend(a[1..], b);
    }
  }

  /** The encodings of legal instructions take up their total size. */
  lemma {:induction false} AssembleLength(ops: seq<Opcode>)
    requires AllLegal(ops)
    ensures |Assemble(ops)| == TotalSize(ops)
  {
    if ops != [] {
      AssembleLength(ops[1..]);
    }
  }

  /** Draining a buffer from cursor `pos` never meets a truncated operand,
      so no decode step panics. */
  predicate Complete(bytes: seq<u8>, pos: nat)
    decreases |bytes| - pos
  {
    && pos <= |bytes|
    && OperandsPresent(bytes, pos)
    && (Decode(bytes, pos).Some? ==> Complete(bytes, Decode(bytes, pos).value.1))
  }

  /** The instructions decoded from cursor `pos` up to the first `None`,
      with the cursor where decoding stops: right after them, at the end of
      the buffer or at a byte that is no opcode. */
  function Drain(bytes: seq<u8>, pos: nat): (r: (seq<Opcode>, nat))
    requires Complete(bytes, pos)
    ensures AllLegal(r.0)
    ensures r.1 == pos + TotalSize(r.0) <= |bytes|
    ensures r.1 == |bytes| || Lookup(bytes[r.1]).None?
    decreases |bytes| - pos
  {
    match Decode(bytes, pos)
    case None => ([], pos)
    case Some((op, next)) =>
      var (rest, end) := Drain(bytes, next);
      assert ([op] + rest)[1..] == rest;
      ([op] + rest, end)
  }

  /** One decode step that succeeds splits a drain into the decoded
      instruction and the drain from the cursor after it. */
  lemma DrainStep(bytes: seq<u8>, pos: nat)
    requires Complete(bytes, pos) && Decode(bytes, pos).Some?
    ensures Complete(bytes, Decode(bytes, pos).value.1)
    ensures Drain(bytes, pos).0 == [Decode(bytes, pos).value.0] + Drain(bytes, Decode(bytes, pos).value.1).0
    ensures Drain(bytes, pos).1 == Drain(bytes, Decode(bytes, pos).value.1).1
  {
  }

  /** The bytes of one instruction followed by the bytes of more. */
  lemma AssembleCons(bytes: seq<u8>, pos: nat, next: nat, end: nat, op: Opcode, rest: seq<Opcode>)
    requires pos <= next <= end <= |bytes|
    requires Legal(op) && AllLegal(rest)
    requires bytes[pos..next] == Encode(op) && bytes[next..end] == Assemble(rest)
    ensures AllLegal([op] + rest) && bytes[pos..end] == Assemble([op] + rest)
  {
    assert ([op] + rest)[1..] == rest;
    assert bytes[pos..end] == bytes[pos..next] + bytes[next..end];
  }

  /** The bytes a drain consumed are the encodings of the instructions it
      yielded. */
  lemma {:induction false} DrainAssembles(bytes: seq<u8>, pos: nat)
    requires Complete(bytes, pos)
    ensures bytes[pos..Drain(bytes, pos).1] == Assemble(Drain(bytes, pos).0)
    decreases |bytes| - pos
  {
    if Decode(bytes, pos).Some? {
      var (op, next) := Decode(bytes, pos).value;
      DrainStep(bytes, pos);
      EncodeDecode(bytes, pos);
      DrainAssembles(bytes, next);
      AssembleCons(bytes, pos, next, Drain(bytes, pos).1, op, Drain(bytes, next).0);
    }
  }

  /** Regrouping three joined sequences; used to move one instruction's
      encoding across a join in `AssembleAppend`, `Dump`'s loop and
      `AssembleSplit`. */
  lemma ConcatAssociative<T>(a: seq<T>, b: seq<T>, c: seq<T>)
    ensures a + (b + c) == (a + b) + c
  {
  }

  /** `dump`: decode instructions from the start of `data` until the decoder
      answers `None`, in order. The instructions' encodings are a prefix of
      `data`, and what follows them is empty or starts with no opcode. */
  method Dump(data: seq<u8>) returns (ops: seq<Opcode>)
    requires Complete(data, 0)
    ensures ops == Drain(data, 0).0
    ensures AllLegal(ops)
    ensures TotalSize(ops) <= |data| && data[..TotalSize(ops)] == Assemble(ops)
    ensures TotalSize(ops) == |data| || Lookup(data[TotalSize(ops)]).None?
  {
    var pos := 0;
    ops := [];
    while true
      invariant Complete(data, pos)
      invariant ops + Drain(data, pos).0 == Drain(data, 0).0
      decreases |data| - pos
    {
      var step := Decode(data, pos);
      if step.None? {
        break;
      }
      var (op, next) := step.value;
      DrainStep(data, pos);
      ConcatAssociative(ops, [op], Drain(data, next).0);
      ops := ops + [op];
      pos := next;
    }
    assert ops == Drain(data, 0).0;
    DrainAssembles(data, 0);
  }

  /** `dump` yields nothing exactly when the buffer is empty or its first
      byte is no opcode. */
  lemma DumpEmpty(data: seq<u8>)
    requires Complete(data, 0)
    ensures Drain(data, 0).0 == [] <==> |data| == 0 || Lookup(data[0]).None?
  {
  }

  /** A sequence is its part before index k, its k-th element and its part
      after. */
  lemma SplitAround<T>(s: seq<T>, k: nat)
    requires k < |s|
    ensures s == s[..k] + ([s[k]] + s[k + 1..])
  {
    assert s[k..] == [s[k]] + s[k + 1..];
    assert s == s[..k] + s[k..];
  }

  /** The encodings of a sequence of instructions split around the k-th. */
  lemma AssembleSplit(ops: seq<Opcode>, k: nat)
    requires AllLegal(ops) && k < |ops|
    ensures AllLegal(ops[..k]) && Legal(ops[k]) && AllLegal(ops[k + 1..])
    ensures Assemble(ops) == Assemble(ops[..k]) + Encode(ops[k]) + Assemble(ops[k + 1..])
  {
    var a, x, b := ops[..k], ops[k], ops[k + 1..];
    SplitAround(ops, k);
    AllLegalSplit(a, [x] + b);
    AllLegalSplit([x], b);
    assert ([x] + b)[1..] == b;
    AssembleAppend(a, [x] + b);
    ConcatAssociative(Assemble(a), Encode(x), Assemble(b));
  }

  /** The total size of the first k + 1 instructions. */
  lemma TotalSizeNext(ops: seq<Opcode>, k: nat)
    requires k < |ops|
    ensures TotalSize(ops[..k + 1]) == TotalSize(ops[..k]) + Size(ops[k])
  {
    assert ops[..k + 1] == ops[..k] + [ops[k]];
    TotalSizeAppend(ops[..k], [ops[k]]);
    assert [ops[k]][1..] == [];
  }

  /** Within the encodings of a sequence of instructions, the k-th
      instruction's encoding starts at the total size of the ones before it. */
  lemma AssembleAt(ops: seq<Opcode>, k: nat)
    requires AllLegal(ops) && k < |ops|
    ensures Legal(ops[k])
    ensures TotalSize(ops[..k + 1]) == TotalSize(ops[..k]) + Size(ops[k]) <= |Assemble(ops)|
    ensures Assemble(ops)[TotalSize(ops[..k])..TotalSize(ops[..k + 1])] == Encode(ops[k])
  {
    AssembleSplit(ops, k);
    AssembleLength(ops[..k]);
    TotalSizeNext(ops, k);
  }

  /** The parts of a legal sequence are legal. */
  lemma {:induction false} AllLegalSplit(a: seq<Opcode>, b: seq<Opcode>)
    requires AllLegal(a + b)
    ensures AllLegal(a) && AllLegal(b)
  {
    if a != [] {
      assert (a + b)[1..] == a[1..] + b;
      AllLegalSplit(a[1..], b);
    } else {
      assert a + b == b;
    }
  }

  /** Where the encodings of a sequence of instructions sit in a buffer,
      the k-th instruction's encoding sits at the total size of the ones
      before it. */
  lemma EncodedAt(bytes: seq<u8>, pos: nat, ops: seq<Opcode>, k: nat)
    requires AllLegal(ops) && k < |ops|
    requires pos + |Assemble(ops)| <= |bytes| && bytes[pos..pos + |Assemble(ops)|] == Assemble(ops)
    ensures Legal(ops[k])
    ensures TotalSize(ops[..k + 1]) == TotalSize(ops[..k]) + |Encode(ops[k])|
    ensures pos + TotalSize(ops[..k + 1]) <= |bytes|
    ensures bytes[pos + TotalSize(ops[..k])..pos + TotalSize(ops[..k + 1])] == Encode(ops[k])
  {
    AssembleAt(ops, k);
    SliceOfSlice(bytes, pos, pos + |Assemble(ops)|, TotalSize(ops[..k]), TotalSize(ops[..k + 1]));
  }

  /** A slice of a slice is a slice. */
  lemma SliceOfSlice<T>(s: seq<T>, from: nat, to: nat, lo: nat, hi: nat)
    requires from <= to <= |s| && lo <= hi <= to - from
    ensures s[from..to][lo..hi] == s[from + lo..from + hi]
  {
    forall i | 0 <= i < hi - lo
      ensures s[from..to][lo..hi][i] == s[from + lo..from + hi][i]
    {
    }
  }

  /** The k-th instruction `dump` yields is what one decode step reads at
      the total size of the instructions before it, and that step ends at
      the total size of the first k + 1. */
  lemma DecodeAtOffset(bytes: seq<u8>, pos: nat, ops: seq<Opcode>, k: nat)
    requires Complete(bytes, pos) && ops == Drain(bytes, pos).0
    requires k < |ops|
    ensures pos + TotalSize(ops[..k]) <= |bytes|
    ensures OperandsPresent(bytes, pos + TotalSize(ops[..k]))
    ensures Decode(bytes, pos + TotalSize(ops[..k])) == Some((ops[k], pos + TotalSize(ops[..k + 1])))
  {
    DrainAssembles(bytes, pos);
    AssembleLength(ops);
    DecodeAssembledAt(bytes, pos, ops, k);
  }

  /** Where the encodings of a sequence of instructions sit in a buffer,
      decoding at the k-th one's offset yields it and ends at the next. */
  lemma DecodeAssembledAt(bytes: seq<u8>, pos: nat, ops: seq<Opcode>, k: nat)
    requires AllLegal(ops) && k < |ops|
    requires pos + |Assemble(ops)| <= |bytes| && bytes[pos..pos + |Assemble(ops)|] == Assemble(ops)
    ensures pos + TotalSize(ops[..k]) <= |bytes|
    ensures OperandsPresent(bytes, pos + TotalSize(ops[..k]))
    ensures Decode(bytes, pos + TotalSize(ops[..k])) == Some((ops[k], pos + TotalSize(ops[..k + 1])))
  {
    EncodedAt(bytes, pos, ops, k);
    DecodeEncode(bytes, pos + TotalSize(ops[..k]), ops[k]);
  }

  /** `prettyprint`'s addresses: the address printed for the k-th
      instruction is the total size of the instructions before it. */
  method Addresses(ops: seq<Opcode>) returns (addrs: seq<nat>)
    ensures |addrs| == |ops|
    ensures forall k :: 0 <= k < |ops| ==> addrs[k] == TotalSize(ops[..k])
  {
    var addr := 0;
    addrs := [];
    for i := 0 to |ops|
      invariant |addrs| == i
      invariant addr == TotalSize(ops[..i])
      invariant forall k :: 0 <= k < i ==> addrs[k] == TotalSize(ops[..k])
    {
      assert ops[..i + 1] == ops[..i] + [ops[i]];
      TotalSizeAppend(ops[..i], [ops[i]]);
      assert [ops[i]][1..] == [];
      addrs := addrs + [addr];
      addr := addr + Size(ops[i]);
    }
  }

  /** `OpcodeIterator`: a decoder over a shared cursor into a buffer. */
  datatype OpcodeIterator = OpcodeIterator(bytes: seq<u8>, cursor: nat)

  /** `opcodes`: wrap a stream positioned at `pos`; nothing is consumed, and
      over a complete buffer the iterator yields exactly `dump`'s
      instructions from that cursor. */
  function Opcodes(bytes: seq<u8>, pos: nat): (it: OpcodeIterator)
    requires pos <= |bytes|
    ensures it.bytes == bytes && it.cursor == pos
    ensures Complete(bytes, pos) ==> Collect(it) == Drain(bytes, pos).0
  {
    var it := OpcodeIterator(bytes, pos);
    if Complete(bytes, pos) then CollectIsDump(it); it else it
  }

  /** `OpcodeIterator::next`: exactly one decode step on the cursor. A step
      that answers `None` only peeked, so it leaves the cursor where it
      was. */
  function Next(it: OpcodeIterator): (r: (Option<Opcode>, OpcodeIterator))
    requires it.cursor <= |it.bytes| && OperandsPresent(it.bytes, it.cursor)
    ensures r.1.bytes == it.bytes
    ensures r.0.None? <==> it.cursor == |it.bytes| || Lookup(it.bytes[it.cursor]).None?
    ensures r.0.None? ==> r.1 == it
    ensures r.0.Some? ==>
      && Legal(r.0.value)
      && Lookup(it.bytes[it.cursor]) == Some((r.0.value.mnemonic, ModeOf(r.0.value.mode)))
      && r.1.cursor == it.cursor + Size(r.0.value) <= |it.bytes|
  {
    match Decode(it.bytes, it.cursor)
    case None => (None, it)
    case Some((op, next)) => (Some(op), OpcodeIterator(it.bytes, next))
  }

  /** The iterator after `n` calls of `next`. */
  function Advance(it: OpcodeIterator, n: nat): OpcodeIterator
    requires Complete(it.bytes, it.cursor)
    decreases n
  {
    if n == 0 then it else Advance(Next(it).1, n - 1)
  }

  /** Once `next` has answered `None`, every later call answers `None` and
      the cursor stays put. */
  lemma {:induction false} ExhaustedStaysExhausted(it: OpcodeIterator, n: nat)
    requires Complete(it.bytes, it.cursor)
    requires Next(it).0.None?
    ensures Advance(it, n) == it
    ensures Next(Advance(it, n)).0.None?
    decreases n
  {
    if n > 0 {
      ExhaustedStaysExhausted(it, n - 1);
    }
  }

  /** Every item the iterator yields by repeated `next`, until `None`. */
  function Collect(it: OpcodeIterator): seq<Opcode>
    requires Complete(it.bytes, it.cursor)
    decreases |it.bytes| - it.cursor
  {
    match Next(it).0
    case None => []
    case Some(op) => [op] + Collect(Next(it).1)
  }

  /** Draining the iterator over a buffer yields what `dump` yields. */
  lemma {:induction false} CollectIsDump(it: OpcodeIterator)
    requires Complete(it.bytes, it.cursor)
    ensures Collect(it) == Drain(it.bytes, it.cursor).0
    decreases |it.bytes| - it.cursor
  {
    if Next(it).0.Some? {
      CollectIsDump(Next(it).1);
    }
  }

  /** Splitting the encodings of a nonempty sequence of instructions into
      the first instruction's and the rest's. */
  lemma AssembleUncons(bytes: seq<u8>, at: nat, ops: seq<Opcode>, next: nat, end: nat)
    requires AllLegal(ops) && ops != [] && next == at + |Encode(ops[0])|
    requires end == at + |Assemble(ops)| <= |bytes| && bytes[at..end] == Assemble(ops)
    ensures Legal(ops[0]) && AllLegal(ops[1..])
    ensures next + |Assemble(ops[1..])| == end
    ensures at + |Encode(ops[0])| <= |bytes| && bytes[at..at + |Encode(ops[0])|] == Encode(ops[0])
    ensures bytes[next..end] == Assemble(ops[1..])
  {
    var n := |Encode(ops[0])|;
    assert bytes[at..next] == bytes[at..end][..n];
    assert bytes[next..end] == bytes[at..end][n..];
  }

  /** Dumping from a cursor where the encodings of a sequence of legal
      instructions start gives the sequence back, when the bytes after it
      are absent or start with no opcode. */
  lemma {:induction false} DrainAssemble(bytes: seq<u8>, at: nat, ops: seq<Opcode>, end: nat)
    requires AllLegal(ops)
    requires end == at + |Assemble(ops)| <= |bytes| && bytes[at..end] == Assemble(ops)
    requires end == |bytes| || Lookup(bytes[end]).None?
    ensures Complete(bytes, at)
    ensures Drain(bytes, at) == (ops, end)
    decreases |ops|
  {
    if ops != [] {
      var next := at + |Encode(ops[0])|;
      DecodeFirst(bytes, at, ops, next, end);
      DrainAssemble(bytes, next, ops[1..], end);
      DrainCons(bytes, at, ops, next, end);
    } else {
      DrainNone(bytes, at);
    }
  }

  /** Where the encodings of a nonempty sequence of instructions start, the
      first one decodes, and the encodings of the rest follow it. */
  lemma DecodeFirst(bytes: seq<u8>, at: nat, ops: seq<Opcode>, next: nat, end: nat)
    requires AllLegal(ops) && ops != [] && next == at + |Encode(ops[0])|
    requires end == at + |Assemble(ops)| <= |bytes| && bytes[at..end] == Assemble(ops)
    ensures AllLegal(ops[1..])
    ensures end == next + |Assemble(ops[1..])| <= |bytes| && bytes[next..end] == Assemble(ops[1..])
    ensures at <= |bytes| && OperandsPresent(bytes, at)
    ensures Decode(bytes, at) == Some((ops[0], next))
  {
    AssembleUncons(bytes, at, ops, next, end);
    DecodeEncode(bytes, at, ops[0]);
  }

  /** A drain that stops at once. */
  lemma DrainNone(bytes: seq<u8>, at: nat)
    requires at <= |bytes| && OperandsPresent(bytes, at) && Decode(bytes, at).None?
    ensures Complete(bytes, at) && Drain(bytes, at) == ([], at)
  {
  }

  /** A drain that decodes the first of `ops` and goes on from the cursor
      after it with the rest. */
  lemma DrainCons(bytes: seq<u8>, at: nat, ops: seq<Opcode>, next: nat, end: nat)
    requires ops != []
    requires at <= |bytes| && OperandsPresent(bytes, at) && Decode(bytes, at) == Some((ops[0], next))
    requires Complete(bytes, next) && Drain(bytes, next) == (ops[1..], end)
    ensures Complete(bytes, at) && Drain(bytes, at) == (ops, end)
  {
    assert [ops[0]] + ops[1..] == ops;
  }

  /** The program of `test_simple`. */
  const SimpleProgram: seq<u8> :=
    [0xA2, 0x08, 0xCA, 0x8E, 0x00, 0x02, 0xE0, 0x03, 0xD0, 0xF8, 0x8E, 0x01, 0x02, 0x00]

  /** The instructions of `test_simple`, in order. */
  const SimpleInstructions: seq<Opcode> :=
    [ Opcode(LDX, Immediate(0x08)), Opcode(DEX, Implicit), Opcode(STX, Absolute(0x0200)),
      Opcode(CPX, Immediate(0x03)), Opcode(BNE, Relative(0xF8)), Opcode(STX, Absolute(0x0201)),
      Opcode(BRK, Implicit) ]

  /** The bytes of one instruction followed by more instructions. */
  lemma AssemblePrepend(op: Opcode, ops: seq<Opcode>)
    requires Legal(op) && AllLegal(ops)
    ensures AllLegal([op] + ops)
    ensures Assemble([op] + ops) == Encode(op) + Assemble(ops)
  {
    assert ([op] + ops)[1..] == ops;
  }

  /** The encodings of instructions 0 and 1 of `test_simple`. */
  lemma SimpleEncodings01()
    ensures Legal(SimpleInstructions[0]) && Encode(SimpleInstructions[0]) == [0xA2, 0x08]
    ensures Legal(SimpleInstructions[1]) && Encode(SimpleInstructions[1]) == [0xCA]
  {
  }

  /** The encodings of instructions 2 and 3 of `test_simple`. */
  lemma SimpleEncodings23()
    ensures Legal(SimpleInstructions[2]) && Encode(SimpleInstructions[2]) == [0x8E, 0x00, 0x02]
    ensures Legal(SimpleInstructions[3]) && Encode(SimpleInstructions[3]) == [0xE0, 0x03]
  {
  }

  /** The encodings of instructions 4 and 5 of `test_simple`. */
  lemma SimpleEncodings45()
    ensures Legal(SimpleInstructions[4]) && Encode(SimpleInstructions[4]) == [0xD0, 0xF8]
    ensures Legal(SimpleInstructions[5]) && Encode(SimpleInstructions[5]) == [0x8E, 0x01, 0x02]
  {
  }

  /** The encoding of instruction 6 of `test_simple`. */
  lemma SimpleEncodings6()
    ensures Legal(SimpleInstructions[6]) && Encode(SimpleInstructions[6]) == [0x00]
  {
  }

  /** The encodings of the last three instructions of `test_simple`. */
  lemma SimpleSuffixesTail()
    ensures AllLegal(SimpleInstructions[4..])
    ensures Assemble(SimpleInstructions[4..]) == SimpleProgram[8..]
    ensures |Assemble(SimpleInstructions[5..])| == 4
    ensures |Assemble(SimpleInstructions[6..])| == 1
  {
    var o := SimpleInstructions;
    SimpleEncodings45();
    SimpleEncodings6();
    var t6 := [o[6]];
    AssemblePrepend(o[6], []);
    assert t6 == [o[6]] + [];
    var t5 := [o[5]] + t6;
    AssemblePrepend(o[5], t6);
    var t4 := [o[4]] + t5;
    AssemblePrepend(o[4], t5);
    assert o[4..] == t4 && o[5..] == t5 && o[6..] == t6;
  }

  /** The encodings of the instructions of `test_simple` from the third on. */
  lemma SimpleSuffixesMiddle()
    ensures AllLegal(SimpleInstructions[2..])
    ensures Assemble(SimpleInstructions[2..]) == SimpleProgram[3..]
    ensures |Assemble(SimpleInstructions[3..])| == 8
    ensures |Assemble(SimpleInstructions[4..])| == 6
    ensures |Assemble(SimpleInstructions[5..])| == 4
    ensures |Assemble(SimpleInstructions[6..])| == 1
  {
    var o := SimpleInstructions;
    SimpleEncodings23();
    SimpleSuffixesTail();
    var t4 := o[4..];
    var t3 := [o[3]] + t4;
    AssemblePrepend(o[3], t4);
    var t2 := [o[2]] + t3;
    AssemblePrepend(o[2], t3);
    assert o[2..] == t2 && o[3..] == t3;
  }

  /** The encodings of `test_simple`'s instructions from the k-th on. */
  lemma SimpleSuffixes()
    ensures AllLegal(SimpleInstructions)
    ensures Assemble(SimpleInstructions) == SimpleProgram
    ensures |Assemble(SimpleInstructions[1..])| == 12
    ensures |Assemble(SimpleInstructions[2..])| == 11
    ensures |Assemble(SimpleInstructions[3..])| == 8
    ensures |Assemble(SimpleInstructions[4..])| == 6
    ensures |Assemble(SimpleInstructions[5..])| == 4
    ensures |Assemble(SimpleInstructions[6..])| == 1
  {
    var o := SimpleInstructions;
    SimpleEncodings01();
    SimpleSuffixesMiddle();
    var t2 := o[2..];
    var t1 := [o[1]] + t2;
    AssemblePrepend(o[1], t2);
    var t0 := [o[0]] + t1;
    AssemblePrepend(o[0], t1);
    assert o == t0 && o[1..] == t1;
  }

  /** `test_simple`: `dump` of the program yields exactly its seven
      instructions and covers all fourteen bytes. */
  lemma SimpleProgramDump()
    ensures Complete(SimpleProgram, 0)
    ensures Drain(SimpleProgram, 0) == (SimpleInstructions, 14)
  {
    SimpleSuffixes();
    assert SimpleProgram[0..14] == SimpleProgram;
    DrainAssemble(SimpleProgram, 0, SimpleInstructions, 14);
  }

  /** `test_simple`: the addresses `prettyprint` prints for the seven
      instructions are 0, 2, 3, 6, 8, 10 and 13, and they end at 14. */
  lemma SimpleProgramAddresses()
    ensures forall k :: 0 <= k <= 7 ==>
      TotalSize(SimpleInstructions[..k]) == [0, 2, 3, 6, 8, 10, 13, 14][k]
  {
    var o := SimpleInstructions;
    assert o[..0] == [];
    forall k | 0 <= k < 7
      ensures TotalSize(o[..k + 1]) == TotalSize(o[..k]) + Size(o[k])
    {
      assert o[..k + 1] == o[..k] + [o[k]];
      TotalSizeAppend(o[..k], [o[k]]);
      assert [o[k]][1..] == [];
    }
    assert TotalSize(o[..1]) == 2;
    assert TotalSize(o[..2]) == 3;
    assert TotalSize(o[..3]) == 6;
    assert TotalSize(o[..4]) == 8;
    assert TotalSize(o[..5]) == 10;
    assert TotalSize(o[..6]) == 13;
    assert TotalSize(o[..7]) == 14;
  }
}
