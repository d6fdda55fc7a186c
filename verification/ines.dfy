/** The iNES version 1 container of nestle_ines/src/model.rs: the layout its
    `binread` attributes describe read as a parse function over bytes, the
    test-only `dump` serialisers, and the `Default` values. */
module InesFormat {
  import opened Bytes

  /** "NES" followed by 0x1A, the first four bytes of every image. */
  const Magic: seq<u8> := [0x4E, 0x45, 0x53, 0x1A]

  /** The header: magic, three size and flag bytes, nine further bytes. */
  const HeaderSize: nat := 16
  const TrainerSize: nat := 512
  /** PRG ROM comes in units of 16 KiB, CHR ROM in units of 8 KiB. */
  const PrgUnit: nat := 16384
  const ChrUnit: nat := 8192

  /** `InesHeader`; `extra` is the `[u8; 9]` array, so it holds nine bytes
      in every header the parser or `Default` makes. */
  datatype InesHeader = InesHeader(prgSize: u8, chrSize: u8, mapper: u8, extra: seq<u8>)

  /** `Ines`: the header and the sections it announces. */
  datatype Ines = Ines(header: InesHeader, trainer: Option<seq<u8>>, prg: seq<u8>, chr: Option<seq<u8>>)

  /** Why `binread` stops: the magic does not match, or the input ends
      before a field does. */
  datatype ParseError = BadMagic | UnexpectedEof

  /** A parsed value and the cursor after it, or an error. */
  datatype Parsed<+T> = Parsed(value: T, next: nat) | Failed(error: ParseError)

  /** The trainer flag the code tests: bit 0x20 of the mapper byte. */
  predicate HasTrainer(h: InesHeader)
  {
    (h.mapper as bv8) & 0x20 != 0
  }

  /** The trainer is present (512 bytes) exactly when the flag is set. */
  function TrainerLength(h: InesHeader): nat
  {
    if HasTrainer(h) then TrainerSize else 0
  }

  /** PRG ROM always takes `prg_size` units. */
  function PrgLength(h: InesHeader): nat
  {
    h.prgSize * PrgUnit
  }

  /** CHR ROM is present (`chr_size` units) exactly when `chr_size` is not
      zero. */
  function ChrLength(h: InesHeader): nat
  {
    if h.chrSize != 0 then h.chrSize * ChrUnit else 0
  }

  /** The number of bytes an image with header `h` takes. */
  function ImageSize(h: InesHeader): nat
  {
    HeaderSize + TrainerLength(h) + PrgLength(h) + ChrLength(h)
  }

  /** The header fields as they sit in bytes 4 to 15. */
  function HeaderAt(bytes: seq<u8>): InesHeader
    requires |bytes| >= HeaderSize
  {
    InesHeader(bytes[4], bytes[5], bytes[6], bytes[7..16])
  }

  // ---------------------------------------------------------------------
  // Parsing

  /** Reading `n` bytes at `pos`. */
  function Take(bytes: seq<u8>, pos: nat, n: nat): (r: Parsed<seq<u8>>)
    ensures r.Parsed? ==> r.next == pos + n <= |bytes| && r.value == bytes[pos..pos + n]
  {
    if pos + n <= |bytes| then Parsed(bytes[pos..pos + n], pos + n) else Failed(UnexpectedEof)
  }

  /** An optional field (`#[br(if(..))]`): read when `present`, otherwise
      `None` without reading. */
  function TakeIf(present: bool, bytes: seq<u8>, pos: nat, n: nat): (r: Parsed<Option<seq<u8>>>)
    ensures r.Parsed? ==> (r.value.Some? <==> present)
    ensures r.Parsed? && present ==> r.next == pos + n <= |bytes| && r.value.value == bytes[pos..pos + n]
    ensures r.Parsed? && !present ==> r.next == pos
  {
    if !present then Parsed(None, pos)
    else
      match Take(bytes, pos, n)
      case Failed(e) => Failed(e)
      case Parsed(v, next) => Parsed(Some(v), next)
  }

  /** Reading an `InesHeader`: the magic first, then the three bytes and
      the nine extra bytes. */
  function ParseHeader(bytes: seq<u8>): (r: Parsed<InesHeader>)
    ensures r == Failed(BadMagic) <==> |bytes| >= 4 && bytes[..4] != Magic
    ensures r.Parsed? <==> |bytes| >= HeaderSize && bytes[..4] == Magic
    ensures r.Parsed? ==> r.next == HeaderSize && r.value == HeaderAt(bytes) && |r.value.extra| == 9
  {
    if |bytes| < 4 then Failed(UnexpectedEof)
    else if bytes[..4] != Magic then Failed(BadMagic)
    else if |bytes| < HeaderSize then Failed(UnexpectedEof)
    else Parsed(InesHeader(bytes[4], bytes[5], bytes[6], bytes[7..HeaderSize]), HeaderSize)
  }

  /** Reading an `Ines`: the header, then the trainer when flagged, the PRG
      ROM, and the CHR ROM when `chr_size` is not zero. What follows the
      CHR ROM is not read. */
  function Parse(bytes: seq<u8>): (r: Parsed<Ines>)
    ensures r.Parsed? <==>
      |bytes| >= HeaderSize && bytes[..4] == Magic && |bytes| >= ImageSize(HeaderAt(bytes))
    ensures r.Parsed? ==> r.value.header == HeaderAt(bytes) && r.next == ImageSize(r.value.header)
  {
    match ParseHeader(bytes)
    case Failed(e) => Failed(e)
    case Parsed(h, p0) =>
      match TakeIf(HasTrainer(h), bytes, p0, TrainerSize)
      case Failed(e) => Failed(e)
      case Parsed(trainer, p1) =>
        match Take(bytes, p1, PrgLength(h))
        case Failed(e) => Failed(e)
        case Parsed(prg, p2) =>
          match TakeIf(h.chrSize != 0, bytes, p2, h.chrSize * ChrUnit)
          case Failed(e) => Failed(e)
          case Parsed(chr, p3) => Parsed(Ines(h, trainer, prg, chr), p3)
  }

  /** Where each section of a parsed image was read from. */
  lemma ParseSections(bytes: seq<u8>)
    requires Parse(bytes).Parsed?
    ensures var x, t := Parse(bytes).value, HeaderSize + TrainerLength(Parse(bytes).value.header);
      && (x.trainer.Some? <==> HasTrainer(x.header))
      && (x.trainer.Some? ==> x.trainer.value == bytes[HeaderSize..HeaderSize + TrainerSize])
      && x.prg == bytes[t..t + PrgLength(x.header)]
      && (x.chr.Some? <==> x.header.chrSize != 0)
      && (x.chr.Some? ==> x.chr.value == bytes[t + PrgLength(x.header)..ImageSize(x.header)])
  {
  }

  // ---------------------------------------------------------------------
  // Serialising

  /** The sections of `x` agree with what its header announces, so that
      parsing its dump can give `x` back. */
  predicate Consistent(x: Ines)
  {
    && |x.header.extra| == 9
    && (x.trainer.Some? <==> HasTrainer(x.header))
    && (x.trainer.Some? ==> |x.trainer.value| == TrainerSize)
    && |x.prg| == PrgLength(x.header)
    && (x.chr.Some? <==> x.header.chrSize != 0)
    && (x.chr.Some? ==> |x.chr.value| == ChrLength(x.header))
  }

  /** `InesHeader::dump`: the magic, the three bytes, the extra bytes. */
  function DumpHeader(h: InesHeader): (r: seq<u8>)
    requires |h.extra| == 9
    ensures |r| == HeaderSize
    ensures r[..4] == Magic && HeaderAt(r) == h
  {
    var r := Magic + [h.prgSize, h.chrSize, h.mapper] + h.extra;
    assert r[7..16] == h.extra;
    r
  }

  /** An optional section's bytes; nothing when it is absent. */
  function Section(s: Option<seq<u8>>): seq<u8>
  {
    if s.Some? then s.value else []
  }

  /** `Ines::dump`: the header, the trainer if any, the PRG ROM, the CHR ROM
      if any. */
  function Dump(x: Ines): (r: seq<u8>)
    requires |x.header.extra| == 9
    ensures |r| == HeaderSize + |Section(x.trainer)| + |x.prg| + |Section(x.chr)|
    ensures r[..HeaderSize] == DumpHeader(x.header)
  {
    DumpHeader(x.header) + Section(x.trainer) + x.prg + Section(x.chr)
  }

  /** A consistent image takes exactly the size its header announces. */
  lemma DumpSize(x: Ines)
    requires Consistent(x)
    ensures |Dump(x)| == ImageSize(x.header)
  {
  }

  /** Where the sections of a dump sit. */
  lemma DumpSections(x: Ines, rest: seq<u8>)
    requires Consistent(x)
    ensures var b, t := Dump(x) + rest, HeaderSize + TrainerLength(x.header);
      && |b| >= ImageSize(x.header)
      && b[..4] == Magic && HeaderAt(b) == x.header
      && (x.trainer.Some? ==> b[HeaderSize..HeaderSize + TrainerSize] == x.trainer.value)
      && b[t..t + PrgLength(x.header)] == x.prg
      && (x.chr.Some? ==> b[t + PrgLength(x.header)..ImageSize(x.header)] == x.chr.value)
  {
    var h := DumpHeader(x.header);
    var tr, c := Section(x.trainer), Section(x.chr);
    FourParts(h, tr, x.prg, c, rest);
    HeaderPrefix(h, Dump(x) + rest);
  }

  /** The header fields of a buffer depend only on its first 16 bytes. */
  lemma HeaderPrefix(h: seq<u8>, b: seq<u8>)
    requires |h| == HeaderSize && |b| >= HeaderSize && b[..HeaderSize] == h
    ensures b[..4] == h[..4] && HeaderAt(b) == HeaderAt(h)
  {
    assert b[7..16] == b[..HeaderSize][7..16];
    assert b[..4] == b[..HeaderSize][..4];
  }

  /** The four parts of a concatenation, found back by their lengths. */
  lemma FourParts(h: seq<u8>, t: seq<u8>, p: seq<u8>, c: seq<u8>, rest: seq<u8>)
    ensures var b := h + t + p + c + rest;
      && b[..|h|] == h
      && b[|h|..|h| + |t|] == t
      && b[|h| + |t|..|h| + |t| + |p|] == p
      && b[|h| + |t| + |p|..|h| + |t| + |p| + |c|] == c
  {
    MiddlePart(h, t, p + c + rest);
    MiddlePart(h + t, p, c + rest);
    MiddlePart(h + t + p, c, rest);
    MiddlePart([], h, t + p + c + rest);
    Regroup(h, t, p, c, rest);
  }

  /** The groupings `FourParts` reads the concatenation with: each section
      is found by `MiddlePart` under one of these groupings. */
  lemma Regroup(h: seq<u8>, t: seq<u8>, p: seq<u8>, c: seq<u8>, rest: seq<u8>)
    ensures h + t + p + c + rest == h + t + (p + c + rest)
    ensures h + t + p + c + rest == h + (t + p + c + rest)
    ensures h + t + p + c + rest == (h + t + p) + c + rest
    ensures h + t + p + c + rest == [] + h + (t + p + c + rest)
  {
  }

  /** The middle part of a concatenation is the slice between the length of
      what precedes it and that length plus its own; `FourParts` uses it
      once for each of header, trainer, PRG and CHR. */
  lemma MiddlePart(a: seq<u8>, b: seq<u8>, c: seq<u8>)
    ensures (a + b + c)[|a|..|a| + |b|] == b
  {
  }

  /** A prefix of a buffer cut into four consecutive slices. */
  lemma JoinSlices(bytes: seq<u8>, i: nat, j: nat, k: nat, n: nat)
    requires i <= j <= k <= n <= |bytes|
    ensures bytes[..n] == bytes[..i] + bytes[i..j] + bytes[j..k] + bytes[k..n]
  {
    assert bytes[..n] == bytes[..k] + bytes[k..n];
    assert bytes[..k] == bytes[..j] + bytes[j..k];
    assert bytes[..j] == bytes[..i] + bytes[i..j];
  }

  /** The first 16 bytes of a buffer that starts with the magic are the
      dump of the header read from them. */
  lemma HeaderRoundTrip(bytes: seq<u8>)
    requires |bytes| >= HeaderSize && bytes[..4] == Magic
    ensures DumpHeader(HeaderAt(bytes)) == bytes[..HeaderSize]
  {
    var d := DumpHeader(HeaderAt(bytes));
    assert d[..4] == bytes[..HeaderSize][..4];
    assert d[7..16] == bytes[..HeaderSize][7..16];
    assert forall i :: 4 <= i < 7 ==> d[i] == bytes[i];
    assert d == d[..4] + d[4..7] + d[7..16];
    assert bytes[..HeaderSize] == bytes[..HeaderSize][..4] + bytes[4..7] + bytes[..HeaderSize][7..16];
  }

  /** Parsing what `dump` writes gives the image back, with the cursor
      right after it, whatever bytes follow. */
  lemma ParseDump(x: Ines, rest: seq<u8>)
    requires Consistent(x)
    ensures Parse(Dump(x) + rest) == Parsed(x, |Dump(x)|)
  {
    DumpSize(x);
    DumpSections(x, rest);
    ParseSections(Dump(x) + rest);
  }

  /** What a successful parse consumed is the dump of the image it gives,
      and that image is consistent. */
  lemma DumpParse(bytes: seq<u8>)
    requires Parse(bytes).Parsed?
    ensures Consistent(Parse(bytes).value)
    ensures Parse(bytes).next <= |bytes|
    ensures bytes[..Parse(bytes).next] == Dump(Parse(bytes).value)
  {
    var x := Parse(bytes).value;
    var t := HeaderSize + TrainerLength(x.header);
    var n := Parse(bytes).next;
    ParseSections(bytes);
    HeaderRoundTrip(bytes);
    JoinSlices(bytes, HeaderSize, t, t + PrgLength(x.header), n);
  }

  // ---------------------------------------------------------------------
  // Defaults and the tests of model.rs

  /** `InesHeader::default`: one PRG unit, no CHR ROM, mapper byte 0 and
      nine zero bytes. */
  function DefaultHeader(): (h: InesHeader)
    ensures h.prgSize == 1 && h.chrSize == 0 && h.mapper == 0
    ensures |h.extra| == 9 && forall i :: 0 <= i < 9 ==> h.extra[i] == 0
    ensures !HasTrainer(h)
  {
    InesHeader(1, 0, 0, [0, 0, 0, 0, 0, 0, 0, 0, 0])
  }

  /** `Ines::default`: the default header with no trainer, an empty PRG ROM
      and no CHR ROM. */
  function DefaultInes(): (x: Ines)
    ensures x.header == DefaultHeader() && x.trainer.None? && x.prg == [] && x.chr.None?
    ensures !Consistent(x)
  {
    Ines(DefaultHeader(), None, [], None)
  }

  /** The default image announces one PRG unit but holds none, so it is not
      consistent and its dump does not parse. */
  lemma DefaultInconsistent()
    ensures !Consistent(DefaultInes())
    ensures Parse(Dump(DefaultInes())) == Failed(UnexpectedEof)
  {
    assert Dump(DefaultInes())[..4] == Magic;
  }

  /** `test_ines_header`: the 16 header bytes of the test read as one PRG
      unit, no CHR ROM and mapper byte 0. */
  lemma TestInesHeader()
    ensures var r := ParseHeader([0x4E, 0x45, 0x53, 0x1A, 0x01, 0, 0, 0, 0, 0, 0, 0, 0, 0, 0, 0]);
      r.Parsed? && r.value.prgSize == 1 && r.value.chrSize == 0 && r.value.mapper == 0
  {
    var b: seq<u8> := [0x4E, 0x45, 0x53, 0x1A, 0x01, 0, 0, 0, 0, 0, 0, 0, 0, 0, 0, 0];
    assert b[..4] == Magic;
  }

  /** `test_ines_parse`: the default header followed by one PRG unit parses
      to that PRG ROM. */
  lemma TestInesParse(prg: seq<u8>)
    requires |prg| == PrgUnit
    ensures Parse(DumpHeader(DefaultHeader()) + prg).Parsed?
    ensures Parse(DumpHeader(DefaultHeader()) + prg).value.prg == prg
  {
    var x := Ines(DefaultHeader(), None, prg, None);
    ParseDump(x, []);
    assert Dump(x) + [] == DumpHeader(DefaultHeader()) + prg;
  }

  /** `test_ines_parse_trainer`: with mapper byte 0x20 a 512-byte trainer
      survives the round trip. */
  lemma TestInesParseTrainer(trainer: seq<u8>, prg: seq<u8>)
    requires |trainer| == TrainerSize && |prg| == PrgUnit
    ensures var x := Ines(DefaultHeader().(mapper := 0x20), Some(trainer), prg, None);
      Parse(Dump(x)).Parsed? && Parse(Dump(x)).value.trainer == Some(trainer)
  {
    var x := Ines(DefaultHeader().(mapper := 0x20), Some(trainer), prg, None);
    ParseDump(x, []);
    assert Dump(x) + [] == Dump(x);
  }

  /** `test_ines_pasre_chr`: with `chr_size` 2 a 16 KiB CHR ROM survives the
      round trip. */
  lemma TestInesParseChr(prg: seq<u8>, chr: seq<u8>)
    requires |prg| == PrgUnit && |chr| == 2 * ChrUnit
    ensures var x := Ines(DefaultHeader().(chrSize := 2), None, prg, Some(chr));
      Parse(Dump(x)).Parsed? && Parse(Dump(x)).value.chr == Some(chr)
  {
    var x := Ines(DefaultHeader().(chrSize := 2), None, prg, Some(chr));
    ParseDump(x, []);
    assert Dump(x) + [] == Dump(x);
  }
}
