/** The NROM mapper of nestle_cpu/src/mapper.rs: the PRG ROM of an iNES image
    placed at 0x8000 of the address space, twice with a mirror when it is
    16 KiB, and 0x8000..=0xFFFF made read-only. */
module Nrom {
  import opened Bytes
  import opened AddressSpace
  import opened InesFormat

  /** The 16 KiB bank at 0x8000..=0xBFFF and the one at 0xC000..=0xFFFF. */
  const LowBank := Range(0x8000, 0xBFFF)
  const HighBank := Range(0xC000, 0xFFFF)
  /** The ROM area, 0x8000..=0xFFFF. */
  const Rom := Range(0x8000, 0xFFFF)

  /** The builder before `build`, or the error `?` returns with. */
  function MapBuilder(prg: seq<u8>): (r: Result<MemoryBuilder>)
    ensures r.Ok? <==> |prg| == 0x4000 || |prg| == 0x8000
    ensures r.Ok? ==> WellFormed(r.value) && DataFits(r.value)
  {
    var b := NewBuilder();
    if |prg| == 0xBFFF - 0x8000 + 1 then
      match AddData(b, LowBank, prg)
      case (_, Err(msg)) => Err(msg)
      case (b1, Ok(_)) =>
        match AddData(b1, HighBank, prg)
        case (_, Err(msg)) => Err(msg)
        case (b2, Ok(_)) =>
          match AddMirror(b2, HighBank, LowBank)
          case (_, Err(msg)) => Err(msg)
          case (b3, Ok(_)) => Ok(AddReadonly(b3, Rom))
    else
      match AddData(b, Rom, prg)
      case (_, Err(msg)) => Err(msg)
      case (b1, Ok(_)) => Ok(AddReadonly(b1, Rom))
  }

  /** `NROM::map_image`: the memory the PRG ROM is mapped into, or the
      error of `add_data` when the PRG ROM is neither 16 KiB nor 32 KiB. */
  function MapImage(image: Ines): (r: Result<Memory>)
    ensures r.Ok? <==> |image.prg| == 0x4000 || |image.prg| == 0x8000
    ensures r.Ok? ==> Valid(r.value)
  {
    match MapBuilder(image.prg)
    case Err(msg) => Err(msg)
    case Ok(b) => Ok(Build(b))
  }

  /** The builder of a 16 KiB PRG ROM: both banks hold it, the high bank
      mirrors the low one, and the ROM area is read-only. */
  lemma MapBuilderSmall(prg: seq<u8>)
    requires |prg| == 0x4000
    ensures MapBuilder(prg).value.data == [Segment(Data(prg), LowBank), Segment(Data(prg), HighBank)]
    ensures MapBuilder(prg).value.segments == [Segment(Mirror(LowBank), HighBank), Segment(Readonly, Rom)]
  {
  }

  /** The builder of a 32 KiB PRG ROM: it fills the ROM area, which is
      read-only. */
  lemma MapBuilderLarge(prg: seq<u8>)
    requires |prg| == 0x8000
    ensures MapBuilder(prg).value.data == [Segment(Data(prg), Rom)]
    ensures MapBuilder(prg).value.segments == [Segment(Readonly, Rom)]
  {
  }

  /** The two kinds of segment the mapper adds: the mirror of the low bank
      (16 KiB PRG ROM only) and the read-only ROM area. */
  predicate MapperSegment(s: Segment)
  {
    s == Segment(Mirror(LowBank), HighBank) || s == Segment(Readonly, Rom)
  }

  /** Mapped memory holds only the mapper's segments, and the read-only ROM
      area is among them. */
  lemma MappedSegments(image: Ines)
    requires MapImage(image).Ok?
    ensures forall i :: 0 <= i < |MapImage(image).value.segments| ==> MapperSegment(MapImage(image).value.segments[i])
    ensures Segment(Readonly, Rom) in MapImage(image).value.segments
  {
    var b := MapBuilder(image.prg).value;
    if |image.prg| == 0x4000 {
      MapBuilderSmall(image.prg);
    } else {
      MapBuilderLarge(image.prg);
    }
    BuiltSegments(b);
  }

  /** Building keeps the segments the mapper added, in some order. */
  lemma BuiltSegments(b: MemoryBuilder)
    requires WellFormed(b) && DataFits(b)
    requires || b.segments == [Segment(Mirror(LowBank), HighBank), Segment(Readonly, Rom)]
             || b.segments == [Segment(Readonly, Rom)]
    ensures forall i :: 0 <= i < |Build(b).segments| ==> MapperSegment(Build(b).segments[i])
    ensures Segment(Readonly, Rom) in Build(b).segments
  {
    var segs := Build(b).segments;
    forall i | 0 <= i < |segs| ensures MapperSegment(segs[i]) {
      assert segs[i] in multiset(b.segments);
    }
    assert Segment(Readonly, Rom) in multiset(segs);
  }

  /** The ROM area is read-only after mapping and nothing below it is. */
  lemma MappedReadonly(image: Ines, a: nat)
    requires MapImage(image).Ok?
    ensures IsReadonly(MapImage(image).value.segments, a) <==> 0x8000 <= a <= 0xFFFF
  {
    MappedSegments(image);
    RomOnlyReadonly(MapImage(image).value.segments, a);
  }

  /** Among the mapper's segments, only the ROM area is read-only. */
  lemma RomOnlyReadonly(segs: seq<Segment>, a: nat)
    requires forall i :: 0 <= i < |segs| ==> MapperSegment(segs[i])
    requires Segment(Readonly, Rom) in segs
    ensures IsReadonly(segs, a) <==> 0x8000 <= a <= 0xFFFF
  {
    var k :| 0 <= k < |segs| && segs[k] == Segment(Readonly, Rom);
  }

  /** A 16 KiB PRG ROM reads at 0x8000 and again at 0xC000. */
  lemma MappedSmall(image: Ines, i: nat)
    requires |image.prg| == 0x4000 && i < 0x4000
    ensures MapImage(image).Ok?
    ensures ReadU8(MapImage(image).value, 0x8000 + i) == image.prg[i]
    ensures ReadU8(MapImage(image).value, 0xC000 + i) == image.prg[i]
  {
    var b := MapBuilder(image.prg).value;
    MapBuilderSmall(image.prg);
    BuildLastWins(b, 0, 0x8000 + i);
    BuildLastWins(b, 1, 0xC000 + i);
  }

  /** A 32 KiB PRG ROM fills 0x8000..=0xFFFF. */
  lemma MappedLarge(image: Ines, i: nat)
    requires |image.prg| == 0x8000 && i < 0x8000
    ensures MapImage(image).Ok?
    ensures ReadU8(MapImage(image).value, 0x8000 + i) == image.prg[i]
  {
    var b := MapBuilder(image.prg).value;
    MapBuilderLarge(image.prg);
    BuildLastWins(b, 0, 0x8000 + i);
  }

  /** Below 0x8000 the mapped memory reads 0. */
  lemma MappedLowZero(image: Ines, a: nat)
    requires MapImage(image).Ok? && a < 0x8000
    ensures ReadU8(MapImage(image).value, a) == 0
  {
    var b := MapBuilder(image.prg).value;
    if |image.prg| == 0x4000 {
      MapBuilderSmall(image.prg);
    } else {
      MapBuilderLarge(image.prg);
    }
    assert NotCoveredFrom(b.data, 0, a);
  }

  /** Every write into the ROM area is refused and leaves the memory as it
      was. */
  lemma RomWriteRefused(image: Ines, a: nat, byte: u8)
    requires MapImage(image).Ok? && 0x8000 <= a <= 0xFFFF
    ensures WriteDefined(MapImage(image).value, a, 1)
    ensures WriteU8(MapImage(image).value, a, byte) == (MapImage(image).value, Err("Memory address is readonly."))
  {
    MappedReadonly(image, a);
  }

  /** Below 0x8000 no mirror of the mapped memory copies a write. */
  lemma LowNotMirrored(image: Ines, a: nat, n: nat, j: nat)
    requires MapImage(image).Ok? && a < 0x8000
    ensures SyncFits(MapImage(image).value.segments, a, n)
    ensures !Mirrored(MapImage(image).value.segments, a, n, j)
  {
    MappedSegments(image);
    NoSegmentBelowRom(MapImage(image).value.segments, a, n, j);
  }

  /** No segment of the mapper covers an address below the ROM area, so
      nothing written there is copied anywhere. */
  lemma NoSegmentBelowRom(segs: seq<Segment>, a: nat, n: nat, j: nat)
    requires forall i :: 0 <= i < |segs| ==> MapperSegment(segs[i])
    requires a < 0x8000
    ensures SyncFits(segs, a, n)
    ensures !Mirrored(segs, a, n, j)
  {
  }

  /** A write below 0x8000 is accepted and changes that byte only. */
  lemma LowWriteAccepted(image: Ines, a: nat, byte: u8)
    requires MapImage(image).Ok? && a < 0x8000
    ensures WriteDefined(MapImage(image).value, a, 1)
    ensures WriteU8(MapImage(image).value, a, byte).1.Ok?
    ensures forall j :: 0 <= j < SpaceSize ==>
      ReadU8(WriteU8(MapImage(image).value, a, byte).0, j) ==
        if j == a then byte else ReadU8(MapImage(image).value, j)
  {
    var m := MapImage(image).value;
    MappedReadonly(image, a);
    LowNotMirrored(image, a, 1, a);
    forall j | 0 <= j < SpaceSize
      ensures ReadU8(WriteU8(m, a, byte).0, j) == if j == a then byte else ReadU8(m, j)
    {
      LowNotMirrored(image, a, 1, j);
    }
  }

  /** The reset vector `CPU::from_path` reads at 0xFFFC is the word in the
      fourth- and third-last bytes of the PRG ROM, for both sizes. */
  lemma ResetVector(image: Ines)
    requires MapImage(image).Ok?
    ensures var n := |image.prg|;
      ReadU16(MapImage(image).value, 0xFFFC) == image.prg[n - 4] as int + 0x100 * image.prg[n - 3] as int
  {
    if |image.prg| == 0x4000 {
      MappedSmall(image, 0x3FFC);
      MappedSmall(image, 0x3FFD);
    } else {
      MappedLarge(image, 0x7FFC);
      MappedLarge(image, 0x7FFD);
    }
  }

  /** `write_u16` asks only whether its first address is read-only: in
      mapped memory a word written at 0x7FFF is accepted and its high byte
      lands at 0x8000, in the ROM area. */
  lemma WordWriteIntoRom(image: Ines, word: u16)
    requires MapImage(image).Ok?
    ensures WriteDefined(MapImage(image).value, 0x7FFF, 2)
    ensures WriteU16(MapImage(image).value, 0x7FFF, word).1.Ok?
    ensures ReadU8(WriteU16(MapImage(image).value, 0x7FFF, word).0, 0x8000) == word / 0x100
  {
    MappedReadonly(image, 0x7FFF);
    MappedReadonly(image, 0x8000);
    LowNotMirrored(image, 0x7FFF, 2, 0x7FFF);
    LowNotMirrored(image, 0x7FFF, 2, 0x8000);
    WriteU16SecondByteUnchecked(MapImage(image).value, 0x7FFF, word);
  }
}
