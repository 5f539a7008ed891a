/**
 The metadata object that accompanies a compiled kernel: an ELF file with one section, holding a
 version and an opaque payload. It is written in the byte order of the kernel's own ELF file and
 read back with the version taken as little-endian.
 */
module KernelMetadata {
  import opened Wrappers
  import opened Seqs
  import opened Bytes
  import opened Elf
  import opened ElfWriter

  datatype WriteError = InvalidData | SerializationFailed

  const VERSION_SIZE := 8

  // ----- what is written -----

  /** What the new file takes over from the main ELF file. */
  function RequestOf(main: FileHeader): HeaderRequest {
    HeaderRequest(main.osAbi, main.abiVersion, main.eType, main.eMachine, 0, main.eFlags)
  }

  /** The string table and the ids of the two section names in it. */
  datatype Names = Names(table: Table, section: nat, shstrtab: nat) {
    predicate Valid() {
      section < |table.offsets| && shstrtab < |table.offsets|
    }
  }

  /** The names in the table: a single one if the section itself is called `.shstrtab`. */
  function NameList(section: seq<byte>): (r: seq<seq<byte>>)
    ensures |r| > 0 && r[0] == section && r[|r| - 1] == SHSTRTAB
  {
    if section == SHSTRTAB then [section] else [section, SHSTRTAB]
  }

  function NamesFor(section: seq<byte>): (names: Names)
    ensures names.Valid()
  {
    Names(BuildTable(NameList(section)), 0, |NameList(section)| - 1)
  }

  const PAYLOAD_OFFSET := 72

  function TableOffset(n: nat): nat {
    PAYLOAD_OFFSET + n
  }

  function HeadersOffset(names: Names, n: nat): nat {
    AlignUp(TableOffset(n) + |names.table.data|, 8)
  }

  function ImageHeader(main: FileHeader, names: Names, n: nat): FileHeader {
    CompleteHeader(main.endian, RequestOf(main), HeadersOffset(names, n), 3, 2)
  }

  function MetadataHeader(names: Names, n: nat): SectionHeader
    requires names.Valid()
  {
    SectionHeader(names.table.offsets[names.section], SHT_PROGBITS, 0, 0,
                  Elf.FILE_HEADER_SIZE, n + VERSION_SIZE, 0, 0, 8, 0)
  }

  function NamesHeader(names: Names, n: nat): SectionHeader
    requires names.Valid()
  {
    SectionHeader(names.table.offsets[names.shstrtab], SHT_STRTAB, 0, 0,
                  TableOffset(n), |names.table.data|, 0, 0, 1, 0)
  }

  /** What aligns the section headers. */
  function Padding(names: Names, n: nat): (z: seq<byte>)
    ensures |z| == HeadersOffset(names, n) - TableOffset(n) - |names.table.data|
  {
    Zeros(HeadersOffset(names, n) - TableOffset(n) - |names.table.data|)
  }

  /** Everything before the section headers. */
  function ImageBody(main: FileHeader, names: Names, version: nat, data: seq<byte>): (b: seq<byte>)
    ensures |b| == HeadersOffset(names, |data|)
  {
    EncodeFileHeader(ImageHeader(main, names, |data|))
    + ToBytes(main.endian, version, VERSION_SIZE) + data + names.table.data + Padding(names, |data|)
  }

  function ImageSections(main: FileHeader, names: Names, n: nat): (b: seq<byte>)
    requires names.Valid()
    ensures |b| == 3 * SECTION_HEADER_SIZE
  {
    EncodeSectionHeader(main.endian, NULL_SECTION)
    + EncodeSectionHeader(main.endian, MetadataHeader(names, n))
    + EncodeSectionHeader(main.endian, NamesHeader(names, n))
  }

  function Image(main: FileHeader, names: Names, version: nat, data: seq<byte>): seq<byte>
    requires names.Valid()
  {
    ImageBody(main, names, version, data) + ImageSections(main, names, |data|)
  }

  /** The metadata object for a kernel with this ELF header. */
  function MetadataObject(main: FileHeader, section: seq<byte>, version: nat, data: seq<byte>): seq<byte> {
    Image(main, NamesFor(section), version, data)
  }

  // ----- writing it -----

  /** The promises: where the names and the section headers will be, and how long the file. */
  ghost predicate Reserved(w: Writer, names: Names, n: nat)
    reads w
  {
    && w.shstrtab == names.table && w.shstrtabName == names.shstrtab
    && w.sectionNum == 3 && w.shstrtabIndex == 2
    && w.shstrtabOffset == TableOffset(n)
    && w.sectionOffset == HeadersOffset(names, n)
    && w.len == HeadersOffset(names, n) + 3 * SECTION_HEADER_SIZE
  }

  lemma ShstrtabName(section: seq<byte>, strings: seq<seq<byte>>, id: nat)
    requires strings == [section] || strings == [section] + [SHSTRTAB]
    requires SHSTRTAB in [section] <==> strings == [section]
    requires id < |strings| && strings[id] == SHSTRTAB
    ensures strings == NameList(section) && id == |NameList(section)| - 1
  {
  }

  method ReserveTables(w: Writer, section: seq<byte>, ghost n: nat)
    requires w.buffer == [] && w.len == TableOffset(n) && w.names == [section] && w.sectionNum == 2
    requires w.sectionOffset == 0 && w.shstrtabIndex == 0 && w.shstrtabOffset == 0
    modifies w
    ensures w.buffer == [] && Reserved(w, NamesFor(section), n)
  {
    w.ReserveShstrtabSectionIndex();
    ShstrtabName(section, w.names, w.shstrtabName);
    w.ReserveShstrtab();
    w.ReserveSectionHeaders();
  }

  /** The first half of `write_object`: every part of the file is promised an offset. */
  method ReservePhase(w: Writer, section: seq<byte>, n: nat) returns (sectionName: nat, sectionOffset: nat)
    requires w.buffer == [] && w.len == 0 && w.names == []
    requires w.sectionNum == 0 && w.sectionOffset == 0 && w.shstrtabIndex == 0 && w.shstrtabOffset == 0
    modifies w
    ensures w.buffer == [] && Reserved(w, NamesFor(section), n)
    ensures sectionName == NamesFor(section).section && sectionOffset == Elf.FILE_HEADER_SIZE
  {
    w.ReserveFileHeader();
    sectionName := w.AddSectionName(section);
    assert w.names == [section];
    var _ := w.ReserveSectionIndex();
    sectionOffset := w.Reserve(n + VERSION_SIZE, 8);
    assert sectionOffset == Elf.FILE_HEADER_SIZE && w.len == TableOffset(n);
    ReserveTables(w, section, n);
  }

  method WriteContents(w: Writer, main: FileHeader, ghost names: Names, version: nat, data: seq<byte>,
                       ghost sectionOffset: nat)
    requires w.buffer == [] && w.endian == main.endian && Reserved(w, names, |data|)
    requires sectionOffset == Elf.FILE_HEADER_SIZE
    modifies w`buffer
    ensures w.buffer == EncodeFileHeader(ImageHeader(main, names, |data|))
                        + ToBytes(main.endian, version, VERSION_SIZE) + data
  {
    w.WriteFileHeader(RequestOf(main));
    w.WriteAlign(8);
    assert w.buffer == EncodeFileHeader(ImageHeader(main, names, |data|)) && |w.buffer| == sectionOffset;
    w.Write(ToBytes(main.endian, version, VERSION_SIZE));
    w.Write(data);
  }

  method WriteNames(w: Writer, main: FileHeader, ghost names: Names, ghost version: nat, ghost data: seq<byte>)
    requires w.endian == main.endian && Reserved(w, names, |data|)
    requires w.buffer == EncodeFileHeader(ImageHeader(main, names, |data|))
                         + ToBytes(main.endian, version, VERSION_SIZE) + data
    modifies w`buffer
    ensures w.buffer == ImageBody(main, names, version, data) + EncodeSectionHeader(main.endian, NULL_SECTION)
  {
    w.WriteShstrtab();
    assert w.buffer == EncodeFileHeader(ImageHeader(main, names, |data|))
                       + ToBytes(main.endian, version, VERSION_SIZE) + data + names.table.data;
    w.WriteNullSectionHeader();
  }

  method WriteMetadataHeader(w: Writer, ghost names: Names, n: nat, sectionName: nat, sectionOffset: nat)
    requires names.Valid() && w.shstrtab == names.table
    requires sectionName == names.section && sectionOffset == Elf.FILE_HEADER_SIZE
    modifies w`buffer
    ensures w.buffer == old(w.buffer) + EncodeSectionHeader(w.endian, MetadataHeader(names, n))
  {
    w.WriteSectionHeader(sectionName,
                         SectionHeader(0, SHT_PROGBITS, 0, 0, sectionOffset, n + VERSION_SIZE, 0, 0, 8, 0));
  }

  method WriteNamesHeader(w: Writer, ghost names: Names, ghost n: nat)
    requires names.Valid() && w.shstrtab == names.table && w.shstrtabName == names.shstrtab
    requires w.shstrtabIndex > 0 && w.shstrtabOffset == TableOffset(n)
    modifies w`buffer
    ensures w.buffer == old(w.buffer) + EncodeSectionHeader(w.endian, NamesHeader(names, n))
  {
    w.WriteShstrtabSectionHeader();
  }

  lemma Assoc3(a: seq<byte>, x: seq<byte>, y: seq<byte>, z: seq<byte>)
    ensures a + x + y + z == a + (x + y + z)
  {
  }

  method WriteSections(w: Writer, main: FileHeader, ghost names: Names, n: nat, ghost body: seq<byte>,
                       sectionName: nat, sectionOffset: nat)
    requires names.Valid() && w.endian == main.endian && Reserved(w, names, n)
    requires w.buffer == body + EncodeSectionHeader(main.endian, NULL_SECTION)
    requires sectionName == names.section && sectionOffset == Elf.FILE_HEADER_SIZE
    modifies w`buffer
    ensures w.buffer == body + ImageSections(main, names, n)
  {
    WriteMetadataHeader(w, names, n, sectionName, sectionOffset);
    WriteNamesHeader(w, names, n);
    Assoc3(body, EncodeSectionHeader(main.endian, NULL_SECTION),
           EncodeSectionHeader(main.endian, MetadataHeader(names, n)),
           EncodeSectionHeader(main.endian, NamesHeader(names, n)));
  }

  /** The second half: everything is written where it was promised to be, up to the promised length. */
  method WritePhase(w: Writer, main: FileHeader, ghost names: Names, version: nat, data: seq<byte>,
                    sectionName: nat, sectionOffset: nat)
    requires names.Valid() && w.buffer == [] && w.endian == main.endian && Reserved(w, names, |data|)
    requires sectionName == names.section && sectionOffset == Elf.FILE_HEADER_SIZE
    modifies w`buffer
    ensures w.buffer == Image(main, names, version, data) && |w.buffer| == w.len
  {
    WriteContents(w, main, names, version, data, sectionOffset);
    WriteNames(w, main, names, version, data);
    WriteSections(w, main, names, |data|, ImageBody(main, names, version, data), sectionName, sectionOffset);
  }

  /** A main file that is no ELF file is reported first, then a failed serialisation. */
  function ObjectFor(archived: Option<seq<byte>>, section: seq<byte>, version: nat, mainElf: seq<byte>)
    : Result<seq<byte>, WriteError>
  {
    match ParseFileHeader(mainElf)
    case None => Err(InvalidData)
    case Some(main) =>
      match archived
      case None => Err(SerializationFailed)
      case Some(data) => Ok(MetadataObject(main, section, version, data))
  }

  /** `archived` is the serialised metadata, or `None` when serialising it fails. */
  method WriteObject(archived: Option<seq<byte>>, section: seq<byte>, version: nat, mainElf: seq<byte>)
    returns (r: Result<seq<byte>, WriteError>)
    requires version < Pow256(VERSION_SIZE)
    ensures r == ObjectFor(archived, section, version, mainElf)
  {
    var mainHeader := ParseFileHeader(mainElf);
    if mainHeader.None? {
      return Err(InvalidData);
    }
    var endian := mainHeader.value.endian;
    if archived.None? {
      return Err(SerializationFailed);
    }
    var data := archived.value;
    var w := new Writer(endian);
    var sectionName, sectionOffset := ReservePhase(w, section, |data|);
    WritePhase(w, mainHeader.value, NamesFor(section), version, data, sectionName, sectionOffset);
    return Ok(w.buffer);
  }

  // ----- reading it back -----

  function Unversioned(data: seq<byte>, version: nat): Option<seq<byte>> {
    if |data| < VERSION_SIZE || FromLE(data[..VERSION_SIZE]) != version then None else Some(data[VERSION_SIZE..])
  }

  /** The payload, or `None` when there is no such section or its version, read as little-endian, differs. */
  function ReadObject(elfBytes: seq<byte>, section: seq<byte>, version: nat): Option<seq<byte>> {
    match SectionByName(elfBytes, section)
    case None => None
    case Some(s) =>
      match SectionData(elfBytes, s)
      case None => None
      case Some(data) => Unversioned(data, version)
  }

  /** Lengths that fit an address space, and a name whose table offsets fit 32 bits. */
  predicate Representable(section: seq<byte>, n: nat) {
    |section| < 0xFFFF_0000 && n < 0x8000_0000_0000_0000
  }

  /** The table holds both names where their headers say, and is no longer than it needs to be. */
  ghost predicate Holds(names: Names, section: seq<byte>) {
    && names.Valid()
    && StringFrom(names.table.data, names.table.offsets[names.section]) == Some(UpToZero(section))
    && StringFrom(names.table.data, names.table.offsets[names.shstrtab]) == Some(SHSTRTAB)
    && names.table.offsets[names.section] < |names.table.data| <= |section| + 12
    && names.table.offsets[names.shstrtab] < |names.table.data|
    && names.table.data[0] == 0
  }

  function TotalSize(strings: seq<seq<byte>>, order: seq<nat>): nat
    requires ValidIds(strings, order)
  {
    if order == [] then 0 else |strings[order[0]]| + 1 + TotalSize(strings, order[1..])
  }

  lemma {:induction false} PlaceSize(strings: seq<seq<byte>>, order: seq<nat>, table: Table, previous: seq<byte>)
    requires ValidIds(strings, order) && |table.offsets| == |strings|
    requires EndsWith(table.data, previous + [0])
    ensures |Place(strings, order, table, previous).data| <= |table.data| + TotalSize(strings, order)
    decreases |order|
  {
    if order != [] {
      var id := order[0];
      PlaceSize(strings, order[1..], PlaceOne(strings, id, table, previous), Latest(strings[id], previous));
    }
  }

  lemma {:induction false} InsertSize(strings: seq<seq<byte>>, sorted: seq<nat>, id: nat)
    requires id < |strings| && ValidIds(strings, sorted)
    ensures TotalSize(strings, Insert(strings, sorted, id)) == TotalSize(strings, sorted) + |strings[id]| + 1
    decreases |sorted|
  {
    if sorted == [] {
    } else if Precedes(strings[id], strings[sorted[0]]) {
      assert ([id] + sorted)[1..] == sorted;
    } else {
      InsertSize(strings, sorted[1..], id);
      assert ([sorted[0]] + Insert(strings, sorted[1..], id))[1..] == Insert(strings, sorted[1..], id);
    }
  }

  lemma TableSize(section: seq<byte>)
    ensures |BuildTable(NameList(section)).data| <= |section| + 12
  {
    var strings := NameList(section);
    EndsWithItself([0]);
    PlaceSize(strings, WriteOrder(strings, |strings|), Table([0], seq(|strings|, _ => 0)), []);
    InsertSize(strings, [], 0);
    assert WriteOrder(strings, 0) == [];
    if |strings| == 2 {
      InsertSize(strings, WriteOrder(strings, 1), 1);
    }
  }

  lemma NamesHold(section: seq<byte>)
    ensures Holds(NamesFor(section), section)
  {
    var strings := NameList(section);
    var t := BuildTable(strings);
    TableSize(section);
    TableHoldsStrings(strings, 0);
    TableHoldsStrings(strings, |strings| - 1);
    StringFromFinds(t.data, t.offsets[0], section);
    StringFromFinds(t.data, t.offsets[|strings| - 1], SHSTRTAB);
    NoZeroShown(SHSTRTAB);
  }

  lemma ImageHeaderFits(main: FileHeader, names: Names, n: nat)
    requires Fits(main.Values(), Elf.FILE_HEADER_WIDTHS)
    requires HeadersOffset(names, n) < Pow256(8)
    ensures Fits(ImageHeader(main, names, n).Values(), Elf.FILE_HEADER_WIDTHS)
  {
  }

  lemma SectionHeaderFits(s: SectionHeader)
    requires s.shName < Pow256(4) && s.shType < 4 && s.shOffset < Pow256(8) && s.shSize < Pow256(8)
    requires s.shFlags == s.shAddr == s.shLink == s.shInfo == s.shEntsize == 0 && s.shAddralign <= 8
    ensures Fits(s.Values(), SECTION_HEADER_WIDTHS)
  {
  }

  /** The image parses to the headers that were written. */
  lemma {:induction false} ImageParses(
    main: FileHeader, names: Names, section: seq<byte>, version: nat, data: seq<byte>)
    requires Fits(main.Values(), Elf.FILE_HEADER_WIDTHS) && Holds(names, section) && Representable(section, |data|)
    ensures
      var b, h := Image(main, names, version, data), ImageHeader(main, names, |data|);
      && ParseFileHeader(b) == Some(h)
      && ParseSections(b, h) == Some([NULL_SECTION, MetadataHeader(names, |data|), NamesHeader(names, |data|)])
  {
    Powers();
    ImageIsLaid(main, names, version, data);
    var h := ImageHeader(main, names, |data|);
    var rest := Parts(EncodeFileHeader(h), ToBytes(main.endian, version, VERSION_SIZE), data, names.table.data,
                      Padding(names, |data|), ImageSections(main, names, |data|));
    ImageHeaderFits(main, names, |data|);
    FileHeaderRoundTrip(h, rest);
    var s1, s2 := MetadataHeader(names, |data|), NamesHeader(names, |data|);
    SectionHeaderFits(NULL_SECTION);
    SectionHeaderFits(s1);
    SectionHeaderFits(s2);
    SectionHeaderRoundTrip(main.endian, NULL_SECTION);
    SectionHeaderRoundTrip(main.endian, s1);
    SectionHeaderRoundTrip(main.endian, s2);
    DecodeThree(main.endian, Image(main, names, version, data), ImageBody(main, names, version, data),
                EncodeSectionHeader(main.endian, NULL_SECTION), EncodeSectionHeader(main.endian, s1),
                EncodeSectionHeader(main.endian, s2));
  }

  lemma DecodeThree(e: Endianness, b: seq<byte>, body: seq<byte>, x: seq<byte>, y: seq<byte>, z: seq<byte>)
    requires |x| == |y| == |z| == SECTION_HEADER_SIZE && b == body + (x + y + z)
    ensures DecodeSections(e, b, |body|, 3)
         == [DecodeSectionHeader(e, x), DecodeSectionHeader(e, y), DecodeSectionHeader(e, z)]
  {
    var o := |body|;
    ThreeSlices(b, body, x, y, z);
    DecodeOne(e, b, o + 128, 1, DecodeSectionHeader(e, z));
    DecodeOne(e, b, o + 64, 2, DecodeSectionHeader(e, y));
    DecodeOne(e, b, o, 3, DecodeSectionHeader(e, x));
    assert DecodeSections(e, b, o + 192, 0) == [];
  }

  lemma DecodeOne(e: Endianness, b: seq<byte>, o: nat, count: nat, s: SectionHeader)
    requires count > 0 && o + count * SECTION_HEADER_SIZE <= |b|
    requires DecodeSectionHeader(e, b[o..o + SECTION_HEADER_SIZE]) == s
    ensures DecodeSections(e, b, o, count) == [s] + DecodeSections(e, b, o + SECTION_HEADER_SIZE, count - 1)
  {
  }

  lemma ThreeSlices(b: seq<byte>, body: seq<byte>, x: seq<byte>, y: seq<byte>, z: seq<byte>)
    requires |x| == |y| == |z| == 64 && b == body + (x + y + z)
    ensures b[|body|..|body| + 64] == x
    ensures b[|body| + 64..|body| + 128] == y
    ensures b[|body| + 128..|body| + 192] == z
  {
  }

  /** `x` stands in `b` at offset `o`. */
  predicate At(b: seq<byte>, o: nat, x: seq<byte>) {
    o + |x| <= |b| && b[o..o + |x|] == x
  }

  function Laid(
    head: seq<byte>, v: seq<byte>, data: seq<byte>, t: seq<byte>, pad: seq<byte>, sections: seq<byte>): seq<byte>
  {
    head + v + data + t + pad + sections
  }

  /** Where the parts of a concatenation are, and what follows its first part. */
  lemma Parts(head: seq<byte>, v: seq<byte>, data: seq<byte>, t: seq<byte>, pad: seq<byte>, sections: seq<byte>)
    returns (rest: seq<byte>)
    ensures Laid(head, v, data, t, pad, sections) == head + rest
    ensures At(Laid(head, v, data, t, pad, sections), |head|, v + data)
    ensures At(Laid(head, v, data, t, pad, sections), |head| + |v|, data)
    ensures At(Laid(head, v, data, t, pad, sections), |head| + |v| + |data|, t)
  {
    var tail := pad + sections;
    Assoc(head + v + data + t, pad, sections);
    Assoc(head + v + data, t, tail);
    Assoc(head + v, data, t + tail);
    Assoc(head, v, data + (t + tail));
    rest := v + (data + (t + tail));
    Middle(head + v + data, t, tail);
    Middle(head + v, data, t + tail);
    Middle(head, v + data, t + tail);
    Assoc(head, v, data);
  }

  lemma ImageIsLaid(main: FileHeader, names: Names, version: nat, data: seq<byte>)
    requires names.Valid()
    ensures Image(main, names, version, data)
         == Laid(EncodeFileHeader(ImageHeader(main, names, |data|)), ToBytes(main.endian, version, VERSION_SIZE),
                 data, names.table.data, Padding(names, |data|), ImageSections(main, names, |data|))
  {
  }

  lemma Middle(pre: seq<byte>, x: seq<byte>, post: seq<byte>)
    ensures (pre + x + post)[|pre|..|pre| + |x|] == x
  {
  }

  /** Payload and section headers are 8-aligned, and nothing follows the section headers. */
  lemma ImageLayout(main: FileHeader, names: Names, version: nat, data: seq<byte>)
    requires names.Valid()
    ensures |Image(main, names, version, data)| == HeadersOffset(names, |data|) + 3 * SECTION_HEADER_SIZE
    ensures HeadersOffset(names, |data|) % 8 == 0 && PAYLOAD_OFFSET % 8 == 0
    ensures TableOffset(|data|) + |names.table.data| <= HeadersOffset(names, |data|)
  {
  }

  /** Every part is where it was promised. */
  lemma {:induction false} ImageSlices(main: FileHeader, names: Names, version: nat, data: seq<byte>)
    requires names.Valid()
    ensures At(Image(main, names, version, data), Elf.FILE_HEADER_SIZE,
               ToBytes(main.endian, version, VERSION_SIZE) + data)
    ensures At(Image(main, names, version, data), PAYLOAD_OFFSET, data)
    ensures At(Image(main, names, version, data), TableOffset(|data|), names.table.data)
  {
    ImageIsLaid(main, names, version, data);
    var _ := Parts(EncodeFileHeader(ImageHeader(main, names, |data|)), ToBytes(main.endian, version, VERSION_SIZE),
                   data, names.table.data, Padding(names, |data|), ImageSections(main, names, |data|));
  }

  /** The recorded offsets and sizes delimit exactly version and payload, and exactly the name table. */
  lemma {:induction false} ImageData(main: FileHeader, names: Names, version: nat, data: seq<byte>)
    requires names.Valid()
    ensures SectionData(Image(main, names, version, data), MetadataHeader(names, |data|))
         == Some(ToBytes(main.endian, version, VERSION_SIZE) + data)
    ensures SectionData(Image(main, names, version, data), NamesHeader(names, |data|)) == Some(names.table.data)
  {
    ImageSlices(main, names, version, data);
    DataAt(Image(main, names, version, data), names, |data|, ToBytes(main.endian, version, VERSION_SIZE) + data);
  }

  lemma DataAt(b: seq<byte>, names: Names, n: nat, metadata: seq<byte>)
    requires names.Valid() && |metadata| == n + VERSION_SIZE
    requires At(b, Elf.FILE_HEADER_SIZE, metadata) && At(b, TableOffset(n), names.table.data)
    ensures SectionData(b, MetadataHeader(names, n)) == Some(metadata)
    ensures SectionData(b, NamesHeader(names, n)) == Some(names.table.data)
  {
  }

  // ----- the round trip -----

  lemma FindInImage(names: seq<byte>, s1: SectionHeader, s2: SectionHeader, name: seq<byte>)
    ensures FindSection([NULL_SECTION, s1, s2], names, name, 0) ==
              if StringFrom(names, s1.shName) == Some(name) then Some(s1)
              else if StringFrom(names, s2.shName) == Some(name) then Some(s2)
              else None
  {
    var sections := [NULL_SECTION, s1, s2];
    assert FindSection(sections, names, name, 3) == None;
    assert FindSection(sections, names, name, 2) ==
      if StringFrom(names, s2.shName) == Some(name) then Some(s2) else None;
    assert FindSection(sections, names, name, 0) == FindSection(sections, names, name, 1);
  }

  /** By name the reader finds the metadata, the name table, or nothing. */
  lemma {:induction false} ImageSectionByName(
    main: FileHeader, names: Names, section: seq<byte>, version: nat, data: seq<byte>, name: seq<byte>)
    requires Fits(main.Values(), Elf.FILE_HEADER_WIDTHS) && Holds(names, section) && Representable(section, |data|)
    ensures SectionByName(Image(main, names, version, data), name) ==
              if name == UpToZero(section) then Some(MetadataHeader(names, |data|))
              else if name == SHSTRTAB then Some(NamesHeader(names, |data|))
              else None
  {
    var b, s1, s2 := Image(main, names, version, data), MetadataHeader(names, |data|), NamesHeader(names, |data|);
    ImageParses(main, names, section, version, data);
    assert SectionData(b, s2) == Some(names.table.data) by { ImageData(main, names, version, data); }
    LookUp(b, ImageHeader(main, names, |data|), [NULL_SECTION, s1, s2], names.table.data, name);
    FindInImage(names.table.data, s1, s2, name);
  }

  lemma LookUp(b: seq<byte>, h: FileHeader, sections: seq<SectionHeader>, names: seq<byte>, name: seq<byte>)
    requires ParseFileHeader(b) == Some(h) && ParseSections(b, h) == Some(sections)
    requires 0 < h.eShstrndx < |sections| && sections[h.eShstrndx].shType == SHT_STRTAB
    requires SectionData(b, sections[h.eShstrndx]) == Some(names)
    ensures SectionByName(b, name) == FindSection(sections, names, name, 0)
  {
  }

  function ByteSwapped(version: nat): nat {
    FromLE(Reversed(ToLE(version, VERSION_SIZE)))
  }

  /** The version as the reader sees it. */
  function SeenVersion(e: Endianness, version: nat): nat {
    if e == Little then version else ByteSwapped(version)
  }

  lemma SeenVersionOf(e: Endianness, version: nat)
    requires version < Pow256(VERSION_SIZE)
    ensures FromLE(ToBytes(e, version, VERSION_SIZE)) == SeenVersion(e, version)
  {
    FromLEToLE(version, VERSION_SIZE);
  }

  lemma ImageRoundTrip(
    main: FileHeader, names: Names, section: seq<byte>, version: nat, data: seq<byte>, name: seq<byte>, requested: nat)
    requires Fits(main.Values(), Elf.FILE_HEADER_WIDTHS) && Holds(names, section) && Representable(section, |data|)
    requires version < Pow256(VERSION_SIZE)
    ensures ReadObject(Image(main, names, version, data), name, requested) ==
              if name == UpToZero(section) then
                (if requested == SeenVersion(main.endian, version) then Some(data) else None)
              else if name == SHSTRTAB then Unversioned(names.table.data, requested)
              else None
  {
    ImageSectionByName(main, names, section, version, data, name);
    ImageData(main, names, version, data);
    SeenVersionOf(main.endian, version);
    var v := ToBytes(main.endian, version, VERSION_SIZE);
    assert (v + data)[..VERSION_SIZE] == v && (v + data)[VERSION_SIZE..] == data;
  }

  /**
   Round trip. Reading the section that was written gives back exactly the payload if the requested
   version is the one written, seen through the byte order of the main ELF file, and nothing
   otherwise. Reading any other name gives nothing, except that the name table can be read as if it
   were metadata.
   */
  lemma {:induction false} MetadataRoundTrip(
    main: FileHeader, section: seq<byte>, version: nat, data: seq<byte>, name: seq<byte>, requested: nat)
    requires Fits(main.Values(), Elf.FILE_HEADER_WIDTHS) && Representable(section, |data|)
    requires version < Pow256(VERSION_SIZE)
    ensures ReadObject(MetadataObject(main, section, version, data), name, requested) ==
              if name == UpToZero(section) then
                (if requested == SeenVersion(main.endian, version) then Some(data) else None)
              else if name == SHSTRTAB then Unversioned(NamesFor(section).table.data, requested)
              else None
  {
    NamesHold(section);
    ImageRoundTrip(main, NamesFor(section), section, version, data, name, requested);
  }

  /**
   The same from the bytes of the main ELF file on: whatever `write_object` is given, it writes an
   object or says why not, and the object reads back.
   */
  lemma {:induction false} WriteThenRead(
    archived: Option<seq<byte>>, section: seq<byte>, version: nat, mainElf: seq<byte>, name: seq<byte>, requested: nat)
    requires archived.Some? ==> Representable(section, |archived.value|)
    requires version < Pow256(VERSION_SIZE)
    ensures
      var r := ObjectFor(archived, section, version, mainElf);
      && (r == Err(InvalidData) <==> ParseFileHeader(mainElf) == None)
      && (r == Err(SerializationFailed) <==> ParseFileHeader(mainElf).Some? && archived == None)
      && (r.Ok? ==>
            ReadObject(r.value, name, requested) ==
            if name == UpToZero(section) then
              (if requested == SeenVersion(ParseFileHeader(mainElf).value.endian, version) then archived else None)
            else if name == SHSTRTAB then Unversioned(NamesFor(section).table.data, requested)
            else None)
  {
    if ParseFileHeader(mainElf).Some? && archived.Some? {
      ParsedHeaderFits(mainElf);
      MetadataRoundTrip(ParseFileHeader(mainElf).value, section, version, archived.value, name, requested);
    }
  }

  /** The name table begins with a zero byte, so it never passes for a version whose low byte is not zero, such as 1. */
  lemma {:induction false} NoMetadataInNames(t: seq<byte>, requested: nat)
    requires t != [] && t[0] == 0 && requested % 256 != 0
    ensures Unversioned(t, requested) == None
  {
  }

  /** Swapping moves a version below 256 out of the low byte, so it is no longer the same, unless it is 0. */
  lemma SwappedSmall(version: nat)
    requires 0 < version < 256
    ensures ByteSwapped(version) != version
  {
    SwappedLowByte(version, VERSION_SIZE);
  }

  lemma SwappedLowByte(version: nat, width: nat)
    requires version < 256 && width > 1
    ensures FromLE(Reversed(ToLE(version, width))) % 256 == 0
  {
    TopByteZero(version, width);
    var r := Reversed(ToLE(version, width));
    assert r[0] == 0 && FromLE(r) == r[0] + 256 * FromLE(r[1..]);
  }

  lemma {:induction false} TopByteZero(version: nat, width: nat)
    requires version < 256 && width > 1
    ensures ToLE(version, width)[width - 1] == 0
    decreases width
  {
    assert ToLE(version, width)[1..] == ToLE(0, width - 1);
    if width > 2 {
      TopByteZero(0, width - 1);
    }
  }

  /**
   Version 1 metadata comes back exactly when the main ELF file is little-endian, and is never found
   under any other name; so `zluda` and `zluda32`, both of version 1, are not mistaken for each other.
   */
  lemma {:induction false} VersionOneRoundTrip(main: FileHeader, section: seq<byte>, data: seq<byte>, name: seq<byte>)
    requires Fits(main.Values(), Elf.FILE_HEADER_WIDTHS) && Representable(section, |data|)
    ensures ReadObject(MetadataObject(main, section, 1, data), name, 1) ==
              if name == UpToZero(section) && main.endian == Little then Some(data) else None
  {
    Powers();
    SwappedSmall(1);
    NamesHold(section);
    MetadataRoundTrip(main, section, 1, data, name, 1);
    NoMetadataInNames(NamesFor(section).table.data, 1);
  }

  /** The object is for the same platform as the main ELF file, has no entry point and no segments. */
  lemma {:induction false} HeaderTakenOver(main: FileHeader, section: seq<byte>, version: nat, data: seq<byte>)
    requires Fits(main.Values(), Elf.FILE_HEADER_WIDTHS) && Representable(section, |data|)
    ensures
      var h := ParseFileHeader(MetadataObject(main, section, version, data));
      && h.Some?
      && h.value.endian == main.endian && h.value.osAbi == main.osAbi && h.value.abiVersion == main.abiVersion
      && h.value.eType == main.eType && h.value.eMachine == main.eMachine && h.value.eFlags == main.eFlags
      && h.value.eEntry == 0 && h.value.ePhoff == 0 && h.value.ePhnum == 0
      && h.value.eShnum == 3 && h.value.eShoff % 8 == 0
      && h.value.eShoff + 3 * SECTION_HEADER_SIZE == |MetadataObject(main, section, version, data)|
  {
    NamesHold(section);
    ImageParses(main, NamesFor(section), section, version, data);
    ImageLayout(main, NamesFor(section), version, data);
  }
}
