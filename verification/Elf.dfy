/**
 The parts of a 64-bit ELF object file that the kernel metadata uses: file header, section headers
 and string table, as laid down in chapter 4 ("Object Files") of the System V ABI.
 */
module Elf {
  import opened Wrappers
  import opened Bytes

  // ----- file header -----

  const ELFMAG: seq<byte> := [0x7F, 0x45, 0x4C, 0x46]
  const ELFCLASS64: byte := 2
  const ELFDATA2LSB: byte := 1
  const ELFDATA2MSB: byte := 2
  const EV_CURRENT: byte := 1
  const IDENT_SIZE := 16
  const FILE_HEADER_SIZE := 64

  /** What follows `e_ident`: type, machine; version; entry, phoff, shoff; flags; six sizes and counts. */
  const FILE_HEADER_WIDTHS: seq<nat> := Repeat(2, 2) + Repeat(4, 1) + Repeat(8, 3) + Repeat(4, 1) + Repeat(2, 6)

  datatype FileHeader = FileHeader(
    endian: Endianness, osAbi: byte, abiVersion: byte,
    eType: nat, eMachine: nat, eVersion: nat, eEntry: nat, ePhoff: nat, eShoff: nat, eFlags: nat,
    eEhsize: nat, ePhentsize: nat, ePhnum: nat, eShentsize: nat, eShnum: nat, eShstrndx: nat)
  {
    function Values(): seq<nat> {
      [eType, eMachine, eVersion, eEntry, ePhoff, eShoff, eFlags,
       eEhsize, ePhentsize, ePhnum, eShentsize, eShnum, eShstrndx]
    }
  }

  lemma FileHeaderWidths()
    ensures |FILE_HEADER_WIDTHS| == 13 && Size(FILE_HEADER_WIDTHS) == FILE_HEADER_SIZE - IDENT_SIZE
  {
    var w3 := Repeat(2, 2) + Repeat(4, 1);
    var w4 := w3 + Repeat(8, 3);
    var w5 := w4 + Repeat(4, 1);
    SizeAppend(Repeat(2, 2), Repeat(4, 1));
    SizeAppend(w3, Repeat(8, 3));
    SizeAppend(w4, Repeat(4, 1));
    SizeAppend(w5, Repeat(2, 6));
    SizeRepeat(2, 2);
    SizeRepeat(4, 1);
    SizeRepeat(8, 3);
    SizeRepeat(2, 6);
  }

  function EncodeIdent(e: Endianness, osAbi: byte, abiVersion: byte): (b: seq<byte>)
    ensures |b| == IDENT_SIZE
  {
    ELFMAG + [ELFCLASS64, if e == Little then ELFDATA2LSB else ELFDATA2MSB, EV_CURRENT, osAbi, abiVersion]
    + [0, 0, 0, 0, 0, 0, 0]
  }

  function EncodeFileHeader(h: FileHeader): (b: seq<byte>)
    ensures |b| == FILE_HEADER_SIZE
  {
    FileHeaderWidths();
    EncodeIdent(h.endian, h.osAbi, h.abiVersion) + EncodeFields(h.endian, h.Values(), FILE_HEADER_WIDTHS)
  }

  function FileHeaderOf(e: Endianness, osAbi: byte, abiVersion: byte, v: seq<nat>): FileHeader
    requires |v| == 13
  {
    FileHeader(e, osAbi, abiVersion, v[0], v[1], v[2], v[3], v[4], v[5], v[6], v[7], v[8], v[9], v[10], v[11], v[12])
  }

  /** `FileHeader64::parse`: a header that is there and is of a supported kind. */
  function ParseFileHeader(b: seq<byte>): Option<FileHeader> {
    if |b| < FILE_HEADER_SIZE || b[..4] != ELFMAG || b[4] != ELFCLASS64
       || (b[5] != ELFDATA2LSB && b[5] != ELFDATA2MSB) || b[6] != EV_CURRENT
    then None
    else
      var e := if b[5] == ELFDATA2LSB then Little else Big;
      FileHeaderWidths();
      Some(FileHeaderOf(e, b[7], b[8], DecodeFields(e, b[IDENT_SIZE..FILE_HEADER_SIZE], FILE_HEADER_WIDTHS)))
  }

  lemma IdentBytes(e: Endianness, osAbi: byte, abiVersion: byte)
    ensures
      var id := EncodeIdent(e, osAbi, abiVersion);
      && id[..4] == ELFMAG && id[4] == ELFCLASS64 && id[6] == EV_CURRENT && id[7] == osAbi && id[8] == abiVersion
      && id[5] == if e == Little then ELFDATA2LSB else ELFDATA2MSB
  {
  }

  lemma {:induction false} FileHeaderRoundTrip(h: FileHeader, rest: seq<byte>)
    requires Fits(h.Values(), FILE_HEADER_WIDTHS)
    ensures ParseFileHeader(EncodeFileHeader(h) + rest) == Some(h)
  {
    var ident := EncodeIdent(h.endian, h.osAbi, h.abiVersion);
    var fields := EncodeFields(h.endian, h.Values(), FILE_HEADER_WIDTHS);
    IdentBytes(h.endian, h.osAbi, h.abiVersion);
    FileHeaderWidths();
    DecodeEncodeFields(h.endian, h.Values(), FILE_HEADER_WIDTHS);
    ParseParts(h, ident, fields, rest);
  }

  lemma ParseParts(h: FileHeader, ident: seq<byte>, fields: seq<byte>, rest: seq<byte>)
    requires |ident| == IDENT_SIZE && |fields| == FILE_HEADER_SIZE - IDENT_SIZE
    requires ident[..4] == ELFMAG && ident[4] == ELFCLASS64 && ident[6] == EV_CURRENT
    requires ident[5] == (if h.endian == Little then ELFDATA2LSB else ELFDATA2MSB)
    requires ident[7] == h.osAbi && ident[8] == h.abiVersion
    requires Size(FILE_HEADER_WIDTHS) == |fields|
    requires DecodeFields(h.endian, fields, FILE_HEADER_WIDTHS) == h.Values()
    ensures ParseFileHeader(ident + fields + rest) == Some(h)
  {
  }

  /** What is accepted: a 64-bit ELF header of the current version, in either byte order. */
  lemma {:induction false} FileHeaderAccepted(b: seq<byte>)
    ensures ParseFileHeader(b).Some? <==>
              && |b| >= 64 && b[..4] == [0x7F, 0x45, 0x4C, 0x46]
              && b[4] == 2 && (b[5] == 1 || b[5] == 2) && b[6] == 1
    ensures ParseFileHeader(b).Some? ==>
              var h := ParseFileHeader(b).value;
              h.endian == (if b[5] == 1 then Little else Big) && h.osAbi == b[7] && h.abiVersion == b[8]
  {
  }

  /** Where field `k` of the header begins, counted from the start of the file. */
  function FileOffset(k: nat): nat {
    if k <= 2 then 16 + 2 * k else if k <= 6 then 8 * k else 38 + 2 * k
  }

  lemma FileOffsetIsSum(k: nat)
    requires k <= 13
    ensures Size(FILE_HEADER_WIDTHS[..k]) + 16 == FileOffset(k)
    decreases k
  {
    if k > 0 {
      FileOffsetIsSum(k - 1);
      SizeStep(FILE_HEADER_WIDTHS, k - 1);
    }
  }

  lemma FileHeaderField(b: seq<byte>, k: nat, lo: nat, hi: nat)
    requires ParseFileHeader(b).Some? && k < 13 && lo == FileOffset(k) && hi == FileOffset(k + 1)
    ensures 16 <= lo <= hi <= 64 <= |b|
    ensures
      var h := ParseFileHeader(b).value;
      h.Values()[k] == FromBytes(h.endian, b[lo..hi])
  {
    FileHeaderWidths();
    FileOffsetIsSum(k);
    SizeStep(FILE_HEADER_WIDTHS, k);
    FileOffsetIsSum(k + 1);
    var e, fields := ParseFileHeader(b).value.endian, b[IDENT_SIZE..FILE_HEADER_SIZE];
    FieldAt(e, fields, FILE_HEADER_WIDTHS, k, lo - 16, hi - 16);
    Window(b, 16, 64, lo, hi);
    ValuesOf(e, b[7], b[8], DecodeFields(e, fields, FILE_HEADER_WIDTHS));
  }

  lemma ValuesOf(e: Endianness, osAbi: byte, abiVersion: byte, v: seq<nat>)
    requires |v| == 13
    ensures FileHeaderOf(e, osAbi, abiVersion, v).Values() == v
  {
  }

  /** Every field is read at its offset, in the byte order of the file. */
  lemma {:induction false} FileHeaderOffsets(b: seq<byte>)
    requires ParseFileHeader(b).Some?
    ensures |b| >= 64
    ensures
      var h := ParseFileHeader(b).value;
      var e := h.endian;
      && h.eType == FromBytes(e, b[16..18]) && h.eMachine == FromBytes(e, b[18..20])
      && h.eVersion == FromBytes(e, b[20..24]) && h.eEntry == FromBytes(e, b[24..32])
      && h.ePhoff == FromBytes(e, b[32..40]) && h.eShoff == FromBytes(e, b[40..48])
      && h.eFlags == FromBytes(e, b[48..52]) && h.eEhsize == FromBytes(e, b[52..54])
      && h.ePhentsize == FromBytes(e, b[54..56]) && h.ePhnum == FromBytes(e, b[56..58])
      && h.eShentsize == FromBytes(e, b[58..60]) && h.eShnum == FromBytes(e, b[60..62])
      && h.eShstrndx == FromBytes(e, b[62..64])
  {
    FileHeaderField(b, 0, 16, 18);
    FileHeaderField(b, 1, 18, 20);
    FileHeaderField(b, 2, 20, 24);
    FileHeaderField(b, 3, 24, 32);
    FileHeaderField(b, 4, 32, 40);
    FileHeaderField(b, 5, 40, 48);
    FileHeaderField(b, 6, 48, 52);
    FileHeaderField(b, 7, 52, 54);
    FileHeaderField(b, 8, 54, 56);
    FileHeaderField(b, 9, 56, 58);
    FileHeaderField(b, 10, 58, 60);
    FileHeaderField(b, 11, 60, 62);
    FileHeaderField(b, 12, 62, 64);
  }

  /** Whatever is read from a file fits the fields it was read from. */
  lemma ParsedHeaderFits(b: seq<byte>)
    requires ParseFileHeader(b).Some?
    ensures Fits(ParseFileHeader(b).value.Values(), FILE_HEADER_WIDTHS)
  {
  }

  // ----- section headers -----

  const SHT_NULL := 0
  const SHT_PROGBITS := 1
  const SHT_STRTAB := 3
  const SHT_NOBITS := 8
  const SECTION_HEADER_SIZE := 64

  /** Name, type; flags, address, offset, size; link, info; alignment, entry size. */
  const SECTION_HEADER_WIDTHS: seq<nat> := Repeat(4, 2) + Repeat(8, 4) + Repeat(4, 2) + Repeat(8, 2)

  datatype SectionHeader = SectionHeader(
    shName: nat, shType: nat, shFlags: nat, shAddr: nat, shOffset: nat, shSize: nat,
    shLink: nat, shInfo: nat, shAddralign: nat, shEntsize: nat)
  {
    function Values(): seq<nat> {
      [shName, shType, shFlags, shAddr, shOffset, shSize, shLink, shInfo, shAddralign, shEntsize]
    }
  }

  const NULL_SECTION := SectionHeader(0, SHT_NULL, 0, 0, 0, 0, 0, 0, 0, 0)

  lemma SectionHeaderWidths()
    ensures |SECTION_HEADER_WIDTHS| == 10 && Size(SECTION_HEADER_WIDTHS) == SECTION_HEADER_SIZE
  {
    var w2 := Repeat(4, 2) + Repeat(8, 4);
    SizeAppend(Repeat(4, 2), Repeat(8, 4));
    SizeAppend(w2, Repeat(4, 2));
    SizeAppend(w2 + Repeat(4, 2), Repeat(8, 2));
    SizeRepeat(4, 2);
    SizeRepeat(8, 4);
    SizeRepeat(8, 2);
  }

  function EncodeSectionHeader(e: Endianness, s: SectionHeader): (b: seq<byte>)
    ensures |b| == SECTION_HEADER_SIZE
  {
    SectionHeaderWidths();
    EncodeFields(e, s.Values(), SECTION_HEADER_WIDTHS)
  }

  function SectionHeaderOf(v: seq<nat>): SectionHeader
    requires |v| == 10
  {
    SectionHeader(v[0], v[1], v[2], v[3], v[4], v[5], v[6], v[7], v[8], v[9])
  }

  function DecodeSectionHeader(e: Endianness, b: seq<byte>): SectionHeader
    requires |b| == SECTION_HEADER_SIZE
  {
    SectionHeaderWidths();
    SectionHeaderOf(DecodeFields(e, b, SECTION_HEADER_WIDTHS))
  }

  lemma {:induction false} SectionHeaderRoundTrip(e: Endianness, s: SectionHeader)
    requires Fits(s.Values(), SECTION_HEADER_WIDTHS)
    ensures DecodeSectionHeader(e, EncodeSectionHeader(e, s)) == s
  {
    SectionHeaderWidths();
    DecodeEncodeFields(e, s.Values(), SECTION_HEADER_WIDTHS);
  }

  /** Where field `k` of a section header begins. */
  function SectionOffset(k: nat): nat {
    if k <= 2 then 4 * k else if k <= 6 then 8 * k - 8 else if k <= 8 then 4 * k + 16 else 8 * k - 16
  }

  lemma SectionOffsetIsSum(k: nat)
    requires k <= 10
    ensures Size(SECTION_HEADER_WIDTHS[..k]) == SectionOffset(k)
    decreases k
  {
    if k > 0 {
      SectionOffsetIsSum(k - 1);
      SizeStep(SECTION_HEADER_WIDTHS, k - 1);
    }
  }

  lemma SectionHeaderField(e: Endianness, b: seq<byte>, k: nat, lo: nat, hi: nat)
    requires |b| == SECTION_HEADER_SIZE && k < 10 && lo == SectionOffset(k) && hi == SectionOffset(k + 1)
    ensures lo <= hi <= 64 && DecodeSectionHeader(e, b).Values()[k] == FromBytes(e, b[lo..hi])
  {
    SectionHeaderWidths();
    SectionOffsetIsSum(k);
    SizeStep(SECTION_HEADER_WIDTHS, k);
    SectionOffsetIsSum(k + 1);
    FieldAt(e, b, SECTION_HEADER_WIDTHS, k, lo, hi);
    SectionValuesOf(DecodeFields(e, b, SECTION_HEADER_WIDTHS));
  }

  lemma SectionValuesOf(v: seq<nat>)
    requires |v| == 10
    ensures SectionHeaderOf(v).Values() == v
  {
  }

  lemma {:induction false} SectionHeaderOffsets(e: Endianness, b: seq<byte>)
    requires |b| == 64
    ensures
      var s := DecodeSectionHeader(e, b);
      && s.shName == FromBytes(e, b[0..4]) && s.shType == FromBytes(e, b[4..8])
      && s.shFlags == FromBytes(e, b[8..16]) && s.shAddr == FromBytes(e, b[16..24])
      && s.shOffset == FromBytes(e, b[24..32]) && s.shSize == FromBytes(e, b[32..40])
      && s.shLink == FromBytes(e, b[40..44]) && s.shInfo == FromBytes(e, b[44..48])
      && s.shAddralign == FromBytes(e, b[48..56]) && s.shEntsize == FromBytes(e, b[56..64])
  {
    SectionHeaderField(e, b, 0, 0, 4);
    SectionHeaderField(e, b, 1, 4, 8);
    SectionHeaderField(e, b, 2, 8, 16);
    SectionHeaderField(e, b, 3, 16, 24);
    SectionHeaderField(e, b, 4, 24, 32);
    SectionHeaderField(e, b, 5, 32, 40);
    SectionHeaderField(e, b, 6, 40, 44);
    SectionHeaderField(e, b, 7, 44, 48);
    SectionHeaderField(e, b, 8, 48, 56);
    SectionHeaderField(e, b, 9, 56, 64);
  }

  // ----- string tables -----

  /** The string `s` and its terminating zero stand at offset `o`. */
  predicate StringAt(table: seq<byte>, o: nat, s: seq<byte>) {
    && o + |s| < |table|
    && table[o..o + |s|] == s
    && table[o + |s|] == 0
  }

  /** The bytes from offset `o` up to the next zero, if there is one. */
  function StringFrom(table: seq<byte>, o: nat): Option<seq<byte>>
    decreases |table| - o
  {
    if o >= |table| then None
    else if table[o] == 0 then Some([])
    else
      match StringFrom(table, o + 1)
      case Some(s) => Some([table[o]] + s)
      case None => None
  }

  /** What a zero-terminated string shows of `s`. */
  function UpToZero(s: seq<byte>): seq<byte> {
    if s == [] || s[0] == 0 then [] else [s[0]] + UpToZero(s[1..])
  }

  lemma {:induction false} NoZeroShown(s: seq<byte>)
    ensures 0 !in UpToZero(s) && (0 !in s <==> UpToZero(s) == s)
    decreases |s|
  {
    if s != [] && s[0] != 0 {
      NoZeroShown(s[1..]);
      assert s == [s[0]] + s[1..];
    }
  }

  lemma {:induction false} StringFromFinds(table: seq<byte>, o: nat, s: seq<byte>)
    requires StringAt(table, o, s)
    ensures StringFrom(table, o) == Some(UpToZero(s))
    decreases |s|
  {
    if s != [] {
      assert table[o] == table[o..o + |s|][0] == s[0];
      assert table[o + 1..o + 1 + |s[1..]|] == s[1..];
      StringFromFinds(table, o + 1, s[1..]);
    }
  }

  /** A string is read exactly where it stands, ends in a zero byte and holds none. */
  lemma {:induction false} StringFromIff(table: seq<byte>, o: nat, s: seq<byte>)
    ensures StringFrom(table, o) == Some(s) <==> StringAt(table, o, s) && 0 !in s
    decreases |table| - o
  {
    if StringAt(table, o, s) && 0 !in s {
      StringFromFinds(table, o, s);
      NoZeroShown(s);
    }
    if StringFrom(table, o) == Some(s) && s != [] {
      StringFromIff(table, o + 1, s[1..]);
      StringAtCons(table, o, s);
    }
  }

  lemma StringAtCons(table: seq<byte>, o: nat, s: seq<byte>)
    requires s != [] && StringAt(table, o + 1, s[1..]) && table[o] == s[0]
    ensures StringAt(table, o, s)
  {
    assert table[o..o + |s|] == [table[o]] + table[o + 1..o + 1 + |s[1..]|];
  }

  lemma {:induction false} StringFromNoZero(table: seq<byte>, o: nat)
    ensures StringFrom(table, o).Some? ==> 0 !in StringFrom(table, o).value
    decreases |table| - o
  {
    if o < |table| && table[o] != 0 {
      StringFromNoZero(table, o + 1);
    }
  }

  // ----- reading -----

  function DecodeSections(e: Endianness, b: seq<byte>, offset: nat, count: nat): (sections: seq<SectionHeader>)
    requires offset + count * SECTION_HEADER_SIZE <= |b|
    ensures |sections| == count
    decreases count
  {
    if count == 0 then []
    else
      [DecodeSectionHeader(e, b[offset..offset + SECTION_HEADER_SIZE])]
      + DecodeSections(e, b, offset + SECTION_HEADER_SIZE, count - 1)
  }

  /** The section header table a file header points to. */
  function ParseSections(b: seq<byte>, h: FileHeader): Option<seq<SectionHeader>> {
    if h.eShoff == 0 then Some([])
    else if h.eShentsize != SECTION_HEADER_SIZE || h.eShoff + h.eShnum * SECTION_HEADER_SIZE > |b| then None
    else Some(DecodeSections(h.endian, b, h.eShoff, h.eShnum))
  }

  function SectionData(b: seq<byte>, s: SectionHeader): Option<seq<byte>> {
    if s.shType == SHT_NOBITS then Some([])
    else if s.shOffset + s.shSize > |b| then None
    else Some(b[s.shOffset..s.shOffset + s.shSize])
  }

  /** The section name string table; index 0 means there is none. */
  function SectionNames(b: seq<byte>, h: FileHeader, sections: seq<SectionHeader>): Option<seq<byte>> {
    if h.eShstrndx == 0 then Some([])
    else if h.eShstrndx >= |sections| || sections[h.eShstrndx].shType != SHT_STRTAB then None
    else SectionData(b, sections[h.eShstrndx])
  }

  /** The first section of that name. Index 0 is reserved and is not a section. */
  function FindSection(sections: seq<SectionHeader>, names: seq<byte>, name: seq<byte>, i: nat): Option<SectionHeader>
    requires i <= |sections|
    decreases |sections| - i
  {
    if i == |sections| then None
    else if i > 0 && StringFrom(names, sections[i].shName) == Some(name) then Some(sections[i])
    else FindSection(sections, names, name, i + 1)
  }

  function SectionByName(b: seq<byte>, name: seq<byte>): Option<SectionHeader> {
    match ParseFileHeader(b)
    case None => None
    case Some(h) =>
      match ParseSections(b, h)
      case None => None
      case Some(sections) =>
        match SectionNames(b, h, sections)
        case None => None
        case Some(names) => FindSection(sections, names, name, 0)
  }

  /** A name that holds a zero byte is never found, in whatever file. */
  lemma {:induction false} ZeroNotFound(
    sections: seq<SectionHeader>, names: seq<byte>, name: seq<byte>, i: nat)
    requires i <= |sections| && 0 in name
    ensures FindSection(sections, names, name, i) == None
    decreases |sections| - i
  {
    if i < |sections| {
      StringFromNoZero(names, sections[i].shName);
      ZeroNotFound(sections, names, name, i + 1);
    }
  }

  lemma {:induction false} ZeroNameNeverFound(b: seq<byte>, name: seq<byte>)
    requires 0 in name
    ensures SectionByName(b, name) == None
  {
    var h := ParseFileHeader(b);
    if h.Some? && ParseSections(b, h.value).Some? {
      var sections := ParseSections(b, h.value).value;
      var names := SectionNames(b, h.value, sections);
      if names.Some? {
        ZeroNotFound(sections, names.value, name, 0);
      }
    }
  }

  // ----- what is read from any file -----

  predicate SectionIs(e: Endianness, b: seq<byte>, o: nat, s: SectionHeader) {
    o + 64 <= |b| && s == DecodeSectionHeader(e, b[o..o + 64])
  }

  lemma SectionsStep(e: Endianness, b: seq<byte>, offset: nat, count: nat)
    requires offset + count * SECTION_HEADER_SIZE <= |b| && count > 0
    ensures SectionIs(e, b, offset, DecodeSections(e, b, offset, count)[0])
    ensures DecodeSections(e, b, offset, count)[1..] == DecodeSections(e, b, offset + SECTION_HEADER_SIZE, count - 1)
  {
    var first, rest := DecodeSectionHeader(e, b[offset..offset + 64]), DecodeSections(e, b, offset + 64, count - 1);
    assert DecodeSections(e, b, offset, count) == [first] + rest;
  }

  /** `sections` are the consecutive pieces from offset `o` on. */
  ghost predicate Pieces(e: Endianness, b: seq<byte>, o: nat, sections: seq<SectionHeader>) {
    forall i :: 0 <= i < |sections| ==> SectionIs(e, b, o + 64 * i, sections[i])
  }

  lemma PiecesStep(e: Endianness, b: seq<byte>, o: nat, sections: seq<SectionHeader>)
    requires sections != [] && SectionIs(e, b, o, sections[0]) && Pieces(e, b, o + 64, sections[1..])
    ensures Pieces(e, b, o, sections)
  {
    var rest := sections[1..];
    forall i | 0 < i < |sections| ensures SectionIs(e, b, o + 64 * i, sections[i]) {
      PieceAgain(e, b, o, i, rest, sections[i]);
    }
    assert o + 64 * 0 == o;
  }

  lemma PieceAgain(e: Endianness, b: seq<byte>, o: nat, i: nat, rest: seq<SectionHeader>, s: SectionHeader)
    requires 0 < i <= |rest| && Pieces(e, b, o + 64, rest) && rest[i - 1] == s
    ensures SectionIs(e, b, o + 64 * i, s)
  {
    assert SectionIs(e, b, o + 64 + 64 * (i - 1), rest[i - 1]);
    assert o + 64 + 64 * (i - 1) == o + 64 * i;
  }

  lemma {:induction false} DecodedPieces(e: Endianness, b: seq<byte>, offset: nat, count: nat)
    requires offset + count * SECTION_HEADER_SIZE <= |b|
    ensures Pieces(e, b, offset, DecodeSections(e, b, offset, count))
    decreases count
  {
    if count > 0 {
      SectionsStep(e, b, offset, count);
      DecodedPieces(e, b, offset + SECTION_HEADER_SIZE, count - 1);
      PiecesStep(e, b, offset, DecodeSections(e, b, offset, count));
    }
  }

  /** The section headers are the 64-byte pieces from the recorded offset on; no offset means no sections. */
  lemma {:induction false} SectionTable(b: seq<byte>, h: FileHeader)
    ensures h.eShoff == 0 ==> ParseSections(b, h) == Some([])
    ensures h.eShoff != 0 ==>
              (ParseSections(b, h).Some? <==> h.eShentsize == 64 && h.eShoff + 64 * h.eShnum <= |b|)
    ensures h.eShoff != 0 && ParseSections(b, h).Some? ==>
              var sections := ParseSections(b, h).value;
              |sections| == h.eShnum && Pieces(h.endian, b, h.eShoff, sections)
  {
    if h.eShoff != 0 && ParseSections(b, h).Some? {
      DecodedPieces(h.endian, b, h.eShoff, h.eShnum);
    }
  }

  predicate Named(sections: seq<SectionHeader>, names: seq<byte>, name: seq<byte>, i: nat) {
    0 < i < |sections| && StringFrom(names, sections[i].shName) == Some(name)
  }

  /** A lookup gives the first section of the name, not counting the one at index 0. */
  lemma {:induction false} FirstSection(
    sections: seq<SectionHeader>, names: seq<byte>, name: seq<byte>, start: nat)
    requires start <= |sections|
    ensures
      var r := FindSection(sections, names, name, start);
      && (r == None <==> forall i: nat :: start <= i ==> !Named(sections, names, name, i))
      && (r.Some? ==>
            exists i: nat :: start <= i && Named(sections, names, name, i) && r.value == sections[i]
                             && forall j: nat :: start <= j < i ==> !Named(sections, names, name, j))
    decreases |sections| - start
  {
    if start < |sections| && !Named(sections, names, name, start) {
      FirstSection(sections, names, name, start + 1);
      var r := FindSection(sections, names, name, start + 1);
      if r.Some? {
        var i: nat :| start + 1 <= i && Named(sections, names, name, i) && r.value == sections[i]
                      && forall j: nat :: start + 1 <= j < i ==> !Named(sections, names, name, j);
        assert !Named(sections, names, name, start);
      }
    }
  }

  /** The names come from the string table, a section of type 3, whose index is recorded in the file header. */
  lemma {:induction false} NamesTable(b: seq<byte>, h: FileHeader, sections: seq<SectionHeader>)
    ensures h.eShstrndx == 0 ==> SectionNames(b, h, sections) == Some([])
    ensures h.eShstrndx != 0 ==>
              SectionNames(b, h, sections) ==
              if h.eShstrndx < |sections| && sections[h.eShstrndx].shType == 3 then
                var s := sections[h.eShstrndx];
                if s.shOffset + s.shSize <= |b| then Some(b[s.shOffset..][..s.shSize]) else None
              else None
  {
    if 0 < h.eShstrndx < |sections| {
      var s := sections[h.eShstrndx];
      if s.shOffset + s.shSize <= |b| {
        assert b[s.shOffset..][..s.shSize] == b[s.shOffset..s.shOffset + s.shSize];
      }
    }
  }
}
