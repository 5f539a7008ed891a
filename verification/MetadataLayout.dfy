/**
 The metadata object byte by byte: what stands where in the file that is written, and what is read
 from a file, whoever wrote it.
 */
module MetadataLayout {
  import opened Wrappers
  import opened Bytes
  import opened Elf
  import opened ElfWriter
  import opened KernelMetadata

  // ----- what is written -----

  /**
   The three sections of the object: the unused one at index 0, the metadata as program data behind
   the file header, and the string table behind the payload.
   */
  lemma {:induction false} ObjectSections(main: FileHeader, section: seq<byte>, version: nat, data: seq<byte>)
    requires Fits(main.Values(), Elf.FILE_HEADER_WIDTHS) && Representable(section, |data|)
    ensures
      var b := MetadataObject(main, section, version, data);
      && ParseFileHeader(b).Some? && ParseSections(b, ParseFileHeader(b).value).Some?
      && var sections := ParseSections(b, ParseFileHeader(b).value).value;
         && |sections| == 3
         && sections[0] == SectionHeader(0, 0, 0, 0, 0, 0, 0, 0, 0, 0)
         && sections[1] == SectionHeader(sections[1].shName, 1, 0, 0, 64, |data| + 8, 0, 0, 8, 0)
         && sections[2] == SectionHeader(sections[2].shName, 3, 0, 0, 72 + |data|, sections[2].shSize, 0, 0, 1, 0)
  {
    NamesHold(section);
    ImageParses(main, NamesFor(section), section, version, data);
  }

  /** The file header: everything that is not taken over from the main file. */
  lemma {:induction false} ObjectHeader(main: FileHeader, section: seq<byte>, version: nat, data: seq<byte>)
    requires Fits(main.Values(), Elf.FILE_HEADER_WIDTHS) && Representable(section, |data|)
    ensures
      var b := MetadataObject(main, section, version, data);
      && ParseFileHeader(b).Some? && |b| >= 64 && b[9..16] == [0, 0, 0, 0, 0, 0, 0]
      && var h := ParseFileHeader(b).value;
         && h.eVersion == 1 && h.eEntry == 0 && h.ePhoff == 0 && h.eEhsize == 64
         && h.ePhentsize == 0 && h.ePhnum == 0 && h.eShentsize == 64 && h.eShnum == 3 && h.eShstrndx == 2
         && h.eShoff % 8 == 0 && |b| == h.eShoff + 192
  {
    NamesHold(section);
    ImageParses(main, NamesFor(section), section, version, data);
    ImageLayout(main, NamesFor(section), version, data);
    ImageIsLaid(main, NamesFor(section), version, data);
    var names := NamesFor(section);
    var h := ImageHeader(main, names, |data|);
    var _ := Parts(EncodeFileHeader(h), ToBytes(main.endian, version, VERSION_SIZE), data, names.table.data,
                   Padding(names, |data|), ImageSections(main, names, |data|));
    IdentPadding(h, MetadataObject(main, section, version, data));
  }

  lemma IdentPadding(h: FileHeader, b: seq<byte>)
    requires EncodeFileHeader(h) <= b
    ensures |b| >= 64 && b[9..16] == [0, 0, 0, 0, 0, 0, 0]
  {
    var id := EncodeIdent(h.endian, h.osAbi, h.abiVersion);
    assert id[9..16] == [0, 0, 0, 0, 0, 0, 0];
    assert EncodeFileHeader(h)[..16] == id;
    PrefixWindow(id, EncodeFileHeader(h), b);
  }

  lemma PrefixWindow(a: seq<byte>, whole: seq<byte>, b: seq<byte>)
    requires |a| == 16 <= |whole| && whole[..16] == a && whole <= b
    ensures b[9..16] == a[9..16]
  {
    assert b[..16] == a;
    Window(b, 0, 16, 9, 16);
  }

  /** Version and payload follow the file header, the string table follows them, and the rest is padding. */
  lemma {:induction false} ObjectContents(main: FileHeader, section: seq<byte>, version: nat, data: seq<byte>)
    returns (h: FileHeader, sections: seq<SectionHeader>)
    requires Fits(main.Values(), Elf.FILE_HEADER_WIDTHS) && Representable(section, |data|)
    requires version < 0x1_0000_0000_0000_0000
    ensures
      var b := MetadataObject(main, section, version, data);
      && ParseFileHeader(b) == Some(h) && ParseSections(b, h) == Some(sections) && |sections| == 3
      && 72 + |data| + sections[2].shSize <= h.eShoff < 80 + |data| + sections[2].shSize && h.eShoff <= |b|
      && FromBytes(main.endian, b[64..72]) == version && b[72..72 + |data|] == data
      && forall i :: 72 + |data| + sections[2].shSize <= i < h.eShoff ==> b[i] == 0
  {
    var names := NamesFor(section);
    NamesHold(section);
    Powers();
    ImageParses(main, names, section, version, data);
    h := ImageHeader(main, names, |data|);
    sections := [NULL_SECTION, MetadataHeader(names, |data|), NamesHeader(names, |data|)];
    ImageLayout(main, names, version, data);
    assert MetadataObject(main, section, version, data)[72..72 + |data|] == data by {
      ImageSlices(main, names, version, data);
    }
    VersionBytes(main, names, version, data);
    PaddingBytes(main, names, version, data);
  }

  /** The `size` bytes at offset `o` are a string table with this name at position `at`. */
  predicate TableShows(b: seq<byte>, o: nat, size: nat, at: nat, name: seq<byte>) {
    o + size <= |b| && StringFrom(b[o..o + size], at) == Some(name)
  }

  /** The string table holds the name of the section, up to a zero byte in it, and its own, `.shstrtab`. */
  lemma {:induction false} ObjectNames(main: FileHeader, section: seq<byte>, version: nat, data: seq<byte>)
    returns (h: FileHeader, sections: seq<SectionHeader>)
    requires Fits(main.Values(), Elf.FILE_HEADER_WIDTHS) && Representable(section, |data|)
    ensures
      var b := MetadataObject(main, section, version, data);
      && ParseFileHeader(b) == Some(h) && ParseSections(b, h) == Some(sections) && |sections| == 3
      && TableShows(b, 72 + |data|, sections[2].shSize, sections[1].shName, UpToZero(section))
      && TableShows(b, 72 + |data|, sections[2].shSize, sections[2].shName,
                    [0x2E, 0x73, 0x68, 0x73, 0x74, 0x72, 0x74, 0x61, 0x62])
  {
    var names := NamesFor(section);
    NamesHold(section);
    ImageParses(main, names, section, version, data);
    h := ImageHeader(main, names, |data|);
    sections := [NULL_SECTION, MetadataHeader(names, |data|), NamesHeader(names, |data|)];
    NamesShown(main, names, section, version, data);
  }

  lemma NamesShown(main: FileHeader, names: Names, section: seq<byte>, version: nat, data: seq<byte>)
    requires Holds(names, section)
    ensures
      var b, n := Image(main, names, version, data), |data|;
      && TableShows(b, 72 + n, NamesHeader(names, n).shSize, MetadataHeader(names, n).shName, UpToZero(section))
      && TableShows(b, 72 + n, NamesHeader(names, n).shSize, NamesHeader(names, n).shName,
                    [0x2E, 0x73, 0x68, 0x73, 0x74, 0x72, 0x74, 0x61, 0x62])
  {
    TableBytes(main, names, version, data);
  }

  lemma TableBytes(main: FileHeader, names: Names, version: nat, data: seq<byte>)
    requires names.Valid()
    ensures
      var b, size := Image(main, names, version, data), NamesHeader(names, |data|).shSize;
      72 + |data| + size <= |b| && b[72 + |data|..72 + |data| + size] == names.table.data
  {
    ImageSlices(main, names, version, data);
    Standing(Image(main, names, version, data), 72 + |data|, names.table.data);
  }

  lemma Standing(b: seq<byte>, o: nat, x: seq<byte>)
    requires At(b, o, x)
    ensures o + |x| <= |b| && b[o..o + |x|] == x
  {
  }

  lemma VersionBytes(main: FileHeader, names: Names, version: nat, data: seq<byte>)
    requires names.Valid() && version < Pow256(VERSION_SIZE)
    ensures 72 <= |Image(main, names, version, data)|
    ensures FromBytes(main.endian, Image(main, names, version, data)[64..72]) == version
  {
    var v := ToBytes(main.endian, version, VERSION_SIZE);
    ImageSlices(main, names, version, data);
    FromToBytes(main.endian, version, VERSION_SIZE);
    var b := Image(main, names, version, data);
    assert b[64..72] == b[64..64 + |v + data|][..8] == v;
  }

  lemma PaddingBytes(main: FileHeader, names: Names, version: nat, data: seq<byte>)
    requires names.Valid()
    ensures
      var b := Image(main, names, version, data);
      && HeadersOffset(names, |data|) <= |b|
      && forall i :: TableOffset(|data|) + |names.table.data| <= i < HeadersOffset(names, |data|) ==> b[i] == 0
  {
    var before := EncodeFileHeader(ImageHeader(main, names, |data|))
                  + ToBytes(main.endian, version, VERSION_SIZE) + data + names.table.data;
    assert ImageBody(main, names, version, data) == before + Padding(names, |data|);
    assert |before| == TableOffset(|data|) + |names.table.data|;
    ZerosInside(before, Padding(names, |data|), ImageSections(main, names, |data|));
  }

  lemma ZerosInside(before: seq<byte>, zeros: seq<byte>, after: seq<byte>)
    requires forall i :: 0 <= i < |zeros| ==> zeros[i] == 0
    ensures forall i :: |before| <= i < |before| + |zeros| ==> (before + zeros + after)[i] == 0
  {
  }

  // ----- the string table -----

  lemma {:induction false} LongerFirst(a: seq<byte>, b: seq<byte>)
    requires EndsWith(a, b) && |b| < |a|
    ensures Precedes(a, b) && !Precedes(b, a)
    decreases |b|
  {
    if b != [] {
      assert a[|a| - 1] == a[|a| - |b|..][|b| - 1];
      assert a[..|a| - 1][|a| - |b|..] == a[|a| - |b|..][..|b| - 1];
      LongerFirst(a[..|a| - 1], b[..|b| - 1]);
    }
  }

  lemma OneName(s: seq<byte>)
    ensures |BuildTable([s]).data| == if s == [] then 1 else |s| + 2
  {
    assert WriteOrder([s], 0) == [] && WriteOrder([s], 1) == [0];
    EndsWithItself([0]);
    assert Place([s], [0], Table([0], seq(1, _ => 0)), []) ==
           Place([s], [0][1..], PlaceOne([s], 0, Table([0], seq(1, _ => 0)), []), Latest(s, []));
  }

  lemma OrderOfTwo(strings: seq<seq<byte>>)
    requires |strings| == 2
    ensures WriteOrder(strings, 2) == if Precedes(strings[1], strings[0]) then [1, 0] else [0, 1]
  {
    assert WriteOrder(strings, 0) == [];
    assert Insert(strings, [], 0) == [0] && WriteOrder(strings, 1) == [0];
    assert [0][1..] == [] && Insert(strings, [], 1) == [1];
    assert WriteOrder(strings, 2) == Insert(strings, [0], 1);
    assert [1] + [0] == [1, 0] && [0] + [1] == [0, 1];
  }

  lemma PlaceTwo(strings: seq<seq<byte>>, i: nat, j: nat)
    requires i < |strings| && j < |strings| && strings[i] != []
    ensures
      var empty := Table([0], seq(|strings|, _ => 0));
      && EndsWith(empty.data, [] + [0])
      && |Place(strings, [i, j], empty, []).data| ==
         if EndsWith(strings[i], strings[j]) then |strings[i]| + 2 else |strings[i]| + |strings[j]| + 3
  {
    var empty := Table([0], seq(|strings|, _ => 0));
    EndsWithItself([0]);
    var one := PlaceOne(strings, i, empty, []);
    assert Latest(strings[i], []) == strings[i];
    var two := PlaceOne(strings, j, one, strings[i]);
    assert [i, j][1..] == [j] && [j][1..] == [];
    assert Place(strings, [j], one, strings[i]) == Place(strings, [], two, Latest(strings[j], strings[i])) == two;
  }

  lemma TableOfTwo(strings: seq<seq<byte>>, i: nat, j: nat)
    requires |strings| == 2 && i < 2 && j < 2 && strings[i] != [] && WriteOrder(strings, 2) == [i, j]
    ensures |BuildTable(strings).data| ==
              if EndsWith(strings[i], strings[j]) then |strings[i]| + 2 else |strings[i]| + |strings[j]| + 3
  {
    PlaceTwo(strings, i, j);
  }

  lemma TwoNames(strings: seq<seq<byte>>)
    requires |strings| == 2 && strings[0] != strings[1] && strings[1] != []
    ensures
      var first := if Precedes(strings[1], strings[0]) then strings[1] else strings[0];
      var second := if Precedes(strings[1], strings[0]) then strings[0] else strings[1];
      |BuildTable(strings).data| == if EndsWith(first, second) then |first| + 2 else |first| + |second| + 3
  {
    OrderOfTwo(strings);
    if Precedes(strings[1], strings[0]) {
      TableOfTwo(strings, 1, 0);
    } else {
      TableOfTwo(strings, 0, 1);
    }
  }

  /** A name that ends the other one takes no room of its own. */
  lemma {:induction false} NamesShare(section: seq<byte>)
    ensures |NamesFor(section).table.data| ==
              if EndsWith(SHSTRTAB, section) then 11
              else if EndsWith(section, SHSTRTAB) then |section| + 2
              else |section| + 12
  {
    if section == SHSTRTAB {
      OneName(section);
    } else {
      TwoNames([section, SHSTRTAB]);
      if EndsWith(SHSTRTAB, section) {
        LongerFirst(SHSTRTAB, section);
      } else if EndsWith(section, SHSTRTAB) {
        LongerFirst(section, SHSTRTAB);
      }
    }
  }

  // ----- what is read -----

  /**
   Reading takes the first section of the name. It has to hold data, inside the file and of at least
   8 bytes, of which the first 8 are the version, read as little-endian; what is left is the payload.
   */
  lemma {:induction false} ReadFirst(
    b: seq<byte>, name: seq<byte>, version: nat,
    h: FileHeader, sections: seq<SectionHeader>, names: seq<byte>, i: nat)
    requires ParseFileHeader(b) == Some(h) && ParseSections(b, h) == Some(sections)
    requires SectionNames(b, h, sections) == Some(names) && Named(sections, names, name, i)
    requires forall j: nat :: j < i ==> !Named(sections, names, name, j)
    ensures
      var s := sections[i];
      ReadObject(b, name, version) ==
      if s.shType != 8 && s.shSize >= 8 && s.shOffset + s.shSize <= |b|
         && FromLE(b[s.shOffset..s.shOffset + 8]) == version
      then Some(b[s.shOffset + 8..s.shOffset + s.shSize])
      else None
  {
    FirstSection(sections, names, name, 0);
    var k: nat :| Named(sections, names, name, k) && FindSection(sections, names, name, 0) == Some(sections[k])
                  && forall j: nat :: j < k ==> !Named(sections, names, name, j);
    assert k == i;
    assert SectionByName(b, name) == Some(sections[i]);
    DataRead(b, sections[i], version);
  }

  lemma Halves(b: seq<byte>, o: nat, end: nat)
    requires o + 8 <= end <= |b|
    ensures b[o..end][..8] == b[o..o + 8] && b[o..end][8..] == b[o + 8..end]
  {
    var d := b[o..end];
    Window(b, o, end, o, o + 8);
    Window(b, o, end, o + 8, end);
    assert d[0..8] == d[..8] && d[8..end - o] == d[8..];
  }

  lemma DataRead(b: seq<byte>, s: SectionHeader, version: nat)
    ensures
      var data := SectionData(b, s);
      && (data == None <==> s.shType != 8 && s.shOffset + s.shSize > |b|)
      && (data.Some? ==>
            Unversioned(data.value, version) ==
            if s.shType != 8 && s.shSize >= 8 && FromLE(b[s.shOffset..s.shOffset + 8]) == version
            then Some(b[s.shOffset + 8..s.shOffset + s.shSize])
            else None)
  {
    var end := s.shOffset + s.shSize;
    if s.shType != 8 && s.shSize >= 8 && end <= |b| {
      Halves(b, s.shOffset, end);
    }
  }

  /** Where a header, the section table or the string table is broken or nothing has the name, nothing is read. */
  lemma {:induction false} ReadNothing(b: seq<byte>, name: seq<byte>, version: nat)
    ensures ParseFileHeader(b) == None ==> ReadObject(b, name, version) == None
    ensures ParseFileHeader(b).Some? ==>
              var h := ParseFileHeader(b).value;
              && (ParseSections(b, h) == None ==> ReadObject(b, name, version) == None)
              && (ParseSections(b, h).Some? ==>
                    var sections := ParseSections(b, h).value;
                    && (SectionNames(b, h, sections) == None ==> ReadObject(b, name, version) == None)
                    && (SectionNames(b, h, sections).Some?
                        && (forall i: nat :: !Named(sections, SectionNames(b, h, sections).value, name, i)) ==>
                          ReadObject(b, name, version) == None))
  {
    if ParseFileHeader(b).Some? {
      var h := ParseFileHeader(b).value;
      if ParseSections(b, h).Some? && SectionNames(b, h, ParseSections(b, h).value).Some? {
        FirstSection(ParseSections(b, h).value, SectionNames(b, h, ParseSections(b, h).value).value, name, 0);
      }
    }
  }
}
