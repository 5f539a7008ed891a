/**
 Whole fatbins as bytes in memory: where the wrapper, the list of submodules, a submodule's header
 and its entries stand, byte by byte, and what walking such an image reports and delivers.
 */
module FatbinImages {
  import opened Wrappers
  import opened Seqs
  import opened Bytes
  import opened FatbinLayout
  import opened FatbinFiles
  import opened FatbinContent
  import opened FatbinLibrary
  import opened FatbinTraversal

  // ----- numbers -----

  function U16(v: nat): seq<byte> {
    [v % 0x100, v / 0x100 % 0x100]
  }

  function U32(v: nat): seq<byte> {
    U16(v % 0x1_0000) + U16(v / 0x1_0000)
  }

  function U64(v: nat): seq<byte> {
    U32(v % 0x1_0000_0000) + U32(v / 0x1_0000_0000)
  }

  lemma U16Value(v: nat)
    requires v < 0x1_0000
    ensures FromLE(U16(v)) == v
  {
    ByteOrder(U16(v));
  }

  lemma U32Value(v: nat)
    requires v < 0x1_0000_0000
    ensures FromLE(U32(v)) == v == Quad(U32(v)[0], U32(v)[1], U32(v)[2], U32(v)[3])
  {
    ByteOrder(U32(v));
    U16Value(v % 0x1_0000);
    U16Value(v / 0x1_0000);
  }

  lemma U64Value(v: nat)
    requires v < 0x1_0000_0000_0000_0000
    ensures FromLE(U64(v)) == v
  {
    ByteOrder(U64(v));
    U32Value(v % 0x1_0000_0000);
    U32Value(v / 0x1_0000_0000);
  }

  // ----- a submodule -----

  /** The 16 bytes of a submodule's header stand at `p`, and `files` stand where the header ends. */
  predicate SubmoduleAt(mem: seq<byte>, p: nat, headerSize: nat, files: seq<byte>) {
    && headerSize < 0x1_0000 && |files| < 0x1_0000_0000_0000_0000
    && p + 16 <= |mem| && p + headerSize + |files| <= |mem|
    && mem[p..p + 16] == [0x50, 0xED, 0x55, 0xBA, 0x01, 0x00] + U16(headerSize) + U64(|files|)
    && mem[p + headerSize..p + headerSize + |files|] == files
  }

  lemma HeaderSlices(b: seq<byte>, start: seq<byte>, x: seq<byte>, y: seq<byte>)
    requires |start| == 6 && |x| == 2 && |y| == 8 && b == start + x + y
    ensures b[0..4] == start[..4] && b[4..6] == start[4..] && b[6..8] == x && b[8..16] == y
  {
  }

  lemma HeaderFields(b: seq<byte>, headerSize: nat, size: nat)
    requires headerSize < 0x1_0000 && size < 0x1_0000_0000_0000_0000
    requires b == [0x50, 0xED, 0x55, 0xBA, 0x01, 0x00] + U16(headerSize) + U64(size)
    ensures FromLE(b[0..4]) == 0xBA55ED50 && FromLE(b[4..6]) == 1
    ensures FromLE(b[6..8]) == headerSize && FromLE(b[8..16]) == size
  {
    HeaderSlices(b, [0x50, 0xED, 0x55, 0xBA, 0x01, 0x00], U16(headerSize), U64(size));
    ByteOrder(b[0..4]);
    ByteOrder(b[4..6]);
    U16Value(headerSize);
    U64Value(size);
  }

  lemma SubmoduleFiles(mem: seq<byte>, p: nat, headerSize: nat, files: seq<byte>)
    requires SubmoduleAt(mem, p, headerSize, files)
    ensures FatbinHeaderAt(mem, p) == FatbinHeader.FatbinHeader(0xBA55ED50, 1, headerSize, |files|)
    ensures FilesOf(mem, p) == Slice(p + headerSize, |files|) && Shows(mem, FilesOf(mem, p), files)
  {
    HeaderFields(mem[p..p + 16], headerSize, |files|);
    FatbinHeaderOffsets(mem, p);
  }

  /** A submodule and where it is put. */
  datatype Placed = Placed(address: nat, headerSize: nat, content: Packed)

  /** It is there, its entries are framed, and behind them no other header fits. */
  ghost predicate IsPlaced(mem: seq<byte>, s: Placed) {
    && SubmoduleAt(mem, s.address, s.headerSize, Pack(s.content.entries) + s.content.tail)
    && |s.content.tail| < 64 && forall e <- s.content.entries :: WellFramed(e)
  }

  /** What is reported of entry `n`: the file at its own address, or that its version is another one. */
  function EntryModule(s: Placed, n: nat): Result<CodeModuleRef, FatbinError>
    requires n < |s.content.entries|
  {
    var version := s.content.entries[n].header.version;
    if version == 0x101 then
      Ok(CodeModuleRef.File(FatbinFile(s.address + s.headerSize + |Pack(s.content.entries[..n])|)))
    else
      Err(ParseFailure(UnexpectedBinaryField("FATBIN_FILE_HEADER_VERSION_CURRENT", version, [0x101])))
  }

  lemma PlacedFiles(mem: seq<byte>, s: Placed)
    requires IsPlaced(mem, s)
    ensures SubmoduleReadable(mem, s.address) && |Files(mem, s.address)| == |s.content.entries|
    ensures Packs(mem, FilesOf(mem, s.address), s.content.entries, s.content.tail)
    ensures Files(mem, s.address) == PackedItems(s.content.entries, s.address + s.headerSize)
  {
    var files := Pack(s.content.entries) + s.content.tail;
    SubmoduleFiles(mem, s.address, s.headerSize, files);
    PackedYield(mem, FilesOf(mem, s.address), s.content.entries, s.content.tail);
  }

  lemma PlacedFileAt(mem: seq<byte>, s: Placed, n: nat)
    requires IsPlaced(mem, s) && n < |s.content.entries|
    ensures SubmoduleReadable(mem, s.address) && n < |Files(mem, s.address)|
    ensures ToModule(Files(mem, s.address)[n]) == EntryModule(s, n)
  {
    PlacedFiles(mem, s);
    PackedItemAt(s.content.entries, s.address + s.headerSize, n);
    PositionIsSum(s.content.entries, s.address + s.headerSize, n);
  }

  /** Walking a bare submodule reports its entries in order, each under its number, and nothing else. */
  lemma {:induction false} SubmoduleWalk(mem: seq<byte>, s: Placed, n: nat)
    requires IsPlaced(mem, s)
    ensures LibraryReadable(mem, CodeLibraryRef.FatbinHeader(s.address))
    ensures
      var events := Events(mem, CodeLibraryRef.FatbinHeader(s.address));
      && |events| == |s.content.entries|
      && (n < |events| ==> events[n] == Event(Some((n, None)), EntryModule(s, n)))
  {
    PlacedFiles(mem, s);
    if n < |s.content.entries| {
      PlacedFileAt(mem, s, n);
    }
  }

  ghost predicate AllDeliver(c: Codecs, utf8: seq<byte> -> bool, p: Packed) {
    && |p.texts| == |p.entries|
    && forall i {:trigger p.entries[i]} :: 0 <= i < |p.entries| ==>
         WellFramed(p.entries[i]) && Delivers(c, utf8, p.entries[i], p.texts[i])
  }

  lemma PlacedHolds(mem: seq<byte>, c: Codecs, utf8: seq<byte> -> bool, s: Placed)
    requires IsPlaced(mem, s) && AllDeliver(c, utf8, s.content)
    ensures s.address + 16 <= |mem| && Holds(mem, c, utf8, FilesOf(mem, s.address), s.content)
  {
    PlacedFiles(mem, s);
  }

  /** And its texts are those its entries deliver. */
  lemma {:induction false} SubmoduleTexts(mem: seq<byte>, c: Codecs, utf8: seq<byte> -> bool, s: Placed)
    requires IsPlaced(mem, s) && AllDeliver(c, utf8, s.content)
    ensures LibraryReadable(mem, CodeLibraryRef.FatbinHeader(s.address))
    ensures
      var events := Events(mem, CodeLibraryRef.FatbinHeader(s.address));
      (forall e <- events :: EventReadable(mem, e)) && PtxOfEvents(mem, c, utf8, events) == Present(s.content.texts)
  {
    PlacedFiles(mem, s);
    PlacedHolds(mem, c, utf8, s);
    SubmoduleDelivers(mem, c, utf8, FilesOf(mem, s.address), s.content);
    EventsAreItems(mem, c, utf8, Events(mem, CodeLibraryRef.FatbinHeader(s.address)), Files(mem, s.address));
  }

  // ----- a wrapper -----

  /** The 24 bytes of a wrapper stand at `w`. */
  predicate WrapperBytes(mem: seq<byte>, w: nat, version: nat, data: nat, list: nat) {
    && version < 0x1_0000_0000 && data < 0x1_0000_0000_0000_0000 && list < 0x1_0000_0000_0000_0000
    && w + 24 <= |mem|
    && mem[w..w + 24] == [0xB1, 0x43, 0x62, 0x46] + U32(version) + U64(data) + U64(list)
  }

  lemma WrapperFields(mem: seq<byte>, w: nat, version: nat, data: nat, list: nat)
    requires WrapperBytes(mem, w, version, data, list)
    ensures WrapperAt(mem, w) == FatbincWrapper.FatbincWrapper(0x466243B1, version, data, list)
  {
    var b := mem[w..w + 24];
    ByteOrder(b[0..4]);
    assert b[4..8] == U32(version) && b[8..16] == U64(data) && b[16..24] == U64(list);
    U32Value(version);
    U64Value(data);
    U64Value(list);
    WrapperOffsets(mem, w);
  }

  /** A wrapper of version 1 leads to one submodule, which is numbered 0. */
  lemma {:induction false} SingleWalk(mem: seq<byte>, w: nat, list: nat, s: Placed, n: nat)
    requires WrapperBytes(mem, w, 1, s.address, list) && s.address != 0 && IsPlaced(mem, s)
    ensures LibraryReadable(mem, CodeLibraryRef.FatbincWrapper(w))
    ensures
      var events := Events(mem, CodeLibraryRef.FatbincWrapper(w));
      && |events| == |s.content.entries|
      && (n < |events| ==> events[n] == Event(Some((0, Some(n))), EntryModule(s, n)))
  {
    SingleSubmodule(mem, w, list, s);
    PlacedFiles(mem, s);
    var lists := FileLists(mem, [s.address]);
    assert lists == [lists[0]];
    assert WalkEvents(Some(0), lists) == FileEvents(Some(0), lists[0]) + [];
    if n < |s.content.entries| {
      PlacedFileAt(mem, s, n);
    }
  }

  lemma SingleSubmodule(mem: seq<byte>, w: nat, list: nat, s: Placed)
    requires WrapperBytes(mem, w, 1, s.address, list) && s.address != 0 && IsPlaced(mem, s)
    ensures WrapperReadable(mem, w) && !IsMulti(mem, w) && Submodules(mem, w) == Ok([s.address])
    ensures AllReadable(mem, [s.address])
  {
    WrapperFields(mem, w, 1, s.address, list);
    SubmoduleFiles(mem, s.address, s.headerSize, Pack(s.content.entries) + s.content.tail);
    PlacedFiles(mem, s);
  }

  lemma {:induction false} SingleTexts(
    mem: seq<byte>, c: Codecs, utf8: seq<byte> -> bool, w: nat, list: nat, s: Placed)
    requires WrapperBytes(mem, w, 1, s.address, list) && s.address != 0
    requires IsPlaced(mem, s) && AllDeliver(c, utf8, s.content)
    ensures LibraryReadable(mem, CodeLibraryRef.FatbincWrapper(w))
    ensures
      var events := Events(mem, CodeLibraryRef.FatbincWrapper(w));
      (forall e <- events :: EventReadable(mem, e)) && PtxOfEvents(mem, c, utf8, events) == Present(s.content.texts)
  {
    SingleSubmodule(mem, w, list, s);
    PlacedHolds(mem, c, utf8, s);
    PackedTextsRecovered(mem, c, utf8, w, [s.content]);
    assert [s.content][1..] == [] && Present(s.content.texts) + [] == Present(s.content.texts);
  }

  // ----- several submodules -----

  /** Pointers to the submodules, one after the other, and then a null one. */
  predicate ListAt(mem: seq<byte>, list: nat, ps: seq<nat>) {
    && list + 8 * |ps| + 8 <= |mem|
    && (forall i :: 0 <= i < |ps| ==>
          0 < ps[i] < 0x1_0000_0000_0000_0000 && mem[list + 8 * i..list + 8 * i + 8] == U64(ps[i]))
    && mem[list + 8 * |ps|..list + 8 * |ps| + 8] == [0, 0, 0, 0, 0, 0, 0, 0]
  }

  lemma ListStep(mem: seq<byte>, list: nat, ps: seq<nat>)
    requires ListAt(mem, list, ps) && ps != []
    ensures mem[list..list + 8] == U64(ps[0]) && ListAt(mem, list + 8, ps[1..])
  {
    assert mem[list + 8 * 0..list + 8 * 0 + 8] == U64(ps[0]);
    forall i | 0 <= i < |ps[1..]|
      ensures mem[list + 8 + 8 * i..list + 8 + 8 * i + 8] == U64(ps[1..][i])
    {
      assert mem[list + 8 * (i + 1)..list + 8 * (i + 1) + 8] == U64(ps[i + 1]);
    }
  }

  lemma {:induction false} PointersRead(mem: seq<byte>, list: nat, ps: seq<nat>)
    requires ListAt(mem, list, ps)
    ensures NullTerminated(mem, list) && Pointers(mem, list) == ps
    decreases |ps|
  {
    if ps == [] {
      ByteOrder(mem[list..list + 8]);
    } else {
      ListStep(mem, list, ps);
      U64Value(ps[0]);
      PointersRead(mem, list + 8, ps[1..]);
    }
  }

  function Addresses(subs: seq<Placed>): (ps: seq<nat>)
    ensures |ps| == |subs|
    ensures forall i :: 0 <= i < |subs| ==> ps[i] == subs[i].address
  {
    seq(|subs|, i requires 0 <= i < |subs| => subs[i].address)
  }

  function EntriesBefore(subs: seq<Placed>, a: nat): nat
    requires a <= |subs|
  {
    if a == 0 then 0 else |subs[0].content.entries| + EntriesBefore(subs[1..], a - 1)
  }

  ghost predicate AllPlaced(mem: seq<byte>, subs: seq<Placed>) {
    forall i :: 0 <= i < |subs| ==> IsPlaced(mem, subs[i])
  }

  lemma {:induction false} SeveralSubmodules(mem: seq<byte>, w: nat, data: nat, list: nat, subs: seq<Placed>)
    requires WrapperBytes(mem, w, 2, data, list) && ListAt(mem, list, Addresses(subs)) && AllPlaced(mem, subs)
    ensures WrapperReadable(mem, w) && IsMulti(mem, w) && Submodules(mem, w) == Ok(Addresses(subs))
    ensures AllReadable(mem, Addresses(subs))
  {
    WrapperFields(mem, w, 2, data, list);
    PointersRead(mem, list, Addresses(subs));
    forall i | 0 <= i < |subs| ensures SubmoduleReadable(mem, Addresses(subs)[i]) {
      PlacedFiles(mem, subs[i]);
    }
  }

  lemma {:induction false} SameCounts(lists: seq<seq<Item>>, subs: seq<Placed>, a: nat)
    requires |lists| == |subs| && a <= |subs|
    requires forall i :: 0 <= i < |subs| ==> |lists[i]| == |subs[i].content.entries|
    ensures FilesBefore(lists, a) == EntriesBefore(subs, a)
    decreases a
  {
    if a > 0 {
      SameCounts(lists[1..], subs[1..], a - 1);
    }
  }

  /** A wrapper of version 2: the entries of all submodules in order, numbered from 0 in each of them. */
  lemma {:induction false} SeveralWalk(
    mem: seq<byte>, w: nat, data: nat, list: nat, subs: seq<Placed>, a: nat, n: nat)
    requires WrapperBytes(mem, w, 2, data, list) && ListAt(mem, list, Addresses(subs)) && AllPlaced(mem, subs)
    ensures LibraryReadable(mem, CodeLibraryRef.FatbincWrapper(w))
    ensures
      var events := Events(mem, CodeLibraryRef.FatbincWrapper(w));
      && |events| == EntriesBefore(subs, |subs|)
      && (a < |subs| && n < |subs[a].content.entries| ==>
            && EntriesBefore(subs, a) + n < |events|
            && events[EntriesBefore(subs, a) + n] == Event(Some((n, None)), EntryModule(subs[a], n)))
  {
    SeveralSubmodules(mem, w, data, list, subs);
    EventCount(mem, subs);
    if a < |subs| && n < |subs[a].content.entries| {
      ListsEventAt(mem, subs, a, n);
    }
  }

  lemma CountBefore(mem: seq<byte>, subs: seq<Placed>, a: nat)
    requires AllPlaced(mem, subs) && AllReadable(mem, Addresses(subs)) && a <= |subs|
    ensures FilesBefore(FileLists(mem, Addresses(subs)), a) == EntriesBefore(subs, a)
  {
    var lists := FileLists(mem, Addresses(subs));
    forall i | 0 <= i < |subs| ensures |lists[i]| == |subs[i].content.entries| {
      PlacedFiles(mem, subs[i]);
    }
    SameCounts(lists, subs, a);
  }

  lemma EventCount(mem: seq<byte>, subs: seq<Placed>)
    requires AllPlaced(mem, subs) && AllReadable(mem, Addresses(subs))
    ensures |WalkEvents(None, FileLists(mem, Addresses(subs)))| == EntriesBefore(subs, |subs|)
  {
    CountBefore(mem, subs, |subs|);
    WalkLength(None, FileLists(mem, Addresses(subs)));
  }

  lemma {:induction false} WalkLength(k: Option<nat>, lists: seq<seq<Item>>)
    ensures |WalkEvents(k, lists)| == FilesBefore(lists, |lists|)
    decreases |lists|
  {
    if lists != [] {
      WalkLength(NextIndex(k), lists[1..]);
    }
  }

  lemma ListsEventAt(mem: seq<byte>, subs: seq<Placed>, a: nat, n: nat)
    requires AllPlaced(mem, subs) && AllReadable(mem, Addresses(subs))
    requires a < |subs| && n < |subs[a].content.entries|
    ensures
      var events := WalkEvents(None, FileLists(mem, Addresses(subs)));
      && EntriesBefore(subs, a) + n < |events|
      && events[EntriesBefore(subs, a) + n] == Event(Some((n, None)), EntryModule(subs[a], n))
  {
    CountBefore(mem, subs, a);
    PlacedFileAt(mem, subs[a], n);
    var lists := FileLists(mem, Addresses(subs));
    assert lists[a] == Files(mem, subs[a].address);
    WalkEventAt(None, lists, a, n);
  }

  function Contents(subs: seq<Placed>): (packed: seq<Packed>)
    ensures |packed| == |subs|
    ensures forall i :: 0 <= i < |subs| ==> packed[i] == subs[i].content
  {
    seq(|subs|, i requires 0 <= i < |subs| => subs[i].content)
  }

  /** From the bytes of a version 2 wrapper to the texts: all that are delivered, in order. */
  lemma {:induction false} SeveralTexts(
    mem: seq<byte>, c: Codecs, utf8: seq<byte> -> bool, w: nat, data: nat, list: nat, subs: seq<Placed>)
    requires WrapperBytes(mem, w, 2, data, list) && ListAt(mem, list, Addresses(subs)) && AllPlaced(mem, subs)
    requires forall i :: 0 <= i < |subs| ==> AllDeliver(c, utf8, subs[i].content)
    ensures LibraryReadable(mem, CodeLibraryRef.FatbincWrapper(w))
    ensures
      var events := Events(mem, CodeLibraryRef.FatbincWrapper(w));
      (forall e <- events :: EventReadable(mem, e)) && PtxOfEvents(mem, c, utf8, events) == AllTexts(Contents(subs))
  {
    SeveralSubmodules(mem, w, data, list, subs);
    forall i | 0 <= i < |subs|
      ensures Addresses(subs)[i] + FATBIN_HEADER_SIZE <= |mem|
      ensures Holds(mem, c, utf8, FilesOf(mem, Addresses(subs)[i]), Contents(subs)[i])
    {
      PlacedHolds(mem, c, utf8, subs[i]);
    }
    PackedTextsRecovered(mem, c, utf8, w, Contents(subs));
  }

  // ----- wrappers that cannot be walked, and images that are no fatbins -----

  /** Another version is reported as such, without an index, and nothing else is. */
  lemma {:induction false} OtherVersion(mem: seq<byte>, w: nat, version: nat, data: nat, list: nat)
    requires WrapperBytes(mem, w, version, data, list) && version != 1 && version != 2
    ensures LibraryReadable(mem, CodeLibraryRef.FatbincWrapper(w))
    ensures Events(mem, CodeLibraryRef.FatbincWrapper(w)) ==
              [Event(None, Err(ParseFailure(UnexpectedBinaryField("FATBINC_VERSION", version, [1, 2]))))]
  {
    WrapperFields(mem, w, version, data, list);
  }

  /** So is the submodule of a version 1 wrapper that is missing or has another magic or version. */
  lemma {:induction false} BadSubmodule(mem: seq<byte>, w: nat, data: nat, list: nat)
    requires WrapperBytes(mem, w, 1, data, list) && (data == 0 || data + 16 <= |mem|)
    requires data != 0 ==> mem[data..data + 6] != [0x50, 0xED, 0x55, 0xBA, 0x01, 0x00]
    ensures LibraryReadable(mem, CodeLibraryRef.FatbincWrapper(w))
    ensures
      var events := Events(mem, CodeLibraryRef.FatbincWrapper(w));
      && |events| == 1 && events[0].index == None
      && if data == 0 then events[0].mod == Err(ParseFailure(NullPointer("FatbinHeader")))
         else if mem[data..data + 4] != [0x50, 0xED, 0x55, 0xBA] then
           events[0].mod ==
             Err(ParseFailure(UnexpectedBinaryField("FATBIN_MAGIC", FromLE(mem[data..data + 4]), [0xBA55ED50])))
         else
           events[0].mod ==
             Err(ParseFailure(UnexpectedBinaryField("FATBIN_VERSION", FromLE(mem[data + 4..data + 6]), [1])))
  {
    WrapperFields(mem, w, 1, data, list);
    if data != 0 {
      HeaderMagic(mem, data);
    }
  }

  lemma HeaderMagic(mem: seq<byte>, p: nat)
    requires p + 16 <= |mem|
    ensures FatbinHeaderAt(mem, p).magic == FromLE(mem[p..p + 4])
    ensures FatbinHeaderAt(mem, p).version == FromLE(mem[p + 4..p + 6])
    ensures FatbinHeaderAt(mem, p).magic == 0xBA55ED50 <==> mem[p..p + 4] == [0x50, 0xED, 0x55, 0xBA]
    ensures FatbinHeaderAt(mem, p).version == 1 <==> mem[p + 4..p + 6] == [0x01, 0x00]
    ensures mem[p..p + 6] == mem[p..p + 4] + mem[p + 4..p + 6]
  {
    FatbinHeaderOffsets(mem, p);
    Window(mem, p, p + 16, p, p + 4);
    Window(mem, p, p + 16, p + 4, p + 6);
    MagicBytes(mem[p..p + 4]);
    VersionBytes(mem[p + 4..p + 6]);
  }

  lemma MagicBytes(b: seq<byte>)
    requires |b| == 4
    ensures FromLE(b) == 0xBA55ED50 <==> b == [0x50, 0xED, 0x55, 0xBA]
  {
    ByteOrder(b);
    assert b == [b[0], b[1], b[2], b[3]];
  }

  lemma VersionBytes(b: seq<byte>)
    requires |b| == 2
    ensures FromLE(b) == 1 <==> b == [0x01, 0x00]
  {
    ByteOrder(b);
    assert b == [b[0], b[1]];
  }

  lemma OneEvent(mem: seq<byte>, c: Codecs, utf8: seq<byte> -> bool, e: Event)
    requires EventReadable(mem, e)
    ensures PtxOfEvents(mem, c, utf8, [e]) == PtxOfEvent(mem, c, utf8, e)
  {
    assert [e][1..] == [];
    assert PtxOfEvents(mem, c, utf8, [e]) == PtxOfEvent(mem, c, utf8, e) + [];
  }

  /** A text is its own only module; an ELF file or an archive is passed on and holds no text. */
  lemma {:induction false} OtherImages(
    mem: seq<byte>, c: Codecs, utf8: seq<byte> -> bool, text: seq<byte>, elf: nat, ar: nat)
    ensures Events(mem, CodeLibraryRef.Text(text)) == [Event(None, Ok(TextModule(text)))]
    ensures PtxOfEvents(mem, c, utf8, Events(mem, CodeLibraryRef.Text(text))) == [text]
    ensures Events(mem, CodeLibraryRef.Elf(elf)) == [Event(None, Ok(ElfModule(elf)))]
    ensures PtxOfEvents(mem, c, utf8, Events(mem, CodeLibraryRef.Elf(elf))) == []
    ensures Events(mem, CodeLibraryRef.Archive(ar)) == [Event(None, Ok(ArchiveModule(ar)))]
    ensures PtxOfEvents(mem, c, utf8, Events(mem, CodeLibraryRef.Archive(ar))) == []
  {
    OneEvent(mem, c, utf8, Event(None, Ok(TextModule(text))));
    OneEvent(mem, c, utf8, Event(None, Ok(ElfModule(elf))));
    OneEvent(mem, c, utf8, Event(None, Ok(ArchiveModule(ar))));
  }
}
