/**
 A two-phase ELF writer. The first phase reserves offsets for everything the file will contain; the
 second writes the same things in the same order. Each write method requires that the buffer has
 reached exactly the offset its part was promised, which the writer itself only asserts in debug builds.
 */
module ElfWriter {
  import opened Wrappers
  import opened Seqs
  import opened Bytes
  import opened Elf

  /** The next multiple of `align`; the alignments used here are 1 and 8. */
  function AlignUp(n: nat, align: nat): (r: nat)
    requires align > 0
    ensures n <= r < n + align
    ensures align == 1 || n % align == 0 ==> r == n
    ensures align == 8 ==> r % 8 == 0
  {
    if n % align == 0 then n else n + align - n % align
  }

  // ----- the string table -----

  predicate EndsWith(s: seq<byte>, suffix: seq<byte>) {
    |suffix| <= |s| && s[|s| - |suffix|..] == suffix
  }

  /** Whether `a` is written before `b`: compared from the end, larger bytes and longer strings first. */
  predicate Precedes(a: seq<byte>, b: seq<byte>) {
    if a == [] then false
    else if b == [] then true
    else if a[|a| - 1] != b[|b| - 1] then a[|a| - 1] > b[|b| - 1]
    else Precedes(a[..|a| - 1], b[..|b| - 1])
  }

  predicate ValidIds(strings: seq<seq<byte>>, ids: seq<nat>) {
    forall i :: 0 <= i < |ids| ==> ids[i] < |strings|
  }

  function Insert(strings: seq<seq<byte>>, sorted: seq<nat>, id: nat): (r: seq<nat>)
    requires id < |strings| && ValidIds(strings, sorted)
    ensures ValidIds(strings, r)
    ensures forall k :: k in r <==> k == id || k in sorted
  {
    if sorted == [] then [id]
    else if Precedes(strings[id], strings[sorted[0]]) then [id] + sorted
    else [sorted[0]] + Insert(strings, sorted[1..], id)
  }

  /** The order in which the strings are written, so that a suffix comes right after a string it ends. */
  function WriteOrder(strings: seq<seq<byte>>, count: nat): (r: seq<nat>)
    requires count <= |strings|
    ensures ValidIds(strings, r)
    ensures forall k :: k in r <==> 0 <= k < count
    decreases count
  {
    if count == 0 then [] else Insert(strings, WriteOrder(strings, count - 1), count - 1)
  }

  datatype Table = Table(data: seq<byte>, offsets: seq<nat>)

  /** The last string that was written out. */
  function Latest(s: seq<byte>, previous: seq<byte>): seq<byte> {
    if EndsWith(previous, s) then previous else s
  }

  /** Write one string after `previous`; if it ends that one, it shares its bytes. */
  function PlaceOne(strings: seq<seq<byte>>, id: nat, table: Table, previous: seq<byte>): (r: Table)
    requires id < |strings| == |table.offsets| && EndsWith(table.data, previous + [0])
    ensures |r.offsets| == |strings|
    ensures EndsWith(r.data, Latest(strings[id], previous) + [0])
  {
    var s := strings[id];
    if EndsWith(previous, s) then Table(table.data, table.offsets[id := |table.data| - |s| - 1])
    else Table(table.data + (s + [0]), table.offsets[id := |table.data|])
  }

  function Place(strings: seq<seq<byte>>, order: seq<nat>, table: Table, previous: seq<byte>): (r: Table)
    requires ValidIds(strings, order) && |table.offsets| == |strings|
    requires EndsWith(table.data, previous + [0])
    ensures |r.offsets| == |strings|
    decreases |order|
  {
    if order == [] then table
    else
      var id := order[0];
      Place(strings, order[1..], PlaceOne(strings, id, table, previous), Latest(strings[id], previous))
  }

  /** A table begins with the empty name. */
  function BuildTable(strings: seq<seq<byte>>): (r: Table)
    ensures |r.offsets| == |strings|
  {
    EndsWithItself([0]);
    Place(strings, WriteOrder(strings, |strings|), Table([0], seq(|strings|, _ => 0)), [])
  }

  lemma EndsWithItself(s: seq<byte>)
    ensures EndsWith(s, [] + s)
  {
    assert [] + s == s && s[0..] == s;
  }

  lemma StringAtAppend(data: seq<byte>, more: seq<byte>, o: nat, s: seq<byte>)
    requires StringAt(data, o, s)
    ensures StringAt(data + more, o, s)
  {
  }

  lemma StringAtSuffix(data: seq<byte>, previous: seq<byte>, s: seq<byte>)
    requires EndsWith(data, previous + [0]) && EndsWith(previous, s)
    ensures StringAt(data, |data| - |s| - 1, s)
  {
  }

  ghost predicate AllPlaced(strings: seq<seq<byte>>, table: Table, done: seq<nat>) {
    && |table.offsets| == |strings|
    && forall i :: 0 <= i < |done| ==>
         done[i] < |strings| && StringAt(table.data, table.offsets[done[i]], strings[done[i]])
  }

  lemma PlaceOneKeeps(strings: seq<seq<byte>>, id: nat, table: Table, previous: seq<byte>, done: seq<nat>)
    requires id < |strings| && AllPlaced(strings, table, done) && EndsWith(table.data, previous + [0])
    ensures table.data <= PlaceOne(strings, id, table, previous).data
    ensures AllPlaced(strings, PlaceOne(strings, id, table, previous), done + [id])
  {
    var s, next := strings[id], PlaceOne(strings, id, table, previous);
    if EndsWith(previous, s) {
      StringAtSuffix(table.data, previous, s);
    } else {
      StringAtEnd(table.data, s);
      forall i | 0 <= i < |done| && done[i] != id
        ensures StringAt(next.data, next.offsets[done[i]], strings[done[i]])
      {
        StringAtAppend(table.data, s + [0], table.offsets[done[i]], strings[done[i]]);
      }
    }
  }

  lemma StringAtEnd(data: seq<byte>, s: seq<byte>)
    ensures StringAt(data + (s + [0]), |data|, s)
  {
  }

  /** Sharing suffixes moves no string: every string of the table stands at its own offset. */
  lemma {:induction false} PlaceKeepsStrings(
    strings: seq<seq<byte>>, order: seq<nat>, table: Table, previous: seq<byte>, done: seq<nat>)
    requires ValidIds(strings, order) && AllPlaced(strings, table, done) && EndsWith(table.data, previous + [0])
    ensures table.data <= Place(strings, order, table, previous).data
    ensures AllPlaced(strings, Place(strings, order, table, previous), done + order)
    decreases |order|
  {
    if order == [] {
      assert done + order == done;
    } else {
      var id := order[0];
      PlaceOneKeeps(strings, id, table, previous, done);
      var next := PlaceOne(strings, id, table, previous);
      PlaceKeepsStrings(strings, order[1..], next, Latest(strings[id], previous), done + [id]);
      Assoc(done, [id], order[1..]);
      assert order == [id] + order[1..];
    }
  }

  lemma TableHoldsStrings(strings: seq<seq<byte>>, id: nat)
    requires id < |strings|
    ensures StringAt(BuildTable(strings).data, BuildTable(strings).offsets[id], strings[id])
    ensures |BuildTable(strings).data| > 0 && BuildTable(strings).data[0] == 0
  {
    var order := WriteOrder(strings, |strings|);
    PlaceKeepsStrings(strings, order, Table([0], seq(|strings|, _ => 0)), [], []);
    assert id in order;
    var i :| 0 <= i < |order| && order[i] == id;
    assert ([] + order)[i] == id;
  }

  // ----- the writer -----

  /** What the caller supplies of a file header; the writer fills in the rest. */
  datatype HeaderRequest = HeaderRequest(
    osAbi: byte, abiVersion: byte, eType: nat, eMachine: nat, eEntry: nat, eFlags: nat)

  /** No segments; the counts and offsets are the reserved ones. */
  function CompleteHeader(
    e: Endianness, h: HeaderRequest, sectionOffset: nat, sectionNum: nat, shstrtabIndex: nat): FileHeader
  {
    FileHeader(e, h.osAbi, h.abiVersion, h.eType, h.eMachine, 1, h.eEntry, 0, sectionOffset, h.eFlags,
               Elf.FILE_HEADER_SIZE, 0, 0, SECTION_HEADER_SIZE, sectionNum, shstrtabIndex)
  }

  class Writer {
    const endian: Endianness
    var buffer: seq<byte>
    var len: nat
    var sectionNum: nat
    var sectionOffset: nat
    var names: seq<seq<byte>>
    var shstrtabName: nat
    var shstrtabIndex: nat
    var shstrtabOffset: nat
    var shstrtab: Table

    constructor (endian: Endianness)
      ensures this.endian == endian && buffer == [] && len == 0 && names == []
      ensures sectionNum == 0 && sectionOffset == 0 && shstrtabIndex == 0 && shstrtabOffset == 0
    {
      this.endian := endian;
      buffer, len, sectionNum, sectionOffset, names := [], 0, 0, 0, [];
      shstrtabName, shstrtabIndex, shstrtabOffset, shstrtab := 0, 0, 0, Table([], []);
    }

    // reserving

    method Reserve(size: nat, align: nat) returns (offset: nat)
      requires align > 0
      modifies this`len
      ensures offset == AlignUp(old(len), align) && len == offset + size
    {
      if align > 1 {
        len := AlignUp(len, align);
      }
      offset := len;
      len := len + size;
    }

    method ReserveFileHeader()
      requires len == 0
      modifies this`len
      ensures len == FILE_HEADER_SIZE
    {
      var _ := Reserve(FILE_HEADER_SIZE, 1);
    }

    /** A name that is already in the table keeps its id. */
    method AddSectionName(name: seq<byte>) returns (id: nat)
      requires shstrtabOffset == 0
      modifies this`names
      ensures names == old(names) || names == old(names) + [name]
      ensures name in old(names) <==> names == old(names)
      ensures id < |names| && names[id] == name
    {
      id := 0;
      while id < |names|
        invariant id <= |names| && name !in names[..id]
      {
        if names[id] == name {
          return;
        }
        id := id + 1;
      }
      names := names + [name];
    }

    method ReserveSectionIndex() returns (index: nat)
      requires sectionOffset == 0
      modifies this`sectionNum
      ensures index == if old(sectionNum) == 0 then 1 else old(sectionNum)
      ensures sectionNum == index + 1
    {
      if sectionNum == 0 {
        sectionNum := 1;
      }
      index := sectionNum;
      sectionNum := sectionNum + 1;
    }

    method ReserveShstrtabSectionIndex()
      requires shstrtabIndex == 0 && shstrtabOffset == 0 && sectionOffset == 0
      modifies this`names, this`sectionNum, this`shstrtabName, this`shstrtabIndex
      ensures names == old(names) || names == old(names) + [SHSTRTAB]
      ensures SHSTRTAB in old(names) <==> names == old(names)
      ensures shstrtabName < |names| && names[shstrtabName] == SHSTRTAB
      ensures shstrtabIndex == (if old(sectionNum) == 0 then 1 else old(sectionNum)) && sectionNum == shstrtabIndex + 1
    {
      shstrtabName := AddSectionName(SHSTRTAB);
      shstrtabIndex := ReserveSectionIndex();
    }

    method ReserveShstrtab()
      requires shstrtabOffset == 0 && sectionNum > 0
      modifies this`shstrtab, this`shstrtabOffset, this`len
      ensures shstrtab == BuildTable(names)
      ensures shstrtabOffset == old(len) && len == old(len) + |shstrtab.data|
    {
      shstrtab := BuildTable(names);
      shstrtabOffset := Reserve(|shstrtab.data|, 1);
    }

    method ReserveSectionHeaders()
      requires sectionOffset == 0 && sectionNum > 0
      modifies this`sectionOffset, this`len
      ensures sectionOffset == AlignUp(old(len), 8) && len == sectionOffset + sectionNum * SECTION_HEADER_SIZE
    {
      sectionOffset := Reserve(sectionNum * SECTION_HEADER_SIZE, 8);
    }

    // writing

    method Write(data: seq<byte>)
      modifies this`buffer
      ensures buffer == old(buffer) + data
    {
      buffer := buffer + data;
    }

    method WriteAlign(align: nat)
      requires align > 0
      modifies this`buffer
      ensures buffer == old(buffer) + Zeros(AlignUp(|old(buffer)|, align) - |old(buffer)|)
    {
      buffer := buffer + Zeros(AlignUp(|buffer|, align) - |buffer|);
    }

    method WriteFileHeader(h: HeaderRequest)
      requires buffer == [] && 0 < sectionNum < 0xFF00 && shstrtabIndex < 0xFF00
      modifies this`buffer
      ensures buffer == EncodeFileHeader(CompleteHeader(endian, h, sectionOffset, sectionNum, shstrtabIndex))
    {
      Write(EncodeFileHeader(CompleteHeader(endian, h, sectionOffset, sectionNum, shstrtabIndex)));
      assert [] + buffer == buffer;
    }

    method WriteShstrtab()
      requires shstrtabOffset > 0 && shstrtabOffset == |buffer|
      modifies this`buffer
      ensures buffer == old(buffer) + shstrtab.data
    {
      Write(shstrtab.data);
    }

    method WriteNullSectionHeader()
      requires sectionNum > 0 && sectionOffset == AlignUp(|buffer|, 8)
      modifies this`buffer
      ensures buffer == old(buffer) + Zeros(sectionOffset - |old(buffer)|) + EncodeSectionHeader(endian, NULL_SECTION)
    {
      WriteAlign(8);
      assert sectionOffset == |buffer|;
      Write(EncodeSectionHeader(endian, NULL_SECTION));
    }

    /** The name is given by its id in the string table; here it becomes an offset. */
    method WriteSectionHeader(name: nat, s: SectionHeader)
      requires name < |shstrtab.offsets|
      modifies this`buffer
      ensures buffer == old(buffer) + EncodeSectionHeader(endian, s.(shName := shstrtab.offsets[name]))
    {
      Write(EncodeSectionHeader(endian, s.(shName := shstrtab.offsets[name])));
    }

    method WriteShstrtabSectionHeader()
      requires shstrtabIndex > 0 && shstrtabName < |shstrtab.offsets|
      modifies this`buffer
      ensures buffer == old(buffer) + EncodeSectionHeader(endian,
                          SectionHeader(shstrtab.offsets[shstrtabName], SHT_STRTAB, 0, 0,
                                        shstrtabOffset, |shstrtab.data|, 0, 0, 1, 0))
    {
      WriteSectionHeader(shstrtabName,
                         SectionHeader(0, SHT_STRTAB, 0, 0, shstrtabOffset, |shstrtab.data|, 0, 0, 1, 0));
    }
  }

  /** `.shstrtab` */
  const SHSTRTAB: seq<byte> := [0x2E, 0x73, 0x68, 0x73, 0x74, 0x72, 0x74, 0x61, 0x62]

}
