/**
 What a walk over a whole fatbin delivers: every file once and in order, under which indices, and,
 for a consumer that compiles PTX, which texts.
 */
module FatbinTraversal {
  import opened Wrappers
  import opened Seqs
  import opened Bytes
  import opened FatbinLayout
  import opened FatbinFiles
  import opened FatbinContent
  import opened FatbinLibrary
  import Lz4

  // ----- the files -----

  /** The walk reports the files of all submodules, each once and in order, whatever the indices are. */
  lemma {:induction false} WalkReportsAllFiles(k: Option<nat>, lists: seq<seq<Item>>)
    ensures |WalkEvents(k, lists)| == |Flatten(lists)|
    ensures forall i :: 0 <= i < |Flatten(lists)| ==> WalkEvents(k, lists)[i].mod == ToModule(Flatten(lists)[i])
    decreases |lists|
  {
    if lists != [] {
      WalkReportsAllFiles(NextIndex(k), lists[1..]);
    }
  }

  function FilesBefore(lists: seq<seq<Item>>, a: nat): nat
    requires a <= |lists|
  {
    if a == 0 then 0 else |lists[0]| + FilesBefore(lists[1..], a - 1)
  }

  /** File `j` of submodule `a` is reported as such, or just as file `j` if submodules are not numbered. */
  lemma {:induction false} WalkEventAt(k: Option<nat>, lists: seq<seq<Item>>, a: nat, j: nat)
    requires a < |lists| && j < |lists[a]|
    ensures
      var n := FilesBefore(lists, a) + j;
      && n < |WalkEvents(k, lists)|
      && WalkEvents(k, lists)[n].mod == ToModule(lists[a][j])
      && WalkEvents(k, lists)[n].index == if k.Some? then Some((k.value + a, Some(j))) else Some((j, None))
    decreases a
  {
    if a > 0 {
      WalkEventAt(NextIndex(k), lists[1..], a - 1, j);
    }
  }

  // ----- the indices -----

  ghost predicate DistinctIndices(events: seq<Event>) {
    forall i, j :: 0 <= i < j < |events| ==> events[i].index != events[j].index
  }

  /** With a module index, no two files share an index: it counts up across submodules. */
  lemma {:induction false} NumberedDistinct(k: nat, lists: seq<seq<Item>>)
    ensures DistinctIndices(WalkEvents(Some(k), lists))
    ensures forall i :: 0 <= i < |WalkEvents(Some(k), lists)| ==>
              WalkEvents(Some(k), lists)[i].index.Some? && WalkEvents(Some(k), lists)[i].index.value.0 >= k
    decreases |lists|
  {
    if lists != [] {
      NumberedDistinct(k + 1, lists[1..]);
    }
  }

  ghost predicate AtMostOneNonEmpty(lists: seq<seq<Item>>) {
    forall a, b :: 0 <= a < b < |lists| ==> lists[a] == [] || lists[b] == []
  }

  /**
   Without a module index, as in a multi-module fatbin, file numbers start over in every submodule:
   indices are distinct exactly when no two submodules have files.
   */
  lemma {:induction false} UnnumberedDistinctIff(lists: seq<seq<Item>>)
    ensures DistinctIndices(WalkEvents(None, lists)) <==> AtMostOneNonEmpty(lists)
  {
    if AtMostOneNonEmpty(lists) {
      SoleSubmodule(lists);
    } else {
      var a, b :| 0 <= a < b < |lists| && lists[a] != [] && lists[b] != [];
      TwoWithFilesCollide(lists, a, b);
    }
  }

  lemma TwoWithFilesCollide(lists: seq<seq<Item>>, a: nat, b: nat)
    requires a < b < |lists| && lists[a] != [] && lists[b] != []
    ensures !DistinctIndices(WalkEvents(None, lists))
  {
    var left, right := lists[..a + 1], lists[a + 1..];
    var i := FirstEventOf(left, a);
    var j := FirstEventOf(right, b - a - 1);
    assert lists == left + right;
    EventsAppend(left, right);
    var events := WalkEvents(None, lists);
    assert events[i].index == events[|WalkEvents(None, left)| + j].index;
  }

  lemma {:induction false} SoleSubmodule(lists: seq<seq<Item>>)
    requires AtMostOneNonEmpty(lists)
    ensures WalkEvents(None, lists) == FileEvents(None, Flatten(lists))
    decreases |lists|
  {
    if lists != [] {
      SoleSubmodule(lists[1..]);
      if lists[0] != [] {
        forall i | 0 <= i < |lists[1..]| ensures lists[1..][i] == [] {
          assert lists[1..][i] == lists[i + 1];
        }
        NoFiles(lists[1..]);
      }
    }
  }

  lemma {:induction false} NoFiles(lists: seq<seq<Item>>)
    requires forall i :: 0 <= i < |lists| ==> lists[i] == []
    ensures Flatten(lists) == []
    decreases |lists|
  {
    if lists != [] {
      NoFiles(lists[1..]);
    }
  }

  lemma {:induction false} FirstEventOf(lists: seq<seq<Item>>, a: nat) returns (i: nat)
    requires a < |lists| && lists[a] != []
    ensures i < |WalkEvents(None, lists)|
    ensures WalkEvents(None, lists)[i].index == Some((0, None))
    decreases a
  {
    if a == 0 {
      i := 0;
    } else {
      i := FirstEventOf(lists[1..], a - 1);
      i := i + |lists[0]|;
    }
  }

  lemma {:induction false} EventsAppend(left: seq<seq<Item>>, right: seq<seq<Item>>)
    ensures WalkEvents(None, left + right) == WalkEvents(None, left) + WalkEvents(None, right)
    decreases |left|
  {
    if left == [] {
      assert left + right == right;
    } else {
      EventsAppend(left[1..], right);
      assert (left + right)[1..] == left[1..] + right;
      Assoc(FileEvents(None, left[0]), WalkEvents(None, left[1..]), WalkEvents(None, right));
    }
  }

  /**
   A walk over a wrapper reports exactly the files of its submodules, in order. The indices it
   reports them under are distinct for a single-module wrapper, and for a multi-module one exactly
   when no two submodules have files.
   */
  lemma {:induction false} WrapperWalk(mem: seq<byte>, w: nat)
    requires LibraryReadable(mem, CodeLibraryRef.FatbincWrapper(w)) && Submodules(mem, w).Ok?
    ensures
      var events := Events(mem, CodeLibraryRef.FatbincWrapper(w));
      var lists := FileLists(mem, Submodules(mem, w).value);
      && |events| == |Flatten(lists)|
      && (forall i :: 0 <= i < |events| ==> events[i].mod == ToModule(Flatten(lists)[i]))
      && (DistinctIndices(events) <==> !IsMulti(mem, w) || AtMostOneNonEmpty(lists))
  {
    var lists := FileLists(mem, Submodules(mem, w).value);
    WalkReportsAllFiles(if IsMulti(mem, w) then None else Some(0), lists);
    UnnumberedDistinctIff(lists);
    NumberedDistinct(0, lists);
  }

  // ----- the PTX texts -----

  /** What the PTX consumer needs to be allowed to read. */
  predicate ItemReadable(mem: seq<byte>, item: Item) {
    item.Ok? ==>
      && item.value.header + FILE_HEADER_SIZE <= |mem|
      && (FileHeaderAt(mem, item.value.header).kind == HEADER_KIND_PTX ==> Readable(mem, item.value))
  }

  predicate EventReadable(mem: seq<byte>, e: Event) {
    e.mod.Ok? && e.mod.value.File? ==> ItemReadable(mem, Ok(e.mod.value.file))
  }

  /** The text of a PTX file that decompresses and is UTF-8; nothing for any other item. */
  function PtxOfFile(mem: seq<byte>, c: Codecs, utf8: seq<byte> -> bool, f: FatbinFile): seq<seq<byte>>
    requires ItemReadable(mem, Ok(f))
  {
    if FileHeaderAt(mem, f.header).kind != HEADER_KIND_PTX then []
    else
      match Content(mem, c, f, true)
      case Ok(text) => if utf8(text) then [text] else []
      case Err(_) => []
  }

  function PtxOfEvent(mem: seq<byte>, c: Codecs, utf8: seq<byte> -> bool, e: Event): seq<seq<byte>>
    requires EventReadable(mem, e)
  {
    match e.mod
    case Ok(TextModule(text)) => [text]
    case Ok(File(f)) => PtxOfFile(mem, c, utf8, f)
    case _ => []
  }

  function PtxOfEvents(mem: seq<byte>, c: Codecs, utf8: seq<byte> -> bool, events: seq<Event>): seq<seq<byte>>
    requires forall e <- events :: EventReadable(mem, e)
  {
    if events == [] then []
    else
      assert events[0] in events;
      PtxOfEvent(mem, c, utf8, events[0]) + PtxOfEvents(mem, c, utf8, events[1..])
  }

  /** The callback that picks out PTX texts. */
  method PushPtx(mem: seq<byte>, c: Codecs, utf8: seq<byte> -> bool, event: Event, ptxModules: seq<seq<byte>>)
    returns (pushed: seq<seq<byte>>)
    requires EventReadable(mem, event) && Lz4.RespectsCapacity(c.lz4)
    ensures pushed == ptxModules + PtxOfEvent(mem, c, utf8, event)
  {
    pushed := ptxModules;
    match event.mod {
      case Ok(TextModule(ptx)) =>
        pushed := pushed + [ptx];
      case Ok(File(file)) =>
        if FileHeaderAt(mem, file.header).kind != HEADER_KIND_PTX {
          return;
        }
        var text := GetOrDecompressContent(mem, c, file, true);
        if text.Ok? && utf8(CowBytes(mem, text.value)) {
          pushed := pushed + [CowBytes(mem, text.value)];
        }
      case _ =>
    }
  }

  /** Walking an image with this callback; the calls happen in the order of the events. */
  method CollectPtx(mem: seq<byte>, c: Codecs, utf8: seq<byte> -> bool, image: CodeLibraryRef)
    returns (ptxModules: seq<seq<byte>>)
    requires LibraryReadable(mem, image) && Lz4.RespectsCapacity(c.lz4)
    requires forall e <- Events(mem, image) :: EventReadable(mem, e)
    ensures ptxModules == PtxOfEvents(mem, c, utf8, Events(mem, image))
  {
    var events := IterateModules(mem, image);
    ptxModules := [];
    for i := 0 to |events|
      invariant PtxOfEvents(mem, c, utf8, events) == ptxModules + PtxOfEvents(mem, c, utf8, events[i..])
    {
      PtxStep(mem, c, utf8, events, i, ptxModules);
      ptxModules := PushPtx(mem, c, utf8, events[i], ptxModules);
    }
  }

  lemma PtxStep(
    mem: seq<byte>, c: Codecs, utf8: seq<byte> -> bool, events: seq<Event>, i: nat, before: seq<seq<byte>>)
    requires i < |events| && forall e <- events :: EventReadable(mem, e)
    ensures EventReadable(mem, events[i])
    ensures before + PtxOfEvents(mem, c, utf8, events[i..])
         == before + PtxOfEvent(mem, c, utf8, events[i]) + PtxOfEvents(mem, c, utf8, events[i + 1..])
  {
  }

  // ----- from the packer to the consumer -----

  predicate ItemsReadable(mem: seq<byte>, items: seq<Item>) {
    forall i :: 0 <= i < |items| ==> ItemReadable(mem, items[i])
  }

  function PtxOfItem(mem: seq<byte>, c: Codecs, utf8: seq<byte> -> bool, item: Item): seq<seq<byte>>
    requires ItemReadable(mem, item)
  {
    match item
    case Ok(f) => PtxOfFile(mem, c, utf8, f)
    case Err(_) => []
  }

  function PtxOfItems(mem: seq<byte>, c: Codecs, utf8: seq<byte> -> bool, items: seq<Item>): seq<seq<byte>>
    requires ItemsReadable(mem, items)
  {
    if items == [] then []
    else PtxOfItem(mem, c, utf8, items[0]) + PtxOfItems(mem, c, utf8, items[1..])
  }

  lemma {:induction false} EventsAreItems(
    mem: seq<byte>, c: Codecs, utf8: seq<byte> -> bool, events: seq<Event>, items: seq<Item>)
    requires |events| == |items| && ItemsReadable(mem, items)
    requires forall i :: 0 <= i < |items| ==> events[i].mod == ToModule(items[i])
    ensures forall e <- events :: EventReadable(mem, e)
    ensures PtxOfEvents(mem, c, utf8, events) == PtxOfItems(mem, c, utf8, items)
    decreases |items|
  {
    if items != [] {
      EventsAreItems(mem, c, utf8, events[1..], items[1..]);
      assert events == [events[0]] + events[1..];
      assert PtxOfEvent(mem, c, utf8, events[0]) == PtxOfItem(mem, c, utf8, items[0]);
    }
  }

  lemma {:induction false} PtxOfItemsAppend(
    mem: seq<byte>, c: Codecs, utf8: seq<byte> -> bool, a: seq<Item>, b: seq<Item>)
    requires ItemsReadable(mem, a) && ItemsReadable(mem, b)
    ensures ItemsReadable(mem, a + b)
    ensures PtxOfItems(mem, c, utf8, a + b) == PtxOfItems(mem, c, utf8, a) + PtxOfItems(mem, c, utf8, b)
    decreases |a|
  {
    if a == [] {
      assert a + b == b;
    } else {
      PtxOfItemsAppend(mem, c, utf8, a[1..], b);
      assert (a + b)[1..] == a[1..] + b;
      Assoc(PtxOfItem(mem, c, utf8, a[0]), PtxOfItems(mem, c, utf8, a[1..]), PtxOfItems(mem, c, utf8, b));
    }
  }

  /**
   The text an entry delivers. `Some(t)`: a PTX entry, of kind 1 and version 0x101, that decodes to the
   UTF-8 text `t`, padded with any number of zeros. `None`: an entry of another version or kind, or one
   whose bytes do not decompress or are no UTF-8 text.
   */
  ghost predicate Delivers(c: Codecs, utf8: seq<byte> -> bool, e: Entry, text: Option<seq<byte>>)
    requires WellFramed(e)
  {
    match text
    case None =>
      || e.header.version != 0x101 || e.header.kind != 1
      || EntryDecoded(c, e).Err? || !utf8(StripZeros(EntryDecoded(c, e).value))
    case Some(t) =>
      && e.header.version == 0x101 && e.header.kind == 1
      && utf8(t) && !EndsInZero(t)
      && exists padding: nat :: EntryDecoded(c, e) == Ok(t + Zeros(padding))
  }

  /** What a packer must do for a text to be delivered: store it in any of the four ways, and pad it or not. */
  lemma {:induction false} StoredTextDelivers(
    c: Codecs, utf8: seq<byte> -> bool, e: Entry, text: seq<byte>, padding: nat)
    requires WellFramed(e) && Stores(c, e, text + Zeros(padding))
    requires e.header.version == 0x101 && e.header.kind == 1
    requires utf8(text) && !EndsInZero(text)
    ensures Delivers(c, utf8, e, Some(text))
  {
    StoresDecode(c, e, text + Zeros(padding));
  }

  /** Every well-framed entry delivers exactly one thing: a text or nothing. */
  lemma {:induction false} DeliversOne(
    c: Codecs, utf8: seq<byte> -> bool, e: Entry, a: Option<seq<byte>>, b: Option<seq<byte>>)
    requires WellFramed(e)
    ensures exists text :: Delivers(c, utf8, e, text)
    ensures Delivers(c, utf8, e, a) && Delivers(c, utf8, e, b) ==> a == b
  {
    if EntryDecoded(c, e).Ok? {
      var raw := EntryDecoded(c, e).value;
      StripSplits(raw);
      assert Delivers(c, utf8, e, None) || Delivers(c, utf8, e, Some(StripZeros(raw)));
    } else {
      assert Delivers(c, utf8, e, None);
    }
    if a.Some? && Delivers(c, utf8, e, a) {
      DeliveredText(c, utf8, e, a.value);
    }
    if b.Some? && Delivers(c, utf8, e, b) {
      DeliveredText(c, utf8, e, b.value);
    }
  }

  lemma DeliveredText(c: Codecs, utf8: seq<byte> -> bool, e: Entry, text: seq<byte>)
    requires WellFramed(e) && Delivers(c, utf8, e, Some(text))
    ensures EntryDecoded(c, e).Ok? && StripZeros(EntryDecoded(c, e).value) == text
  {
    var padding: nat :| EntryDecoded(c, e) == Ok(text + Zeros(padding));
    StripUnique(text, padding);
  }

  function IfPresent(text: Option<seq<byte>>): seq<seq<byte>> {
    match text
    case Some(t) => [t]
    case None => []
  }

  function Present(texts: seq<Option<seq<byte>>>): seq<seq<byte>> {
    if texts == [] then [] else IfPresent(texts[0]) + Present(texts[1..])
  }

  /** A submodule as packed: its entries, the text each one delivers, and the bytes after them. */
  datatype Packed = Packed(entries: seq<Entry>, texts: seq<Option<seq<byte>>>, tail: seq<byte>)

  ghost predicate Holds(mem: seq<byte>, c: Codecs, utf8: seq<byte> -> bool, s: Slice, p: Packed) {
    && Packs(mem, s, p.entries, p.tail)
    && |p.texts| == |p.entries|
    && forall i {:trigger p.entries[i]} :: 0 <= i < |p.entries| ==>
         WellFramed(p.entries[i]) && Delivers(c, utf8, p.entries[i], p.texts[i])
  }

  lemma EntryDelivers(
    mem: seq<byte>, c: Codecs, utf8: seq<byte> -> bool, p: nat, e: Entry, text: Option<seq<byte>>)
    requires WellFramed(e) && StoredAt(mem, p, e)
    requires Delivers(c, utf8, e, text)
    ensures ItemReadable(mem, CheckVersion(e.header, p))
    ensures PtxOfItem(mem, c, utf8, CheckVersion(e.header, p)) == IfPresent(text)
  {
    DecodedEntry(mem, c, p, e);
    if text.Some? {
      DeliveredText(c, utf8, e, text.value);
    }
  }

  lemma PtxOfItemsCons(mem: seq<byte>, c: Codecs, utf8: seq<byte> -> bool, item: Item, items: seq<Item>)
    requires ItemReadable(mem, item) && ItemsReadable(mem, items)
    ensures ItemsReadable(mem, [item] + items)
    ensures PtxOfItems(mem, c, utf8, [item] + items) == PtxOfItem(mem, c, utf8, item) + PtxOfItems(mem, c, utf8, items)
  {
  }

  function RestOf(p: Packed): Packed
    requires p.entries != [] && |p.texts| == |p.entries|
  {
    Packed(p.entries[1..], p.texts[1..], p.tail)
  }

  lemma FirstEntryHolds(mem: seq<byte>, c: Codecs, utf8: seq<byte> -> bool, s: Slice, p: Packed)
    requires Holds(mem, c, utf8, s, p) && p.entries != []
    ensures HasEntry(s) && ExtentAt(mem, s.ptr) > 0
    ensures ItemReadable(mem, NextItem(mem, s).value)
    ensures PtxOfItem(mem, c, utf8, NextItem(mem, s).value) == IfPresent(p.texts[0])
    ensures Holds(mem, c, utf8, NextBuffer(mem, s), RestOf(p))
  {
    PacksStep(mem, s, p.entries, p.tail);
    var e := p.entries[0];
    EntryDelivers(mem, c, utf8, s.ptr, e, p.texts[0]);
    forall i {:trigger p.entries[1..][i]} | 0 <= i < |p.entries[1..]|
      ensures WellFramed(p.entries[1..][i]) && Delivers(c, utf8, p.entries[1..][i], p.texts[1..][i])
    {
      assert p.entries[1..][i] == p.entries[i + 1];
    }
  }

  lemma {:induction false} SubmoduleDelivers(
    mem: seq<byte>, c: Codecs, utf8: seq<byte> -> bool, s: Slice, p: Packed)
    requires Holds(mem, c, utf8, s, p)
    ensures Productive(mem, s) && ItemsReadable(mem, Yield(mem, s))
    ensures PtxOfItems(mem, c, utf8, Yield(mem, s)) == Present(p.texts)
    decreases |p.entries|
  {
    if p.entries == [] {
      assert View(mem, s) == p.tail;
    } else {
      FirstEntryHolds(mem, c, utf8, s, p);
      SubmoduleDelivers(mem, c, utf8, NextBuffer(mem, s), RestOf(p));
      PtxOfItemsCons(mem, c, utf8, NextItem(mem, s).value, Yield(mem, NextBuffer(mem, s)));
    }
  }

  function AllTexts(packed: seq<Packed>): seq<seq<byte>> {
    if packed == [] then [] else Present(packed[0].texts) + AllTexts(packed[1..])
  }

  lemma {:induction false} SubmodulesDeliver(
    mem: seq<byte>, c: Codecs, utf8: seq<byte> -> bool, headers: seq<nat>, packed: seq<Packed>)
    requires |headers| == |packed|
    requires forall i :: 0 <= i < |headers| ==>
               headers[i] + FATBIN_HEADER_SIZE <= |mem| && Holds(mem, c, utf8, FilesOf(mem, headers[i]), packed[i])
    ensures AllReadable(mem, headers)
    ensures ItemsReadable(mem, Flatten(FileLists(mem, headers)))
    ensures PtxOfItems(mem, c, utf8, Flatten(FileLists(mem, headers))) == AllTexts(packed)
    decreases |headers|
  {
    if headers != [] {
      SubmoduleDelivers(mem, c, utf8, FilesOf(mem, headers[0]), packed[0]);
      SubmodulesDeliver(mem, c, utf8, headers[1..], packed[1..]);
      forall i | 0 <= i < |headers| ensures SubmoduleReadable(mem, headers[i]) {
        assert i > 0 ==> headers[i] == headers[1..][i - 1];
      }
      assert FileLists(mem, headers)[1..] == FileLists(mem, headers[1..]);
      PtxOfItemsAppend(mem, c, utf8, Files(mem, headers[0]), Flatten(FileLists(mem, headers[1..])));
    }
  }

  /**
   End to end. Whatever a packer puts into the submodules of a wrapper, of one module or of several,
   compressed in any mixture of ways and interspersed with entries of other versions and kinds and
   with entries that cannot be read, the PTX consumer collects exactly the delivered texts, in order.
   */
  lemma {:induction false} PackedTextsRecovered(
    mem: seq<byte>, c: Codecs, utf8: seq<byte> -> bool, w: nat, packed: seq<Packed>)
    requires WrapperReadable(mem, w) && Submodules(mem, w).Ok? && |Submodules(mem, w).value| == |packed|
    requires forall i :: 0 <= i < |packed| ==>
               var header := Submodules(mem, w).value[i];
               header + FATBIN_HEADER_SIZE <= |mem| && Holds(mem, c, utf8, FilesOf(mem, header), packed[i])
    ensures LibraryReadable(mem, CodeLibraryRef.FatbincWrapper(w))
    ensures forall e <- Events(mem, CodeLibraryRef.FatbincWrapper(w)) :: EventReadable(mem, e)
    ensures PtxOfEvents(mem, c, utf8, Events(mem, CodeLibraryRef.FatbincWrapper(w))) == AllTexts(packed)
  {
    var headers := Submodules(mem, w).value;
    SubmodulesDeliver(mem, c, utf8, headers, packed);
    var lists := FileLists(mem, headers);
    WrapperWalk(mem, w);
    EventsAreItems(mem, c, utf8, Events(mem, CodeLibraryRef.FatbincWrapper(w)), Flatten(lists));
  }

  // ----- a packer -----

  /** A text to be stored as it is, with a number of zeros behind it. */
  datatype Plain = Plain(text: seq<byte>, padding: nat)

  predicate Packable(utf8: seq<byte> -> bool, p: Plain) {
    utf8(p.text) && !EndsInZero(p.text) && |p.text| + p.padding < 0x1_0000_0000
  }

  function PlainEntry(p: Plain): Entry {
    Entry(FatbinFileHeader(HEADER_KIND_PTX, HEADER_VERSION_CURRENT, FILE_HEADER_SIZE, |p.text| + p.padding,
                           0, 0, 0, 0, 0, 0, 0, 0, 0, 0),
          p.text + Zeros(p.padding))
  }

  lemma PlainEntryDelivers(c: Codecs, utf8: seq<byte> -> bool, p: Plain)
    requires Packable(utf8, p)
    ensures WellFramed(PlainEntry(p)) && Delivers(c, utf8, PlainEntry(p), Some(p.text))
  {
    StoredTextDelivers(c, utf8, PlainEntry(p), p.text, p.padding);
  }

  function PackPlain(ps: seq<Plain>): (r: Packed)
    ensures |r.entries| == |r.texts| == |ps|
    ensures forall i :: 0 <= i < |ps| ==> r.entries[i] == PlainEntry(ps[i]) && r.texts[i] == Some(ps[i].text)
  {
    Packed(seq(|ps|, i requires 0 <= i < |ps| => PlainEntry(ps[i])),
           seq(|ps|, i requires 0 <= i < |ps| => Some(ps[i].text)), [])
  }

  function TextsOf(ps: seq<Plain>): (r: seq<seq<byte>>)
    ensures |r| == |ps|
    ensures forall i :: 0 <= i < |ps| ==> r[i] == ps[i].text
  {
    seq(|ps|, i requires 0 <= i < |ps| => ps[i].text)
  }

  lemma {:induction false} PresentAll(texts: seq<Option<seq<byte>>>)
    requires forall i :: 0 <= i < |texts| ==> texts[i].Some?
    ensures |Present(texts)| == |texts|
    ensures forall i :: 0 <= i < |texts| ==> Present(texts)[i] == texts[i].value
  {
    if texts != [] {
      PresentAll(texts[1..]);
    }
  }

  lemma PackPlainHolds(mem: seq<byte>, c: Codecs, utf8: seq<byte> -> bool, s: Slice, ps: seq<Plain>)
    requires forall i :: 0 <= i < |ps| ==> Packable(utf8, ps[i])
    requires Shows(mem, s, Pack(PackPlain(ps).entries))
    ensures Holds(mem, c, utf8, s, PackPlain(ps))
  {
    var p := PackPlain(ps);
    forall i {:trigger p.entries[i]} | 0 <= i < |ps|
      ensures WellFramed(p.entries[i]) && Delivers(c, utf8, p.entries[i], p.texts[i])
    {
      PlainEntryDelivers(c, utf8, ps[i]);
    }
    assert Pack(p.entries) + [] == Pack(p.entries);
  }

  /** Packing any texts that do not end in zero, each padded with any number of zeros, loses nothing. */
  lemma {:induction false} PlainTextsRecovered(
    mem: seq<byte>, c: Codecs, utf8: seq<byte> -> bool, s: Slice, ps: seq<Plain>)
    requires forall i :: 0 <= i < |ps| ==> Packable(utf8, ps[i])
    requires Shows(mem, s, Pack(PackPlain(ps).entries))
    ensures Productive(mem, s) && ItemsReadable(mem, Yield(mem, s))
    ensures PtxOfItems(mem, c, utf8, Yield(mem, s)) == TextsOf(ps)
  {
    PackPlainHolds(mem, c, utf8, s, ps);
    SubmoduleDelivers(mem, c, utf8, s, PackPlain(ps));
    PresentPlain(ps);
  }

  lemma PresentPlain(ps: seq<Plain>)
    ensures Present(PackPlain(ps).texts) == TextsOf(ps)
  {
    PresentAll(PackPlain(ps).texts);
  }
}
