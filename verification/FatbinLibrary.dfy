/**
 Whole fatbins: the wrapper, its one or several submodules, and the walk over all of their files.
 */
module FatbinLibrary {
  import opened Wrappers
  import opened Seqs
  import opened Bytes
  import opened FatbinLayout
  import opened FatbinFiles
  import opened FatbinContent
  import Lz4

  const NULL: nat := 0
  const POINTER_SIZE := 8
  const WRAPPER_VERSIONS: seq<nat> := [WRAPPER_VERSION_V1, WRAPPER_VERSION_V2]

  // ----- parsing the two outer headers -----

  /** A reference to a submodule's header: its address. */
  datatype FatbinSubmodule = FatbinSubmodule(header: nat)

  function ParseFatbincWrapper(mem: seq<byte>, p: nat): (r: Result<nat, ParseError>)
    requires p == NULL || p + WRAPPER_SIZE <= |mem|
    ensures p == 0 ==> r == Err(NullPointer("FatbincWrapper"))
    ensures p != 0 ==>
              var w := WrapperAt(mem, p);
              r == if w.magic != 0x466243B1 then Err(UnexpectedBinaryField("FATBINC_MAGIC", w.magic, [0x466243B1]))
                   else if w.version != 1 && w.version != 2
                   then Err(UnexpectedBinaryField("FATBINC_VERSION", w.version, [1, 2]))
                   else Ok(p)
  {
    if p == NULL then Err(NullPointer("FatbincWrapper"))
    else
      match CheckFields("FATBINC_MAGIC", WrapperAt(mem, p).magic, [WRAPPER_MAGIC])
      case Err(e) => Err(e)
      case Ok(_) =>
        match CheckFields("FATBINC_VERSION", WrapperAt(mem, p).version, WRAPPER_VERSIONS)
        case Err(e) => Err(e)
        case Ok(_) => Ok(p)
  }

  function ParseFatbinHeader(mem: seq<byte>, p: nat): (r: Result<nat, ParseError>)
    requires p == NULL || p + FATBIN_HEADER_SIZE <= |mem|
    ensures p == 0 ==> r == Err(NullPointer("FatbinHeader"))
    ensures p != 0 ==>
              var h := FatbinHeaderAt(mem, p);
              r == if h.magic != 0xBA55ED50 then Err(UnexpectedBinaryField("FATBIN_MAGIC", h.magic, [0xBA55ED50]))
                   else if h.version != 1 then Err(UnexpectedBinaryField("FATBIN_VERSION", h.version, [1]))
                   else Ok(p)
  {
    if p == NULL then Err(NullPointer("FatbinHeader"))
    else
      match CheckFields("FATBIN_MAGIC", FatbinHeaderAt(mem, p).magic, [FATBIN_MAGIC])
      case Err(e) => Err(e)
      case Ok(_) =>
        match CheckFields("FATBIN_VERSION", FatbinHeaderAt(mem, p).version, [FATBIN_VERSION])
        case Err(e) => Err(e)
        case Ok(_) => Ok(p)
  }

  // ----- submodules -----

  function PointerAt(mem: seq<byte>, p: nat): nat
    requires p + POINTER_SIZE <= |mem|
  {
    FromLE(View(mem, Slice(p, POINTER_SIZE)))
  }

  /** From `p` on there are pointers up to a null one. */
  predicate NullTerminated(mem: seq<byte>, p: nat)
    decreases |mem| - p
  {
    && p + POINTER_SIZE <= |mem|
    && (PointerAt(mem, p) != NULL ==> NullTerminated(mem, p + POINTER_SIZE))
  }

  /** The pointers before the first null one. */
  function Pointers(mem: seq<byte>, p: nat): seq<nat>
    requires NullTerminated(mem, p)
    decreases |mem| - p
  {
    if PointerAt(mem, p) == NULL then [] else [PointerAt(mem, p)] + Pointers(mem, p + POINTER_SIZE)
  }

  lemma {:induction false} PointersAreTheList(mem: seq<byte>, p: nat, n: nat)
    requires NullTerminated(mem, p) && n <= |Pointers(mem, p)|
    ensures p + 8 * n + 8 <= |mem|
    ensures n < |Pointers(mem, p)| ==> Pointers(mem, p)[n] == FromLE(mem[p + 8 * n..p + 8 * n + 8]) != 0
    ensures n == |Pointers(mem, p)| ==> FromLE(mem[p + 8 * n..p + 8 * n + 8]) == 0
    decreases n
  {
    if n > 0 {
      PointersAreTheList(mem, p + POINTER_SIZE, n - 1);
    }
  }

  class FatbinSubmoduleIterator {
    const mem: seq<byte>
    var fatbins: nat

    ghost predicate Valid()
      reads this
    {
      NullTerminated(mem, fatbins)
    }

    ghost function Remaining(): seq<nat>
      reads this
      requires Valid()
    {
      Pointers(mem, fatbins)
    }

    constructor (mem: seq<byte>, fatbins: nat)
      requires NullTerminated(mem, fatbins)
      ensures Valid() && this.mem == mem && this.fatbins == fatbins
    {
      this.mem := mem;
      this.fatbins := fatbins;
    }

    /** At the null pointer the cursor stays where it is, so every later call returns `None` too. */
    method Next() returns (r: Option<Result<FatbinSubmodule, ParseError>>)
      requires Valid()
      modifies this
      ensures Valid()
      ensures old(Remaining()) == [] ==> r == None && fatbins == old(fatbins)
      ensures old(Remaining()) != [] ==>
                && r == Some(Ok(FatbinSubmodule(old(Remaining())[0])))
                && Remaining() == old(Remaining())[1..]
    {
      if PointerAt(mem, fatbins) != NULL {
        var header := PointerAt(mem, fatbins);
        fatbins := fatbins + POINTER_SIZE;
        r := Some(Ok(FatbinSubmodule(header)));
      } else {
        r := None;
      }
    }
  }

  datatype IterKind = V1(opt: Option<FatbinSubmodule>) | V2(iter: FatbinSubmoduleIterator)

  class FatbinIter {
    const mem: seq<byte>
    var kind: IterKind

    ghost function Footprint(): set<object>
      reads this
    {
      if kind.V2? then {kind.iter} else {}
    }

    ghost predicate Valid()
      reads this, Footprint()
    {
      kind.V2? ==> kind.iter.mem == mem && kind.iter.Valid()
    }

    /** The submodules still to come. */
    ghost function Remaining(): seq<nat>
      reads this, Footprint()
      requires Valid()
    {
      match kind
      case V1(None) => []
      case V1(Some(m)) => [m.header]
      case V2(iter) => iter.Remaining()
    }

    constructor (mem: seq<byte>, kind: IterKind)
      requires kind.V2? ==> kind.iter.mem == mem && kind.iter.Valid()
      ensures this.mem == mem && this.kind == kind
    {
      this.mem := mem;
      this.kind := kind;
    }

    method Next() returns (r: Option<Result<FatbinSubmodule, ParseError>>)
      requires Valid()
      modifies this, Footprint()
      ensures Valid() && Footprint() == old(Footprint()) && kind.V2? == old(kind.V2?)
      ensures old(Remaining()) == [] ==> r == None && Remaining() == []
      ensures old(Remaining()) != [] ==>
                && r == Some(Ok(FatbinSubmodule(old(Remaining())[0])))
                && Remaining() == old(Remaining())[1..]
    {
      match kind {
        case V1(opt) =>
          kind := V1(None);
          r := match opt case Some(m) => Some(Ok(m)) case None => None;
        case V2(iter) =>
          r := iter.Next();
      }
    }
  }

  /** The memory `get_submodules` and the list walk read. */
  predicate WrapperReadable(mem: seq<byte>, wrapper: nat) {
    && wrapper + WRAPPER_SIZE <= |mem|
    && var w := WrapperAt(mem, wrapper);
       && (w.version == WRAPPER_VERSION_V2 ==> NullTerminated(mem, w.filenameOrFatbins))
       && (w.version == WRAPPER_VERSION_V1 ==> w.data == NULL || w.data + FATBIN_HEADER_SIZE <= |mem|)
  }

  predicate IsMulti(mem: seq<byte>, wrapper: nat)
    requires WrapperReadable(mem, wrapper)
  {
    WrapperAt(mem, wrapper).version == WRAPPER_VERSION_V2
  }

  /** The headers a wrapper leads to: one that is checked, or a list of ones that are not. */
  function Submodules(mem: seq<byte>, wrapper: nat): Result<seq<nat>, FatbinError>
    requires WrapperReadable(mem, wrapper)
  {
    var w := WrapperAt(mem, wrapper);
    if w.version == WRAPPER_VERSION_V2 then
      Ok(Pointers(mem, w.filenameOrFatbins))
    else if w.version == WRAPPER_VERSION_V1 then
      match ParseFatbinHeader(mem, w.data)
      case Ok(header) => Ok([header])
      case Err(e) => Err(ParseFailure(e))
    else
      Err(ParseFailure(UnexpectedBinaryField("FATBINC_VERSION", w.version, WRAPPER_VERSIONS)))
  }

  method GetSubmodules(mem: seq<byte>, wrapper: nat) returns (r: Result<FatbinIter, FatbinError>)
    requires WrapperReadable(mem, wrapper)
    ensures r.Err? <==> Submodules(mem, wrapper).Err?
    ensures r.Err? ==> r.error == Submodules(mem, wrapper).error
    ensures r.Ok? ==>
              && fresh(r.value) && fresh(r.value.Footprint()) && r.value.mem == mem && r.value.Valid()
              && r.value.kind.V2? == IsMulti(mem, wrapper)
              && Submodules(mem, wrapper) == Ok(r.value.Remaining())
  {
    var w := WrapperAt(mem, wrapper);
    if w.version == WRAPPER_VERSION_V2 {
      var list := new FatbinSubmoduleIterator(mem, w.filenameOrFatbins);
      var iter := new FatbinIter(mem, V2(list));
      return Ok(iter);
    } else if w.version == WRAPPER_VERSION_V1 {
      match ParseFatbinHeader(mem, w.data) {
        case Ok(header) =>
          var iter := new FatbinIter(mem, V1(Some(FatbinSubmodule(header))));
          return Ok(iter);
        case Err(e) =>
          return Err(ParseFailure(e));
      }
    } else {
      return Err(ParseFailure(UnexpectedBinaryField("FATBINC_VERSION", w.version, WRAPPER_VERSIONS)));
    }
  }

  // ----- walking all files -----

  datatype CodeLibraryRef =
    | FatbincWrapper(wrapper: nat)
    | FatbinHeader(header: nat)
    | Text(text: seq<byte>)
    | Elf(elf: nat)
    | Archive(archive: nat)

  datatype CodeModuleRef =
    | File(file: FatbinFile)
    | TextModule(text: seq<byte>)
    | ElfModule(elf: nat)
    | ArchiveModule(ar: nat)

  /** The index a callback is given: a number, and a second one below it. */
  type Index = Option<(nat, Option<nat>)>

  /** One call of the callback. */
  datatype Event = Event(index: Index, mod: Result<CodeModuleRef, FatbinError>)

  function ToModule(item: Item): Result<CodeModuleRef, FatbinError> {
    match item
    case Ok(file) => Ok(File(file))
    case Err(e) => Err(ParseFailure(e))
  }

  /** A submodule whose files lie in memory and whose iteration ends. */
  predicate SubmoduleReadable(mem: seq<byte>, header: nat) {
    && header + FATBIN_HEADER_SIZE <= |mem|
    && InBounds(mem, FilesOf(mem, header))
    && Productive(mem, FilesOf(mem, header))
  }

  function Files(mem: seq<byte>, header: nat): seq<Item>
    requires SubmoduleReadable(mem, header)
  {
    Yield(mem, FilesOf(mem, header))
  }

  /** The index reported for file `i` when the module index is `k`, or absent in a multi-module fatbin. */
  function FileIndex(k: Option<nat>, i: nat): Index {
    match k
    case Some(index) => Some((index, Some(i)))
    case None => Some((i, None))
  }

  function FileEvents(k: Option<nat>, items: seq<Item>): (events: seq<Event>)
    ensures |events| == |items|
    ensures forall i :: 0 <= i < |items| ==> events[i] == Event(FileIndex(k, i), ToModule(items[i]))
  {
    seq(|items|, i requires 0 <= i < |items| => Event(FileIndex(k, i), ToModule(items[i])))
  }

  function NextIndex(k: Option<nat>): Option<nat> {
    match k
    case Some(index) => Some(index + 1)
    case None => None
  }

  /** The events of a walk over submodules with these files. */
  function WalkEvents(k: Option<nat>, lists: seq<seq<Item>>): seq<Event>
    decreases |lists|
  {
    if lists == [] then [] else FileEvents(k, lists[0]) + WalkEvents(NextIndex(k), lists[1..])
  }

  predicate AllReadable(mem: seq<byte>, headers: seq<nat>) {
    forall i :: 0 <= i < |headers| ==> SubmoduleReadable(mem, headers[i])
  }

  function FileLists(mem: seq<byte>, headers: seq<nat>): (lists: seq<seq<Item>>)
    requires AllReadable(mem, headers)
    ensures |lists| == |headers|
    ensures forall i :: 0 <= i < |headers| ==> lists[i] == Files(mem, headers[i])
  {
    seq(|headers|, i requires 0 <= i < |headers| => Files(mem, headers[i]))
  }

  predicate LibraryReadable(mem: seq<byte>, lib: CodeLibraryRef) {
    match lib
    case FatbincWrapper(w) =>
      && WrapperReadable(mem, w)
      && (Submodules(mem, w).Ok? ==> AllReadable(mem, Submodules(mem, w).value))
    case FatbinHeader(h) => SubmoduleReadable(mem, h)
    case _ => true
  }

  function Events(mem: seq<byte>, lib: CodeLibraryRef): seq<Event>
    requires LibraryReadable(mem, lib)
  {
    match lib
    case FatbincWrapper(w) =>
      (match Submodules(mem, w)
       case Ok(headers) => WalkEvents(if IsMulti(mem, w) then None else Some(0), FileLists(mem, headers))
       case Err(e) => [Event(None, Err(e))])
    case FatbinHeader(h) => FileEvents(None, Files(mem, h))
    case Text(t) => [Event(None, Ok(TextModule(t)))]
    case Elf(p) => [Event(None, Ok(ElfModule(p)))]
    case Archive(p) => [Event(None, Ok(ArchiveModule(p)))]
  }

  lemma YieldStep(mem: seq<byte>, s: Slice, done: seq<Item>)
    requires InBounds(mem, s) && Productive(mem, s)
    ensures NextItem(mem, s).None? ==> Yield(mem, s) == []
    ensures NextItem(mem, s).Some? ==>
              && Productive(mem, NextBuffer(mem, s)) && NextBuffer(mem, s).len < s.len
              && done + Yield(mem, s) == done + [NextItem(mem, s).value] + Yield(mem, NextBuffer(mem, s))
  {
    if HasEntry(s) {
      Assoc(done, [NextItem(mem, s).value], Yield(mem, NextBuffer(mem, s)));
    }
  }

  lemma FileEventsAppend(k: Option<nat>, items: seq<Item>, item: Item)
    ensures FileEvents(k, items + [item]) == FileEvents(k, items) + [Event(FileIndex(k, |items|), ToModule(item))]
  {
  }

  method IterateFatbinHeader(mem: seq<byte>, k: Option<nat>, submodule: FatbinSubmodule) returns (events: seq<Event>)
    requires SubmoduleReadable(mem, submodule.header)
    ensures events == FileEvents(k, Files(mem, submodule.header))
  {
    var iter := new FatbinFileIterator(mem, submodule.header);
    events := [];
    var index := 0;
    ghost var done: seq<Item> := [];
    ghost var items := Files(mem, submodule.header);
    while true
      invariant iter.Valid() && iter.mem == mem && Productive(mem, iter.fileBuffer)
      invariant items == done + Yield(mem, iter.fileBuffer)
      invariant index == |done| && events == FileEvents(k, done)
      decreases iter.fileBuffer.len
    {
      YieldStep(mem, iter.fileBuffer, done);
      var file := iter.Next();
      if file.None? {
        break;
      }
      events := events + [Event(FileIndex(k, index), ToModule(file.value))];
      index := index + 1;
      FileEventsAppend(k, done, file.value);
      done := done + [file.value];
    }
  }

  method WalkSubmodules(mem: seq<byte>, iter: FatbinIter, ghost headers: seq<nat>) returns (events: seq<Event>)
    requires iter.Valid() && iter.mem == mem
    requires headers == iter.Remaining() && AllReadable(mem, headers)
    modifies iter, iter.Footprint()
    ensures events == WalkEvents(if old(iter.kind.V2?) then None else Some(0), FileLists(mem, headers))
    ensures iter.Valid() && iter.Remaining() == []
  {
    var moduleIndex := if iter.kind.V2? then None else Some(0);
    events := [];
    ghost var rest := headers;
    ghost var all := WalkEvents(moduleIndex, FileLists(mem, rest));
    ghost var foot := iter.Footprint();
    while true
      invariant iter.Valid() && iter.Footprint() == foot
      invariant rest == iter.Remaining() && AllReadable(mem, rest)
      invariant all == events + WalkEvents(moduleIndex, FileLists(mem, rest))
      decreases |rest|
    {
      var maybeSubmodule := iter.Next();
      if maybeSubmodule.None? {
        break;
      }
      match maybeSubmodule.value {
        case Ok(submodule) =>
          WalkStep(mem, moduleIndex, rest, events);
          var fileEvents := IterateFatbinHeader(mem, moduleIndex, submodule);
          events := events + fileEvents;
          rest := rest[1..];
        case Err(err) =>
          assert false; // a pointer that is not null is never reported as null
      }
      moduleIndex := NextIndex(moduleIndex);
    }
  }

  method IterateModules(mem: seq<byte>, lib: CodeLibraryRef) returns (events: seq<Event>)
    requires LibraryReadable(mem, lib)
    ensures events == Events(mem, lib)
  {
    match lib {
      case FatbincWrapper(w) =>
        var moduleIter := GetSubmodules(mem, w);
        match moduleIter {
          case Ok(iter) =>
            events := WalkSubmodules(mem, iter, iter.Remaining());
          case Err(err) =>
            events := [Event(None, Err(err))];
        }
      case FatbinHeader(h) =>
        events := IterateFatbinHeader(mem, None, FatbinSubmodule(h));
      case Text(t) => events := [Event(None, Ok(TextModule(t)))];
      case Elf(p) => events := [Event(None, Ok(ElfModule(p)))];
      case Archive(p) => events := [Event(None, Ok(ArchiveModule(p)))];
    }
  }

  lemma WalkStep(mem: seq<byte>, k: Option<nat>, headers: seq<nat>, events: seq<Event>)
    requires headers != [] && AllReadable(mem, headers)
    ensures AllReadable(mem, headers[1..])
    ensures events + WalkEvents(k, FileLists(mem, headers))
         == events + FileEvents(k, Files(mem, headers[0])) + WalkEvents(NextIndex(k), FileLists(mem, headers[1..]))
  {
    var lists := FileLists(mem, headers);
    assert lists[1..] == FileLists(mem, headers[1..]);
    Assoc(events, FileEvents(k, lists[0]), WalkEvents(NextIndex(k), lists[1..]));
  }
}
