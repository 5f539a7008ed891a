/**
 The file iterator of a fatbin submodule: a cursor over a buffer of framed entries.

 An entry is a 64-byte header, any further header bytes, and a body. The distance to the next
 entry is computed from the header; an entry that claims more than the buffer holds is still
 yielded, but empties the buffer.
 */
module FatbinFiles {
  import opened Wrappers
  import opened Seqs
  import opened Bytes
  import opened FatbinLayout

  datatype ParseError =
    | NullPointer(name: string)
    | UnexpectedBinaryField(fieldName: string, observed: nat, expected: seq<nat>)

  function CheckFields(name: string, observed: nat, expected: seq<nat>): Result<(), ParseError> {
    if observed in expected then Ok(()) else Err(UnexpectedBinaryField(name, observed, expected))
  }

  /** A reference to an entry's header: its address. */
  datatype FatbinFile = FatbinFile(header: nat)

  type Item = Result<FatbinFile, ParseError>

  function Max(a: nat, b: nat): nat {
    if a < b then b else a
  }

  /** `header_size + max(payload_size, compressed_size)`: two `u32` values, so no overflow in a 64-bit `usize`. */
  function Extent(h: FatbinFileHeader): nat {
    h.headerSize + Max(h.payloadSize, h.compressedSize)
  }

  function ExtentAt(mem: seq<byte>, p: nat): nat
    requires p + FILE_HEADER_SIZE <= |mem|
  {
    Extent(FileHeaderAt(mem, p))
  }

  function CheckVersion(h: FatbinFileHeader, p: nat): Item {
    if h.version == HEADER_VERSION_CURRENT then Ok(FatbinFile(p))
    else Err(UnexpectedBinaryField("FATBIN_FILE_HEADER_VERSION_CURRENT", h.version, [HEADER_VERSION_CURRENT]))
  }

  // ----- one call of `next` -----

  predicate HasEntry(s: Slice) {
    s.len >= FILE_HEADER_SIZE
  }

  function NextItem(mem: seq<byte>, s: Slice): Option<Item>
    requires InBounds(mem, s)
  {
    if HasEntry(s) then Some(CheckVersion(FileHeaderAt(mem, s.ptr), s.ptr)) else None
  }

  function NextBuffer(mem: seq<byte>, s: Slice): (s': Slice)
    requires InBounds(mem, s)
    ensures InBounds(mem, s') && s'.len <= s.len
  {
    if !HasEntry(s) then s
    else
      var n := ExtentAt(mem, s.ptr);
      if n <= s.len then Slice(s.ptr + n, s.len - n) else EMPTY_SLICE
  }

  function FilesOf(mem: seq<byte>, header: nat): Slice
    requires header + FATBIN_HEADER_SIZE <= |mem|
  {
    var h := FatbinHeaderAt(mem, header);
    Slice(header + h.headerSize, h.filesSize)
  }

  class FatbinFileIterator {
    const mem: seq<byte>
    var fileBuffer: Slice

    ghost predicate Valid()
      reads this
    {
      InBounds(mem, fileBuffer)
    }

    /** The files follow the submodule's header; `unsafe`: the caller vouches for their memory. */
    constructor (mem: seq<byte>, header: nat)
      requires header + FATBIN_HEADER_SIZE <= |mem|
      requires InBounds(mem, FilesOf(mem, header))
      ensures Valid() && this.mem == mem && fileBuffer == FilesOf(mem, header)
    {
      this.mem := mem;
      var start := header + FatbinHeaderAt(mem, header).headerSize;
      fileBuffer := Slice(start, FatbinHeaderAt(mem, header).filesSize);
    }

    method Next() returns (r: Option<Item>)
      requires Valid()
      modifies this
      ensures Valid()
      ensures r == NextItem(mem, old(fileBuffer))
      ensures fileBuffer == NextBuffer(mem, old(fileBuffer))
    {
      if fileBuffer.len < FILE_HEADER_SIZE {
        return None;
      }
      var header := FileHeaderAt(mem, fileBuffer.ptr);
      var ptr := fileBuffer.ptr;
      var n := header.headerSize + Max(header.payloadSize, header.compressedSize);
      // split_at_checked(n), falling back to the empty slice
      fileBuffer := if n <= fileBuffer.len then Slice(ptr + n, fileBuffer.len - n) else EMPTY_SLICE;
      match CheckFields("FATBIN_FILE_HEADER_VERSION_CURRENT", header.version, [HEADER_VERSION_CURRENT]) {
        case Ok(_) => r := Some(Ok(FatbinFile(ptr)));
        case Err(e) => r := Some(Err(e));
      }
    }
  }

  // ----- repeated calls -----

  /** The buffer after `n` calls. */
  function After(mem: seq<byte>, s: Slice, n: nat): (s': Slice)
    requires InBounds(mem, s)
    ensures InBounds(mem, s') && s'.len <= s.len
    decreases n
  {
    if n == 0 then s else After(mem, NextBuffer(mem, s), n - 1)
  }

  /** What call number `n` returns, counting from 0. */
  function Nth(mem: seq<byte>, s: Slice, n: nat): Option<Item>
    requires InBounds(mem, s)
  {
    NextItem(mem, After(mem, s, n))
  }

  lemma {:induction false} AfterStep(mem: seq<byte>, s: Slice, n: nat)
    requires InBounds(mem, s)
    ensures After(mem, s, n + 1) == NextBuffer(mem, After(mem, s, n))
    decreases n
  {
    if n > 0 {
      AfterStep(mem, NextBuffer(mem, s), n - 1);
    }
  }

  // ----- termination -----

  /** No header the iteration visits has a zero extent; a zero extent would be visited forever. */
  predicate Productive(mem: seq<byte>, s: Slice)
    requires InBounds(mem, s)
    decreases s.len
  {
    HasEntry(s) ==> ExtentAt(mem, s.ptr) > 0 && Productive(mem, NextBuffer(mem, s))
  }

  ghost predicate Exhausted(mem: seq<byte>, s: Slice, n: nat)
    requires InBounds(mem, s)
  {
    !HasEntry(After(mem, s, n))
  }

  /** The iteration comes to an end exactly when no visited header has a zero extent. */
  lemma {:induction false} TerminationIff(mem: seq<byte>, s: Slice)
    requires InBounds(mem, s)
    ensures (exists n: nat :: Exhausted(mem, s, n)) <==>
            (forall n: nat :: HasEntry(After(mem, s, n)) ==> ExtentAt(mem, After(mem, s, n).ptr) > 0)
    ensures (exists n: nat :: Exhausted(mem, s, n)) <==> Productive(mem, s)
  {
    if n: nat :| Exhausted(mem, s, n) {
      EndsImpliesProductive(mem, s, n);
    }
    if Productive(mem, s) {
      ProductiveEnds(mem, s);
      forall n: nat | HasEntry(After(mem, s, n)) ensures ExtentAt(mem, After(mem, s, n).ptr) > 0 {
        ProductiveVisits(mem, s, n);
      }
    } else {
      var n := StuckHeader(mem, s);
    }
  }

  lemma {:induction false} EndsImpliesProductive(mem: seq<byte>, s: Slice, n: nat)
    requires InBounds(mem, s) && Exhausted(mem, s, n)
    ensures Productive(mem, s)
    decreases n
  {
    if HasEntry(s) {
      assert n > 0;
      EndsImpliesProductive(mem, NextBuffer(mem, s), n - 1);
      if ExtentAt(mem, s.ptr) == 0 {
        Stuck(mem, s, n);
      }
    }
  }

  lemma {:induction false} Stuck(mem: seq<byte>, s: Slice, n: nat)
    requires InBounds(mem, s) && HasEntry(s) && ExtentAt(mem, s.ptr) == 0
    ensures After(mem, s, n) == s
    decreases n
  {
    if n > 0 {
      Stuck(mem, s, n - 1);
    }
  }

  /** A productive iteration of `len` bytes is over after at most `len` calls. */
  lemma {:induction false} ProductiveEnds(mem: seq<byte>, s: Slice)
    requires InBounds(mem, s) && Productive(mem, s)
    ensures exists n: nat :: n <= s.len && Exhausted(mem, s, n)
    decreases s.len
  {
    if HasEntry(s) {
      var s' := NextBuffer(mem, s);
      ProductiveEnds(mem, s');
      var n: nat :| n <= s'.len && Exhausted(mem, s', n);
      assert Exhausted(mem, s, n + 1);
    } else {
      assert Exhausted(mem, s, 0);
    }
  }

  lemma {:induction false} ProductiveVisits(mem: seq<byte>, s: Slice, n: nat)
    requires InBounds(mem, s) && Productive(mem, s) && HasEntry(After(mem, s, n))
    ensures ExtentAt(mem, After(mem, s, n).ptr) > 0
    decreases n
  {
    if n > 0 {
      ProductiveVisits(mem, NextBuffer(mem, s), n - 1);
    }
  }

  lemma {:induction false} StuckHeader(mem: seq<byte>, s: Slice) returns (n: nat)
    requires InBounds(mem, s) && !Productive(mem, s)
    ensures HasEntry(After(mem, s, n)) && ExtentAt(mem, After(mem, s, n).ptr) == 0
    decreases s.len
  {
    if ExtentAt(mem, s.ptr) == 0 {
      n := 0;
    } else {
      n := StuckHeader(mem, NextBuffer(mem, s));
      n := n + 1;
    }
  }

  /** All the items of a terminating iteration. */
  function Yield(mem: seq<byte>, s: Slice): seq<Item>
    requires InBounds(mem, s) && Productive(mem, s)
    decreases s.len
  {
    if !HasEntry(s) then []
    else [NextItem(mem, s).value] + Yield(mem, NextBuffer(mem, s))
  }

  lemma {:induction false} AfterExhausted(mem: seq<byte>, s: Slice, n: nat)
    requires InBounds(mem, s) && !HasEntry(s)
    ensures After(mem, s, n) == s
    decreases n
  {
    if n > 0 {
      AfterExhausted(mem, s, n - 1);
    }
  }

  /** Calls return the items in order, and then `None` forever. */
  lemma {:induction false} YieldIsNth(mem: seq<byte>, s: Slice, n: nat)
    requires InBounds(mem, s) && Productive(mem, s)
    ensures Nth(mem, s, n) == if n < |Yield(mem, s)| then Some(Yield(mem, s)[n]) else None
    decreases n
  {
    if !HasEntry(s) {
      AfterExhausted(mem, s, n);
    } else if n > 0 {
      YieldIsNth(mem, NextBuffer(mem, s), n - 1);
    }
  }

  /** With headers that count themselves, at most one item per 64 bytes is yielded. */
  lemma {:induction false} YieldBound(mem: seq<byte>, s: Slice)
    requires InBounds(mem, s)
    requires forall n: nat :: HasEntry(After(mem, s, n)) ==>
               FileHeaderAt(mem, After(mem, s, n).ptr).headerSize >= FILE_HEADER_SIZE
    ensures Productive(mem, s)
    ensures |Yield(mem, s)| <= s.len / FILE_HEADER_SIZE
    decreases s.len
  {
    if HasEntry(s) {
      assert After(mem, s, 0) == s;
      var s' := NextBuffer(mem, s);
      forall n: nat | HasEntry(After(mem, s', n))
        ensures FileHeaderAt(mem, After(mem, s', n).ptr).headerSize >= FILE_HEADER_SIZE
      {
        assert After(mem, s, n + 1) == After(mem, s', n);
      }
      YieldBound(mem, s');
    }
  }

  // ----- tiling -----

  /** What one call consumes: the entry, or all that is left when the entry overruns the buffer. */
  function Span(mem: seq<byte>, s: Slice): (r: Slice)
    requires InBounds(mem, s)
    ensures InBounds(mem, r)
  {
    if !HasEntry(s) then Slice(s.ptr, 0)
    else if ExtentAt(mem, s.ptr) <= s.len then Slice(s.ptr, ExtentAt(mem, s.ptr))
    else s
  }

  function Consumed(mem: seq<byte>, s: Slice, n: nat): seq<byte>
    requires InBounds(mem, s)
    decreases n
  {
    if n == 0 then [] else View(mem, Span(mem, s)) + Consumed(mem, NextBuffer(mem, s), n - 1)
  }

  /** For every buffer and any number of calls, what was consumed and what remains make up the buffer. */
  lemma {:induction false} Tiling(mem: seq<byte>, s: Slice, n: nat)
    requires InBounds(mem, s)
    ensures Consumed(mem, s, n) + View(mem, After(mem, s, n)) == View(mem, s)
    decreases n
  {
    if n > 0 {
      var s' := NextBuffer(mem, s);
      Tiling(mem, s', n - 1);
      SpanThenRest(mem, s);
      Assoc(View(mem, Span(mem, s)), Consumed(mem, s', n - 1), View(mem, After(mem, s', n - 1)));
    }
  }

  lemma SpanThenRest(mem: seq<byte>, s: Slice)
    requires InBounds(mem, s)
    ensures View(mem, Span(mem, s)) + View(mem, NextBuffer(mem, s)) == View(mem, s)
  {
  }

  /** Later entries start after the end of every earlier one, and all of them end with the buffer. */
  lemma {:induction false} EntriesInOrder(mem: seq<byte>, s: Slice, i: nat, j: nat)
    requires InBounds(mem, s) && i < j && HasEntry(After(mem, s, j))
    ensures HasEntry(After(mem, s, i)) && ExtentAt(mem, After(mem, s, i).ptr) <= After(mem, s, i).len
    ensures s.ptr <= After(mem, s, i).ptr
    ensures After(mem, s, i).ptr + ExtentAt(mem, After(mem, s, i).ptr) <= After(mem, s, j).ptr
    ensures After(mem, s, j).ptr + After(mem, s, j).len == s.ptr + s.len
    decreases j
  {
    var s' := NextBuffer(mem, s);
    if i > 0 {
      EntriesInOrder(mem, s', i - 1, j - 1);
    } else if j > 1 {
      EntriesInOrder(mem, s', 0, j - 1);
    }
  }

  function PayloadView(mem: seq<byte>, f: FatbinFile): Slice
    requires f.header + FILE_HEADER_SIZE <= |mem|
  {
    var h := FileHeaderAt(mem, f.header);
    Slice(f.header + h.headerSize, h.payloadSize)
  }

  function CompressedView(mem: seq<byte>, f: FatbinFile): Slice
    requires f.header + FILE_HEADER_SIZE <= |mem|
  {
    var h := FileHeaderAt(mem, f.header);
    Slice(f.header + h.headerSize, h.compressedSize)
  }

  predicate Within(inner: Slice, outer: Slice) {
    outer.ptr <= inner.ptr && inner.ptr + inner.len <= outer.ptr + outer.len
  }

  predicate Before(a: Slice, b: Slice) {
    a.ptr + a.len <= b.ptr
  }

  /**
   Of the entries an iteration visits, only the last can overrun the buffer. The two payload views
   of an entry that does not overrun lie inside the buffer and end before any later entry begins.
   */
  lemma {:induction false} PayloadsDisjoint(mem: seq<byte>, s: Slice, i: nat, j: nat)
    requires InBounds(mem, s) && i < j && HasEntry(After(mem, s, j))
    ensures HasEntry(After(mem, s, i)) && ExtentAt(mem, After(mem, s, i).ptr) <= After(mem, s, i).len
    ensures
      var fi, fj := FatbinFile(After(mem, s, i).ptr), FatbinFile(After(mem, s, j).ptr);
      && Within(PayloadView(mem, fi), s) && Before(PayloadView(mem, fi), PayloadView(mem, fj))
      && Within(CompressedView(mem, fi), s) && Before(CompressedView(mem, fi), CompressedView(mem, fj))
      && (ExtentAt(mem, fj.header) <= After(mem, s, j).len ==>
            Within(PayloadView(mem, fj), s) && Within(CompressedView(mem, fj), s))
  {
    EntriesInOrder(mem, s, i, j);
  }

  // ----- the packed form -----

  /** An entry as a packer writes it: its header, and everything from byte 64 to the next entry. */
  datatype Entry = Entry(header: FatbinFileHeader, rest: seq<byte>)

  /** The header counts itself, and behind it there is room for the larger of the two sizes, and no more. */
  predicate WellFramed(e: Entry) {
    var h := e.header;
    && Fits(h.Values(), FILE_HEADER_WIDTHS)
    && h.headerSize >= 64
    && |e.rest| == h.headerSize - 64 + if h.payloadSize < h.compressedSize then h.compressedSize else h.payloadSize
  }

  function EntryBytes(e: Entry): (b: seq<byte>)
    ensures |b| == FILE_HEADER_SIZE + |e.rest|
  {
    EncodeFileHeader(e.header) + e.rest
  }

  /** The bytes of the slice are these. */
  predicate Shows(mem: seq<byte>, s: Slice, bytes: seq<byte>) {
    InBounds(mem, s) && View(mem, s) == bytes
  }

  /** The entry stands in memory at address `p`. */
  predicate StoredAt(mem: seq<byte>, p: nat, e: Entry) {
    Shows(mem, Slice(p, |EntryBytes(e)|), EntryBytes(e))
  }

  function Pack(es: seq<Entry>): seq<byte> {
    if es == [] then [] else EntryBytes(es[0]) + Pack(es[1..])
  }

  /** Where entry `i` ends up when packing starts at address `p`. */
  function Position(es: seq<Entry>, p: nat, i: nat): nat
    requires i <= |es|
  {
    if i == 0 then p else Position(es[1..], p + |EntryBytes(es[0])|, i - 1)
  }

  lemma {:induction false} PositionIsSum(es: seq<Entry>, p: nat, i: nat)
    requires i <= |es|
    ensures Position(es, p, i) == p + |Pack(es[..i])|
    decreases i
  {
    if i > 0 {
      PositionIsSum(es[1..], p + |EntryBytes(es[0])|, i - 1);
      assert es[..i][1..] == es[1..][..i - 1];
    }
  }

  /** The buffer holds the packed entries and then a tail too short for a header. */
  ghost predicate Packs(mem: seq<byte>, s: Slice, es: seq<Entry>, tail: seq<byte>) {
    && (forall e <- es :: WellFramed(e))
    && |tail| < FILE_HEADER_SIZE
    && Shows(mem, s, Pack(es) + tail)
  }

  lemma PackedHeader(mem: seq<byte>, s: Slice, e: Entry, after: seq<byte>)
    requires WellFramed(e) && Shows(mem, s, EntryBytes(e) + after)
    ensures HasEntry(s) && FileHeaderAt(mem, s.ptr) == e.header
    ensures ExtentAt(mem, s.ptr) == |EntryBytes(e)| <= s.len
    ensures StoredAt(mem, s.ptr, e) && Shows(mem, NextBuffer(mem, s), after)
  {
    var head, b := EncodeFileHeader(e.header), EntryBytes(e);
    ViewPrefix(mem, s, b, after);
    Assoc(head, e.rest, after);
    ViewPrefix(mem, s, head, e.rest + after);
    FileHeaderRoundTrip(e.header);
  }

  lemma ViewPrefix(mem: seq<byte>, s: Slice, a: seq<byte>, b: seq<byte>)
    requires Shows(mem, s, a + b)
    ensures s.len == |a| + |b|
    ensures Shows(mem, Slice(s.ptr, |a|), a) && Shows(mem, Slice(s.ptr + |a|, |b|), b)
  {
    ViewCut(mem, s, |a|);
  }

  lemma PacksStep(mem: seq<byte>, s: Slice, es: seq<Entry>, tail: seq<byte>)
    requires Packs(mem, s, es, tail) && es != []
    ensures HasEntry(s) && FileHeaderAt(mem, s.ptr) == es[0].header
    ensures ExtentAt(mem, s.ptr) == |EntryBytes(es[0])| <= s.len
    ensures NextBuffer(mem, s).ptr == s.ptr + |EntryBytes(es[0])|
    ensures StoredAt(mem, s.ptr, es[0])
    ensures Packs(mem, NextBuffer(mem, s), es[1..], tail)
  {
    assert es[0] in es;
    Assoc(EntryBytes(es[0]), Pack(es[1..]), tail);
    PackedHeader(mem, s, es[0], Pack(es[1..]) + tail);
  }

  function PackedItems(es: seq<Entry>, p: nat): (items: seq<Item>)
    ensures |items| == |es|
  {
    if es == [] then []
    else [CheckVersion(es[0].header, p)] + PackedItems(es[1..], p + |EntryBytes(es[0])|)
  }

  lemma {:induction false} PackedItemAt(es: seq<Entry>, p: nat, n: nat)
    requires n < |es|
    ensures PackedItems(es, p)[n] == CheckVersion(es[n].header, Position(es, p, n))
    decreases n
  {
    if n > 0 {
      PackedItemAt(es[1..], p + |EntryBytes(es[0])|, n - 1);
    }
  }

  lemma {:induction false} PackedYield(mem: seq<byte>, s: Slice, es: seq<Entry>, tail: seq<byte>)
    requires Packs(mem, s, es, tail)
    ensures Productive(mem, s) && Yield(mem, s) == PackedItems(es, s.ptr)
    decreases |es|
  {
    if es == [] {
      assert View(mem, s) == tail;
    } else {
      PacksStep(mem, s, es, tail);
      PackedYield(mem, NextBuffer(mem, s), es[1..], tail);
    }
  }

  /** Entry `n` is found at its position, header and bytes intact. */
  lemma {:induction false} PackedEntryAt(mem: seq<byte>, s: Slice, es: seq<Entry>, tail: seq<byte>, n: nat)
    requires Packs(mem, s, es, tail) && n < |es|
    ensures
      var p := Position(es, s.ptr, n);
      && StoredAt(mem, p, es[n]) && Within(Slice(p, |EntryBytes(es[n])|), s)
      && FileHeaderAt(mem, p) == es[n].header
    decreases n
  {
    PacksStep(mem, s, es, tail);
    if n > 0 {
      PackedEntryAt(mem, NextBuffer(mem, s), es[1..], tail, n - 1);
    }
  }

  /**
   Framing round trip. Iterating over packed entries makes exactly one call succeed per entry, in
   order, and then returns `None` forever; by `PackedEntryAt` each item refers to its own entry's
   bytes. An entry of another version gives an error and leaves the entries behind it in step.
   */
  lemma {:induction false} FramingRoundTrip(mem: seq<byte>, s: Slice, es: seq<Entry>, tail: seq<byte>, n: nat)
    requires Packs(mem, s, es, tail)
    ensures Nth(mem, s, n) ==
              if n >= |es| then None
              else if es[n].header.version == 0x101 then Some(Ok(FatbinFile(s.ptr + |Pack(es[..n])|)))
              else Some(Err(UnexpectedBinaryField("FATBIN_FILE_HEADER_VERSION_CURRENT", es[n].header.version, [0x101])))
  {
    PackedYield(mem, s, es, tail);
    if n < |es| {
      PositionIsSum(es, s.ptr, n);
    }
    if n < |es| {
      PackedItemAt(es, s.ptr, n);
    }
    YieldIsNth(mem, s, n);
  }
}
