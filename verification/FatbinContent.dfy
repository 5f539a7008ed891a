/**
 The contents of one fatbin entry: the two payload views, the decompressors, and the removal of
 the zeros that pad PTX text.
 */
module FatbinContent {
  import opened Wrappers
  import opened Bytes
  import opened FatbinLayout
  import opened FatbinFiles
  import Lz4

  datatype IoError = IoError(kind: nat)

  datatype FatbinError =
    | ParseFailure(parse: ParseError)
    | Lz4DecompressionFailure
    | ZstdDecompressionFailure(code: nat)
    | DeflateDecompressionFailure(io: IoError)

  /**
   The three decompression libraries. Zstandard gets the claimed size as a capacity; zlib grows its
   output by itself.
   */
  datatype Codecs = Codecs(
    lz4: Lz4.Decoder,
    zstd: (seq<byte>, nat) -> Result<seq<byte>, nat>,
    inflate: seq<byte> -> Result<seq<byte>, IoError>)

  /** A `Cow<[u8]>`: a view of the fatbin's own memory, or bytes of its own. */
  datatype Cow = Borrowed(slice: Slice) | Owned(vec: seq<byte>)

  function CowBytes(mem: seq<byte>, cow: Cow): seq<byte>
    requires cow.Borrowed? ==> InBounds(mem, cow.slice)
  {
    match cow
    case Borrowed(slice) => View(mem, slice)
    case Owned(vec) => vec
  }

  predicate HasFlag(flags: nat, flag: nat)
    requires flag > 0
  {
    flags / flag % 2 == 1
  }

  // ----- trailing zeros -----

  predicate EndsInZero(s: seq<byte>) {
    s != [] && s[|s| - 1] == 0
  }

  function StripZeros(s: seq<byte>): seq<byte> {
    if EndsInZero(s) then StripZeros(s[..|s| - 1]) else s
  }

  /** What is stripped is all zeros, and all of them. */
  lemma {:induction false} StripSplits(s: seq<byte>)
    ensures |StripZeros(s)| <= |s| && !EndsInZero(StripZeros(s))
    ensures s == StripZeros(s) + Zeros(|s| - |StripZeros(s)|)
  {
    if EndsInZero(s) {
      StripSplits(s[..|s| - 1]);
      assert s == s[..|s| - 1] + [0];
    }
  }

  /** The only way to write `s` as a text not ending in zero and zeros. So stripping is idempotent. */
  lemma {:induction false} StripUnique(text: seq<byte>, n: nat)
    requires !EndsInZero(text)
    ensures StripZeros(text + Zeros(n)) == text
    decreases n
  {
    var s := text + Zeros(n);
    if n == 0 {
      assert s == text;
    } else {
      assert s[..|s| - 1] == text + Zeros(n - 1);
      StripUnique(text, n - 1);
    }
  }

  /** The borrowed slice shrinks in place: it keeps its address. */
  method StripBorrowed(mem: seq<byte>, slice: Slice) returns (r: Slice)
    requires InBounds(mem, slice)
    ensures r.ptr == slice.ptr && r.len <= slice.len
    ensures View(mem, r) == StripZeros(View(mem, slice))
  {
    r := slice;
    while r.len > 0 && mem[r.ptr + r.len - 1] == 0
      invariant r.ptr == slice.ptr && r.len <= slice.len
      invariant StripZeros(View(mem, r)) == StripZeros(View(mem, slice))
    {
      ViewCut(mem, r, r.len - 1);
      r := Slice(r.ptr, r.len - 1);
    }
  }

  method StripOwned(vec: seq<byte>) returns (r: seq<byte>)
    ensures r == StripZeros(vec)
  {
    r := vec;
    while r != [] && r[|r| - 1] == 0
      invariant StripZeros(r) == StripZeros(vec)
    {
      r := r[..|r| - 1];
    }
  }

  // ----- content -----

  /** The view that is read. For deflate it is the uncompressed one, as in the code. */
  function StoredView(mem: seq<byte>, file: FatbinFile): Slice
    requires file.header + FILE_HEADER_SIZE <= |mem|
  {
    var flags := FileHeaderAt(mem, file.header).flags;
    if HasFlag(flags, COMPRESSED_LZ4) || HasFlag(flags, COMPRESSED_ZSTD) then CompressedView(mem, file)
    else PayloadView(mem, file)
  }

  /** The memory `get_or_decompress_content` reads; it is `unsafe` and leaves this to its caller. */
  predicate Readable(mem: seq<byte>, file: FatbinFile) {
    file.header + FILE_HEADER_SIZE <= |mem| && InBounds(mem, StoredView(mem, file))
  }

  /** What the stored bytes of an entry with this header stand for. */
  function Decompressed(c: Codecs, h: FatbinFileHeader, stored: seq<byte>): Result<seq<byte>, FatbinError> {
    if HasFlag(h.flags, COMPRESSED_LZ4) then
      match Lz4.Retry(c.lz4, stored, Lz4.FirstCapacity(h.uncompressedPayload))
      case Some(bytes) => Ok(bytes)
      case None => Err(Lz4DecompressionFailure)
    else if HasFlag(h.flags, COMPRESSED_ZSTD) then
      match c.zstd(stored, h.uncompressedPayload)
      case Ok(bytes) => Ok(bytes)
      case Err(code) => Err(ZstdDecompressionFailure(code))
    else if HasFlag(h.flags, COMPRESSED_DEFLATE) then
      match c.inflate(stored)
      case Ok(bytes) => Ok(bytes)
      case Err(io) => Err(DeflateDecompressionFailure(io))
    else
      Ok(stored)
  }

  /** The entry's bytes before stripping. */
  function Decoded(mem: seq<byte>, c: Codecs, file: FatbinFile): Result<seq<byte>, FatbinError>
    requires Readable(mem, file)
  {
    Decompressed(c, FileHeaderAt(mem, file.header), View(mem, StoredView(mem, file)))
  }

  function Content(mem: seq<byte>, c: Codecs, file: FatbinFile, strip: bool): Result<seq<byte>, FatbinError>
    requires Readable(mem, file)
  {
    match Decoded(mem, c, file)
    case Err(e) => Err(e)
    case Ok(bytes) =>
      Ok(if strip && FileHeaderAt(mem, file.header).kind == HEADER_KIND_PTX then StripZeros(bytes) else bytes)
  }

  /** Uncompressed content is borrowed from the entry; everything else is owned. */
  method GetOrDecompressContent(mem: seq<byte>, c: Codecs, file: FatbinFile, strip: bool)
    returns (r: Result<Cow, FatbinError>)
    requires Readable(mem, file) && Lz4.RespectsCapacity(c.lz4)
    ensures r.Err? <==> Content(mem, c, file, strip).Err?
    ensures r.Err? ==> r.error == Content(mem, c, file, strip).error
    ensures r.Ok? ==>
              && (r.value.Borrowed? <==>
                    var flags := FileHeaderAt(mem, file.header).flags;
                    flags / 0x1000 % 2 == 0 && flags / 0x2000 % 2 == 0 && flags / 0x8000 % 2 == 0)
              && (r.value.Borrowed? ==> Within(r.value.slice, PayloadView(mem, file))
                                        && r.value.slice.ptr == PayloadView(mem, file).ptr)
              && Content(mem, c, file, strip) == Ok(CowBytes(mem, r.value))
  {
    var h := FileHeaderAt(mem, file.header);
    var payload: Cow;
    if HasFlag(h.flags, COMPRESSED_LZ4) {
      var d := Lz4.DecompressLz4(c.lz4, View(mem, CompressedView(mem, file)), h.uncompressedPayload);
      match d {
        case Some(vec) => payload := Owned(vec);
        case None => return Err(Lz4DecompressionFailure);
      }
    } else if HasFlag(h.flags, COMPRESSED_ZSTD) {
      match c.zstd(View(mem, CompressedView(mem, file)), h.uncompressedPayload) {
        case Ok(vec) => payload := Owned(vec);
        case Err(code) => return Err(ZstdDecompressionFailure(code));
      }
    } else if HasFlag(h.flags, COMPRESSED_DEFLATE) {
      match c.inflate(View(mem, PayloadView(mem, file))) {
        case Ok(vec) => payload := Owned(vec);
        case Err(io) => return Err(DeflateDecompressionFailure(io));
      }
    } else {
      payload := Borrowed(PayloadView(mem, file));
    }
    if strip && h.kind == HEADER_KIND_PTX {
      match payload {
        case Borrowed(slice) =>
          var s := StripBorrowed(mem, slice);
          payload := Borrowed(s);
        case Owned(vec) =>
          var v := StripOwned(vec);
          payload := Owned(v);
      }
    }
    return Ok(payload);
  }

  /** The bits of a flags word: `z` for Zstandard, `l` for LZ4, `d` for deflate, and all the others. */
  predicate FlagBits(flags: nat, high: nat, z: nat, m: nat, l: nat, d: nat, low: nat) {
    && flags == high * 0x1_0000 + z * 0x8000 + m * 0x4000 + l * 0x2000 + d * 0x1000 + low
    && z < 2 && m < 2 && l < 2 && d < 2 && low < 0x1000
  }

  lemma EveryFlags(flags: nat) returns (high: nat, z: nat, m: nat, l: nat, d: nat, low: nat)
    ensures FlagBits(flags, high, z, m, l, d, low)
  {
    var upper := flags / 0x1000;
    low, d, upper := flags % 0x1000, upper % 2, upper / 2;
    l, upper := upper % 2, upper / 2;
    m, upper := upper % 2, upper / 2;
    z, high := upper % 2, upper / 2;
  }

  lemma FlagsTested(flags: nat, high: nat, z: nat, m: nat, l: nat, d: nat, low: nat)
    requires FlagBits(flags, high, z, m, l, d, low)
    ensures HasFlag(flags, COMPRESSED_ZSTD) <==> z == 1
    ensures HasFlag(flags, COMPRESSED_LZ4) <==> l == 1
    ensures HasFlag(flags, COMPRESSED_DEFLATE) <==> d == 1
  {
    assert flags / 0x8000 == high * 2 + z;
    assert flags / 0x2000 == high * 8 + z * 4 + m * 2 + l;
    assert flags / 0x1000 == high * 16 + z * 8 + m * 4 + l * 2 + d;
  }

  /**
   Three bits choose the branch, LZ4 before Zstandard before deflate, and no other bit of the flags
   does. Only a deflated or an uncompressed entry is read through its payload view, and only the
   contents of PTX files, of kind 1, lose their zeros.
   */
  lemma {:induction false} ContentByFlags(
    mem: seq<byte>, c: Codecs, file: FatbinFile, strip: bool,
    high: nat, z: nat, m: nat, l: nat, d: nat, low: nat)
    requires file.header + 64 <= |mem|
    ensures
      FlagBits(FileHeaderAt(mem, file.header).flags, high, z, m, l, d, low)
      && InBounds(mem, if l == 1 || z == 1 then CompressedView(mem, file) else PayloadView(mem, file)) ==>
        && Readable(mem, file)
        && var h, content := FileHeaderAt(mem, file.header), Content(mem, c, file, strip);
           var strips := strip && h.kind == 1;
           if l == 1 then
             var r := Lz4.Retry(c.lz4, View(mem, CompressedView(mem, file)), Lz4.FirstCapacity(h.uncompressedPayload));
             content == if r.None? then Err(Lz4DecompressionFailure)
                        else Ok(if strips then StripZeros(r.value) else r.value)
           else if z == 1 then
             var r := c.zstd(View(mem, CompressedView(mem, file)), h.uncompressedPayload);
             content == if r.Err? then Err(ZstdDecompressionFailure(r.error))
                        else Ok(if strips then StripZeros(r.value) else r.value)
           else if d == 1 then
             var r := c.inflate(View(mem, PayloadView(mem, file)));
             content == if r.Err? then Err(DeflateDecompressionFailure(r.error))
                        else Ok(if strips then StripZeros(r.value) else r.value)
           else
             var r := View(mem, PayloadView(mem, file));
             content == Ok(if strips then StripZeros(r) else r)
  {
    var flags := FileHeaderAt(mem, file.header).flags;
    if FlagBits(flags, high, z, m, l, d, low) {
      FlagsTested(flags, high, z, m, l, d, low);
    }
  }

  // ----- what a packer must store for a text to come back -----

  /** Bytes of a well-framed entry that its header's sizes delimit. */
  function PayloadOf(e: Entry): seq<byte>
    requires WellFramed(e)
  {
    e.rest[e.header.headerSize - FILE_HEADER_SIZE..][..e.header.payloadSize]
  }

  function CompressedOf(e: Entry): seq<byte>
    requires WellFramed(e)
  {
    e.rest[e.header.headerSize - FILE_HEADER_SIZE..][..e.header.compressedSize]
  }

  function StoredOf(e: Entry): seq<byte>
    requires WellFramed(e)
  {
    if HasFlag(e.header.flags, COMPRESSED_LZ4) || HasFlag(e.header.flags, COMPRESSED_ZSTD) then CompressedOf(e)
    else PayloadOf(e)
  }

  /** What a well-framed entry decodes to, wherever it is put. */
  function EntryDecoded(c: Codecs, e: Entry): Result<seq<byte>, FatbinError>
    requires WellFramed(e)
  {
    Decompressed(c, e.header, StoredOf(e))
  }

  /** The entry stores `raw`: plainly, or compressed so that the chosen library recovers it. */
  ghost predicate Stores(c: Codecs, e: Entry, raw: seq<byte>)
    requires WellFramed(e)
  {
    var h := e.header;
    if HasFlag(h.flags, COMPRESSED_LZ4) then
      && h.compressedSize < 0x8000_0000
      && Lz4.Decodes(c.lz4, CompressedOf(e), raw)
      && Lz4.Reaches(h.uncompressedPayload, |raw|)
    else if HasFlag(h.flags, COMPRESSED_ZSTD) then
      c.zstd(CompressedOf(e), h.uncompressedPayload) == Ok(raw)
    else if HasFlag(h.flags, COMPRESSED_DEFLATE) then
      c.inflate(PayloadOf(e)) == Ok(raw)
    else
      PayloadOf(e) == raw
  }

  lemma EntryHeader(mem: seq<byte>, p: nat, e: Entry)
    requires WellFramed(e) && StoredAt(mem, p, e)
    ensures FileHeaderAt(mem, p) == e.header
  {
    assert EntryBytes(e) + [] == EntryBytes(e);
    PackedHeader(mem, Slice(p, |EntryBytes(e)|), e, []);
  }

  lemma BodyView(mem: seq<byte>, p: nat, e: Entry, n: nat)
    requires WellFramed(e) && e.header.headerSize + n <= Extent(e.header)
    requires StoredAt(mem, p, e)
    ensures Shows(mem, Slice(p + e.header.headerSize, n), e.rest[e.header.headerSize - FILE_HEADER_SIZE..][..n])
  {
    var whole := Slice(p, |EntryBytes(e)|);
    var hs := e.header.headerSize;
    ViewCut(mem, whole, hs);
    assert EntryBytes(e)[hs..] == e.rest[hs - FILE_HEADER_SIZE..];
    ViewCut(mem, Slice(p + hs, whole.len - hs), n);
  }

  lemma PayloadShown(mem: seq<byte>, p: nat, e: Entry)
    requires WellFramed(e) && StoredAt(mem, p, e) && FileHeaderAt(mem, p) == e.header
    ensures Shows(mem, PayloadView(mem, FatbinFile(p)), PayloadOf(e))
  {
    BodyView(mem, p, e, e.header.payloadSize);
  }

  lemma CompressedShown(mem: seq<byte>, p: nat, e: Entry)
    requires WellFramed(e) && StoredAt(mem, p, e) && FileHeaderAt(mem, p) == e.header
    ensures Shows(mem, CompressedView(mem, FatbinFile(p)), CompressedOf(e))
  {
    BodyView(mem, p, e, e.header.compressedSize);
  }

  lemma {:induction false} EntryViews(mem: seq<byte>, p: nat, e: Entry)
    requires WellFramed(e) && StoredAt(mem, p, e)
    ensures FileHeaderAt(mem, p) == e.header
    ensures Shows(mem, PayloadView(mem, FatbinFile(p)), PayloadOf(e))
    ensures Shows(mem, CompressedView(mem, FatbinFile(p)), CompressedOf(e))
  {
    EntryHeader(mem, p, e);
    PayloadShown(mem, p, e);
    CompressedShown(mem, p, e);
  }

  /** Reading a stored entry gives what its own bytes decode to. */
  lemma DecodedEntry(mem: seq<byte>, c: Codecs, p: nat, e: Entry)
    requires WellFramed(e) && StoredAt(mem, p, e)
    ensures FileHeaderAt(mem, p) == e.header && Readable(mem, FatbinFile(p))
    ensures Decoded(mem, c, FatbinFile(p)) == EntryDecoded(c, e)
  {
    EntryViews(mem, p, e);
  }

  lemma StoresDecode(c: Codecs, e: Entry, raw: seq<byte>)
    requires WellFramed(e) && Stores(c, e, raw)
    ensures EntryDecoded(c, e) == Ok(raw)
  {
    if HasFlag(e.header.flags, COMPRESSED_LZ4) {
      Lz4.Completeness(c.lz4, CompressedOf(e), raw, e.header.uncompressedPayload);
    }
  }

  lemma {:induction false} DecodedStores(mem: seq<byte>, c: Codecs, p: nat, e: Entry, raw: seq<byte>)
    requires WellFramed(e) && StoredAt(mem, p, e)
    requires Stores(c, e, raw)
    ensures Readable(mem, FatbinFile(p)) && Decoded(mem, c, FatbinFile(p)) == Ok(raw)
  {
    DecodedEntry(mem, c, p, e);
    StoresDecode(c, e, raw);
  }

  /** A PTX text padded with any number of zeros comes back exactly, however it was compressed. */
  lemma {:induction false} TextRecovered(mem: seq<byte>, c: Codecs, p: nat, e: Entry, text: seq<byte>, padding: nat)
    requires WellFramed(e) && StoredAt(mem, p, e)
    requires e.header.kind == 1 && !EndsInZero(text)
    requires Stores(c, e, text + Zeros(padding))
    ensures Readable(mem, FatbinFile(p)) && Content(mem, c, FatbinFile(p), true) == Ok(text)
  {
    DecodedStores(mem, c, p, e, text + Zeros(padding));
    EntryViews(mem, p, e);
    StripUnique(text, padding);
  }

  /** Any other kind of entry comes back with its zeros, and so does a text that is not to be stripped. */
  lemma {:induction false} OtherKindsUntouched(mem: seq<byte>, c: Codecs, p: nat, e: Entry, raw: seq<byte>, strip: bool)
    requires WellFramed(e) && StoredAt(mem, p, e)
    requires e.header.kind != 1 || !strip
    requires Stores(c, e, raw)
    ensures Readable(mem, FatbinFile(p)) && Content(mem, c, FatbinFile(p), strip) == Ok(raw)
  {
    DecodedStores(mem, c, p, e, raw);
    EntryViews(mem, p, e);
  }
}
