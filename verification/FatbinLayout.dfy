/**
 The C structures of a fatbin, and the address space they are read from.

 An address space is a byte sequence; a pointer is an index into it and 0 is the null pointer.
 The host is little-endian, as every CUDA host is.
 */
module FatbinLayout {
  import opened Bytes

  /** A Rust `&[u8]`: where it points and how long it is. */
  datatype Slice = Slice(ptr: nat, len: nat)

  /** `&[]`: no bytes, at no meaningful address. */
  const EMPTY_SLICE := Slice(0, 0)

  predicate InBounds(mem: seq<byte>, s: Slice) {
    s.ptr + s.len <= |mem|
  }

  function View(mem: seq<byte>, s: Slice): (bytes: seq<byte>)
    requires InBounds(mem, s)
    ensures |bytes| == s.len
  {
    mem[s.ptr..s.ptr + s.len]
  }

  /** Cutting a slice at `n` cuts its bytes at `n`. */
  lemma ViewCut(mem: seq<byte>, s: Slice, n: nat)
    requires InBounds(mem, s) && n <= s.len
    ensures View(mem, Slice(s.ptr, n)) == View(mem, s)[..n]
    ensures View(mem, Slice(s.ptr + n, s.len - n)) == View(mem, s)[n..]
    ensures View(mem, Slice(s.ptr, n)) + View(mem, Slice(s.ptr + n, s.len - n)) == View(mem, s)
  {
  }

  // ----- FatbincWrapper -----

  const WRAPPER_WIDTHS: seq<nat> := [4, 4, 8, 8]
  const WRAPPER_SIZE := 24
  const WRAPPER_MAGIC := 0x466243B1
  const WRAPPER_VERSION_V1 := 1
  const WRAPPER_VERSION_V2 := 2

  datatype FatbincWrapper = FatbincWrapper(magic: nat, version: nat, data: nat, filenameOrFatbins: nat)

  function WrapperAt(mem: seq<byte>, p: nat): FatbincWrapper
    requires p + WRAPPER_SIZE <= |mem|
  {
    assert Size(WRAPPER_WIDTHS) == WRAPPER_SIZE;
    var v := DecodeFields(Little, mem[p..p + WRAPPER_SIZE], WRAPPER_WIDTHS);
    FatbincWrapper(v[0], v[1], v[2], v[3])
  }

  lemma {:induction false} WrapperOffsets(mem: seq<byte>, p: nat)
    requires p + 24 <= |mem|
    ensures
      var w, b := WrapperAt(mem, p), mem[p..p + 24];
      && w.magic == FromLE(b[0..4]) && w.version == FromLE(b[4..8])
      && w.data == FromLE(b[8..16]) && w.filenameOrFatbins == FromLE(b[16..24])
  {
    var b, ws := mem[p..p + 24], WRAPPER_WIDTHS;
    assert ws[..0] == [] && ws[..1] == [4] && ws[..2] == [4, 4] && ws[..3] == [4, 4, 8];
    FieldAt(Little, b, ws, 0, 0, 4);
    FieldAt(Little, b, ws, 1, 4, 8);
    FieldAt(Little, b, ws, 2, 8, 16);
    FieldAt(Little, b, ws, 3, 16, 24);
  }

  // ----- FatbinHeader -----

  const FATBIN_HEADER_WIDTHS: seq<nat> := [4, 2, 2, 8]
  const FATBIN_HEADER_SIZE := 16
  const FATBIN_MAGIC := 0xBA55ED50
  const FATBIN_VERSION := 1

  datatype FatbinHeader = FatbinHeader(magic: nat, version: nat, headerSize: nat, filesSize: nat)

  function FatbinHeaderAt(mem: seq<byte>, p: nat): FatbinHeader
    requires p + FATBIN_HEADER_SIZE <= |mem|
  {
    assert Size(FATBIN_HEADER_WIDTHS) == FATBIN_HEADER_SIZE;
    var v := DecodeFields(Little, mem[p..p + FATBIN_HEADER_SIZE], FATBIN_HEADER_WIDTHS);
    FatbinHeader(v[0], v[1], v[2], v[3])
  }

  lemma {:induction false} FatbinHeaderOffsets(mem: seq<byte>, p: nat)
    requires p + 16 <= |mem|
    ensures
      var h, b := FatbinHeaderAt(mem, p), mem[p..p + 16];
      && h.magic == FromLE(b[0..4]) && h.version == FromLE(b[4..6])
      && h.headerSize == FromLE(b[6..8]) && h.filesSize == FromLE(b[8..16])
  {
    var b, ws := mem[p..p + 16], FATBIN_HEADER_WIDTHS;
    assert ws[..0] == [] && ws[..1] == [4] && ws[..2] == [4, 2] && ws[..3] == [4, 2, 2];
    FieldAt(Little, b, ws, 0, 0, 4);
    FieldAt(Little, b, ws, 1, 4, 6);
    FieldAt(Little, b, ws, 2, 6, 8);
    FieldAt(Little, b, ws, 3, 8, 16);
  }

  // ----- FatbinFileHeader -----

  /** Two `u16`, nine `u32`, three `u64`. */
  const FILE_HEADER_WIDTHS: seq<nat> := Repeat(2, 2) + Repeat(4, 9) + Repeat(8, 3)
  const FILE_HEADER_SIZE := 64
  const HEADER_KIND_PTX := 1
  const HEADER_KIND_ELF := 2
  const HEADER_VERSION_CURRENT := 0x101

  const COMPRESSED_DEFLATE := 0x1000
  const COMPRESSED_LZ4 := 0x2000
  const COMPRESSED_ZSTD := 0x8000

  datatype FatbinFileHeader = FatbinFileHeader(
    kind: nat, version: nat, headerSize: nat, payloadSize: nat, unknown0: nat,
    compressedSize: nat, unknown1: nat, unknown2: nat, smVersion: nat, bitWidth: nat,
    unknown3: nat, flags: nat, unknown5: nat, uncompressedPayload: nat)
  {
    function Values(): seq<nat> {
      [kind, version, headerSize, payloadSize, unknown0, compressedSize, unknown1,
       unknown2, smVersion, bitWidth, unknown3, flags, unknown5, uncompressedPayload]
    }
  }

  lemma FileHeaderSize()
    ensures |FILE_HEADER_WIDTHS| == 14 && Size(FILE_HEADER_WIDTHS) == FILE_HEADER_SIZE
  {
    SizeAppend(Repeat(2, 2) + Repeat(4, 9), Repeat(8, 3));
    SizeAppend(Repeat(2, 2), Repeat(4, 9));
    SizeRepeat(2, 2);
    SizeRepeat(4, 9);
    SizeRepeat(8, 3);
  }

  function HeaderOf(v: seq<nat>): FatbinFileHeader
    requires |v| == 14
  {
    FatbinFileHeader(v[0], v[1], v[2], v[3], v[4], v[5], v[6], v[7], v[8], v[9], v[10], v[11], v[12], v[13])
  }

  lemma HeaderOfValues(v: seq<nat>)
    requires |v| == 14
    ensures HeaderOf(v).Values() == v
  {
  }

  function DecodeFileHeader(b: seq<byte>): (h: FatbinFileHeader)
    requires |b| == FILE_HEADER_SIZE
  {
    FileHeaderSize();
    HeaderOf(DecodeFields(Little, b, FILE_HEADER_WIDTHS))
  }

  function EncodeFileHeader(h: FatbinFileHeader): (b: seq<byte>)
    ensures |b| == FILE_HEADER_SIZE
  {
    FileHeaderSize();
    EncodeFields(Little, h.Values(), FILE_HEADER_WIDTHS)
  }

  /** The header stored at address `p`, what Rust's cast to `&FatbinFileHeader` reads. */
  function FileHeaderAt(mem: seq<byte>, p: nat): FatbinFileHeader
    requires p + FILE_HEADER_SIZE <= |mem|
  {
    DecodeFileHeader(View(mem, Slice(p, FILE_HEADER_SIZE)))
  }

  lemma {:induction false} FileHeaderRoundTrip(h: FatbinFileHeader)
    requires Fits(h.Values(), FILE_HEADER_WIDTHS)
    ensures DecodeFileHeader(EncodeFileHeader(h)) == h
  {
    DecodeEncodeFields(Little, h.Values(), FILE_HEADER_WIDTHS);
  }

  /** Decoding loses nothing: every 64 bytes are the encoding of the header they decode to. */
  lemma {:induction false} FileHeaderBytes(b: seq<byte>)
    requires |b| == FILE_HEADER_SIZE
    ensures EncodeFileHeader(DecodeFileHeader(b)) == b
  {
    FileHeaderSize();
    var v := DecodeFields(Little, b, FILE_HEADER_WIDTHS);
    EncodeDecodeFields(Little, b, FILE_HEADER_WIDTHS);
    HeaderOfValues(v);
  }

  /** Where `repr(C)` puts field `k`: two `u16`, then nine `u32`, then three `u64`. */
  function FieldOffset(k: nat): nat {
    if k <= 2 then 2 * k else if k <= 11 then 4 * k - 4 else 8 * k - 48
  }

  lemma FieldOffsetIsSum(k: nat)
    requires k < 14
    ensures Size(FILE_HEADER_WIDTHS[..k]) == FieldOffset(k)
    ensures FieldOffset(k) + FILE_HEADER_WIDTHS[k] == FieldOffset(k + 1)
  {
    var n2, n4, n8 := Min(k, 2), if k <= 2 then 0 else Min(k - 2, 9), if k <= 11 then 0 else k - 11;
    assert FILE_HEADER_WIDTHS[..k] == Repeat(2, n2) + Repeat(4, n4) + Repeat(8, n8);
    SizeAppend(Repeat(2, n2) + Repeat(4, n4), Repeat(8, n8));
    SizeAppend(Repeat(2, n2), Repeat(4, n4));
    SizeRepeat(2, n2);
    SizeRepeat(4, n4);
    SizeRepeat(8, n8);
  }

  function Min(a: nat, b: nat): nat {
    if a < b then a else b
  }

  lemma HeaderField(b: seq<byte>, k: nat)
    requires |b| == FILE_HEADER_SIZE && k < 14
    ensures FieldOffset(k + 1) <= FILE_HEADER_SIZE
    ensures DecodeFileHeader(b).Values()[k] == FromLE(b[FieldOffset(k)..FieldOffset(k + 1)])
  {
    FileHeaderSize();
    FieldOffsetIsSum(k);
    FieldAt(Little, b, FILE_HEADER_WIDTHS, k, FieldOffset(k), FieldOffset(k + 1));
    HeaderOfValues(DecodeFields(Little, b, FILE_HEADER_WIDTHS));
  }

  /** The fields the reader looks at, at their byte offsets in the header. */
  lemma {:induction false} FileHeaderOffsets(b: seq<byte>)
    requires |b| == FILE_HEADER_SIZE
    ensures DecodeFileHeader(b).kind == FromLE(b[0..2])
    ensures DecodeFileHeader(b).version == FromLE(b[2..4])
    ensures DecodeFileHeader(b).headerSize == FromLE(b[4..8])
    ensures DecodeFileHeader(b).payloadSize == FromLE(b[8..12])
    ensures DecodeFileHeader(b).compressedSize == FromLE(b[16..20])
    ensures DecodeFileHeader(b).flags == FromLE(b[40..48])
    ensures DecodeFileHeader(b).uncompressedPayload == FromLE(b[56..64])
  {
    HeaderField(b, 0);
    HeaderField(b, 1);
    HeaderField(b, 2);
    HeaderField(b, 3);
    HeaderField(b, 5);
    HeaderField(b, 11);
    HeaderField(b, 13);
  }
}
