/**
 Bytes, fixed-width integers in either byte order, and C structures without padding.

 A structure is described once, by the list of its field widths; encoding and decoding, and
 the proof that they are inverse, are generic in that list.
 */
module Bytes {
  type byte = x: int | 0 <= x < 256

  datatype Endianness = Little | Big

  function Pow256(width: nat): (p: nat)
    ensures p > 0
  {
    if width == 0 then 1 else 256 * Pow256(width - 1)
  }

  lemma Powers()
    ensures Pow256(2) == 0x1_0000 && Pow256(4) == 0x1_0000_0000 && Pow256(8) == 0x1_0000_0000_0000_0000
  {
  }

  function Zeros(n: nat): (z: seq<byte>)
    ensures |z| == n
    ensures forall i :: 0 <= i < n ==> z[i] == 0
  {
    seq(n, _ => 0)
  }

  /** The value of `b` read with its least significant byte first. */
  function FromLE(b: seq<byte>): (v: nat)
    ensures v < Pow256(|b|)
  {
    if b == [] then 0 else b[0] + 256 * FromLE(b[1..])
  }

  /** The low `width` bytes of `v`, least significant first. */
  function ToLE(v: nat, width: nat): (b: seq<byte>)
    ensures |b| == width
    decreases width
  {
    if width == 0 then [] else [v % 256] + ToLE(v / 256, width - 1)
  }

  function Reversed(b: seq<byte>): (r: seq<byte>)
    ensures |r| == |b|
    ensures forall i :: 0 <= i < |b| ==> r[i] == b[|b| - 1 - i]
  {
    seq(|b|, i requires 0 <= i < |b| => b[|b| - 1 - i])
  }

  function FromBytes(e: Endianness, b: seq<byte>): (v: nat)
    ensures v < Pow256(|b|)
  {
    match e
    case Little => FromLE(b)
    case Big => FromLE(Reversed(b))
  }

  function ToBytes(e: Endianness, v: nat, width: nat): (b: seq<byte>)
    ensures |b| == width
  {
    match e
    case Little => ToLE(v, width)
    case Big => Reversed(ToLE(v, width))
  }

  function Pair(lo: nat, hi: nat): nat {
    lo + 0x100 * hi
  }

  function Quad(b0: nat, b1: nat, b2: nat, b3: nat): nat {
    b0 + 0x100 * b1 + 0x1_0000 * b2 + 0x100_0000 * b3
  }

  function Octet(lo: nat, hi: nat): nat {
    lo + 0x1_0000_0000 * hi
  }

  /** The numbers that occur in headers, written out: the first byte weighs least, or most. */
  lemma {:induction false} ByteOrder(b: seq<byte>)
    ensures |b| == 2 ==> FromLE(b) == Pair(b[0], b[1]) && FromBytes(Big, b) == Pair(b[1], b[0])
    ensures |b| == 4 ==>
              && FromLE(b) == Quad(b[0], b[1], b[2], b[3])
              && FromBytes(Big, b) == Quad(b[3], b[2], b[1], b[0])
    ensures |b| == 8 ==>
              && FromLE(b) == Octet(Quad(b[0], b[1], b[2], b[3]), Quad(b[4], b[5], b[6], b[7]))
              && FromBytes(Big, b) == Octet(Quad(b[7], b[6], b[5], b[4]), Quad(b[3], b[2], b[1], b[0]))
  {
    if |b| == 2 {
      Two(b);
      Two(Reversed(b));
    } else if |b| == 4 {
      Four(b);
      Four(Reversed(b));
    } else if |b| == 8 {
      Eight(b);
      Eight(Reversed(b));
    }
  }

  lemma Two(b: seq<byte>)
    requires |b| == 2
    ensures FromLE(b) == Pair(b[0], b[1])
  {
    assert FromLE(b[1..]) == b[1];
  }

  lemma Four(b: seq<byte>)
    requires |b| == 4
    ensures FromLE(b) == Quad(b[0], b[1], b[2], b[3])
  {
    Two(b[2..]);
    assert b[1..][1..] == b[2..];
  }

  lemma Eight(b: seq<byte>)
    requires |b| == 8
    ensures FromLE(b) == Octet(Quad(b[0], b[1], b[2], b[3]), Quad(b[4], b[5], b[6], b[7]))
  {
    Four(b[4..]);
    assert b[1..][1..] == b[2..] && b[2..][1..] == b[3..] && b[3..][1..] == b[4..];
    assert FromLE(b[2..]) == b[2] + 256 * FromLE(b[3..]);
  }

  lemma {:induction false} FromLEToLE(v: nat, width: nat)
    requires v < Pow256(width)
    ensures FromLE(ToLE(v, width)) == v
    decreases width
  {
    if width > 0 {
      FromLEToLE(v / 256, width - 1);
      assert ToLE(v, width)[1..] == ToLE(v / 256, width - 1);
    }
  }

  lemma {:induction false} ToLEFromLE(b: seq<byte>)
    ensures ToLE(FromLE(b), |b|) == b
  {
    if b != [] {
      ToLEFromLE(b[1..]);
      assert FromLE(b) % 256 == b[0] && FromLE(b) / 256 == FromLE(b[1..]);
    }
  }

  lemma FromToBytes(e: Endianness, v: nat, width: nat)
    requires v < Pow256(width)
    ensures FromBytes(e, ToBytes(e, v, width)) == v
  {
    FromLEToLE(v, width);
    assert Reversed(Reversed(ToLE(v, width))) == ToLE(v, width);
  }

  lemma ToFromBytes(e: Endianness, b: seq<byte>)
    ensures ToBytes(e, FromBytes(e, b), |b|) == b
  {
    ToLEFromLE(b);
    ToLEFromLE(Reversed(b));
    assert Reversed(Reversed(b)) == b;
  }

  // ----- structures -----

  function Size(widths: seq<nat>): nat {
    if widths == [] then 0 else widths[0] + Size(widths[1..])
  }

  lemma {:induction false} SizeAppend(xs: seq<nat>, ys: seq<nat>)
    ensures Size(xs + ys) == Size(xs) + Size(ys)
  {
    if xs == [] {
      assert xs + ys == ys;
    } else {
      SizeAppend(xs[1..], ys);
      assert (xs + ys)[1..] == xs[1..] + ys;
    }
  }

  /** `count` fields of the same width. */
  function Repeat(width: nat, count: nat): (widths: seq<nat>)
    ensures |widths| == count
    ensures forall i :: 0 <= i < count ==> widths[i] == width
  {
    seq(count, _ => width)
  }

  lemma {:induction false} SizeRepeat(width: nat, count: nat)
    ensures Size(Repeat(width, count)) == width * count
    decreases count
  {
    if count > 0 {
      SizeRepeat(width, count - 1);
      assert Repeat(width, count)[1..] == Repeat(width, count - 1);
    }
  }

  /** Every value fits the width of its field. */
  predicate Fits(values: seq<nat>, widths: seq<nat>) {
    && |values| == |widths|
    && forall i :: 0 <= i < |values| ==> values[i] < Pow256(widths[i])
  }

  function EncodeFields(e: Endianness, values: seq<nat>, widths: seq<nat>): (b: seq<byte>)
    requires |values| == |widths|
    ensures |b| == Size(widths)
  {
    if widths == [] then [] else ToBytes(e, values[0], widths[0]) + EncodeFields(e, values[1..], widths[1..])
  }

  function DecodeFields(e: Endianness, b: seq<byte>, widths: seq<nat>): (values: seq<nat>)
    requires |b| == Size(widths)
    ensures Fits(values, widths)
    decreases |widths|, |b|
  {
    if widths == [] then []
    else [FromBytes(e, b[..widths[0]])] + DecodeFields(e, b[widths[0]..], widths[1..])
  }

  lemma {:induction false} DecodeEncodeFields(e: Endianness, values: seq<nat>, widths: seq<nat>)
    requires Fits(values, widths)
    ensures DecodeFields(e, EncodeFields(e, values, widths), widths) == values
    decreases |widths|
  {
    if widths != [] {
      var b := EncodeFields(e, values, widths);
      FromToBytes(e, values[0], widths[0]);
      DecodeEncodeFields(e, values[1..], widths[1..]);
      assert b[..widths[0]] == ToBytes(e, values[0], widths[0]);
      assert b[widths[0]..] == EncodeFields(e, values[1..], widths[1..]);
    }
  }

  lemma {:induction false} EncodeDecodeFields(e: Endianness, b: seq<byte>, widths: seq<nat>)
    requires |b| == Size(widths)
    ensures EncodeFields(e, DecodeFields(e, b, widths), widths) == b
    decreases |widths|
  {
    if widths != [] {
      ToFromBytes(e, b[..widths[0]]);
      EncodeDecodeFields(e, b[widths[0]..], widths[1..]);
    }
  }

  lemma SizeStep(widths: seq<nat>, k: nat)
    requires k < |widths|
    ensures Size(widths[..k + 1]) == Size(widths[..k]) + widths[k]
  {
    SizeAppend(widths[..k], [widths[k]]);
    assert widths[..k + 1] == widths[..k] + [widths[k]];
  }

  lemma Window(b: seq<byte>, start: nat, end: nat, lo: nat, hi: nat)
    requires start <= lo <= hi <= end <= |b|
    ensures b[start..end][lo - start..hi - start] == b[lo..hi]
  {
    var part := b[start..end];
    forall i | 0 <= i < hi - lo ensures part[lo - start..hi - start][i] == b[lo..hi][i] {
      assert part[lo - start + i] == b[lo + i];
    }
  }

  lemma SliceOfSlice(b: seq<byte>, w: nat, lo: nat, hi: nat)
    requires w + hi <= |b| && lo <= hi
    ensures b[w..][lo..hi] == b[w + lo..w + hi]
  {
  }

  lemma {:induction false} PrefixSize(widths: seq<nat>, k: nat)
    requires k < |widths|
    ensures Size(widths[..k]) + widths[k] <= Size(widths)
    ensures k > 0 ==> Size(widths[..k]) == widths[0] + Size(widths[1..][..k - 1])
    decreases k
  {
    if k > 0 {
      PrefixSize(widths[1..], k - 1);
      assert widths[..k][1..] == widths[1..][..k - 1];
    }
  }

  lemma NextFields(e: Endianness, b: seq<byte>, widths: seq<nat>, k: nat)
    requires |b| == Size(widths) && 0 < k < |widths|
    ensures DecodeFields(e, b, widths)[k] == DecodeFields(e, b[widths[0]..], widths[1..])[k - 1]
  {
  }

  /** Field `k` starts after the fields before it, which is where C puts it when no padding is needed. */
  lemma {:induction false} FieldAt(e: Endianness, b: seq<byte>, widths: seq<nat>, k: nat, lo: nat, hi: nat)
    requires |b| == Size(widths) && k < |widths|
    requires lo == Size(widths[..k]) && hi == lo + widths[k]
    ensures hi <= |b| && DecodeFields(e, b, widths)[k] == FromBytes(e, b[lo..hi])
    decreases k
  {
    PrefixSize(widths, k);
    if k == 0 {
      assert widths[..0] == [] && lo == 0;
    } else {
      var w := widths[0];
      NextFields(e, b, widths, k);
      FieldAt(e, b[w..], widths[1..], k - 1, lo - w, hi - w);
      SliceOfSlice(b, w, lo - w, hi - w);
    }
  }
}
