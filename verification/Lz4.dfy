/**
 The LZ4 grow-and-retry loop. The decoder itself is an oracle: given a source, its length and an
 output capacity, it fails or writes some bytes.
 */
module Lz4 {
  import opened Wrappers
  import opened Bytes

  const MAX_MODULE_DECOMPRESSION_BOUND := 64 * 1024 * 1024
  const MIN_CAPACITY := 1024

  /** `LZ4_decompress_safe(source, _, source_len, capacity)`: a negative result is `None`. */
  type Decoder = (seq<byte>, int, int) -> Option<seq<byte>>

  /** What liblz4 promises: it never writes more than the capacity it was given. */
  ghost predicate RespectsCapacity(lz4: Decoder) {
    forall src, n, cap :: lz4(src, n, cap).Some? ==> |lz4(src, n, cap).value| <= cap
  }

  /** `as c_int`: the low 32 bits, read as a signed number. */
  function ToI32(v: nat): int {
    var low := v % 0x1_0000_0000;
    if low < 0x8000_0000 then low else low - 0x1_0000_0000
  }

  function FirstCapacity(claimed: nat): (cap: nat)
    ensures cap >= MIN_CAPACITY
  {
    if claimed < MIN_CAPACITY then MIN_CAPACITY else claimed
  }

  function Attempt(lz4: Decoder, src: seq<byte>, cap: nat): Option<seq<byte>> {
    lz4(src, ToI32(|src|), ToI32(cap))
  }

  function Retry(lz4: Decoder, src: seq<byte>, cap: nat): Option<seq<byte>>
    requires cap > 0
    decreases MAX_MODULE_DECOMPRESSION_BOUND - cap
  {
    var r := Attempt(lz4, src, cap);
    if r.Some? || cap * 2 > MAX_MODULE_DECOMPRESSION_BOUND then r else Retry(lz4, src, cap * 2)
  }

  method DecompressLz4(lz4: Decoder, src: seq<byte>, claimed: nat) returns (r: Option<seq<byte>>)
    requires RespectsCapacity(lz4)
    ensures r == Retry(lz4, src, FirstCapacity(claimed))
  {
    var vec: seq<byte> := seq(FirstCapacity(claimed), _ => 0);
    while true
      invariant |vec| >= MIN_CAPACITY
      invariant Retry(lz4, src, |vec|) == Retry(lz4, src, FirstCapacity(claimed))
      decreases MAX_MODULE_DECOMPRESSION_BOUND - |vec|
    {
      match lz4(src, ToI32(|src|), ToI32(|vec|)) {
        case None =>
          if |vec| * 2 > MAX_MODULE_DECOMPRESSION_BOUND {
            return None;
          }
          vec := vec + seq(|vec|, _ => 0);
        case Some(written) =>
          assert |written| <= ToI32(|vec|) <= |vec|;
          vec := written + vec[|written|..];
          return Some(vec[..|written|]);
      }
    }
  }

  /** The capacities that are tried as long as every one of them fails. */
  function Capacities(cap: nat): (caps: seq<nat>)
    requires cap > 0
    ensures |caps| > 0
    decreases MAX_MODULE_DECOMPRESSION_BOUND - cap
  {
    [cap] + if cap * 2 > MAX_MODULE_DECOMPRESSION_BOUND then [] else Capacities(cap * 2)
  }

  function LastCapacity(cap: nat): nat
    requires cap > 0
  {
    Capacities(cap)[|Capacities(cap)| - 1]
  }

  function Pow2(k: nat): (p: nat)
    ensures p > 0
  {
    if k == 0 then 1 else 2 * Pow2(k - 1)
  }

  lemma Doubling(cap: nat, p: nat)
    ensures cap * 2 * p == cap * (2 * p)
  {
  }

  /** Attempt `k` doubles the first capacity `k` times; only the first may exceed the ceiling. */
  lemma {:induction false} CapacityAt(cap: nat, k: nat)
    requires cap > 0 && k < |Capacities(cap)|
    ensures Capacities(cap)[k] == cap * Pow2(k)
    ensures k > 0 ==> Capacities(cap)[k] <= MAX_MODULE_DECOMPRESSION_BOUND
    decreases k
  {
    if k > 0 {
      CapacityAt(cap * 2, k - 1);
      Doubling(cap, Pow2(k - 1));
    }
  }

  /** The attempts stop only when doubling would pass the ceiling. */
  lemma {:induction false} LastCapacityBound(cap: nat)
    requires cap > 0
    ensures LastCapacity(cap) >= cap
    ensures LastCapacity(cap) * 2 > MAX_MODULE_DECOMPRESSION_BOUND
    ensures cap <= MAX_MODULE_DECOMPRESSION_BOUND ==> LastCapacity(cap) <= MAX_MODULE_DECOMPRESSION_BOUND
    ensures cap * 2 > MAX_MODULE_DECOMPRESSION_BOUND ==> Capacities(cap) == [cap]
    decreases MAX_MODULE_DECOMPRESSION_BOUND - cap
  {
    if cap * 2 <= MAX_MODULE_DECOMPRESSION_BOUND {
      LastCapacityBound(cap * 2);
      assert LastCapacity(cap) == LastCapacity(cap * 2);
    }
  }

  /** Whatever size the header claims, the decoder is called at most 17 times. */
  lemma {:induction false} AttemptCount(claimed: nat)
    ensures |Capacities(FirstCapacity(claimed))| <= 17
  {
    assert Pow2(6) == 64;
    assert Pow2(12) == 4096;
    assert Pow2(17) == 131072;
    CountFrom(FirstCapacity(claimed), MIN_CAPACITY, 17);
  }

  /** `n` more doublings of any capacity that is at least `low` pass the ceiling. */
  lemma {:induction false} CountFrom(cap: nat, low: nat, n: nat)
    requires cap >= low > 0 && n > 0
    requires low * Pow2(n) > MAX_MODULE_DECOMPRESSION_BOUND
    ensures |Capacities(cap)| <= n
    decreases n
  {
    if cap * 2 <= MAX_MODULE_DECOMPRESSION_BOUND {
      assert Pow2(0) == 1;
      assert low * Pow2(n) == low * 2 * Pow2(n - 1);
      CountFrom(cap * 2, low * 2, n - 1);
    }
  }

  ghost predicate AllFail(lz4: Decoder, src: seq<byte>, caps: seq<nat>) {
    forall k :: 0 <= k < |caps| ==> Attempt(lz4, src, caps[k]).None?
  }

  /** Attempt `k` gives `r`, and all before it failed. */
  ghost predicate FirstAt(lz4: Decoder, src: seq<byte>, caps: seq<nat>, k: nat, r: Option<seq<byte>>) {
    k < |caps| && Attempt(lz4, src, caps[k]) == r && AllFail(lz4, src, caps[..k])
  }

  lemma AllFailStep(lz4: Decoder, src: seq<byte>, cap: nat, rest: seq<nat>)
    ensures AllFail(lz4, src, [cap] + rest) <==> Attempt(lz4, src, cap).None? && AllFail(lz4, src, rest)
  {
    var caps := [cap] + rest;
    assert caps[0] == cap;
    assert forall k :: 0 <= k < |rest| ==> caps[k + 1] == rest[k];
  }

  lemma FirstAtStep(
    lz4: Decoder, src: seq<byte>, cap: nat, rest: seq<nat>, k: nat, r: Option<seq<byte>>)
    requires Attempt(lz4, src, cap).None? && FirstAt(lz4, src, rest, k, r)
    ensures FirstAt(lz4, src, [cap] + rest, k + 1, r)
  {
    AllFailStep(lz4, src, cap, rest[..k]);
    assert ([cap] + rest)[..k + 1] == [cap] + rest[..k];
  }

  /** The loop returns the first success among the capacities, and fails exactly when all of them fail. */
  lemma {:induction false} RetryOutcome(lz4: Decoder, src: seq<byte>, cap: nat)
    requires cap > 0
    ensures Retry(lz4, src, cap).None? <==> AllFail(lz4, src, Capacities(cap))
    ensures Retry(lz4, src, cap).Some? ==>
              exists k: nat :: FirstAt(lz4, src, Capacities(cap), k, Retry(lz4, src, cap))
    decreases MAX_MODULE_DECOMPRESSION_BOUND - cap
  {
    var rest := if cap * 2 > MAX_MODULE_DECOMPRESSION_BOUND then [] else Capacities(cap * 2);
    assert Capacities(cap) == [cap] + rest;
    AllFailStep(lz4, src, cap, rest);
    if Attempt(lz4, src, cap).Some? {
      assert FirstAt(lz4, src, Capacities(cap), 0, Retry(lz4, src, cap));
    } else if cap * 2 <= MAX_MODULE_DECOMPRESSION_BOUND {
      RetryOutcome(lz4, src, cap * 2);
      if Retry(lz4, src, cap * 2).Some? {
        var k: nat :| FirstAt(lz4, src, rest, k, Retry(lz4, src, cap * 2));
        FirstAtStep(lz4, src, cap, rest, k, Retry(lz4, src, cap));
      }
    }
  }

  /** The doublings of a first capacity that are tried: the capacity itself, and whatever is at most 64 MiB. */
  predicate Tried(first: nat, k: nat) {
    k == 0 || first * Pow2(k) <= 67_108_864
  }

  lemma {:induction false} CapacityCount(cap: nat, k: nat)
    requires cap > 0
    ensures k < |Capacities(cap)| <==> Tried(cap, k)
    decreases k
  {
    if k > 0 {
      Doubling(cap, Pow2(k - 1));
      if cap * 2 > MAX_MODULE_DECOMPRESSION_BOUND {
        AtLeastDoubled(cap, Pow2(k - 1));
      } else {
        CapacityCount(cap * 2, k - 1);
      }
    }
  }

  lemma AtLeastDoubled(cap: nat, p: nat)
    requires p > 0
    ensures cap * (2 * p) >= cap * 2
  {
  }

  /** What the decoder is asked for in attempt `k`, at the capacity as a C `int` shows it. */
  function AttemptAt(lz4: Decoder, src: seq<byte>, claimed: nat, k: nat): Option<seq<byte>> {
    lz4(src, ToI32(|src|), ToI32((if claimed < 1024 then 1024 else claimed) * Pow2(k)))
  }

  /**
   The loop in full: from the claimed size, but at least 1 KiB, the capacity is doubled up to 64 MiB.
   The first success is returned, and it is a failure exactly when all attempts fail.
   */
  lemma {:induction false} LoopOutcome(lz4: Decoder, src: seq<byte>, claimed: nat)
    ensures
      var first, r := if claimed < 1024 then 1024 else claimed, Retry(lz4, src, FirstCapacity(claimed));
      && (r.None? <==> forall k: nat :: Tried(first, k) ==> AttemptAt(lz4, src, claimed, k).None?)
      && (r.Some? ==>
            exists k: nat :: Tried(first, k) && AttemptAt(lz4, src, claimed, k) == r
                             && forall j: nat :: j < k ==> AttemptAt(lz4, src, claimed, j).None?)
  {
    var cap := FirstCapacity(claimed);
    RetryOutcome(lz4, src, cap);
    var caps := Capacities(cap);
    forall k: nat ensures k < |caps| <==> Tried(cap, k) {
      CapacityCount(cap, k);
    }
    forall k: nat | k < |caps| ensures Attempt(lz4, src, caps[k]) == AttemptAt(lz4, src, claimed, k) {
      CapacityAt(cap, k);
    }
    if Retry(lz4, src, cap).Some? {
      var k: nat :| FirstAt(lz4, src, caps, k, Retry(lz4, src, cap));
      assert forall j: nat :: j < k ==> caps[..k][j] == caps[j];
    }
  }

  /** The low 32 bits as a C `int`: the one number in its range that differs by a multiple of 2^32. */
  lemma ToI32Wraps(v: nat)
    ensures -0x8000_0000 <= ToI32(v) < 0x8000_0000 && (v - ToI32(v)) % 0x1_0000_0000 == 0
  {
  }

  /** The decoder recovers `data` from `src` whenever the output buffer is large enough for it. */
  ghost predicate Decodes(lz4: Decoder, src: seq<byte>, data: seq<byte>) {
    forall cap :: lz4(src, |src|, cap) == if cap >= |data| then Some(data) else None
  }

  /** What becomes of a source length of 2 GiB or more, which reaches the decoder as a negative number. */
  ghost predicate RejectsNegativeLengths(lz4: Decoder) {
    forall src, n, cap :: n < 0 ==> lz4(src, n, cap).None?
  }

  /** A length that a 32-bit field can hold, and a decoder that rejects it if it comes out negative. */
  ghost predicate LengthUnderstood(lz4: Decoder, n: nat) {
    n < 0x8000_0000 || (n < 0x1_0000_0000 && RejectsNegativeLengths(lz4))
  }

  predicate ReachesFrom(cap: nat, size: nat)
    requires cap > 0
  {
    if cap * 2 <= MAX_MODULE_DECOMPRESSION_BOUND then LastCapacity(cap) >= size else ToI32(cap) >= size
  }

  /**
   Whether the loop reaches a large enough capacity. Up to half the ceiling it doubles into the
   upper half; beyond, there is one attempt, and the decoder is told the claimed size modulo 2^32.
   */
  predicate Reaches(claimed: nat, size: nat) {
    ReachesFrom(FirstCapacity(claimed), size)
  }

  /** Exactly when a valid stream is decompressed; otherwise the loop fails. */
  lemma {:induction false} Completeness(lz4: Decoder, src: seq<byte>, data: seq<byte>, claimed: nat)
    requires LengthUnderstood(lz4, |src|) && Decodes(lz4, src, data)
    ensures Retry(lz4, src, FirstCapacity(claimed)) ==
              if |src| < 0x8000_0000 && Reaches(claimed, |data|) then Some(data) else None
  {
    CompletenessFrom(lz4, src, data, FirstCapacity(claimed));
  }

  lemma {:induction false} CompletenessFrom(lz4: Decoder, src: seq<byte>, data: seq<byte>, cap: nat)
    requires cap > 0 && LengthUnderstood(lz4, |src|) && Decodes(lz4, src, data)
    ensures Retry(lz4, src, cap) ==
              if |src| < 0x8000_0000 && ReachesFrom(cap, |data|) then Some(data) else None
    decreases MAX_MODULE_DECOMPRESSION_BOUND - cap
  {
    assert Attempt(lz4, src, cap) == if |src| < 0x8000_0000 && ToI32(cap) >= |data| then Some(data) else None;
    if cap * 2 <= MAX_MODULE_DECOMPRESSION_BOUND {
      LastCapacityStep(cap);
      LastCapacityBound(cap);
      LastCapacityBound(cap * 2);
      CompletenessFrom(lz4, src, data, cap * 2);
    }
  }

  lemma LastCapacityStep(cap: nat)
    requires 0 < cap && cap * 2 <= MAX_MODULE_DECOMPRESSION_BOUND
    ensures LastCapacity(cap) == LastCapacity(cap * 2) && ToI32(cap) == cap
  {
  }

  /**
   Streams of up to 32 MiB: decompressed exactly when the claimed size is at most 32 MiB, or is still
   large enough after truncation to 32 bits. So any claim below 2^31 works.
   */
  lemma {:induction false} SmallStreams(lz4: Decoder, src: seq<byte>, data: seq<byte>, claimed: nat)
    requires LengthUnderstood(lz4, |src|) && Decodes(lz4, src, data)
    requires |data| * 2 <= MAX_MODULE_DECOMPRESSION_BOUND
    ensures Retry(lz4, src, FirstCapacity(claimed)) == Some(data) <==>
              && |src| < 0x8000_0000
              && (claimed * 2 <= MAX_MODULE_DECOMPRESSION_BOUND || ToI32(claimed) >= |data|)
    ensures |src| < 0x8000_0000 && claimed < 0x8000_0000 ==> Retry(lz4, src, FirstCapacity(claimed)) == Some(data)
  {
    Completeness(lz4, src, data, claimed);
    LastCapacityBound(FirstCapacity(claimed));
  }

  /** A header that claims 2^32 bytes makes the loop give up on a stream of a single byte. */
  lemma OversizedClaimFails(lz4: Decoder, src: seq<byte>, b: byte)
    requires LengthUnderstood(lz4, |src|) && Decodes(lz4, src, [b])
    ensures Retry(lz4, src, FirstCapacity(0x1_0000_0000)) == None
  {
  }

  /** A header that tells the truth about a size below 2 GiB is enough, unless the stream itself is longer. */
  lemma {:induction false} HonestClaim(lz4: Decoder, src: seq<byte>, data: seq<byte>)
    requires LengthUnderstood(lz4, |src|) && |data| < 0x8000_0000 && Decodes(lz4, src, data)
    ensures Retry(lz4, src, FirstCapacity(|data|)) == if |src| < 0x8000_0000 then Some(data) else None
  {
    Completeness(lz4, src, data, |data|);
    LastCapacityBound(FirstCapacity(|data|));
  }
}
