/**
 What splitting a name means, without reference to how the loop scans it: where segments begin,
 which names are accepted, when a rendering is split back, and when a name can be recovered.
 */
module Segmentation {
  import opened Wrappers
  import opened Seqs
  import opened CamelCase

  // ----- special runs -----

  /** Position `q` and the next one are a digit and a `D`, in either order. */
  predicate Mixed(s: string, q: nat) {
    && q + 1 < |s|
    && (('0' <= s[q] <= '9' && s[q + 1] == 'D') || (s[q] == 'D' && '0' <= s[q + 1] <= '9'))
  }

  ghost predicate AllRunChars(s: string, q: nat, p: nat)
    requires p < |s|
  {
    forall k :: q <= k <= p ==> s[k] == 'D' || '0' <= s[k] <= '9'
  }

  /** `p` belongs to a special run: only digits and D's separate it from a mixed pair at or before it. */
  ghost predicate InRun(s: string, p: nat)
    requires p < |s|
  {
    exists q: nat :: q <= p && Mixed(s, q) && AllRunChars(s, q, p)
  }

  /** A segment begins with a special run, or outside of every run with an uppercase letter. */
  ghost predicate StartsSegment(s: string, p: nat)
    requires p < |s|
  {
    if InRun(s, p) then p == 0 || !InRun(s, p - 1) else 'A' <= s[p] <= 'Z'
  }

  /** Moving past a character that starts no run changes nothing for the rest. */
  lemma PlainShift(s: string, p: nat)
    requires s != "" && !StartsRun(s) && p < |s| - 1
    ensures !InRun(s, 0)
    ensures InRun(s, p + 1) <==> InRun(s[1..], p)
    ensures StartsSegment(s, p + 1) <==> StartsSegment(s[1..], p)
  {
    InRunShift(s, p);
    if p > 0 {
      InRunShift(s, p - 1);
    }
  }

  lemma InRunShift(s: string, p: nat)
    requires s != "" && !StartsRun(s) && p < |s| - 1
    ensures InRun(s, p + 1) <==> InRun(s[1..], p)
  {
    if InRun(s, p + 1) {
      var q: nat :| q <= p + 1 && Mixed(s, q) && AllRunChars(s, q, p + 1);
      assert Mixed(s[1..], q - 1) && AllRunChars(s[1..], q - 1, p);
    }
    if InRun(s[1..], p) {
      InRunOfWhole(s, 1, p);
    }
  }

  /** A run that starts here takes all the characters it can, and the rest is unaffected by it. */
  lemma {:induction false} RunShift(s: string, p: nat)
    requires StartsRun(s) && p < |s|
    ensures p < RunLength(s) ==> InRun(s, p)
    ensures p >= RunLength(s) ==> (InRun(s, p) <==> InRun(s[RunLength(s)..], p - RunLength(s)))
    ensures p >= RunLength(s) ==> (StartsSegment(s, p) <==> StartsSegment(s[RunLength(s)..], p - RunLength(s)))
  {
    InRunAfter(s, p);
    if p > 0 {
      InRunAfter(s, p - 1);
    }
    if p == RunLength(s) {
      NotInRun(s[p..], 0);
    }
  }

  lemma NotInRun(s: string, p: nat)
    requires p < |s| && !IsRunChar(s[p])
    ensures !InRun(s, p)
  {
  }

  lemma InRunAfter(s: string, p: nat)
    requires StartsRun(s) && p < |s|
    ensures p < RunLength(s) ==> InRun(s, p)
    ensures p >= RunLength(s) ==> (InRun(s, p) <==> InRun(s[RunLength(s)..], p - RunLength(s)))
  {
    if p < RunLength(s) {
      assert Mixed(s, 0) && AllRunChars(s, 0, p);
    } else {
      if InRun(s, p) {
        InRunOfRest(s, RunLength(s), p);
      }
      if InRun(s[RunLength(s)..], p - RunLength(s)) {
        InRunOfWhole(s, RunLength(s), p - RunLength(s));
      }
    }
  }

  /** A run that reaches beyond a character that is in no run began after it. */
  lemma InRunOfRest(s: string, n: nat, p: nat)
    requires n <= p < |s| && !IsRunChar(s[n]) && InRun(s, p)
    ensures InRun(s[n..], p - n)
  {
    var q: nat :| q <= p && Mixed(s, q) && AllRunChars(s, q, p);
    assert q > n;
    assert Mixed(s[n..], q - n) && AllRunChars(s[n..], q - n, p - n);
  }

  lemma InRunOfWhole(s: string, n: nat, p: nat)
    requires n <= |s| && p < |s[n..]| && InRun(s[n..], p)
    ensures InRun(s, n + p)
  {
    var t := s[n..];
    var q: nat :| q <= p && Mixed(t, q) && AllRunChars(t, q, p);
    forall k | q + n <= k <= p + n ensures IsRunChar(s[k]) {
      assert s[k] == t[k - n];
    }
    assert Mixed(s, q + n) && AllRunChars(s, q + n, p + n);
  }

  // ----- segmentations -----

  /** One of the segments begins `d` characters into their concatenation. */
  predicate BoundaryAt(segments: seq<string>, d: int) {
    segments != [] && (d == 0 || BoundaryAt(segments[1..], d - |segments[0]|))
  }

  predicate NonEmpty(segments: seq<string>) {
    forall i :: 0 <= i < |segments| ==> segments[i] != ""
  }

  ghost predicate BoundariesMatch(s: string, skip: int, segments: seq<string>) {
    forall p: nat :: p < |s| ==> (StartsSegment(s, p) <==> BoundaryAt(segments, p - skip))
  }

  /** The segments are the lowercased name, cut exactly where segments begin. */
  ghost predicate IsSegmentation(s: string, segments: seq<string>) {
    Flatten(segments) == LowerAll(s) && NonEmpty(segments) && BoundariesMatch(s, 0, segments)
  }

  lemma {:induction false} NoEarlyBoundary(segments: seq<string>, d: int)
    requires NonEmpty(segments)
    requires d < 0 || (segments != [] && 0 < d < |segments[0]|)
    ensures !BoundaryAt(segments, d)
    decreases |segments|
  {
    if segments != [] {
      NoEarlyBoundary(segments[1..], d - |segments[0]|);
    }
  }

  lemma BoundaryAfterFirst(first: string, segments: seq<string>, d: int)
    ensures BoundaryAt([first] + segments, d) <==> d == 0 || BoundaryAt(segments, d - |first|)
  {
  }

  lemma LowerAllAppend(a: string, b: string)
    ensures LowerAll(a + b) == LowerAll(a) + LowerAll(b)
  {
  }

  /** Nothing is lost: the characters before the first segment and those of the segments are the name. */
  predicate Conserves(s: string, cut: Cut) {
    cut.head + Flatten(cut.segments) == LowerAll(s) && NonEmpty(cut.segments)
  }

  lemma {:induction false} Conservation(s: string)
    ensures Conserves(s, Segments(s))
    decreases |s|
  {
    if s == "" {
    } else if StartsRun(s) {
      Conservation(s[RunLength(s)..]);
      ConservesRun(s, Segments(s[RunLength(s)..]));
    } else {
      Conservation(s[1..]);
      ConservesChar(s, Segments(s[1..]));
    }
  }

  lemma ConservesRun(s: string, cut: Cut)
    requires StartsRun(s) && Conserves(s[RunLength(s)..], cut)
    ensures Conserves(s, Cut("", [LowerAll(s[..RunLength(s)]) + cut.head] + cut.segments))
  {
    LowerCut(s, RunLength(s));
    FlattenNew(LowerAll(s[..RunLength(s)]), cut);
  }

  lemma ConservesChar(s: string, cut: Cut)
    requires s != "" && Conserves(s[1..], cut)
    ensures Conserves(s, Cut("", [[Lower(s[0])] + cut.head] + cut.segments))
    ensures !IsUpper(s[0]) ==> Conserves(s, Cut([s[0]] + cut.head, cut.segments))
  {
    LowerCut(s, 1);
    FlattenNew([Lower(s[0])], cut);
    Assoc([s[0]], cut.head, Flatten(cut.segments));
  }

  lemma LowerCut(s: string, n: nat)
    requires n <= |s|
    ensures LowerAll(s) == LowerAll(s[..n]) + LowerAll(s[n..])
    ensures n == 1 ==> LowerAll(s[..n]) == [Lower(s[0])]
  {
    LowerAllAppend(s[..n], s[n..]);
    assert s == s[..n] + s[n..];
  }

  lemma FlattenNew(first: string, cut: Cut)
    ensures "" + Flatten([first + cut.head] + cut.segments) == first + (cut.head + Flatten(cut.segments))
  {
    assert ([first + cut.head] + cut.segments)[1..] == cut.segments;
    Assoc(first, cut.head, Flatten(cut.segments));
  }

  lemma {:induction false} SegmentsBoundaries(s: string)
    ensures BoundariesMatch(s, |Segments(s).head|, Segments(s).segments)
    decreases |s|
  {
    if s != "" {
      var n := if StartsRun(s) then RunLength(s) else 1;
      SegmentsBoundaries(s[n..]);
      Conservation(s[n..]);
      if StartsRun(s) {
        BoundariesAfterRun(s, Segments(s[n..]));
      } else {
        BoundariesAfterChar(s, Segments(s[1..]));
      }
    }
  }

  lemma BoundariesAfterRun(s: string, cut: Cut)
    requires StartsRun(s) && NonEmpty(cut.segments)
    requires BoundariesMatch(s[RunLength(s)..], |cut.head|, cut.segments)
    ensures BoundariesMatch(s, 0, [LowerAll(s[..RunLength(s)]) + cut.head] + cut.segments)
  {
    forall p: nat | p < |s|
      ensures StartsSegment(s, p) <==> BoundaryAt([LowerAll(s[..RunLength(s)]) + cut.head] + cut.segments, p - 0)
    {
      RunBoundary(s, cut, p);
    }
  }

  lemma BoundariesAfterChar(s: string, cut: Cut)
    requires s != "" && !StartsRun(s) && NonEmpty(cut.segments)
    requires BoundariesMatch(s[1..], |cut.head|, cut.segments)
    ensures IsUpper(s[0]) ==> BoundariesMatch(s, 0, [[Lower(s[0])] + cut.head] + cut.segments)
    ensures !IsUpper(s[0]) ==> BoundariesMatch(s, |[s[0]] + cut.head|, cut.segments)
  {
    forall p: nat | p < |s|
      ensures IsUpper(s[0]) ==>
                (StartsSegment(s, p) <==> BoundaryAt([[Lower(s[0])] + cut.head] + cut.segments, p - 0))
      ensures !IsUpper(s[0]) ==> (StartsSegment(s, p) <==> BoundaryAt(cut.segments, p - |[s[0]] + cut.head|))
    {
      CharBoundary(s, cut, p);
    }
  }

  lemma RunBoundary(s: string, cut: Cut, p: nat)
    requires StartsRun(s) && p < |s| && NonEmpty(cut.segments)
    requires BoundariesMatch(s[RunLength(s)..], |cut.head|, cut.segments)
    ensures StartsSegment(s, p) <==> BoundaryAt([LowerAll(s[..RunLength(s)]) + cut.head] + cut.segments, p)
  {
    var n := RunLength(s);
    BoundaryAfterFirst(LowerAll(s[..n]) + cut.head, cut.segments, p);
    RunShift(s, p);
    if p < n {
      NoEarlyBoundary(cut.segments, p - n - |cut.head|);
      if p > 0 {
        RunShift(s, p - 1);
      }
    }
  }

  lemma CharBoundary(s: string, cut: Cut, p: nat)
    requires s != "" && !StartsRun(s) && p < |s| && NonEmpty(cut.segments)
    requires BoundariesMatch(s[1..], |cut.head|, cut.segments)
    ensures IsUpper(s[0]) ==>
              (StartsSegment(s, p) <==> BoundaryAt([[Lower(s[0])] + cut.head] + cut.segments, p))
    ensures !IsUpper(s[0]) ==> (StartsSegment(s, p) <==> BoundaryAt(cut.segments, p - |[s[0]] + cut.head|))
  {
    BoundaryAfterFirst([Lower(s[0])] + cut.head, cut.segments, p);
    if p > 0 {
      PlainShift(s, p - 1);
      assert StartsSegment(s[1..], p - 1) <==> BoundaryAt(cut.segments, p - 1 - |cut.head|);
    } else {
      NotRunHere(s);
      NoEarlyBoundary(cut.segments, -1 - |cut.head|);
    }
  }

  lemma NotRunHere(s: string)
    requires s != "" && !StartsRun(s)
    ensures !InRun(s, 0)
  {
  }

  /** Segments, boundaries and text determine each other: there is at most one segmentation. */
  lemma {:induction false} SameBoundaries(a: seq<string>, b: seq<string>)
    requires Flatten(a) == Flatten(b) && NonEmpty(a) && NonEmpty(b)
    requires forall p: nat :: p < |Flatten(a)| ==> (BoundaryAt(a, p) <==> BoundaryAt(b, p))
    ensures a == b
    decreases |a|
  {
    if a == [] || b == [] {
      EmptyFlatten(a);
      EmptyFlatten(b);
    } else if |a[0]| < |b[0]| {
      FirstShorter(a, b);
    } else if |b[0]| < |a[0]| {
      FirstShorter(b, a);
    } else {
      var n := |a[0]|;
      assert a[0] == Flatten(a)[..n] == b[0];
      assert Flatten(a[1..]) == Flatten(a)[n..] == Flatten(b[1..]);
      forall p: nat | p < |Flatten(a[1..])| ensures BoundaryAt(a[1..], p) <==> BoundaryAt(b[1..], p) {
        assert BoundaryAt(a, p + n) <==> BoundaryAt(b, p + n);
      }
      SameBoundaries(a[1..], b[1..]);
    }
  }

  lemma EmptyFlatten(segments: seq<string>)
    requires NonEmpty(segments)
    ensures Flatten(segments) == "" <==> segments == []
  {
  }

  lemma FirstShorter(a: seq<string>, b: seq<string>)
    requires a != [] && b != [] && NonEmpty(a) && NonEmpty(b)
    requires |a[0]| < |b[0]| && Flatten(a) == Flatten(b)
    ensures |a[0]| < |Flatten(a)| && BoundaryAt(a, |a[0]|) && !BoundaryAt(b, |a[0]|)
  {
    NoEarlyBoundary(b, |a[0]|);
    assert |Flatten(a)| == |a[0]| + |Flatten(a[1..])| && |Flatten(b)| >= |b[0]|;
  }

  lemma AcceptsIff(s: string)
    ensures Segments(s).head == "" <==> s == "" || StartsSegment(s, 0)
  {
    if s != "" {
      var cut := Segments(s);
      Conservation(s);
      SegmentsBoundaries(s);
      if cut.head == "" {
        EmptyFlatten(cut.segments);
        assert cut.segments != [];
      } else {
        NoEarlyBoundary(cut.segments, -|cut.head|);
      }
      assert StartsSegment(s, 0) <==> BoundaryAt(cut.segments, 0 - |cut.head|);
    }
  }

  lemma OnlySegmentation(s: string, segments: seq<string>)
    requires s == "" || StartsSegment(s, 0)
    requires IsSegmentation(s, segments) && IsSegmentation(s, Segments(s).segments)
    ensures segments == Segments(s).segments
  {
    var computed := Segments(s).segments;
    forall p: nat | p < |s| ensures BoundaryAt(computed, p) <==> BoundaryAt(segments, p) {
      assert StartsSegment(s, p) <==> BoundaryAt(computed, p - 0);
      assert StartsSegment(s, p) <==> BoundaryAt(segments, p - 0);
    }
    SameBoundaries(computed, segments);
  }

  lemma ComputedSegmentation(s: string)
    requires Segments(s).head == ""
    ensures IsSegmentation(s, Segments(s).segments)
  {
    Conservation(s);
    SegmentsBoundaries(s);
    assert "" + Flatten(Segments(s).segments) == Flatten(Segments(s).segments);
  }

  /**
   `split` computes the segmentation, in both directions; and it panics on exactly the names whose
   first character begins no segment.
   */
  lemma {:induction false} SplitIsSegmentation(s: string, segments: seq<string>)
    ensures SplitName(s) == Some(segments) <==> IsSegmentation(s, segments)
    ensures SplitName(s) == None <==> s != "" && !StartsSegment(s, 0)
  {
    AcceptsIff(s);
    if Segments(s).head == "" {
      ComputedSegmentation(s);
    }
    if IsSegmentation(s, segments) {
      EmptyFlatten(segments);
      if s != "" {
        assert BoundaryAt(segments, 0 - 0);
      }
      OnlySegmentation(s, segments);
    }
  }
}
