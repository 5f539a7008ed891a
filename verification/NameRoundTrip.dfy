/**
 Going back from segments to names: which lists of segments survive rendering and splitting, and
 which names can be recovered from their segments.
 */
module NameRoundTrip {
  import opened Wrappers
  import opened Seqs
  import opened CamelCase
  import opened Segmentation

  predicate IsLowerLetter(c: char) {
    'a' <= c <= 'z'
  }

  function Upper(c: char): (u: char)
    ensures IsLowerLetter(c) ==> IsUpper(u) && Lower(u) == c
    ensures IsUpper(c) ==> u == c
  {
    if IsLowerLetter(c) then (c as int - 32) as char else c
  }

  // ----- segments to name to segments -----

  /** A lowercase letter and then anything but uppercase. */
  predicate IsWord(segment: string) {
    segment != "" && IsLowerLetter(segment[0]) && forall i :: 1 <= i < |segment| ==> !IsUpper(segment[i])
  }

  predicate AllWords(segments: seq<string>) {
    forall i :: 0 <= i < |segments| ==> IsWord(segments[i])
  }

  function Capitalized(segment: string): string
    requires segment != ""
  {
    [Upper(segment[0])] + segment[1..]
  }

  /** The CamelCase name of a list of words. */
  function Render(segments: seq<string>): (s: string)
    requires AllWords(segments)
    ensures segments != [] ==> s != "" && s[0] == Upper(segments[0][0])
  {
    if segments == [] then "" else Capitalized(segments[0]) + Render(segments[1..])
  }

  predicate EndsInDigit(segment: string) {
    segment != "" && IsDigit(segment[|segment| - 1])
  }

  /** No word that ends in a digit comes before one that starts with `d`. */
  predicate NoDigitThenD(segments: seq<string>)
    requires AllWords(segments)
  {
    forall i :: 0 <= i < |segments| - 1 ==> !(EndsInDigit(segments[i]) && segments[i + 1][0] == 'd')
  }

  predicate DigitDAt(s: string, q: nat) {
    q + 1 < |s| && IsDigit(s[q]) && s[q + 1] == 'D'
  }

  lemma {:induction false} RenderText(segments: seq<string>)
    requires AllWords(segments)
    ensures LowerAll(Render(segments)) == Flatten(segments)
    decreases |segments|
  {
    if segments != [] {
      RenderText(segments[1..]);
      LowerAllAppend(Capitalized(segments[0]), Render(segments[1..]));
      assert LowerAll(Capitalized(segments[0])) == segments[0];
    }
  }

  lemma {:induction false} RenderBoundaries(segments: seq<string>, p: nat)
    requires AllWords(segments) && p < |Render(segments)|
    ensures IsUpper(Render(segments)[p]) <==> BoundaryAt(segments, p)
    decreases |segments|
  {
    var n := |segments[0]|;
    if p >= n {
      RenderBoundaries(segments[1..], p - n);
    } else if p > 0 {
      NoEarlyBoundary(segments, p);
    }
  }

  /** Where a digit comes before a `D`: within the rest, or where the first word meets the second. */
  lemma RenderDigitDAt(segments: seq<string>, q: nat)
    requires AllWords(segments) && segments != []
    ensures
      var n, rest := |segments[0]|, segments[1..];
      DigitDAt(Render(segments), q) <==>
      if q >= n then DigitDAt(Render(rest), q - n)
      else q == n - 1 && rest != [] && EndsInDigit(segments[0]) && rest[0][0] == 'd'
  {
    var first, rest := Capitalized(segments[0]), Render(segments[1..]);
    CapitalizedDigits(segments[0], q);
    DigitDConcat(first, rest, q);
    assert Render(segments) == first + rest;
    assert segments[1..] != [] ==> (rest[0] == 'D' <==> segments[1..][0][0] == 'd');
  }

  lemma CapitalizedDigits(word: string, q: nat)
    requires IsWord(word)
    ensures q + 1 < |word| ==> !DigitDAt(Capitalized(word), q)
    ensures IsDigit(Capitalized(word)[|word| - 1]) <==> EndsInDigit(word)
  {
  }

  lemma DigitDConcat(a: string, b: string, q: nat)
    requires a != ""
    ensures
      DigitDAt(a + b, q) <==>
      if q >= |a| then DigitDAt(b, q - |a|)
      else if q == |a| - 1 then b != "" && IsDigit(a[q]) && b[0] == 'D'
      else DigitDAt(a, q)
  {
  }

  lemma NoDigitThenDStep(segments: seq<string>)
    requires AllWords(segments) && segments != []
    ensures
      var rest := segments[1..];
      NoDigitThenD(segments) <==>
      NoDigitThenD(rest) && !(rest != [] && EndsInDigit(segments[0]) && rest[0][0] == 'd')
  {
    var rest := segments[1..];
    assert forall i :: 0 <= i < |rest| ==> rest[i] == segments[i + 1];
    assert forall i :: 0 < i < |segments| ==> segments[i] == rest[i - 1];
  }

  lemma {:induction false} RenderDigitD(segments: seq<string>)
    requires AllWords(segments)
    ensures NoDigitThenD(segments) <==> forall q: nat :: !DigitDAt(Render(segments), q)
    decreases |segments|
  {
    if segments != [] {
      var n, rest := |segments[0]|, segments[1..];
      RenderDigitD(rest);
      NoDigitThenDStep(segments);
      RenderDigitDAt(segments, n - 1);
      forall q: nat ensures DigitDAt(Render(rest), q) <==> DigitDAt(Render(segments), q + n) {
        RenderDigitDAt(segments, q + n);
      }
      forall q: nat | DigitDAt(Render(segments), q) ensures q == n - 1 || (q >= n && DigitDAt(Render(rest), q - n)) {
        RenderDigitDAt(segments, q);
      }
    }
  }

  /** Without a digit before a `D`, a run is a `D` and then digits only, so uppercase letters decide. */
  lemma {:induction false} DigitsAfterMixed(s: string, q: nat, p: nat)
    requires forall k: nat :: !DigitDAt(s, k)
    requires q <= p < |s| && Mixed(s, q) && AllRunChars(s, q, p)
    ensures s[q] == 'D'
    ensures p > q ==> IsDigit(s[p])
    decreases p
  {
    assert !DigitDAt(s, q);
    if p > q + 1 {
      DigitsAfterMixed(s, q, p - 1);
      assert !DigitDAt(s, p - 1);
    }
  }

  lemma UpperStarts(s: string, p: nat)
    requires p < |s| && forall k: nat :: !DigitDAt(s, k)
    ensures StartsSegment(s, p) <==> IsUpper(s[p])
  {
    if InRun(s, p) {
      var q: nat :| q <= p && Mixed(s, q) && AllRunChars(s, q, p);
      DigitsAfterMixed(s, q, p);
      if q == p {
        if p > 0 && InRun(s, p - 1) {
          var r: nat :| r <= p - 1 && Mixed(s, r) && AllRunChars(s, r, p - 1);
          assert AllRunChars(s, r, p);
          DigitsAfterMixed(s, r, p);
        }
      } else {
        assert AllRunChars(s, q, p - 1);
      }
    }
  }

  lemma DigitDJoins(s: string, q: nat)
    requires DigitDAt(s, q)
    ensures !StartsSegment(s, q + 1)
  {
    assert Mixed(s, q) && AllRunChars(s, q, q) && AllRunChars(s, q, q + 1);
  }

  /** Words survive rendering and splitting exactly when no digit ends up before a `D`. */
  lemma {:induction false} CamelRoundTrip(segments: seq<string>)
    requires AllWords(segments)
    ensures SplitName(Render(segments)) == Some(segments) <==> NoDigitThenD(segments)
  {
    var s := Render(segments);
    SplitIsSegmentation(s, segments);
    RenderText(segments);
    RenderDigitD(segments);
    if NoDigitThenD(segments) {
      forall p: nat | p < |s| ensures StartsSegment(s, p) <==> BoundaryAt(segments, p - 0) {
        UpperStarts(s, p);
        RenderBoundaries(segments, p);
      }
    } else {
      var q: nat :| DigitDAt(s, q);
      DigitDJoins(s, q);
      RenderBoundaries(segments, q + 1);
      assert BoundaryAt(segments, (q + 1) - 0);
    }
  }

  // ----- name to segments to name -----

  predicate IsLowerRunChar(c: char) {
    IsDigit(c) || c == 'd'
  }

  function LowerRunLength(s: string): (n: nat)
    ensures n <= |s|
    ensures forall i :: 0 <= i < n ==> IsLowerRunChar(s[i])
    ensures n < |s| ==> !IsLowerRunChar(s[n])
  {
    if s != "" && IsLowerRunChar(s[0]) then 1 + LowerRunLength(s[1..]) else 0
  }

  /** Only special runs give segments that begin with a digit, or with `d` and a digit. */
  predicate LooksSpecial(segment: string) {
    && segment != ""
    && (IsDigit(segment[0]) || (|segment| > 1 && segment[0] == 'd' && IsDigit(segment[1])))
  }

  function UpperAll(s: string): (r: string)
    ensures |r| == |s|
    ensures forall i :: 0 <= i < |s| ==> r[i] == Upper(s[i])
  {
    seq(|s|, i requires 0 <= i < |s| => Upper(s[i]))
  }

  function DecodeSegment(segment: string): (r: string)
    ensures |r| == |segment|
  {
    if segment == "" then ""
    else if LooksSpecial(segment) then
      UpperAll(segment[..LowerRunLength(segment)]) + segment[LowerRunLength(segment)..]
    else Capitalized(segment)
  }

  function Decode(segments: seq<string>): string {
    if segments == [] then "" else DecodeSegment(segments[0]) + Decode(segments[1..])
  }

  ghost predicate RunThenDAt(s: string, p: nat) {
    p + 1 < |s| && s[p + 1] == 'd' && InRun(s, p)
  }

  /** No special run is directly followed by a lowercase `d`, which would look like part of it. */
  ghost predicate NoRunThenD(s: string) {
    forall p: nat :: !RunThenDAt(s, p)
  }

  lemma NoRunThenDAfterChar(s: string)
    requires s != "" && !StartsRun(s)
    ensures NoRunThenD(s) <==> NoRunThenD(s[1..])
  {
    NotRunHere(s);
    forall p: nat ensures RunThenDAt(s, p + 1) <==> RunThenDAt(s[1..], p) {
      if p + 1 < |s[1..]| {
        PlainShift(s, p);
      }
    }
    forall p: nat ensures RunThenDAt(s, p) ==> p > 0 && RunThenDAt(s[1..], p - 1) {
      assert p > 0 ==> RunThenDAt(s, (p - 1) + 1) == RunThenDAt(s[1..], p - 1);
    }
  }

  lemma RunThenDShift(s: string, n: nat, p: nat)
    requires StartsRun(s) && n == RunLength(s)
    ensures RunThenDAt(s, p + n) <==> RunThenDAt(s[n..], p)
  {
    if p + 1 < |s[n..]| {
      RunShift(s, p + n);
    }
  }

  lemma NoRunThenDAfterRun(s: string)
    requires StartsRun(s)
    ensures NoRunThenD(s) <==> (Head(s[RunLength(s)..]) != Some('d') && NoRunThenD(s[RunLength(s)..]))
  {
    var n := RunLength(s);
    var t := s[n..];
    RunThenDInRun(s);
    if !NoRunThenD(s) && Head(t) != Some('d') {
      var p: nat :| RunThenDAt(s, p);
      RunThenDShift(s, n, p - n);
    }
    if !NoRunThenD(t) {
      var p: nat :| RunThenDAt(t, p);
      RunThenDShift(s, n, p);
    }
  }

  lemma RunThenDInRun(s: string)
    requires StartsRun(s)
    ensures forall p: nat :: p < RunLength(s) - 1 ==> !RunThenDAt(s, p)
    ensures RunThenDAt(s, RunLength(s) - 1) <==> Head(s[RunLength(s)..]) == Some('d')
  {
    var n := RunLength(s);
    RunShift(s, n - 1);
    forall p: nat | p < n - 1 ensures !RunThenDAt(s, p) {
      assert IsRunChar(s[p + 1]);
    }
  }

  lemma DecodePlain(c: char, head: string, t: string)
    requires IsUpper(c) && head <= t && !StartsRun([c] + t)
    ensures DecodeSegment([Lower(c)] + head) == [c] + head
  {
  }

  lemma RunPrefix(run: string, head: string)
    requires forall i :: 0 <= i < |run| ==> IsRunChar(run[i])
    ensures LowerRunLength(LowerAll(run) + head) >= |run|
    ensures head != "" && IsLowerRunChar(head[0]) ==> LowerRunLength(LowerAll(run) + head) > |run|
    ensures head == "" || !IsLowerRunChar(head[0]) ==> LowerRunLength(LowerAll(run) + head) == |run|
  {
    var segment := LowerAll(run) + head;
    assert forall i :: 0 <= i < |run| ==> segment[i] == Lower(run[i]) && IsLowerRunChar(segment[i]);
    assert head != "" ==> segment[|run|] == head[0];
  }

  lemma DecodeRun(run: string, head: string, t: string)
    requires StartsRun(run) && (forall i :: 0 <= i < |run| ==> IsRunChar(run[i]))
    requires head == "" || !IsDigit(head[0])
    ensures DecodeSegment(LowerAll(run) + head) == run + head <==> Head(head) != Some('d')
    ensures Head(head) == Some('d') ==> DecodeSegment(LowerAll(run) + head)[|run|] == 'D'
  {
    var segment := LowerAll(run) + head;
    var n := LowerRunLength(segment);
    RunPrefix(run, head);
    assert LooksSpecial(segment) by {
      assert segment[0] == Lower(run[0]) && segment[1] == Lower(run[1]);
    }
    if Head(head) == Some('d') {
      assert segment[|run|] == 'd';
      assert DecodeSegment(segment)[|run|] == UpperAll(segment[..n])[|run|] == 'D';
    } else {
      assert segment[..n] == LowerAll(run) && segment[n..] == head;
      assert UpperAll(LowerAll(run)) == run;
    }
  }

  /** What a scan cut off, put together again. */
  function Rebuild(cut: Cut): string {
    cut.head + Decode(cut.segments)
  }

  lemma {:induction false} HeadIsPrefix(s: string)
    ensures Segments(s).head <= s
    ensures s != "" && s[0] == 'd' ==> Head(Segments(s).head) == Some('d')
    decreases |s|
  {
    if s != "" && !StartsRun(s) {
      HeadIsPrefix(s[1..]);
    }
  }

  lemma RebuildRun(run: string, cut: Cut, t: string)
    requires StartsRun(run) && (forall i :: 0 <= i < |run| ==> IsRunChar(run[i]))
    requires cut.head <= t && (t != "" ==> !IsRunChar(t[0])) && (Head(t) == Some('d') ==> Head(cut.head) == Some('d'))
    ensures Rebuild(Cut("", [LowerAll(run) + cut.head] + cut.segments)) == run + t <==>
              Head(t) != Some('d') && Rebuild(cut) == t
  {
    var first := DecodeSegment(LowerAll(run) + cut.head);
    assert Rebuild(Cut("", [LowerAll(run) + cut.head] + cut.segments)) == first + Decode(cut.segments);
    assert cut.head != "" ==> cut.head[0] == t[0];
    DecodeRun(run, cut.head, t);
    if Head(t) == Some('d') {
      assert (first + Decode(cut.segments))[|run|] == 'D' && (run + t)[|run|] == 'd';
    } else {
      Assoc(run, cut.head, Decode(cut.segments));
      assert (run + t)[|run|..] == t && (run + Rebuild(cut))[|run|..] == Rebuild(cut);
    }
  }

  lemma RebuildUpper(c: char, cut: Cut, t: string)
    requires IsUpper(c) && cut.head <= t && !StartsRun([c] + t)
    ensures Rebuild(Cut("", [[Lower(c)] + cut.head] + cut.segments)) == [c] + t <==> Rebuild(cut) == t
  {
    DecodePlain(c, cut.head, t);
    Assoc([c], cut.head, Decode(cut.segments));
    assert Rebuild(Cut("", [[Lower(c)] + cut.head] + cut.segments)) == [c] + Rebuild(cut);
    assert ([c] + t)[1..] == t && ([c] + Rebuild(cut))[1..] == Rebuild(cut);
  }

  lemma RebuildChar(c: char, cut: Cut, t: string)
    ensures Rebuild(Cut([c] + cut.head, cut.segments)) == [c] + t <==> Rebuild(cut) == t
  {
    Assoc([c], cut.head, Decode(cut.segments));
    assert Rebuild(Cut([c] + cut.head, cut.segments)) == [c] + Rebuild(cut);
    assert ([c] + t)[1..] == t && ([c] + Rebuild(cut))[1..] == Rebuild(cut);
  }

  lemma {:induction false} RebuildIff(s: string)
    ensures Rebuild(Segments(s)) == s <==> NoRunThenD(s)
    decreases |s|
  {
    if s == "" {
    } else if StartsRun(s) {
      RebuildIff(s[RunLength(s)..]);
      RebuildAfterRun(s);
    } else {
      RebuildIff(s[1..]);
      RebuildAfterChar(s);
    }
  }

  lemma RebuildAfterRun(s: string)
    requires StartsRun(s)
    requires var t := s[RunLength(s)..]; Rebuild(Segments(t)) == t <==> NoRunThenD(t)
    ensures Rebuild(Segments(s)) == s <==> NoRunThenD(s)
  {
    var n := RunLength(s);
    var run, t := s[..n], s[n..];
    assert s == run + t;
    assert StartsRun(run) && Segments(s) == Cut("", [LowerAll(run) + Segments(t).head] + Segments(t).segments);
    RebuildRun(run, Segments(t), t) by { HeadIsPrefix(t); }
    NoRunThenDAfterRun(s);
  }

  lemma RebuildAfterChar(s: string)
    requires s != "" && !StartsRun(s)
    requires Rebuild(Segments(s[1..])) == s[1..] <==> NoRunThenD(s[1..])
    ensures Rebuild(Segments(s)) == s <==> NoRunThenD(s)
  {
    var c, t := s[0], s[1..];
    assert s == [c] + t;
    NoRunThenDAfterChar(s);
    HeadIsPrefix(t);
    if IsUpper(c) {
      RebuildUpper(c, Segments(t), t);
    } else {
      RebuildChar(c, Segments(t), t);
    }
  }

  /** The decoder recovers an accepted name exactly when none of its special runs is followed by a `d`. */
  lemma {:induction false} NameRecovered(s: string, segments: seq<string>)
    requires SplitName(s) == Some(segments)
    ensures Decode(segments) == s <==> NoRunThenD(s)
  {
    RebuildIff(s);
    assert "" + Decode(segments) == Decode(segments);
  }

  /** So on those names splitting is injective. */
  lemma {:induction false} SplitInjective(s: string, t: string)
    requires SplitName(s).Some? && SplitName(s) == SplitName(t)
    requires NoRunThenD(s) && NoRunThenD(t)
    ensures s == t
  {
    NameRecovered(s, SplitName(s).value);
    NameRecovered(t, SplitName(t).value);
  }

  /** Without the condition it is not: these two names have the same segments. */
  lemma {:induction false} SplitCollision()
    ensures SplitName("2Dd") == SplitName("2DD") == Some(["2dd"])
  {
    assert "2D" + "d" == "2Dd" && "2DD" + "" == "2DD";
    RunThenTail("2D", "d");
    RunThenTail("2DD", "");
    assert "d"[1..] == "" && Segments("") == Cut("", []);
    assert Segments("d") == Cut("d", []);
    assert LowerAll("2D") + "d" == "2dd" && LowerAll("2DD") + "" == "2dd";
    assert ["2dd"] + [] == ["2dd"];
  }

  lemma RunThenTail(run: string, t: string)
    requires StartsRun(run) && (forall i :: 0 <= i < |run| ==> IsRunChar(run[i]))
    requires t != "" ==> !IsRunChar(t[0])
    ensures SplitName(run + t) == Some([LowerAll(run) + Segments(t).head] + Segments(t).segments)
  {
    var s := run + t;
    assert RunLength(s) == |run| by {
      assert forall i :: 0 <= i < |run| ==> IsRunChar(s[i]);
      assert t != "" ==> s[|run|] == t[0];
    }
    assert s[..|run|] == run && s[|run|..] == t;
  }
}
