/**
 Splitting a CamelCase function name into lowercase segments. Runs such as `2D` and `D3D11`, in
 which digits and capital D's alternate, stay in one segment.
 */
module CamelCase {
  import opened Wrappers
  import opened Seqs

  // ----- characters -----

  predicate IsUpper(c: char) {
    'A' <= c <= 'Z'
  }

  predicate IsDigit(c: char) {
    '0' <= c <= '9'
  }

  /** The characters a special run is made of. */
  predicate IsRunChar(c: char) {
    IsDigit(c) || c == 'D'
  }

  function Lower(c: char): char {
    if IsUpper(c) then (c as int + 32) as char else c
  }

  function LowerAll(s: string): (r: string)
    ensures |r| == |s|
    ensures forall i :: 0 <= i < |s| ==> r[i] == Lower(s[i])
    ensures forall i :: 0 <= i < |s| ==> r[i] == if 'A' <= s[i] <= 'Z' then s[i] - 'A' + 'a' else s[i]
  {
    seq(|s|, i requires 0 <= i < |s| => Lower(s[i]))
  }

  predicate NeedsSpecialSplit(c: char, next: Option<char>) {
    next.Some? && ((IsDigit(c) && next.value == 'D') || (c == 'D' && IsDigit(next.value)))
  }

  // ----- what is computed -----

  /** How many leading characters can belong to a special run. */
  function RunLength(s: string): (n: nat)
    ensures n <= |s|
    ensures forall i :: 0 <= i < n ==> IsRunChar(s[i])
    ensures n < |s| ==> !IsRunChar(s[n])
  {
    if s != "" && IsRunChar(s[0]) then 1 + RunLength(s[1..]) else 0
  }

  /** Characters that continue the segment before `s`, and the segments that start in `s`. */
  datatype Cut = Cut(head: string, segments: seq<string>)

  predicate StartsRun(s: string) {
    |s| >= 2 && NeedsSpecialSplit(s[0], Some(s[1]))
  }

  function Segments(s: string): Cut {
    if s == "" then Cut("", [])
    else if StartsRun(s) then
      var Cut(head, segments) := Segments(s[RunLength(s)..]);
      Cut("", [LowerAll(s[..RunLength(s)]) + head] + segments)
    else
      var Cut(head, segments) := Segments(s[1..]);
      if IsUpper(s[0]) then Cut("", [[Lower(s[0])] + head] + segments) else Cut([s[0]] + head, segments)
  }

  /** The segments of a name; `None` when it begins with characters that have no segment to go to. */
  function SplitName(s: string): Option<seq<string>> {
    if Segments(s).head == "" then Some(Segments(s).segments) else None
  }

  function Resume(result: seq<string>, cut: Cut): Option<seq<string>> {
    if cut.head == "" then Some(result + cut.segments)
    else if result == [] then None
    else Some(result[|result| - 1 := result[|result| - 1] + cut.head] + cut.segments)
  }

  lemma RunSegment(s: string)
    requires StartsRun(s)
    ensures RunLength(s) == 1 + RunLength(s[1..])
    ensures LowerAll(s[..RunLength(s)]) == [Lower(s[0])] + LowerAll(s[1..][..RunLength(s[1..])])
    ensures s[RunLength(s)..] == s[1..][RunLength(s[1..])..]
  {
  }

  lemma ResumeNothing(cut: Cut)
    ensures Resume([], cut) == if cut.head == "" then Some(cut.segments) else None
    ensures forall result: seq<string> :: Resume(result, Cut("", [])) == Some(result)
  {
    assert [] + cut.segments == cut.segments;
    forall result: seq<string> ensures Resume(result, Cut("", [])) == Some(result) {
      assert result + [] == result;
    }
  }

  /** One turn of the loop in `split`, for each of its branches. */
  lemma ResumeStep(result: seq<string>, s: string)
    requires s != ""
    ensures StartsRun(s) ==>
              Resume(result, Segments(s)) ==
              Resume(result + [LowerAll(s[..RunLength(s)])], Segments(s[RunLength(s)..]))
    ensures !StartsRun(s) && IsUpper(s[0]) ==>
              Resume(result, Segments(s)) == Resume(result + [[Lower(s[0])]], Segments(s[1..]))
    ensures !StartsRun(s) && !IsUpper(s[0]) ==>
              Resume(result, Segments(s)) ==
              if result == [] then None
              else Resume(result[|result| - 1 := result[|result| - 1] + [s[0]]], Segments(s[1..]))
  {
    if StartsRun(s) {
      ResumeNew(result, LowerAll(s[..RunLength(s)]), Segments(s[RunLength(s)..]));
    } else if IsUpper(s[0]) {
      ResumeNew(result, [Lower(s[0])], Segments(s[1..]));
    } else if result != [] {
      var cut, last := Segments(s[1..]), result[|result| - 1];
      assert last + ([s[0]] + cut.head) == (last + [s[0]]) + cut.head;
      var extended := result[|result| - 1 := last + [s[0]]];
      assert extended[|result| - 1 := last + [s[0]] + cut.head] == result[|result| - 1 := last + ([s[0]] + cut.head)];
      if cut.head == "" {
        assert last + ([s[0]] + cut.head) == last + [s[0]];
      }
    }
  }

  lemma ResumeNew(result: seq<string>, segment: string, cut: Cut)
    ensures Resume(result, Cut("", [segment + cut.head] + cut.segments)) == Resume(result + [segment], cut)
  {
    if cut.head == "" {
      assert segment + cut.head == segment;
    }
    assert (result + [segment])[|result| := segment + cut.head] == result + [segment + cut.head];
    Assoc(result, [segment + cut.head], cut.segments);
  }

  // ----- the code -----

  function Head(s: string): Option<char> {
    if s == "" then None else Some(s[0])
  }

  /** `iter::Peekable` over characters. */
  class Peekable {
    var rest: string

    constructor (s: string)
      ensures rest == s
    {
      rest := s;
    }

    method Next() returns (c: Option<char>)
      modifies this
      ensures old(rest) == "" ==> c == None && rest == ""
      ensures old(rest) != "" ==> c == Some(old(rest)[0]) && rest == old(rest)[1..]
    {
      if rest == "" {
        return None;
      }
      c := Some(rest[0]);
      rest := rest[1..];
    }

    function Peek(): Option<char>
      reads this
    {
      Head(rest)
    }

    method NextIf(wanted: char -> bool) returns (c: Option<char>)
      modifies this
      ensures Head(old(rest)).Some? && wanted(old(rest)[0]) ==> c == Some(old(rest)[0]) && rest == old(rest)[1..]
      ensures !(Head(old(rest)).Some? && wanted(old(rest)[0])) ==> c == None && rest == old(rest)
    {
      if rest != "" && wanted(rest[0]) {
        c := Some(rest[0]);
        rest := rest[1..];
      } else {
        c := None;
      }
    }
  }

  lemma RunStep(first: char, s: string, n: nat)
    requires n < |s| && IsRunChar(s[n])
    ensures s[n] == s[n..][0] && s[n..][1..] == s[n + 1..]
    ensures RunLength(s[n..]) == 1 + RunLength(s[n + 1..])
    ensures [Lower(first)] + LowerAll(s[..n]) + [Lower(s[n])] == [Lower(first)] + LowerAll(s[..n + 1])
  {
  }

  method ParseSpecial(first: char, iter: Peekable) returns (segment: string)
    modifies iter
    ensures segment == [Lower(first)] + LowerAll(old(iter.rest)[..RunLength(old(iter.rest))])
    ensures iter.rest == old(iter.rest)[RunLength(old(iter.rest))..]
  {
    segment := [Lower(first)];
    ghost var s := iter.rest;
    ghost var n := 0;
    assert s[0..] == s && LowerAll(s[..0]) == "";
    while true
      invariant n <= |s| && iter.rest == s[n..] && RunLength(s) == n + RunLength(s[n..])
      invariant segment == [Lower(first)] + LowerAll(s[..n])
      decreases |s| - n
    {
      var c := iter.NextIf(IsRunChar);
      if c.None? {
        break;
      }
      RunStep(first, s, n);
      segment := segment + [Lower(c.value)];
      n := n + 1;
    }
  }

  /** `None` is the panic of `last_mut().unwrap()`. */
  method Split(fn: string) returns (r: Option<seq<string>>)
    ensures r == SplitName(fn)
  {
    var result: seq<string> := [];
    var chars := new Peekable(fn);
    ResumeNothing(Segments(fn));
    while true
      invariant Resume(result, Segments(chars.rest)) == SplitName(fn)
      decreases |chars.rest|
    {
      ghost var s := chars.rest;
      var c := chars.Next();
      if c.None? {
        break;
      }
      ResumeStep(result, s);
      var next := chars.Peek();
      if NeedsSpecialSplit(c.value, next) {
        var segment := ParseSpecial(c.value, chars);
        RunSegment(s);
        result := result + [segment];
        continue;
      }
      if IsUpper(c.value) {
        result := result + [[Lower(c.value)]];
      } else {
        if result == [] {
          return None;
        }
        var last := |result| - 1;
        result := result[last := result[last] + [c.value]];
      }
    }
    return Some(result);
  }
}
