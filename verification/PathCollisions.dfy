/**
 When two function names get the same path, and how a name can be read back from its path. Joining
 forgets three things: where a segment ended and where it had an underscore, whether a segment was
 abbreviated, and whether the module in front was the default.
 */
module PathCollisions {
  import opened Wrappers
  import opened Seqs
  import opened CamelCase
  import opened Segmentation
  import opened NameRoundTrip
  import opened FnPaths

  // ----- underscores -----

  predicate NoUnderscore(s: string) {
    forall i :: 0 <= i < |s| ==> s[i] != '_'
  }

  predicate NoUnderscores(parts: seq<string>) {
    forall i :: 0 <= i < |parts| ==> NoUnderscore(parts[i])
  }

  /** A text cut at its underscores. */
  function Pieces(s: string): (r: seq<string>)
    ensures r != []
  {
    if s == "" then [""]
    else
      var rest := Pieces(s[1..]);
      if s[0] == '_' then [""] + rest else [[s[0]] + rest[0]] + rest[1..]
  }

  lemma {:induction false} PiecesJoin(s: string)
    ensures NoUnderscores(Pieces(s)) && Underscored(Pieces(s)) == s
    decreases |s|
  {
    if s != "" {
      var rest := Pieces(s[1..]);
      PiecesJoin(s[1..]);
      assert s == [s[0]] + s[1..];
      if s[0] == '_' {
        assert ([""] + rest)[1..] == rest;
      } else {
        assert ([[s[0]] + rest[0]] + rest[1..])[1..] == rest[1..];
      }
    }
  }

  lemma {:induction false} PiecesPlain(s: string)
    requires NoUnderscore(s)
    ensures Pieces(s) == [s]
    decreases |s|
  {
    if s != "" {
      PiecesPlain(s[1..]);
      assert [s[0]] + s[1..] == s;
    }
  }

  lemma PiecesSplit(first: string, rest: string)
    requires NoUnderscore(first)
    ensures Pieces(first + "_" + rest) == [first] + Pieces(rest)
  {
    PiecesJoin(first + "_" + rest);
    PiecesJoin(rest);
    assert ([first] + Pieces(rest))[1..] == Pieces(rest);
    UnderscoredInjective(Pieces(first + "_" + rest), [first] + Pieces(rest));
  }

  /** All parts cut at their underscores, in one list. */
  function Words(parts: seq<string>): seq<string> {
    if parts == [] then [] else Pieces(parts[0]) + Words(parts[1..])
  }

  lemma {:induction false} UnderscoredAppend(a: seq<string>, b: seq<string>)
    requires a != [] && b != []
    ensures Underscored(a + b) == Underscored(a) + "_" + Underscored(b)
    decreases |a|
  {
    if |a| == 1 {
      assert (a + b)[1..] == b;
    } else {
      UnderscoredAppend(a[1..], b);
      assert (a + b)[1..] == a[1..] + b;
    }
  }

  lemma {:induction false} WordsJoin(parts: seq<string>)
    ensures NoUnderscores(Words(parts)) && (Words(parts) == [] <==> parts == [])
    ensures Underscored(Words(parts)) == Underscored(parts)
    decreases |parts|
  {
    if parts != [] {
      PiecesJoin(parts[0]);
      WordsJoin(parts[1..]);
      if |parts| == 1 {
        assert Words(parts) == Pieces(parts[0]);
      } else {
        UnderscoredAppend(Pieces(parts[0]), Words(parts[1..]));
      }
    }
  }

  lemma {:induction false} UnderscoredInjective(a: seq<string>, b: seq<string>)
    requires a != [] && b != [] && NoUnderscores(a) && NoUnderscores(b)
    requires Underscored(a) == Underscored(b)
    ensures a == b
    decreases |a|
  {
    var u := Underscored(a);
    FirstUnderscore(a);
    FirstUnderscore(b);
    assert |a[0]| == |b[0]|;
    assert a[0] == u[..|a[0]|] == b[0];
    if |a| > 1 {
      assert |b| > 1;
      assert Underscored(a[1..]) == u[|a[0]| + 1..] == Underscored(b[1..]);
      UnderscoredInjective(a[1..], b[1..]);
      assert a == [a[0]] + a[1..] && b == [b[0]] + b[1..];
    } else {
      assert a == [a[0]] && b == [b[0]];
    }
  }

  /** The first underscore of the joined text is where the first part ends. */
  lemma FirstUnderscore(parts: seq<string>)
    requires parts != [] && NoUnderscores(parts)
    ensures |parts[0]| <= |Underscored(parts)|
    ensures Underscored(parts)[..|parts[0]|] == parts[0]
    ensures forall i :: 0 <= i < |parts[0]| ==> Underscored(parts)[i] != '_'
    ensures |parts| == 1 <==> |Underscored(parts)| == |parts[0]|
    ensures |parts| > 1 ==> Underscored(parts)[|parts[0]|] == '_'
                            && Underscored(parts)[|parts[0]| + 1..] == Underscored(parts[1..])
  {
  }

  /** Joining with underscores forgets exactly which of them were there before. */
  lemma {:induction false} SameTextIff(a: seq<string>, b: seq<string>)
    requires a != [] && b != []
    ensures Underscored(a) == Underscored(b) <==> Words(a) == Words(b)
  {
    WordsJoin(a);
    WordsJoin(b);
    if Underscored(a) == Underscored(b) {
      UnderscoredInjective(Words(a), Words(b));
    }
  }

  // ----- when two paths are the same -----

  /** The segments that a path stands for: expanded, and led by the module. */
  function Spelled(fn: seq<string>, defaultModule: Option<string>): (parts: seq<string>)
    requires Expand(fn) != []
    ensures parts != []
  {
    match defaultModule
    case None => Expand(fn)
    case Some(m) => WithModule(Expand(fn), m)
  }

  predicate GoodDefault(defaultModule: Option<string>) {
    defaultModule.Some? ==>
      defaultModule.value != "" && !IsDigit(defaultModule.value[0]) && NoUnderscore(defaultModule.value)
  }

  /** What the segments of every name are, see `NameParts`. */
  predicate GoodParts(fn: seq<string>) {
    NonEmpty(fn) && NoneStartsWithUnderscore(Expand(fn))
  }

  lemma NameParts(s: string, segments: seq<string>)
    requires SplitName(s) == Some(segments)
    ensures GoodParts(segments)
  {
    SegmentHeads(s);
    ExpandHeads(segments);
  }

  /**
   Two lists of segments get the same path exactly when, after abbreviations are expanded and the
   default module is added, they are the same words between underscores.
   */
  lemma {:induction false} JoinMeetsIff(a: seq<string>, b: seq<string>, defaultModule: Option<string>)
    requires GoodParts(a) && GoodParts(b) && GoodDefault(defaultModule)
    requires JoinPath(a, defaultModule).Some? && JoinPath(b, defaultModule).Some?
    ensures Expand(a) != [] && Expand(b) != []
    ensures JoinPath(a, defaultModule) == JoinPath(b, defaultModule) <==>
              Words(Spelled(a, defaultModule)) == Words(Spelled(b, defaultModule))
  {
    SpelledText(a, b, defaultModule);
    PathOfWords(a, b, defaultModule);
  }

  lemma SpelledText(a: seq<string>, b: seq<string>, defaultModule: Option<string>)
    requires GoodParts(a) && GoodParts(b) && GoodDefault(defaultModule)
    requires JoinPath(a, defaultModule).Some? && JoinPath(b, defaultModule).Some?
    ensures Expand(a) != [] && Expand(b) != []
    ensures JoinPath(a, defaultModule) == JoinPath(b, defaultModule) ==>
              Words(Spelled(a, defaultModule)) == Words(Spelled(b, defaultModule))
  {
    JoinSpells(a, defaultModule);
    JoinSpells(b, defaultModule);
    SameTextIff(Spelled(a, defaultModule), Spelled(b, defaultModule));
  }

  lemma PathOfWords(a: seq<string>, b: seq<string>, defaultModule: Option<string>)
    requires Expand(a) != [] && Expand(b) != [] && GoodDefault(defaultModule)
    ensures Words(Spelled(a, defaultModule)) == Words(Spelled(b, defaultModule)) ==>
              JoinPath(a, defaultModule) == JoinPath(b, defaultModule)
  {
    var x, y := Spelled(a, defaultModule), Spelled(b, defaultModule);
    SameTextIff(x, y);
    if defaultModule.Some? && Words(x) == Words(y) {
      ModuleWord(a, defaultModule.value);
      ModuleWord(b, defaultModule.value);
      TailText(x, y);
      ModulePath(a, defaultModule.value);
      ModulePath(b, defaultModule.value);
    }
  }

  lemma TailText(x: seq<string>, y: seq<string>)
    requires x != [] && y != []
    requires [x[0]] + Words(x[1..]) == [y[0]] + Words(y[1..])
    ensures x[0] == y[0] && Underscored(x[1..]) == Underscored(y[1..])
  {
    assert Words(x[1..]) == ([x[0]] + Words(x[1..]))[1..] == Words(y[1..]);
    WordsJoin(x[1..]);
    WordsJoin(y[1..]);
  }

  lemma ModulePath(fn: seq<string>, m: string)
    requires Expand(fn) != []
    ensures
      var x := Spelled(fn, Some(m));
      JoinPath(fn, Some(m)) == Both(SafeIdent(x[0]), SafeIdent(Underscored(x[1..])))
  {
  }

  lemma SomeModulesPlain(i: nat, from: nat)
    requires from <= i < from + 6 && i < |MODULES| && (from == 0 || from == 6 || from == 12)
    ensures NoUnderscore(MODULES[i])
  {
  }

  lemma ModulesPlain(m: string)
    requires m in MODULES
    ensures NoUnderscore(m)
  {
    var i: nat :| i < |MODULES| && MODULES[i] == m;
    SomeModulesPlain(i, if i < 6 then 0 else if i < 12 then 6 else 12);
  }

  lemma FirstWord(parts: seq<string>)
    requires parts != [] && NoUnderscore(parts[0])
    ensures Words(parts) == [parts[0]] + Words(parts[1..])
  {
    PiecesPlain(parts[0]);
  }

  /** A module is a single word, so the first word of the path is its module. */
  lemma ModuleWord(fn: seq<string>, m: string)
    requires Expand(fn) != [] && NoUnderscore(m)
    ensures
      var x := Spelled(fn, Some(m));
      Words(x) == [x[0]] + Words(x[1..])
  {
    var x := Spelled(fn, Some(m));
    if x[0] != m {
      ModulesPlain(x[0]);
    }
    FirstWord(x);
  }

  // ----- putting segments together again -----

  predicate SuffixesOnly(suffixes: set<string>, pieces: seq<string>) {
    forall j :: 1 <= j < |pieces| ==> pieces[j] in suffixes
  }

  /** A segment is one word, and behind it any number of words that only occur as suffixes. */
  predicate Suffixed(suffixes: set<string>, parts: seq<string>) {
    forall i :: 0 <= i < |parts| ==>
      SuffixesOnly(suffixes, Pieces(parts[i])) && (i > 0 ==> Pieces(parts[i])[0] !in suffixes)
  }

  /** Every suffix goes to the word before it. */
  function Rejoin(suffixes: set<string>, words: seq<string>): (parts: seq<string>)
    ensures parts == [] <==> words == []
  {
    if |words| <= 1 then words
    else
      var rest := Rejoin(suffixes, words[1..]);
      if words[1] in suffixes then [words[0] + "_" + rest[0]] + rest[1..] else [words[0]] + rest
  }

  lemma {:induction false} RejoinPieces(suffixes: set<string>, pieces: seq<string>, words: seq<string>)
    requires pieces != [] && SuffixesOnly(suffixes, pieces)
    requires words != [] ==> words[0] !in suffixes
    ensures Rejoin(suffixes, pieces + words) == [Underscored(pieces)] + Rejoin(suffixes, words)
    decreases |pieces|
  {
    assert (pieces + words)[1..] == pieces[1..] + words;
    if |pieces| == 1 {
      assert pieces[1..] + words == words;
    } else {
      assert pieces[1] in suffixes;
      RejoinPieces(suffixes, pieces[1..], words);
    }
  }

  lemma {:induction false} RejoinSuffixed(suffixes: set<string>, words: seq<string>)
    requires NoUnderscores(words)
    ensures Suffixed(suffixes, Rejoin(suffixes, words))
    ensures words != [] ==> Pieces(Rejoin(suffixes, words)[0])[0] == words[0]
    decreases |words|
  {
    if |words| == 1 {
      PiecesPlain(words[0]);
    } else if |words| > 1 {
      var rest := Rejoin(suffixes, words[1..]);
      RejoinSuffixed(suffixes, words[1..]);
      PiecesPlain(words[0]);
      PiecesSplit(words[0], rest[0]);
    }
  }

  /** The segments can be found again in the words exactly when underscores lead to suffixes only. */
  lemma {:induction false} RejoinIff(suffixes: set<string>, parts: seq<string>)
    ensures Rejoin(suffixes, Words(parts)) == parts <==> Suffixed(suffixes, parts)
  {
    WordsJoin(parts);
    RejoinSuffixed(suffixes, Words(parts));
    if Suffixed(suffixes, parts) {
      RejoinWords(suffixes, parts);
    }
  }

  lemma {:induction false} RejoinWords(suffixes: set<string>, parts: seq<string>)
    requires Suffixed(suffixes, parts)
    ensures Rejoin(suffixes, Words(parts)) == parts
    decreases |parts|
  {
    if parts != [] {
      RejoinWords(suffixes, parts[1..]);
      PiecesJoin(parts[0]);
      RejoinPieces(suffixes, Pieces(parts[0]), Words(parts[1..]));
      assert parts == [parts[0]] + parts[1..];
    }
  }

  // ----- abbreviations -----

  function Abbreviation(part: string): string {
    if part == "context" then "ctx"
    else if part == "function" then "func"
    else if part == "memory" then "mem"
    else part
  }

  /** The shortest list of segments with this expansion. */
  function Abbreviated(parts: seq<string>): seq<string>
    decreases |parts|
  {
    if parts == [] then []
    else if |parts| > 1 && parts[0] == "memory" && parts[1] == "copy" then ["memcpy"] + Abbreviated(parts[2..])
    else if |parts| > 1 && parts[0] == "memory" && parts[1] == "set" then ["memset"] + Abbreviated(parts[2..])
    else [Abbreviation(parts[0])] + Abbreviated(parts[1..])
  }

  /** Nothing is written out that has an abbreviation. */
  predicate Clear(segments: seq<string>) {
    forall i :: 0 <= i < |segments| ==>
      && segments[i] != "context" && segments[i] != "function" && segments[i] != "memory"
      && (i + 1 < |segments| && segments[i] == "mem" ==> segments[i + 1] != "copy" && segments[i + 1] != "set")
  }

  predicate NoAbbreviation(parts: seq<string>) {
    forall i :: 0 <= i < |parts| ==> FullForm(parts[i]).None?
  }

  lemma {:induction false} ExpandLeavesNone(segments: seq<string>)
    ensures NoAbbreviation(Expand(segments))
    decreases |segments|
  {
    if segments != [] {
      ExpandLeavesNone(segments[1..]);
      assert NoAbbreviation(FullForms(segments[0]));
    }
  }

  predicate StartsWithVerb(segments: seq<string>) {
    segments != [] && (segments[0] == "copy" || segments[0] == "set")
  }

  predicate MayStandBefore(first: string, rest: seq<string>) {
    && first != "context" && first != "function" && first != "memory"
    && (first == "mem" ==> !StartsWithVerb(rest))
  }

  lemma ClearStep(first: string, rest: seq<string>)
    ensures Clear([first] + rest) <==> Clear(rest) && MayStandBefore(first, rest)
  {
    var all := [first] + rest;
    assert all[0] == first && all[1..] == rest;
    assert rest != [] ==> all[1] == rest[0];
    if Clear(all) {
      forall i | 0 <= i < |rest| ensures rest[i] == all[i + 1] {
      }
    }
  }

  lemma {:induction false} AbbreviatedClear(parts: seq<string>)
    requires NoAbbreviation(parts)
    ensures Clear(Abbreviated(parts))
    ensures !StartsWithVerb(parts) ==> !StartsWithVerb(Abbreviated(parts))
    decreases |parts|
  {
    if parts == [] {
    } else if parts[0] == "memory" && StartsWithVerb(parts[1..]) {
      AbbreviatedClear(parts[2..]);
      ClearStep(Abbreviated(parts)[0], Abbreviated(parts[2..]));
    } else {
      AbbreviatedClear(parts[1..]);
      ClearStep(Abbreviation(parts[0]), Abbreviated(parts[1..]));
    }
  }

  lemma {:induction false} ExpandAbbreviated(parts: seq<string>)
    requires NoAbbreviation(parts)
    ensures Expand(Abbreviated(parts)) == parts
    decreases |parts|
  {
    if parts != [] {
      var n := if parts[0] == "memory" && StartsWithVerb(parts[1..]) then 2 else 1;
      ExpandAbbreviated(parts[n..]);
      assert FullForms(Abbreviated(parts)[0]) == parts[..n];
      assert parts == parts[..n] + parts[n..];
    }
  }

  lemma {:induction false} AbbreviatedExpand(segments: seq<string>)
    requires Clear(segments)
    ensures Abbreviated(Expand(segments)) == segments
    decreases |segments|
  {
    if segments != [] {
      var first, rest := segments[0], segments[1..];
      assert segments == [first] + rest;
      ClearStep(first, rest);
      AbbreviatedExpand(rest);
      ExpandedVerb(rest);
      AbbreviatedFirst(first, Expand(rest));
    }
  }

  lemma ExpandedVerb(segments: seq<string>)
    ensures StartsWithVerb(Expand(segments)) <==> StartsWithVerb(segments)
  {
  }

  lemma AbbreviatedFirst(first: string, parts: seq<string>)
    requires first != "context" && first != "function" && first != "memory"
    requires first == "mem" ==> !StartsWithVerb(parts)
    ensures Abbreviated(FullForms(first) + parts) == [first] + Abbreviated(parts)
  {
    var full := FullForms(first);
    assert (full + parts)[|full|..] == parts;
  }

  /** Of all lists of segments with one expansion exactly one is clear. */
  lemma {:induction false} ExpansionMeetsIff(a: seq<string>, b: seq<string>)
    requires Clear(a)
    ensures Clear(Abbreviated(Expand(b))) && Expand(Abbreviated(Expand(b))) == Expand(b)
    ensures Expand(a) == Expand(b) <==> a == Abbreviated(Expand(b))
    ensures Abbreviated(Expand(b)) == b <==> Clear(b)
  {
    ExpandLeavesNone(b);
    AbbreviatedClear(Expand(b));
    ExpandAbbreviated(Expand(b));
    AbbreviatedExpand(a);
    if Clear(b) {
      AbbreviatedExpand(b);
    }
  }

  // ----- from a path back to the name -----

  function PathText(ids: seq<string>): string
    requires 1 <= |ids| <= 2 && (|ids| == 2 ==> ids[1] != "")
  {
    if |ids| == 1 then Bare(ids[0]) else ids[0] + "_" + Bare(ids[1])
  }

  function WithoutDefault(parts: seq<string>, defaultModule: Option<string>): seq<string>
    requires parts != []
  {
    if defaultModule.Some? && parts[0] == defaultModule.value then parts[1..] else parts
  }

  /** Reads nothing but the path, and needs to know which words are suffixes. */
  function NameOf(text: string, suffixes: set<string>, defaultModule: Option<string>): string {
    Decode(Abbreviated(WithoutDefault(Rejoin(suffixes, Pieces(text)), defaultModule)))
  }

  predicate LedByDefault(segments: seq<string>, defaultModule: Option<string>)
    requires Expand(segments) != []
  {
    defaultModule.Some? && defaultModule.value in MODULES && Expand(segments)[0] == defaultModule.value
  }

  /**
   Names that can be read back: no special run before a `d`, nothing written out that has an
   abbreviation, underscores before suffixes only, and not beginning with the default module where
   that is a module of its own.
   */
  ghost predicate Legible(name: string, suffixes: set<string>, defaultModule: Option<string>) {
    && SplitName(name).Some? && NoRunThenD(name)
    && var segments := SplitName(name).value;
       && Expand(segments) != [] && Clear(segments)
       && Suffixed(suffixes, Spelled(segments, defaultModule))
       && !LedByDefault(segments, defaultModule)
  }

  lemma DefaultRemoved(segments: seq<string>, defaultModule: Option<string>)
    requires Expand(segments) != [] && !LedByDefault(segments, defaultModule)
    ensures WithoutDefault(Spelled(segments, defaultModule), defaultModule) == Expand(segments)
  {
    var n := Expand(segments);
    if defaultModule.Some? && n[0] !in MODULES {
      assert ([defaultModule.value] + n)[1..] == n;
    }
  }

  /** Reading a path back gives the name. */
  lemma {:induction false} NameReadBack(name: string, suffixes: set<string>, defaultModule: Option<string>)
    requires Legible(name, suffixes, defaultModule) && GoodDefault(defaultModule)
    ensures
      var path := JoinPath(SplitName(name).value, defaultModule);
      path.Some? ==>
        && |path.value| == (if defaultModule.Some? then 2 else 1)
        && NameOf(PathText(path.value), suffixes, defaultModule) == name
  {
    var segments := SplitName(name).value;
    if JoinPath(segments, defaultModule).Some? {
      var parts := Spelled(segments, defaultModule);
      NameParts(name, segments);
      JoinSpells(segments, defaultModule);
      PiecesOfText(parts);
      RejoinIff(suffixes, parts);
      DefaultRemoved(segments, defaultModule);
      ExpansionMeetsIff(segments, segments);
      NameRecovered(name, segments);
    }
  }

  lemma PiecesOfText(parts: seq<string>)
    requires parts != []
    ensures Pieces(Underscored(parts)) == Words(parts)
  {
    PiecesJoin(Underscored(parts));
    WordsJoin(parts);
    UnderscoredInjective(Pieces(Underscored(parts)), Words(parts));
  }

  /** So different legible names never get the same path. */
  lemma {:induction false} PathsDistinguishNames(
    s: string, t: string, suffixes: set<string>, defaultModule: Option<string>)
    requires SplitName(s).Some? && SplitName(t).Some? && GoodDefault(defaultModule)
    ensures
      var p, q := JoinPath(SplitName(s).value, defaultModule), JoinPath(SplitName(t).value, defaultModule);
      Legible(s, suffixes, defaultModule) && Legible(t, suffixes, defaultModule) && p.Some? && p == q ==> s == t
  {
    if Legible(s, suffixes, defaultModule) && Legible(t, suffixes, defaultModule) {
      NameReadBack(s, suffixes, defaultModule);
      NameReadBack(t, suffixes, defaultModule);
    }
  }

  /** For names without underscores there need not be any suffixes. */
  lemma {:induction false} PlainSuffixed(name: string, segments: seq<string>, defaultModule: Option<string>)
    requires SplitName(name) == Some(segments) && NoUnderscore(name) && Expand(segments) != []
    requires GoodDefault(defaultModule)
    ensures Suffixed({}, Spelled(segments, defaultModule))
  {
    SplitIsSegmentation(name, segments);
    SegmentsPlain(segments);
    ExpandPlain(segments);
    forall i | 0 <= i < |Spelled(segments, defaultModule)|
      ensures |Pieces(Spelled(segments, defaultModule)[i])| == 1
    {
      PiecesPlain(Spelled(segments, defaultModule)[i]);
    }
  }

  lemma {:induction false} SegmentsPlain(segments: seq<string>)
    requires NoUnderscore(Flatten(segments))
    ensures NoUnderscores(segments)
    decreases |segments|
  {
    if segments != [] {
      var all, n := Flatten(segments), |segments[0]|;
      assert all[..n] == segments[0] && all[n..] == Flatten(segments[1..]);
      assert forall i :: n <= i < |all| ==> all[n..][i - n] == all[i];
      SegmentsPlain(segments[1..]);
      assert segments == [segments[0]] + segments[1..];
    }
  }

  lemma {:induction false} ExpandPlain(segments: seq<string>)
    requires NoUnderscores(segments)
    ensures NoUnderscores(Expand(segments))
    decreases |segments|
  {
    if segments != [] {
      ExpandPlain(segments[1..]);
      assert NoUnderscores(FullForms(segments[0]));
    }
  }

  // ----- names that meet -----

  /** With underscores different names may meet: `Get_v2` and `GetV2` do, as any such pair of words does. */
  lemma {:induction false} UnderscoreCollision(a: string, b: string)
    requires IsWord(a) && IsWord(b) && !EndsInDigit(a)
    requires FullForm(a).None? && FullForm(b).None? && FullForm(a + "_" + b).None?
    ensures
      var s, t := Capitalized(a) + "_" + b, Capitalized(a) + Capitalized(b);
      && s != t
      && SplitName(s) == Some([a + "_" + b]) && SplitName(t) == Some([a, b])
      && JoinPath([a + "_" + b], None) == JoinPath([a, b], None) == Some([a + "_" + b])
  {
    assert Capitalized(a + "_" + b) == Capitalized(a) + "_" + b;
    OneWord(a + "_" + b, Capitalized(a) + "_" + b);
    TwoWords(a, b, Capitalized(a) + Capitalized(b));
    TwoPartsJoin(a, b);
  }

  lemma RenderOne(a: string)
    requires IsWord(a)
    ensures Render([a]) == Capitalized(a)
  {
    assert [a][1..] == [] && Capitalized(a) + "" == Capitalized(a);
  }

  lemma OneWord(a: string, name: string)
    requires IsWord(a) && name == Capitalized(a)
    ensures SplitName(name) == Some([a])
  {
    RenderOne(a);
    CamelRoundTrip([a]);
  }

  lemma TwoWords(a: string, b: string, name: string)
    requires IsWord(a) && IsWord(b) && !EndsInDigit(a) && name == Capitalized(a) + Capitalized(b)
    ensures SplitName(name) == Some([a, b])
  {
    RenderOne(b);
    assert [a, b][1..] == [b];
    assert Render([a, b]) == Capitalized(a) + Render([b]);
    CamelRoundTrip([a, b]);
  }

  lemma TwoPartsJoin(a: string, b: string)
    requires a != "" && b != "" && FullForm(a).None? && FullForm(b).None? && FullForm(a + "_" + b).None?
    ensures JoinPath([a, b], None) == JoinPath([a + "_" + b], None)
    ensures !IsDigit(a[0]) ==> JoinPath([a, b], None) == Some([a + "_" + b])
  {
    assert [a, b][1..] == [b] && [b][1..] == [] && [a + "_" + b][1..] == [];
    assert Expand([b]) == [b] && Expand([a, b]) == [a, b] && Expand([a + "_" + b]) == [a + "_" + b];
    assert Underscored([b]) == b && Underscored([a, b]) == a + "_" + b;
  }

  /**
   Without underscores they may meet too: the names of any two different lists of words with the
   same expansion do, whatever the default module.
   */
  lemma {:induction false} AbbreviationCollision(a: seq<string>, b: seq<string>, defaultModule: Option<string>)
    requires AllWords(a) && AllWords(b) && NoDigitThenD(a) && NoDigitThenD(b)
    requires a != b && Expand(a) == Expand(b)
    ensures Render(a) != Render(b)
    ensures SplitName(Render(a)) == Some(a) && SplitName(Render(b)) == Some(b)
    ensures JoinPath(a, defaultModule) == JoinPath(b, defaultModule)
  {
    CamelRoundTrip(a);
    CamelRoundTrip(b);
  }

  lemma CopyExpansions()
    ensures Expand(["memcpy"]) == ["memory", "copy"] && Expand(["mem", "copy"]) == ["memory", "copy"]
  {
    assert ["mem", "copy"][1..] == ["copy"] && ["copy"][1..] == [] && ["memcpy"][1..] == [];
    assert Expand(["copy"]) == ["copy"];
  }

  lemma MemcpyName()
    ensures SplitName("Memcpy") == Some(["memcpy"])
  {
    OneWord("memcpy", "Memcpy");
  }

  lemma MemCopyName()
    ensures SplitName("MemCopy") == Some(["mem", "copy"])
  {
    TwoWords("mem", "copy", "MemCopy");
  }

  lemma SamePath(a: seq<string>, b: seq<string>, defaultModule: Option<string>)
    requires Expand(a) == Expand(b)
    ensures JoinPath(a, defaultModule) == JoinPath(b, defaultModule)
  {
  }

  /** `Memcpy` and `MemCopy` get the same path. */
  lemma {:induction false} MemcpyCollision(defaultModule: Option<string>)
    ensures SplitName("Memcpy") == Some(["memcpy"]) && SplitName("MemCopy") == Some(["mem", "copy"])
    ensures JoinPath(["memcpy"], defaultModule) == JoinPath(["mem", "copy"], defaultModule)
  {
    MemcpyName();
    MemCopyName();
    CopyExpansions();
    SamePath(["memcpy"], ["mem", "copy"], defaultModule);
  }

  // ----- whole paths -----

  function NameIn(prefix: string, path: seq<string>): string
    requires path != [] && |path[|path| - 1]| >= |prefix|
  {
    path[|path| - 1][|prefix|..]
  }

  function DefaultFor(defaultModule: Option<string>, path: seq<string>): Option<string>
    requires path != []
  {
    EffectiveDefault(path[..|path| - 1], defaultModule)
  }

  function SegmentsIn(prefix: string, path: seq<string>): seq<string>
    requires path != [] && |path[|path| - 1]| >= |prefix|
  {
    Segments(NameIn(prefix, path)).segments
  }

  /**
   Two paths normalise to the same one exactly when their parents are the same and the rests of
   their names behind the prefix spell the same words.
   */
  lemma {:induction false} NormalizeMeetsIff(
    prefix: string, defaultModule: Option<string>, p: seq<string>, q: seq<string>)
    requires p != [] && q != [] && GoodDefault(defaultModule)
    ensures NormalizePath(prefix, defaultModule, p).Some? && NormalizePath(prefix, defaultModule, q).Some? ==>
              && |p[|p| - 1]| > |prefix| && |q[|q| - 1]| > |prefix|
              && var a, b := SegmentsIn(prefix, p), SegmentsIn(prefix, q);
                 && Expand(a) != [] && Expand(b) != []
                 && (NormalizePath(prefix, defaultModule, p) == NormalizePath(prefix, defaultModule, q) <==>
                       && p[..|p| - 1] == q[..|q| - 1]
                       && Words(Spelled(a, DefaultFor(defaultModule, p)))
                       == Words(Spelled(b, DefaultFor(defaultModule, q))))
  {
    if NormalizePath(prefix, defaultModule, p).Some? && NormalizePath(prefix, defaultModule, q).Some? {
      NormalizeSpells(prefix, defaultModule, p);
      NormalizeSpells(prefix, defaultModule, q);
      if p[..|p| - 1] == q[..|q| - 1] {
        NameParts(NameIn(prefix, p), SegmentsIn(prefix, p));
        NameParts(NameIn(prefix, q), SegmentsIn(prefix, q));
        JoinMeetsIff(SegmentsIn(prefix, p), SegmentsIn(prefix, q), DefaultFor(defaultModule, p));
      }
    }
  }

  ghost predicate LegiblePath(
    prefix: string, defaultModule: Option<string>, path: seq<string>, suffixes: set<string>)
  {
    && path != [] && |path[|path| - 1]| >= |prefix|
    && Legible(NameIn(prefix, path), suffixes, DefaultFor(defaultModule, path))
  }

  lemma PathParts(prefix: string, p: seq<string>, q: seq<string>)
    requires p != [] && q != [] && |p[|p| - 1]| >= |prefix| && |q[|q| - 1]| >= |prefix|
    requires p[..|p| - 1] == q[..|q| - 1] && NameIn(prefix, p) == NameIn(prefix, q)
    ensures p[|p| - 1][..|prefix|] == q[|q| - 1][..|prefix|] ==> p == q
  {
    var m, n := p[|p| - 1], q[|q| - 1];
    assert m == m[..|prefix|] + m[|prefix|..] && n == n[..|prefix|] + n[|prefix|..];
    assert p == p[..|p| - 1] + [m] && q == q[..|q| - 1] + [n];
  }

  /**
   Paths with legible names that normalise to the same one are the same, up to the characters cut off
   as the prefix, which nobody looks at.
   */
  lemma {:induction false} NormalizeDistinguishes(
    prefix: string, defaultModule: Option<string>, p: seq<string>, q: seq<string>, suffixes: set<string>)
    requires p != [] && q != [] && GoodDefault(defaultModule)
    ensures
      var r := NormalizePath(prefix, defaultModule, p);
      && LegiblePath(prefix, defaultModule, p, suffixes) && LegiblePath(prefix, defaultModule, q, suffixes)
      && r.Some? && r == NormalizePath(prefix, defaultModule, q) ==>
        && p[..|p| - 1] == q[..|q| - 1] && NameIn(prefix, p) == NameIn(prefix, q)
        && (p[|p| - 1][..|prefix|] == q[|q| - 1][..|prefix|] ==> p == q)
  {
    var r := NormalizePath(prefix, defaultModule, p);
    if LegiblePath(prefix, defaultModule, p, suffixes) && LegiblePath(prefix, defaultModule, q, suffixes) {
      if r.Some? && r == NormalizePath(prefix, defaultModule, q) {
        PathsDistinguishNames(NameIn(prefix, p), NameIn(prefix, q), suffixes, DefaultFor(defaultModule, p));
        PathParts(prefix, p, q);
      }
    }
  }
}
