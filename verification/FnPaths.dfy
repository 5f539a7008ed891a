/**
 From the segments of a function name to the path of the function that implements it: expanding
 abbreviations, choosing a module, and joining with underscores.
 */
module FnPaths {
  import opened Wrappers
  import opened Seqs
  import opened CamelCase
  import opened Segmentation
  import opened NameRoundTrip

  const MODULES: seq<string> := [
    "array", "context", "d3d11", "device", "driver", "event", "function", "graph", "graphics", "kernel",
    "library", "link", "memory", "module", "pointer", "stream", "tex", "surf"]

  function FullForm(segment: string): Option<seq<string>> {
    if segment == "ctx" then Some(["context"])
    else if segment == "func" then Some(["function"])
    else if segment == "mem" then Some(["memory"])
    else if segment == "memcpy" then Some(["memory", "copy"])
    else if segment == "memset" then Some(["memory", "set"])
    else None
  }

  /** An identifier may not begin with a digit, and may not be empty: the latter panics. */
  function SafeIdent(segment: string): Option<string> {
    if segment == "" then None else Some(if IsDigit(segment[0]) then "_" + segment else segment)
  }

  /** `parts.join("_")` */
  function Underscored(parts: seq<string>): string {
    if parts == [] then "" else if |parts| == 1 then parts[0] else parts[0] + "_" + Underscored(parts[1..])
  }

  function FullForms(segment: string): seq<string> {
    match FullForm(segment)
    case Some(segments) => segments
    case None => [segment]
  }

  function Expand(segments: seq<string>): seq<string> {
    if segments == [] then [] else FullForms(segments[0]) + Expand(segments[1..])
  }

  /** The module a name goes to, and its remaining segments; without a default there is no module. */
  function WithModule(normalized: seq<string>, defaultModule: string): (r: seq<string>)
    requires normalized != []
    ensures r != []
  {
    if normalized[0] in MODULES then normalized else [defaultModule] + normalized
  }

  function Both(a: Option<string>, b: Option<string>): Option<seq<string>> {
    if a.Some? && b.Some? then Some([a.value, b.value]) else None
  }

  function JoinPath(fn: seq<string>, defaultModule: Option<string>): Option<seq<string>> {
    var normalized := Expand(fn);
    match defaultModule
    case Some(m) =>
      if normalized == [] then None
      else
        var all := WithModule(normalized, m);
        Both(SafeIdent(all[0]), SafeIdent(Underscored(all[1..])))
    case None =>
      (match SafeIdent(Underscored(normalized)) case Some(ident) => Some([ident]) case None => None)
  }

  /** `None` is one of its panics: an empty list with a default module, or an empty identifier. */
  method Join(fn: seq<string>, defaultModule: Option<string>) returns (r: Option<seq<string>>)
    ensures r == JoinPath(fn, defaultModule)
  {
    var normalized: seq<string> := [];
    for i := 0 to |fn|
      invariant Expand(fn) == normalized + Expand(fn[i..])
    {
      Assoc(normalized, FullForms(fn[i]), Expand(fn[i + 1..]));
      assert fn[i..][1..] == fn[i + 1..];
      match FullForm(fn[i]) {
        case Some(segments) => normalized := normalized + segments;
        case None => normalized := normalized + [fn[i]];
      }
    }
    assert normalized + [] == normalized;
    match defaultModule {
      case Some(m) =>
        if normalized == [] {
          return None;
        }
        if normalized[0] !in MODULES {
          var globalized := [m];
          globalized := globalized + normalized;
          normalized := globalized;
        }
        var mod, path := SafeIdent(normalized[0]), SafeIdent(Underscored(normalized[1..]));
        if mod.None? || path.None? {
          return None;
        }
        return Some([mod.value, path.value]);
      case None =>
        var ident := SafeIdent(Underscored(normalized));
        if ident.None? {
          return None;
        }
        return Some([ident.value]);
    }
  }

  // ----- when it panics -----

  lemma {:induction false} ExpandKeeps(segments: seq<string>)
    requires NonEmpty(segments)
    ensures NonEmpty(Expand(segments)) && (Expand(segments) == [] <==> segments == [])
    decreases |segments|
  {
    if segments != [] {
      ExpandKeeps(segments[1..]);
      assert NonEmpty(FullForms(segments[0])) && FullForms(segments[0]) != [];
    }
  }

  lemma UnderscoredEmpty(parts: seq<string>)
    requires NonEmpty(parts)
    ensures Underscored(parts) == "" <==> parts == []
  {
  }

  /**
   For the segments of a name `join` panics exactly when there are none, or when, with a default
   module, all there is is the name of a module: nothing is left to call the function by.
   */
  lemma {:induction false} JoinPanics(fn: seq<string>, defaultModule: Option<string>)
    requires NonEmpty(fn) && (defaultModule.Some? ==> defaultModule.value != "")
    ensures JoinPath(fn, defaultModule).None? <==>
              fn == [] || (defaultModule.Some? && |Expand(fn)| == 1 && Expand(fn)[0] in MODULES)
  {
    var n := Expand(fn);
    ExpandKeeps(fn);
    UnderscoredEmpty(n);
    if n != [] && defaultModule.Some? {
      var all := WithModule(n, defaultModule.value);
      assert NonEmpty(all[1..]) by { assert forall i :: 0 <= i < |all| ==> all[i] != ""; }
      UnderscoredEmpty(all[1..]);
    }
  }

  // ----- what is kept -----

  /** The underscore that `safe_ident` adds, removed again. */
  function Bare(ident: string): string {
    if |ident| >= 2 && ident[0] == '_' && IsDigit(ident[1]) then ident[1..] else ident
  }

  lemma BareSafeIdent(s: string)
    requires s != "" && s[0] != '_'
    ensures SafeIdent(s).Some? && Bare(SafeIdent(s).value) == s
  {
  }

  lemma ModuleNames(m: string)
    requires m in MODULES
    ensures m != "" && IsLowerLetter(m[0])
  {
  }

  /** With a default module there are two identifiers, without one there is one; they spell the segments. */
  lemma {:induction false} JoinSpells(fn: seq<string>, defaultModule: Option<string>)
    requires JoinPath(fn, defaultModule).Some?
    requires NonEmpty(fn) && NoneStartsWithUnderscore(Expand(fn))
    requires defaultModule.Some? ==> defaultModule.value != "" && !IsDigit(defaultModule.value[0])
    ensures Expand(fn) != []
    ensures
      var ids := JoinPath(fn, defaultModule).value;
      match defaultModule
      case None => |ids| == 1 && Bare(ids[0]) == Underscored(Expand(fn))
      case Some(m) => |ids| == 2 && ids[0] + "_" + Bare(ids[1]) == Underscored(WithModule(Expand(fn), m))
                      && ids[0] == if Expand(fn)[0] in MODULES then Expand(fn)[0] else m
  {
    ExpandKeeps(fn);
    JoinPanics(fn, defaultModule);
    var n := Expand(fn);
    match defaultModule {
      case None =>
        UnderscoredHead(n);
        BareSafeIdent(Underscored(n));
      case Some(m) =>
        WithModuleSpells(n, m);
    }
  }

  lemma WithModuleSpells(n: seq<string>, m: string)
    requires n != [] && NonEmpty(n) && NoneStartsWithUnderscore(n)
    requires m != "" && !IsDigit(m[0]) && |WithModule(n, m)| > 1
    ensures
      var all := WithModule(n, m);
      var path := SafeIdent(Underscored(all[1..]));
      && SafeIdent(all[0]) == Some(all[0])
      && path.Some? && all[0] + "_" + Bare(path.value) == Underscored(all)
  {
    var all := WithModule(n, m);
    if n[0] in MODULES {
      ModuleNames(n[0]);
      assert all[1] == n[1];
    } else {
      assert all[1] == n[0];
    }
    assert all[1..][0] == all[1];
    UnderscoredHead(all[1..]);
    BareSafeIdent(Underscored(all[1..]));
  }

  predicate IsIdentifier(s: string) {
    s != "" && !('0' <= s[0] <= '9')
  }

  /** A text as an identifier: with an underscore in front if it begins with a digit. */
  function AsIdentifier(text: string): (id: string)
    requires text != ""
    ensures IsIdentifier(id)
  {
    if '0' <= text[0] <= '9' then "_" + text else text
  }

  /**
   Every joined path is made of identifiers: the texts that `join` puts together, with an underscore in
   front of each that begins with a digit, and of no other.
   */
  lemma {:induction false} JoinIdentifiers(fn: seq<string>, defaultModule: Option<string>)
    requires JoinPath(fn, defaultModule).Some?
    ensures
      var ids, n := JoinPath(fn, defaultModule).value, Expand(fn);
      && (forall i :: 0 <= i < |ids| ==> IsIdentifier(ids[i]))
      && match defaultModule
         case None => Underscored(n) != "" && ids == [AsIdentifier(Underscored(n))]
         case Some(m) =>
           && n != []
           && var module_, rest := if n[0] in MODULES then n[0] else m, if n[0] in MODULES then n[1..] else n;
              && module_ != "" && Underscored(rest) != ""
              && ids == [AsIdentifier(module_), AsIdentifier(Underscored(rest))]
  {
    var n := Expand(fn);
    if defaultModule.Some? && n[0] !in MODULES {
      assert ([defaultModule.value] + n)[1..] == n;
    }
  }

  /** The modules, and nothing else, lead a path by themselves. */
  lemma {:induction false} LeadingModule(fn: seq<string>, m: string)
    requires JoinPath(fn, Some(m)).Some? && IsIdentifier(m)
    ensures Expand(fn) != []
    ensures
      var first := Expand(fn)[0];
      JoinPath(fn, Some(m)).value[0] ==
      if first in ["array", "context", "d3d11", "device", "driver", "event", "function", "graph", "graphics",
                   "kernel", "library", "link", "memory", "module", "pointer", "stream", "tex", "surf"]
      then first else m
  {
    JoinIdentifiers(fn, Some(m));
    if Expand(fn)[0] in MODULES {
      ModuleNames(Expand(fn)[0]);
    }
  }

  predicate NoneStartsWithUnderscore(parts: seq<string>) {
    forall i :: 0 <= i < |parts| ==> parts[i] == "" || parts[i][0] != '_'
  }

  lemma UnderscoredHead(parts: seq<string>)
    requires parts != [] && parts[0] != ""
    ensures Underscored(parts) != "" && Underscored(parts)[0] == parts[0][0]
  {
  }

  predicate GoodHeads(parts: seq<string>) {
    forall i :: 0 <= i < |parts| ==> parts[i] != "" && (IsLowerLetter(parts[i][0]) || IsDigit(parts[i][0]))
  }

  /** Every segment of a name begins with a lowercase letter or a digit. */
  lemma {:induction false} SegmentHeads(s: string)
    ensures GoodHeads(Segments(s).segments)
    decreases |s|
  {
    if s == "" {
    } else if StartsRun(s) {
      SegmentHeads(s[RunLength(s)..]);
    } else {
      SegmentHeads(s[1..]);
    }
  }

  lemma {:induction false} ExpandHeads(segments: seq<string>)
    requires GoodHeads(segments)
    ensures GoodHeads(Expand(segments))
    decreases |segments|
  {
    if segments != [] {
      ExpandHeads(segments[1..]);
      assert GoodHeads(FullForms(segments[0]));
    }
  }

  /**
   From a name to its path no character is lost: the segments are the lowercased name, and the
   identifiers, without the underscore put before a digit, spell the expanded segments, led by the
   default module exactly when they do not begin with a module themselves.
   */
  lemma {:induction false} NameSpelled(s: string, defaultModule: Option<string>)
    requires SplitName(s).Some? && JoinPath(SplitName(s).value, defaultModule).Some?
    requires defaultModule.Some? ==> defaultModule.value != "" && !IsDigit(defaultModule.value[0])
    ensures
      var segments := SplitName(s).value;
      var ids := JoinPath(segments, defaultModule).value;
      && Flatten(segments) == LowerAll(s) && Expand(segments) != []
      && match defaultModule
         case None => |ids| == 1 && Bare(ids[0]) == Underscored(Expand(segments))
         case Some(m) => |ids| == 2 && ids[0] + "_" + Bare(ids[1]) == Underscored(WithModule(Expand(segments), m))
                         && ids[0] == if Expand(segments)[0] in MODULES then Expand(segments)[0] else m
  {
    var segments := SplitName(s).value;
    SplitIsSegmentation(s, segments);
    SegmentHeads(s);
    ExpandHeads(segments);
    JoinSpells(segments, defaultModule);
  }

  // ----- the whole normalisation -----

  /** The path a macro call expands to: the given path without its last segment, and the joined name. */
  datatype FnPath = FnPath(path: seq<string>, fn: seq<string>)

  function EffectiveDefault(parents: seq<string>, defaultModule: Option<string>): Option<string> {
    if parents != [] && parents[|parents| - 1] in MODULES then None else defaultModule
  }

  function NormalizePath(prefix: string, defaultModule: Option<string>, path: seq<string>): Option<FnPath>
    requires path != []
  {
    var fn, parents := path[|path| - 1], path[..|path| - 1];
    if parents == [] || |fn| < |prefix| then None
    else
      match SplitName(fn[|prefix|..])
      case None => None
      case Some(segments) =>
        match JoinPath(segments, EffectiveDefault(parents, defaultModule))
        case None => None
        case Some(ids) => Some(FnPath(parents, ids))
  }

  /** `None` stands for any of the panics on the way. */
  method NormalizeFnImpl(prefix: string, defaultModule: Option<string>, path: seq<string>)
    returns (r: Option<FnPath>)
    requires path != []
    ensures r == NormalizePath(prefix, defaultModule, path)
  {
    var fn := path[|path| - 1];
    var parents := path[..|path| - 1];
    if parents == [] || |fn| < |prefix| {
      return None;
    }
    var alreadyHasModule := parents[|parents| - 1] in MODULES;
    var segments := Split(fn[|prefix|..]);
    if segments.None? {
      return None;
    }
    var fnPath := Join(segments.value, if alreadyHasModule then None else defaultModule);
    if fnPath.None? {
      return None;
    }
    return Some(FnPath(parents, fnPath.value));
  }

  /**
   Normalisation succeeds exactly on a name that has a parent path, is longer than the prefix,
   begins a segment after it, and is more than the name of a module unless its parent is one.
   */
  lemma {:induction false} NormalizeSucceedsIff(prefix: string, defaultModule: Option<string>, path: seq<string>)
    requires path != [] && (defaultModule.Some? ==> defaultModule.value != "")
    ensures
      var fn, parents := path[|path| - 1], path[..|path| - 1];
      NormalizePath(prefix, defaultModule, path).Some? <==>
      && parents != []
      && |fn| > |prefix| && StartsSegment(fn[|prefix|..], 0)
      && (EffectiveDefault(parents, defaultModule).Some? ==>
            var n := Expand(Segments(fn[|prefix|..]).segments);
            !(|n| == 1 && n[0] in MODULES))
  {
    var fn, parents := path[|path| - 1], path[..|path| - 1];
    if parents != [] && |fn| >= |prefix| {
      var s := fn[|prefix|..];
      var segments := Segments(s).segments;
      SplitIsSegmentation(s, segments);
      Conservation(s);
      EmptyFlatten(segments);
      assert SplitName(s).Some? && s != "" ==> segments != [] by {
        assert "" + Flatten(segments) == Flatten(segments);
      }
      JoinPanics(segments, EffectiveDefault(parents, defaultModule));
    }
  }

  /**
   What comes back: the parents unchanged, and identifiers that spell, character for character, the
   lowercased rest of the name behind the prefix after expansion. The default module leads unless
   the parent or the name itself is a module.
   */
  lemma {:induction false} NormalizeSpells(prefix: string, defaultModule: Option<string>, path: seq<string>)
    requires path != [] && NormalizePath(prefix, defaultModule, path).Some?
    requires defaultModule.Some? ==> defaultModule.value != "" && !IsDigit(defaultModule.value[0])
    ensures
      var fn, parents := path[|path| - 1], path[..|path| - 1];
      && parents != [] && |fn| > |prefix|
      && NormalizePath(prefix, defaultModule, path).value.path == parents
      && var name := fn[|prefix|..];
         var segments, ids := Segments(name).segments, NormalizePath(prefix, defaultModule, path).value.fn;
         && Flatten(segments) == LowerAll(name) && Expand(segments) != []
         && if defaultModule.None? || parents[|parents| - 1] in MODULES
            then |ids| == 1 && Bare(ids[0]) == Underscored(Expand(segments))
            else var n, m := Expand(segments), defaultModule.value;
                 && |ids| == 2 && ids[0] == (if n[0] in MODULES then n[0] else m)
                 && ids[0] + "_" + Bare(ids[1]) == Underscored(if n[0] in MODULES then n else [m] + n)
  {
    var fn, parents := path[|path| - 1], path[..|path| - 1];
    NormalizeSucceedsIff(prefix, defaultModule, path);
    NameSpelled(fn[|prefix|..], EffectiveDefault(parents, defaultModule));
  }

  /** So every identifier that comes back is one, whatever name was given. */
  lemma {:induction false} NormalizeIdentifiers(prefix: string, defaultModule: Option<string>, path: seq<string>)
    requires path != [] && NormalizePath(prefix, defaultModule, path).Some?
    ensures |path[|path| - 1]| >= |prefix|
    ensures
      var ids, n := NormalizePath(prefix, defaultModule, path).value.fn,
                    Expand(Segments(path[|path| - 1][|prefix|..]).segments);
      var alreadyHasModule := |path| > 1 && path[|path| - 2] in MODULES;
      && (forall i :: 0 <= i < |ids| ==> IsIdentifier(ids[i]))
      && if defaultModule.None? || alreadyHasModule then
           Underscored(n) != "" && ids == [AsIdentifier(Underscored(n))]
         else
           var m := defaultModule.value;
           && n != []
           && var module_, rest := if n[0] in MODULES then n[0] else m, if n[0] in MODULES then n[1..] else n;
              && module_ != "" && Underscored(rest) != ""
              && ids == [AsIdentifier(module_), AsIdentifier(Underscored(rest))]
  {
    var fn, parents := path[|path| - 1], path[..|path| - 1];
    JoinIdentifiers(SplitName(fn[|prefix|..]).value, EffectiveDefault(parents, defaultModule));
  }
}
