/**
 Routing of function declarations to macros: each declaration goes to the macro that overrides its
 function, or to the default one.
 */
module MacroRouting {
  import opened Wrappers
  import opened Seqs

  type Ident = string
  type Path = string

  datatype OverrideMacro = OverrideMacro(macro_: Path, functions: seq<Ident>)

  datatype FnDeclInput = FnDeclInput(normalMacro: Path, overrides: seq<OverrideMacro>)

  // ----- the override table -----

  function ListedOf(functions: seq<Ident>, macro_: Path): (r: seq<(Ident, Path)>)
    ensures |r| == |functions|
    ensures forall i :: 0 <= i < |functions| ==> r[i] == (functions[i], macro_)
  {
    seq(|functions|, i requires 0 <= i < |functions| => (functions[i], macro_))
  }

  /** Every (function, macro) pair in the order it is listed. */
  function Listed(overrides: seq<OverrideMacro>): seq<(Ident, Path)> {
    if overrides == [] then []
    else
      var last := overrides[|overrides| - 1];
      Listed(overrides[..|overrides| - 1]) + ListedOf(last.functions, last.macro_)
  }

  function Lookup(listed: seq<(Ident, Path)>): map<Ident, Path> {
    if listed == [] then map[]
    else Lookup(listed[..|listed| - 1])[listed[|listed| - 1].0 := listed[|listed| - 1].1]
  }

  /** A function listed more than once goes to the macro that lists it last. */
  lemma {:induction false} LastListedWins(listed: seq<(Ident, Path)>, ident: Ident, macro_: Path)
    ensures ident in Lookup(listed) && Lookup(listed)[ident] == macro_ <==>
              exists i :: 0 <= i < |listed| && listed[i] == (ident, macro_)
                          && forall j :: i < j < |listed| ==> listed[j].0 != ident
    decreases |listed|
  {
    if listed != [] {
      var n := |listed| - 1;
      LastListedWins(listed[..n], ident, macro_);
      if listed[n].0 != ident && ident in Lookup(listed) && Lookup(listed)[ident] == macro_ {
        var i :| 0 <= i < n && listed[..n][i] == (ident, macro_)
                 && forall j :: i < j < n ==> listed[..n][j].0 != ident;
        assert listed[i] == (ident, macro_);
        assert forall j :: i < j < n ==> listed[j] == listed[..n][j];
      }
      if i :| 0 <= i < |listed| && listed[i] == (ident, macro_)
              && forall j :: i < j < |listed| ==> listed[j].0 != ident {
        if i < n {
          assert listed[..n][i] == (ident, macro_);
        }
      }
    }
  }

  /** The macro that overrides a function, if any. */
  function Route(lookup: map<Ident, Path>, ident: Ident): Option<Path> {
    if ident in lookup then Some(lookup[ident]) else None
  }

  /** The macro of entry `a` lists the function, and no later entry does. */
  predicate ListsLast(overrides: seq<OverrideMacro>, ident: Ident, a: nat) {
    && a < |overrides| && ident in overrides[a].functions
    && forall b :: a < b < |overrides| ==> ident !in overrides[b].functions
  }

  lemma {:induction false} RouteAfter(before: seq<(Ident, Path)>, functions: seq<Ident>, macro_: Path, ident: Ident)
    ensures Route(Lookup(before + ListedOf(functions, macro_)), ident) ==
              if ident in functions then Some(macro_) else Route(Lookup(before), ident)
    decreases |functions|
  {
    if functions == [] {
      assert before + ListedOf(functions, macro_) == before;
    } else {
      var n := |functions| - 1;
      RouteAfter(before, functions[..n], macro_, ident);
      ListOneMore<Ident>(before, functions, n, macro_);
      assert functions[..n + 1] == functions && functions == functions[..n] + [functions[n]];
    }
  }

  /** `None` if no entry lists the function, and otherwise the macro of the last entry that does. */
  ghost predicate GoesTo(overrides: seq<OverrideMacro>, ident: Ident, route: Option<Path>) {
    match route
    case None => forall a :: 0 <= a < |overrides| ==> ident !in overrides[a].functions
    case Some(m) => exists a: nat :: ListsLast(overrides, ident, a) && overrides[a].macro_ == m
  }

  lemma GoesToStep(overrides: seq<OverrideMacro>, last: OverrideMacro, ident: Ident, route: Option<Path>)
    requires GoesTo(overrides, ident, route)
    ensures GoesTo(overrides + [last], ident, if ident in last.functions then Some(last.macro_) else route)
  {
    var n, all := |overrides|, overrides + [last];
    if ident in last.functions {
      assert ListsLast(all, ident, n);
    } else if route.Some? {
      var a: nat :| ListsLast(overrides, ident, a) && overrides[a].macro_ == route.value;
      assert ListsLast(all, ident, a);
    }
  }

  /** A function goes to the macro of the last entry that lists it, and else to the default macro. */
  lemma {:induction false} RouteIs(overrides: seq<OverrideMacro>, ident: Ident)
    ensures GoesTo(overrides, ident, Route(Lookup(Listed(overrides)), ident))
    decreases |overrides|
  {
    if overrides != [] {
      var n := |overrides| - 1;
      RouteIs(overrides[..n], ident);
      RouteAfter(Listed(overrides[..n]), overrides[n].functions, overrides[n].macro_, ident);
      GoesToStep(overrides[..n], overrides[n], ident, Route(Lookup(Listed(overrides[..n])), ident));
      assert overrides == overrides[..n] + [overrides[n]];
    }
  }

  /** The macros that get a bucket are those that list any function. */
  lemma {:induction false} MacrosAre(overrides: seq<OverrideMacro>, m: Path)
    ensures m in Macros(Listed(overrides)) <==>
              exists a :: 0 <= a < |overrides| && overrides[a].macro_ == m && overrides[a].functions != []
    decreases |overrides|
  {
    if overrides != [] {
      var n := |overrides| - 1;
      MacrosAre(overrides[..n], m);
      var front, last := Listed(overrides[..n]), ListedOf(overrides[n].functions, overrides[n].macro_);
      MacrosAppend(front, last);
      MacrosOf(overrides[n].functions, overrides[n].macro_);
      assert forall b :: 0 <= b < n ==> overrides[..n][b] == overrides[b];
    }
  }

  lemma MacrosAppend(a: seq<(Ident, Path)>, b: seq<(Ident, Path)>)
    ensures Macros(a + b) == Macros(a) + Macros(b)
  {
    forall m ensures m in Macros(a + b) <==> m in Macros(a) + Macros(b) {
      if i :| 0 <= i < |a| && a[i].1 == m {
        assert (a + b)[i].1 == m;
      }
      if i :| 0 <= i < |b| && b[i].1 == m {
        assert (a + b)[|a| + i].1 == m;
      }
    }
  }

  lemma MacrosOf(functions: seq<Ident>, macro_: Path)
    ensures Macros(ListedOf(functions, macro_)) == if functions == [] then {} else {macro_}
  {
    if functions != [] {
      assert ListedOf(functions, macro_)[0].1 == macro_;
    }
  }

  /** The tokens of the declarations that go to `target`, in order; `None` is the default macro. */
  function Bucket<T>(lookup: map<Ident, Path>, decls: seq<(Ident, T)>, target: Option<Path>): seq<T> {
    if decls == [] then []
    else
      var front, last := Bucket(lookup, decls[..|decls| - 1], target), decls[|decls| - 1];
      if Route(lookup, last.0) == target then front + [last.1] else front
  }

  /** A bucket is the in-order subsequence of exactly the declarations routed to its macro. */
  lemma {:induction false} BucketPositions<T>(
    lookup: map<Ident, Path>, decls: seq<(Ident, T)>, target: Option<Path>) returns (ps: seq<nat>)
    ensures |ps| == |Bucket(lookup, decls, target)|
    ensures forall k :: 0 <= k < |ps| ==> ps[k] < |decls| && Bucket(lookup, decls, target)[k] == decls[ps[k]].1
    ensures forall j, k :: 0 <= j < k < |ps| ==> ps[j] < ps[k]
    ensures forall p: nat :: p < |decls| ==> (p in ps <==> Route(lookup, decls[p].0) == target)
    decreases |decls|
  {
    ps := [];
    if decls != [] {
      var n := |decls| - 1;
      ps := BucketPositions(lookup, decls[..n], target);
      assert forall p: nat :: p < n ==> decls[..n][p] == decls[p];
      if Route(lookup, decls[n].0) == target {
        ps := ps + [n];
      }
    }
  }

  function Macros(listed: seq<(Ident, Path)>): set<Path> {
    set i | 0 <= i < |listed| :: listed[i].1
  }

  /** The override invariant: whatever the lookup finds is the name of an override macro. */
  lemma {:induction false} LookupFindsMacros(listed: seq<(Ident, Path)>, ident: Ident)
    requires ident in Lookup(listed)
    ensures Lookup(listed)[ident] in Macros(listed)
    decreases |listed|
  {
    var n := |listed| - 1;
    if listed[n].0 != ident {
      LookupFindsMacros(listed[..n], ident);
      var i :| 0 <= i < n && listed[..n][i].1 == Lookup(listed)[ident];
      assert listed[i].1 == Lookup(listed)[ident];
    } else {
      assert listed[n].1 in Macros(listed);
    }
  }

  lemma EmitOneMore<T>(
    lookup: map<Ident, Path>, decls: seq<(Ident, T)>, defaultPath: Path, order: seq<Path>, path: Path)
    ensures
      var before := AllGroups(lookup, decls, defaultPath, order);
      var items := Bucket(lookup, decls, Some(path));
      && AllGroups(lookup, decls, defaultPath, order + [path]) == before + [Group(path, items)]
      && NonEmptyGroups(AllGroups(lookup, decls, defaultPath, order + [path])) ==
         if items == [] then NonEmptyGroups(before) else NonEmptyGroups(before) + [Group(path, items)]
  {
  }

  lemma EnumerateOneMore<A(!new)>(order: seq<A>, s: set<A>, pending: set<A>, a: A)
    requires pending <= s && a in pending && Enumerates(order, s - pending)
    ensures Enumerates(order + [a], s - (pending - {a}))
  {
  }

  lemma OneMoreBucket<T>(lookup: map<Ident, Path>, decls: seq<(Ident, T)>, order: seq<Path>, path: Path)
    ensures BucketsOf(lookup, decls, order + [path])
         == BucketsOf(lookup, decls, order) + [Group(path, Bucket(lookup, decls, Some(path)))]
  {
  }

  function EmptyBuckets<T>(listed: seq<(Ident, Path)>): map<Path, seq<T>> {
    map m | m in Macros(listed) :: []
  }

  lemma ListNextMacro(overrides: seq<OverrideMacro>, i: nat)
    requires i < |overrides|
    ensures
      var OverrideMacro(macro_, functions) := overrides[i];
      && Listed(overrides[..i + 1]) == Listed(overrides[..i]) + ListedOf(functions, macro_)
      && functions[..|functions|] == functions
      && Listed(overrides[..i]) + ListedOf(functions[..0], macro_) == Listed(overrides[..i])
  {
    assert overrides[..i + 1][..i] == overrides[..i];
  }

  lemma ListOneMore<T>(before: seq<(Ident, Path)>, functions: seq<Ident>, j: nat, macro_: Path)
    requires j < |functions|
    ensures
      var listed := before + ListedOf(functions[..j], macro_);
      var more := before + ListedOf(functions[..j + 1], macro_);
      && Lookup(more) == Lookup(listed)[functions[j] := macro_]
      && EmptyBuckets<T>(more) == EmptyBuckets<T>(listed)[macro_ := []]
  {
    var listed := before + ListedOf(functions[..j], macro_);
    var more := before + ListedOf(functions[..j + 1], macro_);
    assert more == listed + [(functions[j], macro_)];
    assert more[..|more| - 1] == listed;
    assert Macros(more) == Macros(listed) + {macro_} by {
      assert forall i :: 0 <= i < |listed| ==> more[i] == listed[i];
      assert more[|listed|].1 == macro_;
    }
  }

  // ----- emission -----

  /** `path! { items }` */
  datatype Group<T> = Group(path: Path, items: seq<T>)

  function NonEmptyGroups<T>(groups: seq<Group<T>>): seq<Group<T>> {
    if groups == [] then []
    else
      var front, last := NonEmptyGroups(groups[..|groups| - 1]), groups[|groups| - 1];
      if last.items == [] then front else front + [last]
  }

  lemma OneMoreGroup<T>(groups: seq<Group<T>>, g: Group<T>)
    ensures NonEmptyGroups(groups + [g]) ==
              if g.items == [] then NonEmptyGroups(groups) else NonEmptyGroups(groups) + [g]
  {
  }

  function BucketsOf<T>(lookup: map<Ident, Path>, decls: seq<(Ident, T)>, order: seq<Path>): (r: seq<Group<T>>)
    ensures |r| == |order|
    ensures forall i :: 0 <= i < |order| ==> r[i] == Group(order[i], Bucket(lookup, decls, Some(order[i])))
  {
    seq(|order|, i requires 0 <= i < |order| => Group(order[i], Bucket(lookup, decls, Some(order[i]))))
  }

  /** `order` lists the elements of `s`, each once. */
  ghost predicate Enumerates<A(!new)>(order: seq<A>, s: set<A>) {
    && (forall a :: a in order <==> a in s)
    && (forall i, j :: 0 <= i < j < |order| ==> order[i] != order[j])
  }

  function AllItems<T>(groups: seq<Group<T>>): seq<T> {
    if groups == [] then [] else AllItems(groups[..|groups| - 1]) + groups[|groups| - 1].items
  }

  function Tokens<T>(decls: seq<(Ident, T)>): (r: seq<T>)
    ensures |r| == |decls|
    ensures forall i :: 0 <= i < |decls| ==> r[i] == decls[i].1
  {
    seq(|decls|, i requires 0 <= i < |decls| => decls[i].1)
  }

  /** The tokens of the declarations whose route is one of `targets`, in order. */
  ghost function Routed<T>(lookup: map<Ident, Path>, decls: seq<(Ident, T)>, targets: set<Option<Path>>): seq<T> {
    if decls == [] then []
    else
      var front, last := Routed(lookup, decls[..|decls| - 1], targets), decls[|decls| - 1];
      if Route(lookup, last.0) in targets then front + [last.1] else front
  }

  lemma {:induction false} OneMoreTarget<T>(
    lookup: map<Ident, Path>, decls: seq<(Ident, T)>, targets: set<Option<Path>>, target: Option<Path>)
    requires target !in targets
    ensures multiset(Routed(lookup, decls, targets + {target}))
         == multiset(Routed(lookup, decls, targets)) + multiset(Bucket(lookup, decls, target))
    decreases |decls|
  {
    if decls != [] {
      var front, last := decls[..|decls| - 1], decls[|decls| - 1];
      OneMoreTarget(lookup, front, targets, target);
      var both, some := Routed(lookup, front, targets + {target}), Routed(lookup, front, targets);
      var one := Bucket(lookup, front, target);
      SumsGrow(both, some, one, last.1);
    }
  }

  lemma SumsGrow<T>(both: seq<T>, some: seq<T>, one: seq<T>, t: T)
    requires multiset(both) == multiset(some) + multiset(one)
    ensures multiset(both + [t]) == multiset(some + [t]) + multiset(one)
    ensures multiset(both + [t]) == multiset(some) + multiset(one + [t])
  {
  }

  lemma {:induction false} AllRouted<T>(lookup: map<Ident, Path>, decls: seq<(Ident, T)>, targets: set<Option<Path>>)
    requires forall i :: 0 <= i < |decls| ==> Route(lookup, decls[i].0) in targets
    ensures Routed(lookup, decls, targets) == Tokens(decls)
    decreases |decls|
  {
    if decls != [] {
      AllRouted(lookup, decls[..|decls| - 1], targets);
    }
  }

  lemma {:induction false} NonEmptyGroupsKeepItems<T>(groups: seq<Group<T>>)
    ensures AllItems(NonEmptyGroups(groups)) == AllItems(groups)
    ensures forall g <- NonEmptyGroups(groups) :: g.items != [] && g in groups
    decreases |groups|
  {
    if groups != [] {
      var front, last := groups[..|groups| - 1], groups[|groups| - 1];
      NonEmptyGroupsKeepItems(front);
      AllItemsOneMore(NonEmptyGroups(front), last);
      if last.items == [] {
        assert NonEmptyGroups(front) + [] == NonEmptyGroups(front);
        assert AllItems(front) + [] == AllItems(front);
      }
    }
  }

  lemma AllItemsOneMore<T>(groups: seq<Group<T>>, g: Group<T>)
    ensures AllItems(groups + [g]) == AllItems(groups) + g.items
  {
  }

  function Targets(order: seq<Path>): set<Option<Path>> {
    {None} + set m | m in order :: Some(m)
  }

  function AllGroups<T>(
    lookup: map<Ident, Path>, decls: seq<(Ident, T)>, defaultPath: Path, order: seq<Path>): seq<Group<T>>
  {
    [Group(defaultPath, Bucket(lookup, decls, None))] + BucketsOf(lookup, decls, order)
  }

  lemma {:induction false} BucketsPartition<T>(
    lookup: map<Ident, Path>, decls: seq<(Ident, T)>, defaultPath: Path, order: seq<Path>)
    requires forall i, j :: 0 <= i < j < |order| ==> order[i] != order[j]
    ensures multiset(AllItems(AllGroups(lookup, decls, defaultPath, order)))
         == multiset(Routed(lookup, decls, Targets(order)))
    decreases |order|
  {
    if order == [] {
      OneMoreTarget(lookup, decls, {}, None);
      RoutedNowhere(lookup, decls);
      assert {} + {None} == Targets(order);
      AllItemsOneMore([], Group(defaultPath, Bucket(lookup, decls, None)));
      assert AllGroups(lookup, decls, defaultPath, order) == [] + [Group(defaultPath, Bucket(lookup, decls, None))];
    } else {
      var n := |order| - 1;
      BucketsPartition(lookup, decls, defaultPath, order[..n]);
      assert order == order[..n] + [order[n]];
      PartitionStep(lookup, decls, defaultPath, order[..n], order[n]);
    }
  }

  lemma PartitionStep<T>(
    lookup: map<Ident, Path>, decls: seq<(Ident, T)>, defaultPath: Path, order: seq<Path>, m: Path)
    requires m !in order
    requires multiset(AllItems(AllGroups(lookup, decls, defaultPath, order)))
          == multiset(Routed(lookup, decls, Targets(order)))
    ensures multiset(AllItems(AllGroups(lookup, decls, defaultPath, order + [m])))
         == multiset(Routed(lookup, decls, Targets(order + [m])))
  {
    var groups, last := AllGroups(lookup, decls, defaultPath, order), Group(m, Bucket(lookup, decls, Some(m)));
    OneMoreBucket(lookup, decls, order, m);
    assert AllGroups(lookup, decls, defaultPath, order + [m]) == groups + [last];
    AllItemsOneMore(groups, last);
    OneMoreTarget(lookup, decls, Targets(order), Some(m));
    assert Targets(order + [m]) == Targets(order) + {Some(m)};
  }

  lemma {:induction false} RoutedNowhere<T>(lookup: map<Ident, Path>, decls: seq<(Ident, T)>)
    ensures Routed(lookup, decls, {}) == []
    decreases |decls|
  {
    if decls != [] {
      RoutedNowhere(lookup, decls[..|decls| - 1]);
    }
  }

  /**
   Emission loses and duplicates nothing, in whatever order the override map is walked, and no group
   is empty. Within a group declarations keep their order, since a bucket is a filter of them.
   */
  lemma {:induction false} EmissionConserves<T>(
    overrides: seq<OverrideMacro>, decls: seq<(Ident, T)>, defaultPath: Path, order: seq<Path>)
    requires Enumerates(order, Macros(Listed(overrides)))
    ensures
      var lookup := Lookup(Listed(overrides));
      var all := AllGroups(lookup, decls, defaultPath, order);
      && multiset(AllItems(NonEmptyGroups(all))) == multiset(Tokens(decls))
      && (forall g <- NonEmptyGroups(all) :: g.items != [] && g in all)
  {
    var lookup := Lookup(Listed(overrides));
    forall i | 0 <= i < |decls| ensures Route(lookup, decls[i].0) in Targets(order) {
      if decls[i].0 in lookup {
        LookupFindsMacros(Listed(overrides), decls[i].0);
      }
    }
    AllRouted(lookup, decls, Targets(order));
    BucketsPartition(lookup, decls, defaultPath, order);
    NonEmptyGroupsKeepItems(AllGroups(lookup, decls, defaultPath, order));
  }

  predicate HoldsItems<T>(groups: seq<Group<T>>, k: nat) {
    k < |groups| && groups[k].items != []
  }

  /** `kept` are the groups at the increasing positions `ks`, which are those of the groups with items. */
  ghost predicate KeptGroups<T>(groups: seq<Group<T>>, kept: seq<Group<T>>, ks: seq<nat>) {
    && |ks| == |kept|
    && (forall i, j :: 0 <= i < j < |ks| ==> ks[i] < ks[j])
    && (forall i :: 0 <= i < |ks| ==> ks[i] < |groups| && kept[i] == groups[ks[i]])
    && (forall k: nat :: HoldsItems(groups, k) <==> k in ks)
  }

  lemma KeptGroupsStep<T>(groups: seq<Group<T>>, kept: seq<Group<T>>, ks: seq<nat>, g: Group<T>)
    requires KeptGroups(groups, kept, ks)
    ensures g.items == [] ==> KeptGroups(groups + [g], kept, ks)
    ensures g.items != [] ==> KeptGroups(groups + [g], kept + [g], ks + [|groups|])
  {
    var more := groups + [g];
    forall k: nat ensures HoldsItems(more, k) <==> k in ks || (k == |groups| && g.items != []) {
      if k < |groups| {
        assert more[k] == groups[k];
        assert HoldsItems(groups, k) <==> k in ks;
      }
    }
  }

  /** Emission drops the groups without items and leaves the others in their order. */
  lemma {:induction false} GroupPositions<T>(groups: seq<Group<T>>) returns (ks: seq<nat>)
    ensures KeptGroups(groups, NonEmptyGroups(groups), ks)
    decreases |groups|
  {
    ks := [];
    if groups != [] {
      var n := |groups| - 1;
      ks := GroupPositions(groups[..n]);
      KeptGroupsStep(groups[..n], NonEmptyGroups(groups[..n]), ks, groups[n]);
      assert groups == groups[..n] + [groups[n]];
      if groups[n].items != [] {
        ks := ks + [n];
      }
    }
  }

  /** Group `g` holds, in order, what goes to `target`, and stands under the macro's own path. */
  ghost predicate IsGroupOf<T>(
    g: Group<T>, overrides: seq<OverrideMacro>, decls: seq<(Ident, T)>, path: Path, target: Option<Path>, ps: seq<nat>)
  {
    && g.path == path && |g.items| == |ps|
    && (forall j, k :: 0 <= j < k < |ps| ==> ps[j] < ps[k])
    && (forall k :: 0 <= k < |ps| ==>
          ps[k] < |decls| && g.items[k] == decls[ps[k]].1 && GoesTo(overrides, decls[ps[k]].0, target))
    && (forall p: nat :: p < |decls| && GoesTo(overrides, decls[p].0, target) ==> p in ps)
  }

  lemma OneRoute(overrides: seq<OverrideMacro>, ident: Ident, a: Option<Path>, b: Option<Path>)
    requires GoesTo(overrides, ident, a) && GoesTo(overrides, ident, b)
    ensures a == b
  {
    if a.Some? && b.Some? {
      var i: nat :| ListsLast(overrides, ident, i) && overrides[i].macro_ == a.value;
      var j: nat :| ListsLast(overrides, ident, j) && overrides[j].macro_ == b.value;
      assert !(i < j) && !(j < i);
    }
  }

  lemma BucketIsGroup<T>(overrides: seq<OverrideMacro>, decls: seq<(Ident, T)>, path: Path, target: Option<Path>)
    returns (ps: seq<nat>)
    ensures IsGroupOf(Group(path, Bucket(Lookup(Listed(overrides)), decls, target)), overrides, decls, path, target, ps)
  {
    var lookup := Lookup(Listed(overrides));
    ps := BucketPositions(lookup, decls, target);
    forall p: nat | p < |decls|
      ensures GoesTo(overrides, decls[p].0, target) <==> Route(lookup, decls[p].0) == target
    {
      RouteIs(overrides, decls[p].0);
      if GoesTo(overrides, decls[p].0, target) {
        OneRoute(overrides, decls[p].0, target, Route(lookup, decls[p].0));
      }
    }
  }

  /**
   The groups before the empty ones are dropped: first the default macro with what no entry lists, then
   each override macro with what goes to it.
   */
  lemma {:induction false} EmittedGroups<T>(
    overrides: seq<OverrideMacro>, decls: seq<(Ident, T)>, defaultPath: Path, order: seq<Path>, k: nat)
    returns (ps: seq<nat>)
    requires k <= |order|
    ensures
      var all := AllGroups(Lookup(Listed(overrides)), decls, defaultPath, order);
      && |all| == |order| + 1
      && if k == 0 then IsGroupOf(all[0], overrides, decls, defaultPath, None, ps)
         else IsGroupOf(all[k], overrides, decls, order[k - 1], Some(order[k - 1]), ps)
  {
    if k == 0 {
      ps := BucketIsGroup(overrides, decls, defaultPath, None);
    } else {
      ps := BucketIsGroup(overrides, decls, order[k - 1], Some(order[k - 1]));
    }
  }

  // ----- collecting and emitting -----

  class ChooseMacro<T> {
    ghost const input: FnDeclInput
    ghost var added: seq<(Ident, T)>

    const defaultPath: Path
    var defaultItems: seq<T>
    var overrideLookup: map<Ident, Path>
    var overrideSets: map<Path, seq<T>>

    /** The two maps fit together, and every bucket holds exactly the declarations routed to it. */
    ghost predicate Valid()
      reads this
    {
      && defaultPath == input.normalMacro
      && overrideLookup == Lookup(Listed(input.overrides))
      && overrideSets.Keys == Macros(Listed(input.overrides))
      && defaultItems == Bucket(overrideLookup, added, None)
      && (forall m <- overrideSets :: overrideSets[m] == Bucket(overrideLookup, added, Some(m)))
    }

    constructor (input: FnDeclInput)
      ensures Valid() && this.input == input && added == []
    {
      var lookup: map<Ident, Path> := map[];
      var sets: map<Path, seq<T>> := map[];
      var overrides := input.overrides;
      for i := 0 to |overrides|
        invariant lookup == Lookup(Listed(overrides[..i])) && sets == EmptyBuckets(Listed(overrides[..i]))
      {
        var OverrideMacro(macro_, functions) := overrides[i];
        ghost var before := Listed(overrides[..i]);
        ListNextMacro(overrides, i);
        for j := 0 to |functions|
          invariant lookup == Lookup(before + ListedOf(functions[..j], macro_))
          invariant sets == EmptyBuckets(before + ListedOf(functions[..j], macro_))
        {
          ListOneMore<T>(before, functions, j, macro_);
          lookup := lookup[functions[j] := macro_];
          sets := sets[macro_ := []];
        }
      }
      assert overrides[..|overrides|] == overrides;
      this.input := input;
      added := [];
      defaultPath := input.normalMacro;
      defaultItems := [];
      overrideLookup := lookup;
      overrideSets := sets;
    }

    /** The lookup never leads to a missing bucket, so the `unwrap` cannot fail. */
    method Add(ident: Ident, tokens: T)
      requires Valid()
      modifies this
      ensures Valid() && added == old(added) + [(ident, tokens)]
      ensures overrideLookup == old(overrideLookup)
    {
      added := added + [(ident, tokens)];
      assert added[..|added| - 1] == old(added);
      if ident in overrideLookup {
        LookupFindsMacros(Listed(input.overrides), ident);
        var overrideMacro := overrideLookup[ident];
        overrideSets := overrideSets[overrideMacro := overrideSets[overrideMacro] + [tokens]];
      } else {
        defaultItems := defaultItems + [tokens];
      }
    }

    /**
     The emission loop: the default bucket, then the override buckets in the map's own order, which is
     returned as `order`; buckets without declarations are left out.
     */
    method Emit() returns (groups: seq<Group<T>>, ghost order: seq<Path>)
      requires Valid()
      ensures Enumerates(order, Macros(Listed(input.overrides)))
      ensures groups == NonEmptyGroups(AllGroups(overrideLookup, added, defaultPath, order))
    {
      order := [];
      OneMoreGroup([], Group(defaultPath, defaultItems));
      groups := if defaultItems == [] then [] else [Group(defaultPath, defaultItems)];
      assert AllGroups(overrideLookup, added, defaultPath, []) == [] + [Group(defaultPath, defaultItems)];
      var pending := overrideSets.Keys;
      while pending != {}
        invariant pending <= overrideSets.Keys && Enumerates(order, overrideSets.Keys - pending)
        invariant groups == NonEmptyGroups(AllGroups(overrideLookup, added, defaultPath, order))
      {
        var path :| path in pending;
        var items := overrideSets[path];
        EnumerateOneMore(order, overrideSets.Keys, pending, path);
        EmitOneMore(overrideLookup, added, defaultPath, order, path);
        if items != [] {
          groups := groups + [Group(path, items)];
        }
        order := order + [path];
        pending := pending - {path};
      }
      assert overrideSets.Keys - {} == overrideSets.Keys;
    }
  }

  // ----- the declarations of a bindings file -----

  datatype Visibility = Inherited | Public

  datatype FnItem = FnItem(
    ident: Ident, variadic: bool, vis: Visibility, output: Option<string>, attrs: seq<string>, inputs: string)

  datatype ForeignItem = ForeignFn(fn: FnItem) | OtherForeignItem

  datatype FileItem = ForeignMod(abi: string, items: seq<ForeignItem>) | OtherFileItem

  datatype DeclTokens = DeclTokens(abi: string, fn: FnItem)

  type Decls = seq<(Ident, DeclTokens)>

  /** Attributes are dropped; relaxed bindings also lose `pub` and get an explicit unit result. */
  function Fixup(f: FnItem, relaxed: bool): FnItem {
    if relaxed then f.(vis := Inherited, output := if f.output.None? then Some("()") else f.output, attrs := [])
    else f.(attrs := [])
  }

  /** `None` is the panic of `unreachable!()`. */
  function SelectedFns(abi: string, items: seq<ForeignItem>, relaxed: bool): Option<Decls> {
    if items == [] then Some([])
    else
      match (SelectedFns(abi, items[..|items| - 1], relaxed), items[|items| - 1])
      case (Some(front), ForeignFn(f)) =>
        if relaxed && f.variadic then Some(front)
        else Some(front + [(f.ident, DeclTokens(abi, Fixup(f, relaxed)))])
      case _ => None
  }

  function Selected(items: seq<FileItem>, relaxed: bool): Option<Decls> {
    if items == [] then Some([])
    else
      match Selected(items[..|items| - 1], relaxed)
      case None => None
      case Some(front) =>
        match items[|items| - 1]
        case OtherFileItem => if relaxed then Some(front) else None
        case ForeignMod(abi, fns) =>
          match SelectedFns(abi, fns, relaxed)
          case None => None
          case Some(more) => Some(front + more)
  }

  predicate Panics(item: FileItem, relaxed: bool) {
    match item
    case OtherFileItem => !relaxed
    case ForeignMod(_, fns) => OtherForeignItem in fns
  }

  lemma {:induction false} SelectedFnsPanics(abi: string, items: seq<ForeignItem>, relaxed: bool)
    ensures SelectedFns(abi, items, relaxed).None? <==> OtherForeignItem in items
    decreases |items|
  {
    if items != [] {
      SelectedFnsPanics(abi, items[..|items| - 1], relaxed);
      assert items == items[..|items| - 1] + [items[|items| - 1]];
    }
  }

  /** A bindings file is rejected exactly for an item the loop does not expect. */
  lemma {:induction false} SelectedPanics(items: seq<FileItem>, relaxed: bool)
    ensures Selected(items, relaxed).None? <==> exists i :: 0 <= i < |items| && Panics(items[i], relaxed)
    decreases |items|
  {
    if items != [] {
      var n := |items| - 1;
      SelectedPanics(items[..n], relaxed);
      if items[n].ForeignMod? {
        SelectedFnsPanics(items[n].abi, items[n].items, relaxed);
      }
      if i :| 0 <= i < |items| && Panics(items[i], relaxed) {
        assert i < n ==> Panics(items[..n][i], relaxed);
      }
      if i :| 0 <= i < n && Panics(items[..n][i], relaxed) {
        assert Panics(items[i], relaxed);
      }
    }
  }

  predicate IsKept(item: ForeignItem, relaxed: bool) {
    item.ForeignFn? && !(relaxed && item.fn.variadic)
  }

  /**
   The declarations of an `extern` block are its functions in order, without the variadic ones if
   relaxed; each is bare of attributes and, if relaxed, private and with an explicit result.
   */
  lemma {:induction false} SelectedFnsPositions(abi: string, items: seq<ForeignItem>, relaxed: bool)
    returns (ps: seq<nat>)
    requires SelectedFns(abi, items, relaxed).Some?
    ensures
      var decls := SelectedFns(abi, items, relaxed).value;
      && |ps| == |decls|
      && (forall j, k :: 0 <= j < k < |ps| ==> ps[j] < ps[k])
      && (forall k :: 0 <= k < |ps| ==> ps[k] < |items| && IsKept(items[ps[k]], relaxed)
                                        && IsDeclOf(decls[k], abi, items[ps[k]].fn, relaxed))
      && (forall p: nat :: p < |items| && IsKept(items[p], relaxed) ==> p in ps)
    decreases |items|
  {
    ps := [];
    if items != [] {
      var n := |items| - 1;
      ps := SelectedFnsPositions(abi, items[..n], relaxed);
      assert forall p: nat :: p < n ==> items[..n][p] == items[p];
      if IsKept(items[n], relaxed) {
        ps := ps + [n];
      }
    }
  }

  predicate IsDeclOf(decl: (Ident, DeclTokens), abi: string, f: FnItem, relaxed: bool) {
    && decl.0 == f.ident == decl.1.fn.ident && decl.1.abi == abi
    && decl.1.fn.inputs == f.inputs && decl.1.fn.variadic == f.variadic && decl.1.fn.attrs == []
    && decl.1.fn.vis == (if relaxed then Inherited else f.vis)
    && decl.1.fn.output == (if relaxed && f.output == None then Some("()") else f.output)
  }

  /** A function in a file: its block and its place in there. */
  type Place = (nat, nat)

  predicate Earlier(p: Place, q: Place) {
    p.0 < q.0 || (p.0 == q.0 && p.1 < q.1)
  }

  /** There is a function at this place, and it is kept. */
  predicate KeptAt(items: seq<FileItem>, relaxed: bool, p: Place) {
    && p.0 < |items| && items[p.0].ForeignMod? && p.1 < |items[p.0].items|
    && IsKept(items[p.0].items[p.1], relaxed)
  }

  /** The declarations stand at these places, in the order of the file, and no kept function is missing. */
  ghost predicate DeclaredAt(decls: Decls, items: seq<FileItem>, relaxed: bool, ps: seq<Place>) {
    && |ps| == |decls|
    && (forall j, k :: 0 <= j < k < |ps| ==> Earlier(ps[j], ps[k]))
    && (forall k :: 0 <= k < |ps| ==>
          KeptAt(items, relaxed, ps[k])
          && IsDeclOf(decls[k], items[ps[k].0].abi, items[ps[k].0].items[ps[k].1].fn, relaxed))
    && (forall p: Place :: KeptAt(items, relaxed, p) ==> p in ps)
  }

  lemma OtherItem(decls: Decls, items: seq<FileItem>, relaxed: bool, ps: seq<Place>)
    requires DeclaredAt(decls, items, relaxed, ps)
    ensures DeclaredAt(decls, items + [OtherFileItem], relaxed, ps)
  {
    forall p: Place ensures KeptAt(items, relaxed, p) <==> KeptAt(items + [OtherFileItem], relaxed, p) {
    }
  }

  lemma OneMoreBlock(
    decls: Decls, items: seq<FileItem>, relaxed: bool, ps: seq<Place>,
    abi: string, fns: seq<ForeignItem>, more: Decls, is_: seq<nat>) returns (all: seq<Place>)
    requires DeclaredAt(decls, items, relaxed, ps)
    requires |is_| == |more| && forall j, k :: 0 <= j < k < |is_| ==> is_[j] < is_[k]
    requires forall k :: 0 <= k < |is_| ==>
               is_[k] < |fns| && IsKept(fns[is_[k]], relaxed) && IsDeclOf(more[k], abi, fns[is_[k]].fn, relaxed)
    requires forall i: nat :: i < |fns| && IsKept(fns[i], relaxed) ==> i in is_
    ensures DeclaredAt(decls + more, items + [ForeignMod(abi, fns)], relaxed, all)
  {
    var n, whole := |items|, items + [ForeignMod(abi, fns)];
    var last: seq<Place> := seq(|is_|, k requires 0 <= k < |is_| => (n, is_[k]));
    all := ps + last;
    forall k | 0 <= k < |ps| ensures all[k].0 < n && KeptAt(whole, relaxed, all[k]) {
      assert KeptAt(items, relaxed, ps[k]);
    }
    forall p: Place | KeptAt(whole, relaxed, p) ensures p in all {
      if p.0 < n {
        assert KeptAt(items, relaxed, p);
        assert p in ps;
      } else {
        var k :| 0 <= k < |is_| && is_[k] == p.1;
        assert last[k] == p && all[|ps| + k] == p;
      }
    }
  }

  /** The declarations of a whole file: every kept function of every block once, in the order of the file. */
  lemma {:induction false} SelectedPositions(items: seq<FileItem>, relaxed: bool) returns (ps: seq<Place>)
    requires Selected(items, relaxed).Some?
    ensures DeclaredAt(Selected(items, relaxed).value, items, relaxed, ps)
    decreases |items|
  {
    ps := [];
    if items != [] {
      var n := |items| - 1;
      ps := SelectedPositions(items[..n], relaxed);
      assert items == items[..n] + [items[n]];
      match items[n] {
        case OtherFileItem =>
          OtherItem(Selected(items[..n], relaxed).value, items[..n], relaxed, ps);
        case ForeignMod(abi, fns) =>
          var is_ := SelectedFnsPositions(abi, fns, relaxed);
          ps := OneMoreBlock(Selected(items[..n], relaxed).value, items[..n], relaxed, ps,
                             abi, fns, SelectedFns(abi, fns, relaxed).value, is_);
      }
    }
  }

  method AddFns(chooseMacro: ChooseMacro<DeclTokens>, abi: string, items: seq<ForeignItem>, relaxed: bool)
    returns (ok: bool)
    requires chooseMacro.Valid()
    modifies chooseMacro
    ensures chooseMacro.Valid()
    ensures ok <==> SelectedFns(abi, items, relaxed).Some?
    ensures ok ==> chooseMacro.added == old(chooseMacro.added) + SelectedFns(abi, items, relaxed).value
  {
    ghost var done: Decls := [];
    assert chooseMacro.added == old(chooseMacro.added) + done;
    for i := 0 to |items|
      invariant chooseMacro.Valid()
      invariant SelectedFns(abi, items[..i], relaxed) == Some(done)
      invariant chooseMacro.added == old(chooseMacro.added) + done
    {
      assert items[..i + 1][..i] == items[..i];
      match items[i] {
        case OtherForeignItem =>
          SelectedFnsPanics(abi, items, relaxed);
          return false;
        case ForeignFn(f) =>
          if relaxed && f.variadic {
            continue;
          }
          chooseMacro.Add(f.ident, DeclTokens(abi, Fixup(f, relaxed)));
          done := done + [(f.ident, DeclTokens(abi, Fixup(f, relaxed)))];
      }
    }
    assert items[..|items|] == items;
    return true;
  }

  /**
   `decls` are the declarations of the file, which are all that is emitted, and `order` is the order in
   which the map of override macros is walked. `None` is a panic.
   */
  method FunctionDeclarations(input: FnDeclInput, items: seq<FileItem>, relaxed: bool)
    returns (r: Option<seq<Group<DeclTokens>>>, ghost order: seq<Path>, ghost decls: Decls)
    ensures r.None? <==> exists i :: 0 <= i < |items| && Panics(items[i], relaxed)
    ensures r.Some? ==>
              && Selected(items, relaxed) == Some(decls)
              && (exists ps :: DeclaredAt(decls, items, relaxed, ps))
              && Enumerates(order, Macros(Listed(input.overrides)))
              && r.value == NonEmptyGroups(
                   AllGroups(Lookup(Listed(input.overrides)), decls, input.normalMacro, order))
              && multiset(AllItems(r.value)) == multiset(Tokens(decls))
  {
    SelectedPanics(items, relaxed);
    order, decls := [], [];
    var chooseMacro := new ChooseMacro<DeclTokens>(input);
    for i := 0 to |items|
      invariant chooseMacro.Valid() && chooseMacro.input == input && fresh(chooseMacro)
      invariant Selected(items[..i], relaxed) == Some(chooseMacro.added)
    {
      assert items[..i + 1][..i] == items[..i];
      if items[i].OtherFileItem? {
        if relaxed {
          continue;
        } else {
          assert Panics(items[i], relaxed);
          return None, [], [];
        }
      }
      var ok := AddFns(chooseMacro, items[i].abi, items[i].items, relaxed);
      if !ok {
        SelectedFnsPanics(items[i].abi, items[i].items, relaxed);
        assert Panics(items[i], relaxed);
        return None, [], [];
      }
    }
    assert items[..|items|] == items;
    var groups;
    groups, order := chooseMacro.Emit();
    decls := chooseMacro.added;
    EmissionConserves(input.overrides, decls, input.normalMacro, order);
    ghost var ps := SelectedPositions(items, relaxed);
    r := Some(groups);
  }
}
