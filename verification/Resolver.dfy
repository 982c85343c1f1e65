/**
 * The dependency resolver (mkosi/debian/generate_lock.py): a worklist that selects one package per name until every
 * dependency group of every selected package is satisfied.
 */
module Resolver {
  import opened Prelude
  import opened Sorting
  import opened Packages

  type Selection = map<string, Package>
  type Edges = map<string, set<string>>

  function Groups(p: Package): seq<Group> {
    p.preDepends + p.depends
  }

  // ---- What a closure means ----

  /** The selected package with the given name satisfies one alternative of the group. */
  ghost predicate MeetsGroup(selected: Selection, name: string, group: Group) {
    name in selected && exists i :: 0 <= i < |group| && Satisfies(selected[name], group[i])
  }

  /** A group of p is satisfied by p itself or by a package that p has an edge to. */
  ghost predicate GroupSatisfied(selected: Selection, edges: Edges, p: Package, group: Group) {
    p.name in edges &&
    exists name :: MeetsGroup(selected, name, group) && (name == p.name || name in edges[p.name])
  }

  ghost predicate SatisfiedUpTo(selected: Selection, edges: Edges, p: Package, n: nat) {
    n <= |Groups(p)| && forall i :: 0 <= i < n ==> GroupSatisfied(selected, edges, p, Groups(p)[i])
  }

  ghost predicate AllSatisfied(selected: Selection, edges: Edges, p: Package) {
    SatisfiedUpTo(selected, edges, p, |Groups(p)|)
  }

  /** An edge leads to another selected package that satisfies one of the groups. */
  ghost predicate EdgeJustified(selected: Selection, p: Package, name: string) {
    name != p.name && exists i :: 0 <= i < |Groups(p)| && MeetsGroup(selected, name, Groups(p)[i])
  }

  ghost predicate IsPath(edges: Edges, path: seq<string>) {
    forall i :: 0 <= i < |path| - 1 ==> path[i] in edges && path[i + 1] in edges[path[i]]
  }

  ghost predicate Reachable(edges: Edges, roots: set<string>, name: string) {
    exists path :: path != [] && path[0] in roots && path[|path| - 1] == name && IsPath(edges, path)
  }

  /** Every name maps to a package of that name from the universe. */
  ghost predicate WellSelected(u: Universe, selected: Selection) {
    forall name :: name in selected ==> selected[name].name == name && InUniverse(u, selected[name])
  }

  ghost predicate EdgesJustified(selected: Selection, edges: Edges) {
    && edges.Keys == selected.Keys
    && forall name, to :: name in edges && to in edges[name] ==> EdgeJustified(selected, selected[name], to)
  }

  ghost predicate Grounded(selected: Selection, edges: Edges, roots: set<string>) {
    forall name :: name in selected ==> Reachable(edges, roots, name)
  }

  /** The later selection keeps every earlier choice and edge. */
  ghost predicate Grows(selected: Selection, edges: Edges, selected': Selection, edges': Edges) {
    && (forall name :: name in selected ==> name in selected' && selected'[name] == selected[name])
    && (forall name :: name in edges ==> name in edges' && edges[name] <= edges'[name])
  }

  lemma GrowsTransitive(s0: Selection, e0: Edges, s1: Selection, e1: Edges, s2: Selection, e2: Edges)
    requires Grows(s0, e0, s1, e1) && Grows(s1, e1, s2, e2)
    ensures Grows(s0, e0, s2, e2)
  {
    forall name | name in e0 ensures name in e2 && e0[name] <= e2[name] {
      assert name in e1;
    }
  }

  lemma MeetsGroupKept(s: Selection, e: Edges, s': Selection, e': Edges, name: string, group: Group)
    requires Grows(s, e, s', e') && MeetsGroup(s, name, group)
    ensures MeetsGroup(s', name, group)
  {
  }

  lemma SatisfiedKept(s: Selection, e: Edges, s': Selection, e': Edges, p: Package, group: Group)
    requires Grows(s, e, s', e') && GroupSatisfied(s, e, p, group)
    ensures GroupSatisfied(s', e', p, group)
  {
    var name :| MeetsGroup(s, name, group) && (name == p.name || name in e[p.name]);
    MeetsGroupKept(s, e, s', e', name, group);
  }

  lemma SatisfiedUpToKept(s: Selection, e: Edges, s': Selection, e': Edges, p: Package, n: nat)
    requires Grows(s, e, s', e') && SatisfiedUpTo(s, e, p, n)
    ensures SatisfiedUpTo(s', e', p, n)
  {
    forall i | 0 <= i < n ensures GroupSatisfied(s', e', p, Groups(p)[i]) {
      SatisfiedKept(s, e, s', e', p, Groups(p)[i]);
    }
  }

  lemma ReachableKept(s: Selection, e: Edges, s': Selection, e': Edges, roots: set<string>, name: string)
    requires Grows(s, e, s', e') && Reachable(e, roots, name)
    ensures Reachable(e', roots, name)
  {
    var path :| path != [] && path[0] in roots && path[|path| - 1] == name && IsPath(e, path);
    forall i | 0 <= i < |path| - 1 ensures path[i] in e' && path[i + 1] in e'[path[i]] {
      assert path[i] in e;
    }
    assert IsPath(e', path);
  }

  lemma ReachableStep(edges: Edges, roots: set<string>, name: string, next: string)
    requires Reachable(edges, roots, name) && name in edges && next in edges[name]
    ensures Reachable(edges, roots, next)
  {
    var path :| path != [] && path[0] in roots && path[|path| - 1] == name && IsPath(edges, path);
    var longer := path + [next];
    forall i | 0 <= i < |longer| - 1 ensures longer[i] in edges && longer[i + 1] in edges[longer[i]] {
      if i < |path| - 1 {
        assert longer[i] == path[i] && longer[i + 1] == path[i + 1];
      }
    }
    assert IsPath(edges, longer);
  }

  lemma ReachableRoot(edges: Edges, roots: set<string>, name: string)
    requires name in roots
    ensures Reachable(edges, roots, name)
  {
    assert IsPath(edges, [name]);
  }

  // ---- The closure under construction ----

  datatype State = State(selected: Selection, edges: Edges, queue: seq<Package>)

  /** Every queued package is the selection of its name and is queued once. */
  ghost predicate QueueSelected(s: State) {
    && Distinct(s.queue)
    && forall p :: p in s.queue ==> Chosen(s.selected, p)
  }

  /** Selections come from the universe, edges are justified, and the queue holds selections. */
  ghost predicate Coherent(u: Universe, s: State) {
    WellSelected(u, s.selected) && EdgesJustified(s.selected, s.edges) && QueueSelected(s)
  }

  predicate Chosen(selected: Selection, p: Package) {
    p.name in selected && selected[p.name] == p
  }

  /** Nothing is replaced or dequeued, and every newly selected package is queued. */
  ghost predicate Progress(s: State, s': State) {
    && Grows(s.selected, s.edges, s'.selected, s'.edges)
    && s.queue <= s'.queue
    && (forall name :: name in s'.selected && name !in s.selected ==> s'.selected[name] in s'.queue)
    && (|s.queue| < |s'.queue| ==> s'.selected.Keys != s.selected.Keys)
  }

  lemma ProgressGrows(s: State, s': State)
    requires Progress(s, s')
    ensures Grows(s.selected, s.edges, s'.selected, s'.edges)
  {
  }

  lemma ProgressReflexive(s: State)
    ensures Progress(s, s)
  {
  }

  lemma ProgressTransitive(s0: State, s1: State, s2: State)
    requires Progress(s0, s1) && Progress(s1, s2)
    ensures Progress(s0, s2)
  {
    GrowsTransitive(s0.selected, s0.edges, s1.selected, s1.edges, s2.selected, s2.edges);
    forall name | name in s2.selected && name !in s0.selected ensures s2.selected[name] in s2.queue {
      if name in s1.selected {
        assert s1.selected[name] in s1.queue;
      }
    }
    if |s0.queue| < |s2.queue| {
      if |s0.queue| < |s1.queue| {
        var name :| name in s1.selected && name !in s0.selected;
        assert name in s2.selected;
      } else {
        var name :| name in s2.selected && name !in s1.selected;
        assert name !in s0.selected;
      }
    }
  }

  function Selected(s: State, p: Package): State {
    if p.name in s.selected then s
    else State(s.selected[p.name := p], s.edges[p.name := {}], s.queue + [p])
  }

  function Linked(s: State, from: string, to: string): State
    requires from in s.edges
  {
    if from == to then s else s.(edges := s.edges[from := s.edges[from] + {to}])
  }

  lemma SelectedCoherent(u: Universe, s: State, p: Package)
    requires Coherent(u, s) && InUniverse(u, p)
    ensures Coherent(u, Selected(s, p)) && Progress(s, Selected(s, p))
    ensures p.name in Selected(s, p).selected
  {
    var s' := Selected(s, p);
    if p.name !in s.selected {
      JustifiedKept(s.selected, s.edges, s'.selected, s'.edges);
      assert p !in s.queue;
      assert s'.queue[|s.queue|] == p;
    }
  }

  lemma LinkedCoherent(u: Universe, s: State, p: Package, i: nat, to: string)
    requires Coherent(u, s) && Chosen(s.selected, p)
    requires i < |Groups(p)| && MeetsGroup(s.selected, to, Groups(p)[i])
    ensures Coherent(u, Linked(s, p.name, to)) && Progress(s, Linked(s, p.name, to))
    ensures GroupSatisfied(s.selected, Linked(s, p.name, to).edges, p, Groups(p)[i])
  {
    if p.name != to {
      assert EdgeJustified(s.selected, p, to);
    }
  }

  class Closure {
    var selected: Selection
    var edges: Edges
    var queue: seq<Package>

    constructor ()
      ensures Now() == State(map[], map[], [])
    {
      selected, edges, queue := map[], map[], [];
    }

    function Now(): State
      reads this
    {
      State(selected, edges, queue)
    }

    /** `_Closure.select`: refuses to replace a selection; otherwise selects and queues a new name. */
    method Select(package: Package, reason: Reason) returns (e: Option<LockError>)
      modifies this
      ensures e.Some? <==> package.name in old(selected) && old(selected)[package.name] != package
      ensures e.Some? ==> e.value == Conflict(reason, package, old(selected)[package.name])
      ensures Now() == Selected(old(Now()), package)
    {
      if package.name in selected {
        if selected[package.name] != package {
          return Some(Conflict(reason, package, selected[package.name]));
        }
        return None;
      }
      selected := selected[package.name := package];
      edges := edges[package.name := {}];
      queue := queue + [package];
      return None;
    }
  }

  lemma JustifiedKept(s: Selection, e: Edges, s': Selection, e': Edges)
    requires EdgesJustified(s, e) && Grows(s, e, s', e') && e'.Keys == s'.Keys
    requires forall name :: name in e' ==> e'[name] == (if name in e then e[name] else {})
    ensures EdgesJustified(s', e')
  {
    forall name, to | name in e' && to in e'[name] ensures EdgeJustified(s', s'[name], to) {
      assert EdgeJustified(s, s[name], to);
      var i :| 0 <= i < |Groups(s[name])| && MeetsGroup(s, to, Groups(s[name])[i]);
      MeetsGroupKept(s, e, s', e', to, Groups(s[name])[i]);
    }
  }

  // ---- Roots ----

  predicate IsBootstrap(list: seq<Package>) {
    exists p :: p in list && (p.essential || p.priority == "required")
  }

  function BootstrapNames(u: Universe): set<string>
  {
    set name | name in u.packages && IsBootstrap(u.packages[name])
  }

  /** The states that selecting the newest version of some bootstrap names leads to. */
  ghost predicate Bootstrapped(u: Universe, s: State, names: set<string>)
    requires ValidUniverse(u)
  {
    && Coherent(u, s) && s.selected.Keys == names
    && (forall name :: name in names ==> Newest(u, name) == Some(s.selected[name]) && s.selected[name] in s.queue)
  }

  lemma BootstrapStep(u: Universe, s: State, names: set<string>, name: string)
    requires ValidUniverse(u) && Bootstrapped(u, s, names) && name in u.packages
    ensures Bootstrapped(u, Selected(s, Newest(u, name).value), names + {name})
    ensures name in s.selected ==> s.selected[name] == Newest(u, name).value
  {
    hide QueueSelected, WellSelected, EdgesJustified;
    SelectedCoherent(u, s, Newest(u, name).value);
  }

  /** The closure after the first n of the names: the newest package of each bootstrap name is selected. */
  function BootstrapState(u: Universe, names: seq<string>, n: nat): State
    requires n <= |names|
  {
    if n == 0 then State(map[], map[], [])
    else
      var before, name := BootstrapState(u, names, n - 1), names[n - 1];
      if name in u.packages && u.packages[name] != [] && IsBootstrap(u.packages[name])
      then Selected(before, u.packages[name][0]) else before
  }

  /** The closure that every run starts from. */
  function Bootstrap(u: Universe): State {
    BootstrapState(u, Sort(u.names, TextLe), |Sort(u.names, TextLe)|)
  }

  /** `_select_bootstrap`: every bootstrap name is selected at its newest version, and no conflict can arise. */
  method SelectBootstrap(u: Universe, closure: Closure)
    requires ValidUniverse(u) && closure.Now() == State(map[], map[], [])
    modifies closure
    ensures Bootstrapped(u, closure.Now(), BootstrapNames(u)) && closure.Now() == Bootstrap(u)
  {
    hide Bootstrapped, BootstrapNames, Selected, IsBootstrap, Sort, TextLe;
    var names := Sort(u.names, TextLe);
    SortElements(u.names, TextLe);
    NoneBootstrapped(u);
    BootstrapNone(u, names);
    for i := 0 to |names|
      invariant Bootstrapped(u, closure.Now(), BootstrapNames(u) * Elements(names[..i]))
      invariant closure.Now() == BootstrapState(u, names, i)
    {
      hide Bootstrapped, BootstrapNames, Selected, IsBootstrap;
      BootstrapPrefix(u, names, i);
      if IsBootstrap(u.packages[names[i]]) {
        BootstrapStep(u, closure.Now(), BootstrapNames(u) * Elements(names[..i]), names[i]);
        var e := closure.Select(Newest(u, names[i]).value, BootstrapSet);
        assert e.None?;
      }
    }
    BootstrapComplete(u, names);
  }

  lemma BootstrapPrefix(u: Universe, names: seq<string>, i: nat)
    requires ValidUniverse(u) && i < |names| && forall name :: name in names <==> name in u.names
    ensures names[i] in u.packages
    ensures var done := BootstrapNames(u) * Elements(names[..i]);
            BootstrapNames(u) * Elements(names[..i + 1])
            == if IsBootstrap(u.packages[names[i]]) then done + {names[i]} else done
  {
    assert names[..i + 1] == names[..i] + [names[i]];
    assert names[i] in u.names && names[i] in Elements(u.names);
  }

  lemma BootstrapNone(u: Universe, names: seq<string>)
    ensures BootstrapNames(u) * Elements(names[..0]) == {}
  {
  }

  lemma NoneBootstrapped(u: Universe)
    requires ValidUniverse(u)
    ensures Bootstrapped(u, State(map[], map[], []), {})
  {
  }

  lemma BootstrapComplete(u: Universe, names: seq<string>)
    requires ValidUniverse(u) && forall name :: name in names <==> name in u.names
    ensures BootstrapNames(u) * Elements(names[..|names|]) == BootstrapNames(u)
  {
    assert names[..|names|] == names;
    forall name | name in BootstrapNames(u) ensures name in Elements(names) {
      assert name in Elements(u.names);
    }
  }

  function Unversioned(name: string): Relation {
    Relation(name, None, None)
  }

  /** The first candidate that carries the requested name itself. */
  function FirstNamed(list: seq<Package>, name: string): (r: Option<Package>)
    ensures r.Some? ==> r.value in list && r.value.name == name
    ensures r.None? ==> forall p :: p in list ==> p.name != name
  {
    if list == [] then None
    else if list[0].name == name then Some(list[0])
    else
      assert forall p :: p in list ==> p == list[0] || p in list[1..];
      FirstNamed(list[1..], name)
  }

  /** The newest package of the name itself, if the native architecture can install it. */
  predicate HasOwnPackage(u: Universe, name: string) {
    name in u.packages && u.packages[name] != [] && ArchitectureMatches(u.packages[name][0], None)
  }

  /**
   * A requested name is met by a selected package, and by the newest package of that very name if there is one that
   * the native architecture can install.
   */
  ghost predicate Requested(u: Universe, selected: Selection, name: string) {
    && (exists to :: to in selected && Satisfies(selected[to], Unversioned(name)))
    && (HasOwnPackage(u, name) ==> Chosen(selected, u.packages[name][0]))
  }

  /** A root is a bootstrap name or a package selected for some requested name. */
  ghost predicate IsRoot(u: Universe, requested: seq<string>, selected: Selection, name: string) {
    || name in BootstrapNames(u)
    || (name in selected && exists i :: 0 <= i < |requested| && Satisfies(selected[name], Unversioned(requested[i])))
  }

  lemma {:induction false} RealsStart(list: seq<Package>, relation: Relation)
    requires list != [] && IsReal(list[0], relation)
    ensures RealsOf(list, relation) != [] && RealsOf(list, relation)[0] == list[0]
  {
    if |list| > 1 {
      RealsStart(list[..|list| - 1], relation);
    }
  }

  lemma OwnPackageFirst(u: Universe, name: string, list: seq<Package>)
    requires ValidUniverse(u) && HasOwnPackage(u, name)
    requires Reals(u, Unversioned(name)) <= list
    ensures FirstNamed(list, name) == Some(u.packages[name][0])
  {
    assert Has(u.packages, name, u.packages[name][0]);
    RealsStart(u.packages[name], Unversioned(name));
  }

  /** No candidate carries the name itself, and there are several. */
  predicate Ambiguous(u: Universe, name: string) {
    var list := CandidateList(u, Unversioned(name));
    |list| > 1 && forall p :: p in list ==> p.name != name
  }

  /** Nothing in the universe satisfies the name. */
  ghost predicate IsMissing(u: Universe, name: string) {
    forall p :: InUniverse(u, p) ==> !Satisfies(p, Unversioned(name))
  }

  /** The package that one requested name selects: one of the name itself, or else the only one there is. */
  function ChoiceFor(u: Universe, name: string): Result<Option<Package>, LockError> {
    var list := CandidateList(u, Unversioned(name));
    var named := FirstNamed(list, name);
    if named.Some? then Ok(named)
    else if |list| > 1 then Err(SeveralProviders(name))
    else if |list| == 1 then Ok(Some(list[0]))
    else Ok(None)
  }

  /** The choice for one requested name; no version is compared for it. */
  method ChooseRequested(u: Universe, name: string) returns (r: Result<Option<Package>, LockError>)
    requires ValidUniverse(u)
    ensures r == ChoiceFor(u, name)
    ensures r.Ok? && r.value.Some? ==> InUniverse(u, r.value.value) && Satisfies(r.value.value, Unversioned(name))
    ensures r.Ok? && HasOwnPackage(u, name) ==> r.value == Some(u.packages[name][0])
    ensures r.Ok? ==> (r.value.None? <==> IsMissing(u, name))
    ensures r.Err? <==> Ambiguous(u, name)
    ensures r.Err? ==> r.error == SeveralProviders(name)
  {
    hide ValidUniverse, CandidateList, Satisfies, InUniverse, Reals, HasOwnPackage, Undecidable;
    UnconstrainedDecidable(u, Unversioned(name));
    var candidates := Candidates(u, Unversioned(name));
    var list := candidates.value;
    CandidatesSatisfy(u, Unversioned(name));
    var named := FirstNamed(list, name);
    if HasOwnPackage(u, name) {
      OwnPackageFirst(u, name, list);
    }
    if named.Some? {
      return Ok(Some(named.value));
    }
    if |list| == 1 {
      assert list[0] in list;
      return Ok(Some(list[0]));
    }
    if |list| > 1 {
      return Err(SeveralProviders(name));
    }
    return Ok(None);
  }

  /** Every selection is a root and waits in the queue. */
  ghost predicate OnlyRoots(u: Universe, requested: seq<string>, s: State) {
    forall name :: name in s.selected ==> IsRoot(u, requested, s.selected, name) && s.selected[name] in s.queue
  }

  ghost predicate RequestedUpTo(u: Universe, selected: Selection, requested: seq<string>, n: nat) {
    n <= |requested| && forall k :: 0 <= k < n ==> Requested(u, selected, requested[k])
  }

  /** The missing ones of the first n requested names, in order. */
  ghost function MissingUpTo(u: Universe, requested: seq<string>, n: nat): seq<string>
    requires n <= |requested|
  {
    if n == 0 then []
    else MissingUpTo(u, requested, n - 1) + if IsMissing(u, requested[n - 1]) then [requested[n - 1]] else []
  }

  /** The closure after the first n requested names. */
  function RequestState(u: Universe, requested: seq<string>, n: nat): State
    requires n <= |requested|
  {
    if n == 0 then Bootstrap(u)
    else
      var before, choice := RequestState(u, requested, n - 1), ChoiceFor(u, requested[n - 1]);
      if choice.Ok? && choice.value.Some? then Selected(before, choice.value.value) else before
  }

  /** The i-th requested name stops the run: it is ambiguous, or its name is selected at something else. */
  ghost predicate RequestStops(u: Universe, requested: seq<string>, i: nat, e: LockError)
    requires i < |requested|
  {
    var selected := RequestState(u, requested, i).selected;
    match ChoiceFor(u, requested[i])
    case Err(several) => e == several && Ambiguous(u, requested[i])
    case Ok(None) => false
    case Ok(Some(p)) => p.name in selected && selected[p.name] != p
                        && e == Conflict(Specification, p, selected[p.name])
  }

  ghost predicate RequestPasses(u: Universe, requested: seq<string>, n: nat) {
    n <= |requested| && forall i, e :: 0 <= i < n ==> !RequestStops(u, requested, i, e)
  }

  /** What the error of a refused request says of it. */
  ghost predicate RequestError(u: Universe, requested: seq<string>, e: LockError) {
    || (exists i :: 0 <= i < |requested| && RequestPasses(u, requested, i) && RequestStops(u, requested, i, e))
    || (RequestPasses(u, requested, |requested|) && e == MissingPackages(MissingUpTo(u, requested, |requested|))
        && MissingUpTo(u, requested, |requested|) != [])
  }

  /** Every requested name makes a choice that does not contradict an earlier one. */
  ghost predicate RequestAccepted(u: Universe, requested: seq<string>) {
    RequestPasses(u, requested, |requested|) && MissingUpTo(u, requested, |requested|) == []
  }

  lemma RefusedOrAccepted(u: Universe, requested: seq<string>, e: LockError)
    requires RequestError(u, requested, e)
    ensures !RequestAccepted(u, requested) && !e.BadVersion? && !e.Unsatisfiable?
  {
  }

  /**
   * `_select_requested`: selects the choice of every name, or stops at the first that is ambiguous or contradicts an
   * earlier selection. What is missing is reported as exactly the names that nothing satisfies.
   */
  method SelectRequested(u: Universe, requested: seq<string>, closure: Closure) returns (e: Option<LockError>)
    requires ValidUniverse(u) && Coherent(u, closure.Now()) && OnlyRoots(u, requested, closure.Now())
    requires closure.Now() == Bootstrap(u)
    modifies closure
    ensures e.Some? ==> RequestError(u, requested, e.value)
    ensures e.None? ==> RequestAccepted(u, requested) && closure.Now() == RequestState(u, requested, |requested|)
    ensures e.None? ==> && Coherent(u, closure.Now()) && OnlyRoots(u, requested, closure.Now())
                        && Progress(old(closure.Now()), closure.Now())
                        && RequestedUpTo(u, closure.selected, requested, |requested|)
  {
    hide Coherent, OnlyRoots, Progress, RequestedUpTo, ValidUniverse, Ambiguous, IsMissing, HasOwnPackage, Selected;
    hide ChoiceFor, Bootstrap;
    var missing: seq<string> := [];
    ProgressReflexive(closure.Now());
    NothingRequested(u, closure.selected, requested);
    for i := 0 to |requested|
      invariant Coherent(u, closure.Now()) && OnlyRoots(u, requested, closure.Now())
      invariant Progress(old(closure.Now()), closure.Now())
      invariant missing == [] ==> RequestedUpTo(u, closure.selected, requested, i)
      invariant missing == MissingUpTo(u, requested, i)
      invariant closure.Now() == RequestState(u, requested, i) && RequestPasses(u, requested, i)
    {
      hide Coherent, OnlyRoots, Progress, RequestedUpTo, ValidUniverse, Ambiguous, HasOwnPackage, Selected, Satisfies;
      hide ChoiceFor, Bootstrap;
      ghost var before := closure.Now();
      var chosen := ChooseRequested(u, requested[i]);
      if chosen.Err? {
        assert RequestStops(u, requested, i, chosen.error);
        return Some(chosen.error);
      }
      if chosen.value.None? {
        missing := missing + [requested[i]];
      } else {
        var package := chosen.value.value;
        e := closure.Select(package, Specification);
        if e.Some? {
          assert RequestStops(u, requested, i, e.value);
          return;
        }
        SelectedCoherent(u, before, package);
        ProgressTransitive(old(closure.Now()), before, closure.Now());
        RequestedStep(u, requested, i, before, package);
      }
    }
    if missing != [] {
      return Some(MissingPackages(missing));
    }
    return None;
  }

  lemma NothingRequested(u: Universe, selected: Selection, requested: seq<string>)
    ensures RequestedUpTo(u, selected, requested, 0)
  {
  }

  lemma RequestedStep(u: Universe, requested: seq<string>, i: nat, s: State, p: Package)
    requires i < |requested| && Satisfies(p, Unversioned(requested[i])) && OnlyRoots(u, requested, s)
    requires HasOwnPackage(u, requested[i]) ==> p == u.packages[requested[i]][0]
    requires p.name in s.selected ==> s.selected[p.name] == p
    ensures RequestedUpTo(u, s.selected, requested, i) ==> RequestedUpTo(u, Selected(s, p).selected, requested, i + 1)
    ensures OnlyRoots(u, requested, Selected(s, p))
  {
    hide Satisfies, BootstrapNames;
    var s' := Selected(s, p);
    assert Chosen(s'.selected, p);
    forall k | 0 <= k < i && Requested(u, s.selected, requested[k]) ensures Requested(u, s'.selected, requested[k]) {
      var to :| to in s.selected && Satisfies(s.selected[to], Unversioned(requested[k]));
      assert to in s'.selected && s'.selected[to] == s.selected[to];
    }
    forall name | name in s'.selected
      ensures IsRoot(u, requested, s'.selected, name) && s'.selected[name] in s'.queue
    {
      if name in s.selected {
        assert s'.selected[name] == s.selected[name];
      }
    }
  }

  // ---- Choosing a candidate ----

  /** Some alternative of the group accepts the candidate. */
  ghost predicate Alternative(u: Universe, group: Group, p: Package) {
    InUniverse(u, p) && exists i :: 0 <= i < |group| && Satisfies(p, group[i])
  }

  /** All candidates of the first n alternatives, in order. */
  function RankedUpTo(u: Universe, group: Group, n: nat): seq<Package>
    requires n <= |group|
  {
    if n == 0 then [] else RankedUpTo(u, group, n - 1) + CandidateList(u, group[n - 1])
  }

  /** All candidates of a group, in order of preference. */
  function Ranked(u: Universe, group: Group): seq<Package> {
    RankedUpTo(u, group, |group|)
  }

  lemma {:induction false} RankedAlternatives(u: Universe, group: Group, n: nat)
    requires ValidUniverse(u) && n <= |group|
    ensures forall p :: p in RankedUpTo(u, group, n) <==>
              InUniverse(u, p) && exists i :: 0 <= i < n && Satisfies(p, group[i])
  {
    hide ValidUniverse, Satisfies, InUniverse, CandidateList;
    if n > 0 {
      RankedAlternatives(u, group, n - 1);
      CandidatesSatisfy(u, group[n - 1]);
    }
  }

  /** The candidate is selected already, or its name is still free. */
  predicate Admissible(selected: Selection, p: Package, already: bool) {
    if already then Chosen(selected, p) else p.name !in selected
  }

  /** The first admissible element of a list. */
  predicate IsFirst(list: seq<Package>, selected: Selection, already: bool, p: Package) {
    exists k :: 0 <= k < |list| && list[k] == p && Admissible(selected, p, already)
                && forall j :: 0 <= j < k ==> !Admissible(selected, list[j], already)
  }

  predicate NoneAdmissible(list: seq<Package>, selected: Selection, already: bool) {
    forall j :: 0 <= j < |list| ==> !Admissible(selected, list[j], already)
  }

  lemma FirstExtends(a: seq<Package>, b: seq<Package>, c: seq<Package>, selected: Selection, already: bool, p: Package)
    requires NoneAdmissible(a, selected, already) && IsFirst(b, selected, already, p)
    ensures IsFirst(a + b + c, selected, already, p)
  {
    hide Admissible;
    var k :| 0 <= k < |b| && b[k] == p && Admissible(selected, p, already)
             && forall j :: 0 <= j < k ==> !Admissible(selected, b[j], already);
    var all := a + b + c;
    assert all[|a| + k] == p;
    forall j | 0 <= j < |a| + k ensures !Admissible(selected, all[j], already) {
      assert j < |a| ==> all[j] == a[j];
      assert j >= |a| ==> all[j] == b[j - |a|];
    }
  }

  lemma {:induction false} RankedSplit(u: Universe, group: Group, n: nat, m: nat) returns (rest: seq<Package>)
    requires n <= m <= |group|
    ensures RankedUpTo(u, group, m) == RankedUpTo(u, group, n) + rest
    decreases m
  {
    hide CandidateList;
    if n == m {
      rest := [];
    } else {
      rest := RankedSplit(u, group, n, m - 1);
      rest := rest + CandidateList(u, group[m - 1]);
    }
  }

  /** An invalid version is met before any admissible candidate. */
  ghost predicate SearchFails(u: Universe, selected: Selection, group: Group, already: bool) {
    exists i :: 0 <= i < |group| && Undecidable(u, group[i])
                && NoneAdmissible(RankedUpTo(u, group, i), selected, already)
  }

  /** The error names an invalid version that one of the alternatives has to compare. */
  ghost predicate BlamesGroup(u: Universe, group: Group, e: LockError) {
    exists i :: 0 <= i < |group| && BlamesCompared(u, group[i], e)
  }

  /**
   * The first admissible candidate in order of preference; later alternatives are not even looked at, so an invalid
   * version there does no harm.
   */
  method FirstCandidate(u: Universe, selected: Selection, group: Group, already: bool)
    returns (r: Result<Option<Package>, LockError>)
    requires ValidUniverse(u)
    ensures r.Ok? && r.value.Some? ==> IsFirst(Ranked(u, group), selected, already, r.value.value)
    ensures r.Ok? && r.value.None? ==> NoneAdmissible(Ranked(u, group), selected, already)
    ensures r.Err? <==> SearchFails(u, selected, group, already)
    ensures r.Err? ==> BlamesGroup(u, group, r.error)
  {
    hide ValidUniverse, CandidateList, Admissible, Undecidable, BlamesCompared;
    for i := 0 to |group|
      invariant NoneAdmissible(RankedUpTo(u, group, i), selected, already)
      invariant forall k :: 0 <= k < i ==> !Undecidable(u, group[k])
    {
      hide ValidUniverse, CandidateList, Admissible, Ranked, Undecidable, BlamesCompared;
      var candidates := Candidates(u, group[i]);
      if candidates.Err? {
        return Err(candidates.error);
      }
      var list := candidates.value;
      for j := 0 to |list|
        invariant forall k :: 0 <= k < j ==> !Admissible(selected, list[k], already)
      {
        hide ValidUniverse, CandidateList, Admissible, Ranked, RankedUpTo;
        if Admissible(selected, list[j], already) {
          FoundFirst(u, selected, group, already, i, j);
          FoundInTime(u, selected, group, already, i, list[j]);
          return Ok(Some(list[j]));
        }
      }
    }
    return Ok(None);
  }

  lemma RankedStep(u: Universe, group: Group, i: nat)
    requires i < |group|
    ensures RankedUpTo(u, group, i + 1) == RankedUpTo(u, group, i) + CandidateList(u, group[i])
  {
  }

  lemma FoundFirst(u: Universe, selected: Selection, group: Group, already: bool, i: nat, j: nat)
    requires i < |group| && NoneAdmissible(RankedUpTo(u, group, i), selected, already)
    requires j < |CandidateList(u, group[i])| && Admissible(selected, CandidateList(u, group[i])[j], already)
    requires forall k :: 0 <= k < j ==> !Admissible(selected, CandidateList(u, group[i])[k], already)
    ensures IsFirst(Ranked(u, group), selected, already, CandidateList(u, group[i])[j])
  {
    hide CandidateList, Admissible, RankedUpTo;
    var list := CandidateList(u, group[i]);
    assert IsFirst(list, selected, already, list[j]);
    RankedStep(u, group, i);
    hide IsFirst, NoneAdmissible;
    var rest := RankedSplit(u, group, i + 1, |group|);
    FirstExtends(RankedUpTo(u, group, i), list, rest, selected, already, list[j]);
  }

  /** Nothing behind an alternative with an admissible candidate is looked at. */
  lemma FoundInTime(u: Universe, selected: Selection, group: Group, already: bool, i: nat, p: Package)
    requires i < |group| && p in CandidateList(u, group[i]) && Admissible(selected, p, already)
    requires forall k :: 0 <= k <= i ==> !Undecidable(u, group[k])
    ensures !SearchFails(u, selected, group, already)
  {
    hide CandidateList, Admissible, Undecidable, RankedUpTo;
    RankedStep(u, group, i);
    forall k | i < k < |group| ensures !NoneAdmissible(RankedUpTo(u, group, k), selected, already) {
      var rest := RankedSplit(u, group, i + 1, k);
      assert p in RankedUpTo(u, group, k);
    }
  }

  /** The first admissible candidate of a list, as a function. */
  function FirstAdmissible(list: seq<Package>, selected: Selection, already: bool): Option<Package> {
    if list == [] then None
    else if Admissible(selected, list[0], already) then Some(list[0])
    else FirstAdmissible(list[1..], selected, already)
  }

  lemma {:induction false} FirstIsFirst(list: seq<Package>, selected: Selection, already: bool)
    ensures forall p :: FirstAdmissible(list, selected, already) == Some(p) <==> IsFirst(list, selected, already, p)
    ensures FirstAdmissible(list, selected, already) == None <==> NoneAdmissible(list, selected, already)
  {
    hide Admissible;
    if list != [] {
      var rest := list[1..];
      FirstIsFirst(rest, selected, already);
      assert list == [list[0]] + rest && forall j :: 0 <= j < |rest| ==> list[j + 1] == rest[j];
      if !Admissible(selected, list[0], already) {
        forall p ensures IsFirst(list, selected, already, p) <==> IsFirst(rest, selected, already, p) {
          FirstInRest(list, selected, already, p);
        }
        if NoneAdmissible(rest, selected, already) {
          forall j | 0 <= j < |list| ensures !Admissible(selected, list[j], already) {
            assert j > 0 ==> list[j] == rest[j - 1];
          }
        }
      } else {
        assert IsFirst(list, selected, already, list[0]);
      }
    }
  }

  lemma FirstInRest(list: seq<Package>, selected: Selection, already: bool, p: Package)
    requires list != [] && !Admissible(selected, list[0], already)
    ensures IsFirst(list, selected, already, p) <==> IsFirst(list[1..], selected, already, p)
  {
    hide Admissible;
    var rest := list[1..];
    if IsFirst(list, selected, already, p) {
      var k :| 0 <= k < |list| && list[k] == p && Admissible(selected, p, already)
               && forall j :: 0 <= j < k ==> !Admissible(selected, list[j], already);
      assert rest[k - 1] == p && forall j :: 0 <= j < k - 1 ==> rest[j] == list[j + 1];
    }
    if IsFirst(rest, selected, already, p) {
      var k :| 0 <= k < |rest| && rest[k] == p && Admissible(selected, p, already)
               && forall j :: 0 <= j < k ==> !Admissible(selected, rest[j], already);
      assert list[k + 1] == p && forall j :: 1 <= j < k + 1 ==> list[j] == rest[j - 1];
    }
  }

  /** The candidate that satisfies a group: the first that is selected already, or else the first with a free name. */
  function Pick(u: Universe, selected: Selection, group: Group): Option<Package> {
    var already := FirstAdmissible(Ranked(u, group), selected, true);
    if already.Some? then already else FirstAdmissible(Ranked(u, group), selected, false)
  }

  /** An invalid version is met before the choice is made. */
  ghost predicate PickFails(u: Universe, selected: Selection, group: Group) {
    || SearchFails(u, selected, group, true)
    || (NoneAdmissible(Ranked(u, group), selected, true) && SearchFails(u, selected, group, false))
  }

  /** Which candidate is picked, in terms of the order of preference. */
  lemma PickIsFirst(u: Universe, selected: Selection, group: Group, p: Package)
    ensures Pick(u, selected, group) == Some(p) <==>
            || IsFirst(Ranked(u, group), selected, true, p)
            || (NoneAdmissible(Ranked(u, group), selected, true) && IsFirst(Ranked(u, group), selected, false, p))
  {
    hide FirstAdmissible, IsFirst, NoneAdmissible, Ranked;
    FirstIsFirst(Ranked(u, group), selected, true);
    FirstIsFirst(Ranked(u, group), selected, false);
    var already := FirstAdmissible(Ranked(u, group), selected, true);
    assert already.Some? ==> IsFirst(Ranked(u, group), selected, true, already.value);
  }

  /**
   * `_satisfying_candidate`: the first alternative in order of preference that is already selected, if there is one,
   * else the first with a name that is not selected; none exactly when every alternative is shut out by another
   * version of its name. It fails exactly when it meets an invalid version before it finds one.
   */
  method SatisfyingCandidate(u: Universe, selected: Selection, group: Group)
    returns (r: Result<Option<Package>, LockError>)
    requires ValidUniverse(u)
    ensures r.Ok? ==> r.value == Pick(u, selected, group)
    ensures r.Err? <==> PickFails(u, selected, group)
    ensures r.Err? ==> BlamesGroup(u, group, r.error)
    ensures r.Ok? && r.value.Some? ==>
              || IsFirst(Ranked(u, group), selected, true, r.value.value)
              || (NoneAdmissible(Ranked(u, group), selected, true)
                  && IsFirst(Ranked(u, group), selected, false, r.value.value))
    ensures r.Ok? && r.value.Some? ==>
              && Alternative(u, group, r.value.value)
              && (Chosen(selected, r.value.value) || r.value.value.name !in selected)
    ensures r.Ok? && r.value.None? ==> forall p :: Alternative(u, group, p) ==>
              p.name in selected && selected[p.name] != p
  {
    hide *;
    r := FirstCandidate(u, selected, group, true);
    PickFacts(u, selected, group);
    if r.Err? || r.value.Some? {
      return;
    }
    r := FirstCandidate(u, selected, group, false);
  }

  /** What both searches say together. */
  lemma PickFacts(u: Universe, selected: Selection, group: Group)
    requires ValidUniverse(u)
    ensures var list := Ranked(u, group);
            && (forall p :: IsFirst(list, selected, true, p) ==>
                  && Pick(u, selected, group) == Some(p) && Alternative(u, group, p) && Chosen(selected, p)
                  && !NoneAdmissible(list, selected, true))
            && (NoneAdmissible(list, selected, true) ==>
                  forall p :: IsFirst(list, selected, false, p) ==>
                    Pick(u, selected, group) == Some(p) && Alternative(u, group, p) && p.name !in selected)
            && (NoneAdmissible(list, selected, true) && NoneAdmissible(list, selected, false) ==>
                  && Pick(u, selected, group) == None
                  && forall p :: Alternative(u, group, p) ==> p.name in selected && selected[p.name] != p)
            && (PickFails(u, selected, group) <==>
                  || SearchFails(u, selected, group, true)
                  || (NoneAdmissible(list, selected, true) && SearchFails(u, selected, group, false)))
  {
    hide ValidUniverse, Satisfies, InUniverse, FirstAdmissible, SearchFails;
    RankedAlternatives(u, group, |group|);
    hide RankedUpTo;
    var list := Ranked(u, group);
    FirstIsFirst(list, selected, true);
    FirstIsFirst(list, selected, false);
    forall p | NoneAdmissible(list, selected, true) && NoneAdmissible(list, selected, false) && Alternative(u, group, p)
      ensures p.name in selected && selected[p.name] != p
    {
      assert p in list;
      assert !Admissible(selected, p, true) && !Admissible(selected, p, false);
    }
    assert forall p :: p in list ==> Alternative(u, group, p);
  }

  // ---- The worklist ----

  /** The error means that some group of a package can no longer be satisfied without replacing a selection. */
  ghost predicate Stuck(u: Universe, selected: Selection, p: Package, group: Group) {
    && group in Groups(p)
    && forall q :: Alternative(u, group, q) ==> q.name in selected && selected[q.name] != q
  }

  lemma SatisfyStep(u: Universe, s: State, p: Package, i: nat, q: Package, roots: set<string>)
    requires Coherent(u, s) && Grounded(s.selected, s.edges, roots)
    requires Chosen(s.selected, p) && i < |Groups(p)|
    requires Alternative(u, Groups(p)[i], q) && (Chosen(s.selected, q) || q.name !in s.selected)
    ensures p.name in Selected(s, q).edges
    ensures var s' := Linked(Selected(s, q), p.name, q.name);
            && Coherent(u, s') && Progress(s, s') && Grounded(s'.selected, s'.edges, roots)
            && GroupSatisfied(s'.selected, s'.edges, p, Groups(p)[i])
  {
    hide Satisfies, InUniverse, QueueSelected, WellSelected, Grounded, EdgeJustified, Groups;
    var s1 := Selected(s, q);
    SelectedCoherent(u, s, q);
    assert Chosen(s1.selected, q) && Chosen(s1.selected, p);
    assert MeetsGroup(s1.selected, q.name, Groups(p)[i]);
    LinkedCoherent(u, s1, p, i, q.name);
    var s' := Linked(s1, p.name, q.name);
    ProgressTransitive(s, s1, s');
    assert s'.selected == s1.selected && s1.selected.Keys == s.selected.Keys + {q.name};
    assert p.name in s1.edges && s1.edges.Keys == s1.selected.Keys;
    GroundedStep(s.selected, s.edges, s'.selected, s'.edges, roots, p.name, q.name);
  }

  /** The closure after a group of the package was satisfied by the picked candidate. */
  function GroupDone(s: State, p: Package, picked: Option<Package>): State {
    if picked.None? || p.name !in s.edges then s
    else Linked(Selected(s, picked.value), p.name, picked.value.name)
  }

  /** The closure after the first n groups of the package. */
  function GroupsDone(u: Universe, s: State, p: Package, n: nat): State
    requires n <= |Groups(p)|
  {
    if n == 0 then s
    else
      var before := GroupsDone(u, s, p, n - 1);
      GroupDone(before, p, Pick(u, before.selected, Groups(p)[n - 1]))
  }

  /** No candidate can be picked for the group. */
  ghost predicate GroupStops(u: Universe, selected: Selection, group: Group) {
    PickFails(u, selected, group) || Pick(u, selected, group).None?
  }

  /** What the error says: an invalid version that was met, or the group that nothing can satisfy any more. */
  ghost predicate GroupError(u: Universe, selected: Selection, p: Package, group: Group, e: LockError) {
    if PickFails(u, selected, group) then BlamesGroup(u, group, e)
    else && e == Unsatisfiable(p.name, group) && Pick(u, selected, group).None?
         && Stuck(u, selected, p, group)
  }

  /** The first i groups are satisfied, one after the other. */
  ghost predicate GroupsPass(u: Universe, s: State, p: Package, i: nat) {
    i <= |Groups(p)| && forall j :: 0 <= j < i ==> !GroupStops(u, GroupsDone(u, s, p, j).selected, Groups(p)[j])
  }

  /** Satisfying the groups of a package stops at the i-th. */
  ghost predicate StopsAtGroup(u: Universe, s: State, p: Package, i: nat, e: LockError) {
    && i < |Groups(p)| && GroupsPass(u, s, p, i)
    && GroupError(u, GroupsDone(u, s, p, i).selected, p, Groups(p)[i], e)
  }

  /** One dependency group of a selected package; a conflict is impossible here. */
  method SatisfyGroup(u: Universe, closure: Closure, package: Package, i: nat, ghost roots: set<string>)
    returns (e: Option<LockError>)
    requires ValidUniverse(u) && Coherent(u, closure.Now()) && Grounded(closure.selected, closure.edges, roots)
    requires Chosen(closure.selected, package) && i < |Groups(package)|
    modifies closure
    ensures e.Some? <==> GroupStops(u, old(closure.selected), Groups(package)[i])
    ensures e.Some? ==> GroupError(u, old(closure.selected), package, Groups(package)[i], e.value)
    ensures closure.Now() == if e.Some? then old(closure.Now())
                             else GroupDone(old(closure.Now()), package,
                                            Pick(u, old(closure.selected), Groups(package)[i]))
    ensures e.None? ==> && Coherent(u, closure.Now()) && Grounded(closure.selected, closure.edges, roots)
                        && Progress(old(closure.Now()), closure.Now())
                        && Chosen(closure.selected, package)
                        && GroupSatisfied(closure.selected, closure.edges, package, Groups(package)[i])
  {
    hide ValidUniverse, Coherent, Grounded, Progress, GroupSatisfied, Satisfies, Alternative, Pick, PickFails,
      BlamesGroup;
    var group := Groups(package)[i];
    var found := SatisfyingCandidate(u, closure.selected, group);
    if found.Err? {
      return Some(found.error);
    }
    if found.value.None? {
      return Some(Unsatisfiable(package.name, group));
    }
    var satisfied := found.value.value;
    SatisfyStep(u, closure.Now(), package, i, satisfied, roots);
    EdgesOfSelected(u, closure.Now(), package);
    e := closure.Select(satisfied, RequiredBy(package.name, package.version));
    assert e.None?;
    if satisfied.name != package.name {
      closure.edges := closure.edges[package.name := closure.edges[package.name] + {satisfied.name}];
    }
  }

  lemma EdgesOfSelected(u: Universe, s: State, p: Package)
    requires Coherent(u, s) && Chosen(s.selected, p)
    ensures p.name in s.edges
  {
  }

  lemma GroundedStep(s: Selection, e: Edges, s': Selection, e': Edges, roots: set<string>, from: string, to: string)
    requires Grounded(s, e, roots) && Grows(s, e, s', e')
    requires s'.Keys == s.Keys + {to} && from in s && from in e'
    requires from == to || to in e'[from]
    ensures Grounded(s', e', roots)
  {
    forall name | name in s' ensures Reachable(e', roots, name) {
      if name in s {
        ReachableKept(s, e, s', e', roots, name);
      } else {
        ReachableKept(s, e, s', e', roots, from);
        ReachableStep(e', roots, from, to);
      }
    }
  }

  /** All groups of a package taken from the queue. */
  method SatisfyPackage(u: Universe, closure: Closure, package: Package, ghost roots: set<string>)
    returns (e: Option<LockError>, ghost done: nat)
    requires ValidUniverse(u) && Coherent(u, closure.Now()) && Grounded(closure.selected, closure.edges, roots)
    requires Chosen(closure.selected, package)
    modifies closure
    ensures done <= |Groups(package)| && closure.Now() == GroupsDone(u, old(closure.Now()), package, done)
    ensures e.Some? ==> StopsAtGroup(u, old(closure.Now()), package, done, e.value)
    ensures e.None? ==> done == |Groups(package)| && GroupsPass(u, old(closure.Now()), package, done)
    ensures Coherent(u, closure.Now()) && Grounded(closure.selected, closure.edges, roots)
    ensures Progress(old(closure.Now()), closure.Now()) && Chosen(closure.selected, package)
    ensures e.None? ==> AllSatisfied(closure.selected, closure.edges, package)
  {
    hide *;
    ProgressReflexive(closure.Now());
    GroupsStart(u, closure.Now(), package);
    NowIs(closure);
    done := 0;
    for i := 0 to |Groups(package)|
      invariant Coherent(u, closure.Now()) && Grounded(closure.selected, closure.edges, roots)
      invariant Progress(old(closure.Now()), closure.Now()) && Chosen(closure.selected, package)
      invariant SatisfiedUpTo(closure.selected, closure.edges, package, i)
      invariant done == i && closure.Now() == GroupsDone(u, old(closure.Now()), package, i)
      invariant GroupsPass(u, old(closure.Now()), package, i)
    {
      hide *;
      ghost var before := closure.Now();
      NowIs(closure);
      GroupsStep(u, old(closure.Now()), package, i);
      e := SatisfyGroup(u, closure, package, i, roots);
      NowIs(closure);
      if e.Some? {
        StopsHere(u, old(closure.Now()), package, i, e.value);
        return;
      }
      done := i + 1;
      ProgressTransitive(old(closure.Now()), before, closure.Now());
      ProgressGrows(before, closure.Now());
      SatisfiedUpToKept(before.selected, before.edges, closure.selected, closure.edges, package, i);
      SatisfiedNext(closure.selected, closure.edges, package, i);
    }
    SatisfiedAll(closure.selected, closure.edges, package);
    return None, done;
  }

  lemma NowIs(closure: Closure)
    ensures closure.Now() == State(closure.selected, closure.edges, closure.queue)
  {
  }

  lemma GroupsStart(u: Universe, s: State, p: Package)
    ensures GroupsDone(u, s, p, 0) == s && GroupsPass(u, s, p, 0) && SatisfiedUpTo(s.selected, s.edges, p, 0)
  {
  }

  lemma GroupsStep(u: Universe, s: State, p: Package, i: nat)
    requires i < |Groups(p)|
    ensures var now := GroupsDone(u, s, p, i);
            GroupsDone(u, s, p, i + 1) == GroupDone(now, p, Pick(u, now.selected, Groups(p)[i]))
    ensures GroupsPass(u, s, p, i) && !GroupStops(u, GroupsDone(u, s, p, i).selected, Groups(p)[i])
            ==> GroupsPass(u, s, p, i + 1)
  {
    hide GroupStops, Groups;
  }

  lemma StopsHere(u: Universe, s: State, p: Package, i: nat, e: LockError)
    requires i < |Groups(p)| && GroupsPass(u, s, p, i)
    requires GroupError(u, GroupsDone(u, s, p, i).selected, p, Groups(p)[i], e)
    ensures StopsAtGroup(u, s, p, i, e)
  {
    hide GroupsPass, GroupError, GroupsDone;
  }

  lemma SatisfiedNext(selected: Selection, edges: Edges, p: Package, i: nat)
    requires SatisfiedUpTo(selected, edges, p, i) && i < |Groups(p)|
    requires GroupSatisfied(selected, edges, p, Groups(p)[i])
    ensures SatisfiedUpTo(selected, edges, p, i + 1)
  {
    hide GroupSatisfied, Groups;
  }

  lemma SatisfiedAll(selected: Selection, edges: Edges, p: Package)
    requires SatisfiedUpTo(selected, edges, p, |Groups(p)|)
    ensures AllSatisfied(selected, edges, p)
  {
  }

  /** Every selected package that left the queue, other than the one at hand, has all its groups satisfied. */
  ghost predicate Settled(s: State, except: Option<Package>) {
    forall name :: name in s.selected && s.selected[name] !in s.queue && Some(s.selected[name]) != except ==>
      AllSatisfied(s.selected, s.edges, s.selected[name])
  }

  lemma SettledStep(s: State, s': State, p: Package)
    requires Settled(s, Some(p)) && Progress(s, s') && AllSatisfied(s'.selected, s'.edges, p)
    ensures Settled(s', None)
  {
    forall name | name in s'.selected && s'.selected[name] !in s'.queue
      ensures AllSatisfied(s'.selected, s'.edges, s'.selected[name])
    {
      if name in s.selected && s.selected[name] != p {
        assert s.selected[name] !in s.queue;
        SatisfiedUpToKept(s.selected, s.edges, s'.selected, s'.edges, s.selected[name], |Groups(s.selected[name])|);
      }
    }
  }

  function Dequeued(s: State): State
    requires s.queue != []
  {
    s.(queue := s.queue[1..])
  }

  lemma DequeuedCoherent(u: Universe, s: State)
    requires Coherent(u, s) && s.queue != [] && Settled(s, None)
    ensures Coherent(u, Dequeued(s)) && Settled(Dequeued(s), Some(s.queue[0]))
    ensures Chosen(s.selected, s.queue[0])
  {
    assert s.queue == [s.queue[0]] + s.queue[1..];
    assert forall p :: p in s.queue ==> p == s.queue[0] || p in s.queue[1..];
  }

  /** The names that are still free to be selected. */
  function Free(u: Universe, selected: Selection): set<string> {
    u.packages.Keys - selected.Keys
  }

  lemma FreeShrinks(u: Universe, s: State, s': State)
    requires Coherent(u, s') && Progress(s, s')
    ensures Free(u, s'.selected) <= Free(u, s.selected)
    ensures |s.queue| < |s'.queue| ==> Free(u, s'.selected) < Free(u, s.selected)
  {
    if |s.queue| < |s'.queue| {
      var name :| name in s'.selected && name !in s.selected;
      assert Has(u.packages, name, s'.selected[name]);
      assert name in Free(u, s.selected) && name !in Free(u, s'.selected);
    }
  }

  /** Every group of every selected package is satisfied by itself or along an edge. */
  ghost predicate Closed(selected: Selection, edges: Edges) {
    forall name :: name in selected ==> AllSatisfied(selected, edges, selected[name])
  }

  /** What the resolver promises about a lock. */
  ghost predicate GoodLock(u: Universe, requested: seq<string>, selected: Selection, edges: Edges)
    requires ValidUniverse(u)
  {
    && WellSelected(u, selected) && EdgesJustified(selected, edges)
    && Closed(selected, edges)
    && RequestedUpTo(u, selected, requested, |requested|)
    && (forall name :: name in BootstrapNames(u) ==> name in selected && Newest(u, name) == Some(selected[name]))
    && exists roots :: && (forall name :: name in roots ==> IsRoot(u, requested, selected, name))
                       && Grounded(selected, edges, roots)
  }

  /** The bootstrap and requested packages: coherent, all queued, and their names are the roots. */
  ghost predicate Rooted(u: Universe, requested: seq<string>, s: State)
    requires ValidUniverse(u)
  {
    && Coherent(u, s) && OnlyRoots(u, requested, s)
    && RequestedUpTo(u, s.selected, requested, |requested|)
    && (forall name :: name in BootstrapNames(u) ==> name in s.selected && Newest(u, name) == Some(s.selected[name]))
  }

  method SelectRoots(u: Universe, requested: seq<string>, closure: Closure) returns (e: Option<LockError>)
    requires ValidUniverse(u) && closure.Now() == State(map[], map[], [])
    modifies closure
    ensures e.Some? ==> RequestError(u, requested, e.value)
    ensures e.None? ==> RequestAccepted(u, requested) && closure.Now() == RequestState(u, requested, |requested|)
    ensures e.None? ==> Rooted(u, requested, closure.Now())
  {
    hide *;
    SelectBootstrap(u, closure);
    NowIs(closure);
    ghost var before := closure.Now();
    BootstrapRoots(u, requested, before);
    e := SelectRequested(u, requested, closure);
    NowIs(closure);
    if e.None? {
      RequestedRoots(u, requested, before, closure.Now());
    }
  }

  lemma BootstrapRoots(u: Universe, requested: seq<string>, s: State)
    requires ValidUniverse(u) && Bootstrapped(u, s, BootstrapNames(u))
    ensures Coherent(u, s) && OnlyRoots(u, requested, s)
  {
    hide ValidUniverse, Coherent, BootstrapNames, Satisfies;
  }

  lemma RequestedRoots(u: Universe, requested: seq<string>, before: State, s: State)
    requires ValidUniverse(u) && Bootstrapped(u, before, BootstrapNames(u)) && Progress(before, s)
    requires Coherent(u, s) && OnlyRoots(u, requested, s) && RequestedUpTo(u, s.selected, requested, |requested|)
    ensures Rooted(u, requested, s)
  {
    hide ValidUniverse, Coherent, OnlyRoots, RequestedUpTo, BootstrapNames;
  }

  lemma RootsGround(u: Universe, requested: seq<string>, s: State)
    requires ValidUniverse(u) && Rooted(u, requested, s)
    ensures Settled(s, None) && Grounded(s.selected, s.edges, s.selected.Keys)
  {
    hide ValidUniverse, Coherent, RequestedUpTo, IsRoot, AllSatisfied, Reachable, BootstrapNames;
    forall name | name in s.selected ensures Reachable(s.edges, s.selected.Keys, name) {
      ReachableRoot(s.edges, s.selected.Keys, name);
    }
  }

  lemma LockComplete(u: Universe, requested: seq<string>, s: State, s': State)
    requires ValidUniverse(u) && Rooted(u, requested, s)
    requires Grows(s.selected, s.edges, s'.selected, s'.edges)
    requires Coherent(u, s') && s'.queue == [] && Settled(s', None)
    requires Grounded(s'.selected, s'.edges, s.selected.Keys)
    ensures GoodLock(u, requested, s'.selected, s'.edges)
  {
    hide WellSelected, EdgesJustified, QueueSelected, Settled, Closed, Satisfies, RequestedUpTo, ValidUniverse,
      InUniverse, Reachable, IsBootstrap;
    RequestedKept(u, requested, s.selected, s'.selected);
    ClosedAtEnd(s');
    forall name | name in s.selected.Keys ensures IsRoot(u, requested, s'.selected, name) {
      assert IsRoot(u, requested, s.selected, name);
    }
  }

  lemma ClosedAtEnd(s: State)
    requires Settled(s, None) && s.queue == []
    ensures Closed(s.selected, s.edges)
  {
    hide AllSatisfied;
  }

  lemma RequestedKept(u: Universe, requested: seq<string>, s: Selection, s': Selection)
    requires RequestedUpTo(u, s, requested, |requested|)
    requires forall name :: name in s ==> name in s' && s'[name] == s[name]
    ensures RequestedUpTo(u, s', requested, |requested|)
  {
    forall i | 0 <= i < |requested| ensures Requested(u, s', requested[i]) {
      assert Requested(u, s, requested[i]);
      var to :| to in s && Satisfies(s[to], Unversioned(requested[i]));
      assert to in s' && Satisfies(s'[to], Unversioned(requested[i]));
    }
  }

  /** What the worklist keeps from the roots on. */
  ghost predicate WorklistInvariant(u: Universe, start: State, s: State) {
    && Coherent(u, s) && Settled(s, None)
    && Grows(start.selected, start.edges, s.selected, s.edges)
    && Grounded(s.selected, s.edges, start.selected.Keys)
  }

  lemma WorklistStep(u: Universe, start: State, s: State, s': State)
    requires WorklistInvariant(u, start, s) && s.queue != []
    requires Coherent(u, s') && Grounded(s'.selected, s'.edges, start.selected.Keys)
    requires Progress(Dequeued(s), s') && AllSatisfied(s'.selected, s'.edges, s.queue[0])
    ensures WorklistInvariant(u, start, s')
    ensures Free(u, s'.selected) <= Free(u, s.selected)
    ensures |s.queue| <= |s'.queue| ==> Free(u, s'.selected) < Free(u, s.selected)
  {
    hide WellSelected, EdgesJustified, QueueSelected, Grounded, AllSatisfied;
    var before := Dequeued(s);
    DequeuedCoherent(u, s);
    SettledStep(before, s', s.queue[0]);
    FreeShrinks(u, before, s');
    GrowsTransitive(start.selected, start.edges, before.selected, before.edges, s'.selected, s'.edges);
  }

  // ---- Runs ----

  /** Some group of the next package in the queue cannot be satisfied. */
  ghost predicate TurnStops(u: Universe, s: State)
    requires s.queue != []
  {
    !GroupsPass(u, Dequeued(s), s.queue[0], |Groups(s.queue[0])|)
  }

  /** The closure after the next package in the queue. */
  function Turn(u: Universe, s: State): State
    requires s.queue != []
  {
    GroupsDone(u, Dequeued(s), s.queue[0], |Groups(s.queue[0])|)
  }

  ghost predicate TurnsInto(u: Universe, s: State, s': State) {
    s.queue != [] && !TurnStops(u, s) && s' == Turn(u, s)
  }

  /** The closures of a run, from the roots on. */
  ghost predicate IsRun(u: Universe, start: State, run: seq<State>) {
    && run != [] && run[0] == start
    && forall i :: 0 <= i < |run| - 1 ==> TurnsInto(u, run[i], run[i + 1])
  }

  function Last(run: seq<State>): State
    requires run != []
  {
    run[|run| - 1]
  }

  /** A run that leaves nothing to do. */
  ghost predicate Finished(u: Universe, start: State, run: seq<State>) {
    IsRun(u, start, run) && Last(run).queue == []
  }

  /** The run comes to a package of which a group cannot be satisfied, and the error says why. */
  ghost predicate StopsWith(u: Universe, start: State, run: seq<State>, e: LockError) {
    && IsRun(u, start, run) && Last(run).queue != []
    && exists i :: StopsAtGroup(u, Dequeued(Last(run)), Last(run).queue[0], i, e)
  }

  /** Of two runs from the same roots one continues the other. */
  lemma {:induction false} RunsAgree(u: Universe, start: State, a: seq<State>, b: seq<State>)
    requires IsRun(u, start, a) && IsRun(u, start, b) && |a| <= |b|
    ensures a == b[..|a|]
  {
    hide TurnsInto;
    var n := |a| - 1;
    if n > 0 {
      assert IsRun(u, start, a[..n]);
      RunsAgree(u, start, a[..n], b);
      assert a[n - 1] == a[..n][n - 1] == b[n - 1];
      assert TurnsInto(u, a[n - 1], a[n - 1 + 1]) && TurnsInto(u, b[n - 1], b[n - 1 + 1]);
      OneTurn(u, a[n - 1], a[n], b[n]);
      assert a == a[..n] + [a[n]] && b[..n + 1] == b[..n] + [b[n]];
    }
  }

  lemma OneTurn(u: Universe, s: State, s1: State, s2: State)
    requires TurnsInto(u, s, s1) && TurnsInto(u, s, s2)
    ensures s1 == s2
  {
  }

  /** The lock is determined by the universe and the request. */
  lemma LockDetermined(u: Universe, start: State, a: seq<State>, b: seq<State>)
    requires Finished(u, start, a) && Finished(u, start, b)
    ensures a == b
  {
    assert a != [] && b != [];
    hide IsRun;
    var short, long := if |a| <= |b| then a else b, if |a| <= |b| then b else a;
    RunsAgree(u, start, short, long);
    if |short| < |long| {
      assert long[|short| - 1] == Last(short);
      GoesOn(u, start, long, |short| - 1);
      assert false;
    }
    assert long[..|long|] == long;
  }

  /** A run that stops is not part of one that finishes. */
  lemma StoppedNeverFinishes(u: Universe, start: State, run: seq<State>, e: LockError, finished: seq<State>)
    requires StopsWith(u, start, run, e)
    ensures !Finished(u, start, finished)
  {
    StoppedHere(u, start, run, e);
    hide IsRun, TurnStops, StopsWith;
    if Finished(u, start, finished) {
      if |run| <= |finished| {
        RunsAgree(u, start, run, finished);
        assert finished[|run| - 1] == Last(run);
        GoesOn(u, start, finished, |run| - 1);
      } else {
        RunsAgree(u, start, finished, run);
        assert run[|finished| - 1] == Last(finished);
        GoesOn(u, start, run, |finished| - 1);
      }
      assert false;
    }
  }

  lemma StoppedHere(u: Universe, start: State, run: seq<State>, e: LockError)
    requires StopsWith(u, start, run, e)
    ensures IsRun(u, start, run) && run != [] && Last(run).queue != [] && TurnStops(u, Last(run))
  {
    hide StopsAtGroup, TurnStops, TurnsInto;
    var s := Last(run);
    var k :| StopsAtGroup(u, Dequeued(s), s.queue[0], k, e);
    StoppedTurn(u, s, k, e);
  }

  lemma GoesOn(u: Universe, start: State, run: seq<State>, i: nat)
    requires IsRun(u, start, run) && i < |run|
    ensures i < |run| - 1 ==> run[i].queue != [] && !TurnStops(u, run[i])
  {
    hide TurnStops, Turn;
    assert i < |run| - 1 ==> TurnsInto(u, run[i], run[i + 1]);
  }

  lemma StoppedTurn(u: Universe, s: State, i: nat, e: LockError)
    requires s.queue != [] && StopsAtGroup(u, Dequeued(s), s.queue[0], i, e)
    ensures TurnStops(u, s)
  {
    hide PickFails, BlamesGroup, Stuck, Pick, GroupsDone;
    assert GroupStops(u, GroupsDone(u, Dequeued(s), s.queue[0], i).selected, Groups(s.queue[0])[i]);
  }

  lemma RunGrows(u: Universe, start: State, run: seq<State>, s: State)
    requires IsRun(u, start, run) && TurnsInto(u, Last(run), s)
    ensures IsRun(u, start, run + [s]) && Last(run + [s]) == s
  {
    hide TurnsInto;
    var longer := run + [s];
    forall i | 0 <= i < |longer| - 1 ensures TurnsInto(u, longer[i], longer[i + 1]) {
      if i < |run| - 1 {
        assert TurnsInto(u, run[i], run[i + 1]);
      }
    }
  }

  /** One turn of the worklist: takes a package from the queue and satisfies all its groups. */
  method ProcessNext(u: Universe, closure: Closure, ghost start: State) returns (e: Option<LockError>)
    requires ValidUniverse(u) && WorklistInvariant(u, start, closure.Now()) && closure.queue != []
    modifies closure
    ensures e.Some? ==>
              exists i :: StopsAtGroup(u, Dequeued(old(closure.Now())), old(closure.queue)[0], i, e.value)
    ensures e.None? ==> TurnsInto(u, old(closure.Now()), closure.Now())
    ensures e.None? ==> && WorklistInvariant(u, start, closure.Now())
                        && Free(u, closure.selected) <= old(Free(u, closure.selected))
                        && (|old(closure.queue)| <= |closure.queue| ==>
                              Free(u, closure.selected) < old(Free(u, closure.selected)))
  {
    hide ValidUniverse, WellSelected, EdgesJustified, QueueSelected, Grounded, AllSatisfied, Progress, Settled, Free,
      StopsAtGroup, GroupsPass, GroupsDone;
    ghost var s := closure.Now();
    DequeuedCoherent(u, s);
    var package := closure.queue[0];
    closure.queue := closure.queue[1..];
    assert closure.Now() == Dequeued(s);
    ghost var done: nat;
    e, done := SatisfyPackage(u, closure, package, start.selected.Keys);
    if e.None? {
      WorklistStep(u, start, s, closure.Now());
    }
  }

  /** A request that is accepted, from the roots of which a run finishes. */
  ghost predicate Resolvable(u: Universe, requested: seq<string>) {
    RequestAccepted(u, requested) && exists run :: Finished(u, Roots(u, requested), run)
  }

  function Roots(u: Universe, requested: seq<string>): State {
    RequestState(u, requested, |requested|)
  }

  /**
   * `resolve`: terminates; it succeeds exactly when the request is accepted and the run from its roots finishes, and
   * the lock is what that run ends with: closed, grounded in its roots, never replacing a choice. Otherwise the error
   * names the requested package that is ambiguous or contradicts a selection, or exactly the names that nothing
   * satisfies, or the first group of the run for which no candidate can be picked, because all alternatives are shut
   * out by other versions of selected names or because of an invalid version.
   */
  method Resolve(u: Universe, requested: seq<string>)
    returns (r: Result<(Selection, Edges), LockError>, ghost run: seq<State>)
    requires ValidUniverse(u)
    ensures r.Ok? <==> Resolvable(u, requested)
    ensures r.Ok? ==> && GoodLock(u, requested, r.value.0, r.value.1)
                      && Finished(u, Roots(u, requested), run) && r.value == (Last(run).selected, Last(run).edges)
    ensures r.Err? ==> if RequestAccepted(u, requested) then StopsWith(u, Roots(u, requested), run, r.error)
                       else RequestError(u, requested, r.error)
  {
    hide ValidUniverse, WellSelected, EdgesJustified, QueueSelected, Grounded, Settled, Rooted, GoodLock,
      RequestError, RequestAccepted, Roots, IsRun, StopsWith, Finished;
    var closure := new Closure();
    var e := SelectRoots(u, requested, closure);
    run := [closure.Now()];
    if e.Some? {
      RefusedOrAccepted(u, requested, e.value);
      return Err(e.value), run;
    }
    ghost var start := closure.Now();
    RootsInvariant(u, requested, start);
    RunStarts(u, requested, start);
    while closure.queue != []
      invariant WorklistInvariant(u, start, closure.Now()) && Rooted(u, requested, start)
      invariant IsRun(u, start, run) && run != [] && Last(run) == closure.Now()
      decreases Free(u, closure.selected), |closure.queue|
    {
      hide ValidUniverse, WorklistInvariant, GoodLock, Rooted, IsRun, StopsWith, TurnsInto, StopsAtGroup;
      e := ProcessNext(u, closure, start);
      if e.Some? {
        RunStops(u, start, run, e.value);
        return Err(e.value), run;
      }
      RunGrows(u, start, run, closure.Now());
      run := run + [closure.Now()];
    }
    RunEnds(u, start, run);
    LockComplete(u, requested, start, closure.Now());
    return Ok((closure.selected, closure.edges)), run;
  }

  lemma RunStarts(u: Universe, requested: seq<string>, s: State)
    requires s == RequestState(u, requested, |requested|)
    ensures s == Roots(u, requested) && IsRun(u, s, [s])
  {
    hide RequestState;
  }

  lemma RunStops(u: Universe, start: State, run: seq<State>, e: LockError)
    requires IsRun(u, start, run) && Last(run).queue != []
    requires exists i :: StopsAtGroup(u, Dequeued(Last(run)), Last(run).queue[0], i, e)
    ensures StopsWith(u, start, run, e) && forall finished :: !Finished(u, start, finished)
  {
    hide StopsAtGroup, TurnsInto;
    assert StopsWith(u, start, run, e);
    forall finished ensures !Finished(u, start, finished) {
      hide StopsWith, Finished;
      StoppedNeverFinishes(u, start, run, e, finished);
    }
  }

  lemma RunEnds(u: Universe, start: State, run: seq<State>)
    requires IsRun(u, start, run) && Last(run).queue == []
    ensures Finished(u, start, run)
  {
  }

  lemma RootsInvariant(u: Universe, requested: seq<string>, s: State)
    requires ValidUniverse(u) && Rooted(u, requested, s)
    ensures WorklistInvariant(u, s, s)
  {
    hide ValidUniverse, WellSelected, EdgesJustified, QueueSelected;
    RootsGround(u, requested, s);
  }
}
