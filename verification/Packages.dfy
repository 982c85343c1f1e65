/**
 * The installable view of a Debian snapshot (mkosi/debian/generate_lock.py): packages by name, newest first, and the
 * packages that provide each name.
 */
module Packages {
  import opened Prelude
  import opened Sorting
  import opened Versions

  datatype Relation = Relation(name: string, arch: Option<string>, constraint: Option<(Operator, string)>)

  /** Alternatives of one dependency. */
  type Group = seq<Relation>

  datatype Provide = Provide(name: string, version: Option<string>)

  datatype Package = Package(
    name: string,
    version: string,
    architecture: string,
    component: string,
    /** The file name, size and digest. */
    record: string,
    multiArch: string,
    essential: bool,
    priority: string,
    preDepends: seq<Group>,
    depends: seq<Group>,
    offers: seq<Provide>)

  datatype Reason = BootstrapSet | Specification | RequiredBy(name: string, version: string)

  datatype LockError =
    | BadVersion(error: VersionError)
    | ConflictingDuplicate(name: string)
    | Conflict(reason: Reason, wanted: Package, current: Package)
    | SeveralProviders(name: string)
    | MissingPackages(names: seq<string>)
    | Unsatisfiable(name: string, group: Group)

  type Provider = (Package, Option<string>)

  datatype Universe = Universe(
    names: seq<string>,
    packages: map<string, seq<Package>>,
    providers: map<string, seq<Provider>>)

  predicate InUniverse(u: Universe, p: Package) {
    Has(u.packages, p.name, p)
  }

  // ---- Newest first ----

  predicate NoOlder(a: Package, b: Package) {
    ValidVersion(a.version) && ValidVersion(b.version) && VersionOrder(a.version, b.version) >= 0
  }

  lemma NoOlderOrders(s: multiset<Package>)
    requires forall p :: p in s ==> ValidVersion(p.version)
    ensures OrderOn(s, NoOlder)
  {
    forall x, y | x in s && y in s ensures NoOlder(x, y) || NoOlder(y, x) {
      VersionOrderAntisymmetric(x.version, y.version);
    }
    forall x, y, z | x in s && y in s && z in s && NoOlder(x, y) && NoOlder(y, z) ensures NoOlder(x, z) {
      VersionOrderAntisymmetric(x.version, y.version);
      VersionOrderAntisymmetric(y.version, z.version);
      VersionOrderAntisymmetric(x.version, z.version);
      VersionOrderTransitive(z.version, y.version, x.version);
    }
  }

  /** The error is the one that splitting this version reports. */
  predicate Blames(e: LockError, version: string) {
    e.BadVersion? && SplitVersion(version) == Err(e.error)
  }

  /** Sorting two or more candidates compares each of them, so it needs valid versions. */
  method SortNewestFirst(list: seq<Package>) returns (r: Result<seq<Package>, LockError>)
    ensures r.Ok? <==> |list| <= 1 || forall p :: p in list ==> ValidVersion(p.version)
    ensures r.Ok? ==> Sorted(r.value, NoOlder) && multiset(r.value) == multiset(list)
    ensures r.Err? ==> exists p :: p in list && Blames(r.error, p.version)
  {
    if |list| <= 1 {
      return Ok(list);
    }
    for i := 0 to |list|
      invariant forall k :: 0 <= k < i ==> ValidVersion(list[k].version)
    {
      var split := SplitVersion(list[i].version);
      if split.Err? {
        assert Blames(BadVersion(split.error), list[i].version);
        return Err(BadVersion(split.error));
      }
    }
    assert forall p :: p in multiset(list) ==> p in list;
    NoOlderOrders(multiset(list));
    SortSorts(list, NoOlder);
    SortPermutes(list, NoOlder);
    return Ok(Sort(list, NoOlder));
  }

  // ---- Building the index ----

  function FindIdentity(list: seq<Package>, p: Package): (r: Option<Package>)
    ensures r.Some? ==> r.value in list && r.value.version == p.version && r.value.architecture == p.architecture
    ensures r.None? ==> forall q :: q in list ==> q.version != p.version || q.architecture != p.architecture
  {
    if list == [] then None
    else if list[0].version == p.version && list[0].architecture == p.architecture then Some(list[0])
    else
      var r := FindIdentity(list[1..], p);
      assert forall q :: q in list ==> q == list[0] || q in list[1..];
      r
  }

  predicate SameRecord(p: Package, q: Package) {
    p == q.(component := p.component)
  }

  /** The key that records of one name are told apart by. */
  predicate SameIdentity(p: Package, q: Package) {
    p.version == q.version && p.architecture == q.architecture
  }

  /** Two records of one package version that differ in more than their component. */
  predicate Clash(p: Package, q: Package) {
    p.name == q.name && SameIdentity(p, q) && !SameRecord(p, q)
  }

  ghost predicate HasClash(packages: seq<Package>) {
    exists p, q :: p in packages && q in packages && Clash(p, q)
  }

  ghost predicate DistinctIdentities(list: seq<Package>) {
    forall i, j :: 0 <= i < j < |list| ==> !SameIdentity(list[i], list[j])
  }

  predicate Has(byName: map<string, seq<Package>>, name: string, p: Package) {
    name in byName && p in byName[name]
  }

  ghost predicate Covered(byName: map<string, seq<Package>>, q: Package) {
    exists p :: Has(byName, q.name, p) && SameRecord(p, q)
  }

  ghost predicate Listed(packages: seq<Package>, byName: map<string, seq<Package>>) {
    && (forall name, p :: Has(byName, name, p) ==> p.name == name && p in packages)
    && (forall name :: name in byName ==> byName[name] != [])
    && (forall q :: q in packages ==> Covered(byName, q))
    && (forall name :: name in byName ==> DistinctIdentities(byName[name]))
  }

  /** One record per identity for every name is left only when no two records clash. */
  lemma ListedWithoutClash(packages: seq<Package>, byName: map<string, seq<Package>>)
    requires Listed(packages, byName)
    ensures !HasClash(packages)
  {
    hide SameRecord, SameIdentity, Listed;
    forall p, q | p in packages && q in packages && p.name == q.name && SameIdentity(p, q) ensures SameRecord(p, q) {
      OneRecord(packages, byName, p, q);
    }
  }

  lemma OneRecord(packages: seq<Package>, byName: map<string, seq<Package>>, p: Package, q: Package)
    requires Listed(packages, byName) && p in packages && q in packages && p.name == q.name && SameIdentity(p, q)
    ensures SameRecord(p, q)
  {
    hide SameRecord, SameIdentity;
    assert Covered(byName, p) && Covered(byName, q);
    var x :| Has(byName, p.name, x) && SameRecord(x, p);
    var y :| Has(byName, q.name, y) && SameRecord(y, q);
    RecordsAgree(x, p, y, q);
    IdentityUnique(byName[p.name], x, y);
  }

  lemma IdentityUnique(list: seq<Package>, x: Package, y: Package)
    requires DistinctIdentities(list) && x in list && y in list && SameIdentity(x, y)
    ensures x == y
  {
    var i :| 0 <= i < |list| && list[i] == x;
    var j :| 0 <= j < |list| && list[j] == y;
  }

  lemma RecordsAgree(x: Package, p: Package, y: Package, q: Package)
    requires SameRecord(x, p) && SameRecord(y, q) && SameIdentity(p, q)
    ensures SameIdentity(x, y) && (x == y ==> SameRecord(p, q))
  {
  }

  /** The first loop of `Universe.__init__`: one record per name, version and architecture. */
  method Index(packages: seq<Package>)
    returns (r: Result<(seq<string>, map<string, seq<Package>>), LockError>)
    ensures r.Ok? ==> && Listed(packages, r.value.1) && Distinct(r.value.0)
                      && Elements(r.value.0) == r.value.1.Keys
    ensures r.Err? <==> HasClash(packages)
    ensures r.Err? ==> r.error.ConflictingDuplicate? && ClashNamed(packages, r.error.name)
  {
    hide SameRecord, Covered;
    var byName: map<string, seq<Package>> := map[];
    var names: seq<string> := [];
    for i := 0 to |packages|
      invariant Listed(packages[..i], byName)
      invariant Distinct(names) && Elements(names) == byName.Keys
    {
      var p := packages[i];
      var added := AddRecord(packages[..i], byName, p);
      if added.Err? {
        return Err(added.error);
      }
      if p.name !in byName {
        assert p.name !in Elements(names);
        names := names + [p.name];
      }
      byName := added.value;
      assert packages[..i + 1] == packages[..i] + [p];
    }
    assert packages[..|packages|] == packages;
    ListedWithoutClash(packages, byName);
    return Ok((names, byName));
  }

  method AddRecord(ghost packages: seq<Package>, byName: map<string, seq<Package>>, p: Package)
    returns (r: Result<map<string, seq<Package>>, LockError>)
    requires Listed(packages, byName)
    ensures r.Ok? ==> Listed(packages + [p], r.value) && r.value.Keys == byName.Keys + {p.name}
    ensures r.Err? ==> r.error == ConflictingDuplicate(p.name) && exists q :: q in packages && Clash(q, p)
  {
    hide SameRecord, Listed;
    var list := if p.name in byName then byName[p.name] else [];
    var previous := FindIdentity(list, p);
    if previous.None? {
      ListedGrows(packages, byName, p);
      return Ok(byName[p.name := list + [p]]);
    }
    ListedMember(packages, byName, p.name, previous.value);
    if !SameRecord(previous.value, p) {
      assert Clash(previous.value, p);
      return Err(ConflictingDuplicate(p.name));
    }
    ListedAgain(packages, byName, p, previous.value);
    return Ok(byName);
  }

  lemma ListedMember(packages: seq<Package>, byName: map<string, seq<Package>>, name: string, q: Package)
    requires Listed(packages, byName) && Has(byName, name, q)
    ensures q in packages && q.name == name
  {
    hide Covered, DistinctIdentities;
  }

  /** A record that is listed already changes nothing. */
  lemma ListedAgain(packages: seq<Package>, byName: map<string, seq<Package>>, p: Package, q: Package)
    requires Listed(packages, byName) && Has(byName, p.name, q) && SameRecord(q, p)
    ensures Listed(packages + [p], byName)
  {
    hide SameRecord, DistinctIdentities;
    assert Covered(byName, p);
    hide Covered;
    assert forall q :: q in packages + [p] <==> q in packages || q == p;
  }

  lemma ListedGrows(packages: seq<Package>, byName: map<string, seq<Package>>, p: Package)
    requires Listed(packages, byName)
    requires p.name in byName ==> FindIdentity(byName[p.name], p).None?
    ensures var list := if p.name in byName then byName[p.name] else [];
            Listed(packages + [p], byName[p.name := list + [p]])
  {
    var list := if p.name in byName then byName[p.name] else [];
    var grown := byName[p.name := list + [p]];
    hide SameRecord;
    forall name, q | Has(grown, name, q) ensures q.name == name && q in packages + [p] {
      assert Has(byName, name, q) || (name == p.name && q == p);
    }
    CoveredGrows(packages, byName, p);
    forall i | 0 <= i < |list| ensures !SameIdentity(list[i], p) {
      assert list[i] in list;
    }
  }

  lemma CoveredGrows(packages: seq<Package>, byName: map<string, seq<Package>>, p: Package)
    requires Listed(packages, byName)
    ensures var list := if p.name in byName then byName[p.name] else [];
            forall q :: q in packages + [p] ==> Covered(byName[p.name := list + [p]], q)
  {
    var list := if p.name in byName then byName[p.name] else [];
    var grown := byName[p.name := list + [p]];
    hide SameRecord, Covered, DistinctIdentities;
    CoversItself(grown, p);
    forall q | q in packages + [p] ensures Covered(grown, q) {
      if q in packages {
        CoveredKept(byName, grown, q);
      } else {
        assert q == p;
      }
    }
  }

  lemma CoversItself(byName: map<string, seq<Package>>, p: Package)
    requires Has(byName, p.name, p)
    ensures Covered(byName, p)
  {
    assert SameRecord(p, p);
  }

  lemma CoveredKept(a: map<string, seq<Package>>, b: map<string, seq<Package>>, q: Package)
    requires Covered(a, q) && forall p :: Has(a, q.name, p) ==> Has(b, q.name, p)
    ensures Covered(b, q)
  {
    hide SameRecord;
    var p :| Has(a, q.name, p) && SameRecord(p, q);
    assert Has(b, q.name, p);
  }

  /** Sorting the records of the name has to compare the package, which has no valid version. */
  ghost predicate Unsortable(byName: map<string, seq<Package>>, name: string, p: Package) {
    Has(byName, name, p) && |byName[name]| > 1 && !ValidVersion(p.version)
  }

  /** Every listed name's candidates, newest first. */
  method SortAll(names: seq<string>, byName: map<string, seq<Package>>)
    returns (r: Result<map<string, seq<Package>>, LockError>)
    requires Elements(names) == byName.Keys
    ensures r.Ok? ==> r.value.Keys == byName.Keys
    ensures r.Ok? ==> forall name :: name in r.value ==>
              Sorted(r.value[name], NoOlder) && multiset(r.value[name]) == multiset(byName[name])
    ensures r.Err? <==> exists name, p :: Unsortable(byName, name, p)
    ensures r.Err? ==> exists name, p :: Unsortable(byName, name, p) && Blames(r.error, p.version)
  {
    var done: map<string, seq<Package>> := map[];
    for i := 0 to |names|
      invariant done.Keys == Elements(names[..i]) && done.Keys <= byName.Keys
      invariant forall name :: name in done ==>
                  Sorted(done[name], NoOlder) && multiset(done[name]) == multiset(byName[name])
      invariant forall name, p :: name in done ==> !Unsortable(byName, name, p)
    {
      assert names[i] in Elements(names);
      var ordered := SortNewestFirst(byName[names[i]]);
      if ordered.Err? {
        ghost var p :| p in byName[names[i]] && Blames(ordered.error, p.version);
        assert Unsortable(byName, names[i], p);
        return Err(ordered.error);
      }
      done := done[names[i] := ordered.value];
      assert names[..i + 1] == names[..i] + [names[i]];
    }
    assert names[..|names|] == names;
    return Ok(done);
  }

  // ---- Providers ----

  predicate Lists(providers: map<string, seq<Provider>>, name: string, p: Package, v: Option<string>) {
    name in providers && (p, v) in providers[name]
  }

  /** The providers map lists exactly the provided names of the given packages. */
  ghost predicate Provides(providers: map<string, seq<Provider>>, packages: seq<Package>) {
    forall name, p, v :: Lists(providers, name, p, v) <==>
      p in packages && Provide(name, v) in p.offers
  }

  method AddProvider(providers: map<string, seq<Provider>>, p: Package) returns (r: map<string, seq<Provider>>)
    ensures forall name, q, v :: Lists(r, name, q, v) <==>
              || Lists(providers, name, q, v)
              || (q == p && Provide(name, v) in p.offers)
  {
    r := providers;
    for i := 0 to |p.offers|
      invariant forall name, q, v :: Lists(r, name, q, v) <==>
                  || Lists(providers, name, q, v)
                  || (q == p && Provide(name, v) in p.offers[..i])
    {
      var Provide(name, version) := p.offers[i];
      var list := if name in r then r[name] else [];
      r := r[name := list + [(p, version)]];
      assert p.offers[..i + 1] == p.offers[..i] + [p.offers[i]];
    }
    assert p.offers[..|p.offers|] == p.offers;
  }

  method BuildProviders(packages: seq<Package>) returns (r: map<string, seq<Provider>>)
    ensures Provides(r, packages)
  {
    r := map[];
    for i := 0 to |packages|
      invariant Provides(r, packages[..i])
    {
      r := AddProvider(r, packages[i]);
      assert packages[..i + 1] == packages[..i] + [packages[i]];
    }
    assert packages[..|packages|] == packages;
  }

  function Rank(priority: string): nat {
    if priority == "required" then 0
    else if priority == "important" then 1
    else if priority == "standard" then 2
    else if priority == "optional" then 3
    else if priority == "extra" then 4
    else 5
  }

  /** By priority, then by name. */
  predicate Preferred(a: Package, b: Package) {
    var x, y := Rank(a.priority), Rank(b.priority);
    x < y || (x == y && TextLe(a.name, b.name))
  }

  predicate PreferredProvider(a: Provider, b: Provider) {
    Preferred(a.0, b.0)
  }

  function SortProviders(providers: map<string, seq<Provider>>): (r: map<string, seq<Provider>>)
    ensures r.Keys == providers.Keys
  {
    map name | name in providers :: Sort(providers[name], PreferredProvider)
  }

  lemma PreferredOrders(s: multiset<Provider>)
    ensures OrderOn(s, PreferredProvider)
  {
    hide TextLe, Rank;
    forall x, y | x in s && y in s ensures PreferredProvider(x, y) || PreferredProvider(y, x) {
      TextLeTotal(x.0.name, y.0.name);
    }
    forall x, y, z | x in s && y in s && z in s && PreferredProvider(x, y) && PreferredProvider(y, z)
      ensures PreferredProvider(x, z)
    {
      if TextLe(x.0.name, y.0.name) && TextLe(y.0.name, z.0.name) {
        TextLeTransitive(x.0.name, y.0.name, z.0.name);
      }
    }
  }

  /** Every provided name's providers by priority and name. */
  ghost predicate ProvidersSorted(providers: map<string, seq<Provider>>) {
    forall name :: name in providers ==> Sorted(providers[name], PreferredProvider)
  }

  lemma SortProvidersSorts(providers: map<string, seq<Provider>>)
    ensures ProvidersSorted(SortProviders(providers))
  {
    hide PreferredProvider;
    forall name | name in providers ensures Sorted(SortProviders(providers)[name], PreferredProvider) {
      PreferredOrders(multiset(providers[name]));
      SortSorts(providers[name], PreferredProvider);
    }
  }

  lemma SortProvidersKeeps(providers: map<string, seq<Provider>>, packages: seq<Package>)
    requires Provides(providers, packages)
    ensures Provides(SortProviders(providers), packages)
  {
    var r := SortProviders(providers);
    forall name, p, v
      ensures Lists(r, name, p, v) <==> p in packages && Provide(name, v) in p.offers
    {
      if name in providers {
        SortElements(providers[name], PreferredProvider);
      }
      assert Lists(r, name, p, v) <==> Lists(providers, name, p, v);
    }
  }

  // ---- The universe ----

  method Flatten(names: seq<string>, packages: map<string, seq<Package>>) returns (all: seq<Package>)
    requires Elements(names) == packages.Keys
    ensures forall p :: p in all <==> exists name :: Has(packages, name, p)
  {
    all := [];
    for i := 0 to |names|
      invariant forall p :: p in all <==> exists k :: 0 <= k < i && Has(packages, names[k], p)
    {
      assert names[i] in Elements(names);
      all := all + packages[names[i]];
    }
    forall p ensures p in all <==> exists name :: Has(packages, name, p) {
      if name :| Has(packages, name, p) {
        assert name in Elements(names);
        var k :| 0 <= k < |names| && names[k] == name;
        assert Has(packages, names[k], p);
      }
    }
  }

  ghost predicate ValidUniverse(u: Universe) {
    && Distinct(u.names) && Elements(u.names) == u.packages.Keys
    && (forall name :: name in u.packages ==> u.packages[name] != [] && Sorted(u.packages[name], NoOlder))
    && (forall name, p :: Has(u.packages, name, p) ==> p.name == name)
    && (forall name :: name in u.packages ==> DistinctIdentities(u.packages[name]))
    && (forall name, p, v :: Lists(u.providers, name, p, v) <==>
          InUniverse(u, p) && Provide(name, v) in p.offers)
    && ProvidersSorted(u.providers)
  }

  /** Exactly the given records, up to the component of duplicates. */
  ghost predicate HoldsRecords(u: Universe, packages: seq<Package>) {
    && (forall p :: InUniverse(u, p) ==> p in packages)
    && (forall q :: q in packages ==> Covered(u.packages, q))
  }

  /** Clashes are found before anything is compared. */
  ghost predicate BuildError(packages: seq<Package>, e: LockError) {
    if HasClash(packages) then e.ConflictingDuplicate? && ClashNamed(packages, e.name)
    else exists p :: Incomparable(packages, p) && Blames(e, p.version)
  }

  ghost predicate ClashNamed(packages: seq<Package>, name: string) {
    exists p, q :: p in packages && q in packages && Clash(p, q) && p.name == name
  }

  /** The record has no valid version, and there is another one of its name. */
  ghost predicate Incomparable(packages: seq<Package>, p: Package) {
    && p in packages && !ValidVersion(p.version)
    && exists q :: q in packages && p.name == q.name && !SameIdentity(p, q)
  }

  /** Two records of one name of which one cannot be compared. */
  ghost predicate HasIncomparable(packages: seq<Package>) {
    exists p :: Incomparable(packages, p)
  }

  /**
   * `Universe.__init__`. On success the universe holds exactly the given records (up to the component of
   * duplicates), every candidate list is newest first, and every provided name lists exactly its providers, by
   * priority and name. It fails exactly for two records that clash, or for several records of a name of which one has
   * no valid version.
   */
  method BuildUniverse(packages: seq<Package>) returns (r: Result<Universe, LockError>)
    ensures r.Ok? ==> ValidUniverse(r.value) && HoldsRecords(r.value, packages)
    ensures r.Err? <==> HasClash(packages) || HasIncomparable(packages)
    ensures r.Err? ==> BuildError(packages, r.error)
  {
    hide *;
    ErrorsAre(packages);
    var indexed := Index(packages);
    if indexed.Err? {
      return Err(indexed.error);
    }
    var (names, byName) := indexed.value;
    var sorted := SortAll(names, byName);
    IncomparableExact(packages, byName);
    if sorted.Err? {
      return Err(sorted.error);
    }
    var u := AddProviders(packages, names, byName, sorted.value);
    return Ok(u);
  }

  lemma ErrorsAre(packages: seq<Package>)
    ensures forall e: LockError ::
              BuildError(packages, e) <==>
              if HasClash(packages) then e.ConflictingDuplicate? && ClashNamed(packages, e.name)
              else exists p :: Incomparable(packages, p) && Blames(e, p.version)
  {
    hide HasClash, ClashNamed, Incomparable, Blames;
  }

  /** The second loop of `Universe.__init__`: the providers of every name, from the sorted candidates. */
  method AddProviders(ghost packages: seq<Package>, names: seq<string>, ghost byName: map<string, seq<Package>>,
                      ordered: map<string, seq<Package>>)
    returns (u: Universe)
    requires Listed(packages, byName) && Distinct(names) && Elements(names) == byName.Keys == ordered.Keys
    requires forall name :: name in ordered ==>
               Sorted(ordered[name], NoOlder) && multiset(ordered[name]) == multiset(byName[name])
    ensures ValidUniverse(u) && HoldsRecords(u, packages)
  {
    hide ValidUniverse, Listed, SameRecord, Provides, PreferredProvider, NoOlder, DistinctIdentities, ProvidersSorted;
    SameElements(byName, ordered);
    IdentitiesKept(packages, byName, ordered);
    var all := Flatten(names, ordered);
    var providers := BuildProviders(all);
    SortProvidersKeeps(providers, all);
    SortProvidersSorts(providers);
    u := Universe(names, ordered, SortProviders(providers));
    IndexedUniverse(packages, byName, u, all);
  }

  /** Indexing keeps exactly the names with several records, so sorting fails exactly when one is incomparable. */
  lemma IncomparableExact(packages: seq<Package>, byName: map<string, seq<Package>>)
    requires Listed(packages, byName)
    ensures HasIncomparable(packages) <==> exists name, p :: Unsortable(byName, name, p)
    ensures forall name, p :: Unsortable(byName, name, p) ==> Incomparable(packages, p)
  {
    hide Listed, Unsortable, Incomparable;
    if HasIncomparable(packages) {
      var p :| Incomparable(packages, p);
      StoredApart(packages, byName, p);
    }
    forall name, p | Unsortable(byName, name, p) ensures Incomparable(packages, p) {
      AnotherRecord(packages, byName, name, p);
    }
  }

  lemma StoredApart(packages: seq<Package>, byName: map<string, seq<Package>>, p: Package)
    requires Listed(packages, byName) && Incomparable(packages, p)
    ensures exists x :: Unsortable(byName, p.name, x)
  {
    hide Listed, ValidVersion;
    var q :| q in packages && p.name == q.name && !SameIdentity(p, q);
    var x := StoredRecord(packages, byName, p);
    var y := StoredRecord(packages, byName, q);
    TwoMembers(byName[p.name], x, y);
    assert Unsortable(byName, p.name, x);
  }

  lemma StoredRecord(packages: seq<Package>, byName: map<string, seq<Package>>, p: Package) returns (x: Package)
    requires Listed(packages, byName) && p in packages
    ensures Has(byName, p.name, x) && SameIdentity(x, p)
  {
    hide DistinctIdentities, SameRecord;
    assert Covered(byName, p);
    x :| Has(byName, p.name, x) && SameRecord(x, p);
    RecordKeepsIdentity(x, p);
  }

  lemma TwoMembers(list: seq<Package>, x: Package, y: Package)
    requires x in list && y in list && x != y
    ensures |list| > 1
  {
    var i :| 0 <= i < |list| && list[i] == x;
    var j :| 0 <= j < |list| && list[j] == y;
  }

  lemma RecordKeepsIdentity(x: Package, p: Package)
    requires SameRecord(x, p)
    ensures SameIdentity(x, p)
  {
  }

  lemma AnotherRecord(packages: seq<Package>, byName: map<string, seq<Package>>, name: string, p: Package)
    requires Listed(packages, byName) && Unsortable(byName, name, p)
    ensures Incomparable(packages, p)
  {
    hide Covered, ValidVersion;
    var list := byName[name];
    var i :| 0 <= i < |list| && list[i] == p;
    var j := if i == 0 then 1 else 0;
    assert Has(byName, name, list[i]) && Has(byName, name, list[j]);
    assert !SameIdentity(list[if i < j then i else j], list[if i < j then j else i]);
  }

  lemma IdentitiesKept(packages: seq<Package>, a: map<string, seq<Package>>, b: map<string, seq<Package>>)
    requires Listed(packages, a) && a.Keys == b.Keys
    requires forall name :: name in b ==> multiset(b[name]) == multiset(a[name])
    ensures forall name :: name in b ==> DistinctIdentities(b[name])
  {
    hide Covered;
    forall name | name in b ensures DistinctIdentities(b[name]) {
      PermutedIdentities(a[name], b[name]);
    }
  }

  lemma PermutedIdentities(a: seq<Package>, b: seq<Package>)
    requires DistinctIdentities(a) && multiset(a) == multiset(b)
    ensures DistinctIdentities(b)
  {
    forall i, j | 0 <= i < j < |b| ensures !SameIdentity(b[i], b[j]) {
      assert b[i] in multiset(b) && b[j] in multiset(b) && b[i] in a && b[j] in a;
      if SameIdentity(b[i], b[j]) {
        IdentityUnique(a, b[i], b[j]);
        RepeatedCount(b, i, j);
        DistinctCount(a, b[i]);
        assert false;
      }
    }
  }

  lemma RepeatedCount(b: seq<Package>, i: nat, j: nat)
    requires i < j < |b| && b[i] == b[j]
    ensures multiset(b)[b[i]] >= 2
  {
    assert b == b[..i] + [b[i]] + b[i + 1..j] + [b[j]] + b[j + 1..];
  }

  lemma {:induction false} DistinctCount(a: seq<Package>, x: Package)
    requires DistinctIdentities(a)
    ensures multiset(a)[x] <= 1
  {
    if a != [] {
      assert a == [a[0]] + a[1..];
      DistinctCount(a[1..], x);
      if a[0] == x {
        forall k | 0 <= k < |a[1..]| ensures a[1..][k] != x {
          assert !SameIdentity(a[0], a[k + 1]);
        }
      }
    }
  }

  lemma SameElements(a: map<string, seq<Package>>, b: map<string, seq<Package>>)
    requires a.Keys == b.Keys && forall name :: name in b ==> multiset(b[name]) == multiset(a[name])
    ensures forall name, p :: Has(b, name, p) <==> Has(a, name, p)
    ensures forall name :: name in b ==> |b[name]| == |a[name]|
  {
    forall name, p ensures Has(b, name, p) <==> Has(a, name, p) {
      if name in b {
        assert p in b[name] <==> p in multiset(b[name]);
        assert p in a[name] <==> p in multiset(a[name]);
      }
    }
    forall name | name in b ensures |b[name]| == |a[name]| {
      assert |multiset(b[name])| == |multiset(a[name])|;
    }
  }

  lemma IndexedUniverse(packages: seq<Package>, byName: map<string, seq<Package>>, u: Universe, all: seq<Package>)
    requires Listed(packages, byName) && byName.Keys == u.packages.Keys
    requires Distinct(u.names) && Elements(u.names) == u.packages.Keys
    requires forall name :: name in u.packages ==> Sorted(u.packages[name], NoOlder)
    requires forall name, p :: Has(u.packages, name, p) <==> Has(byName, name, p)
    requires forall name :: name in u.packages ==> |u.packages[name]| == |byName[name]|
    requires forall p :: p in all <==> exists name :: Has(u.packages, name, p)
    requires Provides(u.providers, all) && ProvidersSorted(u.providers)
    requires forall name :: name in u.packages ==> DistinctIdentities(u.packages[name])
    ensures ValidUniverse(u) && HoldsRecords(u, packages)
  {
    forall p ensures p in all <==> InUniverse(u, p) {
      if p in all {
        var name :| Has(u.packages, name, p);
        assert p.name == name;
      }
    }
    hide SameRecord;
    forall q | q in packages ensures Covered(u.packages, q) {
      assert Covered(byName, q);
      CoveredKept(byName, u.packages, q);
    }
  }

  /** `Universe.newest`: a maximum of its name's candidates. */
  function Newest(u: Universe, name: string): (r: Option<Package>)
    requires ValidUniverse(u)
    ensures r.None? <==> name !in u.packages
    ensures r.Some? ==> InUniverse(u, r.value) && r.value.name == name
  {
    if name in u.packages then
      assert Has(u.packages, name, u.packages[name][0]);
      Some(u.packages[name][0])
    else None
  }

  /** No package of the universe with the same name is newer than the newest. */
  lemma NewestIsMaximum(u: Universe, name: string, p: Package)
    requires ValidUniverse(u) && InUniverse(u, p) && p.name == name
    ensures Newest(u, name).Some?
    ensures p == Newest(u, name).value || NoOlder(Newest(u, name).value, p)
  {
    var i :| 0 <= i < |u.packages[name]| && u.packages[name][i] == p;
    if i > 0 {
      assert NoOlder(u.packages[name][0], u.packages[name][i]);
    }
  }

  // ---- Candidates of a relation ----

  const ARCHITECTURE := "amd64"

  predicate ArchitectureMatches(p: Package, qualifier: Option<string>) {
    if qualifier.None? || qualifier.value == "any" || qualifier.value == "native" || qualifier.value == ARCHITECTURE
    then p.architecture == ARCHITECTURE || p.architecture == "all"
    else p.multiArch == "foreign"
  }

  /** A version, if there is one, meets an optional version constraint. */
  predicate Meets(version: Option<string>, constraint: Option<(Operator, string)>) {
    constraint.None? ||
    (version.Some? && ValidVersion(version.value) && ValidVersion(constraint.value.1)
     && Holds(VersionOrder(version.value, constraint.value.1), constraint.value.0))
  }

  predicate IsReal(p: Package, relation: Relation) {
    p.name == relation.name && ArchitectureMatches(p, relation.arch) && Meets(Some(p.version), relation.constraint)
  }

  /** A package satisfies a relation by its own name and version or by something it provides. */
  ghost predicate Satisfies(p: Package, relation: Relation) {
    || IsReal(p, relation)
    || (ArchitectureMatches(p, relation.arch)
        && exists v :: Provide(relation.name, v) in p.offers && Meets(v, relation.constraint))
  }

  /** Checking the constraint compares the version with the required one. */
  predicate Compares(version: Option<string>, constraint: Option<(Operator, string)>, x: string) {
    version.Some? && constraint.Some? && (x == version.value || x == constraint.value.1)
  }

  /** A version against a constraint: fails exactly when one of the two versions it has to compare is invalid, and names it. */
  method CheckConstraint(version: Option<string>, constraint: Option<(Operator, string)>)
    returns (r: Result<bool, LockError>)
    ensures r.Ok? ==> r.value == Meets(version, constraint)
    ensures r.Err? <==> exists x :: Compares(version, constraint, x) && !ValidVersion(x)
    ensures r.Err? ==> exists x :: Compares(version, constraint, x) && Blames(r.error, x)
  {
    if constraint.None? {
      return Ok(true);
    }
    if version.None? {
      return Ok(false);
    }
    var checked := VersionSatisfies(version.value, constraint.value.0, constraint.value.1);
    assert Compares(version, constraint, version.value) && Compares(version, constraint, constraint.value.1);
    if checked.Err? {
      return Err(BadVersion(checked.error));
    }
    return Ok(checked.value);
  }

  function RealsOf(list: seq<Package>, relation: Relation): seq<Package> {
    if list == [] then []
    else
      var before, last := RealsOf(list[..|list| - 1], relation), list[|list| - 1];
      if IsReal(last, relation) then before + [last] else before
  }

  lemma {:induction false} RealsOfExact(list: seq<Package>, relation: Relation)
    ensures forall p :: p in RealsOf(list, relation) <==> p in list && IsReal(p, relation)
  {
    if list != [] {
      var front := list[..|list| - 1];
      RealsOfExact(front, relation);
      assert list == front + [list[|list| - 1]];
    }
  }

  function Reals(u: Universe, relation: Relation): seq<Package> {
    if relation.name in u.packages then RealsOf(u.packages[relation.name], relation) else []
  }

  function ProvidersOf(u: Universe, name: string): seq<Provider> {
    if name in u.providers then u.providers[name] else []
  }

  /** The candidates with the admissible providers appended in their order, each package once. */
  function WithProviders(named: seq<Package>, providers: seq<Provider>, relation: Relation): seq<Package> {
    if providers == [] then named
    else
      var before, last := WithProviders(named, providers[..|providers| - 1], relation), providers[|providers| - 1];
      if ByProvider(last.0, last, relation) && last.0 !in before then before + [last.0] else before
  }

  /** The candidates of a relation in order of preference. */
  function CandidateList(u: Universe, relation: Relation): seq<Package> {
    WithProviders(Reals(u, relation), ProvidersOf(u, relation.name), relation)
  }

  /** Looking for the real candidates of a relation compares the version. */
  ghost predicate RealCompares(list: seq<Package>, relation: Relation, x: string) {
    exists p :: p in list && ArchitectureMatches(p, relation.arch)
                && Compares(Some(p.version), relation.constraint, x)
  }

  /** The k-th provider is looked at: its architecture matches and it is not a candidate yet. */
  predicate Consulted(named: seq<Package>, providers: seq<Provider>, relation: Relation, k: nat)
    requires k < |providers|
  {
    ArchitectureMatches(providers[k].0, relation.arch)
    && providers[k].0 !in WithProviders(named, providers[..k], relation)
  }

  /** Looking through the first n providers compares the version. */
  ghost predicate ProviderCompares(named: seq<Package>, providers: seq<Provider>, relation: Relation, n: nat, x: string)
    requires n <= |providers|
  {
    exists k :: 0 <= k < n && Consulted(named, providers, relation, k)
                && Compares(providers[k].1, relation.constraint, x)
  }

  /** The versions that looking for the candidates of a relation compares. */
  ghost predicate Compared(u: Universe, relation: Relation, x: string) {
    || RealCompares(NamedList(u, relation), relation, x)
    || ProviderCompares(Reals(u, relation), ProvidersOf(u, relation.name), relation, |ProvidersOf(u, relation.name)|, x)
  }

  function NamedList(u: Universe, relation: Relation): seq<Package> {
    if relation.name in u.packages then u.packages[relation.name] else []
  }

  /** The candidates of the relation cannot be told, since a version that has to be compared is invalid. */
  ghost predicate Undecidable(u: Universe, relation: Relation) {
    exists x :: Compared(u, relation, x) && !ValidVersion(x)
  }

  /** The error names an invalid version that looking for the candidates compares. */
  ghost predicate BlamesCompared(u: Universe, relation: Relation, e: LockError) {
    exists x :: Compared(u, relation, x) && Blames(e, x)
  }

  lemma BlamedIsInvalid(u: Universe, relation: Relation, e: LockError)
    requires BlamesCompared(u, relation, e)
    ensures e.BadVersion? && Undecidable(u, relation)
  {
    hide Compared;
  }

  method RealCandidates(u: Universe, relation: Relation) returns (r: Result<seq<Package>, LockError>)
    requires ValidUniverse(u)
    ensures r.Ok? ==> r.value == Reals(u, relation)
    ensures r.Ok? ==> forall x :: RealCompares(NamedList(u, relation), relation, x) ==> ValidVersion(x)
    ensures r.Err? ==> exists x :: RealCompares(NamedList(u, relation), relation, x) && Blames(r.error, x)
  {
    hide Blames, ValidVersion, Meets, Compares;
    var result: seq<Package> := [];
    if relation.name !in u.packages {
      return Ok([]);
    }
    var list := u.packages[relation.name];
    assert forall p :: p in list ==> Has(u.packages, relation.name, p) && p.name == relation.name;
    for i := 0 to |list|
      invariant result == RealsOf(list[..i], relation)
      invariant forall x :: RealCompares(list[..i], relation, x) ==> ValidVersion(x)
    {
      hide Blames, ValidVersion, Meets, Compares, ValidUniverse;
      assert list[..i + 1][..i] == list[..i];
      assert list[..i + 1] == list[..i] + [list[i]];
      if ArchitectureMatches(list[i], relation.arch) {
        var met := CheckConstraint(Some(list[i].version), relation.constraint);
        if met.Err? {
          return Err(met.error);
        }
        if met.value {
          result := result + [list[i]];
        }
      }
    }
    assert list[..|list|] == list;
    return Ok(result);
  }

  /**
   * `Universe.candidates`: the candidates in order of preference. It fails exactly when a version that has to be
   * compared is invalid, and reports that version.
   */
  method Candidates(u: Universe, relation: Relation) returns (r: Result<seq<Package>, LockError>)
    requires ValidUniverse(u)
    ensures r.Ok? ==> r.value == CandidateList(u, relation)
    ensures r.Err? <==> Undecidable(u, relation)
    ensures r.Err? ==> BlamesCompared(u, relation, r.error)
  {
    hide ValidUniverse, Reals, RealCompares, Blames, Compares, ValidVersion, Meets;
    r := RealCandidates(u, relation);
    if r.Err? {
      BlamedIsInvalid(u, relation, r.error);
      return;
    }
    var named := r.value;
    var result := named;
    var providers := ProvidersOf(u, relation.name);
    for i := 0 to |providers|
      invariant result == WithProviders(named, providers[..i], relation)
      invariant forall x :: ProviderCompares(named, providers, relation, i, x) ==> ValidVersion(x)
    {
      hide ValidUniverse, RealCompares, Reals, ProviderCompares, Blames, Compares, ValidVersion, Meets;
      assert providers[..i + 1][..i] == providers[..i];
      var (p, provided) := providers[i];
      ProviderStep(named, providers, relation, i);
      if ArchitectureMatches(p, relation.arch) && p !in result {
        var met := CheckConstraint(provided, relation.constraint);
        if met.Err? {
          ghost var x :| Compares(provided, relation.constraint, x) && Blames(met.error, x);
          ProviderSeen(named, providers, relation, i, x);
          BlamedIsInvalid(u, relation, met.error);
          return Err(met.error);
        }
        if met.value {
          result := result + [p];
        }
      }
    }
    assert providers[..|providers|] == providers;
    return Ok(result);
  }

  lemma ProviderStep(named: seq<Package>, providers: seq<Provider>, relation: Relation, n: nat)
    requires n < |providers|
    ensures forall x :: ProviderCompares(named, providers, relation, n + 1, x) <==>
              || ProviderCompares(named, providers, relation, n, x)
              || (Consulted(named, providers, relation, n) && Compares(providers[n].1, relation.constraint, x))
  {
    hide Consulted, Compares;
  }

  lemma ProviderSeen(named: seq<Package>, providers: seq<Provider>, relation: Relation, k: nat, x: string)
    requires k < |providers| && Consulted(named, providers, relation, k)
    requires Compares(providers[k].1, relation.constraint, x)
    ensures ProviderCompares(named, providers, relation, |providers|, x)
  {
  }

  /** A relation without a constraint compares nothing. */
  lemma UnconstrainedDecidable(u: Universe, relation: Relation)
    requires relation.constraint.None?
    ensures !Undecidable(u, relation)
  {
    hide Consulted;
  }

  predicate ByProvider(p: Package, entry: Provider, relation: Relation) {
    p == entry.0 && ArchitectureMatches(p, relation.arch) && Meets(entry.1, relation.constraint)
  }

  lemma {:induction false} WithProvidersMembers(named: seq<Package>, providers: seq<Provider>, relation: Relation)
    ensures named <= WithProviders(named, providers, relation)
    ensures forall p :: p in WithProviders(named, providers, relation) <==>
              p in named || exists k :: 0 <= k < |providers| && ByProvider(p, providers[k], relation)
  {
    hide ByProvider;
    if providers != [] {
      var front, last := providers[..|providers| - 1], providers[|providers| - 1];
      WithProvidersMembers(named, front, relation);
      var before := WithProviders(named, front, relation);
      forall p ensures p in WithProviders(named, providers, relation) <==>
        p in named || exists k :: 0 <= k < |providers| && ByProvider(p, providers[k], relation)
      {
        ProviderGrows(p, providers, relation);
      }
    }
  }

  lemma ProviderGrows(p: Package, providers: seq<Provider>, relation: Relation)
    requires providers != []
    ensures var front, last := providers[..|providers| - 1], providers[|providers| - 1];
            (exists k :: 0 <= k < |providers| && ByProvider(p, providers[k], relation)) <==>
            (exists k :: 0 <= k < |front| && ByProvider(p, front[k], relation)) || (p == last.0 && ByProvider(p, last, relation))
  {
    var front, last := providers[..|providers| - 1], providers[|providers| - 1];
    if k :| 0 <= k < |providers| && ByProvider(p, providers[k], relation) {
      assert k < |front| ==> front[k] == providers[k];
    }
    if k :| 0 <= k < |front| && ByProvider(p, front[k], relation) {
      assert providers[k] == front[k];
    }
  }

  /** The candidates are exactly the packages of the universe that satisfy the relation. */
  lemma CandidatesSatisfy(u: Universe, relation: Relation)
    requires ValidUniverse(u)
    ensures forall p :: p in CandidateList(u, relation) <==> InUniverse(u, p) && Satisfies(p, relation)
    ensures Reals(u, relation) <= CandidateList(u, relation)
  {
    hide WithProviders, Satisfies, IsReal, ByProvider;
    var named, providers := Reals(u, relation), ProvidersOf(u, relation.name);
    if relation.name in u.packages {
      RealsOfExact(u.packages[relation.name], relation);
    }
    RealsInUniverse(u, relation);
    WithProvidersMembers(named, providers, relation);
    CandidatesExact(u, relation, named, providers, CandidateList(u, relation));
  }

  lemma RealsInUniverse(u: Universe, relation: Relation)
    requires ValidUniverse(u)
    requires relation.name in u.packages ==>
               forall p :: p in Reals(u, relation) <==> p in u.packages[relation.name] && IsReal(p, relation)
    ensures forall p :: p in Reals(u, relation) <==> InUniverse(u, p) && IsReal(p, relation)
  {
    hide RealsOf, Meets;
    forall p ensures p in Reals(u, relation) <==> InUniverse(u, p) && IsReal(p, relation) {
      if relation.name in u.packages && p in u.packages[relation.name] {
        assert Has(u.packages, relation.name, p);
      }
    }
  }

  /** Real packages come first, newest first; then providers by priority and name; no package comes twice. */
  ghost predicate InPreference(u: Universe, relation: Relation, list: seq<Package>) {
    var n := |Reals(u, relation)|;
    && Reals(u, relation) <= list && Sorted(Reals(u, relation), NoOlder) && Distinct(list)
    && (forall i, j :: n <= i < j < |list| ==> Preferred(list[i], list[j]))
  }

  lemma CandidatesInPreference(u: Universe, relation: Relation)
    requires ValidUniverse(u)
    ensures InPreference(u, relation, CandidateList(u, relation))
  {
    hide NoOlder, IsReal, Preferred, WithProviders;
    var list, providers := Reals(u, relation), ProvidersOf(u, relation.name);
    if relation.name in u.packages {
      RealsSorted(u.packages[relation.name], relation);
    }
    WithProvidersMembers(list, providers, relation);
    ProvidersInOrder(list, providers, relation);
  }

  lemma {:induction false} RealsSorted(list: seq<Package>, relation: Relation)
    requires Sorted(list, NoOlder) && DistinctIdentities(list)
    ensures Sorted(RealsOf(list, relation), NoOlder) && Distinct(RealsOf(list, relation))
  {
    hide NoOlder, IsReal;
    if list != [] {
      var n := |list| - 1;
      var front, last := list[..n], list[n];
      assert forall i :: 0 <= i < n ==> front[i] == list[i];
      RealsSorted(front, relation);
      RealsOfExact(front, relation);
      forall i | 0 <= i < |RealsOf(front, relation)|
        ensures NoOlder(RealsOf(front, relation)[i], last) && RealsOf(front, relation)[i] != last
      {
        var p := RealsOf(front, relation)[i];
        assert p in front;
        var k :| 0 <= k < n && list[k] == p;
        assert NoOlder(list[k], list[n]) && !SameIdentity(list[k], list[n]);
      }
    }
  }

  lemma {:induction false} ProvidersInOrder(named: seq<Package>, providers: seq<Provider>, relation: Relation)
    requires Distinct(named) && Sorted(providers, PreferredProvider)
    ensures var list := WithProviders(named, providers, relation);
            && named <= list && Distinct(list)
            && (forall i, j :: |named| <= i < j < |list| ==> Preferred(list[i], list[j]))
            && (forall i :: |named| <= i < |list| ==> exists k :: 0 <= k < |providers| && list[i] == providers[k].0)
  {
    hide Preferred, ByProvider;
    if providers != [] {
      var n := |providers| - 1;
      var front, last := providers[..n], providers[n];
      assert forall i :: 0 <= i < n ==> front[i] == providers[i];
      ProvidersInOrder(named, front, relation);
      var before, list := WithProviders(named, front, relation), WithProviders(named, providers, relation);
      forall i | |named| <= i < |before|
        ensures Preferred(before[i], last.0) && exists k :: 0 <= k < |providers| && before[i] == providers[k].0
      {
        var k :| 0 <= k < n && before[i] == front[k].0;
        assert PreferredProvider(providers[k], providers[n]);
      }
      if list != before {
        assert list == before + [last.0];
        assert list[|before|] == providers[n].0;
      }
    }
  }

  lemma CandidatesExact(u: Universe, relation: Relation, named: seq<Package>, providers: seq<Provider>, result: seq<Package>)
    requires ValidUniverse(u)
    requires forall p :: p in named <==> InUniverse(u, p) && IsReal(p, relation)
    requires providers == if relation.name in u.providers then u.providers[relation.name] else []
    requires forall p :: p in result <==>
               p in named || exists k :: 0 <= k < |providers| && ByProvider(p, providers[k], relation)
    ensures forall p :: p in result <==> InUniverse(u, p) && Satisfies(p, relation)
  {
    forall p ensures p in result <==> InUniverse(u, p) && Satisfies(p, relation) {
      if k :| 0 <= k < |providers| && ByProvider(p, providers[k], relation) {
        assert Lists(u.providers, relation.name, p, providers[k].1);
        assert InUniverse(u, p) && Provide(relation.name, providers[k].1) in p.offers;
      }
      if InUniverse(u, p) && Satisfies(p, relation) && !IsReal(p, relation) {
        var v :| Provide(relation.name, v) in p.offers && Meets(v, relation.constraint);
        assert Lists(u.providers, relation.name, p, v);
        var k :| 0 <= k < |providers| && providers[k] == (p, v);
        assert ByProvider(p, providers[k], relation);
      }
    }
  }
}
