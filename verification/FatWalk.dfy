/**
 * The directory walk over the EFI system partition (mkosi/private/esp_manifest/rules_mkosi_esp_manifest.py): it lists
 * exactly the files reachable from the root directory and rejects cross-linked directories.
 */
module FatWalk {
  import opened Prelude
  import opened Arithmetic
  import opened Bytes
  import opened Sorting
  import opened Fat

  /** A directory entry. The walk takes the decoder of directory bytes as a parameter. */
  datatype Entry = Entry(name: string, directory: bool, cluster: nat, size: nat)

  type Parser = (Bytes, bool) -> seq<Entry>

  datatype EspFile = EspFile(path: string, size: nat)

  // ---- Reading clusters ----

  lemma ClusterInside(v: Volume, cluster: nat)
    requires Opened(v) && InRange(v, cluster)
    ensures var at := v.geometry.dataOffset + (cluster - 2) * v.geometry.clusterSize;
            v.partition.offset <= at && at + v.geometry.clusterSize <= v.partition.offset + v.partition.size
  {
    hide Opened;
    OpenedRegions(v);
    MulMonotone(cluster - 1, v.geometry.clusters, v.geometry.clusterSize);
    Distribute(cluster - 2, 1, v.geometry.clusterSize);
  }

  lemma OpenedRegions(v: Volume)
    requires Opened(v)
    ensures RegionsInside(v.geometry, v.partition)
  {
    hide RegionsInside;
  }

  function ClusterAt(v: Volume, cluster: nat): (at: nat)
    requires Opened(v) && InRange(v, cluster)
    ensures v.partition.offset <= at && at + v.geometry.clusterSize <= v.partition.offset + v.partition.size
  {
    ClusterInside(v, cluster);
    v.geometry.dataOffset + (cluster - 2) * v.geometry.clusterSize
  }

  function ClusterBytes(v: Volume, cluster: nat): (r: Bytes)
    requires Opened(v) && InRange(v, cluster)
    ensures |r| == v.geometry.clusterSize
  {
    v.image[ClusterAt(v, cluster)..ClusterAt(v, cluster) + v.geometry.clusterSize]
  }

  predicate AllInRange(v: Volume, chain: seq<nat>) {
    forall i :: 0 <= i < |chain| ==> InRange(v, chain[i])
  }

  /** The bytes of a chain of clusters (`_read_chain`). */
  function ChainBytes(v: Volume, chain: seq<nat>): (r: Bytes)
    requires Opened(v) && AllInRange(v, chain)
    ensures |r| == |chain| * v.geometry.clusterSize
  {
    if chain == [] then []
    else
      Distribute(|chain| - 1, 1, v.geometry.clusterSize);
      ChainBytes(v, chain[..|chain| - 1]) + ClusterBytes(v, chain[|chain| - 1])
  }

  /** `_read_chain`: no read of a cluster leaves the image. */
  method ReadChain(v: Volume, chain: seq<nat>) returns (r: Result<Bytes, FatError>)
    requires Opened(v) && AllInRange(v, chain)
    ensures r == Ok(ChainBytes(v, chain))
  {
    var data: Bytes := [];
    for i := 0 to |chain|
      invariant AllInRange(v, chain[..i]) && data == ChainBytes(v, chain[..i])
    {
      assert chain[..i + 1][..i] == chain[..i];
      var at := ClusterAt(v, chain[i]);
      if at + v.geometry.clusterSize > |v.image| {
        return Err(OutOfImage);
      }
      data := data + v.image[at..at + v.geometry.clusterSize];
    }
    assert chain[..|chain|] == chain;
    return Ok(data);
  }

  /** `read_file`: the first bytes of the file's chain, which must have exactly the clusters that the size needs. */
  method ReadFile(v: Volume, entry: Entry) returns (r: Result<Bytes, FatError>)
    requires Opened(v)
    ensures r.Ok? ==> |r.value| == entry.size
    ensures r.Ok? && entry.size > 0 ==>
              exists chain :: HoldsFile(v, entry, chain) && r.value <= ChainBytes(v, chain)
    ensures r.Ok? <==> entry.size == 0 || exists chain :: HoldsFile(v, entry, chain)
    ensures r.Err? ==> r.error != OutOfImage
  {
    hide ChainBytes, NextCluster, IsChain;
    if entry.size == 0 {
      return Ok([]);
    }
    var chain := Chain(v, entry.cluster);
    if chain.Err? {
      return Err(chain.error);
    }
    OneFileChain(v, entry, chain.value);
    var size := v.geometry.clusterSize;
    if |chain.value| != (entry.size + size - 1) / size {
      return Err(WrongChainLength);
    }
    var data := ReadChain(v, chain.value);
    RoundUp(entry.size, size);
    return Ok(data.value[..entry.size]);
  }

  /** The chain of the file's first cluster, with exactly the clusters that its size needs. */
  ghost predicate HoldsFile(v: Volume, entry: Entry, chain: seq<nat>)
    requires Opened(v)
  {
    && IsChain(v, entry.cluster, chain) && AllInRange(v, chain)
    && |chain| == (entry.size + v.geometry.clusterSize - 1) / v.geometry.clusterSize
  }

  lemma OneFileChain(v: Volume, entry: Entry, chain: seq<nat>)
    requires Opened(v) && IsChain(v, entry.cluster, chain)
    ensures AllInRange(v, chain)
    ensures forall other :: HoldsFile(v, entry, other) ==> other == chain
  {
    assert AllInRange(v, chain);
    hide IsChain, Opened, NextCluster;
    forall other | HoldsFile(v, entry, other) ensures other == chain {
      ChainUnique(v, entry.cluster, other, chain);
    }
  }

  // ---- Directories ----

  ghost function ChainOf(v: Volume, first: nat): (r: Option<seq<nat>>)
    requires Opened(v)
    ensures r.Some? ==> IsChain(v, first, r.value)
    ensures r.None? ==> forall chain :: !IsChain(v, first, chain)
  {
    if exists chain :: IsChain(v, first, chain) then
      var chain :| IsChain(v, first, chain);
      Some(chain)
    else None
  }

  /** The root directory of FAT12 and FAT16 lies in its own region; every other directory is a chain of clusters. */
  predicate IsFixedRoot(v: Volume, cluster: Option<nat>) {
    cluster.None? && !v.geometry.fat32
  }

  function FirstCluster(v: Volume, cluster: Option<nat>): nat {
    if cluster.Some? then cluster.value else v.geometry.rootCluster
  }

  /** The clusters of a directory, if it has a chain of an acceptable length. */
  ghost function ClustersOf(v: Volume, cluster: Option<nat>): (r: Option<seq<nat>>)
    requires Opened(v)
    ensures r.Some? ==> AllInRange(v, r.value) && Distinct(r.value) && (IsFixedRoot(v, cluster) <==> r.value == [])
  {
    if IsFixedRoot(v, cluster) then Some([])
    else
      var chain := ChainOf(v, FirstCluster(v, cluster));
      if chain.Some? && |chain.value| * v.geometry.clusterSize <= MAX_DIRECTORY_BYTES then chain else None
  }

  lemma RootRegionInside(v: Volume)
    requires Opened(v)
    ensures v.partition.offset <= v.geometry.rootOffset
    ensures v.geometry.rootOffset + v.geometry.rootSize <= v.partition.offset + v.partition.size <= |v.image|
  {
  }

  /** The entries of a directory, if it can be read. */
  ghost function EntriesOf(v: Volume, parse: Parser, cluster: Option<nat>): Option<seq<Entry>>
    requires Opened(v)
  {
    RootRegionInside(v);
    var chain := ClustersOf(v, cluster);
    if chain.None? then None
    else if IsFixedRoot(v, cluster) then
      Some(parse(v.image[v.geometry.rootOffset..v.geometry.rootOffset + v.geometry.rootSize], v.geometry.fat32))
    else Some(parse(ChainBytes(v, chain.value), v.geometry.fat32))
  }

  /** The clusters and remaining directory bytes of one walk. */
  class WalkLimits {
    var claimed: set<nat>
    var remaining: int

    constructor (budget: nat)
      ensures claimed == {} && remaining == budget
    {
      claimed, remaining := {}, budget;
    }

    /** `_WalkLimits.claim`. */
    method Claim(chain: seq<nat>, size: nat) returns (e: Option<FatError>)
      modifies this
      ensures e == Some(CrossLinked) <==> Elements(chain) * old(claimed) != {}
      ensures e != Some(CrossLinked) ==> claimed == old(claimed) + Elements(chain) && remaining == old(remaining) - size
      ensures e.None? ==> remaining >= 0
      ensures e.Some? ==> e.value == CrossLinked || (e.value == BudgetExceeded && remaining < 0)
    {
      if Elements(chain) * claimed != {} {
        return Some(CrossLinked);
      }
      claimed := claimed + Elements(chain);
      remaining := remaining - size;
      if remaining < 0 {
        return Some(BudgetExceeded);
      }
      return None;
    }
  }

  /** The bytes of the clusters and of the fixed root directory that a walk has claimed. */
  ghost function Spent(v: Volume, claimed: set<nat>, root: bool): nat {
    |claimed| * v.geometry.clusterSize + (if root && !v.geometry.fat32 then v.geometry.rootSize else 0)
  }

  /** Claimed clusters and the fixed root together never exceed the partition. */
  lemma SpentFits(v: Volume, claimed: set<nat>, root: bool)
    requires Opened(v) && claimed <= ClustersTo(LastCluster(v))
    ensures Spent(v, claimed, root) <= v.partition.size
  {
    SubsetSize(claimed, ClustersTo(LastCluster(v)));
    MulMonotone(|claimed|, v.geometry.clusters, v.geometry.clusterSize);
  }

  lemma SubsetSize<T>(a: set<T>, b: set<T>)
    requires a <= b
    ensures |a| <= |b|
  {
    assert b == a + (b - a);
  }

  lemma {:induction false} DistinctSize(s: seq<nat>)
    requires Distinct(s)
    ensures |Elements(s)| == |s|
  {
    if s != [] {
      var front := s[..|s| - 1];
      DistinctSize(front);
      assert Elements(s) == Elements(front) + {s[|s| - 1]};
    }
  }

  /** Claiming a fresh chain spends exactly its bytes. */
  lemma SpentGrows(v: Volume, claimed: set<nat>, chain: seq<nat>, root: bool)
    requires Distinct(chain) && Elements(chain) * claimed == {}
    ensures Spent(v, claimed + Elements(chain), root) == Spent(v, claimed, root) + |chain| * v.geometry.clusterSize
  {
    DistinctSize(chain);
    forall c | c in claimed ensures c !in Elements(chain) {
      assert c in Elements(chain) ==> c in Elements(chain) * claimed;
    }
    assert |claimed + Elements(chain)| == |claimed| + |chain|;
    Distribute(|claimed|, |chain|, v.geometry.clusterSize);
  }

  /** What the limits hold after the walk has read some directories, the root among them or not. */
  ghost predicate WithinLimits(v: Volume, limits: WalkLimits, root: bool)
    requires Opened(v)
    reads limits
  {
    && limits.claimed <= ClustersTo(LastCluster(v))
    && limits.remaining == v.partition.size - Spent(v, limits.claimed, root)
  }

  /**
   * `directory` during a walk: returns the entries and claims the clusters, or fails because the directory cannot be
   * read or shares a cluster. The byte budget never fails, and no read leaves the image.
   */
  method Directory(v: Volume, parse: Parser, cluster: Option<nat>, limits: WalkLimits, ghost first: bool)
    returns (r: Result<seq<Entry>, FatError>)
    requires Opened(v) && WithinLimits(v, limits, !first) && (cluster.None? <==> first)
    modifies limits
    ensures r.Ok? <==> && EntriesOf(v, parse, cluster).Some?
                       && Elements(ClustersOf(v, cluster).value) * old(limits.claimed) == {}
    ensures r.Ok? ==> && EntriesOf(v, parse, cluster) == Some(r.value)
                      && limits.claimed == old(limits.claimed) + Elements(ClustersOf(v, cluster).value)
                      && WithinLimits(v, limits, true)
    ensures r.Err? ==> r.error != BudgetExceeded && r.error != OutOfImage
  {
    hide *;
    if cluster.None? && !v.geometry.fat32 {
      FixedRootFacts(v, parse, cluster);
      r := FixedRoot(v, parse, limits);
      assert Elements([]) * old(limits.claimed) == {} && old(limits.claimed) + Elements([]) == old(limits.claimed) by {
        NoElements();
      }
      return;
    }
    ChainedFacts(v, parse, cluster);
    var first' := if cluster.Some? then cluster.value else v.geometry.rootCluster;
    r := ChainedDirectory(v, parse, first', limits, first);
  }

  lemma NoElements()
    ensures Elements<nat>([]) == {}
  {
  }

  lemma FixedRootFacts(v: Volume, parse: Parser, cluster: Option<nat>)
    requires Opened(v) && cluster.None? && !v.geometry.fat32
    ensures ClustersOf(v, cluster) == Some([]) && EntriesOf(v, parse, cluster).Some?
  {
  }

  /** A directory that is a chain, in terms of its first cluster. */
  lemma ChainedFacts(v: Volume, parse: Parser, cluster: Option<nat>)
    requires Opened(v) && !(cluster.None? && !v.geometry.fat32)
    ensures FirstCluster(v, cluster) == if cluster.Some? then cluster.value else v.geometry.rootCluster
    ensures var chain := ChainOf(v, FirstCluster(v, cluster));
            && (EntriesOf(v, parse, cluster).Some? <==>
                  chain.Some? && |chain.value| * v.geometry.clusterSize <= MAX_DIRECTORY_BYTES)
            && (EntriesOf(v, parse, cluster).Some? ==>
                  && ClustersOf(v, cluster) == chain && AllInRange(v, chain.value)
                  && EntriesOf(v, parse, cluster) == Some(parse(ChainBytes(v, chain.value), v.geometry.fat32)))
  {
    hide ChainBytes, Opened, NextCluster;
  }

  method ChainedDirectory(v: Volume, parse: Parser, start: nat, limits: WalkLimits, ghost first: bool)
    returns (r: Result<seq<Entry>, FatError>)
    requires Opened(v) && WithinLimits(v, limits, !first) && (first ==> v.geometry.fat32)
    modifies limits
    ensures r.Ok? <==> && ChainOf(v, start).Some?
                       && |ChainOf(v, start).value| * v.geometry.clusterSize <= MAX_DIRECTORY_BYTES
                       && Elements(ChainOf(v, start).value) * old(limits.claimed) == {}
    ensures r.Ok? ==> && AllInRange(v, ChainOf(v, start).value)
                      && r.value == parse(ChainBytes(v, ChainOf(v, start).value), v.geometry.fat32)
                      && limits.claimed == old(limits.claimed) + Elements(ChainOf(v, start).value)
                      && WithinLimits(v, limits, true)
    ensures r.Err? ==> r.error != BudgetExceeded && r.error != OutOfImage
  {
    hide Opened, ChainBytes, NextCluster, IsChain, ChainOf, Spent, ClustersTo, AllInRange, Elements;
    var found := Chain(v, start);
    if found.Err? {
      return Err(found.error);
    }
    var chain := found.value;
    ChainIs(v, start, chain);
    var size := |chain| * v.geometry.clusterSize;
    if size > MAX_DIRECTORY_BYTES {
      return Err(TooManyEntries);
    }
    ClaimFits(v, limits, chain, first);
    var e := limits.Claim(chain, size);
    if e.Some? {
      return Err(e.value);
    }
    var data := ReadChain(v, chain);
    return Ok(parse(data.value, v.geometry.fat32));
  }

  lemma ChainIs(v: Volume, first: nat, chain: seq<nat>)
    requires Opened(v) && IsChain(v, first, chain)
    ensures ChainOf(v, first) == Some(chain) && AllInRange(v, chain) && Distinct(chain)
  {
    hide Opened, NextCluster;
    ChainUnique(v, first, ChainOf(v, first).value, chain);
  }

  /** Claiming a fresh chain after the root has been read, or as the root itself, stays within the partition. */
  lemma ClaimFits(v: Volume, limits: WalkLimits, chain: seq<nat>, first: bool)
    requires Opened(v) && WithinLimits(v, limits, !first) && AllInRange(v, chain) && Distinct(chain)
    requires first ==> v.geometry.fat32
    ensures Elements(chain) * limits.claimed == {} ==>
              var after := limits.claimed + Elements(chain);
              && after <= ClustersTo(LastCluster(v))
              && limits.remaining - |chain| * v.geometry.clusterSize == v.partition.size - Spent(v, after, true)
              && Spent(v, after, true) <= v.partition.size
  {
    if Elements(chain) * limits.claimed == {} {
      var after := limits.claimed + Elements(chain);
      assert Elements(chain) <= ClustersTo(LastCluster(v));
      SpentGrows(v, limits.claimed, chain, true);
      SpentFits(v, after, true);
    }
  }

  /** Reading the fixed root directory, which claims no cluster. */
  method FixedRoot(v: Volume, parse: Parser, limits: WalkLimits) returns (r: Result<seq<Entry>, FatError>)
    requires Opened(v) && !v.geometry.fat32 && WithinLimits(v, limits, false)
    modifies limits
    ensures r.Ok? && EntriesOf(v, parse, None) == Some(r.value)
    ensures limits.claimed == old(limits.claimed) && WithinLimits(v, limits, true)
  {
    SpentFits(v, limits.claimed, true);
    RootRegionInside(v);
    var e := limits.Claim([], v.geometry.rootSize);
    assert limits.claimed == old(limits.claimed);
    assert e.None?;
    return Ok(parse(v.image[v.geometry.rootOffset..v.geometry.rootOffset + v.geometry.rootSize], v.geometry.fat32));
  }

  // ---- The directory tree ----

  /** A directory or file by the entry indexes that lead to it from the root. */
  type Path = seq<nat>

  datatype Dir = Dir(prefix: string, cluster: Option<nat>)

  predicate IsEntry(entries: Option<seq<Entry>>, i: nat, directory: bool) {
    entries.Some? && i < |entries.value| && entries.value[i].directory == directory
  }

  /** The directory at an index path. */
  ghost function DirAt(v: Volume, parse: Parser, path: Path): Option<Dir>
    requires Opened(v)
    decreases |path|
  {
    if path == [] then Some(Dir("", None))
    else
      var parent, i := DirAt(v, parse, path[..|path| - 1]), path[|path| - 1];
      if parent.None? || !IsEntry(EntriesOf(v, parse, parent.value.cluster), i, true) then None
      else
        var entry := EntriesOf(v, parse, parent.value.cluster).value[i];
        Some(Dir(parent.value.prefix + entry.name + "/", Some(entry.cluster)))
  }

  function Parent(path: Path): Path {
    if path == [] then [] else path[..|path| - 1]
  }

  /** The file at an index path. */
  ghost function FileAt(v: Volume, parse: Parser, path: Path): Option<EspFile>
    requires Opened(v)
  {
    if path == [] then None
    else
      var parent, i := DirAt(v, parse, Parent(path)), path[|path| - 1];
      if parent.None? || !IsEntry(EntriesOf(v, parse, parent.value.cluster), i, false) then None
      else
        var entry := EntriesOf(v, parse, parent.value.cluster).value[i];
        Some(EspFile(parent.value.prefix + entry.name, entry.size))
  }

  ghost function EntriesAt(v: Volume, parse: Parser, path: Path): Option<seq<Entry>>
    requires Opened(v)
  {
    var d := DirAt(v, parse, path);
    if d.None? then None else EntriesOf(v, parse, d.value.cluster)
  }

  ghost function ClustersAt(v: Volume, parse: Parser, path: Path): set<nat>
    requires Opened(v)
  {
    var d := DirAt(v, parse, path);
    if d.None? || ClustersOf(v, d.value.cluster).None? then {} else Elements(ClustersOf(v, d.value.cluster).value)
  }

  /** Some reachable directory cannot be read, or two of them share a cluster. */
  ghost predicate Broken(v: Volume, parse: Parser)
    requires Opened(v)
  {
    || (exists path: Path :: DirAt(v, parse, path).Some? && EntriesAt(v, parse, path).None?)
    || (exists p: Path, q: Path :: p != q && ClustersAt(v, parse, p) * ClustersAt(v, parse, q) != {})
  }

  /** A directory inside a directory is reachable through it. */
  lemma {:induction false} PrefixReachable(v: Volume, parse: Parser, path: Path, n: nat)
    requires Opened(v) && DirAt(v, parse, path).Some? && n <= |path|
    ensures DirAt(v, parse, path[..n]).Some?
    decreases |path|
  {
    if n == |path| {
      assert path[..n] == path;
    } else {
      PrefixReachable(v, parse, path[..|path| - 1], n);
      assert path[..|path| - 1][..n] == path[..n];
    }
  }

  // ---- The children of one directory, in order ----

  function ChildPaths(entries: seq<Entry>, parent: Path, directory: bool, n: nat): (r: seq<Path>)
    requires n <= |entries|
    ensures forall k :: 0 <= k < |r| ==> |r[k]| == |parent| + 1 && parent <= r[k] && r[k][|parent|] < n
    ensures forall k :: 0 <= k < |r| ==> entries[r[k][|parent|]].directory == directory
    ensures Distinct(r)
  {
    if n == 0 then []
    else
      var before := ChildPaths(entries, parent, directory, n - 1);
      if entries[n - 1].directory == directory then before + [parent + [n - 1]] else before
  }

  lemma {:induction false} ChildPathsComplete(entries: seq<Entry>, parent: Path, directory: bool, n: nat, i: nat)
    requires i < n <= |entries| && entries[i].directory == directory
    ensures parent + [i] in ChildPaths(entries, parent, directory, n)
  {
    if i < n - 1 {
      ChildPathsComplete(entries, parent, directory, n - 1, i);
    } else {
      var r := ChildPaths(entries, parent, directory, n);
      assert r[|r| - 1] == parent + [i];
    }
  }

  function ChildDirs(entries: seq<Entry>, prefix: string, n: nat): seq<Dir>
    requires n <= |entries|
  {
    if n == 0 then []
    else
      var before := ChildDirs(entries, prefix, n - 1);
      var e := entries[n - 1];
      if e.directory then before + [Dir(prefix + e.name + "/", Some(e.cluster))] else before
  }

  function ChildFiles(entries: seq<Entry>, prefix: string, n: nat): seq<EspFile>
    requires n <= |entries|
  {
    if n == 0 then []
    else
      var before := ChildFiles(entries, prefix, n - 1);
      var e := entries[n - 1];
      if e.directory then before else before + [EspFile(prefix + e.name, e.size)]
  }

  /** The directories pushed for an entry list are those at the child paths. */
  lemma {:induction false} ChildDirsMatch(v: Volume, parse: Parser, parent: Path, n: nat)
    requires Opened(v) && DirAt(v, parse, parent).Some? && EntriesAt(v, parse, parent).Some?
    requires n <= |EntriesAt(v, parse, parent).value|
    ensures var entries, prefix := EntriesAt(v, parse, parent).value, DirAt(v, parse, parent).value.prefix;
            var paths := ChildPaths(entries, parent, true, n);
            && |paths| == |ChildDirs(entries, prefix, n)|
            && (forall k :: 0 <= k < |paths| ==> DirAt(v, parse, paths[k]) == Some(ChildDirs(entries, prefix, n)[k]))
  {
    hide Opened, EntriesOf;
    if n > 0 {
      ChildDirsMatch(v, parse, parent, n - 1);
      var child := parent + [n - 1];
      assert child[..|child| - 1] == parent && child[|child| - 1] == n - 1;
    }
  }

  /** The files listed for an entry list are those at the child paths. */
  lemma {:induction false} ChildFilesMatch(v: Volume, parse: Parser, parent: Path, n: nat)
    requires Opened(v) && DirAt(v, parse, parent).Some? && EntriesAt(v, parse, parent).Some?
    requires n <= |EntriesAt(v, parse, parent).value|
    ensures var entries, prefix := EntriesAt(v, parse, parent).value, DirAt(v, parse, parent).value.prefix;
            var paths := ChildPaths(entries, parent, false, n);
            && |paths| == |ChildFiles(entries, prefix, n)|
            && (forall k :: 0 <= k < |paths| ==> FileAt(v, parse, paths[k]) == Some(ChildFiles(entries, prefix, n)[k]))
  {
    hide Opened, EntriesOf, DirAt;
    if n > 0 {
      ChildFilesMatch(v, parse, parent, n - 1);
      var child := parent + [n - 1];
      assert Parent(child) == parent && child[|child| - 1] == n - 1;
    }
  }

  // ---- What the walk keeps ----

  /** No pending path has been visited, and nothing below a pending path is pending or visited. */
  ghost predicate Frontier(pending: seq<Path>, visited: seq<Path>) {
    && Distinct(pending) && Distinct(visited)
    && (forall p :: p in pending ==> p !in visited)
    && (forall p, x :: p in pending && (x in pending || x in visited) && p <= x ==> p == x)
  }

  lemma FrontierStep(rest: seq<Path>, q: Path, visited: seq<Path>, children: seq<Path>)
    requires Frontier(rest + [q], visited)
    requires Distinct(children) && forall k :: 0 <= k < |children| ==> |children[k]| == |q| + 1 && q <= children[k]
    ensures Frontier(rest + children, visited + [q])
  {
    var pending := rest + [q];
    DistinctFront(rest, [q]);
    assert q in pending && q !in rest;
    forall c | c in children ensures c !in rest && c !in visited && c != q {
      assert q <= c;
      assert c in rest ==> c in pending;
    }
    forall p, x | p in rest + children && (x in rest + children || x in visited + [q]) && p <= x ensures p == x {
      BelowFrontier(rest, q, visited, children, p, x);
    }
    DistinctAppend(rest, children);
    DistinctAppend(visited, [q]);
  }

  lemma BelowFrontier(rest: seq<Path>, q: Path, visited: seq<Path>, children: seq<Path>, p: Path, x: Path)
    requires Frontier(rest + [q], visited) && q !in rest
    requires forall k :: 0 <= k < |children| ==> |children[k]| == |q| + 1 && q <= children[k]
    requires p in rest + children && (x in rest + children || x in visited + [q]) && p <= x
    ensures p == x
  {
    var pending := rest + [q];
    assert q in pending && forall y :: y in rest ==> y in pending;
    if p !in rest {
      assert q <= p && q <= x;
    }
  }

  lemma DistinctAppend<T>(a: seq<T>, b: seq<T>)
    requires Distinct(a) && Distinct(b) && forall x :: x in b ==> x !in a
    ensures Distinct(a + b)
  {
    var c := a + b;
    forall i, j | 0 <= i < j < |c| ensures c[i] != c[j] {
      if i < |a| <= j {
        assert c[i] in a && c[j] in b;
      }
    }
  }

  lemma DistinctFront<T>(a: seq<T>, b: seq<T>)
    requires Distinct(a + b)
    ensures Distinct(a) && forall x :: x in b ==> x !in a
  {
    var c := a + b;
    forall i, j | 0 <= i < j < |a| ensures a[i] != a[j] {
      assert c[i] == a[i] && c[j] == a[j];
    }
    forall x | x in b ensures x !in a {
      var j :| 0 <= j < |b| && b[j] == x;
      forall i | 0 <= i < |a| ensures a[i] != x {
        assert c[i] != c[|a| + j];
      }
    }
  }

  /** Every reachable directory has been visited or lies at or below a pending one. */
  ghost predicate Covered(v: Volume, parse: Parser, pending: seq<Path>, visited: seq<Path>)
    requires Opened(v)
  {
    forall path: Path :: DirAt(v, parse, path).Some? ==> path in visited || HasPrefixIn(path, pending)
  }

  ghost predicate HasPrefixIn(path: Path, pending: seq<Path>) {
    exists k :: 0 <= k < |pending| && pending[k] <= path
  }

  lemma CoveredStep(v: Volume, parse: Parser, rest: seq<Path>, q: Path, visited: seq<Path>)
    requires Opened(v) && Covered(v, parse, rest + [q], visited)
    requires DirAt(v, parse, q).Some? && EntriesAt(v, parse, q).Some?
    ensures var entries := EntriesAt(v, parse, q).value;
            Covered(v, parse, rest + ChildPaths(entries, q, true, |entries|), visited + [q])
  {
    hide Opened, EntriesOf, DirAt;
    var entries := EntriesAt(v, parse, q).value;
    var children := ChildPaths(entries, q, true, |entries|);
    forall path: Path | DirAt(v, parse, path).Some?
      ensures path in visited + [q] || HasPrefixIn(path, rest + children)
    {
      if path !in visited && path != q {
        var k :| 0 <= k < |rest + [q]| && (rest + [q])[k] <= path;
        if k < |rest| {
          assert (rest + children)[k] <= path;
        } else {
          ChildOnTheWay(v, parse, q, path);
          var child := path[..|q| + 1];
          var j :| 0 <= j < |children| && children[j] == child;
          assert (rest + children)[|rest| + j] <= path;
        }
      }
    }
  }

  lemma DirIsEntry(v: Volume, parse: Parser, q: Path, i: nat)
    requires Opened(v) && DirAt(v, parse, q + [i]).Some?
    ensures IsEntry(EntriesAt(v, parse, q), i, true)
  {
    hide Opened, EntriesOf;
    assert (q + [i])[..|q|] == q;
  }

  lemma ChildOnTheWay(v: Volume, parse: Parser, q: Path, path: Path)
    requires Opened(v) && DirAt(v, parse, q).Some? && EntriesAt(v, parse, q).Some?
    requires DirAt(v, parse, path).Some? && q <= path && q != path
    ensures |q| < |path|
    ensures var entries := EntriesAt(v, parse, q).value;
            path[..|q| + 1] in ChildPaths(entries, q, true, |entries|)
  {
    hide Opened, EntriesOf, ChildPaths, DirAt;
    var child := path[..|q| + 1];
    PrefixReachable(v, parse, path, |q| + 1);
    assert child == q + [child[|q|]];
    DirIsEntry(v, parse, q, child[|q|]);
    ChildPathsComplete(EntriesAt(v, parse, q).value, q, true, |EntriesAt(v, parse, q).value|, child[|q|]);
  }

  /** The files found so far are exactly the files of the visited directories, each once. */
  ghost predicate Listed(v: Volume, parse: Parser, visited: seq<Path>, files: seq<EspFile>, places: seq<Path>)
    requires Opened(v)
  {
    && |files| == |places| && Distinct(places)
    && (forall i :: 0 <= i < |places| ==> FileAt(v, parse, places[i]) == Some(files[i]))
    && (forall i :: 0 <= i < |places| ==> places[i] != [] && Parent(places[i]) in visited)
    && (forall path: Path :: FileAt(v, parse, path).Some? && Parent(path) in visited ==> path in places)
  }

  lemma ListedStep(v: Volume, parse: Parser, visited: seq<Path>, q: Path, files: seq<EspFile>, places: seq<Path>)
    requires Opened(v) && Listed(v, parse, visited, files, places) && q !in visited
    requires DirAt(v, parse, q).Some? && EntriesAt(v, parse, q).Some?
    ensures var entries, prefix := EntriesAt(v, parse, q).value, DirAt(v, parse, q).value.prefix;
            Listed(v, parse, visited + [q], files + ChildFiles(entries, prefix, |entries|),
                   places + ChildPaths(entries, q, false, |entries|))
  {
    hide Opened, EntriesOf, EntriesAt, DirAt, FileAt, ChildFiles, ChildPaths, Parent;
    var entries, prefix := EntriesAt(v, parse, q).value, DirAt(v, parse, q).value.prefix;
    var more, found := ChildPaths(entries, q, false, |entries|), ChildFiles(entries, prefix, |entries|);
    ChildFilesMatch(v, parse, q, |entries|);
    NewPlaces(places, visited, q, more);
    forall i | 0 <= i < |places + more| ensures FileAt(v, parse, (places + more)[i]) == Some((files + found)[i]) {
    }
    forall path: Path | FileAt(v, parse, path).Some? && Parent(path) in visited + [q]
      ensures path in places + more
    {
      if Parent(path) !in visited {
        FileIsChild(v, parse, q, path);
      }
    }
  }

  lemma NewPlaces(places: seq<Path>, visited: seq<Path>, q: Path, more: seq<Path>)
    requires Distinct(places) && q !in visited && Distinct(more)
    requires forall i :: 0 <= i < |places| ==> places[i] != [] && Parent(places[i]) in visited
    requires forall k :: 0 <= k < |more| ==> |more[k]| == |q| + 1 && q <= more[k]
    ensures Distinct(places + more)
    ensures var all := places + more;
            forall i :: 0 <= i < |all| ==> all[i] != [] && Parent(all[i]) in visited + [q]
  {
    forall c | c in more ensures Parent(c) == q && c != [] && c !in places {
      assert c[..|q|] == q;
    }
    DistinctAppend(places, more);
  }

  lemma FileIsChild(v: Volume, parse: Parser, q: Path, path: Path)
    requires Opened(v) && EntriesAt(v, parse, q).Some?
    requires FileAt(v, parse, path).Some? && Parent(path) == q
    ensures var entries := EntriesAt(v, parse, q).value; path in ChildPaths(entries, q, false, |entries|)
  {
    hide Opened, EntriesOf, DirAt;
    var entries := EntriesAt(v, parse, q).value;
    assert path == q + [path[|q|]];
    ChildPathsComplete(entries, q, false, |entries|, path[|q|]);
  }

  // ---- Claimed clusters ----

  /** The visited directories are readable, own the claimed clusters, and share none of them. */
  ghost predicate Owned(v: Volume, parse: Parser, visited: seq<Path>, claimed: set<nat>)
    requires Opened(v)
  {
    && (forall i :: 0 <= i < |visited| ==> EntriesAt(v, parse, visited[i]).Some?)
    && (forall i :: 0 <= i < |visited| ==> ClustersAt(v, parse, visited[i]) <= claimed)
    && (forall c :: c in claimed ==> exists i :: 0 <= i < |visited| && c in ClustersAt(v, parse, visited[i]))
    && (forall i, j :: 0 <= i < j < |visited| ==>
          ClustersAt(v, parse, visited[i]) * ClustersAt(v, parse, visited[j]) == {})
  }

  lemma OwnedStep(v: Volume, parse: Parser, visited: seq<Path>, claimed: set<nat>, q: Path)
    requires Opened(v) && Owned(v, parse, visited, claimed) && EntriesAt(v, parse, q).Some?
    requires ClustersAt(v, parse, q) * claimed == {}
    ensures Owned(v, parse, visited + [q], claimed + ClustersAt(v, parse, q))
  {
    hide Opened, EntriesAt, ClustersAt;
    var all, total := visited + [q], claimed + ClustersAt(v, parse, q);
    forall c | c in total ensures exists i :: 0 <= i < |all| && c in ClustersAt(v, parse, all[i]) {
      if c in claimed {
        var i :| 0 <= i < |visited| && c in ClustersAt(v, parse, visited[i]);
        assert all[i] == visited[i];
      } else {
        assert all[|visited|] == q;
      }
    }
    forall i, j | 0 <= i < j < |all| ensures ClustersAt(v, parse, all[i]) * ClustersAt(v, parse, all[j]) == {} {
      if j == |visited| {
        assert ClustersAt(v, parse, visited[i]) <= claimed;
        assert ClustersAt(v, parse, visited[i]) * ClustersAt(v, parse, q) <= ClustersAt(v, parse, q) * claimed;
      }
    }
  }

  /** A shared cluster has two owners. */
  lemma SharedIsBroken(v: Volume, parse: Parser, visited: seq<Path>, claimed: set<nat>, q: Path)
    requires Opened(v) && Owned(v, parse, visited, claimed) && q !in visited
    requires ClustersAt(v, parse, q) * claimed != {}
    ensures Broken(v, parse)
  {
    hide Opened, EntriesAt, ClustersAt, DirAt;
    var c :| c in ClustersAt(v, parse, q) * claimed;
    var i :| 0 <= i < |visited| && c in ClustersAt(v, parse, visited[i]);
    assert visited[i] in visited;
    assert c in ClustersAt(v, parse, visited[i]) * ClustersAt(v, parse, q);
  }

  /** Once every reachable directory is visited, nothing is broken. */
  lemma VisitedIsWhole(v: Volume, parse: Parser, visited: seq<Path>, claimed: set<nat>)
    requires Opened(v) && Owned(v, parse, visited, claimed) && Covered(v, parse, [], visited)
    ensures !Broken(v, parse)
  {
    hide Opened, EntriesAt, DirAt;
    forall path: Path | DirAt(v, parse, path).Some? ensures EntriesAt(v, parse, path).Some? {
      assert path in visited;
    }
    forall p: Path, q: Path | p != q ensures ClustersAt(v, parse, p) * ClustersAt(v, parse, q) == {} {
      if DirAt(v, parse, p).Some? && DirAt(v, parse, q).Some? {
        assert p in visited && q in visited;
        var i :| 0 <= i < |visited| && visited[i] == p;
        var j :| 0 <= j < |visited| && visited[j] == q;
        hide ClustersAt;
        if j < i {
          assert ClustersAt(v, parse, q) * ClustersAt(v, parse, p) == {};
        }
      }
    }
  }

  // ---- The walk ----

  datatype Progress = Progress(pending: seq<Dir>, paths: seq<Path>, visited: seq<Path>, files: seq<EspFile>,
                               places: seq<Path>)

  /** Everything that one turn of the walk keeps. */
  ghost predicate Walking(v: Volume, parse: Parser, w: Progress, claimed: set<nat>)
    requires Opened(v)
  {
    && |w.pending| == |w.paths|
    && (forall k :: 0 <= k < |w.paths| ==> DirAt(v, parse, w.paths[k]) == Some(w.pending[k]))
    && (if w.visited == [] then w.paths == [[]] else [] in w.visited)
    && Frontier(w.paths, w.visited) && Covered(v, parse, w.paths, w.visited)
    && Listed(v, parse, w.visited, w.files, w.places) && Owned(v, parse, w.visited, claimed)
  }

  function Start(): Progress {
    Progress([Dir("", None)], [[]], [], [], [])
  }

  lemma WalkStarts(v: Volume, parse: Parser)
    requires Opened(v)
    ensures Walking(v, parse, Start(), {})
  {
    hide Opened, EntriesOf, FileAt, EntriesAt, ClustersAt;
    var w := Start();
    forall path: Path ensures HasPrefixIn(path, w.paths) {
      assert w.paths[0] <= path;
    }
    assert DirAt(v, parse, w.paths[0]) == Some(w.pending[0]);
  }

  /** The state after reading the last pending directory. */
  ghost function Advanced(w: Progress, entries: seq<Entry>): Progress
    requires w.pending != [] && |w.pending| == |w.paths|
  {
    var n := |w.paths| - 1;
    var q, d := w.paths[n], w.pending[n];
    Progress(w.pending[..n] + ChildDirs(entries, d.prefix, |entries|),
             w.paths[..n] + ChildPaths(entries, q, true, |entries|),
             w.visited + [q],
             w.files + ChildFiles(entries, d.prefix, |entries|),
             w.places + ChildPaths(entries, q, false, |entries|))
  }

  /** What is known of the directory on top of the stack. */
  lemma TopOfStack(v: Volume, parse: Parser, w: Progress, claimed: set<nat>)
    requires Opened(v) && Walking(v, parse, w, claimed) && w.pending != []
    ensures var q, d := w.paths[|w.paths| - 1], w.pending[|w.pending| - 1];
            && DirAt(v, parse, q) == Some(d) && q !in w.visited
            && (d.cluster.None? <==> w.visited == [])
            && EntriesAt(v, parse, q) == EntriesOf(v, parse, d.cluster)
            && (EntriesOf(v, parse, d.cluster).Some? ==>
                  ClustersOf(v, d.cluster).Some?
                  && ClustersAt(v, parse, q) == Elements(ClustersOf(v, d.cluster).value))
  {
    hide Opened, ClustersOf, Covered, Listed, Owned;
    var q := w.paths[|w.paths| - 1];
    assert q in w.paths;
    if q == [] {
      assert w.visited == [];
    }
  }

  lemma WalkAdvances(v: Volume, parse: Parser, w: Progress, claimed: set<nat>, entries: seq<Entry>)
    requires Opened(v) && Walking(v, parse, w, claimed) && w.pending != []
    requires EntriesAt(v, parse, w.paths[|w.paths| - 1]) == Some(entries)
    requires ClustersAt(v, parse, w.paths[|w.paths| - 1]) * claimed == {}
    ensures Walking(v, parse, Advanced(w, entries), claimed + ClustersAt(v, parse, w.paths[|w.paths| - 1]))
  {
    hide Opened, EntriesAt, EntriesOf, ClustersAt, DirAt, FileAt, Frontier, Covered, Listed, Owned, ChildDirs,
      ChildFiles, ChildPaths;
    var n := |w.paths| - 1;
    var rest, q := w.paths[..n], w.paths[n];
    assert w.paths == rest + [q];
    TopOfStack(v, parse, w, claimed);
    FrontierStep(rest, q, w.visited, ChildPaths(entries, q, true, |entries|));
    CoveredStep(v, parse, rest, q, w.visited);
    ListedStep(v, parse, w.visited, q, w.files, w.places);
    OwnedStep(v, parse, w.visited, claimed, q);
    ChildDirsMatch(v, parse, q, |entries|);
  }

  /** The loop over a directory's entries: subdirectories are pushed, files are listed. */
  method PushEntries(entries: seq<Entry>, prefix: string, pending: seq<Dir>, files: seq<EspFile>)
    returns (pending': seq<Dir>, files': seq<EspFile>)
    ensures pending' == pending + ChildDirs(entries, prefix, |entries|)
    ensures files' == files + ChildFiles(entries, prefix, |entries|)
  {
    pending', files' := pending, files;
    for i := 0 to |entries|
      invariant pending' == pending + ChildDirs(entries, prefix, i)
      invariant files' == files + ChildFiles(entries, prefix, i)
    {
      var entry := entries[i];
      if entry.directory {
        pending' := pending' + [Dir(prefix + entry.name + "/", Some(entry.cluster))];
      } else {
        files' := files' + [EspFile(prefix + entry.name, entry.size)];
      }
    }
  }

  predicate FileLe(a: EspFile, b: EspFile) {
    if a.path == b.path then a.size <= b.size else TextLe(a.path, b.path)
  }

  lemma {:induction false} TextLeAntisymmetric(a: string, b: string)
    requires TextLe(a, b) && TextLe(b, a)
    ensures a == b
  {
    if a != [] && b != [] {
      TextLeAntisymmetric(a[1..], b[1..]);
      assert a == [a[0]] + a[1..] && b == [b[0]] + b[1..];
    }
  }

  lemma FileLeOrders(s: multiset<EspFile>)
    ensures OrderOn(s, FileLe)
  {
    forall x, y | x in s && y in s ensures FileLe(x, y) || FileLe(y, x) {
      TextLeTotal(x.path, y.path);
    }
    forall x, y, z | x in s && y in s && z in s && FileLe(x, y) && FileLe(y, z) ensures FileLe(x, z) {
      if x.path != y.path && y.path != z.path {
        TextLeTransitive(x.path, y.path, z.path);
        if x.path == z.path {
          TextLeAntisymmetric(x.path, y.path);
        }
      }
    }
  }

  /** The list holds the file of every file path exactly once, in path order. */
  ghost predicate Exactly(v: Volume, parse: Parser, list: seq<EspFile>, found: seq<EspFile>, places: seq<Path>)
    requires Opened(v)
  {
    && Sorted(list, FileLe) && multiset(list) == multiset(found) && |found| == |places| && Distinct(places)
    && (forall i :: 0 <= i < |places| ==> FileAt(v, parse, places[i]) == Some(found[i]))
    && (forall path: Path :: FileAt(v, parse, path).Some? ==> path in places)
  }

  /** A file's directory is reachable. */
  lemma FileParent(v: Volume, parse: Parser, path: Path)
    requires Opened(v) && FileAt(v, parse, path).Some?
    ensures DirAt(v, parse, Parent(path)).Some?
  {
    hide Opened, EntriesOf, DirAt;
  }

  lemma WalkEnds(v: Volume, parse: Parser, w: Progress, claimed: set<nat>)
    requires Opened(v) && Walking(v, parse, w, claimed) && w.pending == []
    ensures !Broken(v, parse)
    ensures Exactly(v, parse, Sort(w.files, FileLe), w.files, w.places)
  {
    hide Opened, DirAt, FileAt, EntriesAt, ClustersAt, Owned, Sort, Sorted, Broken, Parent;
    VisitedIsWhole(v, parse, w.visited, claimed);
    FileLeOrders(multiset(w.files));
    SortSorts(w.files, FileLe);
    SortPermutes(w.files, FileLe);
    forall path: Path | FileAt(v, parse, path).Some? ensures path in w.places {
      FileParent(v, parse, path);
      assert Parent(path) in w.visited;
    }
  }

  /**
   * `walk`: terminates and succeeds exactly when every reachable directory can be read and no two share a cluster;
   * it then lists exactly the files of the directories reachable from the root, in order.
   */
  method Walk(v: Volume, parse: Parser)
    returns (r: Result<seq<EspFile>, FatError>, ghost found: seq<EspFile>, ghost places: seq<Path>)
    requires Opened(v)
    ensures r.Ok? <==> !Broken(v, parse)
    ensures r.Ok? ==> Exactly(v, parse, r.value, found, places)
    ensures r.Err? ==> r.error != BudgetExceeded && r.error != OutOfImage
  {
    hide Opened, DirAt, FileAt, Walking, Broken, Exactly, EntriesOf, ClustersOf, Spent, ClustersTo, Sort;
    var files: seq<EspFile> := [];
    var pending := [Dir("", None)];
    var limits := new WalkLimits(v.partition.size);
    ghost var w := Start();
    WalkStarts(v, parse);
    NothingSpent(v, limits);
    while pending != []
      invariant w.pending == pending && w.files == files && |w.paths| == |pending|
      invariant Walking(v, parse, w, limits.claimed) && WithinLimits(v, limits, w.visited != [])
      decreases if w.visited == [] then 1 else 0, ClustersTo(LastCluster(v)) - limits.claimed
    {
      hide *;
      ghost var before := limits.claimed;
      TopOfStack(v, parse, w, before);
      var top := pending[|pending| - 1];
      var read := Directory(v, parse, top.cluster, limits, w.visited == []);
      if read.Err? {
        Unreadable(v, parse, w, before);
        return Err(read.error), [], [];
      }
      WalkAdvances(v, parse, w, before, read.value);
      WalkingLengths(v, parse, Advanced(w, read.value), limits.claimed);
      Shrinks(v, limits, before, w, top);
      AdvancedShape(w, read.value);
      pending, files := PushEntries(read.value, top.prefix, pending[..|pending| - 1], files);
      w := Advanced(w, read.value);
    }
    WalkEnds(v, parse, w, limits.claimed);
    return Ok(Sort(files, FileLe)), w.files, w.places;
  }

  lemma WalkingLengths(v: Volume, parse: Parser, w: Progress, claimed: set<nat>)
    requires Opened(v) && Walking(v, parse, w, claimed)
    ensures |w.pending| == |w.paths|
  {
    hide Opened, DirAt, Frontier, Covered, Listed, Owned;
  }

  lemma NothingSpent(v: Volume, limits: WalkLimits)
    requires Opened(v) && limits.claimed == {} && limits.remaining == v.partition.size
    ensures WithinLimits(v, limits, false)
  {
  }

  lemma AdvancedShape(w: Progress, entries: seq<Entry>)
    requires w.pending != [] && |w.pending| == |w.paths|
    ensures var a, top := Advanced(w, entries), w.pending[|w.pending| - 1];
            && a.pending == w.pending[..|w.pending| - 1] + ChildDirs(entries, top.prefix, |entries|)
            && a.files == w.files + ChildFiles(entries, top.prefix, |entries|) && a.visited != []
  {
  }

  /** A directory that the walk cannot take makes the volume broken. */
  lemma Unreadable(v: Volume, parse: Parser, w: Progress, claimed: set<nat>)
    requires Opened(v) && Walking(v, parse, w, claimed) && w.pending != []
    requires var cluster := w.pending[|w.pending| - 1].cluster;
             || EntriesOf(v, parse, cluster).None?
             || ClustersOf(v, cluster).None? || Elements(ClustersOf(v, cluster).value) * claimed != {}
    ensures Broken(v, parse)
  {
    hide Opened, DirAt, EntriesOf, ClustersOf, Frontier, Covered, Listed, Owned;
    TopOfStack(v, parse, w, claimed);
    var q, d := w.paths[|w.paths| - 1], w.pending[|w.pending| - 1];
    if EntriesOf(v, parse, d.cluster).None? {
      assert DirAt(v, parse, q).Some? && EntriesAt(v, parse, q).None?;
    } else {
      SharedIsBroken(v, parse, w.visited, claimed, q);
    }
  }

  /** Every turn claims a new cluster, except for a fixed root, which is read once and first. */
  lemma Shrinks(v: Volume, limits: WalkLimits, before: set<nat>, w: Progress, top: Dir)
    requires Opened(v) && WithinLimits(v, limits, true) && ClustersOf(v, top.cluster).Some?
    requires limits.claimed == before + Elements(ClustersOf(v, top.cluster).value)
    requires Elements(ClustersOf(v, top.cluster).value) * before == {}
    requires top.cluster.None? <==> w.visited == []
    ensures w.visited != [] ==>
              ClustersTo(LastCluster(v)) - limits.claimed < ClustersTo(LastCluster(v)) - before
  {
    hide Opened;
    if w.visited != [] {
      var chain := ClustersOf(v, top.cluster).value;
      var c := chain[0];
      assert c in Elements(chain) && (c in before ==> c in Elements(chain) * before);
      assert c in ClustersTo(LastCluster(v)) - before && c !in ClustersTo(LastCluster(v)) - limits.claimed;
    }
  }
}
