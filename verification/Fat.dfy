/**
 * The FAT reader of the EFI system partition (mkosi/private/esp_manifest/rules_mkosi_esp_manifest.py): geometry,
 * packed allocation table entries and cluster chains.
 */
module Fat {
  import opened Prelude
  import opened Arithmetic
  import opened Bytes

  const DIRECTORY_ENTRY := 32
  const MAX_DIRECTORY_BYTES := 65536 * 32
  const FAT12_CLUSTER_LIMIT := 4085

  datatype FatError =
    | OutOfImage
    | InvalidBootSector
    | LargerThanPartition
    | NoClusters
    | FatTooSmall
    | InvalidCluster(cluster: nat)
    | ChainLoops(cluster: nat)
    | TooManyEntries
    | CrossLinked
    | BudgetExceeded
    | WrongChainLength

  datatype Partition = Partition(offset: nat, size: nat)

  /** The partition lies within the image and holds at least a boot sector, as the ESP search ensures. */
  predicate IsEsp(image: Bytes, p: Partition) {
    512 <= p.size && p.offset + p.size <= |image|
  }

  // ---- Geometry ----

  datatype Geometry = Geometry(
    fat32: bool,
    fatOffset: nat,
    fatSize: nat,
    rootOffset: nat,
    rootSize: nat,
    rootCluster: nat,
    dataOffset: nat,
    clusterSize: nat,
    clusters: nat)

  datatype Boot = Boot(
    sector: nat,
    perCluster: nat,
    reserved: nat,
    fats: nat,
    rootEntries: nat,
    total16: nat,
    fatSize16: nat,
    total32: nat,
    fatSize32: nat,
    rootCluster: nat,
    marked: bool)

  function BootFields(boot: Bytes): Boot
    requires |boot| == 512
  {
    Boot(U16(boot, 11), boot[13], U16(boot, 14), boot[16], U16(boot, 17), U16(boot, 19), U16(boot, 22),
         U32(boot, 32), U32(boot, 36), U32(boot, 44), boot[510] == 0x55 && boot[511] == 0xAA)
  }

  function FatBytes(b: Boot): nat {
    (if b.fatSize16 == 0 then b.fatSize32 else b.fatSize16) * b.sector
  }

  function TotalBytes(b: Boot): nat {
    (if b.total16 != 0 then b.total16 else b.total32) * b.sector
  }

  predicate ValidBoot(b: Boot) {
    && b.marked && b.sector in {512, 1024, 2048, 4096} && b.perCluster in {1, 2, 4, 8, 16, 32, 64, 128}
    && b.reserved > 0 && b.fats > 0 && FatBytes(b) > 0 && ((b.rootEntries == 0) <==> b.fatSize16 == 0)
  }

  /** Offset of the root directory region within the partition. */
  function RootAt(b: Boot): nat {
    b.reserved * b.sector + b.fats * FatBytes(b)
  }

  function RootBytes(b: Boot): nat {
    b.rootEntries * DIRECTORY_ENTRY
  }

  /** Offset of the data region within the partition: the root directory rounded up to a sector. */
  function DataAt(b: Boot): nat
    requires b.sector > 0
  {
    RootAt(b) + (RootBytes(b) + b.sector - 1) / b.sector * b.sector
  }

  /** `_geometry`. */
  function GeometryOf(b: Boot, p: Partition): Result<Geometry, FatError> {
    if !ValidBoot(b) then Err(InvalidBootSector)
    else if TotalBytes(b) > p.size then Err(LargerThanPartition)
    else
      var clusterSize := b.perCluster * b.sector;
      var clusters := (if TotalBytes(b) <= DataAt(b) then 0 else TotalBytes(b) - DataAt(b)) / clusterSize;
      if clusters == 0 then Err(NoClusters)
      else Ok(Geometry(b.fatSize16 == 0, p.offset + b.reserved * b.sector, FatBytes(b), p.offset + RootAt(b),
                       RootBytes(b), if b.fatSize16 == 0 then b.rootCluster else 0, p.offset + DataAt(b),
                       clusterSize, clusters))
  }

  /** The regions lie in order, disjoint and inside the partition: FATs, root directory, clusters. */
  predicate RegionsInside(g: Geometry, p: Partition) {
    && p.offset < g.fatOffset && g.fatOffset + g.fatSize <= g.rootOffset
    && g.rootOffset + g.rootSize <= g.dataOffset && g.clusterSize > 0
    && g.dataOffset + g.clusters * g.clusterSize <= p.offset + p.size
  }

  lemma RoundUp(n: nat, s: nat)
    requires s > 0
    ensures n <= (n + s - 1) / s * s
  {
    var q := (n + s - 1) / s;
    assert n + s - 1 == s * q + (n + s - 1) % s;
    assert s * q == q * s;
  }

  lemma DivFits(n: nat, size: nat)
    requires size > 0
    ensures n / size * size <= n
  {
    assert n == size * (n / size) + n % size;
    assert size * (n / size) == n / size * size;
  }

  lemma GeometryInside(b: Boot, p: Partition)
    requires GeometryOf(b, p).Ok?
    ensures RegionsInside(GeometryOf(b, p).value, p)
    ensures GeometryOf(b, p).value.clusters > 0 && (GeometryOf(b, p).value.fat32 ==> GeometryOf(b, p).value.rootSize == 0)
  {
    hide FatBytes, TotalBytes;
    var g := GeometryOf(b, p).value;
    MulMonotone(1, b.fats, FatBytes(b));
    MulMonotone(1, b.reserved, b.sector);
    MulMonotone(1, b.perCluster, b.sector);
    RoundUp(RootBytes(b), b.sector);
    DivFits(TotalBytes(b) - DataAt(b), g.clusterSize);
  }

  lemma GeometryErrors(b: Boot, p: Partition)
    ensures GeometryOf(b, p).Err? ==> GeometryOf(b, p).error != OutOfImage
  {
    hide ValidBoot, DataAt, RootAt, FatBytes, TotalBytes;
  }

  // ---- The volume ----

  datatype Volume = Volume(image: Bytes, partition: Partition, geometry: Geometry, bits: nat, fat: Bytes)

  function LastCluster(v: Volume): nat {
    v.geometry.clusters + 1
  }

  function EndOfChain(bits: nat): nat {
    if bits == 12 then 0xFF8 else if bits == 16 then 0xFFF8 else 0x0FFF_FFF8
  }

  /** A volume that opening a partition can produce. */
  ghost predicate Opened(v: Volume) {
    && IsEsp(v.image, v.partition) && RegionsInside(v.geometry, v.partition)
    && v.geometry.clusters > 0 && (v.geometry.fat32 ==> v.geometry.rootSize == 0)
    && v.bits == (if v.geometry.fat32 then 32 else if v.geometry.clusters < FAT12_CLUSTER_LIMIT then 12 else 16)
    && |v.fat| == v.geometry.fatSize && (LastCluster(v) + 1) * v.bits <= v.geometry.fatSize * 8
  }

  /** The table holds the bytes of the image at its place. */
  predicate TableRead(v: Volume) {
    && v.geometry.fatOffset + v.geometry.fatSize <= |v.image|
    && v.fat == v.image[v.geometry.fatOffset..v.geometry.fatOffset + v.geometry.fatSize]
  }

  /** `_FatVolume.__init__`: neither the boot sector nor the FAT read leaves the image. */
  method Open(image: Bytes, p: Partition) returns (r: Result<Volume, FatError>)
    requires IsEsp(image, p)
    ensures r.Ok? ==> Opened(r.value) && r.value.image == image && r.value.partition == p
    ensures r.Ok? ==> GeometryOf(BootFields(image[p.offset..p.offset + 512]), p) == Ok(r.value.geometry)
    ensures r.Ok? ==> TableRead(r.value)
    ensures r.Err? ==> r.error != OutOfImage
  {
    hide GeometryOf, BootFields, Opened, RegionsInside, IsEsp, TableRead;
    EspHoldsBoot(image, p);
    if p.offset + 512 > |image| {
      return Err(OutOfImage);
    }
    var boot := image[p.offset..p.offset + 512];
    var parsed := GeometryOf(BootFields(boot), p);
    GeometryErrors(BootFields(boot), p);
    if parsed.Err? {
      return Err(parsed.error);
    }
    var g := parsed.value;
    GeometryInside(BootFields(boot), p);
    r := ReadTable(image, p, g);
  }

  /** The allocation table of the volume: it must hold an entry for every cluster. */
  method ReadTable(image: Bytes, p: Partition, g: Geometry) returns (r: Result<Volume, FatError>)
    requires IsEsp(image, p) && RegionsInside(g, p) && g.clusters > 0 && (g.fat32 ==> g.rootSize == 0)
    ensures r.Ok? ==> Opened(r.value) && r.value.image == image && r.value.partition == p && r.value.geometry == g
    ensures r.Ok? ==> TableRead(r.value)
    ensures r.Err? ==> r.error == FatTooSmall
  {
    hide Opened, RegionsInside, IsEsp;
    EspHoldsFat(image, p, g);
    var last := g.clusters + 1;
    var bits := if g.fat32 then 32 else if g.clusters < FAT12_CLUSTER_LIMIT then 12 else 16;
    if (last + 1) * bits > g.fatSize * 8 {
      return Err(FatTooSmall);
    }
    if g.fatOffset + g.fatSize > |image| {
      return Err(OutOfImage);
    }
    OpenedVolume(image, p, g, bits);
    return Ok(Volume(image, p, g, bits, image[g.fatOffset..g.fatOffset + g.fatSize]));
  }

  lemma EspHoldsBoot(image: Bytes, p: Partition)
    requires IsEsp(image, p)
    ensures p.offset + 512 <= |image|
  {
  }

  lemma EspHoldsFat(image: Bytes, p: Partition, g: Geometry)
    requires IsEsp(image, p) && RegionsInside(g, p)
    ensures g.fatOffset + g.fatSize <= |image|
  {
    assert g.clusters * g.clusterSize >= 0;
  }

  lemma OpenedVolume(image: Bytes, p: Partition, g: Geometry, bits: nat)
    requires IsEsp(image, p) && RegionsInside(g, p) && g.clusters > 0 && (g.fat32 ==> g.rootSize == 0)
    requires bits == (if g.fat32 then 32 else if g.clusters < FAT12_CLUSTER_LIMIT then 12 else 16)
    requires (g.clusters + 1 + 1) * bits <= g.fatSize * 8 && g.fatOffset + g.fatSize <= |image|
    ensures Opened(Volume(image, p, g, bits, image[g.fatOffset..g.fatOffset + g.fatSize]))
  {
    hide RegionsInside, IsEsp;
  }

  // ---- Allocation table entries ----

  predicate InRange(v: Volume, cluster: nat) {
    2 <= cluster <= LastCluster(v)
  }

  /** Every entry of a cluster, the packed 12-bit form included, lies inside the FAT. */
  lemma EntryInsideFat(v: Volume, cluster: nat)
    requires Opened(v) && InRange(v, cluster)
    ensures v.bits == 12 ==> cluster * 3 / 2 + 2 <= |v.fat|
    ensures v.bits == 16 ==> cluster * 2 + 2 <= |v.fat|
    ensures v.bits == 32 ==> cluster * 4 + 4 <= |v.fat|
  {
  }

  /** `_next_cluster`. */
  function NextCluster(v: Volume, cluster: nat): nat
    requires Opened(v) && InRange(v, cluster)
  {
    EntryInsideFat(v, cluster);
    if v.bits == 12 then
      var value := U16(v.fat, cluster * 3 / 2);
      if cluster % 2 == 1 then value / 16 else value % 0x1000
    else if v.bits == 16 then U16(v.fat, cluster * 2)
    else U32(v.fat, cluster * 4) % 0x1000_0000
  }

  lemma ThreeBytes(a: int, b: int, c: int)
    requires 0 <= a < 0x100 && 0 <= b < 0x100 && 0 <= c < 0x100
    ensures (a + 0x100 * b) % 0x1000 + 0x1000 * ((b + 0x100 * c) / 16) == a + 0x100 * b + 0x1_0000 * c
    ensures (b + 0x100 * c) / 16 < 0x1000
  {
  }

  /** Two neighbouring 12-bit entries share a byte but no bit: together they are exactly three bytes. */
  lemma PackedEntries(v: Volume, even: nat)
    requires Opened(v) && v.bits == 12 && even % 2 == 0 && InRange(v, even) && InRange(v, even + 1)
    ensures var at := even / 2 * 3;
            && at + 3 <= |v.fat|
            && NextCluster(v, even) + 0x1000 * NextCluster(v, even + 1)
               == v.fat[at] as int + 0x100 * (v.fat[at + 1] as int) + 0x1_0000 * (v.fat[at + 2] as int)
            && NextCluster(v, even) < 0x1000 && NextCluster(v, even + 1) < 0x1000
  {
    hide Opened, InRange, NextCluster;
    var at := even / 2 * 3;
    PackedPair(v, even);
    ThreeBytes(v.fat[at], v.fat[at + 1], v.fat[at + 2]);
  }

  lemma PackedPair(v: Volume, even: nat)
    requires Opened(v) && v.bits == 12 && even % 2 == 0 && InRange(v, even) && InRange(v, even + 1)
    ensures even / 2 * 3 + 3 <= |v.fat|
    ensures NextCluster(v, even) == U16(v.fat, even / 2 * 3) % 0x1000
    ensures NextCluster(v, even + 1) == U16(v.fat, even / 2 * 3 + 1) / 16
  {
    hide Opened, InRange, U16;
    PackedPlace(even);
    EntryInsideFat(v, even);
    EntryInsideFat(v, even + 1);
  }

  lemma PackedPlace(even: nat)
    requires even % 2 == 0
    ensures even * 3 / 2 == even / 2 * 3 && (even + 1) * 3 / 2 == even / 2 * 3 + 1 && (even + 1) % 2 == 1
  {
  }

  // ---- Cluster chains ----

  /** The table leads from one cluster of a list to the next. */
  ghost predicate LinkAt(v: Volume, chain: seq<nat>, i: nat)
    requires Opened(v) && i + 1 < |chain| && InRange(v, chain[i])
  {
    NextCluster(v, chain[i]) == chain[i + 1] && chain[i + 1] < EndOfChain(v.bits)
  }

  /** The linked list of clusters from first to an end marker, without repetition. */
  ghost predicate IsChain(v: Volume, first: nat, chain: seq<nat>)
    requires Opened(v)
  {
    && chain != [] && chain[0] == first && Distinct(chain)
    && (forall i :: 0 <= i < |chain| ==> InRange(v, chain[i]))
    && (forall i :: 0 <= i < |chain| - 1 ==> LinkAt(v, chain, i))
    && NextCluster(v, chain[|chain| - 1]) >= EndOfChain(v.bits)
  }

  /** The clusters followed so far, and the one they lead to. */
  ghost predicate Followed(v: Volume, first: nat, chain: seq<nat>, cluster: nat)
    requires Opened(v)
  {
    && Distinct(chain) && (forall i :: 0 <= i < |chain| ==> InRange(v, chain[i]))
    && (chain == [] ==> cluster == first)
    && (chain != [] ==> chain[0] == first && NextCluster(v, chain[|chain| - 1]) == cluster
                        && cluster < EndOfChain(v.bits))
    && (forall i :: 0 <= i < |chain| - 1 ==> LinkAt(v, chain, i))
  }

  lemma FollowedStep(v: Volume, first: nat, chain: seq<nat>, cluster: nat)
    requires Opened(v) && Followed(v, first, chain, cluster) && InRange(v, cluster) && cluster !in chain
    ensures NextCluster(v, cluster) < EndOfChain(v.bits) ==>
              Followed(v, first, chain + [cluster], NextCluster(v, cluster))
    ensures NextCluster(v, cluster) >= EndOfChain(v.bits) ==> IsChain(v, first, chain + [cluster])
  {
    hide NextCluster, Opened;
    var longer := chain + [cluster];
    forall i | 0 <= i < |longer| - 1 ensures LinkAt(v, longer, i) {
      if i < |chain| - 1 {
        assert LinkAt(v, chain, i);
      } else {
        assert longer[i] == chain[|chain| - 1];
      }
    }
  }

  /** A complete chain can only extend what was followed, so the loop can neither stop early nor go astray. */
  lemma FollowedIsPrefix(v: Volume, first: nat, followed: seq<nat>, cluster: nat, chain: seq<nat>)
    requires Opened(v) && Followed(v, first, followed, cluster) && IsChain(v, first, chain)
    ensures |followed| < |chain| && followed <= chain && chain[|followed|] == cluster
    ensures InRange(v, cluster) && cluster !in followed
  {
    hide NextCluster, Opened;
    PrefixAt(v, first, followed, cluster, chain, |followed|);
    assert followed == chain[..|followed|];
  }

  lemma {:induction false} PrefixAt(v: Volume, first: nat, followed: seq<nat>, cluster: nat, chain: seq<nat>, n: nat)
    requires Opened(v) && Followed(v, first, followed, cluster) && IsChain(v, first, chain) && n <= |followed|
    ensures n < |chain| && chain[n] == (if n < |followed| then followed[n] else cluster)
    ensures forall i :: 0 <= i < n ==> chain[i] == followed[i]
    decreases n
  {
    hide NextCluster, Opened;
    if n > 0 {
      PrefixAt(v, first, followed, cluster, chain, n - 1);
      if n < |followed| {
        assert LinkAt(v, followed, n - 1);
      }
      assert NextCluster(v, chain[n - 1]) < EndOfChain(v.bits);
      assert LinkAt(v, chain, n - 1);
    }
  }

  /** The clusters numbered 2 to n. */
  function ClustersTo(n: nat): (r: set<nat>)
    ensures forall c :: c in r <==> 2 <= c <= n
    ensures |r| == if n < 2 then 0 else n - 1
  {
    if n < 2 then {} else ClustersTo(n - 1) + {n}
  }

  /**
   * `_chain`: terminates and returns exactly the linked list of clusters that starts at first, or fails because there
   * is none.
   */
  method Chain(v: Volume, first: nat) returns (r: Result<seq<nat>, FatError>)
    requires Opened(v)
    ensures r.Ok? ==> IsChain(v, first, r.value)
    ensures r.Err? ==> forall chain :: !IsChain(v, first, chain)
    ensures r.Err? ==> r.error.InvalidCluster? || r.error.ChainLoops?
  {
    hide Opened, NextCluster, IsChain;
    var chain: seq<nat> := [];
    var visited: set<nat> := {};
    var cluster: nat := first;
    while true
      invariant Followed(v, first, chain, cluster) && visited == Elements(chain)
      decreases Left(v, visited)
    {
      hide Left, ClustersTo, EndOfChain;
      hide Opened, NextCluster, Followed, IsChain;
      if !(2 <= cluster <= v.geometry.clusters + 1) {
        NoChain(v, first, chain, cluster);
        return Err(InvalidCluster(cluster));
      }
      if cluster in visited {
        NoChain(v, first, chain, cluster);
        return Err(ChainLoops(cluster));
      }
      RangeOf(v, cluster);
      FollowedStep(v, first, chain, cluster);
      FewerLeft(v, visited, cluster);
      visited := visited + {cluster};
      chain := chain + [cluster];
      cluster := NextCluster(v, cluster);
      if cluster >= EndOfChain(v.bits) {
        return Ok(chain);
      }
    }
  }

  /** The clusters that a chain has not visited. */
  function Left(v: Volume, visited: set<nat>): set<nat> {
    ClustersTo(LastCluster(v)) - visited
  }

  lemma FewerLeft(v: Volume, visited: set<nat>, cluster: nat)
    requires InRange(v, cluster) && cluster !in visited
    ensures Left(v, visited + {cluster}) < Left(v, visited)
  {
    assert cluster in Left(v, visited) && cluster !in Left(v, visited + {cluster});
  }

  lemma RangeOf(v: Volume, cluster: nat)
    ensures InRange(v, cluster) <==> 2 <= cluster <= v.geometry.clusters + 1
  {
  }

  lemma NoChain(v: Volume, first: nat, followed: seq<nat>, cluster: nat)
    requires Opened(v) && Followed(v, first, followed, cluster)
    requires !InRange(v, cluster) || cluster in followed
    ensures forall chain :: !IsChain(v, first, chain)
  {
    hide Opened, Followed, IsChain, InRange;
    forall chain ensures !IsChain(v, first, chain) {
      if IsChain(v, first, chain) {
        FollowedIsPrefix(v, first, followed, cluster, chain);
      }
    }
  }

  /** There is at most one chain from a cluster. */
  lemma ChainUnique(v: Volume, first: nat, a: seq<nat>, b: seq<nat>)
    requires Opened(v) && IsChain(v, first, a) && IsChain(v, first, b)
    ensures a == b
  {
    hide Opened, NextCluster;
    ChainPrefix(v, first, a, b);
    ChainPrefix(v, first, b, a);
  }

  lemma ChainPrefix(v: Volume, first: nat, a: seq<nat>, b: seq<nat>)
    requires Opened(v) && IsChain(v, first, a) && IsChain(v, first, b)
    ensures a <= b
  {
    hide Opened, NextCluster;
    var n := |a| - 1;
    var front := a[..n];
    forall i | 0 <= i < |front| - 1 ensures LinkAt(v, front, i) {
      assert LinkAt(v, a, i);
    }
    if n > 0 {
      assert LinkAt(v, a, n - 1) && front[n - 1] == a[n - 1];
    }
    assert Followed(v, first, front, a[n]);
    hide Followed;
    FollowedIsPrefix(v, first, front, a[n], b);
    assert a == front + [a[n]];
  }
}
