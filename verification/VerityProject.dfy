/**
 * Acceptance of dm-verity split artifacts (mkosi/private/verity_metadata.py): the superblock fixes the geometry, and
 * every byte of both artifacts is either covered by the tree or required to be zero.
 */
module VerityProject {
  import opened Prelude
  import opened Bytes
  import opened VerityLayout
  import opened Merkle
  import opened Verity

  const MAX_ARTIFACT_BYTES := 0x4_0000_0000

  /** A hash algorithm by its digest size and function; the library behind it is a parameter. */
  datatype Algorithm = Algorithm(digest: nat, hash: Bytes -> Bytes)

  type Algorithms = Bytes -> Option<Algorithm>

  ghost predicate GoodAlgorithms(algorithms: Algorithms) {
    forall name :: algorithms(name).Some? ==> GoodAlgorithm(algorithms(name).value)
  }

  ghost predicate GoodAlgorithm(a: Algorithm) {
    a.digest >= 1 && forall x :: |a.hash(x)| == a.digest
  }

  // ---- Superblock ----

  const MAGIC: Bytes := [118, 101, 114, 105, 116, 121, 0, 0]

  function UntilZero(s: Bytes): Bytes {
    if s == [] || s[0] == 0 then [] else [s[0]] + UntilZero(s[1..])
  }

  predicate IsAscii(s: Bytes) {
    forall i :: 0 <= i < |s| ==> s[i] < 128
  }

  /** `_read_superblock`. */
  function ReadSuperblock(image: Bytes, algorithms: Algorithms): Result<Geometry, VerityError>
    requires GoodAlgorithms(algorithms)
  {
    var value := ReadAt(image, 0, SUPERBLOCK_SIZE);
    if |value| != SUPERBLOCK_SIZE || value[..8] != MAGIC then Err(NoSuperblock)
    else
      var name := UntilZero(value[32..64]);
      var dataBlock, hashBlock := U32(value, 64), U32(value, 68);
      var dataBlocks, saltSize := U64(value, 72), U16(value, 80);
      if !IsAscii(name) then Err(UnsupportedAlgorithm)
      else if U32(value, 8) != 1 || U32(value, 12) != 1 then Err(UnsupportedFormat)
      else match algorithms(name)
        case None => Err(UnsupportedAlgorithm)
        case Some(algorithm) =>
          var slot := SlotSize(dataBlock, hashBlock, algorithm.digest);
          if slot.Err? then Err(slot.error)
          else if dataBlocks == 0 || dataBlocks > MAX_BLOCKS then Err(InvalidBlockCount)
          else if saltSize > 256 then Err(InvalidSaltSize)
          else Ok(Geometry(algorithm.hash, algorithm.digest, dataBlock, dataBlocks, hashBlock, slot.value,
                           value[88..88 + saltSize]))
  }

  /** An accepted superblock gives a geometry whose slots fit, and the slot check never fails on its own. */
  lemma SuperblockSound(image: Bytes, algorithms: Algorithms)
    requires GoodAlgorithms(algorithms)
    ensures ReadSuperblock(image, algorithms).Ok? ==> Sound(ReadSuperblock(image, algorithms).value)
    ensures ReadSuperblock(image, algorithms) != Err(SlotsDoNotDivide)
  {
    var value := ReadAt(image, 0, SUPERBLOCK_SIZE);
    if |value| == SUPERBLOCK_SIZE {
      var a := algorithms(UntilZero(value[32..64]));
      if a.Some? {
        SlotSizeExact(U32(value, 64), U32(value, 68), a.value.digest);
      }
    }
  }

  // ---- Hexadecimal root hash ----

  function HexDigit(n: nat): char
    requires n < 16
  {
    if n < 10 then ('0' as int + n) as char else ('a' as int + n - 10) as char
  }

  function Hex(s: Bytes): string {
    if s == [] then "" else [HexDigit(s[0] / 16), HexDigit(s[0] % 16)] + Hex(s[1..])
  }

  lemma HexDigitInjective(m: nat, n: nat)
    requires m < 16 && n < 16 && HexDigit(m) == HexDigit(n)
    ensures m == n
  {
    assert HexDigit(m) as int == if m < 10 then '0' as int + m else 'a' as int + m - 10;
    assert HexDigit(n) as int == if n < 10 then '0' as int + n else 'a' as int + n - 10;
  }

  lemma {:induction false} HexInjective(a: Bytes, b: Bytes)
    requires Hex(a) == Hex(b)
    ensures a == b
  {
    if a != [] && b != [] {
      var x, y := Hex(a), Hex(b);
      assert x[0] == y[0] && x[1] == y[1] && x[2..] == y[2..];
      assert x[2..] == Hex(a[1..]) && y[2..] == Hex(b[1..]);
      HexDigitInjective(a[0] / 16, b[0] / 16);
      HexDigitInjective(a[0] % 16, b[0] % 16);
      HexInjective(a[1..], b[1..]);
      assert a == [a[0]] + a[1..] && b == [b[0]] + b[1..];
    }
  }

  // ---- Acceptance ----

  /** The bytes of the root image that the tree covers (`verity_extents`). */
  function RootExtent(g: Geometry): nat {
    g.dataBlocks * g.dataBlock
  }

  /** The bytes of a file from an offset on. */
  function From(s: Bytes, at: nat): Bytes {
    if at <= |s| then s[at..] else []
  }

  /** Both artifacts are exactly what the geometry and the root hash demand. */
  ghost predicate Canonical(rootHash: string, g: Geometry, root: Bytes, image: Bytes) {
    && Sound(g)
    && TreeIsGenuine(g, root, image, g.hashBlock)
    && AllZero(From(root, RootExtent(g)))
    && g.hashBlock <= |image| && AllZero(From(image[..g.hashBlock], SUPERBLOCK_SIZE))
    && (LeavesConverge(g, root);
        AllZero(From(image, g.hashBlock + |TreeBytes(g, Leaves(g, root, g.dataBlocks))|))
        && Hex(MerkleRoot(g, Leaves(g, root, g.dataBlocks))) == rootHash)
  }

  datatype Report = Report(geometry: Geometry, levels: nat, treeOffset: nat, treeSize: nat, rootHash: string)

  /** The artifact sizes are within limits and equal their partitions. */
  predicate SizesAccepted(root: Bytes, image: Bytes, rootPartition: nat, hashPartition: nat) {
    |root| == rootPartition && |image| == hashPartition && |root| <= MAX_ARTIFACT_BYTES && |image| <= MAX_ARTIFACT_BYTES
  }

  /**
   * `project`: accepts exactly the canonical artifacts of the superblock's geometry, and reports the geometry and
   * the extent of the tree.
   */
  method Project(rootHash: string, rootPartition: nat, hashPartition: nat, root: Bytes, image: Bytes,
                 algorithms: Algorithms)
    returns (r: Result<Report, VerityError>)
    requires GoodAlgorithms(algorithms)
    ensures r.Ok? <==> && SizesAccepted(root, image, rootPartition, hashPartition)
                       && ReadSuperblock(image, algorithms).Ok?
                       && Canonical(rootHash, ReadSuperblock(image, algorithms).value, root, image)
    ensures r.Ok? ==> && r.value.geometry == ReadSuperblock(image, algorithms).value
                      && r.value.treeOffset == r.value.geometry.hashBlock
                      && r.value.levels <= 32 && r.value.rootHash == rootHash
                      && Sound(r.value.geometry)
                      && TreeIsGenuine(r.value.geometry, root, image, r.value.treeOffset)
                      && r.value.treeSize == TreeSize(r.value.geometry, root)
  {
    hide Concat, MerkleRoot, TreeBytes, Stored, Leaves, Ceil, Hex, SlotSize, UntilZero;
    if |root| > MAX_ARTIFACT_BYTES || |image| > MAX_ARTIFACT_BYTES {
      return Err(ArtifactTooLarge);
    }
    if |root| != rootPartition || |image| != hashPartition {
      return Err(WrongPartitionSize);
    }
    var parsed := ReadSuperblock(image, algorithms);
    if parsed.Err? {
      return Err(parsed.error);
    }
    var g := parsed.value;
    SuperblockSound(image, algorithms);
    hide ReadSuperblock, Sound;
    r := ProjectGeometry(rootHash, g, root, image);
  }

  function TreeSize(g: Geometry, root: Bytes): nat
    requires Sound(g) && Covers(g, root) && (Per(g) >= 2 || g.dataBlocks == 1)
  {
    LeavesConverge(g, root);
    |TreeBytes(g, Leaves(g, root, g.dataBlocks))|
  }

  /** The part of `project` after the superblock has been read. */
  method ProjectGeometry(rootHash: string, g: Geometry, root: Bytes, image: Bytes)
    returns (r: Result<Report, VerityError>)
    requires Sound(g)
    ensures r.Ok? <==> Canonical(rootHash, g, root, image)
    ensures r.Ok? ==> && r.value.geometry == g && r.value.treeOffset == g.hashBlock
                      && r.value.levels <= 32 && r.value.rootHash == rootHash
                      && r.value.treeSize == TreeSize(g, root)
  {
    hide Concat, MerkleRoot, TreeBytes, Stored, Leaves, Ceil, Hex, Sound;
    if RootExtent(g) > |root| {
      return Err(GeometryExceedsRoot);
    }
    if !AllZero(From(root, RootExtent(g))) {
      return Err(NonzeroTrailer);
    }
    var treeOffset := g.hashBlock;
    var header := ReadAt(image, 0, treeOffset);
    if |header| != treeOffset || !AllZero(From(header, SUPERBLOCK_SIZE)) {
      HeaderRejected(image, treeOffset);
      return Err(NonzeroPadding);
    }
    HeaderRejected(image, treeOffset);
    var dir := new SpoolDirectory();
    var verified := VerifyTree(g, root, image, treeOffset, dir);
    if verified.Err? {
      return Err(verified.error);
    }
    var (levels, digest, treeSize) := verified.value;
    if !AllZero(From(image, treeOffset + treeSize)) {
      return Err(NonzeroTrailer);
    }
    if Hex(digest) != rootHash {
      return Err(WrongRootHash);
    }
    return Ok(Report(g, |levels|, treeOffset, treeSize, rootHash));
  }

  lemma HeaderRejected(image: Bytes, offset: nat)
    ensures var header := ReadAt(image, 0, offset);
            |header| == offset <==> offset <= |image|
    ensures offset <= |image| ==> ReadAt(image, 0, offset) == image[..offset]
  {
  }

  // ---- What acceptance promises ----

  lemma ZeroSuffix(a: Bytes, b: Bytes, at: nat)
    requires |a| == |b| && at <= |a| && a[..at] == b[..at] && AllZero(a[at..]) && AllZero(b[at..])
    ensures a == b
  {
    assert a == a[..at] + a[at..] && b == b[..at] + b[at..];
    AllZeroIsZeros(a[at..]);
    AllZeroIsZeros(b[at..]);
  }

  /**
   * Binding: two root images of one size accepted with the same root hash and geometry are identical, or the two
   * returned messages are a collision of the salted hash.
   */
  lemma RootHashBinds(rootHash: string, g: Geometry, root: Bytes, image: Bytes, root': Bytes, image': Bytes)
    returns (x: Bytes, y: Bytes)
    requires Canonical(rootHash, g, root, image) && Canonical(rootHash, g, root', image')
    requires |root| == |root'|
    ensures root == root' || Collision(g, x, y)
  {
    LeavesConverge(g, root);
    LeavesConverge(g, root');
    HexInjective(MerkleRoot(g, Leaves(g, root, g.dataBlocks)), MerkleRoot(g, Leaves(g, root', g.dataBlocks)));
    x, y := DataBinds(g, root, root');
    if !Collision(g, x, y) {
      ZeroSuffix(root, root', RootExtent(g));
    }
  }

  /** The hash image is determined by its superblock, its size and the root image. */
  lemma HashImageUnique(rootHash: string, rootHash': string, g: Geometry, root: Bytes, image: Bytes, image': Bytes)
    requires Canonical(rootHash, g, root, image) && Canonical(rootHash', g, root, image')
    requires |image| == |image'| && SUPERBLOCK_SIZE <= |image|
    requires image[..SUPERBLOCK_SIZE] == image'[..SUPERBLOCK_SIZE]
    ensures image == image'
  {
    LeavesConverge(g, root);
    var tree := TreeBytes(g, Leaves(g, root, g.dataBlocks));
    HeaderUnique(image, image', g.hashBlock);
    StoredAgree(image, image', g.hashBlock, tree);
    ZeroSuffix(image, image', g.hashBlock + |tree|);
  }

  lemma HeaderUnique(a: Bytes, b: Bytes, n: nat)
    requires |a| == |b| && SUPERBLOCK_SIZE <= |a| && n <= |a| && a[..SUPERBLOCK_SIZE] == b[..SUPERBLOCK_SIZE]
    requires AllZero(From(a[..n], SUPERBLOCK_SIZE)) && AllZero(From(b[..n], SUPERBLOCK_SIZE))
    ensures a[..n] == b[..n]
  {
    if n <= SUPERBLOCK_SIZE {
      assert a[..n] == a[..SUPERBLOCK_SIZE][..n] && b[..n] == b[..SUPERBLOCK_SIZE][..n];
    } else {
      assert a[..n][..SUPERBLOCK_SIZE] == a[..SUPERBLOCK_SIZE] && b[..n][..SUPERBLOCK_SIZE] == b[..SUPERBLOCK_SIZE];
      ZeroSuffix(a[..n], b[..n], SUPERBLOCK_SIZE);
    }
  }

  lemma StoredAgree(a: Bytes, b: Bytes, at: nat, data: Bytes)
    requires |a| == |b| && at <= |a| && a[..at] == b[..at] && Stored(a, at, data) && Stored(b, at, data)
    ensures at + |data| <= |a| && a[..at + |data|] == b[..at + |data|]
  {
    if data != [] {
      assert |ReadAt(a, at, |data|)| == |data|;
    }
    assert a[..at + |data|] == a[..at] + a[at..at + |data|];
    assert b[..at + |data|] == b[..at] + b[at..at + |data|];
  }

  /** One root hash and one superblock fix both artifacts, up to a collision. */
  lemma ArtifactsUnique(rootHash: string, g: Geometry, root: Bytes, image: Bytes, root': Bytes, image': Bytes)
    returns (x: Bytes, y: Bytes)
    requires Canonical(rootHash, g, root, image) && Canonical(rootHash, g, root', image')
    requires |root| == |root'| && |image| == |image'| && SUPERBLOCK_SIZE <= |image|
    requires image[..SUPERBLOCK_SIZE] == image'[..SUPERBLOCK_SIZE]
    ensures (root == root' && image == image') || Collision(g, x, y)
  {
    x, y := RootHashBinds(rootHash, g, root, image, root', image');
    if root == root' {
      HashImageUnique(rootHash, rootHash, g, root, image, image');
    }
  }

  /** A release payload cut to the covered extents loses nothing: zero extension gives back both partitions. */
  lemma PayloadIsLossless(rootHash: string, g: Geometry, root: Bytes, image: Bytes)
    requires Canonical(rootHash, g, root, image)
    ensures RootExtent(g) <= |root| && g.hashBlock + TreeSize(g, root) <= |image|
    ensures root == root[..RootExtent(g)] + Zeros(|root| - RootExtent(g))
    ensures var extent := g.hashBlock + TreeSize(g, root);
            image == image[..extent] + Zeros(|image| - extent)
  {
    LeavesConverge(g, root);
    var tree := TreeBytes(g, Leaves(g, root, g.dataBlocks));
    StoredAgree(image, image, g.hashBlock, tree);
    var extent := g.hashBlock + |tree|;
    AllZeroIsZeros(root[RootExtent(g)..]);
    AllZeroIsZeros(image[extent..]);
    assert root == root[..RootExtent(g)] + root[RootExtent(g)..];
    assert image == image[..extent] + image[extent..];
  }
}
