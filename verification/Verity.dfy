/**
 * The dm-verity verifier (mkosi/private/verity_metadata.py): recomputes the hash tree level by level through digest
 * spool files, compares it with the emitted tree, and accepts only canonical artifacts.
 */
module Verity {
  import opened Prelude
  import opened Arithmetic
  import opened Bytes
  import opened VerityLayout
  import opened Merkle

  // ---- Spool files ----

  function Total(spools: seq<Bytes>): nat {
    if spools == [] then 0 else |spools[0]| + Total(spools[1..])
  }

  /** The digest spools that exist, in order of creation, with the most files and bytes that ever existed at once. */
  class SpoolDirectory {
    var spools: seq<Bytes>
    ghost var most: nat
    ghost var peak: nat

    constructor ()
      ensures spools == [] && most == 0 && peak == 0
    {
      spools, most, peak := [], 0, 0;
    }

    method Create()
      modifies this
      ensures spools == old(spools) + [[]]
      ensures most == if old(most) < |spools| then |spools| else old(most)
      ensures peak == old(peak)
    {
      spools := spools + [[]];
      most := if most < |spools| then |spools| else most;
    }

    /** Appends to the newest spool. */
    method Write(data: Bytes)
      requires spools != []
      modifies this
      ensures spools == old(spools)[..|old(spools)| - 1] + [old(spools)[|old(spools)| - 1] + data]
      ensures peak == if old(peak) < Total(spools) then Total(spools) else old(peak)
      ensures most == old(most)
    {
      var last := |spools| - 1;
      spools := spools[..last] + [spools[last] + data];
      peak := if peak < Total(spools) then Total(spools) else peak;
    }

    /** Unlinks the oldest spool. */
    method RemoveOldest()
      requires spools != []
      modifies this
      ensures spools == old(spools)[1..] && most == old(most) && peak == old(peak)
    {
      spools := spools[1..];
    }

    method RemoveAll()
      modifies this
      ensures spools == [] && most == old(most) && peak == old(peak)
    {
      spools := [];
    }
  }

  lemma TotalOne(a: Bytes)
    ensures Total([a]) == |a|
  {
  }

  lemma TotalTwo(a: Bytes, b: Bytes)
    ensures Total([a, b]) == |a| + |b|
  {
    assert [a, b][1..] == [b];
    TotalOne(b);
  }

  // ---- Spooled digests ----

  function Concat(ds: seq<Bytes>): Bytes {
    if ds == [] then [] else Concat(ds[..|ds| - 1]) + ds[|ds| - 1]
  }

  lemma ConcatSnoc(ds: seq<Bytes>, d: Bytes)
    ensures Concat(ds + [d]) == Concat(ds) + d
  {
    assert (ds + [d])[..|ds|] == ds;
  }

  lemma {:induction false} ConcatLength(g: Geometry, ds: seq<Bytes>)
    requires AreDigests(g, ds)
    ensures |Concat(ds)| == |ds| * g.digest
  {
    if ds != [] {
      ConcatLength(g, ds[..|ds| - 1]);
      Distribute(|ds| - 1, 1, g.digest);
    }
  }

  /** Reading a digest's worth of bytes at a digest boundary gives that digest. */
  lemma {:induction false} ConcatRead(g: Geometry, ds: seq<Bytes>, k: nat)
    requires AreDigests(g, ds) && k < |ds|
    ensures ReadAt(Concat(ds), k * g.digest, g.digest) == ds[k]
  {
    var front := ds[..|ds| - 1];
    ConcatLength(g, front);
    ConcatLength(g, ds);
    MulMonotone(k + 1, |ds|, g.digest);
    Distribute(k, 1, g.digest);
    if k < |ds| - 1 {
      ConcatRead(g, front, k);
      MulMonotone(k + 1, |front|, g.digest);
    }
  }

  // ---- One hash block ----

  lemma SlotsSnoc(g: Geometry, ds: seq<Bytes>, from: nat, i: nat)
    requires g.digest <= g.slot && from + i < |ds|
    ensures Slots(g, ds[from..from + i + 1])
            == Slots(g, ds[from..from + i]) + ds[from + i] + Zeros(g.slot - g.digest)
  {
    var longer := ds[from..from + i + 1];
    assert longer[..i] == ds[from..from + i] && longer[i] == ds[from + i];
  }

  /**
   * `_expected_block`: packs the next digests of the spool below; the spool is never too short for the digests that
   * the level counts.
   */
  method ExpectedBlock(g: Geometry, spool: Bytes, ghost ds: seq<Bytes>, consumed: nat, digests: nat)
    returns (r: Result<Bytes, VerityError>)
    requires Sound(g) && AreDigests(g, ds) && spool == Concat(ds)
    requires consumed + digests <= |ds| && digests <= Per(g)
    ensures r == Ok(Pack(g, ds[consumed..consumed + digests]))
  {
    var padding := Zeros(g.slot - g.digest);
    var block: Bytes := [];
    for i := 0 to digests
      invariant block == Slots(g, ds[consumed..consumed + i])
    {
      hide ReadAt, Slots, Concat;
      var digest := ReadAt(spool, (consumed + i) * g.digest, g.digest);
      ConcatRead(g, ds, consumed + i);
      if |digest| != g.digest {
        return Err(SpoolTruncated);
      }
      SlotsSnoc(g, ds, consumed, i);
      block := block + digest + padding;
    }
    SlotsFit(g, ds[consumed..consumed + digests]);
    block := block + Zeros(g.hashBlock - |block|);
    return Ok(block);
  }

  // ---- One level ----

  /** The image holds the given bytes at the offset. */
  predicate Stored(image: Bytes, offset: nat, data: Bytes) {
    ReadAt(image, offset, |data|) == data
  }

  lemma NothingStored(image: Bytes, offset: nat)
    ensures Stored(image, offset, [])
  {
  }

  lemma StoredConcat(image: Bytes, offset: nat, a: Bytes, b: Bytes)
    ensures Stored(image, offset, a + b) <==> Stored(image, offset, a) && Stored(image, offset + |a|, b)
  {
    if offset + |a| + |b| <= |image| {
      var whole := image[offset..offset + |a| + |b|];
      assert whole == image[offset..offset + |a|] + image[offset + |a|..offset + |a| + |b|];
      assert whole[..|a|] == image[offset..offset + |a|];
      assert whole[|a|..] == image[offset + |a|..offset + |a| + |b|];
      assert (a + b)[..|a|] == a && (a + b)[|a|..] == b;
    }
  }

  /** A level after some of its blocks: the digests consumed, the digests spooled and the bytes compared. */
  ghost predicate Partial(g: Geometry, ds: seq<Bytes>, consumed: nat, up: seq<Bytes>, done: Bytes) {
    && Sound(g) && AreDigests(g, ds) && AreDigests(g, up) && consumed <= |ds|
    && Up(g, ds) == up + Up(g, ds[consumed..])
    && LevelBytes(g, ds) == done + LevelBytes(g, ds[consumed..])
    && |done| == |up| * g.hashBlock
  }

  lemma PartialStart(g: Geometry, ds: seq<Bytes>)
    requires Sound(g) && AreDigests(g, ds)
    ensures Partial(g, ds, 0, [], [])
  {
    assert ds[0..] == ds;
  }

  lemma FrontBlock(g: Geometry, ds: seq<Bytes>)
    requires Sound(g) && AreDigests(g, ds) && ds != []
    ensures var n := Take(g, |ds|);
            && Up(g, ds) == [Digest(g, Pack(g, ds[..n]))] + Up(g, ds[n..])
            && LevelBytes(g, ds) == Pack(g, ds[..n]) + LevelBytes(g, ds[n..])
            && |Digest(g, Pack(g, ds[..n]))| == g.digest
  {
  }

  lemma RestNonempty(g: Geometry, ds: seq<Bytes>, consumed: nat, up: seq<Bytes>, done: Bytes)
    requires Partial(g, ds, consumed, up, done) && |up| < Ceil(|ds|, Per(g))
    ensures consumed < |ds|
  {
    UpLength(g, ds);
    assert ds[consumed..] != [];
  }

  lemma TakeFits(g: Geometry, ds: seq<Bytes>, consumed: nat)
    requires IsMultiple(g.hashBlock, g.slot) && AreDigests(g, ds) && consumed < |ds|
    ensures var n := Take(g, |ds| - consumed);
            && 0 < n <= Per(g) && consumed + n <= |ds| && |ds[consumed..]| == |ds| - consumed
            && ds[consumed..][..n] == ds[consumed..consumed + n] && ds[consumed..][n..] == ds[consumed + n..]
            && AreDigests(g, ds[consumed..]) && AreDigests(g, ds[consumed..consumed + n])
            && AreDigests(g, ds[consumed + n..])
  {
  }

  lemma PartialFacts(g: Geometry, ds: seq<Bytes>, consumed: nat, up: seq<Bytes>, done: Bytes)
    requires Partial(g, ds, consumed, up, done)
    ensures g.digest <= g.slot && IsMultiple(g.hashBlock, g.slot)
  {
    hide Up, LevelBytes, AreDigests;
  }

  lemma DigestsGrow(g: Geometry, up: seq<Bytes>, d: Bytes)
    requires AreDigests(g, up) && |d| == g.digest
    ensures AreDigests(g, up + [d])
  {
  }

  lemma PartialStep(g: Geometry, ds: seq<Bytes>, consumed: nat, up: seq<Bytes>, done: Bytes)
    requires Partial(g, ds, consumed, up, done) && |up| < Ceil(|ds|, Per(g))
    ensures consumed < |ds|
    ensures var n := Take(g, |ds| - consumed);
            && 0 < n <= Per(g) && consumed + n <= |ds|
            && var packed := Pack(g, ds[consumed..consumed + n]);
               Partial(g, ds, consumed + n, up + [Digest(g, packed)], done + packed)
  {
    hide Up, LevelBytes, Pack, Sound, Digest, Take, Ceil, IsMultiple, AreDigests;
    RestNonempty(g, ds, consumed, up, done);
    PartialFacts(g, ds, consumed, up, done);
    TakeFits(g, ds, consumed);
    FrontBlock(g, ds[consumed..]);
    var n := Take(g, |ds| - consumed);
    var packed, later := Pack(g, ds[consumed..consumed + n]), ds[consumed + n..];
    DigestsGrow(g, up, Digest(g, packed));
    Extend(up, Digest(g, packed), Up(g, later), done, packed, LevelBytes(g, later));
    Distribute(|up|, 1, g.hashBlock);
  }

  lemma Extend(up: seq<Bytes>, d: Bytes, ups: seq<Bytes>, done: Bytes, packed: Bytes, after: Bytes)
    ensures up + ([d] + ups) == up + [d] + ups
    ensures done + (packed + after) == done + packed + after
  {
  }

  lemma PartialEnd(g: Geometry, ds: seq<Bytes>, consumed: nat, up: seq<Bytes>, done: Bytes)
    requires Partial(g, ds, consumed, up, done) && |up| == Ceil(|ds|, Per(g))
    ensures up == Up(g, ds) && done == LevelBytes(g, ds)
  {
    UpLength(g, ds);
    assert Up(g, ds[consumed..]) == [];
    assert up + [] == up && done + [] == done;
  }

  /** The next block is in place exactly when the level still can be. */
  lemma NextStored(g: Geometry, ds: seq<Bytes>, consumed: nat, up: seq<Bytes>, done: Bytes, packed: Bytes,
                   emitted: Bytes, offset: nat)
    requires Partial(g, ds, consumed, up, done + packed) && Stored(emitted, offset, done)
    ensures Stored(emitted, offset, done + packed) <==> ReadAt(emitted, offset + |done|, |packed|) == packed
    ensures Stored(emitted, offset, LevelBytes(g, ds)) ==> Stored(emitted, offset, done + packed)
  {
    StoredConcat(emitted, offset, done, packed);
    StoredConcat(emitted, offset, done + packed, LevelBytes(g, ds[consumed..]));
  }

  /** The body of the level loop up to the comparison: packs the next block and reads the emitted one. */
  method CompareBlock(g: Geometry, below: Bytes, ghost ds: seq<Bytes>, digestCount: nat, consumed: nat, block: nat,
                      emitted: Bytes, offset: nat, ghost up: seq<Bytes>, ghost done: Bytes)
    returns (packed: Bytes, digests: nat, equal: bool)
    requires Partial(g, ds, consumed, up, done) && |up| == block < Ceil(|ds|, Per(g))
    requires below == Concat(ds) && digestCount == |ds| && Stored(emitted, offset, done)
    ensures Partial(g, ds, consumed + digests, up + [Digest(g, packed)], done + packed)
    ensures equal ==> Stored(emitted, offset, done + packed)
    ensures !equal ==> !Stored(emitted, offset, LevelBytes(g, ds))
  {
    hide Up, LevelBytes, Pack, Stored, Concat, Ceil;
    var per := g.hashBlock / g.slot;
    PartialStep(g, ds, consumed, up, done);
    digests := if per <= digestCount - consumed then per else digestCount - consumed;
    var expected := ExpectedBlock(g, below, ds, consumed, digests);
    packed := expected.value;
    NextStored(g, ds, consumed + digests, up + [Digest(g, packed)], done, packed, emitted, offset);
    equal := ReadAt(emitted, offset + block * g.hashBlock, g.hashBlock) == packed;
  }

  /**
   * `_verify_level`: accepts exactly when the emitted level holds the packed digests below it, and then has spooled
   * the digests of its own blocks.
   */
  method VerifyLevel(g: Geometry, level: nat, blockCount: nat, below: Bytes, ghost ds: seq<Bytes>, digestCount: nat,
                     emitted: Bytes, offset: nat, dir: SpoolDirectory, ghost budget: nat)
    returns (e: Option<VerityError>)
    requires Sound(g) && AreDigests(g, ds) && below == Concat(ds) && digestCount == |ds|
    requires blockCount == Ceil(|ds|, Per(g))
    requires dir.spools == [below, []] && dir.peak <= budget
    requires (|ds| + blockCount) * g.digest <= budget
    modifies dir
    ensures dir.peak <= budget && dir.most == old(dir.most) && |dir.spools| == 2
    ensures e.None? <==> Stored(emitted, offset, LevelBytes(g, ds))
    ensures e.None? ==> dir.spools == [below, Concat(Up(g, ds))]
    ensures e.Some? ==> e.value.HashMismatch? && e.value.level == level
  {
    var consumed: nat := 0;
    ghost var up: seq<Bytes> := [];
    ghost var done: Bytes := [];
    PartialStart(g, ds);
    for block := 0 to blockCount
      invariant Partial(g, ds, consumed, up, done) && |up| == block && Stored(emitted, offset, done)
      invariant dir.spools == [below, Concat(up)] && dir.peak <= budget && dir.most == old(dir.most)
    {
      hide Partial, Up, LevelBytes, Pack, Stored, Sound, Concat, Ceil;
      var packed, digests, equal :=
        CompareBlock(g, below, ds, digestCount, consumed, block, emitted, offset, up, done);
      if !equal {
        return Some(HashMismatch(level, block));
      }
      consumed := consumed + digests;
      var digest := Digest(g, packed);
      up := up + [digest];
      done := done + packed;
      SpoolDigest(g, ds, consumed, up, done, blockCount, budget);
      dir.Write(digest);
      TotalTwo(below, Concat(up));
    }
    PartialEnd(g, ds, consumed, up, done);
    return None;
  }

  /** Writing the newest digest keeps the spool a list of digests and both spools within the budget. */
  lemma SpoolDigest(g: Geometry, ds: seq<Bytes>, consumed: nat, up: seq<Bytes>, done: Bytes, blockCount: nat,
                    budget: nat)
    requires Partial(g, ds, consumed, up, done) && 0 < |up| <= blockCount
    requires (|ds| + blockCount) * g.digest <= budget
    ensures Concat(up) == Concat(up[..|up| - 1]) + up[|up| - 1]
    ensures |Concat(ds)| + |Concat(up)| <= budget
  {
    hide Up, LevelBytes;
    SpoolFits(g, ds, up, blockCount, budget);
  }

  lemma SpoolFits(g: Geometry, ds: seq<Bytes>, up: seq<Bytes>, blockCount: nat, budget: nat)
    requires AreDigests(g, ds) && AreDigests(g, up) && |up| <= blockCount
    requires (|ds| + blockCount) * g.digest <= budget
    ensures |Concat(ds)| + |Concat(up)| <= budget
  {
    hide *;
    ConcatLength(g, ds);
    ConcatLength(g, up);
    Distribute(|ds|, blockCount, g.digest);
    MulMonotone(|up|, blockCount, g.digest);
  }

  // ---- The whole tree ----

  /** `_leaf_digests`: spools the digest of every data block, or fails because the image is too short. */
  method LeafDigests(g: Geometry, root: Bytes, dir: SpoolDirectory, ghost budget: nat) returns (e: Option<VerityError>)
    requires Sound(g) && dir.spools == [[]] && dir.peak <= budget && g.dataBlocks * g.digest <= budget
    modifies dir
    ensures dir.peak <= budget && dir.most == old(dir.most) && |dir.spools| == 1
    ensures e.None? <==> Covers(g, root)
    ensures e.None? ==> dir.spools == [Concat(Leaves(g, root, g.dataBlocks))]
    ensures e.Some? ==> e.value == RootTruncated
  {
    for i := 0 to g.dataBlocks
      invariant Holds(g, root, i) && dir.spools == [Concat(Leaves(g, root, i))]
      invariant dir.peak <= budget && dir.most == old(dir.most)
    {
      hide Concat, Digest, Sound;
      var block := ReadAt(root, i * g.dataBlock, g.dataBlock);
      Distribute(i, 1, g.dataBlock);
      if |block| != g.dataBlock {
        MulMonotone(i + 1, g.dataBlocks, g.dataBlock);
        return Some(RootTruncated);
      }
      LeafSpool(g, root, i, budget);
      dir.Write(Digest(g, block));
      TotalOne(Concat(Leaves(g, root, i + 1)));
    }
    return None;
  }

  lemma LeafSpool(g: Geometry, root: Bytes, i: nat, budget: nat)
    requires Sound(g) && i < g.dataBlocks && g.dataBlocks * g.digest <= budget && Holds(g, root, i + 1)
    ensures Holds(g, root, i)
    ensures Concat(Leaves(g, root, i + 1))
            == Concat(Leaves(g, root, i)) + Digest(g, ReadAt(root, i * g.dataBlock, g.dataBlock))
    ensures |Concat(Leaves(g, root, i + 1))| <= budget
  {
    HoldsFewer(g, root, i + 1, i);
    Distribute(i, 1, g.dataBlock);
    ConcatSnoc(Leaves(g, root, i), Digest(g, Block(g, root, i)));
    ConcatLength(g, Leaves(g, root, i + 1));
    MulMonotone(i + 1, g.dataBlocks, g.digest);
  }

  /** `_check_spool_budget`: the bytes of the leaf spool and the first level's spool. */
  function SpoolNeed(g: Geometry, counts: seq<nat>): nat {
    g.dataBlocks * g.digest + (if counts == [] then 0 else counts[0] * g.digest)
  }

  /** The tree over the leaves d0 after the levels below dk have been compared; their bytes are the given tail. */
  ghost predicate AtLevel(g: Geometry, d0: seq<Bytes>, dk: seq<Bytes>, tail: Bytes) {
    && Converges(g, d0) && Converges(g, dk)
    && MerkleRoot(g, dk) == MerkleRoot(g, d0)
    && TreeBytes(g, d0) == TreeBytes(g, dk) + tail
  }

  lemma AtLevelFacts(g: Geometry, d0: seq<Bytes>, dk: seq<Bytes>, tail: Bytes)
    requires AtLevel(g, d0, dk, tail)
    ensures Converges(g, d0) && Converges(g, dk) && TreeBytes(g, d0) == TreeBytes(g, dk) + tail
    ensures Sound(g) && AreDigests(g, dk) && IsMultiple(g.hashBlock, g.slot)
  {
    hide TreeBytes, MerkleRoot, AreDigests;
  }

  lemma AtLevelStart(g: Geometry, d0: seq<Bytes>)
    requires Converges(g, d0)
    ensures AtLevel(g, d0, d0, [])
  {
    assert TreeBytes(g, d0) + [] == TreeBytes(g, d0);
  }

  lemma Unfold(g: Geometry, ds: seq<Bytes>)
    requires Converges(g, ds) && |ds| > 1
    ensures Converges(g, Up(g, ds)) && |Up(g, ds)| == Ceil(|ds|, Per(g))
    ensures MerkleRoot(g, ds) == MerkleRoot(g, Up(g, ds))
    ensures TreeBytes(g, ds) == TreeBytes(g, Up(g, ds)) + LevelBytes(g, ds)
  {
    UpShrinks(g, ds);
    UpLength(g, ds);
  }

  lemma AtLevelStep(g: Geometry, d0: seq<Bytes>, dk: seq<Bytes>, tail: Bytes)
    requires AtLevel(g, d0, dk, tail) && |dk| > 1
    ensures AtLevel(g, d0, Up(g, dk), LevelBytes(g, dk) + tail)
  {
    hide Up, LevelBytes, TreeBytes, MerkleRoot, AreDigests, Sound;
    Unfold(g, dk);
    var above, level := TreeBytes(g, Up(g, dk)), LevelBytes(g, dk);
    assert above + level + tail == above + (level + tail);
  }

  lemma SplitStored(image: Bytes, offset: nat, above: Bytes, level: Bytes, tail: Bytes)
    requires Stored(image, offset + |above + level|, tail)
    ensures var at := offset + |above|;
            && (Stored(image, at, level) <==> Stored(image, at, level + tail))
            && (Stored(image, offset, above + level + tail) ==> Stored(image, at, level))
  {
    hide *;
    StoredConcat(image, offset, above, level + tail);
    StoredConcat(image, offset + |above|, level, tail);
    assert above + level + tail == above + (level + tail);
  }

  /** The next level and the levels already compared make up the rest of the stored tree. */
  lemma LevelStored(g: Geometry, d0: seq<Bytes>, dk: seq<Bytes>, tail: Bytes, image: Bytes, offset: nat)
    requires AtLevel(g, d0, dk, tail) && |dk| > 1
    requires Stored(image, offset + |TreeBytes(g, dk)|, tail)
    ensures Converges(g, Up(g, dk))
    ensures var at := offset + |TreeBytes(g, Up(g, dk))|;
            && (Stored(image, at, LevelBytes(g, dk)) <==> Stored(image, at, LevelBytes(g, dk) + tail))
            && (Stored(image, offset, TreeBytes(g, d0)) ==> Stored(image, at, LevelBytes(g, dk)))
  {
    hide *;
    AtLevelFacts(g, d0, dk, tail);
    Unfold(g, dk);
    SplitStored(image, offset, TreeBytes(g, Up(g, dk)), LevelBytes(g, dk), tail);
  }

  /** What the tree comparison needs of the geometry: the levels converge and the spools fit the budget. */
  ghost predicate Feasible(g: Geometry)
    requires Sound(g)
  {
    && (Per(g) >= 2 || g.dataBlocks == 1)
    && g.dataBlocks * g.digest + (if g.dataBlocks > 1 then Ceil(g.dataBlocks, Per(g)) * g.digest else 0)
       <= MAX_SPOOL_BYTES
  }

  lemma LeavesConverge(g: Geometry, root: Bytes)
    requires Sound(g) && Covers(g, root) && (Per(g) >= 2 || g.dataBlocks == 1)
    ensures Converges(g, Leaves(g, root, g.dataBlocks))
  {
  }

  /** The emitted image holds, at the tree offset, the hash tree of the root image. */
  ghost predicate TreeIsGenuine(g: Geometry, root: Bytes, image: Bytes, treeOffset: nat)
    requires Sound(g)
  {
    && Feasible(g) && Covers(g, root)
    && Stored(image, treeOffset, TreeBytes(g, Leaves(g, root, g.dataBlocks)))
  }

  lemma LevelFits(g: Geometry, counts: seq<nat>, level: nat, n: nat)
    requires Sound(g) && IsTree(counts, g.dataBlocks, Per(g)) && level < |counts|
    requires n == (if level == 0 then g.dataBlocks else counts[level - 1])
    requires SpoolNeed(g, counts) <= MAX_SPOOL_BYTES
    ensures (n + counts[level]) * g.digest <= MAX_SPOOL_BYTES
  {
    AdjacentLevelsFit(counts, g.dataBlocks, Per(g), level);
    Distribute(g.dataBlocks, counts[0], g.digest);
    MulMonotone(n + counts[level], g.dataBlocks + counts[0], g.digest);
  }

  lemma TreeFrom(counts: seq<nat>, n: nat, per: nat, level: nat)
    requires per >= 1 && level < |counts| && IsTree(counts[level..], n, per)
    ensures n > 1 && counts[level] == Ceil(n, per) && IsTree(counts[level + 1..], counts[level], per)
  {
    assert counts[level..][0] == counts[level] && counts[level..][1..] == counts[level + 1..];
  }

  /** Compares every level, from the leaves up, removing each spool once the next one is complete. */
  method VerifyLevels(g: Geometry, ghost d0: seq<Bytes>, image: Bytes, treeOffset: nat, counts: seq<nat>,
                      offsets: seq<nat>, dir: SpoolDirectory)
    returns (e: Option<VerityError>)
    requires Converges(g, d0) && |d0| == g.dataBlocks && IsTree(counts, |d0|, Per(g))
    requires |offsets| == |counts|
    requires forall i :: 0 <= i < |counts| ==> offsets[i] == treeOffset + Sum(counts[i + 1..]) * g.hashBlock
    requires SpoolNeed(g, counts) <= MAX_SPOOL_BYTES
    requires dir.spools == [Concat(d0)] && dir.most <= 2 && dir.peak <= MAX_SPOOL_BYTES
    modifies dir
    ensures dir.most <= 2 && dir.peak <= MAX_SPOOL_BYTES
    ensures e.None? <==> Stored(image, treeOffset, TreeBytes(g, d0))
    ensures e.None? ==> dir.spools == [MerkleRoot(g, d0)]
    ensures e.Some? ==> e.value.HashMismatch?
  {
    hide *;
    ghost var dk, tail: Bytes := d0, [];
    AtLevelStart(g, d0);
    AtLevelFacts(g, d0, d0, []);
    assert counts[0..] == counts;
    NothingStored(image, treeOffset + |TreeBytes(g, d0)|);
    for level := 0 to |counts|
      invariant AtLevel(g, d0, dk, tail) && Converges(g, dk) && IsMultiple(g.hashBlock, g.slot)
      invariant IsTree(counts[level..], |dk|, Per(g))
      invariant |dk| == if level == 0 then g.dataBlocks else counts[level - 1]
      invariant Stored(image, treeOffset + |TreeBytes(g, dk)|, tail)
      invariant dir.spools == [Concat(dk)] && dir.most <= 2 && dir.peak <= MAX_SPOOL_BYTES
    {
      hide *;
      LevelReady(g, d0, dk, tail, counts, level, image, treeOffset);
      var digestCount := if level == 0 then g.dataBlocks else counts[level - 1];
      e := NextLevel(g, level, counts[level], dk, digestCount, image, offsets[level], dir);
      if e.Some? {
        return;
      }
      tail := LevelBytes(g, dk) + tail;
      dk := Up(g, dk);
    }
    TreeDone(g, d0, dk, tail, counts);
    return None;
  }

  /** One turn of the level loop: a new spool is filled while the level is compared, then the spool below goes. */
  method NextLevel(g: Geometry, level: nat, blockCount: nat, ghost dk: seq<Bytes>, digestCount: nat, image: Bytes,
                   offset: nat, dir: SpoolDirectory)
    returns (e: Option<VerityError>)
    requires Sound(g) && AreDigests(g, dk) && digestCount == |dk| && blockCount == Ceil(|dk|, Per(g))
    requires (|dk| + blockCount) * g.digest <= MAX_SPOOL_BYTES
    requires dir.spools == [Concat(dk)] && dir.most <= 2 && dir.peak <= MAX_SPOOL_BYTES
    modifies dir
    ensures dir.most <= 2 && dir.peak <= MAX_SPOOL_BYTES
    ensures e.None? <==> Stored(image, offset, LevelBytes(g, dk))
    ensures e.None? ==> dir.spools == [Concat(Up(g, dk))]
    ensures e.Some? ==> e.value.HashMismatch?
  {
    hide *;
    var below := dir.spools[0];
    dir.Create();
    e := VerifyLevel(g, level, blockCount, below, dk, digestCount, image, offset, dir, MAX_SPOOL_BYTES);
    if e.None? {
      dir.RemoveOldest();
    }
  }

  /** Everything that comparing one level needs and leads to. */
  lemma LevelReady(g: Geometry, d0: seq<Bytes>, dk: seq<Bytes>, tail: Bytes, counts: seq<nat>, level: nat,
                   image: Bytes, treeOffset: nat)
    requires AtLevel(g, d0, dk, tail) && level < |counts|
    requires IsTree(counts, g.dataBlocks, Per(g)) && IsTree(counts[level..], |dk|, Per(g))
    requires |dk| == if level == 0 then g.dataBlocks else counts[level - 1]
    requires SpoolNeed(g, counts) <= MAX_SPOOL_BYTES
    requires Stored(image, treeOffset + |TreeBytes(g, dk)|, tail)
    ensures Sound(g) && AreDigests(g, dk) && |dk| > 1 && counts[level] == Ceil(|dk|, Per(g)) == |Up(g, dk)|
    ensures AtLevel(g, d0, Up(g, dk), LevelBytes(g, dk) + tail)
    ensures IsTree(counts[level + 1..], |Up(g, dk)|, Per(g))
    ensures (|dk| + counts[level]) * g.digest <= MAX_SPOOL_BYTES
    ensures Converges(g, Up(g, dk))
    ensures treeOffset + Sum(counts[level + 1..]) * g.hashBlock == treeOffset + |TreeBytes(g, Up(g, dk))|
    ensures var at := treeOffset + |TreeBytes(g, Up(g, dk))|;
            && (Stored(image, at, LevelBytes(g, dk)) <==> Stored(image, at, LevelBytes(g, dk) + tail))
            && (Stored(image, treeOffset, TreeBytes(g, d0)) ==> Stored(image, at, LevelBytes(g, dk)))
  {
    hide Up, LevelBytes, TreeBytes, MerkleRoot, Stored, Ceil, Sum;
    TreeFrom(counts, |dk|, Per(g), level);
    Unfold(g, dk);
    LevelFits(g, counts, level, |dk|);
    AtLevelStep(g, d0, dk, tail);
    LevelStored(g, d0, dk, tail, image, treeOffset);
    hide AtLevel, SpoolNeed;
    TreeLength(g, Up(g, dk), counts[level + 1..]);
  }

  lemma TreeDone(g: Geometry, d0: seq<Bytes>, dk: seq<Bytes>, tail: Bytes, counts: seq<nat>)
    requires AtLevel(g, d0, dk, tail) && IsTree(counts[|counts|..], |dk|, Per(g))
    ensures TreeBytes(g, d0) == tail && TreeBytes(g, dk) == []
    ensures Concat(dk) == MerkleRoot(g, d0)
  {
    assert |dk| == 1;
    assert Concat(dk) == Concat([]) + dk[0] == dk[0];
  }

  /**
   * `_verify_tree`: recomputes the tree and compares it. It accepts exactly when the image holds the root image's
   * tree, returns the Merkle root, and leaves no spool behind; at most two spools ever exist, within the budget.
   */
  method VerifyTree(g: Geometry, root: Bytes, image: Bytes, treeOffset: nat, dir: SpoolDirectory)
    returns (r: Result<(seq<nat>, Bytes, nat), VerityError>)
    requires Sound(g) && dir.spools == [] && dir.most == 0 && dir.peak == 0
    modifies dir
    ensures dir.spools == [] && dir.most <= 2 && dir.peak <= MAX_SPOOL_BYTES
    ensures r.Ok? <==> TreeIsGenuine(g, root, image, treeOffset)
    ensures r.Ok? ==> && IsTree(r.value.0, g.dataBlocks, Per(g)) && |r.value.0| <= 32
                      && r.value.1 == MerkleRoot(g, Leaves(g, root, g.dataBlocks))
                      && r.value.2 == |TreeBytes(g, Leaves(g, root, g.dataBlocks))|
    ensures r.Err? ==> r.error in {LevelLimit, SpoolBudget, RootTruncated} || r.error.HashMismatch?
    ensures r == Err(LevelLimit) <==> Per(g) == 1 && g.dataBlocks > 1
  {
    hide Concat, MerkleRoot, TreeBytes, Stored, Leaves, Ceil;
    var counted := LevelCounts(g.dataBlocks, g.hashBlock / g.slot);
    if counted.Err? {
      return Err(counted.error);
    }
    var counts := counted.value;
    FeasibleBudget(g, counts);
    if SpoolNeed(g, counts) > MAX_SPOOL_BYTES {
      return Err(SpoolBudget);
    }
    var offsets, treeSize := LevelOffsets(counts, treeOffset, g.hashBlock);
    dir.Create();
    var e := LeafDigests(g, root, dir, MAX_SPOOL_BYTES);
    if e.None? {
      LeavesConverge(g, root);
      ghost var leaves := Leaves(g, root, g.dataBlocks);
      TreeLength(g, leaves, counts);
      e := VerifyLevels(g, leaves, image, treeOffset, counts, offsets, dir);
      if e.None? {
        var spool := dir.spools[0];
        var verified := ReadAt(spool, 0, g.digest);
        dir.RemoveAll();
        if |verified| != g.digest || |spool| > g.digest {
          return Err(RootSpoolSize);
        }
        return Ok((counts, verified, treeSize));
      }
    }
    dir.RemoveAll();
    return Err(e.value);
  }

  lemma FeasibleBudget(g: Geometry, counts: seq<nat>)
    requires Sound(g) && IsTree(counts, g.dataBlocks, Per(g)) && (Per(g) >= 2 || g.dataBlocks == 1)
    ensures Feasible(g) <==> SpoolNeed(g, counts) <= MAX_SPOOL_BYTES
    ensures SpoolNeed(g, counts) <= MAX_SPOOL_BYTES ==> g.dataBlocks * g.digest <= MAX_SPOOL_BYTES
  {
  }
}
