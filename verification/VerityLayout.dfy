/** Geometry and layout arithmetic of a dm-verity hash tree (mkosi/private/verity_metadata.py). */
module VerityLayout {
  import opened Prelude
  import opened Arithmetic

  const MAX_BLOCKS := 0x1_0000_0000
  const MAX_LEVELS := 64
  const MAX_SPOOL_BYTES := 0x8000_0000
  const SUPERBLOCK_SIZE := 512

  datatype VerityError =
    | NoSuperblock
    | UnsupportedFormat
    | UnsupportedAlgorithm
    | InvalidDataBlockSize
    | InvalidHashBlockSize
    | SlotsDoNotDivide
    | InvalidBlockCount
    | InvalidSaltSize
    | LevelLimit
    | SpoolBudget
    | RootTruncated
    | SpoolTruncated
    | HashMismatch(level: nat, block: nat)
    | RootSpoolSize
    | ArtifactTooLarge
    | WrongPartitionSize
    | GeometryExceedsRoot
    | NonzeroTrailer
    | NonzeroPadding
    | WrongRootHash

  // ---- Powers of two ----

  function Pow2(n: nat): (r: nat)
    ensures r >= 1
  {
    if n == 0 then 1 else 2 * Pow2(n - 1)
  }

  function BitLength(n: nat): nat {
    if n == 0 then 0 else 1 + BitLength(n / 2)
  }

  lemma {:induction false} BitLengthBounds(n: nat)
    ensures n < Pow2(BitLength(n))
    ensures n > 0 ==> Pow2(BitLength(n) - 1) <= n
  {
    if n > 0 {
      BitLengthBounds(n / 2);
    }
  }

  lemma {:induction false} PowerOfTwoExponent(n: nat) returns (e: nat)
    requires IsPowerOfTwo(n)
    ensures n == Pow2(e)
  {
    if n == 1 {
      e := 0;
    } else {
      e := PowerOfTwoExponent(n / 2);
      e := e + 1;
    }
  }

  lemma {:induction false} Pow2Monotone(a: nat, b: nat)
    requires a <= b
    ensures Pow2(a) <= Pow2(b) && Pow2(b) % Pow2(a) == 0
  {
    if a == b {
      assert Pow2(b) == 1 * Pow2(a);
    } else {
      Pow2Monotone(a, b - 1);
      var k := Pow2(b - 1) / Pow2(a);
      assert Pow2(b - 1) == k * Pow2(a);
      Multiple(2 * k, Pow2(a));
      assert Pow2(b) == 2 * k * Pow2(a);
    }
  }

  lemma Multiple(k: nat, m: nat)
    requires m > 0
    ensures (k * m) % m == 0 && (k * m) / m == k
  {
    DivUnique(k * m, m, k, 0);
    assert k * m == m * ((k * m) / m) + (k * m) % m;
    assert m * k == k * m;
  }

  // ---- Digest slots ----

  /** `_slot_size`. */
  function SlotSize(dataBlock: nat, hashBlock: nat, digest: nat): Result<nat, VerityError>
    requires digest >= 1
  {
    if dataBlock < 512 || dataBlock > 1024 * 1024 || !IsPowerOfTwo(dataBlock) then Err(InvalidDataBlockSize)
    else if hashBlock < digest || hashBlock > 1024 * 1024 || !IsPowerOfTwo(hashBlock) then Err(InvalidHashBlockSize)
    else
      var slot := Pow2(BitLength(digest - 1));
      if slot > hashBlock || hashBlock % slot != 0 then Err(SlotsDoNotDivide) else Ok(slot)
  }

  lemma SlotBounds(digest: nat)
    requires digest >= 1
    ensures var n := BitLength(digest - 1);
            digest <= Pow2(n) < 2 * digest && (n > 0 ==> Pow2(n - 1) < digest)
  {
    hide BitLength, Pow2;
    BitLengthBounds(digest - 1);
    BitLengthZero(digest - 1);
    var n := BitLength(digest - 1);
    if n > 0 {
      Pow2Double(n);
    } else {
      Pow2Zero();
    }
  }

  lemma BitLengthZero(n: nat)
    ensures BitLength(n) == 0 <==> n == 0
  {
  }

  lemma Pow2Double(n: nat)
    requires n > 0
    ensures Pow2(n) == 2 * Pow2(n - 1)
  {
  }

  lemma Pow2Zero()
    ensures Pow2(0) == 1
  {
  }

  /** The slot is the smallest power of two that holds a digest, and it always divides the hash block. */
  lemma SlotSizeExact(dataBlock: nat, hashBlock: nat, digest: nat)
    requires digest >= 1
    ensures SlotSize(dataBlock, hashBlock, digest) != Err(SlotsDoNotDivide)
    ensures SlotSize(dataBlock, hashBlock, digest).Ok? ==>
              var slot := SlotSize(dataBlock, hashBlock, digest).value;
              && digest <= slot && slot < 2 * digest && IsMultiple(hashBlock, slot)
              && (hashBlock / slot == 1 <==> hashBlock < 2 * digest && slot == hashBlock)
  {
    hide Pow2, IsMultiple, BitLength;
    var n := BitLength(digest - 1);
    SlotBounds(digest);
    if hashBlock >= digest && IsPowerOfTwo(hashBlock) {
      var e := PowerOfTwoExponent(hashBlock);
      if e < n {
        Pow2Monotone(e, n - 1);
      } else {
        Pow2Monotone(n, e);
        SlotsPerBlock(hashBlock, Pow2(n), digest);
      }
    }
  }

  lemma SlotsPerBlock(hashBlock: nat, slot: nat, digest: nat)
    requires digest <= slot < 2 * digest && slot <= hashBlock && hashBlock % slot == 0
    ensures IsMultiple(hashBlock, slot)
    ensures hashBlock / slot == 1 <==> hashBlock < 2 * digest && slot == hashBlock
  {
    var k := hashBlock / slot;
    assert hashBlock == slot * k + hashBlock % slot;
    assert hashBlock == k * slot;
    if slot == hashBlock {
      DivUnique(hashBlock, slot, 1, 0);
    }
  }

  predicate IsMultiple(a: nat, b: nat) {
    b > 0 && a % b == 0 && a >= b
  }

  // ---- Levels ----

  function Ceil(n: nat, per: nat): nat
    requires per >= 1
  {
    (n + per - 1) / per
  }

  lemma CeilStep(n: nat, per: nat)
    requires per >= 1
    ensures n == 0 ==> Ceil(n, per) == 0
    ensures 0 < n <= per ==> Ceil(n, per) == 1
    ensures n > per ==> Ceil(n, per) == 1 + Ceil(n - per, per)
    ensures Ceil(n, per) <= n
  {
    var m := n + per - 1;
    if n > per {
      var q, r := (m - per) / per, (m - per) % per;
      assert m - per == per * q + r;
      assert (q + 1) * per == per * q + per;
      DivUnique(m, per, q + 1, r);
    } else if 0 < n {
      DivUnique(m, per, 1, n - 1);
    } else {
      DivUnique(m, per, 0, m);
    }
    MulMonotone(1, per, n);
    assert per * n == n * per;
    DivBetween(m, per, 0, n);
  }

  lemma CeilHalves(n: nat, per: nat)
    requires per >= 2 && n >= 2
    ensures 1 <= Ceil(n, per) < n && Ceil(n, per) <= (n + 1) / 2
  {
    var m, half := n + per - 1, (n + 1) / 2;
    MulMonotone(2, per, half);
    assert 2 * half <= per * half == half * per;
    DivBetween(m, per, 1, half);
  }

  /** The block counts of all hash levels over n digests, bottom first, down to a single block. */
  predicate IsTree(counts: seq<nat>, n: nat, per: nat)
    requires per >= 1
    decreases |counts|
  {
    if n <= 1 then counts == []
    else counts != [] && counts[0] == Ceil(n, per) && IsTree(counts[1..], counts[0], per)
  }

  /** With at least two slots per block the levels halve, so 2^k digests need at most k levels. */
  lemma {:induction false} TreeDepth(counts: seq<nat>, n: nat, per: nat, k: nat)
    requires per >= 2 && IsTree(counts, n, per) && n <= Pow2(k)
    ensures |counts| <= k
    decreases |counts|
  {
    if n > 1 {
      CeilHalves(n, per);
      TreeDepth(counts[1..], counts[0], per, k - 1);
    }
  }

  lemma {:induction false} ChainDescends(done: seq<nat>, n: nat, digests: nat, per: nat)
    requires per >= 1 && Chain(done, n, digests, per)
    ensures digests <= n
    decreases |done|
  {
    if done != [] {
      CeilStep(n, per);
      ChainDescends(done[1..], done[0], digests, per);
    }
  }

  lemma {:induction false} PrefixDepth(done: seq<nat>, n: nat, digests: nat, per: nat, k: nat)
    requires per >= 2 && 1 < n <= Pow2(k) && Chain(done, n, digests, per) && digests > 1
    ensures |done| < k
    decreases |done|
  {
    if done != [] {
      CeilHalves(n, per);
      ChainDescends(done[1..], done[0], digests, per);
      PrefixDepth(done[1..], done[0], digests, per, k - 1);
    }
  }

  /** The levels computed so far lead from n digests to the current count. */
  predicate Chain(done: seq<nat>, n: nat, digests: nat, per: nat)
    requires per >= 1
    decreases |done|
  {
    if done == [] then n == digests
    else n > 1 && done[0] == Ceil(n, per) && Chain(done[1..], done[0], digests, per)
  }

  lemma {:induction false} ChainExtends(done: seq<nat>, n: nat, digests: nat, per: nat)
    requires per >= 1 && Chain(done, n, digests, per) && digests > 1
    ensures Chain(done + [Ceil(digests, per)], n, Ceil(digests, per), per)
    decreases |done|
  {
    var longer := done + [Ceil(digests, per)];
    if done != [] {
      ChainExtends(done[1..], done[0], digests, per);
      assert longer[1..] == done[1..] + [Ceil(digests, per)];
    } else {
      assert longer[1..] == [];
    }
  }

  lemma {:induction false} ChainEnds(done: seq<nat>, n: nat, digests: nat, per: nat)
    requires per >= 1 && Chain(done, n, digests, per) && digests <= 1
    ensures IsTree(done, n, per)
    decreases |done|
  {
    if done != [] {
      ChainEnds(done[1..], done[0], digests, per);
    }
  }

  lemma {:induction false} OneSlotNeverShrinks(done: seq<nat>, n: nat, digests: nat)
    requires Chain(done, n, digests, 1)
    ensures n == digests
    decreases |done|
  {
    if done != [] {
      OneSlotNeverShrinks(done[1..], done[0], digests);
    }
  }

  lemma Pow32()
    ensures Pow2(32) == MAX_BLOCKS
  {
    assert Pow2(8) == 0x100;
    assert Pow2(16) == 0x1_0000;
    assert Pow2(24) == 0x100_0000;
  }

  /**
   * `_level_counts`: with at least two slots per block the tree ends in one block after at most 32 levels, so the
   * level limit fires exactly when a block holds a single digest and there is more than one.
   */
  method LevelCounts(dataBlocks: nat, per: nat) returns (r: Result<seq<nat>, VerityError>)
    requires per >= 1 && 1 <= dataBlocks <= MAX_BLOCKS
    ensures r.Ok? ==> IsTree(r.value, dataBlocks, per) && |r.value| <= 32
    ensures r.Err? ==> r.error == LevelLimit
    ensures r.Err? <==> per == 1 && dataBlocks > 1
  {
    var counts: seq<nat> := [];
    var digests: nat := dataBlocks;
    while digests > 1
      invariant Chain(counts, dataBlocks, digests, per) && digests >= 1
      invariant |counts| <= MAX_LEVELS
      decreases MAX_LEVELS - |counts|
    {
      var blocks := (digests + per - 1) / per;
      ChainExtends(counts, dataBlocks, digests, per);
      if per >= 2 {
        Pow32();
        ChainDescends(counts, dataBlocks, digests, per);
        PrefixDepth(counts, dataBlocks, digests, per, 32);
        CeilHalves(digests, per);
      }
      counts := counts + [blocks];
      digests := blocks;
      if |counts| > MAX_LEVELS {
        OneSlotNeverShrinks(counts, dataBlocks, digests);
        return Err(LevelLimit);
      }
    }
    ChainEnds(counts, dataBlocks, digests, per);
    if per >= 2 {
      Pow32();
      TreeDepth(counts, dataBlocks, per, 32);
    } else {
      OneSlotNeverShrinks(counts, dataBlocks, digests);
    }
    return Ok(counts);
  }

  // ---- Offsets ----

  function Sum(counts: seq<nat>): nat {
    if counts == [] then 0 else counts[0] + Sum(counts[1..])
  }

  lemma {:induction false} SumFrom(counts: seq<nat>, i: nat)
    requires i < |counts|
    ensures Sum(counts[i..]) == counts[i] + Sum(counts[i + 1..])
  {
    assert counts[i..][0] == counts[i] && counts[i..][1..] == counts[i + 1..];
  }

  /**
   * `_level_offsets`: level i starts after all higher levels, so the levels lie top-first, contiguous and disjoint
   * from the tree offset on.
   */
  method LevelOffsets(counts: seq<nat>, treeOffset: nat, block: nat) returns (offsets: seq<nat>, treeSize: nat)
    ensures |offsets| == |counts|
    ensures forall i :: 0 <= i < |counts| ==> offsets[i] == treeOffset + Sum(counts[i + 1..]) * block
    ensures treeSize == Sum(counts) * block
  {
    var collected: seq<nat> := [];
    var preceding := 0;
    var k := |counts|;
    assert counts[k..] == [];
    while k > 0
      invariant 0 <= k <= |counts| && |collected| == |counts| - k
      invariant preceding == Sum(counts[k..])
      invariant forall j :: 0 <= j < |collected| ==>
                  collected[j] == treeOffset + Sum(counts[|counts| - j..]) * block
    {
      k := k - 1;
      collected := collected + [treeOffset + preceding * block];
      preceding := preceding + counts[k];
      SumFrom(counts, k);
    }
    assert counts[0..] == counts;
    offsets := seq(|counts|, i requires 0 <= i < |collected| => collected[|collected| - 1 - i]);
    treeSize := preceding * block;
    forall i | 0 <= i < |counts| ensures offsets[i] == treeOffset + Sum(counts[i + 1..]) * block {
      assert |counts| - (|collected| - 1 - i) == i + 1;
    }
  }

  /** Consecutive levels touch: each level ends where the level below it starts, and the last ends the tree. */
  lemma LevelsContiguous(counts: seq<nat>, block: nat, i: nat)
    requires i < |counts|
    ensures Sum(counts[i + 1..]) * block + counts[i] * block == Sum(counts[i..]) * block
  {
    SumFrom(counts, i);
    var s := Sum(counts[i + 1..]);
    assert (counts[i] + s) * block == counts[i] * block + s * block;
  }

  // ---- Spool budget ----

  lemma {:induction false} CountsShrink(counts: seq<nat>, n: nat, per: nat)
    requires per >= 1 && IsTree(counts, n, per)
    ensures forall i :: 0 <= i < |counts| ==> counts[i] <= n
    decreases |counts|
  {
    if n > 1 {
      CeilStep(n, per);
      CountsShrink(counts[1..], counts[0], per);
      forall i | 0 <= i < |counts| ensures counts[i] <= n {
        if i > 0 {
          assert counts[i] == counts[1..][i - 1];
        }
      }
    }
  }

  lemma {:induction false} LaterCountsShrink(counts: seq<nat>, n: nat, per: nat, i: nat)
    requires per >= 1 && IsTree(counts, n, per) && i < |counts|
    ensures counts[i] <= counts[0] <= n
  {
    CeilStep(n, per);
    CountsShrink(counts[1..], counts[0], per);
    if i > 0 {
      assert counts[i] == counts[1..][i - 1];
    }
  }

  /** The first two levels bound every two consecutive levels, so the budget checked on them holds throughout. */
  lemma AdjacentLevelsFit(counts: seq<nat>, n: nat, per: nat, i: nat)
    requires per >= 1 && IsTree(counts, n, per) && i < |counts|
    ensures (if i == 0 then n else counts[i - 1]) + counts[i] <= n + counts[0]
  {
    LaterCountsShrink(counts, n, per, i);
    if i > 0 {
      LaterCountsShrink(counts, n, per, i - 1);
    }
  }
}
