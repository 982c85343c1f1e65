/**
 * The hash tree that dm-verity defines over a data image, as functions of the image, and why its root binds the
 * image. The hash is a parameter: a function with digests of a fixed length.
 */
module Merkle {
  import opened Arithmetic
  import opened Bytes
  import opened VerityLayout

  datatype Geometry = Geometry(
    hash: Bytes -> Bytes,
    digest: nat,
    dataBlock: nat,
    dataBlocks: nat,
    hashBlock: nat,
    slot: nat,
    salt: Bytes)

  ghost predicate Sound(g: Geometry) {
    && 1 <= g.digest <= g.slot && IsMultiple(g.hashBlock, g.slot)
    && 1 <= g.dataBlock && 1 <= g.dataBlocks <= MAX_BLOCKS
    && forall x :: |g.hash(x)| == g.digest
  }

  /** Digests per hash block. */
  function Per(g: Geometry): (r: nat)
    requires IsMultiple(g.hashBlock, g.slot)
    ensures r >= 1 && r * g.slot == g.hashBlock
  {
    DivBetween(g.hashBlock, g.slot, 1, g.hashBlock / g.slot);
    g.hashBlock / g.slot
  }

  /** `_salted_digest`. */
  function Digest(g: Geometry, data: Bytes): Bytes {
    g.hash(g.salt + data)
  }

  predicate AreDigests(g: Geometry, ds: seq<Bytes>) {
    forall i :: 0 <= i < |ds| ==> |ds[i]| == g.digest
  }

  // ---- Hash blocks ----

  /** Digests in their slots, each padded with zeros. */
  function Slots(g: Geometry, ds: seq<Bytes>): Bytes
    requires g.digest <= g.slot
  {
    if ds == [] then []
    else Slots(g, ds[..|ds| - 1]) + ds[|ds| - 1] + Zeros(g.slot - g.digest)
  }

  lemma {:induction false} SlotsLength(g: Geometry, ds: seq<Bytes>)
    requires g.digest <= g.slot && AreDigests(g, ds)
    ensures |Slots(g, ds)| == |ds| * g.slot
  {
    if ds != [] {
      SlotsLength(g, ds[..|ds| - 1]);
      assert |ds| * g.slot == (|ds| - 1) * g.slot + g.slot;
    }
  }

  lemma {:induction false} SlotsInjective(g: Geometry, a: seq<Bytes>, b: seq<Bytes>)
    requires g.digest <= g.slot && AreDigests(g, a) && AreDigests(g, b) && |a| == |b|
    requires Slots(g, a) == Slots(g, b)
    ensures a == b
  {
    if a != [] {
      var n := |a| - 1;
      SlotsLength(g, a[..n]);
      SlotsLength(g, b[..n]);
      var x, y := Slots(g, a[..n]), Slots(g, b[..n]);
      var p := Zeros(g.slot - g.digest);
      assert (x + a[n] + p)[..|x|] == x && (y + b[n] + p)[..|y|] == y;
      assert (x + a[n] + p)[|x|..|x| + g.digest] == a[n] && (y + b[n] + p)[|y|..|y| + g.digest] == b[n];
      SlotsInjective(g, a[..n], b[..n]);
      assert a == a[..n] + [a[n]] && b == b[..n] + [b[n]];
    }
  }

  lemma SlotsFit(g: Geometry, ds: seq<Bytes>)
    requires g.digest <= g.slot && IsMultiple(g.hashBlock, g.slot) && AreDigests(g, ds) && |ds| <= Per(g)
    ensures |Slots(g, ds)| == |ds| * g.slot <= g.hashBlock
  {
    SlotsLength(g, ds);
    MulMonotone(|ds|, Per(g), g.slot);
  }

  /** One hash block: up to a block's worth of slots, zero-padded to the block size. */
  function Pack(g: Geometry, ds: seq<Bytes>): (r: Bytes)
    requires g.digest <= g.slot && IsMultiple(g.hashBlock, g.slot) && AreDigests(g, ds) && |ds| <= Per(g)
    ensures |r| == g.hashBlock
  {
    SlotsFit(g, ds);
    Slots(g, ds) + Zeros(g.hashBlock - |Slots(g, ds)|)
  }

  lemma PackInjective(g: Geometry, a: seq<Bytes>, b: seq<Bytes>)
    requires g.digest <= g.slot && IsMultiple(g.hashBlock, g.slot)
    requires AreDigests(g, a) && AreDigests(g, b) && |a| == |b| <= Per(g)
    requires Pack(g, a) == Pack(g, b)
    ensures a == b
  {
    SlotsFit(g, a);
    SlotsFit(g, b);
    assert Pack(g, a)[..|a| * g.slot] == Slots(g, a) && Pack(g, b)[..|b| * g.slot] == Slots(g, b);
    SlotsInjective(g, a, b);
  }

  // ---- One level ----

  /** How many digests the next hash block takes. */
  function Take(g: Geometry, n: nat): nat
    requires IsMultiple(g.hashBlock, g.slot)
  {
    if n <= Per(g) then n else Per(g)
  }

  /** The digests of the hash blocks over a level's digests. */
  function Up(g: Geometry, ds: seq<Bytes>): (r: seq<Bytes>)
    requires Sound(g) && AreDigests(g, ds)
    ensures AreDigests(g, r) && (ds != [] ==> r != [])
  {
    if ds == [] then []
    else
      var n := Take(g, |ds|);
      [Digest(g, Pack(g, ds[..n]))] + Up(g, ds[n..])
  }

  /** The hash blocks over a level's digests, as stored. */
  function LevelBytes(g: Geometry, ds: seq<Bytes>): Bytes
    requires Sound(g) && AreDigests(g, ds)
  {
    if ds == [] then []
    else
      var n := Take(g, |ds|);
      Pack(g, ds[..n]) + LevelBytes(g, ds[n..])
  }

  lemma {:induction false} UpLength(g: Geometry, ds: seq<Bytes>)
    requires Sound(g) && AreDigests(g, ds)
    ensures |Up(g, ds)| == Ceil(|ds|, Per(g))
  {
    CeilStep(|ds|, Per(g));
    if ds != [] {
      var n := Take(g, |ds|);
      UpLength(g, ds[n..]);
      CeilStep(|ds| - n, Per(g));
    }
  }

  lemma {:induction false} LevelLength(g: Geometry, ds: seq<Bytes>)
    requires Sound(g) && AreDigests(g, ds)
    ensures |LevelBytes(g, ds)| == |Up(g, ds)| * g.hashBlock
  {
    if ds != [] {
      var n := Take(g, |ds|);
      LevelLength(g, ds[n..]);
      Distribute(1, |Up(g, ds[n..])|, g.hashBlock);
    }
  }

  lemma LevelLengths(g: Geometry, ds: seq<Bytes>)
    requires Sound(g) && AreDigests(g, ds)
    ensures |Up(g, ds)| == Ceil(|ds|, Per(g))
    ensures |LevelBytes(g, ds)| == |Up(g, ds)| * g.hashBlock
  {
    UpLength(g, ds);
    LevelLength(g, ds);
  }

  // ---- The whole tree ----

  /** The tree over these digests ends in one block. */
  ghost predicate Converges(g: Geometry, ds: seq<Bytes>) {
    Sound(g) && AreDigests(g, ds) && ds != [] && (Per(g) >= 2 || |ds| == 1)
  }

  lemma UpShrinks(g: Geometry, ds: seq<Bytes>)
    requires Converges(g, ds) && |ds| > 1
    ensures Converges(g, Up(g, ds)) && |Up(g, ds)| < |ds|
  {
    LevelLengths(g, ds);
    CeilHalves(|ds|, Per(g));
  }

  /** The Merkle root of a list of digests. */
  function MerkleRoot(g: Geometry, ds: seq<Bytes>): (r: Bytes)
    requires Converges(g, ds)
    ensures |r| == g.digest
    decreases |ds|
  {
    if |ds| == 1 then ds[0]
    else
      UpShrinks(g, ds);
      MerkleRoot(g, Up(g, ds))
  }

  /** The stored tree: the top level first. */
  function TreeBytes(g: Geometry, ds: seq<Bytes>): Bytes
    requires Converges(g, ds)
    decreases |ds|
  {
    if |ds| == 1 then []
    else
      UpShrinks(g, ds);
      TreeBytes(g, Up(g, ds)) + LevelBytes(g, ds)
  }

  lemma {:induction false} TreeLength(g: Geometry, ds: seq<Bytes>, counts: seq<nat>)
    requires Converges(g, ds) && IsTree(counts, |ds|, Per(g))
    ensures |TreeBytes(g, ds)| == Sum(counts) * g.hashBlock
    decreases |ds|
  {
    if |ds| > 1 {
      hide Up, LevelBytes, TreeBytes, Sound, AreDigests;
      TreeBytesUp(g, ds);
      LevelLengths(g, ds);
      var up := Up(g, ds);
      TreeLength(g, up, counts[1..]);
      Distribute(|up|, Sum(counts[1..]), g.hashBlock);
    }
  }

  lemma TreeBytesUp(g: Geometry, ds: seq<Bytes>)
    requires Converges(g, ds) && |ds| > 1
    ensures Converges(g, Up(g, ds)) && |Up(g, ds)| < |ds|
    ensures TreeBytes(g, ds) == TreeBytes(g, Up(g, ds)) + LevelBytes(g, ds)
  {
    hide Up, LevelBytes, Sound, AreDigests;
    UpShrinks(g, ds);
  }

  // ---- The data blocks ----

  /** The image holds its first n data blocks. */
  predicate Holds(g: Geometry, image: Bytes, n: nat) {
    n * g.dataBlock <= |image|
  }

  predicate Covers(g: Geometry, image: Bytes) {
    Holds(g, image, g.dataBlocks)
  }

  lemma HoldsFewer(g: Geometry, image: Bytes, n: nat, k: nat)
    requires Holds(g, image, n) && k <= n
    ensures Holds(g, image, k)
  {
    MulMonotone(k, n, g.dataBlock);
  }

  function Block(g: Geometry, image: Bytes, k: nat): (r: Bytes)
    requires Holds(g, image, k + 1)
    ensures |r| == g.dataBlock
  {
    Distribute(k, 1, g.dataBlock);
    image[k * g.dataBlock..k * g.dataBlock + g.dataBlock]
  }

  /** The digests of the first k data blocks. */
  function Leaves(g: Geometry, image: Bytes, k: nat): (r: seq<Bytes>)
    requires Sound(g) && Holds(g, image, k)
    ensures |r| == k && AreDigests(g, r)
  {
    if k == 0 then []
    else
      HoldsFewer(g, image, k, k - 1);
      Leaves(g, image, k - 1) + [Digest(g, Block(g, image, k - 1))]
  }

  // ---- Binding ----

  /** Two different messages with the same salted digest. */
  predicate Collision(g: Geometry, x: Bytes, y: Bytes) {
    x != y && Digest(g, x) == Digest(g, y)
  }

  lemma FirstUp(g: Geometry, ds: seq<Bytes>)
    requires Sound(g) && AreDigests(g, ds) && ds != []
    ensures var n := Take(g, |ds|);
            && 0 < n <= |ds| && n <= Per(g) && AreDigests(g, ds[..n]) && AreDigests(g, ds[n..])
            && g.digest <= g.slot && IsMultiple(g.hashBlock, g.slot)
            && Up(g, ds) == [Digest(g, Pack(g, ds[..n]))] + Up(g, ds[n..])
  {
  }

  /** Equal upper levels come from equal lower levels, or show a collision. */
  lemma {:induction false} UpBinds(g: Geometry, a: seq<Bytes>, b: seq<Bytes>) returns (x: Bytes, y: Bytes)
    requires Sound(g) && AreDigests(g, a) && AreDigests(g, b) && |a| == |b|
    requires Up(g, a) == Up(g, b)
    ensures a == b || Collision(g, x, y)
  {
    if a == [] {
      x, y := [], [];
    } else {
      hide Up, Pack, Take, Sound, AreDigests, Digest, IsMultiple;
      var n := Take(g, |a|);
      FirstUp(g, a);
      FirstUp(g, b);
      var p, q := Pack(g, a[..n]), Pack(g, b[..n]);
      assert [Digest(g, p)] + Up(g, a[n..]) == [Digest(g, q)] + Up(g, b[n..]);
      assert Digest(g, p) == ([Digest(g, p)] + Up(g, a[n..]))[0] == Digest(g, q);
      assert Up(g, a[n..]) == ([Digest(g, p)] + Up(g, a[n..]))[1..] == Up(g, b[n..]);
      if p != q {
        x, y := p, q;
      } else {
        PackInjective(g, a[..n], b[..n]);
        x, y := UpBinds(g, a[n..], b[n..]);
        assert a == a[..n] + a[n..] && b == b[..n] + b[n..];
      }
    }
  }

  lemma {:induction false} RootBinds(g: Geometry, a: seq<Bytes>, b: seq<Bytes>) returns (x: Bytes, y: Bytes)
    requires Converges(g, a) && Converges(g, b) && |a| == |b|
    requires MerkleRoot(g, a) == MerkleRoot(g, b)
    ensures a == b || Collision(g, x, y)
    decreases |a|
  {
    x, y := [], [];
    if |a| == 1 {
      assert a == [a[0]] && b == [b[0]];
    } else {
      UpShrinks(g, a);
      UpShrinks(g, b);
      LevelLengths(g, a);
      LevelLengths(g, b);
      x, y := RootBinds(g, Up(g, a), Up(g, b));
      if !Collision(g, x, y) {
        x, y := UpBinds(g, a, b);
      }
    }
  }

  /** Images with equal leaf digests agree on every covered block, or show a collision. */
  lemma {:induction false} LeavesBind(g: Geometry, a: Bytes, b: Bytes, n: nat) returns (x: Bytes, y: Bytes)
    requires Sound(g) && Holds(g, a, n) && Holds(g, b, n)
    requires Leaves(g, a, n) == Leaves(g, b, n)
    ensures a[..n * g.dataBlock] == b[..n * g.dataBlock] || Collision(g, x, y)
  {
    x, y := [], [];
    if n > 0 {
      HoldsFewer(g, a, n, n - 1);
      HoldsFewer(g, b, n, n - 1);
      var p, q := Block(g, a, n - 1), Block(g, b, n - 1);
      assert Leaves(g, a, n)[n - 1] == Digest(g, p) && Leaves(g, b, n)[n - 1] == Digest(g, q);
      assert Leaves(g, a, n)[..n - 1] == Leaves(g, a, n - 1) && Leaves(g, b, n)[..n - 1] == Leaves(g, b, n - 1);
      if p != q {
        x, y := p, q;
      } else {
        x, y := LeavesBind(g, a, b, n - 1);
        BlockEnds(g, a, n);
        BlockEnds(g, b, n);
      }
    }
  }

  lemma BlockEnds(g: Geometry, image: Bytes, n: nat)
    requires n > 0 && Holds(g, image, n)
    ensures (n - 1) * g.dataBlock <= |image|
    ensures image[..n * g.dataBlock] == image[..(n - 1) * g.dataBlock] + Block(g, image, n - 1)
  {
    Distribute(n - 1, 1, g.dataBlock);
  }

  /** Equal Merkle roots over the same geometry mean equal covered data, or an explicit collision. */
  lemma DataBinds(g: Geometry, a: Bytes, b: Bytes) returns (x: Bytes, y: Bytes)
    requires Sound(g) && Covers(g, a) && Covers(g, b) && (Per(g) >= 2 || g.dataBlocks == 1)
    requires MerkleRoot(g, Leaves(g, a, g.dataBlocks)) == MerkleRoot(g, Leaves(g, b, g.dataBlocks))
    ensures a[..g.dataBlocks * g.dataBlock] == b[..g.dataBlocks * g.dataBlock] || Collision(g, x, y)
  {
    var n := g.dataBlocks;
    x, y := RootBinds(g, Leaves(g, a, n), Leaves(g, b, n));
    if !Collision(g, x, y) {
      x, y := LeavesBind(g, a, b, n);
    }
  }
}
