/**
 * Copying byte ranges between files with sparse writes (mkosi/private/esp_files.py, mkosi/private/sysupdate.py) and
 * the splice of a rewritten EFI system partition into a disk image (mkosi/private/secure_boot_image.py). Reads may
 * return fewer bytes than asked for, in any pattern.
 */
module Splice {
  import opened Prelude
  import opened Bytes

  const CHUNK := 0x10_0000

  datatype CopyError = EndsEarly

  /** A byte of a file, or of the hole after its end. */
  function ByteAt(s: Bytes, i: nat): Byte {
    if i < |s| then s[i] else 0
  }

  function Max(a: nat, b: nat): nat {
    if a < b then b else a
  }

  /** A write at an offset; a gap after the old end reads as zeros. */
  function Patched(s: Bytes, at: nat, piece: Bytes): (r: Bytes)
    ensures |r| == Max(|s|, at + |piece|)
    ensures forall i :: 0 <= i < |r| ==> r[i] == if at <= i < at + |piece| then piece[i - at] else ByteAt(s, i)
  {
    seq(Max(|s|, at + |piece|), i requires i >= 0 => if at <= i < at + |piece| then piece[i - at] else ByteAt(s, i))
  }

  /** The bytes that one read returns: at least one while there are any, at most a chunk. */
  function Block(source: Bytes, at: nat, wanted: nat, offered: nat): (r: Bytes)
    ensures |r| <= wanted && (r == [] <==> wanted == 0 || at >= |source|)
    ensures r != [] ==> at + |r| <= |source| && r == source[at..at + |r|]
  {
    if wanted == 0 || at >= |source| then []
    else
      var limit := if wanted < |source| - at then wanted else |source| - at;
      var chunk := if limit < CHUNK then limit else CHUNK;
      var n := if offered == 0 then 1 else if offered < chunk then offered else chunk;
      source[at..at + n]
  }

  /** A writable file. */
  class File {
    var content: Bytes
    var position: nat

    constructor ()
      ensures content == [] && position == 0
    {
      content, position := [], 0;
    }

    method Write(piece: Bytes)
      requires piece != []
      modifies this
      ensures content == Patched(old(content), old(position), piece) && position == old(position) + |piece|
    {
      content := Patched(content, position, piece);
      position := position + |piece|;
    }

    method Truncate(size: nat)
      modifies this
      ensures position == old(position)
      ensures |content| == size && forall i :: 0 <= i < size ==> content[i] == ByteAt(old(content), i)
    {
      var before := content;
      content := seq(size, i requires i >= 0 => ByteAt(before, i));
    }
  }

  // ---- copy_range ----

  /** An old byte may stay only where a sparse copy skipped a zero. */
  predicate CopiedByte(was: Bytes, source: Bytes, offset: nat, at: nat, sparse: bool, i: nat, byte: Byte)
    requires at <= i && offset + (i - at) < |source|
  {
    var wanted := source[offset + (i - at)];
    byte == wanted || (sparse && wanted == 0 && byte == ByteAt(was, i))
  }

  /** The file after `done` bytes: copied inside the range, as before outside it. */
  ghost predicate CopiedTo(was: Bytes, now: Bytes, source: Bytes, offset: nat, at: nat, sparse: bool, done: nat) {
    && (done > 0 ==> offset + done <= |source|)
    && |was| <= |now| <= Max(|was|, at + done)
    && (forall i :: 0 <= i && !(at <= i < at + done) ==> ByteAt(now, i) == ByteAt(was, i))
    && (forall i :: at <= i < at + done ==> CopiedByte(was, source, offset, at, sparse, i, ByteAt(now, i)))
  }

  predicate RangeIsZero(source: Bytes, offset: nat, size: nat) {
    forall i :: offset <= i < offset + size && i < |source| ==> source[i] == 0
  }

  /**
   * `copy_range`: succeeds exactly when the source holds the range; then every byte of the range is copied, except
   * that a sparse copy may keep what the destination had where the source has zeros, and does keep everything when
   * the range is all zeros. No other byte changes.
   */
  method CopyRange(source: Bytes, destination: File, offset: nat, size: nat, at: nat, sparse: bool, offered: nat -> nat)
    returns (r: Result<(), CopyError>)
    modifies destination
    ensures r.Ok? <==> size == 0 || offset + size <= |source|
    ensures r.Ok? ==> CopiedTo(old(destination.content), destination.content, source, offset, at, sparse, size)
    ensures r.Ok? ==> |destination.content| == Max(|old(destination.content)|, at + size)
    ensures r.Ok? && sparse && RangeIsZero(source, offset, size) ==>
              forall i :: 0 <= i < |old(destination.content)| ==> destination.content[i] == old(destination.content)[i]
  {
    hide CopiedTo, Block, RangeIsZero;
    ghost var before := destination.content;
    var copied: nat := 0;
    CopyStart(before, source, offset, at, sparse);
    while copied < size
      invariant copied <= size
      invariant CopiedTo(before, destination.content, source, offset, at, sparse, copied)
      invariant sparse && RangeIsZero(source, offset, size) ==> destination.content == before
      decreases size - copied
    {
      hide CopiedTo, Block, RangeIsZero;
      var block := Block(source, offset + copied, size - copied, offered(copied));
      if block == [] {
        return Err(EndsEarly);
      }
      if RangeIsZero(source, offset, size) {
        BlockOfZeros(source, offset, size, copied, block);
      }
      CopyStep(before, destination.content, source, offset, at, sparse, copied, block);
      if !sparse || !AllZero(block) {
        destination.position := at + copied;
        destination.Write(block);
      }
      copied := copied + |block|;
    }
    CopyEnd(before, destination.content, source, offset, at, sparse, size);
    CopyFits(before, destination.content, source, offset, at, sparse, size);
    destination.Truncate(Max(|destination.content|, at + size));
    return Ok(());
  }

  lemma CopyStart(was: Bytes, source: Bytes, offset: nat, at: nat, sparse: bool)
    ensures CopiedTo(was, was, source, offset, at, sparse, 0)
  {
  }

  lemma BlockOfZeros(source: Bytes, offset: nat, size: nat, done: nat, block: Bytes)
    requires done + |block| <= size && offset + done + |block| <= |source|
    requires block == source[offset + done..offset + done + |block|] && RangeIsZero(source, offset, size)
    ensures AllZero(block)
  {
  }

  lemma CopyStep(was: Bytes, now: Bytes, source: Bytes, offset: nat, at: nat, sparse: bool, done: nat, block: Bytes)
    requires CopiedTo(was, now, source, offset, at, sparse, done) && block != []
    requires offset + done + |block| <= |source| && block == source[offset + done..offset + done + |block|]
    ensures CopiedTo(was, Patched(now, at + done, block), source, offset, at, sparse, done + |block|)
    ensures sparse && AllZero(block) ==> CopiedTo(was, now, source, offset, at, sparse, done + |block|)
  {
    var after := Patched(now, at + done, block);
    forall i | 0 <= i < |block| ensures source[offset + done + i] == block[i] {
    }
    forall i: nat ensures ByteAt(after, i) == if at + done <= i < at + done + |block| then block[i - at - done] else ByteAt(now, i) {
    }
  }

  lemma CopyFits(was: Bytes, now: Bytes, source: Bytes, offset: nat, at: nat, sparse: bool, size: nat)
    requires CopiedTo(was, now, source, offset, at, sparse, size)
    ensures size > 0 ==> offset + size <= |source|
  {
  }

  /** Extending the file to the end of the range fills it with the zeros that were skipped. */
  lemma CopyEnd(was: Bytes, now: Bytes, source: Bytes, offset: nat, at: nat, sparse: bool, size: nat)
    requires CopiedTo(was, now, source, offset, at, sparse, size)
    ensures forall after: Bytes ::
              |after| == Max(|now|, at + size) && (forall i :: 0 <= i < |after| ==> after[i] == ByteAt(now, i)) ==>
              CopiedTo(was, after, source, offset, at, sparse, size) && |after| == Max(|was|, at + size)
  {
    forall after: Bytes | |after| == Max(|now|, at + size) && (forall i :: 0 <= i < |after| ==> after[i] == ByteAt(now, i))
      ensures CopiedTo(was, after, source, offset, at, sparse, size)
    {
      assert forall i: nat :: ByteAt(after, i) == ByteAt(now, i);
    }
  }

  /** Copying over existing bytes without sparseness is a plain overwrite. */
  lemma DenseCopy(was: Bytes, now: Bytes, source: Bytes, offset: nat, at: nat, size: nat)
    requires CopiedTo(was, now, source, offset, at, false, size) && |now| == Max(|was|, at + size)
    requires offset + size <= |source|
    ensures now == Patched(was, at, source[offset..offset + size])
  {
    var expected := Patched(was, at, source[offset..offset + size]);
    forall i | 0 <= i < |now| ensures now[i] == expected[i] {
      assert now[i] == ByteAt(now, i);
      assert at <= i < at + size ==> CopiedByte(was, source, offset, at, false, i, ByteAt(now, i));
    }
  }

  /** The destination reads as zero where the source does. */
  predicate ZeroWhereZero(was: Bytes, source: Bytes, offset: nat, at: nat, i: nat)
    requires at <= i && offset + (i - at) < |source|
  {
    source[offset + (i - at)] == 0 ==> ByteAt(was, i) == 0
  }

  /** A sparse copy gives the same result over a destination that reads as zero wherever the source does. */
  lemma SparseCopy(was: Bytes, now: Bytes, source: Bytes, offset: nat, at: nat, size: nat)
    requires CopiedTo(was, now, source, offset, at, true, size) && |now| == Max(|was|, at + size)
    requires offset + size <= |source|
    requires forall i :: at <= i < at + size ==> ZeroWhereZero(was, source, offset, at, i)
    ensures now == Patched(was, at, source[offset..offset + size])
  {
    var expected := Patched(was, at, source[offset..offset + size]);
    forall i | 0 <= i < |now| ensures now[i] == expected[i] {
      assert now[i] == ByteAt(now, i);
      if at <= i < at + size {
        assert CopiedByte(was, source, offset, at, true, i, ByteAt(now, i));
        assert ZeroWhereZero(was, source, offset, at, i);
      }
    }
  }

  // ---- The splice ----

  /** The image with the bytes at the offset replaced. */
  function Spliced(image: Bytes, at: nat, piece: Bytes): Bytes
    requires at + |piece| <= |image|
  {
    image[..at] + piece + image[at + |piece|..]
  }

  /** A partition that keeps its place replaces exactly its own bytes, and the image keeps its length. */
  lemma PatchedInside(image: Bytes, at: nat, piece: Bytes)
    requires at + |piece| <= |image|
    ensures Patched(image, at, piece) == Spliced(image, at, piece) && |Patched(image, at, piece)| == |image|
  {
  }

  /** The bytes of the partition; an empty one may lie anywhere. */
  function Partition(image: Bytes, at: nat, size: nat): Bytes
    requires size == 0 || at + size <= |image|
  {
    if size == 0 then [] else image[at..at + size]
  }

  /**
   * `sign_image`: extracts the partition, lets the tools rewrite it, copies the image sparsely to a new file and
   * writes the rewritten partition at the old offset, as long as it now is. For every pattern of short reads the
   * output is the input with those bytes written over it.
   */
  method SignImage(image: Bytes, at: nat, size: nat, rewrite: Bytes -> Bytes, offered: nat -> nat)
    returns (r: Result<File, CopyError>)
    ensures r.Ok? <==> size == 0 || at + size <= |image|
    ensures r.Ok? ==> fresh(r.value) && r.value.content == Patched(image, at, rewrite(Partition(image, at, size)))
  {
    hide CopiedTo, RangeIsZero, Patched;
    var esp := new File();
    var extracted := CopyRange(image, esp, at, size, 0, true, offered);
    if extracted.Err? {
      return Err(EndsEarly);
    }
    if size > 0 {
      FreshCopy(esp.content, image, at, size);
    }
    assert esp.content == Partition(image, at, size);
    esp.content := rewrite(esp.content);
    var output := new File();
    var whole := CopyRange(image, output, 0, |image|, 0, true, offered);
    FreshCopy(output.content, image, 0, |image|);
    assert image[0..|image|] == image;
    var spliced := CopyRange(esp.content, output, 0, |esp.content|, at, false, offered);
    DenseCopy(image, output.content, esp.content, 0, at, |esp.content|);
    assert esp.content[0..|esp.content|] == esp.content;
    return Ok(output);
  }

  /** When the tools keep the length of the partition, only its own bytes change. */
  lemma SignedInPlace(image: Bytes, at: nat, size: nat, rewrite: Bytes -> Bytes)
    requires at + size <= |image| && |rewrite(image[at..at + size])| == size
    ensures var piece := rewrite(Partition(image, at, size));
            Patched(image, at, piece) == Spliced(image, at, piece) && |Patched(image, at, piece)| == |image|
  {
    assert size == 0 ==> image[at..at + size] == [];
    PatchedInside(image, at, rewrite(Partition(image, at, size)));
  }

  /** A sparse copy into a new file. */
  lemma FreshCopy(now: Bytes, source: Bytes, offset: nat, size: nat)
    requires CopiedTo([], now, source, offset, 0, true, size) && |now| == Max(0, size) && offset + size <= |source|
    ensures now == source[offset..offset + size]
  {
    SparseCopy([], now, source, offset, 0, size);
    hide CopiedTo;
  }

  // ---- Payload files ----

  /**
   * `_copy` of an uncompressed payload: chunks of the first `size` bytes, zero chunks skipped by moving the position,
   * and a last truncation at the position. The file holds exactly those bytes and the digest is theirs.
   */
  method CopyPayload(source: Bytes, size: nat, digest: Bytes -> string, offered: nat -> nat)
    returns (r: Result<(File, string), CopyError>)
    ensures r.Ok? <==> size <= |source|
    ensures r.Ok? ==> fresh(r.value.0) && r.value.0.content == source[..size] && r.value.1 == digest(source[..size])
  {
    var file := new File();
    var written: Bytes := [];
    var remaining: nat := size;
    var block := Block(source, 0, remaining, offered(0));
    while remaining > 0 && block != []
      invariant fresh(file) && remaining <= size && |written| == size - remaining == file.position
      invariant |written| <= |source| && written == source[..|written|]
      invariant block == Block(source, |written|, remaining, offered(|written|))
      invariant HoldsSparsely(file.content, written)
      decreases remaining
    {
      hide HoldsSparsely, Block;
      assert source[..|written|] + block == source[..|written| + |block|];
      SparseStep(file.content, written, block);
      remaining := remaining - |block|;
      if AllZero(block) {
        file.position := file.position + |block|;
      } else {
        file.Write(block);
      }
      written := written + block;
      block := Block(source, |written|, remaining, offered(|written|));
    }
    if remaining > 0 {
      return Err(EndsEarly);
    }
    SparseEnd(file.content, written);
    file.Truncate(file.position);
    assert file.content == written;
    return Ok((file, digest(written)));
  }

  /** The file reads as the written bytes, with holes for zeros, and ends no later. */
  ghost predicate HoldsSparsely(content: Bytes, written: Bytes) {
    |content| <= |written| && forall i :: 0 <= i < |written| ==> ByteAt(content, i) == written[i]
  }

  lemma SparseStep(content: Bytes, written: Bytes, block: Bytes)
    requires HoldsSparsely(content, written) && block != []
    ensures AllZero(block) ==> HoldsSparsely(content, written + block)
    ensures HoldsSparsely(Patched(content, |written|, block), written + block)
  {
    var after := Patched(content, |written|, block);
    forall i | 0 <= i < |written + block| ensures ByteAt(after, i) == (written + block)[i] {
    }
  }

  lemma SparseEnd(content: Bytes, written: Bytes)
    requires HoldsSparsely(content, written)
    ensures forall i :: 0 <= i < |written| ==> ByteAt(content, i) == written[i]
  {
  }
}
