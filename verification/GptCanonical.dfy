/**
 * Canonical form of a GPT disk image (mkosi/private/partition_metadata.py): every byte of the image except the disk
 * GUID, the unique partition GUIDs and the CRCs, hashed as a stream that is never written out.
 */
module GptCanonical {
  import opened Prelude
  import opened Arithmetic
  import opened Bytes
  import opened Gpt

  lemma SlicesEqual(a: Bytes, b: Bytes, from: nat, to: nat)
    requires |a| == |b| && from <= to <= |a| && forall i :: from <= i < to ==> a[i] == b[i]
    ensures a[from..to] == b[from..to]
  {
  }

  // ---- Canonical entries ----

  /** A byte of a partition array that belongs to an entry's unique GUID. */
  predicate GuidAt(i: nat, entrySize: nat)
    requires entrySize >= 128
  {
    16 <= i % entrySize < 32
  }

  function CanonicalEntries(entries: Bytes, entrySize: nat): (r: Bytes)
    requires entrySize >= 128
    ensures |r| == |entries|
    ensures forall i :: 0 <= i < |entries| ==> r[i] == if GuidAt(i, entrySize) then 0 else entries[i]
  {
    seq(|entries|, i requires 0 <= i < |entries| => if GuidAt(i, entrySize) then 0 else entries[i])
  }

  lemma SlotOffset(slot: nat, entrySize: nat, i: nat)
    requires entrySize >= 128 && slot * entrySize <= i < slot * entrySize + entrySize
    ensures i % entrySize == i - slot * entrySize
  {
    ModUnique(i, entrySize, slot, i - slot * entrySize);
  }

  /** The loop over the entry array that clears the unique GUIDs in place. */
  method ClearGuids(entries: Bytes, count: nat, entrySize: nat) returns (r: Bytes)
    requires entrySize >= 128 && |entries| == count * entrySize
    ensures r == CanonicalEntries(entries, entrySize)
  {
    var buffer := new Byte[|entries|](i requires 0 <= i < |entries| => entries[i]);
    for slot := 0 to count
      invariant slot * entrySize <= |entries|
      invariant forall i :: 0 <= i < slot * entrySize ==> buffer[i] == CanonicalEntries(entries, entrySize)[i]
      invariant forall i :: slot * entrySize <= i < |entries| ==> buffer[i] == entries[i]
    {
      var offset := slot * entrySize;
      SlotInside(count, entrySize, slot);
      assert (slot + 1) * entrySize == offset + entrySize;
      forall i | offset <= i < offset + entrySize ensures i % entrySize == i - offset {
        SlotOffset(slot, entrySize, i);
      }
      forall i | offset + 16 <= i < offset + 32 {
        buffer[i] := 0;
      }
    }
    r := buffer[..];
  }

  // ---- Canonical headers ----

  predicate HeaderMasked(i: int) {
    16 <= i < 20 || 56 <= i < 72 || 88 <= i < 92
  }

  /** The header with its identity cleared and the array CRC set, before its own CRC is computed. */
  function Unsealed(raw: Bytes, arrayCrc: Crc32): (r: Bytes)
    requires |raw| >= 92
    ensures |r| == |raw|
  {
    Overwrite(Clear(Clear(raw, 16, 20), 56, 72), 88, PutU32(arrayCrc))
  }

  /** `_canonical_header`. */
  function CanonicalHeader(crc: Crc, h: Header, arrayCrc: Crc32): (r: Bytes)
    requires 92 <= h.headerSize <= |h.raw|
    ensures |r| == |h.raw|
  {
    var unsealed := Unsealed(h.raw, arrayCrc);
    Overwrite(unsealed, 16, PutU32(crc(unsealed[..h.headerSize])))
  }

  lemma UnsealedBytes(raw: Bytes, arrayCrc: Crc32)
    requires |raw| >= 92
    ensures var u := Unsealed(raw, arrayCrc);
            && (forall i :: 0 <= i < |raw| && !HeaderMasked(i) ==> u[i] == raw[i])
            && (forall i :: 16 <= i < 20 || 56 <= i < 72 ==> u[i] == 0)
            && (forall i :: 88 <= i < 92 ==> u[i] == PutU32(arrayCrc)[i - 88])
  {
  }

  lemma CanonicalHeaderBytes(crc: Crc, h: Header, arrayCrc: Crc32)
    requires 92 <= h.headerSize <= |h.raw|
    ensures var c := CanonicalHeader(crc, h, arrayCrc);
            && (forall i :: 0 <= i < |c| && !HeaderMasked(i) ==> c[i] == h.raw[i])
            && (forall i :: 56 <= i < 72 ==> c[i] == 0)
            && U32(c, 88) == arrayCrc
            && U32(c, 16) == crc(Unsealed(h.raw, arrayCrc)[..h.headerSize])
  {
    UnsealedBytes(h.raw, arrayCrc);
    var u := Unsealed(h.raw, arrayCrc);
    hide Unsealed;
    var sealed := PutU32(crc(u[..h.headerSize]));
    var c := CanonicalHeader(crc, h, arrayCrc);
    assert forall i :: 88 <= i < 92 ==> c[i] == PutU32(arrayCrc)[i - 88];
    assert forall i :: 16 <= i < 20 ==> c[i] == sealed[i - 16];
  }

  /** Unsealing depends only on the unmasked bytes. */
  lemma UnsealedAgrees(a: Bytes, b: Bytes, arrayCrc: Crc32)
    requires |a| == |b| >= 92 && forall i :: 0 <= i < |a| && !HeaderMasked(i) ==> a[i] == b[i]
    ensures Unsealed(a, arrayCrc) == Unsealed(b, arrayCrc)
  {
    UnsealedBytes(a, arrayCrc);
    UnsealedBytes(b, arrayCrc);
    var u, v := Unsealed(a, arrayCrc), Unsealed(b, arrayCrc);
    hide Unsealed;
    assert forall i :: 0 <= i < |u| ==> u[i] == v[i];
  }

  lemma HeaderAgrees(crc: Crc, a: Header, b: Header, arrayCrc: Crc32)
    requires 92 <= a.headerSize == b.headerSize <= |a.raw| == |b.raw|
    requires forall i :: 0 <= i < |a.raw| && !HeaderMasked(i) ==> a.raw[i] == b.raw[i]
    ensures CanonicalHeader(crc, a, arrayCrc) == CanonicalHeader(crc, b, arrayCrc)
  {
    UnsealedAgrees(a.raw, b.raw, arrayCrc);
  }

  lemma FieldsAgree(a: Bytes, b: Bytes)
    requires |a| == |b| >= 92 && forall i :: 0 <= i < |a| && !HeaderMasked(i) ==> a[i] == b[i]
    ensures HeaderFields(a) == HeaderFields(b).(arrayCrc := U32(a, 88))
    ensures U32(a, 12) == U32(b, 12) && U32(a, 8) == U32(b, 8) && a[..8] == b[..8] && a[20..24] == b[20..24]
  {
    SlicesEqual(a, b, 0, 8);
    SlicesEqual(a, b, 20, 24);
  }

  /** A canonical header passes the header checks: its CRC covers exactly its own unsealed form. */
  lemma CanonicalHeaderChecks(crc: Crc, h: Header, arrayCrc: Crc32, sector: nat)
    requires sector >= 512 && |h.raw| == sector && h.headerSize == U32(h.raw, 12)
    requires CheckHeaderBytes(crc, h.raw, sector).None?
    ensures 92 <= h.headerSize <= sector
    ensures CheckHeaderBytes(crc, CanonicalHeader(crc, h, arrayCrc), sector).None?
    ensures U32(CanonicalHeader(crc, h, arrayCrc), 12) == h.headerSize
    ensures HeaderFields(CanonicalHeader(crc, h, arrayCrc)) == HeaderFields(h.raw).(arrayCrc := arrayCrc)
  {
    var c := CanonicalHeader(crc, h, arrayCrc);
    CanonicalHeaderBytes(crc, h, arrayCrc);
    UnsealedBytes(h.raw, arrayCrc);
    var u := Unsealed(h.raw, arrayCrc);
    FieldsAgree(c, h.raw);
    ClearedSeal(c, u, h.headerSize);
  }

  lemma ClearedSeal(c: Bytes, u: Bytes, n: nat)
    requires |c| == |u| && 92 <= n <= |c|
    requires forall i :: 0 <= i < |c| && !(16 <= i < 20) ==> c[i] == u[i]
    requires forall i :: 16 <= i < 20 ==> u[i] == 0
    ensures Clear(c[..n], 16, 20) == u[..n]
  {
    var x := Clear(c[..n], 16, 20);
    assert forall i :: 0 <= i < n ==> x[i] == u[i];
    assert x == u[..n];
  }

  // ---- Where the patches lie ----

  function ArrayOffset(h: Header, sector: nat): nat {
    h.fields.entriesLba * sector
  }

  /** An accepted table of an image. */
  ghost predicate Accepted(crc: Crc, image: Bytes, t: Table) {
    ValidatedGpt(crc, image) == Ok(t)
  }

  /** The four patches in the order of the disk: header, array, array, header; disjoint and inside the image. */
  predicate Separated(image: Bytes, t: Table) {
    var s, n := t.sector, ArraySize(t.primary.fields);
    && 512 <= s && t.primary.lba == 1 && n == ArraySize(t.backup.fields)
    && s + s <= ArrayOffset(t.primary, s)
    && ArrayOffset(t.primary, s) + n <= ArrayOffset(t.backup, s)
    && ArrayOffset(t.backup, s) + n <= t.backup.lba * s
    && t.backup.lba * s + s == |image|
  }

  lemma ArrayEnds(f: Fields, sector: nat, limit: nat)
    requires (sector == 512 || sector == 4096) && ArrayLastLba(f, sector) < limit
    ensures f.entriesLba * sector + ArraySize(f) <= limit * sector
  {
    hide ArraySize;
    var n := ArraySize(f);
    if sector == 512 {
      assert n <= (n + 511) / 512 * 512;
    } else {
      assert n <= (n + 4095) / 4096 * 4096;
    }
  }

  lemma HeaderLimits(crc: Crc, image: Bytes, sector: nat, lba: nat, backup: nat, h: Header)
    requires (sector == 512 || sector == 4096) && |image| >= sector
    requires ReadHeader(crc, image, sector, lba, backup) == Ok(h)
    ensures var f, last := h.fields, |image| / sector - 1;
            && f.entriesLba >= 2 && f.firstUsable <= f.lastUsable < last
            && ArrayLastLba(f, sector) < last
            && (lba == 1 ==> ArrayLastLba(f, sector) < f.firstUsable)
            && (lba == last ==> f.entriesLba > f.lastUsable)
  {
    hide ReadHeader, CheckHeaderBytes, HeaderFields, ArraySize, ArrayLastLba;
    HeaderFacts(crc, image, sector, lba, backup);
  }

  function LastLba(image: Bytes, t: Table): int {
    if t.sector == 0 then 0 else |image| / t.sector - 1
  }

  function CopyOf(t: Table, primary: bool): Header {
    if primary then t.primary else t.backup
  }

  lemma HeaderBytesFacts(crc: Crc, raw: Bytes, sector: nat)
    requires |raw| == sector >= 512 && CheckHeaderBytes(crc, raw, sector).None?
    ensures raw[..8] == SIGNATURE && 92 <= U32(raw, 12) <= sector
  {
  }

  /** What validation establishes about one copy. */
  lemma CopyFacts(crc: Crc, image: Bytes, t: Table, primary: bool)
    requires Accepted(crc, image, t)
    ensures t.sector == 512 || t.sector == 4096
    ensures |image| >= t.sector * 3 && |image| % t.sector == 0 && LastLba(image, t) >= 2
    ensures var h, s, last := CopyOf(t, primary), t.sector, LastLba(image, t);
            && h.lba == (if primary then 1 else last)
            && ReadHeader(crc, image, s, h.lba, if primary then last else 1) == Ok(h)
            && |h.raw| == s && h.lba * s + s <= |image| && h.raw == image[h.lba * s..h.lba * s + s]
            && CheckHeaderBytes(crc, h.raw, s).None? && h.raw[..8] == SIGNATURE
            && h.headerSize == U32(h.raw, 12) && 92 <= h.headerSize <= s
            && h.fields == HeaderFields(h.raw) && 128 <= h.fields.entrySize <= 4096
            && |h.entries| == ArraySize(h.fields) && ArrayOffset(h, s) + ArraySize(h.fields) <= |image|
            && h.entries == image[ArrayOffset(h, s)..ArrayOffset(h, s) + ArraySize(h.fields)]
  {
    hide ReadHeader, HeaderFields, CheckHeaderBytes, CheckHeaderGeometry, CheckArrayLocation, ArraySize, ArrayLastLba,
      SectorSize, CopiesAgree, ValidatedGpt, U32;
    TableFacts(crc, image, t);
    var last := LastLba(image, t);
    var h := CopyOf(t, primary);
    HeaderFacts(crc, image, t.sector, if primary then 1 else last, if primary then last else 1);
    HeaderBytesFacts(crc, h.raw, t.sector);
  }

  lemma CopiesAlike(crc: Crc, image: Bytes, t: Table)
    requires Accepted(crc, image, t)
    ensures t.primary.entries == t.backup.entries
    ensures t.primary.fields.entrySize == t.backup.fields.entrySize && t.primary.fields.count == t.backup.fields.count
    ensures t.primary.fields.firstUsable == t.backup.fields.firstUsable
    ensures t.primary.fields.lastUsable == t.backup.fields.lastUsable
  {
    hide ReadHeader, SectorSize, ArraySize, DiskGuid;
    TableFacts(crc, image, t);
  }

  /** Validation alone keeps the patches apart, and every partition clear of headers and arrays. */
  lemma PatchesSeparated(crc: Crc, image: Bytes, t: Table)
    requires Accepted(crc, image, t)
    ensures Separated(image, t)
    ensures t.primary.fields.firstUsable == t.backup.fields.firstUsable
    ensures ArrayOffset(t.primary, t.sector) + ArraySize(t.primary.fields)
            <= t.primary.fields.firstUsable * t.sector
    ensures (t.primary.fields.lastUsable + 1) * t.sector <= ArrayOffset(t.backup, t.sector)
    ensures t.primary.fields.entrySize == t.backup.fields.entrySize
  {
    hide ValidatedGpt, Accepted, ReadHeader, CheckHeaderBytes, HeaderFields, CheckHeaderGeometry, CheckArrayLocation,
      ArrayLastLba, SectorSize, Inside, U32;
    CopyFacts(crc, image, t, true);
    CopyFacts(crc, image, t, false);
    CopiesAlike(crc, image, t);
    var s, last := t.sector, LastLba(image, t);
    HeaderLimits(crc, image, s, 1, last, t.primary);
    HeaderLimits(crc, image, s, last, 1, t.backup);
    ArrayEnds(t.primary.fields, s, t.primary.fields.firstUsable);
    ArrayEnds(t.backup.fields, s, last);
    Ordered(s, |image|, last, t.primary.fields, t.backup.fields);
  }

  lemma Ordered(s: nat, size: nat, last: nat, p: Fields, b: Fields)
    requires (s == 512 || s == 4096) && size >= 3 * s && size % s == 0 && last == size / s - 1
    requires p.entriesLba >= 2 && p.firstUsable <= p.lastUsable < b.entriesLba
    ensures s + s <= p.entriesLba * s && p.firstUsable * s <= b.entriesLba * s && last * s + s == size
    ensures (p.lastUsable + 1) * s <= b.entriesLba * s
  {
    if s == 512 {
    } else {
    }
  }

  /** No partition touches a header or an array. */
  lemma PartitionsClear(crc: Crc, image: Bytes, t: Table, list: seq<Partition>, i: nat)
    requires Accepted(crc, image, t) && WellPlaced(list, t.primary.fields, t.sector) && i < |list|
    ensures Separated(image, t)
    ensures ArrayOffset(t.primary, t.sector) + ArraySize(t.primary.fields) <= list[i].startBytes
    ensures list[i].startBytes + list[i].sizeBytes <= ArrayOffset(t.backup, t.sector)
  {
    hide *;
    PatchesSeparated(crc, image, t);
    PlacedAt(list, t.primary.fields, t.sector, i);
    ClearOf(t.primary.fields.firstUsable, t.primary.fields.lastUsable, list[i].first, list[i].last, t.sector);
  }

  lemma PlacedAt(list: seq<Partition>, f: Fields, sector: nat, i: nat)
    requires WellPlaced(list, f, sector) && i < |list|
    ensures f.firstUsable <= list[i].first <= list[i].last <= f.lastUsable
    ensures list[i].startBytes == InBytes(list[i].first, sector)
    ensures list[i].sizeBytes == InBytes(list[i].last - list[i].first + 1, sector)
  {
  }

  lemma ClearOf(low: nat, high: nat, first: nat, last: nat, s: nat)
    requires low <= first <= last <= high
    ensures low * s <= InBytes(first, s)
    ensures InBytes(first, s) + InBytes(last - first + 1, s) <= (high + 1) * s
  {
    MulMonotone(low, first, s);
    MulMonotone(last + 1, high + 1, s);
    Distribute(first, last - first + 1, s);
  }

  // ---- The canonical image ----

  datatype Patch = Patch(offset: nat, data: Bytes)

  function CanonicalCrc(crc: Crc, t: Table): Crc32
    requires t.primary.fields.entrySize >= 128
  {
    crc(CanonicalEntries(t.primary.entries, t.primary.fields.entrySize))
  }

  ghost predicate Patchable(t: Table) {
    && (t.sector == 512 || t.sector == 4096) && t.primary.fields.entrySize >= 128
    && |t.primary.raw| == t.sector && |t.backup.raw| == t.sector
    && 92 <= t.primary.headerSize <= t.sector && 92 <= t.backup.headerSize <= t.sector
    && |t.primary.entries| == ArraySize(t.primary.fields)
    && t.primary.entries == t.backup.entries && t.primary.fields.entrySize == t.backup.fields.entrySize
  }

  lemma AcceptedPatchable(crc: Crc, image: Bytes, t: Table)
    requires Accepted(crc, image, t)
    ensures Patchable(t) && Separated(image, t)
  {
    hide ValidatedGpt, Accepted, ReadHeader, CheckHeaderBytes, HeaderFields, Separated, ArraySize, U32;
    CopyFacts(crc, image, t, true);
    CopyFacts(crc, image, t, false);
    CopiesAlike(crc, image, t);
    PatchesSeparated(crc, image, t);
  }

  /** The patches of `canonical_image_sha256`. */
  function Patches(crc: Crc, t: Table): (r: seq<Patch>)
    requires Patchable(t)
    ensures |r| == 4
  {
    var entries, c := CanonicalEntries(t.primary.entries, t.primary.fields.entrySize), CanonicalCrc(crc, t);
    [Patch(t.primary.lba * t.sector, CanonicalHeader(crc, t.primary, c)),
     Patch(ArrayOffset(t.primary, t.sector), entries),
     Patch(ArrayOffset(t.backup, t.sector), entries),
     Patch(t.backup.lba * t.sector, CanonicalHeader(crc, t.backup, c))]
  }

  /** The image with the four patches applied. */
  function Canonical(crc: Crc, image: Bytes, t: Table): (r: Bytes)
    requires Patchable(t) && Separated(image, t)
    ensures |r| == |image|
  {
    var p := Patches(crc, t);
    var one := Overwrite(image, p[0].offset, p[0].data);
    var two := Overwrite(one, p[1].offset, p[1].data);
    var three := Overwrite(two, p[2].offset, p[2].data);
    Overwrite(three, p[3].offset, p[3].data)
  }

  predicate Within(p: Patch, i: int) {
    p.offset <= i < p.offset + |p.data|
  }

  /** The canonical image byte by byte. */
  lemma CanonicalAt(crc: Crc, image: Bytes, t: Table, i: nat)
    requires Patchable(t) && Separated(image, t) && i < |image|
    ensures var c, p := Canonical(crc, image, t), Patches(crc, t);
            && (forall k :: 0 <= k < 4 && Within(p[k], i) ==> c[i] == p[k].data[i - p[k].offset])
            && ((forall k :: 0 <= k < 4 ==> !Within(p[k], i)) ==> c[i] == image[i])
  {
    hide CanonicalHeader, CanonicalEntries, CanonicalCrc, ArraySize, ArrayOffset;
    var p := Patches(crc, t);
    assert p[0].offset + |p[0].data| <= p[1].offset;
    assert p[1].offset + |p[1].data| <= p[2].offset;
    assert p[2].offset + |p[2].data| <= p[3].offset;
  }

  // ---- The canonical image is accepted, with the same layout ----

  function CanonicalCopy(crc: Crc, h: Header, t: Table): Header
    requires Patchable(t) && 92 <= h.headerSize <= |h.raw|
  {
    var c := CanonicalCrc(crc, t);
    Header(h.fields.(arrayCrc := c), h.lba, h.headerSize, CanonicalHeader(crc, h, c),
           CanonicalEntries(t.primary.entries, t.primary.fields.entrySize))
  }

  function CanonicalTable(crc: Crc, t: Table): Table
    requires Patchable(t)
  {
    Table(t.sector, CanonicalCopy(crc, t.primary, t), CanonicalCopy(crc, t.backup, t))
  }

  /** The patches in disk order. */
  lemma PatchOrder(crc: Crc, image: Bytes, t: Table)
    requires Patchable(t) && Separated(image, t)
    ensures var p := Patches(crc, t);
            && p[0].offset == t.sector == |p[0].data| == |p[3].data|
            && p[0].offset + |p[0].data| <= p[1].offset
            && p[1].offset + |p[1].data| <= p[2].offset
            && p[2].offset + |p[2].data| <= p[3].offset
            && p[3].offset + |p[3].data| == |image|
            && p[1].data == p[2].data == CanonicalEntries(t.primary.entries, t.primary.fields.entrySize)
            && p[1].offset == ArrayOffset(t.primary, t.sector) && p[2].offset == ArrayOffset(t.backup, t.sector)
            && |t.primary.entries| == |p[1].data|
  {
    hide CanonicalHeader, CanonicalEntries, CanonicalCrc, ArraySize, ArrayOffset;
  }

  lemma PatchReads(crc: Crc, image: Bytes, t: Table, k: nat)
    requires Patchable(t) && Separated(image, t) && k < 4
    ensures var c, p := Canonical(crc, image, t), Patches(crc, t)[k];
            p.offset + |p.data| <= |c| && c[p.offset..p.offset + |p.data|] == p.data
  {
    hide Canonical, Patches, Patchable, Separated, CanonicalEntries, ArrayOffset;
    PatchOrder(crc, image, t);
    var c, p := Canonical(crc, image, t), Patches(crc, t)[k];
    assert p.offset + |p.data| <= |c|;
    forall i | p.offset <= i < p.offset + |p.data| ensures c[i] == p.data[i - p.offset] {
      CanonicalAt(crc, image, t, i);
      assert Within(Patches(crc, t)[k], i);
    }
  }

  /** The converse of HeaderFacts: a sector and an array that pass every check are read as a header. */
  lemma HeaderAccepted(crc: Crc, image: Bytes, sector: nat, lba: nat, backup: nat, raw: Bytes, entries: Bytes)
    requires (sector == 512 || sector == 4096) && |image| >= sector
    requires Inside(image, lba * sector, sector) && raw == image[lba * sector..lba * sector + sector]
    requires CheckHeaderBytes(crc, raw, sector).None?
    requires CheckHeaderGeometry(HeaderFields(raw), lba, backup, |image| / sector - 1).None?
    requires Inside(image, HeaderFields(raw).entriesLba * sector, ArraySize(HeaderFields(raw)))
    requires entries == image[HeaderFields(raw).entriesLba * sector..
                              HeaderFields(raw).entriesLba * sector + ArraySize(HeaderFields(raw))]
    requires CheckArrayLocation(HeaderFields(raw), lba, |image| / sector - 1, ArrayLastLba(HeaderFields(raw), sector)).None?
    requires crc(entries) == HeaderFields(raw).arrayCrc
    ensures ReadHeader(crc, image, sector, lba, backup) == Ok(Header(HeaderFields(raw), lba, U32(raw, 12), raw, entries))
  {
    hide CheckHeaderBytes, HeaderFields, CheckHeaderGeometry, CheckArrayLocation, ArrayLastLba, ArraySize, U32;
  }

  lemma SameChecks(f: Fields, c: nat, lba: nat, backup: nat, last: nat, sector: nat)
    requires sector > 0
    ensures var g := f.(arrayCrc := c);
            && ArraySize(g) == ArraySize(f) && ArrayLastLba(g, sector) == ArrayLastLba(f, sector)
            && CheckHeaderGeometry(g, lba, backup, last) == CheckHeaderGeometry(f, lba, backup, last)
            && CheckArrayLocation(g, lba, last, ArrayLastLba(g, sector))
               == CheckArrayLocation(f, lba, last, ArrayLastLba(f, sector))
  {
  }

  lemma CopyShape(crc: Crc, h: Header, t: Table)
    requires Patchable(t) && 92 <= h.headerSize <= |h.raw|
    ensures var copy, c := CanonicalCopy(crc, h, t), CanonicalCrc(crc, t);
            && copy.fields == h.fields.(arrayCrc := c) && copy.lba == h.lba && copy.headerSize == h.headerSize
            && copy.raw == CanonicalHeader(crc, h, c) && crc(copy.entries) == c
            && copy == Header(copy.fields, copy.lba, copy.headerSize, copy.raw, copy.entries)
            && |copy.entries| == |t.primary.entries|
  {
  }

  /** Reading a canonical copy back gives the canonical header. */
  lemma ReadCanonical(crc: Crc, image: Bytes, canonical: Bytes, t: Table, h: Header, backup: nat)
    requires Patchable(t) && (t.sector == 512 || t.sector == 4096) && |canonical| == |image| >= t.sector
    requires ReadHeader(crc, image, t.sector, h.lba, backup) == Ok(h)
    requires 92 <= h.headerSize <= |h.raw|
    requires Inside(canonical, h.lba * t.sector, t.sector)
    requires canonical[h.lba * t.sector..h.lba * t.sector + t.sector] == CanonicalCopy(crc, h, t).raw
    requires Inside(canonical, h.fields.entriesLba * t.sector, ArraySize(h.fields))
    requires canonical[h.fields.entriesLba * t.sector..h.fields.entriesLba * t.sector + ArraySize(h.fields)]
             == CanonicalCopy(crc, h, t).entries
    ensures ReadHeader(crc, canonical, t.sector, h.lba, backup) == Ok(CanonicalCopy(crc, h, t))
  {
    hide Accepted, ReadHeader, CheckHeaderBytes, HeaderFields, CheckHeaderGeometry, CheckArrayLocation, ArrayLastLba,
      ArraySize, CanonicalCrc, CanonicalCopy, CanonicalHeader, Inside, U32;
    var copy := CanonicalCopy(crc, h, t);
    HeaderFacts(crc, image, t.sector, h.lba, backup);
    CanonicalHeaderChecks(crc, h, CanonicalCrc(crc, t), t.sector);
    CopyShape(crc, h, t);
    SameChecks(h.fields, CanonicalCrc(crc, t), h.lba, backup, |image| / t.sector - 1, t.sector);
    HeaderAccepted(crc, canonical, t.sector, h.lba, backup, copy.raw, copy.entries);
  }

  // ---- The sector size is kept ----

  /** The table's headers and arrays are the image's bytes. */
  ghost predicate Carries(image: Bytes, t: Table) {
    && Patchable(t) && Separated(image, t)
    && t.primary.raw == image[t.sector..t.sector + t.sector]
    && t.backup.raw == image[t.backup.lba * t.sector..t.backup.lba * t.sector + t.sector]
    && (forall i :: 0 <= i < |t.primary.entries| ==>
          && image[ArrayOffset(t.primary, t.sector) + i] == t.primary.entries[i]
          && image[ArrayOffset(t.backup, t.sector) + i] == t.primary.entries[i])
  }

  lemma AcceptedCarries(crc: Crc, image: Bytes, t: Table)
    requires Accepted(crc, image, t)
    ensures Carries(image, t)
  {
    hide ValidatedGpt, Accepted, ReadHeader, HeaderFields, CheckHeaderBytes, ArraySize, U32, Patchable, Separated;
    AcceptedPatchable(crc, image, t);
    CopyFacts(crc, image, t, true);
    CopyFacts(crc, image, t, false);
    CopiesAlike(crc, image, t);
  }

  lemma SignatureInHeader(crc: Crc, image: Bytes, t: Table)
    requires Accepted(crc, image, t) && Patchable(t)
    ensures Patches(crc, t)[0].data[..8] == SIGNATURE
  {
    hide ValidatedGpt, Accepted, ReadHeader, HeaderFields, CheckHeaderBytes, ArraySize, CanonicalEntries,
      CanonicalHeader, CanonicalCrc, U32;
    CopyFacts(crc, image, t, true);
    var c := CanonicalCrc(crc, t);
    CanonicalHeaderBytes(crc, t.primary, c);
    SlicesEqual(CanonicalHeader(crc, t.primary, c), t.primary.raw, 0, 8);
  }

  /** Where the other sector size would put its signature, the canonical image is zero or unchanged. */
  lemma OtherSignature(crc: Crc, image: Bytes, t: Table, i: nat)
    requires Carries(image, t) && Patchable(t) && Separated(image, t) && |image| >= 3 * 4096
    requires t.sector == 512 || t.sector == 4096
    requires if t.sector == 512 then 4096 <= i < 4104 else 512 <= i < 520
    ensures var c := Canonical(crc, image, t); c[i] == image[i] || c[i] == 0
  {
    hide Canonical, Patches, Patchable, Separated, CanonicalEntries, ArrayOffset;
    CanonicalAt(crc, image, t, i);
    PatchOrder(crc, image, t);
    var p := Patches(crc, t);
    assert !Within(p[0], i) && !Within(p[3], i);
    if Within(p[1], i) {
      assert image[p[1].offset + (i - p[1].offset)] == t.primary.entries[i - p[1].offset];
      assert p[1].data[i - p[1].offset] in {0, t.primary.entries[i - p[1].offset]};
    } else if Within(p[2], i) {
      assert image[p[2].offset + (i - p[2].offset)] == t.primary.entries[i - p[2].offset];
      assert p[2].data[i - p[2].offset] in {0, t.primary.entries[i - p[2].offset]};
    }
  }

  lemma SignatureNotForged(crc: Crc, image: Bytes, t: Table, other: nat)
    requires Carries(image, t) && Patchable(t) && Separated(image, t)
    requires (t.sector == 512 && other == 4096) || (t.sector == 4096 && other == 512)
    requires |image| >= 3 * 4096
    ensures HasSignature(Canonical(crc, image, t), other) ==> HasSignature(image, other)
  {
    hide Canonical, Patches, Patchable, Separated, Carries;
    var c := Canonical(crc, image, t);
    if HasSignature(c, other) {
      forall i | other <= i < other + 8 ensures c[i] == image[i] {
        assert c[other..other + 8][i - other] == c[i];
        assert SIGNATURE[i - other] != 0;
        OtherSignature(crc, image, t, i);
      }
      SlicesEqual(c, image, other, other + 8);
    }
  }

  lemma SignatureKept(crc: Crc, image: Bytes, t: Table)
    requires Accepted(crc, image, t) && Patchable(t) && Separated(image, t)
    ensures SectorSize(Canonical(crc, image, t)) == Some(t.sector)
  {
    hide Canonical, Patches, Patchable, Separated, Carries, Accepted, CopiesAgree, ReadHeader, ArraySize, ArrayOffset,
      CanonicalEntries;
    AcceptedSector(crc, image, t);
    AcceptedCarries(crc, image, t);
    PatchReads(crc, image, t, 0);
    PatchOrder(crc, image, t);
    SignatureInHeader(crc, image, t);
    var c, s := Canonical(crc, image, t), t.sector;
    assert c[s..s + 8] == c[s..s + s][..8];
    var other := if s == 512 then 4096 else 512;
    if |image| >= 3 * 4096 {
      SignatureNotForged(crc, image, t, other);
    }
  }

  lemma AcceptedSector(crc: Crc, image: Bytes, t: Table)
    requires Accepted(crc, image, t)
    ensures (t.sector == 512 || t.sector == 4096) && SectorSize(image) == Some(t.sector)
  {
    hide ReadHeader, CopiesAgree, HasSignature;
  }

  /** The canonical image passes both validations and has the canonical table. */
  lemma CanonicalAccepted(crc: Crc, image: Bytes, t: Table)
    requires Accepted(crc, image, t)
    ensures Patchable(t) && Separated(image, t)
    ensures Accepted(crc, Canonical(crc, image, t), CanonicalTable(crc, t))
  {
    hide Canonical, Patches, Patchable, Separated, CanonicalCopy, ReadHeader, CopiesAgree, SectorSize;
    AcceptedPatchable(crc, image, t);
    SignatureKept(crc, image, t);
    AcceptedSector(crc, image, t);
    CanonicalCopyRead(crc, image, t, true);
    CanonicalCopyRead(crc, image, t, false);
    CanonicalCopiesAgree(crc, image, t);
  }

  lemma CanonicalCopyRead(crc: Crc, image: Bytes, t: Table, primary: bool)
    requires Accepted(crc, image, t) && Patchable(t) && Separated(image, t)
    ensures t.sector == 512 || t.sector == 4096
    ensures var h, last := CopyOf(t, primary), LastLba(image, t);
            && h.lba == (if primary then 1 else last)
            && ReadHeader(crc, Canonical(crc, image, t), t.sector, h.lba, if primary then last else 1)
               == Ok(CanonicalCopy(crc, h, t))
  {
    hide Accepted, Canonical, ReadHeader, CheckHeaderBytes, HeaderFields, ArraySize, CanonicalHeader, CanonicalEntries,
      CanonicalCrc, CanonicalCopy, ValidatedGpt, Patches, Separated, U32;
    CopyFacts(crc, image, t, primary);
    PatchReads(crc, image, t, if primary then 0 else 3);
    PatchReads(crc, image, t, if primary then 1 else 2);
    PatchShape(crc, image, t);
    ReadCanonical(crc, image, Canonical(crc, image, t), t, CopyOf(t, primary),
                  if primary then LastLba(image, t) else 1);
  }

  lemma PatchShape(crc: Crc, image: Bytes, t: Table)
    requires Patchable(t) && Separated(image, t)
    ensures var p := Patches(crc, t);
            && p[0] == Patch(t.primary.lba * t.sector, CanonicalCopy(crc, t.primary, t).raw)
            && p[1] == Patch(t.primary.fields.entriesLba * t.sector, CanonicalCopy(crc, t.primary, t).entries)
            && p[2] == Patch(t.backup.fields.entriesLba * t.sector, CanonicalCopy(crc, t.backup, t).entries)
            && p[3] == Patch(t.backup.lba * t.sector, CanonicalCopy(crc, t.backup, t).raw)
            && |p[0].data| == t.sector == |p[3].data|
            && |p[1].data| == ArraySize(t.primary.fields) == |p[2].data| == ArraySize(t.backup.fields)
  {
    hide CanonicalHeader, CanonicalEntries, CanonicalCrc;
  }

  lemma CanonicalCopiesAgree(crc: Crc, image: Bytes, t: Table)
    requires Accepted(crc, image, t) && Patchable(t)
    ensures |CanonicalCopy(crc, t.primary, t).raw| >= 92 && |CanonicalCopy(crc, t.backup, t).raw| >= 92
    ensures CopiesAgree(CanonicalCopy(crc, t.primary, t), CanonicalCopy(crc, t.backup, t))
  {
    hide ValidatedGpt, Accepted, CanonicalHeader, CanonicalEntries, CanonicalCrc, U32, ArraySize;
    CopiesAlike(crc, image, t);
    var c := CanonicalCrc(crc, t);
    CanonicalHeaderBytes(crc, t.primary, c);
    CanonicalHeaderBytes(crc, t.backup, c);
    var a, b := CanonicalHeader(crc, t.primary, c), CanonicalHeader(crc, t.backup, c);
    assert a[56..72] == Zeros(16) && b[56..72] == Zeros(16);
  }
}
