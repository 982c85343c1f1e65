/**
 * What the canonical form identifies: it is its own canonical form, it projects to the same partitions, and two
 * accepted images share it exactly when they agree on every byte that is not identity or checksum.
 */
module GptIdentity {
  import opened Prelude
  import opened Bytes
  import opened Sorting
  import opened Gpt
  import opened GptCanonical

  // ---- Idempotence ----

  lemma EntriesIdempotent(entries: Bytes, entrySize: nat)
    requires entrySize >= 128
    ensures CanonicalEntries(CanonicalEntries(entries, entrySize), entrySize) == CanonicalEntries(entries, entrySize)
  {
    var once := CanonicalEntries(entries, entrySize);
    var twice := CanonicalEntries(once, entrySize);
    assert forall i :: 0 <= i < |once| ==> twice[i] == once[i];
  }

  lemma CopyIdempotent(crc: Crc, t: Table, h: Header)
    requires Patchable(t) && 92 <= h.headerSize <= |h.raw|
    ensures var c := CanonicalCrc(crc, t);
            CanonicalHeader(crc, CanonicalCopy(crc, h, t), c) == CanonicalHeader(crc, h, c)
  {
    hide CanonicalHeader, CanonicalEntries, CanonicalCrc, Unsealed, U32;
    var c := CanonicalCrc(crc, t);
    CopyShape(crc, h, t);
    CanonicalHeaderBytes(crc, h, c);
    HeaderAgrees(crc, CanonicalCopy(crc, h, t), h, c);
  }

  lemma TableIdempotent(crc: Crc, image: Bytes, t: Table)
    requires Patchable(t) && Separated(image, t)
    ensures Patchable(CanonicalTable(crc, t))
    ensures Separated(Canonical(crc, image, t), CanonicalTable(crc, t))
    ensures Patches(crc, CanonicalTable(crc, t)) == Patches(crc, t)
  {
    hide CanonicalHeader, CanonicalEntries, Unsealed;
    EntriesIdempotent(t.primary.entries, t.primary.fields.entrySize);
    CopyIdempotent(crc, t, t.primary);
    CopyIdempotent(crc, t, t.backup);
  }

  lemma SamePatchesTwice(crc: Crc, image: Bytes, t: Table, other: Bytes, u: Table, i: nat)
    requires Patchable(t) && Separated(image, t) && Patchable(u) && Separated(other, u)
    requires |image| == |other| && Patches(crc, t) == Patches(crc, u) && i < |image|
    requires (forall k :: 0 <= k < 4 ==> !Within(Patches(crc, t)[k], i)) ==> image[i] == other[i]
    ensures Canonical(crc, image, t)[i] == Canonical(crc, other, u)[i]
  {
    hide Canonical, Patches, Patchable, Separated, Within;
    CanonicalAt(crc, image, t, i);
    CanonicalAt(crc, other, u, i);
    if k :| 0 <= k < 4 && Within(Patches(crc, t)[k], i) {
      assert Within(Patches(crc, u)[k], i);
    }
  }

  /** The canonical image is its own canonical form. */
  lemma CanonicalIdempotent(crc: Crc, image: Bytes, t: Table)
    requires Patchable(t) && Separated(image, t)
    ensures Patchable(CanonicalTable(crc, t))
    ensures Separated(Canonical(crc, image, t), CanonicalTable(crc, t))
    ensures Canonical(crc, Canonical(crc, image, t), CanonicalTable(crc, t)) == Canonical(crc, image, t)
  {
    hide Canonical, Patches, Patchable, Separated, CanonicalTable, Within;
    TableIdempotent(crc, image, t);
    var c, u := Canonical(crc, image, t), CanonicalTable(crc, t);
    forall i | 0 <= i < |c| ensures Canonical(crc, c, u)[i] == c[i] {
      CanonicalAt(crc, image, t, i);
      SamePatchesTwice(crc, image, t, c, u, i);
    }
    assert Canonical(crc, c, u) == c;
  }

  // ---- The projection is kept ----

  lemma EntryKept(crc: Crc, t: Table, slot: nat)
    requires Patchable(t) && slot < t.primary.fields.count
    ensures var h, e := CanonicalCopy(crc, t.primary, t), Entry(t.primary, slot);
            && |h.entries| == ArraySize(h.fields) && h.fields.count == t.primary.fields.count
            && var c := Entry(h, slot);
               |c| == |e| && c[..16] == e[..16] && c[32..] == e[32..]
  {
    hide CanonicalHeader;
    var size := t.primary.fields.entrySize;
    var h, e := CanonicalCopy(crc, t.primary, t), Entry(t.primary, slot);
    SlotInside(t.primary.fields.count, size, slot);
    var c, at := Entry(h, slot), slot * size;
    forall i | 0 <= i < size && !(16 <= i < 32) ensures c[i] == e[i] {
      SlotOffset(slot, size, at + i);
    }
    SlicesEqual(c, e, 0, 16);
    SlicesEqual(c, e, 32, size);
  }

  lemma ProjectEntryKept(a: Bytes, b: Bytes, number: nat, f: Fields, c: nat, sector: nat, decode: Decoder,
                         done: seq<Partition>)
    requires |a| == |b| >= 128 && a[..16] == b[..16] && a[32..] == b[32..]
    ensures IsUsed(a) == IsUsed(b)
    ensures ProjectEntry(a, number, f.(arrayCrc := c), sector, decode, done)
            == ProjectEntry(b, number, f, sector, decode, done)
  {
    hide InBytes;
    assert forall i :: 32 <= i < |a| ==> a[i] == a[32..][i - 32] == b[32..][i - 32] == b[i];
    assert a[56..128] == a[32..][24..96] && b[56..128] == b[32..][24..96];
    SameRange(a, b, 32);
    SameRange(a, b, 40);
  }

  lemma SameRange(a: Bytes, b: Bytes, at: nat)
    requires at + 8 <= |a| == |b| && forall i :: at <= i < at + 8 ==> a[i] == b[i]
    ensures U64(a, at) == U64(b, at)
  {
  }

  lemma {:induction false} ScanKept(crc: Crc, t: Table, decode: Decoder, n: nat)
    requires Patchable(t) && n <= t.primary.fields.count
    ensures var h := CanonicalCopy(crc, t.primary, t);
            && |h.entries| == ArraySize(h.fields) && h.fields.entrySize == t.primary.fields.entrySize
            && h.fields.count == t.primary.fields.count
            && Scan(h, t.sector, decode, n) == Scan(t.primary, t.sector, decode, n)
  {
    hide ProjectEntry, CanonicalHeader, CanonicalEntries, IsUsed;
    var h := CanonicalCopy(crc, t.primary, t);
    if n > 0 {
      ScanKept(crc, t, decode, n - 1);
      EntryKept(crc, t, n - 1);
      var before := Scan(t.primary, t.sector, decode, n - 1);
      ProjectEntryKept(Entry(h, n - 1), Entry(t.primary, n - 1), n, t.primary.fields, CanonicalCrc(crc, t), t.sector,
                       decode, if before.Ok? then before.value else []);
    }
  }

  /** The canonical image is accepted exactly as the image is, and projects to the same partitions. */
  lemma CanonicalProjects(crc: Crc, image: Bytes, t: Table, decode: Decoder, firmware: string, slotLabel: Option<string>)
    requires Accepted(crc, image, t)
    ensures Patchable(t) && Separated(image, t)
    ensures Projected(crc, Canonical(crc, image, t), decode, firmware, slotLabel)
            == Projected(crc, image, decode, firmware, slotLabel)
  {
    hide Canonical, Separated, CanonicalCopy, ValidatedGpt, RootsAccepted, FirmwareAccepted, Scan;
    CanonicalAccepted(crc, image, t);
    ScanKept(crc, t, decode, t.primary.fields.count);
  }

  // ---- Exactness ----

  /** A byte that one GPT copy devotes to identity or checksums. */
  ghost predicate MaskedBy(h: Header, s: nat, i: int)
    requires h.fields.entrySize >= 128
  {
    || (h.lba * s <= i < h.lba * s + s && HeaderMasked(i - h.lba * s))
    || (ArrayOffset(h, s) <= i < ArrayOffset(h, s) + ArraySize(h.fields)
        && GuidAt(i - ArrayOffset(h, s), h.fields.entrySize))
  }

  /** The disk GUID, the unique partition GUIDs, the header CRCs and the array CRCs. */
  ghost predicate Masked(t: Table, i: int)
    requires Patchable(t)
  {
    MaskedBy(t.primary, t.sector, i) || MaskedBy(t.backup, t.sector, i)
  }

  /** Canonicalisation changes masked bytes only. */
  lemma UnmaskedKept(crc: Crc, image: Bytes, t: Table, i: nat)
    requires Carries(image, t) && Patchable(t) && Separated(image, t) && i < |image| && !Masked(t, i)
    ensures Canonical(crc, image, t)[i] == image[i]
  {
    hide Canonical, Patches, CanonicalCopy, HeaderMasked, GuidAt, Carries, ArraySize;
    CanonicalAt(crc, image, t, i);
    PatchShape(crc, image, t);
    var p := Patches(crc, t);
    if Within(p[0], i) {
      HeaderByteKept(crc, image, t, true, i);
    } else if Within(p[1], i) {
      ArrayByteKept(crc, image, t, true, i);
    } else if Within(p[2], i) {
      ArrayByteKept(crc, image, t, false, i);
    } else if Within(p[3], i) {
      HeaderByteKept(crc, image, t, false, i);
    } else {
      assert forall k :: 0 <= k < 4 ==> !Within(p[k], i);
    }
  }

  lemma HeaderByteKept(crc: Crc, image: Bytes, t: Table, primary: bool, i: nat)
    requires Carries(image, t) && Patchable(t) && Separated(image, t)
    requires var h := CopyOf(t, primary);
             h.lba * t.sector <= i < h.lba * t.sector + t.sector && !HeaderMasked(i - h.lba * t.sector)
    ensures var h := CopyOf(t, primary);
            i < |image| && CanonicalCopy(crc, h, t).raw[i - h.lba * t.sector] == image[i]
  {
    hide CanonicalEntries, CanonicalHeader, CanonicalCrc, Unsealed, HeaderMasked, ArraySize, ArrayOffset, U32;
    var h := CopyOf(t, primary);
    var at := h.lba * t.sector;
    CopyShape(crc, h, t);
    CanonicalHeaderBytes(crc, h, CanonicalCrc(crc, t));
    CarriesHeader(image, t, primary);
    assert image[at..at + t.sector][i - at] == image[i];
  }

  lemma CarriesHeader(image: Bytes, t: Table, primary: bool)
    requires Carries(image, t)
    ensures var h := CopyOf(t, primary);
            && h.lba * t.sector + t.sector <= |image| && |h.raw| == t.sector
            && h.raw == image[h.lba * t.sector..h.lba * t.sector + t.sector]
  {
    hide ArraySize, ArrayOffset;
  }

  lemma ArrayByteKept(crc: Crc, image: Bytes, t: Table, primary: bool, i: nat)
    requires Carries(image, t) && Patchable(t) && Separated(image, t)
    requires var h := CopyOf(t, primary);
             && ArrayOffset(h, t.sector) <= i < ArrayOffset(h, t.sector) + |t.primary.entries|
             && !GuidAt(i - ArrayOffset(h, t.sector), t.primary.fields.entrySize)
    ensures var h := CopyOf(t, primary);
            i < |image| && CanonicalCopy(crc, h, t).entries[i - ArrayOffset(h, t.sector)] == image[i]
  {
    hide CanonicalHeader, CanonicalCrc, ArrayOffset, GuidAt;
    var h := CopyOf(t, primary);
    var j := i - ArrayOffset(h, t.sector);
    assert image[ArrayOffset(h, t.sector) + j] == t.primary.entries[j];
  }

  /** A masked byte lies in one of the patches. */
  lemma MaskedIsPatched(crc: Crc, image: Bytes, t: Table, i: nat)
    requires Patchable(t) && Separated(image, t) && Masked(t, i)
    ensures exists k :: 0 <= k < 4 && Within(Patches(crc, t)[k], i)
  {
    hide Patches, CanonicalCopy, GuidAt, HeaderMasked;
    PatchShape(crc, image, t);
    var p := Patches(crc, t);
    assert Within(p[0], i) || Within(p[1], i) || Within(p[2], i) || Within(p[3], i);
  }

  /** Two tables with the same layout mask the same bytes. */
  predicate SameLayout(t: Table, u: Table) {
    && t.sector == u.sector && t.primary.lba == u.primary.lba && t.backup.lba == u.backup.lba
    && t.primary.fields == u.primary.fields.(arrayCrc := t.primary.fields.arrayCrc)
    && t.backup.fields == u.backup.fields.(arrayCrc := t.backup.fields.arrayCrc)
  }

  lemma SameMask(t: Table, u: Table, i: int)
    requires Patchable(t) && Patchable(u) && SameLayout(t, u)
    ensures Masked(t, i) == Masked(u, i)
  {
    hide GuidAt, HeaderMasked;
  }

  /** Equal canonical images come from equal layouts. */
  lemma CanonicalLayout(crc: Crc, a: Bytes, t: Table, b: Bytes, u: Table)
    requires Accepted(crc, a, t) && Accepted(crc, b, u)
    ensures Patchable(t) && Separated(a, t) && Patchable(u) && Separated(b, u)
    ensures Canonical(crc, a, t) == Canonical(crc, b, u) ==> SameLayout(t, u)
  {
    hide Canonical, Separated, Patchable, ValidatedGpt, CanonicalHeader, CanonicalEntries, CanonicalCrc;
    CanonicalAccepted(crc, a, t);
    CanonicalAccepted(crc, b, u);
    TableShape(crc, t);
    TableShape(crc, u);
  }

  lemma TableShape(crc: Crc, t: Table)
    requires Patchable(t)
    ensures SameLayout(CanonicalTable(crc, t), t)
  {
    hide CanonicalHeader, CanonicalEntries, CanonicalCrc;
  }

  lemma EqualImpliesAgree(crc: Crc, a: Bytes, t: Table, b: Bytes, u: Table)
    requires Accepted(crc, a, t) && Accepted(crc, b, u) && |a| == |b|
    ensures Patchable(t) && Separated(a, t) && Patchable(u) && Separated(b, u)
    ensures Canonical(crc, a, t) == Canonical(crc, b, u) ==>
              forall i :: 0 <= i < |a| && !Masked(t, i) ==> a[i] == b[i]
  {
    hide Canonical, Separated, Patchable, Accepted, Carries, Masked, SameLayout;
    CanonicalLayout(crc, a, t, b, u);
    AcceptedCarries(crc, a, t);
    AcceptedCarries(crc, b, u);
    if Canonical(crc, a, t) == Canonical(crc, b, u) {
      forall i | 0 <= i < |a| && !Masked(t, i) ensures a[i] == b[i] {
        SameMask(t, u, i);
        UnmaskedKept(crc, a, t, i);
        UnmaskedKept(crc, b, u, i);
      }
    }
  }

  // ---- Agreement implies equality ----

  /** Images that agree on every unmasked byte. */
  ghost predicate Agree(t: Table, a: Bytes, b: Bytes)
    requires Patchable(t)
  {
    |a| == |b| && forall i :: 0 <= i < |a| && !Masked(t, i) ==> a[i] == b[i]
  }

  lemma HeaderAgree(image: Bytes, t: Table, b: Bytes, primary: bool, j: nat)
    requires Patchable(t) && Separated(image, t) && Agree(t, image, b)
    requires j < t.sector && !HeaderMasked(j)
    ensures var at := CopyOf(t, primary).lba * t.sector + j; at < |image| && image[at] == b[at]
  {
    hide HeaderMasked, GuidAt, ArraySize, ArrayOffset;
    var at := CopyOf(t, primary).lba * t.sector + j;
    assert !Masked(t, at);
  }

  lemma ArrayAgree(image: Bytes, t: Table, b: Bytes, j: nat)
    requires Patchable(t) && Separated(image, t) && Agree(t, image, b)
    requires j < |t.primary.entries| && !GuidAt(j, t.primary.fields.entrySize)
    ensures var at := ArrayOffset(t.primary, t.sector) + j; at < |image| && image[at] == b[at]
  {
    hide HeaderMasked, GuidAt, ArrayOffset;
    var at := ArrayOffset(t.primary, t.sector) + j;
    assert !Masked(t, at);
  }

  lemma SectorsAgree(crc: Crc, a: Bytes, t: Table, b: Bytes, u: Table)
    requires Accepted(crc, a, t) && Accepted(crc, b, u) && Patchable(t) && Separated(a, t) && Agree(t, a, b)
    ensures t.sector == u.sector
  {
    hide Accepted, Separated, Agree, Patchable, ReadHeader, HeaderFields, CheckHeaderBytes, ArraySize, ArrayOffset, U32;
    AcceptedSector(crc, a, t);
    AcceptedSector(crc, b, u);
    CopyFacts(crc, a, t, true);
    var s := t.sector;
    AgreeLength(t, a, b);
    forall i | s <= i < s + 8 ensures a[i] == b[i] {
      HeaderAgree(a, t, b, true, i - s);
    }
    SlicesEqual(a, b, s, s + 8);
    assert HasSignature(b, s);
  }

  lemma AgreeLength(t: Table, a: Bytes, b: Bytes)
    requires Patchable(t) && Agree(t, a, b)
    ensures |a| == |b|
  {
    hide Masked, Patchable;
  }

  /** Both copies' headers agree outside the mask. */
  lemma CopiesCorrespond(crc: Crc, a: Bytes, t: Table, b: Bytes, u: Table, primary: bool)
    requires Accepted(crc, a, t) && Accepted(crc, b, u) && Patchable(t) && Separated(a, t) && Agree(t, a, b)
    ensures var g, h := CopyOf(t, primary), CopyOf(u, primary);
            && t.sector == u.sector && g.lba == h.lba && g.headerSize == h.headerSize && |g.raw| == |h.raw| >= 92
            && g.fields == h.fields.(arrayCrc := g.fields.arrayCrc)
            && forall j :: 0 <= j < |g.raw| && !HeaderMasked(j) ==> g.raw[j] == h.raw[j]
  {
    hide Accepted, Separated, Agree, Patchable, ReadHeader, HeaderFields, CheckHeaderBytes, ArraySize, ArrayOffset, U32,
      HeaderMasked;
    SectorsAgree(crc, a, t, b, u);
    AgreeLength(t, a, b);
    CopyFacts(crc, a, t, primary);
    CopyFacts(crc, b, u, primary);
    var g, h, s := CopyOf(t, primary), CopyOf(u, primary), t.sector;
    assert LastLba(a, t) == LastLba(b, u) && g.lba == h.lba;
    var at := g.lba * s;
    forall j | 0 <= j < s && !HeaderMasked(j) ensures g.raw[j] == h.raw[j] {
      HeaderAgree(a, t, b, primary, j);
      SliceByte(a, at, s, j);
      SliceByte(b, at, s, j);
    }
    FieldsAgree(g.raw, h.raw);
    FieldsCrc(g.raw);
  }

  lemma SliceByte(b: Bytes, start: nat, n: nat, j: nat)
    requires start + n <= |b| && j < n
    ensures b[start..start + n][j] == b[start + j]
  {
  }

  lemma FieldsCrc(raw: Bytes)
    requires |raw| >= 92
    ensures HeaderFields(raw).arrayCrc == U32(raw, 88)
  {
    hide U32, U64;
  }

  lemma EntriesCorrespond(crc: Crc, a: Bytes, t: Table, b: Bytes, u: Table)
    requires Accepted(crc, a, t) && Accepted(crc, b, u) && Patchable(t) && Separated(a, t) && Patchable(u)
    requires Agree(t, a, b) && SameLayout(t, u) && Carries(a, t) && Carries(b, u)
    ensures CanonicalEntries(t.primary.entries, t.primary.fields.entrySize)
            == CanonicalEntries(u.primary.entries, u.primary.fields.entrySize)
  {
    hide Accepted, Separated, Agree, GuidAt, ArrayOffset;
    AgreeLength(t, a, b);
    var x, y, size := t.primary.entries, u.primary.entries, t.primary.fields.entrySize;
    var p, q := CanonicalEntries(x, size), CanonicalEntries(y, size);
    assert |x| == |y| && ArrayOffset(t.primary, t.sector) == ArrayOffset(u.primary, u.sector) by {
      SameOffset(t, u);
    }
    forall j | 0 <= j < |x| ensures p[j] == q[j] {
      if !GuidAt(j, size) {
        ArrayAgree(a, t, b, j);
        assert x[j] == a[ArrayOffset(t.primary, t.sector) + j];
        assert y[j] == b[ArrayOffset(u.primary, u.sector) + j];
      }
    }
    assert p == q;
  }

  lemma SameOffset(t: Table, u: Table)
    requires SameLayout(t, u)
    ensures ArrayOffset(t.primary, t.sector) == ArrayOffset(u.primary, u.sector)
    ensures ArrayOffset(t.backup, t.sector) == ArrayOffset(u.backup, u.sector)
    ensures ArraySize(t.primary.fields) == ArraySize(u.primary.fields)
  {
  }

  lemma PatchesCorrespond(crc: Crc, a: Bytes, t: Table, b: Bytes, u: Table)
    requires Accepted(crc, a, t) && Accepted(crc, b, u) && Patchable(t) && Separated(a, t) && Patchable(u)
    requires Agree(t, a, b)
    ensures Patches(crc, t) == Patches(crc, u)
  {
    hide Accepted, Separated, Agree, Carries, CanonicalEntries, CanonicalHeader, ArrayOffset, HeaderMasked;
    CopiesCorrespond(crc, a, t, b, u, true);
    CopiesCorrespond(crc, a, t, b, u, false);
    assert SameLayout(t, u);
    SameOffset(t, u);
    AcceptedCarries(crc, a, t);
    AcceptedCarries(crc, b, u);
    EntriesCorrespond(crc, a, t, b, u);
    var c := CanonicalCrc(crc, t);
    HeaderAgrees(crc, t.primary, u.primary, c);
    HeaderAgrees(crc, t.backup, u.backup, c);
  }

  lemma AgreeImpliesEqual(crc: Crc, a: Bytes, t: Table, b: Bytes, u: Table)
    requires Accepted(crc, a, t) && Accepted(crc, b, u)
    requires Patchable(t) && Separated(a, t) && Patchable(u) && Separated(b, u)
    requires Agree(t, a, b)
    ensures Canonical(crc, a, t) == Canonical(crc, b, u)
  {
    hide Accepted, Separated, Patchable, Canonical, Patches, Within, Masked;
    PatchesCorrespond(crc, a, t, b, u);
    AgreeLength(t, a, b);
    forall i | 0 <= i < |a| ensures Canonical(crc, a, t)[i] == Canonical(crc, b, u)[i] {
      if forall k :: 0 <= k < 4 ==> !Within(Patches(crc, t)[k], i) {
        if Masked(t, i) {
          MaskedIsPatched(crc, a, t, i);
        }
      }
      SamePatchesTwice(crc, a, t, b, u, i);
    }
    assert Canonical(crc, a, t) == Canonical(crc, b, u);
  }

  /**
   * Exactness: accepted images of one size have the same canonical form if and only if they agree on every byte
   * outside the disk GUID, the unique partition GUIDs, the header CRCs and the array CRCs.
   */
  lemma CanonicalIsExact(crc: Crc, a: Bytes, t: Table, b: Bytes, u: Table)
    requires Accepted(crc, a, t) && Accepted(crc, b, u) && |a| == |b|
    ensures Patchable(t) && Separated(a, t) && Patchable(u) && Separated(b, u)
    ensures Canonical(crc, a, t) == Canonical(crc, b, u) <==>
              forall i :: 0 <= i < |a| && !Masked(t, i) ==> a[i] == b[i]
  {
    hide Accepted, Separated, Patchable, Canonical, Masked;
    EqualImpliesAgree(crc, a, t, b, u);
    if forall i :: 0 <= i < |a| && !Masked(t, i) ==> a[i] == b[i] {
      assert Agree(t, a, b);
      AgreeImpliesEqual(crc, a, t, b, u);
    }
  }

  // ---- The hashed stream ----

  const HASH_CHUNK_BYTES := 0x10_0000

  /** `_hash_bytes`: feeds the next bytes of the image into the stream in bounded chunks. */
  method HashBytes(image: Bytes, position: nat, size: int, stream: Bytes) returns (r: Result<Bytes, GptError>)
    requires size < 0 ==> position >= |image|
    ensures r.Ok? <==> size == 0 || (size > 0 && position + size <= |image|)
    ensures r.Ok? ==> r.value == stream + (if size == 0 then [] else image[position..position + size])
    ensures r.Err? ==> r.error == TruncatedWhileHashing
  {
    // A read of a negative size runs to the end of the file, and the position is already past it.
    if size < 0 {
      return Err(TruncatedWhileHashing);
    }
    var fed: Bytes, at: nat, left: nat := stream, position, size;
    while left != 0
      invariant at + left == position + size && FedTo(image, position, at, stream, fed)
    {
      hide ReadAt, FedTo;
      var chunk := ReadAt(image, at, if left < HASH_CHUNK_BYTES then left else HASH_CHUNK_BYTES);
      ChunkRead(image, at, if left < HASH_CHUNK_BYTES then left else HASH_CHUNK_BYTES);
      if chunk == [] {
        return Err(TruncatedWhileHashing);
      }
      FeedNext(image, position, at, stream, fed, chunk);
      fed := fed + chunk;
      at, left := at + |chunk|, left - |chunk|;
    }
    return Ok(fed);
  }

  /** The bytes of the image between two positions were fed after the stream. */
  ghost predicate FedTo(image: Bytes, position: nat, at: nat, stream: Bytes, fed: Bytes) {
    && position <= at && (at > position ==> at <= |image|)
    && fed == stream + (if at == position then [] else image[position..at])
  }

  lemma FeedNext(image: Bytes, position: nat, at: nat, stream: Bytes, fed: Bytes, chunk: Bytes)
    requires FedTo(image, position, at, stream, fed) && chunk != []
    requires at + |chunk| <= |image| && chunk == image[at..at + |chunk|]
    ensures FedTo(image, position, at + |chunk|, stream, fed + chunk)
  {
    assert image[position..at + |chunk|] == image[position..at] + image[at..at + |chunk|];
  }

  lemma ChunkRead(image: Bytes, at: nat, size: nat)
    requires size > 0
    ensures var chunk := ReadAt(image, at, size);
            if chunk == [] then at >= |image| else at + |chunk| <= |image| && chunk == image[at..at + |chunk|]
  {
  }

  /** Patches in order of offset that leave no overlap and stay inside the image. */
  predicate Tiled(patches: seq<Patch>, cursor: nat, size: nat) {
    if patches == [] then cursor <= size
    else cursor <= patches[0].offset && Tiled(patches[1..], patches[0].offset + |patches[0].data|, size)
  }

  lemma {:induction false} TiledBounds(patches: seq<Patch>, cursor: nat, size: nat)
    requires Tiled(patches, cursor, size)
    ensures cursor <= size
    ensures patches != [] ==> patches[0].offset + |patches[0].data| <= size
  {
    if patches != [] {
      TiledBounds(patches[1..], patches[0].offset + |patches[0].data|, size);
    }
  }

  /** The image from the cursor on, with the patches in place. */
  function Spliced(image: Bytes, patches: seq<Patch>, cursor: nat): (r: Bytes)
    requires Tiled(patches, cursor, |image|)
    ensures |r| == |image| - cursor
    decreases |patches|
  {
    TiledBounds(patches, cursor, |image|);
    if patches == [] then image[cursor..]
    else
      var next := patches[0].offset + |patches[0].data|;
      image[cursor..patches[0].offset] + patches[0].data + Spliced(image, patches[1..], next)
  }

  predicate PatchLe(a: Patch, b: Patch) {
    a.offset < b.offset || (a.offset == b.offset && BytesLe(a.data, b.data))
  }

  predicate BytesLe(a: Bytes, b: Bytes) {
    a == [] || (b != [] && (a[0] < b[0] || (a[0] == b[0] && BytesLe(a[1..], b[1..]))))
  }

  /**
   * `_hash_with_patches`: streams the image with the patches in place. It fails exactly when the sorted patches
   * overlap or leave the image, and the stream has the length of the image.
   */
  method HashWithPatches(image: Bytes, patches: seq<Patch>) returns (r: Result<Bytes, GptError>)
    ensures r.Ok? <==> Tiled(Sort(patches, PatchLe), 0, |image|)
    ensures r.Ok? ==> r.value == Spliced(image, Sort(patches, PatchLe), 0) && |r.value| == |image|
  {
    hide Sort, StreamedTo, Tiled, Spliced;
    var ordered := Sort(patches, PatchLe);
    var stream: Bytes := [];
    var cursor: nat := 0;
    StreamStart(image, ordered);
    for k := 0 to |ordered|
      invariant StreamedTo(image, ordered, k, cursor, stream)
    {
      hide StreamedTo, Tiled, Spliced;
      var patch := ordered[k];
      if patch.offset < cursor {
        StreamStops(image, ordered, k, cursor, stream);
        return Err(PatchesOverlap);
      }
      var fed := HashBytes(image, cursor, patch.offset - cursor, stream);
      if fed.Err? {
        StreamStops(image, ordered, k, cursor, stream);
        return Err(fed.error);
      }
      StreamStep(image, ordered, k, cursor, stream);
      stream := fed.value + patch.data;
      cursor := patch.offset + |patch.data|;
    }
    StreamEnd(image, ordered, cursor, stream);
    r := HashBytes(image, cursor, |image| - cursor, stream);
  }

  lemma StreamStart(image: Bytes, ordered: seq<Patch>)
    ensures StreamedTo(image, ordered, 0, 0, [])
  {
    assert ordered[0..] == ordered;
  }

  lemma StreamEnd(image: Bytes, ordered: seq<Patch>, cursor: nat, stream: Bytes)
    requires StreamedTo(image, ordered, |ordered|, cursor, stream)
    ensures Tiled(ordered, 0, |image|) <==> cursor <= |image|
    ensures cursor <= |image| ==> Spliced(image, ordered, 0) == stream + image[cursor..]
  {
    hide StreamedTo;
    StreamTail(image, ordered, cursor, stream);
    assert ordered[|ordered|..] == [];
  }

  lemma StreamTail(image: Bytes, ordered: seq<Patch>, cursor: nat, stream: Bytes)
    requires StreamedTo(image, ordered, |ordered|, cursor, stream)
    ensures Tiled(ordered, 0, |image|) <==> Tiled(ordered[|ordered|..], cursor, |image|)
    ensures Tiled(ordered, 0, |image|) ==>
              Spliced(image, ordered, 0) == stream + Spliced(image, ordered[|ordered|..], cursor)
  {
    hide Tiled, Spliced;
  }

  /** The stream after k patches is the spliced image up to the cursor, if the patches tile the image at all. */
  ghost predicate StreamedTo(image: Bytes, ordered: seq<Patch>, k: nat, cursor: nat, stream: Bytes) {
    && k <= |ordered|
    && (Tiled(ordered, 0, |image|) <==> Tiled(ordered[k..], cursor, |image|))
    && (Tiled(ordered, 0, |image|) ==>
          Spliced(image, ordered, 0) == stream + Spliced(image, ordered[k..], cursor))
  }

  lemma StreamStops(image: Bytes, ordered: seq<Patch>, k: nat, cursor: nat, stream: Bytes)
    requires StreamedTo(image, ordered, k, cursor, stream) && k < |ordered|
    requires ordered[k].offset < cursor || ordered[k].offset > |image|
    ensures !Tiled(ordered, 0, |image|)
  {
    hide Spliced;
    if ordered[k].offset > |image| {
      PastTheEnd(ordered[k..], cursor, |image|);
    }
  }

  lemma StreamStep(image: Bytes, ordered: seq<Patch>, k: nat, cursor: nat, stream: Bytes)
    requires StreamedTo(image, ordered, k, cursor, stream) && k < |ordered|
    requires cursor <= ordered[k].offset && (cursor == ordered[k].offset || ordered[k].offset <= |image|)
    ensures var p := ordered[k];
            var skipped := if p.offset == cursor then [] else image[cursor..p.offset];
            StreamedTo(image, ordered, k + 1, p.offset + |p.data|, stream + skipped + p.data)
  {
    hide Spliced, Tiled;
    var p, rest := ordered[k], ordered[k + 1..];
    TileStep(image, ordered, k, cursor);
    if Tiled(ordered, 0, |image|) {
      var skipped, after := image[cursor..p.offset], Spliced(image, rest, p.offset + |p.data|);
      assert stream + (skipped + p.data + after) == stream + skipped + p.data + after;
    }
  }

  lemma TileStep(image: Bytes, ordered: seq<Patch>, k: nat, cursor: nat)
    requires k < |ordered| && cursor <= ordered[k].offset
    ensures var p, rest := ordered[k], ordered[k + 1..];
            && (Tiled(ordered[k..], cursor, |image|) <==> Tiled(rest, p.offset + |p.data|, |image|))
            && (Tiled(rest, p.offset + |p.data|, |image|) ==>
                  && p.offset + |p.data| <= |image|
                  && Spliced(image, ordered[k..], cursor)
                     == image[cursor..p.offset] + p.data + Spliced(image, rest, p.offset + |p.data|))
  {
    var p, rest := ordered[k], ordered[k + 1..];
    assert ordered[k..][0] == p && ordered[k..][1..] == rest;
    if Tiled(rest, p.offset + |p.data|, |image|) {
      TiledBounds(rest, p.offset + |p.data|, |image|);
    }
  }

  lemma PastTheEnd(patches: seq<Patch>, cursor: nat, size: nat)
    requires patches != [] && patches[0].offset > size
    ensures !Tiled(patches, cursor, size)
  {
    if Tiled(patches, cursor, size) {
      TiledBounds(patches, cursor, size);
    }
  }

  lemma {:induction false} SplicedOutside(image: Bytes, patches: seq<Patch>, cursor: nat, i: nat)
    requires Tiled(patches, cursor, |image|) && cursor <= i < |image|
    requires forall k :: 0 <= k < |patches| ==> !Within(patches[k], i)
    ensures Spliced(image, patches, cursor)[i - cursor] == image[i]
    decreases |patches|
  {
    if patches != [] {
      var first, rest := patches[0], patches[1..];
      assert !Within(first, i);
      SplicedFirst(image, patches, cursor);
      hide Tiled, Spliced;
      if i >= first.offset {
        assert forall k :: 0 <= k < |rest| ==> rest[k] == patches[k + 1];
        SplicedOutside(image, rest, first.offset + |first.data|, i);
      }
    }
  }

  /** The image up to the first patch, the patch, and the rest. */
  lemma SplicedFirst(image: Bytes, patches: seq<Patch>, cursor: nat)
    requires Tiled(patches, cursor, |image|) && patches != []
    ensures var first, rest := patches[0], patches[1..];
            var next := first.offset + |first.data|;
            && cursor <= first.offset && next <= |image| && Tiled(rest, next, |image|)
            && Spliced(image, patches, cursor)
               == image[cursor..first.offset] + first.data + Spliced(image, rest, next)
  {
    TiledBounds(patches, cursor, |image|);
  }

  lemma {:induction false} SplicedInside(image: Bytes, patches: seq<Patch>, cursor: nat, i: nat, k: nat)
    requires Tiled(patches, cursor, |image|) && cursor <= i < |image|
    requires k < |patches| && Within(patches[k], i)
    ensures Spliced(image, patches, cursor)[i - cursor] == patches[k].data[i - patches[k].offset]
    decreases |patches|
  {
    hide Spliced;
    TiledBounds(patches, cursor, |image|);
    SplicedParts(image, patches, cursor);
    var r, next := Spliced(image, patches, cursor), patches[0].offset + |patches[0].data|;
    if k > 0 {
      LaterPatches(patches[1..], next, |image|, k - 1);
      SplicedInside(image, patches[1..], next, i, k - 1);
      assert r[i - cursor] == r[next - cursor..][i - next];
    } else {
      assert r[i - cursor] == r[patches[0].offset - cursor..next - cursor][i - patches[0].offset];
    }
  }

  lemma SplicedParts(image: Bytes, patches: seq<Patch>, cursor: nat)
    requires patches != [] && Tiled(patches, cursor, |image|)
    ensures var r, first := Spliced(image, patches, cursor), patches[0];
            var next := first.offset + |first.data|;
            && cursor <= first.offset && next <= |image|
            && r[first.offset - cursor..next - cursor] == first.data
            && Tiled(patches[1..], next, |image|) && r[next - cursor..] == Spliced(image, patches[1..], next)
  {
    TiledBounds(patches, cursor, |image|);
  }

  lemma {:induction false} LaterPatches(patches: seq<Patch>, cursor: nat, size: nat, k: nat)
    requires Tiled(patches, cursor, size) && k < |patches|
    ensures cursor <= patches[k].offset
    decreases |patches|
  {
    if k > 0 {
      LaterPatches(patches[1..], patches[0].offset + |patches[0].data|, size, k - 1);
    }
  }

  lemma PatchesTiled(crc: Crc, image: Bytes, t: Table)
    requires Patchable(t) && Separated(image, t)
    ensures Sort(Patches(crc, t), PatchLe) == Patches(crc, t)
    ensures Tiled(Patches(crc, t), 0, |image|)
  {
    hide Patches, Patchable, Separated, CanonicalEntries, ArrayOffset, BytesLe;
    PatchOrder(crc, image, t);
    var p := Patches(crc, t);
    assert Sorted(p, PatchLe) by {
      NonemptyPatches(crc, image, t);
    }
    SortKeeps(p, PatchLe);
    TiledFour(p, |image|);
  }

  lemma NonemptyPatches(crc: Crc, image: Bytes, t: Table)
    requires Patchable(t) && Separated(image, t)
    ensures var p := Patches(crc, t);
            p[0].offset < p[1].offset && (p[1].offset < p[2].offset || p[1].data == []) && p[2].offset <= p[3].offset
    ensures var p := Patches(crc, t); forall i, j :: 0 <= i < j < 4 ==> PatchLe(p[i], p[j])
  {
  }

  lemma TiledFour(p: seq<Patch>, size: nat)
    requires |p| == 4
    requires p[0].offset + |p[0].data| <= p[1].offset && p[1].offset + |p[1].data| <= p[2].offset
    requires p[2].offset + |p[2].data| <= p[3].offset && p[3].offset + |p[3].data| <= size
    ensures Tiled(p, 0, size)
  {
    assert p[1..][0] == p[1] && p[1..][1..] == p[2..] && p[2..][0] == p[2] && p[2..][1..] == p[3..];
    assert p[3..][0] == p[3] && p[3..][1..] == [];
    assert Tiled(p[3..], p[2].offset + |p[2].data|, size);
    assert Tiled(p[2..], p[1].offset + |p[1].data|, size);
    assert Tiled(p[1..], p[0].offset + |p[0].data|, size);
  }

  /** Streaming the patches gives the canonical image. */
  lemma StreamIsCanonical(crc: Crc, image: Bytes, t: Table)
    requires Patchable(t) && Separated(image, t) && Tiled(Patches(crc, t), 0, |image|)
    ensures Spliced(image, Patches(crc, t), 0) == Canonical(crc, image, t)
  {
    hide Patches, Patchable, Separated, Canonical, Within, Spliced, Tiled;
    var p := Patches(crc, t);
    var r, c := Spliced(image, p, 0), Canonical(crc, image, t);
    forall i | 0 <= i < |image| ensures r[i] == c[i] {
      CanonicalAt(crc, image, t, i);
      if k :| 0 <= k < 4 && Within(p[k], i) {
        SplicedInside(image, p, 0, i, k);
      } else {
        SplicedOutside(image, p, 0, i);
      }
    }
    assert r == c;
  }

  /**
   * `canonical_image_sha256` up to the digest: accepts exactly the images that project, never meets overlapping or
   * truncating patches, and hashes the canonical image.
   */
  method CanonicalStream(crc: Crc, image: Bytes, decode: Decoder, slotLabel: Option<string>)
    returns (r: Result<Bytes, GptError>)
    ensures r.Ok? <==> Projected(crc, image, decode, "uefi", slotLabel).Ok?
    ensures r.Ok? ==> exists t :: && Accepted(crc, image, t) && Patchable(t) && Separated(image, t)
                                  && r.value == Canonical(crc, image, t)
  {
    hide ValidatedGpt, Projected, Scan, CanonicalEntries, CanonicalHeader, Separated, Canonical, Spliced, Tiled,
      ArraySize, ArrayOffset;
    var projected := ProjectImage(crc, image, decode, "uefi", slotLabel);
    if projected.Err? {
      return Err(projected.error);
    }
    var t := projected.value.0;
    AcceptedPatchable(crc, image, t);
    PatchesTiled(crc, image, t);
    StreamIsCanonical(crc, image, t);
    var patches := CanonicalPatches(crc, image, t);
    r := HashWithPatches(image, patches);
  }

  method CanonicalPatches(crc: Crc, image: Bytes, t: Table) returns (patches: seq<Patch>)
    requires Patchable(t) && Separated(image, t)
    ensures patches == Patches(crc, t)
  {
    hide CanonicalHeader;
    var entries := ClearGuids(t.primary.entries, t.primary.fields.count, t.primary.fields.entrySize);
    var c := crc(entries);
    patches := [Patch(t.primary.lba * t.sector, CanonicalHeader(crc, t.primary, c)),
                Patch(t.primary.fields.entriesLba * t.sector, entries),
                Patch(t.backup.fields.entriesLba * t.sector, entries),
                Patch(t.backup.lba * t.sector, CanonicalHeader(crc, t.backup, c))];
  }
}
