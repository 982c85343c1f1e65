/**
 * Validation of both GPT copies (mkosi/private/partition_metadata.py; section 5.3 of the UEFI Specification) and the
 * projection of the partition table. CRC-32 and the decoding of labels are parameters.
 */
module Gpt {
  import opened Prelude
  import opened Bytes

  const ALIGNMENT := 0x10_0000
  const HEADER_MIN := 92
  const MAX_ARRAY_BYTES := 0x400_0000
  const MAX_ENTRIES := 0x10_0000
  const SIGNATURE: Bytes := [69, 70, 73, 32, 80, 65, 82, 84]

  type Crc = Bytes -> Crc32

  type Crc32 = n: int | 0 <= n < 0x1_0000_0000

  datatype GptError =
    | OutsideImage
    | BadSignature
    | UnsupportedRevision
    | BadHeaderSize
    | HeaderCrcMismatch
    | NonzeroReserved
    | NotReciprocal
    | UnexpectedLocation
    | BadUsableRange
    | HostileCount
    | HostileEntrySize
    | ArrayOversized
    | BadArrayLocation
    | PrimaryArrayLate
    | BackupArrayEarly
    | ArrayCrcMismatch
    | AmbiguousSectorSize
    | CopiesDisagree
    | InvertedRange(number: nat)
    | OutsideUsable(number: nat)
    | OutOfOrder(number: nat)
    | Overlap(number: nat, previous: nat)
    | Misaligned(number: nat)
    | BadLabel(number: nat)
    | BadRoots
    | BadFirmware
    | PatchesOverlap
    | TruncatedWhileHashing

  datatype Fields = Fields(
    current: nat,
    backup: nat,
    firstUsable: nat,
    lastUsable: nat,
    entriesLba: nat,
    count: nat,
    entrySize: nat,
    arrayCrc: nat)

  // ---- One header ----

  function Clear(s: Bytes, from: nat, to: nat): (r: Bytes)
    requires from <= to <= |s|
    ensures |r| == |s|
  {
    s[..from] + Zeros(to - from) + s[to..]
  }

  /** `_check_header_bytes`. */
  function CheckHeaderBytes(crc: Crc, raw: Bytes, sector: nat): Option<GptError>
    requires |raw| == sector && sector >= 512
  {
    var headerSize := U32(raw, 12);
    if raw[..8] != SIGNATURE then Some(BadSignature)
    else if U32(raw, 8) != 0x0001_0000 then Some(UnsupportedRevision)
    else if !(HEADER_MIN <= headerSize <= sector) then Some(BadHeaderSize)
    else if crc(Clear(raw[..headerSize], 16, 20)) != U32(raw, 16) then Some(HeaderCrcMismatch)
    else if raw[20..24] != Zeros(4) then Some(NonzeroReserved)
    else None
  }

  /** `_header_fields`. */
  function HeaderFields(raw: Bytes): Fields
    requires |raw| >= 92
  {
    Fields(U64(raw, 24), U64(raw, 32), U64(raw, 40), U64(raw, 48), U64(raw, 72), U32(raw, 80), U32(raw, 84),
           U32(raw, 88))
  }

  /** `_check_header_geometry`. */
  function CheckHeaderGeometry(f: Fields, lba: nat, expectedBackup: nat, lastLba: nat): Option<GptError> {
    if f.current != lba || f.backup != expectedBackup then Some(NotReciprocal)
    else if lba != 1 && lba != lastLba then Some(UnexpectedLocation)
    else if !(f.firstUsable <= f.lastUsable < lastLba) then Some(BadUsableRange)
    else if !(0 < f.count <= MAX_ENTRIES) then Some(HostileCount)
    else if !(128 <= f.entrySize <= 4096) || f.entrySize % 8 != 0 then Some(HostileEntrySize)
    else if f.count * f.entrySize > MAX_ARRAY_BYTES then Some(ArrayOversized)
    else None
  }

  /** `_check_array_location`. */
  function CheckArrayLocation(f: Fields, lba: nat, lastLba: nat, arrayLastLba: int): Option<GptError> {
    if !(f.entriesLba >= 2 && arrayLastLba < lastLba) then Some(BadArrayLocation)
    else if lba == 1 && arrayLastLba >= f.firstUsable then Some(PrimaryArrayLate)
    else if lba == lastLba && f.entriesLba <= f.lastUsable then Some(BackupArrayEarly)
    else None
  }

  datatype Header = Header(fields: Fields, lba: nat, headerSize: nat, raw: Bytes, entries: Bytes)

  function ArraySize(f: Fields): nat {
    f.count * f.entrySize
  }

  function ArrayLastLba(f: Fields, sector: nat): int
    requires sector > 0
  {
    f.entriesLba + (ArraySize(f) + sector - 1) / sector - 1
  }

  predicate Inside(image: Bytes, offset: nat, size: nat) {
    offset + size <= |image|
  }

  /** `_header`: reads and validates one GPT copy and its partition array. */
  function ReadHeader(crc: Crc, image: Bytes, sector: nat, lba: nat, expectedBackup: nat)
    : (r: Result<Header, GptError>)
    requires sector == 512 || sector == 4096
    ensures r.Ok? ==> |r.value.raw| == sector
  {
    if !Inside(image, lba * sector, sector) then Err(OutsideImage)
    else
      var raw := image[lba * sector..lba * sector + sector];
      var f, lastLba := HeaderFields(raw), |image| / sector - 1;
      var badBytes := CheckHeaderBytes(crc, raw, sector);
      if badBytes.Some? then Err(badBytes.value)
      else if lastLba < 0 then Err(OutsideImage)
      else
        var badGeometry := CheckHeaderGeometry(f, lba, expectedBackup, lastLba);
        if badGeometry.Some? then Err(badGeometry.value)
        else if !Inside(image, f.entriesLba * sector, ArraySize(f)) then Err(OutsideImage)
        else
          var entries := image[f.entriesLba * sector..f.entriesLba * sector + ArraySize(f)];
          var badLocation := CheckArrayLocation(f, lba, lastLba, ArrayLastLba(f, sector));
          if badLocation.Some? then Err(badLocation.value)
          else if crc(entries) != f.arrayCrc then Err(ArrayCrcMismatch)
          else Ok(Header(f, lba, U32(raw, 12), raw, entries))
  }

  // ---- Both copies ----

  predicate HasSignature(image: Bytes, size: nat)
    requires size > 0
  {
    |image| % size == 0 && |image| >= size * 3 && ReadAt(image, size, 8) == SIGNATURE
  }

  /** `_sector_size`. */
  function SectorSize(image: Bytes): (r: Option<nat>)
    ensures r.Some? ==> (r.value == 512 || r.value == 4096) && |image| % r.value == 0 && |image| >= r.value * 3
  {
    if HasSignature(image, 512) && !HasSignature(image, 4096) then Some(512)
    else if HasSignature(image, 4096) && !HasSignature(image, 512) then Some(4096)
    else None
  }

  datatype Table = Table(sector: nat, primary: Header, backup: Header)

  function DiskGuid(h: Header): Bytes
    requires |h.raw| >= 92
  {
    h.raw[56..72]
  }

  predicate CopiesAgree(a: Header, b: Header)
    requires |a.raw| >= 92 && |b.raw| >= 92
  {
    && DiskGuid(a) == DiskGuid(b)
    && a.fields.firstUsable == b.fields.firstUsable && a.fields.lastUsable == b.fields.lastUsable
    && a.fields.count == b.fields.count && a.fields.entrySize == b.fields.entrySize
    && a.entries == b.entries
  }

  /** `_validated_gpt`. */
  function ValidatedGpt(crc: Crc, image: Bytes): Result<Table, GptError> {
    match SectorSize(image)
    case None => Err(AmbiguousSectorSize)
    case Some(sector) =>
      var lastLba := |image| / sector - 1;
      var primary := ReadHeader(crc, image, sector, 1, lastLba);
      if primary.Err? then Err(primary.error)
      else
        var backup := ReadHeader(crc, image, sector, lastLba, 1);
        if backup.Err? then Err(backup.error)
        else if !CopiesAgree(primary.value, backup.value) then Err(CopiesDisagree)
        else Ok(Table(sector, primary.value, backup.value))
  }

  // ---- Partition entries ----

  type Decoder = Bytes -> Option<string>

  datatype Partition = Partition(
    number: nat,
    first: nat,
    last: nat,
    name: string,
    typeGuid: Bytes,
    sizeBytes: nat,
    startBytes: nat)

  function Entry(h: Header, slot: nat): (r: Bytes)
    requires slot < h.fields.count && |h.entries| == ArraySize(h.fields)
    ensures |r| == h.fields.entrySize
  {
    SlotInside(h.fields.count, h.fields.entrySize, slot);
    h.entries[slot * h.fields.entrySize..slot * h.fields.entrySize + h.fields.entrySize]
  }

  lemma SlotInside(count: nat, size: nat, slot: nat)
    requires slot < count
    ensures slot * size + size <= count * size
  {
    assert (slot + 1) * size <= count * size;
    assert (slot + 1) * size == slot * size + size;
  }

  function InBytes(sectors: nat, sector: nat): nat {
    sectors * sector
  }

  /** `_check_entry_range` against the last populated entry, if any. */
  function CheckEntryRange(number: nat, first: nat, last: nat, f: Fields, done: seq<Partition>): Option<GptError> {
    if first > last then Some(InvertedRange(number))
    else if first < f.firstUsable || last > f.lastUsable then Some(OutsideUsable(number))
    else if done == [] then None
    else
      var previous := done[|done| - 1];
      if first < previous.first then Some(OutOfOrder(number))
      else if first <= previous.last then Some(Overlap(number, previous.number))
      else None
  }

  /** `_check_entry_range` and `_project_entry` for one populated entry. */
  function ProjectEntry(entry: Bytes, number: nat, f: Fields, sector: nat, decode: Decoder, done: seq<Partition>)
    : Result<Partition, GptError>
    requires |entry| >= 128
  {
    var first, last := U64(entry, 32), U64(entry, 40);
    var badRange := CheckEntryRange(number, first, last, f, done);
    if badRange.Some? then Err(badRange.value)
    else if InBytes(first, sector) % ALIGNMENT != 0 then Err(Misaligned(number))
    else match decode(entry[56..128])
      case None => Err(BadLabel(number))
      case Some(wanted) =>
        Ok(Partition(number, first, last, wanted, entry[..16], InBytes(last - first + 1, sector),
                     InBytes(first, sector)))
  }

  predicate IsUsed(entry: Bytes)
    requires |entry| >= 128
  {
    entry[..16] != Zeros(16)
  }

  /** The partitions of the first n entries of the array. */
  function Scan(h: Header, sector: nat, decode: Decoder, n: nat): Result<seq<Partition>, GptError>
    requires n <= h.fields.count && |h.entries| == ArraySize(h.fields) && h.fields.entrySize >= 128
  {
    if n == 0 then Ok([])
    else
      var before := Scan(h, sector, decode, n - 1);
      if before.Err? || !IsUsed(Entry(h, n - 1)) then before
      else
        var p := ProjectEntry(Entry(h, n - 1), n, h.fields, sector, decode, before.value);
        if p.Err? then Err(p.error) else Ok(before.value + [p.value])
  }

  /** Ordered, inside the usable range and pairwise disjoint. */
  ghost predicate WellPlaced(list: seq<Partition>, f: Fields, sector: nat) {
    && (forall i :: 0 <= i < |list| ==> f.firstUsable <= list[i].first <= list[i].last <= f.lastUsable)
    && (forall i :: 0 <= i < |list| ==> list[i].startBytes == InBytes(list[i].first, sector)
                                        && list[i].startBytes % ALIGNMENT == 0
                                        && list[i].sizeBytes == InBytes(list[i].last - list[i].first + 1, sector))
    && (forall i, j :: 0 <= i < j < |list| ==> list[i].last < list[j].first && list[i].number < list[j].number)
  }

  lemma ProjectedEntry(entry: Bytes, number: nat, f: Fields, sector: nat, decode: Decoder, done: seq<Partition>)
    requires |entry| >= 128 && ProjectEntry(entry, number, f, sector, decode, done).Ok?
    ensures var p := ProjectEntry(entry, number, f, sector, decode, done).value;
            && f.firstUsable <= p.first <= p.last <= f.lastUsable && p.number == number
            && p.startBytes == InBytes(p.first, sector) && p.startBytes % ALIGNMENT == 0
            && p.sizeBytes == InBytes(p.last - p.first + 1, sector)
            && (done != [] ==> done[|done| - 1].last < p.first)
  {
    hide InBytes, U64;
  }

  /** The one comparison with the previous entry orders all pairs. */
  lemma {:induction false} ScanIsWellPlaced(h: Header, sector: nat, decode: Decoder, n: nat)
    requires n <= h.fields.count && |h.entries| == ArraySize(h.fields) && h.fields.entrySize >= 128
    requires Scan(h, sector, decode, n).Ok?
    ensures WellPlaced(Scan(h, sector, decode, n).value, h.fields, sector)
    ensures var list := Scan(h, sector, decode, n).value; forall i :: 0 <= i < |list| ==> list[i].number <= n
  {
    if n > 0 {
      hide WellPlaced, InBytes, ProjectEntry, IsUsed, ArraySize, Entry;
      ScanIsWellPlaced(h, sector, decode, n - 1);
      var before, list := Scan(h, sector, decode, n - 1).value, Scan(h, sector, decode, n).value;
      if list != before {
        ProjectedEntry(Entry(h, n - 1), n, h.fields, sector, decode, before);
        WellPlacedGrows(before, list[|before|], h.fields, sector);
      }
    }
  }

  lemma WellPlacedGrows(list: seq<Partition>, p: Partition, f: Fields, sector: nat)
    requires WellPlaced(list, f, sector)
    requires f.firstUsable <= p.first <= p.last <= f.lastUsable
    requires p.startBytes == InBytes(p.first, sector) && p.startBytes % ALIGNMENT == 0
    requires p.sizeBytes == InBytes(p.last - p.first + 1, sector)
    requires list != [] ==> list[|list| - 1].last < p.first
    requires forall i :: 0 <= i < |list| ==> list[i].number < p.number
    ensures WellPlaced(list + [p], f, sector)
  {
    hide InBytes;
    var longer := list + [p];
    forall i | 0 <= i < |list| ensures list[i].last < p.first {
      if i < |list| - 1 {
        assert list[i].last < list[|list| - 1].first <= list[|list| - 1].last;
      }
    }
    forall i, j | 0 <= i < j < |longer|
      ensures longer[i].last < longer[j].first && longer[i].number < longer[j].number
    {
    }
  }

  // ---- Roots and firmware ----

  const ROOT_X86_64: Bytes := [0xE3, 0xBC, 0x68, 0x4F, 0xCD, 0xE8, 0xB1, 0x4D, 0x96, 0xE7, 0xFB, 0xCA, 0xF9, 0x84, 0xB7, 0x09]
  const ROOT_X86_64_VERITY: Bytes := [0xED, 0x57, 0x73, 0x2C, 0xD2, 0xEB, 0xD9, 0x46, 0xAE, 0xC1, 0x23, 0xD4, 0x37, 0xEC, 0x2B, 0xF5]
  const BIOS_BOOT: Bytes := [0x48, 0x61, 0x68, 0x21, 0x49, 0x64, 0x6F, 0x6E, 0x74, 0x4E, 0x65, 0x65, 0x64, 0x45, 0x46, 0x49]
  const EMPTY_SLOT_LABEL := "_empty"

  function OfType(list: seq<Partition>, guid: Bytes): seq<Partition> {
    if list == [] then []
    else if list[0].typeGuid == guid then [list[0]] + OfType(list[1..], guid)
    else OfType(list[1..], guid)
  }

  function Populated(list: seq<Partition>): seq<Partition> {
    if list == [] then []
    else if list[0].name != EMPTY_SLOT_LABEL then [list[0]] + Populated(list[1..])
    else Populated(list[1..])
  }

  /** One populated slot with the label, and inactive slots at least as large. */
  predicate SlotAccepted(list: seq<Partition>, guid: Bytes, wanted: string) {
    var candidates := OfType(list, guid);
    var populated := Populated(candidates);
    && |populated| == 1 && populated[0].name == wanted
    && forall p :: p in candidates && p.name == EMPTY_SLOT_LABEL ==> p.sizeBytes >= populated[0].sizeBytes
  }

  /** `_validate_roots` and `_validate_ab_slots`. */
  predicate RootsAccepted(list: seq<Partition>, slotLabel: Option<string>) {
    match slotLabel
    case Some(wanted) =>
      SlotAccepted(list, ROOT_X86_64, wanted) && SlotAccepted(list, ROOT_X86_64_VERITY, wanted + "_verity")
    case None =>
      var roots := OfType(list, ROOT_X86_64);
      |roots| == 1 && roots[0].name == "root-x86-64"
  }

  /** `_validate_firmware`. */
  predicate FirmwareAccepted(list: seq<Partition>, firmware: string) {
    firmware == "uefi" ||
    (firmware == "bios" &&
     var boot := OfType(list, BIOS_BOOT); |boot| == 1 && boot[0].sizeBytes >= ALIGNMENT)
  }

  /** The header was read at its place, and passes the checks of its bytes and its geometry. */
  ghost predicate RawHeld(crc: Crc, image: Bytes, sector: nat, lba: nat, expectedBackup: nat, h: Header)
    requires (sector == 512 || sector == 4096) && |image| >= sector
  {
    && h.lba == lba && |h.raw| == sector && Inside(image, lba * sector, sector)
    && h.raw == image[lba * sector..lba * sector + sector]
    && h.fields == HeaderFields(h.raw) && h.headerSize == U32(h.raw, 12)
    && CheckHeaderBytes(crc, h.raw, sector).None?
    && CheckHeaderGeometry(h.fields, lba, expectedBackup, |image| / sector - 1).None?
  }

  /** The entry array was read at its place, which is allowed, and has the right checksum. */
  ghost predicate ArrayHeld(crc: Crc, image: Bytes, sector: nat, lba: nat, h: Header)
    requires (sector == 512 || sector == 4096) && |image| >= sector
  {
    && CheckArrayLocation(h.fields, lba, |image| / sector - 1, ArrayLastLba(h.fields, sector)).None?
    && Inside(image, h.fields.entriesLba * sector, ArraySize(h.fields)) && |h.entries| == ArraySize(h.fields)
    && h.entries == image[h.fields.entriesLba * sector..h.fields.entriesLba * sector + ArraySize(h.fields)]
    && crc(h.entries) == h.fields.arrayCrc
  }

  /** What reading a header establishes. */
  lemma HeaderFacts(crc: Crc, image: Bytes, sector: nat, lba: nat, expectedBackup: nat)
    requires (sector == 512 || sector == 4096) && |image| >= sector
    requires ReadHeader(crc, image, sector, lba, expectedBackup).Ok?
    ensures var h := ReadHeader(crc, image, sector, lba, expectedBackup).value;
            && RawHeld(crc, image, sector, lba, expectedBackup, h) && ArrayHeld(crc, image, sector, lba, h)
            && 128 <= h.fields.entrySize <= 4096
  {
    hide *;
    RawFacts(crc, image, sector, lba, expectedBackup);
    ArrayFacts(crc, image, sector, lba, expectedBackup);
    SizeFacts(crc, image, sector, lba, expectedBackup, ReadHeader(crc, image, sector, lba, expectedBackup).value);
  }

  lemma RawFacts(crc: Crc, image: Bytes, sector: nat, lba: nat, expectedBackup: nat)
    requires (sector == 512 || sector == 4096) && |image| >= sector
    requires ReadHeader(crc, image, sector, lba, expectedBackup).Ok?
    ensures RawHeld(crc, image, sector, lba, expectedBackup,
                    ReadHeader(crc, image, sector, lba, expectedBackup).value)
  {
    hide CheckHeaderBytes, HeaderFields, U32, CheckArrayLocation, ArrayLastLba, ArraySize, CheckHeaderGeometry;
  }

  lemma ArrayFacts(crc: Crc, image: Bytes, sector: nat, lba: nat, expectedBackup: nat)
    requires (sector == 512 || sector == 4096) && |image| >= sector
    requires ReadHeader(crc, image, sector, lba, expectedBackup).Ok?
    ensures ArrayHeld(crc, image, sector, lba, ReadHeader(crc, image, sector, lba, expectedBackup).value)
  {
    hide CheckHeaderBytes, HeaderFields, U32, CheckArrayLocation, ArrayLastLba, ArraySize, CheckHeaderGeometry;
  }

  lemma SizeFacts(crc: Crc, image: Bytes, sector: nat, lba: nat, expectedBackup: nat, h: Header)
    requires (sector == 512 || sector == 4096) && |image| >= sector
    requires RawHeld(crc, image, sector, lba, expectedBackup, h)
    ensures 128 <= h.fields.entrySize <= 4096
  {
    hide CheckHeaderBytes, HeaderFields, U32;
  }

  lemma TableFacts(crc: Crc, image: Bytes, t: Table)
    requires ValidatedGpt(crc, image) == Ok(t)
    ensures t.sector == 512 || t.sector == 4096
    ensures SectorSize(image) == Some(t.sector) && |image| >= t.sector * 3 && |image| % t.sector == 0
    ensures ReadHeader(crc, image, t.sector, 1, |image| / t.sector - 1) == Ok(t.primary)
    ensures ReadHeader(crc, image, t.sector, |image| / t.sector - 1, 1) == Ok(t.backup)
    ensures |t.primary.entries| == ArraySize(t.primary.fields) && |t.backup.entries| == ArraySize(t.backup.fields)
    ensures 128 <= t.primary.fields.entrySize <= 4096
    ensures |t.primary.raw| == t.sector && |t.backup.raw| == t.sector
    ensures CopiesAgree(t.primary, t.backup)
  {
    hide ReadHeader, CheckHeaderBytes, HeaderFields, CheckHeaderGeometry, CheckArrayLocation, ArraySize,
      ArrayLastLba, HasSignature;
    HeaderFacts(crc, image, t.sector, 1, |image| / t.sector - 1);
    HeaderFacts(crc, image, t.sector, |image| / t.sector - 1, 1);
  }

  /**
   * `project_image`: one linear scan over the entries of a validated table. The partitions it returns are ordered,
   * inside the usable range and pairwise disjoint.
   */
  method ProjectImage(crc: Crc, image: Bytes, decode: Decoder, firmware: string, slotLabel: Option<string>)
    returns (r: Result<(Table, seq<Partition>), GptError>)
    ensures r.Ok? ==> ValidatedGpt(crc, image) == Ok(r.value.0)
    ensures r.Ok? ==> WellPlaced(r.value.1, r.value.0.primary.fields, r.value.0.sector)
    ensures r.Ok? <==> Projected(crc, image, decode, firmware, slotLabel).Ok?
    ensures r.Ok? ==> Projected(crc, image, decode, firmware, slotLabel) == Ok(r.value.1)
  {
    hide ReadHeader, Scan, CopiesAgree, SectorSize, OfType, Populated;
    var validated := ValidatedGpt(crc, image);
    if validated.Err? {
      return Err(validated.error);
    }
    var table := validated.value;
    TableFacts(crc, image, table);
    var scanned := ScanEntries(table.primary, table.sector, decode);
    if scanned.Err? {
      return Err(scanned.error);
    }
    var partitions := scanned.value;
    if !RootsAccepted(partitions, slotLabel) {
      return Err(BadRoots);
    }
    if !FirmwareAccepted(partitions, firmware) {
      return Err(BadFirmware);
    }
    ScanIsWellPlaced(table.primary, table.sector, decode, table.primary.fields.count);
    return Ok((table, partitions));
  }

  /** The linear scan itself; the last partition collected is the previous populated entry. */
  method ScanEntries(h: Header, sector: nat, decode: Decoder) returns (r: Result<seq<Partition>, GptError>)
    requires |h.entries| == ArraySize(h.fields) && h.fields.entrySize >= 128
    ensures r == Scan(h, sector, decode, h.fields.count)
  {
    var partitions: seq<Partition> := [];
    for slot := 0 to h.fields.count
      invariant Scan(h, sector, decode, slot) == Ok(partitions)
    {
      var entry := Entry(h, slot);
      if entry[..16] == Zeros(16) {
        continue;
      }
      var projected := ProjectEntry(entry, slot + 1, h.fields, sector, decode, partitions);
      if projected.Err? {
        ScanFails(h, sector, decode, slot + 1, h.fields.count);
        return Err(projected.error);
      }
      partitions := partitions + [projected.value];
    }
    return Ok(partitions);
  }

  lemma {:induction false} ScanFails(h: Header, sector: nat, decode: Decoder, k: nat, n: nat)
    requires k <= n <= h.fields.count && |h.entries| == ArraySize(h.fields) && h.fields.entrySize >= 128
    requires Scan(h, sector, decode, k).Err?
    ensures Scan(h, sector, decode, n) == Scan(h, sector, decode, k)
  {
    if k < n {
      ScanFails(h, sector, decode, k, n - 1);
    }
  }

  /** The partitions that an accepted image projects to. */
  function Projected(crc: Crc, image: Bytes, decode: Decoder, firmware: string, slotLabel: Option<string>)
    : Result<seq<Partition>, GptError>
  {
    match ValidatedGpt(crc, image)
    case Err(e) => Err(e)
    case Ok(t) =>
      TableFacts(crc, image, t);
      var list := Scan(t.primary, t.sector, decode, t.primary.fields.count);
      if list.Err? then Err(list.error)
      else if !RootsAccepted(list.value, slotLabel) then Err(BadRoots)
      else if !FirmwareAccepted(list.value, firmware) then Err(BadFirmware)
      else Ok(list.value)
  }
}
