/**
 * Directory entries of the EFI system partition (mkosi/private/esp_manifest/rules_mkosi_esp_manifest.py): the reader
 * collects long name slots in one pass; the long name of an entry is proved to be a function of the complete run of
 * slots directly before it, whatever lies further back.
 */
module FatEntries {
  import opened Prelude
  import opened Bytes
  import opened Fat
  import opened FatWalk

  const LABEL := 0x08
  const MAX_SLOTS := 20

  /** The code page of short names, its lower case, and the decoder of long names. */
  datatype Decoders = Decoders(cp437: Byte -> char, lower: string -> string, utf16: Bytes -> string)

  // ---- Slots ----

  function SlotCount(data: Bytes): nat {
    |data| / 32
  }

  function Slot(data: Bytes, i: nat): (r: Bytes)
    requires i < SlotCount(data)
    ensures |r| == 32
  {
    data[32 * i..32 * i + 32]
  }

  predicate HasBit(b: Byte, bit: nat)
    requires bit > 0
  {
    b / bit % 2 == 1
  }

  predicate IsDeleted(raw: Bytes)
    requires |raw| == 32
  {
    raw[0] == 0xE5
  }

  /** Part of a long name. */
  predicate IsLong(raw: Bytes)
    requires |raw| == 32
  {
    !IsDeleted(raw) && raw[11] % 64 == 0x0F
  }

  predicate IsShort(raw: Bytes)
    requires |raw| == 32
  {
    !IsDeleted(raw) && !IsLong(raw)
  }

  /** `_short_name_checksum` of the first n bytes. */
  function Checksum(raw: Bytes, n: nat): Byte
    requires n <= |raw|
  {
    if n == 0 then 0
    else
      var c := Checksum(raw, n - 1);
      (c % 2 * 128 + c / 2 + raw[n - 1]) % 256
  }

  // ---- Short names ----

  function StripSpaces(s: Bytes): Bytes {
    if s != [] && s[|s| - 1] == 0x20 then StripSpaces(s[..|s| - 1]) else s
  }

  function Decode(d: Decoders, s: Bytes): string {
    seq(|s|, i requires 0 <= i < |s| => d.cp437(s[i]))
  }

  /** `_short_name`. */
  function ShortName(d: Decoders, raw: Bytes): string
    requires |raw| == 32
  {
    var base := Decode(d, StripSpaces(if raw[0] == 0x05 then [0xE5] + raw[1..8] else raw[..8]));
    var extension := Decode(d, StripSpaces(raw[8..11]));
    var name := if HasBit(raw[12], 0x08) then d.lower(base) else base;
    var suffix := if HasBit(raw[12], 0x10) then d.lower(extension) else extension;
    if suffix != "" then name + "." + suffix else name
  }

  // ---- Long names, by looking back ----

  /** The sequence byte of the k-th slot before an entry, in a run of n. */
  function Ordinal(k: nat, n: nat): nat {
    if k == n then n + 0x40 else k
  }

  /**
   * The length of the run of long name slots before the i-th entry, or zero: slots 1 to k - 1 before it are in order,
   * and the first slot of the run on the disk is marked.
   */
  function RunLength(data: Bytes, i: nat, k: nat): nat
    requires i <= SlotCount(data) && k >= 1
    decreases i + 1 - k
  {
    if k > i || k > MAX_SLOTS then 0
    else
      var raw := Slot(data, i - k);
      if !IsLong(raw) then 0
      else if raw[0] == k + 0x40 then k
      else if raw[0] == k then RunLength(data, i, k + 1)
      else 0
  }

  function SlotUnits(raw: Bytes): Bytes
    requires |raw| == 32
  {
    raw[1..11] + raw[14..26] + raw[28..32]
  }

  /** The code units of the n slots before the i-th entry, nearest first. */
  function UnitsBefore(data: Bytes, i: nat, n: nat): Bytes
    requires n <= i <= SlotCount(data)
  {
    if n == 0 then [] else UnitsBefore(data, i, n - 1) + SlotUnits(Slot(data, i - n))
  }

  function BeforeNul(s: string): string {
    if s == [] || s[0] == 0 as char then [] else [s[0]] + BeforeNul(s[1..])
  }

  function NameOf(d: Decoders, units: Bytes): Option<string> {
    var name := BeforeNul(d.utf16(units));
    if name == "" then None else Some(name)
  }

  predicate ChecksumsMatch(data: Bytes, i: nat, n: nat)
    requires n <= i < SlotCount(data)
  {
    forall k :: 1 <= k <= n ==> ChecksumMatches(data, i, k)
  }

  /** The k-th slot before the entry names the entry's short name. */
  predicate ChecksumMatches(data: Bytes, i: nat, k: nat)
    requires 1 <= k <= i < SlotCount(data)
  {
    Slot(data, i - k)[13] == Checksum(Slot(data, i), 11)
  }

  lemma {:induction false} RunBounds(data: Bytes, i: nat, k: nat)
    requires i <= SlotCount(data) && k >= 1
    ensures RunLength(data, i, k) <= i && RunLength(data, i, k) <= MAX_SLOTS
    ensures RunLength(data, i, k) != 0 ==> k <= RunLength(data, i, k)
    ensures forall j :: k <= j <= RunLength(data, i, k) ==> InPlace(data, i, j, RunLength(data, i, k))
    decreases i + 1 - k
  {
    if k <= i && k <= MAX_SLOTS && IsLong(Slot(data, i - k)) && Slot(data, i - k)[0] == k {
      RunBounds(data, i, k + 1);
    }
  }

  /** The long name of the i-th entry. */
  function LongName(d: Decoders, data: Bytes, i: nat): Option<string>
    requires i < SlotCount(data)
  {
    var n := RunLength(data, i, 1);
    RunBounds(data, i, 1);
    if n == 0 || !ChecksumsMatch(data, i, n) then None else NameOf(d, UnitsBefore(data, i, n))
  }

  // ---- Long names, as they are collected ----

  /** `_add_slot`. */
  function AddSlot(slots: seq<Bytes>, raw: Bytes): seq<Bytes>
    requires |raw| == 32
  {
    if HasBit(raw[0], 0x40) then [raw]
    else if |slots| >= MAX_SLOTS then []
    else slots + [raw]
  }

  predicate AllSlots(slots: seq<Bytes>) {
    forall j :: 0 <= j < |slots| ==> |slots[j]| == 32
  }

  /** The code units of the slots, the last slot first. */
  function CollectedUnits(slots: seq<Bytes>): Bytes
    requires AllSlots(slots)
  {
    if slots == [] then [] else CollectedUnits(slots[1..]) + SlotUnits(slots[0])
  }

  predicate InOrder(slots: seq<Bytes>, count: nat)
    requires AllSlots(slots)
  {
    |slots| == count && forall j :: 0 <= j < count ==> slots[j][0] == Ordinal(count - j, count)
  }

  predicate SameChecksum(slots: seq<Bytes>, checksum: Byte)
    requires AllSlots(slots)
  {
    forall j :: 0 <= j < |slots| ==> slots[j][13] == checksum
  }

  /** `_long_name`. */
  function CollectedName(d: Decoders, slots: seq<Bytes>, raw: Bytes): Option<string>
    requires AllSlots(slots) && |raw| == 32
  {
    if slots == [] then None
    else
      var count := if HasBit(slots[0][0], 0x40) then slots[0][0] - 0x40 else slots[0][0];
      if count < 1 || count > MAX_SLOTS || !InOrder(slots, count) || !SameChecksum(slots, Checksum(raw, 11)) then None
      else NameOf(d, CollectedUnits(slots))
  }

  /** The slots that have been collected before the i-th entry. */
  function Collected(data: Bytes, i: nat): (r: seq<Bytes>)
    requires i <= SlotCount(data)
    ensures AllSlots(r)
  {
    if i == 0 then []
    else
      var raw := Slot(data, i - 1);
      if IsLong(raw) then AddSlot(Collected(data, i - 1), raw) else []
  }

  // ---- Both ways agree ----

  /** The n slots before the i-th entry, in disk order. */
  function SlotsBefore(data: Bytes, i: nat, n: nat): (r: seq<Bytes>)
    requires n <= i <= SlotCount(data)
    ensures |r| == n && AllSlots(r) && forall j :: 0 <= j < n ==> r[j] == Slot(data, i - n + j)
  {
    var r := seq(n, j requires 0 <= j < n => Slot(data, i - n + j));
    assert forall j :: 0 <= j < n ==> r[j] == Slot(data, i - n + j);
    r
  }

  /** The j-th slot before the entry is a part of a long name. */
  predicate LongBefore(data: Bytes, i: nat, j: nat)
    requires 1 <= j <= i <= SlotCount(data)
  {
    IsLong(Slot(data, i - j))
  }

  /** The j-th slot before the entry is where a run of n has it. */
  predicate InPlace(data: Bytes, i: nat, j: nat, n: nat)
    requires 1 <= j <= i <= SlotCount(data)
  {
    IsLong(Slot(data, i - j)) && Slot(data, i - j)[0] == Ordinal(j, n)
  }

  /** The n slots before the entry are a complete run. */
  ghost predicate IsRun(data: Bytes, i: nat, n: nat)
    requires n <= i <= SlotCount(data)
  {
    forall j :: 1 <= j <= n ==> InPlace(data, i, j, n)
  }

  lemma MarkedOrNot(b: Byte, k: nat)
    requires 1 <= k <= MAX_SLOTS
    ensures b == k + 0x40 ==> HasBit(b, 0x40)
    ensures b == k ==> !HasBit(b, 0x40)
  {
  }

  /** A run that looking back finds has been collected exactly, up to any slot of it. */
  lemma {:induction false} RunCollected(data: Bytes, i: nat, n: nat, m: nat)
    requires i <= SlotCount(data) && 1 <= m <= n <= i && n <= MAX_SLOTS
    requires IsRun(data, i, n)
    ensures Collected(data, i - n + m) == SlotsBefore(data, i - n + m, m)
  {
    hide HasBit, IsLong, Slot;
    var at := i - n + m;
    var raw := Slot(data, at - 1);
    var j := n - m + 1;
    assert InPlace(data, i, j, n) && i - j == at - 1;
    MarkedOrNot(raw[0], j);
    if m == 1 {
      assert SlotsBefore(data, at, 1) == [raw];
    } else {
      RunCollected(data, i, n, m - 1);
      assert SlotsBefore(data, at, m) == SlotsBefore(data, at - 1, m - 1) + [raw];
    }
  }

  /** Everything collected lies directly before the entry. */
  lemma {:induction false} CollectedIsBefore(data: Bytes, i: nat)
    requires i <= SlotCount(data)
    ensures |Collected(data, i)| <= i && |Collected(data, i)| <= MAX_SLOTS
    ensures Collected(data, i) == SlotsBefore(data, i, |Collected(data, i)|)
    ensures forall j :: 1 <= j <= |Collected(data, i)| ==> LongBefore(data, i, j)
  {
    hide HasBit, IsLong, Slot;
    if i > 0 {
      CollectedIsBefore(data, i - 1);
      var raw, before, slots := Slot(data, i - 1), Collected(data, i - 1), Collected(data, i);
      if slots != [] {
        var n := |slots|;
        assert n == 1 || slots == before + [raw];
        assert slots == SlotsBefore(data, i, n);
        forall j | 1 <= j <= n ensures LongBefore(data, i, j) {
          if j > 1 {
            assert LongBefore(data, i - 1, j - 1);
          }
        }
      }
    }
  }

  /** Collected slots in order are a run that looking back finds. */
  lemma {:induction false} OrderIsRun(data: Bytes, i: nat, n: nat, k: nat)
    requires i <= SlotCount(data) && 1 <= k <= n <= i && n <= MAX_SLOTS
    requires IsRun(data, i, n)
    ensures RunLength(data, i, k) == n
    decreases n - k
  {
    hide IsLong, Slot;
    assert InPlace(data, i, k, n);
    if k < n {
      OrderIsRun(data, i, n, k + 1);
    }
  }

  lemma {:induction false} SameUnits(data: Bytes, i: nat, n: nat)
    requires n <= i <= SlotCount(data)
    ensures CollectedUnits(SlotsBefore(data, i, n)) == UnitsBefore(data, i, n)
  {
    hide Slot, SlotUnits;
    if n > 0 {
      SameUnits(data, i, n - 1);
      var slots := SlotsBefore(data, i, n);
      assert slots[0] == Slot(data, i - n) && slots[1..] == SlotsBefore(data, i, n - 1);
    }
  }

  lemma SameChecksums(data: Bytes, i: nat, n: nat)
    requires n <= i < SlotCount(data)
    ensures SameChecksum(SlotsBefore(data, i, n), Checksum(Slot(data, i), 11)) <==> ChecksumsMatch(data, i, n)
  {
    hide Slot, Checksum;
    var slots := SlotsBefore(data, i, n);
    if SameChecksum(slots, Checksum(Slot(data, i), 11)) {
      forall k | 1 <= k <= n ensures ChecksumMatches(data, i, k) {
        assert slots[n - k] == Slot(data, i - k);
      }
    }
    if ChecksumsMatch(data, i, n) {
      forall j | 0 <= j < n ensures slots[j][13] == Checksum(Slot(data, i), 11) {
        assert ChecksumMatches(data, i, n - j) && slots[j] == Slot(data, i - (n - j));
      }
    }
  }

  /**
   * The name from the slots collected on the way is the name from the run directly before the entry: slots of other
   * names, deleted entries and runs that are too long or out of order leave no trace.
   */
  lemma LongNameIsLocal(d: Decoders, data: Bytes, i: nat)
    requires i < SlotCount(data)
    ensures CollectedName(d, Collected(data, i), Slot(data, i)) == LongName(d, data, i)
  {
    hide *;
    var n := RunLength(data, i, 1);
    RunBounds(data, i, 1);
    if n > 0 {
      BoundsAreRun(data, i);
      RunCollected(data, i, n, n);
      SameUnits(data, i, n);
      SameChecksums(data, i, n);
      RunNamed(data, i, n);
      NameOfRun(d, data, i, n);
    } else {
      NotInOrder(data, i);
      NameOfNothing(d, data, i);
    }
  }

  lemma BoundsAreRun(data: Bytes, i: nat)
    requires i <= SlotCount(data)
    ensures RunLength(data, i, 1) <= i && IsRun(data, i, RunLength(data, i, 1))
  {
    hide RunLength, InPlace;
    RunBounds(data, i, 1);
  }

  lemma NameOfRun(d: Decoders, data: Bytes, i: nat, n: nat)
    requires i < SlotCount(data) && 1 <= n <= i && n <= MAX_SLOTS && RunLength(data, i, 1) == n
    requires var slots := SlotsBefore(data, i, n);
             && Collected(data, i) == slots && InOrder(slots, n) && slots[0][0] == n + 0x40 && HasBit(slots[0][0], 0x40)
             && CollectedUnits(slots) == UnitsBefore(data, i, n)
             && (SameChecksum(slots, Checksum(Slot(data, i), 11)) <==> ChecksumsMatch(data, i, n))
    ensures CollectedName(d, Collected(data, i), Slot(data, i)) == LongName(d, data, i)
  {
    hide Slot, Checksum, HasBit, SlotUnits, Collected, RunLength, InOrder, SameChecksum, ChecksumsMatch, SlotsBefore,
      CollectedUnits, UnitsBefore, NameOf;
  }

  lemma NameOfNothing(d: Decoders, data: Bytes, i: nat)
    requires i < SlotCount(data) && RunLength(data, i, 1) == 0
    requires forall count :: 1 <= count <= MAX_SLOTS ==> !InOrder(Collected(data, i), count)
    ensures CollectedName(d, Collected(data, i), Slot(data, i)) == LongName(d, data, i)
  {
    hide Slot, Checksum, SlotUnits, Collected, RunLength, InOrder, SameChecksum;
  }

  lemma RunNamed(data: Bytes, i: nat, n: nat)
    requires 1 <= n <= i <= SlotCount(data) && n <= MAX_SLOTS
    requires IsRun(data, i, n)
    ensures var slots := SlotsBefore(data, i, n);
            InOrder(slots, n) && slots[0][0] == n + 0x40 && HasBit(slots[0][0], 0x40)
  {
    hide Slot, HasBit;
    var slots := SlotsBefore(data, i, n);
    forall j | 0 <= j < n ensures slots[j][0] == Ordinal(n - j, n) {
      assert InPlace(data, i, n - j, n) && slots[j] == Slot(data, i - (n - j));
    }
    MarkedOrNot(slots[0][0], n);
  }

  lemma NotInOrder(data: Bytes, i: nat)
    requires i <= SlotCount(data) && RunLength(data, i, 1) == 0
    ensures var slots := Collected(data, i);
            forall count :: 1 <= count <= MAX_SLOTS ==> !InOrder(slots, count)
  {
    hide Slot, HasBit, Collected, RunLength, IsLong;
    var slots := Collected(data, i);
    CollectedIsBefore(data, i);
    forall count | 1 <= count <= MAX_SLOTS ensures !InOrder(slots, count) {
      if InOrder(slots, count) {
        forall j | 1 <= j <= count ensures InPlace(data, i, j, count) {
          assert LongBefore(data, i, j) && slots[count - j] == Slot(data, i - j);
        }
        OrderIsRun(data, i, count, 1);
        assert false;
      }
    }
  }

  // ---- Entries ----

  /** A file or subdirectory: no long name slot, deleted entry, volume label, "." or "..". */
  predicate Listed(d: Decoders, raw: Bytes)
    requires |raw| == 32
  {
    IsShort(raw) && !HasBit(raw[11], LABEL) && ShortName(d, raw) != "." && ShortName(d, raw) != ".."
  }

  /** The entry of the i-th slot: its long name if it has one, its attributes, first cluster and size. */
  function EntryAt(d: Decoders, data: Bytes, fat32: bool, i: nat): Entry
    requires i < SlotCount(data)
  {
    var raw := Slot(data, i);
    var name := LongName(d, data, i);
    Entry(if name.Some? then name.value else ShortName(d, raw), HasBit(raw[11], 0x10),
          (if fat32 then U16(raw, 20) * 0x1_0000 else 0) + U16(raw, 26), U32(raw, 28))
  }

  /** The first slot from i on that marks the end of the directory. */
  function End(data: Bytes, i: nat): (r: nat)
    requires i <= SlotCount(data)
    ensures i <= r <= SlotCount(data)
    decreases SlotCount(data) - i
  {
    if i == SlotCount(data) || Slot(data, i)[0] == 0 then i else End(data, i + 1)
  }

  function EntriesUpTo(d: Decoders, data: Bytes, fat32: bool, n: nat): seq<Entry>
    requires n <= SlotCount(data)
  {
    if n == 0 then []
    else
      EntriesUpTo(d, data, fat32, n - 1)
      + if Listed(d, Slot(data, n - 1)) then [EntryAt(d, data, fat32, n - 1)] else []
  }

  /** The entries of a directory: those of the listed slots before the end, each by itself. */
  function ParseEntries(d: Decoders, data: Bytes, fat32: bool): seq<Entry> {
    EntriesUpTo(d, data, fat32, End(data, 0))
  }

  /** `_entries`: one pass that collects long name slots gives every listed slot the name of its own run. */
  method ReadEntries(d: Decoders, data: Bytes, fat32: bool) returns (entries: seq<Entry>)
    ensures entries == ParseEntries(d, data, fat32)
  {
    hide Slot, HasBit, IsLong, ShortName, LongName, CollectedName, U16, U32;
    entries := [];
    var slots: seq<Bytes> := [];
    for i := 0 to SlotCount(data)
      invariant slots == Collected(data, i) && entries == EntriesUpTo(d, data, fat32, i)
      invariant End(data, 0) == End(data, i)
    {
      hide Slot, HasBit, IsLong, ShortName, LongName, CollectedName, U16, U32, AddSlot;
      var raw := Slot(data, i);
      if raw[0] == 0 {
        return;
      }
      LongNameIsLocal(d, data, i);
      if IsDeleted(raw) {
        NotLong(raw);
        slots := [];
      } else if IsLong(raw) {
        slots := AddSlot(slots, raw);
      } else {
        var name := CollectedName(d, slots, raw);
        slots := [];
        var short := ShortName(d, raw);
        if !HasBit(raw[11], LABEL) && short != "." && short != ".." {
          var high := if fat32 then U16(raw, 20) else 0;
          var cluster := high * 0x1_0000 + U16(raw, 26);
          entries := entries + [Entry(if name.Some? then name.value else short, HasBit(raw[11], 0x10), cluster,
                                      U32(raw, 28))];
        }
      }
    }
  }

  lemma NotLong(raw: Bytes)
    requires |raw| == 32 && IsDeleted(raw)
    ensures !IsLong(raw)
  {
  }

  /** Only listed slots make entries, so a directory never lists itself or its parent. */
  lemma {:induction false} EntriesAreListed(d: Decoders, data: Bytes, fat32: bool, n: nat)
    requires n <= SlotCount(data)
    ensures forall e :: e in EntriesUpTo(d, data, fat32, n) <==>
              exists i :: 0 <= i < n && Listed(d, Slot(data, i)) && e == EntryAt(d, data, fat32, i)
  {
    hide Slot, Listed, EntryAt;
    if n > 0 {
      EntriesAreListed(d, data, fat32, n - 1);
    }
  }

  /**
   * `walk` with the reader's own entries: succeeds exactly when every directory reachable through listed entries can
   * be read and no two share a cluster, and lists exactly the files in them.
   */
  method ListFiles(v: Volume, d: Decoders)
    returns (r: Result<seq<EspFile>, FatError>, ghost found: seq<EspFile>, ghost places: seq<Path>)
    requires Opened(v)
    ensures var parse := (data: Bytes, fat32: bool) => ParseEntries(d, data, fat32);
            && (r.Ok? <==> !Broken(v, parse))
            && (r.Ok? ==> Exactly(v, parse, r.value, found, places))
    ensures r.Err? ==> r.error != BudgetExceeded && r.error != OutOfImage
  {
    hide Opened, Broken, Exactly;
    r, found, places := Walk(v, (data: Bytes, fat32: bool) => ParseEntries(d, data, fat32));
  }
}
