/**
 * PE/COFF images (mkosi/private/secure_boot.py): the validated layout of an image, and what it says about the order
 * of the headers, the sections and the certificate table.
 */
module Pe {
  import opened Prelude
  import opened Arithmetic
  import opened Bytes
  import opened Sorting

  datatype PeError =
    | NotPe
    | InvalidHeaderBounds
    | InvalidSectionCount
    | OptionalHeaderOutOfBounds
    | ShortRead
    | InvalidOptionalHeader
    | TooFewDirectories
    | DirectoryUnavailable
    | InvalidAlignment
    | InvalidSectionTable
    | UnalignedHeaders
    | SectionOutOfBounds
    | SectionsOverlap
    | MissingTable
    | InvalidTable
    | AlreadySigned

  datatype Header = Header(optional: nat, optionalSize: nat, fixedSize: nat, sectionCount: nat)

  datatype Table = Table(start: nat, headers: nat, alignment: nat)

  datatype Range = Range(offset: nat, size: nat)

  datatype Layout = Layout(certificate: Range, checksum: nat, security: nat, sections: seq<Range>, headers: nat)

  // ---- Headers ----

  /** Where a validated optional header lies in an image of the given size. */
  predicate HeaderIn(size: nat, h: Header) {
    && h.optional >= 24 && h.optional + h.optionalSize <= size && size >= 64
    && (h.fixedSize == 96 || h.fixedSize == 112) && h.fixedSize <= h.optionalSize
    && 1 <= h.sectionCount <= 96
  }

  function OptionalHeader(data: Bytes): (r: Result<Header, PeError>)
    ensures r.Ok? ==> HeaderIn(|data|, r.value)
  {
    if |data| < 64 || data[0] != 'M' as int || data[1] != 'Z' as int then Err(NotPe)
    else
      var pe := U32(data, 0x3C);
      if pe > |data| - 24 || data[pe..pe + 4] != ['P' as int, 'E' as int, 0, 0] then Err(InvalidHeaderBounds)
      else
        var optional, count, size := pe + 24, U16(data, pe + 6), U16(data, pe + 20);
        if count == 0 || count > 96 then Err(InvalidSectionCount)
        else if optional + size > |data| then Err(OptionalHeaderOutOfBounds)
        else if optional + 2 > |data| then Err(ShortRead)
        else
          var magic := U16(data, optional);
          if magic != 0x20B && magic != 0x10B then Err(InvalidOptionalHeader)
          else
            var fixed := if magic == 0x20B then 112 else 96;
            if size < fixed then Err(InvalidOptionalHeader) else Ok(Header(optional, size, fixed, count))
  }

  /** The security directory entry lies after the checksum and before the section table. */
  predicate DirectoryIn(h: Header, security: nat) {
    h.optional + 68 <= security && security + 8 <= h.optional + h.optionalSize
  }

  function SecurityDirectory(data: Bytes, h: Header): (r: Result<nat, PeError>)
    requires HeaderIn(|data|, h)
    ensures r.Ok? ==> DirectoryIn(h, r.value)
  {
    var directory := h.optional + h.fixedSize;
    var count := U32(data, directory - 4);
    if count < 5 then Err(TooFewDirectories)
    else if directory + count * 8 > h.optional + h.optionalSize then Err(DirectoryUnavailable)
    else Ok(directory + 32)
  }

  predicate TableIn(size: nat, h: Header, t: Table) {
    && t.start == h.optional + h.optionalSize && t.start + h.sectionCount * 40 <= t.headers <= size
    && t.alignment >= 0x200
  }

  function HeaderLayout(data: Bytes, h: Header): (r: Result<Table, PeError>)
    requires HeaderIn(|data|, h)
    ensures r.Ok? ==> TableIn(|data|, h, r.value)
  {
    var alignment, headers := U32(data, h.optional + 36), U32(data, h.optional + 60);
    if alignment < 0x200 || !IsPowerOfTwo(alignment) then Err(InvalidAlignment)
    else
      var start := h.optional + h.optionalSize;
      var end := start + h.sectionCount * 40;
      if end > |data| || headers < end || headers > |data| then Err(InvalidSectionTable)
      else if headers % alignment != 0 then Err(UnalignedHeaders)
      else Ok(Table(start, headers, alignment))
  }

  // ---- Sections ----

  function RawRange(data: Bytes, entry: nat): Range
    requires entry + 40 <= |data|
  {
    Range(U32(data, entry + 20), U32(data, entry + 16))
  }

  predicate RangeFits(size: nat, r: Range, t: Table)
    requires t.alignment > 0
  {
    t.headers <= r.offset && r.offset % t.alignment == 0 && r.offset + r.size <= size
  }

  /** The ranges of the first k sections that hold raw data, in table order. */
  function RawRanges(data: Bytes, t: Table, k: nat): Result<seq<Range>, PeError>
    requires t.start + k * 40 <= |data| && t.alignment > 0
  {
    if k == 0 then Ok([])
    else
      var before := RawRanges(data, t, k - 1);
      var range := RawRange(data, t.start + (k - 1) * 40);
      if before.Err? || range.size == 0 then before
      else if !RangeFits(|data|, range, t) then Err(SectionOutOfBounds)
      else Ok(before.value + [range])
  }

  /** The order of Python tuples (offset, size). */
  predicate RangeLe(a: Range, b: Range) {
    a.offset < b.offset || (a.offset == b.offset && a.size <= b.size)
  }

  predicate Follows(a: Range, b: Range) {
    a.offset + a.size <= b.offset
  }

  predicate NoOverlap(ranges: seq<Range>) {
    forall i :: 1 <= i < |ranges| ==> Follows(ranges[i - 1], ranges[i])
  }

  function Sections(data: Bytes, t: Table, count: nat): Result<seq<Range>, PeError>
    requires t.start + count * 40 <= |data| && t.alignment > 0
  {
    var raw := RawRanges(data, t, count);
    if raw.Err? then raw
    else
      var sorted := Sort(raw.value, RangeLe);
      if NoOverlap(sorted) then Ok(sorted) else Err(SectionsOverlap)
  }

  /** `_section_ranges`. */
  method SectionRanges(data: Bytes, t: Table, count: nat) returns (r: Result<seq<Range>, PeError>)
    requires t.start + count * 40 <= |data| && t.alignment > 0
    ensures r == Sections(data, t, count)
  {
    var sections: seq<Range> := [];
    for index := 0 to count
      invariant RawRanges(data, t, index) == Ok(sections)
    {
      var range := RawRange(data, t.start + index * 40);
      if range.size != 0 {
        if !RangeFits(|data|, range, t) {
          ErrorStays(data, t, index + 1, count);
          return Err(SectionOutOfBounds);
        }
        sections := sections + [range];
      }
    }
    sections := Sort(sections, RangeLe);
    var current := 1;
    while current < |sections|
      invariant current >= 1
      invariant forall j :: 1 <= j < current && j < |sections| ==> Follows(sections[j - 1], sections[j])
    {
      if sections[current - 1].offset + sections[current - 1].size > sections[current].offset {
        assert !Follows(sections[current - 1], sections[current]);
        return Err(SectionsOverlap);
      }
      current := current + 1;
    }
    return Ok(sections);
  }

  lemma {:induction false} ErrorStays(data: Bytes, t: Table, k: nat, count: nat)
    requires t.start + count * 40 <= |data| && t.alignment > 0 && k <= count && RawRanges(data, t, k).Err?
    ensures RawRanges(data, t, count) == RawRanges(data, t, k)
    decreases count
  {
    if k < count {
      ErrorStays(data, t, k, count - 1);
    }
  }

  /** Sections ordered one after another, all after the headers and inside the image. */
  ghost predicate Ordered(ranges: seq<Range>, headers: nat, size: nat) {
    && (forall i :: 0 <= i < |ranges| ==> headers <= ranges[i].offset && ranges[i].offset + ranges[i].size <= size)
    && (forall i, j :: 0 <= i < j < |ranges| ==> Follows(ranges[i], ranges[j]))
  }

  lemma {:induction false} RawRangesFit(data: Bytes, t: Table, k: nat)
    requires t.start + k * 40 <= |data| && t.alignment > 0 && RawRanges(data, t, k).Ok?
    ensures forall r :: r in RawRanges(data, t, k).value ==> r.size > 0 && RangeFits(|data|, r, t)
  {
    if k > 0 {
      RawRangesFit(data, t, k - 1);
    }
  }

  lemma {:induction false} AdjacentImpliesAll(ranges: seq<Range>, i: nat, j: nat)
    requires NoOverlap(ranges) && i < j < |ranges|
    ensures Follows(ranges[i], ranges[j])
    decreases j
  {
    if i + 1 < j {
      AdjacentImpliesAll(ranges, i, j - 1);
      assert Follows(ranges[j - 1], ranges[j]);
    }
  }

  /**
   * Accepted sections are the non-empty raw ranges of the table, every two of them disjoint and in order, and all
   * of them between the headers and the end of the image.
   */
  lemma SectionsOrdered(data: Bytes, t: Table, count: nat)
    requires t.start + count * 40 <= |data| && t.alignment > 0 && Sections(data, t, count).Ok?
    ensures var sections := Sections(data, t, count).value;
            && Ordered(sections, t.headers, |data|)
            && RawRanges(data, t, count).Ok? && multiset(sections) == multiset(RawRanges(data, t, count).value)
  {
    var raw := RawRanges(data, t, count).value;
    var sections := Sections(data, t, count).value;
    RawRangesFit(data, t, count);
    SortPermutes(raw, RangeLe);
    SortElements(raw, RangeLe);
    forall i | 0 <= i < |sections| ensures RangeFits(|data|, sections[i], t) {
      assert sections[i] in sections;
    }
    forall i, j | 0 <= i < j < |sections| ensures Follows(sections[i], sections[j]) {
      AdjacentImpliesAll(sections, i, j);
    }
  }

  // ---- The whole layout ----

  function CertificateTable(data: Bytes, security: nat, signed: bool): Result<Range, PeError>
    requires security + 8 <= |data|
  {
    var table := Range(U32(data, security), U32(data, security + 4));
    if signed then
      if table.offset == 0 || table.offset % 8 != 0 || table.size < 8 then Err(MissingTable)
      else if table.offset + table.size != |data| then Err(InvalidTable)
      else Ok(table)
    else if table.offset != 0 || table.size != 0 then Err(AlreadySigned)
    else Ok(table)
  }

  function Parse(data: Bytes, signed: bool): Result<Layout, PeError> {
    match OptionalHeader(data)
    case Err(e) => Err(e)
    case Ok(h) =>
      match SecurityDirectory(data, h)
      case Err(e) => Err(e)
      case Ok(security) =>
        match HeaderLayout(data, h)
        case Err(e) => Err(e)
        case Ok(t) =>
          match Sections(data, t, h.sectionCount)
          case Err(e) => Err(e)
          case Ok(sections) =>
            match CertificateTable(data, security, signed)
            case Err(e) => Err(e)
            case Ok(certificate) => Ok(Layout(certificate, h.optional + 64, security, sections, t.headers))
  }

  /** `parse_pe`: the executable form, over the loops. */
  method ParsePe(data: Bytes, signed: bool) returns (r: Result<Layout, PeError>)
    ensures r == Parse(data, signed)
  {
    hide Sections, OptionalHeader, SecurityDirectory, HeaderLayout, CertificateTable;
    var header := OptionalHeader(data);
    if header.Err? { return Err(header.error); }
    var h := header.value;
    var directory := SecurityDirectory(data, h);
    if directory.Err? { return Err(directory.error); }
    var layout := HeaderLayout(data, h);
    if layout.Err? { return Err(layout.error); }
    var t := layout.value;
    var sections := SectionRanges(data, t, h.sectionCount);
    if sections.Err? { return Err(sections.error); }
    var certificate := CertificateTable(data, directory.value, signed);
    if certificate.Err? { return Err(certificate.error); }
    return Ok(Layout(certificate.value, h.optional + 64, directory.value, sections.value, t.headers));
  }

  /** Checksum, security directory, end of headers and sections come in this order, without overlap. */
  ghost predicate Placed(size: nat, l: Layout) {
    && l.checksum >= 64 && l.checksum + 4 <= l.security && l.security + 8 <= l.headers <= size
    && Ordered(l.sections, l.headers, size)
  }

  predicate TablePlaced(size: nat, table: Range, signed: bool) {
    if signed then
      && 0 < table.offset && table.offset % 8 == 0 && table.size >= 8 && table.offset + table.size == size
    else table == Range(0, 0)
  }

  lemma ParsePlaces(data: Bytes, signed: bool)
    requires Parse(data, signed).Ok?
    ensures Placed(|data|, Parse(data, signed).value)
    ensures TablePlaced(|data|, Parse(data, signed).value.certificate, signed)
  {
    hide Sections, OptionalHeader, SecurityDirectory, HeaderLayout;
    var h := OptionalHeader(data).value;
    var t := HeaderLayout(data, h).value;
    SectionsOrdered(data, t, h.sectionCount);
  }

  // ---- Images that agree outside the two fields that signing rewrites ----

  ghost predicate SameOutside(u: Bytes, s: Bytes, checksum: nat, security: nat) {
    && |u| <= |s|
    && (forall i :: 0 <= i < |u| && (i < checksum || checksum + 4 <= i < security || security + 8 <= i)
                    ==> u[i] == s[i])
  }

  /** A span that meets neither field. */
  predicate Clear(at: nat, size: nat, checksum: nat, security: nat) {
    at + size <= checksum || (checksum + 4 <= at && at + size <= security) || security + 8 <= at
  }

  lemma SameSpan(u: Bytes, s: Bytes, c: nat, d: nat, at: nat, size: nat)
    requires SameOutside(u, s, c, d) && c + 4 <= d && Clear(at, size, c, d) && at + size <= |u|
    ensures u[at..at + size] == s[at..at + size]
    ensures size == 2 ==> U16(u, at) == U16(s, at)
    ensures size == 4 ==> U32(u, at) == U32(s, at)
  {
    forall i | at <= i < at + size ensures u[i] == s[i] {}
  }

  lemma SameHeader(u: Bytes, s: Bytes, security: nat)
    requires OptionalHeader(u).Ok? && DirectoryIn(OptionalHeader(u).value, security)
    requires SameOutside(u, s, OptionalHeader(u).value.optional + 64, security)
    ensures OptionalHeader(s) == OptionalHeader(u)
  {
    var c := OptionalHeader(u).value.optional + 64;
    var pe := U32(u, 0x3C);
    assert pe + 88 == c;
    SameSpan(u, s, c, security, 0, 2);
    assert u[0..2][0] == s[0..2][0] && u[0..2][1] == s[0..2][1];
    SameSpan(u, s, c, security, 0x3C, 4);
    SameSpan(u, s, c, security, pe, 4);
    SameSpan(u, s, c, security, pe + 6, 2);
    SameSpan(u, s, c, security, pe + 20, 2);
    SameSpan(u, s, c, security, pe + 24, 2);
  }

  lemma SameDirectory(u: Bytes, s: Bytes, h: Header)
    requires HeaderIn(|u|, h) && HeaderIn(|s|, h) && SecurityDirectory(u, h).Ok?
    requires SameOutside(u, s, h.optional + 64, SecurityDirectory(u, h).value)
    ensures SecurityDirectory(s, h) == SecurityDirectory(u, h)
  {
    SameSpan(u, s, h.optional + 64, SecurityDirectory(u, h).value, h.optional + h.fixedSize - 4, 4);
  }

  lemma SameTable(u: Bytes, s: Bytes, h: Header, security: nat)
    requires HeaderIn(|u|, h) && HeaderIn(|s|, h) && HeaderLayout(u, h).Ok? && DirectoryIn(h, security)
    requires SameOutside(u, s, h.optional + 64, security)
    ensures HeaderLayout(s, h) == HeaderLayout(u, h)
  {
    SameSpan(u, s, h.optional + 64, security, h.optional + 36, 4);
    SameSpan(u, s, h.optional + 64, security, h.optional + 60, 4);
  }

  lemma {:induction false} SameRawRanges(u: Bytes, s: Bytes, t: Table, k: nat, c: nat, d: nat)
    requires t.start + k * 40 <= |u| && t.alignment > 0 && RawRanges(u, t, k).Ok?
    requires SameOutside(u, s, c, d) && c + 4 <= d && d + 8 <= t.start
    ensures RawRanges(s, t, k) == RawRanges(u, t, k)
  {
    if k > 0 {
      hide U32, SameOutside;
      SameRawRanges(u, s, t, k - 1, c, d);
      var entry := t.start + (k - 1) * 40;
      SameSpan(u, s, c, d, entry + 16, 4);
      SameSpan(u, s, c, d, entry + 20, 4);
    }
  }

  /** Such an image parses to the same layout; only its certificate table entry is its own. */
  lemma SameLayout(u: Bytes, s: Bytes, l: Layout)
    requires Parse(u, false) == Ok(l) && SameOutside(u, s, l.checksum, l.security)
    ensures l.security + 8 <= |s|
    ensures Parse(s, true) == match CertificateTable(s, l.security, true)
                              case Err(e) => Err(e)
                              case Ok(table) => Ok(l.(certificate := table))
  {
    hide OptionalHeader, SecurityDirectory, HeaderLayout, RawRanges, CertificateTable;
    var h := OptionalHeader(u).value;
    SameHeader(u, s, l.security);
    SameDirectory(u, s, h);
    SameTable(u, s, h, l.security);
    var t := HeaderLayout(u, h).value;
    SameRawRanges(u, s, t, h.sectionCount, l.checksum, l.security);
  }
}
