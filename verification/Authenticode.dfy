/**
 * Authenticode signatures (mkosi/private/secure_boot.py): an accepted signed image is the unsigned one with a new
 * checksum and security directory, zero padding and one certificate, and nothing else; its hash covers exactly the
 * unsigned content.
 */
module Authenticode {
  import opened Prelude
  import opened Bytes
  import opened Pe
  import Der

  datatype SignError =
    | Malformed(pe: PeError)
    | BadDer(der: Der.DerError)
    | TruncatedCertificate
    | CertificateOutOfBounds
    | UnsupportedCertificate
    | NotSignedData
    | NonzeroDerPadding
    | InvalidPadding
    | AmbiguousTable
    | LayoutsDiffer
    | TableOverlapsImage
    | ContentDiffers
    | NonzeroInserted
    | SectionOverlap
    | TableOverlap
    | BadFacts
    | DigestMismatch

  // ---- The certificate table ----

  function Align8(n: nat): (r: nat)
    ensures r % 8 == 0 && n <= r < n + 8
  {
    (n + 7) / 8 * 8
  }

  const REVISION_AND_TYPE: Bytes := [0, 2, 2, 0]

  /** The table is one WIN_CERTIFICATE record around the payload, a DER sequence, filled up with zeros. */
  ghost predicate Wraps(table: Bytes, payload: Bytes) {
    && |table| >= 8 && table[4..8] == REVISION_AND_TYPE && Align8(U32(table, 0)) == |table|
    && 8 + |payload| <= U32(table, 0) <= 8 + Der.MAX_DER_BYTES
    && table[8..] == payload + Zeros(|table| - 8 - |payload|)
    && exists value :: IsSequence(payload, value)
  }

  ghost predicate IsSequence(payload: Bytes, value: Bytes) {
    |Der.ToBE(|value|)| < 128 && payload == Der.Encode(0x30, value)
  }

  /** `_der_object`. */
  function DerObject(payload: Bytes): Result<Bytes, SignError> {
    match Der.Read(payload, 0, 0)
    case Err(e) => Err(BadDer(e))
    case Ok((item, end)) =>
      if item.tag != 0x30 then Err(NotSignedData)
      else if end > |payload| || !AllZero(payload[end..]) then Err(NonzeroDerPadding)
      else Ok(payload[..end])
  }

  /** Exactly the zero-padded DER sequences within the size limit are accepted. */
  lemma DerObjectExact(body: Bytes, payload: Bytes)
    ensures DerObject(body) == Ok(payload) <==>
            && |body| <= Der.MAX_DER_BYTES && |payload| <= |body|
            && body == payload + Zeros(|body| - |payload|) && exists value :: IsSequence(payload, value)
  {
    hide Der.Read, Der.Encode, Der.ToBE;
    if DerObject(body) == Ok(payload) {
      var (item, end) := Der.Read(body, 0, 0).value;
      Der.ReadIsCanonical(body, 0, 0);
      Der.WithinLimit(body, 0, 0);
      assert body[0..end] == payload && body == body[..end] + body[end..];
      AllZeroIsZeros(body[end..]);
      assert IsSequence(payload, item.value);
    }
    if && |body| <= Der.MAX_DER_BYTES && |payload| <= |body|
       && body == payload + Zeros(|body| - |payload|) && (exists value :: IsSequence(payload, value)) {
      var value :| IsSequence(payload, value);
      var after := Zeros(|body| - |payload|);
      Der.ReadEncoded([], 0x30, value, after, 0);
      assert [] + payload + after == body;
      assert body[|payload|..] == after && body[..|payload|] == payload;
    }
  }

  /** One turn of the record loop: the payload of the record at the cursor and where the next one starts. */
  function Record(data: Bytes, cursor: nat, end: nat): (r: Result<(Bytes, nat), SignError>)
    requires cursor < end <= |data|
    ensures r.Ok? ==> cursor + 8 <= r.value.1 <= end
  {
    if end - cursor < 8 then Err(TruncatedCertificate)
    else
      var length := U32(data, cursor);
      if length < 8 || cursor + length > end then Err(CertificateOutOfBounds)
      else if U16(data, cursor + 4) != 0x200 || U16(data, cursor + 6) != 2 then Err(UnsupportedCertificate)
      else
        match DerObject(data[cursor + 8..cursor + length])
        case Err(e) => Err(e)
        case Ok(payload) =>
          var next := cursor + Align8(length);
          if next > end || !AllZero(data[cursor + length..next]) then Err(InvalidPadding) else Ok((payload, next))
  }

  lemma FixedFields(table: Bytes)
    requires |table| >= 8
    ensures table[4..8] == REVISION_AND_TYPE <==> U16(table, 4) == 0x200 && U16(table, 6) == 2
  {
    assert table[4..8] == [table[4], table[5], table[6], table[7]];
  }

  /** A record that fills the table is one that wraps its payload, and the other way round. */
  lemma RecordExact(table: Bytes, payload: Bytes)
    requires table != []
    ensures Record(table, 0, |table|) == Ok((payload, |table|)) <==> Wraps(table, payload)
  {
    hide DerObject, IsSequence;
    if |table| >= 8 {
      FixedFields(table);
      var length := U32(table, 0);
      if 8 <= length <= |table| {
        var body, pad := table[8..length], table[length..];
        DerObjectExact(body, payload);
        AllZeroIsZeros(pad);
        assert table[8..] == body + pad;
        if Wraps(table, payload) {
          assert body == table[8..][..|body|] && pad == table[8..][|body|..];
          assert body == payload + Zeros(|body| - |payload|);
          assert pad == Zeros(|pad|);
          assert table[length..Align8(length)] == pad;
        }
        if Record(table, 0, |table|) == Ok((payload, |table|)) {
          assert table[length..Align8(length)] == pad;
          assert body + pad == payload + Zeros(|table| - 8 - |payload|);
        }
      }
    }
  }

  /** Records depend on the bytes of the table only. */
  lemma RecordLocal(data: Bytes, start: nat, cursor: nat, end: nat)
    requires start <= cursor < end <= |data|
    ensures var local := Record(data[start..end], cursor - start, end - start);
            Record(data, cursor, end) == match local case Err(e) => Err(e) case Ok((p, n)) => Ok((p, start + n))
  {
    hide DerObject, AllZero;
    var table := data[start..end];
    if end - cursor >= 8 {
      assert U32(table, cursor - start) == U32(data, cursor);
      var length := U32(data, cursor);
      if 8 <= length && cursor + length <= end {
        SubSlice(data, start, end, cursor - start + 8, cursor - start + length);
        var next := cursor + Align8(length);
        if next <= end {
          SubSlice(data, start, end, cursor - start + length, next - start);
        }
      }
    }
  }

  /** No payload is wrapped. */
  ghost predicate Bare(table: Bytes) {
    forall payload :: !Wraps(table, payload)
  }

  /** `authenticode_payload`: accepts exactly the tables that hold one certificate, and returns its payload. */
  method AuthenticodePayload(data: Bytes, offset: nat, size: nat) returns (r: Result<Bytes, SignError>)
    requires offset + size <= |data|
    ensures r.Ok? ==> Wraps(data[offset..offset + size], r.value)
    ensures r.Err? ==> Bare(data[offset..offset + size])
  {
    hide Wraps, Record;
    var cursor, end := offset, offset + size;
    var certificates: seq<Bytes> := [];
    while cursor < end
      invariant offset <= cursor <= end
      invariant certificates == [] <==> cursor == offset
      invariant certificates != [] ==> Record(data, offset, end).Ok?
      invariant |certificates| == 1 ==> Record(data, offset, end) == Ok((certificates[0], cursor))
      invariant |certificates| > 1 ==> Record(data, offset, end).value.1 < end
      decreases end - cursor
    {
      hide Wraps, Record;
      var record := Record(data, cursor, end);
      if record.Err? {
        OneRecord(data, offset, end);
        return Err(record.error);
      }
      certificates := certificates + [record.value.0];
      cursor := record.value.1;
    }
    OneRecord(data, offset, end);
    if cursor != end || |certificates| != 1 {
      return Err(AmbiguousTable);
    }
    return Ok(certificates[0]);
  }

  /** The table wraps a payload exactly when its first record has that payload and fills it. */
  lemma OneRecord(data: Bytes, offset: nat, end: nat)
    requires offset <= end <= |data|
    ensures forall payload :: Wraps(data[offset..end], payload) <==>
                              offset < end && Record(data, offset, end) == Ok((payload, end))
  {
    hide Record;
    var table := data[offset..end];
    forall payload ensures Wraps(table, payload) <==> offset < end && Record(data, offset, end) == Ok((payload, end)) {
      if offset < end {
        RecordExact(table, payload);
        RecordLocal(data, offset, offset, end);
      }
    }
  }

  /** A table has at most one payload. */
  lemma PayloadUnique(table: Bytes, p: Bytes, q: Bytes)
    requires Wraps(table, p) && Wraps(table, q)
    ensures p == q
  {
    RecordExact(table, p);
    RecordExact(table, q);
  }

  // ---- Equivalence ----

  /** The image with a new checksum and security directory, then zeros, then the certificate table. */
  function Attach(u: Bytes, l: Layout, checksum: Bytes, directory: Bytes, pad: nat, table: Bytes): (s: Bytes)
    requires l.checksum + 4 <= l.security && l.security + 8 <= |u| && |checksum| == 4 && |directory| == 8
    ensures |s| == |u| + pad + |table|
  {
    u[..l.checksum] + checksum + u[l.checksum + 4..l.security] + directory + u[l.security + 8..] + Zeros(pad) + table
  }

  /**
   * What a signer may do: the table starts aligned after the unsigned image, the directory points at it, and it
   * wraps the payload.
   */
  ghost predicate SignedForm(u: Bytes, l: Layout, s: Bytes, payload: Bytes, parts: (Bytes, Bytes, nat, Bytes)) {
    var (checksum, directory, pad, table) := parts;
    && Placed(|u|, l) && |checksum| == 4 && |directory| == 8 && s == Attach(u, l, checksum, directory, pad, table)
    && U32(directory, 0) == |u| + pad && U32(directory, 4) == |table| && (|u| + pad) % 8 == 0 && Wraps(table, payload)
  }

  ghost predicate IsSigned(u: Bytes, s: Bytes, payload: Bytes) {
    && Parse(u, false).Ok?
    && exists parts :: SignedForm(u, Parse(u, false).value, s, payload, parts)
  }

  /** The comparison of `prove_equivalence`: the prefix with both fields put back equals the unsigned image. */
  predicate SamePrefix(u: Bytes, s: Bytes, c: nat, d: nat)
    requires |u| <= |s| && c + 4 <= d && d + 8 <= |u|
  {
    Overwrite(Overwrite(s[..|u|], c, u[c..c + 4]), d, u[d..d + 8]) == u
  }

  lemma SamePrefixExact(u: Bytes, s: Bytes, c: nat, d: nat)
    requires |u| <= |s| && c + 4 <= d && d + 8 <= |u|
    ensures SamePrefix(u, s, c, d) <==> SameOutside(u, s, c, d)
  {
    var once := Overwrite(s[..|u|], c, u[c..c + 4]);
    var twice := Overwrite(once, d, u[d..d + 8]);
    hide Overwrite;
    forall i | 0 <= i < |u| ensures once[i] == if c <= i < c + 4 then u[i] else s[i] {
      assert c <= i < c + 4 ==> u[c..c + 4][i - c] == u[i];
    }
    forall i | 0 <= i < |u| ensures twice[i] == if c <= i < c + 4 || d <= i < d + 8 then u[i] else s[i] {
      assert d <= i < d + 8 ==> u[d..d + 8][i - d] == u[i];
    }
    assert SamePrefix(u, s, c, d) <==> forall i :: 0 <= i < |u| ==> twice[i] == u[i];
  }

  /**
   * `prove_equivalence`: accepts exactly the signed forms of the unsigned image.
   */
  method ProveEquivalence(u: Bytes, s: Bytes) returns (r: Result<Bytes, SignError>)
    ensures r.Ok? ==> IsSigned(u, s, r.value) && Parse(s, true).Ok?
    ensures r.Err? ==> forall payload :: !IsSigned(u, s, payload)
  {
    hide Parse, IsSigned, SamePrefix, Wraps;
    var unsigned := ParsePe(u, false);
    if unsigned.Err? {
      NotParsed(u, s);
      return Err(Malformed(unsigned.error));
    }
    ParsePlaces(u, false);
    var l := unsigned.value;
    ExactForm(u, s, l);
    var signed := ParsePe(s, true);
    if signed.Err? { return Err(Malformed(signed.error)); }
    ParsePlaces(s, true);
    var m := signed.value;
    if l.checksum != m.checksum || l.security != m.security { return Err(LayoutsDiffer); }
    if m.certificate.offset < |u| { return Err(TableOverlapsImage); }
    SamePrefixExact(u, s, l.checksum, l.security);
    if !SamePrefix(u, s, l.checksum, l.security) { return Err(ContentDiffers); }
    if !AllZero(s[|u|..m.certificate.offset]) { return Err(NonzeroInserted); }
    r := AuthenticodePayload(s, m.certificate.offset, m.certificate.size);
    assert s[m.certificate.offset..m.certificate.offset + m.certificate.size] == s[m.certificate.offset..];
  }

  lemma NotParsed(u: Bytes, s: Bytes)
    requires Parse(u, false).Err?
    ensures forall payload :: !IsSigned(u, s, payload)
  {
  }

  /** The checks of the method, together, are the signed form. */
  ghost predicate Checks(u: Bytes, s: Bytes, l: Layout, payload: Bytes) {
    && Parse(s, true).Ok?
    && var m := Parse(s, true).value;
       && l.checksum == m.checksum && l.security == m.security
       && |u| <= m.certificate.offset <= |s| && m.certificate.offset + m.certificate.size == |s|
       && SameOutside(u, s, l.checksum, l.security) && AllZero(s[|u|..m.certificate.offset])
       && Wraps(s[m.certificate.offset..], payload)
  }

  lemma ExactForm(u: Bytes, s: Bytes, l: Layout)
    requires Parse(u, false) == Ok(l)
    ensures forall payload :: IsSigned(u, s, payload) <==> Checks(u, s, l, payload)
  {
    hide Parse, Wraps, Checks, SignedForm;
    forall payload ensures IsSigned(u, s, payload) <==> Checks(u, s, l, payload) {
      if IsSigned(u, s, payload) {
        var parts :| SignedForm(u, l, s, payload, parts);
        FormPassesChecks(u, s, l, payload, parts);
      }
      if Checks(u, s, l, payload) {
        ChecksGiveForm(u, s, l, payload);
      }
    }
  }

  lemma AttachParts(u: Bytes, l: Layout, checksum: Bytes, directory: Bytes, pad: nat, table: Bytes)
    requires l.checksum + 4 <= l.security && l.security + 8 <= |u| && |checksum| == 4 && |directory| == 8
    ensures var s := Attach(u, l, checksum, directory, pad, table);
            && SameOutside(u, s, l.checksum, l.security)
            && s[l.checksum..l.checksum + 4] == checksum && s[l.security..l.security + 8] == directory
            && s[|u|..|u| + pad] == Zeros(pad) && s[|u| + pad..] == table
  {
  }

  lemma FormPassesChecks(u: Bytes, s: Bytes, l: Layout, payload: Bytes, parts: (Bytes, Bytes, nat, Bytes))
    requires Parse(u, false) == Ok(l) && SignedForm(u, l, s, payload, parts)
    ensures Checks(u, s, l, payload)
  {
    hide Parse, Attach, SameOutside;
    var (checksum, directory, pad, table) := parts;
    AttachParts(u, l, checksum, directory, pad, table);
    SameLayout(u, s, l);
    DirectoryFields(s, l.security, directory);
  }

  lemma DirectoryFields(s: Bytes, at: nat, directory: Bytes)
    requires at + 8 <= |s| && |directory| == 8 && s[at..at + 8] == directory
    ensures U32(s, at) == U32(directory, 0) && U32(s, at + 4) == U32(directory, 4)
  {
    assert forall i :: 0 <= i < 8 ==> directory[i] == s[at..at + 8][i] == s[at + i];
  }

  lemma ChecksGiveForm(u: Bytes, s: Bytes, l: Layout, payload: Bytes)
    requires Parse(u, false) == Ok(l) && Checks(u, s, l, payload)
    ensures IsSigned(u, s, payload)
  {
    hide Parse, Attach;
    ParsePlaces(u, false);
    SameLayout(u, s, l);
    var table := Parse(s, true).value.certificate;
    var checksum, directory := s[l.checksum..l.checksum + 4], s[l.security..l.security + 8];
    DirectoryFields(s, l.security, directory);
    var parts := (checksum, directory, table.offset - |u|, s[table.offset..]);
    Reassemble(u, s, l, table.offset);
    assert SignedForm(u, l, s, payload, parts);
  }

  lemma Reassemble(u: Bytes, s: Bytes, l: Layout, at: nat)
    requires l.checksum + 4 <= l.security && l.security + 8 <= |u| && |u| <= at <= |s|
    requires SameOutside(u, s, l.checksum, l.security) && AllZero(s[|u|..at])
    ensures s == Attach(u, l, s[l.checksum..l.checksum + 4], s[l.security..l.security + 8], at - |u|, s[at..])
  {
    var c, d := l.checksum, l.security;
    AllZeroIsZeros(s[|u|..at]);
    assert s[..c] == u[..c] && s[c + 4..d] == u[c + 4..d] && s[d + 8..|u|] == u[d + 8..];
    assert s == s[..c] + s[c..c + 4] + s[c + 4..d] + s[d..d + 8] + s[d + 8..|u|] + s[|u|..at] + s[at..];
  }

  /** Both images of an accepted pair parse to one layout, up to the certificate table. */
  lemma OneLayout(u: Bytes, s: Bytes, payload: Bytes)
    requires IsSigned(u, s, payload)
    ensures Parse(u, false).Ok? && Parse(s, true).Ok?
    ensures var l, m := Parse(u, false).value, Parse(s, true).value;
            m == l.(certificate := m.certificate) && |u| <= m.certificate.offset <= |s|
  {
    hide Parse, Wraps;
    var l := Parse(u, false).value;
    ExactForm(u, s, l);
    SameLayout(u, s, l);
  }

  // ---- The hashed content ----

  function Pieces(data: Bytes, sections: seq<Range>): Bytes
    requires forall r :: r in sections ==> r.offset + r.size <= |data|
  {
    if sections == [] then []
    else
      var last := |sections| - 1;
      Pieces(data, sections[..last]) + data[sections[last].offset..sections[last].offset + sections[last].size]
  }

  /** The end of the last section, or of the headers. */
  function ContentEnd(sections: seq<Range>, headers: nat): nat {
    if sections == [] then headers
    else sections[|sections| - 1].offset + sections[|sections| - 1].size
  }

  /** Where hashing stops: the certificate table, or the end of an image without one. */
  function HashEnd(data: Bytes, l: Layout): nat {
    if l.certificate.offset != 0 then l.certificate.offset else |data|
  }

  ghost predicate Hashable(data: Bytes, l: Layout) {
    Placed(|data|, l) && ContentEnd(l.sections, l.headers) <= HashEnd(data, l) <= |data|
  }

  lemma PlacedSections(data: Bytes, l: Layout, k: nat)
    requires Placed(|data|, l) && k <= |l.sections|
    ensures forall r :: r in l.sections[..k] ==> r.offset + r.size <= |data|
  {
    forall r | r in l.sections[..k] ensures r.offset + r.size <= |data| {
      var i :| 0 <= i < k && l.sections[i] == r;
    }
  }

  /** The headers without the two rewritten fields. */
  function HeaderStream(data: Bytes, l: Layout): Bytes
    requires Placed(|data|, l)
  {
    data[..l.checksum] + data[l.checksum + 4..l.security] + data[l.security + 8..l.headers]
  }

  /** The bytes that the Authenticode hash covers. */
  function Stream(data: Bytes, l: Layout): Bytes
    requires Hashable(data, l)
  {
    PlacedSections(data, l, |l.sections|);
    assert l.sections[..|l.sections|] == l.sections;
    HeaderStream(data, l) + Pieces(data, l.sections) + data[ContentEnd(l.sections, l.headers)..HashEnd(data, l)]
  }

  /**
   * `authenticode_hash`. The guard inside the loop never fires; the guard after it fires exactly when the last
   * section reaches into the certificate table.
   */
  method AuthenticodeHash(data: Bytes, ghost signed: bool, l: Layout, hash: Bytes -> Bytes)
    returns (r: Result<Bytes, SignError>)
    requires Parse(data, signed) == Ok(l)
    ensures Placed(|data|, l)
    ensures r.Ok? <==> Hashable(data, l)
    ensures r.Ok? ==> r.value == hash(Stream(data, l))
    ensures r.Err? ==> r.error == TableOverlap
  {
    hide Parse, HeaderStream, Pieces, Ordered, Stream;
    ParsePlaces(data, signed);
    PlacedSections(data, l, |l.sections|);
    PiecesNone(data);
    var digest := data[..l.checksum];
    digest := digest + data[l.checksum + 4..l.security];
    digest := digest + data[l.security + 8..l.headers];
    HeaderStreamIs(data, l);
    var end := l.headers;
    for k := 0 to |l.sections|
      invariant end == ContentEnd(l.sections[..k], l.headers)
      invariant forall r :: r in l.sections[..k] ==> r.offset + r.size <= |data|
      invariant digest == HeaderStream(data, l) + Pieces(data, l.sections[..k])
    {
      hide Parse, Pieces, HeaderStream, Ordered, Stream;
      var section := l.sections[k];
      SectionFollows(data, l, k);
      if section.offset < end {
        assert false;
        return Err(SectionOverlap);
      }
      PlacedSections(data, l, k + 1);
      PiecesSnoc(data, l.sections, k);
      digest := digest + data[section.offset..section.offset + section.size];
      end := section.offset + section.size;
    }
    assert l.sections[..|l.sections|] == l.sections;
    var stop := HashEnd(data, l);
    HashEndInside(data, signed, l);
    if end > stop {
      return Err(TableOverlap);
    }
    StreamIs(data, l);
    digest := digest + data[end..stop];
    return Ok(hash(digest));
  }

  lemma PiecesNone(data: Bytes)
    ensures Pieces(data, []) == []
  {
  }

  lemma HashEndInside(data: Bytes, signed: bool, l: Layout)
    requires Parse(data, signed) == Ok(l)
    ensures HashEnd(data, l) <= |data|
  {
    hide Parse;
    ParsePlaces(data, signed);
  }

  lemma StreamIs(data: Bytes, l: Layout)
    requires Hashable(data, l) && forall r :: r in l.sections ==> r.offset + r.size <= |data|
    ensures Stream(data, l) ==
            HeaderStream(data, l) + Pieces(data, l.sections) + data[ContentEnd(l.sections, l.headers)..HashEnd(data, l)]
  {
    hide HeaderStream, Pieces, Ordered;
  }

  /** A section starts at or after the end of what precedes it, and ends inside the image. */
  lemma SectionFollows(data: Bytes, l: Layout, k: nat)
    requires Placed(|data|, l) && k < |l.sections|
    ensures ContentEnd(l.sections[..k], l.headers) <= l.sections[k].offset
    ensures l.sections[k].offset + l.sections[k].size <= |data|
    ensures ContentEnd(l.sections[..k + 1], l.headers) == l.sections[k].offset + l.sections[k].size
  {
    assert k > 0 ==> Follows(l.sections[k - 1], l.sections[k]);
  }

  lemma HeaderStreamIs(data: Bytes, l: Layout)
    requires Placed(|data|, l)
    ensures HeaderStream(data, l) ==
            data[..l.checksum] + data[l.checksum + 4..l.security] + data[l.security + 8..l.headers]
  {
  }

  lemma PiecesSnoc(data: Bytes, sections: seq<Range>, k: nat)
    requires k < |sections| && forall r :: r in sections[..k + 1] ==> r.offset + r.size <= |data|
    ensures forall r :: r in sections[..k] ==> r.offset + r.size <= |data|
    ensures Pieces(data, sections[..k + 1])
            == Pieces(data, sections[..k]) + data[sections[k].offset..sections[k].offset + sections[k].size]
  {
    assert sections[..k + 1][..k] == sections[..k];
  }
}
