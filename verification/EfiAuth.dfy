/**
 * UEFI authenticated variable files (mkosi/private/efi_auth.py): signature lists are parsed exactly, and an accepted
 * file is the one that the builder makes from its parts.
 */
module EfiAuth {
  import opened Prelude
  import opened Arithmetic
  import opened Bytes
  import opened Framing

  datatype AuthError =
    | TruncatedList
    | InconsistentSizes
    | EmptyList
    | UnknownVariable
    | TooShort
    | InvalidTime
    | NonzeroTimeFields
    | NotGuidCertificate
    | NotPkcs7
    | CertificateOutOfBounds
    | NotDer
    | NotOnePlatformKey
    | NoX509

  const PKCS7_GUID: Bytes :=
    [0x9D, 0xD2, 0xAF, 0x4A, 0xDF, 0x68, 0xEE, 0x49, 0x8A, 0xA9, 0x34, 0x7D, 0x37, 0x56, 0x65, 0xA7]
  const X509_GUID: Bytes :=
    [0xA1, 0x59, 0xC0, 0xA5, 0xE4, 0x94, 0xA7, 0x4A, 0x87, 0xB5, 0xAB, 0x15, 0x5C, 0x2B, 0xF0, 0x72]
  const VARIABLES: set<string> := {"PK", "KEK", "db", "dbx"}
  const LIST_HEADER := 28
  const OWNER := 16
  const WORD := 0x1_0000_0000

  // ---- Signature lists ----

  /** A signature type and the signature data, without owners. */
  datatype SignatureList = SignatureList(kind: Bytes, entries: seq<Bytes>)

  function Entries(s: Bytes, size: nat): seq<Bytes>
    requires size > OWNER
    decreases |s|
  {
    if |s| < size then [] else [s[OWNER..size]] + Entries(s[size..], size)
  }

  function Owners(s: Bytes, size: nat): seq<Bytes>
    requires size > OWNER
    decreases |s|
  {
    if |s| < size then [] else [s[..OWNER]] + Owners(s[size..], size)
  }

  /** Owners and data, one signature after another. */
  function Flat(owners: seq<Bytes>, entries: seq<Bytes>): Bytes
    requires |owners| == |entries|
  {
    if owners == [] then [] else owners[0] + entries[0] + Flat(owners[1..], entries[1..])
  }

  ghost predicate AllSized(parts: seq<Bytes>, size: nat) {
    forall i :: 0 <= i < |parts| ==> |parts[i]| == size
  }

  lemma {:induction false} EntriesOfFlat(owners: seq<Bytes>, entries: seq<Bytes>, size: nat)
    requires |owners| == |entries| && size > OWNER && AllSized(owners, OWNER) && AllSized(entries, size - OWNER)
    ensures Entries(Flat(owners, entries), size) == entries
    ensures |Flat(owners, entries)| == |entries| * size
  {
    if owners != [] {
      var s, rest := Flat(owners, entries), Flat(owners[1..], entries[1..]);
      EntriesOfFlat(owners[1..], entries[1..], size);
      assert s[OWNER..size] == entries[0] && s[size..] == rest;
      Distribute(|entries| - 1, 1, size);
    }
  }

  lemma {:induction false} FlatOfEntries(s: Bytes, size: nat, count: nat)
    requires size > OWNER && |s| == count * size
    ensures var owners, entries := Owners(s, size), Entries(s, size);
            && |owners| == |entries| == count && Flat(owners, entries) == s
            && AllSized(owners, OWNER) && AllSized(entries, size - OWNER)
  {
    if count == 0 {
      assert s == [];
    } else {
      hide Flat, Owners, Entries, AllSized;
      Distribute(count - 1, 1, size);
      MulMonotone(1, count, size);
      FlatOfEntries(s[size..], size, count - 1);
      FlatFirst(s, size);
      SizedFirst(s[..OWNER], Owners(s[size..], size), OWNER);
      SizedFirst(s[OWNER..size], Entries(s[size..], size), size - OWNER);
    }
  }

  lemma SizedFirst(part: Bytes, parts: seq<Bytes>, size: nat)
    requires |part| == size && AllSized(parts, size)
    ensures AllSized([part] + parts, size)
  {
  }

  /** The first signature and the rest. */
  lemma FlatFirst(s: Bytes, size: nat)
    requires size > OWNER && |s| >= size && |Owners(s[size..], size)| == |Entries(s[size..], size)|
    ensures Owners(s, size) == [s[..OWNER]] + Owners(s[size..], size)
    ensures Entries(s, size) == [s[OWNER..size]] + Entries(s[size..], size)
    ensures Flat(Owners(s[size..], size), Entries(s[size..], size)) == s[size..] ==>
              Flat(Owners(s, size), Entries(s, size)) == s
  {
    var owners, entries := Owners(s, size), Entries(s, size);
    assert owners[1..] == Owners(s[size..], size) && entries[1..] == Entries(s[size..], size);
    assert s == s[..OWNER] + s[OWNER..size] + s[size..];
  }

  /** The size fields of a list agree with each other and with the data. */
  predicate SizesFit(data: Bytes)
    requires |data| >= LIST_HEADER
  {
    var size, body, each := U32(data, 16), LIST_HEADER + U32(data, 20), U32(data, 24);
    body <= size <= |data| && each > OWNER && (size - body) % each == 0
  }

  /** One list off the front. */
  function ReadList(data: Bytes): Option<(SignatureList, nat)> {
    if |data| < LIST_HEADER || !SizesFit(data) then None
    else
      var size, body, each := U32(data, 16), LIST_HEADER + U32(data, 20), U32(data, 24);
      var entries := Entries(data[body..size], each);
      if entries == [] then None else Some((SignatureList(data[..16], entries), size))
  }

  function ListBytes(kind: Bytes, header: Bytes, each: nat, content: Bytes): (r: Bytes)
    requires |kind| == 16 && each < WORD && LIST_HEADER + |header| + |content| < WORD
    ensures |r| == LIST_HEADER + |header| + |content|
  {
    kind + PutU32(LIST_HEADER + |header| + |content|) + PutU32(|header|) + PutU32(each) + header + content
  }

  /** Everything that a list is made of. */
  ghost predicate Made(piece: Bytes, item: SignatureList, header: Bytes, each: nat, owners: seq<Bytes>) {
    && |item.kind| == 16 && OWNER < each < WORD && item.entries != [] && |owners| == |item.entries|
    && AllSized(owners, OWNER) && AllSized(item.entries, each - OWNER)
    && LIST_HEADER + |header| + |Flat(owners, item.entries)| < WORD
    && piece == ListBytes(item.kind, header, each, Flat(owners, item.entries))
  }

  ghost predicate IsList(piece: Bytes, item: SignatureList) {
    exists header, each, owners :: Made(piece, item, header, each, owners)
  }

  lemma ListFields(kind: Bytes, header: Bytes, each: nat, content: Bytes, rest: Bytes)
    requires |kind| == 16 && each < WORD && LIST_HEADER + |header| + |content| < WORD
    ensures var data, n := ListBytes(kind, header, each, content) + rest, LIST_HEADER + |header| + |content|;
            && U32(data, 16) == n && U32(data, 20) == |header| && U32(data, 24) == each
            && data[..16] == kind && data[LIST_HEADER + |header|..n] == content
  {
    var n := LIST_HEADER + |header| + |content|;
    var data := ListBytes(kind, header, each, content) + rest;
    assert data[16..20] == PutU32(n) && data[20..24] == PutU32(|header|) && data[24..28] == PutU32(each);
    FieldAt(data, 16, PutU32(n));
    FieldAt(data, 20, PutU32(|header|));
    FieldAt(data, 24, PutU32(each));
  }

  lemma FieldAt(data: Bytes, at: nat, field: Bytes)
    requires at + 4 <= |data| && |field| == 4 && data[at..at + 4] == field
    ensures U32(data, at) == U32(field, 0)
  {
    assert forall i :: 0 <= i < 4 ==> field[i] == data[at..at + 4][i] == data[at + i];
  }

  lemma ReadMade(piece: Bytes, item: SignatureList, header: Bytes, each: nat, owners: seq<Bytes>, rest: Bytes)
    requires Made(piece, item, header, each, owners)
    ensures ReadList(piece + rest) == Some((item, |piece|))
  {
    hide ListBytes, Flat, Entries, AllSized;
    var content := Flat(owners, item.entries);
    ListFields(item.kind, header, each, content, rest);
    EntriesOfFlat(owners, item.entries, each);
    ModUnique(|content|, each, |item.entries|, 0);
  }

  lemma ReadIsMade(data: Bytes)
    requires ReadList(data).Some?
    ensures 0 < ReadList(data).value.1 <= |data|
    ensures IsList(data[..ReadList(data).value.1], ReadList(data).value.0)
  {
    hide Flat, Entries, Owners, AllSized, ListBytes, Made, U32;
    var (item, n) := ReadList(data).value;
    var each, at := U32(data, 24), LIST_HEADER + U32(data, 20);
    var header, content := data[LIST_HEADER..at], data[at..n];
    WholeMultiple(|content|, each);
    FlatOfEntries(content, each, |content| / each);
    Assembled(data, header, content, n);
    MadeFrom(data, header, content, n, each);
  }

  lemma WholeMultiple(n: nat, each: nat)
    requires each > 0 && n % each == 0
    ensures n == n / each * each
  {
  }

  lemma MadeFrom(data: Bytes, header: Bytes, content: Bytes, n: nat, each: nat)
    requires LIST_HEADER + |header| + |content| == n <= |data| && n < WORD && OWNER < each < WORD
    requires data[..n] == ListBytes(data[..16], header, each, content)
    requires var owners, entries := Owners(content, each), Entries(content, each);
             && |owners| == |entries| && entries != [] && Flat(owners, entries) == content
             && AllSized(owners, OWNER) && AllSized(entries, each - OWNER)
    ensures IsList(data[..n], SignatureList(data[..16], Entries(content, each)))
  {
    hide Flat, Entries, Owners, AllSized, ListBytes;
    assert Made(data[..n], SignatureList(data[..16], Entries(content, each)), header, each, Owners(content, each));
  }

  lemma Assembled(data: Bytes, header: Bytes, content: Bytes, n: nat)
    requires LIST_HEADER + |header| + |content| == n <= |data| && n < WORD
    requires data[LIST_HEADER..LIST_HEADER + |header|] == header && data[LIST_HEADER + |header|..n] == content
    requires U32(data, 16) == n && U32(data, 20) == |header|
    ensures data[..n] == ListBytes(data[..16], header, U32(data, 24), content)
  {
    hide U32, PutU32;
    U32Injective(data, 16, PutU32(n), 0);
    U32Injective(data, 20, PutU32(|header|), 0);
    U32Injective(data, 24, PutU32(U32(data, 24)), 0);
    assert data[..n] == data[..16] + data[16..20] + data[20..24] + data[24..28] + header + content;
  }

  /** What codes a list is exactly a made list, and reading is local. */
  lemma ListFormat()
    ensures Local(ReadList)
    ensures forall piece, item :: Codes(ReadList, piece, item) <==> IsList(piece, item)
  {
    hide ReadList, Made;
    forall piece, item | IsList(piece, item) ensures Codes(ReadList, piece, item) {
      var header, each, owners :| Made(piece, item, header, each, owners);
      MadeNonempty(piece, item, header, each, owners);
      forall rest ensures ReadList(piece + rest) == Some((item, |piece|)) {
        ReadMade(piece, item, header, each, owners, rest);
      }
    }
    forall data | ReadList(data).Some?
      ensures 0 < ReadList(data).value.1 <= |data|
      ensures IsList(data[..ReadList(data).value.1], ReadList(data).value.0)
    {
      ReadIsMade(data);
    }
    forall piece, item | Codes(ReadList, piece, item) ensures IsList(piece, item) {
      assert piece + [] == piece;
      assert ReadList(piece + []) == Some((item, |piece|));
      assert piece[..|piece|] == piece;
    }
  }

  lemma MadeNonempty(piece: Bytes, item: SignatureList, header: Bytes, each: nat, owners: seq<Bytes>)
    requires Made(piece, item, header, each, owners)
    ensures piece != []
  {
    hide Flat, AllSized;
  }

  ghost predicate AreLists(data: Bytes, pieces: seq<Bytes>, lists: seq<SignatureList>) {
    && |pieces| == |lists| && Concat(pieces) == data
    && forall i :: 0 <= i < |pieces| ==> IsList(pieces[i], lists[i])
  }

  lemma ListsExact(data: Bytes)
    ensures forall pieces, lists :: AreLists(data, pieces, lists) ==> ParseAll(ReadList, data) == Some(lists)
    ensures ParseAll(ReadList, data).Some? ==> exists pieces :: AreLists(data, pieces, ParseAll(ReadList, data).value)
  {
    hide ReadList, IsList, ParseAll, Codes, Local;
    ListFormat();
    forall pieces, lists | AreLists(data, pieces, lists) ensures ParseAll(ReadList, data) == Some(lists) {
      assert Tiled(ReadList, data, pieces, lists);
      ParseExact(ReadList, data, lists);
    }
    if ParseAll(ReadList, data).Some? {
      var pieces := ParsedIsTiled(ReadList, data);
      assert AreLists(data, pieces, ParseAll(ReadList, data).value);
    }
  }

  /** The inner loop: the entries from `body` to `end`. */
  method SplitEntries(data: Bytes, body: nat, end: nat, each: nat) returns (entries: seq<Bytes>)
    requires body <= end <= |data| && each > OWNER && (end - body) % each == 0
    ensures entries == Entries(data[body..end], each)
  {
    entries := [];
    var start := body;
    ghost var count := (end - body) / each;
    while start < end
      invariant body <= start <= end && end - start == count * each
      invariant Entries(data[body..end], each) == entries + Entries(data[start..end], each)
      decreases end - start
    {
      hide Entries;
      Distribute(count - 1, 1, each);
      NextEntry(data, start, end, each);
      entries := entries + [data[start + OWNER..start + each]];
      start := start + each;
      count := count - 1;
    }
  }

  lemma NextEntry(data: Bytes, start: nat, end: nat, each: nat)
    requires start + each <= end <= |data| && each > OWNER
    ensures Entries(data[start..end], each)
            == [data[start + OWNER..start + each]] + Entries(data[start + each..end], each)
  {
    SubSlice(data, start, end, OWNER, each);
    SubSlice(data, start, end, each, end - start);
    var s := data[start..end];
    assert s[each..] == s[each..end - start];
  }

  /** `signature_lists`: accepts exactly the sequences of well-made lists, and returns their types and data. */
  method SignatureLists(data: Bytes) returns (r: Result<seq<SignatureList>, AuthError>)
    ensures r.Ok? ==> exists pieces :: AreLists(data, pieces, r.value)
    ensures r.Ok? ==> ParseAll(ReadList, data) == Some(r.value)
    ensures r.Err? ==> forall pieces, lists :: !AreLists(data, pieces, lists)
  {
    hide AreLists, ParseAll, Entries;
    var lists: seq<SignatureList> := [];
    var offset: nat := 0;
    ListsExact(data);
    PrependNothing(ParseAll(ReadList, data));
    assert data[0..] == data;
    while offset < |data|
      invariant offset <= |data|
      invariant ParseAll(ReadList, data) == Prepended(lists, ParseAll(ReadList, data[offset..]))
      decreases |data| - offset
    {
      hide AreLists, ParseAll, Entries;
      var suffix := data[offset..];
      if |suffix| < LIST_HEADER {
        StuckLists(suffix);
        return Err(TruncatedList);
      }
      if !SizesFit(suffix) {
        StuckLists(suffix);
        return Err(InconsistentSizes);
      }
      var size, body, each := U32(suffix, 16), LIST_HEADER + U32(suffix, 20), U32(suffix, 24);
      var entries := SplitEntries(suffix, body, size, each);
      if entries == [] {
        StuckLists(suffix);
        return Err(EmptyList);
      }
      ParseStep(ReadList, data, offset, lists);
      lists := lists + [SignatureList(suffix[..16], entries)];
      offset := offset + size;
    }
    ListsEnd(data, offset, lists);
    return Ok(lists);
  }

  lemma StuckLists(suffix: Bytes)
    requires suffix != [] && ReadList(suffix).None?
    ensures ParseAll(ReadList, suffix) == None
  {
    hide ReadList;
  }

  lemma ListsEnd(data: Bytes, offset: nat, lists: seq<SignatureList>)
    requires offset == |data| && ParseAll(ReadList, data) == Prepended(lists, ParseAll(ReadList, data[offset..]))
    ensures ParseAll(ReadList, data) == Some(lists)
  {
    hide ReadList;
    assert lists + [] == lists;
  }

  /** `signature_list`: one X.509 certificate. */
  function OneCertificate(certificate: Bytes, owner: Bytes): Bytes
    requires |owner| == 16 && LIST_HEADER + 16 + |certificate| < WORD
  {
    X509_GUID + PutU32(LIST_HEADER + 16 + |certificate|) + PutU32(0) + PutU32(16 + |certificate|) + owner + certificate
  }

  /** The builder makes a list that is read back exactly when the certificate is not empty. */
  lemma OneCertificateIsList(certificate: Bytes, owner: Bytes)
    requires |owner| == 16 && LIST_HEADER + 16 + |certificate| < WORD
    ensures IsList(OneCertificate(certificate, owner), SignatureList(X509_GUID, [certificate])) <==> certificate != []
  {
    hide OneCertificate;
    var item := SignatureList(X509_GUID, [certificate]);
    if certificate != [] {
      OneCertificateMade(certificate, owner);
    }
    if header, each: nat, owners :| Made(OneCertificate(certificate, owner), item, header, each, owners) {
      assert |item.entries[0]| == each - OWNER > 0;
    }
  }

  lemma OneCertificateMade(certificate: Bytes, owner: Bytes)
    requires |owner| == 16 && certificate != [] && LIST_HEADER + 16 + |certificate| < WORD
    ensures Made(OneCertificate(certificate, owner), SignatureList(X509_GUID, [certificate]), [], 16 + |certificate|,
                 [owner])
  {
    hide PutU32;
    assert Flat([owner][1..], [certificate][1..]) == [];
    assert Flat([owner], [certificate]) == owner + certificate;
    var head := X509_GUID + PutU32(LIST_HEADER + 16 + |certificate|) + PutU32(0) + PutU32(16 + |certificate|);
    assert head + [] + (owner + certificate) == head + owner + certificate;
  }

  ghost predicate Buildable(certificates: seq<Bytes>, owners: seq<Bytes>) {
    && |owners| == |certificates| && AllSized(owners, OWNER)
    && forall i :: 0 <= i < |certificates| ==> certificates[i] != [] && LIST_HEADER + 16 + |certificates[i]| < WORD
  }

  ghost function Built(certificates: seq<Bytes>, owners: seq<Bytes>): (r: seq<Bytes>)
    requires Buildable(certificates, owners)
    ensures |r| == |certificates|
  {
    seq(|certificates|, i requires 0 <= i < |certificates| => OneCertificate(certificates[i], owners[i]))
  }

  /** Any concatenation of built lists is parsed back into exactly its certificates. */
  lemma CertificatesRoundTrip(certificates: seq<Bytes>, owners: seq<Bytes>)
    requires Buildable(certificates, owners)
    ensures var data := Concat(Built(certificates, owners));
            && ParseAll(ReadList, data).Some? && |ParseAll(ReadList, data).value| == |certificates|
            && forall i :: 0 <= i < |certificates| ==>
                 ParseAll(ReadList, data).value[i] == SignatureList(X509_GUID, [certificates[i]])
  {
    hide OneCertificate, IsList, ParseAll, ReadList;
    var pieces := Built(certificates, owners);
    var lists := seq(|certificates|, i requires 0 <= i < |certificates| => SignatureList(X509_GUID, [certificates[i]]));
    forall i | 0 <= i < |certificates| ensures IsList(pieces[i], lists[i]) {
      OneCertificateIsList(certificates[i], owners[i]);
    }
    assert AreLists(Concat(pieces), pieces, lists);
    ListsExact(Concat(pieces));
  }

  // ---- Authenticated files ----

  predicate TimeValid(t: Bytes)
    requires |t| == 16
  {
    1 <= t[2] <= 12 && 1 <= t[3] <= 31 && t[4] < 24 && t[5] < 60 && t[6] < 60 && U16(t, 0) >= 1900
  }

  predicate TimeZeros(t: Bytes)
    requires |t| == 16
  {
    t[7] == 0 && U32(t, 8) == 0 && U16(t, 12) == 0 && t[14] == 0 && t[15] == 0
  }

  const CERTIFICATE_FIXED: Bytes := [0x00, 0x02, 0xF1, 0x0E] + PKCS7_GUID

  /** `auth_file`. */
  function AuthFile(timestamp: Bytes, signedData: Bytes, data: Bytes): Bytes
    requires |timestamp| == 16 && 24 + |signedData| < WORD
  {
    timestamp + PutU32(24 + |signedData|) + CERTIFICATE_FIXED + signedData + data
  }

  /** `_parse_time` and `_parse_certificate`: the PKCS#7 bytes and the offset of the variable data. */
  function Authentication(data: Bytes): (r: Result<(Bytes, nat), AuthError>)
    ensures r.Ok? ==> 40 < r.value.1 <= |data|
  {
    if |data| < 40 then Err(TooShort)
    else if !TimeValid(data[..16]) then Err(InvalidTime)
    else if !TimeZeros(data[..16]) then Err(NonzeroTimeFields)
    else
      var length := U32(data, 16);
      if U16(data, 20) != 0x200 || U16(data, 22) != 0x0EF1 then Err(NotGuidCertificate)
      else if data[24..40] != PKCS7_GUID then Err(NotPkcs7)
      else if length <= 24 || 16 + length > |data| then Err(CertificateOutOfBounds)
      else if data[40] != 0x30 then Err(NotDer)
      else Ok((data[40..16 + length], 16 + length))
  }

  /** What each variable must hold. */
  predicate Suitable(name: string, lists: seq<SignatureList>) {
    && (name == "PK" ==> |lists| == 1 && lists[0].kind == X509_GUID && |lists[0].entries| == 1)
    && (name == "KEK" || name == "db" ==> exists i :: 0 <= i < |lists| && lists[i].kind == X509_GUID)
  }

  /** `parse_auth`. */
  method ParseAuth(name: string, data: Bytes) returns (r: Result<(Bytes, seq<SignatureList>), AuthError>)
    ensures r.Ok? ==> IsAuth(name, data, r.value.0, r.value.1)
    ensures r.Err? ==> forall signedData, lists :: !IsAuth(name, data, signedData, lists)
  {
    hide AuthFile, Authentication, AreLists, ParseAll;
    AuthExact(name, data);
    if name !in VARIABLES {
      return Err(UnknownVariable);
    }
    var header := Authentication(data);
    if header.Err? {
      return Err(header.error);
    }
    var (signedData, end) := header.value;
    var lists := SignatureLists(data[end..]);
    if lists.Err? {
      NoLists(data[end..]);
      return Err(lists.error);
    }
    if name == "PK" && (|lists.value| != 1 || lists.value[0].kind != X509_GUID || |lists.value[0].entries| != 1) {
      return Err(NotOnePlatformKey);
    }
    if name in {"KEK", "db"} && !(exists i | 0 <= i < |lists.value| :: lists.value[i].kind == X509_GUID) {
      return Err(NoX509);
    }
    return Ok((signedData, lists.value));
  }

  lemma NoLists(data: Bytes)
    requires forall pieces, lists :: !AreLists(data, pieces, lists)
    ensures ParseAll(ReadList, data) == None
  {
    hide AreLists, ParseAll;
    ListsExact(data);
  }

  /** The file is what the builder makes from a valid time, DER data and suitable lists. */
  ghost predicate IsAuth(name: string, file: Bytes, signedData: Bytes, lists: seq<SignatureList>) {
    && name in VARIABLES && Suitable(name, lists)
    && exists timestamp, data, pieces :: BuiltFrom(file, signedData, timestamp, data) && AreLists(data, pieces, lists)
  }

  predicate BuiltFrom(file: Bytes, signedData: Bytes, timestamp: Bytes, data: Bytes) {
    && |timestamp| == 16 && TimeValid(timestamp) && TimeZeros(timestamp)
    && signedData != [] && signedData[0] == 0x30 && 24 + |signedData| < WORD
    && file == AuthFile(timestamp, signedData, data)
  }

  lemma BuiltReads(file: Bytes, signedData: Bytes, timestamp: Bytes, data: Bytes)
    requires BuiltFrom(file, signedData, timestamp, data)
    ensures Authentication(file) == Ok((signedData, 40 + |signedData|)) && file[40 + |signedData|..] == data
  {
    var length := PutU32(24 + |signedData|);
    assert file[..16] == timestamp && file[16..20] == length && file[20..40] == CERTIFICATE_FIXED;
    FieldAt(file, 16, length);
    assert file[20] == CERTIFICATE_FIXED[0] && file[21] == CERTIFICATE_FIXED[1]
        && file[22] == CERTIFICATE_FIXED[2] && file[23] == CERTIFICATE_FIXED[3];
    assert file[24..40] == CERTIFICATE_FIXED[4..];
    assert file[40..40 + |signedData|] == signedData;
  }

  lemma FixedPart(file: Bytes)
    requires |file| >= 40 && U16(file, 20) == 0x200 && U16(file, 22) == 0x0EF1 && file[24..40] == PKCS7_GUID
    ensures file[20..40] == CERTIFICATE_FIXED
  {
    assert file[20..24] == [file[20], file[21], file[22], file[23]];
    assert file[20..40] == file[20..24] + file[24..40];
  }

  lemma ReadsBuilt(file: Bytes)
    requires Authentication(file).Ok?
    ensures var (signedData, end) := Authentication(file).value; BuiltFrom(file, signedData, file[..16], file[end..])
  {
    hide TimeValid, TimeZeros, U16, U32, PutU32;
    var (signedData, end) := Authentication(file).value;
    FixedPart(file);
    U32Injective(file, 16, PutU32(24 + |signedData|), 0);
    FiveParts(file, end);
  }

  lemma FiveParts(file: Bytes, end: nat)
    requires 40 <= end <= |file|
    ensures file == file[..16] + file[16..20] + file[20..40] + file[40..end] + file[end..]
  {
  }

  lemma AuthExact(name: string, file: Bytes)
    ensures forall signedData, lists :: IsAuth(name, file, signedData, lists) <==>
              && name in VARIABLES && Suitable(name, lists) && Authentication(file).Ok?
              && Authentication(file).value.0 == signedData
              && ParseAll(ReadList, file[Authentication(file).value.1..]) == Some(lists)
  {
    hide AuthFile, Authentication, AreLists, ParseAll, BuiltFrom, Suitable;
    forall signedData, lists | IsAuth(name, file, signedData, lists)
      ensures Authentication(file).Ok? && Authentication(file).value.0 == signedData
      ensures ParseAll(ReadList, file[Authentication(file).value.1..]) == Some(lists)
    {
      var timestamp, data, pieces :| BuiltFrom(file, signedData, timestamp, data) && AreLists(data, pieces, lists);
      BuiltReads(file, signedData, timestamp, data);
      ListsExact(data);
    }
    if Authentication(file).Ok? {
      ReadsBuilt(file);
      ListsExact(file[Authentication(file).value.1..]);
    }
  }
}
