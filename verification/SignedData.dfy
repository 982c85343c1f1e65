/**
 * The PKCS#7 SignedData of an Authenticode signature (mkosi/private/secure_boot.py): which payloads carry an image
 * digest, and that they carry one.
 */
module SignedData {
  import opened Prelude
  import opened Bytes
  import opened Der
  import opened SignedAttributes

  const OID_SIGNED_DATA := "1.2.840.113549.1.7.2"
  const OID_SHA256 := "2.16.840.1.101.3.4.2.1"
  const OID_RSA: set<string> := {"1.2.840.113549.1.1.1", "1.2.840.113549.1.1.11"}

  datatype FactsError = Unreadable(error: AttributeError) | BadEncoding(der: DerError) | WrongStructure

  // ---- Structure ----

  /** `algorithm_oid`: a sequence led by an object identifier. */
  ghost predicate IsAlgorithm(item: Item, text: string) {
    item.tag == 0x30 && exists kids: seq<Item> :: SplitsInto(item, kids) && kids != [] && Names(kids[0], text)
  }

  /** The item holds one sequence, which holds exactly the children. */
  ghost predicate Wrapped(item: Item, kids: seq<Item>) {
    exists only: seq<Item> :: SplitsInto(item, only) && |only| == 1 && only[0].tag == 0x30 && SplitsInto(only[0], kids)
  }

  /** The payload is one sequence of the SignedData identifier and an explicitly tagged item. */
  ghost predicate IsContentInfo(payload: Bytes, content: Item) {
    exists outer: Item, kids: seq<Item> ::
      && Read(payload, 0, 0) == Ok((outer, |payload|)) && outer.tag == 0x30 && SplitsInto(outer, kids)
      && |kids| == 2 && Names(kids[0], OID_SIGNED_DATA) && kids[1].tag == 0xA0 && content == kids[1]
  }

  ghost predicate DeclaresSha256(item: Item) {
    item.tag == 0x31
    && exists only: seq<Item> :: SplitsInto(item, only) && |only| == 1 && IsAlgorithm(only[0], OID_SHA256)
  }

  /** `parse_signed_data`. */
  ghost predicate HasFields(payload: Bytes, signed: seq<Item>) {
    exists content :: IsContentInfo(payload, content) && Wrapped(content, signed) && |signed| >= 4
                      && DeclaresSha256(signed[1])
  }

  /** The indirect data of the signed content: the identifier and an explicitly tagged wrapper. */
  ghost predicate IsIndirect(item: Item, indirect: seq<Item>) {
    exists kids: seq<Item> ::
      && SplitsInto(item, kids) && |kids| == 2 && Names(kids[0], OID_SPC_INDIRECT_DATA) && kids[1].tag == 0xA0
      && Wrapped(kids[1], indirect) && |indirect| == 2
  }

  /** `_image_digest`. */
  ghost predicate HasDigest(item: Item, digest: Bytes) {
    exists indirect, info: seq<Item> ::
      && |indirect| == 2 && IsIndirect(item, indirect) && SplitsInto(indirect[1], info) && |info| == 2
      && IsAlgorithm(info[0], OID_SHA256) && info[1].tag == 0x04 && info[1].value == digest
  }

  function SignatureIndex(signer: seq<Item>): nat
    requires |signer| >= 5
  {
    if signer[3].tag != 0xA0 then 4 else 5
  }

  /** `_check_signer_info`. */
  ghost predicate HasSigner(item: Item) {
    item.tag == 0x31
    && exists only, signer: seq<Item> ::
         && SplitsInto(item, only) && |only| == 1 && SplitsInto(only[0], signer) && |signer| >= 5
         && IsAlgorithm(signer[2], OID_SHA256) && SignatureIndex(signer) < |signer|
         && (exists text :: text in OID_RSA && IsAlgorithm(signer[SignatureIndex(signer) - 1], text))
         && signer[SignatureIndex(signer)].tag == 0x04
  }

  /** The payload carries the image digest. */
  ghost predicate Carries(payload: Bytes, digest: Bytes) {
    exists signed: seq<Item> :: && |signed| >= 4 && HasFields(payload, signed) && HasDigest(signed[2], digest)
                                && HasSigner(signed[|signed| - 1])
  }

  // ---- Readings are unique ----

  lemma AlgorithmUnique(item: Item, a: string, b: string)
    requires IsAlgorithm(item, a) && IsAlgorithm(item, b)
    ensures a == b
  {
    hide SplitsInto, Names;
    var x: seq<Item> :| SplitsInto(item, x) && x != [] && Names(x[0], a);
    var y: seq<Item> :| SplitsInto(item, y) && y != [] && Names(y[0], b);
    SplitUnique(item, x, y);
    NameUnique(x[0], a, b);
  }

  lemma WrappedUnique(item: Item, a: seq<Item>, b: seq<Item>)
    requires Wrapped(item, a) && Wrapped(item, b)
    ensures a == b
  {
    hide SplitsInto;
    var x: seq<Item> :| SplitsInto(item, x) && |x| == 1 && x[0].tag == 0x30 && SplitsInto(x[0], a);
    var y: seq<Item> :| SplitsInto(item, y) && |y| == 1 && y[0].tag == 0x30 && SplitsInto(y[0], b);
    SplitUnique(item, x, y);
    SplitUnique(x[0], a, b);
  }

  lemma ContentUnique(payload: Bytes, a: Item, b: Item)
    requires IsContentInfo(payload, a) && IsContentInfo(payload, b)
    ensures a == b
  {
    hide SplitsInto, Names, Read;
    var o: Item, x: seq<Item> :| && Read(payload, 0, 0) == Ok((o, |payload|)) && o.tag == 0x30 && SplitsInto(o, x)
                           && |x| == 2 && Names(x[0], OID_SIGNED_DATA) && x[1].tag == 0xA0 && a == x[1];
    var p: Item, y: seq<Item> :| && Read(payload, 0, 0) == Ok((p, |payload|)) && p.tag == 0x30 && SplitsInto(p, y)
                           && |y| == 2 && Names(y[0], OID_SIGNED_DATA) && y[1].tag == 0xA0 && b == y[1];
    SplitUnique(o, x, y);
  }

  lemma FieldsUnique(payload: Bytes, a: seq<Item>, b: seq<Item>)
    requires HasFields(payload, a) && HasFields(payload, b)
    ensures a == b
  {
    hide IsContentInfo, Wrapped, DeclaresSha256;
    var x :| IsContentInfo(payload, x) && Wrapped(x, a) && |a| >= 4 && DeclaresSha256(a[1]);
    var y :| IsContentInfo(payload, y) && Wrapped(y, b) && |b| >= 4 && DeclaresSha256(b[1]);
    ContentUnique(payload, x, y);
    WrappedUnique(x, a, b);
  }

  lemma IndirectUnique(item: Item, a: seq<Item>, b: seq<Item>)
    requires IsIndirect(item, a) && IsIndirect(item, b)
    ensures a == b
  {
    hide SplitsInto, Names, Wrapped;
    var x: seq<Item> :| && SplitsInto(item, x) && |x| == 2 && Names(x[0], OID_SPC_INDIRECT_DATA) && x[1].tag == 0xA0
                        && Wrapped(x[1], a) && |a| == 2;
    var y: seq<Item> :| && SplitsInto(item, y) && |y| == 2 && Names(y[0], OID_SPC_INDIRECT_DATA) && y[1].tag == 0xA0
                        && Wrapped(y[1], b) && |b| == 2;
    SplitUnique(item, x, y);
    WrappedUnique(x[1], a, b);
  }

  lemma DigestUnique(item: Item, a: Bytes, b: Bytes)
    requires HasDigest(item, a) && HasDigest(item, b)
    ensures a == b
  {
    hide SplitsInto, IsIndirect, IsAlgorithm;
    var x, i: seq<Item> :| && |x| == 2 && IsIndirect(item, x) && SplitsInto(x[1], i) && |i| == 2
                           && IsAlgorithm(i[0], OID_SHA256) && i[1].tag == 0x04 && i[1].value == a;
    var y, j: seq<Item> :| && |y| == 2 && IsIndirect(item, y) && SplitsInto(y[1], j) && |j| == 2
                           && IsAlgorithm(j[0], OID_SHA256) && j[1].tag == 0x04 && j[1].value == b;
    IndirectUnique(item, x, y);
    SplitUnique(x[1], i, j);
  }

  /** A payload carries at most one image digest. */
  lemma CarriedUnique(payload: Bytes, a: Bytes, b: Bytes)
    requires Carries(payload, a) && Carries(payload, b)
    ensures a == b
  {
    hide HasFields, HasDigest, HasSigner;
    var x: seq<Item> :| |x| >= 4 && HasFields(payload, x) && HasDigest(x[2], a) && HasSigner(x[|x| - 1]);
    var y: seq<Item> :| |y| >= 4 && HasFields(payload, y) && HasDigest(y[2], b) && HasSigner(y[|y| - 1]);
    FieldsUnique(payload, x, y);
    DigestUnique(x[2], a, b);
  }

  // ---- Reading ----

  method AlgorithmOid(item: Item) returns (r: Result<string, FactsError>)
    ensures r.Ok? ==> IsAlgorithm(item, r.value)
    ensures r.Err? ==> forall text :: !IsAlgorithm(item, text)
  {
    hide SplitsInto, Names;
    var kids := Split(item);
    if kids.Err? { return Err(Unreadable(kids.error)); }
    OneReading(item, kids.value);
    if item.tag != 0x30 || kids.value == [] { return Err(WrongStructure); }
    var text := ReadName(kids.value[0]);
    if text.Err? { return Err(Unreadable(text.error)); }
    return Ok(text.value);
  }

  /** Whether the item is an algorithm with one of the names. */
  method HasAlgorithm(item: Item, names: set<string>) returns (e: Option<FactsError>)
    ensures e.None? <==> exists text :: text in names && IsAlgorithm(item, text)
  {
    hide IsAlgorithm;
    var text := AlgorithmOid(item);
    if text.Err? { return Some(text.error); }
    forall other | IsAlgorithm(item, other) ensures other == text.value {
      AlgorithmUnique(item, other, text.value);
    }
    if text.value !in names { return Some(WrongStructure); }
    return None;
  }

  method Unwrap(item: Item) returns (r: Result<seq<Item>, FactsError>)
    ensures r.Ok? ==> Wrapped(item, r.value)
    ensures r.Err? ==> forall kids :: !Wrapped(item, kids)
  {
    hide SplitsInto;
    var only := Split(item);
    if only.Err? { return Err(Unreadable(only.error)); }
    OneReading(item, only.value);
    if |only.value| != 1 || only.value[0].tag != 0x30 { return Err(WrongStructure); }
    var kids := Split(only.value[0]);
    if kids.Err? { return Err(Unreadable(kids.error)); }
    return Ok(kids.value);
  }

  method ReadContentInfo(payload: Bytes) returns (r: Result<Item, FactsError>)
    ensures r.Ok? ==> IsContentInfo(payload, r.value)
    ensures r.Err? ==> forall content :: !IsContentInfo(payload, content)
  {
    hide SplitsInto, Names, Read;
    var read := Read(payload, 0, 0);
    if read.Err? { return Err(BadEncoding(read.error)); }
    var (outer, end) := read.value;
    var kids := Split(outer);
    if kids.Err? { return Err(Unreadable(kids.error)); }
    OneReading(outer, kids.value);
    if outer.tag != 0x30 || end != |payload| || |kids.value| != 2 { return Err(WrongStructure); }
    var name := ReadName(kids.value[0]);
    if name.Err? { return Err(Unreadable(name.error)); }
    OneName(kids.value[0], name.value);
    if name.value != OID_SIGNED_DATA || kids.value[1].tag != 0xA0 { return Err(WrongStructure); }
    return Ok(kids.value[1]);
  }

  lemma OneName(item: Item, text: string)
    requires Names(item, text)
    ensures forall other :: Names(item, other) ==> other == text
  {
    hide Names;
    forall other | Names(item, other) ensures other == text {
      NameUnique(item, other, text);
    }
  }

  method ChecksSha256(item: Item) returns (e: Option<FactsError>)
    ensures e.None? <==> DeclaresSha256(item)
  {
    hide SplitsInto, IsAlgorithm;
    if item.tag != 0x31 { return Some(WrongStructure); }
    var only := Split(item);
    if only.Err? { return Some(Unreadable(only.error)); }
    OneReading(item, only.value);
    if |only.value| != 1 { return Some(WrongStructure); }
    e := HasAlgorithm(only.value[0], {OID_SHA256});
  }

  /** `parse_signed_data`: returns the fields of exactly the payloads that have them. */
  method ParseSignedData(payload: Bytes) returns (r: Result<seq<Item>, FactsError>)
    ensures r.Ok? ==> HasFields(payload, r.value) && |r.value| >= 4
    ensures r.Err? ==> forall signed :: !HasFields(payload, signed)
  {
    hide IsContentInfo, Wrapped, DeclaresSha256;
    var content := ReadContentInfo(payload);
    if content.Err? { return Err(content.error); }
    forall other | IsContentInfo(payload, other) ensures other == content.value {
      ContentUnique(payload, other, content.value);
    }
    var signed := Unwrap(content.value);
    if signed.Err? { return Err(signed.error); }
    forall other | Wrapped(content.value, other) ensures other == signed.value {
      WrappedUnique(content.value, other, signed.value);
    }
    if |signed.value| < 4 { return Err(WrongStructure); }
    var declared := ChecksSha256(signed.value[1]);
    if declared.Some? { return Err(declared.value); }
    return Ok(signed.value);
  }

  method ReadIndirect(item: Item) returns (r: Result<seq<Item>, FactsError>)
    ensures r.Ok? ==> IsIndirect(item, r.value) && |r.value| == 2
    ensures r.Err? ==> forall indirect :: !IsIndirect(item, indirect)
  {
    hide SplitsInto, Names, Wrapped;
    var kids := Split(item);
    if kids.Err? { return Err(Unreadable(kids.error)); }
    OneReading(item, kids.value);
    if |kids.value| != 2 { return Err(WrongStructure); }
    var name := ReadName(kids.value[0]);
    if name.Err? { return Err(Unreadable(name.error)); }
    OneName(kids.value[0], name.value);
    if name.value != OID_SPC_INDIRECT_DATA || kids.value[1].tag != 0xA0 { return Err(WrongStructure); }
    var indirect := Unwrap(kids.value[1]);
    if indirect.Err? { return Err(indirect.error); }
    forall other | Wrapped(kids.value[1], other) ensures other == indirect.value {
      WrappedUnique(kids.value[1], other, indirect.value);
    }
    if |indirect.value| != 2 { return Err(WrongStructure); }
    return Ok(indirect.value);
  }

  /** `_image_digest`: the digest of exactly the contents that hold one. */
  method ImageDigest(item: Item) returns (r: Result<Bytes, FactsError>)
    ensures r.Ok? ==> HasDigest(item, r.value)
    ensures r.Err? ==> forall digest :: !HasDigest(item, digest)
  {
    hide SplitsInto, IsIndirect, IsAlgorithm;
    var indirect := ReadIndirect(item);
    if indirect.Err? { return Err(indirect.error); }
    forall other | IsIndirect(item, other) ensures other == indirect.value {
      IndirectUnique(item, other, indirect.value);
    }
    var info := Split(indirect.value[1]);
    if info.Err? { return Err(Unreadable(info.error)); }
    OneReading(indirect.value[1], info.value);
    if |info.value| != 2 { return Err(WrongStructure); }
    var algorithm := HasAlgorithm(info.value[0], {OID_SHA256});
    if algorithm.Some? { return Err(algorithm.value); }
    if info.value[1].tag != 0x04 { return Err(WrongStructure); }
    return Ok(info.value[1].value);
  }

  /** `_check_signer_info`. */
  method CheckSignerInfo(item: Item) returns (e: Option<FactsError>)
    ensures e.None? <==> HasSigner(item)
  {
    hide SplitsInto, IsAlgorithm;
    var only := Split(item);
    if only.Err? { return Some(Unreadable(only.error)); }
    OneReading(item, only.value);
    if item.tag != 0x31 || |only.value| != 1 { return Some(WrongStructure); }
    var signer := Split(only.value[0]);
    if signer.Err? { return Some(Unreadable(signer.error)); }
    OneReading(only.value[0], signer.value);
    if |signer.value| < 5 { return Some(WrongStructure); }
    e := HasAlgorithm(signer.value[2], {OID_SHA256});
    if e.Some? { return; }
    var index := SignatureIndex(signer.value);
    if index >= |signer.value| { return Some(WrongStructure); }
    e := HasAlgorithm(signer.value[index - 1], OID_RSA);
    if e.Some? { return; }
    if signer.value[index].tag != 0x04 { return Some(WrongStructure); }
    return None;
  }

  /** `authenticode_facts`: the image digest of exactly the payloads that carry one. */
  method AuthenticodeFacts(payload: Bytes) returns (r: Result<Bytes, FactsError>)
    ensures r.Ok? ==> Carries(payload, r.value)
    ensures r.Err? ==> forall digest :: !Carries(payload, digest)
  {
    hide HasFields, HasDigest, HasSigner;
    var signed := ParseSignedData(payload);
    if signed.Err? { return Err(signed.error); }
    forall other | HasFields(payload, other) ensures other == signed.value {
      FieldsUnique(payload, other, signed.value);
    }
    var digest := ImageDigest(signed.value[2]);
    if digest.Err? { return Err(digest.error); }
    var signer := CheckSignerInfo(signed.value[|signed.value| - 1]);
    if signer.Some? { return Err(signer.value); }
    return Ok(digest.value);
  }
}
