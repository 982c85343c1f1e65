/**
 * Signed attributes of a PKCS#7 signer (mkosi/private/secure_boot_signer.py; section 5.4 of RFC 5652): the signature
 * covers the attributes as they were read, with only their tag replaced.
 */
module SignedAttributes {
  import opened Prelude
  import opened Bytes
  import opened Der
  import opened DerOid

  const OID_MESSAGE_DIGEST := "1.2.840.113549.1.9.4"
  const OID_CONTENT_TYPE := "1.2.840.113549.1.9.3"
  const OID_SPC_INDIRECT_DATA := "1.3.6.1.4.1.311.2.1.4"

  datatype AttributeError = Malformed(der: DerError) | NotPair | DigestMismatch | WrongContentType

  /** An attribute: the text of its type and its values. */
  datatype Attribute = Attribute(kind: string, values: seq<Item>)

  /** The item can be split into children at all. */
  predicate Splittable(item: Item) {
    item.depth < MAX_DER_DEPTH && (item.value == [] || |item.value| <= MAX_DER_BYTES)
  }

  /** The children that `Der.children` returns. */
  ghost predicate SplitsInto(item: Item, items: seq<Item>) {
    Splittable(item) && AreChildren(items, item) && |items| <= MAX_DER_CHILDREN
  }

  /** The item is an object identifier with the text. */
  ghost predicate Names(item: Item, text: string) {
    item.tag == 0x06 && 1 <= |item.value| <= MAX_OID_BYTES && HasText(item.value, text)
  }

  /** The item is a pair of an object identifier with the text, and a set of exactly the values. */
  ghost predicate IsAttribute(item: Item, attribute: Attribute) {
    exists pair: seq<Item> ::
      && |pair| == 2 && SplitsInto(item, pair) && Names(pair[0], attribute.kind)
      && SplitsInto(pair[1], attribute.values)
  }

  ghost predicate AreAttributes(items: seq<Item>, attributes: seq<Attribute>) {
    |items| == |attributes| && forall i :: 0 <= i < |items| ==> IsAttribute(items[i], attributes[i])
  }

  /** The value lists of the attributes of one type, in order. */
  function ValuesOf(attributes: seq<Attribute>, kind: string): seq<seq<Item>> {
    if attributes == [] then []
    else
      var last := attributes[|attributes| - 1];
      ValuesOf(attributes[..|attributes| - 1], kind) + if last.kind == kind then [last.values] else []
  }

  /** Exactly one message digest, of one value, that is the content's; exactly one content type, of the right kind. */
  ghost predicate Endorses(attributes: seq<Attribute>, contentDigest: Bytes) {
    var digests, types := ValuesOf(attributes, OID_MESSAGE_DIGEST), ValuesOf(attributes, OID_CONTENT_TYPE);
    && |digests| == 1 && |digests[0]| == 1 && digests[0][0].value == contentDigest
    && |types| == 1 && types[0] != [] && Names(types[0][0], OID_SPC_INDIRECT_DATA)
  }

  // ---- Readings are unique ----

  lemma SplitUnique(item: Item, a: seq<Item>, b: seq<Item>)
    requires SplitsInto(item, a) && SplitsInto(item, b)
    ensures a == b
  {
    hide Tiles;
    TilingUnique(a, b, item.value, item.depth + 1);
  }

  lemma NameUnique(item: Item, a: string, b: string)
    requires Names(item, a) && Names(item, b)
    ensures a == b
  {
    hide HasText;
    TextUnique(item.value, a, b);
  }

  lemma AttributeUnique(item: Item, a: Attribute, b: Attribute)
    requires IsAttribute(item, a) && IsAttribute(item, b)
    ensures a == b
  {
    hide SplitsInto, Names;
    var p: seq<Item> :| |p| == 2 && SplitsInto(item, p) && Names(p[0], a.kind) && SplitsInto(p[1], a.values);
    var q: seq<Item> :| |q| == 2 && SplitsInto(item, q) && Names(q[0], b.kind) && SplitsInto(q[1], b.values);
    SplitUnique(item, p, q);
    NameUnique(p[0], a.kind, b.kind);
    SplitUnique(p[1], a.values, b.values);
  }

  lemma AttributesUnique(items: seq<Item>, a: seq<Attribute>, b: seq<Attribute>)
    requires AreAttributes(items, a) && AreAttributes(items, b)
    ensures a == b
  {
    hide IsAttribute;
    forall i | 0 <= i < |a| ensures a[i] == b[i] {
      AttributeUnique(items[i], a[i], b[i]);
    }
  }

  // ---- Reading ----

  method Split(item: Item) returns (r: Result<seq<Item>, AttributeError>)
    ensures r.Ok? ==> SplitsInto(item, r.value)
    ensures r.Err? ==> forall items :: !SplitsInto(item, items)
  {
    hide AreChildren;
    var children := Children(item);
    if children.Err? {
      return Err(Malformed(children.error));
    }
    return Ok(children.value);
  }

  method ReadName(item: Item) returns (r: Result<string, AttributeError>)
    ensures r.Ok? ==> Names(item, r.value)
    ensures r.Err? ==> forall text :: !Names(item, text)
  {
    hide HasText;
    var text := Oid(item);
    if text.Err? {
      return Err(Malformed(text.error));
    }
    return Ok(text.value);
  }

  /** One attribute of the loop. */
  method ReadAttribute(item: Item) returns (r: Result<Attribute, AttributeError>)
    ensures r.Ok? ==> IsAttribute(item, r.value)
    ensures r.Err? ==> forall attribute :: !IsAttribute(item, attribute)
  {
    hide SplitsInto, Names;
    var pair := Split(item);
    if pair.Err? { return Err(pair.error); }
    forall other | SplitsInto(item, other) ensures other == pair.value {
      SplitUnique(item, other, pair.value);
    }
    if |pair.value| != 2 { return Err(NotPair); }
    var kind := ReadName(pair.value[0]);
    if kind.Err? { return Err(kind.error); }
    var values := Split(pair.value[1]);
    if values.Err? { return Err(values.error); }
    var attribute := Attribute(kind.value, values.value);
    assert IsAttribute(item, attribute);
    return Ok(attribute);
  }

  /** The dictionary holds, for every type, the value lists of its attributes. */
  ghost predicate Collects(values: map<string, seq<seq<Item>>>, attributes: seq<Attribute>) {
    forall kind :: Get(values, kind) == ValuesOf(attributes, kind)
  }

  lemma CollectedLists(values: map<string, seq<seq<Item>>>, attributes: seq<Attribute>)
    requires Collects(values, attributes)
    ensures Get(values, OID_MESSAGE_DIGEST) == ValuesOf(attributes, OID_MESSAGE_DIGEST)
    ensures Get(values, OID_CONTENT_TYPE) == ValuesOf(attributes, OID_CONTENT_TYPE)
  {
    hide ValuesOf;
  }

  /** The loop that fills the dictionary. */
  method CollectValues(items: seq<Item>) returns (r: Result<map<string, seq<seq<Item>>>, AttributeError>)
    ensures r.Ok? ==> exists attributes :: AreAttributes(items, attributes) && Collects(r.value, attributes)
    ensures r.Err? ==> forall attributes :: !AreAttributes(items, attributes)
  {
    hide IsAttribute;
    ghost var attributes: seq<Attribute> := [];
    var values: map<string, seq<seq<Item>>> := map[];
    for i := 0 to |items|
      invariant |attributes| == i && forall k :: 0 <= k < i ==> IsAttribute(items[k], attributes[k])
      invariant Collects(values, attributes)
    {
      hide IsAttribute, Collects, ValuesOf;
      var attribute := ReadAttribute(items[i]);
      if attribute.Err? { return Err(attribute.error); }
      var kind := attribute.value.kind;
      CollectNext(values, attributes, attribute.value);
      values := values[kind := Get(values, kind) + [attribute.value.values]];
      attributes := attributes + [attribute.value];
    }
    assert AreAttributes(items, attributes);
    return Ok(values);
  }

  lemma CollectNext(values: map<string, seq<seq<Item>>>, attributes: seq<Attribute>, last: Attribute)
    requires Collects(values, attributes)
    ensures Collects(values[last.kind := Get(values, last.kind) + [last.values]], attributes + [last])
  {
    hide ValuesOf;
    ValuesGrow(attributes, last);
  }

  /** The item's children are attributes that endorse the content. */
  ghost predicate Signs(item: Item, contentDigest: Bytes) {
    exists items, attributes :: SplitsInto(item, items) && AreAttributes(items, attributes)
                                && Endorses(attributes, contentDigest)
  }

  /**
   * `_signed_attributes_digest`: accepts exactly the lists that hold the content's digest and type once each, and
   * the result is the digest of the very bytes of the attributes with their first byte replaced by the SET tag.
   */
  method SignedAttributesDigest(item: Item, contentDigest: Bytes, hash: Bytes -> Bytes)
    returns (r: Result<Bytes, AttributeError>)
    ensures r.Ok? <==> Signs(item, contentDigest)
    ensures r.Ok? ==> |ToBE(|item.value|)| < 128 && r.value == hash([0x31] + Encode(item.tag, item.value)[1..])
  {
    hide SplitsInto, Names, Encode, ToBE, AreAttributes, Collects, ValuesOf;
    var children := Split(item);
    if children.Err? { return Err(children.error); }
    var items := children.value;
    var collected := CollectValues(items);
    OneReading(item, items);
    if collected.Err? { return Err(collected.error); }
    var values := collected.value;
    ghost var attributes :| AreAttributes(items, attributes) && Collects(values, attributes);
    forall other | AreAttributes(items, other) ensures other == attributes {
      AttributesUnique(items, other, attributes);
    }
    CollectedLists(values, attributes);
    var bad := CheckLists(values, attributes, contentDigest);
    if bad.Some? { return Err(bad.value); }
    SmallEnough(item, items);
    RetagChangesOneByte(item.tag, 0x31, item.value);
    return Ok(hash(Encode(0x31, item.value)));
  }

  /** The tests on the collected lists. */
  method CheckLists(values: map<string, seq<seq<Item>>>, ghost attributes: seq<Attribute>, contentDigest: Bytes)
    returns (e: Option<AttributeError>)
    requires Get(values, OID_MESSAGE_DIGEST) == ValuesOf(attributes, OID_MESSAGE_DIGEST)
    requires Get(values, OID_CONTENT_TYPE) == ValuesOf(attributes, OID_CONTENT_TYPE)
    ensures e.None? <==> Endorses(attributes, contentDigest)
  {
    hide Names, ValuesOf;
    var digests: seq<seq<Item>> := Get(values, OID_MESSAGE_DIGEST);
    var types: seq<seq<Item>> := Get(values, OID_CONTENT_TYPE);
    if |digests| != 1 || |digests[0]| != 1 || digests[0][0].value != contentDigest { return Some(DigestMismatch); }
    if |types| != 1 || types[0] == [] { return Some(WrongContentType); }
    var kind := ReadName(types[0][0]);
    if kind.Err? { return Some(kind.error); }
    if kind.value != OID_SPC_INDIRECT_DATA {
      if Names(types[0][0], OID_SPC_INDIRECT_DATA) {
        NameUnique(types[0][0], kind.value, OID_SPC_INDIRECT_DATA);
        assert false;
      }
      return Some(WrongContentType);
    }
    return None;
  }

  lemma OneReading(item: Item, items: seq<Item>)
    requires SplitsInto(item, items)
    ensures forall other :: SplitsInto(item, other) ==> other == items
  {
    hide SplitsInto;
    forall other | SplitsInto(item, other) ensures other == items {
      SplitUnique(item, other, items);
    }
  }

  lemma SmallEnough(item: Item, items: seq<Item>)
    requires SplitsInto(item, items)
    ensures |ToBE(|item.value|)| < 128
  {
    hide AreChildren, ToBE;
    SmallLength(|item.value|);
  }

  /** Python's `values.get(kind, [])`. */
  function Get(values: map<string, seq<seq<Item>>>, kind: string): seq<seq<Item>> {
    if kind in values then values[kind] else []
  }

  lemma ValuesGrow(attributes: seq<Attribute>, last: Attribute)
    ensures forall kind :: ValuesOf(attributes + [last], kind)
                           == ValuesOf(attributes, kind) + if last.kind == kind then [last.values] else []
  {
    assert (attributes + [last])[..|attributes|] == attributes;
  }

  /** Whatever was read at an offset is what the digest covers, up to the tag: no other bytes stand for it. */
  lemma DigestCoversBytesRead(data: Bytes, offset: nat, depth: nat)
    requires Read(data, offset, depth).Ok?
    ensures var (item, end) := Read(data, offset, depth).value;
            && |ToBE(|item.value|)| < 128 && offset < end <= |data|
            && Encode(0x31, item.value) == [0x31] + data[offset..end][1..]
  {
    hide Read, Encode, ToBE;
    ReadIsCanonical(data, offset, depth);
    var (item, end) := Read(data, offset, depth).value;
    RetagChangesOneByte(item.tag, 0x31, item.value);
  }
}
