/**
 * OpenPGP packets (mkosi/private/openpgp.py; section 4.2 of RFC 4880): the parser accepts exactly the sequences of
 * packets in the six definite header forms, and undoes any concatenation of new packets.
 */
module OpenPgp {
  import opened Prelude
  import opened Bytes
  import opened Framing
  import Der

  datatype PgpError =
    | InvalidHeader
    | IndeterminateLength
    | PartialLength
    | TruncatedHeader
    | TruncatedPacket
    | NoPackets
    | SecretMaterial
    | NotOneCertificate
    | ForeignPacket
    | UnsupportedVersion
    | KeyTooLarge
    | NotSignature
    | NotOneSignature

  datatype Packet = Packet(tag: nat, body: Bytes)

  /** The errors of the packet parser. */
  const FRAMING_ERRORS: set<PgpError> :=
    {InvalidHeader, IndeterminateLength, PartialLength, TruncatedHeader, TruncatedPacket, NoPackets}

  const TAG_SIGNATURE := 2
  const TAG_PUBLIC_KEY := 6
  const SECRET_TAGS: set<nat> := {5, 7}
  const CERTIFICATE_TAGS: set<nat> := {6, 2, 12, 13, 14, 17}

  // ---- Big-endian fields ----

  function BE(n: nat, k: nat): (r: Bytes)
    ensures |r| == k
  {
    if k == 0 then [] else BE(n / 256, k - 1) + [n % 256]
  }

  lemma {:induction false} FromBEOf(n: nat, k: nat)
    requires n < Der.Power256(k)
    ensures Der.FromBE(BE(n, k)) == n
  {
    if k > 0 {
      FromBEOf(n / 256, k - 1);
      var s := BE(n, k);
      assert s[..k - 1] == BE(n / 256, k - 1);
    }
  }

  lemma {:induction false} BEOfFrom(s: Bytes)
    ensures BE(Der.FromBE(s), |s|) == s && Der.FromBE(s) < Der.Power256(|s|)
  {
    if s != [] {
      var front, last := s[..|s| - 1], s[|s| - 1];
      BEOfFrom(front);
      assert s == front + [last];
    }
  }

  lemma Powers()
    ensures Der.Power256(1) == 0x100 && Der.Power256(2) == 0x1_0000 && Der.Power256(4) == 0x1_0000_0000
  {
    assert Der.Power256(3) == 0x100_0000;
  }

  // ---- Header forms ----

  /** The old format with one, two or four length bytes, and the new format with one, two or five. */
  datatype Form = Old(lengthBytes: nat) | NewOne | NewTwo | NewFive

  predicate Fits(form: Form, tag: nat, n: nat) {
    match form
    case Old(k) => tag < 16 && k in {1, 2, 4} && n < Der.Power256(k)
    case NewOne => tag < 64 && n < 192
    case NewTwo => tag < 64 && 192 <= n < 8384
    case NewFive => tag < 64 && n < Der.Power256(4)
  }

  function Head(form: Form, tag: nat, n: nat): (r: Bytes)
    requires Fits(form, tag, n)
    ensures |r| >= 2
  {
    match form
    case Old(k) => [0x80 + tag * 4 + (if k == 4 then 2 else k - 1)] + BE(n, k)
    case NewOne => [0xC0 + tag, n]
    case NewTwo => [0xC0 + tag, (n - 192) / 256 + 192, (n - 192) % 256]
    case NewFive => [0xC0 + tag, 255] + BE(n, 4)
  }

  /** `_header`: tag, body offset and body length of the packet at the start of the data. */
  function Header(data: Bytes): (r: Result<(nat, nat, nat), PgpError>)
    requires data != []
    ensures r.Ok? ==> r.value.1 >= 2
    ensures r.Err? ==> r.error in FRAMING_ERRORS
  {
    var first := data[0];
    if first < 0x80 then Err(InvalidHeader)
    else if first < 0xC0 then
      if first % 4 == 3 then Err(IndeterminateLength)
      else
        var start := 1 + (if first % 4 == 2 then 4 else first % 4 + 1);
        Ok(((first - 0x80) / 4, start, Der.FromBE(ReadAt(data, 1, start - 1))))
    else if |data| < 2 then Err(TruncatedHeader)
    else
      var octet := data[1];
      if octet < 192 then Ok((first - 0xC0, 2, octet))
      else if octet < 224 then
        if |data| < 3 then Err(TruncatedHeader)
        else Ok((first - 0xC0, 3, (octet as int - 192) * 256 + data[2] as int + 192))
      else if octet == 255 then Ok((first - 0xC0, 6, Der.FromBE(ReadAt(data, 2, 4))))
      else Err(PartialLength)
  }

  /** One packet off the front. */
  function Read(data: Bytes): Option<(Packet, nat)> {
    if data == [] then None
    else
      match Header(data)
      case Err(_) => None
      case Ok((tag, start, length)) =>
        if start + length > |data| then None else Some((Packet(tag, data[start..start + length]), start + length))
  }

  /** `packet`: a new-format packet. */
  function Encode(tag: nat, body: Bytes): Bytes
    requires tag < 64 && |body| < Der.Power256(4)
  {
    (if |body| < 192 then Head(NewOne, tag, |body|)
     else if |body| < 8384 then Head(NewTwo, tag, |body|)
     else Head(NewFive, tag, |body|)) + body
  }

  // ---- Headers and forms ----

  lemma HeaderOfHead(form: Form, tag: nat, n: nat, rest: Bytes)
    requires Fits(form, tag, n)
    ensures Header(Head(form, tag, n) + rest) == Ok((tag, |Head(form, tag, n)|, n))
  {
    hide Der.FromBE, Der.Power256, BE;
    Powers();
    var data := Head(form, tag, n) + rest;
    match form
    case Old(k) =>
      var code := if k == 4 then 2 else k - 1;
      assert data[0] == 0x80 + tag * 4 + code && data[0] % 4 == code;
      assert ReadAt(data, 1, k) == BE(n, k);
      FromBEOf(n, k);
    case NewFive =>
      assert ReadAt(data, 2, 4) == BE(n, 4);
      FromBEOf(n, 4);
    case NewOne =>
    case NewTwo =>
  }

  function FormOf(data: Bytes): Form
    requires |data| >= 2
  {
    if data[0] < 0xC0 then Old(if data[0] % 4 == 2 then 4 else data[0] % 4 + 1)
    else if data[1] < 192 then NewOne
    else if data[1] < 224 then NewTwo
    else NewFive
  }

  lemma HeadOfHeader(data: Bytes, tag: nat, start: nat, n: nat)
    requires data != [] && Header(data) == Ok((tag, start, n)) && start <= |data|
    ensures Fits(FormOf(data), tag, n) && data[..start] == Head(FormOf(data), tag, n)
  {
    hide Der.FromBE, Der.Power256, BE;
    Powers();
    if data[0] < 0xC0 {
      BEOfFrom(data[1..start]);
      assert data[..start] == [data[0]] + data[1..start];
    } else if data[1] >= 224 {
      BEOfFrom(data[2..6]);
      assert data[..start] == [data[0], data[1]] + data[2..6];
    } else {
      assert data[..start] == if start == 2 then [data[0], data[1]] else [data[0], data[1], data[2]];
    }
  }

  /** A framed packet in one of the header forms. */
  ghost predicate IsPacket(piece: Bytes, packet: Packet) {
    exists form :: Fits(form, packet.tag, |packet.body|) && piece == Head(form, packet.tag, |packet.body|) + packet.body
  }

  lemma ReadFramed(form: Form, packet: Packet, rest: Bytes)
    requires Fits(form, packet.tag, |packet.body|)
    ensures var piece := Head(form, packet.tag, |packet.body|) + packet.body;
            Read(piece + rest) == Some((packet, |piece|))
  {
    hide Head, Header, Fits;
    var head := Head(form, packet.tag, |packet.body|);
    var data := head + packet.body + rest;
    assert data == head + (packet.body + rest);
    HeaderOfHead(form, packet.tag, |packet.body|, packet.body + rest);
    assert data[|head|..|head| + |packet.body|] == packet.body;
  }

  lemma ReadIsFramed(data: Bytes)
    requires Read(data).Some?
    ensures 0 < Read(data).value.1 <= |data| && IsPacket(data[..Read(data).value.1], Read(data).value.0)
  {
    hide Head, Header, Fits;
    var (packet, n) := Read(data).value;
    var (tag, start, length) := Header(data).value;
    HeadOfHeader(data, tag, start, length);
    assert data[..n] == data[..start] + packet.body;
  }

  /** What codes a packet is exactly a framed packet, and reading is local. */
  lemma PacketFormat()
    ensures Local(Read)
    ensures forall piece, packet :: Codes(Read, piece, packet) <==> IsPacket(piece, packet)
  {
    hide Read, Head, Fits;
    forall piece, packet | IsPacket(piece, packet) ensures Codes(Read, piece, packet) {
      var form :| Fits(form, packet.tag, |packet.body|)
                  && piece == Head(form, packet.tag, |packet.body|) + packet.body;
      forall rest ensures Read(piece + rest) == Some((packet, |piece|)) {
        ReadFramed(form, packet, rest);
      }
    }
    forall data | Read(data).Some?
      ensures 0 < Read(data).value.1 <= |data| && IsPacket(data[..Read(data).value.1], Read(data).value.0)
    {
      ReadIsFramed(data);
    }
    forall piece, packet | Codes(Read, piece, packet) ensures IsPacket(piece, packet) {
      assert piece + [] == piece;
      assert Read(piece + []) == Some((packet, |piece|));
      assert piece[..|piece|] == piece;
    }
  }

  // ---- Packet sequences ----

  /** The data is a sequence of framed packets. */
  ghost predicate AreFramed(data: Bytes, pieces: seq<Bytes>, packets: seq<Packet>) {
    && |pieces| == |packets| && Concat(pieces) == data
    && forall i :: 0 <= i < |pieces| ==> IsPacket(pieces[i], packets[i])
  }

  /** `packets`: accepts exactly the non-empty sequences of framed packets and returns them. */
  method Packets(data: Bytes) returns (r: Result<seq<Packet>, PgpError>)
    ensures r.Ok? ==> r.value != [] && exists pieces :: AreFramed(data, pieces, r.value)
    ensures r.Err? ==> forall pieces, packets :: AreFramed(data, pieces, packets) ==> packets == []
    ensures r.Err? ==> r.error in FRAMING_ERRORS
  {
    hide AreFramed, Head, Fits, ParseAll, Local, Codes;
    var result: seq<Packet> := [];
    var offset: nat := 0;
    FramedExact(data);
    PrependNothing(ParseAll(Read, data));
    assert data[0..] == data;
    while offset < |data|
      invariant offset <= |data| && (offset == 0 <==> result == [])
      invariant ParseAll(Read, data) == Prepended(result, ParseAll(Read, data[offset..]))
      decreases |data| - offset
    {
      hide AreFramed, Head, Fits, ParseAll, Local, Codes, Header;
      var suffix := data[offset..];
      var header := Header(suffix);
      if header.Err? {
        StuckParse(suffix);
        return Err(header.error);
      }
      var (tag, start, length) := header.value;
      if start + length > |suffix| {
        StuckParse(suffix);
        return Err(TruncatedPacket);
      }
      ParseStep(Read, data, offset, result);
      result := result + [Packet(tag, suffix[start..start + length])];
      offset := offset + start + length;
    }
    ParsedEnd(data, offset, result);
    if result == [] {
      return Err(NoPackets);
    }
    return Ok(result);
  }

  lemma FramedExact(data: Bytes)
    ensures forall pieces, packets :: AreFramed(data, pieces, packets) ==> ParseAll(Read, data) == Some(packets)
    ensures ParseAll(Read, data).Some? ==> exists pieces :: AreFramed(data, pieces, ParseAll(Read, data).value)
  {
    hide AreFramed, ParseAll;
    SequencesExact(data);
    forall pieces, packets | AreFramed(data, pieces, packets) ensures ParseAll(Read, data) == Some(packets) {
    }
  }

  lemma StuckParse(suffix: Bytes)
    requires suffix != [] && Read(suffix).None?
    ensures ParseAll(Read, suffix) == None
  {
  }

  lemma ParsedEnd(data: Bytes, offset: nat, result: seq<Packet>)
    requires offset == |data| && ParseAll(Read, data) == Prepended(result, ParseAll(Read, data[offset..]))
    ensures ParseAll(Read, data) == Some(result)
  {
    assert result + [] == result;
  }

  lemma SequencesExact(data: Bytes)
    ensures forall packets :: ParseAll(Read, data) == Some(packets) <==> exists pieces :: AreFramed(data, pieces, packets)
  {
    hide Read, IsPacket, ParseAll, Codes, Local;
    PacketFormat();
    forall packets ensures ParseAll(Read, data) == Some(packets) <==> exists pieces :: AreFramed(data, pieces, packets) {
      ParseExact(Read, data, packets);
      forall pieces ensures Tiled(Read, data, pieces, packets) <==> AreFramed(data, pieces, packets) {
      }
    }
  }

  // ---- Round trip ----

  ghost predicate Encodable(packets: seq<Packet>) {
    forall i :: 0 <= i < |packets| ==> packets[i].tag < 64 && |packets[i].body| < Der.Power256(4)
  }

  ghost function Encodings(packets: seq<Packet>): (r: seq<Bytes>)
    requires Encodable(packets)
    ensures |r| == |packets|
  {
    seq(|packets|, i requires 0 <= i < |packets| => Encode(packets[i].tag, packets[i].body))
  }

  /** Any concatenation of new packets is parsed back into exactly those packets, and nothing else parses to them. */
  lemma PacketsRoundTrip(packets: seq<Packet>)
    requires Encodable(packets)
    ensures AreFramed(Concat(Encodings(packets)), Encodings(packets), packets)
    ensures forall pieces, other :: AreFramed(Concat(Encodings(packets)), pieces, other) ==> other == packets
  {
    hide Head, ParseAll, Encode, IsPacket;
    var data := Concat(Encodings(packets));
    forall i | 0 <= i < |packets| ensures IsPacket(Encodings(packets)[i], packets[i]) {
      EncodeIsPacket(packets[i].tag, packets[i].body);
    }
    FramedExact(data);
  }

  lemma EncodeIsPacket(tag: nat, body: Bytes)
    requires tag < 64 && |body| < Der.Power256(4)
    ensures IsPacket(Encode(tag, body), Packet(tag, body))
  {
    hide Head, Der.Power256;
    var form := if |body| < 192 then NewOne else if |body| < 8384 then NewTwo else NewFive;
    assert Fits(form, tag, |body|);
  }

  // ---- Certificates and detached signatures ----

  function Tags(packets: seq<Packet>): (r: seq<nat>)
    ensures |r| == |packets| && forall i :: 0 <= i < |r| ==> r[i] == packets[i].tag
  {
    seq(|packets|, i requires 0 <= i < |packets| => packets[i].tag)
  }

  /** A certificate is led by its only public key, and every packet belongs to certificates. */
  ghost predicate IsCertificate(packets: seq<Packet>) {
    && packets != [] && packets[0].tag == TAG_PUBLIC_KEY && packets[0].body != [] && packets[0].body[0] == 4
    && (forall i :: 1 <= i < |packets| ==> packets[i].tag != TAG_PUBLIC_KEY)
    && (forall i :: 0 <= i < |packets| ==> packets[i].tag in CERTIFICATE_TAGS)
  }

  /** The length of the primary key fits the two bytes that a fingerprint hashes it with. */
  predicate Fingerprintable(packets: seq<Packet>) {
    packets != [] && |packets[0].body| < 0x1_0000
  }

  /**
   * `certificate` and `fingerprint`, on binary data: the digest of the key is a parameter. A certificate whose key
   * body does not fit a fingerprint fails too, though not with the documented error.
   */
  method Certificate(data: Bytes, digest: Bytes -> string) returns (r: Result<(Bytes, string), PgpError>)
    ensures r.Ok? ==> exists pieces, packets: seq<Packet> ::
                        && AreFramed(data, pieces, packets) && IsCertificate(packets) && Fingerprintable(packets)
                        && r.value == (data, digest(packets[0].body))
    ensures r.Err? ==> forall pieces, packets ::
                         AreFramed(data, pieces, packets) ==> !(IsCertificate(packets) && Fingerprintable(packets))
    ensures r == Err(KeyTooLarge) <==> exists pieces, packets: seq<Packet> ::
                                         && AreFramed(data, pieces, packets) && IsCertificate(packets)
                                         && !Fingerprintable(packets)
  {
    hide AreFramed;
    var parsed := Packets(data);
    if parsed.Err? {
      return Err(parsed.error);
    }
    var packets := parsed.value;
    FramedOnce(data, packets);
    CertificateTags(packets);
    var tags := Tags(packets);
    if exists tag | tag in SECRET_TAGS :: tag in tags {
      return Err(SecretMaterial);
    }
    if tags[0] != TAG_PUBLIC_KEY || TAG_PUBLIC_KEY in tags[1..] {
      return Err(NotOneCertificate);
    }
    if !(forall i | 0 <= i < |tags| :: tags[i] in CERTIFICATE_TAGS) {
      return Err(ForeignPacket);
    }
    if packets[0].body == [] || packets[0].body[0] != 4 {
      return Err(UnsupportedVersion);
    }
    if |packets[0].body| >= 0x1_0000 {
      return Err(KeyTooLarge);
    }
    return Ok((data, digest(packets[0].body)));
  }

  /** A primary key of 65536 bytes makes a well-formed certificate without a fingerprint. */
  lemma OversizedKey(rest: Bytes)
    requires |rest| == 0xFFFF
    ensures var packet := Packet(TAG_PUBLIC_KEY, [4] + rest);
            && IsPacket(Encode(packet.tag, packet.body), packet)
            && IsCertificate([packet]) && !Fingerprintable([packet])
  {
    hide Der.Power256;
    Powers();
    EncodeIsPacket(TAG_PUBLIC_KEY, [4] + rest);
  }

  lemma FramedOnce(data: Bytes, packets: seq<Packet>)
    requires exists pieces :: AreFramed(data, pieces, packets)
    ensures forall pieces, other :: AreFramed(data, pieces, other) ==> other == packets
  {
    hide AreFramed;
    FramedExact(data);
  }

  /** The tests on the tag list are the definition; the secret key test is subsumed by the last one. */
  lemma CertificateTags(packets: seq<Packet>)
    requires packets != []
    ensures var tags := Tags(packets);
            IsCertificate(packets) <==>
            && tags[0] == TAG_PUBLIC_KEY && TAG_PUBLIC_KEY !in tags[1..]
            && (forall i :: 0 <= i < |tags| ==> tags[i] in CERTIFICATE_TAGS)
            && packets[0].body != [] && packets[0].body[0] == 4
    ensures (exists tag | tag in SECRET_TAGS :: tag in Tags(packets)) ==> !IsCertificate(packets)
  {
    var tags := Tags(packets);
    if TAG_PUBLIC_KEY in tags[1..] {
      var i :| 0 <= i < |tags[1..]| && tags[1..][i] == TAG_PUBLIC_KEY;
      assert packets[i + 1].tag == TAG_PUBLIC_KEY;
    } else {
      forall i | 1 <= i < |packets| ensures packets[i].tag != TAG_PUBLIC_KEY {
        assert tags[1..][i - 1] == packets[i].tag;
      }
    }
    if tag :| tag in SECRET_TAGS && tag in tags {
      var i :| 0 <= i < |tags| && tags[i] == tag;
      assert tags[i] !in CERTIFICATE_TAGS;
    }
  }

  /** `detached_signature`, on binary data: accepts exactly one framed signature packet. */
  method DetachedSignature(data: Bytes) returns (r: Result<Bytes, PgpError>)
    ensures r.Ok? ==> r.value == data
    ensures r.Ok? <==> exists body :: IsPacket(data, Packet(TAG_SIGNATURE, body))
  {
    hide AreFramed, IsPacket;
    var parsed := Packets(data);
    OnePacket(data);
    if parsed.Err? {
      return Err(parsed.error);
    }
    var packets := parsed.value;
    FramedOnce(data, packets);
    if exists i | 0 <= i < |packets| :: packets[i].tag != TAG_SIGNATURE {
      return Err(NotSignature);
    }
    if |packets| != 1 {
      return Err(NotOneSignature);
    }
    assert packets == [Packet(TAG_SIGNATURE, packets[0].body)];
    return Ok(data);
  }

  lemma OnePacket(data: Bytes)
    ensures forall packet :: IsPacket(data, packet) <==> exists pieces :: AreFramed(data, pieces, [packet])
  {
    hide IsPacket;
    forall packet ensures IsPacket(data, packet) <==> exists pieces :: AreFramed(data, pieces, [packet]) {
      if IsPacket(data, packet) {
        assert Concat([data][1..]) == [] && Concat([data]) == data;
        assert AreFramed(data, [data], [packet]);
      }
      if pieces :| AreFramed(data, pieces, [packet]) {
        assert pieces == [pieces[0]] && Concat(pieces[1..]) == [];
        assert Concat(pieces) == pieces[0];
      }
    }
  }
}
