/**
 * What an Authenticode hash says (mkosi/private/secure_boot.py): the hashed bytes of a signed image are those of the
 * unsigned image and zero padding, and they determine the image outside the fields and gaps that are not hashed.
 */
module AuthenticodeStream {
  import opened Prelude
  import Arithmetic
  import Sorting
  import opened Bytes
  import opened Pe
  import opened Authenticode
  import SignedData

  // ---- Signing keeps the stream ----

  lemma {:induction false} SamePieces(u: Bytes, s: Bytes, sections: seq<Range>, c: nat, d: nat)
    requires SameOutside(u, s, c, d) && c + 4 <= d
    requires forall r :: r in sections ==> d + 8 <= r.offset && r.offset + r.size <= |u|
    ensures Pieces(s, sections) == Pieces(u, sections)
  {
    if sections != [] {
      var last := |sections| - 1;
      SamePieces(u, s, sections[..last], c, d);
      SameSpan(u, s, c, d, sections[last].offset, sections[last].size);
    }
  }

  lemma SectionsInside(data: Bytes, l: Layout)
    requires Placed(|data|, l)
    ensures forall r :: r in l.sections ==> l.security + 8 <= r.offset && r.offset + r.size <= |data|
    ensures l.security + 8 <= l.headers <= ContentEnd(l.sections, l.headers) <= |data|
  {
    forall r | r in l.sections ensures l.security + 8 <= r.offset && r.offset + r.size <= |data| {
      var i :| 0 <= i < |l.sections| && l.sections[i] == r;
    }
  }

  /** The hash of an unsigned image never fails. */
  lemma UnsignedHashable(u: Bytes)
    requires Parse(u, false).Ok?
    ensures Hashable(u, Parse(u, false).value)
  {
    hide Parse;
    ParsePlaces(u, false);
    SectionsInside(u, Parse(u, false).value);
  }

  /**
   * After `prove_equivalence` both overlap guards are dead for the signed image, and its hashed bytes are those of
   * the unsigned image followed by exactly the inserted zeros.
   */
  lemma SignedStream(u: Bytes, s: Bytes, payload: Bytes)
    requires IsSigned(u, s, payload)
    ensures Parse(u, false).Ok? && Parse(s, true).Ok?
    ensures var l, m := Parse(u, false).value, Parse(s, true).value;
            && Hashable(u, l) && Hashable(s, m) && m.certificate.offset >= |u|
            && Stream(s, m) == Stream(u, l) + Zeros(m.certificate.offset - |u|)
  {
    hide Parse, Wraps, IsSigned, Pieces, HeaderStream;
    OneLayout(u, s, payload);
    var l, m := Parse(u, false).value, Parse(s, true).value;
    UnsignedHashable(u);
    ParsePlaces(u, false);
    ParsePlaces(s, true);
    ExactForm(u, s, l);
    SectionsInside(u, l);
    SamePieces(u, s, l.sections, l.checksum, l.security);
    SameHeaderStream(u, s, l, m);
    SameTail(u, s, l, ContentEnd(l.sections, l.headers), m.certificate.offset);
  }

  lemma SameHeaderStream(u: Bytes, s: Bytes, l: Layout, m: Layout)
    requires Placed(|u|, l) && Placed(|s|, m) && m == l.(certificate := m.certificate)
    requires SameOutside(u, s, l.checksum, l.security)
    ensures HeaderStream(s, m) == HeaderStream(u, l)
  {
    var c, d := l.checksum, l.security;
    SameSpan(u, s, c, d, 0, c);
    SameSpan(u, s, c, d, c + 4, d - c - 4);
    SameSpan(u, s, c, d, d + 8, l.headers - d - 8);
  }

  lemma SameTail(u: Bytes, s: Bytes, l: Layout, from: nat, stop: nat)
    requires SameOutside(u, s, l.checksum, l.security) && l.checksum + 4 <= l.security
    requires l.security + 8 <= from <= |u| <= stop <= |s| && AllZero(s[|u|..stop])
    ensures s[from..stop] == u[from..|u|] + Zeros(stop - |u|)
  {
    SameSpan(u, s, l.checksum, l.security, from, |u| - from);
    AllZeroIsZeros(s[|u|..stop]);
    assert s[from..stop] == s[from..|u|] + s[|u|..stop];
  }

  // ---- The guard that can fire ----

  /** One byte of a small image whose only section reaches into its certificate table. */
  function OverlapByte(i: nat): Byte {
    if i == 0 then 'M' as int
    else if i == 1 then 'Z' as int
    else if i == 60 then 64
    else if i == 64 then 'P' as int
    else if i == 65 then 'E' as int
    else if i == 70 then 1
    else if i == 84 then 240
    else if i == 88 then 0x0B
    else if i in {89, 125, 149, 345, 349} then 2
    else if i == 196 then 16
    else if i == 232 then 0xF8
    else if i == 233 then 3
    else if i == 236 then 8
    else 0
  }

  function OverlapImage(): (r: Bytes)
    ensures |r| == 1024 && forall i :: 0 <= i < 1024 ==> r[i] == OverlapByte(i)
  {
    seq(1024, i requires i >= 0 => OverlapByte(i))
  }

  /** The section [512, 1024) holds the certificate table [1016, 1024): the image parses but cannot be hashed. */
  lemma OverlapIsPossible()
    ensures var l := Layout(Range(1016, 8), 152, 232, [Range(512, 512)], 512);
            Parse(OverlapImage(), true) == Ok(l) && !Hashable(OverlapImage(), l)
  {
    hide OverlapImage, Sections;
    var data := OverlapImage();
    OverlapHeaders(data);
    OverlapSections(data);
  }

  ghost predicate IsOverlap(data: Bytes) {
    |data| == 1024 && forall i :: 0 <= i < 1024 ==> data[i] == OverlapByte(i)
  }

  lemma OverlapHeaders(data: Bytes)
    requires IsOverlap(data)
    ensures OptionalHeader(data) == Ok(Header(88, 240, 112, 1))
    ensures SecurityDirectory(data, Header(88, 240, 112, 1)) == Ok(232)
    ensures HeaderLayout(data, Header(88, 240, 112, 1)) == Ok(Table(328, 512, 512))
    ensures CertificateTable(data, 232, true) == Ok(Range(1016, 8))
  {
    OverlapFields(data);
    hide U16, U32, OverlapByte;
    assert Arithmetic.IsPowerOfTwo(512) by {
      assert Arithmetic.IsPowerOfTwo(4) && Arithmetic.IsPowerOfTwo(32) && Arithmetic.IsPowerOfTwo(128);
    }
  }

  lemma OverlapFields(data: Bytes)
    requires IsOverlap(data)
    ensures data[0] == 'M' as int && data[1] == 'Z' as int && data[64..68] == ['P' as int, 'E' as int, 0, 0]
    ensures U32(data, 0x3C) == 64 && U16(data, 70) == 1 && U16(data, 84) == 240 && U16(data, 88) == 0x20B
    ensures U32(data, 196) == 16 && U32(data, 124) == 512 && U32(data, 148) == 512
    ensures U32(data, 232) == 1016 && U32(data, 236) == 8 && U32(data, 344) == 512 && U32(data, 348) == 512
  {
    assert data[64..68] == [data[64], data[65], data[66], data[67]];
  }

  lemma OverlapSections(data: Bytes)
    requires IsOverlap(data)
    ensures Sections(data, Table(328, 512, 512), 1) == Ok([Range(512, 512)])
  {
    var t := Table(328, 512, 512);
    OverlapFields(data);
    hide U16, U32, OverlapByte;
    assert RawRanges(data, t, 0) == Ok([]) && [] + [Range(512, 512)] == [Range(512, 512)];
    assert RawRange(data, t.start + 0 * 40) == Range(512, 512) && RangeFits(1024, Range(512, 512), t);
    assert RawRanges(data, t, 1) == Ok([Range(512, 512)]);
    assert Sorting.Sort([], RangeLe) == [] && [Range(512, 512)][1..] == [];
    assert Sorting.Sort([Range(512, 512)], RangeLe) == [Range(512, 512)];
  }

  // ---- What the stream covers ----

  predicate Within(r: Range, p: nat) {
    r.offset <= p < r.offset + r.size
  }

  /** The positions whose bytes are hashed. */
  ghost predicate Covered(l: Layout, end: nat, p: nat) {
    || p < l.checksum || l.checksum + 4 <= p < l.security || l.security + 8 <= p < l.headers
    || (exists i :: 0 <= i < |l.sections| && Within(l.sections[i], p))
    || ContentEnd(l.sections, l.headers) <= p < end
  }

  ghost predicate AgreeOn(a: Bytes, b: Bytes, from: nat, to: nat) {
    to <= |a| && to <= |b| && forall p :: from <= p < to ==> a[p] == b[p]
  }

  lemma AgreeIsEqual(a: Bytes, b: Bytes, from: nat, to: nat)
    requires from <= to <= |a| && to <= |b|
    ensures AgreeOn(a, b, from, to) <==> a[from..to] == b[from..to]
  {
    if a[from..to] == b[from..to] {
      forall p | from <= p < to ensures a[p] == b[p] {
        assert a[p] == a[from..to][p - from] && b[p] == b[from..to][p - from];
      }
    }
  }

  lemma EqualParts(a: Bytes, b: Bytes, x: Bytes, y: Bytes)
    requires |a| == |x|
    ensures a + b == x + y <==> a == x && b == y
  {
    if a + b == x + y {
      assert (a + b)[..|a|] == a && (x + y)[..|x|] == x;
      assert (a + b)[|a|..] == b && (x + y)[|x|..] == y;
    }
  }

  ghost predicate AgreeOnSections(a: Bytes, b: Bytes, sections: seq<Range>) {
    forall i :: 0 <= i < |sections|
                ==> AgreeOn(a, b, sections[i].offset, sections[i].offset + sections[i].size)
  }

  lemma AgreeSnoc(a: Bytes, b: Bytes, sections: seq<Range>)
    requires sections != []
    ensures var front, last := sections[..|sections| - 1], sections[|sections| - 1];
            AgreeOnSections(a, b, sections) <==>
            AgreeOnSections(a, b, front) && AgreeOn(a, b, last.offset, last.offset + last.size)
  {
    hide AgreeOn;
    var front := sections[..|sections| - 1];
    assert forall i :: 0 <= i < |front| ==> front[i] == sections[i];
    assert AgreeOnSections(a, b, front) ==>
           forall i :: 0 <= i < |sections| - 1
                       ==> AgreeOn(a, b, front[i].offset, front[i].offset + front[i].size);
  }

  ghost predicate PiecesAgree(a: Bytes, b: Bytes, sections: seq<Range>)
    requires forall r :: r in sections ==> r.offset + r.size <= |a| && r.offset + r.size <= |b|
  {
    && |Pieces(a, sections)| == |Pieces(b, sections)|
    && (Pieces(a, sections) == Pieces(b, sections) <==> AgreeOnSections(a, b, sections))
  }

  lemma {:induction false} PiecesExact(a: Bytes, b: Bytes, sections: seq<Range>)
    requires forall r :: r in sections ==> r.offset + r.size <= |a| && r.offset + r.size <= |b|
    ensures PiecesAgree(a, b, sections)
  {
    if sections != [] {
      PiecesExact(a, b, sections[..|sections| - 1]);
      PiecesGrow(a, b, sections);
    }
  }

  lemma PiecesGrow(a: Bytes, b: Bytes, sections: seq<Range>)
    requires sections != []
    requires forall r :: r in sections ==> r.offset + r.size <= |a| && r.offset + r.size <= |b|
    requires PiecesAgree(a, b, sections[..|sections| - 1])
    ensures PiecesAgree(a, b, sections)
  {
    hide Pieces, AgreeOn, AgreeOnSections;
    var last := sections[|sections| - 1];
    AgreeIsEqual(a, b, last.offset, last.offset + last.size);
    PiecesLast(a, b, sections);
    AgreeSnoc(a, b, sections);
  }

  lemma PiecesLast(a: Bytes, b: Bytes, sections: seq<Range>)
    requires sections != []
    requires forall r :: r in sections ==> r.offset + r.size <= |a| && r.offset + r.size <= |b|
    requires var front := sections[..|sections| - 1]; |Pieces(a, front)| == |Pieces(b, front)|
    ensures var front, last := sections[..|sections| - 1], sections[|sections| - 1];
            && |Pieces(a, sections)| == |Pieces(b, sections)|
            && (Pieces(a, sections) == Pieces(b, sections) <==>
                && Pieces(a, front) == Pieces(b, front)
                && a[last.offset..last.offset + last.size] == b[last.offset..last.offset + last.size])
  {
    var front, last := sections[..|sections| - 1], sections[|sections| - 1];
    EqualParts(Pieces(a, front), a[last.offset..last.offset + last.size],
               Pieces(b, front), b[last.offset..last.offset + last.size]);
  }

  lemma HeaderExact(a: Bytes, b: Bytes, l: Layout, m: Layout)
    requires Placed(|a|, l) && Placed(|b|, m) && m == l.(certificate := m.certificate)
    ensures |HeaderStream(a, l)| == |HeaderStream(b, m)|
    ensures HeaderStream(a, l) == HeaderStream(b, m) <==>
            && AgreeOn(a, b, 0, l.checksum) && AgreeOn(a, b, l.checksum + 4, l.security)
            && AgreeOn(a, b, l.security + 8, l.headers)
  {
    var c, d, n := l.checksum, l.security, l.headers;
    AgreeIsEqual(a, b, 0, c);
    AgreeIsEqual(a, b, c + 4, d);
    AgreeIsEqual(a, b, d + 8, n);
    EqualParts(a[..c], a[c + 4..d], b[..c], b[c + 4..d]);
    EqualParts(a[..c] + a[c + 4..d], a[d + 8..n], b[..c] + b[c + 4..d], b[d + 8..n]);
  }

  /**
   * Coverage is exact: two images with one layout, hashed up to the same offset, have equal hashed bytes if and only
   * if they agree on every covered position. Checksum, security directory and the gaps between sections are free.
   */
  lemma StreamExact(a: Bytes, b: Bytes, l: Layout, m: Layout)
    requires Hashable(a, l) && Hashable(b, m) && m == l.(certificate := m.certificate)
    requires HashEnd(a, l) == HashEnd(b, m)
    ensures Stream(a, l) == Stream(b, m) <==>
            forall p :: 0 <= p < HashEnd(a, l) && Covered(l, HashEnd(a, l), p) ==> a[p] == b[p]
  {
    hide Pieces, HeaderStream;
    var from, end := ContentEnd(l.sections, l.headers), HashEnd(a, l);
    SectionsInside(a, l);
    SectionsInside(b, m);
    PiecesExact(a, b, l.sections);
    HeaderExact(a, b, l, m);
    AgreeIsEqual(a, b, from, end);
    var ha, hb := HeaderStream(a, l), HeaderStream(b, m);
    var pa, pb := Pieces(a, l.sections), Pieces(b, l.sections);
    EqualParts(ha, pa, hb, pb);
    EqualParts(ha + pa, a[from..end], hb + pb, b[from..end]);
    CoveredAgreement(a, b, l, end);
  }

  /** Every section of a hashable image lies before its end of content. */
  lemma SectionsBeforeEnd(size: nat, l: Layout, i: nat)
    requires Placed(size, l) && i < |l.sections|
    ensures l.sections[i].offset + l.sections[i].size <= ContentEnd(l.sections, l.headers)
  {
    var last := |l.sections| - 1;
    assert i < last ==> Follows(l.sections[i], l.sections[last]);
  }

  lemma CoveredAgreement(a: Bytes, b: Bytes, l: Layout, end: nat)
    requires Placed(|a|, l) && Placed(|b|, l) && ContentEnd(l.sections, l.headers) <= end <= |a| && end <= |b|
    ensures (&& AgreeOn(a, b, 0, l.checksum) && AgreeOn(a, b, l.checksum + 4, l.security)
             && AgreeOn(a, b, l.security + 8, l.headers) && AgreeOnSections(a, b, l.sections)
             && AgreeOn(a, b, ContentEnd(l.sections, l.headers), end))
            <==> forall p :: 0 <= p < end && Covered(l, end, p) ==> a[p] == b[p]
  {
    SectionsInside(a, l);
    if forall p :: 0 <= p < end && Covered(l, end, p) ==> a[p] == b[p] {
      forall i | 0 <= i < |l.sections|
        ensures AgreeOn(a, b, l.sections[i].offset, l.sections[i].offset + l.sections[i].size)
      {
        SectionsBeforeEnd(|a|, l, i);
        assert l.sections[i] in l.sections;
        forall p | l.sections[i].offset <= p < l.sections[i].offset + l.sections[i].size ensures a[p] == b[p] {
          assert Within(l.sections[i], p);
        }
      }
    }
  }

  // ---- The whole verification ----

  /**
   * `verify_embedded_digest`: accepts exactly the signed forms of the unsigned image whose signature carries the hash
   * of the unsigned image's own content and the zero padding. Neither guard of the hash fires.
   */
  method VerifyEmbedded(u: Bytes, s: Bytes, hash: Bytes -> Bytes) returns (r: Result<Bytes, SignError>)
    ensures r.Ok? ==> IsSigned(u, s, r.value) && Endorses(u, s, r.value, hash)
    ensures r.Ok? <==> exists payload :: IsSigned(u, s, payload) && Endorses(u, s, payload, hash)
  {
    hide Parse, IsSigned, Stream, Hashable, SignedData.Carries;
    var proof := ProveEquivalence(u, s);
    if proof.Err? {
      return Err(proof.error);
    }
    var payload := proof.value;
    forall other | IsSigned(u, s, other) ensures other == payload {
      SignedOnce(u, s, other, payload);
    }
    SignedStream(u, s, payload);
    var embedded := SignedData.AuthenticodeFacts(payload);
    if embedded.Err? {
      return Err(BadFacts);
    }
    forall other | SignedData.Carries(payload, other) ensures other == embedded.value {
      SignedData.CarriedUnique(payload, other, embedded.value);
    }
    var signed := ParsePe(s, true);
    var computed := AuthenticodeHash(s, true, signed.value, hash);
    if embedded.value != computed.value {
      return Err(DigestMismatch);
    }
    return Ok(payload);
  }

  lemma SignedOnce(u: Bytes, s: Bytes, p: Bytes, q: Bytes)
    requires IsSigned(u, s, p) && IsSigned(u, s, q)
    ensures p == q
  {
    hide Parse, Wraps;
    ExactForm(u, s, Parse(u, false).value);
    PayloadUnique(s[Parse(s, true).value.certificate.offset..], p, q);
  }

  /** The payload carries the hash of the unsigned image's content and of the zeros up to the certificate table. */
  ghost predicate Endorses(u: Bytes, s: Bytes, payload: Bytes, hash: Bytes -> Bytes) {
    && Parse(u, false).Ok? && Parse(s, true).Ok? && Hashable(u, Parse(u, false).value)
    && Parse(s, true).value.certificate.offset >= |u|
    && SignedData.Carries(payload, hash(Stream(u, Parse(u, false).value)
                                        + Zeros(Parse(s, true).value.certificate.offset - |u|)))
  }
}
