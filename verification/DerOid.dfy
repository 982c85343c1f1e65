/**
 * Object identifiers in strict DER (mkosi/private/secure_boot.py; section 8.19 of X.690): the reader accepts exactly
 * the minimal base-128 encodings within its limits, and its dotted text determines the bytes.
 */
module DerOid {
  import opened Prelude
  import opened Text
  import opened Bytes
  import opened Der
  import Versions

  const MAX_OID_BYTES := 256
  const MAX_ARCS := 64
  const MAX_PARTIAL := 0x8000_0000_0000_0000

  // ---- Base-128 encoding ----

  /** The continuation bytes that lead to a partial subidentifier. */
  function Continuation(n: nat): Bytes {
    if n == 0 then [] else Continuation(n / 128) + [128 + n % 128]
  }

  function EncodeSub(v: nat): Bytes {
    Continuation(v / 128) + [v % 128]
  }

  function EncodeSubs(subs: seq<nat>): Bytes {
    if subs == [] then [] else EncodeSub(subs[0]) + EncodeSubs(subs[1..])
  }

  /** The limit that the reader puts on a subidentifier before its last byte. */
  predicate WithinLimits(subs: seq<nat>) {
    |subs| <= MAX_ARCS && forall i :: 0 <= i < |subs| ==> subs[i] / 128 <= MAX_PARTIAL
  }

  // ---- Reading ----

  /** The reader's loop over the remaining bytes: subidentifiers so far and the value of the current group. */
  function Scan(data: Bytes, subs: seq<nat>, value: nat, groupStart: bool): Result<seq<nat>, DerError> {
    if data == [] then if groupStart then Ok(subs) else Err(TruncatedOid)
    else
      var byte, rest := data[0], data[1..];
      if groupStart && byte == 0x80 then Err(NonminimalSubidentifier)
      else if value > MAX_PARTIAL then Err(SubidentifierTooLarge)
      else
        var next := value * 128 + byte % 128;
        if byte < 0x80 then
          if |subs| + 1 > MAX_ARCS then Err(TooManyArcs) else Scan(rest, subs + [next], 0, true)
        else Scan(rest, subs, next, false)
  }

  /** One byte of a group that goes on. */
  lemma ScanMore(byte: Byte, rest: Bytes, subs: seq<nat>, value: nat, groupStart: bool)
    requires byte >= 0x80 && value <= MAX_PARTIAL && (groupStart ==> byte != 0x80)
    ensures Scan([byte] + rest, subs, value, groupStart) == Scan(rest, subs, value * 128 + byte % 128, false)
  {
    assert ([byte] + rest)[1..] == rest;
  }

  /** The last byte of a group. */
  lemma ScanLast(byte: Byte, rest: Bytes, subs: seq<nat>, value: nat, groupStart: bool)
    requires byte < 0x80 && value <= MAX_PARTIAL && |subs| < MAX_ARCS
    ensures Scan([byte] + rest, subs, value, groupStart) == Scan(rest, subs + [value * 128 + byte], 0, true)
  {
    assert ([byte] + rest)[1..] == rest;
  }

  lemma ContinuationStep(value: nat, byte: Byte)
    requires byte >= 0x80 && value * 128 + byte % 128 > 0
    ensures Continuation(value * 128 + byte % 128) == Continuation(value) + [byte]
  {
    var next := value * 128 + byte % 128;
    assert next / 128 == value && next % 128 == byte % 128 == byte - 128;
  }

  lemma {:induction false} ScanContinuation(n: nat, rest: Bytes, subs: seq<nat>)
    requires n / 128 <= MAX_PARTIAL
    ensures Scan(Continuation(n) + rest, subs, 0, true) == Scan(rest, subs, n, n == 0)
  {
    hide Scan;
    if n == 0 {
      assert Continuation(n) + rest == rest;
    } else {
      var byte: Byte := 128 + n % 128;
      ContinuationStep(n / 128, byte);
      hide Continuation;
      assert Continuation(n) + rest == Continuation(n / 128) + ([byte] + rest);
      ScanContinuation(n / 128, [byte] + rest, subs);
      ScanMore(byte, rest, subs, n / 128, n / 128 == 0);
    }
  }

  lemma ScanSub(v: nat, rest: Bytes, subs: seq<nat>)
    requires v / 128 <= MAX_PARTIAL && |subs| < MAX_ARCS
    ensures Scan(EncodeSub(v) + rest, subs, 0, true) == Scan(rest, subs + [v], 0, true)
  {
    hide Scan, Continuation;
    var byte: Byte := v % 128;
    assert EncodeSub(v) + rest == Continuation(v / 128) + ([byte] + rest);
    ScanContinuation(v / 128, [byte] + rest, subs);
    ScanLast(byte, rest, subs, v / 128, v / 128 == 0);
  }

  /** Every encoding within the limits is read back. */
  lemma {:induction false} ScanEncoded(subs: seq<nat>, done: seq<nat>)
    requires WithinLimits(done + subs)
    ensures Scan(EncodeSubs(subs), done, 0, true) == Ok(done + subs)
    decreases |subs|
  {
    if subs == [] {
      assert done + subs == done;
    } else {
      assert (done + subs)[|done|] == subs[0];
      ScanSub(subs[0], EncodeSubs(subs[1..]), done);
      assert done + [subs[0]] + subs[1..] == done + subs;
      ScanEncoded(subs[1..], done + [subs[0]]);
    }
  }

  /** What a successful scan passes through at its first byte. */
  lemma ScanFirst(byte: Byte, rest: Bytes, subs: seq<nat>, value: nat, groupStart: bool)
    requires Scan([byte] + rest, subs, value, groupStart).Ok?
    ensures value <= MAX_PARTIAL && (groupStart ==> byte != 0x80) && (byte < 0x80 ==> |subs| < MAX_ARCS)
  {
  }

  /** The data completes the current group and the further ones to the minimal encoding of the list. */
  ghost predicate Completes(data: Bytes, subs: seq<nat>, value: nat, all: seq<nat>) {
    subs <= all && WithinLimits(all) && Continuation(value) + data == EncodeSubs(all[|subs|..])
  }

  /** Whatever is read was a minimal encoding within the limits. */
  lemma {:induction false} ScanIsMinimal(data: Bytes, subs: seq<nat>, value: nat, groupStart: bool)
    requires Scan(data, subs, value, groupStart).Ok? && (groupStart <==> value == 0) && WithinLimits(subs)
    ensures Completes(data, subs, value, Scan(data, subs, value, groupStart).value)
    decreases |data|
  {
    hide Scan, WithinLimits, Completes;
    if data == [] {
      ScanNothing(subs, value, groupStart);
    } else {
      var byte, rest := data[0], data[1..];
      var all := Scan(data, subs, value, groupStart).value;
      assert data == [byte] + rest;
      ScanFirst(byte, rest, subs, value, groupStart);
      if byte < 0x80 {
        var next := value * 128 + byte;
        ScanLast(byte, rest, subs, value, groupStart);
        LimitsGrow(subs, next);
        ScanIsMinimal(rest, subs + [next], 0, true);
        LastCompletes(byte, rest, subs, value, all);
      } else {
        ScanMore(byte, rest, subs, value, groupStart);
        ScanIsMinimal(rest, subs, value * 128 + byte % 128, false);
        MoreCompletes(byte, rest, subs, value, all);
      }
    }
  }

  lemma ScanNothing(subs: seq<nat>, value: nat, groupStart: bool)
    requires Scan([], subs, value, groupStart).Ok? && (groupStart <==> value == 0) && WithinLimits(subs)
    ensures Completes([], subs, value, Scan([], subs, value, groupStart).value)
  {
    assert subs[|subs|..] == [];
  }

  lemma LastCompletes(byte: Byte, rest: Bytes, subs: seq<nat>, value: nat, all: seq<nat>)
    requires byte < 0x80 && Completes(rest, subs + [value * 128 + byte], 0, all)
    ensures Completes([byte] + rest, subs, value, all)
  {
    hide Continuation, EncodeSubs, WithinLimits;
    var longer := subs + [value * 128 + byte];
    assert longer[..|subs|] == subs && all[..|longer|] == longer;
    assert all[|subs|] == longer[|subs|];
    MinimalGroup(byte, rest, value, all, |subs|);
  }

  lemma MoreCompletes(byte: Byte, rest: Bytes, subs: seq<nat>, value: nat, all: seq<nat>)
    requires byte >= 0x80 && value * 128 + byte % 128 > 0 && Completes(rest, subs, value * 128 + byte % 128, all)
    ensures Completes([byte] + rest, subs, value, all)
  {
    hide Continuation, EncodeSubs, WithinLimits;
    ContinuationStep(value, byte);
    assert Continuation(value) + ([byte] + rest) == Continuation(value) + [byte] + rest;
  }

  lemma LimitsGrow(subs: seq<nat>, next: nat)
    requires WithinLimits(subs) && |subs| < MAX_ARCS && next / 128 <= MAX_PARTIAL
    ensures WithinLimits(subs + [next])
  {
  }

  lemma FirstSub(all: seq<nat>, k: nat)
    requires k < |all|
    ensures EncodeSubs(all[k..]) == EncodeSub(all[k]) + EncodeSubs(all[k + 1..])
  {
    hide EncodeSub;
    assert all[k..][0] == all[k] && all[k..][1..] == all[k + 1..];
  }

  lemma NothingContinued()
    ensures Continuation(0) == []
  {
  }

  lemma MinimalGroup(byte: Byte, rest: Bytes, value: nat, all: seq<nat>, k: nat)
    requires byte < 0x80 && k < |all| && all[k] == value * 128 + byte
    requires Continuation(0) + rest == EncodeSubs(all[k + 1..])
    ensures Continuation(value) + ([byte] + rest) == EncodeSubs(all[k..])
  {
    hide Continuation, EncodeSubs;
    FirstSub(all, k);
    NothingContinued();
    assert [] + rest == rest;
    assert all[k] / 128 == value && all[k] % 128 == byte;
    assert EncodeSub(all[k]) + rest == Continuation(value) + ([byte] + rest);
  }

  // ---- Dotted text ----

  function Decimal(n: nat): string {
    if n < 10 then [('0' as int + n) as char] else Decimal(n / 10) + [('0' as int + n % 10) as char]
  }

  lemma {:induction false} DecimalValue(n: nat)
    ensures Versions.AllDigits(Decimal(n)) && Versions.Value(Decimal(n)) == n
    ensures Free(Decimal(n), '.')
  {
    if n < 10 {
      assert Decimal(n)[..0] == "";
    } else {
      DecimalValue(n / 10);
      Versions.ValueSnoc(Decimal(n / 10), ('0' as int + n % 10) as char);
    }
  }

  function Decimals(arcs: seq<nat>): (r: seq<string>)
    ensures |r| == |arcs|
  {
    seq(|arcs|, i requires 0 <= i < |arcs| => Decimal(arcs[i]))
  }

  function Dotted(arcs: seq<nat>): string {
    Join(Decimals(arcs), '.')
  }

  lemma DottedInjective(a: seq<nat>, b: seq<nat>)
    requires a != [] && b != [] && Dotted(a) == Dotted(b)
    ensures a == b
  {
    forall n: nat ensures Free(Decimal(n), '.') {
      DecimalValue(n);
    }
    SplitJoin(Decimals(a), '.');
    SplitJoin(Decimals(b), '.');
    assert Decimals(a) == Decimals(b);
    forall i | 0 <= i < |a| ensures a[i] == b[i] {
      assert Decimals(a)[i] == Decimals(b)[i];
      DecimalValue(a[i]);
      DecimalValue(b[i]);
    }
  }

  /** The first subidentifier holds the first two arcs. */
  function Arcs(subs: seq<nat>): seq<nat>
    requires subs != []
  {
    var first := subs[0];
    (if first < 40 then [0, first] else if first < 80 then [1, first - 40] else [2, first - 80]) + subs[1..]
  }

  lemma ArcsInjective(a: seq<nat>, b: seq<nat>)
    requires a != [] && b != [] && Arcs(a) == Arcs(b)
    ensures a == b
  {
    assert Arcs(a)[0] == Arcs(b)[0] && Arcs(a)[1] == Arcs(b)[1];
    assert Arcs(a)[2..] == a[1..] && Arcs(b)[2..] == b[1..];
    assert a == [a[0]] + a[1..] && b == [b[0]] + b[1..];
  }

  /** The identifier has the dotted text: it is the minimal encoding of subidentifiers within the limits. */
  ghost predicate HasText(value: Bytes, text: string) {
    exists subs :: subs != [] && WithinLimits(subs) && value == EncodeSubs(subs) && text == Dotted(Arcs(subs))
  }

  /** Equal dotted texts mean equal bytes. */
  lemma OidIsInjective(a: Bytes, b: Bytes, text: string)
    requires HasText(a, text) && HasText(b, text)
    ensures a == b
  {
    var x :| x != [] && WithinLimits(x) && a == EncodeSubs(x) && text == Dotted(Arcs(x));
    var y :| y != [] && WithinLimits(y) && b == EncodeSubs(y) && text == Dotted(Arcs(y));
    DottedInjective(Arcs(x), Arcs(y));
    ArcsInjective(x, y);
  }

  /** An identifier has at most one text. */
  lemma TextUnique(value: Bytes, a: string, b: string)
    requires HasText(value, a) && HasText(value, b)
    ensures a == b
  {
    var x :| x != [] && WithinLimits(x) && value == EncodeSubs(x) && a == Dotted(Arcs(x));
    var y :| y != [] && WithinLimits(y) && value == EncodeSubs(y) && b == Dotted(Arcs(y));
    hide WithinLimits, EncodeSubs, Scan, Dotted;
    assert [] + x == x && [] + y == y;
    ScanEncoded(x, []);
    ScanEncoded(y, []);
  }

  /**
   * `der_oid`: accepts exactly the object identifiers of up to 256 bytes that are minimal encodings within the
   * limits, and returns their dotted text.
   */
  method Oid(item: Item) returns (r: Result<string, DerError>)
    ensures r.Ok? ==> item.tag == 0x06 && HasText(item.value, r.value)
    ensures r.Ok? <==> && item.tag == 0x06 && 1 <= |item.value| <= MAX_OID_BYTES
                       && exists text :: HasText(item.value, text)
  {
    if item.tag != 0x06 || item.value == [] || |item.value| > MAX_OID_BYTES {
      return Err(NotOid);
    }
    Completeness(item.value);
    var subs: seq<nat> := [];
    var value: nat := 0;
    var groupStart := true;
    assert item.value[0..] == item.value;
    for i := 0 to |item.value|
      invariant Scan(item.value, [], 0, true) == Scan(item.value[i..], subs, value, groupStart)
    {
      hide HasText;
      var byte := item.value[i];
      assert item.value[i..][0] == byte && item.value[i..][1..] == item.value[i + 1..];
      if groupStart && byte == 0x80 {
        return Err(NonminimalSubidentifier);
      }
      if value > MAX_PARTIAL {
        return Err(SubidentifierTooLarge);
      }
      value := value * 128 + byte % 128;
      if byte < 0x80 {
        subs := subs + [value];
        if |subs| > MAX_ARCS {
          return Err(TooManyArcs);
        }
        value, groupStart := 0, true;
      } else {
        groupStart := false;
      }
    }
    if !groupStart {
      return Err(TruncatedOid);
    }
    Soundness(item.value, subs);
    var first := subs[0];
    var values := (if first < 40 then [0, first] else if first < 80 then [1, first - 40] else [2, first - 80]) + subs[1..];
    return Ok(Dotted(values));
  }

  lemma Completeness(value: Bytes)
    ensures (exists text :: HasText(value, text)) ==> Scan(value, [], 0, true).Ok?
  {
    if text :| HasText(value, text) {
      var subs :| subs != [] && WithinLimits(subs) && value == EncodeSubs(subs) && text == Dotted(Arcs(subs));
      assert [] + subs == subs;
      ScanEncoded(subs, []);
    }
  }

  lemma Soundness(value: Bytes, subs: seq<nat>)
    requires value != [] && Scan(value, [], 0, true) == Ok(subs)
    ensures subs != [] && HasText(value, Dotted(Arcs(subs)))
  {
    hide Scan;
    ScanIsMinimal(value, [], 0, true);
    NothingContinued();
    assert [] + value == value && subs[0..] == subs;
    assert subs != [];
  }
}
