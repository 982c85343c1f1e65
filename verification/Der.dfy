/**
 * Strict DER (mkosi/private/secure_boot.py and mkosi/private/secure_boot_signer.py; section 10.1 of X.690): the
 * reader accepts exactly the encoder's output, and children tile their parent in one way.
 */
module Der {
  import opened Prelude
  import opened Bytes

  const MAX_DER_BYTES := 0x100_0000
  const MAX_DER_DEPTH := 32
  const MAX_DER_CHILDREN := 4096

  datatype DerError =
    | ResourceLimit
    | Truncated
    | IndefiniteLength
    | InvalidLength
    | NonminimalLength
    | OutOfBounds
    | TooDeep
    | TooManyChildren
    | NotOid
    | NonminimalSubidentifier
    | SubidentifierTooLarge
    | TooManyArcs
    | TruncatedOid

  // ---- Big-endian integers ----

  function FromBE(s: Bytes): nat {
    if s == [] then 0 else FromBE(s[..|s| - 1]) * 256 + s[|s| - 1]
  }

  /** The shortest big-endian form; zero has none. */
  function ToBE(n: nat): Bytes {
    if n == 0 then [] else ToBE(n / 256) + [n % 256]
  }

  lemma {:induction false} FromToBE(n: nat)
    ensures FromBE(ToBE(n)) == n
    ensures n > 0 ==> ToBE(n) != [] && ToBE(n)[0] != 0
  {
    if n > 0 {
      FromToBE(n / 256);
      var s := ToBE(n);
      assert s[..|s| - 1] == ToBE(n / 256);
    }
  }

  /** A form without a leading zero is the shortest one. */
  lemma {:induction false} ToFromBE(s: Bytes)
    requires s == [] || s[0] != 0
    ensures ToBE(FromBE(s)) == s
    ensures s != [] ==> FromBE(s) > 0
  {
    if s != [] {
      var front, last := s[..|s| - 1], s[|s| - 1];
      ToFromBE(front);
      assert s == front + [last];
      assert front == [] ==> FromBE(front) == 0;
      assert FromBE(s) == FromBE(front) * 256 + last;
      hide FromBE, ToBE;
      ToBEStep(FromBE(front), last);
    }
  }

  lemma ToBEStep(n: nat, last: Byte)
    requires n > 0 || last > 0
    ensures ToBE(n * 256 + last) == ToBE(n) + [last]
  {
    assert (n * 256 + last) / 256 == n && (n * 256 + last) % 256 == last;
  }

  lemma {:induction false} ToBELength(n: nat, k: nat)
    requires n < Power256(k)
    ensures |ToBE(n)| <= k
  {
    if n > 0 {
      ToBELength(n / 256, k - 1);
    }
  }

  function Power256(k: nat): nat {
    if k == 0 then 1 else 256 * Power256(k - 1)
  }

  // ---- Objects ----

  datatype Item = Item(tag: Byte, value: Bytes, depth: nat)

  /** `_encode_der`. */
  function Encode(tag: Byte, value: Bytes): (r: Bytes)
    requires |ToBE(|value|)| < 128
    ensures |r| >= 2 + |value|
  {
    if |value| < 0x80 then [tag, |value|] + value
    else [tag, 0x80 + |ToBE(|value|)|] + ToBE(|value|) + value
  }

  /** `der_read`. */
  function Read(data: Bytes, offset: nat, depth: nat): Result<(Item, nat), DerError> {
    if |data| > MAX_DER_BYTES || depth > MAX_DER_DEPTH then Err(ResourceLimit)
    else if offset + 2 > |data| then Err(Truncated)
    else
      var tag, first, cursor := data[offset], data[offset + 1], offset + 2;
      if first < 0x80 then
        if cursor + first > |data| then Err(OutOfBounds)
        else Ok((Item(tag, data[cursor..cursor + first], depth), cursor + first))
      else
        var count := first - 0x80;
        if count == 0 then Err(IndefiniteLength)
        else if count > 4 || cursor + count > |data| then Err(InvalidLength)
        else if data[cursor] == 0 then Err(NonminimalLength)
        else
          var length := FromBE(data[cursor..cursor + count]);
          if length < 128 || count != |ToBE(length)| then Err(NonminimalLength)
          else if cursor + count + length > |data| then Err(OutOfBounds)
          else Ok((Item(tag, data[cursor + count..cursor + count + length], depth), cursor + count + length))
  }

  lemma SmallLength(n: nat)
    requires n <= MAX_DER_BYTES
    ensures |ToBE(n)| <= 4
  {
    assert Power256(4) == 0x1_0000_0000;
    ToBELength(n, 4);
  }

  /** Every accepted object re-encodes to the bytes read, so the length form is unique. */
  lemma ReadIsCanonical(data: Bytes, offset: nat, depth: nat)
    requires Read(data, offset, depth).Ok?
    ensures var (item, end) := Read(data, offset, depth).value;
            && |ToBE(|item.value|)| < 128 && item.depth == depth
            && offset + 2 <= end <= |data| && data[offset..end] == Encode(item.tag, item.value)
  {
    hide ToBE, FromBE;
    if data[offset + 1] >= 0x80 {
      ReadLongCanonical(data, offset, depth);
    } else {
      ReadShortCanonical(data, offset, depth);
    }
  }

  lemma ReadShortCanonical(data: Bytes, offset: nat, depth: nat)
    requires Read(data, offset, depth).Ok? && data[offset + 1] < 0x80
    ensures var (item, end) := Read(data, offset, depth).value;
            && |ToBE(|item.value|)| < 128 && item.depth == depth
            && offset + 2 <= end <= |data| && data[offset..end] == Encode(item.tag, item.value)
  {
    hide ToBE, FromBE;
    var (item, end) := Read(data, offset, depth).value;
    SmallLength(|item.value|);
    assert data[offset..end] == [data[offset], data[offset + 1]] + item.value;
  }

  lemma ReadLongCanonical(data: Bytes, offset: nat, depth: nat)
    requires Read(data, offset, depth).Ok? && data[offset + 1] >= 0x80
    ensures var (item, end) := Read(data, offset, depth).value;
            && |ToBE(|item.value|)| < 128 && item.depth == depth
            && offset + 2 <= end <= |data| && data[offset..end] == Encode(item.tag, item.value)
  {
    hide ToBE, FromBE;
    var (item, end) := Read(data, offset, depth).value;
    SmallLength(|item.value|);
    var count := data[offset + 1] - 0x80;
    var raw := data[offset + 2..offset + 2 + count];
    ToFromBE(raw);
    assert data[offset..end] == [data[offset], data[offset + 1]] + raw + item.value;
  }

  /** Reading an encoded object, with anything before and after it, gives the object back. */
  lemma ReadEncoded(before: Bytes, tag: Byte, value: Bytes, after: Bytes, depth: nat)
    requires |ToBE(|value|)| < 128
    requires |before + Encode(tag, value) + after| <= MAX_DER_BYTES && depth <= MAX_DER_DEPTH
    ensures Read(before + Encode(tag, value) + after, |before|, depth)
            == Ok((Item(tag, value, depth), |before| + |Encode(tag, value)|))
  {
    hide *;
    SmallLength(|value|);
    FromToBE(|value|);
    var raw := if |value| < 0x80 then [] else ToBE(|value|);
    var head: Bytes := [tag, if |value| < 0x80 then |value| else 0x80 + |raw|];
    EncodeParts(tag, value);
    Framed(before, head, raw, value, after);
    ReadFramed(before + Encode(tag, value) + after, |before|, tag, raw, value, depth);
  }

  lemma EncodeParts(tag: Byte, value: Bytes)
    requires |ToBE(|value|)| < 128
    ensures var raw := if |value| < 0x80 then [] else ToBE(|value|);
            Encode(tag, value) == [tag, if |value| < 0x80 then |value| else 0x80 + |raw|] + raw + value
  {
    hide ToBE;
  }

  /** Reading a head, a length and a value that lie one after the other. */
  lemma ReadFramed(data: Bytes, at: nat, tag: Byte, raw: Bytes, value: Bytes, depth: nat)
    requires |data| <= MAX_DER_BYTES && depth <= MAX_DER_DEPTH
    requires at + 2 + |raw| + |value| <= |data| && |raw| <= 4
    requires raw == (if |value| < 0x80 then [] else ToBE(|value|)) && (raw != [] ==> raw[0] != 0)
    requires raw == [] <==> |value| < 0x80
    requires raw != [] ==> FromBE(raw) == |value|
    requires data[at] == tag && data[at + 1] == (if raw == [] then |value| else 0x80 + |raw|)
    requires data[at + 2..at + 2 + |raw|] == raw && (raw != [] ==> data[at + 2] == raw[0])
    requires data[at + 2 + |raw|..at + 2 + |raw| + |value|] == value
    ensures Read(data, at, depth) == Ok((Item(tag, value, depth), at + 2 + |raw| + |value|))
  {
    if raw == [] {
      ReadShort(data, at, value, depth);
    } else {
      ReadLong(data, at, raw, value, depth);
    }
  }

  lemma ReadShort(data: Bytes, at: nat, value: Bytes, depth: nat)
    requires |data| <= MAX_DER_BYTES && depth <= MAX_DER_DEPTH
    requires at + 2 + |value| <= |data| && data[at + 1] == |value| < 0x80
    requires data[at + 2..at + 2 + |value|] == value
    ensures Read(data, at, depth) == Ok((Item(data[at], value, depth), at + 2 + |value|))
  {
    hide ToBE, FromBE;
  }

  lemma ReadLong(data: Bytes, at: nat, raw: Bytes, value: Bytes, depth: nat)
    requires |data| <= MAX_DER_BYTES && depth <= MAX_DER_DEPTH
    requires at + 2 + |raw| + |value| <= |data| && 0 < |raw| <= 4
    requires raw == ToBE(|value|) && |value| >= 0x80 && raw[0] != 0 && FromBE(raw) == |value|
    requires data[at + 1] == 0x80 + |raw| && data[at + 2] == raw[0]
    requires data[at + 2..at + 2 + |raw|] == raw
    requires data[at + 2 + |raw|..at + 2 + |raw| + |value|] == value
    ensures Read(data, at, depth) == Ok((Item(data[at], value, depth), at + 2 + |raw| + |value|))
  {
    hide ToBE, FromBE;
    var count: nat := data[at + 1] - 0x80;
    assert count == |raw|;
    assert FromBE(data[at + 2..at + 2 + count]) == |value|;
  }

  lemma Framed(before: Bytes, head: Bytes, raw: Bytes, value: Bytes, after: Bytes)
    requires |head| == 2
    ensures var data, at := before + (head + raw + value) + after, |before| + 2;
            && data[|before|] == head[0] && data[|before| + 1] == head[1]
            && data[at..at + |raw|] == raw && (raw != [] ==> data[at] == raw[0])
            && data[at + |raw|..at + |raw| + |value|] == value
            && |before| + |head + raw + value| == at + |raw| + |value| <= |data|
  {
    var data, at := before + (head + raw + value) + after, |before| + 2;
    assert data[|before|..|before| + |head + raw + value|] == head + raw + value;
    assert data[at..at + |raw|] == raw;
    assert data[at + |raw|..at + |raw| + |value|] == value;
  }

  /** The two encodings of one value under different tags differ in their first byte only. */
  lemma RetagChangesOneByte(tag: Byte, other: Byte, value: Bytes)
    requires |ToBE(|value|)| < 128
    ensures Encode(other, value) == [other] + Encode(tag, value)[1..]
  {
  }

  // ---- Children ----

  ghost predicate Encodable(items: seq<Item>) {
    forall i :: 0 <= i < |items| ==> |ToBE(|items[i].value|)| < 128
  }

  ghost function EncodeAll(items: seq<Item>): Bytes
    requires Encodable(items)
  {
    if items == [] then []
    else EncodeAll(items[..|items| - 1]) + Encode(items[|items| - 1].tag, items[|items| - 1].value)
  }

  /** The items tile the value: their encodings, one after the other, are exactly its bytes. */
  ghost predicate Tiles(items: seq<Item>, value: Bytes, depth: nat) {
    Encodable(items) && EncodeAll(items) == value && forall i :: 0 <= i < |items| ==> items[i].depth == depth
  }

  /** A tiling of an item's value one level deeper. */
  ghost predicate AreChildren(items: seq<Item>, item: Item) {
    Tiles(items, item.value, item.depth + 1)
  }

  lemma EncodeAllSnoc(items: seq<Item>, item: Item)
    requires Encodable(items) && |ToBE(|item.value|)| < 128
    ensures Encodable(items + [item])
    ensures EncodeAll(items + [item]) == EncodeAll(items) + Encode(item.tag, item.value)
  {
    assert (items + [item])[..|items|] == items;
  }

  lemma {:induction false} EncodeAllSplit(items: seq<Item>, k: nat)
    requires Encodable(items) && k < |items|
    ensures Encodable(items[..k]) && Encodable(items[k + 1..])
    ensures EncodeAll(items)
            == EncodeAll(items[..k]) + Encode(items[k].tag, items[k].value) + EncodeAll(items[k + 1..])
  {
    hide Encode, ToBE, EncodeAll;
    var n := |items| - 1;
    var front, last := items[..n], items[n];
    assert items == front + [last];
    EncodeAllSnoc(front, last);
    if k == n {
      assert items[k + 1..] == [];
      EncodeAllEmpty();
    } else {
      EncodeAllSplit(front, k);
      assert front[..k] == items[..k] && items[k + 1..] == front[k + 1..] + [last];
      EncodeAllSnoc(front[k + 1..], last);
      var a, b, c := EncodeAll(items[..k]), Encode(items[k].tag, items[k].value), EncodeAll(front[k + 1..]);
      var d := Encode(last.tag, last.value);
      assert a + b + c + d == a + b + (c + d);
    }
  }

  lemma EncodeAllEmpty()
    ensures EncodeAll([]) == []
  {
  }

  /** Along any tiling of the value, the reader finds the next item at the next boundary. */
  lemma TilingStep(items: seq<Item>, value: Bytes, depth: nat, k: nat)
    requires Tiles(items, value, depth) && k < |items| && |value| <= MAX_DER_BYTES && depth <= MAX_DER_DEPTH
    ensures Encodable(items[..k]) && Encodable(items[..k + 1])
    ensures |EncodeAll(items[..k])| < |value|
    ensures Read(value, |EncodeAll(items[..k])|, depth) == Ok((items[k], |EncodeAll(items[..k + 1])|))
  {
    hide Encode, EncodeAll, Read, ToBE;
    EncodeAllSplit(items, k);
    var before, after := EncodeAll(items[..k]), EncodeAll(items[k + 1..]);
    assert items[..k + 1] == items[..k] + [items[k]];
    EncodeAllSnoc(items[..k], items[k]);
    ReadEncoded(before, items[k].tag, items[k].value, after, depth);
  }

  lemma {:induction false} TilingPrefix(a: seq<Item>, b: seq<Item>, value: Bytes, depth: nat, k: nat)
    requires Tiles(a, value, depth) && Tiles(b, value, depth) && |value| <= MAX_DER_BYTES && depth <= MAX_DER_DEPTH
    requires k <= |a|
    ensures k <= |b| && a[..k] == b[..k]
  {
    hide Read, EncodeAll, Encode, ToBE;
    if k > 0 {
      TilingPrefix(a, b, value, depth, k - 1);
      TilingStep(a, value, depth, k - 1);
      assert b[..|b|] == b;
      TilingStep(b, value, depth, k - 1);
      assert a[..k] == a[..k - 1] + [a[k - 1]] && b[..k] == b[..k - 1] + [b[k - 1]];
    }
  }

  /** A value has at most one tiling. */
  lemma TilingUnique(a: seq<Item>, b: seq<Item>, value: Bytes, depth: nat)
    requires Tiles(a, value, depth) && Tiles(b, value, depth) && |value| <= MAX_DER_BYTES && depth <= MAX_DER_DEPTH
    ensures a == b
  {
    hide Tiles;
    TilingPrefix(a, b, value, depth, |a|);
    TilingPrefix(b, a, value, depth, |b|);
    assert a[..|a|] == a && b[..|b|] == b;
  }

  /**
   * `Der.children`: returns the one tiling of the value, and fails exactly when there is none within the limits.
   * Every step consumes at least two bytes.
   */
  method Children(item: Item) returns (r: Result<seq<Item>, DerError>)
    ensures r.Ok? ==> AreChildren(r.value, item) && |r.value| <= MAX_DER_CHILDREN
    ensures r.Ok? <==> && item.depth < MAX_DER_DEPTH && (item.value == [] || |item.value| <= MAX_DER_BYTES)
                       && exists items :: AreChildren(items, item) && |items| <= MAX_DER_CHILDREN
  {
    if item.depth >= MAX_DER_DEPTH {
      return Err(TooDeep);
    }
    var result: seq<Item> := [];
    var cursor: nat := 0;
    while cursor < |item.value|
      invariant TiledTo(item, result, cursor)
      invariant |result| <= MAX_DER_CHILDREN
      decreases |item.value| - cursor
    {
      hide TiledTo, AreChildren, Read;
      TiledBound(item, result, cursor);
      if |result| >= MAX_DER_CHILDREN {
        NotTiled(item, result, cursor);
        return Err(TooManyChildren);
      }
      var read := Read(item.value, cursor, item.depth + 1);
      if read.Err? {
        NotTiled(item, result, cursor);
        return Err(read.error);
      }
      TiledStep(item, result, cursor);
      result := result + [read.value.0];
      cursor := read.value.1;
    }
    TiledDone(item, result, cursor);
    return Ok(result);
  }

  /** The items read so far tile the value up to the cursor, and every tiling starts with them. */
  ghost predicate TiledTo(item: Item, result: seq<Item>, cursor: nat) {
    && cursor <= |item.value| && Tiles(result, item.value[..cursor], item.depth + 1)
    && (cursor > 0 ==> |item.value| <= MAX_DER_BYTES)
    && (forall items :: AreChildren(items, item) && |item.value| <= MAX_DER_BYTES ==> result <= items)
  }

  lemma TiledBound(item: Item, result: seq<Item>, cursor: nat)
    requires TiledTo(item, result, cursor)
    ensures cursor <= |item.value|
  {
    hide Tiles;
  }

  lemma NextOfTiling(item: Item, result: seq<Item>, cursor: nat, items: seq<Item>)
    requires TiledTo(item, result, cursor) && cursor < |item.value| && |item.value| <= MAX_DER_BYTES
    requires AreChildren(items, item) && item.depth < MAX_DER_DEPTH
    ensures |result| < |items| && Read(item.value, cursor, item.depth + 1).Ok?
    ensures items[|result|] == Read(item.value, cursor, item.depth + 1).value.0
  {
    hide Read, EncodeAll;
    assert result <= items && (|items| == |result| ==> items == result);
    assert |EncodeAll(result)| == cursor && EncodeAll(items) == item.value;
    assert items[..|result|] == result;
    TilingStep(items, item.value, item.depth + 1, |result|);
  }

  lemma NotTiled(item: Item, result: seq<Item>, cursor: nat)
    requires TiledTo(item, result, cursor) && cursor < |item.value| && item.depth < MAX_DER_DEPTH
    requires |result| >= MAX_DER_CHILDREN || Read(item.value, cursor, item.depth + 1).Err?
    ensures !(&& (item.value == [] || |item.value| <= MAX_DER_BYTES)
              && exists items :: AreChildren(items, item) && |items| <= MAX_DER_CHILDREN)
  {
    hide Read, AreChildren, TiledTo;
    if |item.value| <= MAX_DER_BYTES {
      forall items | AreChildren(items, item) ensures |items| > MAX_DER_CHILDREN {
        NextOfTiling(item, result, cursor, items);
      }
    }
  }

  lemma TiledStep(item: Item, result: seq<Item>, cursor: nat)
    requires TiledTo(item, result, cursor) && cursor < |item.value| && item.depth < MAX_DER_DEPTH
    requires Read(item.value, cursor, item.depth + 1).Ok?
    ensures var (next, end) := Read(item.value, cursor, item.depth + 1).value;
            cursor < end && TiledTo(item, result + [next], end)
  {
    hide Read, Encode, EncodeAll, ToBE;
    var (next, end) := Read(item.value, cursor, item.depth + 1).value;
    ReadIsCanonical(item.value, cursor, item.depth + 1);
    WithinLimit(item.value, cursor, item.depth + 1);
    GrowTiling(result, next, item.value, cursor, end, item.depth + 1);
    forall items | AreChildren(items, item) ensures result + [next] <= items {
      NextOfTiling(item, result, cursor, items);
    }
  }

  lemma GrowTiling(result: seq<Item>, next: Item, value: Bytes, cursor: nat, end: nat, depth: nat)
    requires cursor <= end <= |value| && Tiles(result, value[..cursor], depth)
    requires |ToBE(|next.value|)| < 128 && next.depth == depth && value[cursor..end] == Encode(next.tag, next.value)
    ensures Tiles(result + [next], value[..end], depth)
  {
    hide Encode, EncodeAll, ToBE;
    EncodeAllSnoc(result, next);
    assert value[..end] == value[..cursor] + value[cursor..end];
  }

  lemma WithinLimit(data: Bytes, offset: nat, depth: nat)
    requires Read(data, offset, depth).Ok?
    ensures |data| <= MAX_DER_BYTES
  {
  }

  lemma TiledDone(item: Item, result: seq<Item>, cursor: nat)
    requires TiledTo(item, result, cursor) && cursor >= |item.value|
    ensures AreChildren(result, item) && (item.value == [] || |item.value| <= MAX_DER_BYTES)
  {
    assert item.value[..cursor] == item.value;
  }
}
