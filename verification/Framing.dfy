/**
 * Self-delimiting formats: a reader takes one item off the front of the data. When reading is local, splitting a byte
 * string into items is exact and unambiguous.
 */
module Framing {
  import opened Prelude
  import opened Bytes

  /** An item and the number of bytes that it takes. */
  type Reader<T> = Bytes -> Option<(T, nat)>

  /** The piece is read as the item, whatever follows it. */
  ghost predicate Codes<T(!new)>(read: Reader<T>, piece: Bytes, item: T) {
    piece != [] && forall rest :: read(piece + rest) == Some((item, |piece|))
  }

  /** A reader that makes progress, stays inside the data and looks at nothing after its item. */
  ghost predicate Local<T(!new)>(read: Reader<T>) {
    forall data :: read(data).Some? ==>
      0 < read(data).value.1 <= |data| && Codes(read, data[..read(data).value.1], read(data).value.0)
  }

  function ParseAll<T>(read: Reader<T>, data: Bytes): Option<seq<T>>
    decreases |data|
  {
    if data == [] then Some([])
    else
      var first := read(data);
      if first.None? || first.value.1 == 0 || first.value.1 > |data| then None
      else
        var rest := ParseAll(read, data[first.value.1..]);
        if rest.None? then None else Some([first.value.0] + rest.value)
  }

  function Concat(pieces: seq<Bytes>): Bytes {
    if pieces == [] then [] else pieces[0] + Concat(pieces[1..])
  }

  /** The data is one piece after another, each coding its item. */
  ghost predicate Tiled<T(!new)>(read: Reader<T>, data: Bytes, pieces: seq<Bytes>, items: seq<T>) {
    && |pieces| == |items| && Concat(pieces) == data
    && forall i :: 0 <= i < |pieces| ==> Codes(read, pieces[i], items[i])
  }

  lemma {:induction false} ParseTiled<T(!new)>(read: Reader<T>, data: Bytes, pieces: seq<Bytes>, items: seq<T>)
    requires Tiled(read, data, pieces, items)
    ensures ParseAll(read, data) == Some(items)
    decreases |pieces|
  {
    if pieces != [] {
      var rest := Concat(pieces[1..]);
      assert Codes(read, pieces[0], items[0]);
      assert data == pieces[0] + rest && data[|pieces[0]|..] == rest;
      ParseTiled(read, rest, pieces[1..], items[1..]);
      assert items == [items[0]] + items[1..];
    }
  }

  lemma {:induction false} ParsedIsTiled<T(!new)>(read: Reader<T>, data: Bytes) returns (pieces: seq<Bytes>)
    requires Local(read) && ParseAll(read, data).Some?
    ensures Tiled(read, data, pieces, ParseAll(read, data).value)
    decreases |data|
  {
    if data == [] {
      pieces := [];
    } else {
      var (item, n) := read(data).value;
      var tail := ParsedIsTiled(read, data[n..]);
      pieces := [data[..n]] + tail;
      assert data == data[..n] + data[n..] && pieces[1..] == tail;
    }
  }

  /** Splitting succeeds exactly on tilings, and the items of a tiling are unique. */
  lemma ParseExact<T(!new)>(read: Reader<T>, data: Bytes, items: seq<T>)
    requires Local(read)
    ensures ParseAll(read, data) == Some(items) <==> exists pieces :: Tiled(read, data, pieces, items)
  {
    if ParseAll(read, data) == Some(items) {
      var pieces := ParsedIsTiled(read, data);
    }
    if pieces :| Tiled(read, data, pieces, items) {
      ParseTiled(read, data, pieces, items);
    }
  }

  /** One turn of a parsing loop. */
  lemma ParseStep<T>(read: Reader<T>, data: Bytes, offset: nat, done: seq<T>)
    requires offset < |data| && read(data[offset..]).Some?
    requires 0 < read(data[offset..]).value.1 <= |data| - offset
    ensures var (item, n) := read(data[offset..]).value;
            Prepended(done, ParseAll(read, data[offset..]))
            == Prepended(done + [item], ParseAll(read, data[offset + n..]))
  {
    var (item, n) := read(data[offset..]).value;
    assert data[offset..][n..] == data[offset + n..];
    var rest := ParseAll(read, data[offset + n..]);
    if rest.Some? {
      assert done + ([item] + rest.value) == (done + [item]) + rest.value;
    }
  }

  function Prepended<T>(done: seq<T>, rest: Option<seq<T>>): Option<seq<T>> {
    if rest.None? then None else Some(done + rest.value)
  }

  lemma PrependNothing<T>(rest: Option<seq<T>>)
    ensures Prepended([], rest) == rest
  {
    if rest.Some? {
      assert [] + rest.value == rest.value;
    }
  }
}
