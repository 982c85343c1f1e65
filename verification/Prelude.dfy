/** Result and option types, and the text and ordering helpers that every component shares. */
module Prelude {

  datatype Option<+T> = None | Some(value: T)

  datatype Result<+T, +E> = Ok(value: T) | Err(error: E)

  ghost predicate Distinct<T>(s: seq<T>) {
    forall i, j :: 0 <= i < j < |s| ==> s[i] != s[j]
  }

  function Elements<T>(s: seq<T>): set<T> {
    set x | x in s
  }

  /** A slice of a slice. */
  lemma SubSlice<T>(s: seq<T>, start: nat, end: nat, i: nat, j: nat)
    requires start <= end <= |s| && i <= j <= end - start
    ensures s[start..end][i..j] == s[start + i..start + j]
  {
    var inner, outer := s[start..end][i..j], s[start + i..start + j];
    assert |inner| == |outer| && forall k :: 0 <= k < |inner| ==> inner[k] == outer[k];
  }

  /** A list without repetitions drawn from a finite set is no longer than the set. */
  lemma {:induction false} DistinctBound<T>(s: seq<T>, bound: set<T>)
    requires Distinct(s)
    requires forall i :: 0 <= i < |s| ==> s[i] in bound
    ensures |s| <= |bound|
  {
    if s != [] {
      var last := |s| - 1;
      assert forall i :: 0 <= i < last ==> s[..last][i] == s[i];
      DistinctBound(s[..last], bound - {s[last]});
    }
  }
}

/** Separator-delimited text, with the behaviour of `str.split` and `str.join`. */
module Text {

  function Split(s: string, sep: char): (parts: seq<string>)
    ensures |parts| >= 1
  {
    if s == [] then [[]]
    else if s[0] == sep then [[]] + Split(s[1..], sep)
    else var rest := Split(s[1..], sep); [[s[0]] + rest[0]] + rest[1..]
  }

  function Join(parts: seq<string>, sep: char): string {
    if parts == [] then ""
    else if |parts| == 1 then parts[0]
    else parts[0] + [sep] + Join(parts[1..], sep)
  }

  predicate Free(s: string, sep: char) {
    forall i :: 0 <= i < |s| ==> s[i] != sep
  }

  predicate AllFree(parts: seq<string>, sep: char) {
    forall i :: 0 <= i < |parts| ==> Free(parts[i], sep)
  }

  lemma {:induction false} SplitIsFree(s: string, sep: char)
    ensures AllFree(Split(s, sep), sep)
  {
    if s != [] {
      SplitIsFree(s[1..], sep);
    }
  }

  lemma {:induction false} SplitFree(s: string, sep: char)
    requires Free(s, sep)
    ensures Split(s, sep) == [s]
  {
    if s != [] {
      SplitFree(s[1..], sep);
      assert [s[0]] + s[1..] == s;
    }
  }

  lemma {:induction false} SplitConcat(a: string, b: string, sep: char)
    requires Free(a, sep)
    ensures Split(a + [sep] + b, sep) == [a] + Split(b, sep)
  {
    if a == [] {
      assert (a + [sep] + b)[1..] == b;
    } else {
      assert (a + [sep] + b)[1..] == a[1..] + [sep] + b;
      SplitConcat(a[1..], b, sep);
      assert [a[0]] + a[1..] == a;
    }
  }

  /** Splitting undoes joining when no part holds the separator. */
  lemma {:induction false} SplitJoin(parts: seq<string>, sep: char)
    requires parts != [] && AllFree(parts, sep)
    ensures Split(Join(parts, sep), sep) == parts
  {
    if |parts| == 1 {
      SplitFree(parts[0], sep);
    } else {
      SplitJoin(parts[1..], sep);
      SplitConcat(parts[0], Join(parts[1..], sep), sep);
    }
  }

  /** Joining undoes splitting. */
  lemma {:induction false} JoinSplit(s: string, sep: char)
    ensures Join(Split(s, sep), sep) == s
  {
    if s != [] {
      JoinSplit(s[1..], sep);
      var rest := Split(s[1..], sep);
      if s[0] == sep {
        assert ([[]] + rest)[1..] == rest;
        assert s == [] + [sep] + s[1..];
      } else {
        assert ([[s[0]] + rest[0]] + rest[1..])[1..] == rest[1..];
        assert s == [s[0]] + s[1..];
        if |rest| > 1 {
          assert [s[0]] + (rest[0] + [sep] + Join(rest[1..], sep)) == [s[0]] + rest[0] + [sep] + Join(rest[1..], sep);
        }
      }
    }
  }

  lemma {:induction false} JoinSnoc(parts: seq<string>, last: string, sep: char)
    requires parts != []
    ensures Join(parts + [last], sep) == Join(parts, sep) + [sep] + last
  {
    if |parts| > 1 {
      assert (parts + [last])[1..] == parts[1..] + [last];
      JoinSnoc(parts[1..], last, sep);
    }
  }
}

/** Stable insertion sort as a function: the specification of Python's `sorted`. */
module Sorting {

  function Insert<T>(x: T, s: seq<T>, le: (T, T) -> bool): seq<T> {
    if s == [] then [x]
    else if le(x, s[0]) then [x] + s
    else [s[0]] + Insert(x, s[1..], le)
  }

  function Sort<T>(s: seq<T>, le: (T, T) -> bool): seq<T> {
    if s == [] then [] else Insert(s[0], Sort(s[1..], le), le)
  }

  /** le is a total preorder on the elements of s. */
  ghost predicate OrderOn<T>(s: multiset<T>, le: (T, T) -> bool) {
    && (forall x, y :: x in s && y in s ==> le(x, y) || le(y, x))
    && (forall x, y, z :: x in s && y in s && z in s && le(x, y) && le(y, z) ==> le(x, z))
  }

  ghost predicate Sorted<T>(s: seq<T>, le: (T, T) -> bool) {
    forall i, j :: 0 <= i < j < |s| ==> le(s[i], s[j])
  }

  lemma {:induction false} InsertPermutes<T>(x: T, s: seq<T>, le: (T, T) -> bool)
    ensures multiset(Insert(x, s, le)) == multiset{x} + multiset(s)
  {
    if s != [] {
      assert s == [s[0]] + s[1..];
      if !le(x, s[0]) {
        InsertPermutes(x, s[1..], le);
      }
    }
  }

  lemma {:induction false} SortPermutes<T>(s: seq<T>, le: (T, T) -> bool)
    ensures multiset(Sort(s, le)) == multiset(s)
  {
    if s != [] {
      assert s == [s[0]] + s[1..];
      SortPermutes(s[1..], le);
      InsertPermutes(s[0], Sort(s[1..], le), le);
    }
  }

  lemma {:induction false} InsertSorts<T>(x: T, s: seq<T>, le: (T, T) -> bool)
    requires OrderOn(multiset{x} + multiset(s), le) && Sorted(s, le)
    ensures Sorted(Insert(x, s, le), le)
  {
    if s != [] {
      assert s == [s[0]] + s[1..];
      if le(x, s[0]) {
        InsertFirst(x, s, le);
      } else {
        var tail := Insert(x, s[1..], le);
        InsertSorts(x, s[1..], le);
        InsertPermutes(x, s[1..], le);
        InsertLater(x, s, tail, le);
      }
    }
  }

  lemma InsertLater<T>(x: T, s: seq<T>, tail: seq<T>, le: (T, T) -> bool)
    requires OrderOn(multiset{x} + multiset(s), le) && Sorted(s, le) && s != [] && !le(x, s[0])
    requires Sorted(tail, le) && multiset(tail) == multiset{x} + multiset(s[1..])
    ensures Sorted([s[0]] + tail, le)
  {
    assert s[0] in multiset(s) && le(s[0], x);
    forall j | 0 <= j < |tail| ensures le(s[0], tail[j]) {
      hide OrderOn;
      assert tail[j] in multiset(tail);
      if tail[j] != x {
        assert tail[j] in multiset(s[1..]);
        assert tail[j] in s[1..];
      }
    }
  }

  lemma InsertFirst<T>(x: T, s: seq<T>, le: (T, T) -> bool)
    requires OrderOn(multiset{x} + multiset(s), le) && Sorted(s, le) && s != [] && le(x, s[0])
    ensures Sorted([x] + s, le)
  {
    var r := [x] + s;
    forall j | 0 <= j < |s| ensures le(x, s[j]) {
      assert s[0] in multiset(s) && s[j] in multiset(s);
    }
  }

  /** Sorting by a total preorder gives an ordered list. */
  lemma {:induction false} SortSorts<T>(s: seq<T>, le: (T, T) -> bool)
    requires OrderOn(multiset(s), le)
    ensures Sorted(Sort(s, le), le)
  {
    if s != [] {
      assert s == [s[0]] + s[1..];
      assert multiset(s) == multiset{s[0]} + multiset(s[1..]);
      SortSorts(s[1..], le);
      SortPermutes(s[1..], le);
      InsertSorts(s[0], Sort(s[1..], le), le);
    }
  }

  /** An ordered list is already its own sorting, so the sort is stable on it. */
  lemma {:induction false} SortKeeps<T>(s: seq<T>, le: (T, T) -> bool)
    requires Sorted(s, le)
    ensures Sort(s, le) == s
  {
    if s != [] {
      assert forall i, j :: 0 <= i < j < |s[1..]| ==> s[1..][i] == s[i + 1] && s[1..][j] == s[j + 1];
      SortKeeps(s[1..], le);
      assert s == [s[0]] + s[1..];
      if |s| > 1 {
        assert le(s[0], s[1]);
      }
    }
  }

  /** Code point order of strings, the order of Python's `sorted` on text. */
  predicate TextLe(a: string, b: string) {
    a == [] || (b != [] && (a[0] < b[0] || (a[0] == b[0] && TextLe(a[1..], b[1..]))))
  }

  lemma {:induction false} TextLeTotal(a: string, b: string)
    ensures TextLe(a, b) || TextLe(b, a)
  {
    if a != [] && b != [] {
      TextLeTotal(a[1..], b[1..]);
    }
  }

  lemma {:induction false} TextLeTransitive(a: string, b: string, c: string)
    requires TextLe(a, b) && TextLe(b, c)
    ensures TextLe(a, c)
  {
    if a != [] && a[0] == b[0] && b[0] == c[0] {
      TextLeTransitive(a[1..], b[1..], c[1..]);
    }
  }

  lemma TextLeOrders(s: multiset<string>)
    ensures OrderOn(s, TextLe)
  {
    forall x, y | x in s && y in s ensures TextLe(x, y) || TextLe(y, x) {
      TextLeTotal(x, y);
    }
    forall x, y, z | x in s && y in s && z in s && TextLe(x, y) && TextLe(y, z) ensures TextLe(x, z) {
      TextLeTransitive(x, y, z);
    }
  }

  /** Sorting keeps exactly the elements. */
  lemma SortElements<T>(s: seq<T>, le: (T, T) -> bool)
    ensures |Sort(s, le)| == |s|
    ensures forall x :: x in Sort(s, le) <==> x in s
  {
    SortPermutes(s, le);
    assert |multiset(Sort(s, le))| == |multiset(s)|;
    forall x ensures x in Sort(s, le) <==> x in s {
      assert x in Sort(s, le) <==> x in multiset(Sort(s, le));
      assert x in s <==> x in multiset(s);
    }
  }
}

/** Products, quotients and powers of natural numbers. */
module Arithmetic {

  predicate IsPowerOfTwo(n: nat) {
    n == 1 || (n > 1 && n % 2 == 0 && IsPowerOfTwo(n / 2))
  }

  lemma MulMonotone(a: nat, b: nat, c: nat)
    ensures a <= b ==> a * c <= b * c
  {
  }

  lemma Distribute(a: nat, b: nat, c: nat)
    ensures (a + b) * c == a * c + b * c
  {
  }

  /** A quotient is determined by bounds on the dividend. */
  lemma DivUnique(m: nat, per: nat, q: nat, r: nat)
    requires per >= 1 && m == q * per + r && r < per
    ensures m / per == q
  {
    DivBetween(m, per, q, q);
  }

  lemma DivBetween(m: nat, per: nat, low: nat, high: nat)
    requires per >= 1 && low * per <= m && m < high * per + per
    ensures low <= m / per <= high
  {
    var q := m / per;
    assert m == per * q + m % per;
    assert per * q == q * per;
    assert (high + 1) * per == high * per + per;
    assert (q + 1) * per == q * per + per;
    MulMonotone(high + 1, q, per);
    MulMonotone(q + 1, low, per);
  }

  lemma ModUnique(m: nat, per: nat, q: nat, r: nat)
    requires per >= 1 && m == q * per + r && r < per
    ensures m % per == r
  {
    DivUnique(m, per, q, r);
    assert m == per * (m / per) + m % per;
    assert per * q == q * per;
  }
}
