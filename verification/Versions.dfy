/**
 * Debian version comparison (mkosi/debian/generate_lock.py, section 5.6.12 of Debian Policy).
 *
 * The comparator walks two strings with two indexes. Its meaning is the lexicographic order of a normalised key: the
 * orders of the non-digit characters, a zero, the number that follows, and so on, padded with zeros.
 */
module Versions {
  import opened Prelude

  predicate IsDigit(c: char) {
    '0' <= c <= '9'
  }

  predicate IsAlpha(c: char) {
    'a' <= c <= 'z' || 'A' <= c <= 'Z'
  }

  /** `_order`. */
  function Order(c: char): int {
    if c == '~' then -1
    else if IsDigit(c) then 0
    else if IsAlpha(c) then c as int
    else c as int + 256
  }

  function Sign(n: int): int {
    if n < 0 then -1 else if n > 0 then 1 else 0
  }

  // ---- Normalised keys ----

  function DigitRun(s: string): (n: nat)
    ensures n <= |s|
  {
    if s != [] && IsDigit(s[0]) then 1 + DigitRun(s[1..]) else 0
  }

  predicate AllDigits(s: string) {
    forall i :: 0 <= i < |s| ==> IsDigit(s[i])
  }

  function Value(s: string): nat
    requires AllDigits(s)
  {
    if s == [] then 0 else Value(s[..|s| - 1]) * 10 + (s[|s| - 1] as int - '0' as int)
  }

  lemma {:induction false} DigitRunIsDigits(s: string)
    ensures AllDigits(s[..DigitRun(s)])
    ensures DigitRun(s) < |s| ==> !IsDigit(s[DigitRun(s)])
  {
    if s != [] && IsDigit(s[0]) {
      DigitRunIsDigits(s[1..]);
      assert forall i :: 0 < i < |s[..DigitRun(s)]| ==> s[..DigitRun(s)][i] == s[1..][..DigitRun(s[1..])][i - 1];
    }
  }

  /** The key of a fragment that starts with a (possibly empty) run of non-digits. */
  function TextKey(s: string): seq<int>
    decreases |s|, 1
  {
    if s == [] then []
    else if IsDigit(s[0]) then [0] + NumberKey(s)
    else [Order(s[0])] + TextKey(s[1..])
  }

  /** The key of a fragment that starts with a (possibly empty) run of digits. */
  function NumberKey(s: string): seq<int>
    decreases |s|, if s != [] && IsDigit(s[0]) then 0 else 2
  {
    DigitRunIsDigits(s);
    [Value(s[..DigitRun(s)])] + TextKey(s[DigitRun(s)..])
  }

  /** Lexicographic order of two keys, the shorter one padded with zeros. */
  function Lex(a: seq<int>, b: seq<int>): int {
    if a == [] && b == [] then 0
    else
      var x, y := if a == [] then 0 else a[0], if b == [] then 0 else b[0];
      if x != y then Sign(x - y)
      else Lex(if a == [] then [] else a[1..], if b == [] then [] else b[1..])
  }

  // ---- Lex is a total preorder ----

  lemma {:induction false} LexReflexive(a: seq<int>)
    ensures Lex(a, a) == 0
  {
    if a != [] {
      LexReflexive(a[1..]);
    }
  }

  lemma {:induction false} LexAntisymmetric(a: seq<int>, b: seq<int>)
    ensures Lex(a, b) == -Lex(b, a)
    decreases |a| + |b|
  {
    if a != [] || b != [] {
      LexAntisymmetric(if a == [] then [] else a[1..], if b == [] then [] else b[1..]);
    }
  }

  /** Equal keys are interchangeable, and an inequality on either side is kept. */
  lemma {:induction false} LexTransitive(a: seq<int>, b: seq<int>, c: seq<int>)
    requires Lex(a, b) <= 0 && Lex(b, c) <= 0
    ensures Lex(a, c) <= 0
    ensures Lex(a, c) == 0 <==> Lex(a, b) == 0 && Lex(b, c) == 0
    decreases |a| + |b| + |c|
  {
    var x, y, z := if a == [] then 0 else a[0], if b == [] then 0 else b[0], if c == [] then 0 else c[0];
    if (a != [] || b != [] || c != []) && x == y && y == z {
      var a', b', c' := if a == [] then [] else a[1..], if b == [] then [] else b[1..], if c == [] then [] else c[1..];
      assert Lex(a, b) == Lex(a', b') && Lex(b, c) == Lex(b', c') && Lex(a, c) == Lex(a', c');
      LexTransitive(a', b', c');
    }
  }

  // ---- Digit runs ----

  function Power10(n: nat): nat {
    if n == 0 then 1 else 10 * Power10(n - 1)
  }

  lemma {:induction false} ValueBounds(s: string)
    requires AllDigits(s)
    ensures Value(s) < Power10(|s|)
    ensures s != [] && s[0] != '0' ==> Power10(|s| - 1) <= Value(s)
  {
    if s != [] {
      var front := s[..|s| - 1];
      ValueBounds(front);
      if |s| > 1 && s[0] != '0' {
        assert front[0] == s[0];
      }
    }
  }

  lemma {:induction false} Power10Grows(n: nat, m: nat)
    requires n <= m
    ensures 1 <= Power10(n) <= Power10(m)
  {
    if n < m {
      Power10Grows(n, m - 1);
    } else if n > 0 {
      Power10Grows(n - 1, n - 1);
    }
  }

  /** Without leading zeros, more digits mean a larger number. */
  lemma LongerIsLarger(a: string, b: string)
    requires AllDigits(a) && AllDigits(b) && |a| > |b| && a[0] != '0'
    ensures Value(a) > Value(b)
  {
    ValueBounds(a);
    ValueBounds(b);
    Power10Grows(|b|, |a| - 1);
  }

  lemma ValueSnoc(s: string, c: char)
    requires AllDigits(s) && IsDigit(c)
    ensures AllDigits(s + [c]) && Value(s + [c]) == Value(s) * 10 + (c as int - '0' as int)
  {
    assert (s + [c])[..|s|] == s;
  }

  lemma {:induction false} ValueLeadingZero(s: string)
    requires AllDigits(s)
    ensures AllDigits(['0'] + s) && Value(['0'] + s) == Value(s)
  {
    if s != [] {
      ValueLeadingZero(s[..|s| - 1]);
      assert (['0'] + s)[..|s|] == ['0'] + s[..|s| - 1];
    }
  }

  lemma NumberKeySkipsZero(s: string)
    requires s != [] && s[0] == '0'
    ensures NumberKey(s) == NumberKey(s[1..])
  {
    var rest := s[1..];
    DigitRunIsDigits(rest);
    ValueLeadingZero(rest[..DigitRun(rest)]);
    assert s[..DigitRun(s)] == ['0'] + rest[..DigitRun(rest)];
    assert s[DigitRun(s)..] == rest[DigitRun(rest)..];
  }

  lemma {:induction false} DigitRunIs(s: string, n: nat)
    requires n <= |s| && AllDigits(s[..n]) && (n < |s| ==> !IsDigit(s[n]))
    ensures DigitRun(s) == n
  {
    if n > 0 {
      assert IsDigit(s[..n][0]);
      assert s[1..][..n - 1] == s[..n][1..];
      DigitRunIs(s[1..], n - 1);
    }
  }

  // ---- The streaming comparator ----

  predicate AtText(s: string, i: nat) {
    i < |s| && !IsDigit(s[i])
  }

  predicate AtDigit(s: string, i: nat) {
    i < |s| && IsDigit(s[i])
  }

  lemma TextStep(l: string, r: string, i: nat, j: nat)
    requires i <= |l| && j <= |r| && (AtText(l, i) || AtText(r, j))
    ensures var x, y := if i < |l| then Order(l[i]) else 0, if j < |r| then Order(r[j]) else 0;
            if x != y then Lex(TextKey(l[i..]), TextKey(r[j..])) == Sign(x - y)
            else AtText(l, i) && AtText(r, j)
                 && Lex(TextKey(l[i..]), TextKey(r[j..])) == Lex(TextKey(l[i + 1..]), TextKey(r[j + 1..]))
  {
    if i < |l| {
      assert l[i..][0] == l[i] && l[i..][1..] == l[i + 1..];
    }
    if j < |r| {
      assert r[j..][0] == r[j] && r[j..][1..] == r[j + 1..];
    }
  }

  lemma TextEnd(l: string, r: string, i: nat, j: nat)
    requires i <= |l| && j <= |r| && !AtText(l, i) && !AtText(r, j)
    ensures Lex(TextKey(l[i..]), TextKey(r[j..])) == Lex(NumberKey(l[i..]), NumberKey(r[j..]))
  {
    if i == |l| {
      assert l[i..] == "" && NumberKey("") == [0];
    } else {
      assert l[i..][0] == l[i];
    }
    if j == |r| {
      assert r[j..] == "" && NumberKey("") == [0];
    } else {
      assert r[j..][0] == r[j];
    }
  }

  /** `_compare_non_digits`. */
  method CompareNonDigits(l: string, r: string, left: nat, right: nat) returns (difference: int, i: nat, j: nat)
    requires left <= |l| && right <= |r|
    ensures left <= i <= |l| && right <= j <= |r|
    ensures difference != 0 ==> Sign(difference) == Lex(TextKey(l[left..]), TextKey(r[right..]))
    ensures difference == 0 ==> && !AtText(l, i) && !AtText(r, j)
                                && Lex(TextKey(l[left..]), TextKey(r[right..]))
                                   == Lex(NumberKey(l[i..]), NumberKey(r[j..]))
  {
    i, j := left, right;
    while AtText(l, i) || AtText(r, j)
      invariant left <= i <= |l| && right <= j <= |r|
      invariant Lex(TextKey(l[left..]), TextKey(r[right..])) == Lex(TextKey(l[i..]), TextKey(r[j..]))
      decreases |l| - i
    {
      var leftOrder := if i < |l| then Order(l[i]) else 0;
      var rightOrder := if j < |r| then Order(r[j]) else 0;
      TextStep(l, r, i, j);
      if leftOrder != rightOrder {
        return leftOrder - rightOrder, i, j;
      }
      i, j := i + 1, j + 1;
    }
    TextEnd(l, r, i, j);
    return 0, i, j;
  }

  lemma NumberHeads(s: string, n: nat)
    requires n <= |s| && AllDigits(s[..n]) && (n < |s| ==> !IsDigit(s[n]))
    ensures NumberKey(s) == [Value(s[..n])] + TextKey(s[n..])
  {
    DigitRunIs(s, n);
  }

  method SkipZeros(s: string, start: nat) returns (i: nat)
    requires start <= |s|
    ensures start <= i <= |s| && (i < |s| ==> s[i] != '0')
    ensures start < |s| && s[start] == '0' ==> start < i
    ensures NumberKey(s[i..]) == NumberKey(s[start..])
  {
    i := start;
    while i < |s| && s[i] == '0'
      invariant start <= i <= |s|
      invariant start < |s| && s[start] == '0' ==> start < i || s[i] == '0'
      invariant NumberKey(s[i..]) == NumberKey(s[start..])
    {
      NumberKeySkipsZero(s[i..]);
      assert s[i..][1..] == s[i + 1..];
      i := i + 1;
    }
  }

  lemma MoreDigits(l: string, r: string)
    requires AllDigits(l[..DigitRun(l)]) && AllDigits(r[..DigitRun(r)])
    requires l != [] && l[0] != '0' && DigitRun(l) > DigitRun(r)
    ensures Lex(NumberKey(l), NumberKey(r)) == 1 && Lex(NumberKey(r), NumberKey(l)) == -1
  {
    LongerIsLarger(l[..DigitRun(l)], r[..DigitRun(r)]);
  }

  lemma InStepNext(l: string, r: string, n: nat, difference: int)
    requires n < |l| && n < |r| && IsDigit(l[n]) && IsDigit(r[n]) && AllDigits(l[..n]) && AllDigits(r[..n])
    requires Sign(difference) == Sign(Value(l[..n]) - Value(r[..n])) && (difference == 0 ==> l[..n] == r[..n])
    ensures AllDigits(l[..n + 1]) && AllDigits(r[..n + 1])
    ensures var next := if difference == 0 then l[n] as int - r[n] as int else difference;
            && Sign(next) == Sign(Value(l[..n + 1]) - Value(r[..n + 1]))
            && (next == 0 ==> l[..n + 1] == r[..n + 1])
  {
    hide AllDigits, Value;
    ValueSnoc(l[..n], l[n]);
    ValueSnoc(r[..n], r[n]);
    assert l[..n + 1] == l[..n] + [l[n]] && r[..n + 1] == r[..n] + [r[n]];
  }

  /** The loop over two digit runs in step: the sign of the first difference, and the digits passed. */
  method CompareInStep(l: string, r: string) returns (difference: int, n: nat)
    ensures n <= DigitRun(l) && n <= DigitRun(r) && (n == DigitRun(l) || n == DigitRun(r))
    ensures AllDigits(l[..n]) && AllDigits(r[..n])
    ensures Sign(difference) == Sign(Value(l[..n]) - Value(r[..n]))
    ensures difference == 0 ==> l[..n] == r[..n]
  {
    difference, n := 0, 0;
    while AtDigit(l, n) && AtDigit(r, n)
      invariant n <= |l| && n <= |r| && AllDigits(l[..n]) && AllDigits(r[..n])
      invariant Sign(difference) == Sign(Value(l[..n]) - Value(r[..n]))
      invariant difference == 0 ==> l[..n] == r[..n]
      decreases |l| - n
    {
      hide AllDigits, Value, DigitRun, Sign;
      InStepNext(l, r, n, difference);
      if difference == 0 {
        difference := l[n] as int - r[n] as int;
      }
      n := n + 1;
    }
    RunReaches(l, n);
    RunReaches(r, n);
  }

  lemma {:induction false} RunReaches(s: string, n: nat)
    requires n <= |s| && AllDigits(s[..n])
    ensures n <= DigitRun(s)
    ensures !AtDigit(s, n) ==> DigitRun(s) == n
  {
    if !AtDigit(s, n) {
      DigitRunIs(s, n);
    } else if n > 0 {
      assert s[0] == s[..n][0];
      assert s[1..][..n - 1] == s[..n][1..];
      RunReaches(s[1..], n - 1);
    }
  }

  /** `_compare_digits`. */
  method CompareDigits(l: string, r: string, left: nat, right: nat) returns (difference: int, i: nat, j: nat)
    requires left <= |l| && right <= |r|
    ensures left <= i <= |l| && right <= j <= |r|
    ensures difference != 0 ==> Sign(difference) == Lex(NumberKey(l[left..]), NumberKey(r[right..]))
    ensures difference == 0 ==> Lex(NumberKey(l[left..]), NumberKey(r[right..]))
                                == Lex(TextKey(l[i..]), TextKey(r[j..]))
    ensures difference == 0 && (AtDigit(l, left) || AtDigit(r, right)) ==> left + right < i + j
  {
    hide NumberKey, TextKey, Lex, DigitRun, AllDigits, Value, Sign;
    i := SkipZeros(l, left);
    j := SkipZeros(r, right);
    var a, b := l[i..], r[j..];
    var n;
    difference, n := CompareInStep(a, b);
    InStepVerdict(a, b, n, difference);
    var i', j' := i + n, j + n;
    assert a[n..] == l[i'..] && b[n..] == r[j'..];
    assert AtDigit(l, i') ==> AtDigit(a, n);
    assert AtDigit(r, j') ==> AtDigit(b, n);
    if AtDigit(l, i') {
      return 1, i', j';
    }
    if AtDigit(r, j') {
      return -1, i', j';
    }
    return difference, i', j';
  }

  /** What the comparison digit by digit says about the keys of two numbers without leading zeros. */
  lemma InStepVerdict(a: string, b: string, n: nat, difference: int)
    requires n <= |a| && n <= |b| && AllDigits(a[..n]) && AllDigits(b[..n])
    requires n <= DigitRun(a) && n <= DigitRun(b) && (n == DigitRun(a) || n == DigitRun(b))
    requires Sign(difference) == Sign(Value(a[..n]) - Value(b[..n]))
    requires (a != [] ==> a[0] != '0') && (b != [] ==> b[0] != '0')
    ensures AtDigit(a, n) ==> Lex(NumberKey(a), NumberKey(b)) == Sign(1)
    ensures AtDigit(b, n) ==> Lex(NumberKey(a), NumberKey(b)) == Sign(-1)
    ensures !AtDigit(a, n) && !AtDigit(b, n) && difference != 0 ==>
              Lex(NumberKey(a), NumberKey(b)) == Sign(difference)
    ensures !AtDigit(a, n) && !AtDigit(b, n) && difference == 0 ==>
              Lex(NumberKey(a), NumberKey(b)) == Lex(TextKey(a[n..]), TextKey(b[n..]))
  {
    hide NumberKey, TextKey, DigitRun, AllDigits, Value;
    DigitRunIsDigits(a);
    DigitRunIsDigits(b);
    if AtDigit(a, n) {
      RunStops(a, n);
      MoreDigits(a, b);
    } else if AtDigit(b, n) {
      RunStops(b, n);
      MoreDigits(b, a);
    } else {
      NumberHeads(a, n);
      NumberHeads(b, n);
    }
  }

  lemma RunStops(s: string, n: nat)
    requires AtDigit(s, n) && AllDigits(s[..n])
    ensures DigitRun(s) > n
  {
    assert s[..n + 1] == s[..n] + [s[n]];
    RunReaches(s, n + 1);
  }

  /** The order of two fragments without an epoch. */
  function FragmentOrder(l: string, r: string): int {
    Lex(TextKey(l), TextKey(r))
  }

  /** `_compare_fragment`: the streaming comparison terminates and has the sign of the key order. */
  method CompareFragment(l: string, r: string) returns (difference: int)
    ensures Sign(difference) == FragmentOrder(l, r)
  {
    var i, j := 0, 0;
    assert l[0..] == l && r[0..] == r;
    while i < |l| || j < |r|
      invariant i <= |l| && j <= |r|
      invariant Lex(TextKey(l[i..]), TextKey(r[j..])) == FragmentOrder(l, r)
      decreases |l| + |r| - i - j
    {
      ghost var before := i + j;
      difference, i, j := CompareNonDigits(l, r, i, j);
      if difference != 0 {
        return;
      }
      assert i + j == before ==> AtDigit(l, i) || AtDigit(r, j);
      difference, i, j := CompareDigits(l, r, i, j);
      if difference != 0 {
        return;
      }
    }
    assert l[i..] == "" && r[j..] == "";
    return 0;
  }

  // ---- Whole versions ----

  datatype VersionError = InvalidEpoch(text: string)

  function IndexOf(s: string, c: char): (n: nat)
    ensures n <= |s| && (n < |s| ==> s[n] == c)
  {
    if s == [] || s[0] == c then 0 else 1 + IndexOf(s[1..], c)
  }

  function LastIndexOf(s: string, c: char): (n: int)
    ensures -1 <= n < |s| && (n >= 0 ==> s[n] == c)
  {
    if s == [] then -1 else if s[|s| - 1] == c then |s| - 1 else LastIndexOf(s[..|s| - 1], c)
  }

  datatype Version = Version(epoch: nat, upstream: string, revision: string)

  function SplitRevision(epoch: nat, s: string): Version {
    var dash := LastIndexOf(s, '-');
    if dash < 0 then Version(epoch, s, "") else Version(epoch, s[..dash], s[dash + 1..])
  }

  /** `_split_version`. */
  function SplitVersion(s: string): Result<Version, VersionError> {
    var colon := IndexOf(s, ':');
    if colon == |s| then Ok(SplitRevision(0, s))
    else
      var epoch := s[..colon];
      if epoch != "" && AllDigits(epoch) then Ok(SplitRevision(Value(epoch), s[colon + 1..]))
      else Err(InvalidEpoch(epoch))
  }

  predicate ValidVersion(s: string) {
    SplitVersion(s).Ok?
  }

  function Order3(a: Version, b: Version): int {
    if a.epoch != b.epoch then Sign(a.epoch - b.epoch)
    else if FragmentOrder(a.upstream, b.upstream) != 0 then FragmentOrder(a.upstream, b.upstream)
    else FragmentOrder(a.revision, b.revision)
  }

  /** The order of two versions with valid epochs. */
  function VersionOrder(a: string, b: string): int
    requires ValidVersion(a) && ValidVersion(b)
  {
    Order3(SplitVersion(a).value, SplitVersion(b).value)
  }

  /** `compare_versions`: fails exactly for an invalid epoch and otherwise has the sign of the version order. */
  method CompareVersions(left: string, right: string) returns (r: Result<int, VersionError>)
    ensures r.Ok? <==> ValidVersion(left) && ValidVersion(right)
    ensures r.Ok? ==> Sign(r.value) == VersionOrder(left, right)
    ensures r.Err? ==> SplitVersion(if ValidVersion(left) then right else left) == Err(r.error)
  {
    var l, rr := SplitVersion(left), SplitVersion(right);
    if l.Err? {
      return Err(l.error);
    }
    if rr.Err? {
      return Err(rr.error);
    }
    var a, b := l.value, rr.value;
    if a.epoch != b.epoch {
      return Ok(a.epoch - b.epoch);
    }
    var upstream := CompareFragment(a.upstream, b.upstream);
    if upstream != 0 {
      return Ok(upstream);
    }
    var revision := CompareFragment(a.revision, b.revision);
    return Ok(revision);
  }

  // ---- The version order is a total preorder ----

  lemma VersionOrderReflexive(a: string)
    requires ValidVersion(a)
    ensures VersionOrder(a, a) == 0
  {
    var v := SplitVersion(a).value;
    LexReflexive(TextKey(v.upstream));
    LexReflexive(TextKey(v.revision));
  }

  lemma VersionOrderAntisymmetric(a: string, b: string)
    requires ValidVersion(a) && ValidVersion(b)
    ensures VersionOrder(a, b) == -VersionOrder(b, a)
  {
    var v, w := SplitVersion(a).value, SplitVersion(b).value;
    LexAntisymmetric(TextKey(v.upstream), TextKey(w.upstream));
    LexAntisymmetric(TextKey(v.revision), TextKey(w.revision));
  }

  /** Transitivity, strict as soon as one of the two steps is. */
  lemma VersionOrderTransitive(a: string, b: string, c: string)
    requires ValidVersion(a) && ValidVersion(b) && ValidVersion(c)
    requires VersionOrder(a, b) <= 0 && VersionOrder(b, c) <= 0
    ensures VersionOrder(a, c) <= 0
    ensures VersionOrder(a, c) == 0 <==> VersionOrder(a, b) == 0 && VersionOrder(b, c) == 0
  {
    var u, v, w := SplitVersion(a).value, SplitVersion(b).value, SplitVersion(c).value;
    if u.epoch == v.epoch == w.epoch {
      LexTransitive(TextKey(u.upstream), TextKey(v.upstream), TextKey(w.upstream));
      if FragmentOrder(u.upstream, v.upstream) == 0 && FragmentOrder(v.upstream, w.upstream) == 0 {
        LexTransitive(TextKey(u.revision), TextKey(v.revision), TextKey(w.revision));
      }
    }
  }

  // ---- Version relations ----

  datatype Operator = Earlier | EarlierOrEqual | Exactly | LaterOrEqual | Later | Below | Above

  /** The relation operators; the deprecated `<` and `>` include equality. */
  predicate Holds(result: int, op: Operator) {
    match op
    case Earlier => result < 0
    case EarlierOrEqual => result <= 0
    case Below => result <= 0
    case Exactly => result == 0
    case LaterOrEqual => result >= 0
    case Above => result >= 0
    case Later => result > 0
  }

  /** `version_satisfies`. */
  method VersionSatisfies(version: string, op: Operator, required: string) returns (r: Result<bool, VersionError>)
    ensures r.Ok? <==> ValidVersion(version) && ValidVersion(required)
    ensures r.Ok? ==> r.value == Holds(VersionOrder(version, required), op)
    ensures r.Err? ==> SplitVersion(if ValidVersion(version) then required else version) == Err(r.error)
  {
    var compared := CompareVersions(version, required);
    if compared.Err? {
      return Err(compared.error);
    }
    return Ok(Holds(compared.value, op));
  }

  /** Equal versions satisfy the same relations. */
  lemma EqualVersionsSatisfyAlike(a: string, b: string, op: Operator, required: string)
    requires ValidVersion(a) && ValidVersion(b) && ValidVersion(required)
    requires VersionOrder(a, b) == 0
    ensures Holds(VersionOrder(a, required), op) == Holds(VersionOrder(b, required), op)
  {
    VersionOrderAntisymmetric(a, b);
    VersionOrderAntisymmetric(a, required);
    VersionOrderAntisymmetric(b, required);
    if VersionOrder(a, required) <= 0 {
      VersionOrderTransitive(b, a, required);
    } else {
      VersionOrderTransitive(required, a, b);
    }
  }
}
