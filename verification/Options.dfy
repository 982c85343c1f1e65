/**
 * The option scanner (mkosi/private/mkosi_runner/mkosi_options.py): finds the options in an argument list in every
 * spelling, and keeps reading the same options after their values were rewritten.
 */
module Options {
  import opened Prelude
  import opened PathValues

  /** The options by spelling, and the argument parser's rule for negative numbers. */
  datatype Table = Table(options: map<string, OptionSpec>, negative: string -> bool)

  /** A spelling, what precedes its attached value, and that value. */
  datatype Parsed = Parsed(spelling: string, prefix: string, explicit: Option<string>)

  datatype Occurrence = Occurrence(option: OptionSpec, spelling: string, index: nat, prefix: string,
                                   value: Option<string>)

  // ---- One argument ----

  /** What precedes the first equals sign. */
  function Name(s: string): (r: string)
    ensures r <= s && (|r| < |s| ==> s[|r|] == '=')
    ensures '=' !in r
  {
    if s == [] || s[0] == '=' then [] else [s[0]] + Name(s[1..])
  }

  lemma {:induction false} NameOf(name: string, rest: string)
    requires '=' !in name && (rest != [] ==> rest[0] == '=')
    ensures Name(name + rest) == name
  {
    if name == [] {
      assert name + rest == rest;
    } else {
      NameOf(name[1..], rest);
      assert (name + rest)[1..] == name[1..] + rest;
    }
  }

  /** `_parse_option`. */
  function ParseOption(t: Table, argument: string): (r: Option<Parsed>)
    ensures r.Some? ==> r.value.spelling in t.options
  {
    if argument in t.options then Some(Parsed(argument, argument, None))
    else if |argument| <= 1 || argument[0] != '-' then None
    else
      var name := Name(argument);
      if |name| < |argument| && name in t.options then
        Some(Parsed(name, name + "=", Some(argument[|name| + 1..])))
      else if argument[1] != '-' && argument[..2] in t.options then
        Some(Parsed(argument[..2], argument[..2], Some(argument[2..])))
      else None
  }

  /** `_is_option`. */
  predicate IsOption(t: Table, argument: string) {
    && |argument| > 1 && argument[0] == '-'
    && (ParseOption(t, argument).Some? || (!t.negative(argument) && ' ' !in argument))
  }

  predicate EndsWithEquals(s: string) {
    s != "" && s[|s| - 1] == '='
  }

  /** The flag after the current one in a cluster of single-letter options. */
  function Advance(p: Parsed): Parsed
    requires p.explicit.Some? && p.explicit.value != ""
  {
    var letter, rest := p.explicit.value[0], p.explicit.value[1..];
    var spelling, prefix := ['-', letter], p.prefix + [letter];
    if rest != "" && rest[0] == '=' then Parsed(spelling, prefix + "=", Some(rest[1..]))
    else Parsed(spelling, prefix, if rest == "" then None else Some(rest))
  }

  predicate InCluster(t: Table, p: Parsed)
    requires p.spelling in t.options
  {
    t.options[p.spelling].arguments.NoValue? && p.explicit.Some? && p.explicit.value != ""
  }

  function ExplicitLength(p: Parsed): nat {
    if p.explicit.Some? then |p.explicit.value| else 0
  }

  /** The last option of a cluster, or nothing when a letter is no option. */
  function Cluster(t: Table, p: Parsed): (r: Option<Parsed>)
    requires p.spelling in t.options
    ensures r.Some? ==> r.value.spelling in t.options
    decreases ExplicitLength(p)
  {
    if !InCluster(t, p) then Some(p)
    else if EndsWithEquals(p.prefix) || ['-', p.explicit.value[0]] !in t.options then None
    else Cluster(t, Advance(p))
  }

  /** Everything that one argument says by itself. */
  function Read(t: Table, argument: string): (r: Option<Parsed>)
    ensures r.Some? ==> r.value.spelling in t.options
  {
    match ParseOption(t, argument)
    case None => None
    case Some(p) => Cluster(t, p)
  }

  lemma {:induction false} ClusterKeeps(t: Table, p: Parsed)
    requires p.spelling in t.options && Cluster(t, p).Some?
    ensures var q := Cluster(t, p).value;
            && q.spelling in t.options && !InCluster(t, q) && p.prefix <= q.prefix
            && (q.explicit.Some? ==> p.explicit.Some? && q.prefix + q.explicit.value == p.prefix + p.explicit.value)
            && (q.explicit.None? ==>
                q.prefix == if p.explicit.Some? then p.prefix + p.explicit.value else p.prefix)
    decreases ExplicitLength(p)
  {
    if InCluster(t, p) {
      ClusterKeeps(t, Advance(p));
      AdvanceKeeps(p);
      hide Advance;
    }
  }

  lemma AdvanceKeeps(p: Parsed)
    requires p.explicit.Some? && p.explicit.value != ""
    ensures var q := Advance(p);
            && p.prefix < q.prefix
            && q.prefix + (if q.explicit.Some? then q.explicit.value else "") == p.prefix + p.explicit.value
  {
    var e := p.explicit.value;
    assert e == [e[0]] + e[1..];
    if |e| > 1 && e[1] == '=' {
      assert e == [e[0]] + "=" + e[2..] && e[1..][1..] == e[2..];
    }
  }

  /** An argument is its prefix and its attached value. */
  lemma ReadSplits(t: Table, argument: string)
    requires Read(t, argument).Some?
    ensures var q := Read(t, argument).value;
            && q.spelling in t.options && !InCluster(t, q)
            && argument == q.prefix + (if q.explicit.Some? then q.explicit.value else "")
  {
    hide Cluster;
    ParseSplits(t, argument);
    ClusterKeeps(t, ParseOption(t, argument).value);
  }

  lemma ParseSplits(t: Table, argument: string)
    requires ParseOption(t, argument).Some?
    ensures var p := ParseOption(t, argument).value;
            && p.spelling in t.options
            && argument == p.prefix + (if p.explicit.Some? then p.explicit.value else "")
  {
    var name := Name(argument);
    if |name| < |argument| {
      assert argument == name + "=" + argument[|name| + 1..];
    }
  }

  // ---- The scan ----

  /** One turn of the scanner: the next index and the option found. */
  function Step(t: Table, args: seq<string>, i: nat): (r: (nat, Option<Occurrence>))
    requires i < |args|
    ensures i < r.0 <= i + 2 && r.0 <= |args|
  {
    match Read(t, args[i])
    case None => (i + 1, None)
    case Some(q) =>
      var option := t.options[q.spelling];
      if option.arguments.NoValue? || q.explicit.Some? then
        (i + 1, Some(Occurrence(option, q.spelling, i, q.prefix, q.explicit)))
      else if Follows(t, args, i) then
        (i + 2, Some(Occurrence(option, q.spelling, i + 1, "", Some(args[i + 1]))))
      else (i + 1, Some(Occurrence(option, q.spelling, i, q.prefix, None)))
  }

  /** The next argument is a value. */
  predicate Follows(t: Table, args: seq<string>, i: nat) {
    i + 1 < |args| && args[i + 1] != "--" && !IsOption(t, args[i + 1])
  }

  function Occurrences(t: Table, args: seq<string>, i: nat): seq<Occurrence>
    requires i <= |args|
    decreases |args| - i
  {
    if i == |args| || args[i] == "--" then []
    else
      var (next, found) := Step(t, args, i);
      (if found.Some? then [found.value] else []) + Occurrences(t, args, next)
  }

  /** `_scan`, with the loop over a cluster of flags. */
  method Scan(t: Table, args: seq<string>, index: nat, found: seq<Occurrence>)
    returns (next: nat, grown: seq<Occurrence>)
    requires index < |args|
    ensures next == Step(t, args, index).0
    ensures grown == found + (match Step(t, args, index).1 case None => [] case Some(o) => [o])
  {
    var parsed := ParseOption(t, args[index]);
    if parsed.None? {
      return index + 1, found;
    }
    ParseSplits(t, args[index]);
    ReadFromParse(t, args[index]);
    var p := parsed.value;
    while t.options[p.spelling].arguments.NoValue? && p.explicit.Some? && p.explicit.value != ""
      invariant p.spelling in t.options && Cluster(t, p) == Read(t, args[index])
      decreases ExplicitLength(p)
    {
      hide Read;
      if EndsWithEquals(p.prefix) || ['-', p.explicit.value[0]] !in t.options {
        return index + 1, found;
      }
      p := Advance(p);
    }
    var option := t.options[p.spelling];
    if option.arguments.NoValue? || p.explicit.Some? {
      return index + 1, found + [Occurrence(option, p.spelling, index, p.prefix, p.explicit)];
    }
    var following := index + 1;
    if following < |args| && args[following] != "--" && !IsOption(t, args[following]) {
      return following + 1, found + [Occurrence(option, p.spelling, following, "", Some(args[following]))];
    }
    return index + 1, found + [Occurrence(option, p.spelling, index, p.prefix, None)];
  }

  lemma ReadFromParse(t: Table, argument: string)
    requires ParseOption(t, argument).Some?
    ensures Read(t, argument) == Cluster(t, ParseOption(t, argument).value)
  {
  }

  /** `occurrences`. */
  method FindOccurrences(t: Table, args: seq<string>) returns (found: seq<Occurrence>)
    ensures found == Occurrences(t, args, 0)
    ensures AreRead(t, args, found)
  {
    hide Step, AreRead, Occurrences;
    found := [];
    var index: nat := 0;
    while index < |args| && args[index] != "--"
      invariant index <= |args| && Occurrences(t, args, 0) == found + Occurrences(t, args, index)
      decreases |args| - index
    {
      hide Step, AreRead, Occurrences;
      NextOccurrence(t, args, index, found);
      index, found := Scan(t, args, index, found);
    }
    NoOccurrence(t, args, index);
    AllRead(t, args, 0);
  }

  lemma NextOccurrence(t: Table, args: seq<string>, i: nat, found: seq<Occurrence>)
    requires i < |args| && args[i] != "--"
    ensures var (next, o) := Step(t, args, i);
            found + Occurrences(t, args, i)
            == found + (match o case None => [] case Some(o) => [o]) + Occurrences(t, args, next)
  {
    hide Step;
  }

  lemma NoOccurrence(t: Table, args: seq<string>, i: nat)
    requires i <= |args| && (i < |args| ==> args[i] == "--")
    ensures Occurrences(t, args, i) == []
  {
  }

  // ---- Every occurrence is read off its argument ----

  predicate IsRead(t: Table, args: seq<string>, o: Occurrence) {
    && o.index < |args| && o.spelling in t.options && t.options[o.spelling] == o.option
    && args[o.index] == o.prefix + (if o.value.Some? then o.value.value else "")
  }

  predicate Before(a: Occurrence, b: Occurrence) {
    a.index < b.index
  }

  /** Every argument named is its prefix and value, and the indices rise strictly. */
  ghost predicate AreRead(t: Table, args: seq<string>, os: seq<Occurrence>) {
    && (forall k :: 0 <= k < |os| ==> IsRead(t, args, os[k]))
    && (forall j, k :: 0 <= j < k < |os| ==> Before(os[j], os[k]))
  }

  lemma StepIsRead(t: Table, args: seq<string>, i: nat)
    requires i < |args| && Step(t, args, i).1.Some?
    ensures var (next, o) := Step(t, args, i);
            IsRead(t, args, o.value) && i <= o.value.index < next
  {
    hide Read, IsOption;
    ReadSplits(t, args[i]);
  }

  lemma {:induction false} AllRead(t: Table, args: seq<string>, i: nat)
    requires i <= |args|
    ensures AreRead(t, args, Occurrences(t, args, i))
    ensures forall k :: 0 <= k < |Occurrences(t, args, i)| ==> Occurrences(t, args, i)[k].index >= i
    decreases |args| - i
  {
    hide Step, IsRead;
    if i < |args| && args[i] != "--" {
      var (next, found) := Step(t, args, i);
      AllRead(t, args, next);
      if found.Some? {
        StepIsRead(t, args, i);
      }
    }
  }
}
