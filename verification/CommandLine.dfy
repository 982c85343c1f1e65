/**
 * Rewriting path options in place (mkosi/private/mkosi_runner/command_line.py): a second scan of the rewritten
 * arguments finds the same options with the mapped values, exactly when no attached short value became empty.
 */
module CommandLine {
  import opened Prelude
  import opened PathValues
  import opened Options
  import opened OptionReattach

  datatype CommandError = MissingValue

  // ---- Rewriting ----

  predicate IsPath(o: Occurrence) {
    !o.option.path.NotPath?
  }

  predicate HasPath(o: Occurrence) {
    IsPath(o) && o.value.Some?
  }

  function NewArgument(o: Occurrence, f: string -> string): string
    requires o.value.Some?
  {
    o.prefix + MapPaths(o.option, o.value.value, f)
  }

  /** The occurrence that a second scan should find. */
  function Mapped(o: Occurrence, f: string -> string): Occurrence {
    if HasPath(o) then o.(value := Some(MapPaths(o.option, o.value.value, f))) else o
  }

  function MappedAll(os: seq<Occurrence>, f: string -> string): (r: seq<Occurrence>)
    ensures |r| == |os|
  {
    seq(|os|, k requires 0 <= k < |os| => Mapped(os[k], f))
  }

  /** An attached short list value that names nothing, as in "-I,": mapping it leaves the bare option. */
  predicate Collapses(o: Occurrence) {
    HasPath(o) && o.prefix != "" && !EndsWithEquals(o.prefix) && Items(o.option, o.value.value) == []
  }

  ghost predicate Touched(os: seq<Occurrence>, j: nat) {
    exists k :: 0 <= k < |os| && HasPath(os[k]) && os[k].index == j
  }

  /** From the given index on, the new arguments are the old ones with the occurrences' values mapped. */
  ghost predicate Rewrites(args: seq<string>, after: seq<string>, os: seq<Occurrence>, f: string -> string, i: nat) {
    && |args| == |after|
    && (forall k :: 0 <= k < |os| && HasPath(os[k]) ==>
                      os[k].index < |args| && after[os[k].index] == NewArgument(os[k], f))
    && (forall j :: i <= j < |args| && !Touched(os, j) ==> after[j] == args[j])
  }

  // ---- One step of the second scan ----

  ghost predicate Scannable(args: seq<string>, i: nat) {
    i < |args| && args[i] != "--"
  }

  function Replaced(args: seq<string>, found: Option<Occurrence>, f: string -> string, j: nat): string
    requires j < |args|
  {
    if found.Some? && HasPath(found.value) && found.value.index == j then NewArgument(found.value, f) else args[j]
  }

  /** What the scan from i says about the arguments that its first step looks at, and about the rest. */
  lemma Unfold(t: Table, args: seq<string>, after: seq<string>, f: string -> string, i: nat)
    requires Scannable(args, i) && Rewrites(args, after, Occurrences(t, args, i), f, i)
    ensures var (next, found) := Step(t, args, i);
            && Rewrites(args, after, Occurrences(t, args, next), f, next)
            && (forall j :: i <= j < next ==> after[j] == Replaced(args, found, f, j))
  {
    hide Step, NewArgument, Rewrites, HasPath;
    var (next, found) := Step(t, args, i);
    var tail := Occurrences(t, args, next);
    AllRead(t, args, next);
    if found.Some? {
      StepIsRead(t, args, i);
      UnfoldFound(args, after, found.value, tail, f, i, next);
    } else {
      assert [] + tail == tail;
      UnfoldNothing(args, after, tail, f, i, next);
    }
  }

  ghost predicate AllFrom(os: seq<Occurrence>, i: nat) {
    forall k :: 0 <= k < |os| ==> os[k].index >= i
  }

  lemma UnfoldNothing(args: seq<string>, after: seq<string>, os: seq<Occurrence>, f: string -> string,
                      i: nat, next: nat)
    requires i <= next <= |args| && AllFrom(os, next) && Rewrites(args, after, os, f, i)
    ensures Rewrites(args, after, os, f, next)
    ensures forall j :: i <= j < next ==> after[j] == args[j]
  {
    hide NewArgument, HasPath;
    forall j | i <= j < next ensures after[j] == args[j] {
      assert !Touched(os, j);
    }
  }

  lemma UnfoldFound(args: seq<string>, after: seq<string>, o: Occurrence, tail: seq<Occurrence>, f: string -> string,
                    i: nat, next: nat)
    requires i <= o.index < next <= |args| && AllFrom(tail, next) && Rewrites(args, after, [o] + tail, f, i)
    ensures Rewrites(args, after, tail, f, next)
    ensures forall j :: i <= j < next ==> after[j] == Replaced(args, Some(o), f, j)
  {
    hide NewArgument;
    var os := [o] + tail;
    assert os[0] == o;
    forall k | 0 <= k < |tail| && HasPath(tail[k])
      ensures tail[k].index < |args| && after[tail[k].index] == NewArgument(tail[k], f)
    {
      assert os[k + 1] == tail[k];
    }
    forall j: nat | i <= j < |args| && !Touched(tail, j) && !(HasPath(o) && o.index == j) ensures after[j] == args[j] {
      UntouchedGrows(o, tail, j);
    }
    forall j | i <= j < next ensures after[j] == Replaced(args, Some(o), f, j) {
      assert !Touched(tail, j);
    }
    forall j: nat | next <= j < |args| && !Touched(tail, j) ensures after[j] == args[j] {
    }
  }

  lemma UntouchedGrows(o: Occurrence, tail: seq<Occurrence>, j: nat)
    requires !Touched(tail, j) && !(HasPath(o) && o.index == j)
    ensures !Touched([o] + tail, j)
  {
    hide HasPath;
    var os := [o] + tail;
    forall k | 0 <= k < |os| && HasPath(os[k]) ensures os[k].index != j {
      assert k > 0 ==> os[k] == tail[k - 1];
    }
  }

  lemma MappedIsValue(t: Table, option: OptionSpec, value: string, f: string -> string)
    requires ConstantsPlain(option) && Absolute(f)
    ensures var v := MapPaths(option, value, f); v != "--" && !IsOption(t, v)
  {
    MappedStart(option, value, f);
  }

  /** An attached path occurrence comes from reading its own argument. */
  lemma AttachedRead(t: Table, args: seq<string>, i: nat)
    requires i < |args| && Step(t, args, i).1.Some? && Step(t, args, i).1.value.index == i
    ensures var o := Step(t, args, i).1.value;
            && Step(t, args, i).0 == i + 1
            && Read(t, args[i]) == Some(Parsed(o.spelling, o.prefix, o.value))
            && o.spelling in t.options && t.options[o.spelling] == o.option
            && (o.value.Some? && o.option.arguments.NoValue? ==> o.value.value == "")
            && (o.value.None? ==> o.option.arguments.NoValue? || !Follows(t, args, i))
            && (o.value.Some? ==> args[i] == o.prefix + o.value.value)
  {
    hide Read, IsOption;
    ReadSplits(t, args[i]);
  }

  /** A rewritten attached value leaves an option, with the same spelling and prefix unless it collapses. */
  lemma RewrittenArgument(t: Table, args: seq<string>, f: string -> string, i: nat)
    requires WellFormed(t) && Absolute(f) && i < |args|
    requires Step(t, args, i).1.Some? && HasPath(Step(t, args, i).1.value) && Step(t, args, i).1.value.index == i
    ensures var o := Step(t, args, i).1.value;
            && IsOption(t, NewArgument(o, f))
            && (!Collapses(o) ==>
                Read(t, NewArgument(o, f)) ==
                Some(Parsed(o.spelling, o.prefix, Some(MapPaths(o.option, o.value.value, f)))))
            && (Collapses(o) ==> Read(t, NewArgument(o, f)) == Some(Parsed(o.spelling, o.prefix, None))
                                 && !o.option.arguments.NoValue?)
  {
    hide Step, Read, IsOption, MapPaths, Items, Absolute, ConstantsPlain, SpellingFormed;
    AttachedRead(t, args, i);
    var o := Step(t, args, i).1.value;
    var v := MapPaths(o.option, o.value.value, f);
    MappedStart(o.option, o.value.value, f);
    if o.option.arguments.NoValue? {
      EmptyStays(o.option, f);
      assert NewArgument(o, f) == args[i];
      ReadIsOption(t, args[i]);
      EmptyAfterEquals(t, args[i]);
    } else {
      PrefixNonempty(t, args[i]);
      if v == "" && !EndsWithEquals(o.prefix) {
        ReadDetach(t, args[i]);
        assert NewArgument(o, f) == o.prefix;
      } else {
        ReadReattach(t, args[i], v);
      }
    }
  }

  lemma EmptyStays(option: OptionSpec, f: string -> string)
    ensures MapPaths(option, "", f) == "" && Items(option, "") == []
  {
  }

  lemma ReadIsOption(t: Table, argument: string)
    requires WellFormed(t) && Read(t, argument).Some?
    ensures IsOption(t, argument)
  {
    hide WellFormed;
    ParsedIsOption(t, argument);
  }

  lemma PrefixNonempty(t: Table, argument: string)
    requires WellFormed(t) && Read(t, argument).Some?
    ensures Read(t, argument).value.prefix != ""
  {
    hide ConstantsPlain, Cluster;
    ClusterKeeps(t, ParseOption(t, argument).value);
  }

  /** An attached value is empty only after an equals sign. */
  lemma EmptyAfterEquals(t: Table, argument: string)
    requires Read(t, argument).Some? && Read(t, argument).value.explicit == Some("")
    ensures EndsWithEquals(Read(t, argument).value.prefix)
  {
    hide Cluster;
    var p := ParseOption(t, argument).value;
    if p.explicit == Some("") && !EndsWithEquals(p.prefix) {
      assert p.prefix + "" == p.prefix;
      ParseSplits(t, argument);
      assert false;
    }
    EmptyInCluster(t, p);
  }

  lemma {:induction false} EmptyInCluster(t: Table, p: Parsed)
    requires p.spelling in t.options && Cluster(t, p).Some? && Cluster(t, p).value.explicit == Some("")
    requires p.explicit == Some("") ==> EndsWithEquals(p.prefix)
    ensures EndsWithEquals(Cluster(t, p).value.prefix)
    decreases ExplicitLength(p)
  {
    if InCluster(t, p) {
      EmptyInCluster(t, Advance(p));
    }
  }

  /** The argument after a scanned one is a value for the second scan exactly when it was for the first. */
  lemma NextStays(t: Table, args: seq<string>, after: seq<string>, f: string -> string, i: nat)
    requires WellFormed(t) && Absolute(f) && i + 1 < |args| && !Follows(t, args, i)
    requires Rewrites(args, after, Occurrences(t, args, i + 1), f, i + 1)
    ensures !Follows(t, after, i)
  {
    hide Step, IsOption, MapPaths, WellFormed, Absolute, NewArgument;
    if args[i + 1] == "--" {
      assert Occurrences(t, args, i + 1) == [];
      assert !Touched([], i + 1);
    } else {
      Unfold(t, args, after, f, i + 1);
      var found := Step(t, args, i + 1).1;
      if found.Some? && HasPath(found.value) && found.value.index == i + 1 {
        RewrittenArgument(t, args, f, i + 1);
      }
    }
  }

  /** The second scan takes the same step, and finds the mapped occurrence unless the value collapsed. */
  lemma StepAgain(t: Table, args: seq<string>, after: seq<string>, f: string -> string, i: nat)
    requires WellFormed(t) && Absolute(f) && Scannable(args, i)
    requires Rewrites(args, after, Occurrences(t, args, i), f, i)
    ensures Scannable(after, i)
    ensures var (next, found) := Step(t, args, i);
            var (next', found') := Step(t, after, i);
            if found.Some? && Collapses(found.value) then found'.Some? && found'.value != Mapped(found.value, f)
            else next' == next && found' == if found.Some? then Some(Mapped(found.value, f)) else None
  {
    hide Step, IsOption, MapPaths, WellFormed, Absolute, NewArgument, Occurrences, Read, Items;
    Unfold(t, args, after, f, i);
    var (next, found) := Step(t, args, i);
    if found.Some? && found.value.index == i {
      AttachedRead(t, args, i);
      if HasPath(found.value) {
        RewrittenArgument(t, args, f, i);
        RewrittenStep(t, after, i, found.value, f);
      } else {
        UnchangedStep(t, args, after, f, i);
      }
    } else if found.Some? {
      StepIsRead(t, args, i);
      FollowingStep(t, args, after, f, i);
    } else {
      NoStep(t, args, after, i);
    }
  }

  lemma DashesReadNothing(t: Table)
    requires WellFormed(t)
    ensures Read(t, "--") == None
  {
    hide ConstantsPlain;
    assert !SpellingFormed("--");
    assert "--" !in t.options;
    NameOf("--", "");
    assert "--" + "" == "--";
  }

  lemma RewrittenStep(t: Table, after: seq<string>, i: nat, o: Occurrence, f: string -> string)
    requires WellFormed(t) && HasPath(o) && o.index == i && i < |after| && after[i] == NewArgument(o, f)
    requires o.spelling in t.options && t.options[o.spelling] == o.option
    requires Read(t, after[i]) == Some(Parsed(o.spelling, o.prefix,
                                              if Collapses(o) then None
                                              else Some(MapPaths(o.option, o.value.value, f))))
    requires Collapses(o) ==> !o.option.arguments.NoValue?
    ensures after[i] != "--"
    ensures var (next', found') := Step(t, after, i);
            if Collapses(o) then found'.Some? && found'.value != Mapped(o, f)
            else next' == i + 1 && found' == Some(Mapped(o, f))
  {
    hide Read, MapPaths, Items, WellFormed;
    DashesReadNothing(t);
  }

  lemma UnchangedStep(t: Table, args: seq<string>, after: seq<string>, f: string -> string, i: nat)
    requires WellFormed(t) && Absolute(f) && i < |args| == |after| && after[i] == args[i]
    requires Step(t, args, i).1.Some? && Step(t, args, i).1.value.index == i
    requires Rewrites(args, after, Occurrences(t, args, i + 1), f, i + 1)
    ensures Step(t, after, i) == Step(t, args, i)
  {
    hide Read, WellFormed, Absolute, Occurrences, Rewrites, IsOption;
    AttachedRead(t, args, i);
    var o := Step(t, args, i).1.value;
    if o.value.None? && !o.option.arguments.NoValue? && i + 1 < |args| {
      NextStays(t, args, after, f, i);
    }
  }

  lemma FollowingStep(t: Table, args: seq<string>, after: seq<string>, f: string -> string, i: nat)
    requires WellFormed(t) && Absolute(f) && i + 1 < |args| == |after| && after[i] == args[i]
    requires Step(t, args, i).1.Some? && Step(t, args, i).1.value.index == i + 1
    requires after[i + 1] == Replaced(args, Step(t, args, i).1, f, i + 1)
    ensures !Collapses(Step(t, args, i).1.value)
    ensures Step(t, after, i) == (i + 2, Some(Mapped(Step(t, args, i).1.value, f)))
  {
    hide Read, IsOption, MapPaths, Items, Absolute, ConstantsPlain, SpellingFormed;
    var o := Step(t, args, i).1.value;
    if HasPath(o) {
      MappedIsValue(t, o.option, o.value.value, f);
      assert "" + MapPaths(o.option, o.value.value, f) == MapPaths(o.option, o.value.value, f);
    }
  }

  lemma NoStep(t: Table, args: seq<string>, after: seq<string>, i: nat)
    requires i < |args| == |after| && after[i] == args[i] && Step(t, args, i).1.None?
    ensures Step(t, after, i) == Step(t, args, i)
  {
    hide Read, IsOption;
  }

  // ---- The whole second scan ----

  /**
   * A second scan finds the same options, spellings, indices and prefixes, with exactly the values mapped, if and
   * only if no occurrence is an attached short list value that names nothing.
   */
  lemma {:induction false} RescanExact(t: Table, args: seq<string>, after: seq<string>, f: string -> string, i: nat)
    requires WellFormed(t) && Absolute(f) && i <= |args|
    requires Rewrites(args, after, Occurrences(t, args, i), f, i)
    ensures Occurrences(t, after, i) == MappedAll(Occurrences(t, args, i), f) <==>
            forall o :: o in Occurrences(t, args, i) ==> !Collapses(o)
    decreases |args| - i
  {
    hide Step, WellFormed, Absolute, Collapses, Mapped;
    if i < |args| && args[i] == "--" {
      assert !Touched([], i);
    } else if i < |args| {
      StepAgain(t, args, after, f, i);
      Unfold(t, args, after, f, i);
      var (next, found) := Step(t, args, i);
      if found.None? {
        RescanExact(t, args, after, f, next);
        assert Occurrences(t, args, i) == Occurrences(t, args, next);
        assert Occurrences(t, after, i) == Occurrences(t, after, next);
      } else {
        var tail := Occurrences(t, args, next);
        assert Occurrences(t, args, i) == [found.value] + tail;
        assert MappedAll([found.value] + tail, f) == [Mapped(found.value, f)] + MappedAll(tail, f);
        if Collapses(found.value) {
          assert Occurrences(t, after, i)[0] != MappedAll(Occurrences(t, args, i), f)[0];
        } else {
          RescanExact(t, args, after, f, next);
          HeadAndTail(Mapped(found.value, f), Occurrences(t, after, next), MappedAll(tail, f));
        }
      }
    }
  }

  lemma HeadAndTail<T>(x: T, a: seq<T>, b: seq<T>)
    ensures [x] + a == [x] + b <==> a == b
  {
    assert ([x] + a)[1..] == a && ([x] + b)[1..] == b;
  }

  // ---- The operations ----

  function PathsOf(os: seq<Occurrence>): seq<Occurrence> {
    if os == [] then [] else PathsOf(os[..|os| - 1]) + if IsPath(os[|os| - 1]) then [os[|os| - 1]] else []
  }

  /** `path_occurrences`. */
  method PathOccurrences(t: Table, args: seq<string>) returns (r: Result<seq<Occurrence>, CommandError>)
    ensures r.Err? <==> Incomplete(t, args)
    ensures r.Ok? ==> r.value == PathsOf(Occurrences(t, args, 0))
  {
    hide AreRead, IsPath, Occurrences;
    var all := FindOccurrences(t, args);
    var found: seq<Occurrence> := [];
    for k := 0 to |all|
      invariant found == PathsOf(all[..k])
      invariant forall j :: 0 <= j < k && IsPath(all[j]) ==> all[j].value.Some?
    {
      hide AreRead, IsPath, PathsOf, Occurrences;
      PathsSnoc(all, k);
      if IsPath(all[k]) {
        if all[k].value.None? {
          assert all[k] in all;
          return Err(MissingValue);
        }
        found := found + [all[k]];
      }
    }
    assert all[..|all|] == all;
    return Ok(found);
  }

  lemma PathsSnoc(all: seq<Occurrence>, k: nat)
    requires k < |all|
    ensures PathsOf(all[..k + 1]) == PathsOf(all[..k]) + if IsPath(all[k]) then [all[k]] else []
  {
    assert all[..k + 1][..k] == all[..k];
  }

  lemma {:induction false} PathsMembers(os: seq<Occurrence>)
    ensures forall o :: o in PathsOf(os) <==> o in os && IsPath(o)
  {
    if os != [] {
      var front := os[..|os| - 1];
      PathsMembers(front);
      assert os == front + [os[|os| - 1]];
    }
  }

  lemma SameIndexSame(t: Table, args: seq<string>, os: seq<Occurrence>, o: Occurrence, p: Occurrence)
    requires AreRead(t, args, os) && o in os && p in os && o.index == p.index
    ensures o == p
  {
    var j :| 0 <= j < |os| && os[j] == o;
    var k :| 0 <= k < |os| && os[k] == p;
    assert j < k ==> Before(os[j], os[k]);
    assert k < j ==> Before(os[k], os[j]);
  }

  /** A path option has no value. */
  ghost predicate Incomplete(t: Table, args: seq<string>) {
    exists o :: o in Occurrences(t, args, 0) && IsPath(o) && o.value.None?
  }

  /** `absolute_paths`: every path value is mapped in its place and nothing else changes. */
  method AbsolutePaths(t: Table, args: seq<string>, f: string -> string) returns (r: Result<seq<string>, CommandError>)
    ensures r.Err? <==> Incomplete(t, args)
    ensures r.Ok? ==> Rewrites(args, r.value, Occurrences(t, args, 0), f, 0)
  {
    hide *;
    var found := PathOccurrences(t, args);
    if found.Err? {
      return Err(found.error);
    }
    var paths := found.value;
    ghost var os := Occurrences(t, args, 0);
    StartReplacing(t, args, f);
    var result := args;
    for k := 0 to |paths|
      invariant Replacing(t, args, result, os, paths, f, k)
    {
      hide *;
      ReplaceNext(t, args, result, os, paths, f, k);
      result := result[paths[k].index := NewArgument(paths[k], f)];
    }
    ReplacedAll(t, args, result, os, paths, f);
    return Ok(result);
  }

  /** The first k path occurrences are written and everything else is as it was. */
  ghost predicate Replacing(t: Table, args: seq<string>, result: seq<string>, os: seq<Occurrence>,
                            paths: seq<Occurrence>, f: string -> string, k: nat) {
    && |result| == |args| && k <= |paths| && AreRead(t, args, os)
    && (forall o :: o in paths <==> o in os && IsPath(o))
    && (forall j :: 0 <= j < |paths| ==> HasPath(paths[j]))
    && (forall j :: 0 <= j < k ==> paths[j].index < |args| && result[paths[j].index] == NewArgument(paths[j], f))
    && (forall j :: 0 <= j < |args| && !Touched(os, j) ==> result[j] == args[j])
  }

  lemma StartReplacing(t: Table, args: seq<string>, f: string -> string)
    requires !Incomplete(t, args)
    ensures var os := Occurrences(t, args, 0); Replacing(t, args, args, os, PathsOf(os), f, 0)
  {
    hide AreRead, Occurrences, NewArgument;
    var os := Occurrences(t, args, 0);
    AllRead(t, args, 0);
    PathsMembers(os);
    forall j | 0 <= j < |PathsOf(os)| ensures HasPath(PathsOf(os)[j]) {
      assert PathsOf(os)[j] in PathsOf(os);
    }
  }

  lemma ReplaceNext(t: Table, args: seq<string>, result: seq<string>, os: seq<Occurrence>, paths: seq<Occurrence>,
                    f: string -> string, k: nat)
    requires k < |paths| && Replacing(t, args, result, os, paths, f, k)
    ensures paths[k].index < |result| && paths[k].value.Some?
    ensures Replacing(t, args, result[paths[k].index := NewArgument(paths[k], f)], os, paths, f, k + 1)
  {
    hide AreRead, NewArgument;
    var o := paths[k];
    assert o in paths;
    IndexInside(t, args, os, o);
    forall j | 0 <= j < k && paths[j].index == o.index ensures paths[j] == o {
      assert paths[j] in paths;
      SameIndexSame(t, args, os, paths[j], o);
    }
    var i :| 0 <= i < |os| && os[i] == o;
    assert Touched(os, o.index);
  }

  lemma IndexInside(t: Table, args: seq<string>, os: seq<Occurrence>, o: Occurrence)
    requires AreRead(t, args, os) && o in os
    ensures o.index < |args|
  {
    var i :| 0 <= i < |os| && os[i] == o;
    assert IsRead(t, args, os[i]);
  }

  lemma ReplacedAll(t: Table, args: seq<string>, result: seq<string>, os: seq<Occurrence>, paths: seq<Occurrence>,
                    f: string -> string)
    requires Replacing(t, args, result, os, paths, f, |paths|)
    ensures Rewrites(args, result, os, f, 0)
  {
    hide AreRead, NewArgument;
    forall k | 0 <= k < |os| && HasPath(os[k])
      ensures os[k].index < |args| && result[os[k].index] == NewArgument(os[k], f)
    {
      assert os[k] in paths;
      var j :| 0 <= j < |paths| && paths[j] == os[k];
    }
  }

  // ---- Declared paths ----

  function Declares(o: Occurrence): seq<string> {
    if HasPath(o) then DeclaredPaths(o.option, o.value.value) else []
  }

  /** The paths that a list of occurrences declares. */
  function DeclaredBy(os: seq<Occurrence>): seq<string> {
    if os == [] then [] else DeclaredBy(os[..|os| - 1]) + Declares(os[|os| - 1])
  }

  /** `declared_paths`. */
  method Declared(t: Table, args: seq<string>) returns (r: Result<seq<string>, CommandError>)
    ensures r.Err? <==> Incomplete(t, args)
    ensures r.Ok? ==> r.value == DeclaredBy(Occurrences(t, args, 0))
  {
    hide Occurrences, PathsOf, DeclaredPaths, Incomplete;
    var found := PathOccurrences(t, args);
    if found.Err? {
      return Err(found.error);
    }
    var paths, result := found.value, [];
    PathsComplete(t, args);
    for k := 0 to |paths|
      invariant result == DeclaredBy(paths[..k])
    {
      hide DeclaredPaths;
      assert paths[..k + 1][..k] == paths[..k];
      result := result + DeclaredPaths(paths[k].option, paths[k].value.value);
    }
    assert paths[..|paths|] == paths;
    DeclaredByPaths(Occurrences(t, args, 0));
    return Ok(result);
  }

  lemma PathsComplete(t: Table, args: seq<string>)
    requires !Incomplete(t, args)
    ensures var paths := PathsOf(Occurrences(t, args, 0)); forall k :: 0 <= k < |paths| ==> HasPath(paths[k])
  {
    hide Occurrences;
    var paths := PathsOf(Occurrences(t, args, 0));
    PathsMembers(Occurrences(t, args, 0));
    forall k | 0 <= k < |paths| ensures HasPath(paths[k]) {
      assert paths[k] in paths;
    }
  }

  lemma {:induction false} DeclaredByPaths(os: seq<Occurrence>)
    ensures DeclaredBy(PathsOf(os)) == DeclaredBy(os)
  {
    hide DeclaredPaths;
    if os != [] {
      var front, o := os[..|os| - 1], os[|os| - 1];
      DeclaredByPaths(front);
      if IsPath(o) {
        assert PathsOf(os) == PathsOf(front) + [o];
        assert PathsOf(os)[..|PathsOf(front)|] == PathsOf(front);
      } else {
        assert PathsOf(os) == PathsOf(front);
      }
    }
  }

  /** The occurrences are of options in the table. */
  ghost predicate InTable(t: Table, os: seq<Occurrence>) {
    forall o :: o in os ==> o.spelling in t.options && t.options[o.spelling] == o.option
  }

  /** No declared path holds a separator of its option once it is mapped. */
  ghost predicate KeepsAll(os: seq<Occurrence>, f: string -> string) {
    forall o :: o in os && HasPath(o) ==> Keeps(o.option, o.value.value, f)
  }

  lemma {:induction false} DeclaredOfMappedAll(t: Table, os: seq<Occurrence>, f: string -> string)
    requires WellFormed(t) && Absolute(f) && InTable(t, os)
    ensures |DeclaredBy(MappedAll(os, f))| >= |DeclaredBy(os)|
    ensures DeclaredBy(MappedAll(os, f)) == MapAll(DeclaredBy(os), f) <==> KeepsAll(os, f)
  {
    hide Declares, Mapped, WellFormed, Absolute, Keeps, HasPath;
    if os != [] {
      var front, o := os[..|os| - 1], os[|os| - 1];
      assert o in os && os == front + [o];
      hide KeepsAll, DeclaredBy, MappedAll;
      DeclaredOfMappedAll(t, front, f);
      DeclaredSnoc(front, o, f);
      KeepsSnoc(front, o, f);
      DeclaredOfMappedOne(t, o, f);
      MapAllConcat(DeclaredBy(front), Declares(o), f);
      ConcatsAgree(DeclaredBy(MappedAll(front, f)), Declares(Mapped(o, f)),
                   MapAll(DeclaredBy(front), f), MapAll(Declares(o), f));
    }
  }

  lemma DeclaredOfMappedOne(t: Table, o: Occurrence, f: string -> string)
    requires WellFormed(t) && Absolute(f) && o.spelling in t.options && t.options[o.spelling] == o.option
    ensures |Declares(Mapped(o, f))| >= |Declares(o)|
    ensures Declares(Mapped(o, f)) == MapAll(Declares(o), f) <==>
            (HasPath(o) ==> Keeps(o.option, o.value.value, f))
  {
    hide DeclaredPaths, MapPaths, WellFormed, Absolute, Keeps;
    if HasPath(o) {
      OptionPlain(t, o);
      DeclaresNoLess(o.option, o.value.value, f);
      DeclaredOfMapped(o.option, o.value.value, f);
    }
  }

  lemma DeclaredSnoc(os: seq<Occurrence>, o: Occurrence, f: string -> string)
    ensures DeclaredBy(os + [o]) == DeclaredBy(os) + Declares(o)
    ensures DeclaredBy(MappedAll(os + [o], f)) == DeclaredBy(MappedAll(os, f)) + Declares(Mapped(o, f))
  {
    hide Declares, Mapped;
    var all := os + [o];
    assert all[..|os|] == os;
    assert MappedAll(all, f)[..|os|] == MappedAll(os, f);
  }

  lemma KeepsSnoc(os: seq<Occurrence>, o: Occurrence, f: string -> string)
    ensures KeepsAll(os + [o], f) <==> KeepsAll(os, f) && (HasPath(o) ==> Keeps(o.option, o.value.value, f))
  {
    hide Keeps;
    assert o in os + [o];
    assert forall p :: p in os ==> p in os + [o];
  }

  lemma MapAllConcat(a: seq<string>, b: seq<string>, f: string -> string)
    ensures MapAll(a + b, f) == MapAll(a, f) + MapAll(b, f)
  {
  }

  lemma ConcatsAgree(a: seq<string>, b: seq<string>, c: seq<string>, d: seq<string>)
    requires |a| >= |c| && |b| >= |d|
    ensures a + b == c + d <==> a == c && b == d
  {
    if a + b == c + d {
      assert |a + b| == |c + d|;
      assert a == (a + b)[..|a|] == (c + d)[..|c|] == c;
      assert b == (a + b)[|a|..] == (c + d)[|c|..] == d;
    }
  }

  /**
   * Declaring the paths of the rewritten arguments gives the mapped declared paths, so that `declared_paths` commutes
   * with `absolute_paths`, if and only if no mapped path holds a separator of its option.
   */
  lemma DeclaredCommutes(t: Table, args: seq<string>, after: seq<string>, f: string -> string)
    requires WellFormed(t) && Absolute(f) && Rewrites(args, after, Occurrences(t, args, 0), f, 0)
    requires !Incomplete(t, args) && forall o :: o in Occurrences(t, args, 0) ==> !Collapses(o)
    ensures !Incomplete(t, after)
    ensures DeclaredBy(Occurrences(t, after, 0)) == MapAll(DeclaredBy(Occurrences(t, args, 0)), f) <==>
            KeepsAll(Occurrences(t, args, 0), f)
  {
    hide WellFormed, Absolute, Occurrences, Collapses, Rewrites, DeclaredBy, MapPaths, KeepsAll;
    RescanExact(t, args, after, f, 0);
    var os := Occurrences(t, args, 0);
    Spelled(t, args);
    DeclaredOfMappedAll(t, os, f);
    forall o | o in MappedAll(os, f) && IsPath(o) ensures o.value.Some? {
      var k :| 0 <= k < |os| && MappedAll(os, f)[k] == o;
      assert os[k] in os;
    }
  }

  lemma Spelled(t: Table, args: seq<string>)
    ensures InTable(t, Occurrences(t, args, 0))
  {
    hide Occurrences;
    AllRead(t, args, 0);
    var os := Occurrences(t, args, 0);
    forall o | o in os ensures o.spelling in t.options && t.options[o.spelling] == o.option {
      var k :| 0 <= k < |os| && os[k] == o;
      assert IsRead(t, args, os[k]);
    }
  }

  /** Rewriting twice with an idempotent function that keeps the paths apart changes nothing the second time. */
  lemma RewritingIdempotent(t: Table, args: seq<string>, after: seq<string>, again: seq<string>, f: string -> string)
    requires WellFormed(t) && Absolute(f) && forall s :: f(f(s)) == f(s)
    requires KeepsAll(Occurrences(t, args, 0), f)
    requires forall o :: o in Occurrences(t, args, 0) ==> !Collapses(o)
    requires Rewrites(args, after, Occurrences(t, args, 0), f, 0)
    requires Rewrites(after, again, Occurrences(t, after, 0), f, 0)
    ensures again == after
  {
    hide WellFormed, Absolute, Occurrences, Collapses, MapPaths;
    RescanExact(t, args, after, f, 0);
    Spelled(t, args);
    var os, mapped := Occurrences(t, args, 0), MappedAll(Occurrences(t, args, 0), f);
    forall j: nat | j < |after| ensures again[j] == after[j] {
      if Touched(mapped, j) {
        var k :| 0 <= k < |mapped| && HasPath(mapped[k]) && mapped[k].index == j;
        assert os[k] in os;
        assert HasPath(os[k]) && mapped[k] == Mapped(os[k], f);
        OptionPlain(t, os[k]);
        MapPathsIdempotent(os[k].option, os[k].value.value, f);
      }
    }
  }

  lemma OptionPlain(t: Table, o: Occurrence)
    requires WellFormed(t) && o.spelling in t.options && t.options[o.spelling] == o.option
    ensures ConstantsPlain(o.option)
  {
    hide ConstantsPlain, SpellingFormed;
  }

  /** Rewriting determines the new arguments. */
  lemma RewritingUnique(args: seq<string>, a: seq<string>, b: seq<string>, os: seq<Occurrence>, f: string -> string)
    requires Rewrites(args, a, os, f, 0) && Rewrites(args, b, os, f, 0)
    ensures a == b
  {
    hide NewArgument;
    forall j: nat | j < |a| ensures a[j] == b[j] {
      if Touched(os, j) {
        var k :| 0 <= k < |os| && HasPath(os[k]) && os[k].index == j;
      }
    }
  }

  /**
   * The condition is needed: in "-I," the list of includes is empty, so rewriting leaves "-I", which takes the verb
   * after it as its value and declares a path that the user never gave. The table is well formed and the occurrence
   * is one that RescanExact excludes.
   */
  lemma CollapseChangesMeaning(f: string -> string)
    ensures WellFormed(Example())
    ensures var args, after := ["-I,", "build"], ["-I", "build"];
            && Rewrites(args, after, Occurrences(Example(), args, 0), f, 0)
            && (exists o :: o in Occurrences(Example(), args, 0) && Collapses(o))
            && DeclaredBy(Occurrences(Example(), args, 0)) == []
            && DeclaredBy(Occurrences(Example(), after, 0)) == ["build"]
  {
    hide Occurrences, Words, Rewrites, Collapses;
    ExampleFormed();
    ExampleScans();
    ExampleRewrites(f);
    var option := Example().options["-I"];
    var os := Occurrences(Example(), ["-I,", "build"], 0);
    CommaAlone();
    assert DeclaredBy(os[..0]) == [] && DeclaredPaths(option, ",") == [];
    assert os[0] in os;
    WordsOfJoin(["build"]);
    assert Sources(option, ["build"][1..]) == [];
    assert DeclaredBy(Occurrences(Example(), ["-I", "build"], 0)[..0]) == [];
  }

  lemma ExampleRewrites(f: string -> string)
    ensures var os := Occurrences(Example(), ["-I,", "build"], 0);
            Rewrites(["-I,", "build"], ["-I", "build"], os, f, 0) && os != [] && Collapses(os[0])
  {
    hide Occurrences, Words;
    ExampleScans();
    CommaAlone();
    var option := Example().options["-I"];
    var os := Occurrences(Example(), ["-I,", "build"], 0);
    assert MapPaths(option, ",", f) == "" && NewArgument(os[0], f) == "-I" + "" == "-I";
    assert HasPath(os[0]) && Touched(os, 0);
  }

  lemma CommaAlone()
    ensures Words(",") == []
  {
    assert ","[1..] == "";
  }

  /** The include option, which takes a list of paths or built-in names. */
  function Include(): OptionSpec {
    OptionSpec("include", OneValue, PlainPath, true, ["mkosi-initrd", "mkosi-vm"])
  }

  function Example(): Table {
    Table(map["-I" := Include(), "--include" := Include()], s => false)
  }

  lemma ExampleFormed()
    ensures WellFormed(Example())
  {
    assert SpellingFormed("-I") && SpellingFormed("--include");
  }

  lemma ExampleReads()
    ensures Read(Example(), "-I,") == Some(Parsed("-I", "-I", Some(",")))
    ensures Read(Example(), "-I") == Some(Parsed("-I", "-I", None)) && Read(Example(), "build") == None
  {
    assert "-I,"[..2] == "-I" && "-I,"[2..] == ",";
    NameOf("-I,", "");
    assert "-I," + "" == "-I,";
  }

  lemma ExampleScans()
    ensures var option := Example().options["-I"];
            && Occurrences(Example(), ["-I,", "build"], 0) == [Occurrence(option, "-I", 0, "-I", Some(","))]
            && Occurrences(Example(), ["-I", "build"], 0) == [Occurrence(option, "-I", 1, "", Some("build"))]
  {
    hide Read, ParseOption;
    ExampleReads();
    var args, after := ["-I,", "build"], ["-I", "build"];
    assert Step(Example(), args, 1) == (2, None);
    assert Occurrences(Example(), args, 2) == [] && Occurrences(Example(), args, 1) == [];
    assert !IsOption(Example(), "build");
    assert Occurrences(Example(), after, 2) == [];
  }
}
