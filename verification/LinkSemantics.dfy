/**
 * What a successful link resolution means for the link map. The reference is the walk in place: a relative link text
 * is looked up in the directory the walk is in, an absolute one at the root, and nothing is ever walked twice. Only
 * links count here; whether the directories on the way exist is the matter of the kernel's walk over a tree.
 */
module LinkSemantics {
  import opened Prelude
  import opened Text
  import opened LinkPaths

  /** A name that a directory can hold. */
  predicate Plain(component: string) {
    component != "" && component != "." && component != ".." && Free(component, SLASH)
  }

  /** A directory whose components are names and none of whose prefixes is a symbolic link. */
  ghost predicate Clean(t: Tree, directory: seq<string>) {
    && (forall i :: 0 <= i < |directory| ==> Plain(directory[i]))
    && (forall n :: 0 < n <= |directory| ==> !IsLink(t, Join(directory[..n], SLASH)))
  }

  function LinkStart(linkname: string, directory: seq<string>): seq<string> {
    if linkname != [] && linkname[0] == SLASH then [] else directory
  }

  /** The walk of the link map in place, stopped when it would cross a link a second time. */
  function InPlace(t: Tree, directory: seq<string>, pending: seq<string>, crossed: seq<string>): Walked
    decreases Links(t) - Elements(crossed), |pending|
  {
    if pending == [] then Ok((directory, crossed))
    else
      var component, rest := pending[0], pending[1..];
      if component == "" || component == "." then InPlace(t, directory, rest, crossed)
      else if component == ".." then
        if directory == [] then Err(EscapesRoot) else InPlace(t, directory[..|directory| - 1], rest, crossed)
      else
        var current := Join(directory + [component], SLASH);
        if IsLink(t, current) then
          if current in crossed then Err(WalkCycle(current))
          else
            var text := t[current].linkname;
            assert current in Links(t) - Elements(crossed);
            assert current !in Links(t) - Elements(crossed + [current]);
            InPlace(t, LinkStart(text, directory), Split(text, SLASH) + rest, crossed + [current])
        else InPlace(t, directory + [component], rest, crossed)
  }

  // ---- The textual parent of a resolved path is the directory the walk is in ----

  lemma {:induction false} HeadOf(a: string, b: string)
    requires Free(b, SLASH)
    ensures Head(a + [SLASH] + b) == a + [SLASH]
  {
    if b != [] {
      assert (a + [SLASH] + b)[..|a + [SLASH] + b| - 1] == a + [SLASH] + b[..|b| - 1];
      HeadOf(a, b[..|b| - 1]);
    } else {
      assert a + [SLASH] + b == a + [SLASH];
    }
  }

  lemma {:induction false} HeadOfName(b: string)
    requires Free(b, SLASH)
    ensures Head(b) == ""
  {
    if b != [] {
      HeadOfName(b[..|b| - 1]);
    }
  }

  lemma {:induction false} JoinEnds(parts: seq<string>)
    requires parts != [] && forall i :: 0 <= i < |parts| ==> Plain(parts[i])
    ensures Join(parts, SLASH) != [] && Join(parts, SLASH)[|Join(parts, SLASH)| - 1] != SLASH
  {
    if |parts| > 1 {
      JoinEnds(parts[1..]);
    }
  }

  lemma StripTrailing(d: string)
    requires d != [] && d[|d| - 1] != SLASH
    ensures Head(d + [SLASH]) == d + [SLASH] && StripSlashes(d + [SLASH]) == d
    ensures exists c :: c in d + [SLASH] && c != SLASH
  {
    assert d[|d| - 1] in d + [SLASH];
    assert (d + [SLASH])[..|d|] == d;
    assert StripSlashes(d) == d;
  }

  lemma DirnameOfJoin(directory: seq<string>, name: string)
    requires Plain(name) && forall i :: 0 <= i < |directory| ==> Plain(directory[i])
    ensures Dirname(Join(directory + [name], SLASH)) == Join(directory, SLASH)
  {
    if directory == [] {
      HeadOfName(name);
    } else {
      JoinSnoc(directory, name, SLASH);
      var d := Join(directory, SLASH);
      JoinEnds(directory);
      HeadOf(d, name);
      StripTrailing(d);
    }
  }

  lemma RawOfResolved(directory: seq<string>, name: string, linkname: string)
    requires Plain(name) && forall i :: 0 <= i < |directory| ==> Plain(directory[i])
    ensures RawComponents(Join(directory + [name], SLASH), linkname)
            == LinkStart(linkname, directory) + Split(linkname, SLASH)
  {
    DirnameOfJoin(directory, name);
    if directory != [] {
      JoinEnds(directory);
      SplitJoin(directory, SLASH);
    }
  }

  /** Walking a clean directory again from the root crosses nothing and leads back to it. */
  lemma {:induction false} Rewalk(t: Tree, done: seq<string>, directory: seq<string>, rest: seq<string>,
                                  crossed: seq<string>)
    requires Clean(t, done + directory)
    ensures Walk(t, done, directory + rest, crossed) == Walk(t, done + directory, rest, crossed)
    decreases |directory|
  {
    if directory == [] {
      assert directory + rest == rest && done + directory == done;
    } else {
      var name := directory[0];
      assert (done + directory)[|done|] == name;
      assert (directory + rest)[1..] == directory[1..] + rest;
      assert (done + directory)[..|done| + 1] == done + [name];
      assert done + [name] + directory[1..] == done + directory;
      Rewalk(t, done + [name], directory[1..], rest, crossed);
    }
  }

  lemma CleanExtends(t: Tree, directory: seq<string>, name: string)
    requires Clean(t, directory) && Plain(name) && !IsLink(t, Join(directory + [name], SLASH))
    ensures Clean(t, directory + [name])
  {
    var d := directory + [name];
    forall n | 0 < n <= |d| ensures !IsLink(t, Join(d[..n], SLASH)) {
      if n <= |directory| {
        assert d[..n] == directory[..n];
      } else {
        assert d[..n] == d;
      }
    }
  }

  lemma CleanParent(t: Tree, directory: seq<string>)
    requires Clean(t, directory) && directory != []
    ensures Clean(t, directory[..|directory| - 1])
  {
    var d := directory[..|directory| - 1];
    forall n | 0 < n <= |d| ensures !IsLink(t, Join(d[..n], SLASH)) {
      assert d[..n] == directory[..n];
    }
  }

  /** From a clean directory the archive resolver's restarting walk and the walk in place agree, and end clean. */
  lemma {:induction false} WalkIsInPlace(t: Tree, directory: seq<string>, pending: seq<string>, crossed: seq<string>)
    requires Clean(t, directory) && AllFree(pending, SLASH)
    ensures Walk(t, directory, pending, crossed) == InPlace(t, directory, pending, crossed)
    ensures var r := Walk(t, directory, pending, crossed); r.Ok? ==> Clean(t, r.value.0)
    decreases Links(t) - Elements(crossed), |pending|
  {
    if pending != [] {
      var component, rest := pending[0], pending[1..];
      if component == "" || component == "." {
        WalkIsInPlace(t, directory, rest, crossed);
      } else if component == ".." {
        if directory != [] {
          CleanParent(t, directory);
          WalkIsInPlace(t, directory[..|directory| - 1], rest, crossed);
        }
      } else {
        var current := Join(directory + [component], SLASH);
        if !IsLink(t, current) {
          CleanExtends(t, directory, component);
          WalkIsInPlace(t, directory + [component], rest, crossed);
        } else if current !in crossed {
          CrossingIsInPlace(t, directory, component, rest, crossed);
        }
      }
    }
  }

  lemma {:induction false} CrossingIsInPlace(t: Tree, directory: seq<string>, component: string, rest: seq<string>,
                                           crossed: seq<string>)
    requires Clean(t, directory) && Plain(component) && AllFree(rest, SLASH)
    requires IsLink(t, Join(directory + [component], SLASH))
    requires Join(directory + [component], SLASH) !in crossed
    ensures var current := Join(directory + [component], SLASH);
            var text := t[current].linkname;
            var r := Walk(t, [], RawComponents(current, text) + rest, crossed + [current]);
            && r == InPlace(t, LinkStart(text, directory), Split(text, SLASH) + rest, crossed + [current])
            && (r.Ok? ==> Clean(t, r.value.0))
    decreases Links(t) - Elements(crossed), 0
  {
    var current := Join(directory + [component], SLASH);
    var text := t[current].linkname;
    var start := LinkStart(text, directory);
    var after := Split(text, SLASH) + rest;
    RawOfResolved(directory, component, text);
    assert start + Split(text, SLASH) + rest == start + after;
    assert [] + start == start;
    Rewalk(t, [], start, after, crossed + [current]);
    SplitIsFree(text, SLASH);
    assert current in Links(t) - Elements(crossed);
    assert current !in Links(t) - Elements(crossed + [current]);
    WalkIsInPlace(t, start, after, crossed + [current]);
  }

  lemma RawIsFree(relative: string, linkname: string)
    ensures AllFree(RawComponents(relative, linkname), SLASH)
  {
    SplitIsFree(linkname, SLASH);
    SplitIsFree(Dirname(relative), SLASH);
  }

  // ---- The walk in place without any guard ----

  /** The walk in place for at most n steps: where it ends and the links it crosses, if it ends inside the root. */
  function Run(t: Tree, directory: seq<string>, pending: seq<string>, n: nat): Option<(seq<string>, seq<string>)>
    decreases n
  {
    if pending == [] then Some((directory, []))
    else if n == 0 then None
    else
      var component, rest := pending[0], pending[1..];
      if component == "" || component == "." then Run(t, directory, rest, n - 1)
      else if component == ".." then
        if directory == [] then None else Run(t, directory[..|directory| - 1], rest, n - 1)
      else
        var current := Join(directory + [component], SLASH);
        if IsLink(t, current) then
          var text := t[current].linkname;
          var r := Run(t, LinkStart(text, directory), Split(text, SLASH) + rest, n - 1);
          if r.Some? then Some((r.value.0, [current] + r.value.1)) else None
        else Run(t, directory + [component], rest, n - 1)
  }

  lemma {:induction false} InPlaceRuns(t: Tree, directory: seq<string>, pending: seq<string>, crossed: seq<string>)
    returns (n: nat)
    requires InPlace(t, directory, pending, crossed).Ok?
    ensures var (target, all) := InPlace(t, directory, pending, crossed).value;
            && crossed <= all
            && Run(t, directory, pending, n) == Some((target, all[|crossed|..]))
    decreases Links(t) - Elements(crossed), |pending|
  {
    if pending == [] {
      n := 0;
    } else {
      var component, rest := pending[0], pending[1..];
      if component == "" || component == "." {
        n := InPlaceRuns(t, directory, rest, crossed);
      } else if component == ".." {
        n := InPlaceRuns(t, directory[..|directory| - 1], rest, crossed);
      } else {
        var current := Join(directory + [component], SLASH);
        if !IsLink(t, current) {
          n := InPlaceRuns(t, directory + [component], rest, crossed);
        } else {
          var text := t[current].linkname;
          assert current in Links(t) - Elements(crossed);
          assert current !in Links(t) - Elements(crossed + [current]);
          n := InPlaceRuns(t, LinkStart(text, directory), Split(text, SLASH) + rest, crossed + [current]);
          var all := InPlace(t, directory, pending, crossed).value.1;
          assert (crossed + [current])[|crossed|] == all[|crossed|];
          assert [current] + all[|crossed| + 1..] == all[|crossed|..];
        }
      }
      n := n + 1;
    }
  }

  lemma {:induction false} RunsInPlace(t: Tree, directory: seq<string>, pending: seq<string>, crossed: seq<string>, n: nat)
    requires Run(t, directory, pending, n).Some?
    requires Distinct(crossed + Run(t, directory, pending, n).value.1)
    ensures var (target, more) := Run(t, directory, pending, n).value;
            InPlace(t, directory, pending, crossed) == Ok((target, crossed + more))
    decreases n
  {
    if pending == [] {
      assert crossed + [] == crossed;
    } else {
      var component, rest := pending[0], pending[1..];
      if component == "" || component == "." {
        RunsInPlace(t, directory, rest, crossed, n - 1);
      } else if component == ".." {
        RunsInPlace(t, directory[..|directory| - 1], rest, crossed, n - 1);
      } else {
        var current := Join(directory + [component], SLASH);
        if !IsLink(t, current) {
          RunsInPlace(t, directory + [component], rest, crossed, n - 1);
        } else {
          var text := t[current].linkname;
          var more := Run(t, LinkStart(text, directory), Split(text, SLASH) + rest, n - 1).value.1;
          var all := crossed + ([current] + more);
          assert all == crossed + [current] + more;
          assert all[|crossed|] == current && forall i :: 0 <= i < |crossed| ==> all[i] == crossed[i];
          RunsInPlace(t, LinkStart(text, directory), Split(text, SLASH) + rest, crossed + [current], n - 1);
        }
      }
    }
  }

  // ---- Main results ----

  /**
   * Exactness: the resolver accepts a link with a target and dependencies if and only if the unguarded walk of the
   * link map in place ends there and crosses exactly those links, each once.
   */
  lemma ResolutionIsExact(t: Tree, link: string, target: seq<string>, crossed: seq<string>)
    requires IsLink(t, link)
    ensures Resolve(t, link) == Ok((target, crossed)) <==>
            Distinct(crossed) &&
            exists n: nat :: Run(t, [], RawComponents(link, t[link].linkname), n) == Some((target, crossed))
  {
    var raw := RawComponents(link, t[link].linkname);
    RawIsFree(link, t[link].linkname);
    WalkIsInPlace(t, [], raw, []);
    if Resolve(t, link) == Ok((target, crossed)) {
      DependenciesDescend(t, link);
      var n := InPlaceRuns(t, [], raw, []);
      assert crossed[0..] == crossed;
    }
    if n: nat :| Run(t, [], raw, n) == Some((target, crossed)) && Distinct(crossed) {
      assert [] + crossed == crossed;
      RunsInPlace(t, [], raw, [], n);
    }
  }

  /** A resolved target stays inside the root and no prefix of it, nor the target itself, is a symbolic link. */
  lemma TargetIsClean(t: Tree, link: string)
    requires IsLink(t, link) && Resolve(t, link).Ok?
    ensures Clean(t, Resolve(t, link).value.0)
  {
    RawIsFree(link, t[link].linkname);
    WalkIsInPlace(t, [], RawComponents(link, t[link].linkname), []);
  }
}
