/**
 * Symbolic link resolution of the Debian tools archive (mkosi/debian/extract_tree.py).
 *
 * The archive resolver walks a link target component by component. Whenever the walk meets a symbolic link it
 * starts over at the root with the link's textual parent directory, the link text and the components still pending.
 */
module LinkPaths {
  import opened Prelude
  import opened Text

  const SLASH: char := '/'

  datatype Member =
    | Regular
    | Directory
    | Symlink(linkname: string)
    | Hardlink(linkname: string)
    | Special

  /** The archive members by path (`members_by_path`). */
  type Tree = map<string, Member>

  predicate IsLink(t: Tree, path: string) {
    path in t && t[path].Symlink?
  }

  function Links(t: Tree): set<string> {
    set path | path in t && t[path].Symlink?
  }

  datatype LinkError =
    | EscapesRoot
    | WalkCycle(link: string)
    | BoundExceeded
    | VisitCycle(link: string)
    | Dangling(link: string)

  // ---- os.path.dirname ----

  function Head(p: string): string {
    if p == [] || p[|p| - 1] == SLASH then p else Head(p[..|p| - 1])
  }

  function StripSlashes(p: string): string {
    if p != [] && p[|p| - 1] == SLASH then StripSlashes(p[..|p| - 1]) else p
  }

  function Dirname(p: string): string {
    var head := Head(p);
    if forall c :: c in head ==> c == SLASH then head else StripSlashes(head)
  }

  function RawComponents(relative: string, linkname: string): (r: seq<string>)
  {
    if linkname != [] && linkname[0] == SLASH then Split(linkname, SLASH)
    else
      var directory := Dirname(relative);
      (if directory == [] then [] else Split(directory, SLASH)) + Split(linkname, SLASH)
  }

  // ---- The walk ----

  type Walked = Result<(seq<string>, seq<string>), LinkError>

  /**
   * The archive resolver's walk from the components resolved so far: the final components and every link crossed,
   * in order, or the reason for stopping.
   */
  function Walk(t: Tree, resolved: seq<string>, pending: seq<string>, crossed: seq<string>): Walked
    decreases Links(t) - Elements(crossed), |pending|
  {
    if pending == [] then Ok((resolved, crossed))
    else
      var component, rest := pending[0], pending[1..];
      if component == "" || component == "." then Walk(t, resolved, rest, crossed)
      else if component == ".." then
        if resolved == [] then Err(EscapesRoot) else Walk(t, resolved[..|resolved| - 1], rest, crossed)
      else
        var current := Join(resolved + [component], SLASH);
        if IsLink(t, current) then
          if current in crossed then Err(WalkCycle(current))
          else
            assert current in Links(t) - Elements(crossed);
            assert current !in Links(t) - Elements(crossed + [current]);
            Walk(t, [], RawComponents(current, t[current].linkname) + rest, crossed + [current])
        else Walk(t, resolved + [component], rest, crossed)
  }

  function Resolve(t: Tree, link: string): Walked
    requires IsLink(t, link)
  {
    Walk(t, [], RawComponents(link, t[link].linkname), [])
  }

  /** The links that resolving a link crosses, in order (`_resolve_link_path`'s dependencies). */
  function Dependencies(t: Tree, link: string): seq<string>
    requires IsLink(t, link)
  {
    var r := Resolve(t, link);
    if r.Ok? then r.value.1 else []
  }

  /**
   * `_resolve_link_path`: the loop over mutable component lists computes the walk, and its resolution bound never
   * fires.
   */
  method ResolveLinkPath(t: Tree, relative: string) returns (r: Result<(string, seq<string>), LinkError>)
    requires IsLink(t, relative)
    ensures r.Err? ==> r.error.EscapesRoot? || r.error.WalkCycle?
    ensures match Resolve(t, relative)
            case Ok((target, crossed)) => r == Ok((Join(target, SLASH), crossed))
            case Err(e) => r == Err(e)
  {
    var links := Links(t);
    var components := RawComponents(relative, t[relative].linkname);
    var resolved: seq<string> := [];
    var dependencies: seq<string> := [];
    var seen: set<string> := {};
    var resolutions := 0;
    while components != []
      invariant Walk(t, resolved, components, dependencies) == Resolve(t, relative)
      invariant seen == Elements(dependencies) && seen <= links
      invariant Distinct(dependencies) && resolutions == |dependencies|
      decreases links - seen, |components|
    {
      var component := components[0];
      components := components[1..];
      if component == "" || component == "." {
        continue;
      }
      if component == ".." {
        if resolved == [] {
          return Err(EscapesRoot);
        }
        resolved := resolved[..|resolved| - 1];
        continue;
      }
      resolved := resolved + [component];
      var current := Join(resolved, SLASH);
      if IsLink(t, current) {
        if current in seen {
          return Err(WalkCycle(current));
        }
        assert current in links - seen;
        seen := seen + {current};
        dependencies := dependencies + [current];
        resolved := [];
        components := RawComponents(current, t[current].linkname) + components;
        resolutions := resolutions + 1;
        DistinctBound(dependencies, links);
        if resolutions > |links| + |components| + 1 {
          return Err(BoundExceeded);
        }
      }
    }
    return Ok((Join(resolved, SLASH), dependencies));
  }

  // ---- What every walk keeps ----

  lemma {:induction false} CrossedGrows(t: Tree, resolved: seq<string>, pending: seq<string>, crossed: seq<string>)
    requires Distinct(crossed) && Elements(crossed) <= Links(t)
    ensures var r := Walk(t, resolved, pending, crossed);
            r.Ok? ==> crossed <= r.value.1 && Distinct(r.value.1) && Elements(r.value.1) <= Links(t)
    decreases Links(t) - Elements(crossed), |pending|
  {
    if pending != [] {
      var component, rest := pending[0], pending[1..];
      if component == "" || component == "." {
        CrossedGrows(t, resolved, rest, crossed);
      } else if component == ".." {
        if resolved != [] {
          CrossedGrows(t, resolved[..|resolved| - 1], rest, crossed);
        }
      } else {
        var current := Join(resolved + [component], SLASH);
        if !IsLink(t, current) {
          CrossedGrows(t, resolved + [component], rest, crossed);
        } else if current !in crossed {
          assert current in Links(t) - Elements(crossed);
          assert current !in Links(t) - Elements(crossed + [current]);
          CrossedGrows(t, [], RawComponents(current, t[current].linkname) + rest, crossed + [current]);
        }
      }
    }
  }

  // ---- The suffix theorem ----

  /**
   * Decoupling: a walk that succeeds with more components behind it, and with more links already crossed before it,
   * also succeeds alone, and crosses a contiguous run of the same links.
   */
  lemma {:induction false} Decouple(t: Tree, resolved: seq<string>, pending: seq<string>, rest: seq<string>,
                                    before: seq<string>, crossed: seq<string>)
    requires Distinct(before + crossed) && Elements(before + crossed) <= Links(t)
    requires Walk(t, resolved, pending + rest, before + crossed).Ok?
    ensures Walk(t, resolved, pending, crossed).Ok?
    ensures before + Walk(t, resolved, pending, crossed).value.1
            <= Walk(t, resolved, pending + rest, before + crossed).value.1
    decreases Links(t) - Elements(before + crossed), |pending|
  {
    if pending == [] {
      CrossedGrows(t, resolved, pending + rest, before + crossed);
    } else {
      var component, tail := pending[0], pending[1..];
      assert (pending + rest)[0] == component && (pending + rest)[1..] == tail + rest;
      if component == "" || component == "." {
        Decouple(t, resolved, tail, rest, before, crossed);
      } else if component == ".." {
        Decouple(t, resolved[..|resolved| - 1], tail, rest, before, crossed);
      } else {
        var current := Join(resolved + [component], SLASH);
        if !IsLink(t, current) {
          Decouple(t, resolved + [component], tail, rest, before, crossed);
        } else {
          DecoupleLink(t, current, tail, rest, before, crossed);
          var raw := RawComponents(current, t[current].linkname);
          Decouple(t, [], raw + tail, rest, before, crossed + [current]);
        }
      }
    }
  }

  lemma DecoupleLink(t: Tree, current: string, tail: seq<string>, rest: seq<string>,
                     before: seq<string>, crossed: seq<string>)
    requires IsLink(t, current) && current !in before + crossed
    ensures var raw := RawComponents(current, t[current].linkname);
            raw + (tail + rest) == raw + tail + rest
    ensures before + crossed + [current] == before + (crossed + [current])
    ensures current in Links(t) - Elements(before + crossed)
    ensures Links(t) - Elements(before + (crossed + [current])) < Links(t) - Elements(before + crossed)
    ensures current !in crossed
  {
    assert before + crossed + [current] == before + (crossed + [current]);
    assert current !in Links(t) - Elements(before + (crossed + [current]));
    assert Elements(before + crossed) <= Elements(before + (crossed + [current]));
  }

  /** At the moment the walk crosses its i-th link, the rest of the walk is a walk of that link's raw components. */
  lemma {:induction false} AtCrossing(t: Tree, resolved: seq<string>, pending: seq<string>, crossed: seq<string>, i: nat)
    returns (rest: seq<string>)
    requires Distinct(crossed) && Elements(crossed) <= Links(t)
    requires Walk(t, resolved, pending, crossed).Ok?
    requires |crossed| <= i < |Walk(t, resolved, pending, crossed).value.1|
    ensures var all := Walk(t, resolved, pending, crossed).value.1;
            && IsLink(t, all[i])
            && Distinct(all[..i + 1]) && Elements(all[..i + 1]) <= Links(t)
            && Walk(t, [], RawComponents(all[i], t[all[i]].linkname) + rest, all[..i + 1])
               == Walk(t, resolved, pending, crossed)
    decreases Links(t) - Elements(crossed), |pending|
  {
    var component, tail := pending[0], pending[1..];
    if component == "" || component == "." {
      rest := AtCrossing(t, resolved, tail, crossed, i);
    } else if component == ".." {
      rest := AtCrossing(t, resolved[..|resolved| - 1], tail, crossed, i);
    } else {
      var current := Join(resolved + [component], SLASH);
      if !IsLink(t, current) {
        rest := AtCrossing(t, resolved + [component], tail, crossed, i);
      } else {
        var next := RawComponents(current, t[current].linkname) + tail;
        assert current in Links(t) - Elements(crossed);
        assert current !in Links(t) - Elements(crossed + [current]);
        CrossedGrows(t, [], next, crossed + [current]);
        if i == |crossed| {
          rest := tail;
          assert Walk(t, [], next, crossed + [current]).value.1[..i + 1] == crossed + [current];
        } else {
          rest := AtCrossing(t, [], next, crossed + [current], i);
        }
      }
    }
  }

  /**
   * Suffix theorem: if resolving a link succeeds and crosses link d as its i-th dependency, then resolving d alone
   * succeeds, and the dependencies of d are the run of dependencies right after d.
   */
  lemma SuffixTheorem(t: Tree, link: string, i: nat)
    requires IsLink(t, link) && Resolve(t, link).Ok?
    requires i < |Dependencies(t, link)|
    ensures var d := Dependencies(t, link)[i];
            && IsLink(t, d) && Resolve(t, d).Ok?
            && Dependencies(t, d) <= Dependencies(t, link)[i + 1..]
  {
    var raw := RawComponents(link, t[link].linkname);
    var all := Dependencies(t, link);
    var rest := AtCrossing(t, [], raw, [], i);
    var d := all[i];
    var mine := RawComponents(d, t[d].linkname);
    assert all[..i + 1] + [] == all[..i + 1];
    Decouple(t, [], mine, rest, all[..i + 1], []);
    assert all[..i + 1] + Dependencies(t, d) <= all;
    assert all[i + 1..] == all[|all[..i + 1]|..];
  }

  /** Dependencies are links, occur once, have strictly fewer dependencies, and never include the link itself. */
  lemma DependenciesDescend(t: Tree, link: string)
    requires IsLink(t, link)
    ensures Distinct(Dependencies(t, link)) && link !in Dependencies(t, link)
    ensures forall d :: d in Dependencies(t, link) ==>
              IsLink(t, d) && Resolve(t, d).Ok? && |Dependencies(t, d)| < |Dependencies(t, link)|
  {
    CrossedGrows(t, [], RawComponents(link, t[link].linkname), []);
    forall d | d in Dependencies(t, link)
      ensures IsLink(t, d) && Resolve(t, d).Ok? && |Dependencies(t, d)| < |Dependencies(t, link)|
    {
      var i :| 0 <= i < |Dependencies(t, link)| && Dependencies(t, link)[i] == d;
      SuffixTheorem(t, link, i);
    }
  }
}
