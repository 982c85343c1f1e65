/**
 * Following the created links (mkosi/debian/extract_tree.py): how an operating system walks a path in the extracted
 * tree, where every directory on the way has to stand, and when that leads to the target the archive resolver found.
 */
module KernelWalk {
  import opened Prelude
  import opened Text
  import opened LinkPaths
  import opened LinkSemantics
  import opened FileTree
  import opened RelativeLinks

  // ---- The operating system ----

  predicate Standing(nodes: Nodes, directory: Parts) {
    directory == [] || IsDir(nodes, directory)
  }

  /**
   * The walk of a path in a tree, across at most n links: each component is looked up in a directory, and has to be
   * there. A path that leaves the tree, upwards or by an absolute link, leads to nothing in it.
   */
  function Kernel(nodes: Nodes, directory: Parts, pending: Parts, n: nat): Option<Parts>
    decreases n, |pending|
  {
    if pending == [] then Some(directory)
    else if !Standing(nodes, directory) then None
    else
      var component, rest := pending[0], pending[1..];
      if component == "" || component == "." then Kernel(nodes, directory, rest, n)
      else if component == ".." then
        if directory == [] then None else Kernel(nodes, directory[..|directory| - 1], rest, n)
      else
        var p := directory + [component];
        if p !in nodes then None
        else if nodes[p].Link? then
          var text := nodes[p].text;
          if n == 0 || IsAbsolute(text) then None else Kernel(nodes, directory, Split(text, SLASH) + rest, n - 1)
        else Kernel(nodes, p, rest, n)
  }

  // ---- The link map as it is written ----

  function WrittenMember(t: Tree, name: string): Member
    requires name in t
  {
    if t[name].Symlink? && Resolve(t, name).Ok? then Symlink(LinkText(t, name)) else t[name]
  }

  /** The archive with the link texts that are written. */
  function Written(t: Tree): (w: Tree)
    ensures w.Keys == t.Keys && forall name :: name in t ==> w[name] == WrittenMember(t, name)
    ensures Links(w) == Links(t) && forall name :: IsLink(w, name) <==> IsLink(t, name)
  {
    var w := map name | name in t :: WrittenMember(t, name);
    assert Links(w) == Links(t);
    w
  }

  /** What a walk of one part of a path leaves to the rest. */
  lemma {:induction false} InPlaceConcat(t: Tree, directory: Parts, pending: Parts, rest: Parts, crossed: seq<string>)
    requires InPlace(t, directory, pending + rest, crossed).Ok?
    ensures var r := InPlace(t, directory, pending, crossed);
            && r.Ok? && crossed <= r.value.1
            && InPlace(t, directory, pending + rest, crossed) == InPlace(t, r.value.0, rest, r.value.1)
    decreases Links(t) - Elements(crossed), |pending|
  {
    if pending == [] {
      assert pending + rest == rest;
    } else {
      var component, tail := pending[0], pending[1..];
      assert (pending + rest)[0] == component && (pending + rest)[1..] == tail + rest;
      if component == "" || component == "." {
        InPlaceConcat(t, directory, tail, rest, crossed);
      } else if component == ".." {
        InPlaceConcat(t, directory[..|directory| - 1], tail, rest, crossed);
      } else {
        var current := Join(directory + [component], SLASH);
        if !IsLink(t, current) {
          InPlaceConcat(t, directory + [component], tail, rest, crossed);
        } else {
          var text := t[current].linkname;
          assert current in Links(t) - Elements(crossed);
          assert current !in Links(t) - Elements(crossed + [current]);
          assert Split(text, SLASH) + (tail + rest) == Split(text, SLASH) + tail + rest;
          InPlaceConcat(t, LinkStart(text, directory), Split(text, SLASH) + tail, rest, crossed + [current]);
        }
      }
    }
  }

  lemma ElementsGrow(fewer: seq<string>, crossed: seq<string>, current: string)
    requires Elements(fewer) <= Elements(crossed)
    ensures Elements(fewer + [current]) <= Elements(crossed + [current])
  {
    forall x | x in fewer + [current] ensures x in crossed + [current] {
      assert x in Elements(fewer) || x == current;
    }
  }

  /** A walk that ends also ends, and at the same place, when fewer links count as crossed before it. */
  lemma {:induction false} InPlaceFewer(t: Tree, directory: Parts, pending: Parts, crossed: seq<string>,
                                        fewer: seq<string>)
    requires InPlace(t, directory, pending, crossed).Ok? && Elements(fewer) <= Elements(crossed)
    ensures var r := InPlace(t, directory, pending, fewer);
            r.Ok? && r.value.0 == InPlace(t, directory, pending, crossed).value.0
    decreases Links(t) - Elements(crossed), |pending|
  {
    if pending != [] {
      var component, rest := pending[0], pending[1..];
      if component == "" || component == "." {
        InPlaceFewer(t, directory, rest, crossed, fewer);
      } else if component == ".." {
        InPlaceFewer(t, directory[..|directory| - 1], rest, crossed, fewer);
      } else {
        var current := Join(directory + [component], SLASH);
        if !IsLink(t, current) {
          InPlaceFewer(t, directory + [component], rest, crossed, fewer);
        } else {
          var text := t[current].linkname;
          assert current in Links(t) - Elements(crossed);
          assert current !in Links(t) - Elements(crossed + [current]);
          assert current !in Elements(crossed) && current !in fewer;
          ElementsGrow(fewer, crossed, current);
          InPlaceFewer(t, LinkStart(text, directory), Split(text, SLASH) + rest, crossed + [current],
                       fewer + [current]);
        }
      }
    }
  }

  lemma DirectoryOfJoin(directory: Parts, name: string)
    requires AllPlain(directory) && Plain(name)
    ensures PartsOf(Join(directory + [name], SLASH)) == directory + [name]
    ensures DirectoryOf(Join(directory + [name], SLASH)) == directory
  {
    SplitJoin(directory + [name], SLASH);
  }

  /** The text of an absolute link walks to its target, whatever follows and whatever was crossed before. */
  lemma AbsoluteLeads(t: Tree, link: string, rest: Parts, crossed: seq<string>)
    returns (all: seq<string>)
    requires IsLink(t, link) && IsAbsolute(t[link].linkname)
    requires InPlace(t, [], Split(t[link].linkname, SLASH) + rest, crossed).Ok?
    ensures Resolve(t, link).Ok? && crossed <= all
    ensures InPlace(t, [], Split(t[link].linkname, SLASH) + rest, crossed)
            == InPlace(t, Resolve(t, link).value.0, rest, all)
  {
    var raw := Split(t[link].linkname, SLASH);
    InPlaceConcat(t, [], raw, rest, crossed);
    all := InPlace(t, [], raw, crossed).value.1;
    InPlaceFewer(t, [], raw, crossed, []);
    SplitIsFree(t[link].linkname, SLASH);
    WalkIsInPlace(t, [], raw, []);
  }

  /** Rewriting the absolute links leaves the end of every walk as it was. */
  lemma {:induction false} WrittenWalk(t: Tree, directory: Parts, pending: Parts, crossed: seq<string>,
                                       fewer: seq<string>)
    requires Clean(t, directory) && AllFree(pending, SLASH) && Elements(fewer) <= Elements(crossed)
    requires InPlace(t, directory, pending, crossed).Ok?
    ensures var r := InPlace(Written(t), directory, pending, fewer);
            r.Ok? && r.value.0 == InPlace(t, directory, pending, crossed).value.0
    decreases Links(t) - Elements(crossed), |pending|
  {
    if pending != [] {
      var component, rest := pending[0], pending[1..];
      if component == "" || component == "." {
        WrittenWalk(t, directory, rest, crossed, fewer);
      } else if component == ".." {
        CleanParent(t, directory);
        WrittenWalk(t, directory[..|directory| - 1], rest, crossed, fewer);
      } else {
        var current := Join(directory + [component], SLASH);
        if !IsLink(t, current) {
          CleanExtends(t, directory, component);
          WrittenWalk(t, directory + [component], rest, crossed, fewer);
        } else {
          WrittenCrossing(t, directory, component, rest, crossed, fewer);
        }
      }
    }
  }

  lemma {:induction false} WrittenCrossing(t: Tree, directory: Parts, component: string, rest: Parts,
                                           crossed: seq<string>, fewer: seq<string>)
    requires Clean(t, directory) && Plain(component) && AllFree(rest, SLASH) && Elements(fewer) <= Elements(crossed)
    requires InPlace(t, directory, [component] + rest, crossed).Ok?
    requires IsLink(t, Join(directory + [component], SLASH))
    ensures var r := InPlace(Written(t), directory, [component] + rest, fewer);
            r.Ok? && r.value.0 == InPlace(t, directory, [component] + rest, crossed).value.0
    decreases Links(t) - Elements(crossed), 0
  {
    var w, current := Written(t), Join(directory + [component], SLASH);
    var text := t[current].linkname;
    assert ([component] + rest)[1..] == rest;
    assert current in Links(t) - Elements(crossed);
    assert current !in Elements(crossed) && current !in fewer;
    SplitIsFree(text, SLASH);
    ElementsGrow(fewer, crossed, current);
    if IsAbsolute(text) {
      var all := AbsoluteLeads(t, current, rest, crossed + [current]);
      var target := Resolve(t, current).value.0;
      TargetIsClean(t, current);
      assert (crossed + [current])[|crossed|] == all[|crossed|];
      assert current in all && current !in Links(t) - Elements(all);
      assert Elements(fewer + [current]) <= Elements(crossed + [current]) <= Elements(all);
      WrittenWalk(t, target, rest, all, fewer + [current]);
      DirectoryOfJoin(directory, component);
      CleanAlike(t, w, target);
      RelativeTextLeads(w, target, directory, rest, fewer + [current]);
      TextIsRelative(t, current);
    } else {
      assert current !in Links(t) - Elements(crossed + [current]);
      WrittenWalk(t, directory, Split(text, SLASH) + rest, crossed + [current], fewer + [current]);
    }
  }

  lemma CleanAlike(t: Tree, w: Tree, directory: Parts)
    requires forall name :: IsLink(w, name) <==> IsLink(t, name)
    ensures Clean(w, directory) <==> Clean(t, directory)
  {
  }

  /**
   * Following a link that stands in a directory of the tree: the walk of the written map crosses it first and ends
   * where the archive's text resolves to.
   */
  lemma WrittenResolves(t: Tree, link: string)
    requires IsLink(t, link) && Normal(link) && Resolve(t, link).Ok? && Clean(t, DirectoryOf(link))
    ensures var r := InPlace(Written(t), [], PartsOf(link), []);
            r.Ok? && r.value.0 == Resolve(t, link).value.0
  {
    hide Resolve, Written;
    var p, text := PartsOf(link), t[link].linkname;
    var directory, name := DirectoryOf(link), p[|p| - 1];
    JoinSplit(link, SLASH);
    assert p == directory + [name];
    ResolvesInPlace(t, directory, name);
    CrossesItself(t, directory, name);
    assert p[0..] == p && p[..0] == [];
    assert directory[0..] == directory && directory[..0] == [];
    WalkDown(t, directory, 0, [name], []);
    SplitIsFree(link, SLASH);
    WrittenWalk(t, [], p, [], []);
  }

  /** The resolver's walk of a link in a clean directory is the walk of its text from there. */
  lemma ResolvesInPlace(t: Tree, directory: Parts, name: string)
    requires Clean(t, directory) && Plain(name) && IsLink(t, Join(directory + [name], SLASH))
    ensures var link := Join(directory + [name], SLASH);
            var text := t[link].linkname;
            Resolve(t, link) == InPlace(t, LinkStart(text, directory), Split(text, SLASH), [])
  {
    var link := Join(directory + [name], SLASH);
    var text := t[link].linkname;
    var start := LinkStart(text, directory);
    RawOfResolved(directory, name, text);
    assert [] + start == start;
    Rewalk(t, [], start, Split(text, SLASH), []);
    SplitIsFree(text, SLASH);
    WalkIsInPlace(t, start, Split(text, SLASH), []);
  }

  /** A link that resolves is not crossed again. */
  lemma CrossesItself(t: Tree, directory: Parts, name: string)
    requires Clean(t, directory) && Plain(name) && IsLink(t, Join(directory + [name], SLASH))
    requires Resolve(t, Join(directory + [name], SLASH)).Ok?
    ensures var r := InPlace(t, directory, [name], []);
            r.Ok? && r.value.0 == Resolve(t, Join(directory + [name], SLASH)).value.0
  {
    hide Resolve, Dependencies;
    var link := Join(directory + [name], SLASH);
    var text := t[link].linkname;
    var start, raw := LinkStart(text, directory), Split(text, SLASH);
    ResolvesInPlace(t, directory, name);
    DependenciesDescend(t, link);
    DependenciesAre(t, link);
    var n := InPlaceRuns(t, start, raw, []);
    var all := Dependencies(t, link);
    assert all[0..] == all;
    assert [name][1..] == [] && raw + [] == raw;
    RunsInPlace(t, start, raw, [link], n);
    assert [] + [link] == [link];
    assert InPlace(t, directory, [name], []) == InPlace(t, start, raw, [link]);
  }

  lemma DependenciesAre(t: Tree, link: string)
    requires IsLink(t, link) && Resolve(t, link).Ok?
    ensures Dependencies(t, link) == Resolve(t, link).value.1
  {
  }

  // ---- The tree against the map ----

  /** The links of a tree are those of a map, with the same texts, and none of the texts is absolute. */
  ghost predicate Mirrors(nodes: Nodes, w: Tree) {
    && Rooted(nodes)
    && (forall link :: IsLink(w, link) ==> && Normal(link) && !IsAbsolute(w[link].linkname)
                                           && PartsOf(link) in nodes
                                           && nodes[PartsOf(link)] == Link(w[link].linkname))
    && (forall p :: p in nodes && nodes[p].Link? ==> IsLink(w, Join(p, SLASH)))
  }

  /** The directories that the walk in place looks a component up in. */
  function Passed(t: Tree, directory: Parts, pending: Parts, crossed: seq<string>): seq<Parts>
    decreases Links(t) - Elements(crossed), |pending|
  {
    if pending == [] then []
    else
      var component, rest := pending[0], pending[1..];
      [directory] +
      if component == "" || component == "." then Passed(t, directory, rest, crossed)
      else if component == ".." then
        if directory == [] then [] else Passed(t, directory[..|directory| - 1], rest, crossed)
      else
        var current := Join(directory + [component], SLASH);
        if IsLink(t, current) then
          if current in crossed then []
          else
            var text := t[current].linkname;
            assert current in Links(t) - Elements(crossed);
            assert current !in Links(t) - Elements(crossed + [current]);
            Passed(t, LinkStart(text, directory), Split(text, SLASH) + rest, crossed + [current])
        else Passed(t, directory + [component], rest, crossed)
  }

  ghost predicate AllStanding(nodes: Nodes, directories: seq<Parts>) {
    forall i :: 0 <= i < |directories| ==> Standing(nodes, directories[i])
  }

  lemma AllStandingCons(nodes: Nodes, d: Parts, ds: seq<Parts>)
    ensures AllStanding(nodes, [d] + ds) <==> Standing(nodes, d) && AllStanding(nodes, ds)
  {
    var all := [d] + ds;
    assert all[0] == d && all[1..] == ds;
    if AllStanding(nodes, all) {
      forall i | 0 <= i < |ds| ensures Standing(nodes, ds[i]) {
        assert all[i + 1] == ds[i];
      }
    }
  }

  /** What an operating system makes of a walk in place that ends. */
  ghost predicate Follows(nodes: Nodes, t: Tree, directory: Parts, pending: Parts, crossed: seq<string>, n: nat)
    requires InPlace(t, directory, pending, crossed).Ok?
  {
    var (target, all) := InPlace(t, directory, pending, crossed).value;
    Kernel(nodes, directory, pending, n)
    == if && AllStanding(nodes, Passed(t, directory, pending, crossed)) && Exists(nodes, target)
          && |all| - |crossed| <= n
       then Some(target) else None
  }

  lemma {:induction false} InPlaceGrows(t: Tree, directory: Parts, pending: Parts, crossed: seq<string>)
    requires InPlace(t, directory, pending, crossed).Ok?
    ensures crossed <= InPlace(t, directory, pending, crossed).value.1
  {
    assert pending + [] == pending;
    InPlaceConcat(t, directory, pending, [], crossed);
  }

  lemma {:induction false} KernelFollows(nodes: Nodes, w: Tree, directory: Parts, pending: Parts, crossed: seq<string>,
                                         n: nat)
    requires Mirrors(nodes, w) && Clean(w, directory) && AllFree(pending, SLASH) && Exists(nodes, directory)
    requires InPlace(w, directory, pending, crossed).Ok?
    ensures Follows(nodes, w, directory, pending, crossed, n)
    decreases Links(w) - Elements(crossed), |pending|
  {
    InPlaceGrows(w, directory, pending, crossed);
    if pending != [] {
      var component, rest := pending[0], pending[1..];
      hide Clean, Mirrors, AllStanding;
      var all := Passed(w, directory, pending, crossed);
      AllStandingCons(nodes, directory, all[1..]);
      assert all == [directory] + all[1..];
      if !Standing(nodes, directory) {
      } else if component == "" || component == "." {
        KernelFollows(nodes, w, directory, rest, crossed, n);
      } else if component == ".." {
        var up := directory[..|directory| - 1];
        CleanParent(w, directory);
        ParentStands(nodes, w, directory);
        KernelFollows(nodes, w, up, rest, crossed, n);
      } else {
        KernelSteps(nodes, w, directory, component, rest, crossed, n);
        assert pending == [component] + rest;
      }
    }
  }

  lemma ParentStands(nodes: Nodes, w: Tree, directory: Parts)
    requires Mirrors(nodes, w) && directory != [] && IsDir(nodes, directory)
    ensures Standing(nodes, directory[..|directory| - 1])
  {
    if |directory| > 1 {
      assert IsDir(nodes, directory[..|directory| - 1]);
    }
  }

  /** The next component is a name: it is missing, or a link, or something below the directory. */
  lemma {:induction false} KernelSteps(nodes: Nodes, w: Tree, directory: Parts, component: string, rest: Parts,
                                       crossed: seq<string>, n: nat)
    requires Mirrors(nodes, w) && Clean(w, directory) && Plain(component) && AllFree(rest, SLASH)
    requires Standing(nodes, directory)
    requires InPlace(w, directory, [component] + rest, crossed).Ok?
    ensures Follows(nodes, w, directory, [component] + rest, crossed, n)
    decreases Links(w) - Elements(crossed), |rest| + 1, 0
  {
    var p, pending := directory + [component], [component] + rest;
    var current := Join(p, SLASH);
    assert pending[1..] == rest;
    var all := Passed(w, directory, pending, crossed);
    AllStandingCons(nodes, directory, all[1..]);
    assert all == [directory] + all[1..];
    InPlaceGrows(w, directory, pending, crossed);
    DirectoryOfJoin(directory, component);
    MirroredName(nodes, w, p);
    hide Clean, Mirrors, AllStanding;
    if IsLink(w, current) {
      KernelCrosses(nodes, w, directory, component, rest, crossed, n);
    } else if p in nodes {
      CleanExtends(w, directory, component);
      KernelFollows(nodes, w, p, rest, crossed, n);
    } else if rest == [] {
      assert InPlace(w, directory, pending, crossed).value.0 == p;
    } else {
      NotPassed(nodes, w, p, rest, crossed);
    }
  }

  lemma MirroredName(nodes: Nodes, w: Tree, p: Parts)
    requires Mirrors(nodes, w) && PartsOf(Join(p, SLASH)) == p
    ensures p in nodes && nodes[p].Link? <==> IsLink(w, Join(p, SLASH))
    ensures IsLink(w, Join(p, SLASH)) ==> nodes[p].text == w[Join(p, SLASH)].linkname && !IsAbsolute(nodes[p].text)
  {
  }

  lemma NotPassed(nodes: Nodes, w: Tree, p: Parts, rest: Parts, crossed: seq<string>)
    requires !Standing(nodes, p) && rest != []
    ensures !AllStanding(nodes, Passed(w, p, rest, crossed))
  {
    assert Passed(w, p, rest, crossed)[0] == p;
  }

  lemma {:induction false} KernelCrosses(nodes: Nodes, w: Tree, directory: Parts, component: string, rest: Parts,
                                         crossed: seq<string>, n: nat)
    requires Mirrors(nodes, w) && Clean(w, directory) && Plain(component) && AllFree(rest, SLASH)
    requires Standing(nodes, directory) && IsLink(w, Join(directory + [component], SLASH))
    requires InPlace(w, directory, [component] + rest, crossed).Ok?
    ensures Follows(nodes, w, directory, [component] + rest, crossed, n)
    decreases Links(w) - Elements(crossed), 0, 0
  {
    hide Mirrors, AllStanding, InPlace, Passed, Kernel, Join, Split;
    var current := Join(directory + [component], SLASH);
    var text := w[current].linkname;
    DirectoryOfJoin(directory, component);
    MirroredName(nodes, w, directory + [component]);
    CrossingSteps(w, directory, component, rest, crossed);
    var pending := Split(text, SLASH) + rest;
    KernelAtLink(nodes, directory, component, rest, n);
    AllStandingCons(nodes, directory, Passed(w, directory, pending, crossed + [current]));
    assert current in Links(w) - Elements(crossed);
    assert current !in Links(w) - Elements(crossed + [current]);
    SplitIsFree(text, SLASH);
    InPlaceGrows(w, directory, pending, crossed + [current]);
    if n > 0 {
      KernelFollows(nodes, w, directory, pending, crossed + [current], n - 1);
    }
  }

  lemma CrossingSteps(w: Tree, directory: Parts, component: string, rest: Parts, crossed: seq<string>)
    requires Plain(component) && IsLink(w, Join(directory + [component], SLASH))
    requires !IsAbsolute(w[Join(directory + [component], SLASH)].linkname)
    requires InPlace(w, directory, [component] + rest, crossed).Ok?
    ensures var current := Join(directory + [component], SLASH);
            var pending := Split(w[current].linkname, SLASH) + rest;
            && current !in crossed
            && InPlace(w, directory, [component] + rest, crossed) == InPlace(w, directory, pending, crossed + [current])
            && Passed(w, directory, [component] + rest, crossed)
               == [directory] + Passed(w, directory, pending, crossed + [current])
  {
    assert ([component] + rest)[1..] == rest;
  }

  lemma KernelAtLink(nodes: Nodes, directory: Parts, component: string, rest: Parts, n: nat)
    requires Standing(nodes, directory) && Plain(component) && directory + [component] in nodes
    requires nodes[directory + [component]].Link? && !IsAbsolute(nodes[directory + [component]].text)
    ensures Kernel(nodes, directory, [component] + rest, n)
            == if n == 0 then None
               else Kernel(nodes, directory, Split(nodes[directory + [component]].text, SLASH) + rest, n - 1)
  {
    assert ([component] + rest)[1..] == rest;
  }

  // ---- The created links ----

  /** The links of the archive stand in a tree, each with the text that is written for it, and no others do. */
  ghost predicate LinksStand(t: Tree, nodes: Nodes) {
    && Rooted(nodes)
    && (forall link :: IsLink(t, link) ==> && Normal(link) && Resolve(t, link).Ok? && PartsOf(link) in nodes
                                           && nodes[PartsOf(link)] == Link(LinkText(t, link)))
    && (forall p :: p in nodes && nodes[p].Link? ==> IsLink(t, Join(p, SLASH)))
  }

  lemma StandingMirrors(t: Tree, nodes: Nodes)
    requires LinksStand(t, nodes)
    ensures Mirrors(nodes, Written(t))
  {
    hide Resolve, LinkText, Normal, PartsOf;
    var w := Written(t);
    forall link | IsLink(w, link)
      ensures && Normal(link) && !IsAbsolute(w[link].linkname) && PartsOf(link) in nodes
              && nodes[PartsOf(link)] == Link(w[link].linkname)
    {
      TextIsRelative(t, link);
      assert w[link] == WrittenMember(t, link);
    }
  }

  /** A link that stands in the tree stands in a directory, so no ancestor of it is a link. */
  lemma StandsInDirectory(t: Tree, nodes: Nodes, link: string)
    requires LinksStand(t, nodes) && IsLink(t, link)
    ensures Clean(t, DirectoryOf(link))
  {
    var p, directory := PartsOf(link), DirectoryOf(link);
    LinkStands(t, nodes, link);
    hide LinksStand, IsLink, Normal;
    forall k | 0 < k <= |directory| ensures !IsLink(t, Join(directory[..k], SLASH)) {
      assert directory[..k] == p[..k];
      DirectoryIsNoLink(t, nodes, p[..k]);
    }
  }

  lemma LinkStands(t: Tree, nodes: Nodes, link: string)
    requires LinksStand(t, nodes) && IsLink(t, link)
    ensures AllPlain(PartsOf(link)) && forall k :: 0 < k < |PartsOf(link)| ==> IsDir(nodes, PartsOf(link)[..k])
  {
    hide Resolve, LinkText, PartsOf;
  }

  lemma DirectoryIsNoLink(t: Tree, nodes: Nodes, p: Parts)
    requires LinksStand(t, nodes) && p != [] && AllPlain(p) && IsDir(nodes, p)
    ensures !IsLink(t, Join(p, SLASH))
  {
    SplitJoin(p, SLASH);
    hide Resolve, LinkText, Normal, Split, Rooted;
  }

  /** The directories that the system looks names up in when it follows a link, by the texts that are written. */
  function Way(t: Tree, link: string): seq<Parts> {
    Passed(Written(t), [], PartsOf(link), [])
  }

  /** The links that are crossed on that way, the link itself first. */
  function Crossings(t: Tree, link: string): nat {
    var r := InPlace(Written(t), [], PartsOf(link), []);
    if r.Ok? then |r.value.1| else 0
  }

  /**
   * Following a created link: an operating system that crosses at most n links arrives at the target the archive
   * resolver computed if and only if every directory passed on the way stands, the target exists and no more than
   * n links are crossed. It never arrives anywhere else.
   */
  lemma FollowingLink(t: Tree, nodes: Nodes, link: string, n: nat)
    requires LinksStand(t, nodes) && IsLink(t, link)
    ensures Resolve(t, link).Ok?
    ensures var target := Resolve(t, link).value.0;
            Kernel(nodes, [], PartsOf(link), n)
            == if AllStanding(nodes, Way(t, link)) && Exists(nodes, target) && Crossings(t, link) <= n
               then Some(target) else None
  {
    hide Resolve, Written, Kernel, Passed, LinkText;
    StandsInDirectory(t, nodes, link);
    StandingMirrors(t, nodes);
    WrittenResolves(t, link);
    SplitIsFree(link, SLASH);
    hide LinksStand, Mirrors;
    KernelFollows(nodes, Written(t), [], PartsOf(link), [], n);
  }

  // ---- Texts that never step back ----

  /** After the first name there are only names: no step up, no repeated or trailing separator. */
  predicate Tidy(parts: Parts) {
    forall i, j :: 0 <= i < j < |parts| && Plain(parts[i]) ==> Plain(parts[j])
  }

  ghost predicate TidyLinks(t: Tree) {
    forall link :: IsLink(t, link) && !IsAbsolute(t[link].linkname) ==> Tidy(Split(t[link].linkname, SLASH))
  }

  lemma TidyRest(component: string, rest: Parts)
    requires Tidy([component] + rest)
    ensures Tidy(rest) && (Plain(component) ==> AllPlain(rest))
  {
    var parts := [component] + rest;
    assert forall i :: 0 <= i < |rest| ==> rest[i] == parts[i + 1];
    if Plain(component) {
      forall j | 0 <= j < |rest| ensures Plain(rest[j]) {
        assert Plain(parts[0]) && Plain(parts[j + 1]);
      }
    }
    forall i, j | 0 <= i < j < |rest| && Plain(rest[i]) ensures Plain(rest[j]) {
      assert Plain(parts[i + 1]) && Plain(parts[j + 1]);
    }
  }

  lemma TidyThenNames(parts: Parts, rest: Parts)
    requires Tidy(parts) && AllPlain(rest)
    ensures Tidy(parts + rest)
  {
  }

  /** Names below something that is no directory lead to nothing. */
  lemma {:induction false} NothingBelow(nodes: Nodes, w: Tree, p: Parts, pending: Parts, crossed: seq<string>)
    requires Mirrors(nodes, w) && AllPlain(p) && !Standing(nodes, p) && pending != [] && AllPlain(pending)
    ensures var r := InPlace(w, p, pending, crossed); r.Ok? ==> !Exists(nodes, r.value.0)
    decreases |pending|
  {
    var q, rest := p + [pending[0]], pending[1..];
    assert q[..|p|] == p;
    assert q !in nodes;
    DirectoryOfJoin(p, pending[0]);
    MirroredName(nodes, w, q);
    if rest != [] {
      NothingBelow(nodes, w, q, rest, crossed);
    }
  }

  /** A tidy walk to something that exists passes only directories that stand. */
  lemma {:induction false} TidyWay(nodes: Nodes, w: Tree, directory: Parts, pending: Parts, crossed: seq<string>)
    requires Mirrors(nodes, w) && TidyLinks(w) && Clean(w, directory) && AllFree(pending, SLASH) && Tidy(pending)
    requires Standing(nodes, directory)
    requires InPlace(w, directory, pending, crossed).Ok?
    requires Exists(nodes, InPlace(w, directory, pending, crossed).value.0)
    ensures AllStanding(nodes, Passed(w, directory, pending, crossed))
    decreases Links(w) - Elements(crossed), |pending|
  {
    if pending != [] {
      var component, rest := pending[0], pending[1..];
      assert pending == [component] + rest;
      TidyRest(component, rest);
      hide TidyLinks, Clean, Mirrors, AllStanding, Tidy;
      var all := Passed(w, directory, pending, crossed);
      AllStandingCons(nodes, directory, all[1..]);
      assert all == [directory] + all[1..];
      if component == "" || component == "." {
        TidyWay(nodes, w, directory, rest, crossed);
      } else if component == ".." {
        CleanParent(w, directory);
        ParentStands(nodes, w, directory);
        TidyWay(nodes, w, directory[..|directory| - 1], rest, crossed);
      } else {
        TidyStep(nodes, w, directory, component, rest, crossed);
      }
    }
  }

  lemma {:induction false} TidyStep(nodes: Nodes, w: Tree, directory: Parts, component: string, rest: Parts,
                                    crossed: seq<string>)
    requires Mirrors(nodes, w) && TidyLinks(w) && Clean(w, directory) && Plain(component) && AllPlain(rest)
    requires Standing(nodes, directory)
    requires InPlace(w, directory, [component] + rest, crossed).Ok?
    requires Exists(nodes, InPlace(w, directory, [component] + rest, crossed).value.0)
    ensures AllStanding(nodes, Passed(w, directory, [component] + rest, crossed))
    decreases Links(w) - Elements(crossed), |rest| + 1, 0
  {
    var p, pending := directory + [component], [component] + rest;
    var current := Join(p, SLASH);
    assert pending[1..] == rest;
    var all := Passed(w, directory, pending, crossed);
    AllStandingCons(nodes, directory, all[1..]);
    assert all == [directory] + all[1..];
    if IsLink(w, current) {
      var text := w[current].linkname;
      assert Normal(current) && !IsAbsolute(text);
      assert current in Links(w) - Elements(crossed);
      assert current !in Links(w) - Elements(crossed + [current]);
      SplitIsFree(text, SLASH);
      TidyThenNames(Split(text, SLASH), rest);
      hide TidyLinks, Clean, Mirrors, AllStanding, Tidy;
      TidyWay(nodes, w, directory, Split(text, SLASH) + rest, crossed + [current]);
    } else if rest != [] {
      CleanExtends(w, directory, component);
      if !Standing(nodes, p) {
        NothingBelow(nodes, w, p, rest, crossed);
      }
      hide TidyLinks, Clean, Mirrors, AllStanding;
      TidyWay(nodes, w, p, rest, crossed);
    }
  }

  lemma RelativeTextTidy(t: Tree, target: Parts, from: Parts)
    requires Clean(t, target)
    ensures Tidy(Split(RelativeText(target, from), SLASH))
  {
    hide RelativeText, Common, Split;
    SplitText(t, target, from);
    var k := Common(target, from);
    UpsThenNames(|from| - k, target[k..]);
  }

  lemma UpsThenNames(n: nat, names: Parts)
    requires AllPlain(names)
    ensures Tidy(Ups(n) + names)
  {
    hide Plain;
    UpIsNoName();
  }

  lemma UpIsNoName()
    ensures !Plain("..")
  {
  }

  lemma WrittenTidy(t: Tree)
    requires TidyLinks(t) && forall link :: IsLink(t, link) ==> Resolve(t, link).Ok?
    ensures TidyLinks(Written(t))
  {
    hide Resolve, Tidy, RelativeText;
    var w := Written(t);
    forall link | IsLink(w, link) ensures Tidy(Split(w[link].linkname, SLASH)) {
      assert w[link] == WrittenMember(t, link);
      TargetIsClean(t, link);
      RelativeTextTidy(t, Resolve(t, link).value.0, DirectoryOf(link));
    }
  }

  /**
   * When no link text of the archive steps back after a name, the system arrives at the target of every link whose
   * target exists.
   */
  lemma TidyLinksReach(t: Tree, nodes: Nodes, link: string, n: nat)
    requires LinksStand(t, nodes) && IsLink(t, link) && TidyLinks(t)
    ensures Resolve(t, link).Ok?
    ensures var target := Resolve(t, link).value.0;
            Kernel(nodes, [], PartsOf(link), n)
            == if Exists(nodes, target) && Crossings(t, link) <= n then Some(target) else None
  {
    hide Resolve, Written, Kernel, Passed, LinkText;
    FollowingLink(t, nodes, link, n);
    StandsInDirectory(t, nodes, link);
    StandingMirrors(t, nodes);
    WrittenResolves(t, link);
    SplitIsFree(link, SLASH);
    WrittenTidy(t);
    if Exists(nodes, Resolve(t, link).value.0) {
      hide LinksStand, Mirrors;
      TidyWay(nodes, Written(t), [], PartsOf(link), []);
    }
  }

  // ---- The tree before the links ----

  /** A directory of the tree before, or one that is made above a link. */
  ghost predicate WillStand(t: Tree, before: Nodes, p: Parts) {
    Standing(before, p) || exists link :: IsLink(t, link) && p < PartsOf(link)
  }

  lemma StandingAfter(t: Tree, before: Nodes, order: seq<string>, items: seq<Node>, after: Nodes, p: Parts)
    requires Placed(before, AllParts(order), items, after) && NoDirs(items) && Elements(order) == Links(t)
    requires Placeable(before, Links(t))
    ensures Standing(after, p) <==> WillStand(t, before, p)
  {
    hide PartsOf;
    var parts := AllParts(order);
    if p != [] && IsDir(after, p) && p !in before {
      assert p !in parts;
      var i :| 0 <= i < |parts| && p < parts[i];
      assert order[i] in Elements(order) && p < PartsOf(order[i]);
    }
    if link :| p != [] && IsLink(t, link) && p < PartsOf(link) {
      StandsAbove(t, before, order, items, after, p, link);
    }
  }

  lemma StandsAbove(t: Tree, before: Nodes, order: seq<string>, items: seq<Node>, after: Nodes, p: Parts, link: string)
    requires Placed(before, AllParts(order), items, after) && Elements(order) == Links(t)
    requires Placeable(before, Links(t)) && IsLink(t, link) && p != [] && p < PartsOf(link)
    ensures IsDir(after, p)
  {
    hide PartsOf;
    var parts := AllParts(order);
    assert link in Elements(order);
    var i :| 0 <= i < |order| && order[i] == link;
    assert parts[i] == PartsOf(link) && Above(p, parts);
    assert PartsOf(link)[..|p|] == p && Passable(before, p);
    forall j | 0 <= j < |parts| ensures parts[j] != p {
      assert order[j] in Elements(order) && link in Links(t);
    }
  }

  /** The nodes of an order of links, with the texts that are written. */
  ghost predicate LinkItems(t: Tree, order: seq<string>, items: seq<Node>) {
    |items| == |order| &&
    forall i :: 0 <= i < |order| ==>
      IsLink(t, order[i]) && Normal(order[i]) && Resolve(t, order[i]).Ok? && items[i] == Link(LinkText(t, order[i]))
  }

  lemma CreatedLinksStand(t: Tree, before: Nodes, order: seq<string>, items: seq<Node>, after: Nodes)
    requires Placed(before, AllParts(order), items, after) && Elements(order) == Links(t) && Rooted(after)
    requires forall p :: p in before ==> !before[p].Link?
    requires LinkItems(t, order, items)
    ensures LinksStand(t, after)
  {
    hide Resolve, LinkText, Normal, PartsOf, Above, LinkItems, Placed, Rooted;
    forall link | IsLink(t, link)
      ensures && Normal(link) && Resolve(t, link).Ok? && PartsOf(link) in after
              && after[PartsOf(link)] == Link(LinkText(t, link))
    {
      CreatedLinkStands(t, before, order, items, after, link);
    }
    forall p | p in after && after[p].Link? ensures IsLink(t, Join(p, SLASH)) {
      OnlyCreatedLinks(t, before, order, items, after, p);
    }
  }

  lemma CreatedLinkStands(t: Tree, before: Nodes, order: seq<string>, items: seq<Node>, after: Nodes, link: string)
    requires Placed(before, AllParts(order), items, after) && Elements(order) == Links(t)
    requires LinkItems(t, order, items) && IsLink(t, link)
    ensures && Normal(link) && Resolve(t, link).Ok? && PartsOf(link) in after
            && after[PartsOf(link)] == Link(LinkText(t, link))
  {
    hide Resolve, LinkText, Normal, PartsOf, Above;
    assert link in Elements(order);
    var i :| 0 <= i < |order| && order[i] == link;
    assert AllParts(order)[i] == PartsOf(link);
  }

  lemma OnlyCreatedLinks(t: Tree, before: Nodes, order: seq<string>, items: seq<Node>, after: Nodes, p: Parts)
    requires Placed(before, AllParts(order), items, after) && Elements(order) == Links(t)
    requires forall p :: p in before ==> !before[p].Link?
    requires LinkItems(t, order, items) && p in after && after[p].Link?
    ensures IsLink(t, Join(p, SLASH))
  {
    hide Resolve, LinkText, Normal, Above, LinkItems;
    assert p in AllParts(order);
    var i :| 0 <= i < |order| && AllParts(order)[i] == p;
    JoinSplit(order[i], SLASH);
    assert order[i] in Elements(order);
  }
}
