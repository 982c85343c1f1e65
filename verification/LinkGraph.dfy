/**
 * The symbolic link graph of the archive (mkosi/debian/extract_tree.py): every link is resolved depth-first before
 * any link is created, and links are created in order of dependency depth.
 */
module LinkGraph {
  import opened Prelude
  import opened Text
  import opened Sorting
  import opened LinkPaths
  import opened LinkSemantics
  import opened FileTree
  import opened RelativeLinks
  import opened KernelWalk

  datatype Mark = Visiting | Done

  class SymlinkGraph {
    const tree: Tree
    /** The paths under the root that exist while the graph is validated. */
    const present: set<string>
    /** The links that may dangle. */
    const allowed: set<string>
    var state: map<string, Mark>
    var resolved: map<string, string>
    var dependencies: map<string, seq<string>>

    constructor (tree: Tree, present: set<string>, allowed: set<string>)
      ensures this.tree == tree && this.present == present && this.allowed == allowed
      ensures Valid() && state == map[]
    {
      this.tree, this.present, this.allowed := tree, present, allowed;
      state, resolved, dependencies := map[], map[], map[];
    }

    /** A link resolves, and to something that exists unless it may dangle. */
    ghost predicate Accepted(link: string)
      requires IsLink(tree, link)
    {
      Resolve(tree, link).Ok? && (Join(Resolve(tree, link).value.0, SLASH) in present || link in allowed)
    }

    ghost predicate Recorded(link: string)
      reads this
    {
      && IsLink(tree, link) && Accepted(link)
      && link in resolved && resolved[link] == Join(Resolve(tree, link).value.0, SLASH)
      && link in dependencies && dependencies[link] == Dependencies(tree, link)
    }

    ghost predicate IsDone(link: string)
      reads this`state
    {
      link in state && state[link] == Done
    }

    ghost function OnStack(): set<string>
      reads this`state
    {
      set link | link in state && state[link] == Visiting
    }

    ghost predicate Valid()
      reads this
    {
      forall link :: link in state && state[link] == Done ==> Recorded(link)
    }

    /** Every link on the visit stack depends, directly or not, on the link about to be visited. */
    ghost predicate Below(link: string, stack: set<string>)
      requires IsLink(tree, link)
    {
      forall v :: v in stack ==>
        IsLink(tree, v) && Resolve(tree, link).Ok? && |Dependencies(tree, link)| < |Dependencies(tree, v)|
    }

    /** `visit`: terminates, never meets a link that is still being visited, and finishes every dependency. */
    method Visit(relative: string) returns (e: Option<LinkError>)
      requires Valid() && IsLink(tree, relative) && Below(relative, OnStack())
      modifies this
      ensures e.None? ==> Valid() && IsDone(relative) && OnStack() == old(OnStack())
      ensures e.None? ==> forall link :: old(IsDone(link)) ==> IsDone(link)
      ensures e.Some? ==> !e.value.VisitCycle? && !e.value.BoundExceeded?
      ensures e.Some? ==> exists link :: IsLink(tree, link) && !Accepted(link)
      decreases |Dependencies(tree, relative)|, 1
    {
      hide Resolve, Join;
      if relative in state && state[relative] == Visiting {
        assert false;
        return Some(VisitCycle(relative));
      }
      if relative in state && state[relative] == Done {
        return None;
      }
      state := state[relative := Visiting];
      assert OnStack() == old(OnStack()) + {relative};
      var r := ResolveLinkPath(tree, relative);
      if r.Err? {
        assert !Accepted(relative);
        return Some(r.error);
      }
      var (target, direct) := r.value;
      e := VisitDependencies(relative, direct);
      if e.Some? {
        return;
      }
      e := Finish(relative, target, direct);
      assert e.None? ==> OnStack() == old(OnStack());
    }

    /** Records a resolved link's dependencies and, unless it dangles, marks it done with its target. */
    method Finish(relative: string, target: string, direct: seq<string>) returns (e: Option<LinkError>)
      requires Valid() && IsLink(tree, relative) && relative in OnStack()
      requires Resolve(tree, relative).Ok? && target == Join(Resolve(tree, relative).value.0, SLASH)
      requires direct == Dependencies(tree, relative)
      modifies this`state, this`resolved, this`dependencies
      ensures e == if Accepted(relative) then None else Some(Dangling(relative))
      ensures e.None? ==> Valid() && IsDone(relative) && OnStack() == old(OnStack()) - {relative}
      ensures e.None? ==> forall link :: old(IsDone(link)) ==> IsDone(link)
    {
      hide Resolve, Join, Dependencies;
      dependencies := dependencies[relative := direct];
      if target !in present && relative !in allowed {
        return Some(Dangling(relative));
      }
      state := state[relative := Done];
      resolved := resolved[relative := target];
      return None;
    }

    /** The loop over a link's direct dependencies; a link is never its own dependency. */
    method VisitDependencies(relative: string, direct: seq<string>) returns (e: Option<LinkError>)
      requires Valid() && IsLink(tree, relative) && relative in OnStack() && direct == Dependencies(tree, relative)
      requires forall v :: v in OnStack() ==> IsLink(tree, v) && |direct| <= |Dependencies(tree, v)|
      modifies this
      ensures e.None? ==> Valid() && OnStack() == old(OnStack())
      ensures e.None? ==> forall link :: link in direct || old(IsDone(link)) ==> IsDone(link)
      ensures e.Some? ==> !e.value.VisitCycle? && !e.value.BoundExceeded?
      ensures e.Some? ==> exists link :: IsLink(tree, link) && !Accepted(link)
      decreases |Dependencies(tree, relative)|, 0
    {
      DependenciesDescend(tree, relative);
      for i := 0 to |direct|
        invariant Valid() && OnStack() == old(OnStack())
        invariant forall link :: old(IsDone(link)) ==> IsDone(link)
        invariant forall k :: 0 <= k < i ==> IsDone(direct[k])
      {
        assert direct[i] in Dependencies(tree, relative);
        if direct[i] != relative {
          e := Visit(direct[i]);
          if e.Some? {
            return;
          }
        }
      }
      return None;
    }

    /**
     * `_validate_symlink_graph`: succeeds exactly when every link is accepted, and then records every link's target
     * and dependencies.
     */
    method Validate(names: seq<string>) returns (e: Option<LinkError>)
      requires Valid() && state == map[]
      requires Elements(names) == Links(tree)
      modifies this
      ensures e.Some? ==> !e.value.VisitCycle? && !e.value.BoundExceeded?
      ensures e.None? <==> forall link :: IsLink(tree, link) ==> Accepted(link)
      ensures e.None? ==> forall link :: IsLink(tree, link) ==> Recorded(link)
    {
      hide Resolve, Join, Sort, TextLe, Accepted;
      var order := Sort(names, TextLe);
      SortElements(names, TextLe);
      for i := 0 to |order|
        invariant Valid() && OnStack() == {}
        invariant forall k :: 0 <= k < i ==> IsDone(order[k])
      {
        hide Resolve, Join, Sort, TextLe, Recorded, Accepted;
        assert order[i] in names && order[i] in Links(tree);
        e := Visit(order[i]);
        if e.Some? {
          return;
        }
      }
      forall link | IsLink(tree, link) ensures Recorded(link) {
        assert link in Links(tree) && link in order;
      }
      return None;
    }
  }

  // ---- Creation order ----

  /** Every dependency list names keys whose own lists are strictly shorter. */
  ghost predicate Descending(dependencies: map<string, seq<string>>) {
    forall link, d :: link in dependencies && d in dependencies[link] ==>
      d in dependencies && |dependencies[d]| < |dependencies[link]|
  }

  function Depth(dependencies: map<string, seq<string>>, link: string): nat
    requires Descending(dependencies) && link in dependencies
    decreases |dependencies[link]|, |dependencies[link]| + 1
  {
    MaxDepth(dependencies, dependencies[link], |dependencies[link]|) + 1
  }

  function MaxDepth(dependencies: map<string, seq<string>>, list: seq<string>, bound: nat): nat
    requires Descending(dependencies)
    requires forall d :: d in list ==> d in dependencies && |dependencies[d]| < bound
    decreases bound, |list|
  {
    if list == [] then 0
    else
      var first := Depth(dependencies, list[0]);
      var others := MaxDepth(dependencies, list[1..], bound);
      if first < others then others else first
  }

  lemma {:induction false} MaxDepthBounds(dependencies: map<string, seq<string>>, list: seq<string>, bound: nat, d: string)
    requires Descending(dependencies) && d in list
    requires forall d :: d in list ==> d in dependencies && |dependencies[d]| < bound
    ensures Depth(dependencies, d) <= MaxDepth(dependencies, list, bound)
    decreases |list|
  {
    if d != list[0] {
      assert d in list[1..];
      MaxDepthBounds(dependencies, list[1..], bound, d);
    }
  }

  lemma DepthDescends(dependencies: map<string, seq<string>>, link: string, d: string)
    requires Descending(dependencies) && link in dependencies && d in dependencies[link]
    ensures Depth(dependencies, d) < Depth(dependencies, link)
  {
    MaxDepthBounds(dependencies, dependencies[link], |dependencies[link]|, d);
  }

  /** The sort key of link creation, `(depth(item), item)`. */
  predicate CreatedNoLater(depth: map<string, nat>, a: string, b: string) {
    a in depth && b in depth && (depth[a] < depth[b] || (depth[a] == depth[b] && TextLe(a, b)))
  }

  function CreationOrder(names: seq<string>, depth: map<string, nat>): seq<string> {
    Sort(names, (a, b) => CreatedNoLater(depth, a, b))
  }

  lemma CreationOrders(names: seq<string>, depth: map<string, nat>)
    requires forall name :: name in names ==> name in depth
    ensures OrderOn(multiset(names), (a, b) => CreatedNoLater(depth, a, b))
  {
    hide TextLe;
    assert forall x :: x in multiset(names) <==> x in names;
    TextLeOrders(multiset(names));
  }

  lemma CreationOrderSorted(names: seq<string>, depth: map<string, nat>)
    requires forall name :: name in names ==> name in depth
    ensures var order := CreationOrder(names, depth);
            && (forall name :: name in order <==> name in names)
            && forall i, j :: 0 <= i < j < |order| ==> depth[order[i]] <= depth[order[j]]
  {
    var le := (a, b) => CreatedNoLater(depth, a, b);
    CreationOrders(names, depth);
    SortSorts(names, le);
    SortElements(names, le);
    var order := CreationOrder(names, depth);
    forall i, j | 0 <= i < j < |order| ensures depth[order[i]] <= depth[order[j]] {
      assert le(order[i], order[j]);
    }
  }

  /**
   * Creation is dependency-first: every link stands strictly after every link that resolving it crosses, whatever
   * the archive order of the names.
   */
  lemma DependenciesFirst(t: Tree, names: seq<string>, dependencies: map<string, seq<string>>, depth: map<string, nat>)
    requires Elements(names) == Links(t) == dependencies.Keys == depth.Keys
    requires forall link :: link in Links(t) ==>
               Resolve(t, link).Ok? && dependencies[link] == Dependencies(t, link)
    requires Descending(dependencies)
    requires forall link :: link in dependencies ==> depth[link] == Depth(dependencies, link)
    ensures var order := CreationOrder(names, depth); forall j :: 0 <= j < |order| ==> IsLink(t, order[j])
    ensures var order := CreationOrder(names, depth);
            forall j, d :: 0 <= j < |order| && d in Dependencies(t, order[j]) ==> d in order[..j] && d !in order[j..]
  {
    hide CreationOrder, Resolve, Depth, Descending;
    var order := CreationOrder(names, depth);
    assert forall name :: name in names ==> name in Elements(names);
    CreationOrderSorted(names, depth);
    forall j | 0 <= j < |order| ensures IsLink(t, order[j]) {
      assert order[j] in names && order[j] in Elements(names);
    }
    forall j, d | 0 <= j < |order| && d in Dependencies(t, order[j])
      ensures d in order[..j] && d !in order[j..]
    {
      var link := order[j];
      assert link in names && link in Elements(names);
      DepthDescends(dependencies, link, d);
      DescendingFacts(dependencies, link, d);
      assert d in Elements(names) && d in order;
      hide Dependencies;
      StrictlyBefore(order, depth, j, d);
    }
  }

  lemma DescendingFacts(dependencies: map<string, seq<string>>, link: string, d: string)
    requires Descending(dependencies) && link in dependencies && d in dependencies[link]
    ensures d in dependencies
  {
  }

  /** In an order by depth, whatever is less deep stands before. */
  lemma StrictlyBefore(order: seq<string>, depth: map<string, nat>, j: nat, d: string)
    requires j < |order| && d in order && forall name :: name in order ==> name in depth
    requires forall i, j :: 0 <= i < j < |order| ==> depth[order[i]] <= depth[order[j]]
    requires depth[d] < depth[order[j]]
    ensures d in order[..j] && d !in order[j..]
  {
    forall k | 0 <= k < |order| && order[k] == d ensures k < j {
    }
  }

  lemma DependenciesDescending(t: Tree, dependencies: map<string, seq<string>>)
    requires dependencies.Keys == Links(t)
    requires forall link :: link in Links(t) ==>
               Resolve(t, link).Ok? && dependencies[link] == Dependencies(t, link)
    ensures Descending(dependencies)
  {
    hide Resolve;
    forall link, d | link in dependencies && d in dependencies[link]
      ensures d in dependencies && |dependencies[d]| < |dependencies[link]|
    {
      DependenciesDescend(t, link);
    }
  }

  /** An order of all links in which every link stands strictly after the links that resolving it crosses. */
  ghost predicate DependencyOrder(t: Tree, order: seq<string>) {
    && Distinct(order) && Elements(order) == Links(t)
    && forall j, d :: 0 <= j < |order| && IsLink(t, order[j]) && d in Dependencies(t, order[j]) ==> d in order[..j]
  }

  /** Computes the order of creation from the validated graph, as the nested `depth` function does. */
  method OrderByDepth(t: Tree, names: seq<string>, recorded: map<string, seq<string>>) returns (order: seq<string>)
    requires Distinct(names) && Elements(names) == Links(t) && Links(t) <= recorded.Keys
    requires forall link :: IsLink(t, link) ==> Resolve(t, link).Ok? && recorded[link] == Dependencies(t, link)
    ensures DependencyOrder(t, order)
    ensures multiset(order) == multiset(names)
  {
    var dependencies := map link | link in Links(t) :: recorded[link];
    DependenciesDescending(t, dependencies);
    var depth := map link | link in dependencies :: Depth(dependencies, link);
    DependenciesFirst(t, names, dependencies, depth);
    order := CreationOrder(names, depth);
    SortPermutes(names, (a, b) => CreatedNoLater(depth, a, b));
    SortElements(names, (a, b) => CreatedNoLater(depth, a, b));
    DistinctOrder(names, order);
    assert Elements(order) == Elements(names);
  }

  datatype CreateError = Invalid(error: LinkError) | Refused(refusal: PlaceError)

  /** The link texts of an order of links, as they are written. */
  ghost function Texts(t: Tree, order: seq<string>): (r: seq<Node>)
    requires forall i :: 0 <= i < |order| ==> IsLink(t, order[i]) && Resolve(t, order[i]).Ok?
    ensures |r| == |order|
  {
    seq(|order|, i requires 0 <= i < |order| => Link(LinkText(t, order[i])))
  }

  /** No link of the archive has an empty text. */
  ghost predicate TextsPresent(t: Tree, links: set<string>) {
    forall link :: link in links && IsLink(t, link) ==> t[link].linkname != ""
  }

  /**
   * The creation loop: makes the parents of each link and then the link. It succeeds exactly when the names can be
   * placed at all, whatever their order, and no text is empty, and stops at the first link that cannot be made.
   */
  method CreateInOrder(t: Tree, order: seq<string>, root: Root) returns (e: Option<PlaceError>)
    requires root.Valid() && Distinct(order)
    requires forall i :: 0 <= i < |order| ==> IsLink(t, order[i]) && Normal(order[i]) && Resolve(t, order[i]).Ok?
    modifies root
    ensures root.Valid()
    ensures e.None? <==> Placeable(old(root.nodes), Elements(order)) && TextsPresent(t, Elements(order))
    ensures e.None? ==> Placed(old(root.nodes), AllParts(order), Texts(t, order), root.nodes)
  {
    hide Placeable, Placed, PlacedUpTo, Rooted, LinkText, WithParents, Open, PartsOf, Resolve;
    ghost var before := root.nodes;
    ghost var items: seq<Node> := [];
    PlacingStarts(before, order);
    for i := 0 to |order|
      invariant root.Valid() && PlacedUpTo(before, order, items, i, root.nodes) && |items| == i
      invariant forall k :: 0 <= k < i ==> items[k] == Link(LinkText(t, order[k])) && t[order[k]].linkname != ""
    {
      hide Placeable, Placed, PlacedUpTo, Rooted, LinkText, WithParents, Open, PartsOf, Resolve;
      PlacingStep(before, order, items, i, root.nodes, Link(LinkText(t, order[i])));
      TextIsRelative(t, order[i]);
      assert order[i] in Elements(order);
      e := root.Symlink(order[i], LinkText(t, order[i]));
      if e.Some? {
        return;
      }
      items := items + [Link(LinkText(t, order[i]))];
    }
    PlacingEnds(before, order, items, root.nodes);
    assert items == Texts(t, order);
    return None;
  }

  /** Every link of the archive resolves, and to something that exists unless it may dangle. */
  ghost predicate AllAccepted(t: Tree, nodes: Nodes, allowed: set<string>) {
    forall link :: IsLink(t, link) ==>
      Resolve(t, link).Ok? && (Exists(nodes, Resolve(t, link).value.0) || link in allowed)
  }

  /** The paths that `os.path.exists` finds in a tree without links. */
  function PresentPaths(nodes: Nodes): set<string> {
    {""} + set p | p in nodes :: Join(p, SLASH)
  }

  lemma PresentIsExists(t: Tree, nodes: Nodes, link: string)
    requires Rooted(nodes) && IsLink(t, link) && Resolve(t, link).Ok?
    ensures var target := Resolve(t, link).value.0;
            Join(target, SLASH) in PresentPaths(nodes) <==> Exists(nodes, target)
  {
    hide Resolve;
    var target := Resolve(t, link).value.0;
    TargetIsClean(t, link);
    if target != [] {
      JoinEnds(target);
      SplitJoin(target, SLASH);
      if Join(target, SLASH) in PresentPaths(nodes) {
        var p :| p in nodes && Join(p, SLASH) == Join(target, SLASH);
        SplitJoin(p, SLASH);
      }
    }
  }

  /**
   * `_resolve_symlink_graph`, over a tree of directories and files. It succeeds exactly when every link is accepted
   * and not empty, and the link names can be placed: none is taken, and no ancestor of one is another link or a file.
   * Every link is then created with its text, only after all links that resolving it crosses, and nothing else
   * changes but missing parents.
   */
  method CreateSymlinks(tree: Tree, names: seq<string>, allowed: set<string>, root: Root)
    returns (r: Result<seq<string>, CreateError>)
    requires root.Valid() && forall p :: p in root.nodes ==> !root.nodes[p].Link?
    requires Elements(names) == Links(tree) && Distinct(names) && forall name :: name in names ==> Normal(name)
    modifies root
    ensures root.Valid()
    ensures r.Ok? <==> && AllAccepted(tree, old(root.nodes), allowed) && TextsPresent(tree, Links(tree))
                       && Placeable(old(root.nodes), Links(tree))
    ensures r.Ok? ==> && multiset(r.value) == multiset(names) && DependencyOrder(tree, r.value)
                      && (forall i :: 0 <= i < |r.value| ==> IsLink(tree, r.value[i]) && Resolve(tree, r.value[i]).Ok?)
                      && Placed(old(root.nodes), AllParts(r.value), Texts(tree, r.value), root.nodes)
                      && LinksStand(tree, root.nodes)
    ensures r.Err? && r.error.Invalid? ==> !r.error.error.VisitCycle? && !r.error.error.BoundExceeded?
  {
    hide Placeable, Placed, Rooted, Resolve, Normal, LinkText, DependencyOrder, TextsPresent, LinksStand, LinkItems;
    ghost var before := root.nodes;
    var graph := new SymlinkGraph(tree, PresentPaths(root.nodes), allowed);
    var e := graph.Validate(names);
    AcceptedIsAllAccepted(graph, root.nodes);
    if e.Some? {
      return Err(Invalid(e.value));
    }
    assert forall link :: IsLink(tree, link) ==> graph.Recorded(link);
    forall link | link in Links(tree) ensures link in graph.dependencies {
      assert IsLink(tree, link) && graph.Recorded(link);
    }
    var order := OrderByDepth(tree, names, graph.dependencies);
    OrderedLinks(tree, names, order);
    var refused := CreateInOrder(tree, order, root);
    if refused.Some? {
      return Err(Refused(refused.value));
    }
    TextItems(tree, order);
    CreatedLinksStand(tree, before, order, Texts(tree, order), root.nodes);
    return Ok(order);
  }

  lemma TextItems(t: Tree, order: seq<string>)
    requires forall i :: 0 <= i < |order| ==> IsLink(t, order[i]) && Normal(order[i]) && Resolve(t, order[i]).Ok?
    ensures LinkItems(t, order, Texts(t, order)) && NoDirs(Texts(t, order))
  {
    hide Resolve, LinkText, Normal;
  }

  /**
   * The dangling test against the operating system. A link that was created and may not dangle leads to its target,
   * across at most n links, if and only if every directory on its way stood before or was made for a link, and the
   * way crosses no more than n links.
   */
  lemma AcceptedLinkReaches(t: Tree, before: Nodes, allowed: set<string>, order: seq<string>, items: seq<Node>,
                            after: Nodes, link: string, n: nat)
    requires AllAccepted(t, before, allowed) && Placeable(before, Links(t)) && Elements(order) == Links(t)
    requires LinkItems(t, order, items) && Placed(before, AllParts(order), items, after) && LinksStand(t, after)
    requires IsLink(t, link) && link !in allowed
    ensures Kernel(after, [], PartsOf(link), n) in {None, Some(Resolve(t, link).value.0)}
    ensures Kernel(after, [], PartsOf(link), n).Some? <==>
            (forall i :: 0 <= i < |Way(t, link)| ==> WillStand(t, before, Way(t, link)[i])) && Crossings(t, link) <= n
  {
    hide Resolve, LinkText, Way, Crossings, Kernel, WillStand, Placed, Normal, PartsOf, LinksStand;
    FollowingLink(t, after, link, n);
    var target := Resolve(t, link).value.0;
    TargetStays(before, AllParts(order), items, after, target);
    forall p ensures Standing(after, p) <==> WillStand(t, before, p) {
      StandingAfter(t, before, order, items, after, p);
    }
  }

  lemma TargetStays(before: Nodes, names: seq<Parts>, items: seq<Node>, after: Nodes, p: Parts)
    requires Placed(before, names, items, after)
    ensures Exists(before, p) ==> Exists(after, p)
  {
  }

  lemma AcceptedIsAllAccepted(graph: SymlinkGraph, nodes: Nodes)
    requires Rooted(nodes) && graph.present == PresentPaths(nodes)
    ensures (forall link :: IsLink(graph.tree, link) ==> graph.Accepted(link))
            <==> AllAccepted(graph.tree, nodes, graph.allowed)
  {
    hide Resolve, Rooted, PresentPaths;
    forall link | IsLink(graph.tree, link) && Resolve(graph.tree, link).Ok?
      ensures graph.Accepted(link) <==>
              Exists(nodes, Resolve(graph.tree, link).value.0) || link in graph.allowed
    {
      PresentIsExists(graph.tree, nodes, link);
    }
  }

  lemma OrderedLinks(t: Tree, names: seq<string>, order: seq<string>)
    requires Elements(names) == Links(t) && DependencyOrder(t, order)
    requires forall name :: name in names ==> Normal(name)
    ensures Elements(order) == Links(t) && Distinct(order)
    ensures forall i :: 0 <= i < |order| ==> IsLink(t, order[i]) && Normal(order[i])
  {
    hide Normal;
    forall i | 0 <= i < |order| ensures IsLink(t, order[i]) && Normal(order[i]) {
      assert order[i] in Elements(order);
      assert order[i] in Elements(names);
    }
  }

  lemma DistinctOrder(a: seq<string>, b: seq<string>)
    requires Distinct(a) && multiset(a) == multiset(b)
    ensures Distinct(b)
  {
    forall i, j | 0 <= i < j < |b| ensures b[i] != b[j] {
      if b[i] == b[j] {
        var x := b[i];
        assert b == b[..i] + [b[i]] + b[i + 1..j] + [b[j]] + b[j + 1..];
        assert multiset(b)[x] >= 2;
        DistinctCounts(a, x);
        assert false;
      }
    }
  }

  lemma {:induction false} DistinctCounts(a: seq<string>, x: string)
    requires Distinct(a)
    ensures multiset(a)[x] <= 1
  {
    if a != [] {
      assert a == [a[0]] + a[1..];
      DistinctCounts(a[1..], x);
      if a[0] == x {
        assert x !in a[1..];
      }
    }
  }
}
