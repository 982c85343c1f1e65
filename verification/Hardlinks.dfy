/**
 * The hard link graph of the archive (mkosi/debian/extract_tree.py): each hard link names another member, chains of
 * hard links are followed depth-first, and every chain must end at a regular file.
 */
module Hardlinks {
  import opened Prelude
  import opened Text
  import opened Sorting
  import opened LinkPaths
  import LinkSemantics
  import opened FileTree
  import opened LinkGraph

  // ---- Member names ----

  function StripDotSlash(name: string): string {
    if |name| >= 2 && name[0] == '.' && name[1] == SLASH then StripDotSlash(name[2..]) else name
  }

  function DropTrailing(parts: seq<string>): seq<string> {
    if parts != [] && parts[|parts| - 1] == "" then parts[..|parts| - 1] else parts
  }

  /** `member_path`: a normalised relative path, or None for an unsafe name. */
  function MemberPath(name: string): (r: Option<string>) {
    if name != [] && name[0] == SLASH then None
    else
      var stripped := StripDotSlash(name);
      if stripped == "" || stripped == "." then Some("")
      else
        var parts := DropTrailing(Split(stripped, SLASH));
        if parts == [] || "" in parts || "." in parts || ".." in parts then None
        else Some(Join(parts, SLASH))
  }

  /** A normalised name has only components that a directory can hold. */
  lemma MemberPathNormal(name: string)
    requires MemberPath(name).Some? && MemberPath(name).value != ""
    ensures Normal(MemberPath(name).value)
  {
    var stripped := StripDotSlash(name);
    var parts := DropTrailing(Split(stripped, SLASH));
    SplitIsFree(stripped, SLASH);
    SplitJoin(parts, SLASH);
    forall i | 0 <= i < |parts| ensures LinkSemantics.Plain(parts[i]) {
      assert parts[i] in parts;
    }
  }

  // ---- Following a chain ----

  predicate IsHardlink(t: Tree, path: string) {
    path in t && t[path].Hardlink?
  }

  /** The member that a hard link names. */
  function Named(t: Tree, path: string): Option<string>
    requires IsHardlink(t, path)
  {
    MemberPath(t[path].linkname)
  }

  /** The regular file at the end of a chain of at most n hard links. */
  function Chase(t: Tree, path: string, n: nat): Option<string>
    requires IsHardlink(t, path)
    decreases n
  {
    if n == 0 then None
    else match Named(t, path)
      case None => None
      case Some(target) =>
        if target !in t then None
        else if t[target].Hardlink? then Chase(t, target, n - 1)
        else if t[target].Regular? then Some(target)
        else None
  }

  /** The chain of hard links from path ends at the regular file target. */
  ghost predicate EndsAt(t: Tree, path: string, target: string)
    requires IsHardlink(t, path)
  {
    exists n: nat :: Chase(t, path, n) == Some(target)
  }

  ghost predicate Endless(t: Tree, path: string)
    requires IsHardlink(t, path)
  {
    forall n: nat :: Chase(t, path, n) == None
  }

  /** Consecutive members of a visit stack are hard links to each other. */
  ghost predicate Chain(t: Tree, stack: seq<string>) {
    && (forall i :: 0 <= i < |stack| ==> IsHardlink(t, stack[i]))
    && (forall i :: 0 <= i < |stack| - 1 ==> Named(t, stack[i]) == Some(stack[i + 1]))
  }

  lemma {:induction false} LoopIsEndless(t: Tree, stack: seq<string>, back: nat, i: nat, n: nat)
    requires Chain(t, stack) && back <= i < |stack|
    requires Named(t, stack[|stack| - 1]) == Some(stack[back])
    ensures Chase(t, stack[i], n) == None
    decreases n
  {
    if n > 0 {
      var next := if i + 1 < |stack| then i + 1 else back;
      assert Named(t, stack[i]) == Some(stack[next]);
      LoopIsEndless(t, stack, back, next, n - 1);
    }
  }

  lemma LoopedIsEndless(t: Tree, stack: seq<string>, back: nat)
    requires Chain(t, stack) && back < |stack| && Named(t, stack[|stack| - 1]) == Some(stack[back])
    ensures Endless(t, stack[back])
  {
    forall n: nat ensures Chase(t, stack[back], n) == None {
      LoopIsEndless(t, stack, back, back, n);
    }
  }

  /** What the name in a hard link says when it is not another hard link. */
  lemma FirstName(t: Tree, path: string)
    requires IsHardlink(t, path)
    ensures var named := Named(t, path);
            if named.None? || named.value !in t then Endless(t, path)
            else if t[named.value].Regular? then EndsAt(t, path, named.value)
            else t[named.value].Hardlink? || Endless(t, path)
  {
    hide MemberPath;
    var named := Named(t, path);
    if named.Some? && named.value in t && t[named.value].Regular? {
      assert Chase(t, path, 1) == Some(named.value);
    }
  }

  lemma EndlessPropagates(t: Tree, path: string, target: string)
    requires IsHardlink(t, path) && IsHardlink(t, target) && Named(t, path) == Some(target)
    ensures Endless(t, target) ==> Endless(t, path)
    ensures forall file :: EndsAt(t, target, file) ==> EndsAt(t, path, file)
  {
    if Endless(t, target) {
      forall n: nat ensures Chase(t, path, n) == None {
        if n > 0 {
          assert Chase(t, path, n) == Chase(t, target, n - 1);
        }
      }
    }
    forall file | EndsAt(t, target, file) ensures EndsAt(t, path, file) {
      var n: nat :| Chase(t, target, n) == Some(file);
      assert Chase(t, path, n + 1) == Some(file);
    }
  }

  lemma {:induction false} ChaseStable(t: Tree, path: string, n: nat, m: nat)
    requires IsHardlink(t, path) && Chase(t, path, n).Some? && Chase(t, path, m).Some?
    ensures Chase(t, path, n) == Chase(t, path, m)
    decreases n
  {
    var target := Named(t, path).value;
    if t[target].Hardlink? {
      ChaseStable(t, target, n - 1, m - 1);
    }
  }

  /** A chain has at most one end, and an endless one has none. */
  lemma EndIsUnique(t: Tree, path: string, a: string, b: string)
    requires IsHardlink(t, path) && EndsAt(t, path, a)
    ensures EndsAt(t, path, b) ==> a == b
    ensures !Endless(t, path)
  {
    var n: nat :| Chase(t, path, n) == Some(a);
    if EndsAt(t, path, b) {
      var m: nat :| Chase(t, path, m) == Some(b);
      ChaseStable(t, path, n, m);
    }
  }

  // ---- The depth-first visit ----

  datatype HardlinkError =
    | HardlinkCycle(link: string)
    | UnsafeName(link: string)
    | DanglingHardlink(link: string)
    | NotRegular(link: string)
    | Refused(refusal: PlaceError)

  class HardlinkGraph {
    const tree: Tree
    var state: map<string, Mark>
    var targets: map<string, string>

    constructor (tree: Tree)
      ensures this.tree == tree && Valid([])
    {
      this.tree := tree;
      state, targets := map[], map[];
    }

    ghost predicate Valid(stack: seq<string>)
      reads this
    {
      && Chain(tree, stack)
      && (forall link :: link in state ==> IsHardlink(tree, link))
      && (forall link :: link in state && state[link] == Visiting <==> link in stack)
      && (forall link :: link in state && state[link] == Done ==>
            link in targets && EndsAt(tree, link, targets[link]))
    }

    function Unvisited(): set<string>
      reads this`state
    {
      set link | link in tree && tree[link].Hardlink? && link !in state
    }

    /** `visit`: returns the regular file at the end of the chain, or an error exactly when the chain has no end. */
    method Visit(relative: string, ghost stack: seq<string>) returns (r: Result<string, HardlinkError>)
      requires Valid(stack) && IsHardlink(tree, relative)
      requires stack != [] ==> Named(tree, stack[|stack| - 1]) == Some(relative)
      modifies this
      ensures r.Ok? ==> Valid(stack) && EndsAt(tree, relative, r.value)
      ensures r.Err? ==> Endless(tree, relative)
      ensures r.Err? ==> !r.error.Refused?
      decreases Unvisited()
    {
      hide Chase, Endless, EndsAt, Chain, MemberPath;
      FirstName(tree, relative);
      if relative in state && state[relative] == Visiting {
        ghost var back :| 0 <= back < |stack| && stack[back] == relative;
        LoopedIsEndless(tree, stack, back);
        return Err(HardlinkCycle(relative));
      }
      if relative in state && state[relative] == Done {
        return Ok(targets[relative]);
      }
      Enter(relative, stack);
      hide Valid, Unvisited;
      var named := MemberPath(tree[relative].linkname);
      if named.None? {
        return Err(UnsafeName(relative));
      }
      var target := named.value;
      if target !in tree {
        return Err(DanglingHardlink(relative));
      }
      if tree[target].Hardlink? {
        EndlessPropagates(tree, relative, target);
        r := Visit(target, stack + [relative]);
        if r.Err? {
          return;
        }
        target := r.value;
      } else if !tree[target].Regular? {
        return Err(NotRegular(relative));
      }
      Leave(relative, target, stack);
      return Ok(target);
    }

    /** Puts a link that was never visited on the stack. */
    method Enter(relative: string, ghost stack: seq<string>)
      requires Valid(stack) && IsHardlink(tree, relative) && relative !in state
      requires stack != [] ==> Named(tree, stack[|stack| - 1]) == Some(relative)
      modifies this`state
      ensures Valid(stack + [relative]) && relative !in stack && Unvisited() < old(Unvisited())
    {
      hide EndsAt, Chain, MemberPath;
      ExtendStack(stack, relative);
      assert relative in Unvisited();
      state := state[relative := Visiting];
    }

    /** Takes the link off the stack, with its target. */
    method Leave(relative: string, target: string, ghost stack: seq<string>)
      requires Valid(stack + [relative]) && IsHardlink(tree, relative) && relative !in stack
      requires EndsAt(tree, relative, target)
      modifies this
      ensures Valid(stack)
    {
      hide EndsAt, Chain, MemberPath;
      ShrinkStack(stack, relative);
      assert relative in stack + [relative];
      state := state[relative := Done];
      targets := targets[relative := target];
    }

    lemma ShrinkStack(stack: seq<string>, relative: string)
      requires Chain(tree, stack + [relative])
      ensures Chain(tree, stack)
    {
      var longer := stack + [relative];
      assert forall i :: 0 <= i < |stack| ==> longer[i] == stack[i];
    }

    lemma ExtendStack(stack: seq<string>, relative: string)
      requires Chain(tree, stack) && IsHardlink(tree, relative)
      requires stack != [] ==> Named(tree, stack[|stack| - 1]) == Some(relative)
      ensures Chain(tree, stack + [relative])
    {
    }
  }

  function HardlinkNames(t: Tree): set<string> {
    set path | path in t && t[path].Hardlink?
  }

  lemma SortedNames(names: seq<string>)
    requires Distinct(names)
    ensures Distinct(Sort(names, TextLe)) && Elements(Sort(names, TextLe)) == Elements(names)
  {
    SortElements(names, TextLe);
    SortPermutes(names, TextLe);
    DistinctOrder(names, Sort(names, TextLe));
  }

  /** A created hard link and the regular file it shares. */
  ghost predicate Linked(t: Tree, link: string, file: string) {
    IsHardlink(t, link) && EndsAt(t, link, file)
  }

  /** Every regular member of the archive is a file of the tree. */
  ghost predicate Materialised(t: Tree, nodes: Nodes) {
    forall path :: path in t && t[path].Regular? ==> PartsOf(path) in nodes && nodes[PartsOf(path)].File?
  }

  lemma EndsRegular(t: Tree, link: string, file: string)
    requires Linked(t, link, file)
    ensures file in t && t[file].Regular?
  {
    var n: nat :| Chase(t, link, n) == Some(file);
    ChaseRegular(t, link, n);
  }

  lemma {:induction false} ChaseRegular(t: Tree, path: string, n: nat)
    requires IsHardlink(t, path) && Chase(t, path, n).Some?
    ensures var file := Chase(t, path, n).value; file in t && t[file].Regular?
    decreases n
  {
    hide MemberPath;
    var target := Named(t, path).value;
    if t[target].Hardlink? {
      ChaseRegular(t, target, n - 1);
    }
  }

  /** The file nodes that the links share. */
  ghost function Shared(nodes: Nodes, linked: seq<(string, string)>): (r: seq<Node>)
    requires forall i :: 0 <= i < |linked| ==> PartsOf(linked[i].1) in nodes
    ensures |r| == |linked|
  {
    seq(|linked|, i requires 0 <= i < |linked| => nodes[PartsOf(linked[i].1)])
  }

  /** The links made so far, in name order, each with the file at the end of its chain. */
  ghost predicate LinkedUpTo(t: Tree, order: seq<string>, linked: seq<(string, string)>, k: nat) {
    && |linked| == k <= |order|
    && forall i :: 0 <= i < k ==> linked[i].0 == order[i] && Linked(t, linked[i].0, linked[i].1)
  }

  ghost predicate NoneEndless(t: Tree) {
    forall link :: IsHardlink(t, link) ==> !Endless(t, link)
  }

  /**
   * `_resolve_hardlink_graph`: links every hard link, in name order, to the regular file at the end of its chain,
   * below parents that it makes. It succeeds exactly when every chain has an end and the names can be placed.
   */
  method LinkHardlinks(tree: Tree, names: seq<string>, root: Root)
    returns (r: Result<seq<(string, string)>, HardlinkError>)
    requires root.Valid() && Materialised(tree, root.nodes)
    requires Elements(names) == HardlinkNames(tree) && Distinct(names) && forall name :: name in names ==> Normal(name)
    modifies root
    ensures root.Valid()
    ensures r.Ok? <==> NoneEndless(tree) && Placeable(old(root.nodes), HardlinkNames(tree))
    ensures r.Ok? ==> && LinkedUpTo(tree, Sort(names, TextLe), r.value, |Sort(names, TextLe)|)
                      && (forall i :: 0 <= i < |r.value| ==> PartsOf(r.value[i].1) in old(root.nodes))
                      && Placed(old(root.nodes), AllParts(Sort(names, TextLe)), Shared(old(root.nodes), r.value),
                                root.nodes)
                      && NoDirs(Shared(old(root.nodes), r.value))
  {
    hide Sort, TextLe, Placeable, Placed, PlacedUpTo, Rooted, WithParents, Open, PartsOf, Endless, EndsAt;
    SortedNames(names);
    var order := Sort(names, TextLe);
    var graph := new HardlinkGraph(tree);
    ghost var before := root.nodes;
    ghost var items: seq<Node> := [];
    var linked: seq<(string, string)> := [];
    PlacingStarts(before, order);
    for i := 0 to |order|
      invariant graph.Valid([]) && root.Valid() && LinkedUpTo(tree, order, linked, i)
      invariant PlacedUpTo(before, order, items, i, root.nodes) && |items| == i && fresh(graph) && graph.tree == tree
      invariant forall k :: 0 <= k < i ==> PartsOf(linked[k].1) in before && items[k] == before[PartsOf(linked[k].1)]
    {
      hide Sort, TextLe, Placeable, Placed, PlacedUpTo, Rooted, WithParents, Open, PartsOf, Endless, EndsAt;
      hide HardlinkGraph.Valid;
      var relative := order[i];
      assert relative in Elements(order) && relative in Elements(names);
      var visited := graph.Visit(relative, []);
      if visited.Err? {
        assert !NoneEndless(tree);
        return Err(visited.error);
      }
      FileThere(tree, relative, visited.value, before, order, items, i, root.nodes);
      var node := root.nodes[PartsOf(visited.value)];
      PlacingStep(before, order, items, i, root.nodes, node);
      var refused := root.Place(relative, node);
      if refused.Some? {
        return Err(HardlinkError.Refused(refused.value));
      }
      items, linked := items + [node], linked + [(relative, visited.value)];
    }
    PlacingEnds(before, order, items, root.nodes);
    assert items == Shared(before, linked);
    AllEnded(tree, order, linked);
    return Ok(linked);
  }

  /** The file at the end of a chain is in the tree, as it was before any link was made. */
  lemma FileThere(t: Tree, link: string, file: string, before: Nodes, order: seq<string>, items: seq<Node>, k: nat,
                  nodes: Nodes)
    requires Linked(t, link, file) && Materialised(t, before) && PlacedUpTo(before, order, items, k, nodes)
    ensures PartsOf(file) in before && PartsOf(file) in nodes
    ensures nodes[PartsOf(file)] == before[PartsOf(file)] && nodes[PartsOf(file)].File?
  {
    hide PartsOf;
    EndsRegular(t, link, file);
  }

  lemma AllEnded(t: Tree, order: seq<string>, linked: seq<(string, string)>)
    requires Elements(order) == HardlinkNames(t) && LinkedUpTo(t, order, linked, |order|)
    ensures NoneEndless(t)
  {
    hide EndsAt, Endless;
    forall link | IsHardlink(t, link) ensures !Endless(t, link) {
      assert link in HardlinkNames(t);
      var i :| 0 <= i < |order| && order[i] == link;
      EndIsUnique(t, link, linked[i].1, linked[i].1);
    }
  }
}
