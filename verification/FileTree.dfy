/**
 * The directory that the archive is extracted into (mkosi/debian/extract_tree.py): what `_parent` makes of it, and
 * when a set of new names can be placed in it one after the other, in any order.
 */
module FileTree {
  import opened Prelude
  import opened Text
  import opened LinkPaths
  import opened LinkSemantics

  /** A path as its components. */
  type Parts = seq<string>

  datatype Node = Dir | File(inode: nat) | Link(text: string)

  /** Everything below the root; the root itself is a directory. */
  type Nodes = map<Parts, Node>

  function PartsOf(name: string): (r: Parts)
    ensures r != []
  {
    Split(name, SLASH)
  }

  /** A name that `member_path` returns: components that a directory can hold. */
  predicate Normal(name: string) {
    AllPlain(PartsOf(name))
  }

  predicate AllPlain(p: Parts) {
    forall i :: 0 <= i < |p| ==> Plain(p[i])
  }

  /** Distinct names have distinct components. */
  lemma PartsInjective(a: string, b: string)
    requires PartsOf(a) == PartsOf(b)
    ensures a == b
  {
    JoinSplit(a, SLASH);
    JoinSplit(b, SLASH);
  }

  predicate IsDir(nodes: Nodes, p: Parts) {
    p in nodes && nodes[p] == Dir
  }

  /** A file system: nodes have proper names, and only directories have anything below them. */
  ghost predicate Rooted(nodes: Nodes) {
    && (forall p :: p in nodes ==> p != [] && AllPlain(p))
    && (forall p, k :: p in nodes && 0 < k < |p| ==> IsDir(nodes, p[..k]))
  }

  /** The path names the root or something below it. */
  predicate Exists(nodes: Nodes, p: Parts) {
    p == [] || p in nodes
  }

  /** The path is a directory or could become one. */
  predicate Passable(nodes: Nodes, p: Parts) {
    p in nodes ==> nodes[p] == Dir
  }

  /** No proper ancestor is anything but a directory. */
  ghost predicate Open(nodes: Nodes, p: Parts) {
    forall k :: 0 < k < |p| ==> Passable(nodes, p[..k])
  }

  // ---- Creating parents ----

  /** The nodes with the first k ancestors of the path as directories. */
  function WithParents(nodes: Nodes, p: Parts, k: nat): Nodes
    requires k <= |p|
  {
    if k == 0 then nodes
    else
      var before := WithParents(nodes, p, k - 1);
      if p[..k] in before then before else before[p[..k] := Dir]
  }

  lemma {:induction false} WithParentsAt(nodes: Nodes, p: Parts, k: nat, q: Parts)
    requires k <= |p|
    ensures q in WithParents(nodes, p, k) <==> q in nodes || (0 < |q| <= k && q <= p)
    ensures q in nodes ==> WithParents(nodes, p, k)[q] == nodes[q]
    ensures q !in nodes && q in WithParents(nodes, p, k) ==> WithParents(nodes, p, k)[q] == Dir
  {
    if k > 0 {
      WithParentsAt(nodes, p, k - 1, q);
      WithParentsAt(nodes, p, k - 1, p[..k]);
      assert q <= p && |q| == k ==> q == p[..k];
    }
  }

  lemma WithParentsRooted(nodes: Nodes, p: Parts, k: nat)
    requires Rooted(nodes) && AllPlain(p) && k < |p| && forall j :: 0 < j <= k ==> Passable(nodes, p[..j])
    ensures Rooted(WithParents(nodes, p, k))
    ensures forall j :: 0 < j <= k ==> IsDir(WithParents(nodes, p, k), p[..j])
  {
    hide WithParents;
    var after := WithParents(nodes, p, k);
    forall q ensures
      && (q in after <==> q in nodes || (0 < |q| <= k && q <= p)) && (q in nodes ==> after[q] == nodes[q])
      && (q !in nodes && q in after ==> after[q] == Dir)
    {
      WithParentsAt(nodes, p, k, q);
    }
    forall j | 0 < j <= k ensures IsDir(after, p[..j]) {
      assert Passable(nodes, p[..j]) && |p[..j]| == j;
    }
    forall q, j | q in after && 0 < j < |q| ensures IsDir(after, q[..j]) {
      if q in nodes {
        assert IsDir(nodes, q[..j]);
      } else {
        assert q == p[..|q|] && q[..j] == p[..j];
      }
    }
  }

  /** The textual parent of a normalised name is the name without its last component. */
  lemma DirnameParts(name: string)
    requires Normal(name)
    ensures var p := PartsOf(name);
            Split(Dirname(name), SLASH) == if |p| == 1 then [""] else p[..|p| - 1]
  {
    var p := PartsOf(name);
    var directory, last := p[..|p| - 1], p[|p| - 1];
    JoinSplit(name, SLASH);
    assert p == directory + [last];
    DirnameOfJoin(directory, last);
    if directory != [] {
      SplitJoin(directory, SLASH);
    }
  }

  lemma NoParents(nodes: Nodes, p: Parts)
    ensures WithParents(nodes, p, 0) == nodes
  {
  }

  /** Parents that exist already are all there. */
  lemma {:induction false} NothingMissing(nodes: Nodes, p: Parts, k: nat)
    requires k <= |p| && forall j :: 0 < j <= k ==> p[..j] in nodes
    ensures WithParents(nodes, p, k) == nodes
  {
    if k > 0 {
      NothingMissing(nodes, p, k - 1);
    }
  }

  /** One more parent: nothing was missing before one that exists. */
  lemma NextParent(nodes: Nodes, p: Parts, i: nat)
    requires Rooted(nodes) && AllPlain(p) && i + 1 < |p| && forall j :: 0 < j <= i ==> Passable(nodes, p[..j])
    ensures var now, q := WithParents(nodes, p, i), p[..i + 1];
            && (q in now <==> q in nodes) && (q in nodes ==> now == nodes)
            && WithParents(nodes, p, i + 1) == (if q in now then now else now[q := Dir])
            && (Passable(nodes, q) ==> Rooted(WithParents(nodes, p, i + 1)))
  {
    var q := p[..i + 1];
    WithParentsAt(nodes, p, i, q);
    hide WithParents;
    ParentStep(nodes, p, i);
    if q in nodes {
      forall j | 0 < j <= i ensures p[..j] in nodes {
        assert q[..j] == p[..j] && IsDir(nodes, q[..j]);
      }
      NothingMissing(nodes, p, i);
    }
    if Passable(nodes, q) {
      WithParentsRooted(nodes, p, i + 1);
    }
  }

  lemma ParentStep(nodes: Nodes, p: Parts, i: nat)
    requires i < |p|
    ensures var now, q := WithParents(nodes, p, i), p[..i + 1];
            WithParents(nodes, p, i + 1) == if q in now then now else now[q := Dir]
  {
  }

  datatype PlaceError = ParentNotDirectory(name: string) | Collision(name: string) | EmptyLinkText(name: string)

  lemma PlainIsNonempty()
    ensures !Plain("")
  {
  }

  class Root {
    var nodes: Nodes

    ghost predicate Valid()
      reads this
    {
      Rooted(nodes)
    }

    /** `_parent`: makes the missing ancestors, or fails, changing nothing, at one that is not a directory. */
    method Parent(relative: string) returns (e: Option<PlaceError>)
      requires Valid() && Normal(relative)
      modifies this
      ensures Valid()
      ensures e == if Open(old(nodes), PartsOf(relative)) then None else Some(ParentNotDirectory(relative))
      ensures e.None? ==> nodes == WithParents(old(nodes), PartsOf(relative), |PartsOf(relative)| - 1)
      ensures e.Some? ==> nodes == old(nodes)
    {
      hide WithParents, Rooted, Split, Dirname, Plain;
      PlainIsNonempty();
      ghost var p, before := PartsOf(relative), nodes;
      var parts := Split(Dirname(relative), SLASH);
      DirnameParts(relative);
      NoParents(nodes, p);
      var parent: Parts := [];
      for i := 0 to |parts|
        invariant |p| == 1 ==> parent == []
        invariant |p| > 1 ==> i < |p| && parent == p[..i]
        invariant Valid() && nodes == WithParents(before, p, |parent|)
        invariant forall j :: 0 < j <= |parent| ==> Passable(before, p[..j])
      {
        hide WithParents, Rooted, Split, Dirname, Plain;
        assert |p| > 1 ==> Plain(parts[i]);
        if parts[i] != "" {
          parent := parent + [parts[i]];
          assert parent == p[..i + 1];
          NextParent(before, p, i);
          if parent in nodes {
            if nodes[parent] != Dir {
              assert !Passable(before, p[..i + 1]);
              return Some(ParentNotDirectory(relative));
            }
          } else {
            nodes := nodes[parent := Dir];
          }
        }
      }
      return None;
    }

    /** Creates a new node below its parents, unless the name is taken. */
    method Place(relative: string, node: Node) returns (e: Option<PlaceError>)
      requires Valid() && Normal(relative)
      modifies this
      ensures Valid()
      ensures e.None? <==> Open(old(nodes), PartsOf(relative)) && PartsOf(relative) !in old(nodes)
      ensures e.None? ==>
                nodes == WithParents(old(nodes), PartsOf(relative), |PartsOf(relative)| - 1)[PartsOf(relative) := node]
      ensures e.Some? ==> nodes == old(nodes)
    {
      hide WithParents, Rooted, Open;
      ghost var before := nodes;
      e := Parent(relative);
      if e.Some? {
        return;
      }
      PlacedRooted(before, PartsOf(relative), node);
      if PartsOf(relative) in nodes {
        return Some(Collision(relative));
      }
      nodes := nodes[PartsOf(relative) := node];
    }

    /**
     * Creates a symbolic link below its parents. The operating system refuses an empty text, after the parents have
     * been made and the name found free.
     */
    method Symlink(relative: string, text: string) returns (e: Option<PlaceError>)
      requires Valid() && Normal(relative)
      modifies this
      ensures Valid()
      ensures e.None? <==> && Open(old(nodes), PartsOf(relative)) && PartsOf(relative) !in old(nodes)
                           && text != ""
      ensures e.None? ==> nodes == WithParents(old(nodes), PartsOf(relative), |PartsOf(relative)| - 1)
                                   [PartsOf(relative) := Link(text)]
    {
      hide WithParents, Rooted, Open;
      ghost var before := nodes;
      e := Parent(relative);
      if e.Some? {
        return;
      }
      PlacedRooted(before, PartsOf(relative), Link(text));
      if PartsOf(relative) in nodes {
        return Some(Collision(relative));
      }
      if text == "" {
        return Some(EmptyLinkText(relative));
      }
      nodes := nodes[PartsOf(relative) := Link(text)];
    }
  }

  lemma PlacedRooted(nodes: Nodes, p: Parts, node: Node)
    requires Rooted(nodes) && p != [] && AllPlain(p) && Open(nodes, p)
    ensures var after := WithParents(nodes, p, |p| - 1);
            && (p in after <==> p in nodes) && (p in nodes ==> after == nodes)
            && (p !in nodes ==> Rooted(after[p := node]))
  {
    hide WithParents;
    var n := |p| - 1;
    WithParentsAt(nodes, p, n, p);
    WithParentsRooted(nodes, p, n);
    if p in nodes {
      forall j | 0 < j <= n ensures p[..j] in nodes {
        assert IsDir(nodes, p[..j]);
      }
      NothingMissing(nodes, p, n);
    } else {
      var after := WithParents(nodes, p, n);
      var grown := after[p := node];
      forall q, j | q in grown && 0 < j < |q| ensures IsDir(grown, q[..j]) {
        if q == p {
          assert IsDir(after, p[..j]);
        } else {
          assert IsDir(after, q[..j]);
        }
      }
    }
  }

  // ---- Placing many names ----

  /** A new set of names fits: none is taken, none lies below another, and none below anything but a directory. */
  ghost predicate Fits(nodes: Nodes, names: seq<Parts>) {
    && (forall i :: 0 <= i < |names| ==> names[i] != [] && names[i] !in nodes && Open(nodes, names[i]))
    && (forall i, j :: 0 <= i < |names| && 0 <= j < |names| ==> !(names[i] < names[j]))
  }

  /** The path is a proper ancestor of one of the names. */
  ghost predicate Above(q: Parts, names: seq<Parts>) {
    q != [] && exists i :: 0 <= i < |names| && q < names[i]
  }

  /** The nodes after the names were placed: the old ones, the new ones and directories above the new ones. */
  ghost predicate Placed(before: Nodes, names: seq<Parts>, items: seq<Node>, after: Nodes) {
    && |items| == |names|
    && (forall q :: q in after <==> q in before || q in names || Above(q, names))
    && (forall q :: q in before ==> q in after && after[q] == before[q])
    && (forall i :: 0 <= i < |names| ==> names[i] in after && after[names[i]] == items[i])
    && (forall q :: q in after && q !in before && q !in names ==> after[q] == Dir)
  }

  ghost predicate NoDirs(items: seq<Node>) {
    forall i :: 0 <= i < |items| ==> items[i] != Dir
  }

  lemma PlacedNone(nodes: Nodes)
    ensures Placed(nodes, [], [], nodes) && Fits(nodes, [])
  {
  }

  /**
   * The next name can be placed exactly when it fits together with the old nodes and the names before it: a name
   * below an earlier one meets a node that is no directory, and one above an earlier name is taken by a directory.
   */
  lemma NextFits(before: Nodes, names: seq<Parts>, items: seq<Node>, nodes: Nodes, n: Parts)
    requires Placed(before, names, items, nodes) && NoDirs(items) && Fits(before, names) && n != [] && n !in names
    ensures Open(nodes, n) && n !in nodes <==> Fits(before, names + [n])
  {
    var all := names + [n];
    assert forall i :: 0 <= i < |names| ==> all[i] == names[i];
    if Open(nodes, n) && n !in nodes {
      forall k | 0 < k < |n| ensures Passable(before, n[..k]) {
        assert Passable(nodes, n[..k]);
      }
      forall i | 0 <= i < |names| ensures !(names[i] < n) && !(n < names[i]) {
        NotBelow(nodes, names[i], n);
        assert !Above(n, names);
      }
      assert Fits(before, all);
    }
    if Fits(before, all) {
      assert all[|names|] == n;
      forall i | 0 <= i < |names| ensures !(names[i] < n) && !(n < names[i]) {
        assert !(all[i] < all[|names|]) && !(all[|names|] < all[i]);
      }
      forall k | 0 < k < |n| ensures Passable(nodes, n[..k]) {
        assert Passable(before, n[..k]) && n[..k] < n;
      }
    }
  }

  lemma NotBelow(nodes: Nodes, name: Parts, n: Parts)
    requires name != [] && name in nodes && nodes[name] != Dir && Open(nodes, n)
    ensures !(name < n)
  {
    forall k | 0 < k < |n| ensures n[..k] != name {
      assert Passable(nodes, n[..k]);
    }
    PrefixIs(name, n);
  }

  lemma PrefixIs(a: Parts, b: Parts)
    ensures a < b ==> |a| < |b| && b[..|a|] == a
  {
  }

  /** Placing one more name. */
  lemma PlacedNext(before: Nodes, names: seq<Parts>, items: seq<Node>, nodes: Nodes, n: Parts, node: Node)
    requires Placed(before, names, items, nodes) && n != [] && n !in nodes
    ensures Placed(before, names + [n], items + [node], WithParents(nodes, n, |n| - 1)[n := node])
  {
    hide WithParents, Above;
    var parents := WithParents(nodes, n, |n| - 1);
    var after, all, placed := parents[n := node], names + [n], items + [node];
    ParentsAbove(nodes, n);
    forall q ensures Above(q, all) <==> Above(q, names) || IsAbove(q, n) {
      AboveGrows(q, names, n);
    }
    assert forall q :: q in all <==> q in names || q == n;
    hide IsAbove;
    PlacedMembers(before, names, items, nodes, n, node, parents);
    PlacedItems(before, names, items, nodes, n, node, parents);
  }

  predicate IsAbove(q: Parts, n: Parts) {
    q != [] && q < n
  }

  ghost predicate AddsParents(nodes: Nodes, n: Parts, parents: Nodes) {
    && (forall q :: q in parents <==> q in nodes || IsAbove(q, n))
    && (forall q :: q in nodes ==> parents[q] == nodes[q])
    && (forall q :: q !in nodes && q in parents ==> parents[q] == Dir)
  }

  lemma ParentsAbove(nodes: Nodes, n: Parts)
    requires n != []
    ensures AddsParents(nodes, n, WithParents(nodes, n, |n| - 1))
  {
    hide WithParents;
    var parents := WithParents(nodes, n, |n| - 1);
    forall q ensures
      && (q in parents <==> q in nodes || IsAbove(q, n)) && (q in nodes ==> parents[q] == nodes[q])
      && (q !in nodes && q in parents ==> parents[q] == Dir)
    {
      WithParentsAt(nodes, n, |n| - 1, q);
    }
  }

  lemma PlacedMembers(before: Nodes, names: seq<Parts>, items: seq<Node>, nodes: Nodes, n: Parts, node: Node,
                      parents: Nodes)
    requires Placed(before, names, items, nodes) && n !in nodes && AddsParents(nodes, n, parents)
    requires forall q :: Above(q, names + [n]) <==> Above(q, names) || IsAbove(q, n)
    ensures var after, all := parents[n := node], names + [n];
            && (forall q :: q in after <==> q in before || q in all || Above(q, all))
            && (forall q :: q in before ==> q in after && after[q] == before[q])
            && (forall q :: q in after && q !in before && q !in all ==> after[q] == Dir)
  {
    hide Above, IsAbove;
    assert forall q :: q in names + [n] <==> q in names || q == n;
  }

  lemma PlacedItems(before: Nodes, names: seq<Parts>, items: seq<Node>, nodes: Nodes, n: Parts, node: Node,
                    parents: Nodes)
    requires Placed(before, names, items, nodes) && n !in nodes && AddsParents(nodes, n, parents)
    ensures var after, all, placed := parents[n := node], names + [n], items + [node];
            forall i :: 0 <= i < |all| ==> all[i] in after && after[all[i]] == placed[i]
  {
    hide Above, IsAbove;
    var after, all, placed := parents[n := node], names + [n], items + [node];
    forall i | 0 <= i < |names| ensures names[i] in after && after[names[i]] == items[i] {
      assert names[i] in nodes && names[i] != n;
    }
  }

  lemma AboveGrows(q: Parts, names: seq<Parts>, n: Parts)
    ensures Above(q, names + [n]) <==> Above(q, names) || IsAbove(q, n)
  {
    var all := names + [n];
    if Above(q, names) {
      var i :| 0 <= i < |names| && q < names[i];
      assert q < all[i];
    }
    if q < n {
      assert q < all[|names|];
    }
  }

  /** Fitting is inherited by shorter lists. */
  lemma FitsPrefix(nodes: Nodes, names: seq<Parts>, k: nat)
    requires k <= |names|
    ensures Fits(nodes, names) ==> Fits(nodes, names[..k])
  {
  }

  // ---- Names ----

  /**
   * A set of names can be placed: none is taken, and no proper ancestor of one is another of them or anything in the
   * tree but a directory.
   */
  ghost predicate Placeable(nodes: Nodes, names: set<string>) {
    forall name :: name in names ==>
      && PartsOf(name) !in nodes && Open(nodes, PartsOf(name))
      && forall other :: other in names ==> !(PartsOf(other) < PartsOf(name))
  }

  function AllParts(names: seq<string>): (r: seq<Parts>)
    ensures |r| == |names| && forall i :: 0 <= i < |r| ==> r[i] == PartsOf(names[i])
  {
    seq(|names|, i requires 0 <= i < |names| => PartsOf(names[i]))
  }

  /** Whether names can be placed does not depend on their order. */
  lemma PlaceableInAnyOrder(nodes: Nodes, names: seq<string>)
    ensures Fits(nodes, AllParts(names)) <==> Placeable(nodes, Elements(names))
  {
    var parts := AllParts(names);
    if Placeable(nodes, Elements(names)) {
      forall i | 0 <= i < |parts| ensures parts[i] !in nodes && Open(nodes, parts[i]) {
        assert names[i] in Elements(names);
      }
      forall i, j | 0 <= i < |parts| && 0 <= j < |parts| ensures !(parts[i] < parts[j]) {
        assert names[i] in Elements(names) && names[j] in Elements(names);
      }
    }
    if Fits(nodes, parts) {
      forall name | name in Elements(names)
        ensures PartsOf(name) !in nodes && Open(nodes, PartsOf(name))
        ensures forall other :: other in Elements(names) ==> !(PartsOf(other) < PartsOf(name))
      {
        var j :| 0 <= j < |names| && names[j] == name;
        assert parts[j] == PartsOf(name);
        forall other | other in Elements(names) ensures !(PartsOf(other) < PartsOf(name)) {
          var i :| 0 <= i < |names| && names[i] == other;
          assert parts[i] == PartsOf(other);
        }
      }
    }
  }

  lemma NewName(names: seq<string>, k: nat)
    requires Distinct(names) && k < |names|
    ensures PartsOf(names[k]) !in AllParts(names[..k])
    ensures AllParts(names[..k + 1]) == AllParts(names[..k]) + [PartsOf(names[k])]
  {
    if PartsOf(names[k]) in AllParts(names[..k]) {
      var i :| 0 <= i < k && AllParts(names[..k])[i] == PartsOf(names[k]);
      PartsInjective(names[i], names[k]);
      assert false;
    }
  }

  /** The names before the k-th are in place, and fit. */
  ghost predicate PlacedUpTo(before: Nodes, names: seq<string>, items: seq<Node>, k: nat, nodes: Nodes) {
    && k <= |names| && |items| == k && NoDirs(items)
    && Fits(before, AllParts(names[..k])) && Placed(before, AllParts(names[..k]), items, nodes)
  }

  lemma PlacingStarts(nodes: Nodes, names: seq<string>)
    ensures PlacedUpTo(nodes, names, [], 0, nodes)
  {
    assert AllParts(names[..0]) == [];
    PlacedNone(nodes);
  }

  /** One turn of a loop that places names: it goes on exactly while the names fit. */
  lemma PlacingStep(before: Nodes, names: seq<string>, items: seq<Node>, k: nat, nodes: Nodes, node: Node)
    requires PlacedUpTo(before, names, items, k, nodes) && k < |names| && Distinct(names) && node != Dir
    ensures var p := PartsOf(names[k]);
            if Open(nodes, p) && p !in nodes
            then PlacedUpTo(before, names, items + [node], k + 1, WithParents(nodes, p, |p| - 1)[p := node])
            else !Placeable(before, Elements(names))
  {
    hide Placed, Fits, Placeable, WithParents, Open;
    var p := PartsOf(names[k]);
    NewName(names, k);
    NextFits(before, AllParts(names[..k]), items, nodes, p);
    if Open(nodes, p) && p !in nodes {
      PlacedNext(before, AllParts(names[..k]), items, nodes, p, node);
    }
    PlaceableInAnyOrder(before, names);
    FitsPrefix(before, AllParts(names), k + 1);
    assert AllParts(names)[..k + 1] == AllParts(names[..k + 1]);
  }

  lemma PlacingEnds(before: Nodes, names: seq<string>, items: seq<Node>, nodes: Nodes)
    requires PlacedUpTo(before, names, items, |names|, nodes)
    ensures Placeable(before, Elements(names)) && Placed(before, AllParts(names), items, nodes) && NoDirs(items)
  {
    hide Placed, Fits, Placeable;
    assert names[..|names|] == names;
    PlaceableInAnyOrder(before, names);
  }

  /** Placing one set of names and then another needs exactly that both together can be placed. */
  lemma PlaceableTogether(before: Nodes, first: seq<string>, items: seq<Node>, middle: Nodes, second: set<string>)
    requires Placed(before, AllParts(first), items, middle) && NoDirs(items)
    requires Placeable(before, Elements(first)) && Elements(first) !! second
    ensures Placeable(middle, second) <==> Placeable(before, Elements(first) + second)
  {
    hide Placed;
    if Placeable(middle, second) {
      forall name, other | name in Elements(first) + second && other in Elements(first) + second
        ensures PartsOf(name) !in before && Open(before, PartsOf(name)) && !(PartsOf(other) < PartsOf(name))
      {
        TogetherNeeded(before, first, items, middle, second, name, other);
      }
    }
    if Placeable(before, Elements(first) + second) {
      forall name | name in second ensures PartsOf(name) !in middle && Open(middle, PartsOf(name)) {
        TogetherEnough(before, first, items, middle, second, name);
      }
    }
  }

  lemma TogetherNeeded(before: Nodes, first: seq<string>, items: seq<Node>, middle: Nodes, second: set<string>,
                       name: string, other: string)
    requires Placed(before, AllParts(first), items, middle) && NoDirs(items)
    requires Placeable(before, Elements(first)) && Placeable(middle, second)
    requires name in Elements(first) + second && other in Elements(first) + second
    ensures PartsOf(name) !in before && Open(before, PartsOf(name)) && !(PartsOf(other) < PartsOf(name))
  {
    var p := PartsOf(name);
    if name in second {
      forall k | 0 < k < |p| ensures Passable(before, p[..k]) {
        assert Passable(middle, p[..k]);
      }
      if other in first {
        var i :| 0 <= i < |first| && first[i] == other;
        assert AllParts(first)[i] == PartsOf(other);
        NotBelow(middle, PartsOf(other), p);
      }
    } else if other !in first {
      var i :| 0 <= i < |first| && first[i] == name;
      assert AllParts(first)[i] == p;
      assert PartsOf(other) !in middle;
      assert !Above(PartsOf(other), AllParts(first));
    }
  }

  lemma TogetherEnough(before: Nodes, first: seq<string>, items: seq<Node>, middle: Nodes, second: set<string>,
                       name: string)
    requires Placed(before, AllParts(first), items, middle) && Elements(first) !! second
    requires Placeable(before, Elements(first) + second) && name in second
    ensures PartsOf(name) !in middle && Open(middle, PartsOf(name))
  {
    var p, parts := PartsOf(name), AllParts(first);
    forall i | 0 <= i < |parts| ensures parts[i] != p && !(parts[i] < p) && !(p < parts[i]) {
      assert first[i] in Elements(first) && first[i] in Elements(first) + second && name in Elements(first) + second;
      if parts[i] == p {
        PartsInjective(first[i], name);
      }
    }
    forall k | 0 < k < |p| ensures Passable(middle, p[..k]) {
      assert Passable(before, p[..k]) && p[..k] < p;
    }
  }
}
