/**
 * The links of an archive, hard links first (mkosi/debian/extract_tree.py): when they can all be created in the tree
 * of directories and files, and inputs that are refused only because of what lies above a link.
 */
module ExtractLinks {
  import opened Prelude
  import opened Text
  import opened Sorting
  import opened LinkPaths
  import LinkSemantics
  import opened FileTree
  import KernelWalk
  import LinkGraph
  import Hardlinks

  datatype ExtractError = Hard(error: Hardlinks.HardlinkError) | Symbolic(reason: LinkGraph.CreateError)

  /** The path exists once the hard links and their parents do. */
  ghost predicate ExistsAfter(t: Tree, nodes: Nodes, p: Parts) {
    Exists(nodes, p) || exists link :: Hardlinks.IsHardlink(t, link) && p <= PartsOf(link)
  }

  /** Every symbolic link resolves, and to something that will exist unless it may dangle. */
  ghost predicate AllAcceptedAfter(t: Tree, nodes: Nodes, allowed: set<string>) {
    forall link :: IsLink(t, link) ==>
      Resolve(t, link).Ok? && (ExistsAfter(t, nodes, Resolve(t, link).value.0) || link in allowed)
  }

  /** The tree after the hard links. */
  ghost predicate HardlinksPlaced(t: Tree, nodes: Nodes, order: seq<string>, items: seq<Node>, middle: Nodes) {
    Elements(order) == Hardlinks.HardlinkNames(t) && Placed(nodes, AllParts(order), items, middle)
  }

  lemma ExistsMiddle(t: Tree, nodes: Nodes, order: seq<string>, items: seq<Node>, middle: Nodes, p: Parts)
    requires HardlinksPlaced(t, nodes, order, items, middle)
    ensures Exists(middle, p) <==> ExistsAfter(t, nodes, p)
  {
    var parts := AllParts(order);
    if p != [] && p in middle && p !in nodes {
      var i :| 0 <= i < |order| && p <= parts[i];
      assert order[i] in Elements(order);
      assert Hardlinks.IsHardlink(t, order[i]);
    }
    if link :| p != [] && Hardlinks.IsHardlink(t, link) && p <= PartsOf(link) {
      assert link in Elements(order);
      var i :| 0 <= i < |order| && order[i] == link;
      assert p == parts[i] || p < parts[i];
      assert p in parts || Above(p, parts);
    }
  }

  lemma AcceptedMiddle(t: Tree, nodes: Nodes, order: seq<string>, items: seq<Node>, middle: Nodes, allowed: set<string>)
    requires HardlinksPlaced(t, nodes, order, items, middle)
    ensures LinkGraph.AllAccepted(t, middle, allowed) <==> AllAcceptedAfter(t, nodes, allowed)
  {
    hide Resolve, HardlinksPlaced, ExistsAfter, Exists;
    forall p ensures Exists(middle, p) <==> ExistsAfter(t, nodes, p) {
      ExistsMiddle(t, nodes, order, items, middle, p);
    }
  }

  /**
   * The link phases of `_extract_members`: they succeed exactly when every hard link chain ends at a regular file,
   * every symbolic link is accepted and has a text, and all link names together can be placed: none is taken, and no
   * proper ancestor of one is a link of either kind or a file. The symbolic links then stand with their texts.
   */
  method CreateLinks(tree: Tree, hardlinks: seq<string>, symlinks: seq<string>, allowed: set<string>, root: Root)
    returns (r: Result<(), ExtractError>)
    requires root.Valid() && Hardlinks.Materialised(tree, root.nodes)
    requires forall p :: p in root.nodes ==> !root.nodes[p].Link?
    requires Elements(hardlinks) == Hardlinks.HardlinkNames(tree) && Distinct(hardlinks)
    requires Elements(symlinks) == Links(tree) && Distinct(symlinks)
    requires forall name :: name in hardlinks || name in symlinks ==> Normal(name)
    modifies root
    ensures root.Valid()
    ensures r.Ok? <==> && Hardlinks.NoneEndless(tree) && AllAcceptedAfter(tree, old(root.nodes), allowed)
                       && LinkGraph.TextsPresent(tree, Links(tree))
                       && Placeable(old(root.nodes), Hardlinks.HardlinkNames(tree) + Links(tree))
    ensures r.Ok? ==> KernelWalk.LinksStand(tree, root.nodes)
  {
    hide LinkGraph.TextsPresent, KernelWalk.LinksStand, Hardlinks.Materialised, AllAcceptedAfter;
    hide Placeable, Placed, Rooted, Resolve, Normal, Sort, TextLe;
    ghost var before, order := root.nodes, Sort(hardlinks, TextLe);
    PlaceableParts(before, Hardlinks.HardlinkNames(tree), Links(tree));
    var linked := Hardlinks.LinkHardlinks(tree, hardlinks, root);
    if linked.Err? {
      return Err(Hard(linked.error));
    }
    ghost var items := Hardlinks.Shared(before, linked.value);
    Hardlinks.SortedNames(hardlinks);
    assert HardlinksPlaced(tree, before, order, items, root.nodes);
    AcceptedMiddle(tree, before, order, items, root.nodes, allowed);
    PlaceableTogether(before, order, items, root.nodes, Links(tree));
    NoLinksYet(before, order, items, root.nodes);
    var created := LinkGraph.CreateSymlinks(tree, symlinks, allowed, root);
    if created.Err? {
      return Err(Symbolic(created.error));
    }
    return Ok(());
  }

  lemma PlaceableParts(nodes: Nodes, a: set<string>, b: set<string>)
    ensures Placeable(nodes, a + b) ==> Placeable(nodes, a)
  {
    if Placeable(nodes, a + b) {
      forall name | name in a
        ensures PartsOf(name) !in nodes && Open(nodes, PartsOf(name))
        ensures forall other :: other in a ==> !(PartsOf(other) < PartsOf(name))
      {
        assert name in a + b;
        forall other | other in a ensures !(PartsOf(other) < PartsOf(name)) {
          assert other in a + b;
        }
      }
    }
  }

  lemma NoLinksYet(before: Nodes, order: seq<string>, items: seq<Node>, after: Nodes)
    requires Placed(before, AllParts(order), items, after)
    requires forall p :: p in before ==> !before[p].Link?
    requires forall i :: 0 <= i < |items| ==> !items[i].Link?
    ensures forall p :: p in after ==> !after[p].Link?
  {
    forall p | p in after ensures !after[p].Link? {
      if p !in before && p in AllParts(order) {
        var i :| 0 <= i < |order| && AllParts(order)[i] == p;
      }
    }
  }

  // ---- Refused inputs ----

  lemma OneName(name: string)
    requires Free(name, SLASH)
    ensures PartsOf(name) == [name]
  {
    SplitFree(name, SLASH);
  }

  lemma TwoNames(a: string, b: string)
    requires Free(a, SLASH) && Free(b, SLASH)
    ensures PartsOf(a + [SLASH] + b) == [a, b]
  {
    SplitConcat(a, b, SLASH);
    SplitFree(b, SLASH);
  }

  /** Resolving a link whose raw components lead to one name that is no link. */
  lemma LeadsTo(t: Tree, link: string, name: string)
    requires IsLink(t, link) && RawComponents(link, t[link].linkname) in {[name], ["", name]}
    requires name !in {"", ".", ".."} && !IsLink(t, name)
    ensures Resolve(t, link) == Ok(([name], []))
  {
    assert [name][1..] == [] && ["", name][1..] == [name] && [] + [name] == [name];
    assert Join([name], SLASH) == name;
    assert Walk(t, [], [name], []) == Ok(([name], []));
  }

  lemma AbsoluteName(link: string, name: string)
    requires Free(name, SLASH)
    ensures RawComponents(link, [SLASH] + name) == ["", name]
  {
    assert ([SLASH] + name)[1..] == name;
    SplitFree(name, SLASH);
  }

  lemma TopLevelName(link: string, name: string)
    requires Free(link, SLASH) && Free(name, SLASH) && name != ""
    ensures RawComponents(link, name) == [name]
  {
    LinkSemantics.HeadOfName(link);
    SplitFree(name, SLASH);
    assert name[0] != SLASH;
    assert [] + [name] == [name];
  }

  /** A link below a link: both are accepted, and neither name is taken, but the parent is no directory. */
  lemma LinkBelowLink()
    ensures var t: Tree := map["d" := Directory, "f" := Regular, "a" := Symlink("d"), "a/b" := Symlink("/f")];
            var nodes: Nodes := map[["d"] := Dir, ["f"] := File(0)];
            && LinkGraph.AllAccepted(t, nodes, {}) && PartsOf("a") !in nodes && PartsOf("a/b") !in nodes
            && !Placeable(nodes, Links(t))
  {
    hide Resolve, RawComponents, PartsOf;
    var t: Tree := map["d" := Directory, "f" := Regular, "a" := Symlink("d"), "a/b" := Symlink("/f")];
    OneName("a");
    TwoNames("a", "b");
    assert "a" + [SLASH] + "b" == "a/b" && [SLASH] + "f" == "/f";
    TopLevelName("a", "d");
    LeadsTo(t, "a", "d");
    AbsoluteName("a/b", "f");
    LeadsTo(t, "a/b", "f");
    assert Links(t) == {"a", "a/b"};
    assert ["a"] < ["a", "b"];
  }

  /** A link without a text: it resolves to the root and its name is free, but it cannot be made. */
  lemma EmptyLink()
    ensures var t: Tree := map["a" := Symlink("")];
            && LinkGraph.AllAccepted(t, map[], {}) && Placeable(map[], Links(t))
            && !LinkGraph.TextsPresent(t, Links(t))
  {
    var t: Tree := map["a" := Symlink("")];
    LinkSemantics.HeadOfName("a");
    assert RawComponents("a", "") == [""];
    assert [""][1..] == [];
    assert Walk(t, [], [], []) == Ok(([], [])) && Walk(t, [], [""], []) == Ok(([], []));
    assert Links(t) == {"a"};
    OneName("a");
  }

  /** The walk of a text that goes down one name and back up again. */
  lemma DownAndBack(t: Tree, link: string, through: string, name: string)
    requires Free(link, SLASH) && IsLink(t, link) && t[link].linkname == through + "/../" + name
    requires LinkSemantics.Plain(through) && LinkSemantics.Plain(name) && !IsLink(t, through) && !IsLink(t, name)
    ensures Split(t[link].linkname, SLASH) == [through, "..", name]
    ensures Resolve(t, link) == Ok(([name], []))
  {
    hide Split, Head, Walk;
    DownAndBackParts(link, through, name);
    DownAndBackWalk(t, through, name);
  }

  lemma DownAndBackParts(link: string, through: string, name: string)
    requires Free(link, SLASH) && LinkSemantics.Plain(through) && LinkSemantics.Plain(name)
    ensures Split(through + "/../" + name, SLASH) == [through, "..", name]
    ensures RawComponents(link, through + "/../" + name) == [through, "..", name]
  {
    var text := through + "/../" + name;
    assert text == through + [SLASH] + (".." + [SLASH] + name);
    SplitConcat(through, ".." + [SLASH] + name, SLASH);
    SplitConcat("..", name, SLASH);
    SplitFree(name, SLASH);
    hide Split;
    LinkSemantics.HeadOfName(link);
    assert text[0] == through[0] != SLASH;
    assert [] + [through, "..", name] == [through, "..", name];
  }

  lemma DownAndBackWalk(t: Tree, through: string, name: string)
    requires LinkSemantics.Plain(through) && LinkSemantics.Plain(name) && !IsLink(t, through) && !IsLink(t, name)
    ensures Walk(t, [], [through, "..", name], []) == Ok(([name], []))
  {
    assert [through, "..", name][1..] == ["..", name] && ["..", name][1..] == [name] && [name][1..] == [];
    assert Join([through], SLASH) == through && Join([name], SLASH) == name;
    assert [] + [through] == [through] && [] + [name] == [name] && [through][..0] == [];
    hide Join;
    assert Walk(t, [], [name], []) == Ok(([name], []));
    assert Walk(t, [through], ["..", name], []) == Walk(t, [], [name], []);
  }

  /**
   * The resolver steps over a directory that is not there: the link is accepted, since the target exists, and can be
   * made, but following it leads to nothing.
   */
  lemma MissingOnTheWay(n: nat)
    ensures var t: Tree := map["f" := Regular, "a" := Symlink("missing/../f")];
            var before: Nodes := map[["f"] := File(0)];
            && LinkGraph.AllAccepted(t, before, {}) && Placeable(before, Links(t))
            && LinkGraph.TextsPresent(t, Links(t)) && Resolve(t, "a") == Ok((["f"], []))
            && KernelWalk.Kernel(before[["a"] := Link("missing/../f")], [], ["a"], n) == None
  {
    hide Resolve, PartsOf, Split, Join, KernelWalk.Kernel;
    var t: Tree := map["f" := Regular, "a" := Symlink("missing/../f")];
    assert "missing" + "/../" + "f" == "missing/../f";
    DownAndBack(t, "a", "missing", "f");
    assert Links(t) == {"a"};
    OneName("a");
    StopsAt(map[["f"] := File(0), ["a"] := Link("missing/../f")], "missing", "f", n);
  }

  /** The same through something that is no directory. */
  lemma FileOnTheWay(n: nat)
    ensures var t: Tree := map["f" := Regular, "g" := Regular, "a" := Symlink("f/../g")];
            var before: Nodes := map[["f"] := File(0), ["g"] := File(1)];
            && LinkGraph.AllAccepted(t, before, {}) && Placeable(before, Links(t))
            && LinkGraph.TextsPresent(t, Links(t)) && Resolve(t, "a") == Ok((["g"], []))
            && KernelWalk.Kernel(before[["a"] := Link("f/../g")], [], ["a"], n) == None
  {
    hide Resolve, PartsOf, Split, Join, KernelWalk.Kernel;
    var t: Tree := map["f" := Regular, "g" := Regular, "a" := Symlink("f/../g")];
    assert "f" + "/../" + "g" == "f/../g";
    DownAndBack(t, "a", "f", "g");
    assert Links(t) == {"a"};
    OneName("a");
    StopsAt(map[["f"] := File(0), ["g"] := File(1), ["a"] := Link("f/../g")], "f", "g", n);
  }

  /** The system does not get through a name that is no directory. */
  lemma StopsAt(nodes: Nodes, through: string, name: string, n: nat)
    requires ["a"] in nodes && nodes[["a"]].Link? && Split(nodes[["a"]].text, SLASH) == [through, "..", name]
    requires through !in {"", ".", ".."}
    requires [through] in nodes ==> nodes[[through]].File?
    ensures KernelWalk.Kernel(nodes, [], ["a"], n) == None
  {
    var raw := [through, "..", name];
    assert [] + ["a"] == ["a"] && ["a"][1..] == [] && raw + [] == raw && [] + [through] == [through];
    if n > 0 {
      assert raw[1..] == ["..", name];
      assert KernelWalk.Kernel(nodes, [], raw, n - 1) == None;
    }
  }

  /** The same the other way round: the parents of one link take the name of another. */
  lemma LinkAboveLink()
    ensures var t: Tree := map["f" := Regular, "a/b" := Symlink("/f"), "g" := Symlink("/f"), "a" := Symlink("g")];
            var nodes: Nodes := map[["f"] := File(0)];
            "a" in Links(t) && "a/b" in Links(t) && PartsOf("a") !in nodes && !Placeable(nodes, Links(t))
  {
    hide PartsOf;
    OneName("a");
    TwoNames("a", "b");
    assert "a" + [SLASH] + "b" == "a/b";
    assert ["a"] < ["a", "b"];
  }

  /** A hard link below a file: its chain ends and its name is free, but the parent is no directory. */
  lemma HardlinkBelowFile()
    ensures var t: Tree := map["f" := Regular, "f/x" := Hardlink("f")];
            var nodes: Nodes := map[["f"] := File(0)];
            && Hardlinks.IsHardlink(t, "f/x") && Hardlinks.EndsAt(t, "f/x", "f") && PartsOf("f/x") !in nodes
            && !Placeable(nodes, Hardlinks.HardlinkNames(t))
  {
    hide PartsOf, Hardlinks.MemberPath;
    var t: Tree := map["f" := Regular, "f/x" := Hardlink("f")];
    TwoNames("f", "x");
    assert "f" + [SLASH] + "x" == "f/x";
    PlainMember("f");
    assert Hardlinks.Chase(t, "f/x", 1) == Some("f");
    assert ["f", "x"][..1] == ["f"];
    assert !Passable(map[["f"] := File(0)], ["f", "x"][..1]);
    assert "f/x" in Hardlinks.HardlinkNames(t);
  }

  lemma PlainMember(name: string)
    requires Free(name, SLASH) && name !in {"", ".", ".."}
    ensures Hardlinks.MemberPath(name) == Some(name)
  {
    SplitFree(name, SLASH);
    assert |name| >= 2 ==> name[1] != SLASH;
    assert name[0] != SLASH;
    assert Join([name], SLASH) == name;
  }
}
