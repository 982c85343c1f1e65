/**
 * The text of a created link (mkosi/debian/extract_tree.py): an absolute archive link becomes a relative path from
 * the directory of the link to the resolved target, so that it stays inside the extracted tree.
 */
module RelativeLinks {
  import opened Prelude
  import opened Text
  import opened LinkPaths
  import opened LinkSemantics
  import opened FileTree

  function Common(a: Parts, b: Parts): (k: nat)
    ensures k <= |a| && k <= |b| && a[..k] == b[..k]
  {
    if a == [] || b == [] || a[0] != b[0] then 0
    else
      var k := Common(a[1..], b[1..]);
      assert a[..1 + k] == [a[0]] + a[1..][..k] && b[..1 + k] == [b[0]] + b[1..][..k];
      1 + k
  }

  function Ups(n: nat): (r: Parts)
    ensures |r| == n && forall i :: 0 <= i < n ==> r[i] == ".."
  {
    seq(n, i => "..")
  }

  /** `os.path.relpath` of two paths below one root. */
  function RelativeParts(target: Parts, from: Parts): Parts {
    var k := Common(target, from);
    Ups(|from| - k) + target[k..]
  }

  function RelativeText(target: Parts, from: Parts): string {
    var parts := RelativeParts(target, from);
    if parts == [] then "." else Join(parts, SLASH)
  }

  function DirectoryOf(name: string): Parts {
    PartsOf(name)[..|PartsOf(name)| - 1]
  }

  predicate IsAbsolute(text: string) {
    text != [] && text[0] == SLASH
  }

  /** The text that is written for a link that resolves. */
  function LinkText(t: Tree, link: string): string
    requires IsLink(t, link) && Resolve(t, link).Ok?
  {
    var text := t[link].linkname;
    if IsAbsolute(text) then RelativeText(Resolve(t, link).value.0, DirectoryOf(link)) else text
  }

  /** The written text is never absolute, and empty only when the archive's is. */
  lemma TextIsRelative(t: Tree, link: string)
    requires IsLink(t, link) && Resolve(t, link).Ok?
    ensures LinkText(t, link) == "" <==> t[link].linkname == ""
    ensures !IsAbsolute(LinkText(t, link))
  {
    hide Resolve;
    var target, from := Resolve(t, link).value.0, DirectoryOf(link);
    TargetIsClean(t, link);
    SplitText(t, target, from);
    hide RelativeText;
    RelativePartsPlain(t, target, from);
    FirstPart(RelativeText(target, from));
  }

  lemma FirstPart(text: string)
    requires Split(text, SLASH)[0] != ""
    ensures text != "" && !IsAbsolute(text)
  {
  }

  lemma RelativePartsPlain(t: Tree, target: Parts, from: Parts)
    requires Clean(t, target)
    ensures RelativeParts(target, from) != [] ==> RelativeParts(target, from)[0] != ""
  {
    var parts, k := RelativeParts(target, from), Common(target, from);
    if parts != [] && |from| == k {
      assert parts[0] == target[k] && Plain(target[k]);
    }
  }

  lemma {:induction false} WalkUps(t: Tree, directory: Parts, n: nat, rest: Parts, crossed: seq<string>)
    requires n <= |directory|
    ensures InPlace(t, directory, Ups(n) + rest, crossed) == InPlace(t, directory[..|directory| - n], rest, crossed)
  {
    if n == 0 {
      assert Ups(n) + rest == rest && directory[..|directory|] == directory;
    } else {
      var pending := Ups(n) + rest;
      assert pending[0] == ".." && pending[1..] == Ups(n - 1) + rest;
      var up := directory[..|directory| - 1];
      WalkUps(t, up, n - 1, rest, crossed);
      assert up[..|up| - (n - 1)] == directory[..|directory| - n];
    }
  }

  lemma {:induction false} WalkDown(t: Tree, target: Parts, k: nat, rest: Parts, crossed: seq<string>)
    requires k <= |target| && Clean(t, target)
    ensures InPlace(t, target[..k], target[k..] + rest, crossed) == InPlace(t, target, rest, crossed)
    decreases |target| - k
  {
    var pending := target[k..] + rest;
    if k == |target| {
      assert target[..k] == target && pending == rest;
    } else {
      WalkDown(t, target, k + 1, rest, crossed);
      assert pending[0] == target[k] && pending[1..] == target[k + 1..] + rest;
      assert target[..k] + [target[k]] == target[..k + 1];
      assert Plain(target[k]) && !IsLink(t, Join(target[..k + 1], SLASH));
    }
  }

  lemma StayHere(t: Tree, directory: Parts, rest: Parts, crossed: seq<string>)
    ensures InPlace(t, directory, ["."] + rest, crossed) == InPlace(t, directory, rest, crossed)
  {
    assert (["."] + rest)[1..] == rest;
  }

  /** The relative text, walked in place from the directory it starts in, crosses no link and leads to the target. */
  lemma RelativeTextLeads(t: Tree, target: Parts, from: Parts, rest: Parts, crossed: seq<string>)
    requires Clean(t, target)
    ensures InPlace(t, from, Split(RelativeText(target, from), SLASH) + rest, crossed)
            == InPlace(t, target, rest, crossed)
  {
    hide InPlace, RelativeText, Clean, Common, Split;
    SplitText(t, target, from);
    var k := Common(target, from);
    if RelativeParts(target, from) == [] {
      assert |from| == k == |target|;
      assert from == from[..k] == target;
      StayHere(t, target, rest, crossed);
    } else {
      assert Ups(|from| - k) + (target[k..] + rest) == RelativeParts(target, from) + rest;
      WalkUps(t, from, |from| - k, target[k..] + rest, crossed);
      assert from[..|from| - (|from| - k)] == target[..k];
      WalkDown(t, target, k, rest, crossed);
    }
  }

  /**
   * A rewritten absolute link still leads to its target: walked in place from the directory of the link, the relative
   * text crosses no link and ends at the target that the archive's text resolves to.
   */
  lemma RelativeTextReaches(t: Tree, link: string, crossed: seq<string>)
    requires IsLink(t, link) && Resolve(t, link).Ok?
    requires IsAbsolute(t[link].linkname)
    ensures InPlace(t, DirectoryOf(link), Split(LinkText(t, link), SLASH), crossed)
            == Ok((Resolve(t, link).value.0, crossed))
  {
    hide Resolve;
    TargetIsClean(t, link);
    var parts := Split(LinkText(t, link), SLASH);
    assert parts + [] == parts;
    RelativeTextLeads(t, Resolve(t, link).value.0, DirectoryOf(link), [], crossed);
  }

  lemma SplitText(t: Tree, target: Parts, from: Parts)
    requires Clean(t, target)
    ensures Split(RelativeText(target, from), SLASH)
            == if RelativeParts(target, from) == [] then ["."] else RelativeParts(target, from)
  {
    var parts := RelativeParts(target, from);
    if parts == [] {
      SplitFree(".", SLASH);
    } else {
      forall i | 0 <= i < |parts| ensures Free(parts[i], SLASH) {
        var ups := |from| - Common(target, from);
        assert i >= ups ==> parts[i] == target[i - ups + Common(target, from)];
      }
      SplitJoin(parts, SLASH);
    }
  }
}
