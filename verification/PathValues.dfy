/**
 * Values of mkosi path options (mkosi/private/mkosi_runner/mkosi_options.py): lists, trees and constants, and how
 * mapping the paths in a value acts on the paths that the value declares.
 */
module PathValues {
  import opened Text

  datatype Arity = NoValue | OneValue | OptionalValue

  datatype PathKind = NotPath | PlainPath | Tree

  /** An mkosi command-line option. */
  datatype OptionSpec = OptionSpec(dest: string, arguments: Arity, path: PathKind, pathList: bool,
                                   constants: seq<string>)

  // ---- Lists ----

  /** The characters that Python's `str.split` separates words at. */
  predicate IsSpace(c: char) {
    var n := c as int;
    || 0x09 <= n <= 0x0D || 0x1C <= n <= 0x20 || n == 0x85 || n == 0xA0 || n == 0x1680 || 0x2000 <= n <= 0x200A
    || n == 0x2028 || n == 0x2029 || n == 0x202F || n == 0x205F || n == 0x3000
  }

  predicate IsSeparator(c: char) {
    c == ',' || IsSpace(c)
  }

  predicate Unseparated(s: string) {
    forall i :: 0 <= i < |s| ==> !IsSeparator(s[i])
  }

  function WordLength(s: string): (n: nat)
    ensures n <= |s| && Unseparated(s[..n]) && (n < |s| ==> IsSeparator(s[n]))
    ensures s != [] && !IsSeparator(s[0]) ==> n > 0
  {
    if s == [] || IsSeparator(s[0]) then 0
    else
      var n := WordLength(s[1..]);
      assert s[..1 + n] == [s[0]] + s[1..][..n];
      1 + n
  }

  /** `value.replace(",", " ").split()`. */
  function Words(s: string): seq<string>
    decreases |s|
  {
    if s == [] then []
    else if IsSeparator(s[0]) then Words(s[1..])
    else [s[..WordLength(s)]] + Words(s[WordLength(s)..])
  }

  ghost predicate AreWords(items: seq<string>) {
    forall i :: 0 <= i < |items| ==> items[i] != "" && Unseparated(items[i])
  }

  lemma {:induction false} WordsAreWords(s: string)
    ensures AreWords(Words(s))
    decreases |s|
  {
    if s != [] {
      if IsSeparator(s[0]) {
        WordsAreWords(s[1..]);
      } else {
        WordsAreWords(s[WordLength(s)..]);
      }
    }
  }

  lemma {:induction false} WordLengthIs(word: string, rest: string)
    requires Unseparated(word) && (rest != [] ==> IsSeparator(rest[0]))
    ensures WordLength(word + rest) == |word|
  {
    if word == [] {
      assert word + rest == rest;
    } else {
      WordLengthIs(word[1..], rest);
      assert (word + rest)[1..] == word[1..] + rest;
    }
  }

  /** Joining words with commas and splitting again gives the words back. */
  lemma {:induction false} WordsOfJoin(items: seq<string>)
    requires AreWords(items)
    ensures Words(Join(items, ',')) == items
    ensures items != [] ==> Join(items, ',') != "" && Join(items, ',')[0] == items[0][0]
  {
    hide IsSpace;
    if |items| == 1 {
      var s := items[0];
      assert s + [] == s;
      WordLengthIs(s, []);
      assert s[..|s|] == s && Words(s[|s|..]) == [];
    } else if |items| > 1 {
      var head, tail := items[0], Join(items[1..], ',');
      var s := head + [','] + tail;
      WordsOfJoin(items[1..]);
      assert s == head + ([','] + tail);
      WordLengthIs(head, [','] + tail);
      assert s[..|head|] == head && s[|head|..] == [','] + tail;
      assert ([','] + tail)[1..] == tail;
    }
  }

  // ---- Values ----

  function Items(option: OptionSpec, value: string): seq<string> {
    if option.pathList then Words(value) else if value != "" then [value] else []
  }

  /** The part of an item before the first colon, for a tree, or the whole item. */
  function SourceLength(item: string): (n: nat)
    ensures n <= |item| && Free(item[..n], ':') && (n < |item| ==> item[n] == ':')
  {
    if item == [] || item[0] == ':' then 0
    else
      var n := SourceLength(item[1..]);
      assert item[..1 + n] == [item[0]] + item[1..][..n];
      1 + n
  }

  function Source(option: OptionSpec, item: string): string {
    if option.path.Tree? then item[..SourceLength(item)] else item
  }

  function MapItem(option: OptionSpec, item: string, f: string -> string): string {
    if item in option.constants then item
    else if option.path.Tree? then f(Source(option, item)) + item[SourceLength(item)..]
    else f(item)
  }

  function MapItems(option: OptionSpec, items: seq<string>, f: string -> string): (r: seq<string>)
    ensures |r| == |items|
  {
    seq(|items|, i requires 0 <= i < |items| => MapItem(option, items[i], f))
  }

  /** `Option.map_paths`. */
  function MapPaths(option: OptionSpec, value: string, f: string -> string): string {
    var items := MapItems(option, Items(option, value), f);
    if option.pathList then Join(items, ',') else if items == [] then "" else items[0]
  }

  function Sources(option: OptionSpec, items: seq<string>): seq<string> {
    if items == [] then []
    else (if items[0] in option.constants then [] else [Source(option, items[0])]) + Sources(option, items[1..])
  }

  /** `Option.declared_paths`. */
  function DeclaredPaths(option: OptionSpec, value: string): seq<string> {
    Sources(option, Items(option, value))
  }

  function MapAll(paths: seq<string>, f: string -> string): (r: seq<string>)
    ensures |r| == |paths|
  {
    seq(|paths|, i requires 0 <= i < |paths| => f(paths[i]))
  }

  // ---- Functions that keep values readable ----

  /** A constant never looks like an option, an attached value or an absolute path. */
  ghost predicate ConstantsPlain(option: OptionSpec) {
    forall c :: c in option.constants && c != "" ==> c[0] != '-' && c[0] != '=' && c[0] != '/'
  }

  /** Every result is an absolute path. */
  ghost predicate Absolute(f: string -> string) {
    forall s :: f(s) != "" && f(s)[0] == '/'
  }

  /** The path that the item becomes holds nothing that the option separates items or targets at. */
  predicate KeepsItem(option: OptionSpec, item: string, f: string -> string) {
    item in option.constants ||
    (&& (option.pathList ==> Unseparated(f(Source(option, item))))
     && (option.path.Tree? ==> Free(f(Source(option, item)), ':')))
  }

  /** So do all paths of the value. */
  ghost predicate Keeps(option: OptionSpec, value: string, f: string -> string) {
    forall i :: 0 <= i < |Items(option, value)| ==> KeepsItem(option, Items(option, value)[i], f)
  }

  /** A mapped item is the same constant, or an absolute path with perhaps a target, which is no constant. */
  lemma MappedItem(option: OptionSpec, item: string, f: string -> string)
    requires item != "" && ConstantsPlain(option) && Absolute(f)
    ensures var r := MapItem(option, item, f);
            && r != "" && r[0] != '-' && r[0] != '='
            && (r in option.constants <==> item in option.constants)
            && (if item in option.constants then r == item else r[0] == '/')
  {
  }

  /** A mapped item that is kept is read as one item again, with the mapped source. */
  lemma KeptItem(option: OptionSpec, item: string, f: string -> string)
    requires item != "" && (option.pathList ==> Unseparated(item)) && KeepsItem(option, item, f)
    ensures var r := MapItem(option, item, f);
            && (option.pathList ==> Unseparated(r))
            && (item !in option.constants ==> Source(option, r) == f(Source(option, item)))
  {
    var r := MapItem(option, item, f);
    if item !in option.constants && option.path.Tree? {
      var n := SourceLength(item);
      var source, target := f(item[..n]), item[n..];
      assert r == source + target;
      SourceLengthIs(source, target);
      assert r[..|source|] == source;
    }
  }

  lemma {:induction false} SourceLengthIs(source: string, target: string)
    requires Free(source, ':') && (target != [] ==> target[0] == ':')
    ensures SourceLength(source + target) == |source|
  {
    if source == [] {
      assert source + target == target;
    } else {
      SourceLengthIs(source[1..], target);
      assert (source + target)[1..] == source[1..] + target;
    }
  }

  lemma ItemsReadable(option: OptionSpec, value: string)
    ensures forall i :: 0 <= i < |Items(option, value)| ==>
              Items(option, value)[i] != "" && (option.pathList ==> Unseparated(Items(option, value)[i]))
  {
    WordsAreWords(value);
  }

  /** A mapped value is empty exactly when it names nothing, and never starts with a dash or an equals sign. */
  lemma MappedStart(option: OptionSpec, value: string, f: string -> string)
    requires ConstantsPlain(option) && Absolute(f)
    ensures var v := MapPaths(option, value, f);
            && (Items(option, value) == [] <==> v == "")
            && (v != "" ==> v[0] != '-' && v[0] != '=')
  {
    hide MapItem, IsSpace, Absolute, ConstantsPlain, Words;
    ItemsReadable(option, value);
    var items := Items(option, value);
    if items != [] {
      MappedItem(option, items[0], f);
      assert MapItems(option, items, f)[0] == MapItem(option, items[0], f);
    }
  }

  /** Mapping a value maps its items one by one. */
  lemma ItemsOfMapped(option: OptionSpec, value: string, f: string -> string)
    requires ConstantsPlain(option) && Absolute(f) && Keeps(option, value, f)
    ensures Items(option, MapPaths(option, value, f)) == MapItems(option, Items(option, value), f)
  {
    hide MapItem, KeepsItem, IsSpace, Absolute, ConstantsPlain, Words;
    var items := Items(option, value);
    var mapped := MapItems(option, items, f);
    ItemsReadable(option, value);
    forall i | 0 <= i < |items| ensures mapped[i] != "" && (option.pathList ==> Unseparated(mapped[i])) {
      MappedItem(option, items[i], f);
      KeptItem(option, items[i], f);
    }
    if option.pathList {
      WordsOfJoin(mapped);
    }
  }

  lemma {:induction false} SourcesOfMapped(option: OptionSpec, items: seq<string>, f: string -> string)
    requires ConstantsPlain(option) && Absolute(f)
    requires forall i :: 0 <= i < |items| ==> items[i] != "" && (option.pathList ==> Unseparated(items[i]))
    requires forall i :: 0 <= i < |items| ==> KeepsItem(option, items[i], f)
    ensures Sources(option, MapItems(option, items, f)) == MapAll(Sources(option, items), f)
  {
    hide MapItem, KeepsItem, IsSpace, Absolute, ConstantsPlain, Source;
    if items != [] {
      MappedItem(option, items[0], f);
      KeptItem(option, items[0], f);
      SourcesOfMapped(option, items[1..], f);
      assert MapItems(option, items, f)[1..] == MapItems(option, items[1..], f);
      assert MapItems(option, items, f)[0] == MapItem(option, items[0], f);
    }
  }

  // ---- What any value declares ----

  /** A path that a value declares holds nothing that the option separates at. */
  lemma {:induction false} SourcesReadable(option: OptionSpec, items: seq<string>, path: string)
    requires forall i :: 0 <= i < |items| ==> (option.pathList ==> Unseparated(items[i]))
    requires path in Sources(option, items)
    ensures (option.pathList ==> Unseparated(path)) && (option.path.Tree? ==> Free(path, ':'))
  {
    hide IsSpace;
    if items[0] in option.constants || path != Source(option, items[0]) {
      assert path in Sources(option, items[1..]);
      SourcesReadable(option, items[1..], path);
    }
  }

  lemma {:induction false} SourceDeclared(option: OptionSpec, items: seq<string>, i: nat)
    requires i < |items| && items[i] !in option.constants
    ensures Source(option, items[i]) in Sources(option, items)
  {
    hide Source;
    if i > 0 {
      SourceDeclared(option, items[1..], i - 1);
    }
  }

  lemma {:induction false} SourcesConcat(option: OptionSpec, a: seq<string>, b: seq<string>)
    ensures Sources(option, a + b) == Sources(option, a) + Sources(option, b)
  {
    hide Source;
    if a == [] {
      assert a + b == b;
    } else {
      assert (a + b)[1..] == a[1..] + b;
      SourcesConcat(option, a[1..], b);
    }
  }

  function AllWords(items: seq<string>): seq<string> {
    if items == [] then [] else Words(items[0]) + AllWords(items[1..])
  }

  lemma {:induction false} WordsConcat(a: string, b: string)
    ensures Words(a + [','] + b) == Words(a) + Words(b)
    decreases |a|
  {
    hide IsSpace;
    var s := a + [','] + b;
    if a == [] {
      assert s[1..] == b;
    } else if IsSeparator(a[0]) {
      assert s[1..] == a[1..] + [','] + b;
      WordsConcat(a[1..], b);
    } else {
      var n := WordLength(a);
      assert s == a[..n] + (a[n..] + [','] + b);
      WordLengthIs(a[..n], a[n..] + [','] + b);
      assert s[..n] == a[..n] && s[n..] == a[n..] + [','] + b;
      WordsConcat(a[n..], b);
    }
  }

  /** Splitting joined texts splits each of them. */
  lemma {:induction false} WordsOfJoined(items: seq<string>)
    ensures Words(Join(items, ',')) == AllWords(items)
  {
    hide IsSpace, Words;
    if items == [] {
      NoWords();
    } else if |items| == 1 {
      assert items[1..] == [] && AllWords([]) == [];
    } else {
      WordsOfJoined(items[1..]);
      WordsConcat(items[0], Join(items[1..], ','));
    }
  }

  lemma NoWords()
    ensures Words("") == []
  {
  }

  /** Whatever an absolute path is split into, something of it is declared. */
  lemma SomethingDeclared(option: OptionSpec, text: string)
    requires ConstantsPlain(option) && text != "" && text[0] == '/'
    ensures Sources(option, Words(text)) != []
  {
    var words := Words(text);
    assert words[0] == text[..WordLength(text)] && words[0][0] == '/';
    assert words[0] !in option.constants;
  }

  lemma {:induction false} NothingLost(option: OptionSpec, items: seq<string>, f: string -> string)
    requires ConstantsPlain(option) && Absolute(f) && forall i :: 0 <= i < |items| ==> items[i] != ""
    ensures |Sources(option, AllWords(MapItems(option, items, f)))| >= |Sources(option, items)|
    ensures |Sources(option, MapItems(option, items, f))| == |Sources(option, items)|
  {
    hide MapItem, IsSpace, Absolute, ConstantsPlain, Source, Words;
    if items != [] {
      var mapped := MapItems(option, items, f);
      assert mapped[1..] == MapItems(option, items[1..], f) && mapped[0] == MapItem(option, items[0], f);
      MappedItem(option, items[0], f);
      NothingLost(option, items[1..], f);
      SourcesConcat(option, Words(mapped[0]), AllWords(mapped[1..]));
      if items[0] !in option.constants {
        SomethingDeclared(option, mapped[0]);
      }
    }
  }

  /** A mapped value declares at least as many paths. */
  lemma DeclaresNoLess(option: OptionSpec, value: string, f: string -> string)
    requires ConstantsPlain(option) && Absolute(f)
    ensures |DeclaredPaths(option, MapPaths(option, value, f))| >= |DeclaredPaths(option, value)|
  {
    hide MapItem, IsSpace, Absolute, ConstantsPlain, Source, Words;
    var items := Items(option, value);
    var mapped := MapItems(option, items, f);
    ItemsReadable(option, value);
    NothingLost(option, items, f);
    if option.pathList {
      WordsOfJoined(mapped);
    } else if items != [] {
      MappedItem(option, items[0], f);
      assert mapped == [mapped[0]];
    }
  }

  /**
   * The paths that a mapped value declares are the mapped paths, if and only if none of those holds a separator of
   * the option.
   */
  lemma DeclaredOfMapped(option: OptionSpec, value: string, f: string -> string)
    requires ConstantsPlain(option) && Absolute(f)
    ensures DeclaredPaths(option, MapPaths(option, value, f)) == MapAll(DeclaredPaths(option, value), f) <==>
            Keeps(option, value, f)
  {
    hide IsSpace, Absolute, ConstantsPlain, Source, Words, MapPaths, KeepsItem;
    var items := Items(option, value);
    ItemsReadable(option, value);
    if Keeps(option, value, f) {
      ItemsOfMapped(option, value, f);
      SourcesOfMapped(option, items, f);
    }
    if DeclaredPaths(option, MapPaths(option, value, f)) == MapAll(DeclaredPaths(option, value), f) {
      forall i | 0 <= i < |items| ensures KeepsItem(option, items[i], f) {
        KeptIfDeclared(option, value, f, i);
      }
    }
  }

  lemma KeptIfDeclared(option: OptionSpec, value: string, f: string -> string, i: nat)
    requires DeclaredPaths(option, MapPaths(option, value, f)) == MapAll(DeclaredPaths(option, value), f)
    requires i < |Items(option, value)|
    ensures KeepsItem(option, Items(option, value)[i], f)
  {
    hide IsSpace, Words, MapPaths, Source;
    var items := Items(option, value);
    if items[i] !in option.constants {
      SourceDeclared(option, items, i);
      var k :| 0 <= k < |Sources(option, items)| && Sources(option, items)[k] == Source(option, items[i]);
      var path := f(Source(option, items[i]));
      assert MapAll(Sources(option, items), f)[k] == path;
      ItemsReadable(option, MapPaths(option, value, f));
      SourcesReadable(option, Items(option, MapPaths(option, value, f)), path);
    }
  }

  /** Mapping with an idempotent function is idempotent where it keeps the paths apart. */
  lemma MapPathsIdempotent(option: OptionSpec, value: string, f: string -> string)
    requires ConstantsPlain(option) && Absolute(f) && Keeps(option, value, f) && forall s :: f(f(s)) == f(s)
    ensures MapPaths(option, MapPaths(option, value, f), f) == MapPaths(option, value, f)
  {
    hide IsSpace, Words, Absolute, ConstantsPlain, KeepsItem;
    ItemsOfMapped(option, value, f);
    ItemsReadable(option, value);
    var items := Items(option, value);
    forall i | 0 <= i < |items|
      ensures MapItem(option, MapItem(option, items[i], f), f) == MapItem(option, items[i], f)
    {
      MapItemTwice(option, items[i], f);
    }
    assert MapItems(option, MapItems(option, items, f), f) == MapItems(option, items, f);
  }

  lemma MapItemTwice(option: OptionSpec, item: string, f: string -> string)
    requires item != "" && ConstantsPlain(option) && Absolute(f) && KeepsItem(option, item, f)
    requires forall s :: f(f(s)) == f(s)
    ensures MapItem(option, MapItem(option, item, f), f) == MapItem(option, item, f)
  {
    MappedItem(option, item, f);
    if item !in option.constants && option.path.Tree? {
      var n := SourceLength(item);
      var source, target := f(item[..n]), item[n..];
      SourceLengthIs(source, target);
      assert (source + target)[|source|..] == target && (source + target)[..|source|] == source;
    }
  }
}
