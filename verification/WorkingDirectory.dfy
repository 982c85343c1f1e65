/**
 * `os.path.abspath` as the function that rewrites path options (mkosi/private/mkosi_runner/command_line.py): in which
 * working directories the rewritten values still declare the same paths.
 */
module WorkingDirectory {
  import opened Prelude
  import opened Text
  import opened PathValues
  import opened Options
  import opened OptionReattach
  import opened CommandLine

  predicate StartsAtRoot(p: string) {
    p != "" && p[0] == '/'
  }

  /** What `os.getcwd` returns. */
  type Directory = p: string | StartsAtRoot(p) witness "/"

  // ---- os.path ----

  /** `os.path.join` of a directory and a path. */
  function JoinPath(directory: Directory, p: string): (r: string)
    ensures StartsAtRoot(r)
  {
    if StartsAtRoot(p) then p
    else if directory[|directory| - 1] == '/' then directory + p
    else directory + "/" + p
  }

  /** The components of an absolute path without empty ones, dots and steps back. */
  function Normalised(done: seq<string>, parts: seq<string>): seq<string>
    decreases |parts|
  {
    if parts == [] then done
    else if parts[0] == "" || parts[0] == "." then Normalised(done, parts[1..])
    else if parts[0] == ".." then Normalised(if done == [] then [] else done[..|done| - 1], parts[1..])
    else Normalised(done + [parts[0]], parts[1..])
  }

  /** Exactly two leading slashes are kept; any other number becomes one. */
  function LeadingSlashes(p: string): string {
    if |p| >= 2 && p[..2] == "//" && !(|p| >= 3 && p[2] == '/') then "//" else "/"
  }

  function Components(p: string): seq<string> {
    Normalised([], Split(p, '/'))
  }

  /** `os.path.normpath` of an absolute path. */
  function NormPath(p: string): (r: string)
    ensures StartsAtRoot(r)
  {
    LeadingSlashes(p) + Join(Components(p), '/')
  }

  /** `os.path.abspath` in a working directory. */
  function AbsPath(directory: Directory, p: string): (r: string)
    ensures StartsAtRoot(r)
  {
    NormPath(JoinPath(directory, p))
  }

  function InDirectory(directory: Directory): string -> string {
    p => AbsPath(directory, p)
  }

  lemma AbsPathIsAbsolute(directory: Directory)
    ensures Absolute(InDirectory(directory))
  {
  }

  // ---- Components ----

  predicate IsName(c: string) {
    c != "" && c != "." && c != ".." && Free(c, '/')
  }

  ghost predicate AreNames(parts: seq<string>) {
    forall i :: 0 <= i < |parts| ==> IsName(parts[i])
  }

  lemma {:induction false} NormalisedNames(done: seq<string>, parts: seq<string>)
    requires AreNames(done) && AllFree(parts, '/')
    ensures AreNames(Normalised(done, parts))
    decreases |parts|
  {
    if parts != [] {
      if parts[0] == "" || parts[0] == "." {
        NormalisedNames(done, parts[1..]);
      } else if parts[0] == ".." {
        NormalisedNames(if done == [] then [] else done[..|done| - 1], parts[1..]);
      } else {
        NormalisedNames(done + [parts[0]], parts[1..]);
      }
    }
  }

  lemma {:induction false} NormalisedConcat(done: seq<string>, a: seq<string>, b: seq<string>)
    ensures Normalised(done, a + b) == Normalised(Normalised(done, a), b)
    decreases |a|
  {
    if a == [] {
      assert a + b == b;
    } else {
      assert (a + b)[1..] == a[1..] + b;
      if a[0] == "" || a[0] == "." {
        NormalisedConcat(done, a[1..], b);
      } else if a[0] == ".." {
        NormalisedConcat(if done == [] then [] else done[..|done| - 1], a[1..], b);
      } else {
        NormalisedConcat(done + [a[0]], a[1..], b);
      }
    }
  }

  lemma {:induction false} NormalisedKeeps(done: seq<string>, names: seq<string>)
    requires AreNames(names)
    ensures Normalised(done, names) == done + names
    decreases |names|
  {
    if names != [] {
      NormalisedKeeps(done + [names[0]], names[1..]);
      assert done + [names[0]] + names[1..] == done + names;
    }
  }

  lemma SplitFirst(c: char, s: string)
    ensures var rest := Split(s, '/');
            Split([c] + s, '/') == if c == '/' then [""] + rest else [[c] + rest[0]] + rest[1..]
  {
    assert ([c] + s)[1..] == s;
  }

  lemma {:induction false} SplitAppend(a: string, b: string)
    ensures Split(a + "/" + b, '/') == Split(a, '/') + Split(b, '/')
  {
    hide Split;
    if a == [] {
      SplitNothing();
      SplitFirst('/', b);
      assert a + "/" + b == ['/'] + b;
    } else {
      SplitAppend(a[1..], b);
      SplitFirst(a[0], a[1..]);
      SplitFirst(a[0], a[1..] + "/" + b);
      assert a == [a[0]] + a[1..] && a + "/" + b == [a[0]] + (a[1..] + "/" + b);
      FirstOfBoth(a[0], Split(a[1..], '/'), Split(b, '/'));
    }
  }

  lemma FirstOfBoth(c: char, x: seq<string>, y: seq<string>)
    requires x != []
    ensures [[c] + (x + y)[0]] + (x + y)[1..] == [[c] + x[0]] + x[1..] + y
    ensures [""] + (x + y) == [""] + x + y
  {
  }

  lemma SplitNothing()
    ensures Split("", '/') == [""]
  {
  }

  lemma ComponentsAreNames(p: string)
    ensures AreNames(Components(p))
  {
    SplitIsFree(p, '/');
    NormalisedNames([], Split(p, '/'));
  }

  /** A relative path continues the components of the directory. */
  lemma ComponentsOfJoined(directory: Directory, p: string)
    requires !StartsAtRoot(p)
    ensures Components(JoinPath(directory, p)) == Normalised(Components(directory), Split(p, '/'))
  {
    hide Normalised, Split;
    if directory[|directory| - 1] == '/' {
      var a := directory[..|directory| - 1];
      assert directory == a + "/" && directory + p == a + "/" + p && a + "/" == a + "/" + "";
      SplitAppend(a, p);
      SplitAppend(a, "");
      EmptyPart(Normalised([], Split(a, '/')));
      NormalisedConcat([], Split(a, '/'), Split(p, '/'));
      NormalisedConcat([], Split(a, '/'), Split("", '/'));
    } else {
      SplitAppend(directory, p);
      NormalisedConcat([], Split(directory, '/'), Split(p, '/'));
    }
  }

  lemma EmptyPart(done: seq<string>)
    ensures Normalised(done, Split("", '/')) == done
  {
    assert [""][1..] == [];
  }

  // ---- abspath is idempotent ----

  lemma SlashedComponents(slashes: string, names: seq<string>)
    requires slashes in {"/", "//"} && AreNames(names)
    ensures Components(slashes + Join(names, '/')) == names && LeadingSlashes(slashes + Join(names, '/')) == slashes
  {
    hide Split, Normalised, Join;
    var text := Join(names, '/');
    NormalisedText(names);
    OneSlash(text, names);
    OneSlash("/" + text, names);
    assert "/" + ("/" + text) == "//" + text;
    assert text == "" || text[0] != '/' by {
      if names != [] {
        assert IsName(names[0]);
        FirstCharacter(names);
      } else {
        JoinNothing();
      }
    }
    hide Components;
    SlashesKept(slashes, text);
  }

  lemma SlashesKept(slashes: string, text: string)
    requires slashes in {"/", "//"} && (text == "" || text[0] != '/')
    ensures LeadingSlashes(slashes + text) == slashes
  {
    var p := slashes + text;
    assert slashes == "//" ==> p[..2] == "//" && (|p| >= 3 ==> p[2] == text[0]);
    assert slashes == "/" && |p| >= 2 ==> p[..2][1] == p[1] == text[0];
  }

  lemma JoinNothing()
    ensures Join([], '/') == ""
  {
  }

  lemma NormalisedText(names: seq<string>)
    requires AreNames(names)
    ensures Normalised([], Split(Join(names, '/'), '/')) == names
  {
    hide Split, Normalised;
    if names == [] {
      EmptyPart([]);
    } else {
      SplitJoin(names, '/');
      NormalisedKeeps([], names);
      assert [] + names == names;
    }
  }

  /** A slash in front of a text makes no difference to its components. */
  lemma OneSlash(text: string, names: seq<string>)
    requires Components(text) == names
    ensures Components("/" + text) == names
  {
    hide Split, Normalised;
    SplitAppend("", text);
    assert "" + "/" + text == "/" + text;
    NormalisedConcat([], Split("", '/'), Split(text, '/'));
    EmptyPart([]);
  }

  lemma FirstCharacter(names: seq<string>)
    requires names != [] && IsName(names[0])
    ensures Join(names, '/') != "" && Join(names, '/')[0] != '/'
  {
  }

  lemma NormPathIdempotent(p: string)
    ensures NormPath(NormPath(p)) == NormPath(p)
  {
    hide Components, LeadingSlashes;
    ComponentsAreNames(p);
    SlashesAre(p);
    SlashedComponents(LeadingSlashes(p), Components(p));
  }

  lemma SlashesAre(p: string)
    ensures LeadingSlashes(p) in {"/", "//"}
  {
  }

  lemma AbsPathIdempotent(directory: Directory, p: string)
    ensures AbsPath(directory, AbsPath(directory, p)) == AbsPath(directory, p)
  {
    hide NormPath;
    NormPathIdempotent(JoinPath(directory, p));
  }

  // ---- Which directories keep paths apart ----

  /** No character of the text is a bad one. */
  predicate Avoids(s: string, bad: char -> bool) {
    forall i :: 0 <= i < |s| ==> !bad(s[i])
  }

  ghost predicate AllAvoid(parts: seq<string>, bad: char -> bool) {
    forall i :: 0 <= i < |parts| ==> Avoids(parts[i], bad)
  }

  lemma AvoidsConcat(a: string, b: string, bad: char -> bool)
    ensures Avoids(a + b, bad) <==> Avoids(a, bad) && Avoids(b, bad)
  {
    var s := a + b;
    if Avoids(s, bad) {
      forall i | 0 <= i < |a| ensures !bad(a[i]) {
        assert s[i] == a[i];
      }
      forall i | 0 <= i < |b| ensures !bad(b[i]) {
        assert s[|a| + i] == b[i];
      }
    }
  }

  lemma {:induction false} JoinAvoids(parts: seq<string>, bad: char -> bool)
    requires !bad('/')
    ensures Avoids(Join(parts, '/'), bad) <==> AllAvoid(parts, bad)
  {
    hide Avoids;
    if |parts| > 1 {
      JoinAvoids(parts[1..], bad);
      AvoidsConcat(parts[0] + ['/'], Join(parts[1..], '/'), bad);
      AvoidsConcat(parts[0], ['/'], bad);
      SlashAvoids(bad);
      assert forall i :: 0 < i < |parts| ==> parts[i] == parts[1..][i - 1];
    } else if parts == [] {
      NothingAvoids(bad);
    }
  }

  lemma NothingAvoids(bad: char -> bool)
    ensures Avoids("", bad)
  {
  }

  lemma SlashAvoids(bad: char -> bool)
    requires !bad('/')
    ensures Avoids("/", bad) && Avoids("//", bad)
  {
  }

  lemma SplitAvoids(s: string, bad: char -> bool)
    requires !bad('/') && Avoids(s, bad)
    ensures AllAvoid(Split(s, '/'), bad)
  {
    hide Avoids;
    JoinSplit(s, '/');
    JoinAvoids(Split(s, '/'), bad);
  }

  lemma {:induction false} NormalisedAvoids(done: seq<string>, parts: seq<string>, bad: char -> bool)
    requires AllAvoid(done, bad) && AllAvoid(parts, bad)
    ensures AllAvoid(Normalised(done, parts), bad)
    decreases |parts|
  {
    hide Avoids;
    if parts != [] {
      if parts[0] == "" || parts[0] == "." {
        NormalisedAvoids(done, parts[1..], bad);
      } else if parts[0] == ".." {
        NormalisedAvoids(if done == [] then [] else done[..|done| - 1], parts[1..], bad);
      } else {
        NormalisedAvoids(done + [parts[0]], parts[1..], bad);
      }
    }
  }

  lemma NormPathAvoids(p: string, bad: char -> bool)
    requires !bad('/')
    ensures Avoids(NormPath(p), bad) <==> AllAvoid(Components(p), bad)
  {
    hide Avoids, Components, LeadingSlashes, AllAvoid;
    SlashesAre(p);
    SlashAvoids(bad);
    JoinAvoids(Components(p), bad);
    AvoidsConcat(LeadingSlashes(p), Join(Components(p), '/'), bad);
  }

  /** A path without a bad character is made absolute without one, if the directory has none. */
  lemma AbsPathAvoids(directory: Directory, p: string, bad: char -> bool)
    requires !bad('/') && Avoids(p, bad) && Avoids(NormPath(directory), bad)
    ensures Avoids(AbsPath(directory, p), bad)
  {
    hide Avoids, NormPath, Normalised, AllAvoid, Components;
    NormPathAvoids(directory, bad);
    NormPathAvoids(JoinPath(directory, p), bad);
    SplitAvoids(p, bad);
    if StartsAtRoot(p) {
      ComponentsAvoid(p, bad);
    } else {
      ComponentsOfJoined(directory, p);
      NormalisedAvoids(Components(directory), Split(p, '/'), bad);
    }
  }

  lemma ComponentsAvoid(p: string, bad: char -> bool)
    requires AllAvoid(Split(p, '/'), bad)
    ensures AllAvoid(Components(p), bad)
  {
    NormalisedAvoids([], Split(p, '/'), bad);
  }

  /** A name in the directory becomes a path that holds every character of the directory. */
  lemma NameInDirectory(directory: Directory, name: string, bad: char -> bool)
    requires !bad('/') && IsName(name) && Avoids(AbsPath(directory, name), bad)
    ensures Avoids(NormPath(directory), bad)
  {
    hide Avoids, NormPath, Normalised, Components;
    NormPathAvoids(directory, bad);
    NormPathAvoids(JoinPath(directory, name), bad);
    assert !StartsAtRoot(name);
    ComponentsOfJoined(directory, name);
    SplitFree(name, '/');
    NormalisedKeeps(Components(directory), [name]);
    var all := Components(directory) + [name];
    assert forall i :: 0 <= i < |Components(directory)| ==> all[i] == Components(directory)[i];
  }

  /** The directory holds nothing that the option separates at. */
  predicate Fits(option: OptionSpec, directory: Directory) {
    && (option.pathList ==> Unseparated(NormPath(directory)))
    && (option.path.Tree? ==> Free(NormPath(directory), ':'))
  }

  /** A name that is none of the constants: one that is longer than all of them. */
  function OtherName(constants: seq<string>): (r: string)
    ensures r != "" && forall i :: 0 <= i < |r| ==> r[i] == 'a'
    ensures forall c :: c in constants ==> |c| < |r|
  {
    if constants == [] then "a"
    else
      var r := constants[0];
      seq(|r|, i => 'a') + OtherName(constants[1..])
  }

  lemma OtherNameIsName(constants: seq<string>)
    ensures var r := OtherName(constants);
            IsName(r) && Unseparated(r) && Free(r, ':') && r !in constants && r[0] == 'a'
  {
    var r := OtherName(constants);
    assert r[0] == 'a';
  }

  /**
   * Every value of an option declares the same paths after it was made absolute, if and only if the working directory
   * holds nothing that the option separates at.
   */
  lemma DirectoryExact(option: OptionSpec, directory: Directory)
    ensures (forall value :: Keeps(option, value, InDirectory(directory))) <==> Fits(option, directory)
  {
    hide Keeps, Fits, Items;
    if Fits(option, directory) {
      forall value ensures Keeps(option, value, InDirectory(directory)) {
        FittingKeeps(option, directory, value);
      }
    }
    if forall value :: Keeps(option, value, InDirectory(directory)) {
      OnlyFittingKeeps(option, directory);
    }
  }

  lemma FittingKeeps(option: OptionSpec, directory: Directory, value: string)
    requires Fits(option, directory)
    ensures Keeps(option, value, InDirectory(directory))
  {
    hide IsSpace, NormPath, AbsPath, Words;
    ItemsReadable(option, value);
    forall i | 0 <= i < |Items(option, value)|
      ensures KeepsItem(option, Items(option, value)[i], InDirectory(directory))
    {
      var source := Source(option, Items(option, value)[i]);
      if option.pathList {
        assert Avoids(source, IsSeparator) && Avoids(NormPath(directory), IsSeparator);
        SlashSeparatesNothing();
        AbsPathAvoids(directory, source, IsSeparator);
      }
      if option.path.Tree? {
        assert Avoids(source, IsColon) && Avoids(NormPath(directory), IsColon);
        AbsPathAvoids(directory, source, IsColon);
      }
    }
  }

  predicate IsColon(c: char) {
    c == ':'
  }

  lemma SlashSeparatesNothing()
    ensures !IsSeparator('/')
  {
  }

  lemma OnlyFittingKeeps(option: OptionSpec, directory: Directory)
    requires forall value :: Keeps(option, value, InDirectory(directory))
    ensures Fits(option, directory)
  {
    hide IsSpace, NormPath, AbsPath, Keeps;
    var name := OtherName(option.constants);
    OtherNameIsName(option.constants);
    NameIsItem(option, name);
    KeptName(option, directory, name);
    hide Source, IsName;
    var path := AbsPath(directory, name);
    if option.pathList {
      SlashSeparatesNothing();
      assert Avoids(path, IsSeparator);
      NameInDirectory(directory, name, IsSeparator);
      assert Avoids(NormPath(directory), IsSeparator);
    }
    if option.path.Tree? {
      assert Avoids(path, IsColon);
      NameInDirectory(directory, name, IsColon);
      assert Avoids(NormPath(directory), IsColon);
    }
  }

  lemma NameIsItem(option: OptionSpec, name: string)
    requires name != "" && Unseparated(name) && Free(name, ':')
    ensures Items(option, name) == [name] && Source(option, name) == name
  {
    if option.pathList {
      WordsOfJoin([name]);
    }
    if option.path.Tree? {
      assert name + [] == name;
      SourceLengthIs(name, []);
      assert name[..|name|] == name;
    }
  }

  lemma KeptName(option: OptionSpec, directory: Directory, name: string)
    requires forall value :: Keeps(option, value, InDirectory(directory))
    requires Items(option, name) == [name] && Source(option, name) == name && name !in option.constants
    ensures (option.pathList ==> Unseparated(AbsPath(directory, name)))
    ensures (option.path.Tree? ==> Free(AbsPath(directory, name), ':'))
  {
    hide AbsPath, Items, Source, IsSpace;
    assert Keeps(option, name, InDirectory(directory));
    assert KeepsItem(option, Items(option, name)[0], InDirectory(directory));
  }

  // ---- Command lines ----

  ghost predicate DirectoryFits(t: Table, directory: Directory) {
    forall s :: s in t.options ==> Fits(t.options[s], directory)
  }

  /**
   * In a directory that fits the option table, making the paths of any arguments absolute commutes with declaring
   * them, and doing it twice is doing it once.
   */
  lemma FittingDirectory(t: Table, directory: Directory, args: seq<string>, after: seq<string>, again: seq<string>)
    requires WellFormed(t) && DirectoryFits(t, directory) && !Incomplete(t, args)
    requires forall o :: o in Occurrences(t, args, 0) ==> !Collapses(o)
    requires Rewrites(args, after, Occurrences(t, args, 0), InDirectory(directory), 0)
    requires Rewrites(after, again, Occurrences(t, after, 0), InDirectory(directory), 0)
    ensures DeclaredBy(Occurrences(t, after, 0)) == MapAll(DeclaredBy(Occurrences(t, args, 0)), InDirectory(directory))
    ensures again == after
  {
    hide WellFormed, Occurrences, Rewrites, Collapses, DeclaredBy, Incomplete, AbsPath, Keeps, Absolute;
    var f := InDirectory(directory);
    AbsPathIsAbsolute(directory);
    forall s ensures f(f(s)) == f(s) {
      AbsPathIdempotent(directory, s);
    }
    OccurrencesKept(t, directory, args);
    hide InDirectory, KeepsAll, DirectoryFits;
    DeclaredCommutes(t, args, after, f);
    RewritingIdempotent(t, args, after, again, f);
  }

  lemma OccurrencesKept(t: Table, directory: Directory, args: seq<string>)
    requires DirectoryFits(t, directory)
    ensures KeepsAll(Occurrences(t, args, 0), InDirectory(directory))
  {
    hide Occurrences, Fits, InDirectory, Keeps;
    Spelled(t, args);
    forall o | o in Occurrences(t, args, 0) && HasPath(o)
      ensures Keeps(o.option, o.value.value, InDirectory(directory))
    {
      FittingKeeps(o.option, directory, o.value.value);
    }
  }

  // ---- A directory that does not fit ----

  lemma MyDirPath()
    ensures AbsPath("/my dir", "a") == "/my dir/a"
  {
    hide Normalised, Split;
    assert JoinPath("/my dir", "a") == "/my dir" + "/" + "a";
    ComponentsOfJoined("/my dir", "a");
    SplitFree("a", '/');
    SplitFree("my dir", '/');
    SplitAppend("", "my dir");
    EmptyPart([]);
    assert "" + "/" + "my dir" == "/my dir";
    NormalisedConcat([], Split("", '/'), ["my dir"]);
    NormalisedKeeps([], ["my dir"]);
    NormalisedKeeps(["my dir"], ["a"]);
    assert [] + ["my dir"] == ["my dir"] && ["my dir"] + ["a"] == ["my dir", "a"];
    assert ["my dir", "a"][1..] == ["a"];
    assert Join(["my dir", "a"], '/') == "my dir" + ['/'] + "a" == "my dir/a";
    var path := "/my dir" + "/" + "a";
    assert Components("/my dir") == ["my dir"] && Components(path) == ["my dir", "a"];
    assert path[1] == 'm' && path[..2][1] == 'm' && LeadingSlashes(path) == "/";
    assert "/" + "my dir/a" == "/my dir/a";
  }

  lemma FirstWord(word: string, separator: char, rest: string)
    requires word != "" && Unseparated(word) && IsSeparator(separator)
    ensures Words(word + ([separator] + rest)) == [word] + Words(rest)
  {
    hide IsSpace;
    var tail := [separator] + rest;
    var s := word + tail;
    WordLengthIs(word, tail);
    assert s[0] == word[0] && s[..|word|] == word && s[|word|..] == tail && tail[1..] == rest;
  }

  lemma MyDirWords()
    ensures Words("/my dir/a") == ["/my", "dir/a"]
  {
    hide Words;
    FirstWord("/my", ' ', "dir/a");
    assert "/my" + ([' '] + "dir/a") == "/my dir/a";
    WordsOfJoin(["dir/a"]);
    assert ["/my"] + ["dir/a"] == ["/my", "dir/a"];
  }

  /** One long include option with a value. */
  lemma IncludeScans(value: string)
    ensures Occurrences(Example(), ["--include=" + value], 0)
            == [Occurrence(Include(), "--include", 0, "--include=", Some(value))]
  {
    var t, argument := Example(), "--include=" + value;
    var args := [argument];
    NameOf("--include", "=" + value);
    assert argument == "--include" + ("=" + value);
    assert argument[9] == '=' && argument[10..] == value;
    assert argument != "--include" && argument != "-I" && "--include" + "=" == "--include=";
    assert Name(argument) == "--include" && "--include" in t.options && argument !in t.options;
    assert ParseOption(t, argument) == Some(Parsed("--include", "--include=", Some(value)));
    hide ParseOption;
    assert Read(t, argument) == Some(Parsed("--include", "--include=", Some(value)));
    hide Read;
    assert Step(t, args, 0) == (1, Some(Occurrence(Include(), "--include", 0, "--include=", Some(value))));
    assert Occurrences(t, args, 1) == [];
  }

  lemma IncludeDeclares(value: string, words: seq<string>)
    requires Words(value) == words && forall w :: w in words ==> w !in Include().constants
    ensures DeclaredBy(Occurrences(Example(), ["--include=" + value], 0)) == words
  {
    hide Occurrences, Words;
    IncludeScans(value);
    var os := Occurrences(Example(), ["--include=" + value], 0);
    assert os[..0] == [];
    PlainSources(words);
  }

  lemma {:induction false} PlainSources(words: seq<string>)
    requires forall w :: w in words ==> w !in Include().constants
    ensures Sources(Include(), words) == words
  {
    if words != [] {
      PlainSources(words[1..]);
      assert words == [words[0]] + words[1..];
    }
  }

  /**
   * In the directory "/my dir" the include "a" is rewritten to one path with a space, which a second look takes for
   * two: declaring the paths of the rewritten arguments does not give the path that was declared.
   */
  lemma DirectoryWithSpace()
    ensures var f, args, after := InDirectory("/my dir"), ["--include=a"], ["--include=/my dir/a"];
            && !Fits(Include(), "/my dir")
            && Rewrites(args, after, Occurrences(Example(), args, 0), f, 0)
            && MapAll(DeclaredBy(Occurrences(Example(), args, 0)), f) == ["/my dir/a"]
            && DeclaredBy(Occurrences(Example(), after, 0)) == ["/my", "dir/a"]
  {
    hide Occurrences, Words, AbsPath, DeclaredBy, NormPath, Rewrites;
    var f := InDirectory("/my dir");
    MyDirPath();
    MyDirWords();
    WordsOfJoin(["a"]);
    IncludeDeclares("a", ["a"]);
    IncludeDeclares("/my dir/a", ["/my", "dir/a"]);
    assert "--include=" + "a" == "--include=a" && "--include=" + "/my dir/a" == "--include=/my dir/a";
    IncludeRewrites(f, "a", "/my dir/a");
    MyDirSeparates();
  }

  lemma MyDirSeparates()
    ensures !Fits(Include(), "/my dir")
  {
    hide AbsPath, NormPath, Normalised;
    MyDirPath();
    WordsOfJoin(["a"]);
    assert Items(Include(), "a") == ["a"];
    assert IsSeparator("/my dir/a"[3]);
    assert !KeepsItem(Include(), Items(Include(), "a")[0], InDirectory("/my dir"));
    hide KeepsItem, Fits;
    if Fits(Include(), "/my dir") {
      FittingKeeps(Include(), "/my dir", "a");
    }
  }

  lemma IncludeRewrites(f: string -> string, value: string, path: string)
    requires Words(value) == [value] && value !in Include().constants && f(value) == path
    ensures Rewrites(["--include=" + value], ["--include=" + path],
                     Occurrences(Example(), ["--include=" + value], 0), f, 0)
  {
    hide Occurrences, Words;
    IncludeScans(value);
    var os := Occurrences(Example(), ["--include=" + value], 0);
    assert MapItems(Include(), [value], f) == [path] && Join([path], ',') == path;
    assert MapPaths(Include(), value, f) == path;
    assert HasPath(os[0]) && Touched(os, 0);
  }
}
