/**
 * Arguments with another attached value (mkosi/private/mkosi_runner/mkosi_options.py): the scanner reads the same
 * spelling and prefix, unless the value of a short option became empty.
 */
module OptionReattach {
  import opened Prelude
  import opened PathValues
  import opened Options

  // ---- Well-formed tables ----

  /** "-c" or "--name", without an equals sign. */
  predicate SpellingFormed(s: string) {
    && |s| >= 2 && s[0] == '-' && '=' !in s
    && (if s[1] == '-' then |s| > 2 else |s| == 2)
  }

  ghost predicate WellFormed(t: Table) {
    forall s :: s in t.options ==> SpellingFormed(s) && ConstantsPlain(t.options[s])
  }

  // ---- One argument with another attached value ----

  /** The value can stand after the prefix without being read differently. */
  predicate Attachable(prefix: string, value: string) {
    EndsWithEquals(prefix) || (value != "" && value[0] != '=')
  }

  predicate TakesValue(t: Table, p: Parsed)
    requires p.spelling in t.options
  {
    !t.options[p.spelling].arguments.NoValue?
  }

  /** A cluster with another value at its end. */
  function WithValue(p: Parsed, q: Parsed, value: string): Parsed
    requires p.prefix <= q.prefix
  {
    p.(explicit := Some(q.prefix[|p.prefix|..] + value))
  }

  lemma {:induction false} ClusterReattach(t: Table, p: Parsed, value: string)
    requires WellFormed(t)
    requires p.spelling in t.options && Cluster(t, p).Some? && Cluster(t, p).value.explicit.Some?
    requires TakesValue(t, Cluster(t, p).value) && Attachable(Cluster(t, p).value.prefix, value)
    ensures var q := Cluster(t, p).value;
            p.prefix <= q.prefix && Cluster(t, WithValue(p, q, value)) == Some(q.(explicit := Some(value)))
    decreases ExplicitLength(p)
  {
    ClusterKeeps(t, p);
    var q := Cluster(t, p).value;
    if !InCluster(t, p) {
      assert q.prefix[|p.prefix|..] + value == value;
    } else {
      var next := Advance(p);
      ClusterKeeps(t, next);
      ClusterReattach(t, next, value);
      AdvanceReattach(p, q, value);
    }
  }

  /** Advancing over a letter of the cluster does not depend on the value at its end. */
  lemma AdvanceReattach(p: Parsed, q: Parsed, value: string)
    requires p.explicit.Some? && p.explicit.value != "" && p.explicit.value[0] != '=' && q.explicit.Some?
    requires Advance(p).prefix <= q.prefix && p.prefix + p.explicit.value == q.prefix + q.explicit.value
    requires Attachable(q.prefix, value)
    ensures p.prefix <= q.prefix
    ensures var r := WithValue(p, q, value);
            && r.explicit.value != "" && r.explicit.value[0] == p.explicit.value[0]
            && Advance(r) == WithValue(Advance(p), q, value)
  {
    hide Advance;
    AdvanceKeeps(p);
    ConsumedFirst(p, q);
    var consumed := q.prefix[|p.prefix|..];
    var c, more := consumed[0], consumed[1..];
    assert consumed == [c] + more && q.prefix == p.prefix + [c] + more;
    assert p.explicit.value == [c] + (more + q.explicit.value) && consumed + value == [c] + (more + value);
    if more == "" {
      assert more + q.explicit.value == q.explicit.value && more + value == value;
      assert q.prefix[|q.prefix| - 1] == c;
      LastLetter(p, q, c, value);
    } else {
      InnerLetter(p, q, c, more, value);
    }
  }

  /** The last letter of a cluster, with another value after it. */
  lemma LastLetter(p: Parsed, q: Parsed, c: char, value: string)
    requires q.explicit.Some? && p.explicit == Some([c] + q.explicit.value) && q.prefix == p.prefix + [c]
    requires Advance(p).prefix <= q.prefix && value != "" && value[0] != '='
    ensures Advance(p.(explicit := Some([c] + value))) == WithValue(Advance(p), q, value)
  {
    hide Advance;
    AdvanceLetter(p, c, q.explicit.value);
    AdvanceLetter(p.(explicit := Some([c] + value)), c, value);
    assert q.prefix[|q.prefix|..] + value == value;
  }

  /** A letter with more of the cluster after it. */
  lemma InnerLetter(p: Parsed, q: Parsed, c: char, more: string, value: string)
    requires q.explicit.Some? && p.explicit == Some([c] + (more + q.explicit.value)) && more != ""
    requires q.prefix == p.prefix + [c] + more && Advance(p).prefix <= q.prefix
    ensures Advance(p.(explicit := Some([c] + (more + value)))) == WithValue(Advance(p), q, value)
  {
    hide Advance;
    var rest, other := more + q.explicit.value, more + value;
    AdvanceLetter(p, c, rest);
    AdvanceLetter(p.(explicit := Some([c] + other)), c, other);
    assert rest[0] == more[0] == other[0] && other[1..] == more[1..] + value;
    assert q.prefix[|p.prefix| + 1..] == more && q.prefix[|p.prefix| + 2..] == more[1..];
  }

  /** What advancing over one letter of a cluster does. */
  lemma AdvanceLetter(p: Parsed, letter: char, rest: string)
    requires p.explicit == Some([letter] + rest)
    ensures Advance(p) == if rest != "" && rest[0] == '='
                          then Parsed(['-', letter], p.prefix + [letter] + "=", Some(rest[1..]))
                          else Parsed(['-', letter], p.prefix + [letter], if rest == "" then None else Some(rest))
  {
    assert ([letter] + rest)[1..] == rest;
  }

  /** The letters between two prefixes of one argument start its attached part. */
  lemma ConsumedFirst(p: Parsed, q: Parsed)
    requires p.explicit.Some? && p.explicit.value != "" && q.explicit.Some?
    requires p.prefix < q.prefix && p.prefix + p.explicit.value == q.prefix + q.explicit.value
    ensures p.explicit.value == q.prefix[|p.prefix|..] + q.explicit.value
  {
    assert (p.prefix + p.explicit.value)[|p.prefix|..] == p.explicit.value;
    assert (q.prefix + q.explicit.value)[|p.prefix|..] == q.prefix[|p.prefix|..] + q.explicit.value;
  }

  lemma ParseReattach(t: Table, argument: string, tail: string)
    requires WellFormed(t) && ParseOption(t, argument).Some? && ParseOption(t, argument).value.explicit.Some?
    requires Attachable(ParseOption(t, argument).value.prefix, tail)
    ensures var p := ParseOption(t, argument).value;
            ParseOption(t, p.prefix + tail) == Some(p.(explicit := Some(tail)))
  {
    hide ConstantsPlain;
    var p := ParseOption(t, argument).value;
    var other := p.prefix + tail;
    assert SpellingFormed(p.spelling);
    if EndsWithEquals(p.prefix) {
      assert other == p.spelling + ("=" + tail);
      NameOf(p.spelling, "=" + tail);
      assert other[|p.spelling|] == '=' && other !in t.options;
      assert other[|p.spelling| + 1..] == tail;
    } else {
      assert p.spelling == p.prefix && |p.prefix| == 2;
      assert other[0] == p.prefix[0] && other[1] == p.prefix[1] && other[2] == tail[0];
      assert other !in t.options;
      assert |Name(other)| >= 3 by {
        assert Name(other) <= other;
      }
      assert Name(other)[1] == other[1];
      assert other[..2] == p.prefix && other[2..] == tail;
    }
  }

  /** Before its last option a cluster holds no equals sign. */
  lemma ClusterStart(t: Table, p: Parsed, q: Parsed, value: string)
    requires WellFormed(t) && p.spelling in t.options && p.explicit.Some? && Cluster(t, p) == Some(q)
    requires q.explicit.Some? && Attachable(q.prefix, value)
    ensures p.prefix <= q.prefix && Attachable(p.prefix, q.prefix[|p.prefix|..] + value)
    ensures InCluster(t, p) ==> |p.prefix| < |q.prefix| && Attachable(p.prefix, q.prefix[|p.prefix|..])
  {
    ClusterKeeps(t, p);
    if InCluster(t, p) {
      ClusterKeeps(t, Advance(p));
      assert SpellingFormed(['-', p.explicit.value[0]]);
      assert ['-', p.explicit.value[0]][1] != '=';
      assert q.prefix[|p.prefix|] == p.explicit.value[0] by {
        assert Advance(p).prefix <= q.prefix;
      }
    } else {
      assert q.prefix[|p.prefix|..] + value == value;
    }
  }

  /** Another attached value is read with the same spelling and prefix. */
  lemma ReadReattach(t: Table, argument: string, value: string)
    requires WellFormed(t) && Read(t, argument).Some? && Read(t, argument).value.explicit.Some?
    requires TakesValue(t, Read(t, argument).value) && Attachable(Read(t, argument).value.prefix, value)
    ensures var q := Read(t, argument).value;
            Read(t, q.prefix + value) == Some(q.(explicit := Some(value))) && IsOption(t, q.prefix + value)
  {
    hide Cluster, ParseOption, WellFormed;
    var p, q := ParseOption(t, argument).value, Read(t, argument).value;
    ClusterKeeps(t, p);
    ClusterStart(t, p, q, value);
    var tail := q.prefix[|p.prefix|..] + value;
    ParseReattach(t, argument, tail);
    ClusterReattach(t, p, value);
    assert p.prefix + tail == q.prefix + value;
    ParsedIsOption(t, p.prefix + tail);
  }

  lemma ParsedIsOption(t: Table, argument: string)
    requires WellFormed(t) && ParseOption(t, argument).Some?
    ensures IsOption(t, argument)
  {
    hide ConstantsPlain;
  }

  // ---- An attached value that became empty ----

  function WithoutValue(p: Parsed, q: Parsed): Parsed
    requires p.prefix <= q.prefix
  {
    p.(explicit := if p.prefix == q.prefix then None else Some(q.prefix[|p.prefix|..]))
  }

  lemma {:induction false} ClusterDetach(t: Table, p: Parsed)
    requires WellFormed(t)
    requires p.spelling in t.options && Cluster(t, p).Some? && Cluster(t, p).value.explicit.Some?
    requires TakesValue(t, Cluster(t, p).value) && !EndsWithEquals(Cluster(t, p).value.prefix)
    ensures var q := Cluster(t, p).value;
            p.prefix <= q.prefix && Cluster(t, WithoutValue(p, q)) == Some(q.(explicit := None))
    decreases ExplicitLength(p)
  {
    ClusterKeeps(t, p);
    var q := Cluster(t, p).value;
    if InCluster(t, p) {
      var next := Advance(p);
      ClusterKeeps(t, next);
      ClusterDetach(t, next);
      AdvanceDetach(p, q);
    }
  }

  lemma AdvanceDetach(p: Parsed, q: Parsed)
    requires p.explicit.Some? && p.explicit.value != "" && q.explicit.Some?
    requires Advance(p).prefix <= q.prefix && p.prefix + p.explicit.value == q.prefix + q.explicit.value
    requires !EndsWithEquals(q.prefix)
    ensures p.prefix <= q.prefix
    ensures var r := WithoutValue(p, q);
            && r.explicit.Some? && r.explicit.value != "" && r.explicit.value[0] == p.explicit.value[0]
            && Advance(r) == WithoutValue(Advance(p), q)
  {
    hide Advance;
    AdvanceKeeps(p);
    var consumed := q.prefix[|p.prefix|..];
    ConsumedFirst(p, q);
    var c, more := consumed[0], consumed[1..];
    var rest := more + q.explicit.value;
    assert consumed == [c] + more && p.explicit.value == [c] + rest;
    AdvanceLetter(p, c, rest);
    AdvanceLetter(WithoutValue(p, q), c, more);
    assert more == q.prefix[|p.prefix| + 1..];
    if more != "" {
      assert rest[0] == more[0] && more[1..] == q.prefix[|p.prefix| + 2..];
      assert q.prefix[|q.prefix| - 1] == more[|more| - 1];
    }
  }

  /** Without its value the argument is the bare option, which looks at the next argument. */
  lemma ReadDetach(t: Table, argument: string)
    requires WellFormed(t) && Read(t, argument).Some? && Read(t, argument).value.explicit.Some?
    requires TakesValue(t, Read(t, argument).value) && !EndsWithEquals(Read(t, argument).value.prefix)
    ensures var q := Read(t, argument).value;
            Read(t, q.prefix) == Some(q.(explicit := None)) && IsOption(t, q.prefix)
  {
    hide Cluster, WellFormed;
    var p, q := ParseOption(t, argument).value, Read(t, argument).value;
    ClusterKeeps(t, p);
    ClusterDetach(t, p);
    ClusterStart(t, p, q, "/");
    if InCluster(t, p) {
      var tail := q.prefix[|p.prefix|..];
      ParseReattach(t, argument, tail);
      assert p.prefix + tail == q.prefix;
    } else {
      ClusterDone(t, p);
      assert q.prefix in t.options;
    }
    ParsedIsOption(t, q.prefix);
  }

  lemma ClusterDone(t: Table, p: Parsed)
    requires p.spelling in t.options && !InCluster(t, p)
    ensures Cluster(t, p) == Some(p)
  {
  }
}
