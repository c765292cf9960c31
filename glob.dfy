/** Shell-style pattern matching as Python's `fnmatch.fnmatch` does it on a
    POSIX system (no case folding): `*` matches any run of characters, dots
    included, `?` any single character, `[...]` one character of a set,
    `[!...]` one character outside it, and everything else itself. The match
    is anchored at both ends. A `[` without a closing `]` is an ordinary
    character. */
module Glob {

  import opened Base

  datatype ClassItem = Single(c: char) | Range(lo: char, hi: char)

  datatype Token =
    | Star
    | AnyChar
    | CharClass(negated: bool, items: seq<ClassItem>)
    | Lit(c: char)

  predicate ItemHas(item: ClassItem, c: char) {
    match item
    case Single(d) => c == d
    case Range(lo, hi) => lo <= c <= hi
  }

  predicate TokenAccepts(t: Token, c: char)
    requires !t.Star?
  {
    match t
    case AnyChar => true
    case Lit(d) => c == d
    case CharClass(negated, items) =>
      (exists i :: 0 <= i < |items| && ItemHas(items[i], c)) != negated
  }

  /** The items of a bracket expression's contents: `a-z` is a range,
      a `-` that cannot be one end of a range is an ordinary character. */
  function ParseItems(body: string): (items: seq<ClassItem>)
    ensures |items| <= |body|
  {
    if body == [] then []
    else if |body| >= 3 && body[1] == '-' then [Range(body[0], body[2])] + ParseItems(body[3..])
    else [Single(body[0])] + ParseItems(body[1..])
  }

  /** The contents between `[` and `]`, with a leading `!` meaning negation. */
  function ParseClass(stuff: string): Token {
    if stuff != [] && stuff[0] == '!' then CharClass(true, ParseItems(stuff[1..]))
    else CharClass(false, ParseItems(stuff))
  }

  /** The first index at or after `k` that holds `]`. */
  function FindClose(p: string, k: nat): (r: Option<nat>)
    decreases |p| - k
    ensures r.Some? ==> k <= r.value < |p| && p[r.value] == ']'
    ensures r.Some? ==> forall i :: k <= i < r.value ==> p[i] != ']'
    ensures r.None? ==> forall i :: k <= i < |p| ==> p[i] != ']'
  {
    if k >= |p| then None
    else if p[k] == ']' then Some(k)
    else FindClose(p, k + 1)
  }

  /** For a pattern starting with `[`, the index of the `]` that closes it:
      a `]` right after `[` or `[!` belongs to the set. */
  function ClassEnd(p: string): (r: Option<nat>)
    requires p != [] && p[0] == '['
    ensures r.Some? ==> 1 <= r.value < |p| && p[r.value] == ']'
  {
    var k := if |p| > 1 && p[1] == '!' then 2 else 1;
    var k' := if k < |p| && p[k] == ']' then k + 1 else k;
    FindClose(p, k')
  }

  /** The pattern as a sequence of tokens. */
  function Compile(p: string): (ts: seq<Token>)
    decreases |p|
    ensures |ts| <= |p|
  {
    if p == [] then []
    else if p[0] == '*' then [Star] + Compile(p[1..])
    else if p[0] == '?' then [AnyChar] + Compile(p[1..])
    else if p[0] == '[' then
      match ClassEnd(p)
      case None => [Lit('[')] + Compile(p[1..])
      case Some(j) => [ParseClass(p[1..j])] + Compile(p[j + 1..])
    else [Lit(p[0])] + Compile(p[1..])
  }

  /** Whether the whole of `s` matches the whole token sequence. */
  predicate Matches(ts: seq<Token>, s: string)
    decreases |ts| + |s|
  {
    if ts == [] then s == []
    else if ts[0].Star? then Matches(ts[1..], s) || (s != [] && Matches(ts, s[1..]))
    else s != [] && TokenAccepts(ts[0], s[0]) && Matches(ts[1..], s[1..])
  }

  /** `fnmatch.fnmatch(name, pat)` */
  predicate Fnmatch(name: string, pat: string) {
    Matches(Compile(pat), name)
  }

  /** A pattern with none of the characters `*`, `?` and `[`. */
  predicate Literal(p: string) {
    forall i :: 0 <= i < |p| ==> p[i] != '*' && p[i] != '?' && p[i] != '['
  }

  function Lits(p: string): (ts: seq<Token>)
    ensures |ts| == |p|
  {
    if p == [] then [] else [Lit(p[0])] + Lits(p[1..])
  }

  lemma {:induction false} CompileLiteral(p: string)
    requires Literal(p)
    ensures Compile(p) == Lits(p)
  {
    if p != [] {
      CompileLiteral(p[1..]);
    }
  }

  lemma {:induction false} CompileAppend(p: string, q: string)
    requires Literal(p)
    ensures Compile(p + q) == Lits(p) + Compile(q)
  {
    if p != [] {
      assert (p + q)[1..] == p[1..] + q;
      CompileAppend(p[1..], q);
    } else {
      assert p + q == q;
    }
  }

  lemma {:induction false} MatchesLits(p: string, s: string)
    ensures Matches(Lits(p), s) <==> s == p
  {
    if p != [] && s != [] {
      MatchesLits(p[1..], s[1..]);
    }
  }

  /** A pattern without wildcards matches exactly the name it spells. */
  lemma LiteralMatchesItself(name: string, pat: string)
    requires Literal(pat)
    ensures Fnmatch(name, pat) <==> name == pat
  {
    CompileLiteral(pat);
    MatchesLits(pat, name);
  }

  lemma {:induction false} StarMatchesAll(s: string)
    ensures Matches([Star], s)
  {
    if s != [] {
      StarMatchesAll(s[1..]);
    }
  }

  /** `*` matches every name, dots included. */
  lemma StarMatchesEverything(name: string)
    ensures Fnmatch(name, "*")
  {
    assert "*"[1..] == "";
    assert Compile("*") == [Star];
    StarMatchesAll(name);
  }

  lemma {:induction false} LitsThenStar(p: string, s: string)
    ensures Matches(Lits(p) + [Star], s) <==> (|p| <= |s| && s[..|p|] == p)
  {
    if p == [] {
      assert Lits(p) + [Star] == [Star];
      StarMatchesAll(s);
    } else {
      assert (Lits(p) + [Star])[1..] == Lits(p[1..]) + [Star];
      if s != [] {
        LitsThenStar(p[1..], s[1..]);
        if |p| <= |s| {
          assert s[..|p|] == [s[0]] + s[1..][..|p| - 1];
        }
      }
    }
  }

  /** `prefix*` with a wildcard-free prefix matches exactly the names that
      start with that prefix, as in `myapp.logic*`. */
  lemma PrefixStar(name: string, prefix: string)
    requires Literal(prefix)
    ensures Fnmatch(name, prefix + "*") <==> (|prefix| <= |name| && name[..|prefix|] == prefix)
  {
    CompileAppend(prefix, "*");
    assert "*"[1..] == "";
    assert Compile("*") == [Star];
    LitsThenStar(prefix, name);
  }

  lemma {:induction false} StarThenLits(p: string, s: string)
    ensures Matches([Star] + Lits(p), s) <==> (|p| <= |s| && s[|s| - |p|..] == p)
  {
    assert ([Star] + Lits(p))[1..] == Lits(p);
    MatchesLits(p, s);
    if s != [] {
      StarThenLits(p, s[1..]);
      if |p| <= |s| - 1 {
        assert s[1..][|s| - 1 - |p|..] == s[|s| - |p|..];
      }
      if |p| == |s| {
        assert s[|s| - |p|..] == s;
      }
    }
  }

  /** `*suffix` with a wildcard-free suffix matches exactly the names that
      end with that suffix, as in `*.collect`. */
  lemma StarSuffix(name: string, suffix: string)
    requires Literal(suffix)
    ensures Fnmatch(name, "*" + suffix) <==> (|suffix| <= |name| && name[|name| - |suffix|..] == suffix)
  {
    assert ("*" + suffix)[0] == '*' && ("*" + suffix)[1..] == suffix;
    CompileLiteral(suffix);
    StarThenLits(suffix, name);
  }

  /** `?` matches exactly the one-character names. */
  lemma QuestionMarkOneChar(name: string)
    ensures Fnmatch(name, "?") <==> |name| == 1
  {
    assert "?"[1..] == "";
    assert Compile("?") == [AnyChar];
    if name != [] {
      assert Matches([AnyChar], name) == Matches([], name[1..]);
    }
  }

  /** A `[` that is never closed stands for itself. */
  lemma UnclosedBracketIsLiteral(name: string)
    ensures Fnmatch(name, "[") <==> name == "["
  {
    assert "["[1..] == "";
    assert ClassEnd("[") == None;
    assert Compile("[") == [Lit('[')];
    if name != [] {
      assert Matches([Lit('[')], name) == (name[0] == '[' && Matches([], name[1..]));
    }
  }

  /** `[!x]` matches every one-character name other than `x`. */
  lemma NegatedClass(name: string, x: char)
    requires x != ']'
    ensures Fnmatch(name, ['[', '!', x, ']']) <==> (|name| == 1 && name[0] != x)
  {
    var p := ['[', '!', x, ']'];
    assert FindClose(p, 3) == Some(3);
    assert ClassEnd(p) == Some(3);
    assert p[1..3] == ['!', x];
    assert ParseItems([x]) == [Single(x)];
    assert p[4..] == "";
    var t := CharClass(true, [Single(x)]);
    assert Compile(p) == [t];
    if name != [] {
      assert Matches([t], name) == (TokenAccepts(t, name[0]) && Matches([], name[1..]));
      assert TokenAccepts(t, name[0]) <==> name[0] != x by {
        assert ItemHas(t.items[0], name[0]) <==> name[0] == x;
      }
    }
  }
}
