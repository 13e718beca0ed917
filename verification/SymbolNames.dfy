/** Symbol names and their dot-separated components. */
module SymbolNames {
  import opened Collections

  /** `boost::split` at the dots. */
  function Split(s: string): (r: seq<string>)
    ensures r != [] && forall c | c in r :: '.' !in c
  {
    if s == "" then [""]
    else
      var r := Split(s[1..]);
      if s[0] == '.' then [""] + r else [[s[0]] + r[0]] + r[1..]
  }

  ghost function Join(cs: seq<string>): string {
    if cs == [] then "" else if |cs| == 1 then cs[0] else cs[0] + "." + Join(cs[1..])
  }

  lemma {:induction false} JoinSplit(s: string)
    ensures Join(Split(s)) == s
  {
    if s != "" {
      JoinSplit(s[1..]);
      var r := Split(s[1..]);
      if s[0] == '.' {
        assert Split(s)[1..] == r;
      } else if |r| > 1 {
        assert Split(s)[1..] == r[1..];
        assert ([s[0]] + r[0]) + "." + Join(r[1..]) == [s[0]] + (r[0] + "." + Join(r[1..]));
      }
    }
  }

  lemma {:induction false} SplitComponent(c: string)
    requires '.' !in c
    ensures Split(c) == [c]
  {
    if c != "" {
      assert c[0] in c && forall d | d in c[1..] :: d in c;
      SplitComponent(c[1..]);
      assert [c[0]] + c[1..] == c && [c] + [] == [c];
    }
  }

  lemma {:induction false} SplitFirst(c: string, rest: string)
    requires '.' !in c
    ensures Split(c + "." + rest) == [c] + Split(rest)
  {
    if c == "" {
      assert (c + "." + rest)[1..] == rest;
    } else {
      assert c[0] in c && forall d | d in c[1..] :: d in c;
      assert (c + "." + rest)[1..] == c[1..] + "." + rest;
      SplitFirst(c[1..], rest);
      assert [c[0]] + c[1..] == c;
      assert ([c[1..]] + Split(rest))[1..] == Split(rest);
    }
  }

  /** Components can be read off their concatenation. */
  lemma {:induction false} SplitJoin(cs: seq<string>)
    requires cs != [] && forall c | c in cs :: '.' !in c
    ensures Split(Join(cs)) == cs
  {
    assert cs[0] in cs;
    if |cs| == 1 {
      SplitComponent(cs[0]);
    } else {
      SplitJoin(cs[1..]);
      SplitFirst(cs[0], Join(cs[1..]));
    }
  }

  ghost function Reverse(s: seq<string>): seq<string> {
    seq(|s|, i requires 0 <= i < |s| => s[|s| - 1 - i])
  }

  /** The components of a name from the last to the first. */
  ghost function Rev(s: string): (r: seq<string>)
    ensures r != []
  {
    Reverse(Split(s))
  }

  lemma RevInjective(s: string, t: string)
    requires Rev(s) == Rev(t)
    ensures s == t
  {
    var a, b := Split(s), Split(t);
    forall i | 0 <= i < |a| ensures a[i] == b[i] {
      assert a[i] == Reverse(a)[|a| - 1 - i] && b[i] == Reverse(b)[|b| - 1 - i];
    }
    assert a == b;
    JoinSplit(s);
    JoinSplit(t);
  }

  /** The symbols that have the components of `path`, from the last one on. */
  ghost function Owners(symbols: set<string>, path: seq<string>): set<string> {
    set s | s in symbols && path <= Rev(s)
  }

  /** How many components of `s`, from the last one on, are needed so that no other symbol has
      them, or all of them. */
  ghost function Needed(symbols: set<string>, s: string, n: nat): (r: nat)
    requires 0 < n <= |Rev(s)|
    ensures n <= r <= |Rev(s)|
    ensures forall m | n <= m < r :: |Owners(symbols, Rev(s)[..m])| >= 2
    ensures r < |Rev(s)| ==> |Owners(symbols, Rev(s)[..r])| < 2
    decreases |Rev(s)| - n
  {
    if n == |Rev(s)| || |Owners(symbols, Rev(s)[..n])| < 2 then n else Needed(symbols, s, n + 1)
  }

  /** The components of the alias of `s`, in their order in the name. */
  ghost function Chosen(symbols: set<string>, s: string): seq<string> {
    var cs := Split(s);
    cs[|cs| - Needed(symbols, s, 1)..]
  }

  lemma TwoOwners(symbols: set<string>, path: seq<string>, s: string, t: string)
    requires s in Owners(symbols, path) && t in Owners(symbols, path) && s != t
    ensures |Owners(symbols, path)| >= 2
  {
    assert {s, t} <= Owners(symbols, path);
    SubsetCardinality({s, t}, Owners(symbols, path));
  }

  /** No two symbols need the same components. */
  lemma ChosenDiffer(symbols: set<string>, s: string, t: string)
    requires s in symbols && t in symbols && s != t
    ensures Chosen(symbols, s) != Chosen(symbols, t)
  {
    var n, m := Needed(symbols, s, 1), Needed(symbols, t, 1);
    if Chosen(symbols, s) == Chosen(symbols, t) {
      ChosenReversed(symbols, s);
      ChosenReversed(symbols, t);
      var path := Rev(s)[..n];
      assert n == m && path == Rev(t)[..m];
      TwoOwners(symbols, path, s, t);
      assert n == |Rev(s)| && m == |Rev(t)|;
      assert Rev(s) == path && Rev(t) == path;
      RevInjective(s, t);
    }
  }

  lemma ChosenReversed(symbols: set<string>, s: string)
    ensures var n := Needed(symbols, s, 1); |Chosen(symbols, s)| == n && Rev(s)[..n] == Reverse(Chosen(symbols, s))
  {
  }

  // The text of an alias.

  /** The text that `shortestUniqueSuffix` makes of the components: no dot as long as it is empty. */
  ghost function AliasText(text: string, cs: seq<string>): string
    decreases |cs|
  {
    if cs == [] then text else AliasText((if text == "" then "" else text + ".") + cs[0], cs[1..])
  }

  /** The components without the empty ones in front; the last one stays. */
  ghost function Trim(cs: seq<string>): (r: seq<string>)
    ensures cs != [] ==> r != [] && |r| <= |cs| && r == cs[|cs| - |r|..]
  {
    if |cs| > 1 && cs[0] == "" then Trim(cs[1..]) else cs
  }

  lemma {:induction false} AliasTextIsJoin(text: string, cs: seq<string>)
    requires text != ""
    ensures AliasText(text, cs) == if cs == [] then text else text + "." + Join(cs)
    decreases |cs|
  {
    if cs != [] {
      AliasTextIsJoin(text + "." + cs[0], cs[1..]);
      if |cs| > 1 {
        assert text + "." + cs[0] + "." + Join(cs[1..]) == text + "." + (cs[0] + "." + Join(cs[1..]));
      }
    }
  }

  lemma {:induction false} AliasTextIsTrimmed(cs: seq<string>)
    requires cs != []
    ensures AliasText("", cs) == Join(Trim(cs))
    decreases |cs|
  {
    assert "" + cs[0] == cs[0];
    if cs[0] == "" {
      if |cs| > 1 {
        AliasTextIsTrimmed(cs[1..]);
      }
    } else {
      AliasTextIsJoin(cs[0], cs[1..]);
      if |cs| == 1 {
        assert cs[1..] == [];
      }
    }
  }

  ghost function Alias(symbols: set<string>, s: string): string {
    AliasText("", Chosen(symbols, s))
  }

  /** The alias starts with an empty component and another: its dot is dropped. */
  ghost predicate LosesDot(symbols: set<string>, s: string) {
    |Chosen(symbols, s)| >= 2 && Chosen(symbols, s)[0] == ""
  }

  lemma ChosenComponents(symbols: set<string>, s: string)
    ensures Chosen(symbols, s) != [] && forall c | c in Chosen(symbols, s) :: '.' !in c
  {
    forall c | c in Chosen(symbols, s) ensures '.' !in c {
      assert c in Split(s);
    }
  }

  lemma AliasComponents(symbols: set<string>, s: string)
    ensures Split(Alias(symbols, s)) == Trim(Chosen(symbols, s))
  {
    var cs := Chosen(symbols, s);
    ChosenComponents(symbols, s);
    AliasTextIsTrimmed(cs);
    assert forall c | c in Trim(cs) :: c in cs;
    SplitJoin(Trim(cs));
  }

  /** The alias is made of the needed components, except when it loses a dot: then it is made of
      fewer, and other symbols have those too. */
  lemma AliasIsNeeded(symbols: set<string>, s: string)
    requires s in symbols
    ensures Split(Alias(symbols, s)) == Chosen(symbols, s) <==> !LosesDot(symbols, s)
    ensures LosesDot(symbols, s) ==> exists t :: t in symbols && t != s && Rev(Alias(symbols, s)) <= Rev(t)
  {
    AliasComponents(symbols, s);
    if LosesDot(symbols, s) {
      TrimShorter(Chosen(symbols, s));
      var t := OtherOwner(symbols, s, |Trim(Chosen(symbols, s))|);
      ChosenReversed(symbols, s);
      SuffixReversed(Chosen(symbols, s), Trim(Chosen(symbols, s)));
      assert Rev(Alias(symbols, s)) == Rev(s)[..|Trim(Chosen(symbols, s))|];
    }
  }

  lemma OtherOwner(symbols: set<string>, s: string, m: nat) returns (t: string)
    requires s in symbols && 0 < m < Needed(symbols, s, 1)
    ensures t in symbols && t != s && Rev(s)[..m] <= Rev(t)
  {
    var owners := Owners(symbols, Rev(s)[..m]);
    assert |owners| >= 2;
    if owners <= {s} {
      SubsetCardinality(owners, {s});
    }
    t :| t in owners && t != s;
  }

  lemma TrimShorter(cs: seq<string>)
    requires |cs| >= 2 && cs[0] == ""
    ensures 0 < |Trim(cs)| < |cs|
  {
  }

  lemma SuffixReversed(cs: seq<string>, r: seq<string>)
    requires |r| <= |cs| && r == cs[|cs| - |r|..]
    ensures Reverse(r) == Reverse(cs)[..|r|]
  {
    forall i | 0 <= i < |r| ensures Reverse(r)[i] == Reverse(cs)[i] {
      assert r[|r| - 1 - i] == cs[|cs| - 1 - i];
    }
  }

  /** `long` is `short` with empty components in front. */
  ghost predicate Padded(long: seq<string>, short: seq<string>) {
    && |long| > |short| && long[|long| - |short|..] == short
    && forall i | 0 <= i < |long| - |short| :: long[i] == ""
  }

  /** The components that `s` needs are all those of `t` after some empty ones. */
  ghost predicate Shadows(symbols: set<string>, s: string, t: string) {
    Padded(Chosen(symbols, s), Split(t))
  }

  /** Two symbols have the same alias exactly if what one of them needs is the other, whole, after
      empty components. */
  lemma SameAliasExactly(symbols: set<string>, s: string, t: string)
    requires s in symbols && t in symbols && s != t
    ensures Alias(symbols, s) == Alias(symbols, t) <==> Shadows(symbols, s, t) || Shadows(symbols, t, s)
  {
    AliasComponents(symbols, s);
    AliasComponents(symbols, t);
    ChosenComponents(symbols, s);
    ChosenComponents(symbols, t);
    var a, b := Chosen(symbols, s), Chosen(symbols, t);
    if Trim(a) == Trim(b) {
      ChosenDiffer(symbols, s, t);
      if |a| > |b| {
        TrimmedAlike(a, b);
        NeedsAll(symbols, s, t);
      } else {
        TrimmedAlike(b, a);
        NeedsAll(symbols, t, s);
      }
    }
    if Shadows(symbols, s, t) {
      ShadowedNeedsAll(symbols, s, t);
      TrimPadded(a, b);
    }
    if Shadows(symbols, t, s) {
      ShadowedNeedsAll(symbols, t, s);
      TrimPadded(b, a);
    }
    if Trim(a) == Trim(b) {
      AliasTextIsTrimmed(a);
      AliasTextIsTrimmed(b);
    }
  }

  /** If another symbol has the components that `t` needs, those are all that `t` has. */
  lemma NeedsAll(symbols: set<string>, s: string, t: string)
    requires s in symbols && t in symbols && s != t && Padded(Chosen(symbols, s), Chosen(symbols, t))
    ensures Chosen(symbols, t) == Split(t)
  {
    ChosenReversed(symbols, s);
    ChosenReversed(symbols, t);
    SuffixReversed(Chosen(symbols, s), Chosen(symbols, t));
    var path := Rev(t)[..Needed(symbols, t, 1)];
    assert path <= Rev(s) && path <= Rev(t);
    TwoOwners(symbols, path, s, t);
  }

  lemma ShadowedNeedsAll(symbols: set<string>, s: string, t: string)
    requires s in symbols && t in symbols && s != t && Shadows(symbols, s, t)
    ensures Chosen(symbols, t) == Split(t)
  {
    ChosenReversed(symbols, s);
    SuffixReversed(Chosen(symbols, s), Split(t));
    var path := Rev(t)[..Needed(symbols, t, 1)];
    assert Rev(t) <= Rev(s);
    assert path <= Rev(s) && path <= Rev(t);
    TwoOwners(symbols, path, s, t);
  }

  lemma {:induction false} TrimmedAway(cs: seq<string>)
    ensures forall i | 0 <= i < |cs| - |Trim(cs)| :: cs[i] == ""
  {
    if |cs| > 1 && cs[0] == "" {
      TrimmedAway(cs[1..]);
      forall i | 0 < i < |cs| - |Trim(cs)| ensures cs[i] == "" {
        assert cs[i] == cs[1..][i - 1];
      }
    }
  }

  lemma {:induction false} TrimmedAlike(long: seq<string>, short: seq<string>)
    requires long != [] && short != [] && Trim(long) == Trim(short)
    ensures |long| > |short| ==> Padded(long, short)
    ensures |long| == |short| ==> long == short
  {
    TrimmedAway(long);
    TrimmedAway(short);
    SameEnd(long, short, Trim(long));
  }

  /** Two names that are the same components after empty ones. */
  lemma {:induction false} SameEnd(long: seq<string>, short: seq<string>, r: seq<string>)
    requires |r| <= |long| && |r| <= |short| && long[|long| - |r|..] == r == short[|short| - |r|..]
    requires (forall i | 0 <= i < |long| - |r| :: long[i] == "") && forall i | 0 <= i < |short| - |r| :: short[i] == ""
    ensures |long| > |short| ==> Padded(long, short)
    ensures |long| == |short| ==> long == short
  {
    if |long| >= |short| {
      var d := |long| - |short|;
      forall i | 0 <= i < |short| ensures long[d + i] == short[i] {
        if i >= |short| - |r| {
          assert long[d + i] == r[i - (|short| - |r|)] == short[i];
        }
      }
      assert long[d..] == short;
    }
  }

  lemma {:induction false} TrimPadded(long: seq<string>, short: seq<string>)
    requires Padded(long, short) && short != []
    ensures Trim(long) == Trim(short)
    decreases |long|
  {
    assert long[0] == "";
    if |long| > |short| + 1 {
      TrimPadded(long[1..], short);
    } else {
      assert long[1..] == short;
    }
  }

  /** In particular distinct symbols have distinct aliases unless one of them loses a dot. */
  lemma AliasesDiffer(symbols: set<string>, s: string, t: string)
    requires s in symbols && t in symbols && s != t
    requires !LosesDot(symbols, s) && !LosesDot(symbols, t)
    ensures Alias(symbols, s) != Alias(symbols, t)
  {
    SameAliasExactly(symbols, s, t);
  }

  /** No alias loses a dot if no name has an empty component. */
  lemma NoEmptyComponent(symbols: set<string>, s: string)
    requires "" !in Split(s)
    ensures !LosesDot(symbols, s)
  {
    ChosenComponents(symbols, s);
    assert Chosen(symbols, s)[0] in Split(s);
  }

  lemma DottedName(t: string)
    requires '.' !in t
    ensures Split(t) == [t] && Rev(t) == [t]
    ensures Split("." + t) == ["", t] && Rev("." + t) == [t, ""]
  {
    SplitComponent(t);
    SplitFirst("", t);
    assert "" + "." + t == "." + t && [""] + [t] == ["", t];
    assert Reverse([t]) == [t] && Reverse(["", t]) == [t, ""];
  }

  lemma DottedNeeds(symbols: set<string>, t: string)
    requires '.' !in t && t in symbols && "." + t in symbols
    ensures Chosen(symbols, t) == [t] && Chosen(symbols, "." + t) == ["", t]
  {
    DottedName(t);
    assert Rev("." + t)[..1] == [t];
    TwoOwners(symbols, [t], t, "." + t);
    assert Needed(symbols, t, 1) == 1 && Needed(symbols, "." + t, 1) == 2;
  }

  /** A lost dot need not make two aliases the same. */
  lemma LostDotAlone()
    ensures LosesDot({".a", "b.a"}, ".a") && Alias({".a", "b.a"}, ".a") != Alias({".a", "b.a"}, "b.a")
  {
    var symbols := {".a", "b.a"};
    DottedName("a");
    SplitFirst("b", "a");
    assert "b" + "." + "a" == "b.a" && "." + "a" == ".a";
    assert Split("b.a") == ["b", "a"] && Rev("b.a")[..1] == ["a"] && Rev(".a")[..1] == ["a"];
    TwoOwners(symbols, ["a"], ".a", "b.a");
    assert Needed(symbols, ".a", 1) == 2;
    SameAliasExactly(symbols, ".a", "b.a");
  }

  /** A name without dots and the same name after a dot have the same alias. */
  lemma SameAlias(symbols: set<string>, t: string)
    requires '.' !in t && t in symbols && "." + t in symbols
    ensures Alias(symbols, t) == Alias(symbols, "." + t) == t
  {
    DottedNeeds(symbols, t);
    OneComponentLeft(t);
  }

  lemma OneComponentLeft(t: string)
    ensures AliasText("", [t]) == t && AliasText("", ["", t]) == t
  {
    AliasOfOne([t]);
    AliasAfterEmpty(["", t]);
    assert ["", t][1..] == [t];
  }

  lemma AliasOfOne(cs: seq<string>)
    requires |cs| == 1
    ensures AliasText("", cs) == cs[0]
  {
    assert "" + cs[0] == cs[0] && cs[1..] == [];
  }

  lemma AliasAfterEmpty(cs: seq<string>)
    requires cs != [] && cs[0] == ""
    ensures AliasText("", cs) == AliasText("", cs[1..])
  {
    assert "" + cs[0] == "";
  }
}
