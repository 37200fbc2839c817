/**
 * The program's own example, `{"A->B", "B->C", "CD->E"}`. The facts are
 * first proved for any chain `a -> b`, `b -> c`, `cd -> e` over five
 * distinct attributes, then instantiated with the example's strings.
 */
module Example {
  import opened Schema
  import opened Parse
  import opened Closures
  import opened Keys

  /** The dependencies `a -> b`, `b -> c` and `cd -> e`, in that order. */
  function Chain(a: Attribute, b: Attribute, c: Attribute, cd: Attribute, e: Attribute): seq<FD>
  {
    [FD({a}, {b}), FD({b}, {c}), FD({cd}, {e})]
  }

  predicate Distinct(a: Attribute, b: Attribute, c: Attribute, cd: Attribute, e: Attribute)
  {
    a != b && a != c && a != cd && a != e && b != c && b != cd && b != e && c != cd && c != e && cd != e
  }

  lemma ChainUniverse(a: Attribute, b: Attribute, c: Attribute, cd: Attribute, e: Attribute)
    ensures Universe(Chain(a, b, c, cd, e)) == {a, b, c, cd, e}
  {
    var fds := Chain(a, b, c, cd, e);
    assert fds[1..][1..][1..] == [];
    assert Universe(fds[1..][1..]) == {cd, e};
    assert Universe(fds[1..]) == {b, c, cd, e};
  }

  /** `{a, cd}` determines everything: `a` gives `b`, `b` gives `c`, `cd` gives `e`. */
  lemma ChainSmallestKey(a: Attribute, b: Attribute, c: Attribute, cd: Attribute, e: Attribute)
    ensures IsKey(Chain(a, b, c, cd, e), {a, cd})
  {
    var fds := Chain(a, b, c, cd, e);
    ChainUniverse(a, b, c, cd, e);
    var r := Closure(fds, {a, cd});
    assert fds[0] in fds && fds[1] in fds && fds[2] in fds;
    assert b in r;
    assert c in r;
    assert e in r;
  }

  /** No dependency adds `a` or `cd`, so the universe without either one is closed. */
  lemma ChainClosedWithout(a: Attribute, b: Attribute, c: Attribute, cd: Attribute, e: Attribute)
    requires Distinct(a, b, c, cd, e)
    ensures IsClosed(Chain(a, b, c, cd, e), {a, b, c, cd, e} - {a})
    ensures IsClosed(Chain(a, b, c, cd, e), {a, b, c, cd, e} - {cd})
  {
  }

  lemma ChainKeyCase(a: Attribute, b: Attribute, c: Attribute, cd: Attribute, e: Attribute, k: AttrSet)
    requires Distinct(a, b, c, cd, e) && k <= {a, b, c, cd, e}
    ensures IsKey(Chain(a, b, c, cd, e), k) <==> {a, cd} <= k
  {
    var fds := Chain(a, b, c, cd, e);
    var u := {a, b, c, cd, e};
    ChainUniverse(a, b, c, cd, e);
    if {a, cd} <= k {
      ChainSmallestKey(a, b, c, cd, e);
      KeysUpwardClosed(fds, {a, cd}, k);
    } else {
      ChainClosedWithout(a, b, c, cd, e);
      if a !in k {
        ClosureLeast(fds, k, u - {a});
      } else {
        ClosureLeast(fds, k, u - {cd});
      }
    }
  }

  /** The keys of the chain are exactly the subsets of its universe that contain `a` and `cd`. */
  lemma ChainKeys(a: Attribute, b: Attribute, c: Attribute, cd: Attribute, e: Attribute)
    requires Distinct(a, b, c, cd, e)
    ensures forall k :: IsKey(Chain(a, b, c, cd, e), k) <==> {a, cd} <= k <= {a, b, c, cd, e}
  {
    ChainUniverse(a, b, c, cd, e);
    forall k
      ensures IsKey(Chain(a, b, c, cd, e), k) <==> {a, cd} <= k <= {a, b, c, cd, e}
    {
      if k <= {a, b, c, cd, e} {
        ChainKeyCase(a, b, c, cd, e, k);
      }
    }
  }

  /** The chain has the single minimal key `{a, cd}`. */
  lemma ChainMinimalKeys(a: Attribute, b: Attribute, c: Attribute, cd: Attribute, e: Attribute)
    requires Distinct(a, b, c, cd, e)
    ensures forall k :: IsMinimalKey(Chain(a, b, c, cd, e), k) <==> k == {a, cd}
  {
    ChainKeys(a, b, c, cd, e);
  }

  /** `{a, b, cd}` is a key of the chain but not a minimal one. */
  lemma ChainNonMinimalKey(a: Attribute, b: Attribute, c: Attribute, cd: Attribute, e: Attribute)
    requires Distinct(a, b, c, cd, e)
    ensures IsKey(Chain(a, b, c, cd, e), {a, b, cd})
    ensures !IsMinimalKey(Chain(a, b, c, cd, e), {a, b, cd})
  {
    ChainKeyCase(a, b, c, cd, e, {a, b, cd});
    ChainSmallestKey(a, b, c, cd, e);
    SmallerKeyNotMinimal(Chain(a, b, c, cd, e), {a, b, cd}, {a, cd});
  }

  /** The dependency strings of the program's example. */
  const Sample: seq<string> := ["A->B", "B->C", "CD->E"]

  /** Three dependency strings that each parse give a list of three dependencies. */
  lemma ParseThree(s0: string, s1: string, s2: string, f0: FD, f1: FD, f2: FD)
    requires ParseFD(s0) == Some(f0) && ParseFD(s1) == Some(f1) && ParseFD(s2) == Some(f2)
    ensures ParseFDs([s0, s1, s2]) == [f0, f1, f2]
  {
    ParseFDsCons(s2, [], f2);
    assert [s2] + [] == [s2];
    ParseFDsCons(s1, [s2], f1);
    assert [s1] + [s2] == [s1, s2];
    ParseFDsCons(s0, [s1, s2], f0);
    assert [s0] + [s1, s2] == [s0, s1, s2];
  }

  /** Every name is a single non-empty token holding no `,`, and no left-side name holds `-`. */
  predicate SimpleNames(a: Attribute, b: Attribute, c: Attribute, cd: Attribute, e: Attribute)
  {
    && |a| > 0 && |b| > 0 && |c| > 0 && |cd| > 0 && |e| > 0
    && ',' !in a && ',' !in b && ',' !in c && ',' !in cd && ',' !in e
    && '-' !in a && '-' !in b && '-' !in cd
  }

  /** `a->b`, `b->c`, `cd->e` parse to the chain when every name is a single token. */
  lemma ChainParse(a: Attribute, b: Attribute, c: Attribute, cd: Attribute, e: Attribute)
    requires SimpleNames(a, b, c, cd, e)
    ensures ParseFDs([a + "->" + b, b + "->" + c, cd + "->" + e]) == Chain(a, b, c, cd, e)
  {
    DashFreeHasNoArrow(a);
    DashFreeHasNoArrow(b);
    DashFreeHasNoArrow(cd);
    ParseSimple(a, b);
    ParseSimple(b, c);
    ParseSimple(cd, e);
    ParseThree(a + "->" + b, b + "->" + c, cd + "->" + e, FD({a}, {b}), FD({b}, {c}), FD({cd}, {e}));
  }

  lemma SampleNames()
    ensures SimpleNames("A", "B", "C", "CD", "E")
    ensures Sample == ["A" + "->" + "B", "B" + "->" + "C", "CD" + "->" + "E"]
  {
    assert "A" + "->" + "B" == "A->B";
    assert "B" + "->" + "C" == "B->C";
    assert "CD" + "->" + "E" == "CD->E";
  }

  /** Each sample string is cut at its marker; `CD` holds no comma, so it is one attribute, not `C` and `D`. */
  lemma SampleParse()
    ensures ParseFDs(Sample) == Chain("A", "B", "C", "CD", "E")
  {
    SampleNames();
    ChainParse("A", "B", "C", "CD", "E");
  }

  /** The bare marker `->` parses, to a dependency with two empty sides; it names no attribute, so no key is found. */
  lemma BareArrow()
    ensures ParseFD("->") == Some(FD({}, {}))
    ensures CandidateKeys(["->"]) == {}
  {
    ParseAtFirstArrow("", "");
    assert "" + "->" + "" == "->";
    ParseFDsCons("->", [], FD({}, {}));
    assert ["->"] + [] == ["->"];
    assert Universe([FD({}, {})]) == {};
    EmptyUniverseNoKeys(["->"]);
  }

  /** The search on the example returns the eight subsets of `{A, B, C, CD, E}` that contain `A` and `CD`. */
  lemma SampleResult()
    ensures forall k :: k in CandidateKeys(Sample) <==> {"A", "CD"} <= k <= {"A", "B", "C", "CD", "E"}
  {
    SampleParse();
    ChainKeys("A", "B", "C", "CD", "E");
    CandidateKeysAreKeys(Sample);
  }

  /** The search keeps a key that is not minimal: `{A, B, CD}` contains the key `{A, CD}`. */
  lemma SampleHasNonMinimalKey()
    ensures {"A", "B", "CD"} in CandidateKeys(Sample)
    ensures !IsMinimalKey(ParseFDs(Sample), {"A", "B", "CD"})
  {
    SampleParse();
    ChainNonMinimalKey("A", "B", "C", "CD", "E");
    CandidateKeysAreKeys(Sample);
  }

  /** With the minimality filter the example has the single candidate key `{A, CD}`. */
  lemma SampleMinimalKeys()
    ensures forall k :: IsMinimalKey(ParseFDs(Sample), k) <==> k == {"A", "CD"}
  {
    SampleParse();
    ChainMinimalKeys("A", "B", "C", "CD", "E");
  }
}
