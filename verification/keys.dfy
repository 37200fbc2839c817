/**
 * The key search (`findCandidateKeys`). The universe is every attribute
 * mentioned by a parsed dependency. For each size from 1 to the size of the
 * universe, every subset of that size is closed, and the subset is kept when
 * its closure is the whole universe. Nothing checks that a kept subset is
 * minimal, so the search returns every non-empty superkey.
 */
module Keys {
  import opened Schema
  import opened Parse
  import opened Closures

  /** What the search keeps: a non-empty subset of the universe whose closure is the universe. */
  predicate IsKey(fds: seq<FD>, k: AttrSet)
  {
    k != {} && k <= Universe(fds) && Closure(fds, k) == Universe(fds)
  }

  /** A key none of whose proper subsets is a key: a candidate key in the textbook sense. */
  ghost predicate IsMinimalKey(fds: seq<FD>, k: AttrSet)
  {
    IsKey(fds, k) && forall j :: IsKey(fds, j) && j <= k ==> j == k
  }

  /** The subsets of `u` with exactly `size` elements: one round of the bitmask enumeration. */
  function SubsetsOfSize(u: AttrSet, size: nat): set<AttrSet>
  {
    set k | k <= u && |k| == size
  }

  /** The result of the search on the dependency strings `fdStrings`. */
  function CandidateKeys(fdStrings: seq<string>): set<AttrSet>
  {
    var fds := ParseFDs(fdStrings);
    set k | k <= Universe(fds) && IsKey(fds, k)
  }

  /** The result of the search with a minimality filter. */
  ghost function MinimalKeys(fdStrings: seq<string>): set<AttrSet>
  {
    var fds := ParseFDs(fdStrings);
    set k | k <= Universe(fds) && IsMinimalKey(fds, k)
  }

  lemma CandidateKeysAreKeys(fdStrings: seq<string>)
    ensures forall k :: k in CandidateKeys(fdStrings) <==> IsKey(ParseFDs(fdStrings), k)
  {
  }

  lemma SubsetCardinality(a: AttrSet, b: AttrSet)
    requires a <= b
    ensures |a| <= |b|
    ensures a != b ==> |a| < |b|
  {
    assert b == a + (b - a);
    if a != b {
      var e :| e in b - a;
    }
  }

  /** The loop of lines 66-69: the union of both sides of every dependency. */
  method CollectAttributes(fds: seq<FD>) returns (all: AttrSet)
    ensures all == Universe(fds)
  {
    all := {};
    var j := 0;
    while j < |fds|
      invariant 0 <= j <= |fds|
      invariant all + Universe(fds[j..]) == Universe(fds)
      invariant all <= Universe(fds)
    {
      assert fds[j..][1..] == fds[j + 1..];
      all := all + fds[j].lhs;
      all := all + fds[j].rhs;
      j := j + 1;
    }
    assert fds[|fds|..] == [];
  }

  /**
   * One round of the outer loop of `findCandidateKeys`: every subset of the
   * universe with `size` elements is closed and kept when its closure is the
   * universe.
   */
  method KeepKeysOfSize(fds: seq<FD>, all: AttrSet, size: nat, found: set<AttrSet>) returns (keys: set<AttrSet>)
    requires all == Universe(fds) && 1 <= size
    requires forall k :: k in found <==> IsKey(fds, k) && |k| < size
    ensures forall k :: k in keys <==> IsKey(fds, k) && |k| <= size
  {
    keys := found;
    var todo := SubsetsOfSize(all, size);
    while todo != {}
      invariant forall k :: k in todo ==> k <= all && |k| == size
      invariant forall k :: k in keys <==> IsKey(fds, k) && (|k| < size || (|k| == size && k !in todo))
      decreases todo
    {
      var k :| k in todo;
      var closure := ClosureIterative(fds, k);
      if closure == all {
        keys := keys + {k};
      }
      todo := todo - {k};
    }
  }

  /**
   * `findCandidateKeys`: for each size `i` from 1 up to the size of the
   * universe, close every subset of that size and keep those whose closure is
   * the universe.
   */
  method FindCandidateKeys(fdStrings: seq<string>) returns (keys: set<AttrSet>)
    ensures keys == CandidateKeys(fdStrings)
    ensures forall k :: k in keys <==>
      k != {} && k <= Universe(ParseFDs(fdStrings)) && Closure(ParseFDs(fdStrings), k) == Universe(ParseFDs(fdStrings))
  {
    var fds := ParseFDs(fdStrings);
    var all := CollectAttributes(fds);
    keys := {};
    var i := 1;
    while i <= |all|
      invariant 1 <= i <= |all| + 1
      invariant forall k :: k in keys <==> IsKey(fds, k) && |k| < i
    {
      keys := KeepKeysOfSize(fds, all, i, keys);
      i := i + 1;
    }
    forall k | IsKey(fds, k)
      ensures |k| < i
    {
      SubsetCardinality(k, all);
    }
    SameKeysAsCandidateKeys(fdStrings, keys);
  }

  /** A set of key sets with exactly the keys as members is the search result. */
  lemma SameKeysAsCandidateKeys(fdStrings: seq<string>, keys: set<AttrSet>)
    requires forall k :: k in keys <==> IsKey(ParseFDs(fdStrings), k)
    ensures keys == CandidateKeys(fdStrings)
  {
    CandidateKeysAreKeys(fdStrings);
  }

  /** Every key contains a minimal key: shrinking a non-minimal key eventually reaches one. */
  lemma {:induction false} KeyContainsMinimalKey(fds: seq<FD>, k: AttrSet) returns (m: AttrSet)
    requires IsKey(fds, k)
    ensures IsMinimalKey(fds, m) && m <= k
    decreases |k|
  {
    if IsMinimalKey(fds, k) {
      m := k;
    } else {
      var j :| IsKey(fds, j) && j <= k && j != k;
      SubsetCardinality(j, k);
      m := KeyContainsMinimalKey(fds, j);
    }
  }

  /** A key that contains no smaller minimal key is itself minimal. */
  lemma NothingSmallerIsMinimal(fds: seq<FD>, k: AttrSet, found: set<AttrSet>)
    requires IsKey(fds, k)
    requires forall m :: IsMinimalKey(fds, m) && |m| < |k| ==> m in found
    requires forall m :: m in found ==> !(m <= k)
    ensures IsMinimalKey(fds, k)
  {
    forall j | IsKey(fds, j) && j <= k
      ensures j == k
    {
      var m := KeyContainsMinimalKey(fds, j);
      SubsetCardinality(m, k);
      assert m == k || m in found;
    }
  }

  /**
   * One round of the search with the minimality filter: a subset of `size`
   * elements whose closure is the universe is kept only when no key kept in
   * an earlier round is contained in it.
   */
  method KeepMinimalKeysOfSize(fds: seq<FD>, all: AttrSet, size: nat, found: set<AttrSet>) returns (keys: set<AttrSet>)
    requires all == Universe(fds) && 1 <= size
    requires forall k :: k in found <==> IsMinimalKey(fds, k) && |k| < size
    ensures forall k :: k in keys <==> IsMinimalKey(fds, k) && |k| <= size
  {
    keys := found;
    var todo := SubsetsOfSize(all, size);
    while todo != {}
      invariant forall k :: k in todo ==> k <= all && |k| == size
      invariant forall k :: k in keys <==> IsMinimalKey(fds, k) && (|k| < size || (|k| == size && k !in todo))
      decreases todo
    {
      var k :| k in todo;
      var closure := ClosureIterative(fds, k);
      if closure == all && !(exists m :: m in found && m <= k) {
        NothingSmallerIsMinimal(fds, k, found);
        keys := keys + {k};
      } else if closure == all {
        var m :| m in found && m <= k;
        assert m != k;
      }
      todo := todo - {k};
    }
  }

  /**
   * The search with the minimality filter. Sizes go up, so every smaller key
   * has been seen when a subset is examined.
   */
  method FindMinimalKeys(fdStrings: seq<string>) returns (keys: set<AttrSet>)
    ensures keys == MinimalKeys(fdStrings)
    ensures forall k :: k in keys <==> IsMinimalKey(ParseFDs(fdStrings), k)
  {
    var fds := ParseFDs(fdStrings);
    var all := CollectAttributes(fds);
    keys := {};
    var i := 1;
    while i <= |all|
      invariant 1 <= i <= |all| + 1
      invariant forall k :: k in keys <==> IsMinimalKey(fds, k) && |k| < i
    {
      keys := KeepMinimalKeysOfSize(fds, all, i, keys);
      i := i + 1;
    }
    forall k | IsMinimalKey(fds, k)
      ensures |k| < i
    {
      SubsetCardinality(k, all);
    }
    SameKeysAsMinimalKeys(fdStrings, keys);
  }

  /** A set of key sets with exactly the minimal keys as members is the corrected search result. */
  lemma SameKeysAsMinimalKeys(fdStrings: seq<string>, keys: set<AttrSet>)
    requires forall k :: k in keys <==> IsMinimalKey(ParseFDs(fdStrings), k)
    ensures keys == MinimalKeys(fdStrings)
  {
    assert forall k :: k in MinimalKeys(fdStrings) <==> IsMinimalKey(ParseFDs(fdStrings), k);
  }

  /** Enlarging a key within the universe gives a key: the result is upward-closed. */
  lemma KeysUpwardClosed(fds: seq<FD>, k: AttrSet, bigger: AttrSet)
    requires IsKey(fds, k) && k <= bigger <= Universe(fds)
    ensures IsKey(fds, bigger)
  {
    ClosureMonotone(fds, k, bigger);
  }

  /**
   * With no minimality filter, the search returns exactly the subsets of the
   * universe that contain a minimal key.
   */
  lemma KeysAreSupersetsOfMinimalKeys(fds: seq<FD>, k: AttrSet)
    ensures IsKey(fds, k) <==> k <= Universe(fds) && exists m :: IsMinimalKey(fds, m) && m <= k
  {
    if IsKey(fds, k) {
      var m := KeyContainsMinimalKey(fds, k);
    }
    if k <= Universe(fds) && exists m :: IsMinimalKey(fds, m) && m <= k {
      var m :| IsMinimalKey(fds, m) && m <= k;
      KeysUpwardClosed(fds, m, k);
    }
  }

  /** The whole universe is a key exactly when it is non-empty. */
  lemma UniverseIsKey(fds: seq<FD>)
    ensures IsKey(fds, Universe(fds)) <==> Universe(fds) != {}
  {
  }

  /** When no string has a marker, nothing is parsed, the universe is empty and no key is found. */
  lemma NoParsedDependenciesNoKeys(fdStrings: seq<string>)
    requires forall s :: s in fdStrings ==> !ContainsArrow(s)
    ensures ParseFDs(fdStrings) == [] && Universe(ParseFDs(fdStrings)) == {}
    ensures CandidateKeys(fdStrings) == {}
  {
  }

  /**
   * Whenever the parsed dependencies name no attribute, the result is empty.
   * This also covers strings that parse but name nothing, such as `->`.
   */
  lemma EmptyUniverseNoKeys(fdStrings: seq<string>)
    ensures Universe(ParseFDs(fdStrings)) == {} ==> CandidateKeys(fdStrings) == {}
  {
  }

  /**
   * The result depends only on which strings are given, not on their order
   * or repetition, so a sequence may stand for the program's `set<string>`.
   */
  lemma KeysIgnoreOrder(a: seq<string>, b: seq<string>)
    requires forall s :: s in a <==> s in b
    ensures CandidateKeys(a) == CandidateKeys(b)
  {
    var fa, fb := ParseFDs(a), ParseFDs(b);
    ParseFDsMembers(a);
    ParseFDsMembers(b);
    UniverseMembers(fa);
    UniverseMembers(fb);
    assert forall fd :: fd in fa <==> fd in fb;
    assert Universe(fa) == Universe(fb);
    forall k
      ensures IsKey(fa, k) <==> IsKey(fb, k)
    {
      ClosureIgnoresOrder(fa, fb, k);
    }
    CandidateKeysAreKeys(a);
    CandidateKeysAreKeys(b);
  }

  /** A set that strictly contains a key is not a minimal key. */
  lemma SmallerKeyNotMinimal(fds: seq<FD>, k: AttrSet, m: AttrSet)
    requires IsKey(fds, m) && m <= k && m != k
    ensures !IsMinimalKey(fds, k)
  {
  }
}
