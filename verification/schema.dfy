/**
 * Attributes, attribute sets and functional dependencies: the values that
 * the parser produces and that the closure and the key search consume.
 */
module Schema {

  /** An attribute is an opaque, case-sensitive token, taken verbatim from the input. */
  type Attribute = string

  type AttrSet = set<Attribute>

  /** A functional dependency `lhs -> rhs`. Neither side is required to be non-empty. */
  datatype FD = FD(lhs: AttrSet, rhs: AttrSet)

  /** The result of a search that may find nothing (`std::string::npos` and friends). */
  datatype Option<+T> = None | Some(value: T)

  /** Every attribute that some dependency of `fds` can add. */
  function AllRhs(fds: seq<FD>): AttrSet
  {
    if fds == [] then {} else fds[0].rhs + AllRhs(fds[1..])
  }

  /** Every attribute mentioned on either side of a dependency of `fds`. */
  function Universe(fds: seq<FD>): (r: AttrSet)
    ensures AllRhs(fds) <= r
  {
    if fds == [] then {} else fds[0].lhs + fds[0].rhs + Universe(fds[1..])
  }

  /** `AllRhs` collects the right side of every listed dependency and nothing else. */
  lemma {:induction false} AllRhsMembers(fds: seq<FD>)
    ensures forall a :: a in AllRhs(fds) <==> exists fd :: fd in fds && a in fd.rhs
  {
    if fds != [] {
      AllRhsMembers(fds[1..]);
      assert forall fd :: fd in fds <==> fd == fds[0] || fd in fds[1..];
    }
  }

  /** `Universe` collects both sides of every listed dependency and nothing else. */
  lemma {:induction false} UniverseMembers(fds: seq<FD>)
    ensures forall a :: a in Universe(fds) <==> exists fd :: fd in fds && (a in fd.lhs || a in fd.rhs)
  {
    if fds != [] {
      UniverseMembers(fds[1..]);
      assert forall fd :: fd in fds <==> fd == fds[0] || fd in fds[1..];
    }
  }

  /** `s` is closed under `fds`: every dependency whose left side holds in `s` has its right side in `s`. */
  ghost predicate IsClosed(fds: seq<FD>, s: AttrSet)
  {
    forall fd :: fd in fds && fd.lhs <= s ==> fd.rhs <= s
  }
}
